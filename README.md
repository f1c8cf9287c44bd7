# Literal split, Knuth-Morris-Pratt search and a truth-assignment table

This project models three parts of a small Java code base and proves what
they promise.

- **Substring search** (`Matching`, `Automaton`, `Kmp`, `WriteSplit`).
  - `IndexOf` is the reference: the leftmost index at or after a start index where a non-empty
    pattern occurs in a text, or -1 (Java's `String.indexOf(String, int)`).
  - The brute-force double loop `WriteSplit.BruteForceSubstringSearch` is proved equal to it.
  - So is the Knuth-Morris-Pratt matcher `Kmp.KMP`. Its constructor fills a `128 x m` table
    `dfa` column by column. The proof shows that every entry `dfa[c, j]` is the length of the
    longest prefix of the pattern that is a suffix of `pattern[..j] + [c]` (`Automaton.Delta`).
    The single left-to-right scan of `Search` then keeps, in its state `j`, the longest such
    overlap with the text read so far (`Automaton.OverlapStep`).
- **The split driver** (`Splitting`, `WriteSplit`). The Java code repeats one loop three
  times, once per search backend.
  - Here it is one method, `WriteSplit.SplitWith`. It takes a `Matcher`: brute force, a built
    automaton, or a Boyer-Moore search supplied as a function that meets the
    leftmost-occurrence contract.
  - It is proved equal to the specification function `Splitting.SplitOn`. So every backend
    returns the same fields, and `Split` dispatches on a `Backend` value.
  - The lemmas about `SplitOn` cover:
    - joining all fields with the delimiter gives back the text;
    - only trailing empty fields are removed;
    - no field contains the delimiter;
    - empty text, or text made only of delimiters, splits into nothing;
    - the result equals Java's `String.split` on a literal delimiter exactly when the text is
      not empty.
- **The truth assignment** (`Truth.TruthAssignment`). This is a mutable name-to-boolean
  table.
  - The constructor's checks become a factory, `Create`, that returns a `Result`.
  - `GetValue`, `SetValue` and `AddValue` report their "must exist" / "must not exist" errors
    as values, and leave the table unchanged when they refuse.

The code and the usual description of `split` disagree on empty input, and the model follows
the code. The description (and Java's `String.split`) gives `[""]` for an empty text. The code
never reaches its remainder branch there (`i < str.length()` is false at
code/split/WriteSplit.java:139), so it returns an empty array. `Splitting.SplitEmptyText`
states what the code does. `Splitting.SplitAgreesWithJava` shows that this is the only input
where the two differ.

## Model

| member | source | states |
|---|---|---|
| Matching.IndexOf | code/split/WriteSplit.java:96-98 | a found index lies between `from` and the text length minus the pattern length, so a start past that point gives -1 |
| Matching.IndexOfIsLeftmost | code/split/WriteSplit.java:333-347 | the reference search returns the leftmost occurrence at or after the start, and -1 only when there is none |
| Automaton.Delta | code/split/KMP.java:19-28 | the intended table entry for state `j` and symbol `c` lies in `0..j+1`, and the pattern's own symbol advances to `j + 1` |
| Automaton.OverlapStep | code/split/KMP.java:42-45 | the longest overlap after one more symbol depends only on the previous overlap and that symbol, which is why one table lookup per symbol suffices |
| Automaton.OverlapAccepts | code/split/KMP.java:46-49 | the scan's state equals the pattern length exactly when an occurrence starting at or after the start index ends at the current position |
| Automaton.DeltaInitial | code/split/KMP.java:19 | column 0 moves to 1 on the pattern's first symbol and to 0 on every other symbol |
| Automaton.DeltaRestart | code/split/KMP.java:22-24 | the restart state is below `j`, and on a symbol other than `pattern[j]` state `j` moves exactly as the restart state does |
| Automaton.RestartAdvance | code/split/KMP.java:27 | reading `pattern[j]` from the restart state yields the restart state for column `j + 1`, which stays at most `j` |
| Kmp.ScanStep | code/split/KMP.java:42-45 | one step of the scan finds no occurrence ending before the new position and moves to the next overlap |
| Kmp.KMP.constructor | code/split/KMP.java:14-29 | for a non-empty pattern over the 128-symbol alphabet, it stores the pattern, every entry equals `Delta`, lies in `0..j+1`, and `dfa[pattern[j], j] == j + 1` |
| Kmp.KMP.BuildDfa | code/split/KMP.java:16-28 | the fresh `128 x m` table holds `Delta(pattern, j, c)` in every entry; the loop keeps the restart state below `j` |
| Kmp.KMP.FillColumn | code/split/KMP.java:22-26 | column `j` becomes the column of state `j`, and every other column is unchanged |
| Kmp.KMP.CopyColumn | code/split/KMP.java:22-24 | column `to` becomes a copy of column `from`, and nothing else changes |
| Kmp.KMP.Search | code/split/KMP.java:37-53 | returns exactly `IndexOf(str, pattern, i)`: the leftmost occurrence at or after `i`, or -1, including for a start beyond the text |
| Kmp.KMP.Transition | code/split/KMP.java:43 | one table lookup is the transition `Delta` |
| Kmp.KMP.SearchFromStart | code/split/KMP.java:60-62 | searching from the start equals `IndexOf(str, pattern, 0)` |
| Kmp.KMP.GetPattern | code/split/KMP.java:64-66 | returns the stored pattern, which is never empty |
| Splitting.Scan | code/split/WriteSplit.java:124-136 | the scan's cursor stays between its start and the end of the text |
| Splitting.TrimTrailing | code/split/WriteSplit.java:143-149 | the result is a prefix of the input, does not end with an empty field, and only empty fields were dropped |
| Splitting.AllFields | code/split/WriteSplit.java:126-140 | the untrimmed fields are the scanned ones plus the remainder: one more field than delimiters consumed |
| Splitting.SplitOn | code/split/WriteSplit.java:138-150 | when the scan stops before the end the remainder is the last field, otherwise the trailing empty fields are removed: the result is a prefix of all fields and never ends with an empty field |
| Splitting.JavaSplit | code/split/WriteSplit.java:281-292 | a reference for Java's `String.split` on a literal delimiter, which the tests compare against (not the code itself): it is empty only for a non-empty text in which the delimiter occurs |
| Splitting.ScanJoin | code/split/WriteSplit.java:126-140 | joining the scanned fields and the remainder with the delimiter gives back the text from the cursor |
| Splitting.ScanFreeOf | code/split/WriteSplit.java:127-135 | no scanned field and not the remainder contains the delimiter |
| Splitting.AllFieldsJoin | code/split/WriteSplit.java:126-140 | joining all untrimmed fields with the delimiter reconstructs the text |
| Splitting.SplitTrims | code/split/WriteSplit.java:138-150 | the split is all fields with trailing empty ones removed |
| Splitting.SplitJoin | code/split/WriteSplit.java:138-150 | the split is a prefix of all fields, only empty fields were dropped, it never ends with an empty field, and all fields join back to the text |
| Splitting.SplitKeepsRemainder | code/split/WriteSplit.java:139-140 | when the text after the last delimiter is non-empty nothing is trimmed, and joining the split restores the text |
| Splitting.SplitFreeOf | code/split/WriteSplit.java:127-135 | no field of the split contains the delimiter |
| Splitting.SplitEmptyText | code/split/WriteSplit.java:139-150 | the empty text splits into no fields |
| Splitting.ScanRepeat | code/split/WriteSplit.java:126-136 | from a cursor followed by copies of the delimiter only, the scan emits empty fields and reaches the end |
| Splitting.TrimAllEmpty | code/split/WriteSplit.java:143-149 | trimming a list of empty fields leaves nothing |
| Splitting.SplitDelimitersOnly | code/split/WriteSplit.java:141-150 | a text made only of delimiters splits into no fields |
| Splitting.SplitAgreesWithJava | code/split/WriteSplit.java:281-292 | the split equals Java's `String.split` on a literal delimiter if and only if the text is non-empty |
| Splitting.SplitExampleInnerEmpty | code/split/WriteSplit.java:141-150 | `"a,,b"` on `","` gives `["a", "", "b"]`: an inner empty field is kept |
| Splitting.SplitExampleTrailingEmpty | code/split/WriteSplit.java:141-150 | `"a,b,,"` on `","` gives `["a", "b"]`: trailing empty fields go |
| Splitting.SplitExampleNonOverlapping | code/split/WriteSplit.java:127-135 | `"xaaay"` on `"aa"` gives `["x", "ay"]`: delimiters are consumed left to right without overlap |
| WriteSplit.BruteForceSubstringSearch | code/split/WriteSplit.java:100-112 | returns exactly `IndexOf(str, regex, start)`; the inner loop never indexes past either string |
| WriteSplit.MatchExtends | code/split/WriteSplit.java:102-106 | a partial match of `j` symbols plus one more equal symbol is a partial match of `j + 1` |
| WriteSplit.Find | code/split/WriteSplit.java:127 | every backend's search from the cursor returns `IndexOf` |
| WriteSplit.SplitWith | code/split/WriteSplit.java:121-153 | the shared split loop returns `SplitOn(str, regex)`, whichever matcher it runs on |
| WriteSplit.BruteForceSubstringSearchSplit | code/split/WriteSplit.java:121-153 | the brute-force split returns `SplitOn(str, regex)` |
| WriteSplit.KnuthMorrisPrattSplitWith | code/split/WriteSplit.java:171-203 | the split with a prebuilt automaton returns `SplitOn(str, pattern)` |
| WriteSplit.KnuthMorrisPrattSubstringSearchSplit | code/split/WriteSplit.java:163-165 | building the automaton and splitting returns `SplitOn(str, regex)` |
| WriteSplit.BoyerMooreSubstringSearchSplit | code/split/WriteSplit.java:214-250 | with any search that meets the leftmost-occurrence contract, the split returns `SplitOn(str, regex)` |
| WriteSplit.Split | code/split/WriteSplit.java:269-271 | the dispatch returns `SplitOn(str, regex)` for every backend |
| WriteSplit.SplitDefault | code/split/WriteSplit.java:258-260 | the default (Boyer-Moore) split returns `SplitOn(str, regex)` |
| WriteSplit.SplitBackendsAgree | code/split/WriteSplit.java:121-203 | the brute-force and the Knuth-Morris-Pratt splits return identical fields |
| Truth.NameSet | code/truth/TruthAssignment.java:32-37 | the key set built from the names holds each name and nothing else |
| Truth.TruthAssignment.Empty | code/truth/TruthAssignment.java:26 | a new table is empty |
| Truth.TruthAssignment.Create | code/truth/TruthAssignment.java:25-38 | fails on a length mismatch, then on a duplicate name; otherwise a fresh table has exactly the keys `names[k]`, each mapped to `values[k]` |
| Truth.TruthAssignment.GetValue | code/truth/TruthAssignment.java:45-50 | returns the stored value, fails when the name is absent, and changes nothing |
| Truth.TruthAssignment.SetValue | code/truth/TruthAssignment.java:58-63 | for a present name, the name maps to the new value and every other entry and the key set are unchanged; for an absent name, it fails and the table is unchanged |
| Truth.TruthAssignment.AddValue | code/truth/TruthAssignment.java:71-76 | for an absent name, the name is added with the value and every previous entry is kept; for a present name, it fails and the table is unchanged; keys only grow |

## Left out

- `main`, `testSpeed` and `generateRandomString` (code/split/WriteSplit.java:37-94, 296-406) are left out. They are timing, `printf` and `java.util.Random`.
- The JUnit assertions are not modelled as tests. What they state is proved instead: the searches equal `IndexOf`, and the split equals Java's split on non-empty text.
- Boyer-Moore search: BoyerMoore.java is not part of this model. Its search is a function parameter required to return the leftmost occurrence, so the default `split(str, regex)` takes that function as an argument.
- The `BiFunction` fields (code/split/WriteSplit.java:28-32) are modelled as the `Backend` datatype.
- Java regular expressions are out of scope. Delimiters are literal.
- `TruthAssignment.toString`, code/LogicalOperator.java and code/util/PriorityQueueTest.java are left out. The first only formats a `HashMap`. The other two are a wrapper around `java.util.regex` and native or benchmark code.
- Empty delimiter: `charAt(0)` throws in both `KMP`'s constructor and the brute-force search. Every split and search therefore requires a non-empty delimiter, and the exception is not modelled.
- Negative start indices are not modelled (`charAt` throws on them). Start indices are `nat`.
- Symbols of 128 or more: `dfa[c]` throws on these. The automaton's operations require symbols below 128, and the exception is not modelled.
- Kmp.KMP.Search: requires every symbol from the start index on to be below 128. The code only reads up to the end of the first match, so this is stronger than what it needs.
- Kmp.KMP.SearchFromStart: requires every symbol of the text to be below 128, for the same reason as `Kmp.KMP.Search`; the code accepts larger symbols after the end of the first match.
- Java `char` is a UTF-16 code unit and Dafny `char` a Unicode scalar value. The model never looks at symbol values except through the `< 128` bound.
- The `ArrayList` of fields is a local `seq`, and `remove(j)` at its last index is modelled as dropping the last element. The conversion to `String[]` is the identity.
- In the constructor, Java allocates the object before validating its input and throws on a bad input. `Truth.TruthAssignment.Create` returns a failure value instead, and no table escapes on that path.
