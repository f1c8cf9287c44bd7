/**
 * The split driver: a brute-force substring search, one split loop that takes
 * its search from any of three backends (brute force, Knuth-Morris-Pratt and
 * Boyer-Moore), and the dispatch that picks a backend.
 */
module WriteSplit {
  import opened Matching
  import opened Splitting
  import opened Kmp

  /**
   * Checks every start position from start on, comparing the delimiter with
   * the text symbol by symbol and returning at the first full match.
   */
  method BruteForceSubstringSearch(str: seq<char>, regex: seq<char>, start: nat) returns (r: int)
    requires |regex| >= 1
    ensures r == IndexOf(str, regex, start)
  {
    var i := start;
    while i <= |str| - |regex|
      invariant start <= i
      invariant NoneBetween(str, regex, start, i)
      decreases |str| - |regex| - i
    {
      var j := 0;
      while j <= |regex|
        invariant 0 <= j < |regex|
        invariant str[i..i + j] == regex[..j]
        decreases |regex| - j
      {
        if regex[j] != str[i + j] {
          break;
        } else if j == |regex| - 1 {
          r := i;
          MatchExtends(str, regex, i, j);
          assert regex[..j + 1] == regex;
          LeftmostIsIndexOf(str, regex, start, r);
          return;
        }
        MatchExtends(str, regex, i, j);
        j := j + 1;
      }
      // the break left a mismatch at offset j
      assert str[i..i + |regex|][j] == str[i + j] != regex[j];
      i := i + 1;
    }
    r := -1;
    LeftmostIsIndexOf(str, regex, start, r);
  }

  /** A match of the first j symbols at i, followed by one more equal symbol, is a match of j + 1. */
  lemma MatchExtends(str: seq<char>, regex: seq<char>, i: nat, j: nat)
    requires j < |regex| && i + j < |str|
    requires str[i..i + j] == regex[..j] && regex[j] == str[i + j]
    ensures str[i..i + j + 1] == regex[..j + 1]
  {
    assert str[i..i + j + 1] == str[i..i + j] + [str[i + j]];
    assert regex[..j + 1] == regex[..j] + [regex[j]];
  }

  /** search answers every query on str with the leftmost occurrence of regex. */
  ghost predicate IsLeftmostSearch(search: (seq<char>, nat) -> int, str: seq<char>, regex: seq<char>) {
    forall from: nat :: from <= |str| ==> search(str, from) == IndexOf(str, regex, from)
  }

  /**
   * A substring search the split loop can run on: brute force, a built
   * Knuth-Morris-Pratt automaton, or a Boyer-Moore search given as a function.
   */
  datatype Matcher =
    | BruteForce
    | KnuthMorrisPratt(kmp: KMP)
    | BoyerMoore(search: (seq<char>, nat) -> int)

  /** The matcher searches for regex, and can read every symbol of str. */
  ghost predicate Serves(m: Matcher, str: seq<char>, regex: seq<char>)
    reads if m.KnuthMorrisPratt? then {m.kmp.dfa} else {}
  {
    match m
    case BruteForce => true
    case KnuthMorrisPratt(kmp) => kmp.Valid() && kmp.pattern == regex && InAlphabet(str)
    case BoyerMoore(search) => IsLeftmostSearch(search, str, regex)
  }

  /** One search from the cursor, with whichever backend the matcher holds. */
  method Find(m: Matcher, str: seq<char>, regex: seq<char>, from: nat) returns (r: int)
    requires |regex| >= 1 && from <= |str| && Serves(m, str, regex)
    ensures r == IndexOf(str, regex, from)
  {
    match m
    case BruteForce =>
      r := BruteForceSubstringSearch(str, regex, from);
    case KnuthMorrisPratt(kmp) =>
      r := kmp.Search(str, from);
    case BoyerMoore(search) =>
      r := search(str, from);
  }

  /**
   * The split loop shared by every backend: emit the text between the cursor
   * and the next occurrence, move the cursor past it; at the end append the
   * remainder or, when the cursor is at the end, remove trailing empty fields.
   */
  method SplitWith(str: seq<char>, regex: seq<char>, m: Matcher) returns (fields: seq<seq<char>>)
    requires |regex| >= 1 && Serves(m, str, regex)
    ensures fields == SplitOn(str, regex)
  {
    fields := [];
    var i := 0;
    while true
      invariant i <= |str|
      invariant Scan(str, regex, 0).fields == fields + Scan(str, regex, i).fields
      invariant Scan(str, regex, 0).cursor == Scan(str, regex, i).cursor
      decreases |str| - i
    {
      var found := Find(m, str, regex, i);
      if found == -1 {
        break;
      }
      var next := found + |regex|;
      ScanCons(str, regex, i, found, next);
      assert fields + Scan(str, regex, i).fields == (fields + [str[i..found]]) + Scan(str, regex, next).fields;
      fields := fields + [str[i..found]];
      i := next;
    }
    ScanStop(str, regex, i);
    assert fields + [] == fields;

    if i < |str| {
      fields := fields + [str[i..]];
    } else {
      ghost var untrimmed := fields;
      var j := |fields| - 1;
      while j >= 0
        invariant j == |fields| - 1
        invariant TrimTrailing(fields) == TrimTrailing(untrimmed)
        decreases j
      {
        if |fields[j]| == 0 {
          fields := fields[..j];
          j := j - 1;
        } else {
          break;
        }
      }
    }
  }

  /** The split with the brute-force search as its backend. */
  method BruteForceSubstringSearchSplit(str: seq<char>, regex: seq<char>) returns (fields: seq<seq<char>>)
    requires |regex| >= 1
    ensures fields == SplitOn(str, regex)
  {
    fields := SplitWith(str, regex, BruteForce);
  }

  /** The split with an automaton built beforehand for the delimiter. */
  method KnuthMorrisPrattSplitWith(str: seq<char>, kmp: KMP) returns (fields: seq<seq<char>>)
    requires kmp.Valid() && InAlphabet(str)
    ensures fields == SplitOn(str, kmp.pattern)
  {
    var regex := kmp.GetPattern();
    fields := SplitWith(str, regex, KnuthMorrisPratt(kmp));
  }

  /** The split with the Knuth-Morris-Pratt search: builds the automaton for the delimiter first. */
  method KnuthMorrisPrattSubstringSearchSplit(str: seq<char>, regex: seq<char>) returns (fields: seq<seq<char>>)
    requires |regex| >= 1 && InAlphabet(regex) && InAlphabet(str)
    ensures fields == SplitOn(str, regex)
  {
    var kmp := new KMP(regex);
    fields := KnuthMorrisPrattSplitWith(str, kmp);
  }

  /** The split with a Boyer-Moore search for the delimiter, supplied as a function. */
  method BoyerMooreSubstringSearchSplit(str: seq<char>, regex: seq<char>, search: (seq<char>, nat) -> int)
    returns (fields: seq<seq<char>>)
    requires |regex| >= 1 && IsLeftmostSearch(search, str, regex)
    ensures fields == SplitOn(str, regex)
  {
    fields := SplitWith(str, regex, BoyerMoore(search));
  }

  /** The three split backends a caller can choose from. */
  datatype Backend =
    | BruteForceSubstring
    | KmpSubstring
    | BoyerMooreSubstring(search: (seq<char>, nat) -> int)

  /** What a backend needs to run on str and regex. */
  ghost predicate Accepts(backend: Backend, str: seq<char>, regex: seq<char>) {
    && |regex| >= 1
    && (backend.KmpSubstring? ==> InAlphabet(regex) && InAlphabet(str))
    && (backend.BoyerMooreSubstring? ==> IsLeftmostSearch(backend.search, str, regex))
  }

  /** Splits with the chosen backend; every backend gives the same fields. */
  method Split(str: seq<char>, regex: seq<char>, backend: Backend) returns (fields: seq<seq<char>>)
    requires Accepts(backend, str, regex)
    ensures fields == SplitOn(str, regex)
  {
    match backend
    case BruteForceSubstring =>
      fields := BruteForceSubstringSearchSplit(str, regex);
    case KmpSubstring =>
      fields := KnuthMorrisPrattSubstringSearchSplit(str, regex);
    case BoyerMooreSubstring(search) =>
      fields := BoyerMooreSubstringSearchSplit(str, regex, search);
  }

  /** Splits with the default backend, the Boyer-Moore search. */
  method SplitDefault(str: seq<char>, regex: seq<char>, search: (seq<char>, nat) -> int) returns (fields: seq<seq<char>>)
    requires |regex| >= 1 && IsLeftmostSearch(search, str, regex)
    ensures fields == SplitOn(str, regex)
  {
    fields := Split(str, regex, BoyerMooreSubstring(search));
  }

  /** The brute-force and the Knuth-Morris-Pratt backends return identical fields. */
  method SplitBackendsAgree(str: seq<char>, regex: seq<char>) returns (byBruteForce: seq<seq<char>>, byKmp: seq<seq<char>>)
    requires |regex| >= 1 && InAlphabet(regex) && InAlphabet(str)
    ensures byBruteForce == byKmp
    ensures byBruteForce == SplitOn(str, regex)
  {
    byBruteForce := Split(str, regex, BruteForceSubstring);
    byKmp := Split(str, regex, KmpSubstring);
  }
}
