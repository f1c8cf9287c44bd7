/**
 * The Knuth-Morris-Pratt matcher: a deterministic automaton over the
 * 128-symbol alphabet, built once from the pattern and then used for any
 * number of single-pass searches.
 */
module Kmp {
  import opened Matching
  import opened Automaton

  /**
   * One step of the search loop: no occurrence ends at at (the automaton has
   * not accepted), and reading str[at] moves to the next overlap.
   */
  lemma ScanStep(p: seq<char>, str: seq<char>, i: nat, at: nat)
    requires i <= at < |str| && Overlap(p, str[i..at]) < |p|
    requires NoneBetween(str, p, i, at - |p|)
    ensures NoneBetween(str, p, i, at + 1 - |p|)
    ensures Overlap(p, str[i..at + 1]) == Delta(p, Overlap(p, str[i..at]), str[at])
  {
    // an occurrence ending at at would have put the automaton in its accepting state
    OverlapAccepts(p, str, i, at);
    OverlapAdvance(p, str, i, at);
  }

  class KMP {
    /** The pattern; set by the constructor only. */
    const pattern: seq<char>
    /** dfa[c, j] is the next state after reading symbol c in state j. */
    const dfa: array2<int>

    /** The table holds, in every column j, the transitions of state j. */
    ghost predicate Valid()
      reads dfa
    {
      && |pattern| >= 1
      && dfa.Length0 == R && dfa.Length1 == |pattern|
      && forall c, j :: 0 <= c < R && 0 <= j < |pattern| ==> dfa[c, j] == Delta(pattern, j, c as char)
    }

    /** Stores the pattern and the automaton built for it. */
    constructor (pattern: seq<char>)
      requires |pattern| >= 1 && InAlphabet(pattern)
      ensures Valid() && this.pattern == pattern && fresh(dfa)
      ensures forall c, j :: 0 <= c < R && 0 <= j < |pattern| ==> 0 <= dfa[c, j] <= j + 1
      ensures forall j :: 0 <= j < |pattern| ==> dfa[pattern[j] as int, j] == j + 1
    {
      var table := BuildDfa(pattern);
      this.pattern := pattern;
      dfa := table;
      new;
      forall j | 0 <= j < |pattern|
        ensures dfa[pattern[j] as int, j] == j + 1
      {
        assert (pattern[j] as int) as char == pattern[j];
      }
    }

    /**
     * Builds the automaton column by column, keeping i, the restart state:
     * the state the automaton reaches on pattern[1..j].
     */
    static method BuildDfa(pattern: seq<char>) returns (table: array2<int>)
      requires |pattern| >= 1 && InAlphabet(pattern)
      ensures fresh(table) && table.Length0 == R && table.Length1 == |pattern|
      ensures forall c, j :: 0 <= c < R && 0 <= j < |pattern| ==> table[c, j] == Delta(pattern, j, c as char)
    {
      var patternSize := |pattern|;
      table := new int[R, patternSize]((c, j) => 0);

      table[pattern[0] as int, 0] := 1;
      forall c | 0 <= c < R
        ensures table[c, 0] == Delta(pattern, 0, c as char)
      {
        DeltaInitial(pattern, c as char);
      }
      var i := 0;
      for j := 1 to patternSize
        invariant i == Overlap(pattern, pattern[1..j]) && i < j
        invariant forall c, q :: 0 <= c < R && 0 <= q < j ==> table[c, q] == Delta(pattern, q, c as char)
      {
        FillColumn(table, pattern, i, j);
        RestartAdvance(pattern, j);
        i := table[pattern[j] as int, i];
      }
    }

    /**
     * Fills column j: a copy of the column of the restart state i, except for
     * the pattern's own symbol pattern[j], which advances to j + 1.
     */
    static method FillColumn(table: array2<int>, pattern: seq<char>, i: nat, j: nat)
      requires 1 <= j < |pattern| && InAlphabet(pattern)
      requires table.Length0 == R && table.Length1 == |pattern|
      requires i == Overlap(pattern, pattern[1..j])
      requires forall c :: 0 <= c < R ==> table[c, i] == Delta(pattern, i, c as char)
      modifies table
      ensures forall c, q :: 0 <= c < R && 0 <= q < |pattern| && q != j ==> table[c, q] == old(table[c, q])
      ensures forall c :: 0 <= c < R ==> table[c, j] == Delta(pattern, j, c as char)
    {
      RestartAdvance(pattern, j);
      CopyColumn(table, i, j);
      table[pattern[j] as int, j] := j + 1;
      forall c | 0 <= c < R
        ensures table[c, j] == Delta(pattern, j, c as char)
      {
        if c as char != pattern[j] {
          DeltaRestart(pattern, j, c as char);
        }
      }
    }

    /** Copies column from of the table over column to, symbol by symbol. */
    static method CopyColumn(table: array2<int>, from: nat, to: nat)
      requires from < to < table.Length1 && table.Length0 == R
      modifies table
      ensures forall c, q :: 0 <= c < R && 0 <= q < table.Length1 && q != to ==> table[c, q] == old(table[c, q])
      ensures forall c :: 0 <= c < R ==> table[c, to] == old(table[c, from])
    {
      for k := 0 to R
        invariant forall c, q :: 0 <= c < R && 0 <= q < table.Length1 && q != to ==> table[c, q] == old(table[c, q])
        invariant forall c :: 0 <= c < k ==> table[c, to] == old(table[c, from])
      {
        table[k, to] := table[k, from];
      }
    }

    /**
     * Runs the automaton over str from index i until it reaches the
     * accepting state |pattern| or the text ends.
     */
    method Search(str: seq<char>, i: nat) returns (r: int)
      requires Valid() && InAlphabetFrom(str, i)
      ensures r == IndexOf(str, pattern, i)
    {
      var j := 0;
      var at := i;
      var stringLength := |str|;
      var patternLength := |pattern|;

      while at < stringLength && j < patternLength
        invariant i <= at
        invariant at <= stringLength || (at == i && j == 0)
        invariant at <= stringLength ==> j == Overlap(pattern, str[i..at])
        invariant NoneBetween(str, pattern, i, at - patternLength)
        decreases stringLength - at
      {
        ScanStep(pattern, str, i, at);
        Transition(str[at], j);
        j := dfa[str[at] as int, j];
        at := at + 1;
      }

      if j == patternLength {
        // Found
        r := at - patternLength;
      } else {
        // not found
        r := -1;
      }
      if at <= stringLength {
        OverlapAccepts(pattern, str, i, at);
      }
      assert IsLeftmost(str, pattern, i, r);
      LeftmostIsIndexOf(str, pattern, i, r);
    }

    /** Reading symbol c in state j moves the automaton as Delta says. */
    lemma Transition(c: char, j: nat)
      requires Valid() && c as int < R && j < |pattern|
      ensures dfa[c as int, j] == Delta(pattern, j, c)
    {
      assert (c as int) as char == c;
    }

    /** Searches the whole of str, from index 0. */
    method SearchFromStart(str: seq<char>) returns (r: int)
      requires Valid() && InAlphabet(str)
      ensures r == IndexOf(str, pattern, 0)
    {
      r := Search(str, 0);
    }

    /** The pattern the automaton was built for: never empty. */
    function GetPattern(): (p: seq<char>)
      reads dfa
      requires Valid()
      ensures |p| >= 1 && p == pattern
    {
      pattern
    }
  }
}
