/**
 * Literal occurrences of a pattern in a text, and the leftmost-occurrence
 * search (Java's `String.indexOf(String, int)`) that every matcher of the
 * model is proved against.
 */
module Matching {

  /** Number of symbols the automaton matcher indexes its table by. */
  const R: int := 128

  /** Every symbol of s at index from or later is below R. */
  predicate InAlphabetFrom(s: seq<char>, from: nat) {
    forall k :: from <= k < |s| ==> s[k] as int < R
  }

  /** Every symbol of s is below R. */
  predicate InAlphabet(s: seq<char>) {
    InAlphabetFrom(s, 0)
  }

  /** The pattern p occurs in s starting at index q. */
  predicate Occurs(s: seq<char>, p: seq<char>, q: int) {
    0 <= q && q + |p| <= |s| && s[q..q + |p|] == p
  }

  /** No occurrence of p in s starts at an index in [from, to). */
  predicate NoneBetween(s: seq<char>, p: seq<char>, from: int, to: int) {
    forall q :: from <= q < to ==> !Occurs(s, p, q)
  }

  /**
   * r is the leftmost index at or after from where p occurs in s,
   * or -1 when p occurs nowhere at or after from.
   */
  ghost predicate IsLeftmost(s: seq<char>, p: seq<char>, from: nat, r: int) {
    if r == -1 then
      forall q :: from <= q ==> !Occurs(s, p, q)
    else
      from <= r && Occurs(s, p, r) && NoneBetween(s, p, from, r)
  }

  /**
   * The leftmost-occurrence search, scanning start positions one by one; a
   * found index always leaves room for the whole pattern.
   */
  function IndexOf(s: seq<char>, p: seq<char>, from: nat): (r: int)
    ensures r == -1 || from <= r <= |s| - |p|
    decreases |s| - from
  {
    if from + |p| > |s| then -1
    else if s[from..from + |p|] == p then from
    else IndexOf(s, p, from + 1)
  }

  /** IndexOf finds the leftmost occurrence at or after from, and -1 only when there is none. */
  lemma {:induction false} IndexOfIsLeftmost(s: seq<char>, p: seq<char>, from: nat)
    ensures IsLeftmost(s, p, from, IndexOf(s, p, from))
    decreases |s| - from
  {
    if from + |p| <= |s| && s[from..from + |p|] != p {
      IndexOfIsLeftmost(s, p, from + 1);
    }
  }

  /** Where IndexOf answers with an index, the pattern sits there. */
  lemma IndexOfFound(s: seq<char>, p: seq<char>, from: nat)
    requires IndexOf(s, p, from) != -1
    ensures Occurs(s, p, IndexOf(s, p, from))
    decreases |s| - from
  {
    if s[from..from + |p|] != p {
      IndexOfFound(s, p, from + 1);
    }
  }

  /** The leftmost occurrence is unique: any two answers that meet IsLeftmost agree. */
  lemma LeftmostUnique(s: seq<char>, p: seq<char>, from: nat, r1: int, r2: int)
    requires IsLeftmost(s, p, from, r1) && IsLeftmost(s, p, from, r2)
    ensures r1 == r2
  {
  }

  /** Any answer that meets IsLeftmost is what IndexOf returns. */
  lemma LeftmostIsIndexOf(s: seq<char>, p: seq<char>, from: nat, r: int)
    requires IsLeftmost(s, p, from, r)
    ensures r == IndexOf(s, p, from)
  {
    IndexOfIsLeftmost(s, p, from);
    LeftmostUnique(s, p, from, r, IndexOf(s, p, from));
  }

  /** An occurrence inside s[lo..hi] is an occurrence in s, shifted by lo. */
  lemma OccursInSlice(s: seq<char>, p: seq<char>, lo: nat, hi: nat, q: int)
    requires lo <= q && q + |p| <= hi <= |s|
    ensures Occurs(s, p, q) <==> Occurs(s[lo..hi], p, q - lo)
  {
    var inner, outer := s[lo..hi][q - lo..q - lo + |p|], s[q..q + |p|];
    forall n | 0 <= n < |p|
      ensures inner[n] == outer[n]
    {
    }
    assert inner == outer;
  }
}
