/**
 * The theory behind the Knuth-Morris-Pratt automaton: the state reached after
 * reading a text is the length of the longest prefix of the pattern that is a
 * suffix of that text (its longest "overlap" with the pattern).
 */
module Automaton {
  import opened Matching

  /** The first k symbols of p are the last k symbols of s. */
  ghost predicate IsOverlap(p: seq<char>, s: seq<char>, k: nat) {
    k <= |p| && k <= |s| && forall n :: 0 <= n < k ==> p[n] == s[|s| - k + n]
  }

  /** The longest overlap of p with s that is at most n long. */
  ghost function LongestOverlapUpTo(p: seq<char>, s: seq<char>, n: nat): (k: nat)
    requires n <= |p| && n <= |s|
    ensures k <= n && IsOverlap(p, s, k)
    ensures forall k' :: k < k' <= n ==> !IsOverlap(p, s, k')
    decreases n
  {
    if IsOverlap(p, s, n) then n else LongestOverlapUpTo(p, s, n - 1)
  }

  /** The length of the longest prefix of p that is a suffix of s. */
  ghost function Overlap(p: seq<char>, s: seq<char>): (k: nat)
    ensures IsOverlap(p, s, k)
    ensures forall k': nat :: IsOverlap(p, s, k') ==> k' <= k
  {
    LongestOverlapUpTo(p, s, if |p| <= |s| then |p| else |s|)
  }

  /**
   * The transition the automaton for p takes from state j on symbol c: the
   * longest prefix of p that is a suffix of p[..j] + [c].
   */
  ghost function Delta(p: seq<char>, j: nat, c: char): (r: nat)
    requires j < |p|
    ensures r <= j + 1
    ensures c == p[j] ==> r == j + 1
  {
    assert c == p[j] ==> IsOverlap(p, p[..j] + [c], j + 1) by {
      if c == p[j] {
        assert p[..j] + [c] == p[..j + 1];
      }
    }
    Overlap(p, p[..j] + [c])
  }

  /** The overlap is the whole pattern exactly when s ends with p. */
  lemma OverlapFull(p: seq<char>, s: seq<char>)
    ensures Overlap(p, s) == |p| <==> Occurs(s, p, |s| - |p|)
  {
    if Occurs(s, p, |s| - |p|) {
      assert IsOverlap(p, s, |p|);
    }
  }

  /**
   * After reading str[from..at], the overlap is the whole pattern exactly
   * when an occurrence of p that starts at or after from ends at at.
   */
  lemma OverlapAccepts(p: seq<char>, str: seq<char>, from: nat, at: nat)
    requires from <= at <= |str|
    ensures Overlap(p, str[from..at]) == |p| <==> at - |p| >= from && Occurs(str, p, at - |p|)
  {
    OverlapFull(p, str[from..at]);
    if at - |p| >= from {
      OccursInSlice(str, p, from, at, at - |p|);
    }
  }

  /** An overlap with a suffix of s + [c] that starts inside an overlap of s is one with s + [c]. */
  lemma OverlapFromPrefix(p: seq<char>, s: seq<char>, c: char, i: nat, b: nat)
    requires IsOverlap(p, s, i) && IsOverlap(p, p[..i] + [c], b)
    ensures IsOverlap(p, s + [c], b)
  {
    var t, u := s + [c], p[..i] + [c];
    forall n | 0 <= n < b ensures p[n] == t[|t| - b + n] {
      var m := |u| - b + n;
      if m < i {
        assert u[m] == p[m] == s[|s| - i + m];
      }
    }
  }

  /** Dropping the last symbol of an overlap with s + [c] leaves an overlap with s. */
  lemma OverlapShrink(p: seq<char>, s: seq<char>, c: char, a: nat)
    requires a > 0 && IsOverlap(p, s + [c], a)
    ensures IsOverlap(p, s, a - 1) && p[a - 1] == c
  {
    var t := s + [c];
    forall n | 0 <= n < a - 1 ensures p[n] == s[|s| - (a - 1) + n] {
      assert p[n] == t[|t| - a + n];
    }
    assert p[a - 1] == t[|t| - 1];
  }

  /** An overlap with s no longer than the overlap i, extended by c, is an overlap with p[..i] + [c]. */
  lemma OverlapRebuild(p: seq<char>, s: seq<char>, c: char, i: nat, a: nat)
    requires 0 < a <= |p| && a <= i + 1 && IsOverlap(p, s, i) && IsOverlap(p, s, a - 1) && p[a - 1] == c
    ensures IsOverlap(p, p[..i] + [c], a)
  {
    var u := p[..i] + [c];
    forall n | 0 <= n < a ensures p[n] == u[|u| - a + n] {
      if n < a - 1 {
        assert p[n] == s[|s| - (a - 1) + n];
        assert p[i - (a - 1) + n] == s[|s| - i + (i - (a - 1) + n)];
      }
    }
  }

  /**
   * The step the automaton relies on: the overlap after reading one more
   * symbol c depends only on the previous overlap and on c.
   */
  lemma OverlapStep(p: seq<char>, s: seq<char>, c: char)
    ensures Overlap(p, s + [c]) == Overlap(p, p[..Overlap(p, s)] + [c])
  {
    var i := Overlap(p, s);
    var a := Overlap(p, s + [c]);
    var b := Overlap(p, p[..i] + [c]);
    // p[..i] + [c] is a suffix of s + [c], so b <= a
    OverlapFromPrefix(p, s, c, i, b);
    // an overlap with s + [c], minus its last symbol, is one with s, so a <= b
    if a > 0 {
      OverlapShrink(p, s, c, a);
      OverlapRebuild(p, s, c, i, a);
    }
  }

  /** One step of the automaton on the text str read from index from. */
  lemma OverlapAdvance(p: seq<char>, str: seq<char>, from: nat, at: nat)
    requires from <= at < |str| && Overlap(p, str[from..at]) < |p|
    ensures Overlap(p, str[from..at + 1]) == Delta(p, Overlap(p, str[from..at]), str[at])
  {
    OverlapStep(p, str[from..at], str[at]);
    assert str[from..at + 1] == str[from..at] + [str[at]];
  }

  /**
   * Dropping the first symbol of a text keeps its overlap, unless the whole
   * text is itself a prefix of p.
   */
  lemma OverlapDropFirst(p: seq<char>, x: char, t: seq<char>)
    requires !IsOverlap(p, [x] + t, |t| + 1)
    ensures Overlap(p, [x] + t) == Overlap(p, t)
  {
    var s := [x] + t;
    assert IsOverlap(p, t, Overlap(p, s));
    assert IsOverlap(p, s, Overlap(p, t));
  }

  /** Column 0: only the first pattern symbol leaves the start state. */
  lemma DeltaInitial(p: seq<char>, c: char)
    requires |p| >= 1
    ensures Delta(p, 0, c) == if c == p[0] then 1 else 0
  {
    if c != p[0] {
      assert !IsOverlap(p, p[..0] + [c], 1) by {
        assert p[..1][0] == p[0];
      }
    }
  }

  /**
   * Column copy: on a symbol other than its own, state j moves as the restart
   * state does, where the restart state is the overlap of p with p[1..j].
   */
  lemma DeltaRestart(p: seq<char>, j: nat, c: char)
    requires 1 <= j < |p| && c != p[j]
    ensures Overlap(p, p[1..j]) < j
    ensures Delta(p, j, c) == Delta(p, Overlap(p, p[1..j]), c)
  {
    var i := Overlap(p, p[1..j]);
    OverlapStep(p, p[1..j], c);
    assert p[..j] + [c] == [p[0]] + (p[1..j] + [c]);
    assert !IsOverlap(p, [p[0]] + (p[1..j] + [c]), j + 1) by {
      assert p[..j + 1][j] == p[j];
    }
    OverlapDropFirst(p, p[0], p[1..j] + [c]);
  }

  /** The restart state advances along the pattern's own symbols. */
  lemma RestartAdvance(p: seq<char>, j: nat)
    requires 1 <= j < |p|
    ensures Overlap(p, p[1..j]) < j
    ensures Overlap(p, p[1..j + 1]) == Delta(p, Overlap(p, p[1..j]), p[j])
    ensures Overlap(p, p[1..j + 1]) <= j
  {
    OverlapStep(p, p[1..j], p[j]);
    assert p[1..j] + [p[j]] == p[1..j + 1];
  }
}
