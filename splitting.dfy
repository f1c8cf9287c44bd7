/**
 * What splitting a text on a literal delimiter produces: the fields between
 * the leftmost, non-overlapping occurrences of the delimiter, scanned from the
 * start, with trailing empty fields removed when the text ends exactly where
 * the last consumed delimiter ends.
 */
module Splitting {
  import opened Matching

  /** The fields a scan produced and the cursor where it stopped. */
  datatype Scanned = Scanned(fields: seq<seq<char>>, cursor: nat)

  /**
   * Scans str from cursor i: each round takes the leftmost occurrence of p at
   * or after the cursor, emits the text before it and moves the cursor past
   * it; the scan stops at the first cursor from which p does not occur.
   */
  function Scan(str: seq<char>, p: seq<char>, i: nat): (s: Scanned)
    requires |p| >= 1 && i <= |str|
    ensures i <= s.cursor <= |str|
    decreases |str| - i
  {
    var found := IndexOf(str, p, i);
    if found == -1 then
      Scanned([], i)
    else
      var rest := Scan(str, p, found + |p|);
      Scanned([str[i..found]] + rest.fields, rest.cursor)
  }

  /**
   * All fields before any trimming: the scanned ones and the remainder, one
   * more field than delimiters consumed.
   */
  function AllFields(str: seq<char>, p: seq<char>): (r: seq<seq<char>>)
    requires |p| >= 1
    ensures |r| == |Scan(str, p, 0).fields| + 1
  {
    var s := Scan(str, p, 0);
    s.fields + [str[s.cursor..]]
  }

  /** Removes the empty fields at the end of fs. */
  function TrimTrailing(fs: seq<seq<char>>): (r: seq<seq<char>>)
    ensures r <= fs
    ensures r == [] || r[|r| - 1] != []
    ensures forall k :: |r| <= k < |fs| ==> fs[k] == []
    decreases |fs|
  {
    if |fs| == 0 || fs[|fs| - 1] != [] then fs else TrimTrailing(fs[..|fs| - 1])
  }

  /**
   * The split result: when the scan stops before the end of str the
   * remainder is the last field; when it stops exactly at the end, trailing
   * empty fields are removed instead.
   */
  function SplitOn(str: seq<char>, p: seq<char>): (r: seq<seq<char>>)
    requires |p| >= 1
    ensures r <= AllFields(str, p)
    ensures r == [] || r[|r| - 1] != []
  {
    var s := Scan(str, p, 0);
    if s.cursor < |str| then s.fields + [str[s.cursor..]] else TrimTrailing(s.fields)
  }

  /** Java's String.split with a literal delimiter: one field, the whole input, when p never occurs. */
  function JavaSplit(str: seq<char>, p: seq<char>): (r: seq<seq<char>>)
    requires |p| >= 1
    ensures r == [] ==> str != [] && IndexOf(str, p, 0) != -1
  {
    if IndexOf(str, p, 0) == -1 then [str] else TrimTrailing(AllFields(str, p))
  }

  /** The fields of fs with sep between consecutive ones. */
  function Join(fs: seq<seq<char>>, sep: seq<char>): seq<char>
  {
    if |fs| == 0 then [] else if |fs| == 1 then fs[0] else fs[0] + sep + Join(fs[1..], sep)
  }

  /** Joining a field in front of a non-empty list puts one separator between. */
  lemma JoinCons(x: seq<char>, rest: seq<seq<char>>, sep: seq<char>)
    requires |rest| >= 1
    ensures Join([x] + rest, sep) == x + sep + Join(rest, sep)
  {
    assert ([x] + rest)[1..] == rest;
  }

  /** p occurs nowhere in f. */
  ghost predicate FreeOf(f: seq<char>, p: seq<char>) {
    forall q :: !Occurs(f, p, q)
  }

  /** k copies of p. */
  function Repeat(p: seq<char>, k: nat): (r: seq<char>)
  {
    if k == 0 then [] else p + Repeat(p, k - 1)
  }

  /** The text from i is the text before the occurrence, the occurrence, and the rest. */
  lemma CutAround(str: seq<char>, i: nat, found: nat, next: nat)
    requires i <= found <= next <= |str|
    ensures str[i..] == str[i..found] + str[found..next] + str[next..]
  {
  }

  /** Joining the scanned fields and the remainder with p gives back str[i..]. */
  lemma {:induction false} ScanJoin(str: seq<char>, p: seq<char>, i: nat)
    requires |p| >= 1 && i <= |str|
    ensures var s := Scan(str, p, i); Join(s.fields + [str[s.cursor..]], p) == str[i..]
    decreases |str| - i
  {
    var found := IndexOf(str, p, i);
    if found == -1 {
      ScanStop(str, p, i);
    } else {
      var next := found + |p|;
      IndexOfFound(str, p, i);
      ScanCons(str, p, i, found, next);
      ScanJoin(str, p, next);
      var rest := Scan(str, p, next);
      var tail := rest.fields + [str[rest.cursor..]];
      assert Scan(str, p, i).fields + [str[rest.cursor..]] == [str[i..found]] + tail;
      JoinCons(str[i..found], tail, p);
      CutAround(str, i, found, next);
    }
  }

  /** No scanned field and not the remainder contains an occurrence of p. */
  lemma {:induction false} ScanFreeOf(str: seq<char>, p: seq<char>, i: nat)
    requires |p| >= 1 && i <= |str|
    ensures var s := Scan(str, p, i); forall f :: f in s.fields + [str[s.cursor..]] ==> FreeOf(f, p)
    decreases |str| - i
  {
    var found := IndexOf(str, p, i);
    IndexOfIsLeftmost(str, p, i);
    if found == -1 {
      forall q ensures !Occurs(str[i..], p, q) {
        if 0 <= q && q + |p| <= |str| - i {
          OccursInSlice(str, p, i, |str|, i + q);
        }
      }
    } else {
      var rest := Scan(str, p, found + |p|);
      ScanFreeOf(str, p, found + |p|);
      forall q ensures !Occurs(str[i..found], p, q) {
        if 0 <= q && q + |p| <= found - i {
          OccursInSlice(str, p, i, found, i + q);
        }
      }
      assert Scan(str, p, i).fields + [str[rest.cursor..]] == [str[i..found]] + (rest.fields + [str[rest.cursor..]]);
    }
  }

  /** Joining all fields with the delimiter gives back the text. */
  lemma AllFieldsJoin(str: seq<char>, p: seq<char>)
    requires |p| >= 1
    ensures Join(AllFields(str, p), p) == str
  {
    ScanJoin(str, p, 0);
  }

  /** The split result is all fields minus the trailing empty ones. */
  lemma SplitTrims(str: seq<char>, p: seq<char>)
    requires |p| >= 1
    ensures SplitOn(str, p) == TrimTrailing(AllFields(str, p))
  {
    var s := Scan(str, p, 0);
    if s.cursor == |str| {
      assert AllFields(str, p)[..|AllFields(str, p)| - 1] == s.fields;
    }
  }

  /**
   * Split is a lossy inverse of join: the result is a prefix of all fields,
   * only empty fields were dropped, the result never ends with an empty
   * field, and joining all fields with the delimiter gives back str.
   */
  lemma SplitJoin(str: seq<char>, p: seq<char>)
    requires |p| >= 1
    ensures var r, all := SplitOn(str, p), AllFields(str, p);
      && r <= all
      && (forall k :: |r| <= k < |all| ==> all[k] == [])
      && (r == [] || r[|r| - 1] != [])
      && Join(all, p) == str
  {
    SplitTrims(str, p);
    AllFieldsJoin(str, p);
  }

  /** When the text after the last consumed delimiter is not empty, nothing is trimmed and join restores str. */
  lemma SplitKeepsRemainder(str: seq<char>, p: seq<char>)
    requires |p| >= 1
    requires AllFields(str, p)[|AllFields(str, p)| - 1] != []
    ensures SplitOn(str, p) == AllFields(str, p)
    ensures Join(SplitOn(str, p), p) == str
  {
    AllFieldsJoin(str, p);
  }

  /** No field of the split result contains the delimiter. */
  lemma SplitFreeOf(str: seq<char>, p: seq<char>)
    requires |p| >= 1
    ensures forall f :: f in SplitOn(str, p) ==> FreeOf(f, p)
  {
    ScanFreeOf(str, p, 0);
    SplitTrims(str, p);
    var all := AllFields(str, p);
    var r := SplitOn(str, p);
    forall f | f in r ensures FreeOf(f, p) {
      var k :| 0 <= k < |r| && r[k] == f;
      assert all[k] == f;
    }
  }

  /** The empty text splits into no fields at all. */
  lemma SplitEmptyText(p: seq<char>)
    requires |p| >= 1
    ensures SplitOn([], p) == []
  {
    assert Scan([], p, 0) == Scanned([], 0);
  }

  /** One round of the scan, given where the occurrence is and where the cursor moves. */
  lemma ScanCons(str: seq<char>, p: seq<char>, i: nat, found: nat, next: nat)
    requires |p| >= 1 && i <= |str| && IndexOf(str, p, i) == found && next == found + |p|
    ensures i <= found <= next <= |str|
    ensures Scan(str, p, i).fields == [str[i..found]] + Scan(str, p, next).fields
    ensures Scan(str, p, i).cursor == Scan(str, p, next).cursor
  {
  }

  /** The scan stops where p does not occur any more. */
  lemma ScanStop(str: seq<char>, p: seq<char>, i: nat)
    requires |p| >= 1 && i <= |str| && IndexOf(str, p, i) == -1
    ensures Scan(str, p, i) == Scanned([], i)
  {
  }

  /**
   * From a cursor after which the text is k copies of the delimiter, the scan
   * emits only empty fields and reaches the end of the text.
   */
  lemma {:induction false} ScanRepeat(str: seq<char>, p: seq<char>, i: nat, k: nat)
    requires |p| >= 1 && i <= |str| && str[i..] == Repeat(p, k)
    ensures Scan(str, p, i).cursor == |str|
    ensures forall f :: f in Scan(str, p, i).fields ==> f == []
    decreases k
  {
    if k == 0 {
      ScanStop(str, p, i);
    } else {
      var next := i + |p|;
      assert str[i..next] == p by {
        assert str[i..][..|p|] == p;
      }
      ScanCons(str, p, i, i, next);
      assert str[next..] == Repeat(p, k - 1) by {
        assert str[next..] == str[i..][|p|..];
      }
      ScanRepeat(str, p, next, k - 1);
      assert str[i..i] == [];
    }
  }

  /** Trimming a list of empty fields leaves nothing. */
  lemma {:induction false} TrimAllEmpty(fs: seq<seq<char>>)
    requires forall f :: f in fs ==> f == []
    ensures TrimTrailing(fs) == []
    decreases |fs|
  {
    if |fs| > 0 {
      assert fs[|fs| - 1] in fs;
      var front := fs[..|fs| - 1];
      forall f | f in front ensures f == [] {
        var n :| 0 <= n < |front| && front[n] == f;
        assert fs[n] in fs;
      }
      TrimAllEmpty(front);
    }
  }

  /** A text made only of delimiters splits into no fields at all. */
  lemma SplitDelimitersOnly(p: seq<char>, k: nat)
    requires |p| >= 1
    ensures SplitOn(Repeat(p, k), p) == []
  {
    ScanRepeat(Repeat(p, k), p, 0, k);
    TrimAllEmpty(Scan(Repeat(p, k), p, 0).fields);
  }

  /** The split agrees with Java's String.split exactly when the text is not empty. */
  lemma SplitAgreesWithJava(str: seq<char>, p: seq<char>)
    requires |p| >= 1
    ensures SplitOn(str, p) == JavaSplit(str, p) <==> str != []
  {
    SplitTrims(str, p);
    if str == [] {
      SplitEmptyText(p);
    }
  }

  /** An empty field between two delimiters is kept. */
  lemma SplitExampleInnerEmpty()
    ensures SplitOn("a,,b", ",") == ["a", "", "b"]
  {
    var s, p := "a,,b", ",";
    assert s[0..1][0] != p[0];
    assert IndexOf(s, p, 0) == 1;
    ScanCons(s, p, 0, 1, 2);
    assert IndexOf(s, p, 2) == 2;
    ScanCons(s, p, 2, 2, 3);
    assert IndexOf(s, p, 3) == -1;
    ScanStop(s, p, 3);
    assert s[0..1] == "a" && s[2..2] == "" && s[3..] == "b";
    assert Scan(s, p, 0) == Scanned(["a", ""], 3);
  }
  /** Empty fields at the end, after the last delimiter, are removed. */
  lemma SplitExampleTrailingEmpty()
    ensures SplitOn("a,b,,", ",") == ["a", "b"]
  {
    var s, p := "a,b,,", ",";
    assert s[0..1][0] != p[0];
    assert IndexOf(s, p, 0) == 1;
    ScanCons(s, p, 0, 1, 2);
    assert s[2..3][0] != p[0];
    assert IndexOf(s, p, 2) == 3;
    ScanCons(s, p, 2, 3, 4);
    assert IndexOf(s, p, 4) == 4;
    ScanCons(s, p, 4, 4, 5);
    assert IndexOf(s, p, 5) == -1;
    ScanStop(s, p, 5);
    assert s[0..1] == "a" && s[2..3] == "b" && s[4..4] == "";
    var fields := ["a", "b", ""];
    assert Scan(s, p, 0) == Scanned(fields, 5);
    assert fields[..2] == ["a", "b"];
  }
  /** Delimiters are consumed left to right without overlapping. */
  lemma SplitExampleNonOverlapping()
    ensures SplitOn("xaaay", "aa") == ["x", "ay"]
  {
    var s, p := "xaaay", "aa";
    assert s[0..2][0] != p[0];
    assert IndexOf(s, p, 0) == 1;
    ScanCons(s, p, 0, 1, 3);
    assert s[3..5][1] != p[1];
    assert IndexOf(s, p, 3) == -1;
    ScanStop(s, p, 3);
    assert s[0..1] == "x" && s[3..] == "ay";
    assert Scan(s, p, 0) == Scanned(["x"], 3);
  }
}
