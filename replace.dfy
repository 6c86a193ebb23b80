/** Global literal replacement, as `s.replace(/pat/g, rep)` does it for a
    pattern without regular-expression operators and a replacement without
    `$` patterns: the string is scanned left to right, and each occurrence
    found is replaced and skipped over, so replaced occurrences never
    overlap and the replacement text is not scanned again. */
module Replace {
  import opened Strings

  /** Replaces every occurrence of `pat` found by the left-to-right scan. */
  function ReplaceAll(s: string, pat: string, rep: string): string
    requires pat != []
    decreases |s|
  {
    if |s| < |pat| then
      s
    else if s[..|pat|] == pat then
      rep + ReplaceAll(s[|pat|..], pat, rep)
    else
      [s[0]] + ReplaceAll(s[1..], pat, rep)
  }

  /** A string in which the pattern does not occur is returned unchanged. */
  lemma {:induction false} ReplaceAllNoMatch(s: string, pat: string, rep: string)
    requires pat != []
    requires !Contains(s, pat)
    ensures ReplaceAll(s, pat, rep) == s
    decreases |s|
  {
    if |s| >= |pat| {
      assert !OccursAt(s, pat, 0);
      assert s == s[..1] + s[1..];
      forall j ensures !OccursAt(s[1..], pat, j) {
        OccursInConcat(s[..1], s[1..], pat, j);
      }
      ReplaceAllNoMatch(s[1..], pat, rep);
    }
  }

  /** No occurrence of `pat` in `s` straddles index `k`. */
  ghost predicate NoOccurrenceAcross(s: string, pat: string, k: int) {
    forall j :: OccursAt(s, pat, j) ==> j + |pat| <= k || k <= j
  }

  /** Dropping a prefix of length `d` shifts the boundary by `d`. */
  lemma NoOccurrenceAcrossDrop(s: string, pat: string, k: int, d: int)
    requires 0 <= d <= k <= |s|
    requires NoOccurrenceAcross(s, pat, k)
    ensures NoOccurrenceAcross(s[d..], pat, k - d)
  {
    forall j | OccursAt(s[d..], pat, j)
      ensures j + |pat| <= k - d || k - d <= j
    {
      assert s[d..][j..j + |pat|] == s[d + j..d + j + |pat|];
      assert OccursAt(s, pat, d + j);
    }
  }

  /** One step of the scan at a match. */
  lemma ReplaceAllStepMatch(s: string, pat: string, rep: string)
    requires pat != [] && |pat| <= |s| && s[..|pat|] == pat
    ensures ReplaceAll(s, pat, rep) == rep + ReplaceAll(s[|pat|..], pat, rep)
  {
  }

  /** One step of the scan past a character that starts no match. */
  lemma ReplaceAllStepChar(s: string, pat: string, rep: string)
    requires pat != [] && |pat| <= |s| && s[..|pat|] != pat
    ensures ReplaceAll(s, pat, rep) == [s[0]] + ReplaceAll(s[1..], pat, rep)
  {
  }

  /** Where no occurrence straddles `k`, the scan reaches `k` exactly, so
      replacing in the whole is replacing in the two halves. */
  lemma {:induction false} ReplaceAllSplit(s: string, pat: string, rep: string, k: int)
    requires pat != []
    requires 0 <= k <= |s|
    requires NoOccurrenceAcross(s, pat, k)
    ensures ReplaceAll(s, pat, rep) == ReplaceAll(s[..k], pat, rep) + ReplaceAll(s[k..], pat, rep)
    decreases |s|
  {
    if k == 0 {
      assert s[k..] == s;
    } else if |s| < |pat| {
      assert s[..k] + s[k..] == s;
    } else if s[..|pat|] == pat {
      assert OccursAt(s, pat, 0);
      NoOccurrenceAcrossDrop(s, pat, k, |pat|);
      ReplaceAllSplitAtMatch(s, pat, rep, k);
    } else {
      NoOccurrenceAcrossDrop(s, pat, k, 1);
      ReplaceAllSplitPastChar(s, pat, rep, k);
    }
  }

  lemma {:induction false} ReplaceAllSplitAtMatch(s: string, pat: string, rep: string, k: int)
    requires pat != []
    requires |pat| <= k <= |s| && s[..|pat|] == pat
    requires NoOccurrenceAcross(s[|pat|..], pat, k - |pat|)
    ensures ReplaceAll(s, pat, rep) == ReplaceAll(s[..k], pat, rep) + ReplaceAll(s[k..], pat, rep)
    decreases |s|, 0
  {
    var t, sk, m := s[|pat|..], s[..k], k - |pat|;
    calc {
      ReplaceAll(s, pat, rep);
    == { ReplaceAllStepMatch(s, pat, rep); }
      rep + ReplaceAll(t, pat, rep);
    == { ReplaceAllSplit(t, pat, rep, m); }
      rep + ReplaceAll(t[..m], pat, rep) + ReplaceAll(t[m..], pat, rep);
    == { assert sk[|pat|..] == t[..m]; assert s[k..] == t[m..]; }
      rep + ReplaceAll(sk[|pat|..], pat, rep) + ReplaceAll(s[k..], pat, rep);
    == { assert sk[..|pat|] == pat; ReplaceAllStepMatch(sk, pat, rep); }
      ReplaceAll(sk, pat, rep) + ReplaceAll(s[k..], pat, rep);
    }
  }

  lemma {:induction false} ReplaceAllSplitPastChar(s: string, pat: string, rep: string, k: int)
    requires pat != []
    requires 0 < k <= |s| && |pat| <= |s| && s[..|pat|] != pat
    requires NoOccurrenceAcross(s[1..], pat, k - 1)
    ensures ReplaceAll(s, pat, rep) == ReplaceAll(s[..k], pat, rep) + ReplaceAll(s[k..], pat, rep)
    decreases |s|, 0
  {
    var t, sk, m := s[1..], s[..k], k - 1;
    calc {
      ReplaceAll(s, pat, rep);
    == { ReplaceAllStepChar(s, pat, rep); }
      [s[0]] + ReplaceAll(t, pat, rep);
    == { ReplaceAllSplit(t, pat, rep, m); }
      [s[0]] + ReplaceAll(t[..m], pat, rep) + ReplaceAll(t[m..], pat, rep);
    == { assert sk[1..] == t[..m]; assert s[k..] == t[m..]; }
      [sk[0]] + ReplaceAll(sk[1..], pat, rep) + ReplaceAll(s[k..], pat, rep);
    == { SkipCharPrefix(sk, pat, rep, s); }
      ReplaceAll(sk, pat, rep) + ReplaceAll(s[k..], pat, rep);
    }
  }

  /** A prefix of a string whose start is no match starts with no match. */
  lemma SkipCharPrefix(sk: string, pat: string, rep: string, s: string)
    requires pat != [] && 0 < |sk| <= |s| && sk == s[..|sk|]
    requires |pat| <= |s| && s[..|pat|] != pat
    ensures ReplaceAll(sk, pat, rep) == [sk[0]] + ReplaceAll(sk[1..], pat, rep)
  {
    if |sk| >= |pat| {
      assert sk[..|pat|] == s[..|pat|];
      ReplaceAllStepChar(sk, pat, rep);
    } else {
      assert sk == [sk[0]] + sk[1..];
    }
  }

  /** The first occurrence is replaced, the text before it is kept, and
      the scan resumes right after it: the `lastIndex` step of a global
      regular-expression replace. */
  lemma {:induction false} ReplaceAllLeftmost(s: string, pat: string, rep: string, i: int)
    requires pat != []
    requires OccursAt(s, pat, i)
    requires forall j :: OccursAt(s, pat, j) ==> i <= j
    ensures ReplaceAll(s, pat, rep) == s[..i] + rep + ReplaceAll(s[i + |pat|..], pat, rep)
  {
    assert NoOccurrenceAcross(s, pat, i);
    ReplaceAllSplit(s, pat, rep, i);
    NothingBefore(s, pat, i);
    ReplaceAllNoMatch(s[..i], pat, rep);
    var u := s[i..];
    assert u[..|pat|] == pat;
    assert u[|pat|..] == s[i + |pat|..];
  }

  /** The text before the first occurrence holds no occurrence. */
  lemma NothingBefore(s: string, pat: string, i: int)
    requires pat != [] && 0 <= i <= |s|
    requires forall j :: OccursAt(s, pat, j) ==> i <= j
    ensures !Contains(s[..i], pat)
  {
    forall j | OccursAt(s[..i], pat, j) ensures OccursAt(s, pat, j) {
      assert s[..i][j..j + |pat|] == s[j..j + |pat|];
    }
  }

  /** An occurrence of `q` that no occurrence of `pat` overlaps survives
      the replacement. */
  lemma {:induction false} ReplaceAllKeeps(s: string, pat: string, rep: string, q: string, i: int)
    requires pat != []
    requires OccursAt(s, q, i)
    requires forall j :: OccursAt(s, pat, j) ==> j + |pat| <= i || i + |q| <= j
    ensures Contains(ReplaceAll(s, pat, rep), q)
  {
    assert NoOccurrenceAcross(s, pat, i);
    ReplaceAllSplit(s, pat, rep, i);
    var u := s[i..];
    assert NoOccurrenceAcross(s, pat, i + |q|);
    NoOccurrenceAcrossDrop(s, pat, i + |q|, i);
    ReplaceAllSplit(u, pat, rep, |q|);
    assert u[..|q|] == q;
    forall j ensures !OccursAt(q, pat, j) {
      if OccursAt(q, pat, j) {
        assert s[i + j..i + j + |pat|] == q[j..j + |pat|];
        assert OccursAt(s, pat, i + j);
      }
    }
    ReplaceAllNoMatch(q, pat, rep);
    var a, b := ReplaceAll(s[..i], pat, rep), ReplaceAll(u[|q|..], pat, rep);
    assert ReplaceAll(s, pat, rep) == a + q + b;
    assert (a + q + b)[|a|..|a| + |q|] == q;
    assert OccursAt(a + q + b, q, |a|);
  }

  /** If the pattern occurs, the replacement text appears in the result. */
  lemma {:induction false} ReplaceAllIntroduces(s: string, pat: string, rep: string)
    requires pat != []
    requires Contains(s, pat)
    ensures Contains(ReplaceAll(s, pat, rep), rep)
    decreases |s|
  {
    var r := ReplaceAll(s, pat, rep);
    if s[..|pat|] == pat {
      var tail := ReplaceAll(s[|pat|..], pat, rep);
      assert r == rep + tail;
      assert OccursAt(rep + tail, rep, 0) by {
        assert (rep + tail)[..|rep|] == rep;
      }
    } else {
      var j :| 0 <= j <= |s| - |pat| && OccursAt(s, pat, j);
      assert j != 0;
      assert s == s[..1] + s[1..];
      OccursInSuffix(s[..1], s[1..], pat, j);
      assert OccursAt(s[1..], pat, j - 1);
      ReplaceAllIntroduces(s[1..], pat, rep);
      var tail := ReplaceAll(s[1..], pat, rep);
      var k :| 0 <= k <= |tail| - |rep| && OccursAt(tail, rep, k);
      OccursInConcat([s[0]], tail, rep, k);
    }
  }

  /** Replacing a pattern by itself changes nothing. */
  lemma {:induction false} ReplaceAllSelf(s: string, pat: string)
    requires pat != []
    ensures ReplaceAll(s, pat, pat) == s
    decreases |s|
  {
    if |s| < |pat| {
    } else if s[..|pat|] == pat {
      ReplaceAllSelf(s[|pat|..], pat);
      assert s == s[..|pat|] + s[|pat|..];
    } else {
      ReplaceAllSelf(s[1..], pat);
      assert s == [s[0]] + s[1..];
    }
  }

  /** The parts joined with `sep` between consecutive ones. */
  function Join(parts: seq<string>, sep: string): string {
    if |parts| == 0 then "" else if |parts| == 1 then parts[0] else parts[0] + sep + Join(parts[1..], sep)
  }

  /** The text between the occurrences of `pat` the scan finds: the pieces
      that the scan copies through unchanged. */
  function Pieces(s: string, pat: string): (parts: seq<string>)
    requires pat != []
    ensures |parts| >= 1
    ensures |parts[0]| <= |s| && s[..|parts[0]|] == parts[0]
    decreases |s|
  {
    if |s| < |pat| then
      [s]
    else if s[..|pat|] == pat then
      [""] + Pieces(s[|pat|..], pat)
    else
      var p := Pieces(s[1..], pat);
      assert s[..1 + |p[0]|] == [s[0]] + s[1..][..|p[0]|];
      [[s[0]] + p[0]] + p[1..]
  }

  /** Growing the first part by one character grows the join by it. */
  lemma JoinConsFirst(c: char, p: seq<string>, sep: string)
    requires |p| >= 1
    ensures Join([[c] + p[0]] + p[1..], sep) == [c] + Join(p, sep)
  {
    var q := [[c] + p[0]] + p[1..];
    if |p| > 1 {
      assert q[1..] == p[1..];
    }
  }

  /** Replacing is joining the pieces with the replacement. */
  lemma {:induction false} PiecesJoin(s: string, pat: string, rep: string)
    requires pat != []
    ensures ReplaceAll(s, pat, rep) == Join(Pieces(s, pat), rep)
    decreases |s|
  {
    if |s| < |pat| {
    } else if s[..|pat|] == pat {
      PiecesJoin(s[|pat|..], pat, rep);
      var p := Pieces(s[|pat|..], pat);
      assert ([""] + p)[1..] == p;
    } else {
      PiecesJoin(s[1..], pat, rep);
      JoinConsFirst(s[0], Pieces(s[1..], pat), rep);
    }
  }

  /** No piece holds the pattern. */
  lemma {:induction false} PiecesFree(s: string, pat: string)
    requires pat != []
    ensures forall k :: 0 <= k < |Pieces(s, pat)| ==> !Contains(Pieces(s, pat)[k], pat)
    decreases |s|
  {
    var parts := Pieces(s, pat);
    if |s| < |pat| {
    } else if s[..|pat|] == pat {
      PiecesFree(s[|pat|..], pat);
      assert parts[1..] == Pieces(s[|pat|..], pat);
    } else {
      PiecesFree(s[1..], pat);
      var p := Pieces(s[1..], pat);
      assert parts[1..] == p[1..];
      FirstPieceFree(s, pat, p[0]);
    }
  }

  /** A prefix of `s` made of `s[0]` and a pattern-free text holds no
      occurrence when `s` does not start with the pattern. */
  lemma FirstPieceFree(s: string, pat: string, p0: string)
    requires pat != [] && |pat| <= |s| && s[..|pat|] != pat
    requires |p0| < |s| && s[..1 + |p0|] == [s[0]] + p0
    requires !Contains(p0, pat)
    ensures !Contains([s[0]] + p0, pat)
  {
    var f := [s[0]] + p0;
    forall j | 0 <= j <= |f| - |pat| ensures !OccursAt(f, pat, j) {
      if j == 0 {
        assert f[..|pat|] == s[..|pat|];
      } else if OccursAt(f, pat, j) {
        OccursInSuffix([s[0]], p0, pat, j);
        assert false;
      }
    }
  }

  /** Every occurrence the scan finds is replaced: the text is its pieces
      joined by the pattern, the result is the same pieces joined by the
      replacement, and no piece holds the pattern. */
  lemma ReplaceAllEveryOccurrence(s: string, pat: string, rep: string)
    requires pat != []
    ensures var parts := Pieces(s, pat);
      && s == Join(parts, pat)
      && ReplaceAll(s, pat, rep) == Join(parts, rep)
      && forall k :: 0 <= k < |parts| ==> !Contains(parts[k], pat)
  {
    PiecesJoin(s, pat, rep);
    PiecesJoin(s, pat, pat);
    ReplaceAllSelf(s, pat);
    PiecesFree(s, pat);
  }
}
