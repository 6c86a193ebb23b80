/** String primitives the extension relies on: substring occurrence
    (`includes`), `lastIndexOf` and suffix tests, over `seq<char>`. */
module Strings {

  /** `t` occurs in `s` starting at index `i`. */
  predicate OccursAt(s: string, t: string, i: int) {
    0 <= i && i + |t| <= |s| && s[i..i + |t|] == t
  }

  /** JavaScript `s.includes(t)`: `t` occurs somewhere in `s` (the empty
      string occurs everywhere). */
  predicate Contains(s: string, t: string) {
    exists i | 0 <= i <= |s| - |t| :: OccursAt(s, t, i)
  }

  /** `s` ends with `t`. */
  predicate EndsWith(s: string, t: string) {
    |t| <= |s| && s[|s| - |t|..] == t
  }

  /** JavaScript `s.lastIndexOf(t)`: the largest index at which `t` occurs
      in `s`, or -1 when it occurs nowhere. */
  function LastIndexOf(s: string, t: string): (r: int)
    ensures -1 <= r <= |s|
    ensures r == -1 <==> !Contains(s, t)
    ensures r != -1 ==> OccursAt(s, t, r)
    ensures forall j :: r < j ==> !OccursAt(s, t, j)
    decreases |s|
  {
    if |t| > |s| then
      -1
    else if s[|s| - |t|..] == t then
      assert OccursAt(s, t, |s| - |t|);
      |s| - |t|
    else
      var r := LastIndexOf(s[..|s| - 1], t);
      DropLastKeepsEarlierOccurrences(s, t);
      r
  }

  /** Dropping the last character of `s` loses exactly the occurrence of
      `t` that ends there. */
  lemma DropLastKeepsEarlierOccurrences(s: string, t: string)
    requires |t| <= |s| && s[|s| - |t|..] != t
    ensures forall j :: OccursAt(s, t, j) <==> OccursAt(s[..|s| - 1], t, j)
    ensures Contains(s, t) <==> Contains(s[..|s| - 1], t)
  {
    forall j | OccursAt(s, t, j) ensures OccursAt(s[..|s| - 1], t, j) {
      assert j != |s| - |t|;
      assert s[..|s| - 1][j..j + |t|] == s[j..j + |t|];
    }
    forall j | OccursAt(s[..|s| - 1], t, j) ensures OccursAt(s, t, j) {
      assert s[..|s| - 1][j..j + |t|] == s[j..j + |t|];
    }
    if Contains(s, t) {
      var j :| 0 <= j <= |s| - |t| && OccursAt(s, t, j);
      assert OccursAt(s[..|s| - 1], t, j);
    }
    if Contains(s[..|s| - 1], t) {
      var j :| 0 <= j <= |s| - 1 - |t| && OccursAt(s[..|s| - 1], t, j);
      assert OccursAt(s, t, j);
    }
  }

  /** An occurrence inside a part of a string is an occurrence in the whole. */
  lemma OccursInConcat(a: string, b: string, t: string, i: int)
    ensures OccursAt(a, t, i) ==> OccursAt(a + b, t, i)
    ensures OccursAt(b, t, i) ==> OccursAt(a + b, t, |a| + i)
  {
    if OccursAt(a, t, i) {
      assert (a + b)[i..i + |t|] == a[i..i + |t|];
    }
    if OccursAt(b, t, i) {
      assert (a + b)[|a| + i..|a| + i + |t|] == b[i..i + |t|];
    }
  }

  /** An occurrence in `a + b` that starts inside `b` is an occurrence in `b`. */
  lemma OccursInSuffix(a: string, b: string, t: string, i: int)
    requires OccursAt(a + b, t, i) && |a| <= i
    ensures OccursAt(b, t, i - |a|)
  {
    assert b[i - |a|..i - |a| + |t|] == (a + b)[i..i + |t|];
  }

  /** An occurrence in `a + b` that ends inside `a` is an occurrence in `a`. */
  lemma OccursInPrefix(a: string, b: string, t: string, i: int)
    requires OccursAt(a + b, t, i) && i + |t| <= |a|
    ensures OccursAt(a, t, i)
  {
    assert a[i..i + |t|] == (a + b)[i..i + |t|];
  }

  /** An occurrence of `t` covering index `k` of `s` puts `s[k]` into `t`. */
  lemma OccurrenceCovers(s: string, t: string, i: int, k: int)
    requires OccursAt(s, t, i) && i <= k < i + |t|
    ensures s[k] == t[k - i] && s[k] in t
  {
    assert s[i..i + |t|][k - i] == s[k];
  }

  /** An occurrence of a newline-free text in `x + "\n" + y` lies wholly in
      `x` or wholly in `y`. */
  lemma NewlineSeparates(x: string, y: string, t: string, j: int)
    requires forall k :: 0 <= k < |t| ==> t[k] != '\n'
    requires OccursAt(x + "\n" + y, t, j)
    ensures OccursAt(x, t, j) || OccursAt(y, t, j - |x| - 1)
  {
    var s := x + "\n" + y;
    if j <= |x| < j + |t| {
      OccurrenceCovers(s, t, j, |x|);
      assert false;
    } else if j + |t| <= |x| {
      assert s[j..j + |t|] == x[j..j + |t|];
    } else {
      assert s[j..j + |t|] == y[j - |x| - 1..j - |x| - 1 + |t|];
    }
  }

  /** An occurrence with none after it is the one `lastIndexOf` finds. */
  lemma LastIndexOfIs(s: string, t: string, q: int)
    requires OccursAt(s, t, q)
    requires forall j | q < j :: !OccursAt(s, t, j)
    ensures LastIndexOf(s, t) == q
  {
    assert Contains(s, t);
  }

  /** When `x` ends with the newline-free `t` and `y` does not hold it, the
      last occurrence of `t` in `x + "\n" + y` is the one ending `x`. */
  lemma {:induction false} LastBeforeNewline(x: string, y: string, t: string)
    requires forall k :: 0 <= k < |t| ==> t[k] != '\n'
    requires EndsWith(x, t)
    requires !Contains(y, t)
    ensures LastIndexOf(x + "\n" + y, t) == |x| - |t|
  {
    var s, q := x + "\n" + y, |x| - |t|;
    assert OccursAt(s, t, q) by {
      assert s[q..q + |t|] == x[q..];
    }
    forall j | q < j ensures !OccursAt(s, t, j) {
      if OccursAt(s, t, j) {
        NewlineSeparates(x, y, t, j);
        assert false;
      }
    }
    LastIndexOfIs(s, t, q);
  }

  /** An occurrence of `q` lying inside an occurrence of `t` is an
      occurrence of `q` in `t`. */
  lemma OccursWithin(s: string, t: string, j: int, q: string, i: int)
    requires OccursAt(s, t, j) && OccursAt(s, q, i)
    requires j <= i && i + |q| <= j + |t|
    ensures OccursAt(t, q, i - j)
  {
    assert t == s[j..j + |t|];
    forall k | 0 <= k < |q| ensures t[i - j + k] == q[k] {
      assert t[i - j + k] == s[i + k] == s[i..i + |q|][k];
    }
    assert t[i - j..i - j + |q|] == q;
  }
}
