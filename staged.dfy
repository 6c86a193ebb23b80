/** Which staged files the command processes: those whose path ends in one
    of five extensions, as the pattern `\.(ts|tsx|jsx|js|css)$` selects. */
module Staged {
  import opened Strings

  /** The extensions the command handles, without the dot. */
  const Extensions: seq<string> := ["ts", "tsx", "jsx", "js", "css"]

  /** The path ends with a dot and one of the extensions. */
  predicate AcceptedPath(path: string) {
    exists e | e in Extensions :: EndsWith(path, "." + e)
  }

  /** The staged paths the command goes on to process, in their order. */
  function StagedSources(staged: seq<string>): (r: seq<string>)
    ensures |r| <= |staged|
    ensures forall p :: p in r <==> p in staged && AcceptedPath(p)
  {
    if staged == [] then
      []
    else
      var rest := StagedSources(staged[1..]);
      assert staged == [staged[0]] + staged[1..];
      if AcceptedPath(staged[0]) then [staged[0]] + rest else rest
  }

  /** Each accepted path is kept as often as it is staged, any other path
      never. */
  lemma {:induction false} StagedSourcesCounts(staged: seq<string>)
    ensures var r := StagedSources(staged);
      forall p :: multiset(r)[p] == if AcceptedPath(p) then multiset(staged)[p] else 0
  {
    if staged != [] {
      StagedSourcesCounts(staged[1..]);
      assert staged == [staged[0]] + staged[1..];
    }
  }

  /** A path is accepted exactly when it has a dot and the text after its
      last dot is one of the extensions. */
  lemma AcceptedIffLastDotExtension(path: string)
    ensures AcceptedPath(path) <==>
      var k := LastIndexOf(path, ".");
      k != -1 && path[k + 1..] in Extensions
  {
    if AcceptedPath(path) {
      var e :| e in Extensions && EndsWith(path, "." + e);
      LastDotOfAccepted(path, e);
    }
    var k := LastIndexOf(path, ".");
    if k != -1 && path[k + 1..] in Extensions {
      DotThenRest(path, k);
    }
  }

  /** A path with a dot at `k` ends with that dot and the rest of the path. */
  lemma DotThenRest(path: string, k: int)
    requires OccursAt(path, ".", k)
    ensures EndsWith(path, "." + path[k + 1..])
  {
    assert path[k] == path[k..k + 1][0];
    assert path[k..] == "." + path[k + 1..];
  }

  /** In a path ending with `.` and an extension, the last dot is that one. */
  lemma LastDotOfAccepted(path: string, e: string)
    requires e in Extensions && EndsWith(path, "." + e)
    ensures LastIndexOf(path, ".") == |path| - |e| - 1
    ensures path[|path| - |e|..] == e
  {
    var d := |path| - |e| - 1;
    assert path[d..] == "." + e;
    assert OccursAt(path, ".", d) by {
      assert path[d..d + 1] == path[d..][..1];
    }
    forall j | d < j ensures !OccursAt(path, ".", j) {
      if d < j < |path| {
        ExtensionCharNotDot(path, e, j);
      }
    }
  }

  lemma ExtensionCharNotDot(path: string, e: string, j: int)
    requires e in Extensions && EndsWith(path, "." + e)
    requires |path| - |e| <= j < |path|
    ensures !OccursAt(path, ".", j)
  {
    var d := |path| - |e| - 1;
    assert path[j] == path[d..][j - d] == e[j - d - 1];
    assert e[j - d - 1] != '.' by {
      assert e == "ts" || e == "tsx" || e == "jsx" || e == "js" || e == "css";
    }
    assert path[j..j + 1] == [path[j]];
  }

  /** Filtering a concatenation filters each part and keeps them in order. */
  lemma {:induction false} StagedSourcesAppend(a: seq<string>, b: seq<string>)
    ensures StagedSources(a + b) == StagedSources(a) + StagedSources(b)
  {
    if a == [] {
      assert a + b == b;
    } else {
      var head := if AcceptedPath(a[0]) then [a[0]] else [];
      calc {
        StagedSources(a + b);
      == { StagedSourcesStep(a + b); assert (a + b)[1..] == a[1..] + b; }
        head + StagedSources(a[1..] + b);
      == { StagedSourcesAppend(a[1..], b); }
        head + (StagedSources(a[1..]) + StagedSources(b));
      == { Regroup(head, StagedSources(a[1..]), StagedSources(b)); }
        (head + StagedSources(a[1..])) + StagedSources(b);
      == { StagedSourcesStep(a); }
        StagedSources(a) + StagedSources(b);
      }
    }
  }

  /** Concatenation regrouped. */
  lemma Regroup(x: seq<string>, y: seq<string>, z: seq<string>)
    ensures x + (y + z) == (x + y) + z
  {
  }

  /** The first path is kept or dropped, then the rest is filtered. */
  lemma StagedSourcesStep(s: seq<string>)
    requires s != []
    ensures StagedSources(s) == (if AcceptedPath(s[0]) then [s[0]] else []) + StagedSources(s[1..])
  {
  }

  /** A single path is kept exactly when its extension is accepted. */
  lemma StagedSourcesSingle(p: string)
    ensures StagedSources([p]) == if AcceptedPath(p) then [p] else []
  {
    assert [p][1..] == [];
  }
}
