/**
 Where the nodes of a tree are: paths of child indexes from the root.  A walk that visits every node in pre-order, and
 gets something from some of them, is one whose results are listed by the paths of those nodes, in order.
 */
module Paths {
  import opened Options
  import opened SyntaxTree

  type Path = seq<nat>

  function NodeAt(root: Node, path: Path): Option<Node>
    decreases |path|
  {
    if path == [] then Some(root)
    else if path[0] < |root.children| then NodeAt(root.children[path[0]], path[1..])
    else None
  }

  /** A node comes before those below it, and those below an earlier child before those below a later one. */
  predicate Before(p: Path, q: Path) {
    q != [] && (p == [] || p[0] < q[0] || (p[0] == q[0] && Before(p[1..], q[1..])))
  }

  ghost predicate Ascending(paths: seq<Path>) {
    forall i, j :: 0 <= i < j < |paths| ==> Before(paths[i], paths[j])
  }

  ghost predicate ResultsAre<T>(at: Path -> Option<T>, results: seq<T>, paths: seq<Path>) {
    |results| == |paths| && forall i :: 0 <= i < |paths| ==> at(paths[i]) == Some(results[i])
  }

  /** The results are what `at` gives at the paths, which are all those where it gives anything, each once, in order. */
  ghost predicate Lists<T>(at: Path -> Option<T>, results: seq<T>, paths: seq<Path>) {
    Ascending(paths) && ResultsAre(at, results, paths) && forall p :: at(p).Some? ==> p in paths
  }

  /** The path leads through one of the children from `lo` to below `hi`. */
  predicate Through(p: Path, lo: nat, hi: nat) {
    p != [] && lo <= p[0] < hi
  }

  ghost predicate ListsThrough<T>(at: Path -> Option<T>, lo: nat, hi: nat, results: seq<T>, paths: seq<Path>) {
    && Ascending(paths) && ResultsAre(at, results, paths)
    && (forall p :: p in paths ==> Through(p, lo, hi))
    && (forall p :: Through(p, lo, hi) && at(p).Some? ==> p in paths)
  }

  lemma ListsNone<T>(at: Path -> Option<T>, lo: nat)
    ensures ListsThrough(at, lo, lo, [], [])
  {
  }

  lemma AscendingConcat(a: seq<Path>, b: seq<Path>)
    requires Ascending(a) && Ascending(b) && forall p, q :: p in a && q in b ==> Before(p, q)
    ensures Ascending(a + b)
  {
    forall i, j | 0 <= i < j < |a + b| ensures Before((a + b)[i], (a + b)[j]) {
      if i < |a| <= j {
        assert a[i] in a && b[j - |a|] in b;
      }
    }
  }

  lemma ListsMore<T>(at: Path -> Option<T>, lo: nat, mid: nat, hi: nat, rs: seq<T>, ps: seq<Path>, more: seq<T>,
                     qs: seq<Path>)
    requires lo <= mid <= hi
    requires ListsThrough(at, lo, mid, rs, ps) && ListsThrough(at, mid, hi, more, qs)
    ensures ListsThrough(at, lo, hi, rs + more, ps + qs)
  {
    forall p, q | p in ps && q in qs ensures Before(p, q) {
      assert Through(p, lo, mid) && Through(q, mid, hi);
    }
    AscendingConcat(ps, qs);
    forall p | Through(p, lo, hi) && at(p).Some? ensures p in ps + qs {
      assert Through(p, lo, mid) || Through(p, mid, hi);
    }
  }

  /** The paths of a child, seen from its parent. */
  function Under(k: nat, paths: seq<Path>): seq<Path> {
    seq(|paths|, i requires 0 <= i < |paths| => [k] + paths[i])
  }

  lemma ListsUnder<T>(at: Path -> Option<T>, k: nat, atChild: Path -> Option<T>, results: seq<T>, paths: seq<Path>)
    requires Lists(atChild, results, paths) && forall p: Path :: atChild(p) == at([k] + p)
    ensures ListsThrough(at, k, k + 1, results, Under(k, paths))
  {
    var under := Under(k, paths);
    forall i, j | 0 <= i < j < |under| ensures Before(under[i], under[j]) {
      assert ([k] + paths[i])[1..] == paths[i] && ([k] + paths[j])[1..] == paths[j];
    }
    forall p | Through(p, k, k + 1) && at(p).Some? ensures p in under {
      assert p == [k] + p[1..];
      assert atChild(p[1..]).Some?;
      var i :| 0 <= i < |paths| && paths[i] == p[1..];
      assert under[i] == p;
    }
  }

  /** What the node itself gives comes first. */
  lemma ListsOwn<T>(at: Path -> Option<T>, n: nat, own: seq<T>, results: seq<T>, paths: seq<Path>)
    requires ListsThrough(at, 0, n, results, paths)
    requires forall p :: at(p).Some? ==> p == [] || Through(p, 0, n)
    requires own == if at([]).Some? then [at([]).value] else []
    ensures Lists(at, own + results, (if own == [] then [] else [[]]) + paths)
  {
    var head: seq<Path> := if own == [] then [] else [[]];
    forall p, q | p in head && q in paths ensures Before(p, q) {
      assert Through(q, 0, n);
    }
    AscendingConcat(head, paths);
    forall p | at(p).Some? ensures p in head + paths {
      assert p == [] ==> [[]][0] == p;
    }
  }

  // ----- What is above a node

  /** The class declaration closest above the node, by the name that `nameOf` gives it, or else `outer`. */
  function ClosestClass(root: Node, path: Path, nameOf: Node -> string, outer: Option<string>): Option<string>
    decreases |path|
  {
    if path == [] then outer
    else
      var above := path[..|path| - 1];
      var parent := NodeAt(root, above);
      if parent.Some? && parent.value.kind.ClassDeclaration? then Some(nameOf(parent.value))
      else ClosestClass(root, above, nameOf, outer)
  }

  /** What a class hands down to what is in it; other nodes hand down what they were handed. */
  function HandedDown(root: Node, nameOf: Node -> string, outer: Option<string>): Option<string> {
    if root.kind.ClassDeclaration? then Some(nameOf(root)) else outer
  }

  lemma {:induction false} ClosestClassBelow(root: Node, k: nat, p: Path, nameOf: Node -> string, outer: Option<string>)
    requires k < |root.children|
    ensures ClosestClass(root, [k] + p, nameOf, outer)
         == ClosestClass(root.children[k], p, nameOf, HandedDown(root, nameOf, outer))
    decreases |p|
  {
    var path := [k] + p;
    if p == [] {
      assert path[..0] == [];
    } else {
      var above := p[..|p| - 1];
      assert path[..|path| - 1] == [k] + above;
      assert ([k] + above)[1..] == above;
      ClosestClassBelow(root, k, above, nameOf, outer);
    }
  }
}
