/**
 Accessibility trees and their pre-order walk. A node's place is its path from the root (the child
 index taken at each level), so "is an ancestor of" is "is a prefix of".
 */
module Trees {

  datatype Tree<A> = Tree(value: A, children: seq<Tree<A>>)

  /** A node at its place: its path from the root and the subtree under it. */
  datatype Position<A> = Position(path: seq<nat>, tree: Tree<A>)

  function Size<A>(t: Tree<A>): (n: nat)
    ensures n >= 1
  {
    1 + SizeForest(t.children)
  }

  function SizeForest<A>(ts: seq<Tree<A>>): nat {
    if ts == [] then 0 else Size(ts[0]) + SizeForest(ts[1..])
  }

  function PreOrder<A>(t: Tree<A>): seq<A> {
    [t.value] + PreOrderForest(t.children)
  }

  function PreOrderForest<A>(ts: seq<Tree<A>>): seq<A> {
    if ts == [] then [] else PreOrder(ts[0]) + PreOrderForest(ts[1..])
  }

  /** Every node of `t` (standing at `path`), itself included, in pre-order. */
  function Positions<A>(t: Tree<A>, path: seq<nat>): seq<Position<A>> {
    [Position(path, t)] + PositionsForest(t.children, path, 0)
  }

  /** The nodes of the subtrees `ts`, the children number `k` and on of the node at `path`. */
  function PositionsForest<A>(ts: seq<Tree<A>>, path: seq<nat>, k: nat): seq<Position<A>> {
    if ts == [] then [] else Positions(ts[0], path + [k]) + PositionsForest(ts[1..], path, k + 1)
  }

  /** The descendants of a node, itself excluded: what a `descendants` query ranges over. */
  function Descendants<A>(p: Position<A>): seq<Position<A>> {
    PositionsForest(p.tree.children, p.path, 0)
  }

  function Values<A>(ps: seq<Position<A>>): (r: seq<A>)
    ensures |r| == |ps|
    ensures forall i :: 0 <= i < |ps| ==> r[i] == ps[i].tree.value
  {
    seq(|ps|, i requires 0 <= i < |ps| => ps[i].tree.value)
  }

  lemma ValuesAppend<A>(a: seq<Position<A>>, b: seq<Position<A>>)
    ensures Values(a + b) == Values(a) + Values(b)
  {
  }

  lemma {:induction false} PositionsValues<A>(t: Tree<A>, path: seq<nat>)
    ensures Values(Positions(t, path)) == PreOrder(t)
    ensures |Positions(t, path)| == Size(t)
    decreases t, 1
  {
    ForestValues(t.children, path, 0);
    ValuesAppend([Position(path, t)], PositionsForest(t.children, path, 0));
  }

  lemma {:induction false} ForestValues<A>(ts: seq<Tree<A>>, path: seq<nat>, k: nat)
    ensures Values(PositionsForest(ts, path, k)) == PreOrderForest(ts)
    ensures |PositionsForest(ts, path, k)| == SizeForest(ts)
    decreases ts, 0
  {
    if ts != [] {
      PositionsValues(ts[0], path + [k]);
      ForestValues(ts[1..], path, k + 1);
      ValuesAppend(Positions(ts[0], path + [k]), PositionsForest(ts[1..], path, k + 1));
    }
  }

  /** Every node of a subtree lies below the subtree's root. */
  lemma {:induction false} PathsBelow<A>(t: Tree<A>, path: seq<nat>, p: Position<A>)
    requires p in Positions(t, path)
    ensures path <= p.path
    ensures p.path == path ==> p == Position(path, t)
    decreases t, 1
  {
    if p != Position(path, t) {
      ForestPaths(t.children, path, 0, p);
    }
  }

  lemma {:induction false} ForestPaths<A>(ts: seq<Tree<A>>, path: seq<nat>, k: nat, p: Position<A>)
    requires p in PositionsForest(ts, path, k)
    ensures path < p.path && k <= p.path[|path|] < k + |ts|
    decreases ts, 0
  {
    if p in Positions(ts[0], path + [k]) {
      PathsBelow(ts[0], path + [k], p);
      assert (path + [k])[..|path|] == path;
    } else {
      ForestPaths(ts[1..], path, k + 1, p);
    }
  }

  /** No two nodes share a path. */
  lemma {:induction false} PathsDistinct<A>(t: Tree<A>, path: seq<nat>, i: nat, j: nat)
    requires i < j < |Positions(t, path)|
    ensures Positions(t, path)[i].path != Positions(t, path)[j].path
    decreases t, 1
  {
    var ps := PositionsForest(t.children, path, 0);
    assert Positions(t, path)[j] == ps[j - 1];
    if i == 0 {
      ForestPaths(t.children, path, 0, ps[j - 1]);
    } else {
      assert Positions(t, path)[i] == ps[i - 1];
      ForestPathsDistinct(t.children, path, 0, i - 1, j - 1);
    }
  }

  lemma {:induction false} ForestPathsDistinct<A>(ts: seq<Tree<A>>, path: seq<nat>, k: nat, i: nat, j: nat)
    requires i < j < |PositionsForest(ts, path, k)|
    ensures PositionsForest(ts, path, k)[i].path != PositionsForest(ts, path, k)[j].path
    decreases ts, 0
  {
    var first := Positions(ts[0], path + [k]);
    var rest := PositionsForest(ts[1..], path, k + 1);
    if j < |first| {
      PathsDistinct(ts[0], path + [k], i, j);
    } else if i >= |first| {
      ForestPathsDistinct(ts[1..], path, k + 1, i - |first|, j - |first|);
    } else {
      PathsBelow(ts[0], path + [k], first[i]);
      ForestPaths(ts[1..], path, k + 1, rest[j - |first|]);
      assert (path + [k])[|path|] == k;
      assert first[i].path[|path|] == (path + [k])[|path|];
    }
  }

  /** A subtree is a contiguous stretch of the walk: its root, then everything below it. */
  lemma {:induction false} SubtreeStretch<A>(t: Tree<A>, path: seq<nat>, i: nat)
    requires i < |Positions(t, path)|
    ensures var p := Positions(t, path)[i];
      i + Size(p.tree) <= |Positions(t, path)|
      && Positions(t, path)[i..i + Size(p.tree)] == Positions(p.tree, p.path)
    decreases t, 1
  {
    PositionsValues(t, path);
    if i == 0 {
      assert Positions(t, path)[0..Size(t)] == Positions(t, path);
    } else {
      ForestStretch(t.children, path, 0, i - 1);
      var ps := PositionsForest(t.children, path, 0);
      var p := ps[i - 1];
      assert Positions(t, path)[i] == p;
      assert Positions(t, path)[i..i + Size(p.tree)] == ps[i - 1..i - 1 + Size(p.tree)];
    }
  }

  lemma {:induction false} ForestStretch<A>(ts: seq<Tree<A>>, path: seq<nat>, k: nat, i: nat)
    requires i < |PositionsForest(ts, path, k)|
    ensures var p := PositionsForest(ts, path, k)[i];
      i + Size(p.tree) <= |PositionsForest(ts, path, k)|
      && PositionsForest(ts, path, k)[i..i + Size(p.tree)] == Positions(p.tree, p.path)
    decreases ts, 0
  {
    var all := PositionsForest(ts, path, k);
    var first := Positions(ts[0], path + [k]);
    var rest := PositionsForest(ts[1..], path, k + 1);
    if i < |first| {
      SubtreeStretch(ts[0], path + [k], i);
      var p := first[i];
      assert all[i..i + Size(p.tree)] == first[i..i + Size(p.tree)];
    } else {
      ForestStretch(ts[1..], path, k + 1, i - |first|);
      var p := rest[i - |first|];
      assert all[i..i + Size(p.tree)] == rest[i - |first|..i - |first| + Size(p.tree)];
    }
  }

  /** Below a node means inside its stretch of the walk, and nowhere else. */
  lemma {:induction false} PrefixIsStretch<A>(t: Tree<A>, path: seq<nat>, i: nat, j: nat)
    requires i < |Positions(t, path)| && j < |Positions(t, path)|
    ensures var ps := Positions(t, path);
      ps[i].path <= ps[j].path <==> i <= j < i + Size(ps[i].tree)
    decreases t, 1
  {
    var ps := Positions(t, path);
    PathsBelow(t, path, ps[j]);
    if i == 0 {
      PositionsValues(t, path);
    } else {
      var kids := PositionsForest(t.children, path, 0);
      assert ps[i] == kids[i - 1];
      ForestPaths(t.children, path, 0, ps[i]);
      if j > 0 {
        assert ps[j] == kids[j - 1];
        ForestPrefixIsStretch(t.children, path, 0, i - 1, j - 1);
      }
    }
  }

  lemma {:induction false} ForestPrefixIsStretch<A>(ts: seq<Tree<A>>, path: seq<nat>, k: nat, i: nat, j: nat)
    requires i < |PositionsForest(ts, path, k)| && j < |PositionsForest(ts, path, k)|
    ensures var ps := PositionsForest(ts, path, k);
      ps[i].path <= ps[j].path <==> i <= j < i + Size(ps[i].tree)
    decreases ts, 0
  {
    var first := Positions(ts[0], path + [k]);
    var rest := PositionsForest(ts[1..], path, k + 1);
    if i < |first| && j < |first| {
      PrefixIsStretch(ts[0], path + [k], i, j);
    } else if i >= |first| && j >= |first| {
      ForestPrefixIsStretch(ts[1..], path, k + 1, i - |first|, j - |first|);
    } else if i < |first| {
      // The first subtree's stretch ends before the second begins.
      SubtreeStretch(ts[0], path + [k], i);
      PathsBelow(ts[0], path + [k], first[i]);
      ForestPaths(ts[1..], path, k + 1, rest[j - |first|]);
      assert first[i].path[|path|] == (path + [k])[|path|] == k;
    } else {
      PathsBelow(ts[0], path + [k], first[j]);
      ForestPaths(ts[1..], path, k + 1, rest[i - |first|]);
      assert first[j].path[|path|] == (path + [k])[|path|] == k;
    }
  }

  /** What a subtree holds, the node above it holds among its descendants. */
  lemma NestedValues<A>(t: Tree<A>, path: seq<nat>, i: nat, j: nat, v: A)
    requires i < |Positions(t, path)| && j < |Positions(t, path)|
    requires Positions(t, path)[i].path < Positions(t, path)[j].path
    requires v in PreOrder(Positions(t, path)[j].tree)
    ensures v in PreOrderForest(Positions(t, path)[i].tree.children)
  {
    var ps := Positions(t, path);
    var outer, inner := ps[i], ps[j];
    PrefixIsStretch(t, path, i, j);
    SubtreeStretch(t, path, i);
    InnerValues(outer.tree, outer.path, j - i, v);
  }

  lemma InnerValues<A>(t: Tree<A>, path: seq<nat>, d: nat, v: A)
    requires 1 <= d < |Positions(t, path)| && v in PreOrder(Positions(t, path)[d].tree)
    ensures v in PreOrderForest(t.children)
  {
    var ps := Positions(t, path);
    var inner := ps[d];
    SubtreeStretch(t, path, d);
    PositionsValues(inner.tree, inner.path);
    var k :| 0 <= k < |PreOrder(inner.tree)| && PreOrder(inner.tree)[k] == v;
    assert ps[d..d + Size(inner.tree)][k] == ps[d + k];
    BelowIsInForest(t, path, d + k);
  }

  lemma BelowIsInForest<A>(t: Tree<A>, path: seq<nat>, i: nat)
    requires 1 <= i < |Positions(t, path)|
    ensures Positions(t, path)[i].tree.value in PreOrderForest(t.children)
  {
    PositionsValues(t, path);
    assert Values(Positions(t, path))[i] == PreOrderForest(t.children)[i - 1];
  }
}
