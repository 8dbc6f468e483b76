/**
 A snapshot tree flattened to an array: each node knows its parent's index and where its subtree
 ends. A parent chain, an index interval and the tree's own paths then say
 the same thing about who is inside whom.
 */
module Flattening {
  import opened Wrappers
  import opened Sequences
  import opened Trees
  import opened ElementTypes
  import opened Geometry
  import opened Snapshot

  datatype FlatNode = FlatNode(
    elementType: nat,
    labelText: string,
    identifier: string,
    frame: Frame,
    subtreeEnd: nat,
    parent: Option<nat>,
    window: Option<nat>)

  function OwnWindow(n: Node, window: Option<nat>, index: nat): Option<nat> {
    if ElementType(n.typeRaw) == WINDOW && window.None? then Some(index) else window
  }

  function Head(n: Node, window: Option<nat>, parent: Option<nat>, index: nat, end: nat): FlatNode {
    FlatNode(ElementType(n.typeRaw), n.labelText, n.identifier, n.frame, end, parent,
             if ElementType(n.typeRaw) == APPLICATION then None else OwnWindow(n, window, index))
  }

  /** The subtree `t` laid out from index `base`. */
  function Flat(t: Tree<Node>, window: Option<nat>, parent: Option<nat>, base: nat): (r: seq<FlatNode>)
    ensures |r| == Size(t)
    decreases t, 1
  {
    [Head(t.value, window, parent, base, base + Size(t))]
    + FlatForest(t.children, OwnWindow(t.value, window, base), base, base + 1)
  }

  function FlatForest(ts: seq<Tree<Node>>, window: Option<nat>, parent: nat, base: nat): (r: seq<FlatNode>)
    ensures |r| == SizeForest(ts)
    decreases ts, 0
  {
    if ts == [] then []
    else Flat(ts[0], window, Some(parent), base) + FlatForest(ts[1..], window, parent, base + Size(ts[0]))
  }

  function FlatTree(t: Tree<Node>): seq<FlatNode> {
    Flat(t, None, None, 0)
  }

  /** The source's recursive walk, which appends a node and fills in its end after its children. */
  class Flattener {
    var nodes: seq<FlatNode>

    constructor ()
      ensures nodes == []
    {
      nodes := [];
    }

    method Walk(s: Tree<Node>, window: Option<nat>, parent: Option<nat>)
      modifies this
      ensures nodes == old(nodes) + Flat(s, window, parent, |old(nodes)|)
      decreases s, 1
    {
      var index := |nodes|;
      var ownWindow := if ElementType(s.value.typeRaw) == WINDOW && window.None? then Some(index) else window;
      nodes := nodes + [Head(s.value, window, parent, index, index + 1)];
      WalkChildren(s.children, ownWindow, index);
      nodes := nodes[index := nodes[index].(subtreeEnd := |nodes|)];
    }

    method WalkChildren(children: seq<Tree<Node>>, window: Option<nat>, parent: nat)
      modifies this
      ensures nodes == old(nodes) + FlatForest(children, window, parent, |old(nodes)|)
      decreases children, 0
    {
      for i := 0 to |children|
        invariant nodes + FlatForest(children[i..], window, parent, |nodes|)
          == old(nodes) + FlatForest(children, window, parent, |old(nodes)|)
      {
        assert children[i..][0] == children[i] && children[i..][1..] == children[i + 1..];
        ghost var first := Flat(children[i], window, Some(parent), |nodes|);
        ghost var rest := FlatForest(children[i + 1..], window, parent, |nodes| + Size(children[i]));
        Associative(nodes, first, rest);
        Walk(children[i], window, Some(parent));
      }
    }
  }

  // ---------------------------------------------------------------- what the array says of the tree

  /** Every parent comes before its children. */
  predicate ParentsFirst(ns: seq<FlatNode>) {
    forall i :: 0 <= i < |ns| && ns[i].parent.Some? ==> ns[i].parent.value < i
  }

  /** `p` is the index of the parent of the node at `i` in the walk `ps`. */
  predicate ParentAt<A>(ps: seq<Position<A>>, p: int, i: nat)
    requires i < |ps|
  {
    0 <= p < i && |ps[i].path| == |ps[p].path| + 1 && ps[p].path < ps[i].path
  }

  /** The node laid out at index `index` is the one at `p`. */
  predicate LaidOut(n: FlatNode, p: Position<Node>, index: nat) {
    n.subtreeEnd == index + Size(p.tree)
    && n.elementType == ElementType(p.tree.value.typeRaw) && n.frame == p.tree.value.frame
  }

  /** The parent of node `i` of a forest below `parent`, laid out from `base`. */
  predicate ParentOf<A>(n: FlatNode, ps: seq<Position<A>>, path: seq<nat>, parent: nat, base: nat, i: nat)
    requires i < |ps|
  {
    n.parent.Some?
    && (if n.parent.value == parent then |ps[i].path| == |path| + 1 && path < ps[i].path
        else n.parent.value >= base && ParentAt(ps, n.parent.value - base, i))
  }

  /** In the flat array of a subtree: ends are ends of stretches, parents are parents. */
  lemma {:induction false} FlatSays(
    t: Tree<Node>, path: seq<nat>, window: Option<nat>, parent: Option<nat>, base: nat, i: nat)
    requires i < Size(t)
    ensures |Positions(t, path)| == Size(t)
    ensures var n, ps := Flat(t, window, parent, base)[i], Positions(t, path);
      LaidOut(n, ps[i], base + i)
      && (i == 0 ==> n.parent == parent)
      && (i > 0 ==> n.parent.Some? && n.parent.value >= base && ParentAt(ps, n.parent.value - base, i))
    decreases t, 1
  {
    PositionsValues(t, path);
    if i > 0 {
      ForestSays(t.children, path, 0, OwnWindow(t.value, window, base), base, base + 1, i - 1);
      var ps, kids := Positions(t, path), PositionsForest(t.children, path, 0);
      assert ps[i] == kids[i - 1];
      var n := FlatForest(t.children, OwnWindow(t.value, window, base), base, base + 1)[i - 1];
      if n.parent.value == base {
        assert ps[0].path == path;
      } else {
        assert ps[n.parent.value - base] == kids[n.parent.value - base - 1];
      }
    }
  }

  lemma {:induction false} ForestSays(
    ts: seq<Tree<Node>>, path: seq<nat>, k: nat, window: Option<nat>, parent: nat, base: nat, i: nat)
    requires i < SizeForest(ts) && parent < base
    ensures |PositionsForest(ts, path, k)| == SizeForest(ts)
    ensures var n, ps := FlatForest(ts, window, parent, base)[i], PositionsForest(ts, path, k);
      LaidOut(n, ps[i], base + i) && ParentOf(n, ps, path, parent, base, i)
    decreases ts, 0
  {
    ForestValues(ts, path, k);
    if i < Size(ts[0]) {
      FirstSays(ts, path, k, window, parent, base, i);
    } else {
      var j := i - Size(ts[0]);
      ForestSays(ts[1..], path, k + 1, window, parent, base + Size(ts[0]), j);
      LaterAt(ts, path, k, window, parent, base, j);
      SaysOfLater(
        FlatForest(ts[1..], window, parent, base + Size(ts[0]))[j],
        Positions(ts[0], path + [k]), PositionsForest(ts[1..], path, k + 1), path, parent, base, j);
    }
  }

  /** Past its first subtree, a forest is the rest of it, in the array and in the walk. */
  lemma LaterAt(ts: seq<Tree<Node>>, path: seq<nat>, k: nat, window: Option<nat>, parent: nat, base: nat, j: nat)
    requires ts != [] && j < SizeForest(ts[1..])
    ensures FlatForest(ts, window, parent, base)[Size(ts[0]) + j]
      == FlatForest(ts[1..], window, parent, base + Size(ts[0]))[j]
    ensures PositionsForest(ts, path, k) == Positions(ts[0], path + [k]) + PositionsForest(ts[1..], path, k + 1)
    ensures |Positions(ts[0], path + [k])| == Size(ts[0])
  {
    PositionsValues(ts[0], path + [k]);
  }

  /** What is said of a node of the later subtrees is said of it among all of them. */
  lemma SaysOfLater(
    n: FlatNode, first: seq<Position<Node>>, rest: seq<Position<Node>>, path: seq<nat>, parent: nat, base: nat, j: nat)
    requires j < |rest| && parent < base
    requires LaidOut(n, rest[j], base + |first| + j) && ParentOf(n, rest, path, parent, base + |first|, j)
    ensures LaidOut(n, (first + rest)[|first| + j], base + |first| + j)
    ensures ParentOf(n, first + rest, path, parent, base, |first| + j)
  {
    if n.parent.value != parent {
      var p := n.parent.value - base - |first|;
      assert (first + rest)[|first| + p] == rest[p];
    }
  }

  lemma {:induction false} FirstSays(
    ts: seq<Tree<Node>>, path: seq<nat>, k: nat, window: Option<nat>, parent: nat, base: nat, i: nat)
    requires ts != [] && i < Size(ts[0]) && parent < base
    requires |PositionsForest(ts, path, k)| == SizeForest(ts)
    ensures var n, ps := FlatForest(ts, window, parent, base)[i], PositionsForest(ts, path, k);
      LaidOut(n, ps[i], base + i) && ParentOf(n, ps, path, parent, base, i)
    decreases ts[0], 2
  {
    var ps, first := PositionsForest(ts, path, k), Positions(ts[0], path + [k]);
    FlatSays(ts[0], path + [k], window, Some(parent), base, i);
    var n := Flat(ts[0], window, Some(parent), base)[i];
    assert ps[i] == first[i] && FlatForest(ts, window, parent, base)[i] == n;
    if i > 0 {
      assert ps[n.parent.value - base] == first[n.parent.value - base];
    } else {
      assert path < path + [k];
    }
  }

  /** The whole array of a tree. */
  lemma FlatTreeSays(t: Tree<Node>)
    ensures |FlatTree(t)| == |Positions(t, [])| == Size(t)
    ensures ParentsFirst(FlatTree(t)) && FlatTree(t)[0].parent == None
    ensures forall i :: 0 <= i < Size(t) ==>
      FlatTree(t)[i].subtreeEnd == i + Size(Positions(t, [])[i].tree)
      && (i > 0 ==> FlatTree(t)[i].parent.Some? && ParentAt(Positions(t, []), FlatTree(t)[i].parent.value, i))
  {
    PositionsValues(t, []);
    forall i: nat | i < Size(t)
      ensures FlatTree(t)[i].subtreeEnd == i + Size(Positions(t, [])[i].tree)
      ensures i == 0 ==> FlatTree(t)[i].parent == None
      ensures i > 0 ==> FlatTree(t)[i].parent.Some? && ParentAt(Positions(t, []), FlatTree(t)[i].parent.value, i)
    {
      FlatSays(t, [], None, None, 0, i);
    }
  }

  // ---------------------------------------------------------------- ancestors

  /** The parent chain of a node, innermost first. */
  function AncestorsOf(ns: seq<FlatNode>, i: nat): seq<nat>
    requires ParentsFirst(ns) && i < |ns|
    decreases i
  {
    match ns[i].parent
    case None => []
    case Some(p) => [p] + AncestorsOf(ns, p)
  }

  /** The source's loop up the parent chain; it ends because parents come first. */
  method Ancestors(ns: seq<FlatNode>, i: nat) returns (result: seq<nat>)
    requires ParentsFirst(ns) && i < |ns|
    ensures result == AncestorsOf(ns, i)
  {
    result := [];
    var p: Option<nat> := ns[i].parent;
    while p.Some?
      invariant p.Some? ==> p.value < |ns|
      invariant result + (if p.Some? then [p.value] + AncestorsOf(ns, p.value) else []) == AncestorsOf(ns, i)
      decreases if p.Some? then p.value + 1 else 0
    {
      Associative(result, [p.value], AncestorsOf(ns, p.value));
      result := result + [p.value];
      p := ns[p.value].parent;
    }
  }

  /** The parent chain, the paths of the tree and the index intervals agree, on every tree. */
  lemma {:induction false} AncestryAgrees(t: Tree<Node>, a: nat, i: nat)
    requires ParentsFirst(FlatTree(t)) && a < Size(t) && i < Size(t)
    ensures |Positions(t, [])| == Size(t)
    ensures a in AncestorsOf(FlatTree(t), i) <==> Positions(t, [])[a].path < Positions(t, [])[i].path
    ensures a in AncestorsOf(FlatTree(t), i) <==> a < i < FlatTree(t)[a].subtreeEnd
    decreases i
  {
    FlatTreeSays(t);
    var ps := Positions(t, []);
    PrefixIsStretch(t, [], a, i);
    if i == 0 {
      PathsBelow(t, [], ps[a]);
    } else {
      var p := FlatTree(t)[i].parent.value;
      AncestryAgrees(t, a, p);
      PrefixIsStretch(t, [], a, p);
      ParentPath(ps[a].path, ps[p].path, ps[i].path);
      if ps[a].path == ps[p].path {
        SamePath(t, a, p);
      }
      if ps[a].path == ps[i].path {
        SamePath(t, a, i);
      }
    }
  }

  /** Below a node means its parent is below or at it. */
  lemma ParentPath(a: seq<nat>, p: seq<nat>, q: seq<nat>)
    requires p < q && |q| == |p| + 1
    ensures a < q <==> a <= p
  {
    assert q[..|p|] == p;
    if a < q {
      assert a == q[..|a|];
      assert a == p[..|a|];
    }
    if a <= p {
      assert a == p[..|a|] == q[..|a|];
    }
  }

  lemma SamePath(t: Tree<Node>, a: nat, b: nat)
    requires a < |Positions(t, [])| && b < |Positions(t, [])|
    requires Positions(t, [])[a].path == Positions(t, [])[b].path
    ensures a == b
  {
    if a < b {
      PathsDistinct(t, [], a, b);
    } else if b < a {
      PathsDistinct(t, [], b, a);
    }
  }
}
