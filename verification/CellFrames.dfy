/**
 What a table row shows stands at the row, even while no cell of it is loaded. Frames are placed twice: in the
 snapshot tree, recursively, and in the flattened array, by one pass. Both do the same.
 */
module CellFrames {
  import opened Wrappers
  import opened Trees
  import opened ElementTypes
  import opened Geometry
  import opened Snapshot
  import opened Flattening

  /** The area the scroll views around a node show, and the cell around it when that is outside the area. */
  datatype Context = Context(viewport: Rect, offScreenCell: Option<Frame>)

  predicate IsScroller(t: nat) {
    t == SCROLL_VIEW || t == TABLE || t == COLLECTION_VIEW
  }

  function EffectiveFrame(frame: Frame, ctx: Context): Frame {
    if ctx.offScreenCell.Some? && frame.HasArea() && !SharesArea(frame, ctx.offScreenCell.value)
    then ctx.offScreenCell.value
    else frame
  }

  function ChildContext(t: nat, frame: Frame, ctx: Context): Context {
    var viewport := if IsScroller(t) then Intersection(ctx.viewport, frame) else ctx.viewport;
    if t == CELL then
      Context(viewport, if frame.HasArea() && !SharesArea(frame, viewport) then Some(frame) else None)
    else Context(viewport, ctx.offScreenCell)
  }

  // ---------------------------------------------------------------- the recursive pass

  function Placed(t: Tree<Node>, ctx: Context): Tree<Node>
    decreases t, 1
  {
    var frame := EffectiveFrame(t.value.frame, ctx);
    Tree(t.value.(frame := frame),
         PlacedForest(t.children, ChildContext(ElementType(t.value.typeRaw), frame, ctx)))
  }

  function PlacedForest(ts: seq<Tree<Node>>, ctx: Context): (r: seq<Tree<Node>>)
    ensures |r| == |ts|
    decreases ts, 0
  {
    if ts == [] then [] else [Placed(ts[0], ctx)] + PlacedForest(ts[1..], ctx)
  }

  /** The source's `place`: rewrite what moved, leave unchanged subtrees alone, report any change. */
  method Place(t: Tree<Node>, ctx: Context) returns (placed: Tree<Node>, changed: bool)
    ensures placed == Placed(t, ctx)
    ensures changed <==> placed != t
    decreases t, 1
  {
    placed := t;
    changed := false;
    var effective := EffectiveFrame(t.value.frame, ctx);
    if effective != t.value.frame {
      placed := Tree(t.value.(frame := effective), t.children);
      changed := true;
    }
    var inner := ChildContext(ElementType(t.value.typeRaw), effective, ctx);
    var children, childChanged := PlaceChildren(t.children, inner);
    if childChanged {
      placed := Tree(placed.value, children);
    }
    changed := changed || childChanged;
  }

  method PlaceChildren(ts: seq<Tree<Node>>, ctx: Context) returns (placed: seq<Tree<Node>>, changed: bool)
    ensures placed == PlacedForest(ts, ctx)
    ensures changed <==> placed != ts
    decreases ts, 0
  {
    placed := ts;
    changed := false;
    PlacedForestIs(ts, ctx);
    for i := 0 to |ts|
      invariant |placed| == |ts|
      invariant forall k :: 0 <= k < i ==> placed[k] == Placed(ts[k], ctx)
      invariant forall k :: i <= k < |ts| ==> placed[k] == ts[k]
      invariant changed <==> exists k :: 0 <= k < i && placed[k] != ts[k]
    {
      var child, moved := Place(ts[i], ctx);
      placed := placed[i := child];
      changed := changed || moved;
    }
  }

  lemma {:induction false} PlacedForestIs(ts: seq<Tree<Node>>, ctx: Context)
    ensures forall k :: 0 <= k < |ts| ==> PlacedForest(ts, ctx)[k] == Placed(ts[k], ctx)
  {
    if ts != [] {
      PlacedForestIs(ts[1..], ctx);
    }
  }

  // ---------------------------------------------------------------- the array pass

  /** The context of node `i`, handed down its parent chain. */
  function ContextAt(ns: seq<FlatNode>, start: Context, i: nat): Context
    requires ParentsFirst(ns) && i < |ns|
    decreases i, 0
  {
    match ns[i].parent
    case None => start
    case Some(p) => ChildContext(ns[p].elementType, FrameAt(ns, start, p), ContextAt(ns, start, p))
  }

  function FrameAt(ns: seq<FlatNode>, start: Context, i: nat): Frame
    requires ParentsFirst(ns) && i < |ns|
    decreases i, 1
  {
    EffectiveFrame(ns[i].frame, ContextAt(ns, start, i))
  }

  function PlacedNodes(ns: seq<FlatNode>, start: Context): (r: seq<FlatNode>)
    requires ParentsFirst(ns)
    ensures |r| == |ns|
    ensures forall i :: 0 <= i < |ns| ==> r[i] == ns[i].(frame := FrameAt(ns, start, i))
  {
    seq(|ns|, i requires 0 <= i < |ns| => ns[i].(frame := FrameAt(ns, start, i)))
  }

  /** The source's loop: each node placed in the context its parent handed down. */
  method PlaceNodes(ns: seq<FlatNode>, screen: Rect) returns (placed: seq<FlatNode>)
    requires ParentsFirst(ns)
    ensures placed == PlacedNodes(ns, Context(screen, None))
  {
    ghost var start := Context(screen, None);
    placed := ns;
    var childContexts: seq<Context> := [];
    for i := 0 to |ns|
      invariant |childContexts| == i && |placed| == |ns|
      invariant forall k :: 0 <= k < i ==>
        childContexts[k] == ChildContext(ns[k].elementType, FrameAt(ns, start, k), ContextAt(ns, start, k))
      invariant forall k :: 0 <= k < i ==> placed[k] == ns[k].(frame := FrameAt(ns, start, k))
      invariant forall k :: i <= k < |ns| ==> placed[k] == ns[k]
    {
      var context := if placed[i].parent.Some? then childContexts[placed[i].parent.value] else Context(screen, None);
      var frame := EffectiveFrame(ns[i].frame, context);
      if frame != ns[i].frame {
        placed := placed[i := ns[i].(frame := frame)];
      }
      childContexts := childContexts + [ChildContext(ns[i].elementType, frame, context)];
    }
  }

  // ---------------------------------------------------------------- the two agree

  lemma {:induction false} PlacedSize(t: Tree<Node>, ctx: Context)
    ensures Size(Placed(t, ctx)) == Size(t)
    decreases t, 1
  {
    PlacedForestSize(t.children, ChildContext(ElementType(t.value.typeRaw), EffectiveFrame(t.value.frame, ctx), ctx));
  }

  lemma {:induction false} PlacedForestSize(ts: seq<Tree<Node>>, ctx: Context)
    ensures SizeForest(PlacedForest(ts, ctx)) == SizeForest(ts)
    decreases ts, 0
  {
    if ts != [] {
      PlacedSize(ts[0], ctx);
      PlacedForestSize(ts[1..], ctx);
    }
  }

  /** Placing the part of the array a subtree takes up is laying out the placed subtree. */
  lemma {:induction false} PlacingCommutes(
    ns: seq<FlatNode>, start: Context, t: Tree<Node>, window: Option<nat>, parent: Option<nat>, base: nat)
    requires ParentsFirst(ns) && base + Size(t) <= |ns|
    requires ns[base..base + Size(t)] == Flat(t, window, parent, base)
    ensures PlacedNodes(ns, start)[base..base + Size(t)] ==
      Flat(Placed(t, ContextAt(ns, start, base)), window, parent, base)
    decreases t, 1
  {
    var ctx := ContextAt(ns, start, base);
    HeadAndKids(ns, t, window, parent, base);
    var inner := ChildContext(ElementType(t.value.typeRaw), EffectiveFrame(t.value.frame, ctx), ctx);
    assert inner == ChildContext(ns[base].elementType, FrameAt(ns, start, base), ctx);
    ForestCommutes(ns, start, t.children, inner, OwnWindow(t.value, window, base), base, base + 1);
    PlacedHead(ns, start, t, window, parent, base);
    assert Placed(t, ctx).children == PlacedForest(t.children, inner);
    PlacedTreeJoins(PlacedNodes(ns, start), t, ctx, window, parent, base);
  }

  /** The part of the array a subtree takes up is its root's node and the part its children's subtrees do. */
  lemma HeadAndKids(ns: seq<FlatNode>, t: Tree<Node>, window: Option<nat>, parent: Option<nat>, base: nat)
    requires base + Size(t) <= |ns| && ns[base..base + Size(t)] == Flat(t, window, parent, base)
    ensures ns[base] == Head(t.value, window, parent, base, base + Size(t))
    ensures ns[base + 1..base + Size(t)] == FlatForest(t.children, OwnWindow(t.value, window, base), base, base + 1)
  {
    var kids := FlatForest(t.children, OwnWindow(t.value, window, base), base, base + 1);
    Cut(ns, base, base + 1, base + Size(t), [Head(t.value, window, parent, base, base + Size(t))], kids);
    assert ns[base] == ns[base..base + 1][0];
  }

  /** A placed node and what is placed below it make up the placed subtree. */
  lemma PlacedTreeJoins(
    placed: seq<FlatNode>, t: Tree<Node>, ctx: Context, window: Option<nat>, parent: Option<nat>, base: nat)
    requires base + Size(t) <= |placed|
    requires var value := Placed(t, ctx).value;
      placed[base] == Head(value, window, parent, base, base + Size(t))
      && placed[base + 1..base + Size(t)] ==
           FlatForest(Placed(t, ctx).children, OwnWindow(value, window, base), base, base + 1)
    ensures placed[base..base + Size(t)] == Flat(Placed(t, ctx), window, parent, base)
  {
    PlacedSize(t, ctx);
    Cut(placed, base, base + 1, base + Size(t), [placed[base]], placed[base + 1..base + Size(t)]);
  }

  /** The first node of a subtree's stretch, placed, is the first of the placed subtree. */
  lemma PlacedHead(
    ns: seq<FlatNode>, start: Context, t: Tree<Node>, window: Option<nat>, parent: Option<nat>, base: nat)
    requires ParentsFirst(ns) && base < |ns| && ns[base] == Head(t.value, window, parent, base, base + Size(t))
    ensures var placed := Placed(t, ContextAt(ns, start, base));
      PlacedNodes(ns, start)[base] == Head(placed.value, window, parent, base, base + Size(t))
      && OwnWindow(placed.value, window, base) == OwnWindow(t.value, window, base)
  {
    PlacedSize(t, ContextAt(ns, start, base));
  }

  lemma {:induction false} ForestCommutes(
    ns: seq<FlatNode>, start: Context, ts: seq<Tree<Node>>, inner: Context, window: Option<nat>, parent: nat, base: nat)
    requires ParentsFirst(ns) && parent < base && base + SizeForest(ts) <= |ns|
    requires ns[base..base + SizeForest(ts)] == FlatForest(ts, window, parent, base)
    requires inner == ChildContext(ns[parent].elementType, FrameAt(ns, start, parent), ContextAt(ns, start, parent))
    ensures PlacedNodes(ns, start)[base..base + SizeForest(ts)] ==
      FlatForest(PlacedForest(ts, inner), window, parent, base)
    decreases ts, 0
  {
    if ts != [] {
      var mid := base + Size(ts[0]);
      FirstCommutes(ns, start, ts, inner, window, parent, base);
      RestOfForest(ns, ts, window, parent, base);
      ForestCommutes(ns, start, ts[1..], inner, window, parent, mid);
      PlacedForestJoins(PlacedNodes(ns, start), ts, inner, window, parent, base);
    }
  }

  lemma PlacedForestJoins(
    placed: seq<FlatNode>, ts: seq<Tree<Node>>, inner: Context, window: Option<nat>, parent: nat, base: nat)
    requires ts != [] && base + SizeForest(ts) <= |placed|
    requires placed[base..base + Size(ts[0])] == Flat(Placed(ts[0], inner), window, Some(parent), base)
    requires placed[base + Size(ts[0])..base + SizeForest(ts)] ==
      FlatForest(PlacedForest(ts[1..], inner), window, parent, base + Size(ts[0]))
    ensures placed[base..base + SizeForest(ts)] == FlatForest(PlacedForest(ts, inner), window, parent, base)
  {
    PlacedSize(ts[0], inner);
    Cut(placed, base, base + Size(ts[0]), base + SizeForest(ts),
        Flat(Placed(ts[0], inner), window, Some(parent), base),
        FlatForest(PlacedForest(ts[1..], inner), window, parent, base + Size(ts[0])));
    PlacedForestUnfolds(ts, inner, window, parent, base);
  }

  lemma RestOfForest(ns: seq<FlatNode>, ts: seq<Tree<Node>>, window: Option<nat>, parent: nat, base: nat)
    requires ts != [] && base + SizeForest(ts) <= |ns|
    requires ns[base..base + SizeForest(ts)] == FlatForest(ts, window, parent, base)
    ensures ns[base + Size(ts[0])..base + SizeForest(ts)] == FlatForest(ts[1..], window, parent, base + Size(ts[0]))
  {
    Cut(ns, base, base + Size(ts[0]), base + SizeForest(ts), Flat(ts[0], window, Some(parent), base),
        FlatForest(ts[1..], window, parent, base + Size(ts[0])));
  }

  lemma {:induction false} FirstCommutes(
    ns: seq<FlatNode>, start: Context, ts: seq<Tree<Node>>, inner: Context, window: Option<nat>, parent: nat, base: nat)
    requires ts != [] && ParentsFirst(ns) && parent < base && base + SizeForest(ts) <= |ns|
    requires ns[base..base + SizeForest(ts)] == FlatForest(ts, window, parent, base)
    requires inner == ChildContext(ns[parent].elementType, FrameAt(ns, start, parent), ContextAt(ns, start, parent))
    ensures PlacedNodes(ns, start)[base..base + Size(ts[0])] == Flat(Placed(ts[0], inner), window, Some(parent), base)
    decreases ts[0], 2
  {
    var mid, end := base + Size(ts[0]), base + SizeForest(ts);
    var first := Flat(ts[0], window, Some(parent), base);
    Cut(ns, base, mid, end, first, FlatForest(ts[1..], window, parent, mid));
    assert ns[base] == first[0];
    PlacingCommutes(ns, start, ts[0], window, Some(parent), base);
  }

  lemma PlacedForestUnfolds(ts: seq<Tree<Node>>, inner: Context, window: Option<nat>, parent: nat, base: nat)
    requires ts != []
    ensures FlatForest(PlacedForest(ts, inner), window, parent, base)
      == Flat(Placed(ts[0], inner), window, Some(parent), base)
         + FlatForest(PlacedForest(ts[1..], inner), window, parent, base + Size(ts[0]))
  {
    PlacedSize(ts[0], inner);
    assert PlacedForest(ts, inner)[1..] == PlacedForest(ts[1..], inner);
  }

  /** A stretch of an array is two shorter ones end to end. */
  lemma Cut<T>(s: seq<T>, base: nat, mid: nat, end: nat, first: seq<T>, rest: seq<T>)
    requires base <= mid <= end <= |s| && |first| == mid - base
    ensures s[base..end] == first + rest <==> s[base..mid] == first && s[mid..end] == rest
  {
    assert s[base..end] == s[base..mid] + s[mid..end];
    if s[base..end] == first + rest {
      assert s[base..mid] == (first + rest)[..|first|];
      assert s[mid..end] == (first + rest)[|first|..];
    }
  }

  /** From the same start, placing then flattening is flattening then placing, on every tree. */
  lemma PlacingCommutesWithFlattening(t: Tree<Node>, start: Context)
    ensures ParentsFirst(FlatTree(t))
    ensures PlacedNodes(FlatTree(t), start) == FlatTree(Placed(t, start))
  {
    FlatTreeSays(t);
    var ns := FlatTree(t);
    assert ns[0..0 + Size(t)] == ns;
    PlacingCommutes(ns, start, t, None, None, 0);
    assert PlacedNodes(ns, start)[0..0 + Size(t)] == PlacedNodes(ns, start);
  }

  /** Placing twice is placing once. */
  lemma {:induction false} PlacingIdempotent(t: Tree<Node>, ctx: Context)
    ensures Placed(Placed(t, ctx), ctx) == Placed(t, ctx)
    decreases t, 1
  {
    var frame := EffectiveFrame(t.value.frame, ctx);
    assert EffectiveFrame(frame, ctx) == frame;
    ForestIdempotent(t.children, ChildContext(ElementType(t.value.typeRaw), frame, ctx));
  }

  lemma {:induction false} ForestIdempotent(ts: seq<Tree<Node>>, ctx: Context)
    ensures PlacedForest(PlacedForest(ts, ctx), ctx) == PlacedForest(ts, ctx)
    decreases ts, 0
  {
    if ts != [] {
      PlacingIdempotent(ts[0], ctx);
      ForestIdempotent(ts[1..], ctx);
      assert PlacedForest(ts, ctx)[1..] == PlacedForest(ts[1..], ctx);
    }
  }

  // ---------------------------------------------------------------- what is moved, and where to

  /** The nearest cell around node `i`. */
  function NearestCell(ns: seq<FlatNode>, i: nat): Option<nat>
    requires ParentsFirst(ns) && i < |ns|
    decreases i
  {
    match ns[i].parent
    case None => None
    case Some(p) => if ns[p].elementType == CELL then Some(p) else NearestCell(ns, p)
  }

  /** The area of the screen that every scroll view around node `i` shows. */
  function Viewport(ns: seq<FlatNode>, start: Context, i: nat): Rect
    requires ParentsFirst(ns) && i < |ns|
    decreases i
  {
    match ns[i].parent
    case None => start.viewport
    case Some(p) =>
      if IsScroller(ns[p].elementType) then Intersection(Viewport(ns, start, p), FrameAt(ns, start, p))
      else Viewport(ns, start, p)
  }

  /** Cell `k` stands, where it is placed, outside what the scroll views around it show. */
  predicate OffScreen(ns: seq<FlatNode>, start: Context, k: nat)
    requires ParentsFirst(ns) && k < |ns|
  {
    FrameAt(ns, start, k).HasArea() && !SharesArea(FrameAt(ns, start, k), Viewport(ns, start, k))
  }

  lemma {:induction false} NearestCellIsAbove(ns: seq<FlatNode>, i: nat)
    requires ParentsFirst(ns) && i < |ns|
    ensures NearestCell(ns, i).Some? ==>
      (NearestCell(ns, i).value < i && ns[NearestCell(ns, i).value].elementType == CELL
       && NearestCell(ns, i).value in AncestorsOf(ns, i))
    decreases i
  {
    if ns[i].parent.Some? {
      NearestCellIsAbove(ns, ns[i].parent.value);
    }
  }

  /** The context a node is placed in says just this of its surroundings. */
  lemma {:induction false} ContextMeans(ns: seq<FlatNode>, start: Context, i: nat)
    requires ParentsFirst(ns) && i < |ns|
    ensures ContextAt(ns, start, i).viewport == Viewport(ns, start, i)
    ensures NearestCell(ns, i).Some? ==> NearestCell(ns, i).value < i
    ensures ContextAt(ns, start, i).offScreenCell ==
      match NearestCell(ns, i)
      case None => start.offScreenCell
      case Some(k) => if OffScreen(ns, start, k) then Some(FrameAt(ns, start, k)) else None
    decreases i
  {
    if ns[i].parent.Some? {
      ContextMeans(ns, start, ns[i].parent.value);
    }
  }

  lemma {:induction false} ViewportShrinks(ns: seq<FlatNode>, start: Context, i: nat, a: nat)
    requires ParentsFirst(ns) && i < |ns| && a in AncestorsOf(ns, i) && a < |ns|
    ensures Inside(Viewport(ns, start, i), Viewport(ns, start, a))
    decreases i
  {
    var p := ns[i].parent.value;
    if a != p {
      ViewportShrinks(ns, start, p, a);
    }
    InsideTransitive(Viewport(ns, start, i), Viewport(ns, start, p), Viewport(ns, start, a));
  }

  /**
   A node is moved exactly when the nearest cell around it is off screen where that cell is placed, and
   the node has some area, none of it in common with the cell. It goes to the cell's place.
   */
  lemma MovedIff(ns: seq<FlatNode>, screen: Rect, i: nat)
    requires ParentsFirst(ns) && i < |ns|
    ensures NearestCell(ns, i).Some? ==> NearestCell(ns, i).value < i
    ensures var start := Context(screen, None);
      FrameAt(ns, start, i) != ns[i].frame <==>
        NearestCell(ns, i).Some?
        && OffScreen(ns, start, NearestCell(ns, i).value)
        && ns[i].frame.HasArea() && !SharesArea(ns[i].frame, FrameAt(ns, start, NearestCell(ns, i).value))
    ensures var start := Context(screen, None);
      FrameAt(ns, start, i) != ns[i].frame ==> FrameAt(ns, start, i) == FrameAt(ns, start, NearestCell(ns, i).value)
  {
    ContextMeans(ns, Context(screen, None), i);
  }

  /** A moved node never shows: it shares no area with what the scroll views around it show. */
  lemma MovedIsOffViewport(ns: seq<FlatNode>, screen: Rect, i: nat)
    requires ParentsFirst(ns) && i < |ns|
    requires FrameAt(ns, Context(screen, None), i) != ns[i].frame
    ensures !SharesArea(FrameAt(ns, Context(screen, None), i), Viewport(ns, Context(screen, None), i))
  {
    var start := Context(screen, None);
    MovedIff(ns, screen, i);
    var k := NearestCell(ns, i).value;
    NearestCellIsAbove(ns, i);
    ViewportShrinks(ns, start, i, k);
    ShrinkKeepsApart(Viewport(ns, start, i), Viewport(ns, start, k), FrameAt(ns, start, k));
  }
}
