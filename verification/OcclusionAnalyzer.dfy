/**
 Whether a touch on an element would land on it or on something drawn over it, judged from one
 flattened snapshot: the target's visible part is clipped to its scroll views, cut back by the keyboard
 and the bars over it, and its centre is held against every control painted later.
 */
module OcclusionAnalyzer {
  import opened Wrappers
  import opened Trees
  import opened ElementTypes
  import opened Geometry
  import opened Snapshot
  import opened Flattening
  import opened CellFrames
  import opened Subtraction
  import opened KeyboardRegion

  const MIN_VISIBLE_EXTENT: real := 2.0
  const FRAME_TOLERANCE: real := 1.0
  const HOOKS_MARKER := "tapsmith-hooks"
  const HOOKS_MARKER_PREFIX := "tapsmith-hooks:"
  const SCROLL_BAR := "scroll bar"

  datatype Target = Target(
    frame: Frame,
    elementType: Option<nat>,
    labelText: Option<string>,
    identifier: Option<string>,
    isLive: bool)

  datatype Cover = Keyboard | Drawn(node: nat)

  datatype Verdict =
    | Clear(point: Point, visible: Rect)
    | Covered(cover: Cover)
    | OffScreen
    | Unlocated(point: Point, visible: Rect)
    | Gone

  datatype Clip = Clip(rect: Rect, cover: Cover)

  /** `nodes` as placed, `snapshotFrames` as reported; `lower` is the character map of `lowercased()`. */
  datatype Analyzer = Analyzer(nodes: seq<FlatNode>, screen: Frame, snapshotFrames: seq<Frame>, lower: char -> char)

  /** The index intervals of the array say what its parent chains say. */
  ghost predicate WellFormed(ns: seq<FlatNode>) {
    ParentsFirst(ns)
    && (forall i :: 0 <= i < |ns| ==> i < ns[i].subtreeEnd <= |ns|)
    && (forall a: nat, i: nat :: a < |ns| && i < |ns| ==>
          (a in AncestorsOf(ns, i) <==> a < i < ns[a].subtreeEnd))
  }

  ghost predicate Valid(a: Analyzer) {
    WellFormed(a.nodes) && |a.snapshotFrames| == |a.nodes|
  }

  // ---------------------------------------------------------------- from a snapshot

  function FramesOf(ns: seq<FlatNode>): (r: seq<Frame>)
    ensures |r| == |ns|
  {
    seq(|ns|, i requires 0 <= i < |ns| => ns[i].frame)
  }

  method FromSnapshot(snapshot: Tree<Node>, screen: Frame, lower: char -> char) returns (a: Analyzer)
    ensures Valid(a) && a.screen == screen && a.lower == lower
    ensures a.nodes == FlatTree(Placed(snapshot, Context(screen, None)))
    ensures a.snapshotFrames == FramesOf(FlatTree(snapshot))
  {
    var flattener := new Flattener();
    flattener.Walk(snapshot, None, None);
    var flat := flattener.nodes;
    assert flat == FlatTree(snapshot);
    FlatTreeSays(snapshot);
    var placed := PlaceNodes(flat, screen);
    PlacingCommutesWithFlattening(snapshot, Context(screen, None));
    FlatTreeIsWellFormed(Placed(snapshot, Context(screen, None)));
    a := Analyzer(placed, screen, FramesOf(flat), lower);
  }

  lemma FlatTreeIsWellFormed(t: Tree<Node>)
    ensures WellFormed(FlatTree(t))
  {
    FlatTreeSays(t);
    PositionsValues(t, []);
    var ns := FlatTree(t);
    forall i: nat | i < |ns| ensures i < ns[i].subtreeEnd <= |ns| {
      SubtreeStretch(t, [], i);
    }
    forall b: nat, i: nat | b < |ns| && i < |ns|
      ensures b in AncestorsOf(ns, i) <==> b < i < ns[b].subtreeEnd
    {
      AncestryAgrees(t, b, i);
    }
  }

  // ---------------------------------------------------------------- finding the target

  predicate Close(x: real, y: real) { -FRAME_TOLERANCE <= x - y <= FRAME_TOLERANCE }

  predicate FramesMatch(r: Frame, s: Frame) {
    Close(r.MinX(), s.MinX()) && Close(r.MinY(), s.MinY())
    && Close(r.Width(), s.Width()) && Close(r.Height(), s.Height())
  }

  predicate Fits(a: Analyzer, target: Target, i: nat)
    requires i < |a.nodes| == |a.snapshotFrames|
  {
    (FramesMatch(a.nodes[i].frame, target.frame) || FramesMatch(a.snapshotFrames[i], target.frame))
    && (target.elementType.Some? ==> a.nodes[i].elementType == target.elementType.value)
    && (target.labelText.Some? ==> a.nodes[i].labelText == target.labelText.value)
    && (target.identifier.Some? ==> a.nodes[i].identifier == target.identifier.value)
  }

  /** The last of the first `count` nodes that fits the target. */
  function LastFit(a: Analyzer, target: Target, count: nat): (r: Option<nat>)
    requires count <= |a.nodes| == |a.snapshotFrames|
    ensures r.Some? ==> r.value < count && Fits(a, target, r.value)
    ensures r.Some? ==> forall i :: r.value < i < count ==> !Fits(a, target, i)
    ensures r.None? ==> forall i :: 0 <= i < count ==> !Fits(a, target, i)
  {
    if count == 0 then None
    else if Fits(a, target, count - 1) then Some(count - 1)
    else LastFit(a, target, count - 1)
  }

  function Located(a: Analyzer, target: Target): (r: Option<nat>)
    requires |a.nodes| == |a.snapshotFrames|
    ensures r.Some? ==> r.value < |a.nodes|
  {
    LastFit(a, target, |a.nodes|)
  }

  method Locate(a: Analyzer, target: Target) returns (found: Option<nat>)
    requires |a.nodes| == |a.snapshotFrames|
    ensures found == Located(a, target)
  {
    found := None;
    for i := 0 to |a.nodes|
      invariant found == LastFit(a, target, i)
    {
      if Fits(a, target, i) {
        found := Some(i);
      }
    }
  }

  // ---------------------------------------------------------------- clipping to scroll views

  predicate Wide(r: Rect) {
    r.Rect? && r.Width() >= MIN_VISIBLE_EXTENT && r.Height() >= MIN_VISIBLE_EXTENT
  }

  predicate Clipping(t: nat) { IsScroller(t) || t == WEB_VIEW }

  /** The part of `r` that every scroll view around node `i` shows. */
  function Shown(ns: seq<FlatNode>, r: Rect, i: nat): Rect
    requires ParentsFirst(ns) && i < |ns|
    decreases i
  {
    match ns[i].parent
    case None => r
    case Some(p) => Shown(ns, if Clipping(ns[p].elementType) then Intersection(r, ns[p].frame) else r, p)
  }

  /** `c` lies in every scroll view around node `i`. */
  predicate InScrollers(ns: seq<FlatNode>, c: Rect, i: nat)
    requires ParentsFirst(ns) && i < |ns|
  {
    forall b | 0 <= b < |ns| && b in AncestorsOf(ns, i) :: Clipping(ns[b].elementType) ==> Inside(c, ns[b].frame)
  }

  /** It is the largest such part: it lies in all of them, and whatever does lies in it. */
  lemma {:induction false} ShownIs(ns: seq<FlatNode>, r: Rect, i: nat)
    requires ParentsFirst(ns) && i < |ns|
    ensures Inside(Shown(ns, r, i), r) && InScrollers(ns, Shown(ns, r, i), i)
    ensures forall c :: Inside(c, r) && InScrollers(ns, c, i) ==> Inside(c, Shown(ns, r, i))
    decreases i
  {
    if ns[i].parent.Some? {
      var p := ns[i].parent.value;
      var inner := if Clipping(ns[p].elementType) then Intersection(r, ns[p].frame) else r;
      ShownIs(ns, inner, p);
      InsideTransitive(Shown(ns, r, i), inner, r);
      if Clipping(ns[p].elementType) {
        InsideTransitive(Shown(ns, r, i), inner, ns[p].frame);
      }
      forall c | Inside(c, r) && InScrollers(ns, c, i) ensures Inside(c, Shown(ns, r, i)) {
        InScrollersUnfolds(ns, c, i);
      }
      InScrollersUnfolds(ns, Shown(ns, r, i), i);
    }
  }

  lemma InScrollersUnfolds(ns: seq<FlatNode>, c: Rect, i: nat)
    requires ParentsFirst(ns) && i < |ns| && ns[i].parent.Some?
    ensures var p := ns[i].parent.value;
      InScrollers(ns, c, i) <==> (Clipping(ns[p].elementType) ==> Inside(c, ns[p].frame)) && InScrollers(ns, c, p)
  {
    var p := ns[i].parent.value;
    assert AncestorsOf(ns, i) == [p] + AncestorsOf(ns, p);
    assert p in AncestorsOf(ns, i);
  }

  lemma {:induction false} ChainSteps(ns: seq<FlatNode>, i: nat, k: nat)
    requires ParentsFirst(ns) && i < |ns| && k <= |AncestorsOf(ns, i)|
    ensures var chain := AncestorsOf(ns, i);
      var n := if k == 0 then i else chain[k - 1];
      n < |ns| && ns[n].parent == if k < |chain| then Some(chain[k]) else None
    decreases i
  {
    if k > 0 {
      ChainSteps(ns, ns[i].parent.value, k - 1);
    }
  }

  /** The loop over the ancestors, which gives up once too little is left to touch. */
  method ClipToScrollers(ns: seq<FlatNode>, r: Rect, i: nat) returns (visible: Rect, lost: bool)
    requires ParentsFirst(ns) && i < |ns| && Wide(r)
    ensures lost <==> !Wide(Shown(ns, r, i))
    ensures !lost ==> visible == Shown(ns, r, i)
  {
    var chain := Ancestors(ns, i);
    visible := r;
    ghost var at: nat := i;
    ChainSteps(ns, i, 0);
    for k := 0 to |chain|
      invariant at < |ns| && ns[at].parent == if k < |chain| then Some(chain[k]) else None
      invariant Shown(ns, visible, at) == Shown(ns, r, i)
      invariant Wide(visible)
    {
      ChainSteps(ns, i, k + 1);
      at := chain[k];
      if Clipping(ns[chain[k]].elementType) {
        visible := Intersection(visible, ns[chain[k]].frame);
        if !Wide(visible) {
          ShownIs(ns, visible, at);
          return visible, true;
        }
      }
    }
    return visible, false;
  }

  /** A frame clipped to its scroll views. */
  method ClippedFrame(ns: seq<FlatNode>, i: nat) returns (visible: Rect)
    requires ParentsFirst(ns) && i < |ns|
    ensures visible == Shown(ns, ns[i].frame, i)
  {
    var chain := Ancestors(ns, i);
    visible := ns[i].frame;
    ghost var at: nat := i;
    ChainSteps(ns, i, 0);
    for k := 0 to |chain|
      invariant at < |ns| && ns[at].parent == if k < |chain| then Some(chain[k]) else None
      invariant Shown(ns, visible, at) == Shown(ns, ns[i].frame, i)
    {
      ChainSteps(ns, i, k + 1);
      at := chain[k];
      if Clipping(ns[chain[k]].elementType) {
        visible := Intersection(visible, ns[chain[k]].frame);
      }
    }
  }

  // ---------------------------------------------------------------- the keyboard and the bars

  predicate IsBar(t: nat) { t == NAVIGATION_BAR || t == TAB_BAR || t == TOOLBAR }

  /** The source's `isSelfOrAncestor`: by index interval, or by frame when the target has no place. */
  predicate IsSelfOrAncestor(ns: seq<FlatNode>, i: nat, t: Option<nat>, frame: Frame)
    requires i < |ns|
  {
    if t.Some? then i <= t.value < ns[i].subtreeEnd else ns[i].frame.ContainsRect(frame)
  }

  /** The source's `barCovers`. */
  predicate BarCovers(ns: seq<FlatNode>, i: nat, t: Option<nat>)
    requires ParentsFirst(ns) && i < |ns| && (t.Some? ==> t.value < |ns|)
  {
    t.None? || i >= ns[t.value].subtreeEnd
    || (ns[i].parent.Some?
        && ns[ns[i].parent.value].elementType != WINDOW && ns[ns[i].parent.value].elementType != APPLICATION
        && ns[i].parent.value < t.value < ns[ns[i].parent.value].subtreeEnd)
  }

  predicate BarClips(ns: seq<FlatNode>, windows: set<nat>, frame: Frame, t: Option<nat>, i: nat)
    requires ParentsFirst(ns) && i < |ns| && (t.Some? ==> t.value < |ns|)
  {
    IsBar(ns[i].elementType) && !IsInWindows(ns[i], windows)
    && !IsSelfOrAncestor(ns, i, t, frame) && BarCovers(ns, i, t)
  }

  /** Painted after `t` and not inside it. */
  predicate PaintedAfter(ns: seq<FlatNode>, t: nat, i: nat)
    requires ParentsFirst(ns) && i < |ns|
  {
    i > t && t !in AncestorsOf(ns, i)
  }

  /** Bar `i`, which the target is not part of, is painted after it or over its own container's content. */
  predicate BarIsOver(ns: seq<FlatNode>, t: nat, i: nat)
    requires ParentsFirst(ns) && i < |ns| && t < |ns|
  {
    IsBar(ns[i].elementType) && i != t && i !in AncestorsOf(ns, t)
    && (PaintedAfter(ns, t, i)
        || (ns[i].parent.Some?
            && ns[ns[i].parent.value].elementType != WINDOW && ns[ns[i].parent.value].elementType != APPLICATION
            && ns[i].parent.value in AncestorsOf(ns, t)))
  }

  /** The interval tests decide exactly that. */
  lemma BarClipsIff(ns: seq<FlatNode>, windows: set<nat>, frame: Frame, t: nat, i: nat)
    requires WellFormed(ns) && i < |ns| && t < |ns|
    ensures BarClips(ns, windows, frame, Some(t), i) <==> !IsInWindows(ns[i], windows) && BarIsOver(ns, t, i)
    ensures i >= ns[t].subtreeEnd <==> PaintedAfter(ns, t, i)
  {
  }

  function BarClipsUpTo(ns: seq<FlatNode>, windows: set<nat>, frame: Frame, t: Option<nat>, count: nat): (r: seq<Clip>)
    requires ParentsFirst(ns) && count <= |ns| && (t.Some? ==> t.value < |ns|)
    ensures forall c :: c in r <==>
      exists i :: 0 <= i < count && BarClips(ns, windows, frame, t, i) && c == Clip(ns[i].frame, Drawn(i))
  {
    if count == 0 then []
    else
      BarClipsUpTo(ns, windows, frame, t, count - 1)
      + (if BarClips(ns, windows, frame, t, count - 1) then [Clip(ns[count - 1].frame, Drawn(count - 1))] else [])
  }

  /** In a keyboard window, or inside a keyboard wherever it is. */
  predicate IsInKeyboard(ns: seq<FlatNode>, windows: set<nat>, t: nat)
    requires ParentsFirst(ns) && t < |ns|
  {
    IsInWindows(ns[t], windows)
    || exists b | 0 <= b < |ns| && b in AncestorsOf(ns, t) :: ns[b].elementType == KEYBOARD
  }

  function KeyboardClip(region: Option<Frame>, inKeyboard: bool): seq<Clip> {
    if !inKeyboard && region.Some? then [Clip(region.value, Keyboard)] else []
  }

  method FindClips(
    a: Analyzer, windows: set<nat>, frame: Frame, t: Option<nat>, inKeyboard: bool) returns (clips: seq<Clip>)
    requires ParentsFirst(a.nodes) && (t.Some? ==> t.value < |a.nodes|)
    ensures clips == KeyboardClip(RegionOf(a.nodes, windows, a.screen), inKeyboard)
                     + BarClipsUpTo(a.nodes, windows, frame, t, |a.nodes|)
  {
    clips := [];
    if !inKeyboard {
      var region := KeyboardArea(a.nodes, windows, a.screen);
      if region.Some? {
        clips := [Clip(region.value, Keyboard)];
      }
    }
    for i := 0 to |a.nodes|
      invariant clips == KeyboardClip(RegionOf(a.nodes, windows, a.screen), inKeyboard)
                         + BarClipsUpTo(a.nodes, windows, frame, t, i)
    {
      if BarClips(a.nodes, windows, frame, t, i) {
        clips := clips + [Clip(a.nodes[i].frame, Drawn(i))];
      }
    }
  }

  /** What is left of `r` after cutting out the first `count` clips, one after the other. */
  function LeftOf(r: Rect, clips: seq<Clip>, count: nat): Rect
    requires count <= |clips|
  {
    if count == 0 then r else Subtract(clips[count - 1].rect, LeftOf(r, clips, count - 1))
  }

  /** The clip after which too little is left. */
  predicate Hides(r: Rect, clips: seq<Clip>, k: nat)
    requires k < |clips|
  {
    !Wide(LeftOf(r, clips, k + 1)) && forall j | 0 <= j <= k :: Wide(LeftOf(r, clips, j))
  }

  lemma {:induction false} LeftOfIs(r: Rect, clips: seq<Clip>, m: nat, count: nat)
    requires m <= count <= |clips|
    ensures Inside(LeftOf(r, clips, count), LeftOf(r, clips, m))
    ensures forall k :: 0 <= k < count ==> !SharesArea(LeftOf(r, clips, count), clips[k].rect)
    decreases count
  {
    if count > 0 {
      var before, after := LeftOf(r, clips, count - 1), LeftOf(r, clips, count);
      SubtractIsOptimal(clips[count - 1].rect, before);
      LeftOfIs(r, clips, if m < count then m else count - 1, count - 1);
      if m < count {
        InsideTransitive(after, before, LeftOf(r, clips, m));
      }
      forall k | 0 <= k < count ensures !SharesArea(after, clips[k].rect) {
        if k < count - 1 {
          ShrinkKeepsApart(after, before, clips[k].rect);
        }
      }
    }
  }

  /** Clips that share nothing with `r` take nothing from it. */
  lemma {:induction false} NothingTaken(r: Rect, clips: seq<Clip>, count: nat)
    requires count <= |clips|
    requires forall k :: 0 <= k < count ==> !SharesArea(r, clips[k].rect)
    ensures LeftOf(r, clips, count) == r
  {
    if count > 0 {
      NothingTaken(r, clips, count - 1);
    }
  }

  method CutClips(r: Rect, clips: seq<Clip>) returns (visible: Rect, hider: Option<nat>)
    requires Wide(r)
    ensures hider.None? ==> visible == LeftOf(r, clips, |clips|) && Wide(visible)
    ensures hider.Some? ==> hider.value < |clips| && Hides(r, clips, hider.value)
  {
    visible := r;
    for k := 0 to |clips|
      invariant visible == LeftOf(r, clips, k)
      invariant forall j :: 0 <= j <= k ==> Wide(LeftOf(r, clips, j))
    {
      visible := Subtract(clips[k].rect, visible);
      if !Wide(visible) {
        return visible, Some(k);
      }
    }
    return visible, None;
  }

  // ---------------------------------------------------------------- controls painted later

  predicate IsInteractive(t: nat) {
    t in {BUTTON, LINK, TEXT_FIELD, SECURE_TEXT_FIELD, TEXT_VIEW, SEARCH_FIELD, SWITCH, TOGGLE, SLIDER, STEPPER,
          SEGMENTED_CONTROL, PICKER, PICKER_WHEEL, CELL, CHECK_BOX, RADIO_BUTTON, MENU_ITEM, MENU_BUTTON,
          POP_UP_BUTTON, TAB, ALERT, SHEET, DIALOG, POPOVER}
  }

  predicate ReadsAt(text: string, part: string, k: nat, lower: char -> char)
    requires k + |part| <= |text|
  {
    forall j | 0 <= j < |part| :: lower(text[k + j]) == part[j]
  }

  predicate IsScrollIndicator(a: Analyzer, i: nat)
    requires ParentsFirst(a.nodes) && i < |a.nodes|
  {
    var n := a.nodes[i];
    n.elementType == OTHER && n.parent.Some? && Clipping(a.nodes[n.parent.value].elementType)
    && exists k | 0 <= k <= |n.labelText| - |SCROLL_BAR| :: ReadsAt(n.labelText, SCROLL_BAR, k, a.lower)
  }

  predicate IsHooksMarker(n: FlatNode) {
    n.elementType == STATIC_TEXT && (n.identifier == HOOKS_MARKER || HOOKS_MARKER_PREFIX <= n.labelText)
  }

  /** The text node the target is a run of. */
  function Paragraph(ns: seq<FlatNode>, t: nat): Option<nat>
    requires ParentsFirst(ns) && t < |ns|
  {
    if ns[t].parent.Some? && ns[ns[t].parent.value].elementType == STATIC_TEXT then ns[t].parent else None
  }

  /** A node that takes no touch away from `t` wherever it is drawn. */
  predicate IsExempt(a: Analyzer, windows: set<nat>, t: nat, i: nat)
    requires ParentsFirst(a.nodes) && t < |a.nodes| && i < |a.nodes|
  {
    (IsInWindows(a.nodes[i], windows) && !IsInKeyboard(a.nodes, windows, t))
    || (Paragraph(a.nodes, t).Some? && a.nodes[i].parent == Paragraph(a.nodes, t)
        && a.nodes[i].elementType in {STATIC_TEXT, LINK})
    || IsScrollIndicator(a, i) || IsHooksMarker(a.nodes[i])
  }

  predicate TakesTouch(a: Analyzer, windows: set<nat>, t: nat, point: Point, i: nat)
    requires ParentsFirst(a.nodes) && t < |a.nodes| && i < |a.nodes|
  {
    !IsExempt(a, windows, t, i) && IsInteractive(a.nodes[i].elementType)
    && Shown(a.nodes, a.nodes[i].frame, i).ContainsPoint(point)
  }

  /** The last control painted after `t` that takes a touch at `point`, if any does. */
  predicate IsLastCover(a: Analyzer, windows: set<nat>, t: nat, point: Point, cover: Option<nat>)
    requires ParentsFirst(a.nodes) && t < |a.nodes|
  {
    match cover
    case None => forall i | 0 <= i < |a.nodes| :: PaintedAfter(a.nodes, t, i) ==> !TakesTouch(a, windows, t, point, i)
    case Some(c) => (
      c < |a.nodes| && PaintedAfter(a.nodes, t, c) && TakesTouch(a, windows, t, point, c)
      && forall i | c < i < |a.nodes| :: PaintedAfter(a.nodes, t, i) ==> !TakesTouch(a, windows, t, point, i))
  }

  method FindCover(a: Analyzer, windows: set<nat>, t: nat, point: Point) returns (cover: Option<nat>)
    requires WellFormed(a.nodes) && t < |a.nodes|
    ensures IsLastCover(a, windows, t, point, cover)
  {
    cover := None;
    var inKeyboard := IsInKeyboard(a.nodes, windows, t);
    var paragraph := Paragraph(a.nodes, t);
    for i := a.nodes[t].subtreeEnd to |a.nodes|
      invariant cover.None? ==>
        forall k :: a.nodes[t].subtreeEnd <= k < i ==> !TakesTouch(a, windows, t, point, k)
      invariant cover.Some? ==> a.nodes[t].subtreeEnd <= cover.value < i
      invariant cover.Some? ==> TakesTouch(a, windows, t, point, cover.value)
      invariant cover.Some? ==> forall k :: cover.value < k < i ==> !TakesTouch(a, windows, t, point, k)
    {
      var node := a.nodes[i];
      if IsInWindows(node, windows) && !inKeyboard {
        continue;
      }
      if paragraph.Some? && node.parent == paragraph && node.elementType in {STATIC_TEXT, LINK} {
        continue;
      }
      if IsScrollIndicator(a, i) || IsHooksMarker(node) {
        continue;
      }
      var clipped := ClippedFrame(a.nodes, i);
      if IsInteractive(node.elementType) && clipped.ContainsPoint(point) {
        cover := Some(i);
      }
    }
    forall i | 0 <= i < |a.nodes|
      ensures i >= a.nodes[t].subtreeEnd <==> PaintedAfter(a.nodes, t, i)
    {
      BarClipsIff(a.nodes, windows, a.screen, t, i);
    }
  }

  // ---------------------------------------------------------------- the verdict

  /** A target known only from what was cached, with nothing in the tree to recognise it by. */
  predicate Vanished(a: Analyzer, target: Target)
    requires |a.nodes| == |a.snapshotFrames|
  {
    !target.isLive && a.nodes != []
    && ((target.elementType.None? && target.labelText.None? && target.identifier.None?) || Located(a, target).None?)
  }

  predicate Moved(a: Analyzer, target: Target)
    requires |a.nodes| == |a.snapshotFrames|
  {
    Located(a, target).Some? && a.nodes[Located(a, target).value].frame != a.snapshotFrames[Located(a, target).value]
  }

  /** The part of the target on screen that every scroll view around it shows. */
  function Visible(a: Analyzer, target: Target): Rect
    requires ParentsFirst(a.nodes) && |a.nodes| == |a.snapshotFrames|
  {
    var onScreen := Intersection(target.frame, a.screen);
    match Located(a, target)
    case None => onScreen
    case Some(t) => Shown(a.nodes, onScreen, t)
  }

  ghost predicate TargetInKeyboard(a: Analyzer, target: Target)
    requires ParentsFirst(a.nodes) && |a.nodes| == |a.snapshotFrames|
  {
    Located(a, target).Some? && IsInKeyboard(a.nodes, KeyboardWindowsOf(a.nodes), Located(a, target).value)
  }

  ghost function ClipsOf(a: Analyzer, target: Target): seq<Clip>
    requires ParentsFirst(a.nodes) && |a.nodes| == |a.snapshotFrames|
  {
    var windows := KeyboardWindowsOf(a.nodes);
    KeyboardClip(RegionOf(a.nodes, windows, a.screen), TargetInKeyboard(a, target))
    + BarClipsUpTo(a.nodes, windows, target.frame, Located(a, target), |a.nodes|)
  }

  ghost function Remaining(a: Analyzer, target: Target): Rect
    requires ParentsFirst(a.nodes) && |a.nodes| == |a.snapshotFrames|
  {
    LeftOf(Visible(a, target), ClipsOf(a, target), |ClipsOf(a, target)|)
  }

  /** `v` is what the analyzer says of the target. */
  ghost predicate IsVerdict(a: Analyzer, target: Target, isHittable: bool, v: Verdict)
    requires Valid(a)
  {
    if !Wide(Intersection(target.frame, a.screen)) then v == OffScreen
    else if Vanished(a, target) then v == Gone
    else if Moved(a, target) || !Wide(Visible(a, target)) then v == OffScreen
    else if !Wide(Remaining(a, target)) then
      exists k :: 0 <= k < |ClipsOf(a, target)| && Hides(Visible(a, target), ClipsOf(a, target), k)
                  && v == Covered(ClipsOf(a, target)[k].cover)
    else
      var left := Remaining(a, target);
      var clear := Clear(left.Center(), left);
      if isHittable then v == clear
      else match Located(a, target)
        case None => v == if a.nodes == [] then clear else Unlocated(left.Center(), left)
        case Some(t) => exists cover :: IsLastCover(a, KeyboardWindowsOf(a.nodes), t, left.Center(), cover)
                                        && v == if cover.Some? then Covered(Drawn(cover.value)) else clear
  }

  method Analyze(a: Analyzer, target: Target, isHittable: bool) returns (v: Verdict)
    requires Valid(a)
    ensures IsVerdict(a, target, isHittable, v)
  {
    var onScreen := Intersection(target.frame, a.screen);
    if !Wide(onScreen) {
      return OffScreen;
    }
    if !target.isLive && a.nodes != []
       && target.elementType.None? && target.labelText.None? && target.identifier.None? {
      return Gone;
    }
    var t := Locate(a, target);
    if t.None? && !target.isLive && a.nodes != [] {
      return Gone;
    }
    if t.Some? && a.nodes[t.value].frame != a.snapshotFrames[t.value] {
      return OffScreen;
    }
    var visible := onScreen;
    if t.Some? {
      var lost;
      visible, lost := ClipToScrollers(a.nodes, visible, t.value);
      if lost {
        return OffScreen;
      }
    }
    v := AnalyzeVisible(a, target, isHittable, t, visible);
  }

  /** The rest of `analyze`, once the scroll views have been applied. */
  method AnalyzeVisible(
    a: Analyzer, target: Target, isHittable: bool, t: Option<nat>, visible: Rect) returns (v: Verdict)
    requires Valid(a) && t == Located(a, target) && visible == Visible(a, target)
    requires Wide(Intersection(target.frame, a.screen)) && !Vanished(a, target) && !Moved(a, target) && Wide(visible)
    ensures IsVerdict(a, target, isHittable, v)
  {
    var windows := KeyboardWindows(a.nodes);
    var inKeyboard := t.Some? && IsInKeyboard(a.nodes, windows, t.value);
    var clips := FindClips(a, windows, target.frame, t, inKeyboard);
    assert clips == ClipsOf(a, target);
    var left, hider := CutClips(visible, clips);
    if hider.Some? {
      LeftOfIs(visible, clips, hider.value + 1, |clips|);
      return Covered(clips[hider.value].cover);
    }
    if isHittable {
      return Clear(left.Center(), left);
    }
    if t.None? {
      return if a.nodes == [] then Clear(left.Center(), left) else Unlocated(left.Center(), left);
    }
    var cover := FindCover(a, windows, t.value, left.Center());
    return if cover.Some? then Covered(Drawn(cover.value)) else Clear(left.Center(), left);
  }
}
