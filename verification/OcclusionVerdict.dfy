/** What the verdicts on a touch target mean. */
module OcclusionVerdict {
  import opened Wrappers
  import opened Geometry
  import opened Flattening
  import opened Subtraction
  import opened KeyboardRegion
  import opened OcclusionAnalyzer

  /** A target gets one verdict. */
  lemma VerdictIsUnique(a: Analyzer, target: Target, isHittable: bool, v: Verdict, w: Verdict)
    requires Valid(a) && IsVerdict(a, target, isHittable, v) && IsVerdict(a, target, isHittable, w)
    ensures v == w
  {
    if Located(a, target).Some? && !isHittable
       && Wide(Remaining(a, target)) && Wide(Intersection(target.frame, a.screen))
       && !Vanished(a, target) && !Moved(a, target) && Wide(Visible(a, target))
    {
      var t, point, windows := Located(a, target).value, Remaining(a, target).Center(), KeyboardWindowsOf(a.nodes);
      forall b, c | IsLastCover(a, windows, t, point, b) && IsLastCover(a, windows, t, point, c) ensures b == c {
        LastCoverIsUnique(a, windows, t, point, b, c);
      }
    } else {
      var r, clips := Visible(a, target), ClipsOf(a, target);
      forall j, k | 0 <= j < |clips| && 0 <= k < |clips| && Hides(r, clips, j) && Hides(r, clips, k) ensures j == k {
        HiderIsUnique(r, clips, j, k);
      }
    }
  }

  lemma HiderIsUnique(r: Rect, clips: seq<Clip>, j: nat, k: nat)
    requires j < |clips| && k < |clips| && Hides(r, clips, j) && Hides(r, clips, k)
    ensures j == k
  {
  }

  lemma LastCoverIsUnique(a: Analyzer, windows: set<nat>, t: nat, point: Point, b: Option<nat>, c: Option<nat>)
    requires ParentsFirst(a.nodes) && t < |a.nodes|
    requires IsLastCover(a, windows, t, point, b) && IsLastCover(a, windows, t, point, c)
    ensures b == c
  {
  }

  /** Bar `i` is taken to be drawn over the target. */
  ghost predicate ClipsTarget(a: Analyzer, target: Target, i: nat)
    requires Valid(a) && i < |a.nodes|
  {
    BarClips(a.nodes, KeyboardWindowsOf(a.nodes), target.frame, Located(a, target), i)
  }

  /** A bar outside the keyboard that the tree puts over node `t`. */
  ghost predicate IsCoveringBar(a: Analyzer, t: nat, i: nat)
    requires Valid(a) && t < |a.nodes| && i < |a.nodes|
  {
    !IsInWindows(a.nodes[i], KeyboardWindowsOf(a.nodes)) && BarIsOver(a.nodes, t, i)
  }

  /** Node `i`, painted after node `t`, takes a touch at `point` away from it. */
  ghost predicate Intercepts(a: Analyzer, t: nat, point: Point, i: nat)
    requires Valid(a) && t < |a.nodes| && i < |a.nodes|
  {
    PaintedAfter(a.nodes, t, i) && TakesTouch(a, KeyboardWindowsOf(a.nodes), t, point, i)
  }

  ghost function KeyboardOf(a: Analyzer): Option<Frame> {
    RegionOf(a.nodes, KeyboardWindowsOf(a.nodes), a.screen)
  }

  /** The point to touch and the free part it stands in, of the two verdicts that name them. */
  predicate Names(v: Verdict, point: Point, visible: Rect) {
    v == Clear(point, visible) || v == Unlocated(point, visible)
  }

  /**
   A verdict that names a place to touch is sound. The place lies in the target, on the screen and in
   every scroll view around the target; it shares no area with the keyboard, unless the target belongs
   to it, nor with any bar over the target; and the point is its centre, at least a point from its edges.
   */
  lemma NamedPlaceIsFree(a: Analyzer, target: Target, isHittable: bool, v: Verdict, point: Point, visible: Rect)
    requires Valid(a) && IsVerdict(a, target, isHittable, v) && Names(v, point, visible)
    ensures Wide(visible) && point == visible.Center()
    ensures Inside(visible, target.frame) && Inside(visible, a.screen)
    ensures Located(a, target).Some? ==> InScrollers(a.nodes, visible, Located(a, target).value)
    ensures !TargetInKeyboard(a, target) && KeyboardOf(a).Some? ==> !SharesArea(visible, KeyboardOf(a).value)
    ensures forall i :: 0 <= i < |a.nodes| && ClipsTarget(a, target, i) ==> !SharesArea(visible, a.nodes[i].frame)
  {
    var onScreen, shown, clips := Intersection(target.frame, a.screen), Visible(a, target), ClipsOf(a, target);
    LeftOfIs(shown, clips, 0, |clips|);
    if Located(a, target).Some? {
      var t := Located(a, target).value;
      ShownIs(a.nodes, onScreen, t);
      InsideScrollers(a.nodes, visible, shown, t);
    }
    InsideTransitive(visible, shown, onScreen);
    InsideTransitive(visible, onScreen, target.frame);
    InsideTransitive(visible, onScreen, a.screen);
    if !TargetInKeyboard(a, target) && KeyboardOf(a).Some? {
      assert clips[0] == Clip(KeyboardOf(a).value, Keyboard);
    }
    forall i: nat | i < |a.nodes| && ClipsTarget(a, target, i) ensures !SharesArea(visible, a.nodes[i].frame) {
      var k := BarIsClip(a, target, i);
    }
  }

  lemma BarIsClip(a: Analyzer, target: Target, i: nat) returns (k: nat)
    requires Valid(a) && i < |a.nodes| && ClipsTarget(a, target, i)
    ensures k < |ClipsOf(a, target)| && ClipsOf(a, target)[k].rect == a.nodes[i].frame
  {
    var clips, clip := ClipsOf(a, target), Clip(a.nodes[i].frame, Drawn(i));
    assert clip in BarClipsUpTo(a.nodes, KeyboardWindowsOf(a.nodes), target.frame, Located(a, target), |a.nodes|);
    assert clip in clips;
    k :| k < |clips| && clips[k] == clip;
  }

  lemma InsideScrollers(ns: seq<FlatNode>, c: Rect, r: Rect, i: nat)
    requires ParentsFirst(ns) && i < |ns| && Inside(c, r) && InScrollers(ns, r, i)
    ensures InScrollers(ns, c, i)
  {
    forall b | 0 <= b < |ns| && b in AncestorsOf(ns, i) && Clipping(ns[b].elementType) ensures Inside(c, ns[b].frame) {
      InsideTransitive(c, r, ns[b].frame);
    }
  }

  /** The bars a clear target is kept clear of are those the tree puts over it. */
  lemma CoveringBarsAreApart(
    a: Analyzer, target: Target, isHittable: bool, v: Verdict, point: Point, visible: Rect, i: nat)
    requires Valid(a) && IsVerdict(a, target, isHittable, v) && Names(v, point, visible)
    requires Located(a, target).Some? && i < |a.nodes| && IsCoveringBar(a, Located(a, target).value, i)
    ensures !SharesArea(visible, a.nodes[i].frame)
  {
    NamedPlaceIsFree(a, target, isHittable, v, point, visible);
    BarClipsIff(a.nodes, KeyboardWindowsOf(a.nodes), target.frame, Located(a, target).value, i);
    assert ClipsTarget(a, target, i);
  }

  /**
   A `clear` verdict on a target found in the tree though the hit test refused it: the target stands where
   it was reported, the free part lies in it, on the screen and in every scroll view around it, apart from
   the keyboard and from every bar the tree puts over it, and no later control takes a touch at its centre.
   Only without any tree is there a clear verdict on a target that was not found.
   */
  lemma ClearIsSound(a: Analyzer, target: Target, point: Point, visible: Rect)
    requires Valid(a) && IsVerdict(a, target, false, Clear(point, visible))
    ensures Located(a, target).None? ==> a.nodes == []
    ensures Wide(visible) && point == visible.Center()
    ensures Inside(visible, target.frame) && Inside(visible, a.screen)
    ensures !TargetInKeyboard(a, target) && KeyboardOf(a).Some? ==> !SharesArea(visible, KeyboardOf(a).value)
    ensures Located(a, target).Some? ==>
      var t := Located(a, target).value;
      !Moved(a, target) && InScrollers(a.nodes, visible, t)
      && (forall i :: 0 <= i < |a.nodes| && IsCoveringBar(a, t, i) ==> !SharesArea(visible, a.nodes[i].frame))
      && (forall i :: 0 <= i < |a.nodes| ==> !Intercepts(a, t, point, i))
  {
    var v := Clear(point, visible);
    NamedPlaceIsFree(a, target, false, v, point, visible);
    if Located(a, target).Some? {
      forall i: nat | i < |a.nodes| && IsCoveringBar(a, Located(a, target).value, i)
        ensures !SharesArea(visible, a.nodes[i].frame)
      {
        CoveringBarsAreApart(a, target, false, v, point, visible, i);
      }
    }
  }

  /** With nothing over the target it is clear, and the touch goes to the centre of what shows of it. */
  lemma UncoveredIsClear(a: Analyzer, target: Target, isHittable: bool, v: Verdict)
    requires Valid(a) && IsVerdict(a, target, isHittable, v) && v != OffScreen && v != Gone
    requires forall k :: 0 <= k < |ClipsOf(a, target)| ==> !SharesArea(Visible(a, target), ClipsOf(a, target)[k].rect)
    requires isHittable
      || (Located(a, target).Some? && Visible(a, target).Rect?
          && forall i :: 0 <= i < |a.nodes| ==>
               !Intercepts(a, Located(a, target).value, Visible(a, target).Center(), i))
    ensures Visible(a, target).Rect? && v == Clear(Visible(a, target).Center(), Visible(a, target))
  {
    var shown := Visible(a, target);
    NothingTaken(shown, ClipsOf(a, target), |ClipsOf(a, target)|);
    if !isHittable {
      var t, windows := Located(a, target).value, KeyboardWindowsOf(a.nodes);
      forall cover | IsLastCover(a, windows, t, shown.Center(), cover) ensures cover == None {
        assert cover.Some? ==> Intercepts(a, t, shown.Center(), cover.value);
      }
    }
  }

  /** A covered target has a real cover: one that takes some of what shows of it, or the touch itself. */
  lemma CoverIsReal(a: Analyzer, target: Target, isHittable: bool, cover: Cover)
    requires Valid(a) && IsVerdict(a, target, isHittable, Covered(cover))
    ensures cover == Keyboard ==>
      (!TargetInKeyboard(a, target) && KeyboardOf(a).Some? && SharesArea(Visible(a, target), KeyboardOf(a).value))
    ensures cover.Drawn? ==> cover.node < |a.nodes|
    ensures cover.Drawn? && Wide(Remaining(a, target)) ==>
      (!isHittable && Located(a, target).Some?
       && Intercepts(a, Located(a, target).value, Remaining(a, target).Center(), cover.node))
    ensures cover.Drawn? && !Wide(Remaining(a, target)) ==>
      (ClipsTarget(a, target, cover.node) && SharesArea(Visible(a, target), a.nodes[cover.node].frame))
  {
    var shown, clips := Visible(a, target), ClipsOf(a, target);
    if !Wide(Remaining(a, target)) {
      var k :| 0 <= k < |clips| && Hides(shown, clips, k) && Covered(cover) == Covered(clips[k].cover);
      var before := LeftOf(shown, clips, k);
      LeftOfIs(shown, clips, 0, k);
      assert LeftOf(shown, clips, k + 1) == Subtract(clips[k].rect, before);
      if !SharesArea(shown, clips[k].rect) {
        ShrinkKeepsApart(before, shown, clips[k].rect);
      }
      assert clips[k] in clips;
    }
  }

  /** A square that is just large enough to touch. */
  predicate IsSpot(c: Rect) {
    c.Rect? && c.w == MIN_VISIBLE_EXTENT && c.h == MIN_VISIBLE_EXTENT
  }

  lemma WideIff(r: Rect)
    ensures Wide(r) <==> exists c :: IsSpot(c) && Inside(c, r)
  {
    if Wide(r) {
      var c := Rect(r.x, r.y, MIN_VISIBLE_EXTENT, MIN_VISIBLE_EXTENT);
      assert IsSpot(c) && Inside(c, r);
    }
  }

  /** Some spot of the target is on screen and, when `i` is a node, in every scroll view around it. */
  ghost predicate HasSpot(a: Analyzer, frame: Frame, i: Option<nat>)
    requires ParentsFirst(a.nodes) && (i.Some? ==> i.value < |a.nodes|)
  {
    exists c :: IsSpot(c) && Inside(c, frame) && Inside(c, a.screen) && (i.Some? ==> InScrollers(a.nodes, c, i.value))
  }

  lemma SpotIff(a: Analyzer, frame: Frame, i: Option<nat>)
    requires ParentsFirst(a.nodes) && (i.Some? ==> i.value < |a.nodes|)
    ensures HasSpot(a, frame, i) <==>
      Wide(if i.Some? then Shown(a.nodes, Intersection(frame, a.screen), i.value) else Intersection(frame, a.screen))
  {
    var onScreen := Intersection(frame, a.screen);
    var shown := if i.Some? then Shown(a.nodes, onScreen, i.value) else onScreen;
    if i.Some? {
      ShownIs(a.nodes, onScreen, i.value);
    }
    WideIff(shown);
    if Wide(shown) {
      var c :| IsSpot(c) && Inside(c, shown);
      InsideTransitive(c, shown, onScreen);
      InsideTransitive(c, onScreen, frame);
      InsideTransitive(c, onScreen, a.screen);
      if i.Some? {
        InsideScrollers(a.nodes, c, shown, i.value);
      }
    }
    if HasSpot(a, frame, i) {
      var c :| IsSpot(c) && Inside(c, frame) && Inside(c, a.screen) && (i.Some? ==> InScrollers(a.nodes, c, i.value));
      IntersectionLargest(frame, a.screen, c);
      assert Inside(c, onScreen) && Inside(c, shown);
    }
  }

  /** Exactly when the target is off screen: no spot shows, or the node found stands elsewhere. */
  lemma OffScreenIff(a: Analyzer, target: Target, isHittable: bool, v: Verdict)
    requires Valid(a) && IsVerdict(a, target, isHittable, v)
    ensures v == OffScreen <==>
      !HasSpot(a, target.frame, None)
      || (!Vanished(a, target) && (Moved(a, target) || !HasSpot(a, target.frame, Located(a, target))))
  {
    SpotIff(a, target.frame, None);
    SpotIff(a, target.frame, Located(a, target));
  }

  /** Exactly when it is gone, and when it has no place in a tree that might still show it. */
  lemma GoneIff(a: Analyzer, target: Target, isHittable: bool, v: Verdict)
    requires Valid(a) && IsVerdict(a, target, isHittable, v)
    ensures v == Gone <==> HasSpot(a, target.frame, None) && Vanished(a, target)
    ensures v.Unlocated? ==> !isHittable && target.isLive && a.nodes != [] && Located(a, target).None?
  {
    SpotIff(a, target.frame, None);
  }
}
