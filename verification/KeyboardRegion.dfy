/** Which windows host the software keyboard, and the area of the screen it covers. */
module KeyboardRegion {
  import opened Wrappers
  import opened ElementTypes
  import opened Geometry
  import opened Flattening

  const DOCKED_SLACK: real := 120.0
  const INPUT_VIEW := "inputView"

  /** `first(where:)` from index `i` on. */
  function FirstFrom(ns: seq<FlatNode>, p: FlatNode -> bool, i: nat): (r: Option<nat>)
    requires i <= |ns|
    ensures r.Some? ==> i <= r.value < |ns| && p(ns[r.value])
    ensures r.Some? ==> forall k :: i <= k < r.value ==> !p(ns[k])
    ensures r.None? ==> forall k :: i <= k < |ns| ==> !p(ns[k])
    decreases |ns| - i
  {
    if i == |ns| then None else if p(ns[i]) then Some(i) else FirstFrom(ns, p, i + 1)
  }

  predicate HasWindow(n: FlatNode) { n.window.Some? }

  predicate IsSizedKeyboard(n: FlatNode) { n.elementType == KEYBOARD && n.frame.HasArea() }

  predicate IsKeyboardRoot(n: FlatNode) { n.elementType == KEYBOARD || n.identifier == INPUT_VIEW }

  /** The window of the first node that is in one. */
  function MainWindow(ns: seq<FlatNode>): Option<nat> {
    var first := FirstFrom(ns, HasWindow, 0);
    if first.Some? then ns[first.value].window else None
  }

  /** Some node roots a keyboard in window `w`, which is not the main one. */
  predicate HostsKeyboard(ns: seq<FlatNode>, w: nat) {
    Some(w) != MainWindow(ns) && exists i | 0 <= i < |ns| :: ns[i].window == Some(w) && IsKeyboardRoot(ns[i])
  }

  predicate IsInWindows(n: FlatNode, windows: set<nat>) {
    n.window.Some? && n.window.value in windows
  }

  ghost function KeyboardWindowsOf(ns: seq<FlatNode>): (windows: set<nat>)
    ensures forall w :: w in windows <==> HostsKeyboard(ns, w)
  {
    set i | 0 <= i < |ns| && ns[i].window.Some? && HostsKeyboard(ns, ns[i].window.value) :: ns[i].window.value
  }

  method KeyboardWindows(ns: seq<FlatNode>) returns (windows: set<nat>)
    ensures windows == KeyboardWindowsOf(ns)
  {
    var mainWindow := MainWindow(ns);
    windows := {};
    for i := 0 to |ns|
      invariant forall w :: w in windows <==>
        Some(w) != mainWindow && exists k :: 0 <= k < i && ns[k].window == Some(w) && IsKeyboardRoot(ns[k])
    {
      if ns[i].window.Some? && ns[i].window != mainWindow && IsKeyboardRoot(ns[i]) {
        windows := windows + {ns[i].window.value};
      }
    }
  }

  /** A node of a keyboard window that counts as a part of `keyboard`: sized, on screen, not a full-window host. */
  predicate IsKeyboardPart(n: FlatNode, windows: set<nat>, screen: Frame, keyboard: Frame) {
    var f := n.frame;
    IsInWindows(n, windows) && f.HasArea()
    && f.MinY() >= screen.MinY() && f.MaxY() <= screen.MaxY() + 1.0
    && f.Height() <= screen.Height() * 0.75
    && f.MaxX() > keyboard.MinX() && f.MinX() < keyboard.MaxX()
    && f.MaxY() > keyboard.MinY()
  }

  /** `top` is where the keyboard and its parts begin. */
  predicate IsTop(ns: seq<FlatNode>, windows: set<nat>, screen: Frame, keyboard: Frame, count: nat, top: real)
    requires count <= |ns|
  {
    top <= keyboard.MinY()
    && (forall i | 0 <= i < count :: IsKeyboardPart(ns[i], windows, screen, keyboard) ==> top <= ns[i].frame.MinY())
    && (top == keyboard.MinY()
        || exists i | 0 <= i < count :: IsKeyboardPart(ns[i], windows, screen, keyboard) && top == ns[i].frame.MinY())
  }

  predicate IsDocked(screen: Frame, keyboard: Frame) {
    keyboard.MaxY() >= screen.MaxY() - DOCKED_SLACK && keyboard.Width() >= screen.Width() * 0.9
  }

  /** A rectangle from a corner and an extent that may run upwards. */
  function Standing(x: real, y: real, w: NonNeg, h: real): Frame {
    if h >= 0.0 then Rect(x, y, w, h) else Rect(x, y + h, w, -h)
  }

  function Grown(screen: Frame, keyboard: Frame, top: real): Frame {
    if IsDocked(screen, keyboard) then Standing(screen.x, top, screen.w, screen.MaxY() - top)
    else Standing(keyboard.x, top, keyboard.w, keyboard.MaxY() - top)
  }

  /** `region` is what the keyboard covers: nothing exactly when no keyboard has a size. */
  ghost predicate IsRegion(ns: seq<FlatNode>, windows: set<nat>, screen: Frame, region: Option<Frame>) {
    match FirstFrom(ns, IsSizedKeyboard, 0)
    case None => region == None
    case Some(k) => region.Some? && exists top ::
      IsTop(ns, windows, screen, ns[k].frame, |ns|, top) && region.value == Grown(screen, ns[k].frame, top)
  }

  function TopOf(ns: seq<FlatNode>, windows: set<nat>, screen: Frame, keyboard: Frame, count: nat): (top: real)
    requires count <= |ns|
    ensures IsTop(ns, windows, screen, keyboard, count, top)
  {
    if count == 0 then keyboard.MinY()
    else
      var above := TopOf(ns, windows, screen, keyboard, count - 1);
      if IsKeyboardPart(ns[count - 1], windows, screen, keyboard) then Min(above, ns[count - 1].frame.MinY()) else above
  }

  function RegionOf(ns: seq<FlatNode>, windows: set<nat>, screen: Frame): (region: Option<Frame>)
    ensures IsRegion(ns, windows, screen, region)
  {
    match FirstFrom(ns, IsSizedKeyboard, 0)
    case None => None
    case Some(k) => Some(Grown(screen, ns[k].frame, TopOf(ns, windows, screen, ns[k].frame, |ns|)))
  }

  method KeyboardArea(ns: seq<FlatNode>, windows: set<nat>, screen: Frame) returns (region: Option<Frame>)
    ensures region == RegionOf(ns, windows, screen)
  {
    var first := FirstFrom(ns, IsSizedKeyboard, 0);
    if first.None? {
      return None;
    }
    var keyboard := ns[first.value].frame;
    var top := keyboard.MinY();
    for i := 0 to |ns|
      invariant top == TopOf(ns, windows, screen, keyboard, i)
    {
      if IsKeyboardPart(ns[i], windows, screen, keyboard) {
        top := Min(top, ns[i].frame.MinY());
      }
    }
    return Some(Grown(screen, keyboard, top));
  }

  lemma RegionIsUnique(ns: seq<FlatNode>, windows: set<nat>, screen: Frame, a: Option<Frame>, b: Option<Frame>)
    requires IsRegion(ns, windows, screen, a) && IsRegion(ns, windows, screen, b)
    ensures a == b
  {
    var first := FirstFrom(ns, IsSizedKeyboard, 0);
    if first.Some? {
      var keyboard := ns[first.value].frame;
      var x :| IsTop(ns, windows, screen, keyboard, |ns|, x) && a.value == Grown(screen, keyboard, x);
      var y :| IsTop(ns, windows, screen, keyboard, |ns|, y) && b.value == Grown(screen, keyboard, y);
      assert x == y;
    }
  }

  /**
   The region leaves no part of the keyboard out: it holds the keyboard's own on-screen part and, when
   the keyboard is docked, the on-screen part of every node counted with it and all that lies below.
   */
  lemma RegionCoversKeyboard(ns: seq<FlatNode>, windows: set<nat>, screen: Frame, region: Frame, k: nat)
    requires IsRegion(ns, windows, screen, Some(region)) && FirstFrom(ns, IsSizedKeyboard, 0) == Some(k)
    ensures Inside(Intersection(ns[k].frame, screen), region)
    ensures IsDocked(screen, ns[k].frame) ==>
      forall i :: 0 <= i < |ns| && IsKeyboardPart(ns[i], windows, screen, ns[k].frame)
        ==> Inside(Intersection(ns[i].frame, screen), region)
    ensures IsDocked(screen, ns[k].frame) ==>
      forall r: Frame :: Inside(r, screen) && r.MinY() >= ns[k].frame.MinY() ==> Inside(r, region)
  {
  }
}
