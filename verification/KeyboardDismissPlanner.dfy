/**
 Where to touch the screen without hitting anything: the grid point of a rectangle furthest from every
 blocking node. The search looks at nearby blockers only and stops early at a point that is too close;
 neither changes its answer.
 */
module KeyboardDismissPlanner {
  import opened Wrappers
  import opened Geometry
  import opened Flattening

  const TOUCH_CLEARANCE: real := 8.0
  const GRID_STEP: real := 8.0

  /** `squareRoot()`, whatever computes it. */
  ghost predicate IsSquareRoot(sqrt: real -> real) {
    forall v :: v >= 0.0 ==> sqrt(v) >= 0.0 && sqrt(v) * sqrt(v) == v
  }

  /** How far `v` is outside the stretch from `low` to `high`. */
  function Gap(low: real, v: real, high: real): (r: real)
    ensures r >= 0.0
  {
    Max(Max(low - v, 0.0), v - high)
  }

  function Squares(dx: real, dy: real): (r: real)
    ensures r >= 0.0
  {
    SquareNonNegative(dx);
    SquareNonNegative(dy);
    dx * dx + dy * dy
  }

  lemma SquareNonNegative(d: real)
    ensures d * d >= 0.0
  {
  }

  /** How far `p` is from the rectangle `r`. */
  function Distance(p: Point, r: Frame, sqrt: real -> real): real {
    sqrt(Squares(Gap(r.MinX(), p.x, r.MaxX()), Gap(r.MinY(), p.y, r.MaxY())))
  }

  lemma RootsCompare(c: real, d: real)
    requires c >= 0.0 && d >= 0.0
    ensures c <= d <==> c * c <= d * d
  {
    if c <= d {
      assert c * c <= d * c <= d * d;
    } else {
      StrictSquares(d, c);
    }
  }

  lemma StrictSquares(c: real, d: real)
    requires 0.0 <= c < d
    ensures c * c < d * d
  {
    var e := d - c;
    assert d * d == c * c + 2.0 * (c * e) + e * e;
    assert c * e >= 0.0 && e * e > 0.0;
  }

  lemma RootGrows(sqrt: real -> real, v: real, w: real)
    requires IsSquareRoot(sqrt) && 0.0 <= v <= w
    ensures 0.0 <= sqrt(v) <= sqrt(w)
  {
    RootsCompare(sqrt(v), sqrt(w));
  }

  /** The distance is at least the gap along either axis. */
  lemma RootDominates(sqrt: real -> real, dx: real, dy: real, c: real)
    requires IsSquareRoot(sqrt) && 0.0 <= c && (c <= dx || c <= dy)
    ensures c <= sqrt(Squares(dx, dy))
  {
    SquareNonNegative(dx);
    SquareNonNegative(dy);
    if c <= dx {
      RootsCompare(c, dx);
    } else {
      RootsCompare(c, dy);
    }
    RootsCompare(c, sqrt(Squares(dx, dy)));
  }

  lemma SquareGrows(a: real, b: real)
    requires 0.0 <= a && (a <= b || a <= -b)
    ensures a * a <= b * b
  {
    if a <= b {
      RootsCompare(a, b);
    } else {
      RootsCompare(a, -b);
      assert (-b) * (-b) == b * b;
    }
  }

  lemma SameSquare(a: real, b: real)
    requires a == b || a == -b
    ensures a * a == b * b
  {
  }

  predicate IsPointOf(q: Point, r: Frame) {
    r.MinX() <= q.x <= r.MaxX() && r.MinY() <= q.y <= r.MaxY()
  }

  lemma NoPointIsNearer(p: Point, r: Frame, sqrt: real -> real, q: Point)
    requires IsSquareRoot(sqrt) && IsPointOf(q, r)
    ensures Distance(p, r, sqrt) <= sqrt(Squares(q.x - p.x, q.y - p.y))
  {
    var dx, dy := Gap(r.MinX(), p.x, r.MaxX()), Gap(r.MinY(), p.y, r.MaxY());
    SquareGrows(dx, q.x - p.x);
    SquareGrows(dy, q.y - p.y);
    RootGrows(sqrt, Squares(dx, dy), Squares(q.x - p.x, q.y - p.y));
  }

  lemma SomePointIsThatNear(p: Point, r: Frame, sqrt: real -> real) returns (q: Point)
    ensures IsPointOf(q, r) && Distance(p, r, sqrt) == sqrt(Squares(q.x - p.x, q.y - p.y))
  {
    q := Point(Max(r.MinX(), Min(p.x, r.MaxX())), Max(r.MinY(), Min(p.y, r.MaxY())));
    var dx, dy := Gap(r.MinX(), p.x, r.MaxX()), Gap(r.MinY(), p.y, r.MaxY());
    SameSquare(dx, q.x - p.x);
    SameSquare(dy, q.y - p.y);
    assert Squares(dx, dy) == Squares(q.x - p.x, q.y - p.y);
  }

  /** It is the least distance to a point of the rectangle. */
  lemma DistanceIsLeast(p: Point, r: Frame, sqrt: real -> real)
    requires IsSquareRoot(sqrt)
    ensures forall q :: IsPointOf(q, r) ==> Distance(p, r, sqrt) <= sqrt(Squares(q.x - p.x, q.y - p.y))
    ensures exists q :: IsPointOf(q, r) && Distance(p, r, sqrt) == sqrt(Squares(q.x - p.x, q.y - p.y))
  {
    forall q | IsPointOf(q, r) ensures Distance(p, r, sqrt) <= sqrt(Squares(q.x - p.x, q.y - p.y)) {
      NoPointIsNearer(p, r, sqrt, q);
    }
    var q := SomePointIsThatNear(p, r, sqrt);
  }

  // ---------------------------------------------------------------- clearance

  function EdgeClearance(rect: Frame, p: Point): real {
    Min(Min(p.x - rect.MinX(), rect.MaxX() - p.x), Min(p.y - rect.MinY(), rect.MaxY() - p.y))
  }

  /** How far `p` is from the edges of `rect` and from each of the frames. */
  function Clearance(rect: Frame, frames: seq<Frame>, p: Point, sqrt: real -> real): real {
    if frames == [] then EdgeClearance(rect, p)
    else Min(Clearance(rect, frames[..|frames| - 1], p, sqrt), Distance(p, frames[|frames| - 1], sqrt))
  }

  lemma {:induction false} ClearanceIsLeast(rect: Frame, frames: seq<Frame>, p: Point, sqrt: real -> real, c: real)
    ensures c <= Clearance(rect, frames, p, sqrt) <==>
      c <= EdgeClearance(rect, p) && forall k :: 0 <= k < |frames| ==> c <= Distance(p, frames[k], sqrt)
    decreases |frames|
  {
    if frames != [] {
      ClearanceIsLeast(rect, frames[..|frames| - 1], p, sqrt, c);
    }
  }

  /** Every node with a size that blocks a touch, wherever it is. */
  function Blockers(ns: seq<FlatNode>, blocks: nat -> bool, count: nat): seq<Frame>
    requires count <= |ns|
  {
    if count == 0 then []
    else Blockers(ns, blocks, count - 1)
         + (if ns[count - 1].frame.HasArea() && blocks(count - 1) then [ns[count - 1].frame] else [])
  }

  /** `rect` grown by the touch clearance on every side. */
  function Inflated(rect: Frame): Frame {
    Rect(rect.x - TOUCH_CLEARANCE, rect.y - TOUCH_CLEARANCE,
         rect.w + 2.0 * TOUCH_CLEARANCE, rect.h + 2.0 * TOUCH_CLEARANCE)
  }

  /** The blockers that meet the inflated rectangle, the only ones the search looks at. */
  function NearBlockers(ns: seq<FlatNode>, rect: Frame, blocks: nat -> bool, count: nat): seq<Frame>
    requires count <= |ns|
  {
    if count == 0 then []
    else
      var f := ns[count - 1].frame;
      NearBlockers(ns, rect, blocks, count - 1)
      + (if f.HasArea() && Intersection(f, Inflated(rect)).Rect? && blocks(count - 1) then [f] else [])
  }

  /** A frame that misses the inflated rectangle is further from a point of `rect` than its edges are. */
  lemma FarFrameIsHarmless(rect: Frame, f: Frame, p: Point, sqrt: real -> real)
    requires IsSquareRoot(sqrt) && IsPointOf(p, rect) && Intersection(f, Inflated(rect)).Null?
    ensures EdgeClearance(rect, p) <= Distance(p, f, sqrt)
  {
    RootDominates(sqrt, Gap(f.MinX(), p.x, f.MaxX()), Gap(f.MinY(), p.y, f.MaxY()), EdgeClearance(rect, p));
  }

  lemma OneNodeMore(ns: seq<FlatNode>, rect: Frame, blocks: nat -> bool, count: nat)
    requires 0 < count <= |ns|
    ensures var f := ns[count - 1].frame;
      var all, near := Blockers(ns, blocks, count - 1), NearBlockers(ns, rect, blocks, count - 1);
      if !(f.HasArea() && blocks(count - 1)) then
        Blockers(ns, blocks, count) == all && NearBlockers(ns, rect, blocks, count) == near
      else
        Blockers(ns, blocks, count) == all + [f]
        && NearBlockers(ns, rect, blocks, count) == if Intersection(f, Inflated(rect)).Null? then near else near + [f]
  {
  }

  /** One frame more takes the same off two clearances that are alike. */
  lemma OneFrameMore(rect: Frame, all: seq<Frame>, near: seq<Frame>, f: Frame, p: Point, sqrt: real -> real)
    requires Clearance(rect, near, p, sqrt) == Clearance(rect, all, p, sqrt)
    ensures Clearance(rect, near + [f], p, sqrt) == Clearance(rect, all + [f], p, sqrt)
  {
    assert (near + [f])[..|near|] == near && (all + [f])[..|all|] == all;
  }

  lemma OneFarFrameMore(rect: Frame, frames: seq<Frame>, f: Frame, p: Point, sqrt: real -> real)
    requires IsSquareRoot(sqrt) && IsPointOf(p, rect) && Intersection(f, Inflated(rect)).Null?
    ensures Clearance(rect, frames + [f], p, sqrt) == Clearance(rect, frames, p, sqrt)
  {
    var clearance := Clearance(rect, frames, p, sqrt);
    FarFrameIsHarmless(rect, f, p, sqrt);
    ClearanceIsLeast(rect, frames, p, sqrt, clearance);
    assert (frames + [f])[..|frames|] == frames;
    assert clearance <= Distance(p, f, sqrt);
  }

  lemma {:induction false} NearBlockersSuffice(
    ns: seq<FlatNode>, rect: Frame, blocks: nat -> bool, count: nat, p: Point, sqrt: real -> real)
    requires count <= |ns| && IsSquareRoot(sqrt) && IsPointOf(p, rect)
    ensures Clearance(rect, NearBlockers(ns, rect, blocks, count), p, sqrt)
      == Clearance(rect, Blockers(ns, blocks, count), p, sqrt)
  {
    if count > 0 {
      NearBlockersSuffice(ns, rect, blocks, count - 1, p, sqrt);
      var f := ns[count - 1].frame;
      var all, near := Blockers(ns, blocks, count - 1), NearBlockers(ns, rect, blocks, count - 1);
      OneNodeMore(ns, rect, blocks, count);
      if f.HasArea() && blocks(count - 1) {
        if Intersection(f, Inflated(rect)).Null? {
          OneFarFrameMore(rect, all, f, p, sqrt);
        } else {
          OneFrameMore(rect, all, near, f, p, sqrt);
        }
      }
    }
  }

  // ---------------------------------------------------------------- the search

  function GridPoint(rect: Frame, col: nat, row: nat): Point {
    Point(rect.MinX() + TOUCH_CLEARANCE + GRID_STEP * col as real,
          rect.MinY() + TOUCH_CLEARANCE + GRID_STEP * row as real)
  }

  predicate InColumns(rect: Frame, col: nat) {
    GridPoint(rect, col, 0).x <= rect.MaxX() - TOUCH_CLEARANCE
  }

  predicate InRows(rect: Frame, row: nat) {
    GridPoint(rect, 0, row).y <= rect.MaxY() - TOUCH_CLEARANCE
  }

  /** How far the search has come: up to a grid point, or through the whole grid. */
  datatype Stop = Up(col: nat, row: nat) | End

  /** Row by row, left to right. */
  predicate Before(col: nat, row: nat, stop: Stop) {
    stop.End? || row < stop.row || (row == stop.row && col < stop.col)
  }

  /** How clear grid point (`col`, `row`) is of every blocker in the whole tree. */
  function ClearanceAt(
    ns: seq<FlatNode>, rect: Frame, blocks: nat -> bool, sqrt: real -> real, col: nat, row: nat): real
  {
    Clearance(rect, Blockers(ns, blocks, |ns|), GridPoint(rect, col, row), sqrt)
  }

  predicate InGrid(rect: Frame, col: nat, row: nat) {
    InColumns(rect, col) && InRows(rect, row)
  }

  /** (`col`, `row`) is clear enough to touch, no earlier grid point is as clear, and none before `stop` clearer. */
  ghost predicate IsFirstClearest(ns: seq<FlatNode>, rect: Frame, blocks: nat -> bool, sqrt: real -> real,
                                  col: nat, row: nat, stop: Stop)
  {
    var best := ClearanceAt(ns, rect, blocks, sqrt, col, row);
    InGrid(rect, col, row) && Before(col, row, stop) && TOUCH_CLEARANCE <= best
    && (forall c: nat, r: nat :: InGrid(rect, c, r) && Before(c, r, stop) ==>
          ClearanceAt(ns, rect, blocks, sqrt, c, r) <= best)
    && (forall c: nat, r: nat :: InGrid(rect, c, r) && Before(c, r, Up(col, row)) ==>
          ClearanceAt(ns, rect, blocks, sqrt, c, r) < best)
  }

  /** No grid point before `stop` is clear enough to touch. */
  ghost predicate NoneClear(ns: seq<FlatNode>, rect: Frame, blocks: nat -> bool, sqrt: real -> real, stop: Stop) {
    forall c: nat, r: nat :: InGrid(rect, c, r) && Before(c, r, stop) ==>
      ClearanceAt(ns, rect, blocks, sqrt, c, r) < TOUCH_CLEARANCE
  }

  datatype Found = Found(point: Point, clearance: real)

  /** `best` is what the search holds on to when it has come as far as `stop`. */
  ghost predicate IsBest(
    ns: seq<FlatNode>, rect: Frame, blocks: nat -> bool, sqrt: real -> real, best: Option<Found>, stop: Stop)
  {
    match best
    case None => NoneClear(ns, rect, blocks, sqrt, stop)
    case Some(f) => exists col: nat, row: nat ::
      IsFirstClearest(ns, rect, blocks, sqrt, col, row, stop)
      && f == Found(GridPoint(rect, col, row), ClearanceAt(ns, rect, blocks, sqrt, col, row))
  }

  /** One more grid point looked at: it takes over when it is clear enough and clearer than the best. */
  lemma OneMore(ns: seq<FlatNode>, rect: Frame, blocks: nat -> bool, sqrt: real -> real,
                before: Option<Found>, after: Option<Found>, col: nat, row: nat)
    requires InGrid(rect, col, row) && IsBest(ns, rect, blocks, sqrt, before, Up(col, row))
    requires var clearance := ClearanceAt(ns, rect, blocks, sqrt, col, row);
      after == if clearance >= TOUCH_CLEARANCE && (before.None? || clearance > before.value.clearance)
               then Some(Found(GridPoint(rect, col, row), clearance)) else before
    ensures IsBest(ns, rect, blocks, sqrt, after, Up(col + 1, row))
  {
    if before.Some? {
      var c: nat, r: nat :| IsFirstClearest(ns, rect, blocks, sqrt, c, r, Up(col, row))
        && before.value == Found(GridPoint(rect, c, r), ClearanceAt(ns, rect, blocks, sqrt, c, r));
      if after == before {
        StaysFirst(ns, rect, blocks, sqrt, c, r, col, row);
      } else {
        TakesOver(ns, rect, blocks, sqrt, col, row);
      }
    } else if after.Some? {
      TakesOver(ns, rect, blocks, sqrt, col, row);
    }
  }

  lemma TakesOver(ns: seq<FlatNode>, rect: Frame, blocks: nat -> bool, sqrt: real -> real, col: nat, row: nat)
    requires InGrid(rect, col, row) && TOUCH_CLEARANCE <= ClearanceAt(ns, rect, blocks, sqrt, col, row)
    requires forall c: nat, r: nat :: InGrid(rect, c, r) && Before(c, r, Up(col, row)) ==>
      ClearanceAt(ns, rect, blocks, sqrt, c, r) < ClearanceAt(ns, rect, blocks, sqrt, col, row)
    ensures IsFirstClearest(ns, rect, blocks, sqrt, col, row, Up(col + 1, row))
  {
  }

  lemma StaysFirst(
    ns: seq<FlatNode>, rect: Frame, blocks: nat -> bool, sqrt: real -> real, c: nat, r: nat, col: nat, row: nat)
    requires IsFirstClearest(ns, rect, blocks, sqrt, c, r, Up(col, row))
    requires ClearanceAt(ns, rect, blocks, sqrt, col, row) <= ClearanceAt(ns, rect, blocks, sqrt, c, r)
    ensures IsFirstClearest(ns, rect, blocks, sqrt, c, r, Up(col + 1, row))
  {
  }

  /** Two stops with no grid point between them are the same. */
  lemma SameBest(ns: seq<FlatNode>, rect: Frame, blocks: nat -> bool, sqrt: real -> real,
                 best: Option<Found>, s1: Stop, s2: Stop)
    requires IsBest(ns, rect, blocks, sqrt, best, s1)
    requires forall c, r :: InGrid(rect, c, r) ==> (Before(c, r, s1) <==> Before(c, r, s2))
    ensures IsBest(ns, rect, blocks, sqrt, best, s2)
  {
    if best.Some? {
      var c: nat, r: nat :| IsFirstClearest(ns, rect, blocks, sqrt, c, r, s1)
        && best.value == Found(GridPoint(rect, c, r), ClearanceAt(ns, rect, blocks, sqrt, c, r));
      assert IsFirstClearest(ns, rect, blocks, sqrt, c, r, s2);
    }
  }

  /** Past the last column of a row there is no grid point before the next row. */
  lemma RowIsDone(ns: seq<FlatNode>, rect: Frame, blocks: nat -> bool, sqrt: real -> real,
                  best: Option<Found>, col: nat, row: nat)
    requires IsBest(ns, rect, blocks, sqrt, best, Up(col, row)) && !InColumns(rect, col)
    ensures IsBest(ns, rect, blocks, sqrt, best, Up(0, row + 1))
  {
    forall c: nat | InColumns(rect, c) ensures c < col {
    }
    SameBest(ns, rect, blocks, sqrt, best, Up(col, row), Up(0, row + 1));
  }

  /** The distance a found point keeps: no blocker with a size, and no edge, is nearer. */
  lemma {:induction false} FoundKeepsAway(
    ns: seq<FlatNode>, rect: Frame, blocks: nat -> bool, sqrt: real -> real, best: Option<Found>, i: nat)
    requires IsBest(ns, rect, blocks, sqrt, best, End) && best.Some?
    requires i < |ns| && ns[i].frame.HasArea() && blocks(i)
    ensures TOUCH_CLEARANCE <= best.value.clearance <= Distance(best.value.point, ns[i].frame, sqrt)
    ensures best.value.clearance <= EdgeClearance(rect, best.value.point)
  {
    var all := Blockers(ns, blocks, |ns|);
    ClearanceIsLeast(rect, all, best.value.point, sqrt, best.value.clearance);
    BlockersHold(ns, blocks, |ns|, i);
    var k :| 0 <= k < |all| && all[k] == ns[i].frame;
  }

  lemma {:induction false} BlockersHold(ns: seq<FlatNode>, blocks: nat -> bool, count: nat, i: nat)
    requires i < count <= |ns| && ns[i].frame.HasArea() && blocks(i)
    ensures ns[i].frame in Blockers(ns, blocks, count)
  {
    if i < count - 1 {
      BlockersHold(ns, blocks, count - 1, i);
    }
  }

  /** A point is found exactly when some grid point is clear enough to touch. */
  lemma FoundIff(ns: seq<FlatNode>, rect: Frame, blocks: nat -> bool, sqrt: real -> real, best: Option<Found>)
    requires IsBest(ns, rect, blocks, sqrt, best, End)
    ensures best.Some? <==> exists col: nat, row: nat ::
      InGrid(rect, col, row) && TOUCH_CLEARANCE <= ClearanceAt(ns, rect, blocks, sqrt, col, row)
  {
    if best.Some? {
      var c: nat, r: nat :| IsFirstClearest(ns, rect, blocks, sqrt, c, r, End);
      assert InGrid(rect, c, r);
    } else if c: nat, r: nat :| InGrid(rect, c, r) && TOUCH_CLEARANCE <= ClearanceAt(ns, rect, blocks, sqrt, c, r) {
      assert Before(c, r, End);
      assert false;
    }
  }

  /** The loop over the blockers, which stops at the first that is too close. */
  method MeasureClearance(rect: Frame, frames: seq<Frame>, p: Point, sqrt: real -> real) returns (clearance: real)
    ensures clearance >= TOUCH_CLEARANCE ==> clearance == Clearance(rect, frames, p, sqrt)
    ensures clearance < TOUCH_CLEARANCE ==> Clearance(rect, frames, p, sqrt) < TOUCH_CLEARANCE
  {
    clearance := EdgeClearance(rect, p);
    assert frames[..|frames|] == frames;
    for k := 0 to |frames|
      invariant clearance == Clearance(rect, frames[..k], p, sqrt)
    {
      assert frames[..k + 1][..k] == frames[..k];
      clearance := Min(clearance, Distance(p, frames[k], sqrt));
      if clearance < TOUCH_CLEARANCE {
        TooCloseStays(rect, frames, p, sqrt, k + 1);
        break;
      }
    }
  }

  lemma TooCloseStays(rect: Frame, frames: seq<Frame>, p: Point, sqrt: real -> real, k: nat)
    requires k <= |frames| && Clearance(rect, frames[..k], p, sqrt) < TOUCH_CLEARANCE
    ensures Clearance(rect, frames, p, sqrt) < TOUCH_CLEARANCE
  {
    ClearanceIsLeast(rect, frames, p, sqrt, TOUCH_CLEARANCE);
    ClearanceIsLeast(rect, frames[..k], p, sqrt, TOUCH_CLEARANCE);
  }

  /**
   The grid search. The point found is the first of the clearest grid points, by clearance from every
   blocker there is; none is found exactly when no grid point is clear enough to touch.
   */
  method ClearestPoint(
    ns: seq<FlatNode>, rect: Rect, blocks: nat -> bool, sqrt: real -> real) returns (best: Option<Found>)
    requires IsSquareRoot(sqrt)
    ensures rect.Null? ==> best == None
    ensures rect.Rect? ==> IsBest(ns, rect, blocks, sqrt, best, End)
  {
    if rect.Null? || rect.Width() < 2.0 * TOUCH_CLEARANCE || rect.Height() < 2.0 * TOUCH_CLEARANCE {
      return None;
    }
    var blocked := NearBlockers(ns, rect, blocks, |ns|);
    best := None;
    var y := rect.MinY() + TOUCH_CLEARANCE;
    ghost var row: nat := 0;
    while y <= rect.MaxY() - TOUCH_CLEARANCE
      invariant y == GridPoint(rect, 0, row).y
      invariant IsBest(ns, rect, blocks, sqrt, best, Up(0, row))
      decreases rect.MaxY() - y
    {
      best := SearchRow(ns, rect, blocks, sqrt, blocked, y, best, row);
      y := y + GRID_STEP;
      row := row + 1;
    }
    SameBest(ns, rect, blocks, sqrt, best, Up(0, row), End);
  }

  /** The inner loop, over one row of the grid. */
  method SearchRow(ns: seq<FlatNode>, rect: Frame, blocks: nat -> bool, sqrt: real -> real, blocked: seq<Frame>,
                   y: real, found: Option<Found>, ghost row: nat) returns (best: Option<Found>)
    requires IsSquareRoot(sqrt) && blocked == NearBlockers(ns, rect, blocks, |ns|)
    requires InRows(rect, row) && y == GridPoint(rect, 0, row).y
    requires IsBest(ns, rect, blocks, sqrt, found, Up(0, row))
    ensures IsBest(ns, rect, blocks, sqrt, best, Up(0, row + 1))
  {
    best := found;
    var x := rect.MinX() + TOUCH_CLEARANCE;
    ghost var col: nat := 0;
    while x <= rect.MaxX() - TOUCH_CLEARANCE
      invariant x == GridPoint(rect, col, 0).x
      invariant IsBest(ns, rect, blocks, sqrt, best, Up(col, row))
      decreases rect.MaxX() - x
    {
      assert InGrid(rect, col, row);
      best := LookAt(ns, rect, blocks, sqrt, blocked, Point(x, y), best, col, row);
      x, col := x + GRID_STEP, col + 1;
    }
    RowIsDone(ns, rect, blocks, sqrt, best, col, row);
  }

  /** One grid point: it takes over when it is clear enough, and clearer than the best so far. */
  method LookAt(ns: seq<FlatNode>, rect: Frame, blocks: nat -> bool, sqrt: real -> real, blocked: seq<Frame>,
                p: Point, found: Option<Found>, ghost col: nat, ghost row: nat) returns (best: Option<Found>)
    requires IsSquareRoot(sqrt) && blocked == NearBlockers(ns, rect, blocks, |ns|)
    requires InGrid(rect, col, row) && p == GridPoint(rect, col, row)
    requires IsBest(ns, rect, blocks, sqrt, found, Up(col, row))
    ensures IsBest(ns, rect, blocks, sqrt, best, Up(col + 1, row))
  {
    best := found;
    NearBlockersSuffice(ns, rect, blocks, |ns|, p, sqrt);
    var clearance := MeasureClearance(rect, blocked, p, sqrt);
    if clearance >= TOUCH_CLEARANCE && clearance > (if best.Some? then best.value.clearance else -1.0) {
      best := Some(Found(p, clearance));
    }
    OneMore(ns, rect, blocks, sqrt, found, best, col, row);
  }
}
