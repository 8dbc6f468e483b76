/**
 `CGRect` over the reals: the null rectangle, or an origin with non-negative sizes. Rectangles that
 share no more than an edge meet in a rectangle of no width or no height, which is not null.
 */
module Geometry {

  type NonNeg = r: real | r >= 0.0

  datatype Point = Point(x: real, y: real)

  datatype Rect = Null | Rect(x: real, y: real, w: NonNeg, h: NonNeg) {
    function MinX(): real requires Rect? { x }
    function MinY(): real requires Rect? { y }
    function MaxX(): real requires Rect? { x + w }
    function MaxY(): real requires Rect? { y + h }

    /** `width` and `height` of the null rectangle are zero. */
    function Width(): NonNeg { if Null? then 0.0 else w }
    function Height(): NonNeg { if Null? then 0.0 else h }
    function Area(): real { Width() * Height() }

    predicate HasArea() {
      Rect? && w > 0.0 && h > 0.0
    }

    function Center(): Point
      requires Rect?
    {
      Point(x + w / 2.0, y + h / 2.0)
    }

    /** `contains(_: CGPoint)`: the left and top edges count, the right and bottom ones do not. */
    predicate ContainsPoint(p: Point) {
      Rect? && x <= p.x < x + w && y <= p.y < y + h
    }

    /** `contains(_: CGRect)` on rectangles that are not null. */
    predicate ContainsRect(r: Rect) {
      Rect? && r.Rect? && Inside(r, this)
    }
  }

  /** A frame as a snapshot reports it, never null. */
  type Frame = r: Rect | r.Rect? witness Rect(0.0, 0.0, 0.0, 0.0)

  function Min(a: real, b: real): real { if a <= b then a else b }
  function Max(a: real, b: real): real { if a <= b then b else a }

  function Intersection(a: Rect, b: Rect): Rect {
    if a.Null? || b.Null? then Null
    else
      var left, right := Max(a.MinX(), b.MinX()), Min(a.MaxX(), b.MaxX());
      var top, bottom := Max(a.MinY(), b.MinY()), Min(a.MaxY(), b.MaxY());
      if left > right || top > bottom then Null else Rect(left, top, right - left, bottom - top)
  }

  /** Every point of `a` is in `b`, edges included. */
  predicate Inside(a: Rect, b: Rect) {
    a.Null? || (b.Rect? && b.MinX() <= a.MinX() && a.MaxX() <= b.MaxX()
                && b.MinY() <= a.MinY() && a.MaxY() <= b.MaxY())
  }

  predicate SharesArea(a: Rect, b: Rect) {
    Intersection(a, b).HasArea()
  }

  /** `Int(_:)` on a coordinate: towards zero. */
  function Truncate(r: real): int {
    if r >= 0.0 then r.Floor else -((-r).Floor)
  }

  /** A rectangle's edges rounded towards zero. */
  function WholePoints(r: Rect): (int, int, int, int)
    requires r.Rect?
  {
    (Truncate(r.MinX()), Truncate(r.MinY()), Truncate(r.MaxX()), Truncate(r.MaxY()))
  }

  lemma IntersectionLargest(a: Rect, b: Rect, c: Rect)
    requires Inside(c, a) && Inside(c, b)
    ensures Inside(c, Intersection(a, b))
  {
  }

  lemma InsideTransitive(a: Rect, b: Rect, c: Rect)
    requires Inside(a, b) && Inside(b, c)
    ensures Inside(a, c)
  {
  }

  /** What avoids a rectangle still does after shrinking, on either side. */
  lemma ShrinkKeepsApart(a: Rect, b: Rect, c: Rect)
    requires Inside(a, b) && !SharesArea(b, c)
    ensures !SharesArea(a, c) && !SharesArea(c, a)
  {
  }
}
