/** The largest rectangle left of one rectangle after cutting another out of it. */
module Subtraction {
  import opened Sequences
  import opened Geometry

  /** The four full-width or full-height pieces of `rect` beside `overlap`, in the source's order. */
  function Pieces(rect: Rect, overlap: Rect): (r: seq<Rect>)
    requires rect.Rect? && overlap.Rect? && Inside(overlap, rect)
    ensures |r| == 4
  {
    [Rect(rect.x, rect.y, rect.w, overlap.MinY() - rect.MinY()),
     Rect(rect.x, overlap.MaxY(), rect.w, rect.MaxY() - overlap.MaxY()),
     Rect(rect.x, rect.y, overlap.MinX() - rect.MinX(), rect.h),
     Rect(overlap.MaxX(), rect.y, rect.MaxX() - overlap.MaxX(), rect.h)]
  }

  /** `max(by:)`: the first of the largest, or `best` when it is as large as any. */
  function LargestFrom(best: Rect, rest: seq<Rect>): Rect
    decreases |rest|
  {
    if rest == [] then best
    else LargestFrom(if best.Area() < rest[0].Area() then rest[0] else best, rest[1..])
  }

  function Largest(s: seq<Rect>): Rect {
    if s == [] then Null else LargestFrom(s[0], s[1..])
  }

  function Sized(r: Rect): bool { r.HasArea() }

  /** The greatest of the pieces, or all of `rect` when nothing is cut. */
  function Subtract(cut: Rect, rect: Rect): Rect {
    var overlap := Intersection(rect, cut);
    if !overlap.HasArea() then rect else Largest(Filter(Pieces(rect, overlap), Sized))
  }

  lemma {:induction false} LargestFromIs(best: Rect, rest: seq<Rect>)
    ensures LargestFrom(best, rest) in [best] + rest
    ensures forall r :: r in [best] + rest ==> r.Area() <= LargestFrom(best, rest).Area()
    ensures (forall r :: r in rest ==> r.Area() <= best.Area()) ==> LargestFrom(best, rest) == best
    decreases |rest|
  {
    if rest != [] {
      var next := if best.Area() < rest[0].Area() then rest[0] else best;
      LargestFromIs(next, rest[1..]);
      assert rest == [rest[0]] + rest[1..];
    }
  }

  lemma LargestIs(s: seq<Rect>)
    requires s != []
    ensures Largest(s) in s
    ensures forall r :: r in s ==> r.Area() <= Largest(s).Area()
    ensures (forall r :: r in s ==> r.Area() <= s[0].Area()) ==> Largest(s) == s[0]
  {
    LargestFromIs(s[0], s[1..]);
    assert s == [s[0]] + s[1..];
  }

  lemma AreaOfInside(c: Rect, r: Rect)
    requires Inside(c, r)
    ensures 0.0 <= c.Area() <= r.Area()
  {
    if c.Rect? {
      ProductGrows(c.w, c.h, r.w, r.h);
    }
  }

  lemma ProductGrows(a: real, b: real, c: real, d: real)
    requires 0.0 <= a <= c && 0.0 <= b <= d
    ensures 0.0 <= a * b <= c * d
  {
    assert 0.0 <= a * b && 0.0 <= (c - a) * d && 0.0 <= a * (d - b);
    assert c * d == a * b + (c - a) * d + a * (d - b);
  }

  /** A rectangle with some area that avoids the cut lies in one of the four pieces. */
  lemma PieceAround(cut: Rect, rect: Rect, c: Rect) returns (k: nat)
    requires SharesArea(rect, cut) && Inside(c, rect) && c.HasArea() && !SharesArea(c, cut)
    ensures k < 4 && Inside(c, Pieces(rect, Intersection(rect, cut))[k])
  {
    if c.MaxY() <= cut.MinY() {
      k := 0;
    } else if c.MinY() >= cut.MaxY() {
      k := 1;
    } else if c.MaxX() <= cut.MinX() {
      k := 2;
    } else {
      k := 3;
    }
  }

  lemma PieceApart(cut: Rect, rect: Rect, k: nat)
    requires SharesArea(rect, cut) && k < 4
    ensures var piece := Pieces(rect, Intersection(rect, cut))[k];
      Inside(piece, rect) && !SharesArea(piece, cut)
  {
  }

  /** A rectangle inside `rect` that has some area and shares none with `cut`. */
  predicate Spared(c: Rect, cut: Rect, rect: Rect) {
    Inside(c, rect) && c.HasArea() && !SharesArea(c, cut)
  }

  /** What is left lies in `rect`, clear of `cut`, and no rectangle that does both is larger. */
  lemma SubtractIsOptimal(cut: Rect, rect: Rect)
    ensures Inside(Subtract(cut, rect), rect) && !SharesArea(Subtract(cut, rect), cut)
    ensures forall c :: Inside(c, rect) && !SharesArea(c, cut) ==> c.Area() <= Subtract(cut, rect).Area()
    ensures !SharesArea(rect, cut) ==> Subtract(cut, rect) == rect
  {
    var r := Subtract(cut, rect);
    if SharesArea(rect, cut) {
      LeftIsPiece(cut, rect);
    }
    forall c | Inside(c, rect) && !SharesArea(c, cut) ensures c.Area() <= r.Area() {
      if !SharesArea(rect, cut) {
        AreaOfInside(c, rect);
      } else if c.HasArea() {
        LeftIsLargest(cut, rect, c);
      } else if r.Rect? {
        AreaOfInside(r, rect);
      }
    }
  }

  /** Something is left exactly when something of some area can be; a null result says nothing can. */
  lemma SubtractNullIff(cut: Rect, rect: Rect)
    ensures Subtract(cut, rect).HasArea() <==> exists c :: Spared(c, cut, rect)
    ensures Subtract(cut, rect).Null? <==> rect.Null? || (rect.HasArea() && !exists c :: Spared(c, cut, rect))
  {
    SubtractIsOptimal(cut, rect);
    var r := Subtract(cut, rect);
    if SharesArea(rect, cut) {
      LeftIsPiece(cut, rect);
    }
    if r.HasArea() {
      assert Spared(r, cut, rect);
    }
    if c :| Spared(c, cut, rect) {
      assert c.w * c.h > 0.0;
    } else if rect.HasArea() && !SharesArea(rect, cut) {
      assert Spared(rect, cut, rect);
    }
  }

  /** Among pieces of equal area the one above the cut is taken. */
  lemma SubtractPrefersAbove(cut: Rect, rect: Rect)
    requires SharesArea(rect, cut)
    ensures var pieces := Pieces(rect, Intersection(rect, cut));
      pieces[0].HasArea() && (forall k :: 0 < k < 4 ==> pieces[k].Area() <= pieces[0].Area())
      ==> Subtract(cut, rect) == pieces[0]
  {
    var pieces := Pieces(rect, Intersection(rect, cut));
    var left := Filter(pieces, Sized);
    if pieces[0].HasArea() && forall k :: 0 < k < 4 ==> pieces[k].Area() <= pieces[0].Area() {
      assert left == [pieces[0]] + Filter(pieces[1..], Sized);
      LargestIs(left);
      forall r | r in left ensures r.Area() <= pieces[0].Area() {
        FilterMember(pieces, Sized, r);
      }
    }
  }

  lemma LeftIsPiece(cut: Rect, rect: Rect)
    requires SharesArea(rect, cut)
    ensures var r := Subtract(cut, rect);
      r.Null? || (r.HasArea() && Inside(r, rect) && !SharesArea(r, cut))
  {
    var pieces := Pieces(rect, Intersection(rect, cut));
    var left := Filter(pieces, Sized);
    if left != [] {
      LargestIs(left);
      FilterMember(pieces, Sized, Largest(left));
      var k: nat :| k < 4 && pieces[k] == Largest(left);
      PieceApart(cut, rect, k);
    }
  }

  lemma LeftIsLargest(cut: Rect, rect: Rect, c: Rect)
    requires SharesArea(rect, cut) && Spared(c, cut, rect)
    ensures c.Area() <= Subtract(cut, rect).Area() && Subtract(cut, rect).Rect?
  {
    var k := PieceAround(cut, rect, c);
    var pieces := Pieces(rect, Intersection(rect, cut));
    AreaOfInside(c, pieces[k]);
    FilterMember(pieces, Sized, pieces[k]);
    LargestIs(Filter(pieces, Sized));
    assert c.w * c.h > 0.0;
  }
}
