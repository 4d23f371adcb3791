/**
  Axis-aligned integer bounding boxes. `empty()` starts from the inverted
  box (i64::MAX, i64::MAX)..(i64::MIN, i64::MIN) so that the first added
  point becomes both corners.
 */
module Rects {
  import opened Bits
  import opened Points

  /** Both coordinates fit Rust's `i64`. */
  predicate InI64(p: IntPoint)
  {
    I64_MIN <= p.x <= I64_MAX && I64_MIN <= p.y <= I64_MAX
  }

  datatype IntRect = IntRect(min: IntPoint, max: IntPoint)
  {
    /**
      Membership in the closed box, borders included, the comparison that
      `is_intersect_border_include` makes per axis. Only a box whose bounds are
      in order on both axes holds a point, and a box shrunk to one corner holds
      exactly that point.
     */
    function Contains(p: IntPoint): (r: bool)
      ensures r ==> min.x <= max.x && min.y <= max.y
      ensures min == max ==> (r <==> p == min)
    {
      min.x <= p.x <= max.x && min.y <= p.y <= max.y
    }

    /**
      The box widened just enough to hold the point: the result contains it
      and everything the box held, and every bound is either the old one or
      the point's coordinate.
     */
    function WithPoint(p: IntPoint): (r: IntRect)
      ensures r.Contains(p)
      ensures forall q :: Contains(q) ==> r.Contains(q)
      ensures r.min.x == min.x || r.min.x == p.x
      ensures r.min.y == min.y || r.min.y == p.y
      ensures r.max.x == max.x || r.max.x == p.x
      ensures r.max.y == max.y || r.max.y == p.y
      ensures r.min.x <= min.x && r.min.y <= min.y && r.max.x >= max.x && r.max.y >= max.y
    {
      IntRect(IntPoint(Min(min.x, p.x), Min(min.y, p.y)),
              IntPoint(Max(max.x, p.x), Max(max.y, p.y)))
    }

    /**
      Closed boxes overlap: for boxes that hold points, the common interval is
      nonempty on each axis (touching counts).
     */
    function IsIntersectBorderInclude(other: IntRect): (r: bool)
      ensures Proper() && other.Proper() ==> (r <==> OverlapX(other) >= 0 && OverlapY(other) >= 0)
    {
      var x := min.x <= other.max.x && max.x >= other.min.x;
      var y := min.y <= other.max.y && max.y >= other.min.y;
      x && y
    }

    /**
      Open boxes overlap: for boxes of positive width and height, the common
      interval has positive length on each axis.
     */
    function IsIntersectBorderExclude(other: IntRect): (r: bool)
      ensures Solid() && other.Solid() ==> (r <==> OverlapX(other) > 0 && OverlapY(other) > 0)
    {
      var x := min.x < other.max.x && max.x > other.min.x;
      var y := min.y < other.max.y && max.y > other.min.y;
      x && y
    }

    /** Width of the common part of the two x ranges, negative when they are apart. */
    function OverlapX(other: IntRect): int
    {
      Bits.Min(max.x, other.max.x) - Bits.Max(min.x, other.min.x)
    }

    function OverlapY(other: IntRect): int
    {
      Bits.Min(max.y, other.max.y) - Bits.Max(min.y, other.min.y)
    }

    /** min <= max on both axes: the box holds at least one point. */
    predicate Proper()
    {
      min.x <= max.x && min.y <= max.y
    }

    /** min < max on both axes: the box has an interior. */
    predicate Solid()
    {
      min.x < max.x && min.y < max.y
    }
  }

  function Empty(): (r: IntRect)
    ensures forall p :: InI64(p) ==> !r.Contains(p)
    ensures r.min == IntPoint(I64_MAX, I64_MAX) && r.max == IntPoint(I64_MIN, I64_MIN)
  {
    IntRect(IntPoint(I64_MAX, I64_MAX), IntPoint(I64_MIN, I64_MIN))
  }

  function WithMinMax(min: IntPoint, max: IntPoint): (r: IntRect)
    ensures r.min == min && r.max == max
  {
    IntRect(min, max)
  }

  /**
    `rect` is the smallest box around `points`: it contains them all and each
    of its four bounds is attained by one of them.
   */
  predicate IsBoundingBox(rect: IntRect, points: seq<IntPoint>)
  {
    && (forall i :: 0 <= i < |points| ==> rect.Contains(points[i]))
    && (exists i :: 0 <= i < |points| && points[i].x == rect.min.x)
    && (exists i :: 0 <= i < |points| && points[i].y == rect.min.y)
    && (exists i :: 0 <= i < |points| && points[i].x == rect.max.x)
    && (exists i :: 0 <= i < |points| && points[i].y == rect.max.y)
  }

  /** `add_point` updates the four bounds of the box in place, one after the other. */
  method AddPoint(rect: IntRect, p: IntPoint) returns (updated: IntRect)
    ensures updated == rect.WithPoint(p)
    ensures updated.Contains(p) && forall q :: rect.Contains(q) ==> updated.Contains(q)
  {
    updated := rect;
    updated := updated.(min := updated.min.(x := Min(updated.min.x, p.x)));
    updated := updated.(min := updated.min.(y := Min(updated.min.y, p.y)));
    updated := updated.(max := updated.max.(x := Max(updated.max.x, p.x)));
    updated := updated.(max := updated.max.(y := Max(updated.max.y, p.y)));
  }

  /** `with_iter`: fold `add_point` over the points, starting from `empty()`. */
  method WithIter(points: seq<IntPoint>) returns (rect: IntRect)
    requires forall i :: 0 <= i < |points| ==> InI64(points[i])
    ensures |points| == 0 ==> rect == Empty()
    ensures |points| > 0 ==> IsBoundingBox(rect, points)
  {
    rect := Empty();
    var i := 0;
    while i < |points|
      invariant 0 <= i <= |points|
      invariant i == 0 ==> rect == Empty()
      invariant i > 0 ==> IsBoundingBox(rect, points[..i])
    {
      if i == 0 {
        AddToEmpty(points[0]);
        SingleBoundingBox(points[0]);
        assert points[..1] == [points[0]];
      } else {
        AddPointBounding(rect, points[..i], points[i]);
        assert points[..i + 1] == points[..i] + [points[i]];
      }
      rect := AddPoint(rect, points[i]);
      i := i + 1;
    }
    assert points[..|points|] == points;
  }

  /** `with_points` hands the slice to `with_iter`. */
  method WithPoints(points: seq<IntPoint>) returns (rect: IntRect)
    requires forall i :: 0 <= i < |points| ==> InI64(points[i])
    ensures |points| == 0 ==> rect == Empty()
    ensures |points| > 0 ==> IsBoundingBox(rect, points)
  {
    rect := WithIter(points);
  }

  /** The first point added to `empty()` becomes both corners. */
  lemma AddToEmpty(p: IntPoint)
    requires InI64(p)
    ensures Empty().WithPoint(p) == IntRect(p, p)
  {
  }

  lemma SingleBoundingBox(p: IntPoint)
    ensures IsBoundingBox(IntRect(p, p), [p])
  {
    assert [p][0] == p;
  }

  /** Adding a point to the bounding box of some points gives the bounding box of all of them. */
  lemma AddPointBounding(rect: IntRect, points: seq<IntPoint>, p: IntPoint)
    requires IsBoundingBox(rect, points)
    ensures IsBoundingBox(rect.WithPoint(p), points + [p])
  {
    var r := rect.WithPoint(p);
    var all := points + [p];
    var n := |points|;
    assert all[n] == p;
    forall i | 0 <= i < |all|
      ensures r.Contains(all[i])
    {
      if i < n {
        assert all[i] == points[i];
      }
    }
    var i0 :| 0 <= i0 < n && points[i0].x == rect.min.x;
    var i1 :| 0 <= i1 < n && points[i1].y == rect.min.y;
    var i2 :| 0 <= i2 < n && points[i2].x == rect.max.x;
    var i3 :| 0 <= i3 < n && points[i3].y == rect.max.y;
    assert all[i0] == points[i0] && all[i1] == points[i1];
    assert all[i2] == points[i2] && all[i3] == points[i3];
  }

  /** A bounding box is determined by its points: `with_iter` has one possible answer. */
  lemma BoundingBoxUnique(r1: IntRect, r2: IntRect, points: seq<IntPoint>)
    requires IsBoundingBox(r1, points) && IsBoundingBox(r2, points)
    ensures r1 == r2
  {
    var i0 :| 0 <= i0 < |points| && points[i0].x == r1.min.x;
    var i1 :| 0 <= i1 < |points| && points[i1].y == r1.min.y;
    var i2 :| 0 <= i2 < |points| && points[i2].x == r1.max.x;
    var i3 :| 0 <= i3 < |points| && points[i3].y == r1.max.y;
    var j0 :| 0 <= j0 < |points| && points[j0].x == r2.min.x;
    var j1 :| 0 <= j1 < |points| && points[j1].y == r2.min.y;
    var j2 :| 0 <= j2 < |points| && points[j2].x == r2.max.x;
    var j3 :| 0 <= j3 < |points| && points[j3].y == r2.max.y;
    assert r1.Contains(points[j0]) && r2.Contains(points[i0]);
    assert r1.Contains(points[j1]) && r2.Contains(points[i1]);
    assert r1.Contains(points[j2]) && r2.Contains(points[i2]);
    assert r1.Contains(points[j3]) && r2.Contains(points[i3]);
  }

  /** Adding a point the box already holds changes nothing; in particular adding twice is adding once. */
  lemma AddPointIdempotent(rect: IntRect, p: IntPoint)
    ensures rect.Contains(p) ==> rect.WithPoint(p) == rect
    ensures rect.WithPoint(p).WithPoint(p) == rect.WithPoint(p)
  {
  }

  /** The border-inclusive test does not depend on the order of its operands. */
  lemma IncludeSymmetric(a: IntRect, b: IntRect)
    ensures a.IsIntersectBorderInclude(b) == b.IsIntersectBorderInclude(a)
    ensures a.IsIntersectBorderExclude(b) == b.IsIntersectBorderExclude(a)
  {
  }

  /** Overlapping interiors imply overlapping closed boxes. */
  lemma ExcludeImpliesInclude(a: IntRect, b: IntRect)
    ensures a.IsIntersectBorderExclude(b) ==> a.IsIntersectBorderInclude(b)
  {
  }

  /** For boxes that hold points, the inclusive test holds exactly when they share a point. */
  lemma IncludeIffCommonPoint(a: IntRect, b: IntRect)
    requires a.Proper() && b.Proper()
    ensures a.IsIntersectBorderInclude(b) <==> exists q :: a.Contains(q) && b.Contains(q)
  {
    if a.IsIntersectBorderInclude(b) {
      var q := IntPoint(Bits.Max(a.min.x, b.min.x), Bits.Max(a.min.y, b.min.y));
      assert a.Contains(q) && b.Contains(q);
    }
  }

  /** The unit test of `with_points`: (0,0), (-7,10), (20,-5) span (-7,-5)..(20,10). */
  lemma WithPointsExample()
    ensures IsBoundingBox(IntRect(IntPoint(-7, -5), IntPoint(20, 10)),
                          [IntPoint(0, 0), IntPoint(-7, 10), IntPoint(20, -5)])
  {
    var ps := [IntPoint(0, 0), IntPoint(-7, 10), IntPoint(20, -5)];
    assert ps[1].x == -7 && ps[2].y == -5 && ps[2].x == 20 && ps[1].y == 10;
  }

  /** The unit test of boxes that touch at the corner (10,10). */
  lemma CornerTouchExample()
    ensures IsBoundingBox(IntRect(IntPoint(0, 0), IntPoint(10, 10)), [IntPoint(0, 0), IntPoint(10, 10)])
    ensures IsBoundingBox(IntRect(IntPoint(10, 0), IntPoint(20, 10)), [IntPoint(10, 10), IntPoint(20, 0)])
    ensures !IntRect(IntPoint(0, 0), IntPoint(10, 10)).IsIntersectBorderExclude(IntRect(IntPoint(10, 0), IntPoint(20, 10)))
    ensures IntRect(IntPoint(0, 0), IntPoint(10, 10)).IsIntersectBorderInclude(IntRect(IntPoint(10, 0), IntPoint(20, 10)))
  {
    var ps := [IntPoint(0, 0), IntPoint(10, 10)];
    var qs := [IntPoint(10, 10), IntPoint(20, 0)];
    assert ps[0].x == 0 && ps[1].x == 10;
    assert qs[0].x == 10 && qs[1].y == 0 && qs[1].x == 20 && qs[0].y == 10;
  }
}
