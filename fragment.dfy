/**
  A fragment of a flattened segment for the boolean stage: which segment and
  which dyadic piece of it, together with a box that holds the chord a-b and
  the chord shifted by half its normal.
 */
module Fragments {
  import opened Bits
  import opened Points
  import opened Rects

  datatype Fragment = Fragment(step: nat, splitFactor: nat, segmentId: nat, boundary: IntRect)

  /** `Fragment::new` stores its four arguments unchanged. */
  function New(segmentId: nat, step: nat, splitFactor: nat, boundary: IntRect): (r: Fragment)
    ensures r.segmentId == segmentId && r.step == step && r.splitFactor == splitFactor
    ensures r.boundary == boundary
  {
    Fragment(step, splitFactor, segmentId, boundary)
  }

  /**
    `half_normal`: the vector turned a quarter to the left and halved, each
    coordinate divided by 2 with Rust's truncating `/`. Each coordinate is half
    the rotated one, off by at most one half and rounded toward zero.
   */
  function HalfNormal(p: IntPoint): (n: IntPoint)
    ensures Abs(2 * n.x + p.y) <= 1 && Abs(2 * n.x) <= Abs(p.y)
    ensures Abs(2 * n.y - p.x) <= 1 && Abs(2 * n.y) <= Abs(p.x)
  {
    IntPoint(TruncDiv(-p.y, 2), TruncDiv(p.x, 2))
  }

  /** For a vector with even coordinates the half normal is exact and perpendicular. */
  lemma HalfNormalExact(p: IntPoint)
    requires p.x % 2 == 0 && p.y % 2 == 0
    ensures 2 * HalfNormal(p).x == -p.y && 2 * HalfNormal(p).y == p.x
    ensures p.DotProduct(HalfNormal(p)) == 0
  {
    var n := HalfNormal(p);
    assert p.x * n.x + p.y * n.y == p.x * (-p.y / 2) + p.y * (p.x / 2);
    assert p.x * (-p.y / 2) == -(p.x * p.y) / 2 by {
      TruncHalf(p.x, p.y);
    }
  }

  lemma TruncHalf(x: int, y: int)
    requires x % 2 == 0 && y % 2 == 0
    ensures -y == 2 * TruncDiv(-y, 2) && x == 2 * TruncDiv(x, 2)
    ensures x * (-y / 2) == -(x * y) / 2
  {
    var k := y / 2;
    assert y == 2 * k;
    assert x * y == 2 * (x * k);
    assert -y == 2 * (-k);
    DivUnique(-y, 2, -k, 0);
    DivUnique(-(x * y), 2, -(x * k), 0);
  }

  /** Truncation is symmetric about zero, so reversing the vector reverses the half normal. */
  lemma HalfNormalOdd(p: IntPoint)
    ensures HalfNormal(IntPoint(-p.x, -p.y)) == IntPoint(-HalfNormal(p).x, -HalfNormal(p).y)
  {
  }

  /** The four corners `with_ab` adds to the box: a, a + n, b, b + n with n the half normal of b - a. */
  function BoundaryPoints(a: IntPoint, b: IntPoint): (r: seq<IntPoint>)
    ensures |r| == 4 && r[0] == a && r[2] == b
  {
    var n := HalfNormal(b.Sub(a));
    [a, a.Add(n), b, b.Add(n)]
  }

  /**
    `with_ab`: starting from the empty box, the four points are added one
    after the other; the result is the bounding box of those points, and the
    identifying fields are stored unchanged.
   */
  method WithAb(segmentId: nat, step: nat, splitFactor: nat, a: IntPoint, b: IntPoint) returns (r: Fragment)
    requires InI64(a)
    ensures r.segmentId == segmentId && r.step == step && r.splitFactor == splitFactor
    ensures IsBoundingBox(r.boundary, BoundaryPoints(a, b))
  {
    var ab := b.Sub(a);
    var n := HalfNormal(ab);
    var an := a.Add(n);
    var bn := b.Add(n);
    var boundary := Empty();
    AddToEmpty(a);
    SingleBoundingBox(a);
    boundary := AddPoint(boundary, a);
    AddPointBounding(boundary, [a], an);
    assert [a] + [an] == [a, an];
    boundary := AddPoint(boundary, an);
    AddPointBounding(boundary, [a, an], b);
    assert [a, an] + [b] == [a, an, b];
    boundary := AddPoint(boundary, b);
    AddPointBounding(boundary, [a, an, b], bn);
    assert [a, an, b] + [bn] == BoundaryPoints(a, b);
    boundary := AddPoint(boundary, bn);
    r := Fragment(step, splitFactor, segmentId, boundary);
  }

  /** The box of the chord a-b: every point between the two ends on both axes. */
  function ChordBox(a: IntPoint, b: IntPoint): (r: IntRect)
    ensures r.Contains(a) && r.Contains(b)
  {
    IntRect(IntPoint(Min(a.x, b.x), Min(a.y, b.y)), IntPoint(Max(a.x, b.x), Max(a.y, b.y)))
  }

  /** The fragment's boundary covers the whole box of its chord. */
  lemma BoundaryCoversChord(rect: IntRect, a: IntPoint, b: IntPoint)
    requires IsBoundingBox(rect, BoundaryPoints(a, b))
    ensures forall q :: ChordBox(a, b).Contains(q) ==> rect.Contains(q)
  {
    var ps := BoundaryPoints(a, b);
    assert rect.Contains(ps[0]) && rect.Contains(ps[2]);
  }

  /** Two fragments whose boundaries are built from the same chord have the same boundary. */
  lemma BoundaryDetermined(r1: IntRect, r2: IntRect, a: IntPoint, b: IntPoint)
    requires IsBoundingBox(r1, BoundaryPoints(a, b)) && IsBoundingBox(r2, BoundaryPoints(a, b))
    ensures r1 == r2
  {
    BoundingBoxUnique(r1, r2, BoundaryPoints(a, b));
  }
}
