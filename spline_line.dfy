/** The straight spline between two anchors that have no handles. */
module LineSplines {
  import opened Bits
  import opened Points
  import Lines
  import opened Rects

  datatype IntLineSpline = IntLineSpline(a: IntPoint, b: IntPoint)
  {
    function Start(): IntPoint
    {
      a
    }

    function End(): IntPoint
    {
      b
    }

    /** A line leaves and arrives in the same direction, that of b - a. */
    function StartDir(): (r: IntPoint)
      requires b.Sub(a) != Zero()
      ensures r == EndDir()
    {
      b.Sub(a).Normalized10Bit()
    }

    /** The direction of b - a, scaled to length about 1024. */
    function EndDir(): (r: IntPoint)
      requires b.Sub(a) != Zero()
      ensures b.Sub(a).SqrLength() < NO_WRAP_SQR ==> r.DotProduct(b.Sub(a)) > 0
    {
      NormalizedAlong(b.Sub(a));
      b.Sub(a).Normalized10Bit()
    }

    /**
      The point at parameter step / 2^splitFactor, by `IntLine::split_at`. For a
      parameter in [0, 1] it lies in every box that holds both ends.
     */
    function SplitAt(step: nat, splitFactor: nat): (r: IntPoint)
      ensures step == 0 ==> r == Start()
      ensures step == Pow2(splitFactor) ==> r == End()
      ensures forall box: IntRect ::
                step <= Pow2(splitFactor) && box.Contains(a) && box.Contains(b) ==> box.Contains(r)
    {
      Lines.New(a, b).SplitAt(step, splitFactor)
    }

    /** The smallest box around both ends. */
    function Boundary(): (r: IntRect)
      ensures IsBoundingBox(r, [a, b])
    {
      var (minX, maxX) := if a.x < b.x then (a.x, b.x) else (b.x, a.x);
      var (minY, maxY) := if a.y < b.y then (a.y, b.y) else (b.y, a.y);
      var r := IntRect(IntPoint(minX, minY), IntPoint(maxX, maxY));
      assert [a, b][0] == a && [a, b][1] == b;
      r
    }
  }

  /** Step 2s at resolution k + 1 is step s at resolution k. */
  lemma SplitRefine(s: IntLineSpline, step: nat, k: nat)
    ensures s.SplitAt(2 * step, k + 1) == s.SplitAt(step, k)
  {
    Lines.SplitRefine(Lines.New(s.a, s.b), step, k);
  }

  /** Every sampled point of the segment lies in its boundary. */
  lemma SplitWithinBoundary(s: IntLineSpline, step: nat, k: nat)
    requires step <= Pow2(k)
    ensures s.Boundary().Contains(s.SplitAt(step, k))
  {
    assert [s.a, s.b][0] == s.a && [s.a, s.b][1] == s.b;
  }
}
