/** The spline with two control points am and bm (both anchors have handles). */
module QuadSplines {
  import opened Bits
  import opened Points
  import Lines
  import opened Rects

  datatype IntQuadSpline = IntQuadSpline(a: IntPoint, am: IntPoint, bm: IntPoint, b: IntPoint)
  {
    function Start(): IntPoint
    {
      a
    }

    function End(): IntPoint
    {
      b
    }

    /** The direction of the first leg am - a, scaled to length about 1024. */
    function StartDir(): (r: IntPoint)
      requires am.Sub(a) != Zero()
      ensures am.Sub(a).SqrLength() < NO_WRAP_SQR ==> r.DotProduct(am.Sub(a)) > 0
    {
      NormalizedAlong(am.Sub(a));
      am.Sub(a).Normalized10Bit()
    }

    /** The direction of the last leg b - bm, scaled to length about 1024. */
    function EndDir(): (r: IntPoint)
      requires b.Sub(bm) != Zero()
      ensures b.Sub(bm).SqrLength() < NO_WRAP_SQR ==> r.DotProduct(b.Sub(bm)) > 0
    {
      NormalizedAlong(b.Sub(bm));
      b.Sub(bm).Normalized10Bit()
    }

    /**
      Three levels of de Casteljau over a, am, bm, b, all at the same parameter.
      For a parameter in [0, 1] the point lies in every box that holds the four
      control points.
     */
    function SplitAt(step: nat, splitFactor: nat): (r: IntPoint)
      ensures step == 0 ==> r == Start()
      ensures step == Pow2(splitFactor) ==> r == End()
      ensures forall box: IntRect ::
                (step <= Pow2(splitFactor) && box.Contains(a) && box.Contains(am) && box.Contains(bm) && box.Contains(b))
                ==> box.Contains(r)
    {
      var p0 := Lines.New(a, am).SplitAt(step, splitFactor);
      var p1 := Lines.New(am, bm).SplitAt(step, splitFactor);
      var p2 := Lines.New(bm, b).SplitAt(step, splitFactor);
      var p10 := Lines.New(p0, p1).SplitAt(step, splitFactor);
      var p11 := Lines.New(p1, p2).SplitAt(step, splitFactor);
      Lines.New(p10, p11).SplitAt(step, splitFactor)
    }
  }

  /** Step 2s at resolution k + 1 is step s at resolution k, at every level. */
  lemma SplitRefine(s: IntQuadSpline, step: nat, k: nat)
    ensures s.SplitAt(2 * step, k + 1) == s.SplitAt(step, k)
  {
    Lines.SplitRefine(Lines.New(s.a, s.am), step, k);
    Lines.SplitRefine(Lines.New(s.am, s.bm), step, k);
    Lines.SplitRefine(Lines.New(s.bm, s.b), step, k);
    var p0 := Lines.New(s.a, s.am).SplitAt(step, k);
    var p1 := Lines.New(s.am, s.bm).SplitAt(step, k);
    var p2 := Lines.New(s.bm, s.b).SplitAt(step, k);
    Lines.SplitRefine(Lines.New(p0, p1), step, k);
    Lines.SplitRefine(Lines.New(p1, p2), step, k);
    var p10 := Lines.New(p0, p1).SplitAt(step, k);
    var p11 := Lines.New(p1, p2).SplitAt(step, k);
    Lines.SplitRefine(Lines.New(p10, p11), step, k);
  }
}
