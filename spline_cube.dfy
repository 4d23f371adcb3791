/** The spline with a single control point m (one of the two anchors has a handle). */
module CubeSplines {
  import opened Bits
  import opened Points
  import Lines
  import opened Rects

  datatype IntCubeSpline = IntCubeSpline(a: IntPoint, m: IntPoint, b: IntPoint)
  {
    function Start(): IntPoint
    {
      a
    }

    function End(): IntPoint
    {
      b
    }

    /** The direction of the first leg m - a, scaled to length about 1024. */
    function StartDir(): (r: IntPoint)
      requires m.Sub(a) != Zero()
      ensures m.Sub(a).SqrLength() < NO_WRAP_SQR ==> r.DotProduct(m.Sub(a)) > 0
    {
      NormalizedAlong(m.Sub(a));
      m.Sub(a).Normalized10Bit()
    }

    /** The direction of the last leg b - m, scaled to length about 1024. */
    function EndDir(): (r: IntPoint)
      requires b.Sub(m) != Zero()
      ensures b.Sub(m).SqrLength() < NO_WRAP_SQR ==> r.DotProduct(b.Sub(m)) > 0
    {
      NormalizedAlong(b.Sub(m));
      b.Sub(m).Normalized10Bit()
    }

    /**
      Two levels of de Casteljau: interpolate a-m and m-b, then between the two
      results. For a parameter in [0, 1] the point lies in every box that holds
      the three control points.
     */
    function SplitAt(step: nat, splitFactor: nat): (r: IntPoint)
      ensures step == 0 ==> r == Start()
      ensures step == Pow2(splitFactor) ==> r == End()
      ensures forall box: IntRect ::
                step <= Pow2(splitFactor) && box.Contains(a) && box.Contains(m) && box.Contains(b) ==> box.Contains(r)
    {
      var p10 := Lines.New(a, m).SplitAt(step, splitFactor);
      var p11 := Lines.New(m, b).SplitAt(step, splitFactor);
      Lines.New(p10, p11).SplitAt(step, splitFactor)
    }
  }

  /** Step 2s at resolution k + 1 is step s at resolution k, at every level. */
  lemma SplitRefine(s: IntCubeSpline, step: nat, k: nat)
    ensures s.SplitAt(2 * step, k + 1) == s.SplitAt(step, k)
  {
    Lines.SplitRefine(Lines.New(s.a, s.m), step, k);
    Lines.SplitRefine(Lines.New(s.m, s.b), step, k);
    var p10 := Lines.New(s.a, s.m).SplitAt(step, k);
    var p11 := Lines.New(s.m, s.b).SplitAt(step, k);
    Lines.SplitRefine(Lines.New(p10, p11), step, k);
  }
}
