/**
  The spline between two consecutive anchors. The common interface of the
  three kinds (start, start direction, end direction, end, point at a dyadic
  parameter) is given here by dispatch over the variant.
 */
module Splines {
  import opened Bits
  import opened Options
  import opened Points
  import opened Anchors
  import opened LineSplines
  import opened CubeSplines
  import opened QuadSplines
  import Rects

  datatype IntSpline =
    | Line(line: IntLineSpline)
    | Cube(cube: IntCubeSpline)
    | Quad(quad: IntQuadSpline)
  {
    /** The first anchor: the point at parameter 0, whatever the resolution. */
    function Start(): (r: IntPoint)
      ensures forall k: nat :: SplitAt(0, k) == r
    {
      match this
      case Line(s) => s.Start()
      case Cube(s) => s.Start()
      case Quad(s) => s.Start()
    }

    /** The last anchor: the point at parameter 2^k / 2^k, whatever the resolution k. */
    function End(): (r: IntPoint)
      ensures forall k: nat :: SplitAt(Pow2(k), k) == r
    {
      match this
      case Line(s) => s.End()
      case Cube(s) => s.End()
      case Quad(s) => s.End()
    }

    /** The vector whose direction the curve leaves in: first handle minus start. */
    function StartLeg(): IntPoint
    {
      match this
      case Line(s) => s.b.Sub(s.a)
      case Cube(s) => s.m.Sub(s.a)
      case Quad(s) => s.am.Sub(s.a)
    }

    /** The vector whose direction the curve arrives in: end minus last handle. */
    function EndLeg(): IntPoint
    {
      match this
      case Line(s) => s.b.Sub(s.a)
      case Cube(s) => s.b.Sub(s.m)
      case Quad(s) => s.b.Sub(s.bm)
    }

    /** Both end directions are defined: the vectors they normalise are nonzero. */
    predicate HasDirections()
    {
      match this
      case Line(s) => s.b.Sub(s.a) != Zero()
      case Cube(s) => s.m.Sub(s.a) != Zero() && s.b.Sub(s.m) != Zero()
      case Quad(s) => s.am.Sub(s.a) != Zero() && s.b.Sub(s.bm) != Zero()
    }

    /** The box holds every control point of the curve. */
    predicate HoldsControls(box: Rects.IntRect)
    {
      match this
      case Line(s) => box.Contains(s.a) && box.Contains(s.b)
      case Cube(s) => box.Contains(s.a) && box.Contains(s.m) && box.Contains(s.b)
      case Quad(s) => box.Contains(s.a) && box.Contains(s.am) && box.Contains(s.bm) && box.Contains(s.b)
    }

    /** The start direction points along the first leg while that leg's root fits in `i64`. */
    function StartDir(): (r: IntPoint)
      requires HasDirections()
      ensures StartLeg().SqrLength() < NO_WRAP_SQR ==> r.DotProduct(StartLeg()) > 0
    {
      match this
      case Line(s) => s.StartDir()
      case Cube(s) => s.StartDir()
      case Quad(s) => s.StartDir()
    }

    /** The end direction points along the last leg while that leg's root fits in `i64`. */
    function EndDir(): (r: IntPoint)
      requires HasDirections()
      ensures EndLeg().SqrLength() < NO_WRAP_SQR ==> r.DotProduct(EndLeg()) > 0
    {
      match this
      case Line(s) => s.EndDir()
      case Cube(s) => s.EndDir()
      case Quad(s) => s.EndDir()
    }

    /** For a parameter in [0, 1] the point lies in every box that holds the control points. */
    function SplitAt(step: nat, splitFactor: nat): (r: IntPoint)
      ensures forall box :: step <= Pow2(splitFactor) && HoldsControls(box) ==> box.Contains(r)
    {
      match this
      case Line(s) => s.SplitAt(step, splitFactor)
      case Cube(s) => s.SplitAt(step, splitFactor)
      case Quad(s) => s.SplitAt(step, splitFactor)
    }
  }

  /**
    `IntSpline::new`: the kind follows from which handles face the edge, the
    outgoing handle of a and the incoming handle of b.
   */
  function New(a: IntBezierAnchor, b: IntBezierAnchor): (r: IntSpline)
    ensures r.Start() == a.point && r.End() == b.point
    ensures r.Quad? <==> a.handleOut.Some? && b.handleIn.Some?
    ensures r.Quad? ==> r.quad.am == a.HandleOutPoint().value && r.quad.bm == b.HandleInPoint().value
    ensures r.Cube? <==> a.handleOut.Some? != b.handleIn.Some?
    ensures r.Cube? && a.handleOut.Some? ==> r.cube.m == a.HandleOutPoint().value
    ensures r.Cube? && b.handleIn.Some? ==> r.cube.m == b.HandleInPoint().value
    ensures r.Line? <==> a.handleOut.None? && b.handleIn.None?
  {
    match (a.HandleOutPoint(), b.HandleInPoint())
    case (Some(am), Some(bm)) => Quad(IntQuadSpline(a.point, am, bm, b.point))
    case (Some(m), None) => Cube(IntCubeSpline(a.point, m, b.point))
    case (None, Some(m)) => Cube(IntCubeSpline(a.point, m, b.point))
    case (None, None) => Line(IntLineSpline(a.point, b.point))
  }

  /** Whatever the kind, parameter 0 is the start and parameter 2^k / 2^k the end. */
  lemma SplitEnds(s: IntSpline, k: nat)
    ensures s.SplitAt(0, k) == s.Start()
    ensures s.SplitAt(Pow2(k), k) == s.End()
  {
  }

  /** Whatever the kind, step 2s at resolution k + 1 is step s at resolution k. */
  lemma SplitRefine(s: IntSpline, step: nat, k: nat)
    ensures s.SplitAt(2 * step, k + 1) == s.SplitAt(step, k)
  {
    match s
    case Line(l) => LineSplines.SplitRefine(l, step, k);
    case Cube(c) => CubeSplines.SplitRefine(c, step, k);
    case Quad(q) => QuadSplines.SplitRefine(q, step, k);
  }

  /** Repeated halving: step s at resolution k is step s * 2^j at resolution k + j. */
  lemma {:induction false} SplitRefineMany(s: IntSpline, step: nat, k: nat, j: nat)
    ensures s.SplitAt(step * Pow2(j), k + j) == s.SplitAt(step, k)
  {
    if j > 0 {
      SplitRefineMany(s, step, k, j - 1);
      RefineOnce(s, step, k, j);
    } else {
      assert step * Pow2(j) == step;
    }
  }

  /** One halving inside the chain: step s * 2^j at resolution k + j is step s * 2^(j-1) at resolution k + j - 1. */
  lemma RefineOnce(s: IntSpline, step: nat, k: nat, j: nat)
    requires j > 0
    ensures s.SplitAt(step * Pow2(j), k + j) == s.SplitAt(step * Pow2(j - 1), k + (j - 1))
  {
    DoubleStep(step, j);
    SplitRefine(s, step * Pow2(j - 1), k + (j - 1));
  }

  lemma DoubleStep(step: nat, j: nat)
    requires j > 0
    ensures step * Pow2(j) == 2 * (step * Pow2(j - 1))
  {
    var p := Pow2(j - 1);
    assert Pow2(j) == 2 * p;
    assert step * (2 * p) == 2 * (step * p);
  }
}
