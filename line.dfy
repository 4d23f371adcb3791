/**
  Linear interpolation between two points at the dyadic parameter
  step / 2^splitFactor, the building block of every spline evaluation.
 */
module Lines {
  import opened Bits
  import opened Points

  datatype IntLine = IntLine(a: IntPoint, b: IntPoint)
  {
    /** Each coordinate interpolated independently. */
    function SplitAt(step: nat, splitFactor: nat): (r: IntPoint)
      ensures r.x == SplitOneDimensionAt(a.x, b.x, step, splitFactor)
      ensures r.y == SplitOneDimensionAt(a.y, b.y, step, splitFactor)
    {
      IntPoint(SplitOneDimensionAt(a.x, b.x, step, splitFactor),
               SplitOneDimensionAt(a.y, b.y, step, splitFactor))
    }
  }

  function New(a: IntPoint, b: IntPoint): (r: IntLine)
    ensures r.a == a && r.b == b
  {
    IntLine(a, b)
  }

  /**
    `a + (((b - a) * step) >> splitFactor)`: the arithmetic shift rounds toward
    minus infinity, which is Dafny's division by a positive divisor. Parameter 0
    gives the first end, parameter 2^k / 2^k the second, and every parameter in
    [0, 1] a value between the two ends.
   */
  function SplitOneDimensionAt(a: int, b: int, step: nat, splitFactor: nat): (r: int)
    ensures step == 0 ==> r == a
    ensures step == Pow2(splitFactor) ==> r == b
    ensures step <= Pow2(splitFactor) ==> (a <= b ==> a <= r <= b) && (b <= a ==> b <= r <= a)
  {
    Interpolation(a, b, step, Pow2(splitFactor));
    a + ((b - a) * step) / Pow2(splitFactor)
  }

  /** The floor-rounded interpolation a + (b - a) * step / d for a positive divisor d. */
  lemma Interpolation(a: int, b: int, step: nat, d: nat)
    requires d > 0
    ensures step == 0 ==> a + ((b - a) * step) / d == a
    ensures step == d ==> a + ((b - a) * step) / d == b
    ensures step <= d ==> var r := a + ((b - a) * step) / d; (a <= b ==> a <= r <= b) && (b <= a ==> b <= r <= a)
  {
    var n := (b - a) * step;
    DivUnique((b - a) * d, d, b - a, 0);
    DivUnique(0, d, 0, 0);
    if step <= d {
      if a <= b {
        MulMonotone(b - a, step, d);
        MulMonotone(b - a, 0, step);
        DivMonotone(0, n, d);
        DivMonotone(n, (b - a) * d, d);
      } else {
        MulMonotone(a - b, step, d);
        MulMonotone(a - b, 0, step);
        assert (b - a) * d <= n <= 0;
        DivMonotone((b - a) * d, n, d);
        DivMonotone(n, 0, d);
      }
    }
  }

  /** Doubling both the step and the resolution names the same parameter and gives the same value. */
  lemma SplitOneDimensionRefine(a: int, b: int, step: nat, k: nat)
    ensures SplitOneDimensionAt(a, b, 2 * step, k + 1) == SplitOneDimensionAt(a, b, step, k)
  {
    assert (b - a) * (2 * step) == 2 * ((b - a) * step);
    assert Pow2(k + 1) == 2 * Pow2(k);
    DivScale((b - a) * step, Pow2(k), 2);
  }

  lemma SplitEnds(line: IntLine, k: nat)
    ensures line.SplitAt(0, k) == line.a
    ensures line.SplitAt(Pow2(k), k) == line.b
  {
  }

  lemma SplitRefine(line: IntLine, step: nat, k: nat)
    ensures line.SplitAt(2 * step, k + 1) == line.SplitAt(step, k)
  {
    SplitOneDimensionRefine(line.a.x, line.b.x, step, k);
    SplitOneDimensionRefine(line.a.y, line.b.y, step, k);
  }

  /** When the scaled difference is an exact multiple of 2^k the shift loses nothing. */
  lemma SplitOneDimensionExact(a: int, b: int, step: nat, k: nat, q: int)
    requires (b - a) * step == q * Pow2(k)
    ensures SplitOneDimensionAt(a, b, step, k) == a + q
  {
    DivUnique(q * Pow2(k), Pow2(k), q, 0);
  }

  lemma Pow2Small()
    ensures Pow2(1) == 2 && Pow2(2) == 4 && Pow2(3) == 8
  {
  }

  /** The unit test of the midpoint of (0,0)-(0,8). */
  lemma SplitMidpointExample()
    ensures IntLine(IntPoint(0, 0), IntPoint(0, 8)).SplitAt(1, 1) == IntPoint(0, 4)
  {
    Pow2Small();
    SplitOneDimensionExact(0, 0, 1, 1, 0);
    SplitOneDimensionExact(0, 8, 1, 1, 4);

  }

  /** The unit test walking (0,-4)-(0,4) in quarter steps. */
  lemma SplitQuarterExample(step: nat)
    requires step <= 4
    ensures IntLine(IntPoint(0, -4), IntPoint(0, 4)).SplitAt(step, 2) == IntPoint(0, 2 * step - 4)
  {
    Pow2Small();
    SplitOneDimensionExact(0, 0, step, 2, 0);
    SplitOneDimensionExact(-4, 4, step, 2, 2 * step);
  }

  /** The unit test walking (0,-4)-(0,4) in eighth steps. */
  lemma SplitEighthExample(step: nat)
    requires step <= 8
    ensures IntLine(IntPoint(0, -4), IntPoint(0, 4)).SplitAt(step, 3) == IntPoint(0, step - 4)
  {
    Pow2Small();
    SplitOneDimensionExact(0, 0, step, 3, 0);
    SplitOneDimensionExact(-4, 4, step, 3, step);
  }
}
