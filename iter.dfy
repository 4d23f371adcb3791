/**
  Regular sampling of a spline: an iterator over the points at parameters
  i / 2^splitFactor, and `regular_points`, which collects it.
 */
module SplineIter {
  import opened Bits
  import opened Options
  import opened Points
  import opened Splines

  class IntSplinePointsIterator {
    const spline: IntSpline
    const count: nat
    const splitFactor: nat
    var i: nat

    /** `new`: count is 2^splitFactor, plus one when the end is wanted; the start is skipped unless wanted. */
    constructor (splitFactor: nat, start: bool, end: bool, spline: IntSpline)
      ensures this.spline == spline && this.splitFactor == splitFactor
      ensures count == Pow2(splitFactor) + (if end then 1 else 0)
      ensures i == (if start then 0 else 1)
      ensures Remaining() == Samples(spline, splitFactor, i, count)
    {
      this.spline := spline;
      this.splitFactor := splitFactor;
      this.count := Pow2(splitFactor) + (if end then 1 else 0);
      this.i := if start then 0 else 1;
    }

    /** The points still to come, in increasing step order. */
    ghost function Remaining(): seq<IntPoint>
      reads this
    {
      Samples(spline, splitFactor, i, count)
    }

    /** `next`: the point at the current step, or None once all count steps are used. */
    method Next() returns (r: Option<IntPoint>)
      modifies this
      ensures old(i) >= count ==> r == None && i == old(i)
      ensures old(i) < count ==> r == Some(spline.SplitAt(old(i), splitFactor)) && i == old(i) + 1
      ensures old(Remaining()) == [] ==> r == None && Remaining() == []
      ensures old(Remaining()) != [] ==> r == Some(old(Remaining())[0]) && Remaining() == old(Remaining())[1..]
    {
      ghost var rem := Remaining();
      if i >= count {
        assert rem == [];
        return None;
      }
      SamplesFirst(spline, splitFactor, i, count);
      var p := spline.SplitAt(i, splitFactor);
      i := i + 1;
      assert Remaining() == rem[1..];
      return Some(p);
    }

    /** `size_hint` reports the total count; it cannot see how far the iterator has got. */
    function SizeHint(): (r: (nat, Option<nat>))
      ensures r.0 == count && r.1 == Some(count)
    {
      (count, Some(count))
    }
  }

  /** `collect`: drain the iterator. */
  method Collect(it: IntSplinePointsIterator) returns (points: seq<IntPoint>)
    modifies it
    ensures points == old(it.Remaining())
    ensures it.Remaining() == []
  {
    points := [];
    while true
      invariant points + it.Remaining() == old(it.Remaining())
      decreases |it.Remaining()|
    {
      var p := it.Next();
      if p.None? {
        break;
      }
      points := points + [p.value];
    }
  }

  /** The points at steps lo, lo + 1, ..., hi - 1 (none when lo >= hi). */
  function Samples(spline: IntSpline, splitFactor: nat, lo: nat, hi: nat): (r: seq<IntPoint>)
    ensures |r| == (if lo <= hi then hi - lo else 0)
    ensures forall j :: 0 <= j < |r| ==> r[j] == spline.SplitAt(lo + j, splitFactor)
    decreases hi - lo
  {
    if lo >= hi then [] else [spline.SplitAt(lo, splitFactor)] + Samples(spline, splitFactor, lo + 1, hi)
  }

  lemma SamplesFirst(spline: IntSpline, splitFactor: nat, lo: nat, hi: nat)
    requires lo < hi
    ensures Samples(spline, splitFactor, lo, hi)[0] == spline.SplitAt(lo, splitFactor)
    ensures Samples(spline, splitFactor, lo, hi)[1..] == Samples(spline, splitFactor, lo + 1, hi)
  {
  }

  /** The 2^k points of a spline from its start inclusive to its end exclusive. */
  function RegularPointsSpec(spline: IntSpline, splitFactor: nat): (r: seq<IntPoint>)
    ensures |r| == Pow2(splitFactor)
    ensures forall j :: 0 <= j < |r| ==> r[j] == spline.SplitAt(j, splitFactor)
  {
    Samples(spline, splitFactor, 0, Pow2(splitFactor))
  }

  /** `IntSpline::regular_points`: sample with the start and without the end. */
  method RegularPoints(spline: IntSpline, splitFactor: nat) returns (points: seq<IntPoint>)
    ensures points == RegularPointsSpec(spline, splitFactor)
  {
    var it := new IntSplinePointsIterator(splitFactor, true, false, spline);
    points := Collect(it);
  }

  /** The sample starts at the spline's start, and the next sample after it would be the end. */
  lemma RegularPointsEnds(spline: IntSpline, splitFactor: nat)
    ensures RegularPointsSpec(spline, splitFactor)[0] == spline.Start()
    ensures spline.SplitAt(|RegularPointsSpec(spline, splitFactor)|, splitFactor) == spline.End()
  {
    SplitEnds(spline, splitFactor);
  }

  /** Halving the resolution keeps every other point: sample j at k is sample 2j at k + 1. */
  lemma RegularPointsRefine(spline: IntSpline, splitFactor: nat, j: nat)
    requires j < Pow2(splitFactor)
    ensures 2 * j < Pow2(splitFactor + 1)
    ensures RegularPointsSpec(spline, splitFactor + 1)[2 * j] == RegularPointsSpec(spline, splitFactor)[j]
  {
    SplitRefine(spline, j, splitFactor);
  }
}
