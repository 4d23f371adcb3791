/** A path of anchors, open or closed, walked edge by edge and sampled regularly. */
module Paths {
  import opened Bits
  import opened Options
  import opened Points
  import opened Anchors
  import opened Splines
  import opened SplineIter

  datatype IntBezierPath = IntBezierPath(anchors: seq<IntBezierAnchor>, closed: bool)

  /**
    The splines of a path: one between each pair of neighbours and, for a
    closed path with at least one anchor, a closing one from the last anchor
    back to the first.
   */
  function Edges(path: IntBezierPath): (r: seq<IntSpline>)
    ensures |path.anchors| == 0 ==> |r| == 0
    ensures |path.anchors| > 0 && !path.closed ==> |r| == |path.anchors| - 1
    ensures |path.anchors| > 0 && path.closed ==> |r| == |path.anchors|
    ensures forall j :: 0 <= j < |path.anchors| - 1 ==> r[j] == Splines.New(path.anchors[j], path.anchors[j + 1])
    ensures path.closed && |path.anchors| > 0 ==>
              r[|path.anchors| - 1] == Splines.New(path.anchors[|path.anchors| - 1], path.anchors[0])
  {
    var n := |path.anchors|;
    var inner := OpenEdges(path.anchors, 0);
    if path.closed && n > 0 then inner + [Splines.New(path.anchors[n - 1], path.anchors[0])] else inner
  }

  /** The splines between anchors j and j + 1, for j from lo on. */
  function OpenEdges(anchors: seq<IntBezierAnchor>, lo: nat): (r: seq<IntSpline>)
    ensures |r| == if lo + 1 < |anchors| then |anchors| - 1 - lo else 0
    ensures forall j :: 0 <= j < |r| ==> r[j] == Splines.New(anchors[lo + j], anchors[lo + j + 1])
    decreases |anchors| - lo
  {
    if lo + 1 >= |anchors| then [] else [Splines.New(anchors[lo], anchors[lo + 1])] + OpenEdges(anchors, lo + 1)
  }

  /** `SplineIterator`: i is one past the index of the edge's first anchor. */
  class SplineIterator {
    const path: IntBezierPath
    var i: nat

    ghost predicate Valid()
      reads this
    {
      i >= 1
    }

    constructor (path: IntBezierPath)
      ensures this.path == path && i == 1 && Valid()
      ensures Remaining() == Edges(path)
    {
      this.path := path;
      this.i := 1;
    }

    /** The edges still to come. */
    ghost function Remaining(): seq<IntSpline>
      reads this
      requires Valid()
    {
      var e := Edges(path);
      if i - 1 <= |e| then e[i - 1..] else []
    }

    /**
      `next`: the edge between anchors i - 1 and i; at i == n the closing
      edge (closed paths only); afterwards None for good.
     */
    method Next() returns (r: Option<IntSpline>)
      requires Valid()
      modifies this
      ensures Valid()
      ensures old(i) > |path.anchors| ==> r == None && i == old(i)
      ensures old(i) == |path.anchors| ==> i == old(i) + 1
      ensures old(i) == |path.anchors| ==>
                r == (if path.closed then Some(Splines.New(path.anchors[old(i) - 1], path.anchors[0])) else None)
      ensures old(i) < |path.anchors| ==> i == old(i) + 1 && r == Some(Splines.New(path.anchors[old(i) - 1], path.anchors[old(i)]))
      ensures old(Remaining()) == [] ==> r == None && Remaining() == []
      ensures old(Remaining()) != [] ==> r == Some(old(Remaining())[0]) && Remaining() == old(Remaining())[1..]
    {
      var n := |path.anchors|;
      if i > n {
        return None;
      }
      if i == n {
        i := i + 1;
        if path.closed {
          return Some(Splines.New(path.anchors[n - 1], path.anchors[0]));
        } else {
          return None;
        }
      }
      var a0 := path.anchors[i - 1];
      var a1 := path.anchors[i];
      i := i + 1;
      return Some(Splines.New(a0, a1));
    }
  }

  /** The regular samples of each edge, one edge after another. */
  function PointsOf(edges: seq<IntSpline>, splitFactor: nat): (r: seq<IntPoint>)
  {
    if edges == [] then [] else RegularPointsSpec(edges[0], splitFactor) + PointsOf(edges[1..], splitFactor)
  }

  /** Every edge contributes exactly 2^k points. */
  lemma {:induction false} PointsOfLength(edges: seq<IntSpline>, splitFactor: nat)
    ensures |PointsOf(edges, splitFactor)| == |edges| * Pow2(splitFactor)
  {
    if edges != [] {
      PointsOfLength(edges[1..], splitFactor);
      var d := Pow2(splitFactor);
      assert |edges| * d == d + (|edges| - 1) * d;
    }
  }

  /**
    `IntBezierPath::points`: walk the edges and append each edge's regular
    samples (start included, end excluded).
   */
  method PathPoints(path: IntBezierPath, splitFactor: nat) returns (points: seq<IntPoint>)
    ensures points == PointsOf(Edges(path), splitFactor)
    ensures |points| == |Edges(path)| * Pow2(splitFactor)
  {
    ghost var edges := Edges(path);
    ghost var total := PointsOf(edges, splitFactor);
    var it := new SplineIterator(path);
    points := [];
    while true
      invariant it.Valid()
      invariant points + PointsOf(it.Remaining(), splitFactor) == total
      decreases |it.Remaining()|
    {
      ghost var before := it.Remaining();
      var s := it.Next();
      if s.None? {
        break;
      }
      var ps := RegularPoints(s.value, splitFactor);
      PointsOfStep(points, ps, before, splitFactor, total);
      points := points + ps;
    }
    PointsOfLength(edges, splitFactor);
  }

  /** Appending the first edge's samples moves them from the remaining edges to the output. */
  lemma PointsOfStep(points: seq<IntPoint>, ps: seq<IntPoint>, edges: seq<IntSpline>, splitFactor: nat, total: seq<IntPoint>)
    requires edges != [] && ps == RegularPointsSpec(edges[0], splitFactor)
    requires points + PointsOf(edges, splitFactor) == total
    ensures (points + ps) + PointsOf(edges[1..], splitFactor) == total
  {
    var rest := PointsOf(edges[1..], splitFactor);
    assert PointsOf(edges, splitFactor) == ps + rest;
    ConcatAssociative(points, ps, rest);
  }

  lemma ConcatAssociative<T>(a: seq<T>, b: seq<T>, c: seq<T>)
    ensures (a + b) + c == a + (b + c)
  {
  }

  /** A closed one-anchor path has a single self-edge; an open one has none. */
  lemma SingleAnchorEdges(a: IntBezierAnchor)
    ensures Edges(IntBezierPath([a], true)) == [Splines.New(a, a)]
    ensures Edges(IntBezierPath([a], false)) == []
  {
  }

  /** The unit test: a closed path of four anchors sampled at factor 2 gives 16 points. */
  lemma DiamondExample()
    ensures |PointsOf(Edges(Diamond()), 2)| == 16
  {
    PointsOfLength(Edges(Diamond()), 2);
    assert Pow2(2) == 4;
  }

  /** The diamond of the unit test, with symmetric handles of length 100. */
  function Diamond(): IntBezierPath
  {
    IntBezierPath([
      IntBezierAnchor(IntPoint(-1000, 0), Some(Offsets.IntOffset(0, -100)), Some(Offsets.IntOffset(0, 100))),
      IntBezierAnchor(IntPoint(0, 1000), Some(Offsets.IntOffset(-100, 0)), Some(Offsets.IntOffset(100, 0))),
      IntBezierAnchor(IntPoint(1000, 0), Some(Offsets.IntOffset(0, 100)), Some(Offsets.IntOffset(0, -100))),
      IntBezierAnchor(IntPoint(0, -1000), Some(Offsets.IntOffset(100, 0)), Some(Offsets.IntOffset(-100, 0)))
    ], true)
  }
}
