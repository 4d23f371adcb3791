/**
  Adaptive flattening of a spline into a chain of short chords. Each chord
  (an IntShort) covers the parameter interval
  [step / 2^(splitFactor+1), (step + 2) / 2^(splitFactor+1)] with an even
  step; splitting it at the midpoint step + 1 gives two chords at the next
  resolution. The solver keeps the chords in the arena list, tests the queued
  ones against their neighbours' directions, splits the ones that turn too
  sharply and re-queues the children that are not yet short.
 */
module Approximations {
  import opened Bits
  import opened Points
  import opened Splines
  import opened LinkLists
  import Lines
  import QuadSplines

  datatype IntShort = IntShort(step: nat, splitFactor: nat, dir: IntPoint, a: IntPoint, b: IntPoint)

  /** How a computation ends: a value, a Rust panic, or the split budget used up. */
  datatype Outcome<T> = Done(value: T) | Panic | OutOfFuel

  // ---------------------------------------------------------------- is_small

  /** `ilog2(n) < power`, the test `is_small` applies to each magnitude. */
  lemma Ilog2Below(n: nat, power: nat)
    requires n >= 1
    ensures Ilog2(n) < power <==> n < Pow2(power)
  {
    if power > 0 {
      Ilog2AtMost(n, power - 1);
    }
  }

  /** The floor square root is below P exactly when the number is below P^2. */
  lemma IsqrtBelow(s: nat, bound: nat)
    ensures Isqrt(s) < bound <==> s < bound * bound
  {
    var r := Isqrt(s);
    if r < bound {
      SquareMonotone(r + 1, bound);
    } else {
      SquareMonotone(bound, r);
    }
  }

  /**
    `is_small` as written: `unsigned_abs().ilog2()` of each coordinate, which
    panics on 0, so a vector with a zero coordinate is outside its domain.
    Where it is defined, it holds exactly when the length is below 2^power.
   */
  function IsSmallAsWritten(v: IntPoint, power: nat): (r: bool)
    requires v.x != 0 && v.y != 0
    ensures r <==> v.SqrLength() < Pow2(2 * power)
  {
    var isXSmall := Ilog2(Abs(v.x)) < power;
    var isYSmall := Ilog2(Abs(v.y)) < power;
    SmallCharacterised(v, power);
    if isXSmall && isYSmall then
      Ilog2(Isqrt(v.SqrLength())) < power
    else
      false
  }

  /**
    `is_small` with a zero coordinate counted as below every power, the
    behaviour the test evidently intends; it is total and holds exactly when
    x^2 + y^2 < 4^power, i.e. the length is below 2^power.
   */
  function IsSmall(v: IntPoint, power: nat): (r: bool)
    ensures r <==> v.SqrLength() < Pow2(2 * power)
  {
    var isXSmall := v.x == 0 || Ilog2(Abs(v.x)) < power;
    var isYSmall := v.y == 0 || Ilog2(Abs(v.y)) < power;
    SmallCharacterised(v, power);
    if isXSmall && isYSmall then
      var len := Isqrt(v.SqrLength());
      len == 0 || Ilog2(len) < power
    else
      false
  }

  lemma {:induction false} SmallCharacterised(v: IntPoint, power: nat)
    ensures v.x != 0 ==> (Ilog2(Abs(v.x)) < power <==> Abs(v.x) < Pow2(power))
    ensures v.y != 0 ==> (Ilog2(Abs(v.y)) < power <==> Abs(v.y) < Pow2(power))
    ensures Isqrt(v.SqrLength()) != 0 ==> (Ilog2(Isqrt(v.SqrLength())) < power <==> v.SqrLength() < Pow2(2 * power))
    ensures v.SqrLength() < Pow2(2 * power) ==> Abs(v.x) < Pow2(power) && Abs(v.y) < Pow2(power)
  {
    if v.x != 0 {
      Ilog2Below(Abs(v.x), power);
    }
    if v.y != 0 {
      Ilog2Below(Abs(v.y), power);
    }
    LengthSmall(v.SqrLength(), power);
    CoordinatesSmall(Abs(v.x), Abs(v.y), power);
  }

  lemma {:induction false} LengthSmall(sqrLen: nat, power: nat)
    ensures Isqrt(sqrLen) != 0 ==> (Ilog2(Isqrt(sqrLen)) < power <==> sqrLen < Pow2(2 * power))
  {
    var len := Isqrt(sqrLen);
    if len != 0 {
      Ilog2Below(len, power);
    }
    IsqrtBelow(sqrLen, Pow2(power));
    Pow2Add(power, power);
  }

  lemma {:induction false} CoordinatesSmall(xAbs: nat, yAbs: nat, power: nat)
    ensures xAbs * xAbs + yAbs * yAbs < Pow2(2 * power) ==> xAbs < Pow2(power) && yAbs < Pow2(power)
  {
    var d := Pow2(power);
    Pow2Add(power, power);
    if xAbs >= d {
      SquareMonotone(d, xAbs);
    }
    if yAbs >= d {
      SquareMonotone(d, yAbs);
    }
  }

  /** The unit test: (100, 100), of length about 141, is small first at power 8. */
  lemma IsSmallExample(power: nat)
    requires 2 <= power <= 8
    ensures IsSmall(IntPoint(100, 100), power) <==> power == 8
    ensures IsSmallAsWritten(IntPoint(100, 100), power) <==> power == 8
  {
    assert IntPoint(100, 100).SqrLength() == 20000;
    Pow2Add(7, 7);
    Pow2Add(8, 8);
    assert Pow2(7) == 128 && Pow2(8) == 256;
    if power < 8 {
      Pow2Monotone(2 * power, 14);
    }
  }

  // ---------------------------------------------------------- chord chains

  /** Chord s lies on the spline: its ends are the spline at its parameter bounds and dir is their normalised difference. */
  ghost predicate OnSpline(spline: IntSpline, s: IntShort)
  {
    && s.a == spline.SplitAt(s.step, s.splitFactor + 1)
    && s.b == spline.SplitAt(s.step + 2, s.splitFactor + 1)
    && s.b.Sub(s.a) != Zero()
    && s.dir == s.b.Sub(s.a).Normalized10Bit()
  }

  /**
    x is followed by y: they share the vertex, and x's upper parameter bound
    (x.step + 2) / 2^(x.splitFactor+1) is y's lower bound y.step / 2^(y.splitFactor+1).
   */
  ghost predicate Adjacent(x: IntShort, y: IntShort)
  {
    && x.b == y.a
    && (x.step + 2) * Pow2(y.splitFactor + 1) == y.step * Pow2(x.splitFactor + 1)
  }

  /**
    A connected chain of chords from the spline's start to its end whose
    parameter intervals tile [0, 1] in order.
   */
  ghost predicate Chain(spline: IntSpline, shorts: seq<IntShort>)
  {
    && |shorts| > 0
    && shorts[0].a == spline.Start()
    && shorts[|shorts| - 1].b == spline.End()
    && shorts[0].step == 0
    && shorts[|shorts| - 1].step + 2 == Pow2(shorts[|shorts| - 1].splitFactor + 1)
    && (forall i {:trigger OnSpline(spline, shorts[i])} :: 0 <= i < |shorts| ==> OnSpline(spline, shorts[i]))
    && (forall i {:trigger Adjacent(shorts[i], shorts[i + 1])} :: 0 <= i < |shorts| - 1 ==> Adjacent(shorts[i], shorts[i + 1]))
  }

  /** The chord over the whole parameter range [0, 1]. */
  function Initial(spline: IntSpline): (r: IntShort)
    requires spline.End().Sub(spline.Start()) != Zero()
    ensures Chain(spline, [r])
  {
    SplitEnds(spline, 1);
    SplitRefine(spline, 1, 0);
    SplitEnds(spline, 0);
    IntShort(0, 0, spline.End().Sub(spline.Start()).Normalized10Bit(), spline.Start(), spline.End())
  }

  /** The midpoint of a chord: the spline at parameter (step + 1) / 2^(splitFactor+1). */
  function Midpoint(spline: IntSpline, s: IntShort): IntPoint
  {
    spline.SplitAt(s.step + 1, s.splitFactor + 1)
  }

  /** Both halves have nonzero length, so both directions can be normalised. */
  predicate CanSplit(spline: IntSpline, s: IntShort)
  {
    Midpoint(spline, s).Sub(s.a) != Zero() && s.b.Sub(Midpoint(spline, s)) != Zero()
  }

  /** The two halves of a chord at the next resolution. */
  function Children(spline: IntSpline, s: IntShort): (r: seq<IntShort>)
    requires CanSplit(spline, s)
    ensures |r| == 2
    ensures r[0].a == s.a && r[0].b == r[1].a && r[1].b == s.b
    ensures r[0].splitFactor == r[1].splitFactor == s.splitFactor + 1
    ensures r[0].step == 2 * s.step && r[1].step == 2 * s.step + 2
  {
    var k := s.splitFactor + 1;
    var m := Midpoint(spline, s);
    [IntShort(2 * s.step, k, m.Sub(s.a).Normalized10Bit(), s.a, m),
     IntShort(2 * s.step + 2, k, s.b.Sub(m).Normalized10Bit(), m, s.b)]
  }

  /** Both halves of a chord on the spline lie on it, one after the other. */
  lemma ChildrenOnSpline(spline: IntSpline, s: IntShort)
    requires OnSpline(spline, s) && CanSplit(spline, s)
    ensures OnSpline(spline, Children(spline, s)[0])
    ensures OnSpline(spline, Children(spline, s)[1])
    ensures Adjacent(Children(spline, s)[0], Children(spline, s)[1])
  {
    FirstChildOnSpline(spline, s);
    SecondChildOnSpline(spline, s);
    ChildrenAdjacent(spline, s);
  }

  lemma ChildrenAdjacent(spline: IntSpline, s: IntShort)
    requires CanSplit(spline, s)
    ensures Adjacent(Children(spline, s)[0], Children(spline, s)[1])
  {
    var c := Children(spline, s);
    var e := Pow2(s.splitFactor + 2);
    assert (c[0].step + 2) * e == c[1].step * e;
  }

  lemma FirstChildOnSpline(spline: IntSpline, s: IntShort)
    requires s.a == spline.SplitAt(s.step, s.splitFactor + 1) && CanSplit(spline, s)
    ensures OnSpline(spline, Children(spline, s)[0])
  {
    StartRefined(spline, s);
    MidpointRefined(spline, s);
  }

  lemma SecondChildOnSpline(spline: IntSpline, s: IntShort)
    requires s.b == spline.SplitAt(s.step + 2, s.splitFactor + 1) && CanSplit(spline, s)
    ensures OnSpline(spline, Children(spline, s)[1])
  {
    MidpointRefined(spline, s);
    EndRefined(spline, s);
  }

  /** The chord's start, midpoint and end, named at the next resolution. */
  lemma StartRefined(spline: IntSpline, s: IntShort)
    ensures spline.SplitAt(2 * s.step, s.splitFactor + 2) == spline.SplitAt(s.step, s.splitFactor + 1)
  {
    SplitRefine(spline, s.step, s.splitFactor + 1);
  }

  lemma MidpointRefined(spline: IntSpline, s: IntShort)
    ensures spline.SplitAt(2 * s.step + 2, s.splitFactor + 2) == Midpoint(spline, s)
  {
    SplitRefine(spline, s.step + 1, s.splitFactor + 1);
    assert 2 * (s.step + 1) == 2 * s.step + 2;
  }

  lemma EndRefined(spline: IntSpline, s: IntShort)
    ensures spline.SplitAt(2 * s.step + 4, s.splitFactor + 2) == spline.SplitAt(s.step + 2, s.splitFactor + 1)
  {
    SplitRefine(spline, s.step + 2, s.splitFactor + 1);
    assert 2 * (s.step + 2) == 2 * s.step + 4;
  }

  /** Doubling a bound's numerator and its denominator keeps it equal to another. */
  lemma DoubledBound(u: int, p: int, v: int, q: int)
    requires u * q == v * p
    ensures (2 * u) * q == v * (2 * p)
    ensures u * (2 * q) == (2 * v) * p
  {
  }

  /** A chord's predecessor also precedes its first half. */
  lemma AdjacentFirstChild(spline: IntSpline, x: IntShort, s: IntShort)
    requires CanSplit(spline, s) && Adjacent(x, s)
    ensures Adjacent(x, Children(spline, s)[0])
  {
    var c := Children(spline, s);
    assert Pow2(c[0].splitFactor + 1) == 2 * Pow2(s.splitFactor + 1);
    DoubledBound(x.step + 2, Pow2(x.splitFactor + 1), s.step, Pow2(s.splitFactor + 1));
  }

  /** A chord's successor also follows its second half. */
  lemma AdjacentSecondChild(spline: IntSpline, s: IntShort, y: IntShort)
    requires CanSplit(spline, s) && Adjacent(s, y)
    ensures Adjacent(Children(spline, s)[1], y)
  {
    var c := Children(spline, s);
    assert Pow2(c[1].splitFactor + 1) == 2 * Pow2(s.splitFactor + 1);
    assert c[1].step + 2 == 2 * (s.step + 2);
    DoubledBound(s.step + 2, Pow2(s.splitFactor + 1), y.step, Pow2(y.splitFactor + 1));
  }

  /** The chords with the j-th replaced by its two halves. */
  function SplitShorts(spline: IntSpline, shorts: seq<IntShort>, j: nat): (r: seq<IntShort>)
    requires j < |shorts| && CanSplit(spline, shorts[j])
    ensures |r| == |shorts| + 1
    ensures r[..j] == shorts[..j] && r[j + 2..] == shorts[j + 1..]
    ensures r[j..j + 2] == Children(spline, shorts[j])
  {
    var r := shorts[..j] + Children(spline, shorts[j]) + shorts[j + 1..];
    assert r[j + 2..] == shorts[j + 1..];
    assert r[j..j + 2] == Children(spline, shorts[j]);
    r
  }

  /** Replacing one chord of a chain by its two halves gives a chain again. */
  lemma ChainSplit(spline: IntSpline, shorts: seq<IntShort>, j: nat)
    requires Chain(spline, shorts) && j < |shorts|
    requires CanSplit(spline, shorts[j])
    ensures Chain(spline, SplitShorts(spline, shorts, j))
  {
    var s := shorts[j];
    var c := Children(spline, s);
    var r := shorts[..j] + c + shorts[j + 1..];
    SpliceOnSpline(spline, shorts, j);
    SpliceAdjacent(spline, shorts, j);
    SpliceEnds(spline, shorts, j);
  }

  lemma SpliceEnds(spline: IntSpline, shorts: seq<IntShort>, j: nat)
    requires j < |shorts| && CanSplit(spline, shorts[j])
    requires shorts[0].step == 0
    requires shorts[|shorts| - 1].step + 2 == Pow2(shorts[|shorts| - 1].splitFactor + 1)
    ensures var r := shorts[..j] + Children(spline, shorts[j]) + shorts[j + 1..];
            && r[0].a == shorts[0].a && r[0].step == 0
            && r[|r| - 1].b == shorts[|shorts| - 1].b
            && r[|r| - 1].step + 2 == Pow2(r[|r| - 1].splitFactor + 1)
  {
    var c := Children(spline, shorts[j]);
    SpliceFirst(shorts, c, j);
    SpliceLast(shorts, c, j);
  }

  /** The first chord after a splice: the first half when the first chord was split. */
  lemma SpliceFirst(shorts: seq<IntShort>, c: seq<IntShort>, j: nat)
    requires j < |shorts| && |c| == 2 && shorts[0].step == 0
    requires c[0].a == shorts[j].a && c[0].step == 2 * shorts[j].step
    ensures var r := shorts[..j] + c + shorts[j + 1..];
            r[0].a == shorts[0].a && r[0].step == 0
  {
    var r := shorts[..j] + c + shorts[j + 1..];
    assert r[0] == (if j == 0 then c[0] else shorts[0]);
  }

  /** The last chord after a splice: the second half when the last chord was split. */
  lemma SpliceLast(shorts: seq<IntShort>, c: seq<IntShort>, j: nat)
    requires j < |shorts| && |c| == 2
    requires shorts[|shorts| - 1].step + 2 == Pow2(shorts[|shorts| - 1].splitFactor + 1)
    requires c[1].b == shorts[j].b && c[1].step == 2 * shorts[j].step + 2
    requires c[1].splitFactor == shorts[j].splitFactor + 1
    ensures var r := shorts[..j] + c + shorts[j + 1..];
            r[|r| - 1].b == shorts[|shorts| - 1].b
            && r[|r| - 1].step + 2 == Pow2(r[|r| - 1].splitFactor + 1)
  {
    var r := shorts[..j] + c + shorts[j + 1..];
    if j + 1 == |shorts| {
      assert Pow2(c[1].splitFactor + 1) == 2 * Pow2(shorts[j].splitFactor + 1);
    }
    assert r[|r| - 1] == (if j + 1 == |shorts| then c[1] else shorts[|shorts| - 1]);
  }

  lemma SpliceOnSpline(spline: IntSpline, shorts: seq<IntShort>, j: nat)
    requires j < |shorts| && CanSplit(spline, shorts[j])
    requires forall i {:trigger OnSpline(spline, shorts[i])} :: 0 <= i < |shorts| ==> OnSpline(spline, shorts[i])
    ensures var r := shorts[..j] + Children(spline, shorts[j]) + shorts[j + 1..];
            forall i {:trigger OnSpline(spline, r[i])} :: 0 <= i < |r| ==> OnSpline(spline, r[i])
  {
    var c := Children(spline, shorts[j]);
    ChildrenOnSpline(spline, shorts[j]);
    var r := shorts[..j] + c + shorts[j + 1..];
    forall i | 0 <= i < |r|
      ensures OnSpline(spline, r[i])
    {
      if i < j {
        assert r[i] == shorts[i];
      } else if i > j + 1 {
        assert r[i] == shorts[i - 1];
      } else {
        assert r[i] == c[i - j];
      }
    }
  }

  lemma SpliceAdjacent(spline: IntSpline, shorts: seq<IntShort>, j: nat)
    requires j < |shorts| && CanSplit(spline, shorts[j])
    requires forall i {:trigger Adjacent(shorts[i], shorts[i + 1])} :: 0 <= i < |shorts| - 1 ==> Adjacent(shorts[i], shorts[i + 1])
    ensures var r := shorts[..j] + Children(spline, shorts[j]) + shorts[j + 1..];
            forall i {:trigger Adjacent(r[i], r[i + 1])} :: 0 <= i < |r| - 1 ==> Adjacent(r[i], r[i + 1])
  {
    var s := shorts[j];
    var c := Children(spline, s);
    ChildrenAdjacent(spline, s);
    var r := shorts[..j] + c + shorts[j + 1..];
    if j > 0 {
      var x := j - 1;
      assert Adjacent(shorts[x], shorts[x + 1]);
      AdjacentFirstChild(spline, shorts[x], s);
    }
    if j + 1 < |shorts| {
      assert Adjacent(shorts[j], shorts[j + 1]);
      AdjacentSecondChild(spline, s, shorts[j + 1]);
    }
    forall i | 0 <= i < |r| - 1
      ensures Adjacent(r[i], r[i + 1])
    {
      if i + 1 < j {
        assert r[i] == shorts[i] && r[i + 1] == shorts[i + 1];
        assert Adjacent(shorts[i], shorts[i + 1]);
      } else if i + 1 == j {
        assert r[i] == shorts[j - 1] && r[i + 1] == c[0];
      } else if i == j {
        assert r[i] == c[0] && r[i + 1] == c[1];
      } else if i == j + 1 {
        assert r[i] == c[1] && r[i + 1] == shorts[j + 1];
      } else {
        var x := i - 1;
        assert r[i] == shorts[x] && r[i + 1] == shorts[x + 1];
        assert Adjacent(shorts[x], shorts[x + 1]);
      }
    }
  }

  /** The vertices of a chain: every chord's start, then the last chord's end. */
  function Vertices(shorts: seq<IntShort>): (r: seq<IntPoint>)
    requires |shorts| > 0
    ensures |r| == |shorts| + 1
    ensures forall i :: 0 <= i < |shorts| ==> r[i] == shorts[i].a
    ensures r[|shorts|] == shorts[|shorts| - 1].b
  {
    seq(|shorts|, i requires 0 <= i < |shorts| => shorts[i].a) + [shorts[|shorts| - 1].b]
  }

  /** The loop of `approximate_points`: every chord's start, then the last chord's end. */
  method CollectVertices(shorts: seq<IntShort>) returns (points: seq<IntPoint>)
    requires |shorts| > 0
    ensures points == Vertices(shorts)
  {
    points := [];
    var i := 0;
    while i < |shorts|
      invariant 0 <= i <= |shorts|
      invariant points == seq(i, j requires 0 <= j < i => shorts[j].a)
    {
      points := points + [shorts[i].a];
      i := i + 1;
    }
    points := points + [shorts[|shorts| - 1].b];
  }

  /** A chain's vertices run from the spline's start to its end, each on the spline. */
  lemma ChainVertices(spline: IntSpline, shorts: seq<IntShort>)
    requires Chain(spline, shorts)
    ensures Vertices(shorts)[0] == spline.Start()
    ensures Vertices(shorts)[|shorts|] == spline.End()
    ensures forall i :: 0 <= i < |shorts| ==>
              Vertices(shorts)[i] == spline.SplitAt(shorts[i].step, shorts[i].splitFactor + 1)
              && Vertices(shorts)[i + 1] == spline.SplitAt(shorts[i].step + 2, shorts[i].splitFactor + 1)
  {
    var v := Vertices(shorts);
    forall i | 0 <= i < |shorts|
      ensures v[i] == spline.SplitAt(shorts[i].step, shorts[i].splitFactor + 1)
      ensures v[i + 1] == spline.SplitAt(shorts[i].step + 2, shorts[i].splitFactor + 1)
    {
      ChainLink(spline, shorts, i);
    }
  }

  /** Chord i of a chain lies on the spline and ends where chord i + 1 starts. */
  lemma ChainLink(spline: IntSpline, shorts: seq<IntShort>, i: nat)
    requires Chain(spline, shorts) && i < |shorts|
    ensures shorts[i].a == spline.SplitAt(shorts[i].step, shorts[i].splitFactor + 1)
    ensures shorts[i].b == spline.SplitAt(shorts[i].step + 2, shorts[i].splitFactor + 1)
    ensures i + 1 < |shorts| ==> shorts[i].b == shorts[i + 1].a
  {
    assert OnSpline(spline, shorts[i]);
    if i + 1 < |shorts| {
      assert Adjacent(shorts[i], shorts[i + 1]);
    }
  }

  /** The chain's vertices: `approximate_points` of a chain. */
  ghost predicate IsVertexChain(spline: IntSpline, points: seq<IntPoint>)
  {
    exists shorts :: Chain(spline, shorts) && points == Vertices(shorts)
  }

  /** The spline of the `is_small` finding: leaving straight up, arriving from below. */
  function PanicSpline(): IntSpline
  {
    Quad(QuadSplines.IntQuadSpline(IntPoint(0, 0), IntPoint(0, 100), IntPoint(100, -100), IntPoint(100, 0)))
  }

  /**
    On this spline the first chord is horizontal while the start direction
    is vertical, so `split_test` fires for any positive min_cos; its first
    half (0,0)-(50,0) is horizontal too, so `is_small` takes `ilog2` of a
    zero y coordinate and the source panics, although the half is a
    perfectly good chord of length 50.
   */
  lemma IsSmallPanicExample(spline: IntSpline)
    requires spline == PanicSpline()
    ensures Midpoint(spline, PanicChord()).Sub(PanicChord().a) == IntPoint(50, 0)
    ensures PanicChord().b.Sub(Midpoint(spline, PanicChord())) == IntPoint(50, 0)
  {
    PanicFirstHalf(spline);
  }

  /** The solver starts on this spline, and `split_test` fires on its first chord for any min_cos above 0. */
  lemma PanicStart(spline: IntSpline)
    requires spline == PanicSpline()
    ensures !SetupPanics(spline, 1) && Initial(spline) == PanicChord()
    ensures PanicChord().dir.DotProduct(spline.StartDir()) == 0
  {
    PanicDirections(spline);
  }

  /** The solver's first chord on `PanicSpline`, from (0,0) to (100,0). */
  function PanicChord(): IntShort
  {
    IntShort(0, 0, IntPoint(1024, 0), IntPoint(0, 0), IntPoint(100, 0))
  }

  /** The start direction is straight up and the first chord points right. */
  lemma PanicDirections(spline: IntSpline)
    requires spline == PanicSpline()
    ensures !SetupPanics(spline, 1)
    ensures spline.StartDir() == IntPoint(0, 1024)
    ensures Initial(spline) == PanicChord()
  {
    PanicChordLeg(spline);
    PanicSetup(spline);
  }

  lemma PanicSetup(spline: IntSpline)
    requires spline.Quad?
    requires spline.quad.a == IntPoint(0, 0) && spline.quad.am == IntPoint(0, 100)
    requires spline.quad.bm == IntPoint(100, -100) && spline.quad.b == IntPoint(100, 0)
    ensures spline.HasDirections()
    ensures spline.StartDir() == IntPoint(0, 1024)
    ensures Initial(spline) == PanicChord()
  {
    PanicChordLeg(spline);
    PanicLegs(spline.quad);
  }

  lemma PanicChordLeg(spline: IntSpline)
    requires spline.Quad?
    requires spline.quad.a == IntPoint(0, 0) && spline.quad.am == IntPoint(0, 100)
    requires spline.quad.bm == IntPoint(100, -100) && spline.quad.b == IntPoint(100, 0)
    ensures spline.HasDirections()
    ensures spline.End().Sub(spline.Start()) == IntPoint(100, 0)
  {
  }

  lemma PanicLegs(q: QuadSplines.IntQuadSpline)
    requires q.a == IntPoint(0, 0) && q.am == IntPoint(0, 100) && q.bm == IntPoint(100, -100) && q.b == IntPoint(100, 0)
    ensures q.am.Sub(q.a) == IntPoint(0, 100) && q.b.Sub(q.bm) == IntPoint(0, 100)
    ensures q.End().Sub(q.Start()) == IntPoint(100, 0)
    ensures q.End().Sub(q.Start()).Normalized10Bit() == IntPoint(1024, 0)
    ensures q.StartDir() == IntPoint(0, 1024)
  {
    AxisNormalizedX(q.End().Sub(q.Start()));
    AxisNormalizedY(q.am.Sub(q.a));
  }

  /** The first split point is (50, 0), so both halves lie on the x axis. */
  lemma PanicFirstHalf(spline: IntSpline)
    requires spline == PanicSpline()
    ensures Midpoint(spline, PanicChord()) == IntPoint(50, 0)
  {
    PanicMidpoint(spline);
  }

  lemma AxisNormalized()
    ensures IntPoint(100, 0).Normalized10Bit() == IntPoint(1024, 0)
    ensures IntPoint(0, 100).Normalized10Bit() == IntPoint(0, 1024)
  {
    AxisNormalizedX(IntPoint(100, 0));
    AxisNormalizedY(IntPoint(0, 100));
  }

  lemma AxisNormalizedX(p: IntPoint)
    requires p.x == 100 && p.y == 0
    ensures p.Normalized10Bit() == IntPoint(1024, 0)
  {
    NormalizedShort(p, 100);
    assert TruncDiv(p.x * 1024, 100) == 1024 && TruncDiv(p.y * 1024, 100) == 0;
  }

  lemma AxisNormalizedY(p: IntPoint)
    requires p.x == 0 && p.y == 100
    ensures p.Normalized10Bit() == IntPoint(0, 1024)
  {
    NormalizedShort(p, 100);
    assert TruncDiv(p.x * 1024, 100) == 0 && TruncDiv(p.y * 1024, 100) == 1024;
  }

  /** Both coordinate sums are even, so the line at parameter 1/2 is the exact midpoint. */
  predicate IsHalfway(a: IntPoint, b: IntPoint, m: IntPoint)
  {
    2 * m.x == a.x + b.x && 2 * m.y == a.y + b.y
  }

  lemma HalfLine(a: IntPoint, b: IntPoint, m: IntPoint)
    requires IsHalfway(a, b, m)
    ensures Lines.New(a, b).SplitAt(1, 1) == m
  {
    Lines.Pow2Small();
    Lines.SplitOneDimensionExact(a.x, b.x, 1, 1, m.x - a.x);
    Lines.SplitOneDimensionExact(a.y, b.y, 1, 1, m.y - a.y);
  }

  /** de Casteljau at parameter 1/2 when every level halves exactly. */
  lemma QuadHalf(q: QuadSplines.IntQuadSpline, p0: IntPoint, p1: IntPoint, p2: IntPoint, p10: IntPoint, p11: IntPoint, m: IntPoint)
    requires IsHalfway(q.a, q.am, p0) && IsHalfway(q.am, q.bm, p1) && IsHalfway(q.bm, q.b, p2)
    requires IsHalfway(p0, p1, p10) && IsHalfway(p1, p2, p11) && IsHalfway(p10, p11, m)
    ensures q.SplitAt(1, 1) == m
  {
    HalfLine(q.a, q.am, p0);
    HalfLine(q.am, q.bm, p1);
    HalfLine(q.bm, q.b, p2);
    HalfLine(p0, p1, p10);
    HalfLine(p1, p2, p11);
    HalfLine(p10, p11, m);
  }

  lemma PanicMidpoint(spline: IntSpline)
    requires spline == PanicSpline()
    ensures spline.SplitAt(1, 1) == IntPoint(50, 0)
  {
    QuadHalf(spline.quad, IntPoint(0, 50), IntPoint(50, 0), IntPoint(100, -50), IntPoint(25, 25), IntPoint(75, -25), IntPoint(50, 0));
  }

  // ------------------------------------------------------------------ solver

  /** A chord at least 2^power long, which `split` tests again. */
  predicate LongEnough(s: IntShort, power: nat)
  {
    s.b.Sub(s.a).SqrLength() >= Pow2(2 * power)
  }

  /** The indices queued after a split: each half that is long enough, the first before the second. */
  function Pending(halves: seq<IntShort>, power: nat, i0: nat, i1: nat): (r: seq<nat>)
    requires |halves| == 2
    ensures |r| <= 2 && forall x :: x in r ==> x == i0 || x == i1
  {
    (if LongEnough(halves[0], power) then [i0] else []) + (if LongEnough(halves[1], power) then [i1] else [])
  }

  /** A half's index is queued exactly when `is_small` says the half is not small. */
  lemma PendingQueues(halves: seq<IntShort>, power: nat, i0: nat, i1: nat)
    requires |halves| == 2 && i0 != i1
    ensures i0 in Pending(halves, power, i0, i1) <==> !IsSmall(halves[0].b.Sub(halves[0].a), power)
    ensures i1 in Pending(halves, power, i0, i1) <==> !IsSmall(halves[1].b.Sub(halves[1].a), power)
    ensures |Pending(halves, power, i0, i1)| == 2 ==> Pending(halves, power, i0, i1) == [i0, i1]
  {
    var small0 := IsSmall(halves[0].b.Sub(halves[0].a), power);
    var small1 := IsSmall(halves[1].b.Sub(halves[1].a), power);
    assert small0 <==> !LongEnough(halves[0], power);
    assert small1 <==> !LongEnough(halves[1], power);
    var first: seq<nat> := if small0 then [] else [i0];
    var second: seq<nat> := if small1 then [] else [i1];
    assert Pending(halves, power, i0, i1) == first + second;
    assert i0 !in second && i1 !in first;
    assert i0 in first + second <==> i0 in first;
    assert i1 in first + second <==> i1 in second;
  }

  /** Queuing the indices of a split keeps every queued index inside the grown arena. */
  lemma PendingInRange(buffer: seq<nat>, halves: seq<IntShort>, power: nat, i0: nat, n: nat)
    requires |halves| == 2 && i0 < n
    requires forall i :: 0 <= i < |buffer| ==> buffer[i] < n
    ensures forall i :: 0 <= i < |buffer + Pending(halves, power, i0, n)| ==> (buffer + Pending(halves, power, i0, n))[i] < n + 1
  {
  }

  /** The pushes onto the buffer at the end of `split`, decided by `is_small`. */
  method Enqueue(buffer: seq<nat>, halves: seq<IntShort>, power: nat, i0: nat, i1: nat) returns (result: seq<nat>)
    requires |halves| == 2
    ensures result == buffer + Pending(halves, power, i0, i1)
  {
    result := buffer;
    if !IsSmall(halves[0].b.Sub(halves[0].a), power) {
      result := result + [i0];
    }
    if !IsSmall(halves[1].b.Sub(halves[1].a), power) {
      result := result + [i1];
    }
  }

  /**
    `split_test` on an arena: the chord at index fails when its direction is
    too far from the previous chord's (the start direction for the first) or
    from the next chord's (the end direction for the last).
   */
  function TestAt(nodes: seq<Node<IntShort>>, index: nat, stDir: IntPoint, edDir: IntPoint, minCos: int): bool
    requires InArena(nodes) && index < |nodes|
  {
    var node := nodes[index];
    var prevDir := if node.prev != EMPTY_REF then nodes[node.prev].item.dir else stDir;
    if node.item.dir.DotProduct(prevDir) < minCos then
      true
    else
      var nextDir := if node.next != EMPTY_REF then nodes[node.next].item.dir else edDir;
      node.item.dir.DotProduct(nextDir) < minCos
  }

  /** The queued indices whose chords fail `split_test`, in queue order. */
  function Select(nodes: seq<Node<IntShort>>, buffer: seq<nat>, stDir: IntPoint, edDir: IntPoint, minCos: int): (r: seq<nat>)
    requires InArena(nodes)
    requires forall i :: 0 <= i < |buffer| ==> buffer[i] < |nodes|
    ensures |r| <= |buffer| && forall i :: 0 <= i < |r| ==> r[i] < |nodes|
    decreases |buffer|
  {
    if buffer == [] then []
    else
      var last := buffer[|buffer| - 1];
      var rest := Select(nodes, buffer[..|buffer| - 1], stDir, edDir, minCos);
      if TestAt(nodes, last, stDir, edDir, minCos) then rest + [last] else rest
  }

  /** Select keeps exactly the queued indices that fail `split_test`. */
  lemma {:induction false} SelectFailing(nodes: seq<Node<IntShort>>, buffer: seq<nat>, stDir: IntPoint, edDir: IntPoint, minCos: int)
    requires InArena(nodes)
    requires forall i :: 0 <= i < |buffer| ==> buffer[i] < |nodes|
    ensures var r := Select(nodes, buffer, stDir, edDir, minCos);
            && (forall i :: 0 <= i < |r| ==> r[i] in buffer && TestAt(nodes, r[i], stDir, edDir, minCos))
            && (forall i :: 0 <= i < |buffer| && TestAt(nodes, buffer[i], stDir, edDir, minCos) ==> buffer[i] in r)
    decreases |buffer|
  {
    if buffer != [] {
      var front := buffer[..|buffer| - 1];
      SelectFailing(nodes, front, stDir, edDir, minCos);
      assert forall i :: 0 <= i < |front| ==> front[i] == buffer[i];
      assert buffer == front + [buffer[|buffer| - 1]];
    }
  }

  /**
    One split of a `process` round: the node at t is replaced by the first
    half of its chord and the second half is appended; the halves that are
    not short join the queue. Panic when the chord cannot be halved.
   */
  function SplitOne(spline: IntSpline, power: nat, arena: seq<Node<IntShort>>, queue: seq<nat>, t: nat): (r: Outcome<(seq<Node<IntShort>>, seq<nat>)>)
    requires InArena(arena) && t < |arena|
    requires forall i :: 0 <= i < |queue| ==> queue[i] < |arena|
    ensures r.Panic? <==> !CanSplit(spline, arena[t].item)
    ensures !r.OutOfFuel?
    ensures r.Done? ==> |r.value.0| == |arena| + 1 && |queue| <= |r.value.1| <= |queue| + 2 && r.value.1[..|queue|] == queue
    ensures r.Done? ==> InArena(r.value.0) && forall i :: 0 <= i < |r.value.1| ==> r.value.1[i] < |r.value.0|
  {
    if CanSplit(spline, arena[t].item) then
      var c := Children(spline, arena[t].item);
      SplitInArena(arena, t, c[0], c[1]);
      var pending := Pending(c, power, t, |arena|);
      assert forall i :: 0 <= i < |pending| ==> pending[i] in pending;
      Done((SplitNodes(arena, t, c[0], c[1]), queue + pending))
    else
      Panic
  }

  /**
    The splitting half of a `process` round on an arena: split the nodes at
    ts in turn, collecting the queued halves; Panic at the first chord that
    cannot be halved.
   */
  function SplitRound(spline: IntSpline, power: nat, nodes: seq<Node<IntShort>>, ts: seq<nat>): (r: Outcome<(seq<Node<IntShort>>, seq<nat>)>)
    requires InArena(nodes)
    requires forall i :: 0 <= i < |ts| ==> ts[i] < |nodes|
    ensures !r.OutOfFuel?
    ensures r.Done? ==> |r.value.0| == |nodes| + |ts| && |r.value.1| <= 2 * |ts|
    ensures r.Done? ==> InArena(r.value.0) && forall i :: 0 <= i < |r.value.1| ==> r.value.1[i] < |r.value.0|
    decreases |ts|
  {
    if ts == [] then Done((nodes, []))
    else
      var prefix := SplitRound(spline, power, nodes, ts[..|ts| - 1]);
      if prefix.Done? then SplitOne(spline, power, prefix.value.0, prefix.value.1, ts[|ts| - 1]) else Panic
  }

  /** A round over the first u + 1 indices is the round over the first u followed by one split. */
  lemma SplitRoundLast(spline: IntSpline, power: nat, nodes: seq<Node<IntShort>>, ts: seq<nat>, u: nat)
    requires InArena(nodes)
    requires forall i :: 0 <= i < |ts| ==> ts[i] < |nodes|
    requires u < |ts|
    ensures var prefix := SplitRound(spline, power, nodes, ts[..u]);
            SplitRound(spline, power, nodes, ts[..u + 1]) ==
              if prefix.Done? then SplitOne(spline, power, prefix.value.0, prefix.value.1, ts[u]) else Panic
  {
    assert ts[..u + 1][..u] == ts[..u];
  }

  /** A round that panics within its first k splits panics. */
  lemma {:induction false} SplitRoundPanics(spline: IntSpline, power: nat, nodes: seq<Node<IntShort>>, ts: seq<nat>, k: nat)
    requires InArena(nodes)
    requires forall i :: 0 <= i < |ts| ==> ts[i] < |nodes|
    requires k <= |ts| && SplitRound(spline, power, nodes, ts[..k]).Panic?
    ensures SplitRound(spline, power, nodes, ts).Panic?
    decreases |ts|
  {
    if k < |ts| {
      assert ts[..|ts| - 1][..k] == ts[..k];
      SplitRoundPanics(spline, power, nodes, ts[..|ts| - 1], k);
    } else {
      assert ts[..k] == ts;
    }
  }

  /** What a solver keeps fixed while it runs: the spline, the length floor's power, the end directions, the cosine threshold. */
  datatype SolverParams = SolverParams(spline: IntSpline, minLenPower: nat, stDir: IntPoint, edDir: IntPoint, minCos: int)

  /** The state between two `process` rounds: the arena, the queue of indices to test, and the splits left in the budget. */
  datatype Stage = Stage(nodes: seq<Node<IntShort>>, queue: seq<nat>, fuel: nat)

  /** The links and the queued indices stay inside the arena. */
  predicate InRange(st: Stage)
  {
    InArena(st.nodes) && forall i :: 0 <= i < |st.queue| ==> st.queue[i] < |st.nodes|
  }

  /**
    One `process` round: test the queued chords, and unless the failing ones
    are more than the budget has left, split them, queuing the halves that
    are not short. Panic when a chord cannot be halved.
   */
  function Step(c: SolverParams, st: Stage): (r: Outcome<Stage>)
    requires InRange(st)
    ensures r.OutOfFuel? <==> st.fuel < |Select(st.nodes, st.queue, c.stDir, c.edDir, c.minCos)|
    ensures r.Done? ==> InRange(r.value) && |r.value.nodes| + r.value.fuel == |st.nodes| + st.fuel
    ensures r.Done? && r.value.fuel == st.fuel ==> r.value.queue == [] && r.value.nodes == st.nodes
  {
    var toSplit := Select(st.nodes, st.queue, c.stDir, c.edDir, c.minCos);
    if st.fuel < |toSplit| then OutOfFuel
    else
      var round := SplitRound(c.spline, c.minLenPower, st.nodes, toSplit);
      if round.Done? then Done(Stage(round.value.0, round.value.1, st.fuel - |toSplit|)) else Panic
  }

  /** One `process` round as a function value, defined where the links and the queue stay inside the arena. */
  function RoundOf(c: SolverParams): Stage --> Outcome<Stage>
  {
    (st: Stage) requires InRange(st) => Step(c, st)
  }

  /** s records a run of f: the step from each entry but the last gives the next. */
  ghost predicate Record<S>(f: S --> Outcome<S>, s: seq<S>)
  {
    forall j :: 0 <= j < |s| - 1 ==> f.requires(s[j]) && f(s[j]) == Done(s[j + 1])
  }

  /** stages records the rounds of a `process` run, one stage after each; a round starts only while the queue is not empty. */
  ghost predicate Rounds(c: SolverParams, stages: seq<Stage>)
  {
    Record(RoundOf(c), stages) && forall k :: 0 <= k < |stages| - 1 ==> stages[k].queue != []
  }

  /**
    How a run ends at its last stage: Done with the walk from node 0 when
    the queue is empty; otherwise the round from there panics, or selects
    more chords than the budget has left.
   */
  predicate Finishes(c: SolverParams, last: Stage, r: Outcome<seq<IntShort>>)
  {
    InRange(last) &&
    match r
    case Done(shorts) => last.queue == [] && shorts == WalkItems(last.nodes, 0, |last.nodes|)
    case Panic => last.queue != [] && Step(c, last).Panic?
    case OutOfFuel => last.queue != [] && Step(c, last).OutOfFuel?
  }

  /** Two records of one step function from the same first entry agree as far as both go. */
  lemma {:induction false} RecordsAgree<S>(f: S --> Outcome<S>, s1: seq<S>, s2: seq<S>, k: nat)
    requires Record(f, s1) && Record(f, s2) && 1 <= |s1| && 1 <= |s2| && s1[0] == s2[0]
    requires k < |s1| && k < |s2|
    ensures s1[k] == s2[k]
  {
    if k > 0 {
      RecordsAgree(f, s1, s2, k - 1);
      assert f(s1[k - 1]) == Done(s1[k]) && f(s2[k - 1]) == Done(s2[k]);
    }
  }

  /** A record grows by the step from its last entry. */
  lemma RecordExtend<S>(f: S --> Outcome<S>, s: seq<S>, next: S)
    requires 1 <= |s| && Record(f, s)
    requires f.requires(s[|s| - 1]) && f(s[|s| - 1]) == Done(next)
    ensures Record(f, s + [next])
  {
    var t := s + [next];
    forall j | 0 <= j < |t| - 1
      ensures f.requires(t[j]) && f(t[j]) == Done(t[j + 1])
    {
      assert t[j] == s[j];
      if j + 1 < |s| {
        assert t[j + 1] == s[j + 1];
      }
    }
  }

  /** Two records of `process` rounds from the same first stage that both finish are the same run with the same result. */
  lemma RunsAgree(c: SolverParams, s1: seq<Stage>, r1: Outcome<seq<IntShort>>, s2: seq<Stage>, r2: Outcome<seq<IntShort>>)
    requires Rounds(c, s1) && Rounds(c, s2) && 1 <= |s1| && 1 <= |s2| && s1[0] == s2[0]
    requires Finishes(c, s1[|s1| - 1], r1) && Finishes(c, s2[|s2| - 1], r2)
    ensures s1 == s2 && r1 == r2
  {
    RoundsCannotFinish(c, s1, r1, s2);
    RoundsCannotFinish(c, s2, r2, s1);
    forall k | 0 <= k < |s1|
      ensures s1[k] == s2[k]
    {
      RecordsAgree(RoundOf(c), s1, s2, k);
    }
  }

  /** A run that finishes is not the start of a longer record. */
  lemma RoundsCannotFinish(c: SolverParams, s1: seq<Stage>, r1: Outcome<seq<IntShort>>, s2: seq<Stage>)
    requires Rounds(c, s1) && Rounds(c, s2) && 1 <= |s1| && 1 <= |s2| && s1[0] == s2[0]
    requires Finishes(c, s1[|s1| - 1], r1)
    ensures |s2| <= |s1|
  {
    if |s1| < |s2| {
      var k := |s1| - 1;
      RecordAt(RoundOf(c), s2, k);
      RecordsAgree(RoundOf(c), s1, s2, k);
      assert false;
    }
  }

  /** One entry of a record. */
  lemma RecordAt<S>(f: S --> Outcome<S>, s: seq<S>, j: nat)
    requires Record(f, s) && j + 1 < |s|
    ensures f.requires(s[j]) && f(s[j]) == Done(s[j + 1])
  {
  }

  /** Recording one more round extends the record. */
  lemma RoundsExtend(c: SolverParams, stages: seq<Stage>, next: Stage)
    requires 1 <= |stages| && Rounds(c, stages)
    requires InRange(stages[|stages| - 1]) && stages[|stages| - 1].queue != []
    requires Step(c, stages[|stages| - 1]) == Done(next)
    ensures Rounds(c, stages + [next])
  {
    RecordExtend(RoundOf(c), stages, next);
    var s := stages + [next];
    forall k | 0 <= k < |s| - 1
      ensures s[k].queue != []
    {
      assert s[k] == stages[k];
    }
  }

  /** The list `Solver::approximate` starts from: the single chord over [0, 1]. */
  method InitialList(spline: IntSpline) returns (list: LinkList<IntShort>)
    requires spline.End().Sub(spline.Start()) != Zero()
    ensures fresh(list)
    ensures list.Valid() && InArena(list.nodes) && Chain(spline, list.Contents())
    ensures list.Contents() == [Initial(spline)]
    ensures list.nodes == FirstStage(spline, 0).nodes
  {
    var first := Initial(spline);
    list := new LinkList([first]);
    assert list.nodes[0] == Node(EMPTY_REF, EMPTY_REF, first);
    assert list.nodes == [Node(EMPTY_REF, EMPTY_REF, first)];
  }

  class Solver {
    const minCos: int
    const stDir: IntPoint
    const edDir: IntPoint
    const minLenPower: nat
    const spline: IntSpline
    const segments: LinkList<IntShort>

    ghost predicate Valid()
      reads this, segments
    {
      segments.Valid() && InArena(segments.nodes) && Chain(spline, segments.Contents())
    }

    /**
      The set-up of `Solver::approximate`: the cosine threshold scaled by
      `<< 10` on a u32 (so modulo 2^32), the length floor as a power of two,
      the end directions, and a list holding the single chord over [0, 1].
     */
    constructor (spline: IntSpline, minCos: nat, minLen: nat)
      requires minLen >= 1
      requires spline.HasDirections()
      requires spline.End().Sub(spline.Start()) != Zero()
      ensures this.spline == spline
      ensures this.minCos == (minCos * 1024) % 0x1_0000_0000
      ensures minLenPower == Ilog2(minLen)
      ensures stDir == spline.StartDir() && edDir == spline.EndDir()
      ensures fresh(segments)
      ensures Valid() && segments.Contents() == [Initial(spline)]
      ensures segments.nodes == FirstStage(spline, 0).nodes
      ensures Params() == ParamsOf(spline, minCos, minLen)
    {
      this.minLenPower := Ilog2(minLen);
      this.stDir := spline.StartDir();
      this.edDir := spline.EndDir();
      this.spline := spline;
      this.minCos := (minCos * 1024) % 0x1_0000_0000;
      var list := InitialList(spline);
      this.segments := list;
    }

    /** The fixed part of the solver. */
    function Params(): SolverParams
    {
      SolverParams(spline, minLenPower, stDir, edDir, minCos)
    }

    /**
      `split_test`: compare the chord's direction with the previous chord's
      (the start direction for the first) and with the next chord's (the
      end direction for the last), in list order.
     */
    function SplitTest(index: nat): (r: bool)
      reads this, segments
      requires segments.Valid() && index < |segments.nodes|
      ensures var c := segments.Contents();
              var p := segments.pos[index];
              var prevDir := if p == 0 then stDir else c[p - 1].dir;
              var nextDir := if p + 1 == |c| then edDir else c[p + 1].dir;
              r <==> c[p].dir.DotProduct(prevDir) < minCos || c[p].dir.DotProduct(nextDir) < minCos
    {
      Neighbours(segments.nodes, segments.order, segments.pos, index);
      LinkedInArena(segments.nodes, segments.order, segments.pos);
      TestAt(segments.nodes, index, stDir, edDir, minCos)
    }

    /**
      `split`: halve the chord at index in place (the first half stays at
      index, the second is appended) and queue each half that is not yet
      short. Normalising a zero-length half panics, before anything changes.
     */
    method Split(index: nat, buffer: seq<nat>) returns (r: Outcome<seq<nat>>)
      requires Valid() && index < |segments.nodes| < EMPTY_REF
      modifies segments
      ensures !r.OutOfFuel?
      ensures r.Panic? <==> !CanSplit(spline, old(segments.nodes[index].item))
      ensures r.Panic? ==> unchanged(segments)
      ensures r.Done? ==> Valid()
      ensures r.Done? ==> |segments.nodes| == old(|segments.nodes|) + 1
      ensures r.Done? ==> segments.Contents() == SplitShorts(spline, old(segments.Contents()), old(segments.pos[index]))
      ensures r.Done? ==> r.value == buffer + Pending(Children(spline, old(segments.nodes[index].item)), minLenPower, index, old(|segments.nodes|))
      ensures r.Done? ==> var c := Children(spline, old(segments.nodes[index].item));
                          segments.nodes == SplitNodes(old(segments.nodes), index, c[0], c[1])
    {
      Neighbours(segments.nodes, segments.order, segments.pos, index);
      var short := segments.nodes[index].item;
      ghost var before := segments.Contents();
      ghost var p := segments.pos[index];
      assert short == before[p];
      if !CanSplit(spline, short) {
        return Panic;
      }
      var result := SplitHalves(index, buffer);
      assert segments.Contents() == SplitShorts(spline, before, p);
      return Done(result);
    }

    /** `split` past the normalisation: replace the chord by its halves and queue the long ones. */
    method SplitHalves(index: nat, buffer: seq<nat>) returns (result: seq<nat>)
      requires Valid() && index < |segments.nodes| < EMPTY_REF
      requires CanSplit(spline, segments.Contents()[segments.pos[index]])
      modifies segments
      ensures Valid() && |segments.nodes| == old(|segments.nodes|) + 1
      ensures segments.Contents() == SplitShorts(spline, old(segments.Contents()), old(segments.pos[index]))
      ensures result == buffer + Pending(Children(spline, old(segments.Contents())[old(segments.pos[index])]), minLenPower, index, old(|segments.nodes|))
      ensures var c := Children(spline, old(segments.Contents())[old(segments.pos[index])]);
              segments.nodes == SplitNodes(old(segments.nodes), index, c[0], c[1])
    {
      Neighbours(segments.nodes, segments.order, segments.pos, index);
      var short := segments.nodes[index].item;
      assert short == segments.Contents()[segments.pos[index]];
      var halves := Children(spline, short);
      var i0, i1 := Replace(index, halves);
      result := Enqueue(buffer, halves, minLenPower, i0, i1);
    }

    /** The in-place half of `split`: the first half overwrites the chord, the second is appended. */
    method Replace(index: nat, halves: seq<IntShort>) returns (i0: nat, i1: nat)
      requires Valid() && index < |segments.nodes| < EMPTY_REF
      requires CanSplit(spline, segments.Contents()[segments.pos[index]])
      requires halves == Children(spline, segments.Contents()[segments.pos[index]])
      modifies segments
      ensures i0 == index && i1 == old(|segments.nodes|)
      ensures Valid() && |segments.nodes| == old(|segments.nodes|) + 1
      ensures segments.Contents() == SplitShorts(spline, old(segments.Contents()), old(segments.pos[index]))
      ensures segments.nodes == SplitNodes(old(segments.nodes), index, halves[0], halves[1])
    {
      ghost var p := segments.pos[index];
      ghost var before := segments.Contents();
      ChainSplit(spline, before, p);
      SplitInArena(segments.nodes, index, halves[0], halves[1]);
      i0, i1 := segments.SplitAt(index, halves[0], halves[1]);
      assert segments.Contents() == SplitShorts(spline, before, p);
    }

    /** The testing half of a `process` round: collect the queued indices to split. */
    method SelectForSplit(buffer: seq<nat>) returns (toSplit: seq<nat>)
      requires Valid()
      requires forall i :: 0 <= i < |buffer| ==> buffer[i] < |segments.nodes|
      ensures toSplit == Select(segments.nodes, buffer, stDir, edDir, minCos)
    {
      toSplit := [];
      var t := 0;
      while t < |buffer|
        invariant 0 <= t <= |buffer|
        invariant toSplit == Select(segments.nodes, buffer[..t], stDir, edDir, minCos)
      {
        assert buffer[..t + 1][..t] == buffer[..t];
        if SplitTest(buffer[t]) {
          toSplit := toSplit + [buffer[t]];
        }
        t := t + 1;
      }
      assert buffer[..t] == buffer;
    }

    /**
      The splitting half of a `process` round: split the selected chords in
      order, collecting the next round's queue, as SplitRound does on the
      arena. The caller has checked that the splits fit in what is left of
      the budget.
     */
    method SplitEach(toSplit: seq<nat>) returns (r: Outcome<seq<nat>>)
      requires Valid()
      requires |segments.nodes| + |toSplit| <= EMPTY_REF
      requires forall i :: 0 <= i < |toSplit| ==> toSplit[i] < |segments.nodes|
      modifies segments
      ensures Valid() && !r.OutOfFuel?
      ensures var round := SplitRound(spline, minLenPower, old(segments.nodes), toSplit);
              && (r.Panic? <==> round.Panic?)
              && (r.Done? ==> round.value == (segments.nodes, r.value))
      ensures r.Panic? ==> exists i :: 0 <= i < |toSplit| && toSplit[i] < |segments.nodes| && !CanSplit(spline, segments.nodes[toSplit[i]].item)
    {
      ghost var start := segments.nodes;
      var buffer: seq<nat> := [];
      var u := 0;
      while u < |toSplit|
        invariant 0 <= u <= |toSplit|
        invariant Valid()
        invariant |segments.nodes| == |start| + u
        invariant SplitRound(spline, minLenPower, start, toSplit[..u]) == Done((segments.nodes, buffer))
      {
        SplitRoundLast(spline, minLenPower, start, toSplit, u);
        ghost var before := segments.nodes;
        var res := Split(toSplit[u], buffer);
        ghost var one := SplitOne(spline, minLenPower, before, buffer, toSplit[u]);
        if res.Panic? {
          assert one.Panic?;
          SplitRoundPanics(spline, minLenPower, start, toSplit, u + 1);
          return Panic;
        }
        assert one == Done((segments.nodes, res.value));
        buffer := res.value;
        u := u + 1;
      }
      assert toSplit[..u] == toSplit;
      return Done(buffer);
    }

    /**
      `process`: rounds of testing the queued chords and splitting the ones
      that fail, until a round queues nothing; then the walk from node 0.
      The ghost stages record the run, one stage after each round. The loop
      has no bound in the source, so at most fuel splits are made.
     */
    method Process(fuel: nat) returns (r: Outcome<seq<IntShort>>, ghost stages: seq<Stage>)
      requires Valid() && |segments.nodes| >= 1
      requires |segments.nodes| + fuel <= EMPTY_REF
      modifies segments
      ensures 1 <= |stages| && stages[0] == Stage(old(segments.nodes), [0], fuel)
      ensures Rounds(Params(), stages) && Finishes(Params(), stages[|stages| - 1], r)
      ensures r.Done? ==> segments.nodes == stages[|stages| - 1].nodes && |r.value| <= old(|segments.nodes|) + fuel
      ensures r.Done? ==> segments.Valid() && r.value == segments.Contents() && Chain(spline, r.value)
      ensures r.Panic? ==> Valid() && exists j :: 0 <= j < |segments.Contents()| && !CanSplit(spline, segments.Contents()[j])
      ensures r.Panic? ==> exists s :: OnSpline(spline, s) && !CanSplit(spline, s)
    {
      var queue: seq<nat> := [0];
      var fuelLeft: nat := fuel;
      stages := [Stage(segments.nodes, queue, fuelLeft)];
      while queue != []
        invariant Valid()
        invariant |segments.nodes| + fuelLeft == old(|segments.nodes|) + fuel
        invariant forall i :: 0 <= i < |queue| ==> queue[i] < |segments.nodes|
        invariant 1 <= |stages| && stages[0] == Stage(old(segments.nodes), [0], fuel)
        invariant Rounds(Params(), stages) && stages[|stages| - 1] == Stage(segments.nodes, queue, fuelLeft)
        decreases fuelLeft, |queue|
      {
        ghost var st := Stage(segments.nodes, queue, fuelLeft);
        var toSplit := SelectForSplit(queue);
        if fuelLeft < |toSplit| {
          return OutOfFuel, stages;
        }
        var res := SplitEach(toSplit);
        if res.Panic? {
          assert Step(Params(), st).Panic?;
          ghost var i :| 0 <= i < |toSplit| && toSplit[i] < |segments.nodes| && !CanSplit(spline, segments.nodes[toSplit[i]].item);
          Neighbours(segments.nodes, segments.order, segments.pos, toSplit[i]);
          assert !CanSplit(spline, segments.Contents()[segments.pos[toSplit[i]]]);
          assert OnSpline(spline, segments.Contents()[segments.pos[toSplit[i]]]);
          return Panic, stages;
        }
        queue := res.value;
        fuelLeft := fuelLeft - |toSplit|;
        ghost var next := Stage(segments.nodes, queue, fuelLeft);
        assert Step(Params(), st) == Done(next);
        RoundsExtend(Params(), stages, next);
        stages := stages + [next];
      }
      var shorts := segments.Items();
      r := Done(shorts);
    }
  }

  /** The set-up of `Solver::approximate` panics: `ilog2(0)`, or a zero vector to normalise. */
  predicate SetupPanics(spline: IntSpline, minLen: nat)
  {
    minLen == 0 || !spline.HasDirections() || spline.End().Sub(spline.Start()) == Zero()
  }

  /** The fixed part of the solver that `Solver::approximate` sets up, once the set-up cannot panic. */
  function ParamsOf(spline: IntSpline, minCos: nat, minLen: nat): SolverParams
    requires !SetupPanics(spline, minLen)
  {
    SolverParams(spline, Ilog2(minLen), spline.StartDir(), spline.EndDir(), (minCos * 1024) % 0x1_0000_0000)
  }

  /** The first stage: the single chord over [0, 1] at node 0, queued, with the whole budget. */
  function FirstStage(spline: IntSpline, maxSplits: nat): Stage
    requires spline.End().Sub(spline.Start()) != Zero()
  {
    Stage([Node(EMPTY_REF, EMPTY_REF, Initial(spline))], [0], maxSplits)
  }

  /**
    `Solver::approximate` gives r after the rounds recorded in stages: a
    panic in the set-up, or rounds from the first stage that finish with r.
   */
  ghost predicate Approximates(spline: IntSpline, minCos: nat, minLen: nat, maxSplits: nat, stages: seq<Stage>, r: Outcome<seq<IntShort>>)
  {
    if SetupPanics(spline, minLen) then r.Panic?
    else
      && 1 <= |stages| && stages[0] == FirstStage(spline, maxSplits)
      && Rounds(ParamsOf(spline, minCos, minLen), stages)
      && Finishes(ParamsOf(spline, minCos, minLen), stages[|stages| - 1], r)
  }

  /** The rounds of `Solver::approximate` leave room for one result only. */
  lemma ApproximatesUnique(spline: IntSpline, minCos: nat, minLen: nat, maxSplits: nat,
                           s1: seq<Stage>, r1: Outcome<seq<IntShort>>, s2: seq<Stage>, r2: Outcome<seq<IntShort>>)
    requires Approximates(spline, minCos, minLen, maxSplits, s1, r1)
    requires Approximates(spline, minCos, minLen, maxSplits, s2, r2)
    ensures r1 == r2
  {
    if !SetupPanics(spline, minLen) {
      RunsAgree(ParamsOf(spline, minCos, minLen), s1, r1, s2, r2);
    }
  }

  /**
    `Solver::approximate`: flatten the spline with at most maxSplits splits.
    `is_small` asserts a power below 30 in debug builds, so min_len is below 2^30.
   */
  method SolverApproximate(spline: IntSpline, minCos: nat, minLen: nat, maxSplits: nat) returns (r: Outcome<seq<IntShort>>)
    requires minCos < 0x1_0000_0000 && minLen < 0x4000_0000
    requires maxSplits < EMPTY_REF
    ensures exists stages :: Approximates(spline, minCos, minLen, maxSplits, stages, r)
    ensures r.Panic? ==> SetupPanics(spline, minLen) || exists s :: OnSpline(spline, s) && !CanSplit(spline, s)
    ensures r.Done? ==> Chain(spline, r.value) && 1 <= |r.value| <= maxSplits + 1
  {
    if SetupPanics(spline, minLen) {
      assert Approximates(spline, minCos, minLen, maxSplits, [], Panic);
      return Panic;
    }
    var solver := new Solver(spline, minCos, minLen);
    ghost var stages;
    r, stages := solver.Process(maxSplits);
    assert Approximates(spline, minCos, minLen, maxSplits, stages, r);
  }

  /** `approximate`: the solver, for a cosine threshold of at most 1024 (cos 1 in 10-bit fixed point). */
  method Approximate(spline: IntSpline, minCos: nat, minLen: nat, maxSplits: nat) returns (r: Outcome<seq<IntShort>>)
    requires minCos <= 1024 && minLen < 0x4000_0000
    requires maxSplits < EMPTY_REF
    ensures exists stages :: Approximates(spline, minCos, minLen, maxSplits, stages, r)
    ensures r.Panic? ==> SetupPanics(spline, minLen) || exists s :: OnSpline(spline, s) && !CanSplit(spline, s)
    ensures r.Done? ==> Chain(spline, r.value) && 1 <= |r.value| <= maxSplits + 1
  {
    r := SolverApproximate(spline, minCos, minLen, maxSplits);
  }

  /** The chords' start points and the last chord's end; `unwrap` on the last chord panics on none. */
  function PointsOf(shorts: Outcome<seq<IntShort>>): (r: Outcome<seq<IntPoint>>)
    ensures r.Done? ==> shorts.Done? && |shorts.value| >= 1 && r.value == Vertices(shorts.value)
  {
    match shorts
    case Done(ss) => if |ss| == 0 then Panic else Done(Vertices(ss))
    case Panic => Panic
    case OutOfFuel => OutOfFuel
  }

  /**
    `approximate_points`: the chords' start points followed by the last
    chord's end, one point more than there are chords.
   */
  method ApproximatePoints(spline: IntSpline, minCos: nat, minLen: nat, maxSplits: nat) returns (r: Outcome<seq<IntPoint>>)
    requires minCos < 0x1_0000_0000 && minLen < 0x4000_0000
    requires maxSplits < EMPTY_REF
    ensures exists stages, shorts :: Approximates(spline, minCos, minLen, maxSplits, stages, shorts) && r == PointsOf(shorts)
    ensures r.Panic? ==> SetupPanics(spline, minLen) || exists s :: OnSpline(spline, s) && !CanSplit(spline, s)
    ensures r.Done? ==> IsVertexChain(spline, r.value)
    ensures r.Done? ==> 2 <= |r.value| <= maxSplits + 2
    ensures r.Done? ==> r.value[0] == spline.Start() && r.value[|r.value| - 1] == spline.End()
  {
    var shorts := SolverApproximate(spline, minCos, minLen, maxSplits);
    ghost var stages :| Approximates(spline, minCos, minLen, maxSplits, stages, shorts);
    match shorts
    case Panic => return Panic;
    case OutOfFuel => return OutOfFuel;
    case Done(ss) =>
      var points := CollectVertices(ss);
      ChainVertices(spline, ss);
      return Done(points);
  }
}
