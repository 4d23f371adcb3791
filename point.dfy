/**
  Fixed-point 2D points: componentwise arithmetic, dot and cross products,
  and the 10-bit direction normalisation used by the flattening solver.
  Coordinates are unbounded integers; the Rust type is `i64`, with squares
  taken in `i128`.
 */
module Points {
  import opened Bits
  import Offsets

  datatype IntPoint = IntPoint(x: int, y: int)
  {
    function Add(other: IntPoint): (r: IntPoint)
      ensures r.Sub(other) == this
    {
      IntPoint(x + other.x, y + other.y)
    }

    function AddOffset(o: Offsets.IntOffset): (r: IntPoint)
      ensures r.SubOffset(o) == this
      ensures r.Sub(this) == FromOffset(o)
    {
      IntPoint(x + o.x, y + o.y)
    }

    /** The difference is zero exactly when the points coincide; `Add` undoes it. */
    function Sub(other: IntPoint): (r: IntPoint)
      ensures r == Zero() <==> this == other
    {
      IntPoint(x - other.x, y - other.y)
    }

    /** Subtracting an offset is subtracting the point it converts to. */
    function SubOffset(o: Offsets.IntOffset): (r: IntPoint)
      ensures r == Sub(FromOffset(o))
    {
      IntPoint(x - o.x, y - o.y)
    }

    /** A vector's dot product with itself is its squared length. */
    function DotProduct(other: IntPoint): (r: int)
      ensures this == other ==> r == SqrLength()
      ensures other == Zero() ==> r == 0
    {
      SquareOfAbs(x);
      SquareOfAbs(y);
      x * other.x + y * other.y
    }

    /**
      The cross product vanishes for a vector with itself, and together with
      the dot product it satisfies Lagrange's identity
      cross^2 + dot^2 == |this|^2 * |other|^2.
     */
    function CrossProduct(other: IntPoint): (r: int)
      ensures this == other ==> r == 0
      ensures r * r + DotProduct(other) * DotProduct(other) == SqrLength() * other.SqrLength()
    {
      Lagrange(x, y, other.x, other.y);
      SquareOfAbs(x);
      SquareOfAbs(y);
      SquareOfAbs(other.x);
      SquareOfAbs(other.y);
      x * other.y - y * other.x
    }

    /** The squared length, computed by the source in 128-bit arithmetic. */
    function SqrLength(): (r: nat)
      ensures r == 0 <==> this == Zero()
    {
      Abs(x) * Abs(x) + Abs(y) * Abs(y)
    }

    /**
      `normalized_10bit`: a vector of length close to 1024 with the same direction.
      A zero vector makes `ilog2` panic, so it is excluded. The root is cast to
      `i64`, which wraps once x^2 + y^2 reaches 2^126: the shortened divisor is
      then negative and the direction comes out reversed.
     */
    function Normalized10Bit(): (r: IntPoint)
      requires this != Zero()
      ensures SqrLength() < NO_WRAP_SQR ==>
                (x >= 0 ==> r.x >= 0) && (x <= 0 ==> r.x <= 0) && (y >= 0 ==> r.y >= 0) && (y <= 0 ==> r.y <= 0)
      ensures InI64Range(this) && SqrLength() >= NO_WRAP_SQR ==>
                (x >= 0 ==> r.x <= 0) && (x <= 0 ==> r.x >= 0) && (y >= 0 ==> r.y <= 0) && (y <= 0 ==> r.y >= 0)
    {
      var sqrLen := SqrLength();
      var bitsCount := Ilog2(sqrLen);
      // `sqr_len.isqrt() as i64`
      var len := WrapI64(Isqrt(sqrLen));
      if bitsCount <= MAX_SAFE_BITS then
        SmallRoot(sqrLen);
        // `(x << 10) / len`
        IntPoint(TruncDiv(x * 1024, len), TruncDiv(y * 1024, len))
      else
        // `len >> 10`
        var shortLen := len / 1024;
        DivisorSign(this, sqrLen);
        if shortLen == 0 then
          // only past x^2 + y^2 >= 2^128, which no pair of `i64` coordinates reaches
          Zero()
        else
          IntPoint(TruncDivSigned(x, shortLen), TruncDivSigned(y, shortLen))
    }
  }

  /** Both coordinates fit in `i64`. */
  predicate InI64Range(p: IntPoint)
  {
    I64_MIN <= p.x <= I64_MAX && I64_MIN <= p.y <= I64_MAX
  }

  /** 2^126: from this squared length on, the root no longer fits in `i64`. */
  const NO_WRAP_SQR: nat := 0x4000_0000_0000_0000_0000_0000_0000_0000

  const VALUABLE_BITS: nat := 10
  const MAX_SAFE_BITS: nat := 63 - VALUABLE_BITS

  function Zero(): IntPoint
  {
    IntPoint(0, 0)
  }

  function New(x: int, y: int): (r: IntPoint)
    ensures r.x == x && r.y == y
  {
    IntPoint(x, y)
  }

  /** `From<IntOffset> for IntPoint`. */
  function FromOffset(o: Offsets.IntOffset): (r: IntPoint)
    ensures r.x == o.x && r.y == o.y
  {
    IntPoint(o.x, o.y)
  }

  /** `From<IntPoint> for IntOffset` (declared beside the offset type in the source). */
  function ToOffset(p: IntPoint): (r: Offsets.IntOffset)
    ensures FromOffset(r) == p
  {
    Offsets.IntOffset(p.x, p.y)
  }

  /** A square length of at most 53 bits has a positive root below 2^27, which `as i64` keeps. */
  lemma SmallRoot(sqrLen: nat)
    requires sqrLen >= 1 && Ilog2(sqrLen) <= MAX_SAFE_BITS
    ensures sqrLen < 18014398509481984
    ensures 1 <= Isqrt(sqrLen) < 134217728
    ensures WrapI64(Isqrt(sqrLen)) == Isqrt(sqrLen)
  {
    IsqrtPositive(sqrLen);
    Ilog2AtMost(sqrLen, MAX_SAFE_BITS);
    Pow2Values();
    SquareStrict(Isqrt(sqrLen), 134217728);
  }

  /** A square length below 2^126 has a root that `as i64` keeps. */
  lemma NoWrapRoot(sqrLen: nat)
    requires sqrLen < NO_WRAP_SQR
    ensures WrapI64(Isqrt(sqrLen)) == Isqrt(sqrLen)
  {
    SquareStrict(Isqrt(sqrLen), 0x8000_0000_0000_0000);
  }

  /**
    For `i64` coordinates with a squared length of 2^126 or more, the root lies
    in [2^63, 2^64 - 2048), so `as i64` makes it negative, and so does `>> 10`.
   */
  lemma WrappedRoot(p: IntPoint, sqrLen: nat)
    requires InI64Range(p) && sqrLen == p.SqrLength() && sqrLen >= NO_WRAP_SQR
    ensures 0x8000_0000_0000_0000 <= Isqrt(sqrLen) < 0xFFFF_FFFF_FFFF_F800
    ensures WrapI64(Isqrt(sqrLen)) == Isqrt(sqrLen) - 0x1_0000_0000_0000_0000
    ensures WrapI64(Isqrt(sqrLen)) / 1024 < 0
  {
    SquareMonotone(Abs(p.x), 0x8000_0000_0000_0000);
    SquareMonotone(Abs(p.y), 0x8000_0000_0000_0000);
    WrappedRootOf(sqrLen);
  }

  /** A squared length in [2^126, 2^127] has a root in [2^63, 2^64 - 2048), which `as i64` makes negative. */
  lemma WrappedRootOf(sqrLen: nat)
    requires NO_WRAP_SQR <= sqrLen <= 2 * NO_WRAP_SQR
    ensures 0x8000_0000_0000_0000 <= Isqrt(sqrLen) < 0xFFFF_FFFF_FFFF_F800
    ensures WrapI64(Isqrt(sqrLen)) == Isqrt(sqrLen) - 0x1_0000_0000_0000_0000
    ensures WrapI64(Isqrt(sqrLen)) / 1024 < 0
  {
    var root := Isqrt(sqrLen);
    SquareStrict(0x8000_0000_0000_0000 - 1, root);
    SquareStrict(root, 0xFFFF_FFFF_FFFF_F800);
    var w := WrapI64(root);
    assert w < -2048;
    DivBelow(w, 1024, 0);
  }

  /**
    The shortened divisor of the large branch: at least 2^17 while the root
    fits in `i64`, negative for `i64` coordinates once it does not.
   */
  lemma DivisorSign(p: IntPoint, sqrLen: nat)
    requires sqrLen == p.SqrLength() && sqrLen >= 1 && Ilog2(sqrLen) > MAX_SAFE_BITS
    ensures sqrLen < NO_WRAP_SQR ==> WrapI64(Isqrt(sqrLen)) / 1024 >= 131072
    ensures InI64Range(p) && sqrLen >= NO_WRAP_SQR ==> WrapI64(Isqrt(sqrLen)) / 1024 < 0
  {
    if sqrLen < NO_WRAP_SQR {
      NoWrapDivisor(sqrLen);
    } else if InI64Range(p) {
      WrappedRoot(p, sqrLen);
    }
  }

  lemma NoWrapDivisor(sqrLen: nat)
    requires sqrLen >= 1 && Ilog2(sqrLen) > MAX_SAFE_BITS && sqrLen < NO_WRAP_SQR
    ensures WrapI64(Isqrt(sqrLen)) / 1024 >= 131072
  {
    NoWrapRoot(sqrLen);
    LargeLength(sqrLen, Isqrt(sqrLen));
  }

  /** A square length past 2^53 has a root of at least 2^27, so `len >> 10` is at least 2^17. */
  lemma LargeLength(sqrLen: nat, len: nat)
    requires sqrLen >= 1 && Ilog2(sqrLen) > MAX_SAFE_BITS
    requires len * len <= sqrLen < (len + 1) * (len + 1)
    ensures len >= 134217728
    ensures len / 1024 >= 131072
  {
    Ilog2AtMost(sqrLen, MAX_SAFE_BITS);
    Pow2Values();
    SquareStrict(134217728, len + 1);
    DivAbove(len, 1024, 131072);
  }

  lemma SquareStrict(a: nat, b: nat)
    ensures a < b <==> a * a < b * b
  {
    if a < b {
      assert a * a <= a * b;
      assert a * b < b * b;
    } else {
      SquareMonotone(b, a);
    }
  }

  lemma DivMonotone(a: int, b: int, d: int)
    requires a <= b && d > 0
    ensures a / d <= b / d
  {
    var qa, qb := a / d, b / d;
    assert qa * d + a % d == a;
    assert qb * d + b % d == b;
    MulSign(qa - qb, d);
  }

  /** n < k * d forces n / d < k. */
  lemma DivBelow(n: int, d: int, k: int)
    requires d > 0 && n < k * d
    ensures n / d < k
  {
    assert (n / d) * d + n % d == n;
    MulSign(n / d - k, d);
  }

  /** k * d <= n forces k <= n / d. */
  lemma DivAbove(n: int, d: int, k: int)
    requires d > 0 && k * d <= n
    ensures k <= n / d
  {
    assert (n / d) * d + n % d == n;
    MulSign(k - n / d, d);
  }

  lemma MulCancelLess(a: int, b: int, m: int)
    requires m > 0 && a * m < b * m
    ensures a < b
  {
    MulSign(a - b, m);
  }

  /**
    The rounding error of two floor quotients: if X^2 + Y^2 >= (C*D)^2 then
    the quotients qx = X/D, qy = Y/D satisfy C^2 < (qx+1)^2 + (qy+1)^2.
   */
  lemma QuotientError(xAbs: nat, yAbs: nat, d: nat, c: nat)
    requires d >= 1
    requires (c * d) * (c * d) <= xAbs * xAbs + yAbs * yAbs
    ensures c * c < (xAbs / d + 1) * (xAbs / d + 1) + (yAbs / d + 1) * (yAbs / d + 1)
  {
    var ux, uy := xAbs / d + 1, yAbs / d + 1;
    var dd := d * d;
    SquareBelowNextQuotient(xAbs, d);
    SquareBelowNextQuotient(yAbs, d);
    SquareOfProduct(c, d);
    assert (c * c) * dd < (ux * ux) * dd + (uy * uy) * dd;
    assert (ux * ux) * dd + (uy * uy) * dd == (ux * ux + uy * uy) * dd;
    MulCancelLess(c * c, ux * ux + uy * uy, dd);
  }

  /** n^2 < ((n / d + 1)^2) * d^2: the next multiple of d lies above n. */
  lemma SquareBelowNextQuotient(n: nat, d: nat)
    requires d >= 1
    ensures n * n < ((n / d + 1) * (n / d + 1)) * (d * d)
  {
    var u := n / d + 1;
    assert (n / d) * d + n % d == n;
    assert n < u * d;
    SquareStrict(n, u * d);
    SquareOfProduct(u, d);
  }

  lemma SquareOfProduct(a: int, b: int)
    ensures (a * b) * (a * b) == (a * a) * (b * b)
  {
  }

  /** A coordinate never exceeds the floor root of the squared length. */
  lemma CoordinateBelowLength(p: IntPoint, len: nat)
    requires len * len <= p.SqrLength() < (len + 1) * (len + 1)
    ensures Abs(p.x) <= len && Abs(p.y) <= len
  {
    SquareStrict(len, Abs(p.x));
    SquareStrict(len, Abs(p.y));
  }

  /** The quotients of the direct branch: numerators 1024 * |x|, 1024 * |y|, divisor len. */
  lemma SmallBranchQuotients(xAbs: nat, yAbs: nat, len: nat)
    requires len >= 1
    requires len * len <= xAbs * xAbs + yAbs * yAbs < (len + 1) * (len + 1)
    ensures (xAbs * 1024) / len <= 1024 && (yAbs * 1024) / len <= 1024
    ensures 1024 * 1024 < ((xAbs * 1024) / len + 1) * ((xAbs * 1024) / len + 1)
                          + ((yAbs * 1024) / len + 1) * ((yAbs * 1024) / len + 1)
  {
    var sqr := xAbs * xAbs + yAbs * yAbs;
    RootBound(xAbs, sqr, len);
    RootBound(yAbs, sqr, len);
    DivBelow(xAbs * 1024, len, 1025);
    DivBelow(yAbs * 1024, len, 1025);
    SquareOfProduct(1024, len);
    SquareOfProduct(xAbs, 1024);
    SquareOfProduct(yAbs, 1024);
    QuotientError(xAbs * 1024, yAbs * 1024, len, 1024);
  }

  /** A coordinate whose square is at most a squared length is at most its floor root. */
  lemma RootBound(v: nat, sqr: nat, len: nat)
    requires v * v <= sqr < (len + 1) * (len + 1)
    ensures v <= len
  {
    if v > len {
      SquareMonotone(len + 1, v);
    }
  }

  /** The quotients of the shifted branch: numerators |x|, |y|, divisor len >> 10. */
  lemma LargeBranchQuotients(xAbs: nat, yAbs: nat, len: nat)
    requires len >= 1024 * 1024
    requires len * len <= xAbs * xAbs + yAbs * yAbs < (len + 1) * (len + 1)
    ensures len / 1024 >= 1
    ensures xAbs / (len / 1024) <= 1024 && yAbs / (len / 1024) <= 1024
    ensures 1024 * 1024 < (xAbs / (len / 1024) + 1) * (xAbs / (len / 1024) + 1)
                          + (yAbs / (len / 1024) + 1) * (yAbs / (len / 1024) + 1)
  {
    var sqr := xAbs * xAbs + yAbs * yAbs;
    RootBound(xAbs, sqr, len);
    RootBound(yAbs, sqr, len);
    var shortLen := len / 1024;
    assert shortLen * 1024 + len % 1024 == len;
    assert shortLen >= 1024;
    assert len < 1025 * shortLen;
    DivBelow(xAbs, shortLen, 1025);
    DivBelow(yAbs, shortLen, 1025);
    SquareMonotone(1024 * shortLen, len);
    assert 1024 * shortLen == shortLen * 1024;
    QuotientError(xAbs, yAbs, shortLen, 1024);
  }

  /** (a+1)^2 + (b+1)^2 > 1024^2 with a, b <= 1024 bounds the shortfall of a^2 + b^2. */
  lemma Shortfall(a: nat, b: nat)
    requires a <= 1024 && b <= 1024
    requires 1024 * 1024 < (a + 1) * (a + 1) + (b + 1) * (b + 1)
    ensures 1024 * 1024 - (a * a + b * b) < 4098
  {
  }

  /**
    The normalised vector has coordinates of magnitude at most 1024 and a
    squared length short of 1024^2 by less than 2 * 2048 + 2, which is below
    the 5 * 1024 the source's randomised test accepts. It holds for every
    nonzero input whose root fits in `i64` (x^2 + y^2 < 2^126), not only for
    coordinates up to 10^12.
   */
  lemma NormalizedBounds(p: IntPoint)
    requires p != Zero() && p.SqrLength() < NO_WRAP_SQR
    ensures Abs(p.Normalized10Bit().x) <= 1024 && Abs(p.Normalized10Bit().y) <= 1024
    ensures 1024 * 1024 - (p.Normalized10Bit().x * p.Normalized10Bit().x
                           + p.Normalized10Bit().y * p.Normalized10Bit().y) < 4098
    ensures 1024 * 1024 - (p.Normalized10Bit().x * p.Normalized10Bit().x
                           + p.Normalized10Bit().y * p.Normalized10Bit().y) < 5 * 1024
  {
    NormalizedQuotients(p);
    SignedShortfall(p.Normalized10Bit());
  }

  lemma SignedShortfall(r: IntPoint)
    requires Abs(r.x) <= 1024 && Abs(r.y) <= 1024
    requires 1024 * 1024 < (Abs(r.x) + 1) * (Abs(r.x) + 1) + (Abs(r.y) + 1) * (Abs(r.y) + 1)
    ensures 1024 * 1024 - (r.x * r.x + r.y * r.y) < 4098
  {
    Shortfall(Abs(r.x), Abs(r.y));
    SquareOfAbs(r.x);
    SquareOfAbs(r.y);
  }

  lemma SquareOfAbs(v: int)
    ensures Abs(v) * Abs(v) == v * v
  {
  }

  lemma Lagrange(x: int, y: int, u: int, v: int)
    ensures (x * v - y * u) * (x * v - y * u) + (x * u + y * v) * (x * u + y * v)
            == (x * x + y * y) * (u * u + v * v)
  {
    calc {
      (x * v - y * u) * (x * v - y * u) + (x * u + y * v) * (x * u + y * v);
      (x * v) * (x * v) - 2 * (x * v) * (y * u) + (y * u) * (y * u)
        + (x * u) * (x * u) + 2 * (x * u) * (y * v) + (y * v) * (y * v);
      (x * x) * (v * v) + (y * y) * (u * u) + (x * x) * (u * u) + (y * y) * (v * v);
      (x * x + y * y) * (u * u + v * v);
    }
  }

  /**
    While the root fits in `i64`, the normalised vector points the same way as
    the vector: their dot product is positive.
   */
  lemma NormalizedAlong(p: IntPoint)
    requires p != Zero()
    ensures p.SqrLength() < NO_WRAP_SQR ==> p.Normalized10Bit().DotProduct(p) > 0
  {
    if p.SqrLength() < NO_WRAP_SQR {
      var r := p.Normalized10Bit();
      NormalizedBounds(p);
      assert r != Zero();
      SameSignProduct(r.x, p.x);
      SameSignProduct(r.y, p.y);
    }
  }

  lemma SameSignProduct(a: int, b: int)
    requires (b >= 0 ==> a >= 0) && (b <= 0 ==> a <= 0)
    ensures a * b >= 0 && (a != 0 ==> a * b > 0)
  {
    if a > 0 {
      MulSign(b, a);
    } else if a < 0 {
      MulSign(-b, -a);
    }
  }

  /** Both branches: magnitudes at most 1024, and the floor-rounding gap of the quotients. */
  lemma NormalizedQuotients(p: IntPoint)
    requires p != Zero() && p.SqrLength() < NO_WRAP_SQR
    ensures Abs(p.Normalized10Bit().x) <= 1024 && Abs(p.Normalized10Bit().y) <= 1024
    ensures 1024 * 1024 < (Abs(p.Normalized10Bit().x) + 1) * (Abs(p.Normalized10Bit().x) + 1)
                          + (Abs(p.Normalized10Bit().y) + 1) * (Abs(p.Normalized10Bit().y) + 1)
  {
    if Ilog2(p.SqrLength()) <= MAX_SAFE_BITS {
      SmallBranchResult(p);
    } else {
      LargeBranchResult(p);
    }
  }

  lemma SmallBranchResult(p: IntPoint)
    requires p != Zero() && Ilog2(p.SqrLength()) <= MAX_SAFE_BITS
    ensures Abs(p.Normalized10Bit().x) <= 1024 && Abs(p.Normalized10Bit().y) <= 1024
    ensures 1024 * 1024 < (Abs(p.Normalized10Bit().x) + 1) * (Abs(p.Normalized10Bit().x) + 1)
                          + (Abs(p.Normalized10Bit().y) + 1) * (Abs(p.Normalized10Bit().y) + 1)
  {
    var r := p.Normalized10Bit();
    var len := Isqrt(p.SqrLength());
    var xAbs, yAbs := Abs(p.x), Abs(p.y);
    SmallRoot(p.SqrLength());
    assert r == IntPoint(TruncDiv(p.x * 1024, len), TruncDiv(p.y * 1024, len));
    assert Abs(p.x * 1024) == xAbs * 1024 && Abs(p.y * 1024) == yAbs * 1024;
    assert Abs(r.x) == (xAbs * 1024) / len && Abs(r.y) == (yAbs * 1024) / len;
    SmallBranchQuotients(xAbs, yAbs, len);
  }

  lemma LargeBranchResult(p: IntPoint)
    requires p != Zero() && Ilog2(p.SqrLength()) > MAX_SAFE_BITS && p.SqrLength() < NO_WRAP_SQR
    ensures Abs(p.Normalized10Bit().x) <= 1024 && Abs(p.Normalized10Bit().y) <= 1024
    ensures 1024 * 1024 < (Abs(p.Normalized10Bit().x) + 1) * (Abs(p.Normalized10Bit().x) + 1)
                          + (Abs(p.Normalized10Bit().y) + 1) * (Abs(p.Normalized10Bit().y) + 1)
  {
    var r := p.Normalized10Bit();
    var sqrLen := p.SqrLength();
    var len := Isqrt(sqrLen);
    var xAbs, yAbs := Abs(p.x), Abs(p.y);
    NoWrapRoot(sqrLen);
    LargeLength(sqrLen, len);
    assert r == IntPoint(TruncDivSigned(p.x, len / 1024), TruncDivSigned(p.y, len / 1024));
    assert Abs(r.x) == xAbs / (len / 1024) && Abs(r.y) == yAbs / (len / 1024);
    LargeBranchQuotients(xAbs, yAbs, len);
  }

  /**
    The branch on the bit count keeps `(x << 10)` inside `i64` in the first
    case. In the second, for `i64` coordinates, the shortened divisor
    `len >> 10` is at least 2^17 while the root fits in `i64` and negative
    once it does not, so it is never zero.
   */
  lemma NormalizedNoOverflow(p: IntPoint)
    requires p != Zero() && InI64Range(p)
    ensures Ilog2(p.SqrLength()) <= MAX_SAFE_BITS ==>
              Abs(p.x) * 1024 < Pow2(63) && Abs(p.y) * 1024 < Pow2(63)
    ensures Ilog2(p.SqrLength()) > MAX_SAFE_BITS && p.SqrLength() < NO_WRAP_SQR ==>
              WrapI64(Isqrt(p.SqrLength())) / 1024 >= 131072
    ensures p.SqrLength() >= NO_WRAP_SQR ==> WrapI64(Isqrt(p.SqrLength())) / 1024 < 0
  {
    var sqrLen := p.SqrLength();
    var len := Isqrt(sqrLen);
    if Ilog2(sqrLen) <= MAX_SAFE_BITS {
      ShortCoordinates(p, sqrLen, len);
      SmallRoot(sqrLen);
    } else {
      DivisorSign(p, sqrLen);
    }
  }

  /** In the direct branch every coordinate is below 2^27, so shifting it by 10 stays below 2^63. */
  lemma ShortCoordinates(p: IntPoint, sqrLen: nat, len: nat)
    requires sqrLen == p.SqrLength() && sqrLen >= 1 && Ilog2(sqrLen) <= MAX_SAFE_BITS
    requires len * len <= sqrLen < (len + 1) * (len + 1)
    ensures Abs(p.x) * 1024 < Pow2(63) && Abs(p.y) * 1024 < Pow2(63)
  {
    Pow2Values();
    Ilog2AtMost(sqrLen, MAX_SAFE_BITS);
    assert sqrLen < 134217728 * 134217728;
    SquareStrict(len, 134217728);
    CoordinateBelowLength(p, len);
  }

  /** The exact cases of the source's unit test. */
  lemma NormalizedExamples()
    ensures IntPoint(1024, 0).Normalized10Bit() == IntPoint(1024, 0)
    ensures IntPoint(0, 1024).Normalized10Bit() == IntPoint(0, 1024)
  {
    UnitAxisX(IntPoint(1024, 0));
    UnitAxisY(IntPoint(0, 1024));
  }

  lemma UnitAxisX(p: IntPoint)
    requires p.x == 1024 && p.y == 0
    ensures p.Normalized10Bit() == p
  {
    NormalizedShort(p, 1024);
  }

  lemma UnitAxisY(p: IntPoint)
    requires p.x == 0 && p.y == 1024
    ensures p.Normalized10Bit() == p
  {
    NormalizedShort(p, 1024);
  }

  /** The 3-4-5 case of the same test: (3 << 10) / 5 = 614 and (4 << 10) / 5 = 819. */
  lemma NormalizedThreeFour()
    ensures IntPoint(3, 4).Normalized10Bit() == IntPoint(614, 819)
  {
    ThreeFour(IntPoint(3, 4));
  }

  lemma ThreeFour(p: IntPoint)
    requires p.x == 3 && p.y == 4
    ensures p.Normalized10Bit() == IntPoint(614, 819)
  {
    NormalizedShort(p, 5);
  }

  /**
    Past the `i64` root the direction is reversed and the 1024 bound fails:
    (i64::MIN, 0) gives (1024, 0), and (i64::MIN, i64::MIN) gives (1748, 1748).
   */
  lemma NormalizedWrapExamples()
    ensures IntPoint(I64_MIN, 0).Normalized10Bit() == IntPoint(1024, 0)
    ensures IntPoint(I64_MIN, I64_MIN).Normalized10Bit() == IntPoint(1748, 1748)
  {
    WrapAxis(IntPoint(I64_MIN, 0));
    WrapDiagonal(IntPoint(I64_MIN, I64_MIN));
  }

  lemma WrapAxis(p: IntPoint)
    requires p.x == I64_MIN && p.y == 0
    ensures p.Normalized10Bit() == IntPoint(1024, 0)
  {
    var d := WrapAxisDivisor(p);
    assert p.Normalized10Bit() == IntPoint(TruncDivSigned(p.x, d), TruncDivSigned(p.y, d));
    DivUnique(0x8000_0000_0000_0000, 9007199254740992, 1024, 0);
  }

  /** For (i64::MIN, 0) the root 2^63 wraps to i64::MIN and `len >> 10` is -2^53. */
  lemma WrapAxisDivisor(p: IntPoint) returns (d: int)
    requires p.x == I64_MIN && p.y == 0
    ensures Ilog2(p.SqrLength()) > MAX_SAFE_BITS && d == WrapI64(Isqrt(p.SqrLength())) / 1024
    ensures d == -9007199254740992
  {
    assert Abs(p.x) == 0x8000_0000_0000_0000 && Abs(p.y) == 0;
    var sqrLen := p.SqrLength();
    assert sqrLen == NO_WRAP_SQR;
    d := WrappedDivisor(sqrLen, 0x8000_0000_0000_0000);
  }

  /** The shortened divisor for a squared length in [2^126, 2^127] whose exact root is known. */
  lemma WrappedDivisor(sqrLen: nat, root: nat) returns (d: int)
    requires NO_WRAP_SQR <= sqrLen <= 2 * NO_WRAP_SQR && root * root <= sqrLen < (root + 1) * (root + 1)
    ensures Ilog2(sqrLen) > MAX_SAFE_BITS
    ensures d == WrapI64(Isqrt(sqrLen)) / 1024 && d == (root - 0x1_0000_0000_0000_0000) / 1024
  {
    WideBits(sqrLen);
    IsqrtUnique(sqrLen, root);
    WrappedRootOf(sqrLen);
    d := WrapI64(Isqrt(sqrLen)) / 1024;
  }

  /** A squared length from 2^126 on has more than 53 bits. */
  lemma WideBits(sqrLen: nat)
    requires sqrLen >= NO_WRAP_SQR
    ensures Ilog2(sqrLen) > MAX_SAFE_BITS
  {
    Pow2Values();
    Ilog2AtMost(sqrLen, MAX_SAFE_BITS);
  }

  lemma WrapDiagonal(p: IntPoint)
    requires p.x == I64_MIN && p.y == I64_MIN
    ensures p.Normalized10Bit() == IntPoint(1748, 1748)
  {
    var d := WrapDiagonalDivisor(p);
    assert p.Normalized10Bit() == IntPoint(TruncDivSigned(p.x, d), TruncDivSigned(p.y, d));
    DivUnique(0x8000_0000_0000_0000, 5276295164430439, 1748, 408089430368436);
  }

  /** For (i64::MIN, i64::MIN) the root wraps to a negative `i64` and `len >> 10` is -5276295164430439. */
  lemma WrapDiagonalDivisor(p: IntPoint) returns (d: int)
    requires p.x == I64_MIN && p.y == I64_MIN
    ensures Ilog2(p.SqrLength()) > MAX_SAFE_BITS && d == WrapI64(Isqrt(p.SqrLength())) / 1024
    ensures d == -5276295164430439
  {
    assert Abs(p.x) == 0x8000_0000_0000_0000 && Abs(p.y) == 0x8000_0000_0000_0000;
    var sqrLen := p.SqrLength();
    assert sqrLen == 2 * NO_WRAP_SQR;
    d := WrappedDivisor(sqrLen, 13043817825332782212);
  }

  /** A vector of whole length below 2^26 takes the exact `(x << 10) / len` branch. */
  lemma NormalizedShort(p: IntPoint, len: nat)
    requires p != Zero() && 1 <= len < 67108864 && p.SqrLength() == len * len
    ensures p.Normalized10Bit() == IntPoint(TruncDiv(p.x * 1024, len), TruncDiv(p.y * 1024, len))
  {
    IsqrtUnique(len * len, len);
    Pow2Values();
    SquareMonotone(len, 67108864);
    Ilog2AtMost(p.SqrLength(), MAX_SAFE_BITS);
  }

  lemma DotSymmetric(p: IntPoint, q: IntPoint)
    ensures p.DotProduct(q) == q.DotProduct(p)
  {
  }

  lemma CrossAntisymmetric(p: IntPoint, q: IntPoint)
    ensures p.CrossProduct(q) == -q.CrossProduct(p)
  {
  }

  /** Offset -> point -> offset and point -> offset -> point are both the identity. */
  lemma ConversionRoundTrip(o: Offsets.IntOffset, p: IntPoint)
    ensures ToOffset(FromOffset(o)) == o
    ensures FromOffset(ToOffset(p)) == p
  {
  }

  /** Adding an offset and subtracting it again gives the point back. */
  lemma OffsetRoundTrip(p: IntPoint, o: Offsets.IntOffset)
    ensures p.AddOffset(o).SubOffset(o) == p
    ensures p.AddOffset(o).x == p.x + o.x && p.AddOffset(o).y == p.y + o.y
  {
  }
}
