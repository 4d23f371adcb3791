/**
  Integer helpers standing in for the Rust primitives the core relies on:
  powers of two (shifts), `ilog2`, `isqrt` and truncating division.
  All integers are unbounded; callers state the ranges they need.
 */
module Bits {

  /** The range of Rust's `i64`. */
  const I64_MIN: int := -0x8000_0000_0000_0000
  const I64_MAX: int := 0x7FFF_FFFF_FFFF_FFFF

  /** Rust's `i64::min` and `i64::max`. */
  function Min(a: int, b: int): (r: int)
    ensures r <= a && r <= b && (r == a || r == b)
  {
    if a <= b then a else b
  }

  function Max(a: int, b: int): (r: int)
    ensures r >= a && r >= b && (r == a || r == b)
  {
    if a >= b then a else b
  }

  /** 2^k, the value of `1 << k`. */
  function Pow2(k: nat): (r: nat)
    ensures r >= 1
  {
    if k == 0 then 1 else 2 * Pow2(k - 1)
  }

  lemma {:induction false} Pow2Add(a: nat, b: nat)
    ensures Pow2(a + b) == Pow2(a) * Pow2(b)
  {
    if a > 0 {
      Pow2Add(a - 1, b);
      assert Pow2(a + b) == 2 * Pow2(a - 1 + b);
    }
  }

  /** Powers of two used as `i64` and `i128` limits. */
  lemma Pow2Values()
    ensures Pow2(10) == 1024 && Pow2(17) == 131072 && Pow2(27) == 134217728
    ensures Pow2(54) == 18014398509481984 && Pow2(63) == 9223372036854775808
  {
    Pow2Add(10, 7);
    Pow2Add(17, 10);
    Pow2Add(27, 27);
    Pow2Add(54, 9);
  }

  lemma {:induction false} Pow2Monotone(a: nat, b: nat)
    requires a <= b
    ensures Pow2(a) <= Pow2(b)
  {
    if a < b {
      Pow2Monotone(a, b - 1);
    }
  }

  /** Rust's `ilog2`: the index of the highest set bit. Undefined (a panic) on 0. */
  function Ilog2(n: nat): (r: nat)
    requires n >= 1
    ensures Pow2(r) <= n < Pow2(r + 1)
  {
    if n < 2 then 0 else 1 + Ilog2(n / 2)
  }

  /** ilog2 is determined by the power-of-two interval its argument lies in. */
  lemma Ilog2Unique(n: nat, k: nat)
    requires Pow2(k) <= n < Pow2(k + 1)
    ensures Ilog2(n) == k
  {
    var r := Ilog2(n);
    if r < k {
      Pow2Monotone(r + 1, k);
    } else if r > k {
      Pow2Monotone(k + 1, r);
    }
  }

  /** `ilog2(n) <= k` exactly when `n < 2^(k+1)`. */
  lemma Ilog2AtMost(n: nat, k: nat)
    requires n >= 1
    ensures Ilog2(n) <= k <==> n < Pow2(k + 1)
  {
    var r := Ilog2(n);
    if r <= k {
      Pow2Monotone(r + 1, k + 1);
    } else {
      Pow2Monotone(k + 1, r);
    }
  }

  lemma MulMonotone(c: nat, a: int, b: int)
    requires a <= b
    ensures c * a <= c * b
  {
    MulSign(b - a, 1);
    assert c * b - c * a == c * (b - a);
  }

  lemma SquareMonotone(a: nat, b: nat)
    requires a <= b
    ensures a * a <= b * b
  {
    assert a * a <= a * b;
    assert a * b <= b * b;
  }

  lemma IsqrtStep(n: nat, h: nat)
    requires h * h <= n / 4 < (h + 1) * (h + 1)
    ensures (2 * h) * (2 * h) <= n
    ensures n < (2 * h + 2) * (2 * h + 2)
  {
    assert (2 * h) * (2 * h) == 4 * (h * h);
    assert (2 * h + 2) * (2 * h + 2) == 4 * ((h + 1) * (h + 1));
  }

  /** Rust's `isqrt`: the floor of the square root. */
  function Isqrt(n: nat): (r: nat)
    ensures r * r <= n < (r + 1) * (r + 1)
  {
    if n == 0 then 0
    else
      var h := Isqrt(n / 4);
      IsqrtStep(n, h);
      var s := 2 * h;
      var r := if (s + 1) * (s + 1) <= n then s + 1 else s;
      IsqrtChoice(n, s, r);
      r
  }

  /** Of the two candidates 2h and 2h + 1, the one the test picks is the floor of the root. */
  lemma IsqrtChoice(n: nat, s: nat, r: nat)
    requires s * s <= n < (s + 2) * (s + 2)
    requires r == if (s + 1) * (s + 1) <= n then s + 1 else s
    ensures r * r <= n < (r + 1) * (r + 1)
  {
    if r == s + 1 {
      assert (r + 1) * (r + 1) == (s + 2) * (s + 2);
    }
  }

  lemma IsqrtPositive(n: nat)
    requires n >= 1
    ensures Isqrt(n) >= 1
  {
  }

  /** The floor of the square root is the only number with that property. */
  lemma IsqrtUnique(n: nat, r: nat)
    requires r * r <= n < (r + 1) * (r + 1)
    ensures Isqrt(n) == r
  {
    var q := Isqrt(n);
    if q < r {
      SquareMonotone(q + 1, r);
    } else if q > r {
      SquareMonotone(r + 1, q);
    }
  }

  function Abs(a: int): (r: nat)
    ensures r == a || r == -a
  {
    if a < 0 then -a else a
  }

  /**
    Rust's `as i64` on a wider integer: the low 64 bits read as a two's
    complement number. Values already in range are kept.
   */
  function WrapI64(v: int): (r: int)
    ensures I64_MIN <= r <= I64_MAX
    ensures I64_MIN <= v <= I64_MAX ==> r == v
    ensures I64_MAX < v < I64_MAX + 0x1_0000_0000_0000_0001 ==> r == v - 0x1_0000_0000_0000_0000
  {
    var low := (v - I64_MIN) % 0x1_0000_0000_0000_0000;
    if I64_MIN <= v <= I64_MAX then
      DivUnique(v - I64_MIN, 0x1_0000_0000_0000_0000, 0, v - I64_MIN);
      low + I64_MIN
    else if I64_MAX < v < I64_MAX + 0x1_0000_0000_0000_0001 then
      DivUnique(v - I64_MIN, 0x1_0000_0000_0000_0000, 1, v - I64_MIN - 0x1_0000_0000_0000_0000);
      low + I64_MIN
    else
      low + I64_MIN
  }

  /** Rust's `/` on signed integers with a positive divisor: it rounds toward zero. */
  function TruncDiv(a: int, d: int): (r: int)
    requires d > 0
    ensures Abs(r) == Abs(a) / d
    ensures a >= 0 ==> r >= 0
    ensures a <= 0 ==> r <= 0
  {
    if a >= 0 then
      DivNonnegative(a, d);
      a / d
    else
      DivNonnegative(-a, d);
      -((-a) / d)
  }

  /**
    Rust's `/` on signed integers with a divisor of either sign: the quotient
    of the magnitudes, negated when the signs differ.
   */
  function TruncDivSigned(a: int, d: int): (r: int)
    requires d != 0
    ensures Abs(r) == Abs(a) / Abs(d)
    ensures (a >= 0 && d > 0) || (a <= 0 && d < 0) ==> r >= 0
    ensures (a >= 0 && d < 0) || (a <= 0 && d > 0) ==> r <= 0
  {
    if d > 0 then TruncDiv(a, d) else -TruncDiv(a, -d)
  }

  lemma DivNonnegative(n: int, d: int)
    requires n >= 0 && d > 0
    ensures n / d >= 0
  {
    MulSign(n / d, d);
  }

  /** The quotient of n by d is fixed by any split n == q * d + r with 0 <= r < d. */
  lemma DivUnique(n: int, d: int, q: int, r: int)
    requires d > 0 && 0 <= r < d && n == q * d + r
    ensures n / d == q && n % d == r
  {
    var k := n / d - q;
    assert k * d == r - n % d;
    MulSign(k, d);
  }

  lemma MulSign(k: int, d: int)
    requires d > 0
    ensures k >= 1 ==> k * d >= d
    ensures k <= -1 ==> k * d <= -d
  {
  }

  /** Dividing numerator and divisor by the same power of two keeps the quotient. */
  lemma DivScale(n: int, d: int, c: int)
    requires d > 0 && c > 0
    ensures (c * n) / (c * d) == n / d
  {
    var q := n / d;
    var r := n % d;
    assert c * n == q * (c * d) + c * r;
    assert c * r < c * d;
    DivUnique(c * n, c * d, q, c * r);
  }
}
