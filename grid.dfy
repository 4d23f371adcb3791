/**
  The integer side of the float-to-grid conversion: rounding an `i64` to the
  nearest multiple of 2^sizePower with shifts and a one-bit mask.
 */
module Grids {
  import opened Bits

  /**
    The integer fields of `Grid`; the two floating-point scale factors are not
    part of this model.
   */
  datatype Grid = Grid(sizePower: nat, remainderMask: int)
  {
    /**
      `snap_to_grid_value`: with d = 2^p, `s = ((a << 1) >> p) & 1` is the bit
      just below the grid step (whether the remainder of a by d reaches d/2),
      and `(c + s) << p` with `c = a >> p` rounds to the nearest multiple of
      d, halves upward. Arithmetic shifts round toward minus infinity, which is
      Dafny's division by a positive divisor. Both shifts are taken on `i64`:
      `a << 1` loses the top bit of a, which leaves bit p alone
      (`SnapWrapBit`), and `(c + s) << p` wraps to `i64::MIN` when a rounds up
      to 2^63, which happens exactly when a + d/2 leaves the `i64` range.
     */
    function SnapToGridValue(a: int): (r: int)
      requires sizePower < 63
      requires I64_MIN <= a <= I64_MAX
      ensures I64_MIN <= r <= I64_MAX
      ensures r % Pow2(sizePower) == 0
      ensures sizePower == 0 ==> r == a
      ensures sizePower > 0 && a + Pow2(sizePower - 1) <= I64_MAX ==>
                a - r < Pow2(sizePower - 1) && r - a <= Pow2(sizePower - 1)
      ensures sizePower > 0 && a + Pow2(sizePower - 1) > I64_MAX ==> r == I64_MIN
    {
      var d := Pow2(sizePower);
      var s := (WrapI64(2 * a) / d) % 2;
      var c := a / d;
      SnapBitValue(a, sizePower);
      SnapTop(a, sizePower, s);
      SnapRounded(a, d, s, if sizePower > 0 then Pow2(sizePower - 1) else 0);
      WrapI64((c + s) * d)
    }
  }

  /**
    `Grid::new`: the scale power only feeds the floating-point factors;
    `remainder_mask` is `(1 << size_power) - 1`, the low sizePower bits.
   */
  function New(scalePower: int, sizePower: nat): (g: Grid)
    requires sizePower < 63
    ensures g.sizePower == sizePower
    ensures 0 <= g.remainderMask < Pow2(sizePower)
    ensures forall a: int {:trigger a % Pow2(sizePower)} :: 0 <= a % Pow2(sizePower) <= g.remainderMask
  {
    Grid(sizePower, Pow2(sizePower) - 1)
  }

  /**
    The bit s of `snap_to_grid_value` is set exactly when the remainder of a
    by 2^p reaches half a step.
   */
  lemma SnapBitValue(a: int, p: nat)
    requires p < 63
    requires I64_MIN <= a <= I64_MAX
    ensures (WrapI64(2 * a) / Pow2(p)) % 2 == (if p > 0 && a % Pow2(p) >= Pow2(p - 1) then 1 else 0)
    ensures p == 0 ==> Pow2(p) == 1
    ensures p > 0 ==> Pow2(p) == 2 * Pow2(p - 1)
  {
    SnapWrapBit(a, p);
    SnapAnalysis(a, p);
  }

  /**
    Rounding to (a / d + s) * d with that bit gives a multiple of d within
    half a step h of a, and a itself when d = 1.
   */
  lemma SnapRounded(a: int, d: int, s: int, h: int)
    requires (h == 0 && d == 1) || (h >= 1 && d == 2 * h)
    requires s == (if h > 0 && a % d >= h then 1 else 0)
    ensures ((a / d + s) * d) % d == 0
    ensures h == 0 ==> (a / d + s) * d == a
    ensures h > 0 ==> a - (a / d + s) * d < h && (a / d + s) * d - a <= h
  {
    SnapShift(a, d, s);
    if h == 0 {
      DivUnique(a, 1, a, 0);
    }
  }

  /** 2^63 splits as 2^p * 2^(63-p). */
  lemma Pow2Top(p: nat)
    requires p <= 63
    ensures Pow2(p) * Pow2(63 - p) == -I64_MIN
  {
    Pow2Add(p, 63 - p);
    Pow2Values();
  }

  /**
    `a << 1` on `i64` is 2a with its top bit dropped, which moves 2a by a
    multiple of 2^64; for p < 63 that multiple is an even multiple of 2^p,
    so bit p of the shifted value is bit p of 2a.
   */
  lemma SnapWrapBit(a: int, p: nat)
    requires p < 63
    requires I64_MIN <= a <= I64_MAX
    ensures (WrapI64(2 * a) / Pow2(p)) % 2 == ((2 * a) / Pow2(p)) % 2
  {
    var d := Pow2(p);
    var e := Pow2(63 - p);
    Pow2Top(p);
    var k := WrapMultiple(2 * a);
    MulRegroup(2 * a, k, d, e);
    BitPeriodic(2 * a, d, -k * e);
  }

  /** `as i64` moves a value by a multiple of 2^64. */
  lemma WrapMultiple(v: int) returns (k: int)
    ensures WrapI64(v) == v - k * 0x1_0000_0000_0000_0000
  {
    k := (v - I64_MIN) / 0x1_0000_0000_0000_0000;
  }

  /** k * 2^64 regrouped as a multiple of d, when d * e == 2^63. */
  lemma MulRegroup(v: int, k: int, d: int, e: int)
    requires d * e == -I64_MIN
    ensures v - k * 0x1_0000_0000_0000_0000 == v + 2 * (-k * e) * d
  {
    assert 2 * (-k * e) * d == -2 * k * (d * e);
  }

  /** Adding an even multiple of d does not change bit 0 of the quotient by d. */
  lemma BitPeriodic(v: int, d: int, j: int)
    requires d >= 1
    ensures ((v + 2 * j * d) / d) % 2 == (v / d) % 2
  {
    DivUnique(v + 2 * j * d, d, v / d + 2 * j, v % d);
    DivUnique(v / d + 2 * j, 2, (v / d) / 2 + j, (v / d) % 2);
  }

  /** The quotient by d of a value in [-m*d, m*d) lies in [-m, m). */
  lemma QuotientBounds(a: int, d: int, m: int)
    requires d >= 1
    requires -(d * m) <= a < d * m
    ensures -m <= a / d < m
  {
    var q := a / d;
    if q < -m {
      MulSign(-m - q, d);
    }
    if q >= m {
      MulSign(q - m + 1, d);
    }
  }

  /**
    The rounded multiple (a / d + s) * d of an `i64` lies in [i64::MIN, 2^63],
    and is 2^63 exactly when a + d/2 leaves the `i64` range; i64::MIN is a
    multiple of d.
   */
  lemma SnapTop(a: int, p: nat, s: int)
    requires p < 63
    requires I64_MIN <= a <= I64_MAX
    requires s == (if p > 0 && a % Pow2(p) >= Pow2(p - 1) then 1 else 0)
    ensures I64_MIN <= (a / Pow2(p) + s) * Pow2(p) <= I64_MAX + 1
    ensures (a / Pow2(p) + s) * Pow2(p) == I64_MAX + 1 <==> p > 0 && a + Pow2(p - 1) > I64_MAX
    ensures I64_MIN % Pow2(p) == 0
  {
    Pow2Top(p);
    SnapTopRange(a, Pow2(p), Pow2(63 - p), s, if p > 0 then Pow2(p - 1) else 0);
  }

  /** SnapTop for d * m == 2^63 and h = d/2 (or 0 when d = 1). */
  lemma SnapTopRange(a: int, d: int, m: int, s: int, h: int)
    requires d >= 1 && m >= 1 && d * m == -I64_MIN
    requires I64_MIN <= a <= I64_MAX
    requires h == 0 || d == 2 * h
    requires s == (if h > 0 && a % d >= h then 1 else 0)
    ensures I64_MIN <= (a / d + s) * d <= I64_MAX + 1
    ensures (a / d + s) * d == I64_MAX + 1 <==> h > 0 && a + h > I64_MAX
    ensures I64_MIN % d == 0
  {
    DivUnique(I64_MIN, d, -m, 0);
    SnapTopBounds(a, d, m, s);
    QuotientBounds(a, d, m);
    assert a == (a / d) * d + a % d;
    SnapTopCases(a / d, a % d, d, m, s, h);
  }

  /** Multiplying by a positive d keeps the order. */
  lemma MulBetween(k: int, lo: int, hi: int, d: int)
    requires d >= 1 && lo <= k <= hi
    ensures lo * d <= k * d <= hi * d
  {
    MulSign(k - lo, d);
    MulSign(hi - k, d);
    assert (k - lo) * d == k * d - lo * d;
    assert (hi - k) * d == hi * d - k * d;
  }

  /** The multiple (q + s) * d stays in [i64::MIN, 2^63] when q = a / d is in [-m, m). */
  lemma SnapTopBounds(a: int, d: int, m: int, s: int)
    requires d >= 1 && d * m == -I64_MIN
    requires I64_MIN <= a <= I64_MAX
    requires 0 <= s <= 1
    ensures I64_MIN <= (a / d + s) * d <= I64_MAX + 1
  {
    QuotientBounds(a, d, m);
    MulBetween(a / d + s, -m, m, d);
    assert (-m) * d == -(d * m) && m * d == d * m;
  }

  /** The products of a quotient q in [-m, m) by d, where d * m == 2^63. */
  lemma TopProducts(q: int, d: int, m: int, s: int)
    requires d >= 1 && d * m == -I64_MIN
    requires -m <= q < m && 0 <= s <= 1
    ensures (q + s) * d == -I64_MIN <==> q == m - 1 && s == 1
    ensures q <= m - 2 ==> q * d <= -I64_MIN - 2 * d
    ensures q == m - 1 ==> q * d == -I64_MIN - d
  {
    assert (m - 1) * d == d * m - d;
    assert (m - 2) * d == d * m - 2 * d;
    if q + s <= m - 1 {
      MulBetween(q + s, q + s, m - 1, d);
    }
    if q <= m - 2 {
      MulBetween(q, q, m - 2, d);
    }
  }

  /**
    With a = q * d + r, the multiple (q + s) * d reaches 2^63 = d * m exactly
    when a is in the top half-step below 2^63, where it rounds up (d = 2h).
   */
  lemma SnapTopCases(q: int, r: int, d: int, m: int, s: int, h: int)
    requires d >= 1 && d * m == -I64_MIN
    requires -m <= q < m && 0 <= r < d
    requires h == 0 || d == 2 * h
    requires s == (if h > 0 && r >= h then 1 else 0)
    ensures (q + s) * d == I64_MAX + 1 <==> h > 0 && q * d + r + h > I64_MAX
  {
    TopProducts(q, d, m, s);
  }

  /** The quotient/remainder split behind the rounding. */
  lemma SnapAnalysis(a: int, p: nat)
    ensures p == 0 ==> ((2 * a) / Pow2(p)) % 2 == 0
    ensures p > 0 ==> ((2 * a) / Pow2(p)) % 2 == (if a % Pow2(p) >= Pow2(p - 1) then 1 else 0)
  {
    if p == 0 {
      DivUnique(2 * a, 1, 2 * a, 0);
      DivUnique(2 * a, 2, a, 0);
    } else {
      SnapBit(a, Pow2(p - 1));
    }
  }

  /** The bit `((a << 1) >> p) & 1` is set exactly when the remainder of a by 2^p reaches 2^(p-1). */
  lemma SnapBit(a: int, h: int)
    requires h >= 1
    ensures ((2 * a) / (2 * h)) % 2 == (if a % (2 * h) >= h then 1 else 0)
  {
    var d := 2 * h;
    var c := a / d;
    var rem := a % d;
    DivScale(a, h, 2);
    var t := if rem >= h then 1 else 0;
    assert a == (2 * c + t) * h + (rem - t * h);
    DivUnique(a, h, 2 * c + t, rem - t * h);
    DivUnique(2 * c + t, 2, c, t);
  }

  lemma SnapShift(a: int, d: int, s: int)
    requires d >= 1
    ensures ((a / d + s) * d) % d == 0
    ensures (a / d + s) * d - a == s * d - a % d
  {
    DivUnique((a / d + s) * d, d, a / d + s, 0);
  }

  /** The multiples of 2^p are exactly the values the rounding leaves alone. */
  lemma SnapFixedPoints(g: Grid, a: int)
    requires g.sizePower < 63
    requires I64_MIN <= a <= I64_MAX
    ensures g.SnapToGridValue(a) == a <==> a % Pow2(g.sizePower) == 0
  {
    var d := Pow2(g.sizePower);
    var s := ((2 * a) / d) % 2;
    SnapWrapBit(a, g.sizePower);
    SnapAnalysis(a, g.sizePower);
    SnapShift(a, d, s);
    if a % d == 0 && g.sizePower > 0 {
      Pow2Monotone(0, g.sizePower - 1);
      SnapTop(a, g.sizePower, s);
    }
  }

  /** Rounding twice is rounding once, for every `i64`, wrapped results included. */
  lemma SnapIdempotent(g: Grid, a: int)
    requires g.sizePower < 63
    requires I64_MIN <= a <= I64_MAX
    ensures g.SnapToGridValue(g.SnapToGridValue(a)) == g.SnapToGridValue(a)
  {
    SnapFixedPoints(g, g.SnapToGridValue(a));
  }

  /**
    Among the multiples of 2^p, the rounded value is the only one in the
    window (a - 2^(p-1), a + 2^(p-1)], as long as that window stays in `i64`.
   */
  lemma SnapNearest(g: Grid, a: int, m: int)
    requires 0 < g.sizePower < 63
    requires I64_MIN <= a && a + Pow2(g.sizePower - 1) <= I64_MAX
    requires m % Pow2(g.sizePower) == 0
    requires a - m < Pow2(g.sizePower - 1) && m - a <= Pow2(g.sizePower - 1)
    ensures m == g.SnapToGridValue(a)
  {
    var d := Pow2(g.sizePower);
    var r := g.SnapToGridValue(a);
    assert d == 2 * Pow2(g.sizePower - 1);
    UniqueMultiple(m, r, d);
  }

  /** Two multiples of d closer than d to each other are equal. */
  lemma UniqueMultiple(m: int, r: int, d: int)
    requires d > 0 && m % d == 0 && r % d == 0 && -d < m - r < d
    ensures m == r
  {
    var k := m / d - r / d;
    DivUnique(m, d, m / d, 0);
    DivUnique(r, d, r / d, 0);
    assert (m / d) * d - (r / d) * d == k * d;
    MulSign(k, d);
  }

  /** The unit tests with a 16-wide grid. */
  lemma SnapExamples()
    ensures New(0, 4).SnapToGridValue(7) == 0
    ensures New(0, 4).SnapToGridValue(8) == 16
    ensures New(0, 4).SnapToGridValue(-7) == 0
    ensures New(0, 4).SnapToGridValue(-9) == -16
  {
    var g := New(0, 4);
    assert Pow2(3) == 8 && Pow2(4) == 16;
    SnapNearest(g, 7, 0);
    SnapNearest(g, 8, 16);
    SnapNearest(g, -7, 0);
    SnapNearest(g, -9, -16);
  }

  /**
    Near the top of the range: i64::MAX - 8 still rounds down, while
    i64::MAX rounds up to 2^63, which `<< 4` wraps to i64::MIN.
   */
  lemma SnapTopExamples()
    ensures New(0, 4).SnapToGridValue(I64_MAX - 8) == I64_MAX - 15
    ensures New(0, 4).SnapToGridValue(I64_MAX) == I64_MIN
  {
    var g := New(0, 4);
    assert Pow2(3) == 8 && Pow2(4) == 16;
    SnapNearest(g, I64_MAX - 8, I64_MAX - 15);
  }
}
