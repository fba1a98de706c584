/** The multiply-accumulate kernels am1, am2 and am3, one digit at a time. */
module Kernels {
  import opened JsInt
  import opened Digits

  // ---------------------------------------------------------------- one step of a kernel

  /** What every kernel owes for one digit: the exact multiply-accumulate, again in range. */
  ghost predicate Accumulated(x: int, d: int, w: int, c: int, digit: int, carry: int) {
    && digit + carry * DV == x * d + w + c
    && 0 <= digit < DV && 0 <= carry <= x
  }

  /** The carry never exceeds the multiplier, whatever the three summands. */
  lemma CarryBound(x: int, d: int, w: int, c: int, b: int, digit: int, carry: int)
    requires 0 <= d < b && 0 <= w < b && 0 <= c <= x
    requires digit + carry * b == x * d + w + c && 0 <= digit < b
    ensures 0 <= carry <= x
  {
    MulUpper(x, d, b - 1);
    assert x * (b - 1) == x * b - x;
    Below(carry, x + 1, b);
    Below(-1, carry, b);
  }

  lemma MulUpper(x: int, d: int, m: int)
    requires 0 <= x && 0 <= d <= m
    ensures 0 <= x * d <= x * m
  {
  }

  lemma MulNonNegative(x: int, w: int)
    requires x >= 0 && w >= 0
    ensures x * w >= 0
  {
  }

  /** A product smaller by a positive factor comes from a smaller number. */
  lemma Below(a: int, c: int, b: int)
    requires b > 0 && a * b < c * b
    ensures a < c
  {
    assert b * (a - c) == a * b - c * b;
    if a >= c {
      MulUpper(b, 0, a - c);
    }
  }

  /** The multipliers of a kernel stay below 2 * DV, except that with 26-bit digits a division whose estimate was
      too low goes on with multipliers up to 2 * DV + 2. */
  const MULTIPLIERS: int := if DB == 26 then 2 * DV + 3 else 2 * DV

  // ---------------------------------------------------------------- one step of each kernel

  /** The product and sum stay below 2^53, so floating point is exact. */
  lemma Am1Fits(x: int, a: int, b: int, c: int)
    requires DB == 26 && 0 <= a < DV && 0 <= b < DV && 0 <= c <= x < 2 * DV
    ensures 0 <= x * a <= x * a + b + c < 0x20_0000_0000_0000
  {
    MulUpper(x, a, 0x3ff_ffff);
  }

  method Am1Digit(x: int, a: int, b: int, c: int) returns (digit: int, carry: int)
    requires DB == 26 && 0 <= a < DV && 0 <= b < DV && 0 <= c <= x < MULTIPLIERS
    ensures Accumulated(x, a, b, c, digit, carry)
  {
    var v := x * a + b + c;
    MulUpper(x, a, 0x3ff_ffff);
    carry := v / 0x400_0000;
    digit := Low(v, 26);
    LowMod(v, 26);
    Pow2Values();
    CarryBound(x, a, b, c, DV, digit, carry);
  }

  /** The product put together from halves of g = 2^k each. */
  lemma HalvesAlgebra(xl: int, xh: int, l: int, h: int, ml: int, mh: int, g: int, v: int, r: int, vl: int, vh: int)
    requires xh * l + h * xl == ml + mh * g
    requires v == xl * l + ml * g + r && v == vl + vh * (g * g)
    ensures vl + (vh + mh + xh * h) * (g * g) == (xl + xh * g) * (l + h * g) + r
  {
    assert (xl + xh * g) * (l + h * g) == xl * l + (xh * l + h * xl) * g + xh * h * (g * g);
    assert (ml + mh * g) * g == ml * g + mh * (g * g);
  }

  /** The two halves of a 30-bit operand, and the middle products. */
  lemma Am2Halves(x: int, a: int)
    requires DB == 30 && 0 <= a < DV && 0 <= x < 2 * DV
    ensures var xl, xh, l, h := Low(x, 15), Shr(x, 15), Low(a, 15), Shr(a, 15);
            && x == xl + xh * 0x8000 && a == l + h * 0x8000
            && 0 <= xl * l <= 0x7fff * 0x7fff && 0 <= xh * l <= 0xffff * 0x7fff && 0 <= h * xl <= 0x7fff * 0x7fff
  {
    Pow2Values();
    ShrSplit(x, 15);
    ShrSplit(a, 15);
    var xl, xh, l, h := Low(x, 15), Shr(x, 15), Low(a, 15), Shr(a, 15);
    MulUpper(xh, l, 0x7fff);
    MulUpper(xl, h, 0x7fff);
    MulUpper(xl, l, 0x7fff);
  }

  /** Both accumulators stay below 2^32, so >>> sees them whole. */
  lemma Am2Fits(x: int, a: int, b: int, c: int)
    requires DB == 30 && 0 <= a < DV && 0 <= b < DV && 0 <= c <= x < 2 * DV
    ensures var xl, xh, l, h := Low(x, 15), Shr(x, 15), Low(a, 15), Shr(a, 15);
            var m := xh * l + h * xl;
            0 <= m < 0x1_0000_0000 && 0 <= xl * l + Shl(Low(m, 15), 15) + b + Low(c, 30) < 0x1_0000_0000
  {
    hide Low, Ushr, Shr, Shl;
    Am2Halves(x, a);
    Am2Middle(Shr(x, 15) * Low(a, 15) + Shr(a, 15) * Low(x, 15));
    Am2Carry(c);
  }

  method Am2Digit(x: int, xl: int, xh: int, a: int, b: int, c: int) returns (digit: int, carry: int)
    requires DB == 30 && 0 <= a < DV && 0 <= b < DV && 0 <= c <= x < 2 * DV
    requires xl == Low(x, 15) && xh == Shr(x, 15)
    ensures Accumulated(x, a, b, c, digit, carry)
  {
    hide Low, Ushr, Shr, Shl;
    var l, h := Low(a, 15), Shr(a, 15);
    var m := xh * l + h * xl;
    Am2Halves(x, a);
    Am2Fits(x, a, b, c);
    Am2Middle(m);
    var v := xl * l + Shl(Low(m, 15), 15) + b + Low(c, 30);
    Am2Carry(c);
    UshrSplit(v, 30);
    Pow2Values();
    carry := Ushr(v, 30) + Ushr(m, 15) + xh * h + Ushr(c, 30);
    digit := Low(v, 30);
    HalvesAlgebra(xl, xh, l, h, Low(m, 15), Ushr(m, 15), 0x8000, v, b + Low(c, 30), digit, Ushr(v, 30));
    CarryBound(x, a, b, c, DV, digit, carry);
  }

  lemma Am2Middle(m: int)
    requires 0 <= m < 0x1_0000_0000
    ensures m == Low(m, 15) + Ushr(m, 15) * 0x8000 && 0 <= Low(m, 15) < 0x8000
    ensures Shl(Low(m, 15), 15) == Low(m, 15) * 0x8000
  {
    Pow2Values();
    UshrSplit(m, 15);
    ShlSmall(Low(m, 15), 15);
  }

  lemma Am2Carry(c: int)
    requires 0 <= c < 0x1_0000_0000
    ensures c == Low(c, 30) + Ushr(c, 30) * 0x4000_0000 && 0 <= Low(c, 30) < 0x4000_0000
  {
    Pow2Values();
    UshrSplit(c, 30);
  }

  /** The two halves of a 28-bit operand, and the middle products. */
  lemma Am3Halves(x: int, a: int)
    requires DB == 28 && 0 <= a < DV && 0 <= x < 2 * DV
    ensures var xl, xh, l, h := Low(x, 14), Shr(x, 14), Low(a, 14), Shr(a, 14);
            && x == xl + xh * 0x4000 && a == l + h * 0x4000
            && 0 <= xl * l <= 0x3fff * 0x3fff && 0 <= xh * l <= 0x7fff * 0x3fff && 0 <= h * xl <= 0x3fff * 0x3fff
  {
    Pow2Values();
    ShrSplit(x, 14);
    ShrSplit(a, 14);
    var xl, xh, l, h := Low(x, 14), Shr(x, 14), Low(a, 14), Shr(a, 14);
    MulUpper(xh, l, 0x3fff);
    MulUpper(xl, h, 0x3fff);
    MulUpper(xl, l, 0x3fff);
  }

  /** Both accumulators stay below 2^31, so >> sees them whole and positive. */
  lemma Am3Fits(x: int, a: int, b: int, c: int)
    requires DB == 28 && 0 <= a < DV && 0 <= b < DV && 0 <= c <= x < 2 * DV
    ensures var xl, xh, l, h := Low(x, 14), Shr(x, 14), Low(a, 14), Shr(a, 14);
            var m := xh * l + h * xl;
            0 <= m < 0x8000_0000 && 0 <= xl * l + Shl(Low(m, 14), 14) + b + c < 0x8000_0000
  {
    hide Low, Shr, Shl;
    Am3Halves(x, a);
    Am3Middle(Shr(x, 14) * Low(a, 14) + Shr(a, 14) * Low(x, 14));
  }

  method Am3Digit(x: int, xl: int, xh: int, a: int, b: int, c: int) returns (digit: int, carry: int)
    requires DB == 28 && 0 <= a < DV && 0 <= b < DV && 0 <= c <= x < 2 * DV
    requires xl == Low(x, 14) && xh == Shr(x, 14)
    ensures Accumulated(x, a, b, c, digit, carry)
  {
    hide Low, Shr, Shl;
    var l, h := Low(a, 14), Shr(a, 14);
    var m := xh * l + h * xl;
    Am3Halves(x, a);
    Am3Fits(x, a, b, c);
    Am3Middle(m);
    var v := xl * l + Shl(Low(m, 14), 14) + b + c;
    ShrSplit(v, 28);
    Pow2Values();
    carry := Shr(v, 28) + Shr(m, 14) + xh * h;
    digit := Low(v, 28);
    HalvesAlgebra(xl, xh, l, h, Low(m, 14), Shr(m, 14), 0x4000, v, b + c, digit, Shr(v, 28));
    CarryBound(x, a, b, c, DV, digit, carry);
  }

  lemma Am3Middle(m: int)
    requires 0 <= m < 0x8000_0000
    ensures m == Low(m, 14) + Shr(m, 14) * 0x4000 && 0 <= Low(m, 14) < 0x4000
    ensures Shl(Low(m, 14), 14) == Low(m, 14) * 0x4000
  {
    Pow2Values();
    ShrSplit(m, 14);
    ShlSmall(Low(m, 14), 14);
  }

  // ---------------------------------------------------------------- the running sum of a kernel

  /** After k digits: the digits of w and the carry hold what the multiply-accumulate owes. */
  ghost predicate KernelSum(e: DigitMap, carry: int, d: DigitMap, src: DigitMap, i: int, j: int, k: nat, x: int,
                            c: int) {
    Val(e, j, k) + carry * Weight(k) == Val(d, j, k) + x * Val(src, i, k) + c
  }

  lemma KernelStart(d: DigitMap, src: DigitMap, i: int, j: int, x: int, c: int)
    ensures KernelSum(d, c, d, src, i, j, 0, x, c)
  {
  }

  lemma KernelStep(d: DigitMap, e: DigitMap, i: int, j: int, k: nat,
                   x: int, c: int, carry: int, digit: int, carry': int, src: DigitMap)
    requires At(d, j + k) == At(e, j + k)
    requires KernelSum(e, carry, d, src, i, j, k, x, c)
    requires digit + carry' * DV == x * At(src, i + k) + At(e, j + k) + carry
    ensures KernelSum(e[j + k := digit], carry', d, src, i, j, k + 1, x, c)
  {
    ValFrame(e, e[j + k := digit], j, k);
    KernelAlgebra(digit, carry', DV, x, At(src, i + k), At(d, j + k), carry, Weight(k), Val(src, i, k));
  }

  lemma KernelEnd(e: DigitMap, carry: int, d: DigitMap, src: DigitMap, i: int, j: int, n: nat, x: int, c: int)
    requires KernelSum(e, carry, d, src, i, j, n, x, c)
    ensures Val(e, j, n) + carry * Weight(n) == Val(d, j, n) + x * Val(src, i, n) + c
  {
  }

  lemma KernelAlgebra(digit: int, carry': int, b: int, x: int, s: int, w: int, carry: int, p: int, v: int)
    requires digit + carry' * b == x * s + w + carry
    ensures digit * p + carry' * (b * p) == carry * p + w * p + x * (v + s * p) - x * v
  {
    assert (digit + carry' * b) * p == (x * s + w + carry) * p;
  }
}
