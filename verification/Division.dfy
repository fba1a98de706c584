/** The arithmetic behind divRemTo: normalisation, the estimated digit, and what the remainder
    buffer holds while a digit is being corrected.

    With O the normalised divisor of L digits, w = DV^j its shift and the buffer split at digit
    L + j, the buffer starts a round as X = R + Q * DV^(L+j+1) with R < O * DV^(j+1).  Adding
    v * (DV^L - O) * w puts v, less one borrow for each unit v is too large by, into digit L + j.
 */
module Division {
  import opened JsInt
  import opened Digits
  import opened Kernels
  import opened DigitLemmas

  // ---------------------------------------------------------------- division with truncated signs

  function AbsInt(x: int): nat {
    if x < 0 then -x else x
  }

  function TruncQuotient(a: int, b: int): int
    requires b != 0
  {
    var q := AbsInt(a) / AbsInt(b);
    if (a < 0) == (b < 0) then q else -q
  }

  function TruncRemainder(a: int, b: int): int
    requires b != 0
  {
    var r := AbsInt(a) % AbsInt(b);
    if a < 0 then -r else r
  }

  lemma TruncDivision(a: int, b: int)
    requires b != 0
    ensures a == TruncQuotient(a, b) * b + TruncRemainder(a, b)
    ensures AbsInt(TruncRemainder(a, b)) < AbsInt(b)
    ensures TruncRemainder(a, b) == 0 || (TruncRemainder(a, b) < 0) == (a < 0)
  {
    DivMod(AbsInt(a), AbsInt(b));
    var q, r := AbsInt(a) / AbsInt(b), AbsInt(a) % AbsInt(b);
    assert TruncQuotient(a, b) == if (a < 0) == (b < 0) then q else -q;
    assert TruncRemainder(a, b) == if a < 0 then -r else r;
    hide TruncQuotient, TruncRemainder;
    SignedDivision(AbsInt(a), q, AbsInt(b), r);
  }

  lemma SignedDivision(x: int, q: int, m: int, r: int)
    requires x == r + q * m
    ensures -x == q * (-m) + (-r) && -x == (-q) * m + (-r) && x == (-q) * (-m) + r
  {
    assert q * (-m) == -(q * m) && (-q) * m == -(q * m) && (-q) * (-m) == q * m;
  }

  lemma SmallDividend(a: int, b: int)
    requires AbsInt(a) < AbsInt(b)
    ensures TruncQuotient(a, b) == 0 && TruncRemainder(a, b) == a
  {
    DivModUnique(AbsInt(a), AbsInt(b), 0, AbsInt(a));
  }

  lemma LongDividend(a: int, b: int)
    requires b != 0
    ensures TruncQuotient(a, b) == (if (a < 0) == (b < 0) then 1 else -1) * (AbsInt(a) / AbsInt(b))
    ensures TruncRemainder(a, b) == (if a < 0 then -1 else 1) * (AbsInt(a) % AbsInt(b))
  {
  }

  /** Scaling dividend and divisor alike scales the remainder only. */
  lemma Unscale(v: int, w: int, p: int)
    requires v >= 0 && w > 0 && p > 0
    ensures w * p > 0 && (v * p) / (w * p) == v / w && (v * p) % (w * p) == (v % w) * p
    ensures 0 <= (v % w) * p < w * p && v / w >= 0
  {
    DivMod(v, w);
    MulUpper(p, 1, w);
    SmallerProduct(v % w, w, p);
    MulUpper(p, 0, v % w);
    assert v * p == (v / w) * (w * p) + (v % w) * p by {
      Distribute((v / w) * w, v % w, p);
    }
    DivModUnique(v * p, w * p, v / w, (v % w) * p);
  }

  // ---------------------------------------------------------------- bit length of a digit

  /** e = x >>> k, kept when it is not zero: one line of nbits. */
  function Narrow(x: int, k: nat): (int, int) {
    var e := Ushr(x, k);
    if e != 0 then (e, k) else (x, 0)
  }

  function NBits2(x: int): int {
    var (e, n) := Narrow(x, 1);
    n
  }

  function NBits4(x: int): int {
    var (d, n) := Narrow(x, 2);
    n + NBits2(d)
  }

  function NBits8(x: int): int {
    var (c, n) := Narrow(x, 4);
    n + NBits4(c)
  }

  function NBits16(x: int): int {
    var (b, n) := Narrow(x, 8);
    n + NBits8(b)
  }

  /** The five lines of nbits, the counter starting at 1. */
  function NBits(x: int): int {
    var (a, n) := Narrow(x, 16);
    1 + n + NBits16(a)
  }

  /** x without its n low bits is y. */
  ghost predicate Cuts(x: int, y: int, n: nat) {
    y * Pow2(n) <= x < (y + 1) * Pow2(n)
  }

  lemma CutsIntro(x: int, low: int, y: int, n: nat)
    requires x == low + y * Pow2(n) && 0 <= low < Pow2(n)
    ensures Cuts(x, y, n)
  {
    Distribute(y, 1, Pow2(n));
  }

  lemma SmallQuotient(x: int, low: int, y: int, p: int)
    requires x == low + y * p && 0 <= low < p && 0 <= y && x < p * p
    ensures y < p && y <= x
  {
    Below(y, p, p);
    MulUpper(y, 1, p);
  }

  lemma NarrowSpec(x: int, k: nat)
    requires 0 < k <= 16 && 1 <= x < Pow2(2 * k) && x < 0x1_0000_0000
    ensures var (y, n) := Narrow(x, k);
            (n == 0 || n == k) && 1 <= y < Pow2(k) && y <= x && Cuts(x, y, n)
  {
    hide *;
    Pow2Zero();
    UshrSplit(x, k);
    Pow2Add(k, k);
    NarrowIs(x, k);
    if Ushr(x, k) != 0 {
      CutsIntro(x, Low(x, k), Ushr(x, k), k);
      SmallQuotient(x, Low(x, k), Ushr(x, k), Pow2(k));
    } else {
      CutsIntro(x, 0, x, 0);
    }
  }

  lemma NarrowIs(x: int, k: nat)
    ensures Narrow(x, k) == if Ushr(x, k) != 0 then (Ushr(x, k), k) else (x, 0)
  {
  }

  /** Cutting twice cuts by the sum. */
  lemma CutsTwice(x: int, y: int, z: int, m: nat, n: nat)
    requires Cuts(x, y, m) && Cuts(y, z, n)
    ensures Cuts(x, z, m + n)
  {
    Pow2Add(m, n);
    hide Pow2;
    CutsAlgebra(x, y, z, Pow2(m), Pow2(n));
  }

  lemma CutsAlgebra(x: int, y: int, z: int, p: int, q: int)
    requires y * p <= x < (y + 1) * p && z * q <= y < (z + 1) * q && p > 0
    ensures z * (p * q) <= x < (z + 1) * (p * q)
  {
    MulUpper(p, 0, y - z * q);
    MulUpper(p, 0, (z + 1) * q - (y + 1));
    assert p * (y - z * q) == y * p - z * (p * q);
    assert p * ((z + 1) * q - (y + 1)) == (z + 1) * (p * q) - (y + 1) * p;
  }

  lemma CutsToOne(x: int, n: nat)
    requires Cuts(x, 1, n)
    ensures Pow2(n) <= x < Pow2(n + 1)
  {
  }

  lemma NBits2Spec(x: int)
    requires 1 <= x < Pow2(2)
    ensures 0 <= NBits2(x) <= 1 && Cuts(x, 1, NBits2(x))
  {
    assert Pow2(1) == 2 && Pow2(2) == 4;
    hide Narrow, Pow2, Cuts;
    NarrowSpec(x, 1);
  }

  lemma NBits4Spec(x: int)
    requires 1 <= x < Pow2(4) && x < 0x1_0000_0000
    ensures 0 <= NBits4(x) <= 3 && Cuts(x, 1, NBits4(x))
  {
    hide Narrow, Pow2, Cuts, NBits2;
    NarrowSpec(x, 2);
    var (y, n) := Narrow(x, 2);
    NBits2Spec(y);
    CutsTwice(x, y, 1, n, NBits2(y));
  }

  lemma NBits8Spec(x: int)
    requires 1 <= x < Pow2(8) && x < 0x1_0000_0000
    ensures 0 <= NBits8(x) <= 7 && Cuts(x, 1, NBits8(x))
  {
    hide Narrow, Pow2, Cuts, NBits4;
    NarrowSpec(x, 4);
    var (y, n) := Narrow(x, 4);
    NBits4Spec(y);
    CutsTwice(x, y, 1, n, NBits4(y));
  }

  lemma NBits16Spec(x: int)
    requires 1 <= x < Pow2(16) && x < 0x1_0000_0000
    ensures 0 <= NBits16(x) <= 15 && Cuts(x, 1, NBits16(x))
  {
    hide Narrow, Pow2, Cuts, NBits8;
    NarrowSpec(x, 8);
    var (y, n) := Narrow(x, 8);
    NBits8Spec(y);
    CutsTwice(x, y, 1, n, NBits8(y));
  }

  /** nbits is the bit length. */
  lemma NBitsSpec(x: int)
    requires 1 <= x < 0x1_0000_0000
    ensures 1 <= NBits(x) <= 32
    ensures Pow2(NBits(x) - 1) <= x < Pow2(NBits(x))
  {
    Pow2Values();
    assert Pow2(2 * 16) == Pow2(32);
    hide Narrow, Pow2, Cuts, NBits16;
    NarrowSpec(x, 16);
    var (y, n) := Narrow(x, 16);
    NBits16Spec(y);
    CutsTwice(x, y, 1, n, NBits16(y));
    CutsToOne(x, n + NBits16(y));
  }

  /** The shift that brings a digit's top bit up. */
  lemma TopGap(x: int)
    requires 1 <= x < DV
    ensures var c := DB - NBits(x); 0 <= c < DB && Pow2(DB - c - 1) <= x < Pow2(DB - c)
  {
    NBitsSpec(x);
    BaseIsPower();
    hide NBits, Pow2;
    if NBits(x) - 1 >= DB {
      Pow2Monotone(DB, NBits(x) - 1);
    }
  }

  // ---------------------------------------------------------------- normalisation

  /** Shifted so that its top bit is the top bit of a digit, a number keeps its length. */
  lemma Normalised(v: int, t: nat, top: int, c: nat)
    requires t > 0 && top * Weight(t - 1) <= v < (top + 1) * Weight(t - 1)
    requires c < DB && Pow2(DB - c - 1) <= top < Pow2(DB - c)
    ensures Weight(t) <= 2 * (v * Pow2(c)) && v * Pow2(c) < Weight(t)
  {
    BaseIsPower();
    Pow2Add(c, DB - c);
    Pow2Add(c, DB - c - 1);
    assert Pow2(DB - c) == 2 * Pow2(DB - c - 1);
    hide Pow2;
    WeightNext(t - 1);
    hide Weight;
    NormalAlgebra(v, top, Weight(t - 1), Pow2(c), Pow2(DB - c - 1));
  }

  lemma TopAtLeastHalf(v: int, top: int, w: int, b: int)
    requires b * w <= 2 * v && v < (top + 1) * w && w > 0
    ensures b < 2 * top + 2
  {
    assert (2 * top + 2) * w == 2 * ((top + 1) * w);
    Below(b, 2 * top + 2, w);
  }

  /** A number of t digits lies between its top digit and the next, at that weight. */
  lemma TopBounds(d: DigitMap, t: nat)
    requires t > 0 && Proper(d, 0, t)
    ensures d[t - 1] * Weight(t - 1) <= Num(d, t, 0) < (d[t - 1] + 1) * Weight(t - 1)
  {
    ValBound(d, 0, t - 1);
    Distribute(d[t - 1], 1, Weight(t - 1));
  }

  lemma NormalAlgebra(v: int, top: int, w: int, p: int, h: int)
    requires p > 0 && w > 0 && h <= top < 2 * h && top * w <= v < (top + 1) * w
    ensures (p * (2 * h)) * w <= 2 * (v * p) && v * p < (p * (2 * h)) * w
  {
    MulUpper(w, h, top);
    assert h * w <= v;
    MulUpper(p, 0, v - h * w);
    assert p * (v - h * w) == v * p - (p * h) * w;
    MulUpper(w, top + 1, 2 * h);
    assert v < 2 * h * w;
    MulUpper(p, 0, 2 * h * w - v - 1);
    assert p * (2 * h * w - v - 1) == (p * (2 * h)) * w - v * p - p;
  }

  // ---------------------------------------------------------------- reading one digit

  lemma ReadDigit(d: DigitMap, t: nat, m: nat)
    requires m < t
    ensures Val(d, 0, t) == Val(d, 0, m) + Weight(m) * (At(d, m) + DV * Val(d, m + 1, t - m - 1))
  {
    hide Val, Weight;
    ValSplit(d, 0, m, t - m);
    ValHead(d, m, t - m);
  }

  /** The buffer holds v exactly in its digit m. */
  lemma DigitExact(a: int, x: int, top: int, r: int, v: int, q: int, w: int, b: int)
    requires a + w * (x + b * top) == r + v * w + q * (b * w)
    requires 0 <= a < w && 0 <= r < w && 0 <= x < b && 0 <= v < b
    ensures x == v && top == q && a == r
  {
    assert (x + b * top) * w + a == (v + b * q) * w + r by {
      assert (v + b * q) * w == v * w + q * (b * w);
    }
    QuotientUnique(x + b * top, a, v + b * q, r, w);
    QuotientUnique(top, x, q, v, b);
  }

  /** A negative rest has borrowed from digit m. */
  lemma DigitLow(a: int, x: int, top: int, r: int, v: int, q: int, w: int, b: int)
    requires a + w * (x + b * top) == r + v * w + q * (b * w)
    requires 0 <= a < w && r < 0 <= r + v * w && 0 <= x < b && w > 0
    ensures x < v
  {
    LowPart(a, x, w, b);
    assert w * (x + b * top) == w * x + top * (b * w);
    HigherPart(a + w * x, top, r + v * w, q, b * w);
    Below(x, v, w);
  }

  lemma LowPart(a: int, x: int, w: int, b: int)
    requires 0 <= a < w && 0 <= x < b
    ensures 0 <= a + w * x < b * w && w * x == x * w
  {
    MulUpper(w, x, b - 1);
    assert w * (b - 1) == b * w - w;
  }

  /** With the part below in range, a larger part above means a smaller one below. */
  lemma HigherPart(s: int, top: int, s': int, q: int, m: int)
    requires s + top * m == s' + q * m && 0 <= s < m && s' >= 0
    ensures s <= s'
  {
    Distribute(top, 1, m);
    Below(q, top + 1, m);
    MulUpper(m, 0, top - q);
    assert m * (top - q) == top * m - q * m;
  }

  /** The carry of the kernel fits the digit above. */
  lemma TopFits(a: int, x: int, r: int, v: int, w: int)
    requires a + w * x == r + v * w && a >= 0 && r < w && w > 0
    ensures r < 0 ==> x < v
    ensures x <= v
  {
    assert (v + 1) * w == v * w + w && w * x == x * w;
    Below(x, v + 1, w);
    if r < 0 {
      Below(x, v, w);
    }
  }

  /** R less v shifted divisors, the digit v, and the quotient so far: what X + v * (DV^L - O) * w is. */
  lemma MidValue(x: int, r: int, q: int, v: int, o: int, wl: int, w: int, m: int, b: int)
    requires x == r + q * (b * m) && wl * w == m
    ensures x + (v * (wl - o)) * w == (r - v * (o * w)) + v * m + q * (b * m)
  {
    assert (v * (wl - o)) * w == v * (wl * w) - v * (o * w);
  }

  /** The true digit and its place among the estimates. */
  lemma TrueDigit(r: int, o: int, w: int, b: int)
    requires o > 0 && w > 0 && 0 <= r < o * (b * w)
    ensures o * w > 0 && 0 <= r / (o * w) < b
    ensures forall v: int {:trigger v * (o * w)} ::
              && (v > r / (o * w) ==> r - v * (o * w) < 0)
              && (v >= r / (o * w) ==> r - v * (o * w) < o * w)
              && (v == r / (o * w) ==> 0 <= r - v * (o * w))
  {
    var p := o * w;
    assert p > 0 by { MulUpper(w, 1, o); }
    var q := r / p;
    DivMod(r, p);
    assert o * (b * w) == b * p;
    Below(q, b, p);
    forall v: int
      ensures (v > q ==> r - v * p < 0) && (v >= q ==> r - v * p < p) && (v == q ==> 0 <= r - v * p)
    {
      assert (v - q) * p == v * p - q * p;
      if v > q {
        MulGe(v - q, p);
      }
    }
  }

  /** With the exact digit the round invariant moves down one place. */
  lemma RoundDone(x: int, r: int, q: int, v: int, o: int, w: int, m: int, b: int)
    requires x == (r - v * (o * w)) + v * m + q * (b * m)
    ensures x == (r - v * (o * w)) + (v + b * q) * m
    ensures (r - v * (o * w)) + (v + b * q) * (o * w) == r + q * (o * (b * w))
  {
    assert (v + b * q) * m == v * m + q * (b * m);
    assert (v + b * q) * (o * w) == v * (o * w) + q * (o * (b * w));
  }

  // ---------------------------------------------------------------- the kernel's effect

  lemma AmEffect(d: DigitMap, e: DigitMap, t: nat, j: nat, l: nat, gain: int, carry: int)
    requires j + l < t && Same(d, e, 0, j) && Same(d, e, j + l, t)
    requires Val(e, j, l) + carry * Weight(l) == Val(d, j, l) + gain
    ensures Val(e[j + l := At(e, j + l) + carry], 0, t) == Val(d, 0, t) + gain * Weight(j)
  {
    hide Val, Weight;
    ValRange(d, e, j, l, t);
    ValPut(e, 0, t, j + l, At(e, j + l) + carry);
    WeightAdd(j, l);
    EffectAlgebra(Val(e, j, l), Val(d, j, l), carry, Weight(l), gain, Weight(j));
  }

  lemma EffectAlgebra(ve: int, vd: int, carry: int, w: int, gain: int, p: int)
    requires ve + carry * w == vd + gain
    ensures p * (ve - vd) + carry * (p * w) == gain * p
  {
    assert carry * (p * w) == p * (carry * w);
    assert p * (ve - vd + carry * w) == p * gain;
  }

  // ---------------------------------------------------------------- one round

  /** A round at place j: the divisor o of l digits, the rest r and the quotient q so far. */
  ghost predicate Round(o: int, l: nat, j: nat, r: int, q: int) {
    0 < o < Weight(l) && 0 <= r < o * (DV * Weight(j)) && q >= 0
  }

  ghost function RoundValue(l: nat, j: nat, r: int, q: int): int {
    r + q * (DV * Weight(l + j))
  }

  function RoundDigit(o: int, j: nat, r: int): int
  {
    if o * Weight(j) > 0 then r / (o * Weight(j)) else 0
  }

  /** The buffer while v is being corrected. */
  ghost function Corrected(o: int, l: nat, j: nat, r: int, q: int, v: int): int {
    RoundValue(l, j, r, q) + (v * (Weight(l) - o)) * Weight(j)
  }

  lemma CorrectedSplits(o: int, l: nat, j: nat, r: int, q: int, v: int)
    requires Round(o, l, j, r, q) && RoundDigit(o, j, r) <= v
    ensures var rest := r - v * (o * Weight(j));
            && Corrected(o, l, j, r, q, v) == rest + v * Weight(l + j) + q * (DV * Weight(l + j))
            && rest < Weight(l + j) && rest + v * Weight(l + j) >= 0
            && (rest < 0 <==> v > RoundDigit(o, j, r))
            && 0 <= RoundDigit(o, j, r) < DV
  {
    var w := Weight(j);
    WeightAdd(l, j);
    TrueDigit(r, o, w, DV);
    assert o * w > 0;
    var rest := r - v * (o * w);
    assert RoundDigit(o, j, r) == r / (o * w);
    MidValue(RoundValue(l, j, r, q), r, q, v, o, Weight(l), w, Weight(l + j), DV);
    SmallerProduct(o, Weight(l), w);
    RestPositive(r, v, o * w, Weight(l + j));
  }

  lemma SmallerProduct(o: int, wl: int, w: int)
    requires o < wl && w > 0
    ensures o * w < wl * w
  {
  }

  lemma RestPositive(r: int, v: int, p: int, m: int)
    requires r >= 0 && v >= 0 && p < m
    ensures r - v * p + v * m >= 0
  {
    MulUpper(v, 0, m - p);
    assert v * (m - p) == v * m - v * p;
  }

  /** The digit in place l + j tells whether v is still too large. */
  lemma DigitTells(d: DigitMap, t: nat, o: int, l: nat, j: nat, r: int, q: int, v: int)
    requires Proper(d, 0, t) && l + j < t && Round(o, l, j, r, q)
    requires RoundDigit(o, j, r) <= v <= DV && Val(d, 0, t) == Corrected(o, l, j, r, q, v)
    ensures d[l + j] < v <==> v > RoundDigit(o, j, r)
  {
    hide Val, Weight, Round, RoundDigit, RoundValue, Corrected;
    var m := l + j;
    CorrectedSplits(o, l, j, r, q, v);
    ReadDigit(d, t, m);
    ValBound(d, 0, m);
    var rest := r - v * (o * Weight(j));
    if rest < 0 {
      DigitLow(Val(d, 0, m), d[m], Val(d, m + 1, t - m - 1), rest, v, q, Weight(m), DV);
    } else {
      DigitExact(Val(d, 0, m), d[m], Val(d, m + 1, t - m - 1), rest, v, q, Weight(m), DV);
    }
  }

  /** After the kernel the buffer holds Corrected(v), in proper digits. */
  lemma AfterKernel(d: DigitMap, e: DigitMap, y: DigitMap, t: nat, o: int, l: nat, j: nat, r: int, q: int, v: int,
                    carry: int)
    requires Proper(d, 0, t) && Proper(e, 0, t) && l + j < t && Round(o, l, j, r, q)
    requires Same(d, e, 0, j) && Same(d, e, j + l, t)
    requires RoundDigit(o, j, r) <= v <= DV && Val(d, 0, t) == RoundValue(l, j, r, q)
    requires Val(y, 0, l) == Weight(l) - o && carry >= 0
    requires Val(e, j, l) + carry * Weight(l) == Val(d, j, l) + v * Val(y, 0, l)
    ensures var f := e[l + j := e[l + j] + carry];
            Val(f, 0, t) == Corrected(o, l, j, r, q, v) && Proper(f, 0, t)
  {
    hide Val, Weight, Round, RoundDigit, RoundValue;
    assert Corrected(o, l, j, r, q, v) == RoundValue(l, j, r, q) + (v * (Weight(l) - o)) * Weight(j);
    hide Corrected;
    var m := l + j;
    var x := e[m] + carry;
    var f := e[m := x];
    AmEffect(d, e, t, j, l, v * (Weight(l) - o), carry);
    CorrectedSplits(o, l, j, r, q, v);
    TopIsQuotient(d, t, m, r, q, o, l, j);
    ReadDigit(f, t, m);
    ValFrame(f, e, m + 1, t - m - 1);
    ValFrame(d, e, m + 1, t - m - 1);
    ValFrame(f, e, 0, m);
    ValBound(e, 0, m);
    KernelTop(Val(f, 0, m), x, r - v * (o * Weight(j)), v, q, Weight(m), DV, Corrected(o, l, j, r, q, v));
    assert 0 <= x < DV;
    hide Same;
    ProperStays(e, t, m, x);
  }

  lemma ProperStays(e: DigitMap, t: nat, m: nat, x: int)
    requires Proper(e, 0, t) && m < t && 0 <= x < DV
    ensures Proper(e[m := x], 0, t)
  {
    var f := e[m := x];
    forall k | 0 <= k < t
      ensures k in f && 0 <= f[k] < DV
    {
      assert k in e && At(e, k) == e[k];
    }
  }

  lemma TopGrows(d: DigitMap, e: DigitMap, t: nat, j: nat, l: nat, carry: int)
    requires l + j < t && Proper(d, 0, t) && Proper(e, 0, t) && Same(d, e, j + l, t) && carry >= 0
    ensures At(e[l + j := e[l + j] + carry], t - 1) >= d[t - 1]
  {
    assert At(d, t - 1) == At(e, t - 1);
  }

  /** The digits above place l + j are the quotient so far. */
  lemma TopIsQuotient(d: DigitMap, t: nat, m: nat, r: int, q: int, o: int, l: nat, j: nat)
    requires Proper(d, 0, t) && m == l + j < t && Round(o, l, j, r, q)
    requires Val(d, 0, t) == RoundValue(l, j, r, q)
    ensures Val(d, m + 1, t - m - 1) == q
  {
    hide Val, Weight;
    var rest := t - m - 1;
    ValSplit(d, 0, m + 1, rest);
    ValBound(d, 0, m + 1);
    WeightNext(m);
    WeightAdd(l, j);
    SmallerProduct(o, Weight(l), DV * Weight(j));
    MulSwap(DV, Weight(l), Weight(j));
    TopUnique(Val(d, m + 1, rest), Val(d, 0, m + 1), q, r, DV * Weight(m));
  }

  lemma TopUnique(top: int, low: int, q: int, r: int, m: int)
    requires low + m * top == r + q * m && 0 <= low < m && 0 <= r < m
    ensures top == q
  {
    QuotientUnique(top, low, q, r, m);
  }

  lemma KernelTop(a: int, x: int, rest: int, v: int, q: int, w: int, b: int, total: int)
    requires total == a + w * (x + b * q) && total == rest + v * w + q * (b * w)
    requires a >= 0 && w > 0 && rest < w && 0 <= v <= b && (rest >= 0 ==> v < b)
    ensures x < b
  {
    assert w * (x + b * q) == w * x + q * (b * w);
    TopFits(a, x, rest, v, w);
  }

  lemma OneLess(v: int, n: int, w: int)
    ensures (v * n) * w - n * w == ((v - 1) * n) * w
  {
  }

  /** With the true digit the round is over and the next one is set up. */
  lemma RoundOver(o: int, l: nat, j: nat, r: int, q: int)
    requires Round(o, l, j, r, q)
    ensures var v := RoundDigit(o, j, r);
            var r', q' := r - v * (o * Weight(j)), v + DV * q;
            && Corrected(o, l, j, r, q, v) == r' + q' * Weight(l + j)
            && r' + q' * (o * Weight(j)) == r + q * (o * (DV * Weight(j)))
            && 0 <= r' < o * Weight(j) && q' >= 0
  {
    var v := RoundDigit(o, j, r);
    CorrectedSplits(o, l, j, r, q, v);
    TrueDigit(r, o, Weight(j), DV);
    RoundDone(Corrected(o, l, j, r, q, v), r, q, v, o, Weight(j), Weight(l + j), DV);
    MulGeOne(DV, q);
  }

  // ---------------------------------------------------------------- numbers and lengths

  lemma AppendDigit(d: DigitMap, t: nat, x: int)
    ensures Val(d[t := x], 0, t + 1) == Val(d, 0, t) + x * Weight(t)
  {
    hide Weight;
    ValFrame(d, d[t := x], 0, t);
  }

  lemma AppendOne(d: DigitMap, t: nat)
    ensures Num(d[t := 1], t + 1, 0) == Num(d, t, 0) + Weight(t)
  {
    hide Weight, Val, Num;
    AppendDigit(d, t, 1);
    Unsigned(d, t);
    Unsigned(d[t := 1], t + 1);
  }

  lemma AppendZero(d: DigitMap, t: nat)
    ensures Num(d[t := 0], t + 1, 0) == Num(d, t, 0)
  {
    hide Weight, Val, Num;
    AppendDigit(d, t, 0);
    Unsigned(d, t);
    Unsigned(d[t := 0], t + 1);
  }

  lemma WeightZero()
    ensures Weight(0) == 1 && Weight(1) == DV
  {
  }

  /** Zeros above the length do not count. */
  lemma {:induction false} PaddingIsZero(d: DigitMap, t: nat, l: nat)
    requires t <= l && forall k :: t <= k < l ==> At(d, k) == 0
    ensures Val(d, 0, l) == Val(d, 0, t)
  {
    if t < l {
      PaddingIsZero(d, t, l - 1);
    }
  }

  // ---------------------------------------------------------------- before the first and after the last round

  /** With places l..l+j holding q, this much of the dividend n0 has been divided. */
  ghost predicate Divided(n0: int, o: int, l: nat, j: nat, x: int, r: int, q: int) {
    && 0 < o < Weight(l) && 0 <= r < o * Weight(j) && q >= 0
    && x == r + q * Weight(l + j) && n0 == r + q * (o * Weight(j))
  }

  /** The dividend is less than twice the shifted divisor, so its leading quotient digit is 0 or 1. */
  lemma FirstDigit(n0: int, o: int, l: nat, j: nat)
    requires 0 < o < Weight(l) && Weight(l) <= 2 * o && 0 <= n0 < Weight(l + j)
    ensures n0 < o * Weight(j) ==> Divided(n0, o, l, j, n0, n0, 0)
    ensures n0 >= o * Weight(j) ==>
      && Divided(n0, o, l, j, n0 + Weight(l + j) - o * Weight(j), n0 - o * Weight(j), 1)
      && Weight(l + j) <= n0 + Weight(l + j) - o * Weight(j) < Weight(l + j + 1)
  {
    WeightAdd(l, j);
    WeightNext(l + j);
    WeightAdd(j, l);
    hide Weight;
    FirstDigitAlgebra(n0, o, Weight(l), Weight(j), Weight(l + j));
  }

  lemma FirstDigitAlgebra(n0: int, o: int, wl: int, wj: int, w: int)
    requires 0 < o < wl <= 2 * o && 0 <= n0 < w && w == wl * wj && wj >= 1
    ensures 0 <= w - o * wj <= o * wj && w <= DV * w - w
    ensures n0 - o * wj < o * wj
  {
    MulUpper(wj, o, wl);
    MulUpper(wj, wl, 2 * o);
    assert wj * (2 * o) == 2 * (o * wj);
    MulUpper(w, 2, DV);
  }

  lemma DividedIsRound(n0: int, o: int, l: nat, j: nat, x: int, r: int, q: int)
    requires Divided(n0, o, l, j + 1, x, r, q)
    ensures Round(o, l, j, r, q) && x == RoundValue(l, j, r, q)
  {
    WeightNext(j);
    WeightNext(l + j);
  }

  lemma RoundIsDivided(n0: int, o: int, l: nat, j: nat, x: int, r: int, q: int)
    requires Divided(n0, o, l, j + 1, x, r, q)
    ensures var v := RoundDigit(o, j, r);
            Divided(n0, o, l, j, Corrected(o, l, j, r, q, v), r - v * (o * Weight(j)), v + DV * q)
  {
    DividedIsRound(n0, o, l, j, x, r, q);
    RoundOver(o, l, j, r, q);
    WeightNext(j);
  }

  lemma AllDivided(n0: int, o: int, l: nat, x: int, r: int, q: int)
    requires Divided(n0, o, l, 0, x, r, q)
    ensures q == n0 / o && r == n0 % o && x == r + q * Weight(l)
  {
    assert Weight(0) == 1;
    DivModUnique(n0, o, q, r);
  }

  /** The two parts of the buffer after the last round. */
  lemma BufferParts(d: DigitMap, t: nat, l: nat, r: int, q: int)
    requires l <= t && Proper(d, 0, t) && 0 <= r < Weight(l) && Val(d, 0, t) == r + q * Weight(l)
    ensures Val(d, 0, l) == r && Val(d, l, t - l) == q
  {
    hide Val, Weight;
    ValSplit(d, 0, l, t - l);
    ValBound(d, 0, l);
    TopUnique(Val(d, l, t - l), Val(d, 0, l), q, r, Weight(l));
  }
}
