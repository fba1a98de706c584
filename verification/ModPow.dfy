/** Modular powers: the Classic and Montgomery reductions and the square-and-multiply loop. */
module ModPow {
  import opened JsInt
  import opened Digits
  import opened Kernels
  import opened DigitLemmas
  import opened Division
  import opened Estimates
  import opened Rounds
  import opened Congruence
  import opened BigIntegers

  // ---------------------------------------------------------------- the inverse of a digit

  /** Newton's step doubles the number of correct bits. */
  lemma NewtonStep(x: int, y: int, q: int, p: int, f: int)
    requires Cong(x * y, 1, q) && q > 0 && p > 0 && f > 0 && q * q == p * f
    ensures Cong(x * (y * (2 - x * y)), 1, p)
  {
    var k := CongElim(x * y, 1, q);
    NewtonAlgebra(x, y, k, q, p, f);
    CongIntro(x * (y * (2 - x * y)), 1, p, -(k * k * f));
  }

  lemma NewtonAlgebra(x: int, y: int, k: int, q: int, p: int, f: int)
    requires x * y - 1 == k * q && q * q == p * f
    ensures x * (y * (2 - x * y)) - 1 == (-(k * k * f)) * p
  {
    var z := x * y;
    assert x * (y * (2 - z)) == z * (2 - z);
    assert z * (2 - z) - 1 == -((z - 1) * (z - 1));
    assert (k * q) * (k * q) == (k * k) * (q * q);
    assert (k * k) * (p * f) == (k * k * f) * p;
  }

  /** Replacing any part of a step by something congruent does not matter. */
  lemma StepMod(x: int, y: int, w: int, y': int, p: int)
    requires Cong(x * (y * (2 - x * y)), 1, p)
    requires Cong(w, x * y, p) && Cong(y', y * (2 - w), p)
    ensures Cong(x * y', 1, p)
  {
    CongNegate(w, x * y, p);
    CongRefl(y, p);
    CongMul(y, y, 2 - w, 2 - x * y, p);
    CongTrans(y', y * (2 - w), y * (2 - x * y), p);
    CongRefl(x, p);
    CongMul(x, x, y', y * (2 - x * y), p);
    CongTrans(x * y', x * (y * (2 - x * y)), 1, p);
  }

  lemma CongNegate(a: int, b: int, m: int)
    requires Cong(a, b, m)
    ensures Cong(2 - a, 2 - b, m)
  {
    var k := CongElim(a, b, m);
    assert (-k) * m == -(k * m);
    CongIntro(2 - a, 2 - b, m, -k);
  }

  /** One masked line of invDigit, for x known up to p. */
  lemma MaskedStep(x: int, y: int, k: nat, q: int, f: int)
    requires k <= 32 && Cong(x * y, 1, q) && q > 0 && f > 0 && q * q == Pow2(k) * f
    ensures Cong(x * Low(y * (2 - Low(x, k) * y), k), 1, Pow2(k))
    ensures Cong(x * Low(y * (2 - Low(Low(x, k) * y, k)), k), 1, Pow2(k))
  {
    var p := Pow2(k);
    NewtonStep(x, y, q, p, f);
    LowMod(x, k);
    CongMod(x, p);
    CongRefl(y, p);
    hide Low, Pow2, Cong;
    var w := Low(x, k) * y;
    CongMul(Low(x, k), x, y, y, p);
    LowMod(w, k);
    CongMod(w, p);
    CongTrans(Low(w, k), w, x * y, p);
    MaskedResult(x, y, w, k);
    MaskedResult(x, y, Low(w, k), k);
  }

  lemma MaskedResult(x: int, y: int, w: int, k: nat)
    requires k <= 32 && Cong(x * (y * (2 - x * y)), 1, Pow2(k)) && Cong(w, x * y, Pow2(k))
    ensures Cong(x * Low(y * (2 - w), k), 1, Pow2(k))
  {
    var z := y * (2 - w);
    LowMod(z, k);
    CongMod(z, Pow2(k));
    StepMod(x, y, w, Low(z, k), Pow2(k));
  }

  lemma RemCong(x: int, m: int)
    requires m > 0
    ensures Cong(Rem(x, m), x, m) && -m < Rem(x, m) < m
  {
    CongMod(x, m);
    CongMod(-x, m);
    if x < 0 {
      var k := CongElim((-x) % m, -x, m);
      assert (-k) * m == -(k * m);
      CongIntro(Rem(x, m), x, m, -k);
    }
  }

  /** The last line works modulo DV itself, with truncating remainders. */
  lemma LastStep(x: int, y: int)
    requires Cong(x * y, 1, 0x1_0000)
    ensures Cong(x * Rem(y * (2 - Rem(x * y, DV)), DV), 1, DV)
    ensures Rem(y * (2 - Rem(x * y, DV)), DV) != 0
  {
    NewtonStep(x, y, 0x1_0000, DV, 0x1_0000_0000 / DV);
    RemCong(x * y, DV);
    var z := y * (2 - Rem(x * y, DV));
    RemCong(z, DV);
    StepMod(x, y, Rem(x * y, DV), Rem(z, DV), DV);
    assert x * 0 == 0;
  }

  /** -1 / m modulo DV for odd m, and 0 for even m. */
  method InvDigit(m: BigInteger) returns (r: int)
    requires m.Valid()
    ensures m.t < 1 || m.d[0] % 2 == 0 ==> r == 0
    ensures m.t >= 1 && m.d[0] % 2 == 1 ==> 0 < r < DV && Cong(m.d[0] * r, -1, DV)
  {
    if m.t < 1 {
      return 0;
    }
    var x := m.d[0];
    LowMod(x, 1);
    assert Pow2(1) == 2;
    if Low(x, 1) == 0 {
      return 0;
    }
    r := InverseOf(x);
    MinusInverse(x, r);
    r := if r > 0 then DV - r else -r;
  }

  lemma MinusInverse(x: int, y: int)
    requires Cong(x * y, 1, DV) && -DV < y < DV && y != 0
    ensures var r := if y > 0 then DV - y else -y; 0 < r < DV && Cong(x * r, -1, DV)
  {
    var k := CongElim(x * y, 1, DV);
    assert x * (-y) == -(x * y) && (-k) * DV == -(k * DV);
    assert x * (DV - y) == x * DV - x * y;
    assert (x - k) * DV == x * DV - k * DV;
    CongIntro(x * (-y), -1, DV, -k);
    CongIntro(x * (DV - y), -1, DV, x - k);
  }

  /** The five lines of invDigit: 2, 4, 8, 16 and then all bits of the inverse. */
  method InverseOf(x: int) returns (y: int)
    requires 0 <= x < DV && x % 2 == 1
    ensures Cong(x * y, 1, DV) && -DV < y < DV && y != 0
  {
    FirstBits(x);
    PowersUsed();
    hide Low, Cong, Pow2, Rem;
    y := Low(x, 2);
    MaskedStep(x, y, 4, 4, 1);
    y := Low(y * (2 - Low(x, 4) * y), 4);
    MaskedStep(x, y, 8, 16, 1);
    y := Low(y * (2 - Low(x, 8) * y), 8);
    MaskedStep(x, y, 16, 256, 1);
    y := Low(y * (2 - Low(Low(x, 16) * y, 16)), 16);
    LastStep(x, y);
    RemCong(y * (2 - Rem(x * y, DV)), DV);
    y := Rem(y * (2 - Rem(x * y, DV)), DV);
  }

  lemma PowersUsed()
    ensures Pow2(4) == 16 && Pow2(8) == 256 && Pow2(16) == 0x1_0000
  {
    Pow2Add(8, 8);
  }

  /** An odd number is its own inverse modulo 4. */
  lemma FirstBits(x: int)
    requires x % 2 == 1
    ensures Cong(x * Low(x, 2), 1, 4)
  {
    assert Pow2(2) == 4;
    LowMod(x, 2);
    var k, y := x / 4, x % 4;
    assert x == 4 * k + y && (y == 1 || y == 3);
    assert x * y == (k * y) * 4 + y * y;
    CongIntro(x * y, 1, 4, k * y + if y == 1 then 0 else 2);
  }

  // ---------------------------------------------------------------- reductions

  /** A Classic or a Montgomery object.  Their fields never change after construction; um, the mask
      of DB - 15 ones, is kept as its number of bits. */
  datatype Reducer =
    | Classic(m: BigInteger)
    | Montgomery(m: BigInteger, mp: int, mpl: int, mph: int, umBits: nat, mt2: nat)

  ghost predicate Ready(z: Reducer)
    reads z.m
  {
    && z.m.Valid() && z.m.s == 0 && z.m.Value() > 0
    && (z.Montgomery? ==>
          && z.m.t > 0 && z.m.Value() % 2 == 1 && z.mt2 == 2 * z.m.t && z.umBits == DB - 15
          && 0 <= z.mp < DV && Cong(z.m.d[0] * z.mp, -1, DV)
          && z.mpl == Low(z.mp, 15) && z.mph == Shr(z.mp, 15))
  }

  /** The factor by which a reducer's numbers are scaled. */
  ghost function Scale(z: Reducer): int
    reads z.m
  {
    if z.Classic? then 1 else Weight(z.m.t)
  }

  method NewMontgomery(m: BigInteger) returns (z: Reducer)
    requires m.Valid() && m.s == 0 && m.Value() > 0 && m.Value() % 2 == 1
    ensures z.Montgomery? && z.m == m && Ready(z)
  {
    m.ZeroIsEmpty();
    LowDigitParity(m.d, m.t);
    var mp := InvDigit(m);
    z := Montgomery(m, mp, Low(mp, 15), Shr(mp, 15), DB - 15, 2 * m.t);
  }

  lemma LowDigitParity(d: DigitMap, t: nat)
    requires t > 0
    ensures Num(d, t, 0) % 2 == At(d, 0) % 2
  {
    ValHead(d, 0, t);
    var v := Val(d, 1, t - 1);
    assert DV % 2 == 0;
    EvenProduct(DV, v);
    Unsigned(d, t);
    hide Val, Num, Weight;
    SameParity(At(d, 0), DV * v);
  }

  lemma SameParity(a: int, b: int)
    requires b % 2 == 0
    ensures (a + b) % 2 == a % 2
  {
    assert b == 2 * (b / 2);
  }

  lemma EvenProduct(b: int, v: int)
    requires b % 2 == 0
    ensures (b * v) % 2 == 0
  {
    assert b == 2 * (b / 2);
    assert b * v == 2 * ((b / 2) * v);
  }

  /** The multiplier of one Montgomery row, from 15-bit halves: x * mp modulo DV. */
  method RowMultiplier(x: int, mp: int, mpl: int, mph: int, umBits: nat) returns (u: int)
    requires 0 <= x < DV && 0 <= mp < DV && mpl == Low(mp, 15) && mph == Shr(mp, 15) && umBits == DB - 15
    ensures 0 <= u < DV && Cong(u, x * mp, DV)
  {
    hide Cong, Low, Shr, Shl, Pow2;
    var n := Low(x, 15);
    var mid := n * mph + Shr(x, 15) * mpl;
    HalvesOf(x);
    HalvesOf(mp);
    MiddleFits(n, Shr(x, 15), mpl, mph);
    MaskedMiddle(mid);
    var sum := n * mpl + Shl(Low(mid, umBits), 15);
    u := Low(sum, DB);
    LowDigit(sum);
    MultiplierAlgebra(n, Shr(x, 15), mpl, mph, Low(mid, DB - 15), Shr(mid, DB - 15), Pow2(DB - 15), DV);
    CongTrans(u, sum, x * mp, DV);
  }

  lemma LowDigit(x: int)
    ensures 0 <= Low(x, DB) < DV && Cong(Low(x, DB), x, DV)
  {
    BaseIsPower();
    LowMod(x, DB);
    hide Low, Pow2;
    CongMod(x, DV);
  }

  lemma HalvesOf(x: int)
    requires 0 <= x < DV
    ensures x == Low(x, 15) + Shr(x, 15) * 0x8000
    ensures 0 <= Low(x, 15) < 0x8000 && 0 <= Shr(x, 15) < 0x8000
  {
    Pow2Values();
    ShrSplit(x, 15);
  }

  lemma MiddleFits(n: int, nh: int, l: int, h: int)
    requires 0 <= n < 0x8000 && 0 <= nh < 0x8000 && 0 <= l < 0x8000 && 0 <= h < 0x8000
    ensures 0 <= n * h + nh * l < 0x8000_0000 && 0 <= n * l
  {
    MulUpper(n, h, 0x7fff);
    MulUpper(nh, l, 0x7fff);
    MulUpper(n, l, 0x7fff);
  }

  lemma MaskedMiddle(mid: int)
    requires 0 <= mid < 0x8000_0000
    ensures mid == Low(mid, DB - 15) + Shr(mid, DB - 15) * Pow2(DB - 15)
    ensures Shl(Low(mid, DB - 15), 15) == Low(mid, DB - 15) * 0x8000
    ensures Pow2(DB - 15) * 0x8000 == DV
  {
    Pow2Values();
    BaseIsPower();
    Pow2Add(DB - 15, 15);
    ShrSplit(mid, DB - 15);
    ShlSmall(Low(mid, DB - 15), 15);
  }

  lemma MultiplierAlgebra(n: int, nh: int, l: int, h: int, ml: int, mh: int, p: int, b: int)
    requires n * h + nh * l == ml + mh * p && p * 0x8000 == b && b > 0 && 0x4000_0000 % b == 0
    ensures Cong(n * l + ml * 0x8000, (n + nh * 0x8000) * (l + h * 0x8000), b)
  {
    var f := 0x4000_0000 / b;
    DivMod(0x4000_0000, b);
    assert (n + nh * 0x8000) * (l + h * 0x8000)
        == n * l + (n * h + nh * l) * 0x8000 + (nh * h) * 0x4000_0000;
    assert (ml + mh * p) * 0x8000 == ml * 0x8000 + mh * b;
    assert (nh * h) * (f * b) == ((nh * h) * f) * b;
    var k := -(mh + (nh * h) * f);
    assert k * b == -(mh * b) - ((nh * h) * f) * b;
    CongIntro(n * l + ml * 0x8000, (n + nh * 0x8000) * (l + h * 0x8000), b, k);
  }

  // ---------------------------------------------------------------- one row of a Montgomery reduction

  /** Every index below t holds a digit, except that the one at n may have overflowed once. */
  ghost predicate Overflowing(d: DigitMap, t: nat, n: nat) {
    && n < t && Proper(d, 0, n) && Proper(d, n + 1, t)
    && n in d && 0 <= d[n] < 2 * DV
  }

  /** x += u * m * DV^e, and the digit at e becomes 0. */
  method MontRow(m: BigInteger, u: int, x: BigInteger, e: nat, t: nat)
    requires x != m && m.Valid() && m.t > 0 && e + m.t < t && Proper(x.d, 0, t)
    requires 0 <= u < DV && Cong(x.d[e] + u * m.d[0], 0, DV)
    requires Val(x.d, 0, t) + (u * Val(m.d, 0, m.t)) * Weight(e) < Weight(t)
    requires forall k :: 0 <= k < e ==> At(x.d, k) == 0
    modifies x`d
    ensures Proper(x.d, 0, t)
    ensures Val(x.d, 0, t) == old(Val(x.d, 0, t)) + (u * Val(m.d, 0, m.t)) * Weight(e)
    ensures forall k :: 0 <= k <= e ==> At(x.d, k) == 0
  {
    hide Val, Weight, Cong;
    ghost var d0, gain := x.d, u * Val(m.d, 0, m.t);
    var n := e + m.t;
    var carry := m.Am(0, u, x, e, 0, m.t);
    ghost var d1 := x.d;
    KeepsRange(d1, d0, e, n, t);
    AmEffect(d0, d1, t, e, m.t, gain, carry);
    RowLowDigit(d0, d1, m.d, e, m.t, u, carry);
    PutAt(x.d, n, x.d[n] + carry);
    x.d := x.d[n := x.d[n] + carry];
    PropagateCarry(x, n, e, t);
  }

  /** The inner loop of a row: overflow runs on into the digits above. */
  method PropagateCarry(x: BigInteger, n0: nat, e: nat, t: nat)
    requires e < n0 && Overflowing(x.d, t, n0) && Val(x.d, 0, t) < Weight(t)
    requires forall k :: 0 <= k <= e ==> At(x.d, k) == 0
    modifies x`d
    ensures Proper(x.d, 0, t) && Val(x.d, 0, t) == old(Val(x.d, 0, t))
    ensures forall k :: 0 <= k <= e ==> At(x.d, k) == 0
  {
    hide Val, Weight;
    var n := n0;
    while x.d[n] >= DV
      invariant e < n && Overflowing(x.d, t, n)
      invariant Val(x.d, 0, t) == old(Val(x.d, 0, t))
      invariant forall k :: 0 <= k <= e ==> At(x.d, k) == 0
      decreases t - n
    {
      NoOverflow(x.d, t, n);
      CarryOn(x.d, t, n);
      PutAt(x.d, n, x.d[n] - DV);
      x.d := x.d[n := x.d[n] - DV];
      n := n + 1;
      PutAt(x.d, n, x.d[n] + 1);
      x.d := x.d[n := x.d[n] + 1];
    }
    ProperJoin(x.d, n, n + 1, t);
    ProperJoin(x.d, 0, n, t);
  }

  lemma TooBig(low: int, x: int, w: int, b: int)
    requires low >= 0 && x >= b && w >= 0
    ensures low + x * w >= b * w
  {
    MulNonNegative(x - b, w);
    assert (x - b) * w == x * w - b * w;
  }

  /** The number fits, so an overflow is never in the top digit. */
  lemma NoOverflow(d: DigitMap, t: nat, n: nat)
    requires Overflowing(d, t, n) && d[n] >= DV && Val(d, 0, t) < Weight(t)
    ensures n + 1 < t
  {
    ValBound(d, 0, n);
    assert n + 1 == t ==> Val(d, 0, t) == Val(d, 0, n) + At(d, n) * Weight(n);
    WeightNext(n);
    hide Val, Weight;
    TooBig(Val(d, 0, n), At(d, n), Weight(n), DV);
  }

  lemma CarryOn(d: DigitMap, t: nat, n: nat)
    requires Overflowing(d, t, n) && n + 1 < t
    ensures Val(d[n := d[n] - DV][n + 1 := At(d[n := d[n] - DV], n + 1) + 1], 0, t) == Val(d, 0, t)
  {
    hide Val, Weight;
    var e := d[n := d[n] - DV];
    ValPut(d, 0, t, n, d[n] - DV);
    ValPut(e, 0, t, n + 1, At(e, n + 1) + 1);
    WeightNext(n);
  }

  /** The multiplier was chosen so that the lowest digit of the row vanishes. */
  lemma RowLowDigit(d: DigitMap, e: DigitMap, m: DigitMap, i: nat, t: nat, u: int, carry: int)
    requires t > 0 && 0 <= At(e, i) < DV
    requires Val(e, i, t) + carry * Weight(t) == Val(d, i, t) + u * Val(m, 0, t)
    requires Cong(At(d, i) + u * At(m, 0), 0, DV)
    ensures At(e, i) == 0
  {
    ValHead(e, i, t);
    ValHead(d, i, t);
    ValHead(m, 0, t);
    WeightNext(t - 1);
    hide Val, Weight;
    RowAlgebra(At(e, i), Val(e, i + 1, t - 1), carry, Weight(t - 1), At(d, i), Val(d, i + 1, t - 1),
               u, At(m, 0), Val(m, 1, t - 1), DV);
  }

  lemma RowAlgebra(x: int, ve: int, carry: int, w: int, y: int, vd: int, u: int, m: int, vm: int, b: int)
    requires x + b * ve + carry * (b * w) == y + b * vd + u * (m + b * vm)
    requires 0 <= x < b && Cong(y + u * m, 0, b)
    ensures x == 0
  {
    var k := CongElim(y + u * m, 0, b);
    assert u * (m + b * vm) == u * m + (u * vm) * b && carry * (b * w) == (carry * w) * b;
    var c := k + vd + u * vm - ve - carry * w;
    assert c * b == k * b + vd * b + (u * vm) * b - ve * b - (carry * w) * b;
    QuotientUnique(0, x, c, 0, b);
  }

  // ---------------------------------------------------------------- Montgomery reduction

  /** After e rows: x0 plus a multiple of the modulus, with e zero digits at the bottom. */
  ghost predicate Rows(d: DigitMap, t: nat, x0: int, q: int, m: int, e: nat) {
    && Val(d, 0, t) == x0 + q * m && 0 <= q < Weight(e)
    && forall k :: 0 <= k < e ==> At(d, k) == 0
  }

  /** x := x / DV^t modulo m, for x of at most twice the length t of m; the result has at most that length, and is
      below m if x < m * DV^t. */
  method MontReduce(z: Reducer, x: BigInteger)
    requires Ready(z) && z.Montgomery? && x != z.m
    requires x.Valid() && x.s == 0 && x.Value() < Weight(2 * z.m.t)
    modifies x
    ensures x.Valid() && x.s == 0 && 0 <= x.Value() < Weight(z.m.t)
    ensures Cong(x.Value() * Weight(z.m.t), old(x.Value()), z.m.Value())
    ensures old(x.Value()) < z.m.Value() * Weight(z.m.t) ==> x.Value() < z.m.Value()
  {
    ghost var x0, m := x.Value(), z.m.Value();
    var n := z.m.t;
    z.m.SizeBounds();
    hide Val, Weight, Num, Low, Shr, Pow2, Cong, Rows;
    x.LengthAtMost(2 * n);
    Pad(x, z.mt2 + 1);
    ghost var q := MontRows(z, x);
    ShiftOutZeros(x, n, x0, q, m);
    WeightAdd(n, n);
    ghost var y := x.Value();
    MontCong(y, Weight(n), x0, q, m);
    SubtractOnce(x, z.m);
    x.ZeroIsEmpty();
    ReducedOnce(y, x.Value(), Weight(n), x0, m);
  }

  /** The last line of montReduce. */
  method SubtractOnce(x: BigInteger, m: BigInteger)
    requires x != m && x.Valid() && x.s == 0 && m.Valid() && m.s == 0
    modifies x
    ensures x.Valid() && x.s == 0
    ensures x.Value() == if old(x.Value()) >= m.Value() then old(x.Value()) - m.Value() else old(x.Value())
  {
    hide Val, Weight, Num;
    var c := x.CompareTo(m);
    if c >= 0 {
      x.SubTo(m, x);
      x.SignIsSign();
    }
  }

  /** The rows of montReduce: the low digits of x become 0 one by one. */
  method MontRows(z: Reducer, x: BigInteger) returns (ghost q: int)
    requires Ready(z) && z.Montgomery? && x != z.m
    requires x.Formed() && x.s == 0 && x.t == 2 * z.m.t + 1 && x.Value() < Weight(2 * z.m.t)
    modifies x`d
    ensures x.Formed() && Rows(x.d, x.t, old(x.Value()), q, z.m.Value(), z.m.t)
  {
    ghost var x0, m, n, t := x.Value(), z.m.Value(), z.m.t, x.t;
    z.m.SizeBounds();
    hide Val, Weight, Num, Low, Shr, Pow2, Cong, Rows;
    Unsigned(x.d, t);
    Unsigned(z.m.d, n);
    RowsStart(x.d, t, x0, m);
    q := 0;
    var e := 0;
    while e < z.m.t
      invariant 0 <= e <= n && Proper(x.d, 0, t)
      invariant Rows(x.d, t, x0, q, m, e)
    {
      var u := RowMultiplier(x.d[e], z.mp, z.mpl, z.mph, z.umBits);
      RowVanishes(x.d[e], z.m.d[0], z.mp, u);
      RowFits(x.d, x0, q, m, e, n, u);
      ghost var v := Val(x.d, 0, t);
      MontRow(z.m, u, x, e, x.t);
      RowsStep(x.d, t, v, x0, q, m, e, u);
      q := q + u * Weight(e);
      e := e + 1;
    }
  }

  method Pad(x: BigInteger, t: nat)
    requires x.Formed() && x.s == 0 && x.t <= t
    modifies x
    ensures x.Formed() && x.s == 0 && x.t == t && x.Value() == old(x.Value())
  {
    hide Val, Weight, Num;
    while x.t < t
      invariant x.t <= t && x.Formed() && x.s == 0 && x.Value() == old(x.Value())
    {
      AppendZero(x.d, x.t);
      PutAt(x.d, x.t, 0);
      x.d := x.d[x.t := 0];
      x.t := x.t + 1;
    }
  }

  lemma RowsStart(d: DigitMap, t: nat, x0: int, m: int)
    requires Val(d, 0, t) == x0
    ensures Rows(d, t, x0, 0, m, 0)
  {
  }

  lemma RowVanishes(x: int, m: int, mp: int, u: int)
    requires Cong(u, x * mp, DV) && Cong(m * mp, -1, DV)
    ensures Cong(x + u * m, 0, DV)
  {
    var k := CongElim(u, x * mp, DV);
    var l := CongElim(m * mp, -1, DV);
    hide Cong;
    VanishAlgebra(x, m, mp, u, k, l, DV);
    CongIntro(x + u * m, 0, DV, k * m + x * l);
  }

  lemma VanishAlgebra(x: int, m: int, mp: int, u: int, k: int, l: int, b: int)
    requires u - x * mp == k * b && m * mp + 1 == l * b
    ensures x + u * m == (k * m + x * l) * b
  {
    assert u * m == (x * mp) * m + (k * b) * m;
    assert (x * mp) * m == x * (m * mp) && x * (m * mp) == x * (l * b) - x;
    assert (k * b) * m == (k * m) * b && x * (l * b) == (x * l) * b;
  }

  /** No row overflows the padded buffer. */
  lemma RowFits(d: DigitMap, x0: int, q: int, m: int, e: nat, n: nat, u: int)
    requires Rows(d, 2 * n + 1, x0, q, m, e) && e < n && 0 <= u < DV
    requires x0 < Weight(2 * n) && 0 < m < Weight(n)
    ensures Val(d, 0, 2 * n + 1) + (u * m) * Weight(e) < Weight(2 * n + 1)
    ensures forall k :: 0 <= k < e ==> At(d, k) == 0
    ensures Val(d, 0, 2 * n + 1) == x0 + q * m && 0 <= q < Weight(e)
  {
    WeightMonotone(e + 1, n);
    WeightAdd(n, n);
    WeightNext(2 * n);
    WeightNext(e);
    hide Val, Weight;
    FitsAlgebra(x0, q, m, u, Weight(e), Weight(n), Weight(2 * n), DV);
  }

  lemma FitsAlgebra(x0: int, q: int, m: int, u: int, we: int, w: int, w2: int, b: int)
    requires x0 < w2 && 0 < m < w && 0 <= q < we && 0 <= u <= b - 1 && b * we <= w && w2 == w * w && b >= 2
    ensures x0 + q * m + (u * m) * we < b * w2
  {
    QuotientGrows(q, u, we, b);
    TimesModulus(m, q, u, we, w);
    MulUpper(w, m, w);
    MulUpper(w2, 2, b);
  }

  lemma TimesModulus(m: int, q: int, u: int, we: int, w: int)
    requires m >= 0 && 0 <= q + u * we <= w
    ensures q * m + (u * m) * we <= w * m
  {
    MulUpper(m, q + u * we, w);
    assert m * (q + u * we) == q * m + (u * m) * we;
    assert m * w == w * m;
  }

  lemma QuotientGrows(q: int, u: int, we: int, b: int)
    requires 0 <= q < we && 0 <= u <= b - 1
    ensures 0 <= q + u * we < b * we
  {
    MulUpper(we, u, b - 1);
    assert we * (b - 1) == b * we - we;
  }

  lemma RowsStep(d: DigitMap, t: nat, v: int, x0: int, q: int, m: int, e: nat, u: int)
    requires v == x0 + q * m && 0 <= q < Weight(e) && 0 <= u < DV
    requires Val(d, 0, t) == v + (u * m) * Weight(e)
    requires forall k :: 0 <= k <= e ==> At(d, k) == 0
    ensures Rows(d, t, x0, q + u * Weight(e), m, e + 1)
  {
    WeightNext(e);
    hide Val, Weight;
    QuotientGrows(q, u, Weight(e), DV);
    StepAlgebra(q, u, m, Weight(e));
  }

  lemma StepAlgebra(q: int, u: int, m: int, w: int)
    ensures (q + u * w) * m == q * m + (u * m) * w
  {
  }

  /** clamp and drShiftTo divide exactly. */
  method ShiftOutZeros(x: BigInteger, n: nat, ghost x0: int, ghost q: int, ghost m: int)
    requires x.Formed() && x.s == 0 && x.t == 2 * n + 1 && Rows(x.d, x.t, x0, q, m, n)
    modifies x
    ensures x.Valid() && x.s == 0 && x.Value() * Weight(n) == x0 + q * m && 0 <= q < Weight(n)
  {
    hide Val, Weight, Num;
    Unsigned(x.d, x.t);
    RowsParts(x.d, x.t, x0, q, m, n);
    hide Rows;
    x.Clamp();
    Unsigned(x.d, x.t);
    DropZeros(x, n);
  }

  lemma RowsParts(d: DigitMap, t: nat, x0: int, q: int, m: int, n: nat)
    requires Rows(d, t, x0, q, m, n)
    ensures Val(d, 0, t) == x0 + q * m && 0 <= q < Weight(n) && forall k :: 0 <= k < n ==> At(d, k) == 0
  {
  }

  /** drShiftTo on a number whose n low digits are 0. */
  method DropZeros(x: BigInteger, n: nat)
    requires x.Valid() && x.s == 0 && forall k :: 0 <= k < n ==> At(x.d, k) == 0
    modifies x
    ensures x.Valid() && x.s == 0 && x.Value() * Weight(n) == old(x.Value())
  {
    hide Val, Weight, Num;
    Unsigned(x.d, x.t);
    ghost var d0, t0 := x.d, x.t;
    ZerosBelow(d0, t0, n);
    if n <= t0 {
      ProperPart(d0, 0, t0, n, t0);
    }
    if t0 > 0 {
      ProperDigit(d0, 0, t0, t0 - 1);
    }
    ProperIsWide(d0, if n < t0 then n else t0, t0);
    x.DRShiftTo(n, x);
    if t0 >= n {
      x.QuotientRead(d0, t0, n, Val(d0, n, t0 - n));
    } else {
      ZeroDigits(x.d, 0);
    }
  }

  lemma ZerosBelow(d: DigitMap, t: nat, n: nat)
    requires forall k :: 0 <= k < n ==> At(d, k) == 0
    ensures t >= n ==> Val(d, 0, t) == Val(d, n, t - n) * Weight(n)
    ensures t < n ==> Val(d, 0, t) == 0
  {
    hide Val, Weight;
    if t >= n {
      ValSplit(d, 0, n, t - n);
      ValZero(d, 0, n);
    } else {
      ValZero(d, 0, t);
    }
  }

  lemma MontCong(y: int, w: int, x0: int, q: int, m: int)
    requires y * w == x0 + q * m && 0 < m < w && 0 <= q < w && x0 < w * w
    ensures Cong(y * w, x0, m) && y < w + m
    ensures x0 < m * w ==> y < 2 * m
  {
    CongIntro(y * w, x0, m, q);
    hide Cong;
    var p, wm := q * m, m * w;
    MulUpper(m, q, w);
    assert p <= wm;
    Distribute(w, m, w);
    Below(y, w + m, w);
    if x0 < wm {
      assert (2 * m) * w == 2 * wm;
      Below(y, 2 * m, w);
    }
  }

  lemma ReducedOnce(y: int, y': int, w: int, x0: int, m: int)
    requires Cong(y * w, x0, m) && y' == if y >= m then y - m else y
    ensures Cong(y' * w, x0, m)
  {
    if y >= m {
      OneModulusLess(y, w, x0, m);
    }
  }

  lemma OneModulusLess(y: int, w: int, x0: int, m: int)
    requires Cong(y * w, x0, m)
    ensures Cong((y - m) * w, x0, m)
  {
    var k := CongElim(y * w, x0, m);
    assert (y - m) * w == y * w - w * m;
    assert (k - w) * m == k * m - w * m;
    CongIntro((y - m) * w, x0, m, k - w);
  }

  // ---------------------------------------------------------------- arithmetic on scaled residues

  /** a is the reduced number that the reducer keeps for v. */
  ghost predicate Stands(z: Reducer, a: BigInteger, v: int)
    reads z.m, a
  {
    a.Valid() && a.s == 0 && 0 <= a.Value() < z.m.Value() && Cong(a.Value(), v * Scale(z), z.m.Value())
  }

  /** What holds of a reducer's numbers whatever the estimates: they are numbers, not negative if pos says so, and for
      Montgomery not longer than the modulus. */
  ghost predicate Sized(z: Reducer, a: BigInteger, pos: bool)
    reads z.m, a
  {
    && a.Valid() && (pos || z.Montgomery? ==> a.s == 0)
    && (z.Montgomery? ==> a.Value() < Weight(z.m.t))
  }

  /** r := x % m for x >= 0, if the estimates are good: divRemTo without a quotient. */
  method RemainderTo(x: BigInteger, m: BigInteger, r: BigInteger)
    requires (x.Valid() || x.PaddedZero(m)) && x.Value() >= 0 && m.Valid() && m.Value() > 0
    modifies r
    ensures r.Valid() && 0 <= r.Value() < Weight(old(m.t))
    ensures Sound(old(x.Value()), old(m.Value())) ==> r.Value() == old(x.Value()) % old(m.Value())
    ensures SoundFrom(old(x.Value()), old(m.Value()), 1) ==>
      (r.Value() == old(x.Value()) % old(m.Value()) <==> Sound(old(x.Value()), old(m.Value())))
  {
    m.SignIsSign();
    m.LengthOf();
    hide Weight, Val, Num, Sound, SoundFrom, Length;
    x.DivRemTo(m, null, r);
  }

  /** x mod m, never negative if the estimates of the division are good.  For x >= 0, when all but the last are good,
      the result is right exactly if that one is, too. */
  method Mod(x: BigInteger, m: BigInteger) returns (r: BigInteger)
    requires x.Valid() && m.Valid() && m.Value() > 0
    ensures fresh(r) && r.Valid() && (x.Value() >= 0 ==> r.s == 0)
    ensures Sound(AbsInt(x.Value()), m.Value()) ==> r.s == 0 && r.Value() == x.Value() % m.Value()
    ensures x.Value() >= 0 && SoundFrom(x.Value(), m.Value(), 1) ==>
      (r.Value() == x.Value() % m.Value() <==> Sound(x.Value(), m.Value()))
  {
    ghost var v, w := x.Value(), m.Value();
    r := new BigInteger();
    x.SignIsSign();
    m.SignIsSign();
    m.LengthOf();
    LiftRemainder(v, w);
    var a := x.Abs();
    hide Weight, Val, Num, Sound, SoundFrom, Length;
    RemainderTo(a, m, r);
    LiftNegative(m, r, x.s < 0);
    r.SignIsSign();
  }

  /** From the remainder of |v| to v mod m. */
  lemma LiftRemainder(v: int, m: int)
    requires m > 0
    ensures var e := AbsInt(v) % m;
            && 0 <= e < m && v % m == if v < 0 && e > 0 then m - e else e
  {
    var a := AbsInt(v);
    DivMod(a, m);
    var e := a % m;
    if v < 0 {
      assert (-(a / m)) * m == -((a / m) * m);
      assert (-(a / m) - 1) * m == -((a / m) * m) - m;
      if e > 0 {
        DivModUnique(v, m, -(a / m) - 1, m - e);
      } else {
        DivModUnique(v, m, -(a / m), 0);
      }
    }
  }

  /** x := x / Scale modulo m, if the estimates of a Classic division are good. */
  method Reduce(z: Reducer, x: BigInteger, ghost pos: bool)
    requires Ready(z) && x != z.m && x.Valid()
    requires pos || z.Montgomery? ==> x.s == 0
    requires z.Montgomery? ==> x.Value() < Weight(2 * z.m.t)
    modifies x
    ensures Sized(z, x, pos)
    ensures Reduces(z, old(x.Value())) ==>
      x.s == 0 && 0 <= x.Value() < z.m.Value() && Cong(x.Value() * Scale(z), old(x.Value()), z.m.Value())
  {
    match z
    case Classic(m) =>
      ghost var v, w := x.Value(), m.Value();
      x.SignIsSign();
      hide Weight, Val, Num, Sound, SoundFrom, Length;
      x.DivRemTo(m, null, x);
      DivMod(AbsInt(v), w);
      CongMod(AbsInt(v), w);
      x.SignIsSign();
    case Montgomery(_, _, _, _, _, _) =>
      MontReduce(z, x);
  }

  /** v is reduced correctly. */
  ghost predicate Reduces(z: Reducer, v: int)
    reads z.m
  {
    v >= 0 && if z.Classic? then z.m.Value() > 0 && Sound(v, z.m.Value()) else v < z.m.Value() * Weight(z.m.t)
  }

  /** The estimates of the division by which x becomes a reducer's number are good. */
  predicate ConvertSound(montgomery: bool, x: int, m: int)
    requires m > 0
  {
    MulNonNegative(AbsInt(x), Weight(Length(m)));
    if montgomery then Sound(AbsInt(x) * Weight(Length(m)), m) else 0 <= x < m || Sound(AbsInt(x), m)
  }

  /** x is divided by m, and every estimate but the last is good. */
  predicate LastDecides(x: int, m: int) {
    0 < m <= x && SoundFrom(x, m, 1)
  }

  /** The number the reducer works with instead of x: x mod m, or x * DV^t mod m. */
  method Convert(z: Reducer, x: BigInteger) returns (r: BigInteger)
    requires Ready(z) && x.Valid()
    ensures r.Valid() && (r == x || fresh(r))
    ensures x.Value() >= 0 ==> Sized(z, r, true)
    ensures z.Classic? || r.s == 0 ==> Sized(z, r, false)
    ensures ConvertSound(z.Montgomery?, x.Value(), z.m.Value()) ==> Stands(z, r, x.Value())
    ensures z.Classic? && LastDecides(x.Value(), z.m.Value()) ==>
      (r.Value() == x.Value() % z.m.Value() <==> Sound(x.Value(), z.m.Value()))
  {
    z.m.LengthOf();
    x.SignIsSign();
    match z
    case Classic(m) =>
      hide Sound, SoundFrom, Length, Weight;
      r := ConvertClassic(m, x);
    case Montgomery(m, _, _, _, _, _) =>
      hide Sound, SoundFrom, Length, Weight;
      r := ConvertMontgomery(m, x);
      CongMod(x.Value() * Weight(m.t), m.Value());
      r.SignIsSign();
  }

  method ConvertClassic(m: BigInteger, x: BigInteger) returns (r: BigInteger)
    requires m.Valid() && m.s == 0 && m.Value() > 0 && x.Valid()
    ensures r.Valid() && (r == x || fresh(r)) && (x.Value() >= 0 ==> r.s == 0)
    ensures ConvertSound(false, x.Value(), m.Value()) ==>
      r.s == 0 && 0 <= r.Value() < m.Value() && Cong(r.Value(), x.Value() * 1, m.Value())
    ensures LastDecides(x.Value(), m.Value()) ==>
      (r.Value() == x.Value() % m.Value() <==> Sound(x.Value(), m.Value()))
  {
    x.SignIsSign();
    hide Weight, Val, Num, Cong, Sound, SoundFrom, Length;
    var big := x.s < 0;
    if !big {
      var c := x.CompareTo(m);
      big := c >= 0;
    }
    if big {
      r := Mod(x, m);
      CongMod(x.Value(), m.Value());
      DivMod(x.Value(), m.Value());
    } else {
      r := x;
      CongRefl(x.Value(), m.Value());
    }
  }

  method ConvertMontgomery(m: BigInteger, x: BigInteger) returns (r: BigInteger)
    requires m.Valid() && m.s == 0 && m.Value() > 0 && m.t > 0 && x.Valid()
    ensures fresh(r) && r.Valid() && AbsInt(r.Value()) < Weight(m.t) && (x.Value() >= 0 ==> r.Value() >= 0)
    ensures ConvertSound(true, x.Value(), m.Value()) ==> r.Value() == (x.Value() * Weight(m.t)) % m.Value()
  {
    x.SignIsSign();
    m.LengthOf();
    LiftScaled(x.Value(), Weight(m.t), m.Value());
    hide Weight, Val, Num, Sound, SoundFrom, Length;
    var a := x.Abs();
    r := Scaled(m, a);
    MulNonNegative(AbsInt(x.Value()), Weight(m.t));
    RemainderTo(r, m, r);
    LiftNegative(m, r, x.s < 0);
  }

  /** a * DV^t for the length t of the modulus. */
  method Scaled(m: BigInteger, a: BigInteger) returns (r: BigInteger)
    requires a.Valid() && a.s == 0
    ensures fresh(r) && r.Formed() && r.Value() == a.Value() * Weight(m.t) && r.s == 0
    ensures r.Valid() || (r.Value() == 0 && r.t == m.t)
  {
    hide Weight, Val, Num;
    r := new BigInteger();
    a.DLShiftTo(m.t, r);
    ShiftedShape(a, r, m.t);
  }

  /** The last line of mod and of montConvert: from the remainder of |v| to that of a negative v. */
  method LiftNegative(m: BigInteger, r: BigInteger, negative: bool)
    requires m.Valid() && m.Value() > 0 && r.Valid() && 0 <= r.Value() < Weight(m.t) && r != m
    modifies r
    ensures r.Valid() && AbsInt(r.Value()) < Weight(m.t)
    ensures r.Value() == if negative && old(r.Value()) > 0 then m.Value() - old(r.Value()) else old(r.Value())
  {
    m.SignIsSign();
    m.SizeFits();
    hide Weight, Val, Num;
    r.SignIsSign();
    var zero := new BigInteger();
    zero.FromInt(0);
    if negative {
      var c := r.CompareTo(zero);
      if c > 0 {
        m.SubTo(r, r);
      }
    }
  }

  /** dlShiftTo does not clamp: zero comes out padded. */
  lemma ShiftedShape(a: BigInteger, r: BigInteger, n: nat)
    requires a.Valid() && a.s == 0 && r.Formed() && r.s == 0 && r.t == a.t + n
    requires Moved(r.d, n, a.d, 0, a.t) && r.Value() == a.Value() * Weight(n)
    ensures r.Valid() || (r.Value() == 0 && r.t == n)
  {
    a.ZeroIsEmpty();
    if a.t > 0 {
      assert At(r.d, r.t - 1) == At(a.d, a.t - 1);
    }
  }

  lemma LiftScaled(x: int, w: int, m: int)
    requires m > 0 && w > 0
    ensures var e := (AbsInt(x) * w) % m;
            && 0 <= e < m && (x * w) % m == if x < 0 && e > 0 then m - e else e
  {
    MulUpper(w, 0, AbsInt(x));
    assert AbsInt(x * w) == AbsInt(x) * w by {
      assert (-x) * w == -(x * w);
    }
    assert x < 0 ==> x * w < 0 by {
      if x < 0 {
        MulGe(-x, w);
        assert (-x) * w == -(x * w);
      }
    }
    LiftRemainder(x * w, m);
  }

  /** Back from a reducer's number. */
  method Revert(z: Reducer, a: BigInteger, ghost pos: bool, ghost v: int) returns (r: BigInteger)
    requires Ready(z) && Sized(z, a, pos)
    ensures r.Valid() && (r == a || fresh(r)) && (pos ==> r.s == 0)
    ensures Stands(z, a, v) ==> r.Value() == v % z.m.Value()
    ensures z.Classic? ==> r == a
  {
    ghost var m := z.m.Value();
    match z
    case Classic(_) =>
      r := a;
      if Stands(z, a, v) {
        CongIsMod(a.Value(), v, m);
      }
    case Montgomery(_, _, _, _, _, _) =>
      r := new BigInteger();
      ghost var w := Weight(z.m.t);
      WeightMonotone(z.m.t, 2 * z.m.t);
      hide Weight, Val, Num, Cong, Sound, SoundFrom;
      a.CopyTo(r);
      Reduce(z, r, pos);
      if Stands(z, a, v) {
        z.m.LengthOf();
        MulGeOne(w, m);
        assert w * m == m * w;
        CongTrans(r.Value() * w, a.Value(), v * w, m);
        CancelWeight(r.Value(), v, z.m.t, m);
        CongIsMod(r.Value(), v, m);
      }
  }

  lemma CancelWeight(a: int, b: int, n: nat, m: int)
    requires m % 2 == 1 && Cong(a * Weight(n), b * Weight(n), m)
    ensures Cong(a, b, m)
  {
    WeightIsPower(n);
    hide Cong, Weight, Pow2;
    CancelPower(a, b, n * DB, m);
  }

  /** r := the number for va * vb, from those for va and vb, if the estimates are good. */
  method MulTo(z: Reducer, a: BigInteger, b: BigInteger, r: BigInteger, ghost pos: bool, ghost va: int, ghost vb: int)
    requires Ready(z) && Sized(z, a, pos) && Sized(z, b, pos) && r != a && r != b && r != z.m
    modifies r
    ensures Sized(z, r, pos)
    ensures Stands(z, a, va) && Stands(z, b, vb) && ProductSound(z, va, vb) ==> Stands(z, r, va * vb)
  {
    ghost var x, y := a.Value(), b.Value();
    a.MultiplyTo(b, r);
    ProductSized(z, a, b, r, pos);
    if Stands(z, a, va) && Stands(z, b, vb) {
      ProductReduces(z, a, b, va, vb);
    }
    hide Cong, Num, Val, Weight, Sound, ProductSound, Reduces;
    Reduce(z, r, pos);
    if Stands(z, a, va) && Stands(z, b, vb) && ProductSound(z, va, vb) {
      ProductStands(z, r.Value(), x, y, va, vb);
    }
  }

  /** r := the number for va * va, if the estimates are good. */
  method SqrTo(z: Reducer, a: BigInteger, r: BigInteger, ghost pos: bool, ghost va: int)
    requires Ready(z) && Sized(z, a, pos) && r != a && r != z.m
    modifies r
    ensures Sized(z, r, pos)
    ensures Stands(z, a, va) && ProductSound(z, va, va) ==> Stands(z, r, va * va)
  {
    ghost var x := a.Value();
    a.SquareTo(r);
    ProductSized(z, a, a, r, pos);
    if Stands(z, a, va) {
      ProductReduces(z, a, a, va, va);
    }
    hide Cong, Num, Val, Weight, Sound, ProductSound, Reduces;
    Reduce(z, r, pos);
    if Stands(z, a, va) && ProductSound(z, va, va) {
      ProductStands(z, r.Value(), x, x, va, va);
    }
  }

  /** The estimates by which a Classic reducer reduces the product of the residues of va and vb are good. */
  ghost predicate ProductSound(z: Reducer, va: int, vb: int)
    reads z.m
  {
    z.Classic? && z.m.Value() > 0 ==> ResiduesSound(va, vb, z.m.Value())
  }

  predicate ResiduesSound(va: int, vb: int, m: int)
    requires m > 0
  {
    MulNonNegative(va % m, vb % m);
    Sound((va % m) * (vb % m), m)
  }

  /** The product of two numbers that are not too long is not too long for the reduction. */
  lemma ProductSized(z: Reducer, a: BigInteger, b: BigInteger, r: BigInteger, pos: bool)
    requires Ready(z) && r.Valid() && r.Value() == a.Value() * b.Value() && Sized(z, a, pos) && Sized(z, b, pos)
    ensures pos || z.Montgomery? ==> r.s == 0
    ensures z.Montgomery? ==> r.Value() < Weight(2 * z.m.t)
  {
    if pos || z.Montgomery? {
      a.ZeroIsEmpty();
      b.ZeroIsEmpty();
      r.SignIsSign();
      MulNonNegative(a.Value(), b.Value());
    }
    WeightAdd(z.m.t, z.m.t);
    hide Weight, Val, Num, Cong;
    if z.Montgomery? {
      SquareBound(a.Value(), b.Value(), Weight(z.m.t));
    }
  }

  lemma SquareBound(x: int, y: int, w: int)
    requires 0 <= x < w && 0 <= y < w
    ensures x * y < w * w
  {
    MulUpper(x, y, w);
    MulUpper(w, x, w - 1);
    assert w * (w - 1) == w * w - w;
  }

  /** The product of two reduced numbers is small enough for the result to be reduced. */
  lemma ProductReduces(z: Reducer, a: BigInteger, b: BigInteger, va: int, vb: int)
    requires Ready(z) && Stands(z, a, va) && Stands(z, b, vb)
    ensures ProductSound(z, va, vb) ==> Reduces(z, a.Value() * b.Value())
  {
    var m := z.m.Value();
    z.m.SizeBounds();
    hide Weight, Val, Num, Sound;
    ProductBelow(a.Value(), b.Value(), m, Weight(z.m.t));
    if z.Classic? {
      CongIsMod(a.Value(), va, m);
      CongIsMod(b.Value(), vb, m);
    }
  }

  lemma ProductBelow(x: int, y: int, m: int, w: int)
    requires 0 <= x < m && 0 <= y < m && m <= w
    ensures 0 <= x * y < m * w
  {
    MulUpper(x, y, m);
    MulUpper(m, x, m - 1);
    assert m * (m - 1) == m * m - m;
    MulUpper(m, m, w);
  }

  lemma ProductStands(z: Reducer, r: int, x: int, y: int, va: int, vb: int)
    requires Ready(z) && Cong(r * Scale(z), x * y, z.m.Value())
    requires Cong(x, va * Scale(z), z.m.Value()) && Cong(y, vb * Scale(z), z.m.Value())
    ensures Cong(r, (va * vb) * Scale(z), z.m.Value())
  {
    var w, m := Scale(z), z.m.Value();
    assert z.Montgomery? ==> m % 2 == 1;
    hide Cong, Ready;
    CongMul(x, va * w, y, vb * w, m);
    ScaleOut(va, vb, w);
    CongTrans(r * w, x * y, ((va * vb) * w) * w, m);
    if z.Montgomery? {
      CancelWeight(r, (va * vb) * w, z.m.t, m);
    }
  }

  lemma ScaleOut(a: int, b: int, w: int)
    ensures (a * w) * (b * w) == ((a * b) * w) * w
  {
    assert (a * w) * (b * w) == a * (w * (b * w));
  }

  // ---------------------------------------------------------------- square and multiply

  /** The estimates of one step of the square-and-multiply loop on Classic numbers are good. */
  predicate StepSound(x: int, e: int, m: int, o: nat)
    requires m > 0 && e >= 0
  {
    var h := Power(x, Prefix(e, o + 1));
    ResiduesSound(h, h, m) && (AndBit(e, o) > 0 ==> ResiduesSound(h * h, x, m))
  }

  /** So are those of the steps from bit hi down to bit lo, which Montgomery takes without a division. */
  predicate StepsSound(montgomery: bool, x: int, e: int, m: int, lo: nat, hi: int)
    requires m > 0 && e >= 0
  {
    !montgomery ==> forall o: nat :: lo <= o < hi ==> StepSound(x, e, m, o)
  }

  /** Every estimate of the power is good: one division for Montgomery, one for every product for Classic. */
  predicate ExpSound(montgomery: bool, x: int, e: int, m: int)
    requires m > 0
  {
    1 <= e <= 0xffff_ffff ==>
      ConvertSound(montgomery, x, m) && StepsSound(montgomery, x, e, m, 0, NBits(e) - 1)
  }

  /** x^e through the reducer z, if every estimate is good; the two scratch numbers change places on a zero bit.
      Exponents outside 1..2^32-1 give 1.  A negative x that estimates turned into a negative number of a Montgomery
      reducer, where the original goes on to digits that do not exist, is not followed further. */
  method Exp(x: BigInteger, e: int, z: Reducer) returns (res: BigInteger)
    requires Ready(z) && x.Valid()
    ensures x.Value() >= 0 ==> res.Valid() && res.s == 0
    ensures ExpSound(z.Montgomery?, x.Value(), e, z.m.Value()) ==>
      && res.Valid()
      && res.Value() == if 1 <= e <= 0xffff_ffff then Power(x.Value(), e) % z.m.Value() else 1
    ensures z.Classic? && e == 1 && LastDecides(x.Value(), z.m.Value()) ==>
      (res.Value() == x.Value() % z.m.Value() <==> Sound(x.Value(), z.m.Value()))
  {
    assert z.m.Value() > 0;
    hide Stands, Ready, NBits, Pow2, AndBit, Weight, Val, Num, Prefix, Power, Sized, ConvertSound, StepSound,
      LastDecides, Sound;
    if e > 0xffff_ffff || 1 > e {
      res := new BigInteger();
      res.FromInt(1);
      return;
    }
    ghost var v, m, pos := x.Value(), z.m.Value(), x.Value() >= 0;
    var n := new BigInteger();
    var i := new BigInteger();
    var r := Convert(z, x);
    if z.Montgomery? && r.s < 0 {
      StandsShape(z, r, v);
      return n;
    }
    SizedBoth(z, r, pos);
    OneBit();
    res := ExpLoop(z, e, r, n, i, pos, v, ConvertSound(z.Montgomery?, v, m));
  }

  /** The bits of the exponent, from the one below the leading one. */
  method ExpLoop(z: Reducer, e: int, r: BigInteger, n0: BigInteger, i0: BigInteger, ghost pos: bool, ghost v: int,
                 ghost ok0: bool)
    returns (res: BigInteger)
    requires Ready(z) && 1 <= e <= 0xffff_ffff && n0 != i0 && n0 != r && i0 != r && n0 != z.m && i0 != z.m
    requires Sized(z, r, pos) && (ok0 ==> Stands(z, r, v))
    requires z.m.Value() > 0
    modifies n0, i0
    ensures res.Valid() && (pos ==> res.s == 0)
    ensures ok0 && StepsSound(z.Montgomery?, v, e, old(z.m.Value()), 0, NBits(e) - 1) ==>
      res.Value() == Power(v, e) % old(z.m.Value())
    ensures z.Classic? && NBits(e) == 1 ==> res.Value() == old(r.Value())
  {
    hide Stands, Ready, NBits, Pow2, AndBit, Weight, Val, Num, Prefix, Power, Sized, StepSound;
    ghost var m := z.m.Value();
    var n, i := n0, i0;
    NBitsSpec(e);
    var o := NBits(e) - 1;
    FirstBit(v, e, o);
    LoadCopy(z, r, n, pos, v);
    ghost var ok, top := ok0, o;
    while o > 0
      invariant 0 <= o <= top <= 31 && {n, i} == {n0, i0} && n != i
      invariant Ready(z) && z.m.Value() == m && Sized(z, r, pos) && Sized(z, n, pos)
      invariant ok ==> Stands(z, r, v) && Stands(z, n, Power(v, Prefix(e, o)))
      invariant ok0 && StepsSound(z.Montgomery?, v, e, m, o, top) ==> ok
      invariant o == top ==> n.Value() == r.Value()
      decreases o
    {
      o := o - 1;
      n, i := ExpStep(z, e, o, r, n, i, pos, v, ok);
      ok := ok && (z.Montgomery? || StepSound(v, e, m, o));
    }
    Pow2Zero();
    res := Revert(z, n, pos, Power(v, e));
  }

  /** One bit of the exponent: n for the power so far becomes n' for the next one. */
  method ExpStep(z: Reducer, e: int, o: nat, r: BigInteger, n: BigInteger, i: BigInteger, ghost pos: bool,
                 ghost v: int, ghost ok: bool)
    returns (n': BigInteger, i': BigInteger)
    requires Ready(z) && 1 <= e && o <= 30 && n != i && n != r && i != r && n != z.m && i != z.m
    requires Sized(z, r, pos) && Sized(z, n, pos)
    requires ok ==> Stands(z, r, v) && Stands(z, n, Power(v, Prefix(e, o + 1)))
    modifies n, i
    ensures (n' == n && i' == i) || (n' == i && i' == n)
    ensures Sized(z, n', pos)
    ensures ok && (z.Montgomery? || StepSound(v, e, z.m.Value(), o)) ==> Stands(z, n', Power(v, Prefix(e, o)))
  {
    hide Stands, NBits, Pow2, AndBit, Weight, Val, Num, Prefix, Power, Sized, StepSound, ProductSound;
    ghost var h := Power(v, Prefix(e, o + 1));
    NextBit(v, e, o);
    StepIs(z, v, e, z.m.Value(), o);
    SqrTo(z, n, i, pos, h);
    if AndBit(e, o) > 0 {
      MulTo(z, i, r, n, pos, h * h, v);
      n', i' := n, i;
    } else {
      n', i' := i, n;
    }
  }

  lemma OneBit()
    ensures NBits(1) == 1
  {
    hide NBits, Pow2;
    NBitsSpec(1);
    GrowsPast(NBits(1) - 1);
  }

  lemma GrowsPast(k: nat)
    ensures k > 0 ==> Pow2(k) >= 2
  {
  }

  lemma StandsShape(z: Reducer, r: BigInteger, v: int)
    ensures Stands(z, r, v) ==> r.s == 0
    ensures Sized(z, r, true) ==> r.s == 0
  {
  }

  lemma SizedBoth(z: Reducer, r: BigInteger, pos: bool)
    requires (pos ==> Sized(z, r, true)) && Sized(z, r, false)
    ensures Sized(z, r, pos)
  {
  }

  lemma StepIs(z: Reducer, v: int, e: int, m: int, o: nat)
    requires m > 0 && m == z.m.Value() && e >= 0
    ensures var h := Power(v, Prefix(e, o + 1));
            z.Montgomery? || StepSound(v, e, m, o) ==>
              ProductSound(z, h, h) && (AndBit(e, o) > 0 ==> ProductSound(z, h * h, v))
  {
    hide Power, Prefix, AndBit, ResiduesSound;
  }

  method LoadCopy(z: Reducer, r: BigInteger, n: BigInteger, ghost pos: bool, ghost v: int)
    requires Sized(z, r, pos) && n != r && n != z.m
    modifies n
    ensures Sized(z, n, pos) && (Stands(z, r, v) ==> Stands(z, n, v)) && n.Value() == r.Value()
  {
    r.CopyTo(n);
  }

  /** The exponent without its o low bits. */
  function Prefix(e: int, o: nat): (r: nat)
    requires e >= 0
    ensures r == e / Pow2(o)
  {
    DivMod(e, Pow2(o));
    e / Pow2(o)
  }

  /** The leading bit: the power starts at x itself. */
  lemma FirstBit(v: int, e: int, o: int)
    requires 1 <= e && o >= 0 && Pow2(o) <= e < Pow2(o + 1)
    ensures Power(v, Prefix(e, o)) == v
  {
    assert Pow2(o + 1) == 2 * Pow2(o);
    hide Pow2, Prefix;
    DivModUnique(e, Pow2(o), 1, e - Pow2(o));
    assert Power(v, 1) == v * Power(v, 0);
  }

  /** One more bit of the exponent: square, and multiply if it is set. */
  lemma NextBit(v: int, e: int, o: nat)
    requires 1 <= e && o <= 30
    ensures var h := Power(v, Prefix(e, o + 1));
            Power(v, Prefix(e, o)) == if AndBit(e, o) > 0 then (h * h) * v else h * h
  {
    BitTest(e, o);
    assert Pow2(o + 1) == 2 * Pow2(o);
    hide Pow2, AndBit, Prefix, Power;
    HalveExponent(e, Pow2(o));
    var k := Prefix(e, o + 1);
    PowerAdd(v, k, k);
    PowerAdd(v, k + k, 1);
    PowerOne(v);
  }

  lemma PowerOne(v: int)
    ensures Power(v, 1) == v
  {
    assert Power(v, 1) == v * Power(v, 0);
  }

  lemma HalveExponent(e: int, p: int)
    requires e >= 0 && p > 0
    ensures e / (2 * p) >= 0 && e / p == 2 * (e / (2 * p)) + (e / p) % 2
  {
    var q, r := e / p, e % p;
    DivMod(e, p);
    var k, b := q / 2, q % 2;
    assert q == 2 * k + b;
    HalveAlgebra(e, p, q, r, k, b);
    DivModUnique(e, 2 * p, k, b * p + r);
  }

  lemma HalveAlgebra(e: int, p: int, q: int, r: int, k: int, b: int)
    requires p > 0 && e == r + q * p && 0 <= r < p && q == 2 * k + b && 0 <= b <= 1
    ensures e == k * (2 * p) + (b * p + r) && 0 <= b * p + r < 2 * p
  {
    assert q * p == k * (2 * p) + b * p;
    assert b == 0 ==> b * p == 0;
  }

  /** isEven of a number that is not negative. */
  method IsEven(m: BigInteger) returns (even: bool)
    requires m.Valid() && m.s == 0
    ensures even <==> m.Value() % 2 == 0
  {
    if m.t > 0 {
      LowDigitParity(m.d, m.t);
      LowMod(m.d[0], 1);
      assert Pow2(1) == 2;
      even := Low(m.d[0], 1) == 0;
    } else {
      m.ZeroIsEmpty();
      even := m.s == 0;
    }
  }

  /** Every estimate of modPowInt is good: Classic is for small exponents and even moduli. */
  predicate PowerSound(x: int, e: int, m: int)
    requires m > 0
  {
    ExpSound(e >= 256 && m % 2 == 1, x, e, m)
  }

  /** x^e mod m, if every estimate is good: Classic for small exponents and even moduli, Montgomery otherwise.  For an
      exponent of 1 and x >= m, when all estimates but the last are good, exactly if that one is, too. */
  method ModPowInt(x: BigInteger, e: int, m: BigInteger) returns (r: BigInteger)
    requires x.Valid() && m.Valid() && m.Value() >= 1
    ensures x.Value() >= 0 ==> r.Valid() && r.s == 0
    ensures PowerSound(x.Value(), e, m.Value()) ==>
      && r.Valid()
      && r.Value() == if 1 <= e <= 0xffff_ffff then Power(x.Value(), e) % m.Value() else 1
    ensures e == 1 && LastDecides(x.Value(), m.Value()) ==>
      (r.Value() == x.Value() % m.Value() <==> Sound(x.Value(), m.Value()))
  {
    m.SignIsSign();
    var z := Classic(m);
    var even := IsEven(m);
    if !(256 > e || even) {
      z := NewMontgomery(m);
    }
    hide ExpSound, Power, LastDecides, Sound;
    r := Exp(x, e, z);
  }

  /** With digits of 28 or 30 bits, and for moduli of one digit, every estimate is good. */
  lemma PowerAlwaysSound(x: int, e: int, m: int)
    requires m > 0 && (DB != 26 || Length(m) == 1)
    ensures PowerSound(x, e, m)
  {
    hide Sound, Length, Weight, Power, Prefix, AndBit, NBits;
    MulNonNegative(AbsInt(x), Weight(Length(m)));
    AlwaysSound(AbsInt(x), m);
    AlwaysSound(AbsInt(x) * Weight(Length(m)), m);
    if 1 <= e <= 0xffff_ffff {
      forall o: nat | o < NBits(e) - 1
        ensures StepSound(x, e, m, o)
      {
        var h := Power(x, Prefix(e, o + 1));
        MulNonNegative(h % m, h % m);
        MulNonNegative((h * h) % m, x % m);
        AlwaysSound((h % m) * (h % m), m);
        AlwaysSound(((h * h) % m) * (x % m), m);
      }
    }
  }

  /** With 26 bits, an exponent of 1 is enough for a wrong one. */
  lemma LowPower()
    requires DB == 26
    ensures !PowerSound(LOW_DIVIDEND, 1, LOW_DIVISOR) && !Sound(LOW_DIVIDEND, LOW_DIVISOR)
    ensures LastDecides(LOW_DIVIDEND, LOW_DIVISOR)
  {
    LowIsUnsound();
    hide Sound;
  }
}
