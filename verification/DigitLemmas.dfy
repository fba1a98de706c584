/** What the digit loops of BigInteger rely on: each lemma is one step of one loop. */
module DigitLemmas {
  import opened JsInt
  import opened Digits
  import opened Kernels

  // ---------------------------------------------------------------- signs and lengths

  /** The digit that the sign word repeats for ever. */
  function Fill(s: int): int {
    if s == 0 then 0 else DM
  }

  /** A leading digit that repeats the sign can go. */
  lemma DropFill(d: DigitMap, t: nat, s: int)
    requires t > 0 && (s == 0 || s == -1) && At(d, t - 1) == Fill(s)
    ensures Num(d, t, s) == Num(d, t - 1, s)
  {
    var w := Weight(t - 1);
    assert DM * w == DV * w - w;
  }

  lemma ShiftAlgebra(v: int, s: int, p: int, w: int)
    ensures 0 + p * v + s * (p * w) == (v + s * w) * p
  {
  }

  lemma ShiftedValue(e: DigitMap, d: DigitMap, n: nat, t: nat, s: int, v: int)
    requires v == Num(d, t, s)
    requires Moved(e, n, d, 0, t) && forall k :: 0 <= k < n ==> At(e, k) == 0
    ensures Num(e, t + n, s) == v * Weight(n)
  {
    ValSplit(e, 0, n, t);
    ValZero(e, 0, n);
    ValMoved(e, n, d, 0, t);
    WeightAdd(n, t);
    ShiftAlgebra(Val(d, 0, t), s, Weight(n), Weight(t));
  }

  /** Two numbers of n digits that agree from k on are ordered by their digits at k - 1. */
  lemma DigitsDecide(d: DigitMap, e: DigitMap, k: nat, n: nat)
    requires 0 < k <= n && Proper(d, 0, n) && Proper(e, 0, n)
    requires Same(d, e, k, n) && At(d, k - 1) > At(e, k - 1)
    ensures Val(d, 0, n) > Val(e, 0, n)
  {
    hide Val, Weight;
    ProperPart(d, 0, n, 0, k);
    ProperPart(e, 0, n, 0, k);
    TopDecides(d, e, k);
    ValSplit(d, 0, k, n - k);
    ValSplit(e, 0, k, n - k);
    ValFrame(d, e, k, n - k);
  }

  lemma TopDecides(d: DigitMap, e: DigitMap, k: nat)
    requires 0 < k && Proper(d, 0, k) && Proper(e, 0, k) && At(d, k - 1) > At(e, k - 1)
    ensures Val(d, 0, k) > Val(e, 0, k)
  {
    ProperPart(d, 0, k, 0, k - 1);
    ProperPart(e, 0, k, 0, k - 1);
    ValBound(d, 0, k - 1);
    ValBound(e, 0, k - 1);
    assert Val(d, 0, k) == Val(d, 0, k - 1) + At(d, k - 1) * Weight(k - 1);
    assert Val(e, 0, k) == Val(e, 0, k - 1) + At(e, k - 1) * Weight(k - 1);
    hide Val, Weight, Proper;
    DecideAlgebra(At(d, k - 1), At(e, k - 1), Weight(k - 1), Val(d, 0, k - 1), Val(e, 0, k - 1));
  }

  lemma DecideAlgebra(x: int, y: int, w: int, v: int, u: int)
    requires x > y && 0 <= v && 0 <= u < w
    ensures v + x * w > u + y * w
  {
    MulGe(x - y, w);
    assert (x - y) * w == x * w - y * w;
  }

  /** A number without leading zeros has its length determined by its size. */
  lemma LengthBounds(d: DigitMap, t: nat)
    requires Proper(d, 0, t) && t > 0 && d[t - 1] != 0
    ensures Weight(t - 1) <= Val(d, 0, t) < Weight(t)
  {
    ProperPart(d, 0, t, 0, t - 1);
    ValBound(d, 0, t);
    ValBound(d, 0, t - 1);
    MulGeOne(d[t - 1], Weight(t - 1));
  }

  /** The same for negative numbers without leading DM digits. */
  lemma LengthBoundsNegative(d: DigitMap, t: nat)
    requires Proper(d, 0, t) && t > 0 && d[t - 1] != DM
    ensures -Weight(t) <= Val(d, 0, t) - Weight(t) < -Weight(t - 1)
  {
    ProperPart(d, 0, t, 0, t - 1);
    ValBound(d, 0, t);
    ValBound(d, 0, t - 1);
    NegativeAlgebra(DV, d[t - 1], Weight(t - 1));
  }

  lemma NegativeAlgebra(b: int, x: int, w: int)
    requires 0 <= x <= b - 2 && w >= 0
    ensures 0 <= x * w <= b * w - 2 * w
  {
    MulUpper(w, x, b - 2);
    assert w * (b - 2) == b * w - 2 * w;
  }

  /** The n digits of r and the borrow i beyond them hold the number total. */
  ghost predicate Holds(r: DigitMap, n: nat, i: int, total: int) {
    Val(r, 0, n) + i * Weight(n) == total
  }

  /** One digit of a subtraction: the digit goes into the result, the borrow moves on. */
  lemma BorrowStep(r: DigitMap, n: nat, i: int, x: int, y: int, digit: int, borrow: int, v: int, u: int)
    requires i + x - y == borrow * DV + digit
    requires Holds(r, n, i, v - u)
    ensures Holds(r[n := digit], n + 1, borrow, (v + x * Weight(n)) - (u + y * Weight(n)))
  {
    ValFrame(r, r[n := digit], 0, n);
    BorrowAlgebra(i, x, y, digit, borrow, DV, Weight(n));
  }

  lemma BorrowBoth(r: DigitMap, n: nat, i: int, d: DigitMap, a: DigitMap, digit: int, borrow: int)
    requires i + At(d, n) - At(a, n) == borrow * DV + digit
    requires Holds(r, n, i, Val(d, 0, n) - Val(a, 0, n))
    ensures Holds(r[n := digit], n + 1, borrow, Val(d, 0, n + 1) - Val(a, 0, n + 1))
  {
    hide Holds;
    BorrowStep(r, n, i, At(d, n), At(a, n), digit, borrow, Val(d, 0, n), Val(a, 0, n));
  }

  lemma BorrowThis(r: DigitMap, n: nat, i: int, d: DigitMap, digit: int, borrow: int, u: int)
    requires i + At(d, n) == borrow * DV + digit
    requires Holds(r, n, i, Val(d, 0, n) - u)
    ensures Holds(r[n := digit], n + 1, borrow, Val(d, 0, n + 1) - u)
  {
    hide Holds;
    BorrowStep(r, n, i, At(d, n), 0, digit, borrow, Val(d, 0, n), u);
  }

  lemma BorrowArgument(r: DigitMap, n: nat, i: int, a: DigitMap, digit: int, borrow: int, v: int)
    requires i - At(a, n) == borrow * DV + digit
    requires Holds(r, n, i, v - Val(a, 0, n))
    ensures Holds(r[n := digit], n + 1, borrow, v - Val(a, 0, n + 1))
  {
    hide Holds;
    BorrowStep(r, n, i, 0, At(a, n), digit, borrow, v, Val(a, 0, n));
  }

  /** A sign word joins the borrow. */
  lemma AddSign(r: DigitMap, n: nat, i: int, x: int, v: int, u: int)
    requires Holds(r, n, i, v - u)
    ensures Holds(r, n, i + x, v + x * Weight(n) - u)
    ensures Holds(r, n, i - x, v - (u + x * Weight(n)))
  {
    Distribute(i, x, Weight(n));
  }

  lemma BorrowAlgebra(i: int, x: int, y: int, digit: int, i': int, b: int, w: int)
    requires i + x - y == i' * b + digit
    ensures digit * w + i' * (b * w) == i * w + x * w - y * w
  {
    assert (i' * b + digit) * w == (i + x - y) * w;
  }

  lemma NoBorrowLeft(r: DigitMap, n: nat, i: int, total: int)
    requires Holds(r, n, i, total) && Proper(r, 0, n)
    ensures 0 <= total < Weight(n) ==> i == 0
  {
    ValBound(r, 0, n);
    if 0 <= total < Weight(n) {
      QuotientUnique(i, Val(r, 0, n), 0, total, Weight(n));
    }
  }

  lemma FinishDigit(r: DigitMap, n: nat, i: int, s: int, digit: int)
    requires i == s * DV + digit
    ensures Val(r[n := digit], 0, n + 1) + s * Weight(n + 1) == Val(r, 0, n) + i * Weight(n)
  {
    ValFrame(r, r[n := digit], 0, n);
    assert (s * DV + digit) * Weight(n) == s * (DV * Weight(n)) + digit * Weight(n);
  }

  /** v & DM and v >> DB: the digit to keep and the borrow to pass on. */
  method Cut(v: int) returns (digit: int, borrow: int)
    requires -WIDE - 9 <= v <= WIDE + 8
    ensures v == borrow * DV + digit && 0 <= digit < DV
    ensures -9 <= borrow <= 8
    ensures v >= -DV ==> -1 <= borrow
    ensures v < DV ==> borrow <= 0
  {
    assert ToInt32(v) == v;
    BaseIsPower();
    DivMod(v, DV);
    hide Pow2, ToInt32;
    digit, borrow := Low(v, DB), Shr(v, DB);
  }

  // ---------------------------------------------------------------- bit shifts inside a digit

  /** A digit cut k bits from the bottom, and the halves pushed together again elsewhere. */
  lemma DigitParts(x: int, k: nat)
    requires 0 <= x < DV && k <= DB
    ensures x == Low(x, k) + Shr(x, k) * Pow2(k)
    ensures 0 <= Low(x, k) < Pow2(k) && 0 <= Shr(x, k) < Pow2(DB - k)
    ensures Pow2(k) * Pow2(DB - k) == DV
  {
    hide Low, Shr, Pow2;
    BaseIsPower();
    Pow2Add(k, DB - k);
    ShrSplit(x, k);
    HighPart(x, Low(x, k), Shr(x, k), Pow2(k), Pow2(DB - k));
  }

  lemma HighPart(x: int, lo: int, hi: int, p: int, q: int)
    requires x == lo + hi * p && 0 <= lo && p > 0 && x < p * q
    ensures hi < q
  {
    assert q * p == p * q;
    Below(hi, q, p);
  }

  lemma PushedUp(l: int, k: nat)
    requires k <= DB && 0 <= l < Pow2(DB - k)
    ensures Shl(l, k) == l * Pow2(k) && 0 <= Shl(l, k) <= DV - Pow2(k)
  {
    BaseIsPower();
    Pow2Add(k, DB - k);
    Pow2Monotone(DB - k, DB);
    hide Pow2, Shl;
    PushAlgebra(l, Pow2(k), Pow2(DB - k));
    ShlSmall(l, k);
  }

  lemma PushAlgebra(l: int, p: int, q: int)
    requires 0 <= l < q && p >= 0
    ensures 0 <= l * p <= p * q - p
  {
    MulUpper(p, l, q - 1);
    assert p * (q - 1) == p * q - p;
  }

  /** The bits the sign word contributes to a left shift by k < DB. */
  lemma SignShifted(s: int, k: nat)
    requires (s == 0 || s == -1) && k < DB
    ensures Low(Shl(s, k), DB) == (-s * (Pow2(DB - k) - 1)) * Pow2(k)
    ensures Low(Shl(s, k), DB) + s * DV == s * Pow2(k)
  {
    BaseIsPower();
    Pow2Add(k, DB - k);
    Pow2Monotone(k, DB - 1);
    assert Pow2(k) < DV;
    ShlSign(s, k);
    LowMod(s * Pow2(k), DB);
    hide Low, Shl, Pow2;
    SignAlgebra(s, Pow2(k), Pow2(DB - k), DV);
  }

  lemma ShlSign(s: int, k: nat)
    requires (s == 0 || s == -1) && Pow2(k) < 0x8000_0000
    ensures Shl(s, k) == s * Pow2(k)
  {
    hide Pow2;
    assert ToInt32(s) == s;
    assert s == -1 ==> s * Pow2(k) == -Pow2(k);
  }

  lemma SignAlgebra(s: int, p: int, q: int, b: int)
    requires (s == 0 || s == -1) && 0 < p < b && p * q == b
    ensures (s * p) % b == (-s * (q - 1)) * p
    ensures (s * p) % b + s * b == s * p
  {
    if s == -1 {
      DivModUnique(-p, b, -1, b - p);
      assert (q - 1) * p == p * q - p;
    } else {
      DivModUnique(0, b, 0, 0);
    }
  }

  /** And to a right shift by k: all ones for a negative number. */
  lemma SignLow(s: int, k: nat)
    requires (s == 0 || s == -1) && k <= 32
    ensures Low(s, k) == -s * (Pow2(k) - 1)
  {
    LowMod(s, k);
    if s == -1 {
      DivModUnique(-1, Pow2(k), -1, Pow2(k) - 1);
    } else {
      DivModUnique(0, Pow2(k), 0, 0);
    }
  }

  lemma OrBelow(x: int, l: int, k: nat, y: int)
    requires 0 <= x < Pow2(k) && 0 <= l && y == l * Pow2(k)
    ensures y >= 0 && Or(x, y) == x + y && Or(y, x) == x + y
  {
    OrDisjoint(x, l, k);
    OrCommutes(x, y);
  }

  /** Whole digits are DB bits each. */
  lemma {:induction false} WeightIsPower(n: nat)
    ensures Weight(n) == Pow2(n * DB)
  {
    BaseIsPower();
    if n > 0 {
      WeightIsPower(n - 1);
      Pow2Add(DB, (n - 1) * DB);
      assert DB + (n - 1) * DB == n * DB;
    }
  }

  lemma ShiftIsPower(sh: nat)
    ensures Weight(sh / DB) * Pow2(sh % DB) == Pow2(sh)
  {
    WeightIsPower(sh / DB);
    Pow2Add(sh / DB * DB, sh % DB);
  }

  // -- left shift

  /** From digit n up: shifted by k bits, a is what spills below the digits already written. */
  ghost predicate LeftSum(e: DigitMap, a: int, d: DigitMap, n: nat, t: nat, s: int, w: nat, k: nat) {
    n <= t && (Val(d, n, t - n) + s * Weight(t - n)) * Pow2(k)
              == a + DV * (Val(e, n + w + 1, t - n) + s * Weight(t - n))
  }

  lemma LeftStep(e: DigitMap, a: int, d: DigitMap, n: nat, t: nat, s: int, w: nat, k: nat, hi: int, lo: int)
    requires n < t && LeftSum(e, a, d, n + 1, t, s, w, k) && k <= DB
    requires At(d, n) == lo + hi * Pow2(DB - k) && Pow2(DB - k) * Pow2(k) == DV
    ensures LeftSum(e[n + w + 1 := hi + a], lo * Pow2(k), d, n, t, s, w, k)
  {
    var f := e[n + w + 1 := hi + a];
    assert Weight(t - n) == DV * Weight(t - n - 1);
    hide Val, Weight, Pow2;
    ValHead(d, n, t - n);
    ValHead(f, n + w + 1, t - n);
    ValFrame(e, f, n + w + 2, t - n - 1);
    LeftAlgebra(Val(d, n + 1, t - n - 1), s * Weight(t - n - 1), Val(e, n + w + 2, t - n - 1),
                a, lo, hi, Pow2(DB - k), Pow2(k), DV);
    MulSwap(DV, s, Weight(t - n - 1));
  }

  lemma LeftAlgebra(v: int, sw: int, y: int, a: int, lo: int, hi: int, q: int, p: int, b: int)
    requires (v + sw) * p == a + b * (y + sw) && q * p == b
    ensures (lo + hi * q + b * v + b * sw) * p == lo * p + b * (hi + a + b * y + b * sw)
  {
    assert (hi * q) * p == hi * b;
    assert (b * v + b * sw) * p == b * ((v + sw) * p);
    assert (lo + hi * q + b * v + b * sw) * p == lo * p + hi * b + b * (a + b * (y + sw));
  }

  lemma LeftFrame(e: DigitMap, f: DigitMap, a: int, d: DigitMap, t: nat, s: int, w: nat, k: nat)
    requires LeftSum(e, a, d, 0, t, s, w, k) && Same(e, f, w + 1, w + 1 + t)
    ensures LeftSum(f, a, d, 0, t, s, w, k)
  {
    ValFrame(e, f, w + 1, t);
  }

  lemma LeftEnd(e: DigitMap, a: int, d: DigitMap, t: nat, s: int, w: nat, k: nat, v: int)
    requires LeftSum(e, a, d, 0, t, s, w, k) && At(e, w) == a && v == Num(d, t, s)
    requires forall j :: 0 <= j < w ==> At(e, j) == 0
    ensures Num(e, t + w + 1, s) == Weight(w) * (v * Pow2(k))
  {
    hide Val, Weight, Pow2;
    assert v == Val(d, 0, t) + s * Weight(t);
    hide Num;
    WeightNext(t);
    ValHead(e, w, t + 1);
    LeftShape(e, t + 1, s, w);
    LeftEndAlgebra(Weight(w), a, DV, Val(e, w + 1, t), Val(e, w, t + 1), s, Weight(t), Weight(t + 1), v * Pow2(k));
  }

  lemma LeftShape(e: DigitMap, n: nat, s: int, w: nat)
    requires forall j :: 0 <= j < w ==> At(e, j) == 0
    ensures Num(e, w + n, s) == Weight(w) * Val(e, w, n) + s * (Weight(w) * Weight(n))
  {
    ValSplit(e, 0, w, n);
    ValZero(e, 0, w);
    WeightAdd(w, n);
  }

  lemma LeftEndAlgebra(p: int, a: int, b: int, y: int, x: int, s: int, w: int, w': int, total: int)
    requires total == a + b * (y + s * w) && x == a + b * y && w' == b * w
    ensures p * x + s * (p * w') == p * total
  {
    assert b * (y + s * w) == b * y + s * w';
    assert p * (x + s * w') == p * x + s * (p * w');
  }

  lemma LeftStart(e: DigitMap, d: DigitMap, t: nat, s: int, w: nat, k: nat)
    requires (s == 0 || s == -1) && k < DB
    ensures LeftSum(e, Low(Shl(s, k), DB), d, t, t, s, w, k)
    ensures Low(Shl(s, k), DB) == (-s * (Pow2(DB - k) - 1)) * Pow2(k)
    ensures 0 <= -s * (Pow2(DB - k) - 1) < Pow2(DB - k)
    ensures 0 <= Low(Shl(s, k), DB) <= DV - Pow2(k)
  {
    SignShifted(s, k);
    BaseIsPower();
    Pow2Add(k, DB - k);
    LeftStartSum(e, Low(Shl(s, k), DB), d, t, s, w, k);
    hide Low, Shl, Pow2, LeftSum;
    PushAlgebra(-s * (Pow2(DB - k) - 1), Pow2(k), Pow2(DB - k));
  }

  lemma LeftStartSum(e: DigitMap, a: int, d: DigitMap, t: nat, s: int, w: nat, k: nat)
    requires a + s * DV == s * Pow2(k)
    ensures LeftSum(e, a, d, t, t, s, w, k)
  {
    hide Pow2;
    assert Weight(0) == 1;
  }

  // -- right shift

  /** Digits n..m shifted down by k bits, the bits lost at the very bottom being rem. */
  ghost predicate RightSum(e: DigitMap, d: DigitMap, n: nat, m: nat, k: nat, rem: int) {
    n <= m && Val(d, n, m - n) == Val(e, 0, m - n) * Pow2(k) + rem
  }

  /** The low bits of the next digit complete the one below; its high bits start a new one. */
  lemma RightStep(e: DigitMap, d: DigitMap, n: nat, m: nat, k: nat, rem: int, lo: int, hi: int)
    requires n < m && RightSum(e, d, n, m, k, rem) && k <= DB
    requires At(d, m) == lo + hi * Pow2(k) && Pow2(k) * Pow2(DB - k) == DV
    ensures RightSum(e[m - n - 1 := At(e, m - n - 1) + lo * Pow2(DB - k)][m - n := hi], d, n, m + 1, k, rem)
  {
    var f := e[m - n - 1 := At(e, m - n - 1) + lo * Pow2(DB - k)];
    ValPut(e, 0, m - n, m - n - 1, At(e, m - n - 1) + lo * Pow2(DB - k));
    ValFrame(f, f[m - n := hi], 0, m - n);
    assert Val(d, n, m + 1 - n) == Val(d, n, m - n) + At(d, m) * Weight(m - n);
    assert Weight(m - n) == DV * Weight(m - n - 1);
    RightAlgebra(Val(e, 0, m - n), rem, lo, hi, Pow2(k), Pow2(DB - k), Weight(m - n - 1));
  }

  lemma RightAlgebra(v: int, rem: int, lo: int, hi: int, p: int, q: int, w: int)
    ensures (v * p + rem) + (lo + hi * p) * ((p * q) * w) == (v + (lo * q) * w + hi * ((p * q) * w)) * p + rem
  {
    assert (lo + hi * p) * ((p * q) * w) == (lo * q) * w * p + hi * ((p * q) * w) * p;
  }

  /** The sign word fills the top digit; then the whole is a floor division. */
  lemma RightEnd(e: DigitMap, d: DigitMap, n: nat, t: nat, s: int, k: nat, rem: int, fill: int)
    requires n < t && RightSum(e, d, n, t, k, rem) && k <= DB
    requires fill * Pow2(k) == -s * (DV * Pow2(k) - DV)
    ensures Val(d, n, t - n) + s * Weight(t - n)
         == Num(e[t - n - 1 := At(e, t - n - 1) + fill], t - n, s) * Pow2(k) + rem
  {
    ValPut(e, 0, t - n, t - n - 1, At(e, t - n - 1) + fill);
    assert Weight(t - n) == DV * Weight(t - n - 1);
    RightEndAlgebra(Val(e, 0, t - n), fill, s, Pow2(k), DV, Weight(t - n - 1), rem);
  }

  lemma RightEndAlgebra(v: int, fill: int, s: int, p: int, b: int, w: int, rem: int)
    requires fill * p == -s * (b * p - b)
    ensures v * p + rem + s * (b * w) == (v + fill * w + s * (b * w)) * p + rem
  {
    assert (fill * w) * p == (-s * (b * p - b)) * w;
    assert (-s * (b * p - b)) * w == s * (b * w) - s * (b * w) * p;
  }

  lemma RightStart(e: DigitMap, d: DigitMap, n: nat, k: nat)
    requires At(d, n) == Low(At(d, n), k) + Shr(At(d, n), k) * Pow2(k)
    ensures RightSum(e[0 := Shr(At(d, n), k)], d, n, n + 1, k, Low(At(d, n), k))
  {
    var f := e[0 := Shr(At(d, n), k)];
    assert Weight(0) == 1;
    assert Val(d, n, 1) == Val(d, n, 0) + At(d, n) * Weight(0);
    assert Val(f, 0, 1) == Val(f, 0, 0) + At(f, 0) * Weight(0);
  }

  /** The two ways the top digit ends: k = 0 needs no fill, k > 0 ors it in. */
  lemma RightTop(e: DigitMap, d: DigitMap, n: nat, t: nat, s: int, k: nat, rem: int)
    requires n < t && Proper(e, 0, t - n) && k < DB && e[t - n - 1] < Pow2(DB - k)
    requires (s == 0 || s == -1) && RightSum(e, d, n, t, k, rem)
    ensures k == 0 ==> Val(d, n, t - n) + s * Weight(t - n) == Num(e, t - n, s) * Pow2(k) + rem
    ensures Shl(Low(s, k), DB - k) >= 0
    ensures var f := Or(e[t - n - 1], Shl(Low(s, k), DB - k));
            && 0 <= f < DV
            && Val(d, n, t - n) + s * Weight(t - n) == Num(e[t - n - 1 := f], t - n, s) * Pow2(k) + rem
  {
    BaseIsPower();
    Pow2Add(k, DB - k);
    SignLow(s, k);
    PushedUp(Low(s, k), DB - k);
    OrBelow(e[t - n - 1], Low(s, k), DB - k, Shl(Low(s, k), DB - k));
    hide Low, Shl, Or, Pow2;
    var fill := Shl(Low(s, k), DB - k);
    FillAlgebra(s, Pow2(k), Pow2(DB - k), DV);
    RightEnd(e, d, n, t, s, k, rem, fill);
    if k == 0 {
      RightEnd(e, d, n, t, s, k, rem, 0);
      ValFrame(e, e[t - n - 1 := At(e, t - n - 1) + 0], 0, t - n);
    }
  }

  lemma FillAlgebra(s: int, p: int, q: int, b: int)
    requires p * q == b
    ensures ((-s * (p - 1)) * q) * p == -s * (b * p - b)
  {
    assert ((-s * (p - 1)) * q) * p == -s * ((p - 1) * (p * q));
    assert (p - 1) * b == b * p - b;
  }

  lemma ZeroDigits(d: DigitMap, s: int)
    ensures Num(d, 0, s) == s
  {
    assert Weight(0) == 1;
  }

  lemma RightFloor(d: DigitMap, n: nat, t: nat, s: int, k: nat, rem: int, q: int, sh: nat)
    requires Proper(d, 0, t) && n <= t && 0 <= rem < Pow2(k) && Weight(n) * Pow2(k) == Pow2(sh)
    requires Val(d, n, t - n) + s * Weight(t - n) == q * Pow2(k) + rem
    ensures Num(d, t, s) / Pow2(sh) == q
  {
    ValSplit(d, 0, n, t - n);
    ValBound(d, 0, n);
    WeightAdd(n, t - n);
    var low, p, w := Val(d, 0, n), Pow2(k), Weight(n);
    assert Num(d, t, s) == low + w * (Val(d, n, t - n) + s * Weight(t - n)) by {
      SplitStep(w, Val(d, n, t - n), s, Weight(t - n));
    }
    hide Val, Weight, Num, Pow2;
    FloorAlgebra(low, w, rem, p, q);
    DivModUnique(Num(d, t, s), w * p, q, low + w * rem);
  }

  lemma FloorAlgebra(low: int, w: int, rem: int, p: int, q: int)
    requires 0 <= low < w && 0 <= rem < p
    ensures 0 <= low + w * rem < w * p
    ensures low + w * (q * p + rem) == q * (w * p) + (low + w * rem)
  {
    MulUpper(w, rem, p - 1);
    assert w * (p - 1) == w * p - w;
    assert w * (q * p) == q * (w * p);
  }

  /** Shifting everything out leaves the sign. */
  lemma RightAll(d: DigitMap, t: nat, s: int, n: nat, k: nat, sh: nat)
    requires Proper(d, 0, t) && (s == 0 || s == -1) && n >= t && Weight(n) * Pow2(k) == Pow2(sh)
    ensures Num(d, t, s) / Pow2(sh) == s
  {
    ValBound(d, 0, t);
    WeightMonotone(t, n);
    MulGeOne(Pow2(k), Weight(n));
    assert Pow2(k) * Weight(n) == Weight(n) * Pow2(k);
    DivModUnique(Num(d, t, s), Pow2(sh), s, Num(d, t, s) - s * Pow2(sh));
  }

  // ---------------------------------------------------------------- products

  /** One row of schoolbook multiplication: e is d with row y * x added at place i. */
  lemma MultiplyStep(d: DigitMap, e: DigitMap, x: DigitMap, t: nat, y: DigitMap, i: nat, carry: int, big: int)
    requires Outside(e, d, i, i + t)
    requires Val(e, i, t) + carry * Weight(t) == Val(d, i, t) + At(y, i) * big
    requires Val(d, 0, i + t) == big * Val(y, 0, i)
    ensures Val(e[i + t := carry], 0, i + 1 + t) == big * Val(y, 0, i + 1)
  {
    var f := e[i + t := carry];
    ValRange(d, e, i, t, i + t);
    ValFrame(e, f, 0, i + t);
    WeightAdd(i, t);
    assert Val(f, 0, i + 1 + t) == Val(f, 0, i + t) + carry * Weight(i + t);
    assert Val(y, 0, i + 1) == Val(y, 0, i) + At(y, i) * Weight(i);
    hide Val, Weight;
    MultiplyAlgebra(Val(e, i, t), Val(d, i, t), carry, Weight(t), At(y, i), big, Weight(i), Val(y, 0, i));
  }

  lemma MultiplyAlgebra(ve: int, vd: int, carry: int, w: int, y: int, big: int, p: int, v: int)
    requires ve + carry * w == vd + y * big
    ensures big * v + p * (ve - vd) + carry * (p * w) == big * (v + y * p)
  {
    assert p * (ve + carry * w - vd) == p * (y * big);
    assert carry * (p * w) == p * (carry * w);
  }

  /** What is still missing from a square when rows below n are done: the square of the rest. */
  ghost predicate SquareSum(r: DigitMap, x: DigitMap, t: nat, n: nat) {
    n <= t && Val(r, 0, 2 * t) + Weight(2 * n) * (Val(x, n, t - n) * Val(x, n, t - n)) == Val(x, 0, t) * Val(x, 0, t)
  }

  /** The digits above the two products of row n are as they were. */
  lemma SquareFrames(r: DigitMap, r1: DigitMap, r2: DigitMap, t: nat, n: nat)
    requires n + 1 < t && Proper(r, 0, 2 * t) && Proper(r1, 2 * n, 2 * n + 1) && Proper(r2, 2 * n + 1, n + t)
    requires Outside(r1, r, 2 * n, 2 * n + 1) && Outside(r2, r1, 2 * n + 1, n + t)
    requires At(r, n + t) <= 1 && forall k :: n + t < k < 2 * t ==> At(r, k) == 0
    ensures Proper(r2, 0, 2 * t) && At(r2, n + t) <= 1 && At(r2, n + t + 1) == 0
    ensures forall k :: n + t < k < 2 * t ==> At(r2, k) == 0
  {
    KeepsRange(r1, r, 2 * n, 2 * n + 1, 2 * t);
    KeepsRange(r2, r1, 2 * n + 1, n + t, 2 * t);
    forall k | n + t <= k < 2 * t
      ensures At(r2, k) == At(r, k)
    {
      assert At(r2, k) == At(r1, k) && At(r1, k) == At(r, k);
    }
  }

  lemma ProperDigit(d: DigitMap, lo: int, hi: int, k: int)
    requires Proper(d, lo, hi) && lo <= k < hi
    ensures k in d && d[k] == At(d, k) && 0 <= d[k] < DV
  {
  }

  lemma ProperPut(d: DigitMap, lo: int, hi: int, k: int, x: int)
    requires Proper(d, lo, hi) && lo <= k < hi && 0 <= x < DV
    ensures Proper(d[k := x], lo, hi) && d[k := x].Keys == d.Keys
  {
    var e := d[k := x];
    forall m | lo <= m < hi
      ensures m in e && 0 <= e[m] < DV
    {
      assert m in d && At(d, m) == d[m];
    }
    assert k in d;
  }

  lemma OutsideSame(e: DigitMap, d: DigitMap, lo: int, hi: int, n: int)
    requires Outside(e, d, lo, hi) && 0 <= lo
    ensures Same(d, e, 0, lo) && Same(d, e, hi, n)
  {
  }

  lemma SquareSumEnd(r: DigitMap, x: DigitMap, t: nat)
    requires SquareSum(r, x, t, t)
    ensures Val(r, 0, 2 * t) == Val(x, 0, t) * Val(x, 0, t)
  {
  }

  /** Row n: the diagonal product, then the doubled row; the carry lands at place n + t. */
  lemma SquareStep(r: DigitMap, r1: DigitMap, r2: DigitMap, r3: DigitMap, x: DigitMap, t: nat, n: nat, c: int,
                   carry: int)
    requires n < t && SquareSum(r, x, t, n)
    requires Outside(r1, r, 2 * n, 2 * n + 1)
    requires At(r1, 2 * n) + c * DV == At(r, 2 * n) + At(x, n) * At(x, n)
    requires Outside(r2, r1, 2 * n + 1, n + t)
    requires Val(r2, 2 * n + 1, t - n - 1) + carry * Weight(t - n - 1)
          == Val(r1, 2 * n + 1, t - n - 1) + 2 * At(x, n) * Val(x, n + 1, t - n - 1) + c
    requires Val(r3, 0, 2 * t) == Val(r2, 0, 2 * t) + carry * Weight(n + t)
    ensures SquareSum(r3, x, t, n + 1)
  {
    hide Val, Weight, Same, Outside;
    var y, v1, v2 := Val(x, n + 1, t - n - 1), Val(r1, 2 * n + 1, t - n - 1), Val(r2, 2 * n + 1, t - n - 1);
    SquareRanges(r, r1, r2, t, n);
    WeightAdd(2 * n + 1, t - n - 1);
    WeightNext(2 * n);
    WeightNext(2 * n + 1);
    ValHead(x, n, t - n);
    assert 2 * n + 1 + (t - n - 1) == n + t;
    SquareCombine(Val(r, 0, 2 * t), Val(r1, 0, 2 * t), Val(r2, 0, 2 * t), Val(r3, 0, 2 * t), At(r, 2 * n), At(r1,
        2 * n), c,
                  At(x, n), y, Val(x, n, t - n), v1, v2, carry, Weight(t - n - 1), Weight(n + t), Weight(2 * n),
                  Weight(2 * n + 2), DV, Val(x, 0, t));
    assert 2 * (n + 1) == 2 * n + 2;
  }

  lemma SquareCombine(v: int, v1: int, v2: int, v3: int, a: int, a1: int, c: int, x: int, y: int, xn: int, w1: int,
                      w2: int,
                      carry: int, w: int, wide: int, p: int, p2: int, b: int, big: int)
    requires v + p * (xn * xn) == big * big && xn == x + b * y && a1 + c * b == a + x * x
    requires w2 + carry * w == w1 + 2 * x * y + c && wide == (b * p) * w && p2 == b * (b * p)
    requires v1 == v + p * (a1 - a) && v2 == v1 + (b * p) * (w2 - w1) && v3 == v2 + carry * wide
    ensures v3 + p2 * (y * y) == big * big
  {
    SquareAlgebra(a, a1, c, x, y, w1, w2, carry, w, p, b);
  }

  /** What the two kernel calls of a row change. */
  lemma SquareRanges(r: DigitMap, r1: DigitMap, r2: DigitMap, t: nat, n: nat)
    requires n < t
    requires Outside(r1, r, 2 * n, 2 * n + 1) && Outside(r2, r1, 2 * n + 1, n + t)
    ensures Val(r1, 0, 2 * t) == Val(r, 0, 2 * t) + Weight(2 * n) * (At(r1, 2 * n) - At(r, 2 * n))
    ensures Val(r2, 0, 2 * t) == Val(r1, 0, 2 * t)
         + Weight(2 * n + 1) * (Val(r2, 2 * n + 1, t - n - 1) - Val(r1, 2 * n + 1, t - n - 1))
  {
    hide Val, Weight;
    ValRange(r, r1, 2 * n, 1, 2 * t);
    ValRange(r1, r2, 2 * n + 1, t - n - 1, 2 * t);
    ValOne(r, 2 * n);
    ValOne(r1, 2 * n);
  }

  lemma SquareAlgebra(a: int, a1: int, c: int, x: int, y: int, v1: int, v2: int, carry: int, w: int, p: int, b: int)
    requires a1 + c * b == a + x * x
    requires v2 + carry * w == v1 + 2 * x * y + c
    ensures p * (a1 - a) + (b * p) * (v2 - v1) + carry * ((b * p) * w) + (b * (b * p)) * (y * y)
         == p * ((x + b * y) * (x + b * y))
  {
    assert (b * p) * (v2 - v1 + carry * w) == (b * p) * (2 * x * y + c);
    assert carry * ((b * p) * w) == (b * p) * (carry * w);
    assert p * (a1 - a) == p * (x * x - c * b);
    assert (x + b * y) * (x + b * y) == x * x + b * (2 * x * y) + b * (b * (y * y));
    assert p * (x * x + b * (2 * x * y) + b * (b * (y * y)))
        == p * (x * x) + p * (b * (2 * x * y)) + p * (b * (b * (y * y)));
  }

  lemma ValOnes(r0: DigitMap, k: int, r1: DigitMap, x: DigitMap, n: int, c: int)
    requires Val(r1, k, 1) + c * Weight(1) == Val(r0, k, 1) + At(x, n) * Val(x, n, 1)
    ensures At(r1, k) + c * DV == At(r0, k) + At(x, n) * At(x, n)
  {
    ValOne(r0, k);
    ValOne(r1, k);
    ValOne(x, n);
    WeightNext(0);
  }

  lemma KeepsRange(e: DigitMap, d: DigitMap, lo: int, hi: int, n: int)
    requires Proper(d, 0, n) && Proper(e, lo, hi) && Outside(e, d, lo, hi)
    ensures Proper(e, 0, n)
  {
    forall k | 0 <= k < n ensures k in e && 0 <= e[k] < DV {
      assert k in d && At(d, k) == d[k];
      if k < lo || hi <= k {
        assert At(e, k) == At(d, k);
      }
    }
  }

  /** Normalising the digit that took the carry does not change the number. */
  lemma SquareCarry(d: DigitMap, k: nat, n: nat, carry: int)
    requires k < n && (k + 1 < n ==> At(d, k + 1) == 0)
    ensures Val(d[k := At(d, k) + carry], 0, n) == Val(d, 0, n) + carry * Weight(k)
    ensures k + 1 < n ==> Val(d[k := At(d, k) + carry][k := At(d, k) + carry - DV][k + 1 := 1], 0, n)
                          == Val(d, 0, n) + carry * Weight(k)
  {
    hide Val, Weight;
    var x := At(d, k) + carry;
    ValPut(d, 0, n, k, x);
    if k + 1 < n {
      var e := d[k := x];
      PutAt(d, k, x);
      PutAt(e, k, x - DV);
      ValPut(e, 0, n, k, x - DV);
      ValPut(e[k := x - DV], 0, n, k + 1, 1);
      WeightNext(k);
    }
  }

  lemma SquareBelow(x: int, w: int)
    requires 0 <= x < w
    ensures 0 <= x * x < w * w
  {
    MulUpper(x, x, w);
    assert x * w < w * w;
  }

  /** The top digit of a number that fits is a digit. */
  lemma TopDigit(d: DigitMap, n: nat)
    requires n > 0 && Proper(d, 0, n - 1) && n - 1 in d && d[n - 1] >= 0
    requires Val(d, 0, n) < Weight(n)
    ensures Proper(d, 0, n)
  {
    ValBound(d, 0, n - 1);
    assert Val(d, 0, n) == Val(d, 0, n - 1) + At(d, n - 1) * Weight(n - 1);
    WeightNext(n - 1);
    hide Val, Weight;
    Below(d[n - 1], DV, Weight(n - 1));
    ProperJoin(d, 0, n - 1, n);
  }

  lemma MultiplyStart(d: DigitMap, t: nat, big: int, y: DigitMap)
    requires forall k :: 0 <= k < t ==> At(d, k) == 0
    ensures Val(d, 0, 0 + t) == big * Val(y, 0, 0)
  {
    ValZero(d, 0, t);
  }

  lemma SquareStart(d: DigitMap, x: DigitMap, t: nat)
    requires forall k :: 0 <= k < 2 * t ==> At(d, k) == 0
    ensures SquareSum(d, x, t, 0)
  {
    ValZero(d, 0, 2 * t);
    assert Weight(0) == 1;
  }

  lemma Unsigned(d: DigitMap, t: nat)
    ensures Num(d, t, 0) == Val(d, 0, t)
  {
  }

  lemma NoDigits(d: DigitMap)
    ensures Val(d, 0, 0) == 0
  {
  }

  lemma SignedProduct(v: int, a: int, p: int)
    requires p == (if v >= 0 then v else -v) * (if a >= 0 then a else -a)
    ensures v * a == if (v < 0) == (a < 0) then p else -p
  {
  }

  lemma ValOne(d: DigitMap, lo: int)
    ensures Val(d, lo, 1) == At(d, lo)
  {
    assert Weight(0) == 1;
    assert Val(d, lo, 1) == Val(d, lo, 0) + At(d, lo) * Weight(0);
  }
}
