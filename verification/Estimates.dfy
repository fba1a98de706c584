/** The quotient digit that divRemTo estimates in doubles, and when that estimate is good enough.

    A round divides by the normalised divisor o of l digits.  With hi and lo the two leading digits of what is
    left, and h the leading 52 bits of the divisor, the estimate is floor(hi * p + (lo + f) * d), where p is
    2^52 / h, d is 2^F1 / h, f is 2^F2, and each quotient, product and sum is rounded.
 */
module Estimates {
  import opened JsInt
  import opened Digits
  import opened Kernels
  import opened DigitLemmas
  import opened Division
  import opened Doubles

  const F1: nat := 52 - DB
  const F2: nat := 2 * DB - 52
  const FV: int := 0x10_0000_0000_0000  // 2^52

  // ---------------------------------------------------------------- the estimate in doubles

  /** n / h in doubles. */
  function Quotient(n: int, h: int): real
    requires h > 0
  {
    Double(n as real / h as real)
  }

  /** x * y in doubles. */
  function Times(x: real, y: real): real {
    Double(x * y)
  }

  /** The first of the two products. */
  function First(hi: int, h: int): real
    requires h > 0
  {
    Times(hi as real, Quotient(FV, h))
  }

  function Second(lo: int, h: int): real
    requires h > 0
  {
    Times((lo + Pow2(F2)) as real, Quotient(Pow2(F1), h))
  }

  function Estimate(hi: int, lo: int, h: int): int
    requires h > 0
  {
    Double(First(hi, h) + Second(lo, h)).Floor
  }

  /** What the estimate is about, before the division by h. */
  function Numerator(hi: int, lo: int): int {
    hi * FV + (lo + Pow2(F2)) * Pow2(F1)
  }

  lemma {:induction false} PowersAgree(k: nat)
    ensures Power2(k) == Pow2(k) as real
  {
    if k > 0 {
      PowersAgree(k - 1);
    }
  }

  lemma BigPowers()
    ensures Pow2(52) == FV && Pow2(53) == 2 * FV && Pow2(51) * 2 == FV
  {
    Pow2Values();
    Pow2Add(26, 26);
    assert Pow2(53) == 2 * Pow2(52) && Pow2(52) == 2 * Pow2(51);
  }

  lemma PowersOfEstimate()
    ensures F1 + F2 == DB && Pow2(F1) * Pow2(F2) == DV && DV * Pow2(F1) == FV
    ensures Pow2(F2) <= 256 && Pow2(F1) <= DV
  {
    BaseIsPower();
    BigPowers();
    Pow2Add(F1, F2);
    Pow2Add(DB, F1);
    Pow2Monotone(F2, 8);
    Pow2Monotone(F1, DB);
    assert Pow2(8) == 256;
  }

  lemma RealPowers()
    ensures Power2(51) * 2.0 == HALF && Power2(52) == HALF == FV as real
    ensures Power2(53 - DB) * DV as real == LIMIT
    ensures Power2(52 + DB) == HALF * DV as real
    ensures Pow2(F1) as real * DV as real == HALF
  {
    PowersOfEstimate();
    BigPowers();
    PowersAgree(51);
    PowersAgree(52);
    PowersAgree(53 - DB);
    PowersAgree(52 + DB);
    BaseIsPower();
    Pow2Add(53 - DB, DB);
    Pow2Add(52, DB);
    hide Pow2, Power2;
    RealProduct(Pow2(53 - DB), DV);
    RealProduct(Pow2(F1), DV);
    RealProduct(FV, DV);
  }

  lemma RealProduct(a: int, b: int)
    ensures a as real * b as real == (a * b) as real
  {
  }

  /** y is off by at most half of 1 / s, and b is HALF / s. */
  lemma Scaled(x0: real, y0: real, h: real, s: real, b: real)
    requires 0.0 < h <= HALF && b > 0.0 && b * s == HALF && Rounded(x0, y0, s)
    ensures -b <= 2.0 * ((y0 - x0) * h) <= b
  {
    var e := y0 - x0;
    var w, x := e * HALF, e * s;
    assert b * x == w;
    Half(b, x);
    Shorter(e, h);
    Shorter(-e, h);
    assert (-e) * h == -(e * h) && (-e) * HALF == -w;
    if e >= 0.0 {
      assert 0.0 <= e * h <= w;
    } else {
      assert w <= e * h <= 0.0;
    }
  }

  lemma Half(b: real, x: real)
    requires b > 0.0 && -0.5 <= x <= 0.5
    ensures -b <= 2.0 * (b * x) <= b
  {
    assert b * (1.0 - 2.0 * x) >= 0.0 && b * (1.0 + 2.0 * x) >= 0.0;
  }

  lemma Shorter(e: real, h: real)
    requires 0.0 < h <= HALF
    ensures e >= 0.0 ==> 0.0 <= e * h <= e * HALF
  {
    if e >= 0.0 {
      assert e * (HALF - h) >= 0.0;
    }
  }

  lemma Between(x: real, e: real, b: real)
    requires x >= 0.0 && -b <= e <= b
    ensures -(x * b) <= x * e <= x * b
  {
    assert x * (b - e) >= 0.0 && x * (b + e) >= 0.0;
  }

  /** Twice z * h is within e of twice n. */
  ghost predicate Near(z: real, h: real, n: real, e: real) {
    -e <= 2.0 * (z * h - n) <= e
  }

  lemma ErrorParts(x: real, n: real, y: real, e: real, e': real, h: real)
    requires y * h == n
    ensures (x * (y + e) + e') * h == x * n + x * (e * h) + e' * h
  {
    assert x * (y + e) == x * y + x * e;
    assert (x * y) * h == x * (y * h) && (x * e) * h == x * (e * h);
  }

  /** A rounded factor times x, rounded: the error at scale h. */
  lemma ErrorOfProduct(x: real, n: real, y: real, y': real, z: real, h: real, s: real, b: real, s': real, b': real)
    requires 0.0 <= x && 0.0 < h <= HALF && y * h == n
    requires b > 0.0 && b * s == HALF && b' > 0.0 && b' * s' == HALF
    requires Rounded(y, y', s) && Rounded(x * y', z, s')
    ensures Near(z, h, x * n, x * b + b')
  {
    var e, e' := y' - y, z - x * y';
    hide Rounded;
    Scaled(y, y', h, s, b);
    Scaled(x * y', z, h, s', b');
    ErrorParts(x, n, y, e, e', h);
    var w := e * h;
    Between(x, 2.0 * w, b);
    assert x * (2.0 * w) == 2.0 * (x * w);
  }

  ghost function Upper(hi: int): real {
    hi as real * HALF
  }

  ghost function Lower(lo: int): real {
    (lo + Pow2(F2)) as real * Pow2(F1) as real
  }

  /** 52 bits, the first one set. */
  predicate Normal(h: int) {
    FV <= 2 * h && h < FV
  }

  lemma NormalReal(h: int)
    requires Normal(h)
    ensures h > 0 && HALF <= 2.0 * h as real && 0.0 < h as real < HALF && 16 * DV <= h
  {
    BigPowers();
  }

  ghost predicate IsRatio(y: real, n: real, h: real) {
    y >= 0.0 && y * h == n
  }

  lemma RatioIs(n: real, h: real)
    requires h > 0.0 && n >= 0.0
    ensures IsRatio(n / h, n, h)
  {
  }

  lemma AtMostFactor(y: real, h: real, c: real)
    requires h > 0.0 && y * h <= c * h
    ensures y <= c
  {
    assert (y - c) * h <= 0.0;
  }

  lemma WithinBound(x: real, b: real, s: real)
    requires 0.0 <= x <= b && s >= 0.0 && s * b <= LIMIT
    ensures Within(x, s)
  {
    assert s * (b - x) >= 0.0;
  }

  lemma NonNegative(x: real, y: real)
    requires x >= 0.0 && y >= 0.0
    ensures x * y >= 0.0
  {
  }

  // ---------------------------------------------------------------- the first product

  /** 2^52 / h is at most 2, and its rounding error at most 2^-53. */
  lemma FirstRatio(h: nat) returns (y: real)
    requires Normal(h)
    ensures h > 0 && IsRatio(y, HALF, h as real) && Rounded(y, Quotient(FV, h), HALF)
    ensures 0.0 <= Quotient(FV, h) <= 2.0
  {
    RealPowers();
    NormalReal(h);
    y := FV as real / h as real;
    RatioIs(HALF, h as real);
    hide Pow2, Double, Power2, Normal, Rounded, Within;
    AtMostFactor(y, h as real, 2.0);
    NotNegative(y);
    WithinBound(y, 2.0, HALF);
    RoundingError(y, 52);
    KeepsOrder(y, 2);
  }

  /** The leading digit is not above (DV - 1) / DV of the divisor's. */
  ghost predicate Leads(hi: int, h: int) {
    0 <= hi < DV && hi * FV <= (DV - 1) * h
  }

  ghost predicate LeadsBy(x: real, b: real, h: real) {
    x * HALF <= (b - 1.0) * h
  }

  lemma LeadsReal(hi: int, h: int)
    requires Leads(hi, h)
    ensures 0.0 <= hi as real <= DV as real && LeadsBy(hi as real, DV as real, h as real)
  {
    RealPowers();
    RealProduct(hi, FV);
    RealProduct(DV - 1, h);
    hide Pow2;
  }

  lemma LittleError(x: real, e: real, h: real)
    requires 0.0 <= x <= h && h > 0.0 && e * h <= 0.5
    ensures x * e <= 0.5
  {
    var p, w := x * e, e * h;
    assert p * h == x * w;
    NonNegative(x, 0.5 - w);
    assert x * (0.5 - w) == 0.5 * x - x * w;
    AtMostFactor(p, h, 0.5);
  }

  lemma RatioBelow(x: real, y: real, b: real, h: real)
    requires h > 0.0 && IsRatio(y, HALF, h) && LeadsBy(x, b, h)
    ensures x * y <= b - 1.0
  {
    assert x * HALF == (x * y) * h;
    AtMostFactor(x * y, h, b - 1.0);
  }

  /** A factor of at most b, times a ratio that keeps it below b, stays so when the ratio is rounded. */
  lemma FirstProduct(x: real, y: real, y': real, b: real, h: real)
    requires 0.0 <= x <= b && b <= HALF && h > 0.0 && IsRatio(y, HALF, h) && LeadsBy(x, b, h)
    requires Rounded(y, y', HALF)
    ensures x * y' <= b
  {
    RatioBelow(x, y, b, h);
    hide IsRatio, LeadsBy;
    LittleError(x, y' - y, HALF);
    assert x * y' == x * y + x * (y' - y);
  }

  lemma FirstErrorOf(x: real, y: real, y': real, z: real, h: real, b: real, s: real)
    requires 0.0 <= x <= b && 0.0 < h <= HALF && b >= 1.0 && IsRatio(y, HALF, h) && s * b == LIMIT
    requires Rounded(y, y', HALF) && Rounded(x * y', z, s)
    ensures Near(z, h, x * HALF, 1.5 * b)
  {
    assert (b / 2.0) * s == HALF;
    hide Rounded;
    ErrorOfProduct(x, HALF, y, y', z, h, HALF, 1.0, s, b / 2.0);
  }

  /** The product with the leading digit is off by at most 3/4 DV, at scale h. */
  lemma FirstError(hi: int, h: int)
    requires Normal(h) && Leads(hi, h)
    ensures h > 0 && Near(First(hi, h), h as real, Upper(hi), 1.5 * DV as real)
  {
    NormalReal(h);
    var y := FirstRatio(h);
    LeadsReal(hi, h);
    hide Pow2, Double, Power2, Normal, Quotient, IsRatio, Rounded, Near, Leads, LeadsBy, Times, Upper;
    FirstErrorReal(hi as real, y, Quotient(FV, h), h as real, DV as real);
  }

  lemma FirstErrorReal(x: real, y: real, y': real, h: real, b: real)
    requires 0.0 <= x <= b && b == DV as real && 0.0 < h <= HALF && IsRatio(y, HALF, h) && LeadsBy(x, b, h)
    requires 0.0 <= y' && Rounded(y, y', HALF)
    ensures Near(Times(x, y'), h, x * HALF, 1.5 * b)
  {
    RealPowers();
    var s := Power2(53 - DB);
    hide Pow2, Double, Power2, IsRatio, Rounded, Within, Near;
    FirstProduct(x, y, y', b, h);
    NonNegative(x, y');
    WithinBound(x * y', b, s);
    RoundingError(x * y', 53 - DB);
    FirstErrorOf(x, y, y', Double(x * y'), h, b, s);
  }

  lemma FirstAtMost(hi: int, h: int)
    requires Normal(h) && 0 <= hi < DV
    ensures h > 0 && 0.0 <= First(hi, h) <= 2.0 * hi as real
  {
    NormalReal(h);
    var _ := FirstRatio(h);
    hide Pow2, Double, Normal, Quotient, IsRatio, Rounded, Times;
    TwiceAtMost(hi, Quotient(FV, h));
  }

  lemma TwiceAtMost(x: nat, y: real)
    requires x < 0x1_0000_0000 && 0.0 <= y <= 2.0
    ensures 0.0 <= Times(x as real, y) <= 2.0 * x as real
  {
    var z := x as real * y;
    assert 0.0 <= z <= 2.0 * x as real by {
      NonNegative(x as real, y);
      NonNegative(x as real, 2.0 - y);
    }
    assert Times(x as real, y) == Double(z);
    hide Double;
    NotNegative(z);
    KeepsOrder(z, 2 * x);
  }

  // ---------------------------------------------------------------- the second product

  /** y is at most 2 / b. */
  ghost predicate SmallRatio(y: real, b: real) {
    y * b <= 2.0
  }

  /** 2^F1 / h is at most 2 / DV, and its rounding error at most 1 / 2^53 of that. */
  lemma SecondRatio(h: int, b: real) returns (y: real)
    requires Normal(h) && b == DV as real
    ensures h > 0 && IsRatio(y, Pow2(F1) as real, h as real) && SmallRatio(y, b)
    ensures Rounded(y, Quotient(Pow2(F1), h), HALF * b) && Quotient(Pow2(F1), h) >= 0.0
  {
    RealPowers();
    NormalReal(h);
    RatioIs(Pow2(F1) as real, h as real);
    y := Pow2(F1) as real / h as real;
    SecondAtMost(y, b, h as real, Pow2(F1) as real);
    assert y >= 0.0;
    hide Pow2, Double, Power2, Normal, Rounded, Within, IsRatio, SmallRatio;
    NotNegative(y);
    RoundingError(y, 52 + DB);
  }

  lemma SecondAtMost(y: real, b: real, h: real, p: real)
    requires IsRatio(y, p, h) && p * b == HALF <= 2.0 * h
    ensures SmallRatio(y, b) && Within(y, HALF * b)
  {
    assert (y * b) * h == p * b;
    AtMostFactor(y * b, h, 2.0);
    assert y * (HALF * b) == (y * b) * HALF;
  }

  lemma SecondProduct(x: real, y: real, y': real, b: real)
    requires 0.0 <= x && 2.0 * x <= 3.0 * b && 0.0 <= y' && SmallRatio(y, b) && b >= 1.0
    requires Rounded(y, y', HALF * b)
    ensures 0.0 <= x * y' <= 4.0
  {
    assert (y' - y) * (HALF * b) == ((y' - y) * b) * HALF;
    assert (y' - y) * b == y' * b - y * b;
    assert y' * b <= 2.5;
    assert y' * (3.0 * b - 2.0 * x) >= 0.0;
    assert y' * (3.0 * b - 2.0 * x) == 3.0 * (y' * b) - 2.0 * (x * y');
    NonNegative(x, y');
  }

  lemma SecondErrorOf(x: real, y: real, y': real, z: real, h: real, b: real, s: real, n: real)
    requires 0.0 <= x && 2.0 * x <= 3.0 * b && b >= 1.0 && 0.0 < h < HALF && IsRatio(y, n, h) && s * 2.0 == HALF
    requires Rounded(y, y', HALF * b) && Rounded(x * y', z, s)
    ensures Near(z, h, x * n, 4.0)
  {
    var c := Inverse(b);
    assert c * (HALF * b) == HALF by { assert c * (HALF * b) == (c * b) * HALF; }
    InverseTimes(x, b, c);
    hide Rounded, IsRatio;
    ErrorOfProduct(x, n, y, y', z, h, HALF * b, c, s, 2.0);
    NearLess(z, h, x * n, x * c + 2.0, 4.0);
  }

  lemma Inverse(b: real) returns (c: real)
    requires b >= 1.0
    ensures c > 0.0 && c * b == 1.0
  {
    c := 1.0 / b;
  }

  lemma InverseTimes(x: real, b: real, c: real)
    requires 0.0 <= x && 2.0 * x <= 3.0 * b && c > 0.0 && c * b == 1.0
    ensures x * c <= 1.5
  {
    NonNegative(c, 3.0 * b - 2.0 * x);
    assert c * (3.0 * b - 2.0 * x) == 3.0 * (c * b) - 2.0 * (x * c);
  }

  lemma NearLess(z: real, h: real, n: real, e: real, e': real)
    requires Near(z, h, n, e) && e <= e'
    ensures Near(z, h, n, e')
  {
  }

  /** The product with n, the second digit and 2^F2, is at most 4, and off by at most 2, at scale h. */
  lemma SecondError(lo: int, h: int)
    requires Normal(h) && 0 <= lo < DV
    ensures h > 0 && Near(Second(lo, h), h as real, Lower(lo), 4.0)
    ensures 0.0 <= Second(lo, h) <= 4.0
  {
    PowersOfEstimate();
    var n := lo + Pow2(F2);
    assert 2 * n <= 3 * DV && n >= 0;
    NormalReal(h);
    var y := SecondRatio(h, DV as real);
    hide Pow2, Double, Normal, Quotient, IsRatio, Rounded, Near, SmallRatio, Times;
    SecondErrorReal(n as real, y, Quotient(Pow2(F1), h), h as real, DV as real, Pow2(F1) as real);
  }

  lemma SecondErrorReal(x: real, y: real, y': real, h: real, b: real, n: real)
    requires 0.0 <= x && 2.0 * x <= 3.0 * b && b >= 1.0 && 0.0 < h < HALF && IsRatio(y, n, h) && y' >= 0.0
    requires SmallRatio(y, b) && Rounded(y, y', HALF * b)
    ensures Near(Times(x, y'), h, x * n, 4.0) && 0.0 <= Times(x, y') <= 4.0
  {
    RealPowers();
    var s := Power2(51);
    hide Pow2, Double, Power2, IsRatio, Rounded, Within, Near, SmallRatio;
    SecondProduct(x, y, y', b);
    WithinBound(x * y', 4.0, s);
    NotNegative(x * y');
    RoundingError(x * y', 51);
    KeepsOrder(x * y', 4);
    SecondErrorOf(x, y, y', Double(x * y'), h, b, s, n);
  }

  // ---------------------------------------------------------------- where the estimate lies

  lemma NumeratorReal(hi: int, lo: int)
    ensures Numerator(hi, lo) as real == Upper(hi) + Lower(lo)
  {
    RealPowers();
    RealProduct(hi, FV);
    RealProduct(lo + Pow2(F2), Pow2(F1));
    hide Pow2;
  }

  /** q * h is below the numerator by more than rounding can take away. */
  ghost predicate Room(q: int, h: int, n: int) {
    4 * (q * h) + 3 * DV + 8 <= 4 * n
  }

  ghost predicate RoomFor(q: real, h: real, n: real, b: real) {
    4.0 * (q * h) + 3.0 * b + 8.0 <= 4.0 * n
  }

  lemma RoomReal(q: int, h: int, n: int)
    requires Room(q, h, n)
    ensures RoomFor(q as real, h as real, n as real, DV as real)
  {
    RealProduct(q, h);
  }

  lemma AtMostSum(q: real, a: real, b: real, h: real, x: real, y: real, z: real)
    requires h > 0.0 && x == a * h && y == b * h && z == q * h && z <= x + y
    ensures q <= a + b
  {
    var e := q - a - b;
    assert e * h == z - x - y;
    assert e > 0.0 ==> e * h > 0.0;
  }

  lemma SumAtLeast(a: real, b: real, h: real, n: real, n': real, q: real, c: real)
    requires h > 0.0 && Near(a, h, n, 1.5 * c) && Near(b, h, n', 4.0)
    requires RoomFor(q, h, n + n', c)
    ensures q <= a + b
  {
    var x, y, z := a * h, b * h, q * h;
    assert 4.0 * z + 3.0 * c + 8.0 <= 4.0 * (n + n') && 2.0 * x >= 2.0 * n - 1.5 * c && 2.0 * y >= 2.0 * n' - 4.0;
    hide Near, RoomFor;
    AtMostSum(q, a, b, h, x, y, z);
  }

  /** With this much room above q * h, rounding cannot take the estimate below q. */
  lemma EstimateAtLeast(hi: int, lo: int, h: int, q: nat)
    requires Normal(h) && 0 <= lo < DV && Leads(hi, h) && Room(q, h, Numerator(hi, lo))
    ensures h > 0 && q <= Estimate(hi, lo, h)
  {
    assert 0 <= hi < DV;
    NormalReal(h);
    FirstError(hi, h);
    SecondError(lo, h);
    FirstAtMost(hi, h);
    NumeratorReal(hi, lo);
    RoomReal(q, h, Numerator(hi, lo));
    hide Pow2, Double, First, Second, Normal, Leads, Near, Room, RoomFor, Numerator, Upper, Lower;
    var a, b := First(hi, h), Second(lo, h);
    SumAtLeast(a, b, h as real, Upper(hi), Lower(lo), q as real, DV as real);
    KeepsOrder(a + b, q);
  }

  /** Whatever the leading digits are, the estimate is hardly above 2 * DV. */
  lemma EstimateAtMost(hi: int, lo: int, h: int)
    requires Normal(h) && 0 <= hi < DV && 0 <= lo < DV
    ensures h > 0 && 0 <= Estimate(hi, lo, h) <= 2 * DV + 2
  {
    NormalReal(h);
    FirstAtMost(hi, h);
    SecondError(lo, h);
    hide Pow2, Double, First, Second, Normal, Near;
    var s := First(hi, h) + Second(lo, h);
    NotNegative(s);
    KeepsOrder(s, 2 * DV + 2);
  }

  ghost predicate Tight(h: int, n: int) {
    n <= DV * h + DV
  }

  ghost predicate TightFor(h: real, n: real, b: real) {
    n <= b * h + b
  }

  lemma TightReal(h: int, n: int)
    requires Tight(h, n)
    ensures TightFor(h as real, n as real, DV as real)
  {
    RealProduct(DV, h);
  }

  lemma SumAtMost(a: real, b: real, h: real, n: real, n': real, c: real)
    requires h >= 16.0 * c && c >= 100.0 && Near(a, h, n, 1.5 * c) && Near(b, h, n', 4.0)
    requires TightFor(h, n + n', c)
    ensures 2.0 * (a + b) <= 2.0 * c + 1.0
  {
    var x, y, z := a * h, b * h, c * h;
    assert 2.0 * x <= 2.0 * n + 1.5 * c && 2.0 * y <= 2.0 * n' + 4.0 && n + n' <= z + c;
    hide Near, TightFor;
    SumAtMostHalf(a, b, c, h, x, y, z);
  }

  lemma SumAtMostHalf(a: real, b: real, c: real, h: real, x: real, y: real, z: real)
    requires h > 0.0 && x == a * h && y == b * h && z == c * h && 2.0 * x + 2.0 * y <= 2.0 * z + h
    ensures 2.0 * (a + b) <= 2.0 * c + 1.0
  {
    var e := 2.0 * a + 2.0 * b - 2.0 * c - 1.0;
    assert e * h == 2.0 * x + 2.0 * y - 2.0 * z - h;
    assert e > 0.0 ==> e * h > 0.0;
  }

  /** Nor is it above DV when the numerator is hardly above DV * h. */
  lemma EstimateIsMultiplier(hi: int, lo: int, h: int)
    requires Normal(h) && 0 <= lo < DV && Leads(hi, h) && Tight(h, Numerator(hi, lo))
    ensures h > 0 && Estimate(hi, lo, h) <= DV
  {
    assert 0 <= hi < DV;
    NormalReal(h);
    FirstError(hi, h);
    FirstAtMost(hi, h);
    SecondError(lo, h);
    NumeratorReal(hi, lo);
    TightReal(h, Numerator(hi, lo));
    hide Pow2, Double, First, Second, Normal, Leads, Near, Tight, TightFor, Numerator, Upper, Lower;
    var a, b := First(hi, h), Second(lo, h);
    SumAtMost(a, b, h as real, Upper(hi), Lower(lo), DV as real);
    KeepsOrder(2.0 * (a + b), 2 * DV + 1);
    Halved(a + b);
  }
}
