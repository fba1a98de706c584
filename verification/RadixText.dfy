/** Numbers as text in base 2, 4, 8, 16 and 32: toString and fromString of BigInteger.

    The bits per character need not divide the bits per digit, so characters straddle digits.
 */
module RadixText {
  import opened JsInt
  import opened Digits
  import opened DigitLemmas
  import opened Kernels
  import opened BigIntegers

  // ---------------------------------------------------------------- characters

  /** BI_RM */
  const DIGITS := "0123456789abcdefghijklmnopqrstuvwxyz"

  function Int2Char(v: nat): char
    requires v < 36
  {
    DIGITS[v]
  }

  /** BI_RC, with -1 for what is not there. */
  function IntAt(c: char): (v: int)
    ensures -1 <= v < 36
  {
    if '0' <= c <= '9' then c as int - '0' as int
    else if 'a' <= c <= 'z' then c as int - 'a' as int + 10
    else if 'A' <= c <= 'Z' then c as int - 'A' as int + 10
    else -1
  }

  lemma CharsInverse(v: nat)
    requires v < 36
    ensures IntAt(Int2Char(v)) == v
    ensures Int2Char(v) as int == if v < 10 then '0' as int + v else 'a' as int + v - 10
  {
    assert DIGITS[..10] == "0123456789";
    assert v < 10 ==> Int2Char(v) == '0' + v as char;
    assert v >= 10 ==> Int2Char(v) == 'a' + (v - 10) as char;
  }

  /** Bits per character. */
  predicate IsBits(k: nat) {
    1 <= k <= 5
  }

  /** The bases that both methods treat by bits. */
  function BitsOf(b: nat): nat {
    if b == 16 then 4 else if b == 8 then 3 else if b == 2 then 1 else if b == 32 then 5 else 2
  }

  predicate IsRadix(b: nat) {
    b == 2 || b == 4 || b == 8 || b == 16 || b == 32
  }

  lemma SmallPowers()
    ensures Pow2(1) == 2 && Pow2(2) == 4 && Pow2(3) == 8 && Pow2(4) == 16 && Pow2(5) == 32
  {
    assert Pow2(2) == 2 * Pow2(1);
    assert Pow2(4) == 2 * Pow2(3);
  }

  /** Bits that fromString takes at a time. */
  predicate IsWidth(k: nat) {
    1 <= k <= 8
  }

  lemma WidthValues(k: nat)
    requires IsWidth(k)
    ensures 2 <= Pow2(k) <= 256 < DV
  {
    Pow2Monotone(1, k);
    Pow2Monotone(k, 8);
    assert Pow2(8) == 256;
  }

  lemma CharValues(k: nat)
    requires IsBits(k)
    ensures 2 <= Pow2(k) <= 32
  {
    SmallPowers();
    hide Pow2;
  }

  // ---------------------------------------------------------------- numerals

  /** The numeral of v in base 2^k, without leading zeros. */
  function Numeral(v: nat, k: nat): (s: string)
    requires IsBits(k)
    ensures s != ""
  {
    CharValues(k);
    if v < Pow2(k) then [Int2Char(v)] else Numeral(v / Pow2(k), k) + [Int2Char(v % Pow2(k))]
  }

  /** What a string of digits means: each one counts 2^k times what follows. */
  function Horner(s: string, k: nat): int {
    if s == "" then 0 else Horner(s[..|s| - 1], k) * Pow2(k) + IntAt(s[|s| - 1])
  }

  predicate AllDigits(s: string, k: nat) {
    forall i :: 0 <= i < |s| ==> 0 <= IntAt(s[i]) < Pow2(k)
  }

  lemma HornerSnoc(s: string, c: char, k: nat)
    ensures Horner(s + [c], k) == Horner(s, k) * Pow2(k) + IntAt(c)
    ensures AllDigits(s, k) && 0 <= IntAt(c) < Pow2(k) ==> AllDigits(s + [c], k)
  {
    hide Pow2, IntAt;
    assert (s + [c])[..|s|] == s;
  }

  lemma {:induction false} NumeralMeans(v: nat, k: nat)
    requires IsBits(k)
    ensures Horner(Numeral(v, k), k) == v && AllDigits(Numeral(v, k), k)
  {
    CharValues(k);
    hide Pow2, IntAt, Int2Char, Horner, AllDigits;
    if v < Pow2(k) {
      CharsInverse(v);
      HornerNone(k);
      HornerSnoc("", Int2Char(v), k);
      assert "" + [Int2Char(v)] == [Int2Char(v)];
    } else {
      DivMod(v, Pow2(k));
      CharsInverse(v % Pow2(k));
      NumeralMeans(v / Pow2(k), k);
      HornerSnoc(Numeral(v / Pow2(k), k), Int2Char(v % Pow2(k)), k);
    }
  }

  /** Decimal digits and lower-case letters. */
  predicate LowerCase(s: string) {
    forall i :: 0 <= i < |s| ==> '0' <= s[i] <= '9' || 'a' <= s[i] <= 'v'
  }

  lemma LowerSnoc(s: string, c: char)
    requires LowerCase(s) && ('0' <= c <= '9' || 'a' <= c <= 'v')
    ensures LowerCase(s + [c])
  {
  }

  lemma LowerChar(v: nat)
    requires v < 32
    ensures '0' <= Int2Char(v) <= '9' || 'a' <= Int2Char(v) <= 'v'
    ensures v > 0 ==> Int2Char(v) != '0'
  {
    CharsInverse(v);
    hide Int2Char;
  }

  /** Small digits, and no leading zero. */
  lemma {:induction false} NumeralChars(v: nat, k: nat)
    requires IsBits(k)
    ensures LowerCase(Numeral(v, k)) && (v > 0 ==> Numeral(v, k)[0] != '0')
  {
    CharValues(k);
    NumeralCases(v, k);
    hide *;
    if v < Pow2(k) {
      LowerChar(v);
      OneLower(Int2Char(v));
    } else {
      Quotient(v, Pow2(k));
      LowerChar(v % Pow2(k));
      NumeralChars(v / Pow2(k), k);
      LowerSnoc(Numeral(v / Pow2(k), k), Int2Char(v % Pow2(k)));
    }
  }

  lemma NumeralCases(v: nat, k: nat)
    requires IsBits(k) && 2 <= Pow2(k) <= 32
    ensures v < Pow2(k) ==> Numeral(v, k) == [Int2Char(v)]
    ensures v >= Pow2(k) ==> Numeral(v, k) == Numeral(v / Pow2(k), k) + [Int2Char(v % Pow2(k))]
  {
    hide Int2Char, Pow2;
  }

  lemma Quotient(v: nat, m: nat)
    requires 2 <= m <= v
    ensures 0 < v / m < v && 0 <= v % m < m
  {
    DivMod(v, m);
  }

  lemma OneLower(c: char)
    requires '0' <= c <= '9' || 'a' <= c <= 'v'
    ensures LowerCase([c])
  {
  }

  lemma HornerNone(k: nat)
    ensures Horner("", k) == 0 && AllDigits("", k)
  {
  }

  lemma NumeralStep(q: nat, x: nat, k: nat)
    requires IsBits(k) && x < Pow2(k) && q > 0
    ensures q * Pow2(k) + x >= 0 && Pow2(k) <= 32 && Numeral(q * Pow2(k) + x, k) == Numeral(q, k) + [Int2Char(x)]
  {
    CharValues(k);
    hide Pow2, Int2Char;
    DivModUnique(q * Pow2(k) + x, Pow2(k), q, x);
    MulGe(q, Pow2(k));
  }

  // ---------------------------------------------------------------- toString: one character

  /** The low bits that are not written yet: p of digit i and all digits below. */
  ghost function LowPart(d: DigitMap, i: int, p: nat): int {
    if i < 0 then 0 else Val(d, 0, i) + Low(At(d, i), p) * Weight(i)
  }

  lemma LowPartDrop(d: DigitMap, i: nat)
    requires Proper(d, 0, i + 1)
    ensures LowPart(d, i, 0) == LowPart(d, i - 1, DB) && LowPart(d, i, DB) == Val(d, 0, i + 1)
  {
    hide Weight;
    Pow2Zero();
    LowDigit(At(d, i));
    LowNone(At(d, i));
    if i > 0 {
      LowDigit(At(d, i - 1));
    }
  }

  lemma LowDigit(x: int)
    requires 0 <= x < DV
    ensures Low(x, DB) == x
  {
    BaseIsPower();
    LowMod(x, DB);
  }

  lemma LowNone(x: int)
    ensures Low(x, 0) == 0
  {
    Pow2Zero();
  }

  /** k bits out of the middle of a digit. */
  lemma WithinDigit(x: int, p: nat, k: nat)
    requires 0 <= x < DV && k <= p <= DB
    ensures Low(x, p) == Low(Shr(x, p - k), k) * Pow2(p - k) + Low(x, p - k)
    ensures 0 <= Low(Shr(x, p - k), k) < Pow2(k)
  {
    DigitParts(x, p - k);
    DigitParts(x, p);
    Pow2Add(p - k, k);
    var y, lo := Shr(x, p - k), Low(x, p - k);
    hide Low, Shr;
    ShiftedDigit(x, p - k);
    LowMod(y, k);
    LowMod(x, p);
    hide Pow2;
    CutTwice(x, y, lo, Pow2(p - k), Pow2(k));
  }

  lemma ShiftedDigit(x: int, k: nat)
    requires 0 <= x < DV && k <= DB
    ensures 0 <= Shr(x, k)
  {
    DigitParts(x, k);
  }

  lemma CutTwice(x: int, y: int, lo: int, a: int, b: int)
    requires a > 0 && b > 0 && x == lo + y * a && 0 <= lo < a
    ensures x % (a * b) == (y % b) * a + lo
  {
    var q, r := y / b, y % b;
    assert y == q * b + r;
    assert y * a == q * (a * b) + r * a;
    MulUpper(a, r, b - 1);
    assert a * (b - 1) == a * b - a;
    assert 0 <= r * a + lo < a * b;
    assert a * b > 0;
    DivModUnique(x, a * b, q, r * a + lo);
  }

  /** How many bits are below. */
  function BitsBelow(i: int, p: nat): int {
    i * DB + p
  }

  lemma BitsUnit(i: nat, p: nat)
    ensures BitsBelow(i, p) >= 0 && Pow2(BitsBelow(i, p)) == Weight(i) * Pow2(p)
  {
    WeightIsPower(i);
    Pow2Add(i * DB, p);
  }

  lemma BitsLess(i: int, p: nat, k: nat)
    ensures p >= k ==> BitsBelow(i, p - k) == BitsBelow(i, p) - k
    ensures p + DB >= k ==> BitsBelow(i - 1, p + DB - k) == BitsBelow(i, p) - k
    ensures BitsBelow(i - 1, DB) == BitsBelow(i, 0) && (i == 0 ==> BitsBelow(i, p) == p)
  {
  }

  /** The state of toString: q is written, the rest is below. */
  ghost predicate Written(v: int, q: int, d: DigitMap, i: int, p: nat, k: nat)
    requires k > 0
  {
    && -1 <= i && p <= DB && 0 <= q && 0 <= BitsBelow(i, p) && v == q * Pow2(BitsBelow(i, p)) + LowPart(d, i, p)
    && BitsBelow(i, p) % k == 0
  }

  /** The start: the bits that do not fill a character stand alone in front. */
  lemma WrittenStart(d: DigitMap, t: nat, k: nat) returns (p: nat)
    requires t > 0 && Proper(d, 0, t) && IsBits(k)
    ensures p == DB - t * DB % k && DB - 4 <= p <= DB
    ensures p < DB ==> 0 <= Shr(d[t - 1], p) < Pow2(k) && Written(Val(d, 0, t), Shr(d[t - 1], p), d, t - 1, p, k)
    ensures p == DB ==> Written(Val(d, 0, t), 0, d, t - 1, p, k)
  {
    var x, w := At(d, t - 1), Weight(t - 1);
    p := DB - t * DB % k;
    Multiple(t * DB, k);
    assert (t - 1) * DB + p == t * DB - t * DB % k;
    hide Low, Shr, Pow2, Weight;
    if p < DB {
      DigitParts(x, p);
      Pow2Monotone(DB - p, k);
      WeightIsPower(t - 1);
      Pow2Add((t - 1) * DB, p);
      SplitAlgebra(Val(d, 0, t - 1), x, Low(x, p), Shr(x, p), Pow2(p), w);
    } else {
      LowDigit(x);
    }
  }

  lemma Multiple(n: nat, k: nat)
    requires k > 0
    ensures (n - n % k) % k == 0 && 0 <= n % k < k
  {
    var q := n / k;
    assert n - n % k == q * k + 0;
    DivModUnique(n - n % k, k, q, 0);
  }

  lemma SplitAlgebra(low: int, x: int, lo: int, hi: int, p: int, w: int)
    requires x == lo + hi * p
    ensures low + x * w == hi * (w * p) + (low + lo * w)
  {
  }

  /** A character from within one digit. */
  lemma WrittenWithin(v: int, q: int, d: DigitMap, i: nat, p: nat, k: nat)
    requires IsBits(k) && Written(v, q, d, i, p, k) && Proper(d, 0, i + 1) && k <= p
    ensures 0 <= Low(Shr(At(d, i), p - k), k) < Pow2(k)
    ensures Written(v, q * Pow2(k) + Low(Shr(At(d, i), p - k), k), d, i, p - k, k)
  {
    hide Low, Shr, Pow2, Weight, Val, LowPart, BitsBelow;
    var x, w := Low(Shr(At(d, i), p - k), k), Weight(i);
    WithinDigit(At(d, i), p, k);
    BitsUnit(i, p);
    BitsUnit(i, p - k);
    BitsLess(i, p, k);
    Pow2Add(p - k, k);
    Less(BitsBelow(i, p), k);
    LowPartIs(d, i, p);
    LowPartIs(d, i, p - k);
    MulPositive(q, Pow2(k));
    WithinAlgebra(v, q, Pow2(k), x, Pow2(p - k), w, Val(d, 0, i), Low(At(d, i), p - k), Low(At(d, i), p),
        Pow2(BitsBelow(i, p)));
  }

  lemma LowPartIs(d: DigitMap, i: nat, p: nat)
    ensures LowPart(d, i, p) == Val(d, 0, i) + Low(At(d, i), p) * Weight(i)
  {
  }

  lemma WrittenDrop(v: int, q: int, d: DigitMap, i: nat, k: nat)
    requires k > 0 && Written(v, q, d, i, 0, k) && Proper(d, 0, i + 1)
    ensures Written(v, q, d, i - 1, DB, k)
  {
    LowPartDrop(d, i);
    BitsLess(i, 0, 0);
    hide LowPart, Pow2, BitsBelow;
  }

  lemma MulPositive(q: int, p: int)
    requires 0 <= q && 0 < p
    ensures 0 <= q * p && (q > 0 ==> q * p >= p)
  {
  }

  /** Taking off the period keeps a multiple a multiple. */
  lemma Less(n: nat, k: nat)
    requires k > 0 && n % k == 0
    ensures (n - k) % k == 0 && (n > 0 ==> n >= k)
  {
    var q := n / k;
    assert n == q * k + 0 && n - k == (q - 1) * k + 0;
    DivModUnique(n - k, k, q - 1, 0);
  }

  lemma WithinAlgebra(v: int, q: int, b: int, x: int, p: int, w: int, low: int, lo: int, part: int, unit: int)
    requires v == q * unit + (low + part * w) && unit == w * (p * b) && part == x * p + lo
    ensures v == (q * b + x) * (w * p) + (low + lo * w)
  {
    assert q * (w * (p * b)) == (q * b) * (w * p);
    assert (x * p + lo) * w == x * (w * p) + lo * w;
  }

  /** A character from the end of one digit and the start of the next. */
  lemma WrittenAcross(v: int, q: int, d: DigitMap, i: nat, p: nat, k: nat)
    requires IsBits(k) && Written(v, q, d, i, p, k) && Proper(d, 0, i + 1) && 1 <= p < k
    ensures i >= 1 && 0 <= p + DB - k <= DB
    ensures 0 <= Low(At(d, i), p) < Pow2(p) && 0 <= Shr(At(d, i - 1), p + DB - k) < Pow2(k - p)
    ensures var x := Low(At(d, i), p) * Pow2(k - p) + Shr(At(d, i - 1), p + DB - k);
      0 <= x < Pow2(k) && Written(v, q * Pow2(k) + x, d, i - 1, p + DB - k, k)
  {
    hide Low, Shr, Pow2, Weight, Val, LowPart, BitsBelow;
    BitsLess(i, p, k);
    Less(BitsBelow(i, p), k);
    assert i >= 1;
    var z, n := Low(At(d, i), p), p + DB - k;
    var y := Shr(At(d, i - 1), n);
    DigitParts(At(d, i), p);
    DigitParts(At(d, i - 1), n);
    BitsUnit(i, p);
    BitsUnit(i - 1, n);
    WeightNext(i - 1);
    Pow2Add(p, k - p);
    LowPartIs(d, i, p);
    LowPartIs(d, i - 1, n);
    ValTop(d, i - 1);
    MulPositive(q, Pow2(k));
    JoinBounds(z, Pow2(p), y, Pow2(k - p));
    AcrossAlgebra(v, q, Pow2(p), z, y, Pow2(n), Pow2(k - p), Weight(i - 1), Val(d, 0, i - 1), Low(At(d, i - 1), n),
                  At(d, i - 1), DV, Pow2(BitsBelow(i, p)));
  }

  lemma JoinBounds(z: int, a: int, y: int, b: int)
    requires 0 <= z < a && 0 <= y < b
    ensures 0 <= z * b + y < a * b
  {
    MulUpper(b, z, a - 1);
    assert b * (a - 1) == a * b - b;
  }

  /** a = 2^p, c = 2^(k-p), n * c = the base. */
  lemma AcrossAlgebra(v: int, q: int, a: int, z: int, y: int, n: int, c: int, w: int, low: int, lo: int, x: int,
                      base: int,
                      unit: int)
    requires v == q * unit + (low + x * w + z * (base * w)) && unit == (base * w) * a && x == lo + y * n &&
        n * c == base
    ensures v == (q * (a * c) + (z * c + y)) * (w * n) + (low + lo * w)
  {
    assert q * ((n * c * w) * a) == (q * (a * c)) * (w * n);
    assert z * (n * c * w) == (z * c) * (w * n);
    assert x * w == lo * w + y * (w * n);
    assert (q * (a * c) + (z * c + y)) * (w * n) == (q * (a * c)) * (w * n) + (z * c) * (w * n) + y * (w * n);
  }

  // ---------------------------------------------------------------- toString

  /** One round of the loop: the next character's value, and where the bits below it start. */
  method NextChar(d: DigitMap, s0: int, a0: int, e: nat, ghost v: int, ghost q: int) returns (n: int, s: int, a: int)
    requires IsBits(e) && 0 <= s0 && 1 <= a0 <= DB && Proper(d, 0, s0 + 1) && Written(v, q, d, s0, a0, e)
    ensures 0 <= n < Pow2(e) && 1 <= a <= DB && -1 <= s <= s0 && BitsBelow(s, a) < BitsBelow(s0, a0) &&
        BitsBelow(s, a) >= 0
    ensures Written(v, q * Pow2(e) + n, d, s, a, e)
  {
    hide Written, Low, Shr, Shl, Or, Pow2;
    s, a := s0, a0;
    if e > a {
      WrittenAcross(v, q, d, s, a, e);
      PushedSmall(Low(At(d, s), a), a, e);
      n := Shl(Low(d[s], a), e - a);
      s := s - 1;
      a := a + (DB - e);
      OrBelow(Shr(At(d, s), a), Low(At(d, s0), a0), e - a0, n);
      n := Or(n, Shr(d[s], a));
    } else {
      WrittenWithin(v, q, d, s, a, e);
      a := a - e;
      n := Low(Shr(d[s], a), e);
      if 0 >= a {
        WrittenDrop(v, q * Pow2(e) + n, d, s, e);
        a := a + DB;
        s := s - 1;
      }
    }
  }

  lemma PushedSmall(l: int, p: nat, k: nat)
    requires IsBits(k) && p < k && 0 <= l < Pow2(p)
    ensures Shl(l, k - p) == l * Pow2(k - p) >= 0
  {
    SmallPowers();
    Pow2Zero();
    Pow2Add(p, k - p);
    hide Pow2, Shl;
    MulUpper(Pow2(k - p), l, Pow2(p));
    ShlSmall(l, k - p);
  }

  /** The bits of a number that is not negative, from the top, without leading zeros. */
  method ToBitString(x: BigInteger, e: nat) returns (o: string)
    requires x.Formed() && x.s == 0 && IsBits(e)
    ensures x.Value() >= 0 && o == Numeral(x.Value(), e)
  {
    hide Written, Low, Shr, Pow2, Numeral, Val, Weight, Int2Char;
    ValBound(x.d, 0, x.t);
    Unsigned(x.d, x.t);
    CharValues(e);
    ghost var v, q := Val(x.d, 0, x.t), 0;
    var r, s: int := false, x.t;
    var a: int := DB - s * DB % e;
    o := "";
    s := s - 1;
    if s + 1 > 0 {
      var p := WrittenStart(x.d, x.t, e);
      if a < DB {
        var n := Shr(x.d[s], a);
        q := n;
        if n > 0 {
          r := true;
          NumeralOne(n, e);
          o := [Int2Char(n)];
        }
      }
      while s >= 0
        invariant -1 <= s < x.t && 1 <= a <= DB && Written(v, q, x.d, s, a, e) && q >= 0
        invariant if r then q > 0 && o == Numeral(q, e) else q == 0 && o == ""
        decreases BitsBelow(s, a)
      {
        var n;
        ghost var q0 := q;
        n, s, a := NextChar(x.d, s, a, e, v, q);
        MulPositive(q, Pow2(e));
        q := q * Pow2(e) + n;
        if n > 0 {
          r := true;
        }
        if r {
          o := o + [Int2Char(n)];
        }
        Appended(q0, n, e, q);
      }
      WrittenEnd(v, q, x.d, a, e);
    } else {
      NoDigits(x.d);
    }
    if !r {
      NumeralOne(0, e);
      o := "0";
    }
  }

  lemma NumeralOne(n: nat, k: nat)
    requires IsBits(k) && n < Pow2(k) <= 32
    ensures Numeral(n, k) == [Int2Char(n)] && Int2Char(0) == '0'
  {
  }

  /** How the numeral grows by a character, leading zeros aside. */
  lemma Appended(q: nat, n: nat, k: nat, q': nat)
    requires IsBits(k) && n < Pow2(k) <= 32 && q' == q * Pow2(k) + n
    ensures q > 0 ==> q' > 0 && Numeral(q', k) == Numeral(q, k) + [Int2Char(n)]
    ensures q == 0 ==> q' == n && Numeral(n, k) == [Int2Char(n)] && "" + [Int2Char(n)] == [Int2Char(n)]
  {
    hide Pow2, Int2Char, Numeral;
    if q > 0 {
      MulPositive(q, Pow2(k));
      NumeralStep(q, n, k);
    } else {
      NumeralOne(n, k);
    }
  }

  lemma WrittenEnd(v: int, q: int, d: DigitMap, p: nat, k: nat)
    requires k > 0 && Written(v, q, d, -1, p, k)
    ensures v == q
  {
    Pow2Zero();
  }

  /** toString in a base that is a power of two. */
  method ToString(x: BigInteger, b: nat) returns (o: string)
    requires x.Formed() && IsRadix(b)
    ensures o == TextOf(x.Value(), BitsOf(b))
  {
    hide Numeral;
    ValBound(x.d, 0, x.t);
    if x.s < 0 {
      NegativeValue(x.d, x.t, x.s);
      var y := x.Negate();
      y.SignIsSign();
      o := ToBitString(y, BitsOf(b));
      o := "-" + o;
    } else {
      o := ToBitString(x, BitsOf(b));
    }
  }

  lemma NegativeValue(d: DigitMap, t: nat, s: int)
    requires Proper(d, 0, t) && s == -1
    ensures Num(d, t, s) < 0
  {
    ValBound(d, 0, t);
  }

  function TextOf(v: int, k: nat): string
    requires IsBits(k)
  {
    if v < 0 then "-" + Numeral(-v, k) else Numeral(v, k)
  }

  // ---------------------------------------------------------------- fromString

  /** What fromString makes of the characters from the right: the number, how many digits it has, and whether the
      last sign or digit seen was a minus.  Other characters are skipped. */
  datatype Reading = Reading(negative: bool, value: nat, count: nat)

  function Read(s: string, k: nat): Reading {
    if s == "" then Reading(false, 0, 0)
    else
      var r := Read(s[1..], k);
      if IntAt(s[0]) < 0 then r.(negative := r.negative || s[0] == '-')
      else Reading(false, r.value + IntAt(s[0]) * Pow2(r.count * k), r.count + 1)
  }

  /** Digits that the base has; what else there is is skipped. */
  predicate DigitsFit(s: string, k: nat) {
    forall i :: 0 <= i < |s| ==> IntAt(s[i]) < Pow2(k)
  }

  /** The number so far, and the bits of its top digit that are in use, 0 for all. */
  ghost predicate Filled(d: DigitMap, t: nat, o: nat, value: int, count: nat, k: nat) {
    && Proper(d, 0, t) && Val(d, 0, t) == value && o < DB
    && (t == 0 ==> o == 0 && count == 0)
    && (t > 0 ==> count * k == (t - 1) * DB + (if o == 0 then DB else o))
    && (o > 0 ==> d[t - 1] < Pow2(o))
  }

  /** A new digit. */
  lemma FilledNew(d: DigitMap, t: nat, value: int, count: nat, k: nat, x: int)
    requires IsWidth(k) && Filled(d, t, 0, value, count, k) && 0 <= x < Pow2(k)
    ensures Filled(d[t := x], t + 1, k, value + x * Pow2(count * k), count + 1, k)
  {
    var e := d[t := x];
    PutAt(d, t, x);
    WidthValues(k);
    ValFrame(d, e, 0, t);
    WeightIsPower(t);
    assert count * k == t * DB;
    assert (count + 1) * k == count * k + k;
    hide Pow2, Weight;
  }

  /** Bits put on top of o bits. */
  lemma TopBits(y: int, x: int, o: nat, k: nat)
    requires 0 <= y < Pow2(o) && 0 <= x < Pow2(k) && o + k <= DB
    ensures Shl(x, o) == x * Pow2(o) >= 0 && Or(y, Shl(x, o)) == y + x * Pow2(o)
    ensures 0 <= y + x * Pow2(o) < Pow2(o + k) <= DV
  {
    Pow2Add(o, k);
    Pow2Monotone(o + k, DB);
    BaseIsPower();
    hide Pow2, Shl, Or;
    JoinBounds(x, Pow2(k), y, Pow2(o));
    Pow2Commute(o, k);
    MulNonNegative(x, Pow2(o));
    ShlFits(x, o);
    OrBelow(y, x, o, x * Pow2(o));
  }

  /** More bits for the top digit. */
  lemma FilledMore(d: DigitMap, t: nat, o: nat, value: int, count: nat, k: nat, x: int, y: int)
    requires IsWidth(k) && Filled(d, t, o, value, count, k) && 0 <= x < Pow2(k) && 0 < o && o + k <= DB
    requires t > 0 && y == d[t - 1] + x * Pow2(o) && 0 <= y < Pow2(o + k) <= DV
    ensures Filled(d[t - 1 := y], t, if o + k == DB then 0 else o + k, value + x * Pow2(count * k), count + 1, k)
  {
    PutAt(d, t - 1, y);
    hide Pow2, Weight, Val;
    ValPut(d, 0, t, t - 1, y);
    UnitIs(t - 1, o, count * k);
    UnitAlgebra(x, Pow2(o), Weight(t - 1));
    NextCount(count, k);
  }

  lemma NextCount(count: nat, k: nat)
    ensures (count + 1) * k == count * k + k
  {
  }

  /** The weight of bit o of digit n. */
  lemma UnitIs(n: nat, o: nat, r: nat)
    requires r == n * DB + o
    ensures Weight(n) * Pow2(o) == Pow2(r)
  {
    WeightIsPower(n);
    Pow2Add(n * DB, o);
  }

  /** A character whose low bits fill the top digit and whose high bits start the next one. */
  lemma FilledAcross(d: DigitMap, t: nat, o: nat, value: int, count: nat, k: nat, lo: int, hi: int, y: int)
    requires IsWidth(k) && Filled(d, t, o, value, count, k) && 0 < o < DB < o + k && t > 0
    requires 0 <= lo && 0 <= hi < Pow2(o + k - DB) && y == d[t - 1] + lo * Pow2(o) && 0 <= y < DV
    ensures Filled(d[t - 1 := y][t := hi], t + 1, o + k - DB,
                   value + (lo + hi * Pow2(DB - o)) * Pow2(count * k), count + 1, k)
  {
    var e := d[t - 1 := y];
    var f := e[t := hi];
    PutAt(d, t - 1, y);
    PutAt(e, t, hi);
    BaseIsPower();
    Pow2Monotone(o + k - DB, DB);
    hide Pow2, Weight, Val;
    ValPut(d, 0, t, t - 1, y);
    ValFrame(e, f, 0, t);
    ValTop(f, t);
    UnitIs(t - 1, o, count * k);
    WeightNext(t - 1);
    Pow2Add(o, DB - o);
    AcrossUnit(lo, hi, Pow2(o), Pow2(DB - o), Weight(t - 1), DV);
    NextCount(count, k);
  }

  lemma ValTop(d: DigitMap, t: nat)
    ensures Val(d, 0, t + 1) == Val(d, 0, t) + At(d, t) * Weight(t)
  {
  }

  lemma AcrossUnit(lo: int, hi: int, p: int, c: int, w: int, base: int)
    requires p * c == base
    ensures (lo * p) * w + hi * (base * w) == (lo + hi * c) * (w * p)
  {
    assert hi * (base * w) == (hi * c) * (w * p);
    assert (lo * p) * w == lo * (w * p);
  }

  lemma Pow2Commute(a: nat, b: nat)
    ensures Pow2(a) * Pow2(b) == Pow2(b) * Pow2(a)
  {
  }

  lemma ShlFits(x: int, o: nat)
    requires 0 <= x && x * Pow2(o) < DV
    ensures Shl(x, o) == x * Pow2(o)
  {
    hide Pow2, Shl;
    if x > 0 {
      assert x < 0x8000_0000 by { MulUpper(x, 1, Pow2(o)); }
      ShlSmall(x, o);
    } else {
      ShlSmall(0, o);
    }
  }

  lemma UnitAlgebra(x: int, p: int, w: int)
    ensures (x * p) * w == x * (w * p)
  {
  }

  /** The number read so far, in the digits of a number with sign word 0. */
  method PutDigit(x: BigInteger, s: nat, o0: nat, k: nat, ghost value: nat, ghost count: nat) returns (o: nat)
    requires IsWidth(k) && s < Pow2(k) && x.s == 0 && Filled(x.d, x.t, o0, value, count, k)
    modifies x
    ensures x.s == 0 && Filled(x.d, x.t, o, value + s * Pow2(count * k), count + 1, k)
  {
    hide Pow2, Low, Shr, Shl, Or, Val, Weight;
    o := o0;
    if 0 == o {
      FilledNew(x.d, x.t, value, count, k, s);
      x.d, x.t := x.d[x.t := s], x.t + 1;
    } else if o + k > DB {
      var lo, hi, y := CutDigit(s, x.d[x.t - 1], o, k);
      FilledAcross(x.d, x.t, o, value, count, k, lo, hi, y);
      x.d := x.d[x.t - 1 := y];
      x.d, x.t := x.d[x.t := hi], x.t + 1;
    } else {
      TopBits(x.d[x.t - 1], s, o, k);
      var y := Or(x.d[x.t - 1], Shl(s, o));
      FilledMore(x.d, x.t, o, value, count, k, s, y);
      x.d := x.d[x.t - 1 := y];
    }
    o := o + k;
    if o >= DB {
      o := o - DB;
    }
  }

  /** The bits of s that still fit the top digit, the others, and the digit with the former. */
  method CutDigit(s: nat, top: int, o: nat, k: nat) returns (lo: int, hi: int, y: int)
    requires IsWidth(k) && s < Pow2(k) && 0 < o < DB < o + k && 0 <= top < Pow2(o)
    ensures 0 <= lo && 0 <= hi < Pow2(o + k - DB) && s == lo + hi * Pow2(DB - o)
    ensures y == top + lo * Pow2(o) && 0 <= y < DV
  {
    WidthValues(k);
    ShrSplit(s, DB - o);
    Pow2Add(o + k - DB, DB - o);
    Below(Shr(s, DB - o), Pow2(o + k - DB), Pow2(DB - o));
    TopBits(top, Low(s, DB - o), o, DB - o);
    hide Pow2, Low, Shr, Shl, Or;
    lo := Low(s, DB - o);
    hi := Shr(s, DB - o);
    y := Or(top, Shl(lo, o));
  }

  /** fromString in a base that is a power of two. */
  method FromString(x: BigInteger, t: string, b: nat)
    requires IsRadix(b) && DigitsFit(t, BitsOf(b))
    modifies x
    ensures x.Valid() && x.Value() == Meaning(t, BitsOf(b))
  {
    var n := BitsOf(b);
    hide Pow2, Low, Shr, Shl, Or, Val, Weight, Filled, Num;
    x.t, x.s := 0, 0;
    var i, r, o: nat := |t|, false, 0;
    FilledNone(x.d, n);
    assert t[i..] == "";
    while i > 0
      invariant 0 <= i <= |t| && x.s == 0 && r == Read(t[i..], n).negative
      invariant Filled(x.d, x.t, o, Read(t[i..], n).value, Read(t[i..], n).count, n)
    {
      i := i - 1;
      ghost var rest := Read(t[i + 1..], n);
      assert t[i..][1..] == t[i + 1..];
      var s := IntAt(t[i]);
      if 0 > s {
        if t[i] == '-' {
          r := true;
        }
      } else {
        r := false;
        o := PutDigit(x, s, o, n, rest.value, rest.count);
      }
    }
    assert t[0..] == t;
    FilledValue(x.d, x.t, o, Read(t, n).value, Read(t, n).count, n);
    x.Clamp();
    if r {
      var zero := new BigInteger();
      ZeroValue(zero);
      zero.SubTo(x, x);
    }
  }

  lemma FilledNone(d: DigitMap, k: nat)
    ensures Filled(d, 0, 0, 0, 0, k)
  {
  }

  lemma FilledValue(d: DigitMap, t: nat, o: nat, value: int, count: nat, k: nat)
    requires Filled(d, t, o, value, count, k)
    ensures Proper(d, 0, t) && Num(d, t, 0) == value
  {
  }

  lemma ZeroValue(x: BigInteger)
    requires x.t == 0 && x.s == 0
    ensures x.Value() == 0 && x.Formed()
  {
  }

  /** The number that a text stands for. */
  function Meaning(t: string, k: nat): int {
    var r := Read(t, k);
    var v: int := r.value;
    if r.negative then -v else v
  }

  // ---------------------------------------------------------------- fromString, base 256

  /** Bytes, high byte first. */
  function Base256(t: seq<nat>): (v: int)
  {
    if t == [] then 0 else t[0] * Pow2((|t| - 1) * 8) + Base256(t[1..])
  }

  /** The same in two's complement: a leading byte of 128 or more makes the number negative. */
  function Signed256(t: seq<nat>): int {
    Base256(t) - if t != [] && t[0] >= 128 then Pow2(|t| * 8) else 0
  }

  /** fromString on an array of bytes. */
  method FromBytes(x: BigInteger, t: seq<nat>)
    requires forall i :: 0 <= i < |t| ==> t[i] < 256
    modifies x
    ensures x.Valid() && x.Value() == Signed256(t)
  {
    hide Pow2, Low, Shr, Shl, Or, Val, Weight, Filled, Num;
    x.t, x.s := 0, 0;
    var i, o: nat := |t|, 0;
    FilledNone(x.d, 8);
    EightBits();
    assert t[i..] == [];
    while i > 0
      invariant 0 <= i <= |t| && x.s == 0 && Base256(t[i..]) >= 0
      invariant Filled(x.d, x.t, o, Base256(t[i..]), |t| - i, 8)
    {
      i := i - 1;
      ghost var rest := t[i + 1..];
      assert t[i..][1..] == rest;
      MulNonNegative(t[i], Pow2(|rest| * 8));
      o := PutDigit(x, t[i], o, 8, Base256(rest), |rest|);
    }
    assert t[0..] == t;
    FilledValue(x.d, x.t, o, Base256(t), |t|, 8);
    if |t| > 0 && t[0] >= 128 {
      FillSign(x, o, Base256(t), |t|);
    }
    x.Clamp();
  }

  lemma EightBits()
    ensures Pow2(8) == 256
  {
  }

  /** A negative number: sign word -1, and ones above the bits of the top digit. */
  method FillSign(x: BigInteger, o: nat, ghost value: int, ghost count: nat)
    requires count > 0 && x.s == 0 && Filled(x.d, x.t, o, value, count, 8)
    modifies x
    ensures x.Formed() && x.Value() == value - Pow2(count * 8)
  {
    hide Pow2, Low, Shr, Shl, Or, Val, Weight, Num;
    x.s := -1;
    if o > 0 {
      OnesAbove(o);
      TopBits(x.d[x.t - 1], Pow2(DB - o) - 1, o, DB - o);
      ghost var d0 := x.d;
      var y := Or(x.d[x.t - 1], Shl(Shl(1, DB - o) - 1, o));
      PutAt(x.d, x.t - 1, y);
      x.d := x.d[x.t - 1 := y];
      ValPut(d0, 0, x.t, x.t - 1, y);
      UnitIs(x.t - 1, o, count * 8);
      WeightNext(x.t - 1);
      FilledSign(value, Weight(x.t - 1), Pow2(o), Pow2(DB - o));
    } else {
      UnitIs(x.t, 0, count * 8);
      Pow2Zero();
    }
    SignedNum(x.d, x.t);
  }

  lemma OnesAbove(o: nat)
    requires 0 < o < DB
    ensures Shl(1, DB - o) == Pow2(DB - o) >= 1 && Pow2(DB - o) * Pow2(o) == DV &&
        Pow2(DB - o) * Pow2(o) == Pow2(o) * Pow2(DB - o)
  {
    BaseIsPower();
    Pow2Add(DB - o, o);
    Pow2Monotone(DB - o, DB);
    var p, q := Pow2(DB - o), Pow2(o);
    hide Pow2;
    OneShifted(DB - o);
    assert p * q == q * p;
  }

  lemma FilledSign(value: int, w: int, p: int, q: int)
    requires q * p == DV
    ensures value + ((q - 1) * p) * w - DV * w == value - w * p
  {
    assert (q - 1) * p == q * p - p;
    assert (q * p - p) * w == (q * p) * w - p * w;
  }

  lemma SignedNum(d: DigitMap, t: nat)
    ensures Num(d, t, -1) == Val(d, 0, t) - Weight(t)
  {
  }

  // ---------------------------------------------------------------- there and back

  /** The first digit of a numeral counts most. */
  lemma {:induction false} HornerFront(c: char, rest: string, k: nat)
    ensures Horner([c] + rest, k) == IntAt(c) * Pow2(|rest| * k) + Horner(rest, k)
  {
    hide IntAt;
    if rest == "" {
      assert [c] + rest == [c] && [c][..0] == "";
      Pow2Zero();
    } else {
      var front, last := rest[..|rest| - 1], rest[|rest| - 1];
      assert ([c] + rest)[..|rest|] == [c] + front;
      HornerFront(c, front, k);
      NextCount(|front|, k);
      Pow2Add(|front| * k, k);
      FrontAlgebra(IntAt(c), Pow2(|front| * k), Horner(front, k), Pow2(k));
    }
  }

  lemma FrontAlgebra(x: int, a: int, h: int, b: int)
    ensures (x * a + h) * b == x * (a * b) + h * b
  {
  }

  lemma {:induction false} ReadDigits(s: string, k: nat)
    requires AllDigits(s, k)
    ensures Horner(s, k) >= 0 && Read(s, k) == Reading(false, Horner(s, k), |s|) && DigitsFit(s, k)
  {
    hide Pow2, IntAt, Horner;
    if s == "" {
      HornerNone(k);
    } else {
      var rest := s[1..];
      assert s == [s[0]] + rest && 0 <= IntAt(s[0]) < Pow2(k);
      HornerFront(s[0], rest, k);
      ReadDigits(rest, k);
      MulNonNegative(IntAt(s[0]), Pow2(|rest| * k));
    }
  }

  function OnlyDigits(s: string): string {
    if s == "" then "" else (if IntAt(s[0]) < 0 then "" else [s[0]]) + OnlyDigits(s[1..])
  }

  predicate MinusAt(s: string, i: nat) {
    i < |s| && s[i] == '-' && forall j :: 0 <= j < i ==> IntAt(s[j]) < 0
  }

  predicate LeadingMinus(s: string) {
    exists i :: 0 <= i < |s| && MinusAt(s, i)
  }

  /** A text means the number of its digits, negative if there is a minus before the first of them. */
  lemma {:induction false} ReadMeans(s: string, k: nat)
    ensures Read(s, k).value == Horner(OnlyDigits(s), k) && Read(s, k).count == |OnlyDigits(s)|
    ensures Read(s, k).negative <==> LeadingMinus(s)
  {
    hide Pow2, IntAt, Horner, LeadingMinus;
    if s == "" {
      HornerNone(k);
      NoMinus();
    } else {
      ReadMeans(s[1..], k);
      MinusFirst(s[0], s[1..]);
      assert s == [s[0]] + s[1..];
      assert "" + OnlyDigits(s[1..]) == OnlyDigits(s[1..]);
      if IntAt(s[0]) >= 0 {
        HornerFront(s[0], OnlyDigits(s[1..]), k);
      }
    }
  }

  lemma NoMinus()
    ensures !LeadingMinus("")
  {
  }

  lemma MinusFirst(c: char, rest: string)
    ensures LeadingMinus([c] + rest) <==> IntAt(c) < 0 && (c == '-' || LeadingMinus(rest))
  {
    var s := [c] + rest;
    assert IntAt('-') == -1 && (MinusAt(s, 0) <==> c == '-');
    hide IntAt;
    forall i: nat
      ensures MinusAt(s, i + 1) <==> IntAt(c) < 0 && MinusAt(rest, i)
    {
      MinusShifts(c, rest, i);
    }
    hide MinusAt;
    if LeadingMinus(s) {
      var i :| 0 <= i < |s| && MinusAt(s, i);
      if i > 0 {
        assert MinusAt(s, (i - 1) + 1);
        assert MinusAt(rest, i - 1) && i - 1 < |rest|;
      }
    }
    if IntAt(c) < 0 && LeadingMinus(rest) {
      var i :| 0 <= i < |rest| && MinusAt(rest, i);
      assert MinusAt(s, i + 1) && i + 1 < |s|;
    }
    if c == '-' {
      assert MinusAt(s, 0) && 0 < |s|;
    }
  }

  lemma MinusShifts(c: char, rest: string, i: nat)
    ensures MinusAt([c] + rest, i + 1) <==> IntAt(c) < 0 && MinusAt(rest, i)
  {
    hide IntAt;
    var s := [c] + rest;
    assert i < |rest| ==> s[i + 1] == rest[i];
    if MinusAt(s, i + 1) {
      assert IntAt(s[0]) < 0;
      assert forall j :: 0 <= j < i ==> rest[j] == s[j + 1];
    }
    if MinusAt(rest, i) {
      assert forall j :: 1 <= j < i + 1 ==> s[j] == rest[j - 1];
    }
  }

  /** Reading back what was written gives every number again. */
  lemma TextRoundTrip(v: int, k: nat)
    requires IsBits(k)
    ensures DigitsFit(TextOf(v, k), k) && Meaning(TextOf(v, k), k) == v
  {
    hide Pow2, Horner, AllDigits, Numeral;
    var s := Numeral(if v < 0 then -v else v, k);
    NumeralMeans(if v < 0 then -v else v, k);
    ReadDigits(s, k);
    CharValues(k);
    assert ("-" + s)[1..] == s;
  }
}
