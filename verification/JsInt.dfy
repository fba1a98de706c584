/** The integer operators of JavaScript that the asset relies on.

    Numbers are mathematical integers here; the bitwise operators first convert their operands
    to 32 bits, and that conversion is written out.  Integers that the code computes with stay
    below 2^53 in magnitude, where doubles are exact; what is not an integer, the quotient digit
    that a division estimates, is rounded as Doubles.dfy says.
 */
module JsInt {

  function Pow2(n: nat): (r: int)
    ensures r >= 1
  {
    if n == 0 then 1 else 2 * Pow2(n - 1)
  }

  function ToUint32(x: int): int {
    x % 0x1_0000_0000
  }

  function ToInt32(x: int): int {
    var u := ToUint32(x);
    if u < 0x8000_0000 then u else u - 0x1_0000_0000
  }

  /** x & (2^k - 1) */
  function Low(x: int, k: nat): int {
    ToInt32(x) % Pow2(k)
  }

  /** x >> k */
  function Shr(x: int, k: nat): int {
    ToInt32(x) / Pow2(k)
  }

  /** x >>> k */
  function Ushr(x: int, k: nat): int {
    ToUint32(x) / Pow2(k)
  }

  /** x << k */
  function Shl(x: int, k: nat): int {
    ToInt32(ToInt32(x) * Pow2(k))
  }

  /** x & (1 << k), for k <= 31 */
  function AndBit(x: int, k: nat): int {
    if (ToInt32(x) / Pow2(k)) % 2 == 1 then Shl(1, k) else 0
  }

  /** x | y, for operands that are not negative */
  function Or(x: nat, y: nat): nat {
    if x == 0 && y == 0 then 0
    else (if x % 2 == 1 || y % 2 == 1 then 1 else 0) + 2 * Or(x / 2, y / 2)
  }

  /** x % m with the sign of x, for m > 0 */
  function Rem(x: int, m: int): int
    requires m > 0
  {
    if x >= 0 then x % m else -((-x) % m)
  }

  lemma Pow2Values()
    ensures Pow2(1) == 2 && Pow2(14) == 0x4000 && Pow2(15) == 0x8000 && Pow2(26) == 0x400_0000
    ensures Pow2(28) == 0x1000_0000 && Pow2(30) == 0x4000_0000
    ensures Pow2(31) == 0x8000_0000 && Pow2(32) == 0x1_0000_0000
  {
    assert Pow2(10) == 1024;
    assert Pow2(20) == 1024 * 1024 by { Pow2Add(10, 10); }
    assert Pow2(30) == 1024 * 1024 * 1024 by { Pow2Add(20, 10); }
  }

  lemma Pow2Zero()
    ensures Pow2(0) == 1
  {
  }

  lemma {:induction false} Pow2Add(a: nat, b: nat)
    ensures Pow2(a + b) == Pow2(a) * Pow2(b)
  {
    if b == 0 {
    } else {
      Pow2Add(a, b - 1);
      assert Pow2(a + b) == 2 * Pow2(a + (b - 1));
    }
  }

  lemma Pow2Monotone(a: nat, b: nat)
    requires a <= b
    ensures Pow2(a) <= Pow2(b)
  {
    if a < b {
      Pow2Monotone(a, b - 1);
    }
  }

  /** Floor division and remainder are pinned down by one equation. */
  lemma DivModUnique(x: int, m: int, q: int, r: int)
    requires m > 0 && 0 <= r < m && x == q * m + r
    ensures x / m == q && x % m == r
  {
    var q', r' := x / m, x % m;
    assert x == q' * m + r' && 0 <= r' < m;
    QuotientUnique(q, r, q', r', m);
  }

  lemma QuotientUnique(q: int, r: int, q': int, r': int, m: int)
    requires 0 <= r < m && 0 <= r' < m && q * m + r == q' * m + r'
    ensures q == q' && r == r'
  {
    assert (q - q') * m == r' - r && (q' - q) * m == r - r';
    if q > q' {
      MulGe(q - q', m);
    } else if q < q' {
      MulGe(q' - q, m);
    }
  }

  lemma MulGe(a: int, m: int)
    requires a >= 1 && m >= 0
    ensures a * m >= m
  {
  }

  lemma MultipleOfPartial(x: int, y: int, wraps: int, p: int, h: int)
    requires p > 0 && x == y + wraps * (p * h)
    ensures x % p == y % p
  {
    var q, r := y / p, y % p;
    assert y == q * p + r;
    assert wraps * (p * h) == (wraps * h) * p;
    assert x == (q + wraps * h) * p + r;
    DivModUnique(x, p, q + wraps * h, r);
  }

  lemma ConversionMod(x: int, p: int, h: int)
    requires p > 0 && p * h == 0x1_0000_0000
    ensures ToInt32(x) % p == x % p
  {
    var y := ToInt32(x);
    var wraps := (x - y) / 0x1_0000_0000;
    MultipleOfPartial(x, y, wraps, p, h);
  }

  /** Masking below bit 32 does not notice the conversion to 32 bits. */
  lemma LowMod(x: int, k: nat)
    requires k <= 32
    ensures Low(x, k) == x % Pow2(k)
  {
    assert Pow2(k) * Pow2(32 - k) == 0x1_0000_0000 by {
      Pow2Add(k, 32 - k);
      Pow2Values();
    }
    ConversionMod(x, Pow2(k), Pow2(32 - k));
  }

  lemma BitOfConverted(x: int, y: int, wraps: int, p: int, h: int)
    requires p > 0 && x == y + wraps * (p * (2 * h))
    ensures (x / p) % 2 == (y / p) % 2
  {
    DivMod(y, p);
    HigherWraps(x, y / p, y % p, wraps, p, h);
    DivModUnique(x, p, y / p + 2 * (wraps * h), y % p);
    EvenMore(y / p, wraps * h);
  }

  lemma HigherWraps(x: int, q: int, r: int, wraps: int, p: int, h: int)
    requires x == r + q * p + wraps * (p * (2 * h))
    ensures x == (q + 2 * (wraps * h)) * p + r
  {
    var c := wraps * h;
    assert wraps * (p * (2 * h)) == (2 * c) * p;
  }

  lemma EvenMore(q: int, c: int)
    ensures (q + 2 * c) % 2 == q % 2
  {
  }

  /** Testing bit k of an unsigned number through a signed conversion. */
  lemma BitTest(x: int, k: nat)
    requires k <= 30
    ensures AndBit(x, k) > 0 <==> (x / Pow2(k)) % 2 == 1
  {
    Pow2Add(k, 31 - k);
    Pow2Values();
    Pow2Monotone(k, 30);
    hide Pow2;
    OneShifted(k);
    ConversionBit(x, Pow2(k), Pow2(31 - k));
  }

  lemma OneShifted(k: nat)
    requires Pow2(k) < 0x8000_0000
    ensures Shl(1, k) == Pow2(k) > 0
  {
    hide Pow2;
    ShlSmall(1, k);
  }

  lemma ConversionBit(x: int, p: int, h: int)
    requires p > 0 && p * h == 0x8000_0000
    ensures (x / p) % 2 == (ToInt32(x) / p) % 2
  {
    var y := ToInt32(x);
    var wraps := (x - y) / 0x1_0000_0000;
    assert p * (2 * h) == 0x1_0000_0000;
    BitOfConverted(x, y, wraps, p, h);
  }

  lemma DivMod(x: int, m: int)
    requires m > 0
    ensures x == x % m + (x / m) * m && 0 <= x % m < m
    ensures x >= 0 ==> x / m >= 0
  {
  }

  /** & and >> cut a number that fits 31 bits in two. */
  lemma ShrSplit(x: int, k: nat)
    requires 0 <= x < 0x8000_0000 && k <= 32
    ensures x == Low(x, k) + Shr(x, k) * Pow2(k) && 0 <= Low(x, k) < Pow2(k) && 0 <= Shr(x, k)
  {
    assert ToInt32(x) == x;
    DivMod(x, Pow2(k));
  }

  /** & and >>> cut a number that fits 32 bits in two. */
  lemma UshrSplit(x: int, k: nat)
    requires 0 <= x < 0x1_0000_0000 && k <= 32
    ensures x == Low(x, k) + Ushr(x, k) * Pow2(k) && 0 <= Low(x, k) < Pow2(k) && 0 <= Ushr(x, k)
  {
    LowMod(x, k);
    assert ToUint32(x) == x;
    DivMod(x, Pow2(k));
  }

  /** A shift that stays below 2^31 is a product. */
  lemma ShlSmall(x: int, k: nat)
    requires 0 <= x < 0x8000_0000 && x * Pow2(k) < 0x8000_0000
    ensures Shl(x, k) == x * Pow2(k)
  {
    assert ToInt32(x) == x;
    assert 0 <= x * Pow2(k);
  }

  /** A disjoint bitwise or is a sum. */
  lemma {:induction false} OrDisjoint(x: nat, y: nat, k: nat)
    requires x < Pow2(k)
    ensures Or(x, y * Pow2(k)) == x + y * Pow2(k)
    decreases k
  {
    if k == 0 {
      OrZero(y);
    } else {
      var p := Pow2(k - 1);
      assert y * Pow2(k) == 2 * (y * p);
      assert x / 2 < p;
      OrDisjoint(x / 2, y, k - 1);
      if x == 0 && y * Pow2(k) == 0 {
      } else {
        assert (y * Pow2(k)) / 2 == y * p;
        assert (y * Pow2(k)) % 2 == 0;
      }
    }
  }

  lemma {:induction false} OrZero(y: nat)
    ensures Or(0, y) == y
  {
    if y > 0 {
      OrZero(y / 2);
    }
  }

  lemma {:induction false} OrCommutes(x: nat, y: nat)
    ensures Or(x, y) == Or(y, x)
    decreases x + y
  {
    if x != 0 || y != 0 {
      OrCommutes(x / 2, y / 2);
    }
  }
}
