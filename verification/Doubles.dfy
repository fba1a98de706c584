/** Numbers as JavaScript keeps them: 53 significant bits, rounded to the nearest, ties to even.

    Only numbers within the range of normal doubles are used here, so subnormal numbers and infinities are left
    out.
 */
module Doubles {

  const LIMIT: real := 9007199254740992.0  // 2^53
  const HALF: real := 4503599627370496.0  // 2^52

  /** The nearest integer, the even one when two are equally near. */
  function Nearest(x: real): int {
    var low := x.Floor;
    if x - low as real < 0.5 then low
    else if x - low as real > 0.5 then low + 1
    else low + low % 2
  }

  /** How far x is from having 53 bits before the point. */
  ghost function Distance(x: real): int
    requires x >= 0.0
  {
    if x == 0.0 then 0 else if x < HALF then (LIMIT / x).Floor else if x < LIMIT then 0 else x.Floor
  }

  /** The double nearest to x >= 0: scaled to 53 bits before the point, it is an integer. */
  function Magnitude(x: real): (r: real)
    requires x >= 0.0
    ensures r >= 0.0
    decreases Distance(x)
  {
    if x == 0.0 then 0.0
    else if x < HALF then (ScaleUp(x); Magnitude(2.0 * x) / 2.0)
    else if x >= LIMIT then (ScaleDown(x); 2.0 * Magnitude(x / 2.0))
    else Nearest(x) as real
  }

  /** The double nearest to x. */
  function Double(x: real): real {
    if x < 0.0 then -Magnitude(-x) else Magnitude(x)
  }

  lemma NotNegative(x: real)
    requires x >= 0.0
    ensures Double(x) >= 0.0
  {
  }

  lemma ScaleUp(x: real)
    requires 0.0 < x < HALF
    ensures 0 <= Distance(2.0 * x) < Distance(x)
  {
    var y, z := LIMIT / x, LIMIT / (2.0 * x);
    assert y * x == LIMIT && z * (2.0 * x) == LIMIT;
    assert (y - 2.0 * z) * x == 0.0;
    assert y == 2.0 * z;
    assert z > 1.0;
  }

  lemma ScaleDown(x: real)
    requires x >= LIMIT
    ensures 0 <= Distance(x / 2.0) < Distance(x)
  {
  }

  lemma Halved(x: real)
    requires 0.0 <= x < HALF
    ensures Double(x) == Double(2.0 * x) / 2.0
  {
  }

  lemma AtLimit()
    ensures Double(HALF) == HALF && Double(LIMIT) == LIMIT
  {
    assert Magnitude(LIMIT / 2.0) == HALF;
  }

  function Power2(k: nat): (r: real)
    ensures r >= 1.0
  {
    if k == 0 then 1.0 else 2.0 * Power2(k - 1)
  }

  /** One factor of two moved from the power to the number. */
  lemma Shifted(x: real, k: nat)
    requires k > 0 && x >= 0.0
    ensures x * Power2(k) == (2.0 * x) * Power2(k - 1) && 2.0 * x <= x * Power2(k)
  {
    Grows(2.0 * x, Power2(k - 1));
  }

  lemma Grows(x: real, p: real)
    requires x >= 0.0 && p >= 1.0
    ensures x <= x * p
  {
    assert x * (p - 1.0) >= 0.0;
  }

  lemma HalfError(e: real, x: real, p: real)
    ensures (e / 2.0 - x) * (2.0 * p) == (e - 2.0 * x) * p
  {
  }

  lemma NearestIs(x: real, n: int)
    ensures -0.5 <= Nearest(x) as real - x <= 0.5
    ensures -0.5 < x - n as real < 0.5 ==> Nearest(x) == n
    ensures n as real <= x ==> n <= Nearest(x)
    ensures x <= n as real ==> Nearest(x) <= n
    ensures x == n as real + 0.5 ==> Nearest(x) == if n % 2 == 0 then n else n + 1
  {
  }

  lemma Whole(x: real)
    requires HALF <= x < LIMIT
    ensures Double(x) == Nearest(x) as real
  {
    hide Nearest, Distance;
  }

  lemma InRange(x: real, n: int)
    requires HALF <= x < LIMIT
    ensures -0.5 <= Double(x) - x <= 0.5
    ensures -0.5 < x - n as real < 0.5 ==> Double(x) == n as real
    ensures n as real <= x ==> n as real <= Double(x)
    ensures x <= n as real ==> Double(x) <= n as real
  {
    Whole(x);
    NearestIs(x, n);
    hide Double, Nearest;
  }

  /** Scaling by a power of two does not change the rounding. */
  lemma {:induction false} DoubleIs(x: real, k: nat, n: int)
    requires x >= 0.0 && HALF <= x * Power2(k) < LIMIT
    requires -0.5 < x * Power2(k) - n as real < 0.5
    ensures Double(x) * Power2(k) == n as real
    decreases k
  {
    hide Double;
    if k == 0 {
      InRange(x, n);
    } else {
      Shifted(x, k);
      Halved(x);
      DoubleIs(2.0 * x, k - 1, n);
      HalfError(Double(2.0 * x), 0.0, Power2(k - 1));
    }
  }

  /** x is at most 2^53 / s. */
  predicate Within(x: real, s: real) {
    0.0 <= x && x * s <= LIMIT
  }

  /** y is within half a unit of x, a unit being 1 / s. */
  predicate Rounded(x: real, y: real, s: real) {
    -0.5 <= (y - x) * s <= 0.5
  }

  /** Up to 2^(53 - k) the rounding error is at most 2^-(k + 1). */
  lemma {:induction false} RoundingError(x: real, k: nat)
    requires Within(x, Power2(k))
    ensures Rounded(x, Double(x), Power2(k))
    decreases k, Distance(x)
  {
    AtLimit();
    hide Double, Distance;
    if k > 0 {
      Shifted(x, k);
      RoundingError(2.0 * x, k - 1);
      if x < HALF {
        Halved(x);
        HalfError(Double(2.0 * x), x, Power2(k - 1));
      }
    } else if x == 0.0 {
      Halved(x);
    } else if x < HALF {
      ScaleUp(x);
      Halved(x);
      RoundingError(2.0 * x, 0);
    } else if x < LIMIT {
      InRange(x, 0);
    }
  }

  /** Rounding does not cross an integer. */
  lemma {:induction false} KeepsOrder(x: real, n: int)
    requires 0.0 <= x < LIMIT && n >= 0
    ensures n as real <= x ==> n as real <= Double(x)
    ensures x <= n as real ==> Double(x) <= n as real
    decreases Distance(x)
  {
    hide Double, Distance;
    if x == 0.0 {
      Halved(x);
    } else if x < HALF {
      ScaleUp(x);
      Halved(x);
      KeepsOrder(2.0 * x, 2 * n);
    } else {
      InRange(x, n);
    }
  }
}
