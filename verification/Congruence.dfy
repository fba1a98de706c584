/** Congruences, and the cancellation of powers of two that Montgomery reduction rests on. */
module Congruence {
  import opened JsInt

  ghost predicate Cong(a: int, b: int, m: int) {
    m > 0 && (a - b) % m == 0
  }

  lemma CongIntro(a: int, b: int, m: int, k: int)
    requires m > 0 && a - b == k * m
    ensures Cong(a, b, m)
  {
    DivModUnique(a - b, m, k, 0);
  }

  lemma CongElim(a: int, b: int, m: int) returns (k: int)
    requires Cong(a, b, m)
    ensures a - b == k * m
  {
    k := (a - b) / m;
    DivMod(a - b, m);
  }

  lemma CongRefl(a: int, m: int)
    requires m > 0
    ensures Cong(a, a, m)
  {
    CongIntro(a, a, m, 0);
  }

  lemma CongTrans(a: int, b: int, c: int, m: int)
    requires Cong(a, b, m) && Cong(b, c, m)
    ensures Cong(a, c, m)
  {
    var k := CongElim(a, b, m);
    var l := CongElim(b, c, m);
    assert (k + l) * m == k * m + l * m;
    CongIntro(a, c, m, k + l);
  }

  lemma CongMul(a: int, b: int, c: int, d: int, m: int)
    requires Cong(a, b, m) && Cong(c, d, m)
    ensures Cong(a * c, b * d, m)
  {
    var k := CongElim(a, b, m);
    var l := CongElim(c, d, m);
    hide Cong;
    CongMulAlgebra(a, b, c, d, k, l, m);
    CongIntro(a * c, b * d, m, k * c + b * l);
  }

  lemma CongMulAlgebra(a: int, b: int, c: int, d: int, k: int, l: int, m: int)
    requires a - b == k * m && c - d == l * m
    ensures a * c - b * d == (k * c + b * l) * m
  {
    assert a * c - b * d == (a - b) * c + b * (c - d);
    assert (k * m) * c == (k * c) * m && b * (l * m) == (b * l) * m;
  }

  lemma CongMod(a: int, m: int)
    requires m > 0
    ensures Cong(a % m, a, m)
  {
    DivMod(a, m);
    assert (-(a / m)) * m == -((a / m) * m);
    CongIntro(a % m, a, m, -(a / m));
  }

  /** Congruent numbers in range are equal; so a reduced number is the remainder. */
  lemma CongIsMod(a: int, b: int, m: int)
    requires Cong(a, b, m) && 0 <= a < m
    ensures a == b % m
  {
    var k := CongElim(a, b, m);
    DivMod(b, m);
    assert b == (b / m) * m + b % m;
    assert a == (k + b / m) * m + b % m by {
      assert (k + b / m) * m == k * m + (b / m) * m;
    }
    QuotientUnique(0, a, k + b / m, b % m, m);
  }

  lemma OddProduct(k: int, m: int)
    requires k % 2 == 1 && m % 2 == 1
    ensures (k * m) % 2 == 1
  {
    var i, j := k / 2, m / 2;
    assert k * m == (2 * i + 1) * (2 * j + 1);
    assert (2 * i + 1) * (2 * j + 1) == 2 * (2 * (i * j) + i + j) + 1;
  }

  /** Two is a unit modulo an odd number. */
  lemma CancelTwo(a: int, b: int, m: int)
    requires m % 2 == 1 && Cong(2 * a, 2 * b, m)
    ensures Cong(a, b, m)
  {
    var k := CongElim(2 * a, 2 * b, m);
    if k % 2 == 1 {
      OddProduct(k, m);
    }
    assert k == 2 * (k / 2);
    assert k * m == 2 * ((k / 2) * m);
    CongIntro(a, b, m, k / 2);
  }

  lemma {:induction false} CancelPower(a: int, b: int, n: nat, m: int)
    requires m % 2 == 1 && Cong(a * Pow2(n), b * Pow2(n), m)
    ensures Cong(a, b, m)
  {
    if n > 0 {
      assert Pow2(n) == 2 * Pow2(n - 1);
      hide Cong, Pow2;
      Doubled(a, Pow2(n - 1));
      Doubled(b, Pow2(n - 1));
      CancelTwo(a * Pow2(n - 1), b * Pow2(n - 1), m);
      CancelPower(a, b, n - 1, m);
    }
  }

  lemma Doubled(a: int, p: int)
    ensures a * (2 * p) == 2 * (a * p)
  {
  }

  function Power(x: int, n: nat): int {
    if n == 0 then 1 else x * Power(x, n - 1)
  }

  lemma {:induction false} PowerAdd(x: int, m: nat, n: nat)
    ensures Power(x, m + n) == Power(x, m) * Power(x, n)
  {
    if m > 0 {
      PowerAdd(x, m - 1, n);
      assert x * (Power(x, m - 1) * Power(x, n)) == (x * Power(x, m - 1)) * Power(x, n);
    }
  }
}
