/** The rounds of divRemTo as divisions of numbers: the estimate of a round is a legal multiplier and at most one
    below the true digit, and exactly when it is not below the round ends with the true digit.

    It never is with digits of 28 or 30 bits.  With 26 bits it can be, and an input for which it is stands at the
    end.
 */
module Rounds {
  import opened JsInt
  import opened Digits
  import opened Kernels
  import opened DigitLemmas
  import opened Division
  import opened Doubles
  import opened Estimates

  // ---------------------------------------------------------------- the divisor's leading digits

  /** u and u2 are the two leading digits of o, which has l digits and its top bit set. */
  ghost predicate Leading(o: int, l: nat, u: int, u2: int) {
    && l > 0 && 0 <= u2 < DV && 2 * u >= DV && u < DV
    && u * Weight(l - 1) <= o < (u + 1) * Weight(l - 1)
    && (l == 1 ==> u2 == 0)
    && (l > 1 ==> (u * DV + u2) * Weight(l - 2) <= o < (u * DV + u2 + 1) * Weight(l - 2))
  }

  /** The leading 52 bits, from the two leading digits. */
  function HeadOf(u: int, u2: int): int {
    u * Pow2(F1) + u2 / Pow2(F2)
  }

  lemma HeadNormal(u: int, u2: int)
    requires 2 * u >= DV && u < DV && 0 <= u2 < DV
    ensures Normal(HeadOf(u, u2)) && HeadOf(u, u2) > 0
    ensures HeadOf(u, u2) >= u * Pow2(F1)
  {
    PowersOfEstimate();
    DivMod(u2, Pow2(F2));
    hide Pow2;
    var p1, p2, c := Pow2(F1), Pow2(F2), u2 / Pow2(F2);
    Below(c, p1, p2);
    MulUpper(p1, DV, 2 * u);
    MulUpper(p1, u + 1, DV);
    assert p1 * (2 * u) == 2 * (u * p1) && p1 * (u + 1) == u * p1 + p1 && p1 * DV == DV * p1;
  }

  lemma HeadLeads(u: int, u2: int, hi: int)
    requires 2 * u >= DV && u < DV && 0 <= u2 < DV && 0 <= hi < u
    ensures Leads(hi, HeadOf(u, u2))
  {
    PowersOfEstimate();
    HeadNormal(u, u2);
    hide Pow2, HeadOf;
    var p1, h := Pow2(F1), HeadOf(u, u2);
    LeadsAlgebra(hi, u, p1, h, DV);
  }

  lemma LeadsAlgebra(hi: int, u: int, p1: int, h: int, b: int)
    requires 0 <= hi <= u - 1 && u <= b && p1 > 0 && h >= u * p1 && b > 1
    ensures hi * (b * p1) <= (b - 1) * h
  {
    var g, m := b * p1, u * p1;
    MulUpper(g, hi, u - 1);
    assert g * (u - 1) == b * m - g;
    MulUpper(p1, u, b);
    MulUpper(b - 1, m, h);
    assert (b - 1) * m == b * m - m;
  }

  // ---------------------------------------------------------------- the true digit and the numerator

  /** How far the numerator is at least above the true digit times h. */
  function Slack(l: nat): int {
    if l == 1 then DV else DV - Pow2(F1)
  }

  /** The true digit q leaves room: q * h is below the numerator by the slack. */
  lemma EstimateAbove(q: int, o: int, l: nat, u: int, u2: int, hi: int, lo: int, rest: int)
    requires Leading(o, l, u, u2) && q >= 0
    requires 0 <= lo && 0 <= hi && 0 <= rest < Weight(l - 1)
    requires q * o <= (hi * DV + lo) * Weight(l - 1) + rest
    ensures q * HeadOf(u, u2) + Slack(l) <= Numerator(hi, lo)
  {
    PowersOfEstimate();
    DivMod(u2, Pow2(F2));
    hide Pow2;
    if l == 1 {
      WeightZero();
      assert u2 / Pow2(F2) == 0;
      hide Weight, Leading;
      EstimateShort(q, u, o, Pow2(F1), Pow2(F2), DV, hi, lo);
    } else {
      WeightNext(l - 2);
      hide Weight;
      RestOf(hi * DV + lo, Weight(l - 1), rest);
      EstimateLong(q, o, u * DV + u2, u2 / Pow2(F2), u, Pow2(F1), Pow2(F2), DV, hi, lo, Weight(l - 2));
    }
  }

  lemma RestOf(x: int, w: int, rest: int)
    requires rest < w
    ensures x * w + rest < (x + 1) * w
  {
  }

  lemma EstimateShort(q: int, u: int, o: int, p1: int, p2: int, b: int, hi: int, lo: int)
    requires q * o <= hi * b + lo && p1 > 0 && p1 * p2 == b && o == u
    ensures q * (u * p1) + b <= hi * (b * p1) + (lo + p2) * p1
  {
    MulUpper(p1, 0, hi * b + lo - q * u);
    assert p1 * (hi * b + lo - q * u) == hi * (b * p1) + lo * p1 - q * (u * p1);
    assert (lo + p2) * p1 == lo * p1 + p1 * p2;
  }

  lemma EstimateLong(q: int, o: int, lead: int, c: int, u: int, p1: int, p2: int, b: int, hi: int, lo: int, w: int)
    requires p1 > 0 && p2 > 0 && w > 0 && p1 * p2 == b && q >= 0
    requires c * p2 + u * b <= lead && lead * w <= o
    requires q * o < (hi * b + lo + 1) * (b * w)
    ensures q * (u * p1 + c) + b - p1 <= hi * (b * p1) + (lo + p2) * p1
  {
    HeadTimes(u, p1, p2, c);
    EstimateTop(q, o, lead, u * p1 + c, p1, p2, w, hi * b + lo + 1);
    LastTerms(hi, lo, b, p1, p2);
  }

  lemma EstimateTop(q: int, o: int, lead: int, h: int, p1: int, p2: int, w: int, top: int)
    requires p2 > 0 && w > 0 && q >= 0 && h * p2 <= lead && lead * w <= o && q * o < top * ((p1 * p2) * w)
    ensures q * h < top * p1
  {
    LeadTimes(q, h * p2, lead, w, o);
    TopTimes(top, p1, p2, w);
    Below(q * (h * p2), (top * p1) * p2, w);
    MulSwap(q, h, p2);
    assert q * (h * p2) == (q * h) * p2;
    Below(q * h, top * p1, p2);
  }

  lemma HeadTimes(u: int, p1: int, p2: int, c: int)
    ensures (u * p1 + c) * p2 == u * (p1 * p2) + c * p2
  {
    assert (u * p1) * p2 == u * (p1 * p2);
  }

  lemma TopTimes(top: int, p1: int, p2: int, w: int)
    ensures top * ((p1 * p2) * w) == ((top * p1) * p2) * w
  {
    assert (top * p1) * p2 == top * (p1 * p2);
  }

  lemma LastTerms(hi: int, lo: int, b: int, p1: int, p2: int)
    ensures (hi * b + lo + 1) * p1 == hi * (b * p1) + lo * p1 + p1
    ensures (lo + p2) * p1 == lo * p1 + p1 * p2
  {
  }

  lemma LeadTimes(q: int, x: int, lead: int, w: int, o: int)
    requires q >= 0 && w > 0 && x <= lead && lead * w <= o
    ensures (q * x) * w <= q * o
  {
    MulUpper(w, 0, lead - x);
    assert w * (lead - x) == lead * w - x * w;
    MulUpper(q, 0, o - x * w);
    assert q * (o - x * w) == q * o - (q * x) * w;
  }

  /** The numerator is hardly above DV * h. */
  lemma EstimateBelow(u: int, u2: int, hi: int, lo: int)
    requires 2 * u >= DV && u < DV && 0 <= u2 < DV && 0 <= hi < u && 0 <= lo < DV
    ensures Tight(HeadOf(u, u2), Numerator(hi, lo))
  {
    PowersOfEstimate();
    HeadNormal(u, u2);
    hide Pow2, HeadOf;
    BelowAlgebra(u, HeadOf(u, u2), Pow2(F1), Pow2(F2), DV, hi, lo);
  }

  lemma BelowAlgebra(u: int, h: int, p1: int, p2: int, b: int, hi: int, lo: int)
    requires p1 > 0 && p2 > 0 && p1 * p2 == b && 0 <= hi <= u - 1 && 0 <= lo <= b - 1 && h >= u * p1
    ensures hi * (b * p1) + (lo + p2) * p1 <= b * h + b
  {
    var g := b * p1;
    MulUpper(g, hi, u - 1);
    assert g * (u - 1) == b * (u * p1) - g;
    MulUpper(p1, lo, b - 1);
    assert p1 * (b - 1) == g - p1 && (lo + p2) * p1 == lo * p1 + p1 * p2;
    MulUpper(b, u * p1, h);
  }

  // ---------------------------------------------------------------- one round

  /** Room enough for every rounding: wide digits, a divisor of one digit, or a numerator not just above a
      multiple of h. */
  predicate Safe(l: nat, hi: int, lo: int, h: int)
    requires h > 0
  {
    DB != 26 || l == 1 || 4 * (Numerator(hi, lo) % h) >= 3 * DV + 8
  }

  lemma SlackIsRoom(q: int, h: int, n: int, l: nat)
    requires q * h + Slack(l) <= n && (DB != 26 || l == 1)
    ensures Room(q, h, n)
  {
    PowersOfEstimate();
    assert DB == 28 ==> Pow2(F1) == 0x100_0000 by {
      if DB == 28 {
        Pow2Add(12, 12);
      }
    }
    assert DB == 30 ==> Pow2(F1) == 0x40_0000 by {
      if DB == 30 {
        Pow2Add(11, 11);
      }
    }
  }

  /** A remainder that is not too small is room for the whole quotient. */
  lemma RemainderIsRoom(q: int, h: int, n: int)
    requires h > 0 && q * h <= n && 4 * (n % h) >= 3 * DV + 8
    ensures Room(n / h, h, n) && q <= n / h
  {
    DivMod(n, h);
    Below(q, n / h + 1, h);
  }

  /** One less than the true digit always has room. */
  lemma OneLessHasRoom(q: int, h: int, n: int)
    requires Normal(h) && q * h <= n
    ensures Room(q - 1, h, n)
  {
    NormalReal(h);
    assert (q - 1) * h == q * h - h;
  }

  lemma EstimateOfDigit(q: nat, l: nat, u: int, u2: int, hi: int, lo: int)
    requires 2 * u >= DV && u < DV && 0 <= u2 < DV && 0 <= hi < u && 0 <= lo < DV
    requires q * HeadOf(u, u2) + Slack(l) <= Numerator(hi, lo)
    ensures HeadOf(u, u2) > 0 && q - 1 <= Estimate(hi, lo, HeadOf(u, u2)) <= DV
    ensures 0 <= Estimate(hi, lo, HeadOf(u, u2))
    ensures Safe(l, hi, lo, HeadOf(u, u2)) ==> q <= Estimate(hi, lo, HeadOf(u, u2))
  {
    var h, n := HeadOf(u, u2), Numerator(hi, lo);
    HeadNormal(u, u2);
    HeadLeads(u, u2, hi);
    EstimateBelow(u, u2, hi, lo);
    assert Slack(l) >= 0 by { PowersOfEstimate(); }
    hide Estimate, Leads, Normal, Tight, HeadOf, Numerator, Room, Pow2;
    EstimateIsMultiplier(hi, lo, h);
    EstimateAtMost(hi, lo, h);
    if q > 0 {
      OneLessHasRoom(q, h, n);
      EstimateAtLeast(hi, lo, h, q - 1);
    }
    if DB != 26 || l == 1 {
      SlackIsRoom(q, h, n, l);
      EstimateAtLeast(hi, lo, h, q);
    } else if 4 * (n % h) >= 3 * DV + 8 {
      RemainderIsRoom(q, h, n);
      EstimateAtLeast(hi, lo, h, n / h);
    }
  }

  // ---------------------------------------------------------------- the rounds of a division, on numbers

  function Length(n: nat): (l: nat)
    ensures n < Weight(l) && (l > 0 ==> Weight(l - 1) <= n)
  {
    if n == 0 then 0
    else
      LengthStep(n, n / DV, Length(n / DV));
      1 + Length(n / DV)
  }

  lemma LengthStep(n: nat, m: nat, l: nat)
    requires n > 0 && m == n / DV && m < Weight(l) && (l > 0 ==> Weight(l - 1) <= m)
    ensures n < Weight(l + 1) && Weight(l) <= n
  {
    DivMod(n, DV);
    WeightNext(l);
    MulUpper(DV, m + 1, Weight(l));
    assert DV * (m + 1) == m * DV + DV;
    if l > 0 {
      WeightNext(l - 1);
      MulUpper(DV, Weight(l - 1), m);
      assert DV * m == m * DV;
    }
  }

  lemma LengthUnique(n: nat, l: nat)
    requires n < Weight(l) && (l > 0 ==> Weight(l - 1) <= n)
    ensures Length(n) == l
  {
    var k := Length(n);
    hide Length;
    if k < l {
      WeightMonotone(k, l - 1);
    } else if l < k {
      WeightMonotone(l, k - 1);
    }
  }

  /** The shift that brings the divisor's top bit to the top of its leading digit. */
  function Gap(w: nat): (c: nat)
    requires w > 0
  {
    TopDigitRange(w, Length(w));
    DB - NBits(w / Weight(Length(w) - 1))
  }

  lemma TopDigitRange(w: nat, l: nat)
    requires w > 0 && w < Weight(l) && (l > 0 ==> Weight(l - 1) <= w)
    ensures l > 0 && 1 <= w / Weight(l - 1) < DV && 0 <= DB - NBits(w / Weight(l - 1)) < DB
  {
    assert l > 0 by {
      if l == 0 {
        WeightZero();
      }
    }
    var top := w / Weight(l - 1);
    DivMod(w, Weight(l - 1));
    WeightNext(l - 1);
    hide Weight, NBits, Pow2;
    Below(top, DV, Weight(l - 1));
    Distribute(top, 1, Weight(l - 1));
    Below(1, top + 1, Weight(l - 1));
    TopGap(top);
  }

  lemma GapIs(w: nat)
    requires w > 0
    ensures var l := Length(w);
            && l > 0 && Gap(w) == DB - NBits(w / Weight(l - 1)) && w < Weight(l) && Weight(l - 1) <= w
            && 1 <= w / Weight(l - 1) < DV
  {
    TopDigitRange(w, Length(w));
    hide NBits, Pow2, Weight;
  }

  lemma GapNormal(w: nat)
    requires w > 0
    ensures var l, c := Length(w), Gap(w);
            0 < w * Pow2(c) < Weight(l) <= 2 * (w * Pow2(c)) && l > 0 && c < DB
  {
    GapIs(w);
    hide Weight, NBits, Pow2, Length, Gap;
    ShiftedTop(w, Length(w), Gap(w));
  }

  lemma ShiftedTop(w: nat, l: nat, c: nat)
    requires w > 0 && l > 0 && 1 <= w / Weight(l - 1) < DV && c == DB - NBits(w / Weight(l - 1))
    ensures 0 < w * Pow2(c) < Weight(l) <= 2 * (w * Pow2(c)) && c < DB
  {
    var top := w / Weight(l - 1);
    DivMod(w, Weight(l - 1));
    hide Weight, NBits, Pow2;
    Distribute(top, 1, Weight(l - 1));
    TopGap(top);
    Normalised(w, l, top, c);
  }

  /** What is left of the dividend n before the round at place j. */
  function Rest(n: nat, o: nat, j: nat): int {
    if o * Weight(j + 1) > 0 then n % (o * Weight(j + 1)) else n
  }

  function Digit(n: int, k: nat): int {
    n / Weight(k) % DV
  }

  /** The head of the normalised divisor o of l digits. */
  function Head(o: int, l: nat): int {
    if l == 0 then 1 else HeadOf(o / Weight(l - 1), if l > 1 then Digit(o, l - 2) else 0)
  }

  /** The estimate of the round at place j is not below the true digit. */
  predicate Reaches(n: nat, o: nat, l: nat, j: nat) {
    l > 0 ==>
      var r, h := Rest(n, o, j), Head(o, l);
      var hi, lo := r / Weight(l + j), Digit(r, l + j - 1);
      hi >= o / Weight(l - 1) || (h > 0 && RoundDigit(o, j, r) <= Estimate(hi, lo, h))
  }

  /** Every estimate down to place k is not below the true digit. */
  predicate RoundsReach(n: nat, o: nat, l: nat, k: nat) {
    forall j :: k <= j < Length(n) - l ==> Reaches(n, o, l, j)
  }

  /** The same for v / w, both shifted so that the divisor's top bit is at the top of its leading digit. */
  predicate SoundFrom(v: nat, w: nat, k: nat)
    requires w > 0
  {
    var c := Gap(w);
    MulNonNegative(v, Pow2(c));
    MulNonNegative(w, Pow2(c));
    RoundsReach(v * Pow2(c), w * Pow2(c), Length(w), k)
  }

  /** Every estimate of v / w is not below the true digit. */
  predicate Sound(v: nat, w: nat)
    requires w > 0
  {
    SoundFrom(v, w, 0)
  }

  // ---------------------------------------------------------------- a round, from digits

  lemma DigitsOf(x: int, w: int, hi: int, lo: int, rest: int)
    requires w > 0 && x == (hi * DV + lo) * w + rest && 0 <= rest < w && 0 <= lo < DV
    ensures x / w == hi * DV + lo && x / w % DV == lo && x / (DV * w) == hi
  {
    DivModUnique(x, w, hi * DV + lo, rest);
    DivModUnique(hi * DV + lo, DV, hi, lo);
    LowPart(rest, lo, w, DV);
    assert x == hi * (DV * w) + (rest + w * lo) by { WindowAlgebra(hi, lo, w, DV); }
    DivModUnique(x, DV * w, hi, rest + w * lo);
  }

  lemma WindowAlgebra(hi: int, lo: int, w: int, b: int)
    ensures (hi * b + lo) * w == lo * w + hi * (b * w)
  {
  }

  /** The head computed from the divisor's digits. */
  lemma HeadIs(o: int, l: nat, u: int, u2: int)
    requires Leading(o, l, u, u2)
    ensures o > 0 && o / Weight(l - 1) == u && Head(o, l) == HeadOf(u, u2)
  {
    var w := Weight(l - 1);
    Distribute(u, 1, w);
    MulUpper(u, 1, w);
    DivModUnique(o, w, u, o - u * w);
    if l > 1 {
      var w2 := Weight(l - 2);
      Distribute(u * DV + u2, 1, w2);
      DivModUnique(o, w2, u * DV + u2, o - (u * DV + u2) * w2);
      DivModUnique(u * DV + u2, DV, u, u2);
    }
  }

  /** The leading digits as divisions give them. */
  lemma LeadingDigits(o: int, l: nat)
    requires l > 0 && 0 < o < Weight(l) <= 2 * o
    ensures Leading(o, l, o / Weight(l - 1), if l > 1 then Digit(o, l - 2) else 0)
  {
    FirstDigitOf(o, l);
    if l > 1 {
      SecondDigit(o, l, o / Weight(l - 1));
    }
  }

  lemma FirstDigitOf(o: int, l: nat)
    requires l > 0 && 0 < o < Weight(l) <= 2 * o
    ensures var u := o / Weight(l - 1);
            2 * u >= DV && 0 <= u < DV && u * Weight(l - 1) <= o < (u + 1) * Weight(l - 1)
  {
    var w := Weight(l - 1);
    var u := o / w;
    DivMod(o, w);
    WeightNext(l - 1);
    hide Weight;
    Distribute(u, 1, w);
    Below(u, DV, w);
    TopAtLeastHalf(o, u, w, DV);
    assert DV % 2 == 0;
  }

  lemma SecondDigit(o: int, l: nat, u: int)
    requires l > 1 && u == o / Weight(l - 1) && o >= 0
    ensures var u2 := Digit(o, l - 2);
            0 <= u2 < DV && (u * DV + u2) * Weight(l - 2) <= o < (u * DV + u2 + 1) * Weight(l - 2)
  {
    var w := Weight(l - 2);
    WeightNext(l - 2);
    DivMod(o, w);
    DivMod(o / w, DV);
    hide Weight;
    var x := o / w;
    DigitsOf(o, w, x / DV, x % DV, o % w);
    Distribute(x, 1, w);
  }

  /** The rest, divided by the weight of place j, is two digits and what is below them. */
  lemma WindowOf(r: int, l: nat, j: nat) returns (rest: int)
    requires l > 0 && r >= 0
    ensures var hi, lo := r / Weight(l + j), Digit(r, l + j - 1);
            && hi >= 0 && 0 <= lo < DV && 0 <= rest < Weight(l - 1)
            && Weight(j) * ((hi * DV + lo) * Weight(l - 1) + rest) <= r
            && r < Weight(j) * ((hi * DV + lo) * Weight(l - 1) + rest + 1)
  {
    var w, a := Weight(j), Weight(l - 1);
    var x := r / Weight(l + j - 1);
    var s := r % Weight(l + j - 1);
    rest := s / w;
    WeightAdd(l - 1, j);
    WeightNext(l + j - 1);
    hide Weight;
    DivMod(r, Weight(l + j - 1));
    DivMod(x, DV);
    DivMod(s, w);
    DigitsOf(r, Weight(l + j - 1), x / DV, x % DV, s);
    Below(rest, a, w);
    WindowSum(x, a, w, rest, s % w);
  }

  lemma WindowSum(x: int, a: int, w: int, rest: int, s: int)
    requires 0 <= s < w
    ensures w * (x * a + rest) <= s + rest * w + x * (a * w) < w * (x * a + rest + 1)
  {
    assert w * (x * a + rest) == x * (a * w) + rest * w;
    assert w * (x * a + rest + 1) == w * (x * a + rest) + w;
  }

  lemma WindowBounds(x: int, r: int, o: int, v: int, w: int, b: int)
    requires w > 0 && o > 0 && w * x <= r < w * (x + 1) && r < o * (b * w) && v * (o * w) <= r
    ensures v * o <= x && x < o * b
  {
    assert v * (o * w) == (v * o) * w && o * (b * w) == (o * b) * w;
    Below(v * o, x + 1, w);
    Below(x, o * b, w);
  }

  lemma TopAtMost(hi: int, lo: int, rest: int, u: int, o: int, w: int, b: int)
    requires 0 <= lo && 0 <= rest && w > 0 && b > 0 && o < (u + 1) * w
    requires (hi * b + lo) * w + rest < o * b
    ensures hi <= u
  {
    MulUpper(b, 0, (u + 1) * w - o);
    assert b * ((u + 1) * w - o) == (u + 1) * (b * w) - o * b;
    WindowAlgebra(hi, lo, w, b);
    MulUpper(lo, 0, w);
    Below(hi, u + 1, b * w);
  }

  /** A round that has gone well so far: the estimate is a legal multiplier, at most one below the true digit,
      and not below it when it is safe. */
  lemma EstimateFits(o: int, l: nat, j: nat, r: int, q: int, u: int, u2: int)
    requires Round(o, l, j, r, q) && Leading(o, l, u, u2)
    ensures var hi, lo, h, v := r / Weight(l + j), Digit(r, l + j - 1), HeadOf(u, u2), RoundDigit(o, j, r);
            && 0 <= hi <= u && 0 <= lo < DV && h > 0 && 0 <= v <= DM
            && (hi < u ==> v - 1 <= Estimate(hi, lo, h) <= DV && 0 <= Estimate(hi, lo, h)
                           && (Safe(l, hi, lo, h) ==> v <= Estimate(hi, lo, h)))
  {
    var hi, lo, v := r / Weight(l + j), Digit(r, l + j - 1), RoundDigit(o, j, r);
    var rest := WindowOf(r, l, j);
    TrueDigit(r, o, Weight(j), DV);
    HeadNormal(u, u2);
    hide Digit, Weight, Estimate, Pow2, HeadOf;
    WindowBounds((hi * DV + lo) * Weight(l - 1) + rest, r, o, v, Weight(j), DV);
    TopAtMost(hi, lo, rest, u, o, Weight(l - 1), DV);
    if hi < u {
      EstimateAbove(v, o, l, u, u2, hi, lo, rest);
      EstimateOfDigit(v, l, u, u2, hi, lo);
    }
  }

  lemma LeadingOf(d: DigitMap, l: nat)
    requires l > 0 && Proper(d, 0, l) && 2 * d[l - 1] >= DV
    ensures Leading(Val(d, 0, l), l, d[l - 1], if l > 1 then d[l - 2] else 0)
  {
    var u, w := d[l - 1], Weight(l - 1);
    ValBound(d, 0, l - 1);
    Distribute(u, 1, w);
    if l > 1 {
      ValBound(d, 0, l - 2);
      LeadingAlgebra(Val(d, 0, l - 2), d[l - 2], u, Weight(l - 2), DV);
    }
  }

  lemma LeadingAlgebra(v: int, x: int, u: int, w: int, b: int)
    requires 0 <= v < w
    ensures (u * b + x) * w <= v + x * w + u * (b * w) < (u * b + x + 1) * w
  {
    assert (u * b + x) * w == u * (b * w) + x * w;
    assert (u * b + x + 1) * w == (u * b + x) * w + w;
  }

  lemma HalfWeight(u: int, w: int, o: int, b: int)
    requires 2 * u >= b && w > 0 && u * w <= o && b > 0
    ensures b * w <= 2 * o && 0 < o
  {
    MulUpper(w, b, 2 * u);
    assert w * (2 * u) == 2 * (u * w);
    MulGe(b, w);
  }

  /** The two digits of the buffer that a round looks at. */
  lemma BufferDigits(d: DigitMap, t: nat, o: int, l: nat, j: nat, r: int, q: int)
    requires Proper(d, 0, t) && l > 0 && l + j < t && Round(o, l, j, r, q)
    requires Val(d, 0, t) == RoundValue(l, j, r, q)
    ensures d[l + j] == r / Weight(l + j) && d[l + j - 1] == Digit(r, l + j - 1)
  {
    var m := l + j;
    TopIsQuotient(d, t, m, r, q, o, l, j);
    hide Val, Weight, Round, RoundValue;
    RestOfBuffer(d, t, m, r, q, l, j);
    TwoDigits(d, m);
    ValBound(d, 0, m - 1);
    WeightNext(m - 1);
    DigitsOf(r, Weight(m - 1), d[m], d[m - 1], Val(d, 0, m - 1));
  }

  lemma TwoDigits(d: DigitMap, m: nat)
    requires m > 0
    ensures Val(d, 0, m + 1) == (At(d, m) * DV + At(d, m - 1)) * Weight(m - 1) + Val(d, 0, m - 1)
  {
    assert Val(d, 0, m + 1) == Val(d, 0, m) + At(d, m) * Weight(m);
    assert Val(d, 0, m) == Val(d, 0, m - 1) + At(d, m - 1) * Weight(m - 1);
    WeightNext(m - 1);
    hide Val, Weight;
    WindowAlgebra(At(d, m), At(d, m - 1), Weight(m - 1), DV);
  }

  lemma RestOfBuffer(d: DigitMap, t: nat, m: nat, r: int, q: int, l: nat, j: nat)
    requires m == l + j < t && Val(d, 0, t) == RoundValue(l, j, r, q) && Val(d, m + 1, t - m - 1) == q
    ensures r == Val(d, 0, m + 1)
  {
    hide Val, Weight;
    ValSplit(d, 0, m + 1, t - m - 1);
    WeightNext(m);
    SameRest(r, Val(d, 0, m + 1), Weight(m + 1), q);
  }

  lemma SameRest(r: int, v: int, w: int, q: int)
    requires r + q * w == v + w * q
    ensures r == v
  {
  }

  /** What is left in a run that has gone well is what the dividend leaves. */
  lemma DividedRest(n: nat, o: nat, l: nat, j: nat, x: int, r: int, q: int)
    requires Divided(n, o, l, j + 1, x, r, q)
    ensures r == Rest(n, o, j)
  {
    var m := o * Weight(j + 1);
    MulGeOne(Weight(j + 1), o);
    assert Weight(j + 1) * o == m;
    hide Weight;
    DivModUnique(n, m, q, r);
  }

  /** The round reaches its digit exactly when what it computes is not below it. */
  lemma ReachesIs(d: DigitMap, t: nat, n: nat, o: nat, l: nat, j: nat, x: int, r: int, q: int, u: int, u2: int)
    requires Proper(d, 0, t) && l + j < t && Val(d, 0, t) == x
    requires Divided(n, o, l, j + 1, x, r, q) && Leading(o, l, u, u2)
    ensures Round(o, l, j, r, q) && x == RoundValue(l, j, r, q) && 0 <= RoundDigit(o, j, r) <= DM
    ensures HeadOf(u, u2) > 0
    ensures var e := if d[l + j] == u then DM else Estimate(d[l + j], d[l + j - 1], HeadOf(u, u2));
            && 0 <= e && RoundDigit(o, j, r) - 1 <= e <= DV
            && (Reaches(n, o, l, j) <==> RoundDigit(o, j, r) <= e)
            && (DB != 26 ==> RoundDigit(o, j, r) <= e)
  {
    DividedIsRound(n, o, l, j, x, r, q);
    BufferDigits(d, t, o, l, j, r, q);
    DividedRest(n, o, l, j, x, r, q);
    HeadIs(o, l, u, u2);
    EstimateFits(o, l, j, r, q, u, u2);
    assert DB != 26 ==> Safe(l, d[l + j], d[l + j - 1], HeadOf(u, u2));
    hide Val, Weight, Round, RoundDigit, RoundValue, Divided, Rest, Digit, Head, HeadOf, Estimate, Safe;
  }

  // ---------------------------------------------------------------- a round that misses its digit

  /** After a round with one less than the true digit the low digits hold the divisor too much, or that less what
      does not fit them. */
  ghost predicate Fell(low: int, r: int, o: int, l: nat, j: nat) {
    var rest := r - (RoundDigit(o, j, r) - 1) * (o * Weight(j));
    low == rest || low == rest - Weight(l + j)
  }

  /** The same after the last round of n / o. */
  ghost predicate Fallen(low: int, n: int, o: int, l: nat) {
    o > 0 && (low == n % o + o || low == n % o + o - Weight(l))
  }

  lemma CorrectedIs(o: int, l: nat, j: nat, r: int, q: int, v: int)
    ensures Corrected(o, l, j, r, q, v) == RoundValue(l, j, r, q) + (v * (Weight(l) - o)) * Weight(j)
  {
  }

  /** What the kernel leaves alone stays as wide as it was. */
  lemma WideRange(e: DigitMap, d: DigitMap, lo: nat, mid: nat, hi: nat)
    requires lo <= mid < hi && Proper(e, lo, mid) && Outside(e, d, lo, mid)
    requires Proper(d, 0, mid + 1) && Wide(d, mid + 1, hi)
    ensures Proper(e, 0, mid + 1) && Wide(e, mid + 1, hi) && Same(d, e, 0, lo) && Same(d, e, mid, hi)
  {
    forall k | 0 <= k < hi
      ensures k in e && 0 <= e[k] < (if k <= mid then DV else WIDE)
      ensures k < lo || mid <= k ==> At(d, k) == At(e, k)
    {
      assert k in d && At(d, k) == d[k];
      if k < lo || mid <= k {
        assert At(e, k) == At(d, k);
      } else {
        assert k in e && At(e, k) == e[k];
      }
    }
  }

  /** The carry on top of a proper digit makes a wide one. */
  lemma AddedWide(d: DigitMap, e: DigitMap, f: DigitMap, j: nat, m: nat, t: nat, carry: int)
    requires DB == 26 && j <= m < t && 0 <= carry < MULTIPLIERS
    requires Proper(d, 0, m + 1) && Wide(d, m + 1, t) && Proper(e, j, m) && Outside(e, d, j, m)
    requires f == e[m := At(e, m) + carry]
    ensures Proper(f, 0, m) && Wide(f, m, t) && Same(d, f, m + 1, t)
  {
    WideRange(e, d, j, m, t);
    ProperDigit(e, 0, m + 1, m);
    forall k | 0 <= k < t && k != m
      ensures k in f && At(f, k) == At(e, k) && k in e && 0 <= e[k] < WIDE && (k < m ==> e[k] < DV)
      ensures k > m ==> At(f, k) == At(d, k)
    {
      assert k in e && At(e, k) == e[k];
      assert k > m ==> At(e, k) == At(d, k);
    }
  }

  lemma GainNotNegative(v: int, gain: int, w: int)
    requires v >= 0 && gain >= 0 && w >= 0
    ensures (v * gain) * w >= 0
  {
    MulNonNegative(v, gain);
    MulNonNegative(v * gain, w);
  }

  /** The digit in place l + j is then not below the estimate. */
  lemma MissedDigit(d: DigitMap, f: DigitMap, t: nat, o: int, l: nat, j: nat, r: int, q: int, v: int)
    requires Proper(d, 0, t) && l + j < t && Round(o, l, j, r, q) && Val(d, 0, t) == RoundValue(l, j, r, q)
    requires v == RoundDigit(o, j, r) - 1 && Proper(f, 0, l + j) && Same(d, f, l + j + 1, t)
    requires Val(f, 0, t) == Corrected(o, l, j, r, q, v)
    ensures v <= At(f, l + j) && Fell(Val(f, 0, l + j), r, o, l, j)
  {
    var m, w := l + j, Weight(j);
    hide Val, Weight, Round, RoundValue, Corrected, RoundDigit;
    TopIsQuotient(d, t, m, r, q, o, l, j);
    ValFrame(d, f, m + 1, t - m - 1);
    ReadDigit(f, t, m);
    ValBound(f, 0, m);
    MissedRest(o, l, j, r, q, v);
    MissedAlgebra(Val(f, 0, m), At(f, m), q, r - v * (o * w), v, Weight(m), DV);
  }

  lemma MissedRest(o: int, l: nat, j: nat, r: int, q: int, v: int)
    requires Round(o, l, j, r, q) && v == RoundDigit(o, j, r) - 1
    ensures var rest := r - v * (o * Weight(j));
            && 0 <= rest < 2 * Weight(l + j)
            && Corrected(o, l, j, r, q, v) == rest + v * Weight(l + j) + q * (DV * Weight(l + j))
  {
    var w, m := Weight(j), Weight(l + j);
    WeightAdd(l, j);
    hide Weight;
    MulUpper(o, 1, w);
    SmallerProduct(o, Weight(l), w);
    DivMod(r, o * w);
    var p := o * w;
    MissedSize(r, r / p, r % p, p, m);
    MidValue(RoundValue(l, j, r, q), r, q, v, o, Weight(l), w, m, DV);
  }

  lemma MissedSize(r: int, v: int, s: int, p: int, m: int)
    requires r == s + v * p && 0 <= s < p < m
    ensures 0 <= r - (v - 1) * p < 2 * m
  {
    assert (v - 1) * p == v * p - p;
  }

  lemma MissedAlgebra(low: int, x: int, q: int, rest: int, v: int, w: int, b: int)
    requires low + w * (x + b * q) == rest + v * w + q * (b * w) && 0 <= low < w && 0 <= rest < 2 * w
    ensures v <= x && (low == rest || low == rest - w)
  {
    assert w * (x + b * q) == x * w + q * (b * w);
    Distribute(x, v, w);
    Distribute(x - v, 1, w);
    Below(-1, x - v, w);
    Below(x - v, 2, w);
  }

  /** With the true digit the low digits are what the round leaves. */
  lemma ReachedRest(d: DigitMap, t: nat, o: int, l: nat, j: nat, r: int, q: int)
    requires Proper(d, 0, t) && l + j < t && Round(o, l, j, r, q)
    requires Val(d, 0, t) == Corrected(o, l, j, r, q, RoundDigit(o, j, r))
    ensures Val(d, 0, l + j) == r - RoundDigit(o, j, r) * (o * Weight(j))
  {
    hide Val, Weight, Round, RoundDigit, RoundValue, Corrected;
    var m, v := l + j, RoundDigit(o, j, r);
    CorrectedSplits(o, l, j, r, q, v);
    ReadDigit(d, t, m);
    ValBound(d, 0, m);
    DigitExact(Val(d, 0, m), d[m], Val(d, m + 1, t - m - 1), r - v * (o * Weight(j)), v, q, Weight(m), DV);
  }

  /** With one less they are not. */
  lemma FellIsWrong(low: int, r: int, o: int, l: nat, j: nat, q: int)
    requires Round(o, l, j, r, q) && Fell(low, r, o, l, j)
    ensures low != r - RoundDigit(o, j, r) * (o * Weight(j))
  {
    var w, v := Weight(j), RoundDigit(o, j, r);
    WeightAdd(l, j);
    assert 0 < o < Weight(l);
    hide Weight, RoundDigit, Round;
    SmallerProduct(o, Weight(l), w);
    MulUpper(w, 1, o);
    assert (v - 1) * (o * w) == v * (o * w) - o * w;
  }

  lemma LastFell(n: int, o: int, l: nat, x: int, r: int, q: int, low: int)
    requires Divided(n, o, l, 1, x, r, q) && Fell(low, r, o, l, 0)
    ensures Fallen(low, n, o, l)
  {
    WeightZero();
    var v := RoundDigit(o, 0, r);
    DivMod(r, o);
    LastAlgebra(n, o, r, q, v, DV);
    DivModUnique(n, o, v + q * DV, r % o);
  }

  lemma LastAlgebra(n: int, o: int, r: int, q: int, v: int, b: int)
    requires n == r + q * (o * b)
    ensures n == (v + q * b) * o + (r - v * o) && r - (v - 1) * (o * 1) == r - v * o + o
  {
  }

  // ---------------------------------------------------------------- scaling back

  ghost function ShiftedUp(v: int, c: nat): int {
    v * Pow2(c)
  }

  lemma ShiftedZero(c: nat)
    ensures ShiftedUp(0, c) == 0
  {
  }

  lemma SoundIs(v: nat, w: nat, c: nat)
    requires w > 0 && c == Gap(w)
    ensures 0 < w * Pow2(c) < Weight(Length(w)) && v * Pow2(c) >= 0
    ensures Sound(v, w) <==> RoundsReach(v * Pow2(c), w * Pow2(c), Length(w), 0)
    ensures SoundFrom(v, w, 1) <==> RoundsReach(v * Pow2(c), w * Pow2(c), Length(w), 1)
  {
    GapNormal(w);
    MulNonNegative(v, Pow2(c));
  }

  lemma GapOfTop(v: nat, l: nat, top: int)
    requires v > 0 && l > 0 && l == Length(v) && top * Weight(l - 1) <= v < (top + 1) * Weight(l - 1)
    ensures Gap(v) == DB - NBits(top)
  {
    Distribute(top, 1, Weight(l - 1));
    DivModUnique(v, Weight(l - 1), top, v - top * Weight(l - 1));
  }

  /** The divisor too much is still there after scaling back. */
  lemma ScaledBack(low: int, v: int, w: int, p: int, wl: int)
    requires p > 0 && w > 0 && 0 < w * p < wl && 0 <= low < wl
    requires v >= 0
    ensures 0 <= low / p < wl
    ensures low == (v % w) * p ==> low / p == v % w
    ensures low == (v % w) * p + w * p || low == (v % w) * p + w * p - wl ==> low / p != v % w
  {
    var x := low / p;
    DivMod(low, p);
    MulGeOne(p, x);
    MulSwap(x, p, 1);
    if low == (v % w) * p {
      DivModUnique(low, p, v % w, 0);
    }
    MulUpper(p, 1, w);
  }

  // ---------------------------------------------------------------- when every estimate is good

  /** A round on numbers. */
  lemma RestIsRound(n: nat, o: nat, l: nat, j: nat)
    requires 0 < o < Weight(l)
    ensures Round(o, l, j, Rest(n, o, j), 0)
  {
    WeightNext(j);
    hide Weight;
    MulUpper(o, 1, Weight(j + 1));
    DivMod(n, o * Weight(j + 1));
  }

  /** A round that is safe reaches its digit. */
  lemma SafeReaches(n: nat, o: nat, l: nat, j: nat)
    requires l > 0 && 0 < o < Weight(l) <= 2 * o
    requires Head(o, l) > 0 ==> Safe(l, Rest(n, o, j) / Weight(l + j), Digit(Rest(n, o, j), l + j - 1), Head(o, l))
    ensures Reaches(n, o, l, j)
  {
    var u, u2 := o / Weight(l - 1), if l > 1 then Digit(o, l - 2) else 0;
    LeadingDigits(o, l);
    HeadIs(o, l, u, u2);
    RestIsRound(n, o, l, j);
    hide Leading, Round, RoundDigit, Estimate, HeadOf, Head, Rest, Digit, Safe, Weight;
    EstimateFits(o, l, j, Rest(n, o, j), 0, u, u2);
  }

  /** A dividend shorter than the divisor takes no round. */
  lemma ShortIsSound(v: nat, w: nat)
    requires w > 0 && Length(v) < Length(w)
    ensures Sound(v, w) && SoundFrom(v, w, 1)
  {
    var l, c := Length(w), Gap(w);
    GapNormal(w);
    MulNonNegative(v, Pow2(c));
    assert v < Weight(Length(v));
    WeightMonotone(Length(v), l - 1);
    hide Reaches, Gap, Pow2, Weight, Length;
    ShortShifted(v, l, c);
  }

  lemma ShortShifted(v: nat, l: nat, c: nat)
    requires l > 0 && v < Weight(l - 1) && c < DB && v * Pow2(c) >= 0
    ensures Length(v * Pow2(c)) <= l
  {
    var n := v * Pow2(c);
    BaseIsPower();
    Pow2Monotone(c, DB);
    WeightNext(l - 1);
    ShiftBelow(v, Weight(l - 1), Pow2(c), DV);
    assert Length(n) > 0 ==> Weight(Length(n) - 1) <= n;
    hide Weight, Pow2, Length;
    if Length(n) > l {
      WeightMonotone(l, Length(n) - 1);
    }
  }

  lemma ShiftBelow(v: int, w: int, p: int, b: int)
    requires 0 <= v < w && 0 < p <= b
    ensures v * p < b * w
  {
    SmallerProduct(v, w, p);
    MulUpper(w, p, b);
  }

  /** Digits of 28 or 30 bits, or a divisor of one digit: every estimate is good. */
  lemma AlwaysSound(v: nat, w: nat)
    requires w > 0 && (DB != 26 || Length(w) == 1)
    ensures Sound(v, w)
  {
    var l, c := Length(w), Gap(w);
    var n, o := v * Pow2(c), w * Pow2(c);
    MulNonNegative(v, Pow2(c));
    GapNormal(w);
    hide Length, Gap, Reaches, Weight, Pow2;
    forall j: nat | j < Length(n) - l
      ensures Reaches(n, o, l, j)
    {
      SafeReaches(n, o, l, j);
    }
  }

  // ---------------------------------------------------------------- an estimate that is one too low

  const LOW_DIVIDEND: nat := 166605819569912260284374
  const LOW_DIVISOR: nat := 2482631308465244

  lemma LowPowers()
    ensures Power2(27) == 134217728.0 && Power2(53) == 9007199254740992.0
    ensures Power2(52) == 4503599627370496.0 && Power2(78) == 302231454903657293676544.0
  {
    Pow2Values();
    assert Pow2(27) == 2 * Pow2(26);
    BigPowers();
    Pow2Add(52, 26);
    PowersAgree(27);
    PowersAgree(52);
    PowersAgree(53);
    PowersAgree(78);
    hide Pow2, Power2;
  }

  /** Both ratios round down by a quarter of a unit. */
  lemma LowRatios()
    ensures Quotient(FV, LOW_DIVISOR) == 8169722799552625.0 / 4503599627370496.0
    ensures Quotient(0x400_0000, LOW_DIVISOR) == 8169722799552625.0 / 302231454903657293676544.0
  {
    LowPowers();
    hide Double, Power2;
    DoubleIs(FV as real / LOW_DIVISOR as real, 52, 8169722799552625);
    DoubleIs(67108864.0 / LOW_DIVISOR as real, 78, 8169722799552625);
  }

  lemma LowProducts()
    ensures Double(36993923.0 * (8169722799552625.0 / 4503599627370496.0)) == 9007158761560745.0 / 134217728.0
    ensures Double(25810889.0 * (8169722799552625.0 / 302231454903657293676544.0))
            == 6284350405336084.0 / 9007199254740992.0
    ensures Double(9007158761560745.0 / 134217728.0 + 6284350405336084.0 / 9007199254740992.0)
            == 9007158855204863.0 / 134217728.0
  {
    LowPowers();
    hide Double, Power2;
    DoubleIs(36993923.0 * (8169722799552625.0 / 4503599627370496.0), 27, 9007158761560745);
    DoubleIs(25810889.0 * (8169722799552625.0 / 302231454903657293676544.0), 53, 6284350405336084);
    DoubleIs(9007158761560745.0 / 134217728.0 + 6284350405336084.0 / 9007199254740992.0, 27, 9007158855204863);
  }

  /** 67108563.00000000033 comes out as 67108562.99999999. */
  lemma LowEstimate()
    requires DB == 26
    ensures Estimate(36993923, 25810888, LOW_DIVISOR) == 67108562
  {
    Pow2Values();
    Pow2Zero();
    LowRatios();
    LowProducts();
    hide Double, Quotient, Pow2;
    assert First(36993923, LOW_DIVISOR) == 9007158761560745.0 / 134217728.0;
    assert Second(25810888, LOW_DIVISOR) == 6284350405336084.0 / 9007199254740992.0;
  }

  lemma LowWeights()
    requires DB == 26
    ensures Weight(1) == 0x400_0000 && Weight(2) == 0x10_0000_0000_0000 && Weight(3) == 302231454903657293676544
    ensures Weight(0) == 1
  {
  }

  lemma LowLengths()
    requires DB == 26
    ensures Length(LOW_DIVIDEND) == 3 && Length(LOW_DIVISOR) == 2 && Gap(LOW_DIVISOR) == 0
  {
    LowWeights();
    LengthUnique(LOW_DIVIDEND, 3);
    LengthUnique(LOW_DIVISOR, 2);
    var top := LOW_DIVISOR / Weight(1);
    assert top == 36994089;
    NBitsSpec(top);
    Pow2Values();
    assert Pow2(26) == 2 * Pow2(25);
    if NBits(top) < 26 {
      Pow2Monotone(NBits(top), 25);
    } else if NBits(top) > 26 {
      Pow2Monotone(26, NBits(top) - 1);
    }
  }

  lemma LowDigits()
    requires DB == 26
    ensures Head(LOW_DIVISOR, 2) == LOW_DIVISOR && LOW_DIVISOR / Weight(1) == 36994089
    ensures Rest(LOW_DIVIDEND, LOW_DIVISOR, 0) == LOW_DIVIDEND && RoundDigit(LOW_DIVISOR, 0, LOW_DIVIDEND) == 67108563
    ensures LOW_DIVIDEND / Weight(2) == 36993923 && Digit(LOW_DIVIDEND, 1) == 25810888
  {
    LowWeights();
    Pow2Values();
    Pow2Zero();
  }

  /** With 26-bit digits rounding can take the estimate below the true digit: in the only round of this division. */
  lemma LowIsUnsound()
    requires DB == 26
    ensures !Sound(LOW_DIVIDEND, LOW_DIVISOR) && SoundFrom(LOW_DIVIDEND, LOW_DIVISOR, 1)
  {
    LowLengths();
    LowDigits();
    LowEstimate();
    Pow2Zero();
    hide Length, Gap, Estimate, Rest, Digit, Head, RoundDigit, Weight;
    assert !Reaches(LOW_DIVIDEND, LOW_DIVISOR, 2, 0);
  }
}
