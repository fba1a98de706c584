/** Multi-precision integers: class BigInteger of the asset, digit by digit.

    A number is its digits d[0..t) in base DV and a sign word s, 0 or -1, that stands for
    s * DV^t, so negative numbers are in base-DV two's complement.  Every method writes the
    digits where the original writes them.
 */
module BigIntegers {
  import opened JsInt
  import opened Digits
  import opened Kernels
  import opened DigitLemmas
  import opened Division
  import opened Doubles
  import opened Estimates
  import opened Rounds

  class BigInteger {
    var d: DigitMap
    var t: nat
    var s: int

    /** Proper digits and a sign word. */
    ghost predicate Formed()
      reads this
    {
      Proper(d, 0, t) && (s == 0 || s == -1)
    }

    /** No leading digit repeats the sign. */
    ghost predicate Valid()
      reads this
    {
      Formed() && (t > 0 ==> d[t - 1] != Fill(s))
    }

    /** Proper digits below n and a sign word; the digits from n on may be wide. */
    ghost predicate Loose(n: nat)
      reads this
    {
      Proper(d, 0, n) && Wide(d, n, t) && (s == 0 || s == -1)
    }

    lemma LooseOf(n: nat)
      requires Formed() && n <= t
      ensures Loose(n)
    {
      ProperPart(d, 0, t, 0, n);
      ProperPart(d, 0, t, n, t);
      ProperIsWide(d, n, t);
    }

    ghost function Value(): int
      reads this
    {
      Num(d, t, s)
    }

    constructor ()
      ensures d == map[] && t == 0 && s == 0
    {
      d, t, s := map[], 0, 0;
    }

    // -------------------------------------------------------------- copying and normalising

    method CopyTo(r: BigInteger)
      requires Formed()
      modifies r
      ensures r.Formed() && r.t == old(t) && r.s == old(s) && r.Value() == old(Value())
      ensures Same(r.d, old(d), 0, old(t)) && (old(Valid()) ==> r.Valid())
    {
      ghost var d0 := d;
      var i := t;
      while i > 0
        invariant 0 <= i <= t
        invariant t == old(t) && s == old(s)
        invariant r == this ==> Same(r.d, d0, 0, t)
        invariant r != this ==> d == d0
        invariant Proper(d, 0, t) && Same(d, d0, 0, t)
        invariant Same(r.d, d0, i, t) && Proper(r.d, i, t)
      {
        i := i - 1;
        r.d := r.d[i := d[i]];
      }
      r.t, r.s := t, s;
      ValFrame(r.d, d0, 0, t);
    }

    method FromInt(x: int)
      requires -DV <= x < DV
      modifies this
      ensures Valid() && Value() == x
      ensures s == if x < 0 then -1 else 0
    {
      t := 1;
      s := if 0 > x then -1 else 0;
      if x > 0 {
        d := d[0 := x];
      } else if -1 > x {
        d := d[0 := x + DV];
      } else {
        t := 0;
      }
      assert Weight(1) == DV && Weight(0) == 1;
      assert t == 1 ==> Val(d, 0, 1) == At(d, 0) * Weight(0);
    }

    method Clamp()
      requires Formed()
      modifies this`t
      ensures Valid() && Value() == old(Value()) && t <= old(t)
      ensures forall k :: t <= k < old(t) ==> d[k] == Fill(s)
    {
      var c := if s == 0 then 0 else DM;
      while t > 0 && d[t - 1] == c
        invariant Formed() && t <= old(t) && Value() == old(Value())
        invariant forall k :: t <= k < old(t) ==> d[k] == Fill(s)
      {
        DropFill(d, t, s);
        ProperPart(d, 0, t, 0, t - 1);
        t := t - 1;
      }
    }

    // -------------------------------------------------------------- comparison and subtraction

    /** The sign of this - a, except for two negative numbers of different lengths: there the
        longer, hence smaller, number is reported as the greater one. */
    method CompareTo(a: BigInteger) returns (r: int)
      requires Formed() && a.Formed() && ((Valid() && a.Valid()) || (t == a.t && s == a.s))
      ensures !(s == -1 && a.s == -1 && t != a.t) ==>
                && (r > 0 <==> Value() > a.Value())
                && (r == 0 <==> Value() == a.Value())
      ensures s == -1 && a.s == -1 && t != a.t ==> r != 0 && (r > 0 <==> Value() < a.Value())
    {
      if t != a.t || s != a.s {
        CompareLengths(a);
      }
      r := s - a.s;
      if r != 0 {
        return;
      }
      var n := t;
      r := n - a.t;
      if r != 0 {
        return;
      }
      while n > 0
        invariant 0 <= n <= t && Same(d, a.d, n, t)
      {
        n := n - 1;
        r := d[n] - a.d[n];
        if r != 0 {
          if r > 0 {
            DigitsDecide(d, a.d, n + 1, t);
          } else {
            DigitsDecide(a.d, d, n + 1, t);
          }
          return;
        }
      }
      ValFrame(d, a.d, 0, t);
      r := 0;
    }

    /** -1 has no digits and -2 has one, so -1 is reported as the smaller of the two. */
    static method NegativesOutOfOrder() returns (a: BigInteger, b: BigInteger, r: int)
      ensures a.Value() == -1 && b.Value() == -2 && r < 0
    {
      a := new BigInteger();
      a.FromInt(-1);
      b := new BigInteger();
      b.FromInt(-2);
      a.LengthOfNegative();
      b.LengthOfNegative();
      hide Val, Weight, Num;
      r := a.CompareTo(b);
    }

    lemma LengthOfNegative()
      requires Valid() && s == -1
      ensures Value() == -1 <==> t == 0
    {
      SizeBounds();
      WeightZero();
      if t > 0 {
        WeightMonotone(0, t - 1);
      }
    }

    /** What sign words and lengths alone decide. */
    lemma CompareLengths(a: BigInteger)
      requires Valid() && a.Valid()
      ensures s == 0 ==> Value() >= 0
      ensures a.s == 0 ==> a.Value() >= 0
      ensures s == -1 ==> Value() < 0
      ensures a.s == -1 ==> a.Value() < 0
      ensures s == a.s == 0 && t > a.t ==> Value() > a.Value()
      ensures s == a.s == 0 && t < a.t ==> Value() < a.Value()
      ensures s == a.s == -1 && t > a.t ==> Value() < a.Value()
      ensures s == a.s == -1 && t < a.t ==> Value() > a.Value()
    {
      SizeBounds();
      a.SizeBounds();
      if t > a.t {
        WeightMonotone(a.t, t - 1);
      } else if t < a.t {
        WeightMonotone(t, a.t - 1);
      }
    }

    lemma SizeBounds()
      requires Valid()
      ensures s == 0 ==> 0 <= Value() < Weight(t)
      ensures s == -1 ==> -Weight(t) <= Value() < 0
      ensures s == 0 && t > 0 ==> Weight(t - 1) <= Value()
      ensures s == -1 && t > 0 ==> Value() < -Weight(t - 1)
    {
      ValBound(d, 0, t);
      if t > 0 {
        if s == 0 {
          LengthBounds(d, t);
        } else {
          LengthBoundsNegative(d, t);
        }
      }
    }

    /** r := this - a; r may be this, or a, or both.  The longer number's digits beyond the shorter one may be wide. */
    method SubTo(a: BigInteger, r: BigInteger)
      requires Formed() || (a.t < t && Loose(a.t))
      requires a.Formed() || (t <= a.t && a.Loose(t))
      modifies r
      ensures r.Valid() && r.Value() == old(Value()) - old(a.Value())
      ensures var n := if old(a.t) < old(t) then old(t) else old(a.t);
              0 <= r.Value() < Weight(n) ==> Keeps(r.d, old(r.d), n)
    {
      if a.t < t {
        if Formed() {
          LooseOf(a.t);
        }
        SubShorter(a, r);
      } else {
        if a.Formed() {
          a.LooseOf(t);
        }
        SubLonger(a, r);
      }
    }

    method SubShorter(a: BigInteger, r: BigInteger)
      requires a.t < t && Loose(a.t) && a.Formed()
      modifies r
      ensures r.Valid() && r.Value() == old(Value()) - old(a.Value())
      ensures 0 <= r.Value() < Weight(old(t)) ==> Keeps(r.d, old(r.d), old(t))
    {
      hide Holds, Val, Weight;
      ghost var d0, a0 := d, a.d;
      var i := SubCommon(a, r, a.t);
      if r == this {
        KeepsWide(d, d0, a.t, t);
      }
      SubThisTail(r, a.t, i, a.s, d0, Val(a0, 0, a.t));
    }

    method SubLonger(a: BigInteger, r: BigInteger)
      requires t <= a.t && Formed() && a.Loose(t)
      modifies r
      ensures r.Valid() && r.Value() == old(Value()) - old(a.Value())
      ensures 0 <= r.Value() < Weight(old(a.t)) ==> Keeps(r.d, old(r.d), old(a.t))
    {
      hide Holds, Val, Weight;
      ghost var d0, a0 := d, a.d;
      var i := SubCommon(a, r, t);
      if r == a {
        KeepsWide(a.d, a0, t, a.t);
      }
      a.SubArgumentTail(r, t, i, s, a0, Val(d0, 0, t));
    }

    /** The loop over the digits that both numbers have. */
    method SubCommon(a: BigInteger, r: BigInteger, m: nat) returns (i: int)
      requires Proper(d, 0, m) && Proper(a.d, 0, m)
      modifies r`d
      ensures Proper(r.d, 0, m) && -1 <= i <= 0
      ensures Holds(r.d, m, i, old(Val(d, 0, m)) - old(Val(a.d, 0, m)))
      ensures Keeps(r.d, old(r.d), m)
    {
      ghost var d0, a0, r0 := d, a.d, r.d;
      var n := 0;
      i := 0;
      assert Holds(r.d, 0, 0, Val(d0, 0, 0) - Val(a0, 0, 0));
      KeepsAll(r0, 0);
      hide Holds, Val, Weight, Same, Proper, Keeps;
      while n < m
        invariant 0 <= n <= m && -1 <= i <= 0
        invariant Same(d, d0, n, m) && Proper(d, n, m) && Same(a.d, a0, n, m) && Proper(a.d, n, m)
        invariant Proper(r.d, 0, n)
        invariant Keeps(r.d, r0, n)
        invariant Holds(r.d, n, i, Val(d0, 0, n) - Val(a0, 0, n))
      {
        TailProper(d, d0, n, m, n, 0);
        TailProper(a.d, a0, n, m, n, 0);
        var digit, borrow := Cut(i + d[n] - a.d[n]);
        BorrowBoth(r.d, n, i, d0, a0, digit, borrow);
        OneMore(r.d, r0, n, digit);
        TailProper(d, d0, n, m, n, digit);
        TailProper(a.d, a0, n, m, n, digit);
        r.d := r.d[n := digit];
        i := borrow;
        n := n + 1;
      }
    }

    /** The part of SubTo beyond the digits of a shorter subtrahend, which ended with sign word sign. */
    method SubThisTail(r: BigInteger, n0: nat, i0: int, sign: int, ghost d0: DigitMap, ghost u: int)
      requires n0 <= t && Same(d, d0, n0, t) && Wide(d, n0, t) && -1 <= i0 <= 0
      requires -1 <= s <= 0 && -1 <= sign <= 0
      requires Proper(r.d, 0, n0) && Holds(r.d, n0, i0, Val(d0, 0, n0) - u)
      modifies r
      ensures r.Valid()
      ensures r.Value() == Num(d0, old(t), old(s)) - (u + sign * Weight(n0))
      ensures 0 <= r.Value() < Weight(old(t)) ==> Keeps(r.d, old(r.d), old(t))
    {
      hide Holds, Val, Weight;
      ghost var u' := u + sign * Weight(n0);
      AddSign(r.d, n0, i0, sign, Val(d0, 0, n0), u);
      var i := SubThisLoop(r, n0, i0 - sign, d0, u');
      ghost var total := Num(d0, t, s) - u';
      AddSign(r.d, t, i, s, Val(d0, 0, t), u');
      assert total == Val(d0, 0, t) + s * Weight(t) - u';
      r.Finish(t, i + s, total);
    }

    method SubThisLoop(r: BigInteger, n0: nat, i0: int, ghost d0: DigitMap, ghost u: int) returns (i: int)
      requires n0 <= t && Same(d, d0, n0, t) && Wide(d, n0, t) && -1 <= i0 <= 1
      requires Proper(r.d, 0, n0) && Holds(r.d, n0, i0, Val(d0, 0, n0) - u)
      modifies r`d
      ensures Proper(r.d, 0, t) && -1 <= i <= 8 && Keeps(r.d, old(r.d), t)
      ensures Holds(r.d, t, i, Val(d0, 0, t) - u)
    {
      ghost var r0 := r.d;
      KeepsAll(r0, n0);
      hide Holds, Val, Weight, Same, Wide, Proper, Keeps;
      var n := n0;
      i := i0;
      while n < t
        invariant n0 <= n <= t && -1 <= i <= 8
        invariant Same(d, d0, n, t) && Wide(d, n, t)
        invariant Proper(r.d, 0, n) && Keeps(r.d, r0, n)
        invariant Holds(r.d, n, i, Val(d0, 0, n) - u)
      {
        WideDigit(d, n, t, n);
        SameAt(d, d0, n, t, n);
        var digit, borrow := Cut(i + d[n]);
        BorrowThis(r.d, n, i, d0, digit, borrow, u);
        OneMore(r.d, r0, n, digit);
        TailKept(d, d0, n, t, n, digit);
        r.d := r.d[n := digit];
        i := borrow;
        n := n + 1;
      }
    }

    /** The part of SubTo beyond the digits of a shorter minuend v, which ended with sign word sign;
        this is the subtrahend. */
    method SubArgumentTail(r: BigInteger, n0: nat, i0: int, sign: int, ghost a0: DigitMap, ghost v: int)
      requires n0 <= t && Same(d, a0, n0, t) && Wide(d, n0, t) && -1 <= i0 <= 0
      requires -1 <= s <= 0 && -1 <= sign <= 0
      requires Proper(r.d, 0, n0) && Holds(r.d, n0, i0, v - Val(a0, 0, n0))
      modifies r
      ensures r.Valid()
      ensures r.Value() == v + sign * Weight(n0) - Num(a0, old(t), old(s))
      ensures 0 <= r.Value() < Weight(old(t)) ==> Keeps(r.d, old(r.d), old(t))
    {
      hide Holds, Val, Weight;
      ghost var v' := v + sign * Weight(n0);
      AddSign(r.d, n0, i0, sign, v, Val(a0, 0, n0));
      var i := SubArgumentLoop(r, n0, i0 + sign, a0, v');
      ghost var total := v' - Num(a0, t, s);
      AddSign(r.d, t, i, s, v', Val(a0, 0, t));
      assert total == v' - (Val(a0, 0, t) + s * Weight(t));
      r.Finish(t, i - s, total);
    }

    method SubArgumentLoop(r: BigInteger, n0: nat, i0: int, ghost a0: DigitMap, ghost v: int) returns (i: int)
      requires n0 <= t && Same(d, a0, n0, t) && Wide(d, n0, t) && -2 <= i0 <= 0
      requires Proper(r.d, 0, n0) && Holds(r.d, n0, i0, v - Val(a0, 0, n0))
      modifies r`d
      ensures Proper(r.d, 0, t) && -9 <= i <= 0 && Keeps(r.d, old(r.d), t)
      ensures Holds(r.d, t, i, v - Val(a0, 0, t))
    {
      ghost var r0 := r.d;
      KeepsAll(r0, n0);
      hide Holds, Val, Weight, Same, Wide, Proper, Keeps;
      var n := n0;
      i := i0;
      while n < t
        invariant n0 <= n <= t && -9 <= i <= 0
        invariant Same(d, a0, n, t) && Wide(d, n, t)
        invariant Proper(r.d, 0, n) && Keeps(r.d, r0, n)
        invariant Holds(r.d, n, i, v - Val(a0, 0, n))
      {
        WideDigit(d, n, t, n);
        SameAt(d, a0, n, t, n);
        var digit, borrow := Cut(i - d[n]);
        BorrowArgument(r.d, n, i, a0, digit, borrow, v);
        OneMore(r.d, r0, n, digit);
        TailKept(d, a0, n, t, n, digit);
        r.d := r.d[n := digit];
        i := borrow;
        n := n + 1;
      }
    }

    /** Turns a last borrow, -2, -1, 0 or 1 unless digits were wide, into a sign word and at most one more digit. */
    method Finish(n: nat, i: int, ghost total: int)
      requires Proper(d, 0, n) && -9 <= i <= 8 && Holds(d, n, i, total)
      modifies this
      ensures Valid() && Value() == total
      ensures 0 <= total < Weight(n) ==> d == old(d)
    {
      NoBorrowLeft(d, n, i, total);
      s := if 0 > i then -1 else 0;
      t := n;
      if -1 > i {
        FinishDigit(d, n, i, -1, DV + i);
        d := d[n := DV + i];
        t := n + 1;
      } else if i > 0 {
        FinishDigit(d, n, i, 0, i);
        d := d[n := i];
        t := n + 1;
      }
      Clamp();
    }

    method Negate() returns (r: BigInteger)
      requires Formed()
      ensures fresh(r) && r.Valid() && r.Value() == -Value()
    {
      r := new BigInteger();
      var zero := new BigInteger();
      zero.SubTo(this, r);
    }

    /** this itself unless it is negative. */
    method Abs() returns (r: BigInteger)
      requires Formed()
      ensures r.Formed() && r.s == 0 && (Valid() || s == -1 ==> r.Valid())
      ensures r.Value() == if Value() >= 0 then Value() else -Value()
      ensures if s == 0 then r == this else fresh(r)
    {
      ValBound(d, 0, t);
      if s < 0 {
        r := Negate();
        r.SignIsSign();
      } else {
        r := this;
      }
    }

    /** The sign word tells the sign. */
    lemma SignIsSign()
      requires Valid()
      ensures s == if Value() < 0 then -1 else 0
      ensures t == 0 ==> Value() == s
    {
      SizeBounds();
    }

    // -------------------------------------------------------------- shifts

    /** Copies the digits n places up, from the top so that r may be this. */
    method MoveUp(n: int, r: BigInteger)
      requires Proper(d, 0, t) && (r != this || n >= 0)
      modifies r`d
      ensures Moved(r.d, n, old(d), 0, t) && Proper(r.d, n, n + t)
    {
      ghost var d0 := d;
      var i := t;
      while i > 0
        invariant 0 <= i <= t
        invariant if r == this then Same(d, d0, 0, i) && Proper(d, 0, i) else d == d0
        invariant Moved(r.d, n + i, d0, i, t - i) && Proper(r.d, n + i, n + t)
      {
        i := i - 1;
        PutAt(r.d, i + n, d[i]);
        r.d := r.d[i + n := d[i]];
      }
    }

    /** r := this * DV^n; r may be this.  A negative n drops digits, and leaves some at indices
        below 0 that nothing reads. */
    method DLShiftTo(n: int, r: BigInteger)
      requires Formed() && t + n >= 0 && (r != this || n >= 0)
      modifies r
      ensures r.Formed() && r.t == old(t) + n && r.s == old(s)
      ensures n >= 0 ==> r.Value() == old(Value()) * Weight(n)
      ensures forall k :: 0 <= k < n ==> At(r.d, k) == 0
      ensures Moved(r.d, n, old(d), 0, old(t))
    {
      hide Num, Weight, Val;
      ghost var d0, v := d, Value();
      MoveUp(n, r);
      ghost var d1 := r.d;
      r.ZeroBelow(n);
      KeepsProper(r.d, d1, n, n + t);
      MovedKeeps(r.d, d1, n, d0, 0, t);
      ProperJoin(r.d, 0, n, n + t);
      if n >= 0 {
        ShiftedValue(r.d, d0, n, t, s, v);
      }
      r.t, r.s := t + n, s;
    }

    /** Writes zeros below index n, downwards. */
    method ZeroBelow(n: int)
      modifies this`d
      ensures Proper(d, 0, n) && Keeps(d, old(d), n)
      ensures forall k :: 0 <= k < n ==> At(d, k) == 0
    {
      ghost var d0 := d;
      var i := n;
      while i > 0
        invariant n <= 0 || 0 <= i <= n
        invariant Proper(d, i, n) && Keeps(d, d0, n)
        invariant forall k :: i <= k < n ==> At(d, k) == 0
      {
        i := i - 1;
        PutAt(d, i, 0);
        d := d[i := 0];
      }
    }

    /** r := this / DV^n, rounded down; r may be this. */
    method DRShiftTo(n: nat, r: BigInteger)
      requires Wide(d, n, t) && (s == 0 || s == -1)
      modifies r
      ensures r.t == (if old(t) > n then old(t) - n else 0) && r.s == old(s) && r.Loose(0)
      ensures n <= old(t) ==> Moved(r.d, 0, old(d), n, old(t) - n)
      ensures old(Proper(d, n, t)) ==> r.Formed()
    {
      ghost var d0 := d;
      NothingMoved(r.d, d0, n, t);
      hide Moved, Wide, Same, Proper;
      var i := n;
      while i < t
        invariant n <= i && (i <= t || i == n) && t == old(t) && s == old(s)
        invariant Same(d, d0, i, t) && Wide(d, i, t)
        invariant i <= t ==> Moved(r.d, 0, d0, n, i - n) && Wide(r.d, 0, i - n)
      {
        WideDigit(d, i, t, i);
        SameAt(d, d0, i, t, i);
        DownStep(r.d, d0, n, i - n, d[i]);
        TailKept(d, d0, i, t, i - n, d[i]);
        r.d := r.d[i - n := d[i]];
        i := i + 1;
      }
      if t > n && Proper(d0, n, t) {
        MovedProper(r.d, 0, d0, n, t - n);
      }
      r.t, r.s := if t > n then t - n else 0, s;
      NoDigitsBelow(r.d);
    }

    static lemma NoDigitsBelow(d: DigitMap)
      ensures Proper(d, 0, 0) && Wide(d, 0, 0)
    {
    }

    /** r := this * 2^sh; r may be this. */
    method LShiftTo(sh: nat, r: BigInteger)
      requires Formed()
      modifies r
      ensures r.Valid() && r.s == old(s) && r.Value() == old(Value()) * Pow2(sh)
      ensures forall k :: r.t <= k < old(t) + sh / DB + 1 ==> k in r.d && r.d[k] == Fill(old(s))
    {
      hide Val, Weight, Num, LeftSum, Low, Shr, Shl, Or, Pow2;
      ghost var v := Value();
      var i, w := sh % DB, sh / DB;
      LShiftLoop(i, w, r);
      LeftEnd(r.d, At(r.d, w), old(d), t, s, w, i, v);
      ShiftIsPower(sh);
      MulSwap(Weight(w), v, Pow2(i));
      r.t, r.s := t + w + 1, s;
      assert r.Value() == v * Pow2(sh);
      r.Clamp();
    }

    /** The digits of LShiftTo: w places and i bits up, from the top. */
    method LShiftLoop(i: nat, w: nat, r: BigInteger)
      requires Formed() && i < DB
      modifies r`d
      ensures Proper(r.d, 0, old(t) + w + 1) && (forall j :: 0 <= j < w ==> At(r.d, j) == 0)
      ensures LeftSum(r.d, At(r.d, w), old(d), 0, t, s, w, i)
    {
      hide Val, Weight, Num, LeftSum, Low, Shr, Shl, Or, Pow2;
      ghost var d0 := d;
      var rr := DB - i;
      var a := Low(Shl(s, i), DB);
      var n := t;
      ghost var q := -s * (Pow2(rr) - 1);
      LeftStart(r.d, d0, t, s, w, i);
      while n > 0
        invariant 0 <= n <= t
        invariant if r == this then Same(d, d0, 0, n) && Proper(d, 0, n) else d == d0
        invariant Proper(r.d, n + w + 1, t + w + 1)
        invariant 0 <= q < Pow2(rr) && a == q * Pow2(i) && 0 <= a <= DV - Pow2(i)
        invariant LeftSum(r.d, a, d0, n, t, s, w, i)
      {
        n := n - 1;
        DigitParts(d[n], rr);
        OrBelow(Shr(d[n], rr), q, i, a);
        LeftStep(r.d, a, d0, n, t, s, w, i, Shr(d[n], rr), Low(d[n], rr));
        q := Low(d[n], rr);
        PushedUp(q, i);
        PutAt(r.d, n + w + 1, Or(Shr(d[n], rr), a));
        var digit := d[n];
        r.d := r.d[n + w + 1 := Or(Shr(digit, rr), a)];
        a := Shl(Low(digit, rr), i);
      }
      ghost var e := r.d;
      r.ZeroBelow(w);
      PutAt(r.d, w, a);
      r.d := r.d[w := a];
      LeftFrame(e, r.d, a, d0, t, s, w, i);
    }

    /** r := this / 2^sh, rounded down; r may be this. */
    method RShiftTo(sh: nat, r: BigInteger)
      requires Formed()
      modifies r
      ensures r.Valid() && r.s == old(s) && r.Value() == old(Value()) / Pow2(sh)
    {
      hide Val, Weight, Num, Pow2, RightSum, Low, Shr, Shl, Or;
      ghost var d0, v := d, Value();
      r.s := s;
      var n, i := sh / DB, sh % DB;
      ShiftIsPower(sh);
      if n >= t {
        RightAll(d, t, s, n, i, sh);
        r.t := 0;
        assert Num(r.d, 0, s) == s by { ZeroDigits(r.d, s); }
        return;
      }
      RShiftLoop(n, i, r);
      ghost var rem := Low(At(d0, n), i);
      DigitParts(At(d0, n), i);
      RightTop(r.d, d0, n, t, s, i, rem);
      if i > 0 {
        var fill := Shl(Low(s, i), DB - i);
        PutAt(r.d, t - n - 1, Or(r.d[t - n - 1], fill));
        r.d := r.d[t - n - 1 := Or(r.d[t - n - 1], fill)];
      }
      RightFloor(d0, n, t, s, i, rem, Num(r.d, t - n, s), sh);
      r.t := t - n;
      r.Clamp();
    }

    /** The digits of RShiftTo below the sign. */
    method RShiftLoop(n: nat, i: nat, r: BigInteger)
      requires Formed() && n < t && i < DB
      modifies r`d
      ensures Proper(r.d, 0, t - n) && r.d[t - n - 1] < Pow2(DB - i)
      ensures RightSum(r.d, old(d), n, t, i, Low(old(At(d, n)), i))
    {
      hide Val, Weight, Num, Pow2, RightSum, Low, Shr, Shl, Or;
      ghost var d0 := d;
      ghost var rem := Low(At(d0, n), i);
      var rr := DB - i;
      DigitParts(d[n], i);
      PutAt(r.d, 0, Shr(d[n], i));
      RightStart(r.d, d0, n, i);
      r.d := r.d[0 := Shr(d[n], i)];
      var m := n + 1;
      while m < t
        invariant n < m <= t
        invariant if r == this then Same(d, d0, m, t) && Proper(d, m, t) else d == d0
        invariant Proper(r.d, 0, m - n) && r.d[m - n - 1] < Pow2(rr)
        invariant RightSum(r.d, d0, n, m, i, rem)
      {
        RShiftDigit(n, m, i, r, d0, rem);
        m := m + 1;
      }
    }

    /** Digit m of RShiftTo: its low bits complete the digit below. */
    method RShiftDigit(n: nat, m: nat, i: nat, r: BigInteger, ghost d0: DigitMap, ghost rem: int)
      requires n < m < t && i < DB
      requires if r == this then Same(d, d0, m, t) && Proper(d, m, t) else d == d0 && Proper(d, m, t)
      requires Proper(r.d, 0, m - n) && r.d[m - n - 1] < Pow2(DB - i) && RightSum(r.d, d0, n, m, i, rem)
      modifies r`d
      ensures if r == this then Same(d, d0, m + 1, t) && Proper(d, m + 1, t) else d == d0
      ensures Proper(r.d, 0, m + 1 - n) && r.d[m - n] < Pow2(DB - i) && RightSum(r.d, d0, n, m + 1, i, rem)
    {
      hide Val, Weight, Num, Pow2, RightSum, Low, Shr, Shl, Or;
      var rr, x := DB - i, d[m];
      assert At(d0, m) == x;
      DigitParts(x, i);
      PushedUp(Low(x, i), rr);
      var y := Or(r.d[m - n - 1], Shl(Low(x, i), rr));
      OrBelow(r.d[m - n - 1], Low(x, i), rr, Shl(Low(x, i), rr));
      RightStep(r.d, d0, n, m, i, rem, Low(x, i), Shr(x, i));
      PutAt(r.d, m - n - 1, y);
      r.d := r.d[m - n - 1 := y];
      PutAt(r.d, m - n, Shr(x, i));
      r.d := r.d[m - n := Shr(x, i)];
    }

    // -------------------------------------------------------------- kernels

    /** w[j..j+n) += x * this[i..i+n) + c, the carry out returned; floating point, 26 bits a digit. */
    method Am1(i: nat, x: int, w: BigInteger, j: nat, c: int, n: nat) returns (carry: int)
      requires DB == 26
      requires w != this && Proper(d, i, i + n) && Proper(w.d, j, j + n)
      requires 0 <= c <= x < MULTIPLIERS
      modifies w`d
      ensures Proper(w.d, j, j + n) && Outside(w.d, old(w.d), j, j + n)
      ensures Val(w.d, j, n) + carry * Weight(n) == old(Val(w.d, j, n)) + x * Val(d, i, n) + c
      ensures 0 <= carry <= x
    {
      hide Val, Weight, KernelSum, Proper;
      carry := c;
      var k, digit := 0, 0;
      ghost var w0 := w.d;
      KernelStart(w0, d, i, j, x, c);
      while k < n
        invariant 0 <= k <= n
        invariant Proper(w.d, j, j + n) && Outside(w.d, w0, j, j + k)
        invariant KernelSum(w.d, carry, w0, d, i, j, k, x, c)
        invariant 0 <= carry <= x
      {
        ghost var e, carry0 := w.d, carry;
        ProperDigit(d, i, i + n, i + k);
        ProperDigit(e, j, j + n, j + k);
        digit, carry := Am1Digit(x, d[i + k], w.d[j + k], carry);
        ProperPut(e, j, j + n, j + k, digit);
        w.d := w.d[j + k := digit];
        KernelStep(w0, e, i, j, k, x, c, carry0, digit, carry, d);
        k := k + 1;
      }
      KernelEnd(w.d, carry, w0, d, i, j, n, x, c);
    }

    /** The same with 30 bits a digit: 15-bit halves and unsigned 32-bit accumulators. */
    method Am2(i: nat, x: int, w: BigInteger, j: nat, c: int, n: nat) returns (carry: int)
      requires DB == 30
      requires w != this && Proper(d, i, i + n) && Proper(w.d, j, j + n)
      requires 0 <= c <= x < 2 * DV
      modifies w`d
      ensures Proper(w.d, j, j + n) && Outside(w.d, old(w.d), j, j + n)
      ensures Val(w.d, j, n) + carry * Weight(n) == old(Val(w.d, j, n)) + x * Val(d, i, n) + c
      ensures 0 <= carry <= x
    {
      hide Val, Weight, Low, Shr, Ushr, KernelSum, Proper;
      carry := c;
      var xl, xh := Low(x, 15), Shr(x, 15);
      var k, digit := 0, 0;
      ghost var w0 := w.d;
      KernelStart(w0, d, i, j, x, c);
      while k < n
        invariant 0 <= k <= n
        invariant Proper(w.d, j, j + n) && Outside(w.d, w0, j, j + k)
        invariant KernelSum(w.d, carry, w0, d, i, j, k, x, c)
        invariant 0 <= carry <= x
      {
        ghost var e, carry0 := w.d, carry;
        ProperDigit(d, i, i + n, i + k);
        ProperDigit(e, j, j + n, j + k);
        digit, carry := Am2Digit(x, xl, xh, d[i + k], w.d[j + k], carry);
        ProperPut(e, j, j + n, j + k, digit);
        w.d := w.d[j + k := digit];
        KernelStep(w0, e, i, j, k, x, c, carry0, digit, carry, d);
        k := k + 1;
      }
      KernelEnd(w.d, carry, w0, d, i, j, n, x, c);
    }

    /** The same with 28 bits a digit: 14-bit halves and signed 32-bit accumulators. */
    method Am3(i: nat, x: int, w: BigInteger, j: nat, c: int, n: nat) returns (carry: int)
      requires DB == 28
      requires w != this && Proper(d, i, i + n) && Proper(w.d, j, j + n)
      requires 0 <= c <= x < 2 * DV
      modifies w`d
      ensures Proper(w.d, j, j + n) && Outside(w.d, old(w.d), j, j + n)
      ensures Val(w.d, j, n) + carry * Weight(n) == old(Val(w.d, j, n)) + x * Val(d, i, n) + c
      ensures 0 <= carry <= x
    {
      hide Val, Weight, Low, Shr, Ushr, KernelSum, Proper;
      carry := c;
      var xl, xh := Low(x, 14), Shr(x, 14);
      var k, digit := 0, 0;
      ghost var w0 := w.d;
      KernelStart(w0, d, i, j, x, c);
      while k < n
        invariant 0 <= k <= n
        invariant Proper(w.d, j, j + n) && Outside(w.d, w0, j, j + k)
        invariant KernelSum(w.d, carry, w0, d, i, j, k, x, c)
        invariant 0 <= carry <= x
      {
        ghost var e, carry0 := w.d, carry;
        ProperDigit(d, i, i + n, i + k);
        ProperDigit(e, j, j + n, j + k);
        digit, carry := Am3Digit(x, xl, xh, d[i + k], w.d[j + k], carry);
        ProperPut(e, j, j + n, j + k, digit);
        w.d := w.d[j + k := digit];
        KernelStep(w0, e, i, j, k, x, c, carry0, digit, carry, d);
        k := k + 1;
      }
      KernelEnd(w.d, carry, w0, d, i, j, n, x, c);
    }

    /** The kernel this engine selected. */
    method Am(i: nat, x: int, w: BigInteger, j: nat, c: int, n: nat) returns (carry: int)
      requires w != this && Proper(d, i, i + n) && Proper(w.d, j, j + n)
      requires 0 <= c <= x < MULTIPLIERS
      modifies w`d
      ensures Proper(w.d, j, j + n) && Outside(w.d, old(w.d), j, j + n)
      ensures Val(w.d, j, n) + carry * Weight(n) == old(Val(w.d, j, n)) + x * Val(d, i, n) + c
      ensures 0 <= carry <= x
    {
      if DB == 30 {
        carry := Am2(i, x, w, j, c, n);
      } else if DB == 26 {
        carry := Am1(i, x, w, j, c, n);
      } else {
        carry := Am3(i, x, w, j, c, n);
      }
    }

    // -------------------------------------------------------------- products

    /** r := this * a, r being neither. */
    method MultiplyTo(a: BigInteger, r: BigInteger)
      requires Valid() && a.Valid() && r != this && r != a
      modifies r
      ensures r.Valid() && r.Value() == Value() * a.Value()
    {
      SignIsSign();
      a.SignIsSign();
      hide Num, Val, Weight, Proper;
      var x := Abs();
      var y := a.Abs();
      x.MultiplyRows(y, r);
      r.Clamp();
      ghost var v := r.Value();
      SignedProduct(Value(), a.Value(), v);
      if s != a.s {
        r.Negated();
      }
    }

    /** ZERO.subTo(r, r) */
    method Negated()
      requires Valid()
      modifies this
      ensures Valid() && Value() == -old(Value())
    {
      hide Num, Val, Weight;
      var zero := new BigInteger();
      ZeroDigits(zero.d, 0);
      zero.SubTo(this, this);
    }

    /** The rows of a product of two numbers that are not negative. */
    method MultiplyRows(y: BigInteger, r: BigInteger)
      requires Valid() && y.Valid() && s == 0 && y.s == 0 && r != this && r != y
      modifies r
      ensures r.Formed() && r.Value() == Value() * y.Value()
    {
      hide Val, Weight, Num;
      r.t := t + y.t;
      r.ZeroBelow(t);
      ghost var big := Val(d, 0, t);
      MultiplyStart(r.d, t, big, y.d);
      var i := 0;
      while i < y.t
        invariant 0 <= i <= y.t && r.t == t + y.t
        invariant Proper(r.d, 0, i + t)
        invariant Val(r.d, 0, i + t) == big * Val(y.d, 0, i)
      {
        MultiplyRow(y, r, i, big);
        i := i + 1;
      }
      r.s := 0;
      Unsigned(r.d, r.t);
      Unsigned(d, t);
      Unsigned(y.d, y.t);
    }

    /** One row of MultiplyTo. */
    method MultiplyRow(y: BigInteger, r: BigInteger, i: nat, ghost big: int)
      requires r != this && r != y && i < y.t && Proper(d, 0, t) && Proper(y.d, 0, y.t) && big == Val(d, 0, t)
      requires Proper(r.d, 0, i + t) && Val(r.d, 0, i + t) == big * Val(y.d, 0, i)
      modifies r`d
      ensures Proper(r.d, 0, i + 1 + t) && Val(r.d, 0, i + 1 + t) == big * Val(y.d, 0, i + 1)
    {
      hide Val, Weight, Outside;
      ghost var d0 := r.d;
      ProperDigit(y.d, 0, y.t, i);
      var carry := Am(0, y.d[i], r, i, 0, t);
      KeepsRange(r.d, d0, i, i + t, i + t);
      MultiplyStep(d0, r.d, d, t, y.d, i, carry, big);
      PutAt(r.d, i + t, carry);
      r.d := r.d[i + t := carry];
    }

    /** r := this * this, r not being this. */
    method SquareTo(r: BigInteger)
      requires Valid() && r != this
      modifies r
      ensures r.Valid() && r.Value() == Value() * Value()
    {
      SignIsSign();
      hide Val, Weight, Num, SquareSum;
      var x := Abs();
      x.SquareRows(r);
      SignedProduct(Value(), Value(), r.Value());
      r.Clamp();
    }

    /** The rows of the square of a number that is not negative. */
    method SquareRows(r: BigInteger)
      requires Valid() && s == 0 && r != this
      modifies r
      ensures r.Formed() && r.Value() == Value() * Value()
    {
      hide Val, Weight, Num, SquareSum;
      r.t := 2 * t;
      r.ZeroBelow(2 * t);
      SquareStart(r.d, d, t);
      var n := 0;
      assert 0 < t ==> At(r.d, t) == 0;
      while n < t - 1
        invariant 0 <= n && (n < t || t == 0) && r.t == 2 * t
        invariant Proper(r.d, 0, 2 * t) && (t > 0 ==> SquareSum(r.d, d, t, n))
        invariant n < t ==> At(r.d, n + t) <= 1
        invariant forall k :: n + t < k < 2 * t ==> At(r.d, k) == 0
      {
        SquareRow(r, n);
        n := n + 1;
      }
      if r.t > 0 {
        LastSquare(r, n);
      } else {
        NoDigits(r.d);
        NoDigits(d);
      }
      r.s := 0;
      Unsigned(r.d, r.t);
      Unsigned(d, t);
    }

    /** The square of the top digit. */
    method LastSquare(r: BigInteger, n: nat)
      requires Valid() && r != this && t > 0 && n == t - 1 && r.t == 2 * t && Proper(r.d, 0, 2 * t)
      requires SquareSum(r.d, d, t, n) && At(r.d, n + t) <= 1
      modifies r`d
      ensures Proper(r.d, 0, 2 * t) && Val(r.d, 0, 2 * t) == Val(d, 0, t) * Val(d, 0, t)
    {
      hide Val, Weight, Num, SquareSum;
      ghost var r0 := r.d;
      var carry := Am(n, d[n], r, 2 * n, 0, 1);
      ghost var r1 := r.d;
      KeepsRange(r1, r0, 2 * n, 2 * n + 1, 2 * t);
      r.d := r.d[r.t - 1 := r.d[r.t - 1] + carry];
      SquareLast(r0, r1, r.d, n, carry);
    }

    /** One row of SquareTo: the diagonal digit, the doubled rest, and the carry repaired by hand. */
    method SquareRow(r: BigInteger, n: nat)
      requires r != this && n + 1 < t && Proper(d, 0, t)
      requires Proper(r.d, 0, 2 * t) && SquareSum(r.d, d, t, n) && At(r.d, n + t) <= 1
      requires forall k :: n + t < k < 2 * t ==> At(r.d, k) == 0
      modifies r`d
      ensures Proper(r.d, 0, 2 * t) && SquareSum(r.d, d, t, n + 1) && At(r.d, n + t + 1) <= 1
      ensures forall k :: n + t + 1 < k < 2 * t ==> At(r.d, k) == 0
    {
      hide Val, Weight, SquareSum, Proper, Outside;
      ghost var r0 := r.d;
      var c, carry;
      ghost var r1;
      c, carry, r1 := SquareProducts(r, n);
      ghost var r2 := r.d;
      SquareFrames(r0, r1, r2, t, n);
      r.TakeCarry(n + t, 2 * t, carry);
      SquareStep(r0, r1, r2, r.d, d, t, n, c, carry);
    }

    /** The two products of a row. */
    method SquareProducts(r: BigInteger, n: nat) returns (c: int, carry: int, ghost r1: DigitMap)
      requires r != this && n + 1 < t && Proper(d, 0, t) && Proper(r.d, 0, 2 * t)
      modifies r`d
      ensures Proper(r1, 2 * n, 2 * n + 1) && Proper(r.d, 2 * n + 1, n + t)
      ensures Outside(r1, old(r.d), 2 * n, 2 * n + 1) && Outside(r.d, r1, 2 * n + 1, n + t)
      ensures At(r1, 2 * n) + c * DV == old(At(r.d, 2 * n)) + At(d, n) * At(d, n)
      ensures Val(r.d, 2 * n + 1, t - n - 1) + carry * Weight(t - n - 1)
           == Val(r1, 2 * n + 1, t - n - 1) + 2 * At(d, n) * Val(d, n + 1, t - n - 1) + c
      ensures 0 <= carry < 2 * DV - 1
    {
      hide Val, Weight, Outside;
      ProperDigit(d, 0, t, n);
      ghost var r0 := r.d;
      c := SquareDigit(r, n);
      r1 := r.d;
      KeepsRange(r1, r0, 2 * n, 2 * n + 1, 2 * t);
      ProperPart(r1, 0, 2 * t, 2 * n + 1, n + t);
      ProperPart(d, 0, t, n + 1, t);
      hide Proper;
      carry := Am(n + 1, 2 * d[n], r, 2 * n + 1, c, t - n - 1);
    }

    /** The product on the diagonal. */
    method SquareDigit(r: BigInteger, n: nat) returns (c: int)
      requires r != this && n < t && Proper(d, 0, t) && Proper(r.d, 0, 2 * t)
      modifies r`d
      ensures Proper(r.d, 2 * n, 2 * n + 1) && Outside(r.d, old(r.d), 2 * n, 2 * n + 1)
      ensures At(r.d, 2 * n) + c * DV == old(At(r.d, 2 * n)) + At(d, n) * At(d, n)
      ensures 0 <= c <= At(d, n)
    {
      hide Val, Weight, Outside;
      ProperDigit(d, 0, t, n);
      ghost var r0 := r.d;
      c := Am(n, d[n], r, 2 * n, 0, 1);
      ValOnes(r0, 2 * n, r.d, d, n, c);
    }

    /** Adds the carry of a doubled row to digit k, and repairs an overflow with a 1 above it. */
    method TakeCarry(k: nat, n: nat, carry: int)
      requires Proper(d, 0, n) && k + 1 < n && At(d, k) <= 1 && At(d, k + 1) == 0
      requires 0 <= carry < 2 * DV - 1
      modifies this`d
      ensures Proper(d, 0, n) && At(d, k + 1) <= 1
      ensures Val(d, 0, n) == old(Val(d, 0, n)) + carry * Weight(k)
      ensures forall m :: m < k || k + 1 < m ==> At(d, m) == old(At(d, m))
    {
      hide Val, Weight;
      SquareCarry(d, k, n, carry);
      var v := d[k] + carry;
      d := d[k := v];
      if d[k] >= DV {
        d := d[k := v - DV];
        d := d[k + 1 := 1];
      }
    }

    /** The last diagonal digit completes the square; its carry fits the top digit. */
    lemma SquareLast(r0: DigitMap, r1: DigitMap, r2: DigitMap, n: nat, c: int)
      requires Proper(d, 0, t) && n + 1 == t && SquareSum(r0, d, t, n)
      requires Proper(r1, 0, 2 * t) && c >= 0
      requires Outside(r1, r0, 2 * n, 2 * n + 1)
      requires Val(r1, 2 * n, 1) + c * Weight(1) == Val(r0, 2 * n, 1) + At(d, n) * Val(d, n, 1)
      requires r2 == r1[2 * t - 1 := r1[2 * t - 1] + c]
      ensures Proper(r2, 0, 2 * t) && Val(r2, 0, 2 * t) == Val(d, 0, t) * Val(d, 0, t)
    {
      SquareLastSum(r0, r1, r2, n, c);
      hide Val, Weight, SquareSum, Outside;
      ValBound(d, 0, t);
      WeightAdd(t, t);
      SquareBelow(Val(d, 0, t), Weight(t));
      ProperDigit(r1, 0, 2 * t, 2 * t - 1);
      TopDigit(r2, 2 * t);
    }

    lemma SquareLastSum(r0: DigitMap, r1: DigitMap, r2: DigitMap, n: nat, c: int)
      requires n + 1 == t && SquareSum(r0, d, t, n) && 2 * t - 1 in r1
      requires Outside(r1, r0, 2 * n, 2 * n + 1)
      requires Val(r1, 2 * n, 1) + c * Weight(1) == Val(r0, 2 * n, 1) + At(d, n) * Val(d, n, 1)
      requires r2 == r1[2 * t - 1 := r1[2 * t - 1] + c]
      ensures Val(r2, 0, 2 * t) == Val(d, 0, t) * Val(d, 0, t)
    {
      assert Weight(0) == 1 && Val(d, t, 0) == 0 && Val(r1, 2 * t - 1, 0) == 0;
      hide Val, Weight, Proper;
      ValOnes(r0, 2 * n, r1, d, n, c);
      ValPut(r1, 0, 2 * t, 2 * t - 1, r1[2 * t - 1] + c);
      SquareStep(r0, r1, r1, r2, d, t, n, c, c);
      SquareSumEnd(r2, d, t);
    }

    // -------------------------------------------------------------- division

    /** A valid number of known size has a known length. */
    lemma LengthIs(n: nat)
      requires Valid() && s == 0 && n > 0 && Weight(n - 1) <= Value() < Weight(n)
      ensures t == n
    {
      SizeBounds();
      if t < n {
        WeightMonotone(t, n - 1);
      } else if t > n {
        WeightMonotone(n, t - 1);
      }
    }

    /** A zero that carries as many digits as the modulus: montConvert makes one. */
    ghost predicate PaddedZero(a: BigInteger)
      reads this, a
    {
      Formed() && s == 0 && Value() == 0 && a.s == 0 && t == a.t
    }

    /** q, r := this / a, this % a with truncated signs, as divRemTo computes them, if every estimate is good; r may
        be this or a, q may be a.  Whatever the estimates, r is a number of the divisor's length.  When all but the
        last estimate are good, r is right exactly if that one is, too.  A zero divisor leaves everything as it was. */
    method DivRemTo(a: BigInteger, q: BigInteger?, r: BigInteger?)
      requires a.Valid() && (Valid() || PaddedZero(a)) && q != this && (q == null || q != r)
      modifies q, r
      ensures old(a.Value()) == 0 ==> (q != null ==> unchanged(q)) && (r != null ==> unchanged(r))
      ensures old(a.Value()) != 0 && Sound(AbsInt(old(Value())), AbsInt(old(a.Value()))) ==>
        && (q != null ==> q.Valid() && q.Value() == TruncQuotient(old(Value()), old(a.Value())))
        && (r != null ==> r.Value() == TruncRemainder(old(Value()), old(a.Value())))
      ensures old(a.Value()) != 0 && r != null ==>
        && r.Valid() && AbsInt(r.Value()) < Weight(Length(AbsInt(old(a.Value()))))
        && (old(Value()) >= 0 ==> r.Value() >= 0)
      ensures old(a.Value()) != 0 && r != null && SoundFrom(AbsInt(old(Value())), AbsInt(old(a.Value())), 1) ==>
        (r.Value() == TruncRemainder(old(Value()), old(a.Value()))
         <==> Sound(AbsInt(old(Value())), AbsInt(old(a.Value()))))
    {
      ghost var v, w := Value(), a.Value();
      SignOf();
      a.SignIsSign();
      var i := a.Abs();
      var x := Abs();
      assert i.Value() == AbsInt(w) && x.Value() == AbsInt(v);
      hide Val, Weight, Num, TruncQuotient, TruncRemainder, Sound, SoundFrom, Length, AbsInt, Proper;
      i.ZeroIsEmpty();
      if i.t <= 0 {
        return;
      }
      i.LengthOf();
      if x.t < i.t {
        x.ShorterThan(i);
        SmallDividend(v, w);
        ShortDividend(q, r);
        return;
      }
      LongDividend(v, w);
      x.DivRemAbs(i, q, r, s, a.s);
    }

    /** A dividend shorter than the divisor is the remainder. */
    method ShortDividend(q: BigInteger?, r: BigInteger?)
      requires Valid() && q != this && (q == null || q != r)
      modifies q, r
      ensures q != null ==> q.Valid() && q.Value() == 0
      ensures r != null ==> r.Valid() && r.Value() == old(Value())
    {
      if q != null {
        q.FromInt(0);
      }
      if r != null {
        CopyTo(r);
      }
    }

    lemma ShorterThan(i: BigInteger)
      requires Valid() && s == 0 && i.Valid() && i.s == 0 && t < i.t
      ensures 0 <= Value() < i.Value() < Weight(i.t) && Length(i.Value()) == i.t
      ensures Sound(Value(), i.Value()) && SoundFrom(Value(), i.Value(), 1)
    {
      LengthOf();
      i.LengthOf();
      CompareLengths(i);
      ShortIsSound(Value(), i.Value());
      i.SizeFits();
    }

    lemma LengthOf()
      requires Valid() && s == 0
      ensures Value() >= 0 && Length(Value()) == t
    {
      SizeBounds();
      LengthUnique(Value(), t);
    }

    /** The long case on absolute values.  Only the padded zero has a leading zero. */
    method DivRemAbs(i: BigInteger, q: BigInteger?, r: BigInteger?, sign: int, sign': int)
      requires (Valid() && s == 0) || PaddedZero(i)
      requires i.Valid() && i.s == 0 && 0 < i.t <= t && i.Value() > 0 && Value() >= 0
      requires q != this && (q == null || q != r)
      modifies q, r
      ensures Sound(old(Value()), old(i.Value())) ==>
        && (q != null ==>
          q.Valid() && q.Value() == (if sign == sign' then 1 else -1) * (old(Value()) / old(i.Value())))
        && (r != null ==> r.Value() == (if sign < 0 then -1 else 1) * (old(Value()) % old(i.Value())))
      ensures r != null ==> r.Valid() && AbsInt(r.Value()) < Weight(old(i.t)) && (sign >= 0 ==> r.Value() >= 0)
      ensures r != null && SoundFrom(old(Value()), old(i.Value()), 1) ==>
        (r.Value() == (if sign < 0 then -1 else 1) * (old(Value()) % old(i.Value()))
         <==> Sound(old(Value()), old(i.Value())))
    {
      hide Val, Weight, Num, Sound, SoundFrom;
      var rest := r;
      if rest == null {
        rest := new BigInteger();
      }
      if d[t - 1] != 0 {
        DivRemLong(i, q, rest, sign, sign');
      } else {
        DivModUnique(0, i.Value(), 0, 0);
        ghost var w := i.Value();
        i.LengthOf();
        ShortIsSound(0, w);
        DivRemPadded(i, q, rest, sign, sign');
      }
    }

    lemma SignOf()
      requires Formed()
      ensures s == if Value() < 0 then -1 else 0
    {
      ValBound(d, 0, t);
    }

    /** The statements of DivRemLong on a padded zero.  A normalising shift empties the buffer, so
        the divisor is shifted by a negative amount and a 1 appears in the buffer; undoing the
        shift drops it again. */
    method DivRemPadded(i: BigInteger, q: BigInteger?, rest: BigInteger, sign: int, sign': int)
      requires PaddedZero(i) && i.Valid() && i.s == 0 && 0 < i.t
      requires q != this && q != rest && i.Value() > 0
      modifies q, rest
      ensures q != null ==> q.Valid() && q.Value() == 0
      ensures rest.Valid() && rest.Value() == 0
    {
      hide Val, Weight, Num, Pow2;
      var y, c := NormalisePadded(i, rest);
      var l := y.t;
      var g := q;
      if g == null {
        g := new BigInteger();
      }
      rest.PaddedFirstDigit(y, g, l, c);
      Complement(y, g, l, y.Value());
      if q != null {
        rest.DRShiftTo(l, q);
        ZeroDigits(q.d, 0);
        if sign != sign' {
          var zero := new BigInteger();
          ZeroDigits(zero.d, 0);
          zero.SubTo(q, q);
        }
      }
      rest.Undo(l, c, sign, 0);
    }

    /** What the normalising shift leaves of a padded zero: nothing, or for c = 0 the padding. */
    method NormalisePadded(i: BigInteger, rest: BigInteger) returns (y: BigInteger, c: nat)
      requires PaddedZero(i) && i.Valid() && i.s == 0 && 0 < i.t && i.Value() > 0
      modifies rest
      ensures fresh(y) && c < DB && y.Valid() && y.s == 0 && y.Value() > 0 && y.t == old(i.t)
      ensures y.Value() < Weight(y.t)
      ensures rest.Formed() && rest.s == 0 && rest.Value() == 0
      ensures c > 0 ==> rest.Valid() && forall k :: rest.t <= k < y.t ==> k in rest.d && rest.d[k] == 0
      ensures c == 0 ==> rest.t == y.t
    {
      ghost var l := i.t;
      c := i.TopShift();
      ShiftedZero(c);
      hide Val, Weight, Num, Pow2, NBits, Gap, ShiftedUp;
      y := ScaleBoth(i, rest, c);
      y.NormalLength(l);
    }

    /** Comparing the buffer with the divisor, shifted to its length. */
    method PaddedFirstDigit(y: BigInteger, g: BigInteger, l: nat, c: nat)
      requires y != this && g != this && y != g && y.Valid() && y.s == 0 && y.t == l > 0 && y.Value() > 0
      requires Formed() && s == 0 && Value() == 0
      requires c > 0 ==> Valid() && forall k :: t <= k < l ==> k in d && d[k] == 0
      requires c == 0 ==> t == l
      modifies this, g
      ensures Formed() && s == 0 && t <= l && Proper(d, 0, l) && Val(d, 0, l) / Pow2(c) == 0
    {
      if c > 0 {
        ZeroIsEmpty();
      }
      assert c > 0 ==> Pow2(c) >= 2;
      Pow2Zero();
      hide Val, Weight, Num, Pow2;
      var j := t - l;
      y.DLShiftTo(j, g);
      ghost var d0 := d;
      ZeroDigits(g.d, 0);
      WeightZero();
      var cmp := CompareTo(g);
      if cmp >= 0 {
        assert c > 0;
        StrayOne(g, l);
      }
      Unsigned(d, t);
      SmallOver(Val(d, 0, l), Pow2(c));
    }

    /** The digit 1 that stands above an empty buffer. */
    method StrayOne(g: BigInteger, l: nat)
      requires g != this && Formed() && s == 0 && t == 0 && g.Formed() && g.t == 0 && g.s == 0
      requires l > 0 && forall k :: 0 <= k < l ==> k in d && d[k] == 0
      modifies this
      ensures Formed() && s == 0 && t <= l && Proper(d, 0, l) && Val(d, 0, l) == 1
    {
      hide Val, Weight, Num;
      ghost var d0 := d;
      AppendOne(d, t);
      ZeroDigits(d, 0);
      ZeroDigits(g.d, 0);
      WeightZero();
      PutAt(d, t, 1);
      d := d[t := 1];
      t := t + 1;
      SubTo(g, this);
      SignIsSign();
      LengthAtMost(1);
      ZeroIsEmpty();
      assert t == 1;
      forall k | 1 <= k < l
        ensures k in d && d[k] == 0
      {
        assert k in d0 && At(d, k) == At(d0, k);
      }
      ProperJoin(d, 0, 1, l);
      PaddingIsZero(d, t, l);
      Unsigned(d, t);
    }

    static lemma SmallOver(x: int, p: int)
      requires p > 0
      ensures 0 <= x < p ==> x / p == 0
    {
    }

    lemma LengthAtMost(n: nat)
      requires Valid() && s == 0 && Value() < Weight(n)
      ensures t <= n
    {
      SizeBounds();
      if t > n {
        WeightMonotone(n, t - 1);
      }
    }

    lemma SizeFits()
      requires Valid() && s == 0
      ensures Value() < Weight(t)
    {
      SizeBounds();
    }

    lemma ZeroIsEmpty()
      requires Valid() && s == 0
      ensures t == 0 <==> Value() == 0
      ensures Value() >= 0
    {
      SizeBounds();
    }

    /** The long case for this >= 0 and i > 0: normalise, divide digit by digit, undo, put the signs in. */
    method DivRemLong(i: BigInteger, q: BigInteger?, rest: BigInteger, sign: int, sign': int)
      requires Valid() && s == 0 && i.Valid() && i.s == 0 && 0 < i.t <= t
      requires q != this && q != rest && i.Value() > 0 && Value() >= 0
      modifies q, rest
      ensures Sound(old(Value()), old(i.Value())) ==>
        && (q != null ==>
          q.Valid() && q.Value() == (if sign == sign' then 1 else -1) * (old(Value()) / old(i.Value())))
        && rest.Value() == (if sign < 0 then -1 else 1) * (old(Value()) % old(i.Value()))
      ensures rest.Valid() && AbsInt(rest.Value()) < Weight(old(i.t)) && (sign >= 0 ==> rest.Value() >= 0)
      ensures SoundFrom(old(Value()), old(i.Value()), 1) ==>
        (rest.Value() == (if sign < 0 then -1 else 1) * (old(Value()) % old(i.Value()))
         <==> Sound(old(Value()), old(i.Value())))
    {
      hide Val, Weight, Num, Pow2, Sound, SoundFrom;
      ghost var v, w := Value(), i.Value();
      var g := q;
      if g == null {
        g := new BigInteger();
      }
      var l, c, x := DivideNormalised(i, g, rest);
      if q != null {
        rest.ReadQuotient(q, l, sign != sign', v / w, Sound(v, w));
      }
      rest.Undo(l, c, sign, x);
    }

    /** Normalising and dividing: rest holds the scaled remainder in its low l digits and the quotient above; x is
        the remainder scaled back. */
    method DivideNormalised(i: BigInteger, g: BigInteger, rest: BigInteger) returns (l: nat, c: nat, ghost x: int)
      requires Valid() && s == 0 && i.Valid() && i.s == 0 && 0 < i.t <= t && i.Value() > 0 && Value() >= 0
      requires g != rest
      modifies g, rest
      ensures rest.s == 0 && l == old(i.t) <= rest.t && rest.Loose(l)
      ensures x == Val(rest.d, 0, l) / Pow2(c) && 0 <= x < Weight(l)
      ensures Sound(old(Value()), old(i.Value())) ==>
        && x == old(Value()) % old(i.Value())
        && rest.Valid() && Val(rest.d, l, rest.t - l) == old(Value()) / old(i.Value())
      ensures SoundFrom(old(Value()), old(i.Value()), 1) ==>
        (x == old(Value()) % old(i.Value()) <==> Sound(old(Value()), old(i.Value())))
    {
      ghost var v, w := Value(), i.Value();
      i.LengthOf();
      hide Val, Weight, Num, Pow2, Sound, SoundFrom, RoundsReach, Length, Gap, Proper, Wide;
      var y;
      y, c := Normalise(i, rest);
      l := y.t;
      ghost var p := Pow2(c);
      Unscale(v, w, p);
      y.SizeFits();
      SoundIs(v, w, c);
      rest.DivideDigits(y, g, v * p, w * p);
      ValBound(rest.d, 0, l);
      x := Val(rest.d, 0, l) / p;
      ScaledBack(Val(rest.d, 0, l), v, w, p, Weight(l));
      if Sound(v, w) {
        Unsigned(rest.d, rest.t);
        BufferParts(rest.d, rest.t, l, (v % w) * p, v / w);
        DivModUnique((v % w) * p, p, v % w, 0);
      }
    }

    /** The quotient from the top of the buffer, with its sign. */
    method ReadQuotient(q: BigInteger, l: nat, negative: bool, ghost value: int, ghost ok: bool)
      requires q != this && s == 0 && l <= t && Wide(d, l, t)
      requires ok ==> Valid() && Val(d, l, t - l) == value
      modifies q
      ensures ok ==> q.Valid() && q.Value() == (if negative then -1 else 1) * value
    {
      hide Val, Weight, Num;
      if ok {
        ProperPart(d, 0, t, l, t);
      }
      DRShiftTo(l, q);
      if ok {
        q.QuotientRead(d, t, l, value);
      }
      if negative {
        var zero := new BigInteger();
        ZeroDigits(zero.d, 0);
        zero.SubTo(q, q);
      }
    }

    /** y, rest := i * 2^c, this * 2^c, with c such that the divisor's top digit has its top bit set. */
    method Normalise(i: BigInteger, rest: BigInteger) returns (y: BigInteger, c: nat)
      requires Valid() && s == 0 && i.Valid() && i.s == 0 && 0 < i.t <= t && i.Value() > 0
      modifies rest
      ensures c == Gap(old(i.Value())) && y.t == old(i.t)
      ensures fresh(y) && c < DB && y.Valid() && y.s == 0 && y.Value() == ShiftedUp(old(i.Value()), c)
      ensures rest.Valid() && rest.s == 0 && rest.Value() == ShiftedUp(old(Value()), c)
      ensures 0 < y.t <= rest.t && 2 * y.d[y.t - 1] >= DV
    {
      SizeBounds();
      hide Val, Weight, Num, Pow2, NBits, Gap, Proper, ShiftedUp;
      ghost var l, n, u := i.t, t, Value();
      c := i.TopShift();
      y := ScaleBoth(i, rest, c);
      y.NormalLength(l);
      rest.StillAsLong(u, c, n);
    }

    lemma StillAsLong(u: nat, c: nat, n: nat)
      requires Valid() && s == 0 && Value() == ShiftedUp(u, c) && n > 0 && u >= Weight(n - 1)
      ensures t >= n
    {
      hide Val, Weight, Num, Pow2;
      TimesPower(u, c);
      LengthAtLeast(n);
    }

    static lemma TimesPower(u: nat, c: nat)
      ensures u * Pow2(c) >= u
    {
      MulGeOne(Pow2(c), u);
      assert Pow2(c) * u == u * Pow2(c);
    }

    /** The shift that the top digit asks for. */
    method TopShift() returns (c: nat)
      requires Valid() && s == 0 && t > 0
      ensures Value() > 0 && c == Gap(Value()) && c < DB
      ensures Weight(t) <= 2 * ShiftedUp(Value(), c) && ShiftedUp(Value(), c) < Weight(t)
    {
      GapOfThis();
      ProperDigit(d, 0, t, t - 1);
      hide Val, Weight, Num, NBits, Gap, ShiftedUp;
      c := DB - NBits(d[t - 1]);
    }

    lemma GapOfThis()
      requires Valid() && s == 0 && t > 0
      ensures var c := DB - NBits(d[t - 1]);
              && Value() > 0 && c == Gap(Value()) && 0 <= c < DB
              && Weight(t) <= 2 * ShiftedUp(Value(), c) && ShiftedUp(Value(), c) < Weight(t)
    {
      LengthOf();
      SizeBounds();
      TopBounds(d, t);
      Unsigned(d, t);
      ghost var v, top := Value(), d[t - 1];
      assert forall c: nat :: ShiftedUp(v, c) == v * Pow2(c);
      hide *;
      GapOfTop(v, t, top);
      GapNormal(v);
    }

    /** Divisor and dividend shifted by the same amount, or copied when it is 0. */
    method ScaleBoth(i: BigInteger, rest: BigInteger, c: nat) returns (y: BigInteger)
      requires Formed() && s == 0 && i.Valid() && i.s == 0
      modifies rest
      ensures fresh(y) && y.Valid() && y.s == 0 && y.Value() == ShiftedUp(old(i.Value()), c)
      ensures rest.Formed() && rest.s == 0 && rest.Value() == ShiftedUp(old(Value()), c)
      ensures old(Valid()) || c > 0 ==> rest.Valid()
      ensures c > 0 ==> forall k :: rest.t <= k < old(t) ==> k in rest.d && rest.d[k] == 0
      ensures c == 0 ==> rest.t == old(t)
    {
      hide Val, Weight, Num, Pow2;
      y := new BigInteger();
      if c > 0 {
        i.LShiftTo(c, y);
        LShiftTo(c, rest);
      } else {
        Pow2Zero();
        i.CopyTo(y);
        CopyTo(rest);
      }
    }

    lemma NormalLength(l: nat)
      requires Valid() && s == 0 && l > 0 && Weight(l) <= 2 * Value() && Value() < Weight(l)
      ensures t == l && 2 * d[t - 1] >= DV && Value() > 0
    {
      WeightNext(l - 1);
      MulUpper(Weight(l - 1), 2, DV);
      LengthIs(l);
      TopBounds(d, t);
      TopAtLeastHalf(Value(), d[t - 1], Weight(l - 1), DV);
    }

    lemma LengthAtLeast(n: nat)
      requires Valid() && s == 0 && n > 0 && Value() >= Weight(n - 1)
      ensures t >= n
    {
      SizeBounds();
      if t < n {
        WeightMonotone(t, n - 1);
      }
    }

    /** The remainder part of the buffer, shifted back, with its sign. */
    method Undo(l: nat, c: nat, sign: int, ghost r: int)
      requires Proper(d, 0, l) && s == 0 && r >= 0 && Val(d, 0, l) / Pow2(c) == r
      modifies this
      ensures Valid() && Value() == (if sign < 0 then -1 else 1) * r
    {
      hide Val, Weight, Num, Pow2;
      t := l;
      Unsigned(d, l);
      Clamp();
      if c > 0 {
        RShiftTo(c, this);
      } else {
        Pow2Zero();
      }
      if sign < 0 {
        var zero := new BigInteger();
        ZeroDigits(zero.d, 0);
        zero.SubTo(this, this);
      }
    }

    /** The quotient digits, shifted down. */
    lemma QuotientRead(d0: DigitMap, t0: nat, l: nat, q: int)
      requires Formed() && s == 0 && l <= t0 && t == t0 - l && Moved(d, 0, d0, l, t0 - l)
      requires Val(d0, l, t0 - l) == q && (t0 > l ==> At(d0, t0 - 1) != 0)
      ensures Valid() && Value() == q
    {
      ValMoved(d, 0, d0, l, t0 - l);
      Unsigned(d, t);
      assert t > 0 ==> At(d, t - 1) == At(d0, t0 - 1);
    }

    /** A buffer in the middle of a division: proper digits below n, a leading digit that is not 0. */
    ghost predicate Live(n: nat)
      reads this
    {
      s == 0 && n <= t && 0 < t && Loose(n) && Weight(t - 1) <= Val(d, 0, t)
    }

    /** this := this % o + (this / o) * DV^l for the normalised divisor o in y, if every estimate is good; y and g are
        scratch.  If only the last one is not, the low l digits hold a wrong remainder. */
    method DivideDigits(y: BigInteger, g: BigInteger, ghost n0: nat, ghost o: nat)
      requires y != this && g != this && y != g && Valid() && s == 0 && Value() == n0
      requires y.Valid() && y.s == 0 && y.Value() == o > 0 && 0 < y.t <= t && 2 * y.d[y.t - 1] >= DV
      modifies this, y, g
      ensures s == 0 && old(y.t) <= t && Loose(old(y.t))
      ensures RoundsReach(n0, o, old(y.t), 0) ==>
        Valid() && Value() == n0 % o + (n0 / o) * Weight(old(y.t))
      ensures RoundsReach(n0, o, old(y.t), 1) && !RoundsReach(n0, o, old(y.t), 0) ==>
        Fallen(Val(d, 0, old(y.t)), n0, o, old(y.t))
    {
      var l, u := y.t, y.d[y.t - 1];
      ghost var u2 := if l > 1 then y.d[l - 2] else 0;
      var h := u * Pow2(F1) + if l > 1 then Shr(y.d[l - 2], F2) else 0;
      DivisorLeads(y, u2, h);
      LengthOf();
      hide Val, Weight, Num, Shr, Pow2, Leading, Divided, HeadOf, RoundDigit, Length, Fallen, Progress, RoundsReach,
        Proper, Wide;
      var m, j := t, t - l;
      ghost var r0, q0 := FirstQuotientDigit(y, g, l, j, o);
      Complement(y, g, l, o);
      StartsLive(m);
      ProgressStart(n0, o, l, j, r0, q0);
      DivideRounds(y, g, l, j, u, h, n0, o, u2, r0, q0);
    }

    /** The rounds at places j0 - 1 down to 0. */
    method DivideRounds(y: BigInteger, g: BigInteger, l: nat, j0: nat, u: int, h: int, ghost n0: nat, ghost o: nat,
                        ghost u2: int, ghost r0: int, ghost q0: int)
      requires y != this && g != this && y != g && Progress(n0, o, l, j0, j0, true, r0, q0) && j0 == Length(n0) - l
      requires y.Formed() && y.t == l && y.s == 0 && Val(y.d, 0, l) == Weight(l) - o && 0 < o < Weight(l)
      requires Leading(o, l, u, u2) && h == HeadOf(u, u2)
      modifies this, g
      ensures s == 0 && l <= t && Loose(l)
      ensures RoundsReach(n0, o, l, 0) ==> Valid() && Value() == n0 % o + (n0 / o) * Weight(l)
      ensures RoundsReach(n0, o, l, 1) && !RoundsReach(n0, o, l, 0) ==> Fallen(Val(d, 0, l), n0, o, l)
    {
      hide Val, Weight, Num, Leading, HeadOf, Length, Fallen, Progress, RoundsReach, Proper, Wide;
      var j := j0;
      ghost var ok, r, q := true, r0, q0;
      while j > 0
        invariant 0 <= j <= j0
        invariant y.Formed() && y.t == l && y.s == 0 && Val(y.d, 0, l) == Weight(l) - o
        invariant Progress(n0, o, l, j, j0, ok, r, q)
      {
        j := j - 1;
        ok, r, q := DivideRound(y, g, l, j, u, h, n0, o, u2, j0, ok, r, q);
      }
      ProgressEnd(n0, o, l, j0, ok, r, q);
    }

    lemma ProgressStart(n0: nat, o: nat, l: nat, j: nat, r: int, q: int)
      requires Valid() && Live(l + j) && Divided(n0, o, l, j, Value(), r, q)
      ensures Progress(n0, o, l, j, j, true, r, q)
    {
      hide Divided, Reaches, Live;
    }

    lemma ProgressEnd(n0: nat, o: nat, l: nat, rounds: nat, ok: bool, r: int, q: int)
      requires Progress(n0, o, l, 0, rounds, ok, r, q) && rounds == Length(n0) - l && o > 0
      ensures s == 0 && l <= t && Loose(l)
      ensures RoundsReach(n0, o, l, 0) ==> Valid() && Value() == n0 % o + (n0 / o) * Weight(l)
      ensures RoundsReach(n0, o, l, 1) && !RoundsReach(n0, o, l, 0) ==> Fallen(Val(d, 0, l), n0, o, l)
    {
      hide Val, Weight, Num, Divided, Reaches, Length, Fallen;
      if ok {
        AllDivided(n0, o, l, Value(), r, q);
      }
    }

    /** Before the round at place j - 1 of so many rounds: ok while every estimate has reached its digit; the first one
        that does not, if it is the last, leaves a wrong remainder. */
    ghost predicate Progress(n0: nat, o: nat, l: nat, j: nat, rounds: nat, ok: bool, r: int, q: int)
      reads this
    {
      && Live(l + j) && (ok || DB == 26)
      && (ok <==> forall k :: j <= k < rounds ==> Reaches(n0, o, l, k))
      && (ok ==> Valid() && Divided(n0, o, l, j, Value(), r, q))
      && (!ok && (forall k :: 1 <= k < rounds ==> Reaches(n0, o, l, k)) ==>
            j == 0 && Fallen(Val(d, 0, l), n0, o, l))
    }

    /** One round at place j. */
    method DivideRound(y: BigInteger, g: BigInteger, l: nat, j: nat, u: int, h: int, ghost n0: nat, ghost o: nat,
                       ghost u2: int, ghost rounds: nat, ghost ok: bool, ghost r: int, ghost q: int)
      returns (ghost ok': bool, ghost r': int, ghost q': int)
      requires y != this && g != this && y != g && j < rounds && Progress(n0, o, l, j + 1, rounds, ok, r, q)
      requires y.Formed() && y.t == l && y.s == 0 && Val(y.d, 0, l) == Weight(l) - o && 0 < o < Weight(l)
      requires Leading(o, l, u, u2) && h == HeadOf(u, u2)
      modifies this, g
      ensures Progress(n0, o, l, j, rounds, ok', r', q')
    {
      hide Val, Weight, Num, Pow2, Leading, Divided, Reaches, HeadOf, RoundDigit, Fell, Fallen;
      ghost var x := Value();
      RoundAt(y, g, l, j, u, h, n0, o, u2, ok, r, q);
      if ok && !Reaches(n0, o, l, j) && j == 0 {
        LastFell(n0, o, l, x, r, q, Val(d, 0, l));
      }
      ok' := ok && Reaches(n0, o, l, j);
      r', q' := r - RoundDigit(o, j, r) * (o * Weight(j)), RoundDigit(o, j, r) + DV * q;
    }

    /** The two digits of the divisor that the estimate looks at. */
    lemma DivisorLeads(y: BigInteger, u2: int, h: int)
      requires y.Valid() && y.s == 0 && y.t > 0 && 2 * y.d[y.t - 1] >= DV
      requires u2 == (if y.t > 1 then y.d[y.t - 2] else 0)
      requires h == y.d[y.t - 1] * Pow2(F1) + if y.t > 1 then Shr(y.d[y.t - 2], F2) else 0
      ensures Leading(y.Value(), y.t, y.d[y.t - 1], u2) && h == HeadOf(y.d[y.t - 1], u2)
      ensures 0 < y.Value() < Weight(y.t) <= 2 * y.Value()
    {
      hide Pow2;
      Unsigned(y.d, y.t);
      LeadingOf(y.d, y.t);
      ValBound(y.d, 0, y.t);
      assert ToInt32(u2) == u2;
      WeightNext(y.t - 1);
      hide Val, Weight;
      HalfWeight(y.d[y.t - 1], Weight(y.t - 1), y.Value(), DV);
    }

    /** Brings the dividend below the divisor shifted by j; the digit above records whether it was. */
    method FirstQuotientDigit(y: BigInteger, g: BigInteger, l: nat, j: nat, ghost o: int) returns (ghost r: int,
                              ghost q: int)
      requires y != this && g != this && y != g && Valid() && s == 0 && t == l + j
      requires y.Valid() && y.s == 0 && y.Value() == o && y.t == l > 0
      requires 0 < o < Weight(l) <= 2 * o
      modifies this, g
      ensures Valid() && s == 0 && t >= old(t)
      ensures Divided(old(Value()), o, l, j, Value(), r, q)
    {
      SizeBounds();
      hide Val, Weight, Num, Divided;
      ghost var n0 := Value();
      y.DLShiftTo(j, g);
      assert At(g.d, j + l - 1) == At(y.d, l - 1);
      var c := CompareTo(g);
      FirstDigit(n0, o, l, j);
      if c >= 0 {
        TakeOut(g);
        r, q := n0 - o * Weight(j), 1;
      } else {
        r, q := n0, 0;
      }
    }

    /** The divisor, shifted to the length of this, comes out of a 1 put in front. */
    method TakeOut(g: BigInteger)
      requires g != this && Valid() && s == 0 && g.Formed()
      requires Weight(t) <= Value() + Weight(t) - g.Value() < Weight(t + 1)
      modifies this
      ensures Valid() && s == 0 && t == old(t) + 1
      ensures Value() == old(Value()) + Weight(old(t)) - old(g.Value())
    {
      hide Val, Weight, Num;
      ghost var n := t;
      AppendOne(d, t);
      PutAt(d, t, 1);
      d := d[t := 1];
      t := t + 1;
      SubTo(g, this);
      SignIsSign();
      LengthIs(n + 1);
    }

    /** y := DV^l - y, in exactly l digits. */
    method Complement(y: BigInteger, g: BigInteger, l: nat, ghost o: int)
      requires y != g && y.Valid() && y.s == 0 && y.Value() == o && y.t == l && 0 < o < Weight(l)
      modifies y, g
      ensures y.Formed() && y.t == l && y.s == 0 && Val(y.d, 0, l) == Weight(l) - o
    {
      hide Val, Weight, Num;
      var one := new BigInteger();
      one.FromInt(1);
      one.DLShiftTo(l, g);
      g.SubTo(y, y);
      y.SignIsSign();
      y.LengthAtMost(l);
      while y.t < l
        invariant y.t <= l && y.Formed() && y.s == 0 && y.Value() == Weight(l) - o
      {
        AppendZero(y.d, y.t);
        PutAt(y.d, y.t, 0);
        y.d := y.d[y.t := 0];
        y.t := y.t + 1;
      }
      Unsigned(y.d, l);
    }

    lemma StartsLive(n: nat)
      requires Valid() && s == 0 && n <= t && 0 < t
      ensures Live(n)
    {
      SizeBounds();
      LooseOf(n);
      Unsigned(d, t);
    }

    /** The estimate of a round and the digit it leads to. */
    method RoundAt(y: BigInteger, g: BigInteger, l: nat, j: nat, u: int, h: int, ghost n0: nat, ghost o: nat,
                   ghost u2: int,
                   ghost ok: bool, ghost r: int, ghost q: int)
      requires y != this && g != this && y != g && Live(l + j + 1)
      requires y.Formed() && y.t == l && y.s == 0 && Val(y.d, 0, l) == Weight(l) - o && 0 < o < Weight(l)
      requires Leading(o, l, u, u2) && h == HeadOf(u, u2)
      requires ok ==> Valid() && Divided(n0, o, l, j + 1, Value(), r, q)
      requires ok || DB == 26
      modifies this, g
      ensures Live(l + j) && t >= old(t)
      ensures ok && Reaches(n0, o, l, j) ==>
        Valid() && Divided(n0, o, l, j, Value(), r - RoundDigit(o, j, r) * (o * Weight(j)), RoundDigit(o, j,
            r) + DV * q)
      ensures ok && !Reaches(n0, o, l, j) ==> DB == 26 && Fell(Val(d, 0, l + j), r, o, l, j)
    {
      HeadNormal(u, u2);
      hide Val, Weight, Num, Pow2, Leading, Divided, RoundDigit, Corrected, RoundValue, Round, Estimate, HeadOf, Normal,
        Reaches, Fell;
      var m := l + j;
      if ok {
        Unsigned(d, t);
        ReachesIs(d, t, n0, o, l, j, Value(), r, q, u, u2);
        RoundIsDivided(n0, o, l, j, Value(), r, q);
      }
      EstimateAtMost(d[m], d[m - 1], h);
      var v := if d[m] == u then DM else Estimate(d[m], d[m - 1], h);
      DivideDigit(y, g, l, j, v, o, r, q, ok);
    }

    /** y, which is DV^l - o, goes in as often as estimated, and comes out again until the digit in place l + j is
        not below the number of times left: the true one, unless the estimate was below it. */
    method DivideDigit(y: BigInteger, g: BigInteger, l: nat, j: nat, estimate: int, ghost o: int, ghost r: int,
                       ghost q: int, ghost ok: bool)
      requires y != this && g != this && y != g && Live(l + j + 1)
      requires y.Formed() && y.t == l && y.s == 0 && Val(y.d, 0, l) == Weight(l) - o && 0 < o < Weight(l)
      requires 0 <= estimate < MULTIPLIERS
      requires ok ==> Valid() && Round(o, l, j, r, q) && Value() == RoundValue(l, j, r, q)
      requires ok ==> RoundDigit(o, j, r) - 1 <= estimate <= DV
      requires DB == 26 || (ok && RoundDigit(o, j, r) <= estimate)
      modifies this, g
      ensures Live(l + j) && t >= old(t)
      ensures ok && RoundDigit(o, j, r) <= estimate ==>
        Valid() && t == old(t) && Value() == Corrected(o, l, j, r, q, RoundDigit(o, j, r))
      ensures ok && estimate < RoundDigit(o, j, r) ==> Fell(Val(d, 0, l + j), r, o, l, j)
      ensures ok ==>
        (Val(d, 0, l + j) == r - RoundDigit(o, j, r) * (o * Weight(j)) <==> RoundDigit(o, j, r) <= estimate)
    {
      hide Val, Weight, Num, Round, RoundValue, RoundDigit, Corrected, Fell;
      ghost var n, x0, good := t, Val(d, 0, t), ok && RoundDigit(o, j, r) <= estimate;
      Unsigned(d, t);
      var v := estimate;
      ApplyEstimate(y, l, j, v, o, r, q, ok);
      if ok && !(d[l + j] < v) {
        Unsigned(d, t);
        CorrectedIs(o, l, j, r, q, v);
      }
      if d[l + j] < v {
        y.DLShiftTo(j, g);
        Unsigned(y.d, l);
        AddBack(g, l, j, v, o, r, q, good, n, x0);
        v := v - 1;
        while d[l + j] < v
          invariant s == 0 && t >= n && Live(l + j) && l + j < t && 0 <= v <= estimate
          invariant Val(d, 0, t) == x0 + (v * (Weight(l) - o)) * Weight(j)
          invariant good ==> Valid() && t == n && RoundDigit(o, j, r) <= v
          invariant good ==> (d[l + j] < v <==> v > RoundDigit(o, j, r))
          invariant g.Formed() && g.t == l + j && g.Value() == (Weight(l) - o) * Weight(j)
          decreases v
        {
          AddBack(g, l, j, v, o, r, q, good, n, x0);
          v := v - 1;
        }
        Unsigned(d, t);
        CorrectedIs(o, l, j, r, q, v);
      }
      if good {
        ReachedRest(d, t, o, l, j, r, q);
      } else if ok {
        FellIsWrong(Val(d, 0, l + j), r, o, l, j, q);
      }
    }

    /** The multiply-accumulate of a round. */
    method ApplyEstimate(y: BigInteger, l: nat, j: nat, v: int, ghost o: int, ghost r: int, ghost q: int,
                         ghost ok: bool)
      requires y != this && Live(l + j + 1)
      requires y.Formed() && y.t == l && y.s == 0 && Val(y.d, 0, l) == Weight(l) - o && 0 < o < Weight(l)
      requires 0 <= v < MULTIPLIERS
      requires ok ==> Valid() && Round(o, l, j, r, q) && Value() == RoundValue(l, j, r, q)
      requires ok ==> RoundDigit(o, j, r) - 1 <= v <= DV
      requires DB == 26 || (ok && RoundDigit(o, j, r) <= v)
      modifies this`d
      ensures Live(l + j)
      ensures Val(d, 0, t) == old(Val(d, 0, t)) + (v * (Weight(l) - o)) * Weight(j)
      ensures ok && RoundDigit(o, j, r) <= v ==> Valid() && (d[l + j] < v <==> v > RoundDigit(o, j, r))
      ensures ok && v < RoundDigit(o, j, r) ==> v <= d[l + j] && Fell(Val(d, 0, l + j), r, o, l, j)
    {
      hide Val, Weight, Num, Round, RoundValue, RoundDigit, Corrected, Fell, Outside, Same;
      ghost var d0, m := d, l + j;
      ghost var d1, carry := AddMultiple(y, l, j, v);
      GainNotNegative(v, Weight(l) - o, Weight(j));
      Unsigned(d0, t);
      Unsigned(d, t);
      if ok && RoundDigit(o, j, r) <= v {
        KeepsRange(d1, d0, j, m, t);
        OutsideSame(d1, d0, j, m, t);
        TopGrows(d0, d1, t, j, l, carry);
        AfterKernel(d0, d1, y.d, t, o, l, j, r, q, v, carry);
        ProperDigit(d, 0, t, t - 1);
        ProperDigit(d0, 0, t, t - 1);
        LooseOf(m);
        DigitTells(d, t, o, l, j, r, q, v);
      } else {
        AddedWide(d0, d1, d, j, m, t, carry);
        if ok {
          CorrectedIs(o, l, j, r, q, v);
          MissedDigit(d0, d, t, o, l, j, r, q, v);
        }
      }
    }

    /** this += v * y * DV^j, the carry going into the digit above y. */
    method AddMultiple(y: BigInteger, l: nat, j: nat, v: int) returns (ghost d1: DigitMap, ghost carry: int)
      requires y != this && l + j < t && Proper(d, 0, l + j + 1) && Wide(d, l + j + 1, t) && Proper(y.d, 0, l)
      requires 0 <= v < MULTIPLIERS
      modifies this`d
      ensures 0 <= carry < MULTIPLIERS && Proper(d1, j, l + j) && Outside(d1, old(d), j, l + j)
      ensures l + j in d1 && d == d1[l + j := d1[l + j] + carry]
      ensures Val(d1, j, l) + carry * Weight(l) == Val(old(d), j, l) + v * Val(y.d, 0, l)
      ensures Val(d, 0, t) == old(Val(d, 0, t)) + (v * Val(y.d, 0, l)) * Weight(j)
    {
      hide Val, Weight;
      ghost var d0 := d;
      ProperPart(d, 0, l + j + 1, j, l + j);
      var c := y.Am(0, v, this, j, 0, l);
      d1, carry := d, c;
      WideRange(d1, d0, j, l + j, t);
      hide Outside;
      AmEffect(d0, d1, t, j, l, v * Val(y.d, 0, l), c);
      ProperDigit(d1, 0, l + j + 1, l + j);
      d := d[l + j := d[l + j] + c];
    }

    /** One correction. */
    method AddBack(g: BigInteger, l: nat, j: nat, ghost v: int, ghost o: int, ghost r: int, ghost q: int,
                   ghost good: bool, ghost n: nat, ghost x0: int)
      requires g != this && Live(l + j) && l + j < n <= t && 0 < v
      requires 0 < o < Weight(l) && g.Formed() && g.t == l + j && g.Value() == (Weight(l) - o) * Weight(j)
      requires Val(d, 0, t) == x0 + (v * (Weight(l) - o)) * Weight(j) && Weight(n - 1) <= x0
      requires good ==> Valid() && t == n && Round(o, l, j, r, q) && x0 == RoundValue(l, j, r, q)
      requires good ==> RoundDigit(o, j, r) < v <= DV
      modifies this
      ensures Valid() && s == 0 && t >= n && Live(l + j)
      ensures Val(d, 0, t) == x0 + ((v - 1) * (Weight(l) - o)) * Weight(j)
      ensures good ==> t == n && (d[l + j] < v - 1 <==> v - 1 > RoundDigit(o, j, r))
    {
      hide Val, Weight, Num, Round, RoundValue, RoundDigit, Corrected;
      ghost var high := Weight(t);
      Unsigned(d, t);
      OneLess(v, Weight(l) - o, Weight(j));
      GainNotNegative(v - 1, Weight(l) - o, Weight(j));
      if good {
        SizeFits();
      }
      SubTo(g, this);
      SignIsSign();
      LengthAtLeast(n);
      StartsLive(l + j);
      Unsigned(d, t);
      if good {
        LengthAtMost(n);
        CorrectedIs(o, l, j, r, q, v - 1);
        DigitTells(d, t, o, l, j, r, q, v - 1);
      }
    }
  }
}
