/** Little-endian digit maps in base DV = 2^DB and the numbers they stand for.

    A BigInteger keeps its digits as numeric properties of a growing object, so they are a
    map from index to digit; properties past the length `t` may hold stale digits.
 */
module Digits {
  import opened JsInt

  /** 2^26 under am1, 2^28 under am3 and 2^30 under am2: the browser decides once. */
  type Base = b: int | b == 0x400_0000 || b == 0x1000_0000 || b == 0x4000_0000 witness 0x1000_0000

  const RADIX: Base
  const DV: int := RADIX
  const DM: int := DV - 1
  const DB: int := if DV == 0x400_0000 then 26 else if DV == 0x1000_0000 then 28 else 30

  type DigitMap = map<int, int>

  lemma BaseIsPower()
    ensures DV == Pow2(DB)
  {
    Pow2Values();
  }

  /** DV^n */
  function Weight(n: nat): (r: int)
    ensures r >= 1
  {
    if n == 0 then 1 else DV * Weight(n - 1)
  }

  lemma {:induction false} WeightAdd(a: nat, b: nat)
    ensures Weight(a + b) == Weight(a) * Weight(b)
  {
    if b > 0 {
      WeightAdd(a, b - 1);
      MulSwap(DV, Weight(a), Weight(b - 1));
    }
  }

  lemma WeightNext(n: nat)
    ensures Weight(n + 1) == DV * Weight(n)
  {
  }

  lemma WeightMonotone(a: nat, b: nat)
    requires a <= b
    ensures Weight(a) <= Weight(b)
  {
    if a < b {
      WeightMonotone(a, b - 1);
      MulGeOne(DV, Weight(b - 1));
    }
  }

  lemma Distribute(a: int, b: int, w: int)
    ensures (a + b) * w == a * w + b * w
    ensures (a - b) * w == a * w - b * w
  {
  }

  lemma MulSwap(a: int, b: int, c: int)
    ensures a * (b * c) == b * (a * c)
  {
  }

  lemma MulGeOne(a: int, w: int)
    requires a >= 1 && w >= 0
    ensures a * w >= w
  {
  }

  function At(d: DigitMap, k: int): int {
    if k in d then d[k] else 0
  }

  /** A written digit changes one position. */
  lemma PutAt(d: DigitMap, k: int, x: int)
    ensures forall m {:trigger At(d[k := x], m)} :: At(d[k := x], m) == if m == k then x else At(d, m)
  {
  }

  /** The number written by the n digits from index lo on, the first having weight 1. */
  ghost function Val(d: DigitMap, lo: int, n: nat): int {
    if n == 0 then 0 else Val(d, lo, n - 1) + At(d, lo + n - 1) * Weight(n - 1)
  }

  /** The number with t digits and sign word s. */
  ghost function Num(d: DigitMap, t: nat, s: int): int {
    Val(d, 0, t) + s * Weight(t)
  }

  /** Indices lo..hi hold proper digits. */
  ghost predicate Proper(d: DigitMap, lo: int, hi: int) {
    forall k {:trigger k in d} {:trigger At(d, k)} :: lo <= k < hi ==> k in d && 0 <= d[k] < DV
  }

  /** What a quotient digit may hold once an estimate has been too low: with 26-bit digits, more than a digit. */
  const WIDE: int := if DB == 26 then 8 * DV else DV

  ghost predicate Wide(d: DigitMap, lo: int, hi: int) {
    forall k {:trigger k in d} {:trigger At(d, k)} :: lo <= k < hi ==> k in d && 0 <= d[k] < WIDE
  }

  ghost predicate Same(d: DigitMap, e: DigitMap, lo: int, hi: int) {
    forall k {:trigger At(d, k)} {:trigger At(e, k)} :: lo <= k < hi ==> At(d, k) == At(e, k)
  }

  /** From index lo on nothing has been written. */
  ghost predicate Keeps(d: DigitMap, d0: DigitMap, lo: int) {
    forall k {:trigger k in d} {:trigger At(d, k)} :: lo <= k ==> (k in d <==> k in d0) && At(d, k) == At(d0, k)
  }

  /** Nothing changed but the digits from lo to hi. */
  ghost predicate Outside(d: DigitMap, d0: DigitMap, lo: int, hi: int) {
    && d.Keys == d0.Keys
    && forall k {:trigger At(d, k)} {:trigger At(d0, k)} :: k < lo || hi <= k ==> At(d, k) == At(d0, k)
  }

  lemma KeepsProper(d: DigitMap, d0: DigitMap, lo: int, hi: int)
    requires Keeps(d, d0, lo) && Proper(d0, lo, hi)
    ensures Proper(d, lo, hi) && Same(d, d0, lo, hi)
  {
    forall k | lo <= k < hi ensures k in d && 0 <= d[k] < DV {
      assert At(d, k) == At(d0, k) && k in d0;
    }
  }

  lemma ProperPart(d: DigitMap, lo: int, hi: int, lo': int, hi': int)
    requires Proper(d, lo, hi) && lo <= lo' && hi' <= hi
    ensures Proper(d, lo', hi')
  {
    forall k | lo' <= k < hi' ensures k in d && 0 <= d[k] < DV {
      assert k in d && At(d, k) == d[k];
    }
  }

  lemma ProperIsWide(d: DigitMap, lo: int, hi: int)
    requires Proper(d, lo, hi)
    ensures Wide(d, lo, hi)
  {
    forall k | lo <= k < hi ensures k in d && 0 <= d[k] < WIDE {
      assert k in d && At(d, k) == d[k];
    }
  }

  lemma WidePut(d: DigitMap, lo: int, hi: int, x: int)
    requires Wide(d, lo, hi) && 0 <= x < WIDE
    ensures Wide(d[hi := x], lo, hi + 1)
  {
    var e := d[hi := x];
    forall k | lo <= k < hi + 1 ensures k in e && 0 <= e[k] < WIDE {
      assert k != hi ==> k in d && At(d, k) == d[k];
    }
  }

  lemma WideDigit(d: DigitMap, lo: int, hi: int, k: int)
    requires Wide(d, lo, hi) && lo <= k < hi
    ensures k in d && d[k] == At(d, k) && 0 <= d[k] < WIDE
  {
  }

  lemma SameAt(d: DigitMap, e: DigitMap, lo: int, hi: int, k: int)
    requires Same(d, e, lo, hi) && lo <= k < hi
    ensures At(d, k) == At(e, k)
  {
  }

  /** Writing below the digits that are still to be read. */
  lemma TailKept(d: DigitMap, e: DigitMap, i: int, hi: int, k: int, x: int)
    requires Same(d, e, i, hi) && Wide(d, i, hi) && k <= i
    ensures Same(d[k := x], e, i + 1, hi) && Wide(d[k := x], i + 1, hi)
    ensures Same(d, e, i + 1, hi) && Wide(d, i + 1, hi)
  {
    var f := d[k := x];
    forall m | i + 1 <= m < hi
      ensures m in f && At(f, m) == At(d, m) && m in d && 0 <= d[m] < WIDE
    {
      assert m in d && At(d, m) == d[m];
    }
  }

  lemma KeepsAll(e: DigitMap, n: int)
    ensures Keeps(e, e, n)
  {
  }

  /** One more digit of a result. */
  lemma OneMore(e: DigitMap, e0: DigitMap, n: int, x: int)
    requires Proper(e, 0, n) && Keeps(e, e0, n) && 0 <= x < DV
    ensures Proper(e[n := x], 0, n + 1) && Keeps(e[n := x], e0, n + 1)
  {
    var f := e[n := x];
    forall k | 0 <= k < n + 1
      ensures k in f && 0 <= f[k] < DV
    {
      assert k != n ==> k in e && At(e, k) == e[k];
    }
    forall k | n + 1 <= k
      ensures (k in f <==> k in e0) && At(f, k) == At(e0, k)
    {
      assert At(e, k) == At(e0, k) && (k in e <==> k in e0);
    }
  }

  /** The same for proper digits. */
  lemma TailProper(d: DigitMap, e: DigitMap, i: int, hi: int, k: int, x: int)
    requires Same(d, e, i, hi) && Proper(d, i, hi) && k <= i < hi
    ensures Same(d[k := x], e, i + 1, hi) && Proper(d[k := x], i + 1, hi)
    ensures Same(d, e, i + 1, hi) && Proper(d, i + 1, hi)
    ensures i in d && d[i] == At(e, i) && 0 <= d[i] < DV
  {
    var f := d[k := x];
    assert At(d, i) == At(e, i);
    forall m | i + 1 <= m < hi
      ensures m in f && At(f, m) == At(d, m) && m in d && 0 <= d[m] < DV
    {
      assert m in d && At(d, m) == d[m];
    }
  }

  /** One digit moved n places down. */
  lemma DownStep(e: DigitMap, d: DigitMap, n: int, k: nat, x: int)
    requires Moved(e, 0, d, n, k) && Wide(e, 0, k) && x == At(d, n + k) && 0 <= x < WIDE
    ensures Moved(e[k := x], 0, d, n, k + 1) && Wide(e[k := x], 0, k + 1)
  {
    WidePut(e, 0, k, x);
    PutAt(e, k, x);
    var f := e[k := x];
    forall m | 0 <= m < k + 1
      ensures At(f, m) == At(d, m + n)
    {
      assert m < k ==> At(e, m) == At(d, m + n);
    }
  }

  lemma NothingMoved(e: DigitMap, d: DigitMap, n: int, hi: int)
    ensures Moved(e, 0, d, n, 0) && Wide(e, 0, 0) && Same(d, d, n, hi)
  {
  }

  lemma KeepsWide(d: DigitMap, d0: DigitMap, lo: int, hi: int)
    requires Keeps(d, d0, lo) && Wide(d0, lo, hi)
    ensures Wide(d, lo, hi) && Same(d, d0, lo, hi)
  {
    forall k | lo <= k < hi ensures k in d && 0 <= d[k] < WIDE {
      assert At(d, k) == At(d0, k) && k in d0;
    }
  }

  /** Moving digits does not make them wider. */
  lemma MovedProper(d: DigitMap, i: int, e: DigitMap, j: int, n: int)
    requires Moved(d, i, e, j, n) && Wide(d, i, i + n) && Proper(e, j, j + n)
    ensures Proper(d, i, i + n)
  {
    forall k | i <= k < i + n ensures k in d && 0 <= d[k] < DV {
      assert At(d, k) == At(e, k - i + j);
    }
  }

  lemma ProperJoin(d: DigitMap, lo: int, mid: int, hi: int)
    requires Proper(d, lo, mid) && Proper(d, mid, hi)
    ensures Proper(d, lo, hi)
  {
  }

  /** The digits of d from i on are those of e from j on, n of them. */
  ghost predicate Moved(d: DigitMap, i: int, e: DigitMap, j: int, n: int) {
    forall k {:trigger At(d, k)} :: i <= k < i + n ==> At(d, k) == At(e, k - i + j)
  }

  lemma MovedKeeps(d: DigitMap, d1: DigitMap, i: int, e: DigitMap, j: int, n: int)
    requires Moved(d1, i, e, j, n) && Keeps(d, d1, i)
    ensures Moved(d, i, e, j, n)
  {
    forall k | i <= k < i + n ensures At(d, k) == At(e, k - i + j) {
      assert At(d1, k) == At(e, k - i + j);
    }
  }

  lemma {:induction false} ValMoved(d: DigitMap, i: int, e: DigitMap, j: int, n: nat)
    requires Moved(d, i, e, j, n)
    ensures Val(d, i, n) == Val(e, j, n)
  {
    if n > 0 {
      ValMoved(d, i, e, j, n - 1);
      assert At(d, i + n - 1) == At(e, j + n - 1);
    }
  }

  lemma ValFrame(d: DigitMap, e: DigitMap, lo: int, n: nat)
    requires Same(d, e, lo, lo + n)
    ensures Val(d, lo, n) == Val(e, lo, n)
  {
    ValMoved(d, lo, e, lo, n);
  }

  lemma SplitStep(p: int, v: int, x: int, w: int)
    ensures p * (v + x * w) == p * v + x * (p * w)
  {
  }

  lemma {:induction false} ValSplit(d: DigitMap, lo: int, a: nat, b: nat)
    ensures Val(d, lo, a + b) == Val(d, lo, a) + Weight(a) * Val(d, lo + a, b)
  {
    if b > 0 {
      ValSplit(d, lo, a, b - 1);
      WeightAdd(a, b - 1);
      SplitStep(Weight(a), Val(d, lo + a, b - 1), At(d, lo + a + b - 1), Weight(b - 1));
    }
  }

  lemma BoundStep(x: int, w: int, b: int)
    requires 0 <= x < b && w >= 0
    ensures 0 <= x * w <= b * w - w
  {
    assert x * w <= (b - 1) * w;
  }

  lemma {:induction false} ValBound(d: DigitMap, lo: int, n: nat)
    requires Proper(d, lo, lo + n)
    ensures 0 <= Val(d, lo, n) < Weight(n)
  {
    if n > 0 {
      ValBound(d, lo, n - 1);
      BoundStep(At(d, lo + n - 1), Weight(n - 1), DV);
    }
  }

  lemma {:induction false} ValZero(d: DigitMap, lo: int, n: nat)
    requires forall k :: lo <= k < lo + n ==> At(d, k) == 0
    ensures Val(d, lo, n) == 0
  {
    if n > 0 {
      ValZero(d, lo, n - 1);
    }
  }

  lemma ValHead(d: DigitMap, lo: int, n: nat)
    requires n > 0
    ensures Val(d, lo, n) == At(d, lo) + DV * Val(d, lo + 1, n - 1)
  {
    ValSplit(d, lo, 1, n - 1);
    assert Val(d, lo, 1) == At(d, lo) * Weight(0);
    assert Weight(1) == DV * Weight(0);
  }

  /** Replacing one digit changes the number by the difference times its weight. */
  lemma {:induction false} ValPut(d: DigitMap, lo: int, n: nat, k: int, x: int)
    requires lo <= k < lo + n
    ensures Val(d[k := x], lo, n) == Val(d, lo, n) + (x - At(d, k)) * Weight(k - lo)
  {
    var e := d[k := x];
    if k == lo + n - 1 {
      ValFrame(d, e, lo, n - 1);
      var w := Weight(n - 1);
      assert x * w == At(d, k) * w + (x - At(d, k)) * w;
    } else {
      ValPut(d, lo, n - 1, k, x);
    }
  }

  /** Rewriting the m digits at mid changes the number by the change there times the weight. */
  lemma ValRange(d: DigitMap, e: DigitMap, mid: nat, m: nat, n: nat)
    requires mid + m <= n && Same(d, e, 0, mid) && Same(d, e, mid + m, n)
    ensures Val(e, 0, n) == Val(d, 0, n) + Weight(mid) * (Val(e, mid, m) - Val(d, mid, m))
  {
    hide Val, Weight;
    var rest := n - mid - m;
    ValFrame(d, e, 0, mid);
    ValFrame(d, e, mid + m, rest);
    RangeSum(d, e, mid, m, rest, n);
  }

  lemma RangeSum(d: DigitMap, e: DigitMap, mid: nat, m: nat, rest: nat, n: nat)
    requires n == mid + m + rest
    requires Val(d, 0, mid) == Val(e, 0, mid) && Val(d, mid + m, rest) == Val(e, mid + m, rest)
    ensures Val(e, 0, n) == Val(d, 0, n) + Weight(mid) * (Val(e, mid, m) - Val(d, mid, m))
  {
    hide Val, Weight;
    ValThree(d, mid, m, rest);
    ValThree(e, mid, m, rest);
    RangeAlgebra(Weight(mid), Val(d, mid, m), Val(e, mid, m), Weight(m) * Val(d, mid + m, rest));
  }

  lemma RangeAlgebra(w: int, md: int, me: int, rest: int)
    ensures (me + rest) * w == (md + rest) * w + w * (me - md)
  {
  }

  lemma ValThree(d: DigitMap, mid: nat, m: nat, rest: nat)
    ensures Val(d, 0, mid + m + rest) == Val(d, 0, mid) + (Val(d, mid, m) + Weight(m) * Val(d, mid + m,
        rest)) * Weight(mid)
  {
    hide Val, Weight;
    ValSplit(d, 0, mid, m + rest);
    ValSplit(d, mid, m, rest);
  }
}
