/** The adaptive model of QUIC: buckets of counters that choose the code parameter. */
module QuicModel {
  import opened JsInt
  import opened QuicBits
  import opened QuicGolomb

  // ---------------------------------------------------------------- one bucket

  datatype Bucket = Bucket(bestcode: nat, counters: seq<nat>)

  predicate Wf(b: Bucket) {
    b.bestcode < 8 && |b.counters| == 8
  }

  /** The bits that each parameter would have spent so far. */
  function Grown(counters: seq<nat>, v: nat): (g: seq<nat>)
    requires |counters| == 8
    ensures |g| == 8
  {
    seq(8, i requires 0 <= i < 8 => counters[i] + CodeLen(v, i))
  }

  function Halved(counters: seq<nat>): (h: seq<nat>)
    ensures |h| == |counters|
  {
    seq(|counters|, i requires 0 <= i < |counters| => counters[i] / 2)
  }

  /** The cheapest parameter from i on; of equally cheap ones the greatest. */
  function Best(counters: seq<nat>, i: nat): (b: nat)
    requires i < |counters|
    ensures i <= b < |counters|
    ensures forall k :: i <= k < |counters| ==> counters[b] <= counters[k] && (k > b ==> counters[b] < counters[k])
    decreases |counters| - i
  {
    if i == |counters| - 1 then i
    else
      var b := Best(counters, i + 1);
      if counters[b] > counters[i] then i else b
  }

  function Updated(b: Bucket, trigger: nat, v: nat): (u: Bucket)
    requires Wf(b)
    ensures Wf(u)
  {
    var counters := Grown(b.counters, v);
    var best := Best(counters, 0);
    Bucket(best, if counters[best] > trigger then Halved(counters) else counters)
  }

  // ---------------------------------------------------------------- what one sample does

  /** The bits spent under parameter k, with v written as well. */
  function Cost(before: seq<nat>, v: nat, k: nat): nat
    requires |before| == 8 && k < 8
  {
    before[k] + |Codeword(k, v)|
  }

  /** From the counters before to the bucket after a value: the chosen parameter is the last of the cheapest ones, and
      every counter has grown by its codeword, and is halved exactly when the least is above the trigger. */
  predicate Adapts(before: seq<nat>, trigger: nat, v: nat, after: Bucket) {
    var best := after.bestcode;
    && |before| == 8 && Wf(after)
    && (forall k :: 0 <= k < 8 ==> Cost(before, v, best) <= Cost(before, v, k))
    && (forall k :: best < k < 8 ==> Cost(before, v, best) < Cost(before, v, k))
    && forall k :: 0 <= k < 8 ==>
         after.counters[k] == if Cost(before, v, best) > trigger then Cost(before, v, k) / 2 else Cost(before, v, k)
  }

  lemma GrownIsCost(counters: seq<nat>, v: nat)
    requires |counters| == 8
    ensures forall k :: 0 <= k < 8 ==> Grown(counters, v)[k] == Cost(counters, v, k)
  {
    hide Codeword, CodeLen;
    forall k | 0 <= k < 8
      ensures Grown(counters, v)[k] == Cost(counters, v, k)
    {
      CodewordLength(k, v);
    }
  }

  /** The update is the one bucket that this allows. */
  lemma UpdateAdapts(b: Bucket, trigger: nat, v: nat, u: Bucket)
    requires Wf(b)
    ensures Adapts(b.counters, trigger, v, u) <==> u == Updated(b, trigger, v)
  {
    hide Cost, Grown, Best;
    GrownIsCost(b.counters, v);
    var g := Grown(b.counters, v);
    var best := Best(g, 0);
    if Adapts(b.counters, trigger, v, u) {
      assert Cost(b.counters, v, best) == g[best] && Cost(b.counters, v, u.bestcode) == g[u.bestcode];
      assert u.bestcode == best;
      assert u.counters == Updated(b, trigger, v).counters;
    }
  }

  // ---------------------------------------------------------------- every run of updates

  datatype Sample = Sample(trigger: nat, value: nat)

  function AfterSamples(b: Bucket, samples: seq<Sample>): (u: Bucket)
    requires Wf(b)
    ensures Wf(u)
  {
    if samples == [] then b
    else
      var last := samples[|samples| - 1];
      Updated(AfterSamples(b, samples[..|samples| - 1]), last.trigger, last.value)
  }

  /** The values of the samples as one text of codewords with parameter c. */
  function Written(samples: seq<Sample>, c: nat): Bits
    requires c < 8
  {
    if samples == [] then []
    else Written(samples[..|samples| - 1], c) + Codeword(c, samples[|samples| - 1].value)
  }

  /** Under some parameter the values are written in no more bits than the trigger. */
  predicate Cheap(b: Bucket, samples: seq<Sample>, trigger: nat)
    requires Wf(b)
  {
    exists c :: 0 <= c < 8 && b.counters[c] + |Written(samples, c)| <= trigger
  }

  /** As long as some parameter is cheap enough after every sample, each counter has grown by the length of the text
      under its parameter, and the parameter chosen is the last of those with the shortest. */
  lemma {:induction false} CountersAreLengths(b: Bucket, samples: seq<Sample>)
    requires Wf(b) && forall n :: 0 <= n < |samples| ==> Cheap(b, samples[..n + 1], samples[n].trigger)
    ensures forall c :: 0 <= c < 8 ==>
                          AfterSamples(b, samples).counters[c] == b.counters[c] + |Written(samples, c)|
    ensures var u := AfterSamples(b, samples);
            samples != [] ==> forall c :: 0 <= c < 8 ==>
                                            && u.counters[u.bestcode] <= u.counters[c]
                                            && (u.bestcode < c ==> u.counters[u.bestcode] < u.counters[c])
  {
    if samples != [] {
      var n := |samples| - 1;
      var before, last := AfterSamples(b, samples[..n]), samples[n];
      forall k | 0 <= k < n
        ensures Cheap(b, samples[..n][..k + 1], samples[..n][k].trigger)
      {
        assert samples[..n][..k + 1] == samples[..k + 1];
      }
      CountersAreLengths(b, samples[..n]);
      assert Cheap(b, samples[..n + 1], last.trigger) && samples[..n + 1] == samples;
      LastOfRun(b, samples, before, last);
    }
  }

  lemma LastOfRun(b: Bucket, samples: seq<Sample>, before: Bucket, last: Sample)
    requires Wf(b) && samples != [] && last == samples[|samples| - 1] && Cheap(b, samples, last.trigger)
    requires before == AfterSamples(b, samples[..|samples| - 1])
    requires forall c :: 0 <= c < 8 ==>
                           before.counters[c] == b.counters[c] + |Written(samples[..|samples| - 1], c)|
    ensures forall c :: 0 <= c < 8 ==>
                          AfterSamples(b, samples).counters[c] == b.counters[c] + |Written(samples, c)|
    ensures var u := AfterSamples(b, samples);
            forall c :: 0 <= c < 8 ==>
                          && u.counters[u.bestcode] <= u.counters[c]
                          && (u.bestcode < c ==> u.counters[u.bestcode] < u.counters[c])
  {
    var u := AfterSamples(b, samples);
    hide Codeword, Updated;
    assert u == Updated(before, last.trigger, last.value);
    UpdateAdapts(before, last.trigger, last.value, u);
    forall c | 0 <= c < 8
      ensures Cost(before.counters, last.value, c) == b.counters[c] + |Written(samples, c)|
    {
    }
    var cheap :| 0 <= cheap < 8 && b.counters[cheap] + |Written(samples, cheap)| <= last.trigger;
    hide Written, AfterSamples;
    assert Cost(before.counters, last.value, u.bestcode) <= Cost(before.counters, last.value, cheap);
  }

  /** reste(bestcode) */
  function FreshBucket(bestcode: nat): Bucket {
    Bucket(bestcode, [0, 0, 0, 0, 0, 0, 0, 0])
  }

  /** The chosen code is a cheapest one, its counter is at most w, and the others are within its reach. */
  predicate Bounded(b: Bucket, w: nat) {
    && Wf(b)
    && b.counters[b.bestcode] <= w
    && (forall k :: 0 <= k < 8 ==> b.counters[b.bestcode] <= b.counters[k])
    && (forall k :: 0 <= k < 8 ==> b.counters[k] <= 26 * (b.counters[b.bestcode] + 1))
  }

  lemma CodeLenBounds(v: nat, l: nat)
    requires l < 8
    ensures 1 <= CodeLen(v, l) <= 26
  {
    CodewordLength(l, v);
  }

  lemma UpdateBounded(b: Bucket, w: nat, trigger: nat, v: nat)
    requires Bounded(b, w) && 26 <= w && trigger <= w
    ensures Bounded(Updated(b, trigger, v), w)
  {
    hide CodeLen, Best;
    forall k | 0 <= k < 8
      ensures 1 <= CodeLen(v, k) <= 26
    {
      CodeLenBounds(v, k);
    }
    var g := Grown(b.counters, v);
    var best := Best(g, 0);
    assert g[best] <= g[b.bestcode] == b.counters[b.bestcode] + CodeLen(v, b.bestcode);
    assert g[best] == b.counters[best] + CodeLen(v, best);
    forall k | 0 <= k < 8
      ensures g[best] <= g[k] <= 26 * (g[best] + 1)
    {
      assert g[k] == b.counters[k] + CodeLen(v, k);
    }
  }

  /** Over any run, with triggers that may change but stay at or below w >= 26. */
  lemma {:induction false} RunBounded(b: Bucket, samples: seq<Sample>, w: nat)
    requires Bounded(b, w) && 26 <= w && forall k :: 0 <= k < |samples| ==> samples[k].trigger <= w
    ensures Bounded(AfterSamples(b, samples), w)
  {
    if samples != [] {
      hide Updated, Bounded;
      var last := samples[|samples| - 1];
      RunBounded(b, samples[..|samples| - 1], w);
      UpdateBounded(AfterSamples(b, samples[..|samples| - 1]), w, last.trigger, last.value);
    }
  }

  /** From a reset on, every counter stays at or below 26 * (w + 1). */
  lemma ModelBounds(samples: seq<Sample>, w: nat)
    requires 26 <= w && forall k :: 0 <= k < |samples| ==> samples[k].trigger <= w
    ensures var b := AfterSamples(FreshBucket(7), samples);
      && b.counters[b.bestcode] <= w
      && forall k :: 0 <= k < 8 ==> b.counters[b.bestcode] <= b.counters[k] <= 26 * (w + 1)
  {
    RunBounded(FreshBucket(7), samples, w);
  }

  class QuicBucket {
    var bestcode: nat
    var counters: seq<nat>

    constructor ()
      ensures bestcode == 0 && counters == [0, 0, 0, 0, 0, 0, 0, 0]
    {
      bestcode, counters := 0, [0, 0, 0, 0, 0, 0, 0, 0];
    }

    function Model(): Bucket
      reads this
    {
      Bucket(bestcode, counters)
    }

    method Reste(code: nat)
      modifies this
      ensures Model() == FreshBucket(code)
    {
      bestcode, counters := code, [0, 0, 0, 0, 0, 0, 0, 0];
    }

    /** update_model_8bpc with eight codes: from the last counter down, then the halving. */
    method UpdateModel8bpc(trigger: nat, v: nat)
      requires Wf(Model())
      modifies this
      ensures Model() == Updated(old(Model()), trigger, v)
      ensures Adapts(old(counters), trigger, v, Model())
    {
      hide CodeLen, Adapts;
      ghost var g := Grown(counters, v);
      var r := 7;
      counters := counters[7 := counters[7] + CodeLen(v, 7)];
      var o := counters[7];
      var i: int := 6;
      while i >= 0
        invariant -1 <= i <= 6 && |counters| == 8
        invariant i < r < 8 && o == g[r] && r == Best(g, i + 1)
        invariant forall k :: 0 <= k < 8 ==> counters[k] == if k > i then g[k] else old(counters)[k]
      {
        counters := counters[i := counters[i] + CodeLen(v, i)];
        var s := counters[i];
        if o > s {
          r, o := i, s;
        }
        i := i - 1;
      }
      assert counters == g;
      bestcode := r;
      if o > trigger {
        i := 0;
        while i < 8
          invariant 0 <= i <= 8 && |counters| == 8 && bestcode == r
          invariant forall k :: 0 <= k < 8 ==> counters[k] == if k < i then g[k] / 2 else g[k]
        {
          counters := counters[i := counters[i] / 2];
          i := i + 1;
        }
        assert counters == Halved(g);
      }
      UpdateAdapts(old(Model()), trigger, v, Model());
    }
  }

  // ---------------------------------------------------------------- buckets and contexts

  /** The bucket of a context, for 8 bits: 0, 1-2, 3-6, 7-14, ..., 63-126, 127-255. */
  function BucketOf(v: nat): (b: nat)
    ensures b < 8
  {
    if v >= 127 then 7 else if v >= 63 then 6 else if v >= 31 then 5 else if v >= 15 then 4
    else if v >= 7 then 3 else if v >= 3 then 2 else if v >= 1 then 1 else 0
  }

  /** First context of bucket i, and one past the last. */
  function First(i: nat): nat {
    Pow2(i) - 1
  }

  lemma BucketRange(i: nat, s: nat)
    requires i < 8 && First(i) <= s && (if i == 7 then s < 256 else s < First(i + 1))
    ensures BucketOf(s) == i
  {
    Pow2Small();
    hide Pow2;
  }

  class QuicFamilyStat {
    var bucketsPtrs: seq<QuicBucket>
    var bucketsBuf: seq<QuicBucket>

    ghost predicate Valid()
      reads this
    {
      && |bucketsPtrs| == 256 && |bucketsBuf| == 8
      && (forall s :: 0 <= s < 256 ==> bucketsPtrs[s] == bucketsBuf[BucketOf(s)])
      && (forall i, j :: 0 <= i < j < 8 ==> bucketsBuf[i] != bucketsBuf[j])
    }

    constructor ()
      ensures bucketsPtrs == [] && bucketsBuf == []
    {
      bucketsPtrs, bucketsBuf := [], [];
    }

    /** fill_model_structures for the 8-bit model: 256 levels, each bucket twice as long as the one before. */
    method FillModelStructures()
      requires bucketsPtrs == [] && bucketsBuf == []
      modifies this
      ensures Valid() && fresh(bucketsBuf) && forall b :: b in bucketsBuf ==> Wf(b.Model())
    {
      var levels, repnext, mulsize := 256, 1, 2;
      var start, end, i := 0, 0, 0;
      var r, o := 2, 1;
      var more := true;
      while more
        invariant i <= 8 && |bucketsBuf| == i && fresh(bucketsBuf)
        invariant i == 0 ==> more && end == 0 && r == 2 && o == 1 && bucketsPtrs == []
        invariant i > 0 ==> more == (i < 8) && r == 1 && 2 * o == Pow2(i) && |bucketsPtrs| == end + 1
        invariant i > 0 ==> end + 1 == if i == 8 then 256 else First(i)
        invariant forall s :: 0 <= s < |bucketsPtrs| ==> BucketOf(s) < i && bucketsPtrs[s] == bucketsBuf[BucketOf(s)]
        invariant forall j, k :: 0 <= j < k < i ==> bucketsBuf[j] != bucketsBuf[k]
        invariant forall b :: b in bucketsBuf ==> Wf(b.Model())
        decreases 8 - i, more
      {
        start := if i != 0 then end + 1 else 0;
        r := r - 1;
        if r == 0 {
          r, o := repnext, o * mulsize;
        }
        end := start + o - 1;
        if end + o >= levels {
          end := levels - 1;
        }
        var bucket := new QuicBucket();
        Sizes(i);
        hide Pow2, First, BucketOf;
        FillOne(bucket, start, end, i);
        i := i + 1;
        more := end < levels - 1;
      }
    }

    /** Pow2 facts about one round. */
    static lemma Sizes(i: nat)
      requires i < 8
      ensures First(0) == 0 && Pow2(0) == 1 && Pow2(i + 1) == 2 * Pow2(i) && First(i) == Pow2(i) - 1
      ensures First(i + 1) == 2 * Pow2(i) - 1
      ensures 2 * Pow2(i) + Pow2(i) - 2 >= 256 <==> i == 7
      ensures Pow2(i) >= 1 && (i == 7 ==> Pow2(i) == 128)
    {
      Pow2Small();
      hide Pow2;
      if i == 0 {} else if i == 1 {} else if i == 2 {}
      else if i == 3 {} else if i == 4 {} else if i == 5 {}
      else if i == 6 {}
    }

    /** One round: a new bucket and the pointers to it. */
    method FillOne(bucket: QuicBucket, start: nat, end: nat, i: nat)
      requires i < 8 && |bucketsPtrs| == start <= end + 1 && |bucketsBuf| == i
      requires start == First(i) && end + 1 == if i == 7 then 256 else First(i + 1)
      modifies this
      ensures bucketsBuf == old(bucketsBuf) + [bucket] && |bucketsPtrs| == end + 1
      ensures bucketsPtrs[..start] == old(bucketsPtrs)
      ensures forall s :: start <= s <= end ==> BucketOf(s) == i && bucketsPtrs[s] == bucket
    {
      hide Pow2, First, BucketOf;
      bucketsBuf := bucketsBuf + [bucket];
      var s := start;
      while s <= end
        invariant start <= s <= end + 1 && |bucketsPtrs| == s && bucketsBuf == old(bucketsBuf) + [bucket]
        invariant bucketsPtrs[..start] == old(bucketsPtrs)
        invariant forall k :: start <= k < s ==> BucketOf(k) == i && bucketsPtrs[k] == bucket
      {
        BucketRange(i, s);
        bucketsPtrs := bucketsPtrs + [bucketsBuf[i]];
        s := s + 1;
      }
    }
  }

  // ---------------------------------------------------------------- sampling schedule

  /** tabrand_chaos; the values play no part in what is shown, so the claims hold for every table. */
  type ChaosTable = s: seq<nat> | |s| == 256 witness seq(256, i => 0)

  const TABRAND_CHAOS: ChaosTable

  const WMI_MAX := 6
  const WMI_NEXT := 2048

  /** besttrigtab[1], the row for evol 3. */
  const BEST_TRIG: seq<nat> := [110, 550, 900, 800, 550, 400, 350, 250, 140, 160, 140]

  function Trigger(wmidx: nat): nat {
    BEST_TRIG[if wmidx > 10 then 10 else wmidx]
  }

  /** The longest codeword, which no trigger may be below, and the largest trigger. */
  const MIN_TRIGGER := 26
  const MAX_TRIGGER := 900

  lemma TriggerRange(wmidx: nat)
    ensures MIN_TRIGGER <= Trigger(wmidx) <= MAX_TRIGGER
  {
  }

  /** tabrand() & bppmask[bits], where seed is already the increased one */
  function Draw(seed: nat, bits: nat): nat {
    Low(TABRAND_CHAOS[seed % 256], bits)
  }

  /** The distance to the next sampled pixel, drawn in phase bits, is below 2^bits. */
  lemma DrawnDistance(seed: nat, bits: nat)
    requires bits <= 32
    ensures Draw(seed, bits) < Pow2(bits)
  {
    LowMod(TABRAND_CHAOS[seed % 256], bits);
    hide Pow2, Low;
  }

  class CommonState {
    var waitcnt: nat
    var tabrandSeed: nat
    var wmTrigger: nat
    var wmidx: nat
    var wmileft: nat

    constructor ()
      ensures waitcnt == 0 && tabrandSeed == 255 && wmidx == 0 && wmileft == WMI_NEXT && wmTrigger == Trigger(0)
    {
      waitcnt, tabrandSeed, wmidx, wmileft := 0, 255, 0, WMI_NEXT;
      wmTrigger := Trigger(0);
    }

    /** The new trigger is one that the bounds of the model allow. */
    method SetWmTrigger()
      modifies this`wmTrigger
      ensures wmTrigger == Trigger(wmidx) && MIN_TRIGGER <= wmTrigger <= MAX_TRIGGER
    {
      var t := wmidx;
      if t > 10 {
        t := 10;
      }
      wmTrigger := BEST_TRIG[t];
    }

    method Tabrand() returns (x: nat)
      modifies this`tabrandSeed
      ensures tabrandSeed == old(tabrandSeed) + 1 && x == TABRAND_CHAOS[tabrandSeed % 256]
    {
      tabrandSeed := tabrandSeed + 1;
      x := TABRAND_CHAOS[tabrandSeed % 256];
    }
  }
}
