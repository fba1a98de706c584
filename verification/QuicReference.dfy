/** The first row of a QUIC image said from its symbols alone: which pixels are sampled, what the models have learned by
    then, and the bits that are written. */
module QuicReference {
  import opened JsInt
  import opened QuicBits
  import opened QuicGolomb
  import opened QuicModel
  import opened QuicRow

  type Row = r: seq<Triple> | forall t :: 0 <= t < |r| ==> Small(r[t]) witness []

  // ---------------------------------------------------------------- the start

  function EightFresh(): (r: seq<Bucket>)
    ensures BucketsWf(r)
  {
    seq(8, i => FreshBucket(7))
  }

  /** The state that quic_decode_begin leaves for the first row. */
  function Start(): RowState {
    RowState(0, 255, 0, WMI_NEXT, [EightFresh(), EightFresh(), EightFresh()])
  }

  // ---------------------------------------------------------------- schedule

  /** A new phase every 2048 pixels, up to the sixth. */
  function PhaseAt(t: nat): (p: nat)
    ensures p <= 6
  {
    if t / 2048 < 6 then t / 2048 else 6
  }

  /** The j-th sampled pixel: the distance from the one before is drawn in as many bits as its phase says. */
  function SampleAt(j: nat): nat {
    if j == 0 then 0
    else SampleAt(j - 1) + 1 + TABRAND_CHAOS[(255 + j) % 256] % Pow2(PhaseAt(SampleAt(j - 1)))
  }

  ghost predicate IsSampled(t: nat) {
    exists j: nat :: SampleAt(j) == t
  }

  // ---------------------------------------------------------------- symbols

  /** A difference modulo 256, taken from -128 to 127, in the order 0, -1, 1, -2, ... */
  function ZigZag(d: int): nat {
    var e := (d + 128) % 256;
    if e >= 128 then 2 * (e - 128) else 2 * (128 - e) - 1
  }

  function Sym(row: Row, t: nat, a: nat): nat
    requires t < |row| && a < 3
  {
    var left: int := if t == 0 then 0 else row[t - 1][a];
    ZigZag(row[t][a] - left)
  }

  /** The symbol before, which is the context. */
  function Ctx(row: Row, t: nat, a: nat): nat
    requires t <= |row| && a < 3
  {
    if t == 0 then 0 else Sym(row, t - 1, a)
  }

  /** Contexts of one level share a model. */
  function Level(s: nat): nat {
    BitLength(1 + if s < 127 then s else 127)
  }

  // ---------------------------------------------------------------- the bits

  /** What the model of a level has been taught by the sampled pixels before pixel t. */
  ghost function Lessons(row: Row, t: nat, a: nat, level: nat): seq<Sample>
    requires t <= |row| && a < 3
  {
    if t == 0 then []
    else if IsSampled(t - 1) && Level(Ctx(row, t - 1, a)) == level then
      Lessons(row, t - 1, a, level) + [Sample(BEST_TRIG[PhaseAt(t - 1)], Sym(row, t - 1, a))]
    else Lessons(row, t - 1, a, level)
  }

  ghost function Parameter(row: Row, t: nat, a: nat): (l: nat)
    requires t < |row| && a < 3
    ensures l < 8
  {
    AfterSamples(FreshBucket(7), Lessons(row, t, a, Level(Ctx(row, t, a)))).bestcode
  }

  ghost function PixelBits(row: Row, t: nat): Bits
    requires t < |row|
  {
    Codeword(Parameter(row, t, 0), Sym(row, t, 0)) + Codeword(Parameter(row, t, 1), Sym(row, t, 1))
    + Codeword(Parameter(row, t, 2), Sym(row, t, 2))
  }

  ghost function RowBits(row: Row, t: nat): Bits
    requires t <= |row|
  {
    if t == 0 then [] else RowBits(row, t - 1) + PixelBits(row, t - 1)
  }

  // ---------------------------------------------------------------- symbols and contexts agree

  lemma ZigZagIs(cur: Byte, left: Byte)
    ensures Symbol(cur, left) == ZigZag(cur - left)
  {
    var d := cur - left;
    assert d % 256 == if d >= 0 then d else d + 256;
    assert (d + 128) % 256 == if d < -128 then d + 384 else if d < 128 then d + 128 else d - 128;
    hide ZigZag;
    ZigZagCases(d);
  }

  lemma ZigZagCases(d: int)
    ensures -128 <= d < 0 ==> ZigZag(d) == -2 * d - 1
    ensures 0 <= d < 128 ==> ZigZag(d) == 2 * d
    ensures -256 <= d < -128 ==> ZigZag(d) == 2 * (d + 256)
    ensures 128 <= d < 256 ==> ZigZag(d) == 2 * (256 - d) - 1
  {
  }

  lemma LevelIs(s: nat)
    ensures Level(s) == BucketOf(s) + 1
  {
    var u := 1 + if s < 127 then s else 127;
    BitLengthBounds(u);
    Pow2Small();
    var b := BitLength(u);
    hide BitLength;
    if b <= BucketOf(s) {
      Pow2Monotone(b, BucketOf(s));
      PowOfBucket(s, u);
    } else if b > BucketOf(s) + 1 {
      Pow2Monotone(BucketOf(s) + 1, b - 1);
      PowOfBucket(s, u);
    }
  }

  lemma PowOfBucket(s: nat, u: nat)
    requires u == 1 + if s < 127 then s else 127
    ensures Pow2(BucketOf(s)) <= u < Pow2(BucketOf(s) + 1)
  {
    Pow2Small();
    hide Pow2;
  }

  function SymsAt(row: Row, t: nat): Triple
    requires t < |row|
  {
    [Sym(row, t, 0), Sym(row, t, 1), Sym(row, t, 2)]
  }

  function CtxAt(row: Row, t: nat): Triple
    requires t <= |row|
  {
    if t == 0 then [0, 0, 0] else SymsAt(row, t - 1)
  }

  function LeftAt(row: Row, t: nat): Triple
    requires t <= |row|
  {
    if t == 0 then [0, 0, 0] else row[t - 1]
  }

  lemma SymbolsAre(row: Row, t: nat)
    requires t < |row|
    ensures Symbols(row[t], LeftAt(row, t)) == SymsAt(row, t)
  {
    assert Small(row[t]);
    if t > 0 {
      assert Small(row[t - 1]);
    }
    hide Symbol, ZigZag;
    ZigZagIs(row[t][0], LeftAt(row, t)[0]);
    ZigZagIs(row[t][1], LeftAt(row, t)[1]);
    ZigZagIs(row[t][2], LeftAt(row, t)[2]);
  }

  lemma ContextIs(row: Row, t: nat, a: nat)
    requires t <= |row| && a < 3
    ensures CtxAt(row, t)[a] == Ctx(row, t, a) && (t < |row| ==> SymsAt(row, t)[a] == Sym(row, t, a))
  {
    hide Sym;
  }

  // ---------------------------------------------------------------- the state at a pixel

  function StateAt(row: Row, t: nat): (st: RowState)
    requires t <= |row|
    ensures RowWf(st)
  {
    if t == 0 then Start()
    else Spent(Settled(Normal(StateAt(row, t - 1)), CtxAt(row, t - 1), SymsAt(row, t - 1)))
  }

  predicate Phased(st: RowState, t: nat) {
    st.wmidx == PhaseAt(t) && (st.wmidx < WMI_MAX ==> st.wmileft + t == 2048 * (st.wmidx + 1))
  }

  lemma PhaseStep(s: RowState, r: RowState, t: nat)
    requires Phased(s, t) && InPhase(s) && Ahead(s, r, 1)
    ensures Phased(Normal(r), t + 1)
  {
  }

  /** The next sampled pixel is as far as the countdown says. */
  predicate Scheduled(st: RowState, t: nat) {
    && st.seed >= 255 && t + st.wait == SampleAt(st.seed - 255)
    && (st.seed > 255 ==> SampleAt(st.seed - 256) < t)
  }

  lemma {:induction false} Increasing(i: nat, j: nat)
    requires i < j
    ensures SampleAt(i) < SampleAt(j)
  {
    hide SampleAt;
    SampleAfter(j);
    if i < j - 1 {
      Increasing(i, j - 1);
    }
  }

  lemma SampleAfter(j: nat)
    requires j > 0
    ensures SampleAt(j - 1) < SampleAt(j)
    ensures SampleAt(j) == SampleAt(j - 1) + 1 + Low(TABRAND_CHAOS[(255 + j) % 256], PhaseAt(SampleAt(j - 1)))
  {
    LowMod(TABRAND_CHAOS[(255 + j) % 256], PhaseAt(SampleAt(j - 1)));
    hide Low, Pow2, PhaseAt;
  }

  /** The countdown is at zero exactly at the sampled pixels. */
  lemma SampledIff(st: RowState, t: nat)
    requires Scheduled(st, t)
    ensures IsSampled(t) <==> st.wait == 0
  {
    hide SampleAt;
    var now := st.seed - 255;
    if st.wait > 0 && IsSampled(t) {
      var j: nat :| SampleAt(j) == t;
      if j > now {
        Increasing(now, j);
      } else if j < now - 1 {
        Increasing(j, now - 1);
      }
      assert false;
    }
  }

  lemma NextDraw(s: RowState, t: nat)
    requires Scheduled(s, t) && s.wait == 0 && s.wmidx == PhaseAt(t)
    ensures SampleAt(s.seed - 254) == t + 1 + Draw(s.seed + 1, s.wmidx)
  {
    hide SampleAt, Low, PhaseAt;
    SampleAfter(s.seed - 254);
    assert 255 + (s.seed - 254) == s.seed + 1;
  }

  lemma ScheduleStep(s: RowState, r: RowState, t: nat)
    requires Scheduled(s, t) && s.wmidx == PhaseAt(t)
    requires if s.wait > 0 then r.wait == s.wait - 1 && r.seed == s.seed
             else r.wait == Draw(s.seed + 1, s.wmidx) && r.seed == s.seed + 1
    ensures Scheduled(r, t + 1)
  {
    hide SampleAt, Draw;
    if s.wait == 0 {
      NextDraw(s, t);
    }
  }

  // ---------------------------------------------------------------- the models at a pixel

  /** The models of a channel have been taught their lessons. */
  ghost predicate Taught(row: Row, t: nat, a: nat, buckets: seq<Bucket>)
    requires t <= |row| && a < 3
  {
    |buckets| == 8 && forall b :: 0 <= b < 8 ==> buckets[b] == AfterSamples(FreshBucket(7), Lessons(row, t, a, b + 1))
  }

  ghost predicate AllTaught(row: Row, t: nat, models: seq<seq<Bucket>>)
    requires t <= |row|
  {
    |models| == 3 && Taught(row, t, 0, models[0]) && Taught(row, t, 1, models[1]) && Taught(row, t, 2, models[2])
  }

  lemma TaughtNothing(row: Row, t: nat, a: nat, buckets: seq<Bucket>)
    requires t < |row| && a < 3 && Taught(row, t, a, buckets) && !IsSampled(t)
    ensures Taught(row, t + 1, a, buckets)
  {
    hide AfterSamples, IsSampled, Level;
  }

  lemma AfterLesson(b: Bucket, lessons: seq<Sample>, more: Sample)
    requires Wf(b)
    ensures AfterSamples(b, lessons + [more]) == Updated(AfterSamples(b, lessons), more.trigger, more.value)
  {
    hide Updated;
    assert (lessons + [more])[..|lessons|] == lessons;
  }

  lemma TaughtMore(row: Row, t: nat, a: nat, buckets: seq<Bucket>)
    requires t < |row| && a < 3 && Taught(row, t, a, buckets) && IsSampled(t) && BucketsWf(buckets)
    ensures Taught(row, t + 1, a, Learned(buckets, Trigger(PhaseAt(t)), Ctx(row, t, a), Sym(row, t, a)))
  {
    hide AfterSamples, IsSampled, Level, Updated, Ctx, Sym, BucketOf, PhaseAt;
    var ctx, more := Ctx(row, t, a), Sample(BEST_TRIG[PhaseAt(t)], Sym(row, t, a));
    LevelIs(ctx);
    AfterLesson(FreshBucket(7), Lessons(row, t, a, Level(ctx)), more);
  }

  lemma ModelsStep(row: Row, t: nat, s: RowState)
    requires t < |row| && RowWf(s) && s.wmidx == PhaseAt(t) && Scheduled(s, t) && AllTaught(row, t, s.buckets)
    ensures AllTaught(row, t + 1, Settled(s, CtxAt(row, t), SymsAt(row, t)).buckets)
  {
    hide Taught, Learned, IsSampled, Scheduled, Draw, PhaseAt, BucketsWf, CtxAt, SymsAt, Trigger;
    SampledIff(s, t);
    if s.wait > 0 {
      TaughtNothing(row, t, 0, s.buckets[0]);
      TaughtNothing(row, t, 1, s.buckets[1]);
      TaughtNothing(row, t, 2, s.buckets[2]);
    } else {
      ContextIs(row, t, 0);
      ContextIs(row, t, 1);
      ContextIs(row, t, 2);
      TaughtMore(row, t, 0, s.buckets[0]);
      TaughtMore(row, t, 1, s.buckets[1]);
      TaughtMore(row, t, 2, s.buckets[2]);
    }
  }

  /** The state before pixel t, once a used-up phase has been left. */
  ghost predicate Tracks(row: Row, t: nat, st: RowState)
    requires t <= |row|
  {
    RowWf(st) && InPhase(st) && Phased(st, t) && Scheduled(st, t) && AllTaught(row, t, st.buckets)
  }

  lemma TracksStart(row: Row)
    ensures Tracks(row, 0, Normal(Start()))
  {
    assert Start().buckets == [EightFresh(), EightFresh(), EightFresh()];
    assert SampleAt(0) == 0;
  }

  lemma SettledParts(s: RowState, ctx: Triple, syms: Triple)
    requires RowWf(s) && InPhase(s)
    ensures var m := Settled(s, ctx, syms);
      && InPhase(m)
      && Ahead(s, Spent(m), 1) && Spent(m).buckets == m.buckets
      && if s.wait > 0 then Spent(m).wait == s.wait - 1 && Spent(m).seed == s.seed
         else Spent(m).wait == Draw(s.seed + 1, s.wmidx) && Spent(m).seed == s.seed + 1
  {
    hide ModelsWf, LearnedAll, Draw;
  }

  lemma NormalParts(r: RowState)
    requires RowWf(r)
    ensures Normal(r).buckets == r.buckets && Normal(r).wait == r.wait && Normal(r).seed == r.seed
    ensures InPhase(Normal(r)) && RowWf(Normal(r))
  {
    hide ModelsWf;
  }

  lemma ScheduledSame(r: RowState, s: RowState, t: nat)
    requires Scheduled(r, t) && s.wait == r.wait && s.seed == r.seed
    ensures Scheduled(s, t)
  {
  }

  lemma {:induction false} StateTracks(row: Row, t: nat)
    requires t <= |row|
    ensures Tracks(row, t, Normal(StateAt(row, t)))
  {
    if t == 0 {
      TracksStart(row);
    } else {
      hide *;
      StateTracks(row, t - 1);
      NextState(row, t);
      TracksStep(row, t - 1, Normal(StateAt(row, t - 1)), StateAt(row, t));
    }
  }

  lemma NextState(row: Row, t: nat)
    requires 0 < t <= |row|
    ensures StateAt(row, t) == Spent(Settled(Normal(StateAt(row, t - 1)), CtxAt(row, t - 1), SymsAt(row, t - 1)))
  {
    hide Start, Spent, Settled, Normal, CtxAt, SymsAt;
  }

  lemma TracksStep(row: Row, t: nat, s: RowState, r: RowState)
    requires t < |row| && Tracks(row, t, s) && r == Spent(Settled(s, CtxAt(row, t), SymsAt(row, t)))
    ensures Tracks(row, t + 1, Normal(r))
  {
    hide RowWf, Phased, Scheduled, AllTaught, Normal, Spent, Settled, CtxAt, SymsAt, Ahead, InPhase, Draw, PhaseAt;
    SettledParts(s, CtxAt(row, t), SymsAt(row, t));
    NormalParts(r);
    PhaseOf(s, t);
    PhaseStep(s, r, t);
    ScheduleStep(s, r, t);
    ScheduledSame(r, Normal(r), t + 1);
    ModelsStep(row, t, s);
  }

  lemma PhaseOf(s: RowState, t: nat)
    requires Phased(s, t)
    ensures s.wmidx == PhaseAt(t)
  {
  }

  // ---------------------------------------------------------------- the bits agree

  lemma ParameterIs(row: Row, t: nat, a: nat, s: RowState)
    requires t < |row| && a < 3 && RowWf(s) && Tracks(row, t, s)
    ensures CodeOf(s, a, CtxAt(row, t)[a]) == Parameter(row, t, a)
  {
    hide AfterSamples, Lessons, Level, BucketOf, Ctx, Scheduled, Phased, CtxAt;
    ContextIs(row, t, a);
    LevelIs(Ctx(row, t, a));
    assert Taught(row, t, a, s.buckets[a]);
  }

  lemma PixelBitsAre(row: Row, t: nat)
    requires t < |row|
    ensures EncodedPixel(Normal(StateAt(row, t)), CtxAt(row, t), SymsAt(row, t)) == PixelBits(row, t)
  {
    StateTracks(row, t);
    hide StateAt, Normal, CodeOf, Parameter, Sym, CtxAt, Codeword, Phased, Scheduled, AllTaught;
    var s := Normal(StateAt(row, t));
    ParameterIs(row, t, 0, s);
    ParameterIs(row, t, 1, s);
    ParameterIs(row, t, 2, s);
  }

  lemma {:induction false} BitsSplit(row: Row, t: nat)
    requires t <= |row|
    ensures RowBits(row, t) + EncodedRow(StateAt(row, t), CtxAt(row, t), LeftAt(row, t), row[t..])
         == EncodedRow(Start(), [0, 0, 0], [0, 0, 0], row)
  {
    hide Start, PixelBits, EncodedPixel, Settled, Normal, Spent, SymsAt;
    if t == 0 {
      assert row[0..] == row;
    } else {
      BitsSplit(row, t - 1);
      PixelBitsAre(row, t - 1);
      SymbolsAre(row, t - 1);
      var rest := row[t - 1..];
      assert rest[0] == row[t - 1] && rest[1..] == row[t..];
    }
  }

  /** The encoder writes these bits, for every row. */
  lemma RowBitsAre(row: Row)
    ensures EncodedRow(Start(), [0, 0, 0], [0, 0, 0], row) == RowBits(row, |row|)
  {
    BitsSplit(row, |row|);
    hide Start, StateAt, RowBits;
    assert row[|row|..] == [];
  }

  /** Before the first pixel. */
  function AtStart(): Progress {
    Progress(0, Start(), [0, 0, 0], [])
  }

  /** The buffer begins with the bits of this row, and has the further word that the reader needs. */
  ghost predicate Holds(buf: seq<Byte>, width: nat, row: Row) {
    |row| == width && StreamHas(buf, 0, RowBits(row, width)) && (width > 0 ==> Enough(buf, |RowBits(row, width)|))
  }

  lemma HeldIsPresented(buf: seq<Byte>, width: nat, row: Row)
    requires Holds(buf, width, row)
    ensures RowWf(AtStart().st) && Presents(buf, AtStart(), width, row)
  {
    hide StreamHas, Enough, EncodedRow, RowBits, EightFresh;
    RowBitsAre(row);
  }

  // ---------------------------------------------------------------- an example: a black row

  function Ones(n: nat): Bits {
    seq(n, i => true)
  }

  /** Zero is written as a one and as many zeros as the parameter says. */
  lemma ZeroCodeword(l: nat)
    requires l < 8
    ensures Codeword(l, 0) == [true] + Zeros(l)
  {
    hide *;
    ZeroFits(l);
    ZeroShort(l);
    NoBits(l);
  }

  lemma ZeroFits(l: nat)
    requires l < 8
    ensures Codeword(l, 0) == ShortWord(l, 0, 0)
  {
    hide R8, Suffix8, Pow2, ShortWord, LongWord;
    FamilyFacts(l);
    hide Words8;
    Positive(R8(l), Pow2(l));
  }

  lemma Positive(a: nat, b: nat)
    requires a > 0 && b > 0
    ensures a * b > 0 && 0 / b == 0 && 0 % b == 0
  {
  }

  lemma ZeroShort(l: nat)
    ensures ShortWord(l, 0, 0) == [true] + ToBits(0, l)
  {
    hide ToBits;
  }

  lemma {:induction false} NoBits(n: nat)
    ensures ToBits(0, n) == Zeros(n)
  {
    if n > 0 {
      NoBits(n - 1);
    }
  }

  /** A model that has only seen zeros uses parameter 0, whatever the triggers. */
  lemma {:induction false} OnlyZeros(samples: seq<Sample>)
    requires forall k :: 0 <= k < |samples| ==> samples[k].value == 0
    ensures var u := AfterSamples(FreshBucket(7), samples);
      && (forall k :: 1 <= k < 8 ==> u.counters[k] >= 2 * u.counters[0])
      && (u.bestcode == if samples == [] then 7 else 0)
  {
    if samples != [] {
      var last := samples[|samples| - 1];
      var before := AfterSamples(FreshBucket(7), samples[..|samples| - 1]);
      OnlyZeros(samples[..|samples| - 1]);
      var u := AfterSamples(FreshBucket(7), samples);
      assert u == Updated(before, last.trigger, 0);
      UpdateAdapts(before, last.trigger, 0, u);
      hide Updated, AfterSamples, Codeword;
      forall k | 0 <= k < 8
        ensures Cost(before.counters, 0, k) == before.counters[k] + k + 1
      {
        ZeroCodeword(k);
      }
    }
  }

  predicate Black(row: Row) {
    forall t :: 0 <= t < |row| ==> row[t] == [0, 0, 0]
  }

  lemma {:induction false} BlackLessons(row: Row, t: nat, a: nat)
    requires Black(row) && t <= |row| && a < 3
    ensures var lessons := Lessons(row, t, a, 1);
      && (lessons == [] <==> t == 0)
      && forall k :: 0 <= k < |lessons| ==> lessons[k].value == 0
  {
    if t > 0 {
      BlackSymbol(row, t - 1, a);
      FirstSampled();
      hide SampleAt, IsSampled, Sym, Ctx, Level, Black, PhaseAt;
      BlackLessons(row, t - 1, a);
    }
  }

  lemma BlackSymbol(row: Row, t: nat, a: nat)
    requires Black(row) && t < |row| && a < 3
    ensures Sym(row, t, a) == 0 && Ctx(row, t, a) == 0
  {
  }

  lemma FirstSampled()
    ensures IsSampled(0) && Level(0) == 1
  {
    assert SampleAt(0) == 0;
  }

  lemma BlackPixel(row: Row, t: nat)
    requires Black(row) && t < |row|
    ensures var l := if t == 0 then 7 else 0;
            PixelBits(row, t) == [true] + Zeros(l) + [true] + Zeros(l) + [true] + Zeros(l)
  {
    hide Lessons, AfterSamples, PixelBits, Codeword;
    forall a | 0 <= a < 3
      ensures Parameter(row, t, a) == (if t == 0 then 7 else 0) && Sym(row, t, a) == 0
    {
      BlackLessons(row, t, a);
      BlackSymbol(row, t, a);
      FirstSampled();
      OnlyZeros(Lessons(row, t, a, 1));
    }
    PixelParts(row, t, if t == 0 then 7 else 0);
  }

  lemma PixelParts(row: Row, t: nat, l: nat)
    requires t < |row| && l < 8 && forall a :: 0 <= a < 3 ==> Parameter(row, t, a) == l && Sym(row, t, a) == 0
    ensures PixelBits(row, t) == [true] + Zeros(l) + [true] + Zeros(l) + [true] + Zeros(l)
  {
    hide Parameter, Sym, Codeword, Zeros;
    ZeroCodeword(l);
    var w := [true] + Zeros(l);
    assert PixelBits(row, t) == w + w + w;
  }

  /** The bytes FF 80 80 80 and then ones: three times 1 and seven zeros, and from the second pixel on one bit for each
      channel. */
  lemma {:induction false} BlackRow(row: Row, t: nat)
    requires Black(row) && 0 < t <= |row|
    ensures RowBits(row, t) == [true] + Zeros(7) + [true] + Zeros(7) + [true] + Zeros(7) + Ones(3 * (t - 1))
  {
    hide PixelBits;
    BlackPixel(row, t - 1);
    assert Zeros(0) == [] && [true] + [] + [true] + [] + [true] + [] == Ones(3);
    if t == 1 {
      assert Ones(0) == [];
      assert RowBits(row, 0) == [];
    } else {
      BlackRow(row, t - 1);
      assert Ones(3 * (t - 2)) + Ones(3) == Ones(3 * (t - 1));
    }
  }
}
