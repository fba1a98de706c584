/** The first row of a QUIC image: what decoding it means pixel by pixel, and that it is lossless. */
module QuicRow {
  import opened QuicBits
  import opened QuicGolomb
  import opened QuicModel

  /** One value for each of red, green and blue, the channels 0, 1 and 2. */
  type Triple = t: seq<nat> | |t| == 3 witness [0, 0, 0]

  // ---------------------------------------------------------------- state between pixels

  /** Countdown to the next sampled pixel, seed of the chaos table, phase of the trigger, and the models. */
  datatype RowState = RowState(wait: nat, seed: nat, wmidx: nat, wmileft: nat, buckets: seq<seq<Bucket>>)

  predicate RowWf(st: RowState) {
    st.wmidx <= WMI_MAX && ModelsWf(st.buckets)
  }

  predicate ModelsWf(models: seq<seq<Bucket>>) {
    |models| == 3 && BucketsWf(models[0]) && BucketsWf(models[1]) && BucketsWf(models[2])
  }

  predicate BucketsWf(buckets: seq<Bucket>) {
    |buckets| == 8 && forall i :: 0 <= i < 8 ==> Wf(buckets[i])
  }

  /** When a phase is used up the next one begins. */
  function Normal(st: RowState): RowState {
    if st.wmidx < WMI_MAX && st.wmileft == 0 then st.(wmidx := st.wmidx + 1, wmileft := WMI_NEXT) else st
  }

  /** Code parameter for a channel after the symbol ctx. */
  function CodeOf(st: RowState, a: nat, ctx: nat): (l: nat)
    requires RowWf(st) && a < 3
    ensures l < 8
  {
    assert BucketsWf(st.buckets[a]);
    st.buckets[a][BucketOf(ctx)].bestcode
  }

  function Learned(buckets: seq<Bucket>, trigger: nat, ctx: nat, v: nat): (r: seq<Bucket>)
    requires BucketsWf(buckets)
    ensures BucketsWf(r)
  {
    buckets[BucketOf(ctx) := Updated(buckets[BucketOf(ctx)], trigger, v)]
  }

  function LearnedAll(st: RowState, ctx: Triple, syms: Triple): (r: seq<seq<Bucket>>)
    requires RowWf(st)
    ensures ModelsWf(r)
  {
    hide BucketsWf, Learned, Trigger;
    [Learned(st.buckets[0], Trigger(st.wmidx), ctx[0], syms[0]),
     Learned(st.buckets[1], Trigger(st.wmidx), ctx[1], syms[1]),
     Learned(st.buckets[2], Trigger(st.wmidx), ctx[2], syms[2])]
  }

  /** A sampled pixel teaches the models and draws the next distance; others count down. */
  function Settled(st: RowState, ctx: Triple, syms: Triple): (r: RowState)
    requires RowWf(st)
    ensures RowWf(r)
  {
    if st.wait > 0 then st.(wait := st.wait - 1)
    else st.(wait := Draw(st.seed + 1, st.wmidx), seed := st.seed + 1, buckets := LearnedAll(st, ctx, syms))
  }

  /** The last phase has no end. */
  function Spent(st: RowState): (r: RowState)
    requires st.wmidx < WMI_MAX ==> st.wmileft > 0
    ensures RowWf(st) ==> RowWf(r)
  {
    if st.wmidx < WMI_MAX then st.(wmileft := st.wmileft - 1) else st
  }

  // ---------------------------------------------------------------- decoding

  /** Out of data, or a context without a bucket, which the code runs into after a value above 255. */
  datatype Outcome<T> = Done(value: T) | OutOfData | NoBucket

  datatype Cursor = Cursor(pos: nat, syms: seq<nat>)

  function DecodeFrom(buf: seq<Byte>, c: Cursor, st: RowState, ctx: Triple): (r: Outcome<Cursor>)
    requires RowWf(st) && |c.syms| <= 3
    ensures r.Done? ==> |r.value.syms| == 3
    decreases 3 - |c.syms|
  {
    if |c.syms| == 3 then Done(c)
    else
      var a := |c.syms|;
      if ctx[a] > 255 then NoBucket
      else
        var g := GolombDecoding(CodeOf(st, a, ctx[a]), Window(buf, c.pos));
        if Enough(buf, c.pos + g.codewordlen) then
          DecodeFrom(buf, Cursor(c.pos + g.codewordlen, c.syms + [g.rc]), st, ctx)
        else OutOfData
  }

  /** One codeword of it. */
  lemma NextSymbol(buf: seq<Byte>, c: Cursor, st: RowState, ctx: Triple)
    requires RowWf(st) && |c.syms| < 3
    ensures var a := |c.syms|;
            if ctx[a] > 255 then DecodeFrom(buf, c, st, ctx) == NoBucket
            else
              var g := GolombDecoding(CodeOf(st, a, ctx[a]), Window(buf, c.pos));
              DecodeFrom(buf, c, st, ctx)
              == if Enough(buf, c.pos + g.codewordlen) then
                   DecodeFrom(buf, Cursor(c.pos + g.codewordlen, c.syms + [g.rc]), st, ctx)
                 else OutOfData
  {
    hide CodeOf, GolombDecoding, Window, Enough;
  }

  /** The pixel value for a symbol: undefined + left, masked, is zero. */
  function PixelByte(sym: nat, left: nat): Byte {
    if sym > 255 then 0 else (L2U(255, sym) + left) % 256
  }

  function Pixel(syms: Triple, left: Triple): Triple {
    [PixelByte(syms[0], left[0]), PixelByte(syms[1], left[1]), PixelByte(syms[2], left[2])]
  }

  /** Position, models, last symbols, and the pixels so far. */
  datatype Progress = Progress(pos: nat, st: RowState, ctx: Triple, pixels: seq<Triple>)

  function Left(pixels: seq<Triple>): Triple {
    if pixels == [] then [0, 0, 0] else pixels[|pixels| - 1]
  }

  /** What comes after the symbols of one pixel. */
  function Next(p: Progress, c: Cursor): (r: Progress)
    requires RowWf(p.st) && |c.syms| == 3 && (p.st.wmidx < WMI_MAX ==> p.st.wmileft > 0)
    ensures RowWf(r.st) && |r.pixels| == |p.pixels| + 1
  {
    Progress(c.pos, Spent(Settled(p.st, p.ctx, c.syms)), c.syms, p.pixels + [Pixel(c.syms, Left(p.pixels))])
  }

  /** Decoding n more pixels. */
  function Run(buf: seq<Byte>, p: Progress, n: nat): Outcome<Progress>
    requires RowWf(p.st)
    decreases n
  {
    var q := p.(st := Normal(p.st));
    if n == 0 then Done(q)
    else
      match DecodeFrom(buf, Cursor(q.pos, []), q.st, q.ctx)
      case Done(c) => Run(buf, Next(q, c), n - 1)
      case OutOfData => OutOfData
      case NoBucket => NoBucket
  }

  // ---------------------------------------------------------------- the models over a row

  /** Every bucket's counters are within the bounds for the largest trigger. */
  predicate BucketsBounded(buckets: seq<Bucket>) {
    |buckets| == 8 && forall i :: 0 <= i < 8 ==> Bounded(buckets[i], MAX_TRIGGER)
  }

  predicate ModelsBounded(models: seq<seq<Bucket>>) {
    |models| == 3 && BucketsBounded(models[0]) && BucketsBounded(models[1]) && BucketsBounded(models[2])
  }

  lemma LearnedBounded(buckets: seq<Bucket>, wmidx: nat, ctx: nat, v: nat)
    requires BucketsWf(buckets) && BucketsBounded(buckets)
    ensures BucketsBounded(Learned(buckets, Trigger(wmidx), ctx, v))
  {
    TriggerRange(wmidx);
    hide Bounded, Updated, BucketOf, Trigger;
    UpdateBounded(buckets[BucketOf(ctx)], MAX_TRIGGER, Trigger(wmidx), v);
  }

  lemma SettledBounded(st: RowState, ctx: Triple, syms: Triple)
    requires RowWf(st) && ModelsBounded(st.buckets)
    ensures ModelsBounded(Settled(st, ctx, syms).buckets)
  {
    hide BucketsBounded, BucketsWf, Learned, Trigger, Draw;
    LearnedBounded(st.buckets[0], st.wmidx, ctx[0], syms[0]);
    LearnedBounded(st.buckets[1], st.wmidx, ctx[1], syms[1]);
    LearnedBounded(st.buckets[2], st.wmidx, ctx[2], syms[2]);
  }

  /** Decoding a row, of whatever data, leaves every bucket within its bounds: the chosen code is a cheapest one, its
      counter at most 900, and the others at most 26 * 901. */
  lemma {:induction false} RowBounded(buf: seq<Byte>, p: Progress, n: nat)
    requires RowWf(p.st) && ModelsBounded(p.st.buckets) && Run(buf, p, n).Done?
    ensures ModelsBounded(Run(buf, p, n).value.st.buckets)
    decreases n
  {
    hide ModelsWf, ModelsBounded, DecodeFrom, Settled;
    var q := p.(st := Normal(p.st));
    if n > 0 {
      var c := DecodeFrom(buf, Cursor(q.pos, []), q.st, q.ctx).value;
      SettledBounded(q.st, q.ctx, c.syms);
      RowBounded(buf, Next(q, c), n - 1);
    }
  }

  // ---------------------------------------------------------------- encoding

  predicate Small(px: Triple) {
    px[0] < 256 && px[1] < 256 && px[2] < 256
  }

  /** The symbol that stands for a value next to its left neighbour. */
  function Symbol(cur: Byte, left: nat): (s: nat)
    ensures s < 256
  {
    U2L(255, (cur - left) % 256)
  }

  function Symbols(px: Triple, left: Triple): Triple
    requires Small(px)
  {
    [Symbol(px[0], left[0]), Symbol(px[1], left[1]), Symbol(px[2], left[2])]
  }

  function EncodedPixel(st: RowState, ctx: Triple, syms: Triple): Bits
    requires RowWf(st)
  {
    Codeword(CodeOf(st, 0, ctx[0]), syms[0]) + Codeword(CodeOf(st, 1, ctx[1]), syms[1])
    + Codeword(CodeOf(st, 2, ctx[2]), syms[2])
  }

  /** The bits of a row: every pixel with the codes its context calls for at that moment. */
  function EncodedRow(st: RowState, ctx: Triple, left: Triple, row: seq<Triple>): Bits
    requires RowWf(st) && forall t :: 0 <= t < |row| ==> Small(row[t])
    decreases |row|
  {
    if row == [] then []
    else
      var s := Normal(st);
      var syms := Symbols(row[0], left);
      EncodedPixel(s, ctx, syms) + EncodedRow(Spent(Settled(s, ctx, syms)), syms, row[0], row[1..])
  }

  /** The encoder's state after a row. */
  function EncoderAfter(st: RowState, ctx: Triple, left: Triple, row: seq<Triple>): RowState
    requires RowWf(st) && forall t :: 0 <= t < |row| ==> Small(row[t])
    decreases |row|
  {
    if row == [] then Normal(st)
    else
      var s := Normal(st);
      var syms := Symbols(row[0], left);
      EncoderAfter(Spent(Settled(s, ctx, syms)), syms, row[0], row[1..])
  }

  // ---------------------------------------------------------------- lossless

  predicate StreamHas(buf: seq<Byte>, pos: nat, bits: Bits) {
    forall i :: 0 <= i < |bits| ==> StreamBit(buf, pos + i) == bits[i]
  }

  lemma StreamSplit(buf: seq<Byte>, pos: nat, a: Bits, b: Bits)
    requires StreamHas(buf, pos, a + b)
    ensures StreamHas(buf, pos, a) && StreamHas(buf, pos + |a|, b)
  {
    hide StreamBit;
    forall i | 0 <= i < |a|
      ensures StreamBit(buf, pos + i) == a[i]
    {
      assert (a + b)[i] == a[i];
    }
    forall i | 0 <= i < |b|
      ensures StreamBit(buf, pos + |a| + i) == b[i]
    {
      assert (a + b)[|a| + i] == b[i];
      assert pos + (|a| + i) == pos + |a| + i;
    }
  }

  lemma WindowStarts(buf: seq<Byte>, pos: nat, c: Bits)
    requires StreamHas(buf, pos, c) && |c| <= 32
    ensures c <= Window(buf, pos)
  {
    hide StreamBit, Window;
    forall i | 0 <= i < |c|
      ensures Window(buf, pos)[i] == c[i]
    {
    }
    assert Window(buf, pos)[..|c|] == c;
  }

  lemma EnoughBefore(buf: seq<Byte>, n: nat, m: nat)
    requires n <= m && Enough(buf, m)
    ensures Enough(buf, n)
  {
  }

  /** Decoding one symbol whose codeword is in the stream. */
  lemma DecodeOne(buf: seq<Byte>, c: Cursor, st: RowState, ctx: Triple, v: nat)
    requires RowWf(st) && |c.syms| < 3 && ctx[|c.syms|] < 256 && v < 256
    requires StreamHas(buf, c.pos, Codeword(CodeOf(st, |c.syms|, ctx[|c.syms|]), v))
    ensures var word := Codeword(CodeOf(st, |c.syms|, ctx[|c.syms|]), v);
      && word != []
      && DecodeFrom(buf, c, st, ctx) == if Enough(buf, c.pos + |word|)
           then DecodeFrom(buf, Cursor(c.pos + |word|, c.syms + [v]), st, ctx) else OutOfData
  {
    hide CodeOf, Enough, Codeword, Window, StreamHas, CodeLen, GolombDecoding;
    var l := CodeOf(st, |c.syms|, ctx[|c.syms|]);
    CodewordLength(l, v);
    WindowStarts(buf, c.pos, Codeword(l, v));
    DecodeCodeword(l, v, Window(buf, c.pos));
  }

  lemma DecodeEnd(buf: seq<Byte>, c: Cursor, st: RowState, ctx: Triple)
    requires RowWf(st) && |c.syms| == 3
    ensures DecodeFrom(buf, c, st, ctx) == Done(c)
  {
  }

  /** A pixel's codewords are decoded to its symbols, or the data end in or right after them. */
  lemma DecodePixelCode(buf: seq<Byte>, pos: nat, st: RowState, ctx: Triple, syms: Triple)
    requires RowWf(st) && Small(ctx) && Small(syms) && StreamHas(buf, pos, EncodedPixel(st, ctx, syms))
    ensures EncodedPixel(st, ctx, syms) != []
    ensures DecodeFrom(buf, Cursor(pos, []), st, ctx)
         == if Enough(buf, pos + |EncodedPixel(st, ctx, syms)|)
            then Done(Cursor(pos + |EncodedPixel(st, ctx, syms)|, syms)) else OutOfData
  {
    hide CodeOf, Enough, Codeword, StreamHas, DecodeFrom;
    var w0, w1, w2 := Codeword(CodeOf(st, 0, ctx[0]), syms[0]), Codeword(CodeOf(st, 1, ctx[1]), syms[1]),
      Codeword(CodeOf(st, 2, ctx[2]), syms[2]);
    StreamSplit(buf, pos, w0 + w1, w2);
    StreamSplit(buf, pos, w0, w1);
    var p1, p2, p3 := pos + |w0|, pos + |w0| + |w1|, pos + |w0| + |w1| + |w2|;
    assert [] + [syms[0]] == [syms[0]] && [syms[0]] + [syms[1]] == syms[..2] && syms[..2] + [syms[2]] == syms;
    DecodeOne(buf, Cursor(pos, []), st, ctx, syms[0]);
    DecodeOne(buf, Cursor(p1, [syms[0]]), st, ctx, syms[1]);
    DecodeOne(buf, Cursor(p2, syms[..2]), st, ctx, syms[2]);
    DecodeEnd(buf, Cursor(p3, syms), st, ctx);
    if Enough(buf, p3) {
      EnoughBefore(buf, p2, p3);
      EnoughBefore(buf, p1, p3);
    }
  }

  /** The symbol and the left neighbour give the value back. */
  lemma SampleOfSymbol(cur: Byte, left: nat)
    requires left < 256
    ensures PixelByte(Symbol(cur, left), left) == cur
  {
    hide U2L, L2U;
    TranslationsInverse(255, (cur - left) % 256);
    ModBack(cur, left);
  }

  lemma ModBack(cur: nat, left: nat)
    requires cur < 256 && left < 256
    ensures ((cur - left) % 256 + left) % 256 == cur
  {
    assert (cur - left) % 256 == if cur >= left then cur - left else cur - left + 256;
  }

  lemma PixelOfSymbols(px: Triple, left: Triple)
    requires Small(px) && Small(left)
    ensures Pixel(Symbols(px, left), left) == px && Small(Symbols(px, left))
  {
    hide PixelByte, Symbol;
    SampleOfSymbol(px[0], left[0]);
    SampleOfSymbol(px[1], left[1]);
    SampleOfSymbol(px[2], left[2]);
  }

  /** Row 0 is lossless: on the bits of any row the decoder gives that row, ends after its last bit, and leaves its
      models as the encoder's are; it fails exactly when the buffer ends too early. */
  lemma {:induction false} RowLossless(buf: seq<Byte>, p: Progress, row: seq<Triple>)
    requires RowWf(p.st) && Small(p.ctx) && Small(Left(p.pixels))
    requires forall t :: 0 <= t < |row| ==> Small(row[t])
    requires StreamHas(buf, p.pos, EncodedRow(p.st, p.ctx, Left(p.pixels), row))
    ensures var end := p.pos + |EncodedRow(p.st, p.ctx, Left(p.pixels), row)|;
      if row == [] || Enough(buf, end) then
        && Run(buf, p, |row|).Done?
        && Run(buf, p, |row|).value.pixels == p.pixels + row
        && Run(buf, p, |row|).value.pos == end
        && Run(buf, p, |row|).value.st == EncoderAfter(p.st, p.ctx, Left(p.pixels), row)
      else Run(buf, p, |row|) == OutOfData
    decreases |row|
  {
    hide StreamHas, EncodedPixel, Settled, Spent, Enough, Symbols, Pixel, Small, DecodeFrom;
    if row == [] {
      assert p.pixels + row == p.pixels;
    } else {
      var q := p.(st := Normal(p.st));
      var left, px, rest := Left(p.pixels), row[0], row[1..];
      var syms := Symbols(px, left);
      var code := EncodedPixel(q.st, p.ctx, syms);
      var next := Next(q, Cursor(p.pos + |code|, syms));
      PixelOfSymbols(px, left);
      StreamSplit(buf, p.pos, code, EncodedRow(next.st, syms, px, rest));
      DecodePixelCode(buf, p.pos, q.st, p.ctx, syms);
      assert Left(next.pixels) == px;
      RowLossless(buf, next, rest);
      assert next.pixels + rest == p.pixels + row;
      var end := p.pos + |code| + |EncodedRow(next.st, syms, px, rest)|;
      if Enough(buf, end) {
        EnoughBefore(buf, p.pos + |code|, end);
      }
      assert rest == [] ==> end == p.pos + |code|;
    }
  }

  // ---------------------------------------------------------------- one step of a run

  /** Within a phase. */
  predicate InPhase(st: RowState) {
    st.wmidx < WMI_MAX ==> st.wmileft > 0
  }

  lemma RunStep(buf: seq<Byte>, p: Progress, n: nat, c: Cursor)
    requires RowWf(p.st) && InPhase(p.st) && n > 0
    requires |c.syms| == 3 && DecodeFrom(buf, Cursor(p.pos, []), p.st, p.ctx) == Done(c)
    ensures Run(buf, p, n) == Run(buf, Next(p, c), n - 1)
  {
    hide DecodeFrom, RowWf, Next;
    assert p.(st := p.st) == p;
  }

  lemma RunFails(buf: seq<Byte>, p: Progress, n: nat)
    requires RowWf(p.st) && InPhase(p.st) && n > 0
    requires !DecodeFrom(buf, Cursor(p.pos, []), p.st, p.ctx).Done?
    ensures Run(buf, p, n) == match DecodeFrom(buf, Cursor(p.pos, []), p.st, p.ctx)
                              case OutOfData => OutOfData
                              case NoBucket => NoBucket
                              case Done(_) => Run(buf, p, n)
  {
    hide DecodeFrom, RowWf, Next;
    assert p.(st := p.st) == p;
  }

  /** A decoded pixel had contexts that have buckets. */
  lemma {:induction false} DecodedContext(buf: seq<Byte>, c: Cursor, st: RowState, ctx: Triple)
    requires RowWf(st) && |c.syms| <= 3 && DecodeFrom(buf, c, st, ctx).Done?
    ensures forall a :: |c.syms| <= a < 3 ==> ctx[a] < 256
    decreases 3 - |c.syms|
  {
    hide GolombDecoding, Window, CodeOf, Enough;
    if |c.syms| < 3 {
      var g := GolombDecoding(CodeOf(st, |c.syms|, ctx[|c.syms|]), Window(buf, c.pos));
      DecodedContext(buf, Cursor(c.pos + g.codewordlen, c.syms + [g.rc]), st, ctx);
    }
  }

  /** None of the next n pixels is sampled, and all are in this phase. */
  predicate Resting(st: RowState, n: nat) {
    st.wait >= n && Roomy(st, n)
  }

  /** n pixels nearer to the next sampled one. */
  function Idle(st: RowState, n: nat): RowState
    requires Resting(st, n)
  {
    st.(wait := st.wait - n, wmileft := if st.wmidx < WMI_MAX then st.wmileft - n else st.wmileft)
  }

  lemma IdleNone(st: RowState)
    ensures Resting(st, 0) && Idle(st, 0) == st
  {
  }

  lemma IdleMore(st: RowState, n: nat, m: nat)
    requires Resting(st, m) && m > n
    ensures Resting(st, n) && Resting(st, n + 1) && Resting(Idle(st, n), 1) && Idle(Idle(st, n), 1) == Idle(st, n + 1)
  {
  }

  /** A pixel that is not sampled. */
  lemma NextQuiet(p: Progress, c: Cursor)
    requires RowWf(p.st) && InPhase(p.st) && |c.syms| == 3 && p.st.wait > 0
    ensures Next(p, c).st == Idle(p.st, 1)
  {
    hide ModelsWf;
  }

  /** A sampled pixel. */
  lemma NextSampled(p: Progress, c: Cursor)
    requires RowWf(p.st) && InPhase(p.st) && |c.syms| == 3 && p.st.wait == 0
    ensures Next(p, c).st.buckets == LearnedAll(p.st, p.ctx, c.syms) && Next(p, c).st.seed == p.st.seed + 1
    ensures Next(p, c).st.wait == Draw(p.st.seed + 1, p.st.wmidx) && Ahead(p.st, Next(p, c).st, 1)
  {
    hide ModelsWf, LearnedAll, Draw;
  }

  /** k pixels further in the same phase. */
  predicate Ahead(st: RowState, st': RowState, k: nat) {
    && st'.wmidx == st.wmidx
    && if st.wmidx < WMI_MAX then st'.wmileft + k == st.wmileft else st'.wmileft == st.wmileft
  }

  lemma IdleAhead(st: RowState, n: nat)
    requires Resting(st, n)
    ensures Ahead(st, Idle(st, n), n) && Idle(st, n).wait == st.wait - n && Idle(st, n).seed == st.seed
  {
  }

  lemma AheadMore(a: RowState, b: RowState, c: RowState, k: nat, m: nat)
    requires Ahead(a, b, k) && Ahead(b, c, m)
    ensures Ahead(a, c, k + m)
  {
  }

  lemma AheadNone(st: RowState)
    ensures Ahead(st, st, 0)
  {
  }

  /** Enough pixels are left in the phase. */
  predicate Roomy(st: RowState, n: nat) {
    st.wmidx < WMI_MAX ==> st.wmileft >= n
  }

  lemma Fits(st: RowState, n: nat)
    requires Roomy(st, n) && n > 0
    ensures Roomy(st, 1)
  {
  }

  lemma RoomLess(st: RowState, k: nat, n: nat)
    requires Roomy(st, n) && k <= n
    ensures Roomy(st, k)
  {
  }

  lemma SamePhase(a: RowState, b: RowState, k: nat)
    requires Ahead(a, b, k)
    ensures a.wmidx == b.wmidx
  {
  }

  lemma RoomAhead(a: RowState, b: RowState, k: nat, n: nat)
    requires Ahead(a, b, k) && Roomy(a, n) && k <= n
    ensures Roomy(b, n - k)
  {
  }

  lemma NormalWf(st: RowState)
    requires RowWf(st)
    ensures RowWf(Normal(st))
  {
  }

  /** A run does not notice whether a used-up phase has been left yet. */
  lemma RunNormal(buf: seq<Byte>, p: Progress, n: nat)
    requires RowWf(p.st)
    ensures RowWf(Normal(p.st)) && Run(buf, p, n) == Run(buf, p.(st := Normal(p.st)), n)
  {
    hide DecodeFrom, Next;
    assert Normal(Normal(p.st)) == Normal(p.st);
  }

  /** The stream holds the encoding of a row, and a further word where the reader needs one. */
  ghost predicate Presents(buf: seq<Byte>, p: Progress, width: nat, row: seq<Triple>)
    requires RowWf(p.st)
  {
    && |row| == width && p.pixels == [] && Small(p.ctx) && (forall t :: 0 <= t < |row| ==> Small(row[t]))
    && StreamHas(buf, p.pos, EncodedRow(p.st, p.ctx, [0, 0, 0], row))
    && (row == [] || Enough(buf, p.pos + |EncodedRow(p.st, p.ctx, [0, 0, 0], row)|))
  }

  lemma RowDecoded(buf: seq<Byte>, p: Progress, width: nat, row: seq<Triple>)
    requires RowWf(p.st) && Presents(buf, p, width, row)
    ensures Run(buf, p, width).Done? && Run(buf, p, width).value.pixels == row
  {
    hide Run, EncodedRow, StreamHas, RowWf, Enough, EncoderAfter;
    RowLossless(buf, p, row);
    assert [] + row == row;
  }
}
