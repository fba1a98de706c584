/** quic_rgb32_uncompress_row0 over its objects, refined to the decoding of one pixel after the other. */
module QuicDecoder {
  import opened JsInt
  import opened QuicBits
  import opened QuicGolomb
  import opened QuicModel
  import opened QuicRow
  import opened QuicReference

  // ---------------------------------------------------------------- channels

  lemma StartBounded()
    ensures RowWf(Start()) && ModelsBounded(Start().buckets)
  {
    assert forall i :: 0 <= i < 8 ==> EightFresh()[i] == FreshBucket(7);
  }

  /** So every bucket of a row that is decoded from the start on is within its bounds. */
  lemma FirstRowBounded(buf: seq<Byte>, n: nat)
    ensures var r := Run(buf, Progress(0, Start(), [0, 0, 0], []), n);
            r.Done? ==> ModelsBounded(r.value.st.buckets)
  {
    StartBounded();
    hide Start, Run, ModelsBounded, RowWf;
    var p := Progress(0, Start(), [0, 0, 0], []);
    if Run(buf, p, n).Done? {
      RowBounded(buf, p, n);
    }
  }

  class QuicChannel {
    const bucketsBuf: seq<QuicBucket>
    const bucketsPtrs: seq<QuicBucket>
    /** correlate_row.row; correlate_row.zero is always 0. */
    var row: map<int, int>

    ghost predicate Valid() {
      && |bucketsPtrs| == 256 && |bucketsBuf| == 8
      && (forall s :: 0 <= s < 256 ==> bucketsPtrs[s] == bucketsBuf[BucketOf(s)])
      && (forall i, j :: 0 <= i < j < 8 ==> bucketsBuf[i] != bucketsBuf[j])
    }

    ghost predicate Shows(buckets: seq<Bucket>)
      requires Valid()
      reads bucketsBuf
    {
      |buckets| == 8 && forall i :: 0 <= i < 8 ==> bucketsBuf[i].Model() == buckets[i]
    }

    /** The 8-bit part of QuicChannel and of its reste. */
    constructor ()
      ensures Valid() && fresh(bucketsBuf) && row == map[]
      ensures Shows(EightFresh())
    {
      var stat := new QuicFamilyStat();
      stat.FillModelStructures();
      bucketsBuf, bucketsPtrs, row := stat.bucketsBuf, stat.bucketsPtrs, map[];
      new;
      for e := 0 to 8
        invariant fresh(bucketsBuf) && row == map[]
        invariant forall i :: 0 <= i < e ==> bucketsBuf[i].Model() == FreshBucket(7)
      {
        bucketsBuf[e].Reste(7);
      }
    }

    /** update_model_8bpc on the bucket of a context. */
    method Learn(ctx: nat, trigger: nat, v: nat, ghost buckets: seq<Bucket>)
      requires Valid() && BucketsWf(buckets) && Shows(buckets) && ctx < 256
      modifies bucketsBuf
      ensures Shows(Learned(buckets, trigger, ctx, v))
    {
      hide BucketOf, Updated, Wf;
      assert Wf(buckets[BucketOf(ctx)]);
      bucketsPtrs[ctx].UpdateModel8bpc(trigger, v);
    }
  }

  // ---------------------------------------------------------------- the decoder

  datatype Status = Fine | DataEnded | BucketMissing

  /** The specification's outcome for a failure. */
  function Failure<T>(s: Status): Outcome<T>
    requires s != Fine
  {
    if s == DataEnded then OutOfData else NoBucket
  }

  /** The bytes of the first pixels: blue, green, red and padding. */
  predicate OutShows(e: seq<Byte>, pixels: seq<Triple>) {
    && 4 * |pixels| <= |e|
    && forall k :: 0 <= k < |pixels| ==> PixelShown(e, k, pixels[k])
  }

  predicate PixelShown(e: seq<Byte>, k: nat, px: Triple)
    requires 4 * k + 4 <= |e|
  {
    e[4 * k + 2] == px[0] && e[4 * k + 1] == px[1] && e[4 * k] == px[2] && e[4 * k + 3] == 0
  }

  lemma OutKept(e: seq<Byte>, pixels: seq<Triple>, i: nat, v: Byte)
    requires OutShows(e, pixels) && 4 * |pixels| <= i < |e|
    ensures OutShows(e[i := v], pixels)
  {
    forall k | 0 <= k < |pixels|
      ensures PixelShown(e[i := v], k, pixels[k])
    {
      assert PixelShown(e, k, pixels[k]);
    }
  }

  lemma OutMore(e: seq<Byte>, pixels: seq<Triple>, px: Triple)
    requires OutShows(e, pixels) && 4 * |pixels| + 4 <= |e| && PixelShown(e, |pixels|, px)
    ensures OutShows(e, pixels + [px])
  {
  }

  /** The left neighbour is in the output. */
  lemma LeftShown(e: seq<Byte>, pixels: seq<Triple>, a: nat)
    requires OutShows(e, pixels) && a < 3
    ensures if pixels == [] then Left(pixels)[a] == 0 else e[4 * (|pixels| - 1) + 2 - a] == Left(pixels)[a]
  {
    if pixels != [] {
      assert PixelShown(e, |pixels| - 1, pixels[|pixels| - 1]);
    }
  }

  type Rows = r: seq<map<int, int>> | |r| == 3 witness [map[], map[], map[]]

  /** The last symbol of every channel, zero at the start of the row. */
  predicate RowsShow(rows: Rows, t: nat, ctx: Triple) {
    if t == 0 then ctx == [0, 0, 0]
    else forall a :: 0 <= a < 3 ==> t - 1 in rows[a] && rows[a][t - 1] == ctx[a]
  }

  lemma RowKnown(rows: Rows, t: nat, ctx: Triple, a: nat)
    requires RowsShow(rows, t, ctx) && t > 0 && a < 3
    ensures t - 1 in rows[a] && rows[a][t - 1] == ctx[a]
  {
  }

  /** The bytes of the channels decoded so far, and the padding. */
  predicate PartShown(e: seq<Byte>, t: nat, syms: seq<nat>, left: Triple) {
    && 4 * t + 4 <= |e| && e[4 * t + 3] == 0
    && (|syms| > 0 ==> e[4 * t + 2] == PixelByte(syms[0], left[0]))
    && (|syms| > 1 ==> e[4 * t + 1] == PixelByte(syms[1], left[1]))
    && (|syms| > 2 ==> e[4 * t] == PixelByte(syms[2], left[2]))
  }

  /** Some channels of the next pixel are decoded. */
  predicate Midway(rows: Rows, e: seq<Byte>, p: Progress, syms: seq<nat>) {
    var t := |p.pixels|;
    && |syms| <= 3 && RowsShow(rows, t, p.ctx) && OutShows(e, p.pixels) && PartShown(e, t, syms, Left(p.pixels))
    && forall b :: 0 <= b < |syms| ==> t in rows[b] && rows[b][t] == syms[b]
  }

  lemma MidwayStart(rows: Rows, e: seq<Byte>, p: Progress)
    requires RowsShow(rows, |p.pixels|, p.ctx) && OutShows(e, p.pixels) && 4 * |p.pixels| + 4 <= |e|
    ensures Midway(rows, e[4 * |p.pixels| + 3 := 0], p, [])
  {
    OutKept(e, p.pixels, 4 * |p.pixels| + 3, 0);
    hide OutShows, PixelByte, RowsShow;
  }

  lemma MidwayStep(rows: Rows, e: seq<Byte>, p: Progress, syms: seq<nat>, a: nat, v: nat)
    requires Midway(rows, e, p, syms) && |syms| == a < 3
    ensures Midway(rows[a := rows[a][|p.pixels| := v]],
                   e[4 * |p.pixels| + 2 - a := PixelByte(v, Left(p.pixels)[a])], p, syms + [v])
  {
    hide OutShows, PixelByte, Left;
    OutKept(e, p.pixels, 4 * |p.pixels| + 2 - a, PixelByte(v, Left(p.pixels)[a]));
  }

  lemma MidwayParts(rows: Rows, e: seq<Byte>, p: Progress, syms: seq<nat>)
    requires Midway(rows, e, p, syms)
    ensures RowsShow(rows, |p.pixels|, p.ctx) && OutShows(e, p.pixels) && 4 * |p.pixels| + 4 <= |e|
  {
  }

  lemma MidwayEnd(rows: Rows, e: seq<Byte>, p: Progress, syms: Triple)
    requires Midway(rows, e, p, syms)
    ensures RowsShow(rows, |p.pixels| + 1, syms)
    ensures OutShows(e, p.pixels + [Pixel(syms, Left(p.pixels))])
  {
    OutMore(e, p.pixels, Pixel(syms, Left(p.pixels)));
    hide OutShows, PixelByte, Left;
  }

  /** Every channel has its own buckets. */
  ghost predicate OwnBuckets(channels: seq<QuicChannel>)
    requires |channels| == 3
  {
    && channels[0].Valid() && channels[1].Valid() && channels[2].Valid()
    && forall a, b :: 0 <= a < 3 && 0 <= b < 3 && a != b ==> Apart(channels[a].bucketsBuf, channels[b].bucketsBuf)
  }

  ghost predicate Apart(c: seq<QuicBucket>, d: seq<QuicBucket>) {
    forall b :: b in c ==> b !in d
  }

  method NewChannels() returns (channels: seq<QuicChannel>)
    ensures |channels| == 3 && fresh(channels) && OwnBuckets(channels)
    ensures channels[0] != channels[1] && channels[0] != channels[2] && channels[1] != channels[2]
    ensures forall a :: 0 <= a < 3 ==> fresh(channels[a].bucketsBuf) && channels[a].Shows(EightFresh())
  {
    hide BucketOf, EightFresh;
    var red := new QuicChannel();
    var green := new QuicChannel();
    var blue := new QuicChannel();
    channels := [red, green, blue];
  }

  class QuicEncoder {
    const io: BitReader
    const rgbState: CommonState
    const channels: seq<QuicChannel>

    constructor (buf: seq<Byte>)
      ensures Shape() && fresh(io) && fresh(rgbState) && fresh(channels)
      ensures forall a :: 0 <= a < 3 ==> fresh(channels[a].bucketsBuf)
      ensures io.At(buf, 0) && Models(Start()) && Counts(Start())
    {
      hide OwnBuckets, QuicChannel.Shows, EightFresh, Low, BitReader.At;
      io := new BitReader(buf);
      rgbState := new CommonState();
      var three := NewChannels();
      channels := three;
    }

    ghost predicate Shape() {
      |channels| == 3 && channels[0] != channels[1] && channels[0] != channels[2] && channels[1] != channels[2]
      && OwnBuckets(channels)
    }

    ghost function Buckets(): set<QuicBucket>
      requires |channels| == 3
    {
      (set b | b in channels[0].bucketsBuf) + (set b | b in channels[1].bucketsBuf)
      + (set b | b in channels[2].bucketsBuf)
    }

    /** The model of each channel. */
    ghost predicate Models(st: RowState)
      requires Shape()
      reads Buckets()
    {
      && RowWf(st)
      && channels[0].Shows(st.buckets[0]) && channels[1].Shows(st.buckets[1]) && channels[2].Shows(st.buckets[2])
    }

    /** Seed and phase. */
    ghost predicate Phase(st: RowState)
      reads rgbState
    {
      && rgbState.tabrandSeed == st.seed && rgbState.wmidx == st.wmidx && rgbState.wmTrigger == Trigger(st.wmidx)
    }

    ghost predicate Counts(st: RowState)
      reads rgbState
    {
      Phase(st) && rgbState.waitcnt == st.wait && rgbState.wmileft == st.wmileft
    }

    ghost function AllRows(): Rows
      requires |channels| == 3
      reads channels[0], channels[1], channels[2]
    {
      var rows := [channels[0].row, channels[1].row, channels[2].row];
      assert |rows| == 3;
      rows
    }

    lemma ModelsWellFormed(st: RowState)
      requires Shape() && Models(st)
      ensures RowWf(st)
    {
    }

    /** The symbol of the pixel before, or the 0 that correlate_row.zero stands for. */
    method Context(t: nat, a: nat, ghost ctx: Triple) returns (c: nat)
      requires Shape() && a < 3 && RowsShow(AllRows(), t, ctx)
      ensures c == ctx[a]
    {
      hide OwnBuckets;
      assert AllRows()[a] == channels[a].row;
      if t == 0 {
        c := 0;
      } else {
        RowKnown(AllRows(), t, ctx, a);
        c := channels[a].row[t - 1];
      }
    }

    /** One channel of one pixel. */
    method DecodeChannel(t: nat, a: nat, e: array<Byte>, ghost buf: seq<Byte>, ghost p: Progress, ghost c: Cursor)
      returns (status: Status, ghost d: Cursor)
      requires Shape() && Models(p.st) && io.At(buf, c.pos) && |c.syms| == a < 3 && 4 * t + 4 <= e.Length
      requires t == |p.pixels| && RowsShow(AllRows(), t, p.ctx) && OutShows(e[..], p.pixels)
      modifies io, channels[a], e
      ensures Models(p.st)
      ensures status == Fine ==>
                && |d.syms| == a + 1 && d.syms == c.syms + [d.syms[a]]
                && DecodeFrom(buf, c, p.st, p.ctx) == DecodeFrom(buf, d, p.st, p.ctx)
                && io.At(buf, d.pos)
                && AllRows() == old(AllRows())[a := old(AllRows())[a][t := d.syms[a]]]
                && e[..] == old(e[..])[4 * t + 2 - a := PixelByte(d.syms[a], Left(p.pixels)[a])]
      ensures status != Fine ==> DecodeFrom(buf, c, p.st, p.ctx) == Failure(status)
    {
      hide OwnBuckets, GolombDecoding, Enough, Window, BucketOf, L2U, WordAt, CodeLen, Codeword, OutShows, Left, RowWf,
        CodeOf, RowsShow, DecodeFrom, AllRows, Models;
      ModelsWellFormed(p.st);
      assert io.ioWord == Window(buf, c.pos);
      NextSymbol(buf, c, p.st, p.ctx);
      hide BitReader.At, Buckets;
      assert forall b :: b in Buckets() ==> allocated(b);
      d := c;
      var ctx := Context(t, a, p.ctx);
      if ctx > 255 {
        return BucketMissing, d;
      }
      var l := BestCode(a, ctx, p.st);
      var g := GolombDecoding(l, io.ioWord);
      DecodedIsCodeword(l, io.ioWord);
      WriteRow(t, a, g.rc);
      WriteByte(t, a, e, g.rc, p);
      var ok := io.DecodeEatbits(g.codewordlen, buf, c.pos);
      if !ok {
        return DataEnded, d;
      }
      d := Cursor(c.pos + g.codewordlen, c.syms + [g.rc]);
      status := Fine;
    }

    method WriteRow(t: nat, a: nat, rc: nat)
      requires Shape() && a < 3
      modifies channels[a]
      ensures AllRows() == old(AllRows())[a := old(AllRows())[a][t := rc]]
    {
      channels[a].row := channels[a].row[t := rc];
    }

    /** The value for a symbol: the left neighbour, if there is one, plus the translated symbol. */
    method WriteByte(t: nat, a: nat, e: array<Byte>, rc: nat, ghost p: Progress)
      requires a < 3 && 4 * t + 4 <= e.Length && t == |p.pixels| && OutShows(e[..], p.pixels)
      modifies e
      ensures e[..] == old(e[..])[4 * t + 2 - a := PixelByte(rc, Left(p.pixels)[a])]
    {
      hide L2U, OutShows, Left;
      LeftShown(e[..], p.pixels, a);
      var left := if t == 0 then 0 else e[4 * (t - 1) + 2 - a];
      e[4 * t + 2 - a] := if rc > 255 then 0 else (L2U(255, rc) + left) % 256;
    }

    /** channels[a].buckets_ptrs[ctx].bestcode */
    method BestCode(a: nat, ctx: nat, ghost st: RowState) returns (l: nat)
      requires Shape() && Models(st) && a < 3 && ctx < 256
      ensures l == CodeOf(st, a, ctx)
    {
      hide BucketOf;
      l := channels[a].bucketsPtrs[ctx].bestcode;
      assert channels[a].Shows(st.buckets[a]);
      assert channels[a].bucketsBuf[BucketOf(ctx)].Model() == st.buckets[a][BucketOf(ctx)];
    }

    /** One more channel, with what it leaves in the row and in the output. */
    method DecodeNext(t: nat, a: nat, e: array<Byte>, ghost buf: seq<Byte>, ghost p: Progress, ghost c: Cursor)
      returns (status: Status, ghost d: Cursor)
      requires Shape() && Models(p.st) && io.At(buf, c.pos) && Midway(AllRows(), e[..], p, c.syms)
      requires |c.syms| == a < 3 && t == |p.pixels|
      modifies io, channels[a], e
      ensures Models(p.st)
      ensures status == Fine ==>
                && |d.syms| == a + 1 && DecodeFrom(buf, c, p.st, p.ctx) == DecodeFrom(buf, d, p.st, p.ctx)
                && io.At(buf, d.pos) && Midway(AllRows(), e[..], p, d.syms)
      ensures status != Fine ==> DecodeFrom(buf, c, p.st, p.ctx) == Failure(status)
    {
      hide OwnBuckets, GolombDecoding, Enough, Window, DecodeFrom, BucketOf, PixelByte, L2U, WordAt, OutShows, RowWf,
          Models,
        Left, BucketsWf, BitReader.At, PartShown, RowsShow, Midway, AllRows;
      ModelsWellFormed(p.st);
      MidwayParts(AllRows(), e[..], p, c.syms);
      ghost var rows, es := AllRows(), e[..];
      status, d := DecodeChannel(t, a, e, buf, p, c);
      if status == Fine {
        MidwayStep(rows, es, p, c.syms, a, d.syms[a]);
      }
    }

    /** Decoding one pixel: the loop over the channels that occurs three times in the code. */
    method DecodePixel(t: nat, e: array<Byte>, ghost buf: seq<Byte>, ghost p: Progress)
      returns (status: Status, ghost c: Cursor)
      requires Shape() && Models(p.st) && io.At(buf, p.pos) && RowsShow(AllRows(), t, p.ctx)
      requires |p.pixels| == t && 4 * t + 4 <= e.Length && OutShows(e[..], p.pixels)
      modifies io, channels[0], channels[1], channels[2], e
      ensures Models(p.st)
      ensures status == Fine ==>
                && |c.syms| == 3 && DecodeFrom(buf, Cursor(p.pos, []), p.st, p.ctx) == Done(c)
                && io.At(buf, c.pos) && Midway(AllRows(), e[..], p, c.syms)
      ensures status != Fine ==> DecodeFrom(buf, Cursor(p.pos, []), p.st, p.ctx) == Failure(status)
    {
      ModelsWellFormed(p.st);
      hide OwnBuckets, GolombDecoding, Enough, Window, DecodeFrom, BucketOf, PixelByte, L2U, WordAt, OutShows, RowWf,
          Models,
        Left, BucketsWf, BitReader.At, PartShown, AllRows, RowsShow, Midway;
      c := Cursor(p.pos, []);
      Pad(t, e, p);
      ghost var goal := DecodeFrom(buf, c, p.st, p.ctx);
      for a := 0 to 3
        invariant Models(p.st) && io.At(buf, c.pos) && Midway(AllRows(), e[..], p, c.syms) && |c.syms| == a
        invariant goal == DecodeFrom(buf, c, p.st, p.ctx)
      {
        status, c := DecodeNext(t, a, e, buf, p, c);
        if status != Fine {
          return;
        }
      }
      DecodeEnd(buf, c, p.st, p.ctx);
      status := Fine;
    }

    /** The padding byte. */
    method Pad(t: nat, e: array<Byte>, ghost p: Progress)
      requires |channels| == 3 && RowsShow(AllRows(), t, p.ctx)
      requires |p.pixels| == t && 4 * t + 4 <= e.Length && OutShows(e[..], p.pixels)
      modifies e
      ensures Midway(AllRows(), e[..], p, [])
    {
      hide OutShows, RowsShow, Midway;
      MidwayStart(AllRows(), e[..], p);
      e[4 * t + 3] := 0;
    }

    // -------------------------------------------------------------- from pixel to pixel

    /** The objects show the progress p, up to the counters in rgbState. */
    ghost predicate Full(buf: seq<Byte>, e: array<Byte>, p: Progress)
      requires Shape()
      reads io, channels[0], channels[1], channels[2], Buckets(), e
    {
      io.At(buf, p.pos) && Models(p.st) && RowsShow(AllRows(), |p.pixels|, p.ctx) && OutShows(e[..], p.pixels)
    }

    /** The models learn from pixel t: the update loop that occurs twice in the code. */
    method UpdateModels(t: nat, ghost st: RowState, ghost ctx: Triple, ghost syms: Triple)
      requires Shape() && Models(st) && Small(ctx) && rgbState.wmTrigger == Trigger(st.wmidx)
      requires RowsShow(AllRows(), t, ctx) && RowsShow(AllRows(), t + 1, syms)
      modifies Buckets()
      ensures Models(st.(buckets := LearnedAll(st, ctx, syms)))
    {
      hide Learned, BucketsWf, BucketOf, QuicChannel.Shows, RowsShow, AllRows;
      for a := 0 to 3
        invariant forall b :: 0 <= b < 3 ==> channels[b].Shows(
                    if b < a then Learned(st.buckets[b], Trigger(st.wmidx), ctx[b], syms[b]) else st.buckets[b])
      {
        var left := Context(t, a, ctx);
        var now := Context(t + 1, a, syms);
        ghost var models := seq(3, b requires 0 <= b < 3 =>
          if b < a then Learned(st.buckets[b], Trigger(st.wmidx), ctx[b], syms[b]) else st.buckets[b]);
        LearnChannel(a, left, now, models);
      }
    }

    /** update_model_8bpc on one channel; the buckets of the others are not its own. */
    method LearnChannel(a: nat, left: nat, now: nat, ghost models: seq<seq<Bucket>>)
      requires Shape() && a < 3 && left < 256 && |models| == 3 && BucketsWf(models[a])
      requires forall b :: 0 <= b < 3 ==> channels[b].Shows(models[b])
      modifies channels[a].bucketsBuf
      ensures channels[a].Shows(Learned(models[a], rgbState.wmTrigger, left, now))
      ensures forall b :: 0 <= b < 3 && b != a ==> channels[b].Shows(models[b])
    {
      hide Learned, BucketsWf, BucketOf;
      channels[a].Learn(left, rgbState.wmTrigger, now, models[a]);
      forall b | 0 <= b < 3 && b != a
        ensures channels[b].Shows(models[b])
      {
        assert Apart(channels[b].bucketsBuf, channels[a].bucketsBuf);
        forall i | 0 <= i < 8
          ensures channels[b].bucketsBuf[i].Model() == models[b][i]
        {
          assert channels[b].bucketsBuf[i] in channels[b].bucketsBuf;
        }
      }
    }

    /** DecodePixel in terms of a run, before the models learn. */
    method DecodeStep(e: array<Byte>, ghost buf: seq<Byte>, ghost p: Progress, ghost total: nat, t: nat)
      returns (status: Status, ghost c: Cursor)
      requires Shape() && Full(buf, e, p) && InPhase(p.st) && total > 0
      requires t == |p.pixels| && 4 * t + 4 <= e.Length
      modifies io, channels[0], channels[1], channels[2], e
      ensures Models(p.st) && RowWf(p.st)
      ensures status == Fine ==>
                && |c.syms| == 3 && Small(p.ctx) && io.At(buf, c.pos) && Midway(AllRows(), e[..], p, c.syms)
                && Run(buf, p, total) == Run(buf, Next(p, c), total - 1)
      ensures status != Fine ==> Run(buf, p, total) == Failure(status)
    {
      ModelsWellFormed(p.st);
      hide OwnBuckets, DecodeFrom, OutShows, RowWf, Models, Left, BitReader.At, AllRows, RowsShow, Midway, Run, Next;
      status, c := DecodePixel(t, e, buf, p);
      if status == Fine {
        RunStep(buf, p, total, c);
        DecodedContext(buf, Cursor(p.pos, []), p.st, p.ctx);
      } else {
        RunFails(buf, p, total);
      }
    }

    lemma ModelsKept(st: RowState, st': RowState)
      requires Shape() && Models(st) && st'.buckets == st.buckets && RowWf(st')
      ensures Models(st')
    {
    }

    /** A pixel that the models do not learn from. */
    method QuietStep(e: array<Byte>, ghost buf: seq<Byte>, ghost p: Progress, ghost total: nat, t: nat)
      returns (status: Status, ghost q: Progress)
      requires Shape() && Full(buf, e, p) && InPhase(p.st) && total > 0 && p.st.wait > 0
      requires t == |p.pixels| && 4 * t + 4 <= e.Length
      modifies io, channels[0], channels[1], channels[2], e
      ensures status == Fine ==>
                && |q.pixels| == t + 1 && Full(buf, e, q) && RowWf(q.st)
                && q.st == Idle(p.st, 1)
                && Run(buf, p, total) == Run(buf, q, total - 1)
      ensures RowWf(p.st) && (status != Fine ==> Run(buf, p, total) == Failure(status))
    {
      hide OwnBuckets, OutShows, RowWf, Models, Left, BitReader.At, AllRows, RowsShow, Midway, Run;
      ghost var c;
      q := p;
      status, c := DecodeStep(e, buf, p, total, t);
      if status == Fine {
        MidwayEnd(AllRows(), e[..], p, c.syms);
        q := Next(p, c);
        NextQuiet(p, c);
        ModelsKept(p.st, q.st);
      }
    }

    /** The run p0 has come to p by t pixels, with total pixels to go from p0 on. */
    ghost predicate Reached(buf: seq<Byte>, e: array<Byte>, p0: Progress, total: nat, p: Progress, t: nat)
      requires Shape() && RowWf(p0.st)
      reads io, channels[0], channels[1], channels[2], Buckets(), e
    {
      && t == |p.pixels| && |p0.pixels| <= t && t - |p0.pixels| <= total
      && Full(buf, e, p) && RowWf(p.st)
      && Run(buf, p0, total) == Run(buf, p, total - (t - |p0.pixels|))
    }

    /** Pixels that the models do not learn from, up to end. */
    method DecodeQuiet(t0: nat, end: nat, e: array<Byte>, ghost buf: seq<Byte>, ghost p0: Progress, ghost total: nat,
                       ghost p1: Progress)
      returns (status: Status, ghost p: Progress)
      requires Shape() && RowWf(p0.st) && Reached(buf, e, p0, total, p1, t0) && t0 <= end && 4 * end <= e.Length
      requires end - |p0.pixels| <= total && Resting(p1.st, end - t0)
      modifies io, channels[0], channels[1], channels[2], e
      ensures status == Fine ==> Reached(buf, e, p0, total, p, end) && p.st == Idle(p1.st, end - t0)
      ensures status != Fine ==> Run(buf, p0, total) == Failure(status)
    {
      hide *;
      p := p1;
      IdleNone(p1.st);
      status := Fine;
      var t := t0;
      while t < end && status == Fine
        invariant t0 <= t <= end
        invariant status == Fine ==> Reached(buf, e, p0, total, p, t) && Resting(p1.st, t - t0)
        invariant status == Fine ==> p.st == Idle(p1.st, t - t0)
        invariant status != Fine ==> Run(buf, p0, total) == Failure(status)
      {
        IdleMore(p1.st, t - t0, end - t0);
        status, p := QuietOne(e, buf, p0, total, p, t);
        t := t + 1;
      }
    }

    method QuietOne(e: array<Byte>, ghost buf: seq<Byte>, ghost p0: Progress, ghost total: nat, ghost p: Progress,
                    t: nat)
      returns (status: Status, ghost q: Progress)
      requires Shape() && RowWf(p0.st) && Reached(buf, e, p0, total, p, t) && 4 * t + 4 <= e.Length
      requires t - |p0.pixels| < total && Resting(p.st, 1)
      modifies io, channels[0], channels[1], channels[2], e
      ensures status == Fine ==> Reached(buf, e, p0, total, q, t + 1) && q.st == Idle(p.st, 1)
      ensures status != Fine ==> Run(buf, p0, total) == Failure(status)
    {
      hide OwnBuckets, RowWf, Full, Run;
      status, q := QuietStep(e, buf, p, total - (t - |p0.pixels|), t);
    }

    /** A pixel that the models learn from: it also draws the distance d to the next such pixel. */
    method SampledOne(e: array<Byte>, bits: nat, ghost buf: seq<Byte>, ghost p0: Progress, ghost total: nat,
                      ghost p: Progress, t: nat)
      returns (status: Status, d: nat, ghost q: Progress)
      requires Shape() && RowWf(p0.st) && Reached(buf, e, p0, total, p, t) && 4 * t + 4 <= e.Length
      requires t - |p0.pixels| < total && p.st.wait == 0 && Roomy(p.st, 1) && Phase(p.st) && bits == p.st.wmidx
      modifies io, channels[0], channels[1], channels[2], e, Buckets(), rgbState`tabrandSeed
      ensures status == Fine ==>
                && Reached(buf, e, p0, total, q, t + 1) && Phase(q.st) && q.st.wait == d && Ahead(p.st, q.st, 1)
      ensures status != Fine ==> Run(buf, p0, total) == Failure(status)
    {
      hide OwnBuckets, RowWf, Full, Run, Phase, Ahead;
      status, d, q := SampledStep(e, bits, buf, p, total - (t - |p0.pixels|), t);
    }

    method SampledStep(e: array<Byte>, bits: nat, ghost buf: seq<Byte>, ghost p: Progress, ghost total: nat, t: nat)
      returns (status: Status, d: nat, ghost q: Progress)
      requires Shape() && Full(buf, e, p) && InPhase(p.st) && total > 0 && p.st.wait == 0
      requires t == |p.pixels| && 4 * t + 4 <= e.Length && Phase(p.st) && bits == p.st.wmidx
      modifies io, channels[0], channels[1], channels[2], e, Buckets(), rgbState`tabrandSeed
      ensures status == Fine ==>
                && |q.pixels| == t + 1 && Full(buf, e, q) && RowWf(q.st)
                && Phase(q.st) && q.st.wait == d && Ahead(p.st, q.st, 1)
                && Run(buf, p, total) == Run(buf, q, total - 1)
      ensures RowWf(p.st) && (status != Fine ==> Run(buf, p, total) == Failure(status))
    {
      hide OwnBuckets, RowWf, Run, Full, BitReader.At, AllRows, Midway, Ahead, Models, Small, Next;
      d, q := 0, p;
      ghost var c;
      status, c := DecodeStep(e, buf, p, total, t);
      if status == Fine {
        d, q := Teach(t, e, bits, buf, p, c);
      }
    }

    /** The models learn from the pixel just decoded. */
    method Teach(t: nat, e: array<Byte>, bits: nat, ghost buf: seq<Byte>, ghost p: Progress, ghost c: Cursor)
      returns (d: nat, ghost q: Progress)
      requires Shape() && RowWf(p.st) && Models(p.st) && Phase(p.st) && InPhase(p.st) && p.st.wait == 0 &&
          bits == p.st.wmidx
      requires |c.syms| == 3 && Small(p.ctx) && io.At(buf, c.pos) && t == |p.pixels| &&
          Midway(AllRows(), e[..], p, c.syms)
      modifies Buckets(), rgbState`tabrandSeed
      ensures q == Next(p, c) && |q.pixels| == t + 1 && Full(buf, e, q) && RowWf(q.st) && Phase(q.st) &&
          q.st.wait == d && Ahead(p.st, q.st, 1)
    {
      hide OwnBuckets, RowWf, Models, OutShows, Left, BitReader.At, RowsShow, AllRows, Midway, LearnedAll, Low, Ahead;
      MidwayParts(AllRows(), e[..], p, c.syms);
      MidwayEnd(AllRows(), e[..], p, c.syms);
      UpdateModels(t, p.st, p.ctx, c.syms);
      var x := rgbState.Tabrand();
      d := Draw(rgbState.tabrandSeed, bits);
      assert d == Low(x, bits);
      q := Next(p, c);
      NextSampled(p, c);
      ModelsKept(p.st.(buckets := LearnedAll(p.st, p.ctx, c.syms)), q.st);
    }

    /** Pixel 0: sampled when the countdown has run out, else it counts. */
    method FirstPixel(e: array<Byte>, bits: nat, ghost buf: seq<Byte>, ghost p0: Progress, ghost total: nat,
                      ghost p: Progress)
      returns (status: Status, ghost q: Progress)
      requires Shape() && RowWf(p0.st) && Reached(buf, e, p0, total, p, 0) && 4 <= e.Length
      requires 0 < total && Roomy(p.st, 1) && Phase(p.st) && bits == p.st.wmidx && rgbState.waitcnt == p.st.wait
      modifies io, channels[0], channels[1], channels[2], e, Buckets(), rgbState`tabrandSeed, rgbState`waitcnt
      ensures status == Fine ==>
                && Reached(buf, e, p0, total, q, 1) && Phase(q.st) && q.st.wait == rgbState.waitcnt &&
                    Ahead(p.st, q.st, 1)
      ensures status != Fine ==> Run(buf, p0, total) == Failure(status)
    {
      hide OwnBuckets, RowWf, Models, Run, Full, Ahead, Idle;
      if rgbState.waitcnt != 0 {
        status, q := QuietOne(e, buf, p0, total, p, 0);
        IdleAhead(p.st, 1);
        rgbState.waitcnt := rgbState.waitcnt - 1;
      } else {
        var d;
        status, d, q := SampledOne(e, bits, buf, p0, total, p, 0);
        rgbState.waitcnt := d;
      }
    }

    /** One round of the main loop: the pixels up to s, the last of them sampled. */
    method Round(t: nat, s: nat, e: array<Byte>, bits: nat, ghost buf: seq<Byte>, ghost p0: Progress, ghost total: nat,
                 ghost p: Progress)
      returns (status: Status, d: nat, ghost q: Progress)
      requires Shape() && RowWf(p0.st) && Reached(buf, e, p0, total, p, t) && t <= s && 4 * s + 4 <= e.Length
      requires s - |p0.pixels| < total && p.st.wait == s - t && Roomy(p.st, s + 1 - t) && Phase(p.st)
      requires bits == p.st.wmidx
      modifies io, channels[0], channels[1], channels[2], e, Buckets(), rgbState`tabrandSeed
      ensures status == Fine ==>
                && Reached(buf, e, p0, total, q, s + 1) && Phase(q.st) && q.st.wait == d && Ahead(p.st, q.st, s + 1 - t)
      ensures status != Fine ==> Run(buf, p0, total) == Failure(status)
    {
      hide OwnBuckets, RowWf, Models, Run, Full, Ahead, Idle, Trigger, Reached;
      IdleAhead(p.st, s - t);
      d := 0;
      status, q := DecodeQuiet(t, s, e, buf, p0, total, p);
      if status == Fine {
        RoomAhead(p.st, q.st, s - t, s + 1 - t);
        ghost var m := q;
        status, d, q := SampledOne(e, bits, buf, p0, total, q, s);
        if status == Fine {
          AheadMore(p.st, m.st, q.st, s - t, 1);
        }
      }
    }

    /** In the middle of a segment: t pixels are done and the next sampled one is s. */
    ghost predicate InSegment(buf: seq<Byte>, e: array<Byte>, p0: Progress, total: nat, p: Progress, t: nat, s: nat)
      requires Shape() && RowWf(p0.st)
      reads io, channels[0], channels[1], channels[2], Buckets(), e, rgbState
    {
      Reached(buf, e, p0, total, p, t) && Phase(p.st) && t <= s && p.st.wait == s - t
    }

    /** The start of a segment. */
    method EnterSegment(t0: nat, e: array<Byte>, bits: nat, ghost buf: seq<Byte>, ghost p0: Progress, ghost total: nat,
                        ghost p1: Progress)
      returns (status: Status, t: nat, s: nat, ghost p: Progress)
      requires Shape() && RowWf(p0.st) && Reached(buf, e, p0, total, p1, t0) && 4 * t0 + 4 <= e.Length
      requires t0 - |p0.pixels| < total && Roomy(p1.st, 1) && Phase(p1.st) && bits == p1.st.wmidx
      requires rgbState.waitcnt == p1.st.wait
      modifies io, channels[0], channels[1], channels[2], e, Buckets(), rgbState`tabrandSeed, rgbState`waitcnt
      ensures status == Fine ==>
                && InSegment(buf, e, p0, total, p, t, s) && t0 <= t <= t0 + 1 && Ahead(p1.st, p.st, t - t0)
      ensures status != Fine ==> Run(buf, p0, total) == Failure(status)
    {
      hide OwnBuckets, RowWf, Models, Run, Full, Ahead, Trigger, Reached;
      StartsEarlier(buf, e, p0, total, p1, t0);
      p, t := p1, t0;
      if t != 0 {
        status, s := Fine, t + rgbState.waitcnt;
        AheadNone(p1.st);
      } else {
        status, p := FirstPixel(e, bits, buf, p0, total, p1);
        t := t + 1;
        s := t + rgbState.waitcnt;
      }
    }

    lemma StartsEarlier(buf: seq<Byte>, e: array<Byte>, p0: Progress, total: nat, p: Progress, t: nat)
      requires Shape() && RowWf(p0.st) && Reached(buf, e, p0, total, p, t)
      ensures t == |p.pixels| && |p0.pixels| <= t && t - |p0.pixels| <= total
    {
      hide Full, Run, RowWf;
    }

    /** A round as the segment sees it. */
    method NextRound(t0: nat, n: nat, t: nat, s: nat, e: array<Byte>, bits: nat, ghost buf: seq<Byte>,
                     ghost p0: Progress,
                     ghost total: nat, ghost p1: Progress, ghost p: Progress)
      returns (status: Status, t': nat, s': nat, ghost q: Progress)
      requires Shape() && RowWf(p0.st) && InSegment(buf, e, p0, total, p, t, s) && t0 <= t && s < n
      requires 4 * n <= e.Length && n - |p0.pixels| <= total
      requires Roomy(p1.st, n - t0) && Ahead(p1.st, p.st, t - t0) && bits == p1.st.wmidx
      modifies io, channels[0], channels[1], channels[2], e, Buckets(), rgbState`tabrandSeed
      ensures t < t' <= n
      ensures status == Fine ==> InSegment(buf, e, p0, total, q, t', s') && Ahead(p1.st, q.st, t' - t0)
      ensures status != Fine ==> Run(buf, p0, total) == Failure(status)
    {
      hide OwnBuckets, RowWf, Run, Full, Trigger, Reached, Idle, Roomy, Phase, Models;
      RoomAhead(p1.st, p.st, t - t0, n - t0);
      RoomLess(p.st, s + 1 - t, n - t);
      StartsEarlier(buf, e, p0, total, p, t);
      var d;
      status, d, q := Round(t, s, e, bits, buf, p0, total, p);
      t' := s + 1;
      s' := t' + d;
      if status == Fine {
        AheadMore(p1.st, p.st, q.st, t - t0, s + 1 - t);
      }
    }

    /** The tail of the segment, and what is left of the countdown. */
    method LastPixels(t0: nat, n: nat, t: nat, s: nat, e: array<Byte>, ghost buf: seq<Byte>, ghost p0: Progress,
                      ghost total: nat, ghost p1: Progress, ghost p: Progress)
      returns (status: Status, ghost q: Progress)
      requires Shape() && RowWf(p0.st) && InSegment(buf, e, p0, total, p, t, s) && t0 <= t <= n <= s
      requires 4 * n <= e.Length && n - |p0.pixels| <= total
      requires Roomy(p1.st, n - t0) && Ahead(p1.st, p.st, t - t0)
      modifies io, channels[0], channels[1], channels[2], e, rgbState`waitcnt
      ensures status == Fine ==>
                && Reached(buf, e, p0, total, q, n) && Phase(q.st) && rgbState.waitcnt == q.st.wait
                && Ahead(p1.st, q.st, n - t0)
      ensures status != Fine ==> Run(buf, p0, total) == Failure(status)
    {
      hide OwnBuckets, RowWf, Run, Trigger, Idle, Roomy, Ahead, OutShows, RowsShow, QuicChannel.Shows, BitReader.At;
      RoomAhead(p1.st, p.st, t - t0, n - t0);
      IdleAhead(p.st, n - t);
      status, q := DecodeQuiet(t, n, e, buf, p0, total, p);
      if status == Fine {
        AheadMore(p1.st, p.st, q.st, t - t0, n - t);
        SamePhase(p.st, q.st, n - t);
        rgbState.waitcnt := s - n;
      }
    }

    /** quic_rgb32_uncompress_row0_seg: pixels t0 to n, with bits for the mask i and sums modulo 256. */
    method UncompressRow0Seg(t0: nat, e: array<Byte>, n: nat, bits: nat, ghost buf: seq<Byte>, ghost p0: Progress,
                             ghost total: nat, ghost p1: Progress)
      returns (status: Status, ghost p: Progress)
      requires Shape() && RowWf(p0.st) && Reached(buf, e, p0, total, p1, t0)
      requires t0 < n && 4 * n <= e.Length && n - |p0.pixels| <= total
      requires Roomy(p1.st, n - t0) && Phase(p1.st) && bits == p1.st.wmidx && rgbState.waitcnt == p1.st.wait
      modifies io, channels[0], channels[1], channels[2], e, Buckets(), rgbState`tabrandSeed, rgbState`waitcnt
      ensures status == Fine ==>
                && Reached(buf, e, p0, total, p, n) && Phase(p.st) && rgbState.waitcnt == p.st.wait
                && Ahead(p1.st, p.st, n - t0)
      ensures status != Fine ==> Run(buf, p0, total) == Failure(status)
    {
      hide OwnBuckets, RowWf, Run, Full, Ahead, Trigger, Reached, Idle, Roomy, Phase, InSegment;
      var t: nat, s: nat;
      assert Roomy(p1.st, 1) && t0 - |p0.pixels| < total by { Fits(p1.st, n - t0); StartsEarlier(buf, e, p0, total,
          p1, t0); }
      status, t, s, p := EnterSegment(t0, e, bits, buf, p0, total, p1);
      while n > s && status == Fine
        invariant status == Fine ==>
                    && InSegment(buf, e, p0, total, p, t, s) && t0 <= t <= n && Ahead(p1.st, p.st, t - t0)
        invariant status != Fine ==> Run(buf, p0, total) == Failure(status)
        decreases n - t, if status == Fine then 1 else 0
      {
        status, t, s, p := NextRound(t0, n, t, s, e, bits, buf, p0, total, p1, p);
      }
      if status == Fine {
        status, p := LastPixels(t0, n, t, s, e, buf, p0, total, p1, p);
      }
    }

    // -------------------------------------------------------------- the row

    /** Between segments, pixel t comes next. */
    ghost predicate Between(buf: seq<Byte>, e: array<Byte>, p0: Progress, total: nat, p: Progress, t: nat)
      requires Shape() && RowWf(p0.st)
      reads io, channels[0], channels[1], channels[2], Buckets(), e, rgbState
    {
      Reached(buf, e, p0, total, p, t) && Counts(p.st)
    }

    /** The next phase begins. */
    method NextPhase(t: nat, e: array<Byte>, ghost buf: seq<Byte>, ghost p0: Progress, ghost total: nat,
                     ghost p: Progress)
      returns (ghost q: Progress)
      requires Shape() && RowWf(p0.st) && Reached(buf, e, p0, total, p, t) && Phase(p.st) &&
          rgbState.waitcnt == p.st.wait
      requires p.st.wmidx < WMI_MAX && p.st.wmileft == 0
      modifies rgbState
      ensures q.st == Normal(p.st) && rgbState.wmidx == old(rgbState.wmidx) + 1 && Between(buf, e, p0, total, q, t)
    {
      hide OwnBuckets, RowWf, Run, OutShows, RowsShow, QuicChannel.Shows, BitReader.At, Trigger;
      rgbState.wmidx := rgbState.wmidx + 1;
      rgbState.SetWmTrigger();
      rgbState.wmileft := WMI_NEXT;
      q := p.(st := Normal(p.st));
      RunNormal(buf, p, total - (t - |p0.pixels|));
      NormalWf(p.st);
    }

    /** One segment as the row sees it: count pixels from t on. */
    method RowSegment(t: nat, count: nat, e: array<Byte>, ghost buf: seq<Byte>, ghost p0: Progress, ghost total: nat,
                      ghost p: Progress)
      returns (status: Status, ghost q: Progress)
      requires Shape() && RowWf(p0.st) && Between(buf, e, p0, total, p, t) && 4 * (t + count) <= e.Length
      requires count > 0 && t + count - |p0.pixels| <= total && Roomy(p.st, count)
      modifies io, channels[0], channels[1], channels[2], e, Buckets(), rgbState`tabrandSeed, rgbState`waitcnt
      ensures status == Fine ==>
                && Reached(buf, e, p0, total, q, t + count) && Phase(q.st) && rgbState.waitcnt == q.st.wait
                && Ahead(p.st, q.st, count)
      ensures status != Fine ==> Run(buf, p0, total) == Failure(status)
    {
      hide OwnBuckets, RowWf, Run, Reached, Roomy, Ahead, Trigger;
      StartsEarlier(buf, e, p0, total, p, t);
      status, q := UncompressRow0Seg(t, e, t + count, rgbState.wmidx, buf, p0, total, p);
    }

    /** One round of the loop over the phases. */
    method WholePhase(i: nat, e: array<Byte>, ghost buf: seq<Byte>, ghost p0: Progress, ghost total: nat,
                      ghost p: Progress)
      returns (status: Status, i': nat, ghost q: Progress)
      requires Shape() && RowWf(p0.st) && Between(buf, e, p0, total, p, i) && 4 * (i + rgbState.wmileft) <= e.Length
      requires rgbState.wmidx < WMI_MAX && i + rgbState.wmileft - |p0.pixels| <= total
      modifies io, channels[0], channels[1], channels[2], e, Buckets(), rgbState
      ensures i' == i + old(rgbState.wmileft) && rgbState.wmidx >= old(rgbState.wmidx)
      ensures status == Fine ==>
                && Between(buf, e, p0, total, q, i') && rgbState.wmidx == old(rgbState.wmidx) + 1
      ensures status != Fine ==> Run(buf, p0, total) == Failure(status)
    {
      hide OwnBuckets, RowWf, Run, Reached, Trigger;
      status, i', q := Fine, i, p;
      ghost var count := rgbState.wmileft;
      if rgbState.wmileft != 0 {
        status, q := RowSegment(i, rgbState.wmileft, e, buf, p0, total, p);
        i' := i + rgbState.wmileft;
      }
      if status == Fine {
        assert q.st.wmidx == p.st.wmidx && q.st.wmileft == 0;
        q := NextPhase(i', e, buf, p0, total, q);
      }
    }

    lemma RowStart(buf: seq<Byte>, e: array<Byte>, p0: Progress, width: nat)
      requires Shape() && Full(buf, e, p0) && RowWf(p0.st) && Counts(p0.st) && p0.pixels == []
      ensures Between(buf, e, p0, width, p0, 0)
    {
      hide Full, Run, RowWf, Counts;
    }

    lemma RowDone(buf: seq<Byte>, e: array<Byte>, p0: Progress, width: nat, q: Progress)
      requires Shape() && RowWf(p0.st) && p0.pixels == [] && Reached(buf, e, p0, width, q, width)
      requires InPhase(q.st)
      ensures Run(buf, p0, width) == Done(q) && Full(buf, e, q)
    {
      hide OwnBuckets, RowWf, Full;
      assert q.(st := q.st) == q;
    }

    /** The phase is charged for the last segment. */
    method ChargePhase(r: nat, e: array<Byte>, ghost buf: seq<Byte>, ghost p0: Progress, ghost width: nat,
                       ghost p: Progress,
                       ghost q: Progress)
      requires Shape() && RowWf(p0.st) && Reached(buf, e, p0, width, q, width) && Phase(q.st) && Ahead(p.st, q.st, r)
      requires p0.pixels == [] && rgbState.waitcnt == q.st.wait && rgbState.wmileft == p.st.wmileft
      requires rgbState.wmidx < WMI_MAX ==> r < rgbState.wmileft
      modifies rgbState`wmileft
      ensures Run(buf, p0, width) == Done(q) && Full(buf, e, q) && Counts(q.st)
    {
      hide OwnBuckets, RowWf, OutShows, RowsShow, QuicChannel.Shows, BitReader.At, Trigger, Run, Reached;
      RowDone(buf, e, p0, width, q);
      if WMI_MAX > rgbState.wmidx {
        rgbState.wmileft := rgbState.wmileft - r;
      }
    }

    /** The last segment, which does not use its phase up. */
    method RestOfRow(i: nat, r: nat, e: array<Byte>, ghost buf: seq<Byte>, ghost p0: Progress, ghost width: nat,
                     ghost p: Progress)
      returns (status: Status, ghost q: Progress)
      requires Shape() && RowWf(p0.st) && Between(buf, e, p0, width, p, i) && 4 * width <= e.Length
      requires p0.pixels == [] && i + r == width && (rgbState.wmidx < WMI_MAX ==> r < rgbState.wmileft)
      modifies io, channels[0], channels[1], channels[2], e, Buckets(), rgbState
      ensures status == Fine ==> Run(buf, p0, width) == Done(q) && Full(buf, e, q) && Counts(q.st)
      ensures status != Fine ==> Run(buf, p0, width) == Failure(status)
    {
      hide OwnBuckets, RowWf, Full, Trigger, Run, Reached, Ahead;
      status, q := Fine, p;
      if r != 0 {
        status, q := RowSegment(i, r, e, buf, p0, width, p);
        if status == Fine {
          ChargePhase(r, e, buf, p0, width, p, q);
        }
      } else {
        RowDone(buf, e, p0, width, p);
      }
    }

    /** quic_rgb32_uncompress_row0, for every buffer: the row is decoded as pixel after pixel is in Run. */
    method UncompressRow0(e: array<Byte>, width: nat, ghost buf: seq<Byte>, ghost p0: Progress)
      returns (status: Status, ghost p: Progress)
      requires Shape() && Full(buf, e, p0) && RowWf(p0.st) && Counts(p0.st) && p0.pixels == [] && 4 * width <= e.Length
      modifies io, channels[0], channels[1], channels[2], e, Buckets(), rgbState
      ensures status == Fine ==> Run(buf, p0, width) == Done(p) && Full(buf, e, p) && Counts(p.st)
      ensures status != Fine ==> Run(buf, p0, width) == Failure(status)
      ensures forall row :: Presents(buf, p0, width, row) ==> status == Fine && OutShows(e[..], row)
      ensures forall row: Row :: p0 == AtStart() && Holds(buf, width, row) ==> status == Fine && OutShows(e[..], row)
    {
      hide OwnBuckets, AtStart, Holds, RowWf, Run, Full, Trigger, Counts, Reached, Presents, OutShows;
      var i: nat, r: nat := 0, width;
      p := p0;
      status := Fine;
      RowStart(buf, e, p0, width);
      while WMI_MAX > rgbState.wmidx && rgbState.wmileft <= r && status == Fine
        invariant i + r == width
        invariant status == Fine ==> Between(buf, e, p0, width, p, i)
        invariant status != Fine ==> Run(buf, p0, width) == Failure(status)
        decreases WMI_MAX - rgbState.wmidx, if status == Fine then 1 else 0
      {
        r := r - rgbState.wmileft;
        status, i, p := WholePhase(i, e, buf, p0, width, p);
      }
      if status == Fine {
        status, p := RestOfRow(i, r, e, buf, p0, width, p);
      }
      FullShows(buf, e, p);
      forall row | Presents(buf, p0, width, row)
        ensures status == Fine && OutShows(e[..], row)
      {
        RowDecoded(buf, p0, width, row);
      }
      forall row: Row | p0 == AtStart() && Holds(buf, width, row)
        ensures status == Fine && OutShows(e[..], row)
      {
        HeldIsPresented(buf, width, row);
      }
    }

    lemma FullShows(buf: seq<Byte>, e: array<Byte>, p: Progress)
      requires Shape()
      ensures Full(buf, e, p) ==> OutShows(e[..], p.pixels)
    {
      hide OwnBuckets, RowWf, OutShows, RowsShow, Models, BitReader.At;
    }
  }
}
