/** Bits of the QUIC stream: 32-bit words, and the window that decode_eatbits moves along them.

    A 32-bit integer is modelled by its bits, most significant first; << and >>> shift the bits, | works
    bit by bit, and Value is the unsigned number.
 */
module QuicBits {
  import opened JsInt

  type Bits = seq<bool>

  type Byte = b: nat | b < 256

  function Value(b: Bits): nat {
    if b == [] then 0 else 2 * Value(b[..|b| - 1]) + (if b[|b| - 1] then 1 else 0)
  }

  function ToBits(v: nat, k: nat): (b: Bits)
    ensures |b| == k
  {
    if k == 0 then [] else ToBits(v / 2, k - 1) + [v % 2 == 1]
  }

  function Zeros(k: nat): (b: Bits)
    ensures |b| == k && forall i :: 0 <= i < k ==> !b[i]
  {
    seq(k, i => false)
  }

  // ---------------------------------------------------------------- numbers and bits

  lemma {:induction false} ValueBound(b: Bits)
    ensures Value(b) < Pow2(|b|)
  {
    if b != [] {
      ValueBound(b[..|b| - 1]);
    }
  }

  lemma {:induction false} ValueToBits(v: nat, k: nat)
    requires v < Pow2(k)
    ensures Value(ToBits(v, k)) == v
  {
    if k > 0 {
      ValueToBits(v / 2, k - 1);
      assert ToBits(v, k)[..k - 1] == ToBits(v / 2, k - 1);
    }
  }

  lemma {:induction false} ToBitsValue(b: Bits)
    ensures ToBits(Value(b), |b|) == b
  {
    if b != [] {
      ToBitsValue(b[..|b| - 1]);
      assert b == b[..|b| - 1] + [b[|b| - 1]];
    }
  }

  lemma {:induction false} ValueConcat(a: Bits, b: Bits)
    ensures Value(a + b) == Value(a) * Pow2(|b|) + Value(b)
  {
    if b == [] {
      assert a + b == a;
    } else {
      var b' := b[..|b| - 1];
      ValueConcat(a, b');
      assert (a + b)[..|a + b| - 1] == a + b';
      assert Value(a) * Pow2(|b|) == 2 * (Value(a) * Pow2(|b'|));
    }
  }

  lemma {:induction false} ValueZeros(b: Bits)
    requires forall i :: 0 <= i < |b| ==> !b[i]
    ensures Value(b) == 0
  {
    if b != [] {
      ValueZeros(b[..|b| - 1]);
    }
  }

  lemma {:induction false} ZeroValue(b: Bits)
    requires Value(b) == 0
    ensures forall i :: 0 <= i < |b| ==> !b[i]
  {
    if b != [] {
      ZeroValue(b[..|b| - 1]);
    }
  }

  /** (w >> |rest|) & (2^|mid| - 1) picks the bits in the middle. */
  lemma ValueMiddle(top: Bits, mid: Bits, rest: Bits)
    ensures (Value(top + mid + rest) / Pow2(|rest|)) % Pow2(|mid|) == Value(mid)
  {
    ValueConcat(top + mid, rest);
    ValueConcat(top, mid);
    ValueBound(rest);
    ValueBound(mid);
    hide Value, Pow2;
    DivModUnique(Value(top + mid + rest), Pow2(|rest|), Value(top + mid), Value(rest));
    DivModUnique(Value(top + mid), Pow2(|mid|), Value(top), Value(mid));
  }

  /** A number is below 2^(n-k) exactly when its top k of n bits are zero. */
  lemma TopZeros(b: Bits, k: nat)
    requires k <= |b|
    ensures Value(b) < Pow2(|b| - k) <==> forall i :: 0 <= i < k ==> !b[i]
    ensures Value(b) / Pow2(|b| - k) == Value(b[..k])
  {
    hide Value, Pow2;
    var top, rest := b[..k], b[k..];
    assert b == top + rest;
    ValueConcat(top, rest);
    ValueBound(rest);
    DivModUnique(Value(b), Pow2(|rest|), Value(top), Value(rest));
    if Value(top) == 0 {
      ZeroValue(top);
      assert forall i :: 0 <= i < k ==> top[i] == b[i];
    } else {
      MulGe(Value(top), Pow2(|rest|));
      assert exists i :: 0 <= i < k && b[i] by {
        if forall i :: 0 <= i < |top| ==> !top[i] {
          ValueZeros(top);
        }
        var i :| 0 <= i < |top| && top[i];
        assert b[i];
      }
    }
  }

  // ---------------------------------------------------------------- words and operators

  type Word = w: Bits | |w| == 32 witness Zeros(32)

  /** w << t */
  function ShiftLeft(w: Word, t: nat): (r: Word)
    requires t <= 32
    ensures forall k :: 0 <= k < 32 ==> r[k] == (k + t < 32 && w[k + t])
  {
    w[t..] + Zeros(t)
  }

  /** w >>> t */
  function ShiftRight(w: Word, t: nat): (r: Word)
    requires t <= 32
    ensures forall k :: 0 <= k < 32 ==> r[k] == (k >= t && w[k - t])
  {
    Zeros(t) + w[..32 - t]
  }

  /** v | w */
  function BitOr(v: Word, w: Word): (r: Word)
    ensures forall k :: 0 <= k < 32 ==> r[k] == (v[k] || w[k])
  {
    seq(32, k requires 0 <= k < 32 => v[k] || w[k])
  }

  /** A byte as a 32-bit integer. */
  function ByteWord(b: Byte): Word {
    Zeros(24) + ToBits(b, 8)
  }

  // ---------------------------------------------------------------- the stream

  /** Reading past the end gives undefined, which counts as zero. */
  function ByteAt(buf: seq<Byte>, i: nat): Byte {
    if i < |buf| then buf[i] else 0
  }

  /** Word k of the buffer, low byte first. */
  function WordAt(buf: seq<Byte>, k: nat): Word {
    ToBits(ByteAt(buf, 4 * k + 3), 8) + ToBits(ByteAt(buf, 4 * k + 2), 8)
    + ToBits(ByteAt(buf, 4 * k + 1), 8) + ToBits(ByteAt(buf, 4 * k), 8)
  }

  /** Bit n of the stream. */
  function StreamBit(buf: seq<Byte>, n: nat): bool {
    WordAt(buf, n / 32)[n % 32]
  }

  /** The 32 bits from n on. */
  function Window(buf: seq<Byte>, n: nat): (w: Word)
    ensures forall k :: 0 <= k < 32 ==> w[k] == StreamBit(buf, n + k)
  {
    seq(32, k requires 0 <= k < 32 => StreamBit(buf, n + k))
  }

  /** After n bits the reader has word ceil(n / 32) in hand; the check is that this word begins before the end. */
  predicate Enough(buf: seq<Byte>, n: nat) {
    4 * ((n + 31) / 32) < |buf|
  }

  lemma StreamInWord(buf: seq<Byte>, q: nat, r: nat)
    requires r < 32
    ensures StreamBit(buf, 32 * q + r) == WordAt(buf, q)[r]
  {
    DivModUnique(32 * q + r, 32, q, r);
    hide WordAt;
  }

  /** b0 | b1 << 8 | b2 << 16 | b3 << 24 */
  lemma OrOfBytes(buf: seq<Byte>, k: nat)
    ensures BitOr(BitOr(BitOr(ByteWord(ByteAt(buf, 4 * k)), ShiftLeft(ByteWord(ByteAt(buf, 4 * k + 1)), 8)),
                        ShiftLeft(ByteWord(ByteAt(buf, 4 * k + 2)), 16)),
                  ShiftLeft(ByteWord(ByteAt(buf, 4 * k + 3)), 24)) == WordAt(buf, k)
  {
    hide ToBits, ByteAt;
  }

  /** New bits come from the word at hand; the overlap repeats bits that are already in the window. */
  lemma EatWithinWord(buf: seq<Byte>, n: nat, t: nat, c: nat)
    requires t <= 31 && n + t <= 32 * c && 32 * c < n + 32
    ensures BitOr(ShiftLeft(Window(buf, n), t), ShiftRight(WordAt(buf, c), 32 * c - n - t)) == Window(buf, n + t)
  {
    hide WordAt, ShiftLeft, ShiftRight, BitOr, Window, StreamBit;
    var a := 32 * c - n - t;
    var r := BitOr(ShiftLeft(Window(buf, n), t), ShiftRight(WordAt(buf, c), a));
    forall k | 0 <= k < 32
      ensures r[k] == Window(buf, n + t)[k]
    {
      StreamWord(buf, n + t + k, c, k - a);
      assert n + (k + t) == n + t + k;
    }
  }

  lemma StreamWord(buf: seq<Byte>, n: nat, q: nat, r: int)
    requires n == 32 * q + r
    ensures 0 <= r < 32 ==> StreamBit(buf, n) == WordAt(buf, q)[r]
  {
    if 0 <= r < 32 {
      StreamInWord(buf, q, r);
    }
  }

  /** New bits come from the rest of the word at hand and the top of the next one. */
  lemma EatAcrossWords(buf: seq<Byte>, n: nat, t: nat, c: nat)
    requires t <= 31 && n <= 32 * c < n + t
    ensures BitOr(BitOr(ShiftLeft(Window(buf, n), t), ShiftLeft(WordAt(buf, c), n + t - 32 * c)),
                  ShiftRight(WordAt(buf, c + 1), 32 - (n + t - 32 * c))) == Window(buf, n + t)
  {
    hide WordAt, ShiftLeft, ShiftRight, BitOr, Window, StreamBit;
    var e := n + t - 32 * c;
    var r := BitOr(BitOr(ShiftLeft(Window(buf, n), t), ShiftLeft(WordAt(buf, c), e)),
                   ShiftRight(WordAt(buf, c + 1), 32 - e));
    forall k | 0 <= k < 32
      ensures r[k] == Window(buf, n + t)[k]
    {
      StreamWord(buf, n + t + k, c, k + e);
      StreamWord(buf, n + t + k, c + 1, k - (32 - e));
      assert n + (k + t) == n + t + k;
    }
  }

  lemma WordsBegun(n: nat, t: nat) returns (c: nat)
    requires 1 <= t <= 31
    ensures c == (n + 31) / 32 && n <= 32 * c < n + 32
    ensures n + t <= 32 * c ==> (n + t + 31) / 32 == c
    ensures n + t > 32 * c ==> (n + t + 31) / 32 == c + 1
  {
    c := (n + 31) / 32;
  }

  // ---------------------------------------------------------------- the reader

  /** The input side of QuicEncoder, which decodes in spite of its name. */
  class BitReader {
    var ioNow: seq<Byte>
    var ioEnd: nat
    var ioIdx: nat
    var ioAvailableBits: nat
    var ioWord: Word
    var ioNextWord: Word

    /** n bits have been eaten. */
    predicate At(buf: seq<Byte>, n: nat)
      reads this
    {
      && ioNow == buf && ioEnd == |buf|
      && ioIdx == 4 * ((n + 31) / 32 + 1)
      && ioAvailableBits == 32 * ((n + 31) / 32) - n
      && ioNextWord == WordAt(buf, (n + 31) / 32)
      && ioWord == Window(buf, n)
      && (n == 0 || Enough(buf, n))
    }

    /** The four bytes that read_io_word and quic_decode_begin put together. */
    method TakeWord()
      requires ioIdx % 4 == 0
      modifies this`ioIdx, this`ioNextWord
      ensures ioIdx == old(ioIdx) + 4 && ioNextWord == WordAt(ioNow, old(ioIdx) / 4)
    {
      ghost var k := ioIdx / 4;
      ioNextWord := BitOr(BitOr(BitOr(ByteWord(ByteAt(ioNow, ioIdx)), ShiftLeft(ByteWord(ByteAt(ioNow, ioIdx + 1)), 8)),
                                ShiftLeft(ByteWord(ByteAt(ioNow, ioIdx + 2)), 16)),
                          ShiftLeft(ByteWord(ByteAt(ioNow, ioIdx + 3)), 24));
      ioIdx := ioIdx + 4;
      OrOfBytes(ioNow, k);
    }

    /** The start of quic_decode_begin: the first word is taken without a check. */
    constructor (buf: seq<Byte>)
      ensures At(buf, 0)
    {
      ioNow, ioEnd, ioIdx, ioAvailableBits := buf, |buf|, 0, 0;
      new;
      TakeWord();
      ioWord := ioNextWord;
      forall k | 0 <= k < 32
        ensures Window(buf, 0)[k] == WordAt(buf, 0)[k]
      {
        StreamInWord(buf, 0, k);
      }
    }

    /** read_io_word; false is the exception "out of data". */
    method ReadIoWord() returns (ok: bool)
      requires ioIdx % 4 == 0
      modifies this`ioIdx, this`ioNextWord
      ensures ok == (old(ioIdx) < ioEnd)
      ensures ok ==> ioIdx == old(ioIdx) + 4 && ioNextWord == WordAt(ioNow, old(ioIdx) / 4)
      ensures !ok ==> ioIdx == old(ioIdx) >= ioEnd
    {
      if ioIdx >= ioEnd {
        return false;
      }
      TakeWord();
      return true;
    }

    /** decode_eatbits: the window moves t bits on, or the data end. */
    method DecodeEatbits(t: nat, ghost buf: seq<Byte>, ghost n: nat) returns (ok: bool)
      requires At(buf, n) && 1 <= t <= 31
      modifies this
      ensures ok == Enough(buf, n + t)
      ensures ok ==> At(buf, n + t)
    {
      hide ShiftLeft, ShiftRight, BitOr, WordAt, Window;
      ghost var c := WordsBegun(n, t);
      ioWord := ShiftLeft(ioWord, t);
      var e: int := ioAvailableBits - t;
      if e >= 0 {
        ioAvailableBits := e;
        ioWord := BitOr(ioWord, ShiftRight(ioNextWord, ioAvailableBits));
        EatWithinWord(buf, n, t, c);
        ok := true;
      } else {
        e := -1 * e;
        ioWord := BitOr(ioWord, ShiftLeft(ioNextWord, e));
        ok := ReadIoWord();
        if ok {
          ioAvailableBits := 32 - e;
          ioWord := BitOr(ioWord, ShiftRight(ioNextWord, ioAvailableBits));
          EatAcrossWords(buf, n, t, c);
        }
      }
    }

    /** decode_eat32bits: a whole word in two steps. */
    method DecodeEat32bits(ghost buf: seq<Byte>, ghost n: nat) returns (ok: bool)
      requires At(buf, n)
      modifies this
      ensures ok == Enough(buf, n + 32)
      ensures ok ==> At(buf, n + 32)
    {
      hide ShiftLeft, ShiftRight, BitOr, WordAt, Window, At;
      ok := DecodeEatbits(16, buf, n);
      if ok {
        ok := DecodeEatbits(16, buf, n + 16);
      }
    }
  }
}
