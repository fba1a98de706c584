/** The limited Golomb code of QUIC: tables set up by family_init, the codewords, and their decoding. */
module QuicGolomb {
  import opened JsInt
  import opened QuicBits

  // ---------------------------------------------------------------- tables

  /** bppmask[k] */
  function Bppmask(k: nat): nat {
    Pow2(k) - 1
  }

  function BitLength(u: nat): nat {
    if u == 0 then 0 else 1 + BitLength(u / 2)
  }

  lemma {:induction false} BitLengthBounds(u: nat)
    ensures u < Pow2(BitLength(u)) && (u > 0 ==> Pow2(BitLength(u) - 1) <= u)
  {
    if u > 0 {
      BitLengthBounds(u / 2);
    }
  }

  /** ceil_log_2: the least r with t <= 2^r. */
  method CeilLog2(t: nat) returns (r: nat)
    requires 1 <= t < 0x1_0000_0000
    ensures r == BitLength(t - 1)
    ensures t <= Pow2(r) && (r > 0 ==> Pow2(r - 1) < t)
  {
    BitLengthBounds(t - 1);
    if 1 == t {
      return 0;
    }
    var e, u: nat := 1, t - 1;
    u := u / 2;
    while u != 0
      invariant e + BitLength(u) == BitLength(t - 1)
    {
      e := e + 1;
      u := u / 2;
    }
    return e;
  }

  /** Most zeros before a codeword of the first kind must end. */
  function Runs(bpc: nat, limit: nat, i: nat): (r: nat)
    requires i <= bpc <= limit
    ensures r <= limit - bpc
  {
    if limit - bpc > Bppmask(bpc - i) then Bppmask(bpc - i) else limit - bpc
  }

  function GrWords(bpc: nat, limit: nat, i: nat): (r: nat)
    requires i <= bpc <= limit
    ensures r < Pow2(bpc)
  {
    Pow2Add(bpc - i, i);
    MulLess(Runs(bpc, limit, i), Pow2(bpc - i), Pow2(i));
    Runs(bpc, limit, i) * Pow2(i)
  }

  function SuffixLen(bpc: nat, limit: nat, i: nat): nat
    requires i <= bpc <= limit
  {
    BitLength(Pow2(bpc) - GrWords(bpc, limit, i) - 1)
  }

  lemma MulLess(a: nat, b: nat, c: nat)
    requires a < b && c > 0
    ensures a * c < b * c
  {
  }

  class Family {
    const nGRcodewords: array<nat>
    const notGRcwlen: array<nat>
    const notGRprefixmask: array<nat>
    const notGRsuffixlen: array<nat>
    const xlatU2L: array<nat>
    const xlatL2U: array<nat>

    constructor (bpc: nat)
      ensures fresh(nGRcodewords) && fresh(notGRcwlen) && fresh(notGRprefixmask) && fresh(notGRsuffixlen)
      ensures fresh(xlatU2L) && fresh(xlatL2U)
      ensures Shaped(bpc)
    {
      nGRcodewords, notGRcwlen, notGRprefixmask := new nat[bpc], new nat[bpc], new nat[bpc];
      notGRsuffixlen := new nat[bpc];
      xlatU2L, xlatL2U := new nat[Pow2(bpc)], new nat[Pow2(bpc)];
    }

    predicate Shaped(bpc: nat) {
      && nGRcodewords.Length == notGRcwlen.Length == notGRprefixmask.Length == notGRsuffixlen.Length == bpc
      && xlatU2L.Length == xlatL2U.Length == Pow2(bpc)
      && nGRcodewords != notGRcwlen && nGRcodewords != notGRprefixmask && nGRcodewords != notGRsuffixlen
      && notGRcwlen != notGRprefixmask && notGRcwlen != notGRsuffixlen && notGRprefixmask != notGRsuffixlen
      && xlatU2L != xlatL2U && xlatU2L !in {nGRcodewords, notGRcwlen, notGRprefixmask, notGRsuffixlen}
      && xlatL2U !in {nGRcodewords, notGRcwlen, notGRprefixmask, notGRsuffixlen}
    }

    /** The first loop of family_init. */
    method InitCodes(bpc: nat, limit: nat)
      requires 1 <= bpc <= 31 && bpc <= limit && limit - bpc <= 32 && Shaped(bpc)
      modifies nGRcodewords, notGRcwlen, notGRprefixmask, notGRsuffixlen
      ensures forall i :: 0 <= i < bpc ==> nGRcodewords[i] == GrWords(bpc, limit, i)
      ensures forall i :: 0 <= i < bpc ==> notGRcwlen[i] == Runs(bpc, limit, i) + SuffixLen(bpc, limit, i)
      ensures forall i :: 0 <= i < bpc ==> notGRprefixmask[i] == Bppmask(32 - Runs(bpc, limit, i))
      ensures forall i :: 0 <= i < bpc ==> notGRsuffixlen[i] == SuffixLen(bpc, limit, i)
    {
      hide Pow2, Runs, GrWords, SuffixLen, BitLength;
      for i := 0 to bpc
        invariant forall k :: 0 <= k < i ==> nGRcodewords[k] == GrWords(bpc, limit, k)
        invariant forall k :: 0 <= k < i ==> notGRcwlen[k] == Runs(bpc, limit, k) + SuffixLen(bpc, limit, k)
        invariant forall k :: 0 <= k < i ==> notGRprefixmask[k] == Bppmask(32 - Runs(bpc, limit, k))
        invariant forall k :: 0 <= k < i ==> notGRsuffixlen[k] == SuffixLen(bpc, limit, k)
      {
        var words, len, mask, suffix := CodeTable(bpc, limit, i);
        nGRcodewords[i], notGRcwlen[i], notGRprefixmask[i], notGRsuffixlen[i] := words, len, mask, suffix;
      }
    }

    /** One round of that loop. */
    method CodeTable(bpc: nat, limit: nat, i: nat) returns (words: nat, len: nat, mask: nat, suffix: nat)
      requires 1 <= bpc <= 31 && i < bpc <= limit && limit - bpc <= 32
      ensures words == GrWords(bpc, limit, i) && len == Runs(bpc, limit, i) + SuffixLen(bpc, limit, i)
      ensures Runs(bpc, limit, i) <= 32 && mask == Bppmask(32 - Runs(bpc, limit, i))
      ensures suffix == SuffixLen(bpc, limit, i)
    {
      var r := ZeroRun(bpc, limit, i);
      hide *;
      Words(bpc, limit, i);
      words := r * Pow2(i);
      assert words == GrWords(bpc, limit, i);
      var o := Bppmask(bpc) + 1 - words;
      suffix := CeilLog2(o);
      len := r + suffix;
      mask := Bppmask(32 - r);
    }

    static method ZeroRun(bpc: nat, limit: nat, i: nat) returns (r: nat)
      requires i < bpc <= limit
      ensures r == Runs(bpc, limit, i)
    {
      hide Pow2;
      r := limit - bpc;
      if r > Bppmask(bpc - i) {
        r := Bppmask(bpc - i);
      }
    }

    static lemma Words(bpc: nat, limit: nat, i: nat)
      requires 1 <= bpc <= 31 && i < bpc <= limit
      ensures GrWords(bpc, limit, i) == Runs(bpc, limit, i) * Pow2(i)
      ensures 1 <= Bppmask(bpc) + 1 - GrWords(bpc, limit, i) < 0x1_0000_0000
      ensures SuffixLen(bpc, limit, i) == BitLength(Bppmask(bpc) + 1 - GrWords(bpc, limit, i) - 1)
    {
      hide Pow2, Runs, BitLength;
      Pow2Monotone(bpc, 31);
      Pow2Values();
    }

    /** The second half of family_init: zigzag order of differences, and back. */
    method InitTranslation(bpc: nat)
      requires Shaped(bpc) && bpc >= 1
      modifies xlatU2L, xlatL2U
      ensures forall s :: 0 <= s < Pow2(bpc) ==> xlatU2L[s] == U2L(Bppmask(bpc), s)
      ensures forall s :: 0 <= s < Pow2(bpc) ==> xlatL2U[s] == L2U(Bppmask(bpc), s)
    {
      hide Pow2;
      var a := Bppmask(bpc);
      var c := a / 2;
      for s := 0 to a + 1
        invariant forall k :: 0 <= k < s ==> xlatU2L[k] == U2L(a, k)
      {
        xlatU2L[s] := if c >= s then 2 * s else 2 * (a - s) + 1;
      }
      for s := 0 to a + 1
        invariant forall k :: 0 <= k < s ==> xlatL2U[k] == L2U(a, k)
        invariant forall k :: 0 <= k <= a ==> xlatU2L[k] == U2L(a, k)
      {
        xlatL2U[s] := if s % 2 == 1 then a - s / 2 else s / 2;
      }
    }
  }

  /** Small differences of either sign get small codes: 0, a, 1, a - 1, ... become 0, 1, 2, 3, ... */
  function U2L(a: nat, s: nat): nat
    requires s <= a
  {
    if a / 2 >= s then 2 * s else 2 * (a - s) + 1
  }

  function L2U(a: nat, s: nat): nat
    requires s <= a
  {
    if s % 2 == 1 then a - s / 2 else s / 2
  }

  /** For a = 2^k - 1 the two tables undo each other. */
  lemma TranslationsInverse(a: nat, s: nat)
    requires s <= a && a % 2 == 1
    ensures U2L(a, s) <= a && L2U(a, U2L(a, s)) == s
    ensures L2U(a, s) <= a && U2L(a, L2U(a, s)) == s
  {
  }

  // ---------------------------------------------------------------- the 8-bit family

  function R8(l: nat): (r: nat)
    requires l < 8
    ensures 1 <= r <= 18 && r + l <= 26
  {
    Family8(l);
    Runs(8, 26, l)
  }

  function Words8(l: nat): (r: nat)
    requires l < 8
    ensures r <= 255
  {
    Family8(l);
    GrWords(8, 26, l)
  }

  function Suffix8(l: nat): (r: nat)
    requires l < 8
    ensures R8(l) + r <= 26
  {
    Family8(l);
    SuffixLen(8, 26, l)
  }

  /** The tables of family_8bpc. */
  lemma Family8(l: nat)
    requires l < 8
    ensures (Runs(8, 26, l), GrWords(8, 26, l), SuffixLen(8, 26, l))
         == [(18, 18, 8), (18, 36, 8), (18, 72, 8), (18, 144, 7), (15, 240, 4), (7, 224, 5), (3, 192, 6), (1, 128,
             7)][l]
  {
    Pow2Small();
    BitLengthSmall();
    hide Pow2, BitLength;
    if l == 0 {} else if l == 1 {} else if l == 2 {}
    else if l == 3 {} else if l == 4 {} else if l == 5 {}
    else if l == 6 {}
  }

  lemma Pow2Small()
    ensures Pow2(0) == 1 && Pow2(1) == 2 && Pow2(2) == 4 && Pow2(3) == 8 && Pow2(4) == 16 && Pow2(5) == 32
    ensures Pow2(6) == 64 && Pow2(7) == 128 && Pow2(8) == 256
  {
    assert Pow2(2) == 2 * Pow2(1);
    assert Pow2(4) == 2 * Pow2(3);
    assert Pow2(6) == 2 * Pow2(5);
    assert Pow2(8) == 2 * Pow2(7);
  }

  lemma BitLengthSmall()
    ensures BitLength(237) == 8 && BitLength(219) == 8 && BitLength(183) == 8 && BitLength(111) == 7
    ensures BitLength(15) == 4 && BitLength(31) == 5 && BitLength(63) == 6 && BitLength(127) == 7
  {
    assert BitLength(15) == 4;
    assert BitLength(13) == 4;
    assert BitLength(11) == 4;
    assert BitLength(6) == 3;
    assert BitLength(14) == 4;
    assert BitLength(27) == 5;
    assert BitLength(29) == 5;
    assert BitLength(22) == 5;
  }

  /** All that the proofs below need of the tables. */
  lemma FamilyFacts(l: nat)
    requires l < 8
    ensures 1 <= R8(l) <= 18 && R8(l) + l <= 26 && 1 <= R8(l) + Suffix8(l) <= 26
    ensures Words8(l) == R8(l) * Pow2(l) <= 255 && 256 - Words8(l) <= Pow2(Suffix8(l))
  {
    Family8(l);
    Pow2Small();
    hide Pow2, SuffixLen, Runs, Bppmask;
  }

  // ---------------------------------------------------------------- leading zeros

  /** lzeroes[b], the table given by its runs. */
  function Lzeroes(b: nat): nat {
    if b >= 128 then 0 else if b >= 64 then 1 else if b >= 32 then 2 else if b >= 16 then 3
    else if b >= 8 then 4 else if b >= 4 then 5 else if b >= 2 then 6 else if b >= 1 then 7 else 8
  }

  /** cnt_l_zeroes: the masks test the top 9, 17 and 25 bits. */
  function CntLZeroes(t: Word): nat {
    var v := Value(t);
    if v >= 0x80_0000 then Lzeroes(v / 0x100_0000)
    else if v >= 0x8000 then 8 + Lzeroes(v / 0x1_0000 % 256)
    else if v >= 0x80 then 16 + Lzeroes(v / 0x100 % 256)
    else 24 + Lzeroes(v % 256)
  }

  lemma LzeroesBounds(b: nat)
    requires b < 256
    ensures Lzeroes(b) <= 8 && b < Pow2(8 - Lzeroes(b)) && (b > 0 ==> Lzeroes(b) < 8 && Pow2(7 - Lzeroes(b)) <= b)
  {
    Pow2Small();
    hide Pow2;
  }

  /** A number whose top byte holds b >= 1 has its leading zeros there. */
  lemma ScaledBounds(v: nat, b: nat, k: nat)
    requires k <= 24 && 1 <= b < 256 && b * Pow2(k) <= v < (b + 1) * Pow2(k)
    ensures Lzeroes(b) < 8 && Pow2(7 - Lzeroes(b) + k) <= v < Pow2(8 - Lzeroes(b) + k)
  {
    var z := Lzeroes(b);
    LzeroesBounds(b);
    hide Lzeroes;
    Pow2Add(7 - z, k);
    Pow2Add(8 - z, k);
    hide Pow2;
    MulMonotone(Pow2(7 - z), b, Pow2(k));
    MulMonotone(b + 1, Pow2(8 - z), Pow2(k));
  }

  lemma MulMonotone(a: nat, b: nat, c: nat)
    requires a <= b
    ensures a * c <= b * c
  {
  }

  /** The count is the position of the first one, or 32. */
  lemma LeadingZeros(t: Word)
    ensures CntLZeroes(t) <= 32 && (forall i :: 0 <= i < CntLZeroes(t) ==> !t[i])
    ensures CntLZeroes(t) < 32 ==> t[CntLZeroes(t)]
  {
    var z := CntLZeroes(t);
    CountBounds(t);
    hide CntLZeroes, Value, Pow2;
    TopZeros(t, z);
    if z < 32 {
      TopZeros(t, z + 1);
    }
  }

  /** The same count by whole bytes: the extra bit in each mask makes no difference. */
  function ByteCount(v: nat): nat
    requires v < 0x1_0000_0000
  {
    if v >= 0x100_0000 then Lzeroes(v / 0x100_0000)
    else if v >= 0x1_0000 then 8 + Lzeroes(v / 0x1_0000)
    else if v >= 0x100 then 16 + Lzeroes(v / 0x100)
    else 24 + Lzeroes(v)
  }

  lemma CountByBytes(t: Word)
    requires Value(t) < 0x1_0000_0000
    ensures CntLZeroes(t) == ByteCount(Value(t))
  {
    hide Value;
    LzeroesTop(Value(t));
    hide Lzeroes;
  }

  lemma LzeroesTop(v: nat)
    ensures Lzeroes(0) == 8
    ensures 0x80_0000 <= v < 0x100_0000 ==> v / 0x100_0000 == 0 && Lzeroes(v / 0x1_0000) == 0
    ensures 0x8000 <= v < 0x1_0000 ==> v / 0x1_0000 == 0 && Lzeroes(v / 0x100) == 0
    ensures 0x80 <= v < 0x100 ==> v / 0x100 == 0 && Lzeroes(v) == 0
  {
  }

  lemma ByteCountBounds(v: nat)
    requires v < 0x1_0000_0000
    ensures ByteCount(v) <= 32 && v < Pow2(32 - ByteCount(v))
    ensures ByteCount(v) < 32 ==> Pow2(31 - ByteCount(v)) <= v
  {
    Pow2Bytes();
    LzeroesTop(v);
    hide Pow2, Lzeroes;
    if v >= 0x100_0000 {
      ScaledBounds(v, v / 0x100_0000, 24);
    } else if v >= 0x1_0000 {
      ScaledBounds(v, v / 0x1_0000, 16);
    } else if v >= 0x100 {
      ScaledBounds(v, v / 0x100, 8);
    } else if v >= 1 {
      ScaledBounds(v, v, 0);
    }
  }

  lemma CountBounds(t: Word)
    ensures CntLZeroes(t) <= 32 && Value(t) < Pow2(32 - CntLZeroes(t))
    ensures CntLZeroes(t) < 32 ==> Pow2(31 - CntLZeroes(t)) <= Value(t)
  {
    ValueBound(t);
    Pow2Values();
    hide *;
    CountByBytes(t);
    ByteCountBounds(Value(t));
  }

  lemma Pow2Bytes()
    ensures Pow2(0) == 1 && Pow2(8) == 0x100 && Pow2(16) == 0x1_0000 && Pow2(24) == 0x100_0000
  {
    Pow2Small();
    Pow2Add(8, 8);
    Pow2Add(16, 8);
  }

  // ---------------------------------------------------------------- the code

  /** golomb_code_len_8bpc */
  function CodeLen(v: nat, l: nat): nat
    requires l < 8
  {
    if v < Words8(l) then v / Pow2(l) + 1 + l else R8(l) + Suffix8(l)
  }

  /** What golomb_decoding_8bpc gives: length of the codeword at the front of the window, and its value. */
  datatype Golomb = Golomb(codewordlen: nat, rc: nat)

  function GolombDecoding(l: nat, e: Word): Golomb
    requires l < 8
  {
    Kinds(l, e);
    if Value(e) > Bppmask(32 - R8(l)) then ShortDecoding(l, e, CntLZeroes(e)) else LongDecoding(l, e)
  }

  function ShortDecoding(l: nat, e: Word, r: nat): Golomb
    requires r + 1 + l <= 32
  {
    var i := r + 1 + l;
    Golomb(i, Or(Scaled(r, l), Value(e) / Pow2(32 - i) % Pow2(l)))
  }

  /** r << l */
  function Scaled(r: nat, l: nat): nat {
    r * Pow2(l)
  }

  function LongDecoding(l: nat, e: Word): Golomb
    requires l < 8
  {
    var i := R8(l) + Suffix8(l);
    Golomb(i, Words8(l) + Value(e) / Pow2(32 - i) % Pow2(Suffix8(l)))
  }

  /** The code itself: a count in unary and l more bits, or the longest run of zeros and a plain number. */
  function Codeword(l: nat, v: nat): Bits
    requires l < 8
  {
    if v < Words8(l) then ShortWord(l, v / Pow2(l), v % Pow2(l)) else LongWord(l, v - Words8(l))
  }

  function ShortWord(l: nat, r: nat, low: nat): (c: Bits)
    ensures |c| == r + 1 + l
  {
    Zeros(r) + [true] + ToBits(low, l)
  }

  function LongWord(l: nat, suffix: nat): (c: Bits)
    requires l < 8
    ensures |c| == R8(l) + Suffix8(l)
  {
    Zeros(R8(l)) + ToBits(suffix, Suffix8(l))
  }

  lemma Kinds(l: nat, e: Word)
    requires l < 8
    ensures 1 <= R8(l) <= 18 && R8(l) + l <= 26
    ensures Value(e) > Bppmask(32 - R8(l)) <==> CntLZeroes(e) < R8(l)
    ensures Value(e) <= Bppmask(32 - R8(l)) <==> forall i :: 0 <= i < R8(l) ==> !e[i]
  {
    FamilyFacts(l);
    LeadingZeros(e);
    hide R8, Words8, Suffix8, CntLZeroes, Value, Pow2;
    TopZeros(e, R8(l));
  }

  /** The bits from a to b of the window, as the shift and the mask take them. */
  lemma Slice(e: Word, a: nat, b: nat)
    requires a <= b <= 32
    ensures Value(e) / Pow2(32 - b) % Pow2(b - a) == Value(e[a..b])
  {
    assert e == e[..a] + e[a..b] + e[b..];
    ValueMiddle(e[..a], e[a..b], e[b..]);
  }

  /** Decoding in terms of bits. */
  lemma ShortBits(l: nat, e: Word, r: nat)
    requires r + 1 + l <= 32
    ensures ShortDecoding(l, e, r) == Golomb(r + 1 + l, Scaled(r, l) + Value(e[r + 1..r + 1 + l]))
  {
    hide Value, Pow2, Or;
    var low := Value(e[r + 1..r + 1 + l]);
    Slice(e, r + 1, r + 1 + l);
    ValueBound(e[r + 1..r + 1 + l]);
    OrDisjoint(low, r, l);
    OrCommutes(low, r * Pow2(l));
  }

  lemma LongBits(l: nat, e: Word)
    requires l < 8
    ensures LongDecoding(l, e) == Golomb(R8(l) + Suffix8(l), Words8(l) + Value(e[R8(l)..R8(l) + Suffix8(l)]))
  {
    hide R8, Words8, Suffix8, Value, Pow2;
    Slice(e, R8(l), R8(l) + Suffix8(l));
  }

  lemma DecodingBits(l: nat, e: Word)
    requires l < 8
    ensures CntLZeroes(e) < R8(l) ==> GolombDecoding(l, e) == ShortDecoding(l, e, CntLZeroes(e))
    ensures CntLZeroes(e) >= R8(l) ==> GolombDecoding(l, e) == LongDecoding(l, e)
  {
    hide R8, Suffix8, Words8, CntLZeroes, Value, Pow2, Bppmask, ShortDecoding, LongDecoding;
    Kinds(l, e);
  }

  lemma CodewordLength(l: nat, v: nat)
    requires l < 8
    ensures |Codeword(l, v)| == CodeLen(v, l) && 1 <= CodeLen(v, l) <= 26
    ensures v < Words8(l) ==> v / Pow2(l) < R8(l)
  {
    FamilyFacts(l);
    hide R8, Words8, Suffix8, ToBits, Pow2;
    if v < Words8(l) {
      DivideLess(v, R8(l), Pow2(l));
    }
  }

  lemma DivideLess(v: nat, r: nat, p: nat)
    requires p > 0 && v < r * p
    ensures v / p < r
  {
  }

  /** The first one of a window that starts with a codeword of the first kind. */
  lemma FirstOne(e: Word, r: nat)
    requires r < 32 && (forall i :: 0 <= i < r ==> !e[i]) && e[r]
    ensures CntLZeroes(e) == r
  {
    LeadingZeros(e);
    hide CntLZeroes;
  }

  /** A codeword is decoded whatever follows it. */
  lemma DecodeCodeword(l: nat, v: nat, e: Word)
    requires l < 8 && v < 256 && Codeword(l, v) <= e
    ensures GolombDecoding(l, e) == Golomb(CodeLen(v, l), v)
  {
    hide *;
    DecodingBits(l, e);
    if v < Words8(l) {
      var r, low := ShortCodeword(l, v);
      DecodeShort(l, r, low, e);
    } else {
      LongCodeword(l, v);
      SuffixFits(l, v);
      DecodeLong(l, v - Words8(l), e);
    }
  }

  lemma SuffixFits(l: nat, v: nat)
    requires l < 8 && Words8(l) <= v < 256
    ensures v - Words8(l) < Pow2(Suffix8(l))
  {
    FamilyFacts(l);
  }

  lemma ShortCodeword(l: nat, v: nat) returns (r: nat, low: nat)
    requires l < 8 && v < Words8(l)
    ensures r < R8(l) && low < Pow2(l) && Scaled(r, l) + low == v
    ensures Codeword(l, v) == ShortWord(l, r, low) && CodeLen(v, l) == r + 1 + l
  {
    CodewordLength(l, v);
    hide Pow2, ShortWord, R8, Words8;
    r, low := v / Pow2(l), v % Pow2(l);
    DivMod(v, Pow2(l));
  }

  lemma LongCodeword(l: nat, v: nat)
    requires l < 8 && v >= Words8(l)
    ensures Codeword(l, v) == LongWord(l, v - Words8(l)) && CodeLen(v, l) == R8(l) + Suffix8(l)
  {
    hide Pow2, LongWord, ShortWord, R8, Words8, Suffix8;
  }

  lemma DecodeLong(l: nat, suffix: nat, e: Word)
    requires l < 8 && suffix < Pow2(Suffix8(l)) && LongWord(l, suffix) <= e
    ensures CntLZeroes(e) >= R8(l)
    ensures LongDecoding(l, e) == Golomb(R8(l) + Suffix8(l), Words8(l) + suffix)
  {
    hide R8, Words8, Suffix8, CntLZeroes, Value, Pow2, LongDecoding, ToBits;
    var r, c := R8(l), LongWord(l, suffix);
    assert forall i :: 0 <= i < |c| ==> e[i] == c[i];
    LeadingZeros(e);
    LongBits(l, e);
    assert e[r..r + Suffix8(l)] == ToBits(suffix, Suffix8(l));
    ValueToBits(suffix, Suffix8(l));
  }

  lemma DecodeShort(l: nat, r: nat, low: nat, e: Word)
    requires r + 1 + l <= 32 && low < Pow2(l) && ShortWord(l, r, low) <= e
    ensures CntLZeroes(e) == r && ShortDecoding(l, e, r) == Golomb(r + 1 + l, Scaled(r, l) + low)
  {
    hide CntLZeroes, Value, Pow2, ShortDecoding, ToBits, Scaled;
    var c := ShortWord(l, r, low);
    assert forall i :: 0 <= i < |c| ==> e[i] == c[i];
    FirstOne(e, r);
    ShortBits(l, e, r);
    assert e[r + 1..r + 1 + l] == ToBits(low, l);
    ValueToBits(low, l);
  }

  /** Whatever the window holds, the length decoded is the length of the value decoded, and the window starts
      with that value's codeword. */
  lemma DecodedIsCodeword(l: nat, e: Word)
    requires l < 8
    ensures var g := GolombDecoding(l, e);
      g.codewordlen == CodeLen(g.rc, l) && 1 <= g.codewordlen <= 26 && Codeword(l, g.rc) == e[..g.codewordlen]
  {
    hide R8, GolombDecoding, Codeword, CodeLen, CntLZeroes;
    CodewordLength(l, GolombDecoding(l, e).rc);
    if CntLZeroes(e) < R8(l) {
      DecodedShort(l, e);
    } else {
      DecodedLong(l, e);
    }
  }

  lemma DecodedShort(l: nat, e: Word)
    requires l < 8 && CntLZeroes(e) < R8(l)
    ensures var g := GolombDecoding(l, e);
            g.codewordlen == CodeLen(g.rc, l) && g.codewordlen <= 32 && Codeword(l, g.rc) == e[..g.codewordlen]
  {
    DecodingBits(l, e);
    var r := CntLZeroes(e);
    assert r + 1 + l <= 32 by { FamilyFacts(l); }
    hide *;
    var low := ShortIsCodeword(l, e, r);
    CodewordOfShort(l, r, low);
  }

  lemma DecodedLong(l: nat, e: Word)
    requires l < 8 && CntLZeroes(e) >= R8(l)
    ensures var g := GolombDecoding(l, e);
            g.codewordlen == CodeLen(g.rc, l) && g.codewordlen <= 32 && Codeword(l, g.rc) == e[..g.codewordlen]
  {
    DecodingBits(l, e);
    assert R8(l) + Suffix8(l) <= 26 by { FamilyFacts(l); }
    hide R8, Suffix8, Words8, CntLZeroes, Pow2, GolombDecoding, LongDecoding, ShortDecoding, LongWord, Codeword,
        CodeLen;
    LongIsCodeword(l, e);
    LongCodeword(l, GolombDecoding(l, e).rc);
  }

  lemma CodewordOfShort(l: nat, r: nat, low: nat)
    requires l < 8 && r < R8(l) && low < Pow2(l)
    ensures var v := Scaled(r, l) + low;
            Codeword(l, v) == ShortWord(l, r, low) && CodeLen(v, l) == r + 1 + l
  {
    FamilyFacts(l);
    hide R8, Suffix8, Pow2, ShortWord, Words8, Codeword, CodeLen;
    BelowProduct(r, low, Pow2(l), R8(l));
    var r', low' := ShortCodeword(l, Scaled(r, l) + low);
    QuotientUnique(r, low, r', low', Pow2(l));
  }

  lemma LongIsCodeword(l: nat, e: Word)
    requires l < 8 && CntLZeroes(e) >= R8(l)
    ensures LongDecoding(l, e).codewordlen == R8(l) + Suffix8(l) && LongDecoding(l, e).rc >= Words8(l)
    ensures LongWord(l, LongDecoding(l, e).rc - Words8(l)) == e[..R8(l) + Suffix8(l)]
  {
    hide R8, Words8, Suffix8, CntLZeroes, Value, Pow2, LongDecoding, ToBits;
    LeadingZeros(e);
    LongBits(l, e);
    var suffix := e[R8(l)..R8(l) + Suffix8(l)];
    ToBitsValue(suffix);
    assert e[..R8(l) + Suffix8(l)] == Zeros(R8(l)) + suffix;
  }

  lemma ShortIsCodeword(l: nat, e: Word, r: nat) returns (low: nat)
    requires r + 1 + l <= 32 && CntLZeroes(e) == r
    ensures low < Pow2(l) && ShortDecoding(l, e, r) == Golomb(r + 1 + l, Scaled(r, l) + low)
    ensures e[..r + 1 + l] == ShortWord(l, r, low)
  {
    hide CntLZeroes, Value, Pow2, ToBits, ShortDecoding, Scaled;
    LeadingZeros(e);
    ShortBits(l, e, r);
    var bits := e[r + 1..r + 1 + l];
    low := Value(bits);
    ValueBound(bits);
    ToBitsValue(bits);
    assert e[..r + 1 + l] == Zeros(r) + [true] + bits;
  }

  lemma BelowProduct(r: nat, low: nat, p: nat, runs: nat)
    requires low < p && r < runs
    ensures r * p + low < runs * p
  {
    MulMonotone(r + 1, runs, p);
  }

  /** No codeword of a code starts another one. */
  lemma PrefixFree(l: nat, v: nat, v': nat)
    requires l < 8 && v < 256 && v' < 256 && Codeword(l, v) <= Codeword(l, v')
    ensures v == v'
  {
    CodewordLength(l, v);
    CodewordLength(l, v');
    hide Codeword, CodeLen;
    var e := Codeword(l, v') + Zeros(32 - |Codeword(l, v')|);
    DecodeCodeword(l, v, e);
    DecodeCodeword(l, v', e);
  }
}
