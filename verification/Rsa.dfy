/** Encryption of the SPICE ticket: OAEP padding, the padded bytes as a number, a modular power, and the result as
    bytes.
 */
module Rsa {
  import opened JsInt
  import opened Digits
  import opened DigitLemmas
  import opened Division
  import opened Kernels
  import opened BigIntegers
  import opened Congruence
  import opened ModPow
  import opened RadixText
  import Oaep

  // ---------------------------------------------------------------- length of the key

  /** bitLength of a number that is not negative. */
  method BitLength(x: BigInteger) returns (b: nat)
    requires x.Valid() && x.s == 0
    ensures x.Value() == 0 ==> b == 0
    ensures x.Value() > 0 ==> b > 0 && Pow2(b - 1) <= x.Value() < Pow2(b)
  {
    x.ZeroIsEmpty();
    if x.t <= 0 {
      return 0;
    }
    ProperDigit(x.d, 0, x.t, x.t - 1);
    TopBounds(x.d, x.t);
    Unsigned(x.d, x.t);
    hide Val, Weight, Num, Pow2, NBits, Proper;
    b := BitsOfTop(x.d[x.t - 1], x.t - 1, x.Value());
  }

  method BitsOfTop(top: int, n: nat, ghost v: int) returns (b: nat)
    requires 1 <= top < DV && top * Weight(n) <= v < (top + 1) * Weight(n)
    ensures b > 0 && Pow2(b - 1) <= v < Pow2(b)
  {
    assert DV <= 0x4000_0000;
    hide *;
    NBitsSpec(top);
    LengthOfTop(v, top, n, NBits(top));
    b := DB * n + NBits(top);
  }

  lemma LengthOfTop(v: int, top: int, n: nat, bits: int)
    requires top * Weight(n) <= v < (top + 1) * Weight(n)
    requires bits >= 1 && Pow2(bits - 1) <= top < Pow2(bits)
    ensures DB * n + bits - 1 >= 0 && Pow2(DB * n + bits - 1) <= v < Pow2(DB * n + bits)
  {
    hide Pow2, Weight;
    var r := DB * n;
    assert r == n * DB && r >= 0;
    WeightIsPower(n);
    Pow2Add(r, bits - 1);
    Pow2Add(r, bits);
    MulGrows(Pow2(bits - 1), top, Weight(n));
    MulGrows(top + 1, Pow2(bits), Weight(n));
  }

  lemma MulGrows(a: int, b: int, w: int)
    requires a <= b && w >= 0
    ensures a * w <= b * w
  {
    MulNonNegative(b - a, w);
    assert (b - a) * w == b * w - a * w;
  }

  /** k bytes are just enough for n. */
  predicate ByteLength(n: int, k: nat) {
    k > 0 && Pow2((k - 1) * 8) <= n < Pow2(k * 8)
  }

  lemma BytesOfBits(n: int, b: nat)
    requires b > 0 && Pow2(b - 1) <= n < Pow2(b)
    ensures ByteLength(n, (b + 7) / 8)
  {
    var k := (b + 7) / 8;
    assert (k - 1) * 8 <= b - 1 && b <= k * 8;
    Pow2Monotone((k - 1) * 8, b - 1);
    Pow2Monotone(b, k * 8);
  }

  // ---------------------------------------------------------------- bytes and numbers

  predicate Bytes(t: seq<nat>) {
    forall i :: 0 <= i < |t| ==> t[i] < 256
  }

  lemma {:induction false} Base256Bound(t: seq<nat>)
    requires Bytes(t)
    ensures 0 <= Base256(t) < Pow2(|t| * 8)
    ensures t != [] && t[0] > 0 ==> Pow2((|t| - 1) * 8) <= Base256(t)
  {
    if t != [] {
      Base256Bound(t[1..]);
      var w := Pow2((|t| - 1) * 8);
      Pow2Add((|t| - 1) * 8, 8);
      EightBits();
      assert (|t| - 1) * 8 + 8 == |t| * 8;
      hide Pow2;
      ByteOnTop(t[0], Base256(t[1..]), w);
    }
  }

  lemma ByteOnTop(x: int, rest: int, w: int)
    requires 0 <= x < 256 && 0 <= rest < w
    ensures 0 <= x * w + rest < w * 256
    ensures x > 0 ==> w <= x * w + rest
  {
    MulNonNegative(x, w);
    MulGrows(x + 1, 256, w);
    if x > 0 {
      MulGrows(1, x, w);
    }
  }

  /** A number in k bytes. */
  function ToBytes(x: int, k: nat): (t: seq<nat>)
    ensures |t| == k && Bytes(t)
    decreases k
  {
    if k == 0 then [] else [x / Pow2((k - 1) * 8) % 256] + ToBytes(x % Pow2((k - 1) * 8), k - 1)
  }

  lemma {:induction false} ToBytesOf(t: seq<nat>)
    requires Bytes(t)
    ensures ToBytes(Base256(t), |t|) == t
  {
    if t != [] {
      var rest, w := t[1..], Pow2((|t| - 1) * 8);
      var x := Base256(t);
      assert x == t[0] * w + Base256(rest);
      Base256Bound(rest);
      ToBytesStep(x, t[0], Base256(rest), |t|);
      hide Base256, Pow2, ToBytes;
      ToBytesOf(rest);
      assert t == [t[0]] + rest;
    }
  }

  lemma ToBytesStep(x: int, byte: nat, rest: int, k: nat)
    requires k > 0 && byte < 256 && x == byte * Pow2((k - 1) * 8) + rest && 0 <= rest < Pow2((k - 1) * 8)
    ensures ToBytes(x, k) == [byte] + ToBytes(rest, k - 1)
  {
    hide Pow2;
    DivModUnique(x, Pow2((k - 1) * 8), byte, rest);
  }

  // ---------------------------------------------------------------- hexadecimal text as bytes

  /** Pairs of hexadecimal digits. */
  function Pairs(s: string): seq<nat>
    requires |s| % 2 == 0 && AllDigits(s, 4)
  {
    if s == "" then []
    else
      Hex2(s[0], s[1]);
      [IntAt(s[0]) * 16 + IntAt(s[1])] + Pairs(s[2..])
  }

  lemma Hex2(a: char, b: char)
    ensures Pow2(4) == 16
  {
    SmallPowers();
  }

  lemma {:induction false} PairsValue(s: string)
    requires |s| % 2 == 0 && AllDigits(s, 4)
    ensures |Pairs(s)| * 2 == |s| && Bytes(Pairs(s)) && Base256(Pairs(s)) == Horner(s, 4)
  {
    if s == "" {
      HornerNone(4);
    } else {
      var rest := s[2..];
      PairsStep(s);
      PairsValue(rest);
      TwoDigits(s);
      hide Horner, IntAt, Pairs, AllDigits, Bytes, Base256;
      BytesFront(Pairs(s), IntAt(s[0]) * 16 + IntAt(s[1]), Pairs(rest));
      assert (|Pairs(s)| - 1) * 8 == |rest| * 4;
    }
  }

  /** The two digits in front of hexadecimal text. */
  lemma TwoDigits(s: string)
    requires |s| >= 2 && AllDigits(s, 4)
    ensures var b := IntAt(s[0]) * 16 + IntAt(s[1]);
            0 <= b < 256 && Horner(s, 4) == b * Pow2((|s| - 2) * 4) + Horner(s[2..], 4)
  {
    var rest, high, low := s[2..], IntAt(s[0]), IntAt(s[1]);
    SmallPowers();
    assert 0 <= high < 16 && 0 <= low < 16;
    assert s == [s[0]] + s[1..] && s[1..] == [s[1]] + rest;
    hide Horner, IntAt, Pow2, AllDigits;
    HornerFront(s[0], s[1..], 4);
    HornerFront(s[1], rest, 4);
    Shift4(|rest|);
    PairAlgebra(high, low, Pow2(|rest| * 4), Horner(rest, 4));
  }

  lemma Shift4(n: nat)
    ensures Pow2((n + 1) * 4) == Pow2(n * 4) * 16
  {
    SmallPowers();
    assert (n + 1) * 4 == n * 4 + 4;
    hide Pow2;
    Pow2Add(n * 4, 4);
  }

  lemma BytesFront(t: seq<nat>, b: nat, rest: seq<nat>)
    requires t == [b] + rest && b < 256 && Bytes(rest)
    ensures |t| == |rest| + 1 && Bytes(t) && Base256(t) == b * Pow2((|t| - 1) * 8) + Base256(rest)
  {
    assert t[1..] == rest;
    hide Pow2;
  }

  lemma PairAlgebra(high: int, low: int, w: int, rest: int)
    ensures high * (w * 16) + (low * w + rest) == (high * 16 + low) * w + rest
  {
  }

  // ---------------------------------------------------------------- rsa_encrypt

  /** The bytes as they are in an array of character codes. */
  function Codes(em: seq<Oaep.Byte>): (t: seq<nat>)
    ensures |t| == |em| && Bytes(t)
  {
    seq(|em|, i requires 0 <= i < |em| => em[i] as int)
  }

  function FromCodes(t: seq<nat>): (em: seq<Oaep.Byte>)
    requires Bytes(t)
    ensures |em| == |t|
  {
    seq(|t|, i requires 0 <= i < |t| => t[i] as bv8)
  }

  /** modPowInt on numbers. */
  function Raised(m: int, e: int, n: int): int
    requires n > 0
  {
    if 1 <= e <= 0xffff_ffff then Power(m, e) % n else 1
  }

  /** The number of the padded message. */
  function Padded(hash: seq<Oaep.Byte> -> Oaep.Digest, k: nat, msg: seq<Oaep.Byte>, random: Oaep.Digest): int
    requires |msg| + 42 <= k
  {
    Base256(Codes(Oaep.Encoded(hash, k, msg, [], random).em))
  }

  /** The first padded byte is 0, so the number is not negative. */
  lemma PaddedBytes(hash: seq<Oaep.Byte> -> Oaep.Digest, k: nat, msg: seq<Oaep.Byte>, random: Oaep.Digest)
    requires |msg| + 42 <= k
    ensures var t := Codes(Oaep.Encoded(hash, k, msg, [], random).em);
      |t| == k && t[0] == 0 && Signed256(t) == Padded(hash, k, msg, random)
  {
    hide Base256, Oaep.Mgf1, Oaep.Xor;
  }

  /** A numeral starts with a zero for the number 0 only. */
  lemma {:induction false} NumeralLeads(v: nat)
    ensures v > 0 ==> IntAt(Numeral(v, 4)[0]) > 0
    ensures v == 0 ==> Numeral(v, 4) == "0"
  {
    SmallPowers();
    hide Pow2, IntAt, Int2Char;
    if v < 16 {
      NumeralOne(v, 4);
      CharsInverse(v);
    } else {
      NumeralLeads(v / 16);
    }
  }

  /** Hexadecimal text, with a zero in front when its length is odd, two characters a byte. */
  method PairedBytes(c0: string, ghost v: nat) returns (i: seq<nat>)
    requires c0 == Numeral(v, 4)
    ensures i != [] && Bytes(i) && Base256(i) == v && (i[0] != 0 || |i| == 1)
  {
    hide Pow2, IntAt, Horner, Numeral, Base256, Bytes, AllDigits, Pairs;
    var c := c0;
    NumeralMeans(v, 4);
    NumeralLeads(v);
    if |c| % 2 != 0 {
      c := "0" + c;
    }
    EvenText(c0, c, v);
    i := [];
    var n := 0;
    assert c[0..] == c;
    while n < |c|
      invariant 0 <= n <= |c| && n % 2 == 0 && AllDigits(c[n..], 4) && i + Pairs(c[n..]) == Pairs(c)
    {
      PairsStep(c[n..]);
      assert c[n..][2..] == c[n + 2..] && c[n..][0] == c[n] && c[n..][1] == c[n + 1];
      var byte: nat := IntAt(c[n]) * 16 + IntAt(c[n + 1]);
      assert i + ([byte] + Pairs(c[n + 2..])) == (i + [byte]) + Pairs(c[n + 2..]);
      i := i + [byte];
      n := n + 2;
    }
    assert c[n..] == "" && i == Pairs(c) by { PairsNone(c[n..]); }
  }

  lemma PairsNone(s: string)
    requires s == ""
    ensures AllDigits(s, 4) && Pairs(s) == []
  {
  }

  lemma PairsStep(s: string)
    requires |s| % 2 == 0 && s != "" && AllDigits(s, 4)
    ensures IntAt(s[0]) * 16 + IntAt(s[1]) >= 0 && AllDigits(s[2..], 4)
    ensures Pairs(s) == [IntAt(s[0]) * 16 + IntAt(s[1])] + Pairs(s[2..])
  {
    SmallPowers();
    hide Pow2;
  }

  lemma EvenText(c0: string, c: string, v: nat)
    requires c0 != "" && AllDigits(c0, 4) && Horner(c0, 4) == v && (v > 0 ==> IntAt(c0[0]) > 0) && (v == 0 ==>
        c0 == "0")
    requires c == if |c0| % 2 != 0 then "0" + c0 else c0
    ensures |c| % 2 == 0 && AllDigits(c, 4) && Pairs(c) != [] && Bytes(Pairs(c)) && Base256(Pairs(c)) == v
    ensures Pairs(c)[0] != 0 || |Pairs(c)| == 1
  {
    SmallPowers();
    hide Pow2, Horner, Base256, Bytes;
    assert IntAt('0') == 0;
    if |c0| % 2 != 0 {
      HornerFront('0', c0, 4);
      assert "0" + c0 == ['0'] + c0;
    }
    PairsValue(c);
    PairsStep(c);
  }

  /** The result of rsa_encrypt: bytes, null for a message that is too long, or the exception of the padding. */
  datatype Sealed = Sealed(bytes: seq<nat>) | Refused | Failed

  /** rsa_encrypt with the key n, e; the bytes are those of the power if every estimate of modPowInt is good. */
  method Encrypt(hash: seq<Oaep.Byte> -> Oaep.Digest, n: BigInteger, e: int, msg: seq<Oaep.Byte>, random: Oaep.Digest)
    returns (r: Sealed, ghost k: nat)
    requires n.Valid() && n.Value() > 0
    ensures ByteLength(n.Value(), k)
    ensures r.Sealed? <==> |msg| + 42 <= k
    ensures r.Failed? <==> k < 21
    ensures r.Sealed? ==> r.bytes != [] && Bytes(r.bytes) && (r.bytes[0] != 0 || |r.bytes| == 1)
    ensures r.Sealed? && PowerSound(Padded(hash, k, msg, random), e, n.Value()) ==>
              Base256(r.bytes) == Raised(Padded(hash, k, msg, random), e, n.Value())
  {
    hide Base256, Bytes, Power, Oaep.Masked, Oaep.DataBlock, Pow2, Raised, Padded, PowerSound;
    n.SignIsSign();
    var bits := BitLength(n);
    BytesOfBits(n.Value(), bits);
    k := (bits + 7) / 8;
    var p := Oaep.PaddingAddPkcs1Oaep(hash, (bits + 7) / 8, msg, Oaep.Undefined, random);
    if !p.Padded? {
      r := if p == Oaep.DataTooLarge then Refused else Failed;
      return;
    }
    var i := Cipher(hash, n, e, msg, random, k, p.em);
    r := Sealed(i);
  }

  /** From the padded bytes on. */
  method Cipher(hash: seq<Oaep.Byte> -> Oaep.Digest, n: BigInteger, e: int, ghost msg: seq<Oaep.Byte>,
                ghost random: Oaep.Digest, ghost k: nat, em: seq<Oaep.Byte>)
    returns (i: seq<nat>)
    requires n.Valid() && n.Value() > 0 && |msg| + 42 <= k && em == Oaep.Encoded(hash, k, msg, [], random).em
    ensures i != [] && Bytes(i) && (i[0] != 0 || |i| == 1)
    ensures PowerSound(Padded(hash, k, msg, random), e, n.Value()) ==>
      Base256(i) == Raised(Padded(hash, k, msg, random), e, n.Value())
  {
    hide Base256, Bytes, Power, Oaep.Encoded, Pow2, Padded, Signed256, Val, Weight, Num, PowerSound;
    var s := new BigInteger();
    PaddedBytes(hash, k, msg, random);
    assert forall j :: 0 <= j < |em| ==> Codes(em)[j] < 256 by { CodesAreBytes(em); }
    FromBytes(s, Codes(em));
    PaddedBound(hash, k, msg, random);
    var a := ModPowInt(s, e, n);
    a.ZeroIsEmpty();
    RaisedNatural(s.Value(), e, n.Value());
    var c := ToString(a, 16);
    i := PairedBytes(c, a.Value());
  }

  lemma PaddedBound(hash: seq<Oaep.Byte> -> Oaep.Digest, k: nat, msg: seq<Oaep.Byte>, random: Oaep.Digest)
    requires |msg| + 42 <= k
    ensures Padded(hash, k, msg, random) >= 0
  {
    Base256Bound(Codes(Oaep.Encoded(hash, k, msg, [], random).em));
    hide Base256, Oaep.Encoded;
  }

  lemma CodesAreBytes(em: seq<Oaep.Byte>)
    ensures forall j :: 0 <= j < |em| ==> Codes(em)[j] < 256
  {
  }

  lemma RaisedNatural(m: int, e: int, n: int)
    requires n > 0
    ensures Raised(m, e, n) >= 0
  {
  }

  // ---------------------------------------------------------------- what the result is good for

  /** The result has the length of the key exactly when no leading zero byte was lost. */
  lemma SealedLength(n: int, k: nat, bytes: seq<nat>)
    requires ByteLength(n, k) && k > 1 && bytes != [] && Bytes(bytes) && (bytes[0] != 0 || |bytes| == 1)
    requires Base256(bytes) < n
    ensures |bytes| <= k
    ensures |bytes| == k <==> Base256(bytes) >= Pow2((k - 1) * 8)
  {
    Base256Bound(bytes);
    hide Pow2, Base256, Bytes;
    if |bytes| > k {
      Pow2Monotone(k * 8, (|bytes| - 1) * 8);
    } else if |bytes| < k {
      Pow2Monotone(|bytes| * 8, (k - 1) * 8);
    }
  }

  /** d undoes e modulo n. */
  ghost predicate KeyPair(n: int, e: nat, d: nat) {
    n > 0 && forall x {:trigger Power(x, e)} :: 0 <= x < n ==> Power(Power(x, e) % n, d) % n == x
  }

  lemma CodeBack(b: Oaep.Byte)
    ensures (b as int) as bv8 == b
  {
  }

  lemma CodesBack(em: seq<Oaep.Byte>)
    ensures FromCodes(Codes(em)) == em
  {
    forall i | 0 <= i < |em|
      ensures FromCodes(Codes(em))[i] == em[i]
    {
      CodeBack(em[i]);
    }
  }

  /** The padded number is below every modulus of its length. */
  lemma PaddedBelow(n: int, k: nat, t: seq<nat>)
    requires ByteLength(n, k) && |t| == k && Bytes(t) && t[0] == 0
    ensures 0 <= Base256(t) < n
  {
    Base256Bound(t[1..]);
    assert 0 * Pow2((k - 1) * 8) == 0;
  }

  /** Whoever has the other half of the key gets the message: a power, the number in k bytes, the padding off. */
  lemma Decrypts(hash: seq<Oaep.Byte> -> Oaep.Digest, n: int, k: nat, e: nat, d: nat, msg: seq<Oaep.Byte>,
                 random: Oaep.Digest, bytes: seq<nat>)
    requires ByteLength(n, k) && |msg| + 42 <= k && 1 <= e <= 0xffff_ffff && KeyPair(n, e, d)
    requires Base256(bytes) == Raised(Padded(hash, k, msg, random), e, n)
    ensures var em := FromCodes(ToBytes(Power(Base256(bytes), d) % n, k));
      Oaep.Decoded(hash, em, []) == Oaep.Some(msg)
  {
    var em := Oaep.Encoded(hash, k, msg, [], random).em;
    PaddedBytes(hash, k, msg, random);
    PaddedBelow(n, k, Codes(em));
    ToBytesOf(Codes(em));
    CodesBack(em);
    Oaep.DecodeEncode(hash, k, msg, [], random);
    hide Base256, Pow2, ToBytes, FromCodes, Codes, Oaep.Encoded, Oaep.Decoded;
    assert Power(Power(Base256(Codes(em)), e) % n, d) % n == Base256(Codes(em)) by { hide Power; }
  }
}
