/** OAEP padding for the ticket that is sent to the SPICE server, with SHA-1 as an arbitrary hash of 20 bytes.

    Sections are those of RFC 8017.
 */
module Oaep {
  const DIGEST_LENGTH := 20

  type Byte = bv8

  type Digest = d: seq<Byte> | |d| == DIGEST_LENGTH witness seq(DIGEST_LENGTH, i => 0)

  // ---------------------------------------------------------------- MGF1

  /** The four bytes of a counter, high byte first. */
  function CounterBytes(n: nat): seq<Byte> {
    [(n / 0x100_0000 % 256) as bv8, (n / 0x1_0000 % 256) as bv8, (n / 0x100 % 256) as bv8, (n % 256) as bv8]
  }

  /** T of appendix B.2.1: the digests for the counters 0 to n - 1. */
  function Digests(hash: seq<Byte> -> Digest, seed: seq<Byte>, n: nat): (r: seq<Byte>)
    ensures |r| == n * DIGEST_LENGTH
  {
    if n == 0 then [] else Digests(hash, seed, n - 1) + hash(seed + CounterBytes(n - 1))
  }

  /** The first len bytes of T for ceil(len / 20) counters. */
  function Mgf1(hash: seq<Byte> -> Digest, seed: seq<Byte>, len: nat): (r: seq<Byte>)
    ensures |r| == len
  {
    Digests(hash, seed, (len + 19) / 20)[..len]
  }

  lemma {:induction false} DigestsPrefix(hash: seq<Byte> -> Digest, seed: seq<Byte>, m: nat, n: nat)
    requires m <= n
    ensures Digests(hash, seed, n)[..m * DIGEST_LENGTH] == Digests(hash, seed, m)
  {
    hide Digests, CounterBytes;
    if m == n {
      var all := Digests(hash, seed, n);
      assert all[..|all|] == all;
    } else {
      DigestsStep(hash, seed, n - 1);
      DigestsPrefix(hash, seed, m, n - 1);
      PrefixOfSum(Digests(hash, seed, n - 1), hash(seed + CounterBytes(n - 1)), m * DIGEST_LENGTH);
    }
  }

  lemma PrefixOfSum(a: seq<Byte>, b: seq<Byte>, k: nat)
    requires k <= |a|
    ensures (a + b)[..k] == a[..k]
  {
  }

  /** The number that four bytes stand for, high byte first. */
  function Number(c: seq<Byte>): nat
    requires |c| == 4
  {
    c[0] as nat * 0x100_0000 + c[1] as nat * 0x1_0000 + c[2] as nat * 0x100 + c[3] as nat
  }

  /** What byte i of a mask has to be: it comes from the digest of the seed followed by i / 20 in four bytes. */
  ghost predicate MaskByte(hash: seq<Byte> -> Digest, seed: seq<Byte>, i: nat, b: Byte) {
    forall c: seq<Byte> :: |c| == 4 && Number(c) == i / DIGEST_LENGTH ==> b == hash(seed + c)[i % DIGEST_LENGTH]
  }

  lemma CounterIs(n: nat, c: seq<Byte>)
    requires |c| == 4 && Number(c) == n
    ensures CounterBytes(n) == c
  {
    var c0, c1, c2, c3 := c[0] as nat, c[1] as nat, c[2] as nat, c[3] as nat;
    FourDigits(n, c0, c1, c2, c3);
    assert c == [c[0], c[1], c[2], c[3]];
  }

  lemma FourDigits(n: nat, c0: nat, c1: nat, c2: nat, c3: nat)
    requires c0 < 256 && c1 < 256 && c2 < 256 && c3 < 256
    requires n == c0 * 0x100_0000 + c1 * 0x1_0000 + c2 * 0x100 + c3
    ensures n / 0x100_0000 % 256 == c0 && n / 0x1_0000 % 256 == c1 && n / 0x100 % 256 == c2 && n % 256 == c3
  {
    assert n / 0x100_0000 == c0 && n / 0x1_0000 == c0 * 256 + c1 && n / 0x100 == c0 * 0x1_0000 + c1 * 256 + c2;
  }

  lemma {:induction false} DigestsAt(hash: seq<Byte> -> Digest, seed: seq<Byte>, n: nat, i: nat)
    requires i < n * DIGEST_LENGTH
    ensures Digests(hash, seed, n)[i] == hash(seed + CounterBytes(i / DIGEST_LENGTH))[i % DIGEST_LENGTH]
  {
    hide CounterBytes;
    if i < (n - 1) * DIGEST_LENGTH {
      DigestsAt(hash, seed, n - 1, i);
    } else {
      assert i / DIGEST_LENGTH == n - 1 && i % DIGEST_LENGTH == i - (n - 1) * DIGEST_LENGTH;
    }
  }

  /** Every byte of the mask comes from the digest for its counter. */
  lemma MaskIs(hash: seq<Byte> -> Digest, seed: seq<Byte>, len: nat, i: nat)
    requires i < len
    ensures MaskByte(hash, seed, i, Mgf1(hash, seed, len)[i])
  {
    hide CounterBytes, Digests, Number;
    DigestsAt(hash, seed, (len + 19) / 20, i);
    forall c: seq<Byte> | |c| == 4 && Number(c) == i / DIGEST_LENGTH
      ensures Mgf1(hash, seed, len)[i] == hash(seed + c)[i % DIGEST_LENGTH]
    {
      CounterIs(i / DIGEST_LENGTH, c);
    }
  }

  /** MGF1: fills t, digest by digest, the last one as far as it fits. */
  method MGF1(hash: seq<Byte> -> Digest, t: array<Byte>, e: seq<Byte>)
    modifies t
    ensures t[..] == Mgf1(hash, e, t.Length)
    ensures forall i :: 0 <= i < t.Length ==> MaskByte(hash, e, i, t[i])
  {
    hide Digests, Mgf1, CounterBytes, MaskByte;
    var n, r: nat := 0, 0;
    DigestsNone(hash, e);
    while r < t.Length
      invariant r <= t.Length && (r < t.Length ==> r == n * DIGEST_LENGTH) &&
          r <= n * DIGEST_LENGTH < t.Length + DIGEST_LENGTH
      invariant t[..r] == Digests(hash, e, n)[..r]
    {
      var s := hash(e + CounterBytes(n));
      ghost var before := t[..r];
      DigestsStep(hash, e, n);
      r := CopyDigest(t, r, s);
      n := n + 1;
      assert t[..r] == (before + s)[..r];
    }
    Counters(hash, e, n, t.Length);
    assert t[..] == t[..r];
    forall i | 0 <= i < t.Length
      ensures MaskByte(hash, e, i, t[i])
    {
      MaskIs(hash, e, t.Length, i);
      assert t[..][i] == t[i];
    }
  }

  /** The inner loop. */
  method CopyDigest(t: array<Byte>, r0: nat, s: Digest) returns (r: nat)
    requires r0 <= t.Length
    modifies t
    ensures r == if r0 + |s| <= t.Length then r0 + |s| else t.Length
    ensures t[..r] == old(t[..r0]) + s[..r - r0]
  {
    r := r0;
    var i: nat := 0;
    while i < |s| && r < t.Length
      invariant i <= |s| && r == r0 + i <= t.Length && t[..r] == old(t[..r0]) + s[..i]
    {
      t[r] := s[i];
      i := i + 1;
      r := r + 1;
    }
  }

  lemma DigestsNone(hash: seq<Byte> -> Digest, seed: seq<Byte>)
    ensures Digests(hash, seed, 0) == []
  {
  }

  lemma DigestsStep(hash: seq<Byte> -> Digest, seed: seq<Byte>, n: nat)
    ensures Digests(hash, seed, n + 1) == Digests(hash, seed, n) + hash(seed + CounterBytes(n))
  {
  }

  /** Whole digests beyond the last one needed make no difference. */
  lemma Counters(hash: seq<Byte> -> Digest, seed: seq<Byte>, n: nat, len: nat)
    requires len <= n * DIGEST_LENGTH
    ensures Digests(hash, seed, n)[..len] == Mgf1(hash, seed, len)
  {
    var m := (len + 19) / 20;
    DigestsPrefix(hash, seed, m, n);
    assert Digests(hash, seed, n)[..len] == Digests(hash, seed, n)[..m * DIGEST_LENGTH][..len];
  }

  // ---------------------------------------------------------------- encoding

  function Xor(a: seq<Byte>, b: seq<Byte>): (r: seq<Byte>)
    requires |a| == |b|
    ensures |r| == |a|
  {
    seq(|a|, i requires 0 <= i < |a| => a[i] ^ b[i])
  }

  lemma XorTwice(a: seq<Byte>, b: seq<Byte>)
    requires |a| == |b|
    ensures Xor(Xor(a, b), b) == a
  {
    forall i | 0 <= i < |a|
      ensures Xor(Xor(a, b), b)[i] == a[i]
    {
      XorByte(a[i], b[i]);
    }
  }

  lemma XorByte(x: Byte, y: Byte)
    ensures (x ^ y) ^ y == x
  {
  }

  function Zeros(n: nat): (z: seq<Byte>)
    ensures |z| == n
  {
    seq(n, i => 0 as bv8)
  }

  /** The padded message, or null for a message that is too long, or the exception for a negative array length. */
  datatype Padding = Padded(em: seq<Byte>) | DataTooLarge | InvalidArrayLength

  /** DB of section 7.1.1. */
  function DataBlock(hash: seq<Byte> -> Digest, tlen: nat, msg: seq<Byte>, tag: seq<Byte>): (db: seq<Byte>)
    requires |msg| + 42 <= tlen
    ensures |db| == tlen - 21
  {
    hash(tag) + Zeros(tlen - 42 - |msg|) + [1] + msg
  }

  /** Steps 2.e to 2.i of section 7.1.1. */
  function Masked(hash: seq<Byte> -> Digest, db: seq<Byte>, seed: Digest): (em: seq<Byte>)
    ensures |em| == 21 + |db|
  {
    var maskedDb := Xor(db, Mgf1(hash, seed, |db|));
    [0] + Xor(seed, Mgf1(hash, maskedDb, DIGEST_LENGTH)) + maskedDb
  }

  function Encoded(hash: seq<Byte> -> Digest, tlen: nat, msg: seq<Byte>, tag: seq<Byte>, seed: Digest): Padding {
    if tlen < 21 then InvalidArrayLength
    else if |msg| + 42 > tlen then DataTooLarge
    else Padded(Masked(hash, DataBlock(hash, tlen, msg, tag), seed))
  }

  /** Byte i of the data block: the digest of the label, zeros, the separator, the message. */
  function BlockByte(hash: seq<Byte> -> Digest, tlen: nat, msg: seq<Byte>, tag: seq<Byte>, i: nat): Byte
    requires |msg| + 42 <= tlen && i < tlen - 21
  {
    var start := tlen - 21 - |msg|;
    if i < DIGEST_LENGTH then hash(tag)[i] else if i < start - 1 then 0 else if i < start then 1 else msg[i - start]
  }

  /** Byte by byte, the data block masked from the seed after the seed masked from the masked block after a zero. */
  ghost predicate IsPadding(hash: seq<Byte> -> Digest, tlen: nat, msg: seq<Byte>, tag: seq<Byte>, seed: Digest,
                            em: seq<Byte>)
  {
    && |em| == tlen && |msg| + 42 <= tlen && em[0] == 0
    && (forall i :: 0 <= i < DIGEST_LENGTH ==> MaskByte(hash, em[21..], i, em[1 + i] ^ seed[i]))
    && (forall i :: 0 <= i < tlen - 21 ==> MaskByte(hash, seed, i, em[21 + i] ^ BlockByte(hash, tlen, msg, tag, i)))
  }

  /** The padding, byte by byte. */
  lemma EncodedBytes(hash: seq<Byte> -> Digest, tlen: nat, msg: seq<Byte>, tag: seq<Byte>, seed: Digest)
    requires |msg| + 42 <= tlen
    ensures Encoded(hash, tlen, msg, tag, seed).Padded?
    ensures IsPadding(hash, tlen, msg, tag, seed, Encoded(hash, tlen, msg, tag, seed).em)
  {
    hide MaskByte, Mgf1, Xor;
    var db := DataBlock(hash, tlen, msg, tag);
    var mask := Mgf1(hash, seed, |db|);
    var maskedDb := Xor(db, mask);
    var seedMask := Mgf1(hash, maskedDb, DIGEST_LENGTH);
    var em := [0] + Xor(seed, seedMask) + maskedDb;
    assert em == Masked(hash, db, seed) && em[21..] == maskedDb;
    forall i | 0 <= i < DIGEST_LENGTH
      ensures MaskByte(hash, em[21..], i, em[1 + i] ^ seed[i])
    {
      XorAt(seed, seedMask, i);
      assert em[1 + i] == Xor(seed, seedMask)[i];
      MaskIs(hash, maskedDb, DIGEST_LENGTH, i);
    }
    forall i | 0 <= i < tlen - 21
      ensures MaskByte(hash, seed, i, em[21 + i] ^ BlockByte(hash, tlen, msg, tag, i))
    {
      XorAt(db, mask, i);
      assert em[21 + i] == maskedDb[i];
      BlockAt(hash, tlen, msg, tag, i);
      MaskIs(hash, seed, |db|, i);
    }
  }

  lemma XorAt(a: seq<Byte>, b: seq<Byte>, i: nat)
    requires |a| == |b| && i < |a|
    ensures Xor(a, b)[i] ^ a[i] == b[i]
  {
    XorBack(a[i], b[i]);
  }

  lemma XorBack(x: Byte, y: Byte)
    ensures (x ^ y) ^ x == y
  {
  }

  lemma BlockAt(hash: seq<Byte> -> Digest, tlen: nat, msg: seq<Byte>, tag: seq<Byte>, i: nat)
    requires |msg| + 42 <= tlen && i < tlen - 21
    ensures DataBlock(hash, tlen, msg, tag)[i] == BlockByte(hash, tlen, msg, tag, i)
  {
  }

  /** The last argument of the padding, which may be left out. */
  datatype Label = Undefined | Given(text: seq<Byte>)

  function LabelText(tag: Label): seq<Byte> {
    if tag.Undefined? then [] else tag.text
  }

  /** a[from..] := bytes, one by one. */
  method Put(a: array<Byte>, from: nat, bytes: seq<Byte>)
    requires from + |bytes| <= a.Length
    modifies a
    ensures a[..] == old(a[..from]) + bytes + old(a[from + |bytes|..])
  {
    for o := 0 to |bytes|
      invariant a[..from] == old(a[..from]) && a[from..from + o] == bytes[..o] && a[from + o..] == old(a[from + o..])
    {
      a[from + o] := bytes[o];
    }
    assert a[..] == a[..from] + a[from..from + |bytes|] + a[from + |bytes|..];
  }

  /** a ^= mask, one by one. */
  method XorInto(a: array<Byte>, mask: array<Byte>)
    requires a != mask && a.Length == mask.Length
    modifies a
    ensures a[..] == Xor(old(a[..]), mask[..])
  {
    for o := 0 to a.Length
      invariant forall k :: 0 <= k < o ==> a[k] == old(a[k]) ^ mask[k]
      invariant forall k :: o <= k < a.Length ==> a[k] == old(a[k])
    {
      a[o] := a[o] ^ mask[o];
    }
  }

  /** RSA_padding_add_PKCS1_OAEP; random is what SecureRandom gives. */
  method PaddingAddPkcs1Oaep(hash: seq<Byte> -> Digest, tlen: nat, e: seq<Byte>, n: Label, random: Digest)
    returns (p: Padding)
    ensures p == Encoded(hash, tlen, e, LabelText(n), random)
    ensures p.Padded? ==> IsPadding(hash, tlen, e, if n.Given? then n.text else [], random, p.em)
    ensures p.InvalidArrayLength? <==> tlen < 21
    ensures p.DataTooLarge? <==> 21 <= tlen < |e| + 42
  {
    hide Masked, DataBlock, IsPadding;
    var i := new Byte[DIGEST_LENGTH];
    Put(i, 0, random);
    assert i[..] == random;
    var s: int := tlen - 1 - i.Length;
    if s < 0 {
      return InvalidArrayLength;
    }
    var a := new Byte[s];
    var c: int := s - |e| - 1;
    var tag := if n.Undefined? then [] else n.text;
    if DIGEST_LENGTH > c {
      return DataTooLarge;
    }
    FillBlock(hash, a, c, e, tag, tlen);
    MaskBoth(hash, a, i);
    p := Padded([0] + i[..] + a[..]);
    EncodedBytes(hash, tlen, e, tag, random);
  }

  /** The data block masked by the seed, and the seed by the masked block. */
  method MaskBoth(hash: seq<Byte> -> Digest, a: array<Byte>, i: array<Byte>)
    requires a != i && i.Length == DIGEST_LENGTH
    modifies a, i
    ensures [0] + i[..] + a[..] == Masked(hash, old(a[..]), old(i[..]))
  {
    hide Mgf1, Xor;
    var u := new Byte[a.Length];
    MGF1(hash, u, i[..]);
    XorInto(a, u);
    var h := new Byte[DIGEST_LENGTH];
    MGF1(hash, h, a[..]);
    XorInto(i, h);
  }

  /** The data block: zeros, the digest of the label over the first of them, the separator, the message. */
  method FillBlock(hash: seq<Byte> -> Digest, a: array<Byte>, c: nat, e: seq<Byte>, tag: seq<Byte>, tlen: nat)
    requires a.Length == tlen - 21 && c == a.Length - |e| - 1 && c >= DIGEST_LENGTH
    modifies a
    ensures a[..] == DataBlock(hash, tlen, e, tag)
  {
    hide Zeros;
    ZeroStart(a, c);
    Put(a, 0, hash(tag));
    ghost var first := hash(tag) + Zeros(c - DIGEST_LENGTH);
    assert a[..c] == first by { ZerosTail(c, DIGEST_LENGTH); }
    a[c] := 1;
    assert a[..c + 1] == first + [1];
    Put(a, c + 1, e);
    assert a[..] == first + [1] + e;
  }

  method ZeroStart(a: array<Byte>, c: nat)
    requires c <= a.Length
    modifies a
    ensures a[..c] == Zeros(c)
  {
    for o := 0 to c
      invariant forall k :: 0 <= k < o ==> a[k] == 0
    {
      a[o] := 0;
    }
  }

  lemma ZerosTail(c: nat, d: nat)
    requires d <= c
    ensures Zeros(c)[d..] == Zeros(c - d)
  {
  }

  // ---------------------------------------------------------------- decoding, section 7.1.2

  datatype Option<T> = None | Some(value: T)

  /** Zeros, then a one: the message after them. */
  function AfterSeparator(s: seq<Byte>): Option<seq<Byte>> {
    if s == [] then None
    else if s[0] == 0 then AfterSeparator(s[1..])
    else if s[0] == 1 then Some(s[1..])
    else None
  }

  /** Step 3: undo the masks and take the block apart. */
  function Decoded(hash: seq<Byte> -> Digest, em: seq<Byte>, tag: seq<Byte>): Option<seq<Byte>> {
    if |em| < 42 then None
    else
      var maskedSeed, maskedDb := em[1..21], em[21..];
      var seed := Xor(maskedSeed, Mgf1(hash, maskedDb, DIGEST_LENGTH));
      var db := Xor(maskedDb, Mgf1(hash, seed, |maskedDb|));
      if em[0] != 0 || db[..20] != hash(tag) then None else AfterSeparator(db[20..])
  }

  lemma {:induction false} SeparatorFound(n: nat, msg: seq<Byte>)
    ensures AfterSeparator(Zeros(n) + [1] + msg) == Some(msg)
  {
    var s := Zeros(n) + [1] + msg;
    if n == 0 {
      assert s[1..] == msg;
    } else {
      assert s[1..] == Zeros(n - 1) + [1] + msg;
      SeparatorFound(n - 1, msg);
    }
  }

  lemma {:induction false} SeparatorSplits(s: seq<Byte>)
    ensures AfterSeparator(s).Some? ==>
              var m := AfterSeparator(s).value; |m| < |s| && s == Zeros(|s| - 1 - |m|) + [1] + m
  {
    if s != [] {
      if s[0] == 0 {
        SeparatorSplits(s[1..]);
        if AfterSeparator(s).Some? {
          var n := |s| - 2 - |AfterSeparator(s).value|;
          assert [s[0]] + Zeros(n) == Zeros(n + 1);
          assert s == [s[0]] + s[1..];
        }
      } else if s[0] == 1 {
        assert s == Zeros(0) + [1] + s[1..];
      }
    }
  }

  /** Decoding undoes the masks. */
  lemma Unmask(hash: seq<Byte> -> Digest, db: seq<Byte>, seed: Digest)
    ensures var em := Masked(hash, db, seed);
      && em[0] == 0
      && Xor(em[1..21], Mgf1(hash, em[21..], DIGEST_LENGTH)) == seed
      && Xor(em[21..], Mgf1(hash, seed, |em[21..]|)) == db
  {
    var maskedDb := Xor(db, Mgf1(hash, seed, |db|));
    var em := Masked(hash, db, seed);
    assert em[21..] == maskedDb;
    assert em[1..21] == Xor(seed, Mgf1(hash, maskedDb, DIGEST_LENGTH));
    XorTwice(seed, Mgf1(hash, maskedDb, DIGEST_LENGTH));
    XorTwice(db, Mgf1(hash, seed, |db|));
  }

  /** The round trip, for every hash, seed, label and message that fits; exactly the others are refused. */
  lemma DecodeEncode(hash: seq<Byte> -> Digest, tlen: nat, msg: seq<Byte>, tag: seq<Byte>, seed: Digest)
    ensures Encoded(hash, tlen, msg, tag, seed).Padded? <==> |msg| <= tlen - 42
    ensures |msg| <= tlen - 42 ==>
              var em := Encoded(hash, tlen, msg, tag, seed).em;
              |em| == tlen && Decoded(hash, em, tag) == Some(msg)
  {
    if |msg| <= tlen - 42 {
      hide Masked, Xor, Mgf1;
      var db := DataBlock(hash, tlen, msg, tag);
      Unmask(hash, db, seed);
      SeparatorFound(tlen - 42 - |msg|, msg);
      assert db[..20] == hash(tag) && db[20..] == Zeros(tlen - 42 - |msg|) + [1] + msg;
    }
  }

  /** And back: whatever decodes is the padding of what it decodes to, under one seed. */
  lemma EncodeDecode(hash: seq<Byte> -> Digest, em: seq<Byte>, tag: seq<Byte>)
    requires Decoded(hash, em, tag).Some?
    ensures exists seed: Digest :: Encoded(hash, |em|, Decoded(hash, em, tag).value, tag, seed) == Padded(em)
  {
    hide Mgf1, Xor, Zeros, AfterSeparator;
    var maskedSeed, maskedDb := em[1..21], em[21..];
    var seed: Digest := Xor(maskedSeed, Mgf1(hash, maskedDb, DIGEST_LENGTH));
    var db := Xor(maskedDb, Mgf1(hash, seed, |maskedDb|));
    var msg := Decoded(hash, em, tag).value;
    SeparatorSplits(db[20..]);
    assert db == db[..20] + db[20..] == DataBlock(hash, |em|, msg, tag);
    XorTwice(maskedDb, Mgf1(hash, seed, |maskedDb|));
    XorTwice(maskedSeed, Mgf1(hash, maskedDb, DIGEST_LENGTH));
    assert em == [0] + maskedSeed + maskedDb;
    assert Encoded(hash, |em|, msg, tag, seed) == Padded(em);
  }
}
