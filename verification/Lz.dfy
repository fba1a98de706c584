/** The LZ decoder for 32-bit images, in place over the bytes of the canvas. */
module Lz {
  type Byte = b: nat | b < 256

  /** The image formats that choose the branches: colours, with the alpha made opaque or left alone, or alpha only. */
  datatype Mode = Rgb(filled: bool) | Alpha

  type Pixel = p: seq<Byte> | |p| == 4 witness [0, 0, 0, 0]

  /** Bytes for each pixel of a literal run; what the length field leaves out. */
  function Width(mode: Mode): nat {
    if mode.Alpha? then 1 else 3
  }

  function MinLen(mode: Mode): nat {
    if mode.Alpha? then 3 else 1
  }

  // ---------------------------------------------------------------- what a token list stands for

  datatype Token = Literal(raws: seq<seq<Byte>>) | Match(ofs: nat, len: nat)

  /** Tokens that the format can hold, with done pixels before them. */
  predicate TokenOk(mode: Mode, tok: Token, done: nat) {
    match tok
    case Literal(raws) => 1 <= |raws| <= 32 && forall j :: 0 <= j < |raws| ==> |raws[j]| == Width(mode)
    case Match(ofs, len) => 1 <= ofs <= done && ofs <= 1 + 8191 + 65535 && MinLen(mode) <= len
  }

  function TokenLen(tok: Token): nat {
    match tok
    case Literal(raws) => |raws|
    case Match(_, len) => len
  }

  predicate TokensOk(mode: Mode, tokens: seq<Token>, done: nat) {
    tokens == [] || (TokenOk(mode, tokens[0], done) && TokensOk(mode, tokens[1..], done + TokenLen(tokens[0])))
  }

  function TokensLen(tokens: seq<Token>): nat {
    if tokens == [] then 0 else TokenLen(tokens[0]) + TokensLen(tokens[1..])
  }

  /** A pixel made of literal bytes, over what was there. */
  function Painted(mode: Mode, prior: Pixel, raw: seq<Byte>): Pixel
    requires |raw| == Width(mode)
  {
    match mode
    case Rgb(filled) => [raw[2], raw[1], raw[0], if filled then 255 else prior[3]]
    case Alpha => [prior[0], prior[1], prior[2], raw[0]]
  }

  /** A pixel repeated from src, over what was there. */
  function Repeated(mode: Mode, prior: Pixel, src: Pixel): Pixel {
    if mode.Alpha? then [prior[0], prior[1], prior[2], src[3]] else src
  }

  /** n more pixels, each one repeated from ofs before it. */
  function MatchPixels(mode: Mode, init: seq<Pixel>, done: seq<Pixel>, ofs: nat, n: nat): (r: seq<Pixel>)
    requires 1 <= ofs <= |done| && |done| + n <= |init|
    ensures |r| == |done| + n
    decreases n
  {
    if n == 0 then done
    else MatchPixels(mode, init, done + [Repeated(mode, init[|done|], done[|done| - ofs])], ofs, n - 1)
  }

  function LiteralPixels(mode: Mode, init: seq<Pixel>, done: seq<Pixel>, raws: seq<seq<Byte>>): (r: seq<Pixel>)
    requires |done| + |raws| <= |init| && forall j :: 0 <= j < |raws| ==> |raws[j]| == Width(mode)
    ensures |r| == |done| + |raws|
    decreases |raws|
  {
    if raws == [] then done
    else LiteralPixels(mode, init, done + [Painted(mode, init[|done|], raws[0])], raws[1..])
  }

  function TokenPixels(mode: Mode, init: seq<Pixel>, done: seq<Pixel>, tok: Token): (r: seq<Pixel>)
    requires TokenOk(mode, tok, |done|) && |done| + TokenLen(tok) <= |init|
    ensures |r| == |done| + TokenLen(tok)
  {
    match tok
    case Literal(raws) => LiteralPixels(mode, init, done, raws)
    case Match(ofs, len) => MatchPixels(mode, init, done, ofs, len)
  }

  /** The expansion of a token list. */
  function Expansion(mode: Mode, init: seq<Pixel>, done: seq<Pixel>, tokens: seq<Token>): (r: seq<Pixel>)
    requires TokensOk(mode, tokens, |done|) && |done| + TokensLen(tokens) <= |init|
    ensures |r| == |done| + TokensLen(tokens)
    decreases |tokens|
  {
    if tokens == [] then done
    else Expansion(mode, init, TokenPixels(mode, init, done, tokens[0]), tokens[1..])
  }

  // ---------------------------------------------------------------- laws of the expansion

  /** A match repeats what lies ofs before, even where it overlaps itself, and leaves earlier pixels alone. */
  lemma {:induction false} MatchLaw(mode: Mode, init: seq<Pixel>, done: seq<Pixel>, ofs: nat, n: nat)
    requires 1 <= ofs <= |done| && |done| + n <= |init|
    ensures var r := MatchPixels(mode, init, done, ofs, n);
      && r[..|done|] == done
      && forall k :: |done| <= k < |r| ==> r[k] == Repeated(mode, init[k], r[k - ofs])
    decreases n
  {
    if n > 0 {
      var more := done + [Repeated(mode, init[|done|], done[|done| - ofs])];
      var r := MatchPixels(mode, init, more, ofs, n - 1);
      MatchLaw(mode, init, more, ofs, n - 1);
      assert r[|done|] == r[..|more|][|done|] && r[|done| - ofs] == r[..|more|][|done| - ofs];
      assert r[..|done|] == r[..|more|][..|done|] == done;
    }
  }

  /** The alpha pass changes no colour. */
  predicate SameColours(init: seq<Pixel>, r: seq<Pixel>) {
    |r| <= |init| && forall k :: 0 <= k < |r| ==> r[k][..3] == init[k][..3]
  }

  lemma {:induction false} MatchColours(init: seq<Pixel>, done: seq<Pixel>, ofs: nat, n: nat)
    requires 1 <= ofs <= |done| && |done| + n <= |init| && SameColours(init, done)
    ensures SameColours(init, MatchPixels(Alpha, init, done, ofs, n))
    decreases n
  {
    if n > 0 {
      MatchColours(init, done + [Repeated(Alpha, init[|done|], done[|done| - ofs])], ofs, n - 1);
    }
  }

  lemma {:induction false} LiteralColours(init: seq<Pixel>, done: seq<Pixel>, raws: seq<seq<Byte>>)
    requires |done| + |raws| <= |init| && (forall j :: 0 <= j < |raws| ==> |raws[j]| == 1) && SameColours(init, done)
    ensures SameColours(init, LiteralPixels(Alpha, init, done, raws))
    decreases |raws|
  {
    if raws != [] {
      LiteralColours(init, done + [Painted(Alpha, init[|done|], raws[0])], raws[1..]);
    }
  }

  lemma {:induction false} AlphaOnly(init: seq<Pixel>, done: seq<Pixel>, tokens: seq<Token>)
    requires TokensOk(Alpha, tokens, |done|) && |done| + TokensLen(tokens) <= |init| && SameColours(init, done)
    ensures SameColours(init, Expansion(Alpha, init, done, tokens))
    decreases |tokens|
  {
    if tokens != [] {
      match tokens[0] {
        case Literal(raws) => LiteralColours(init, done, raws);
        case Match(ofs, len) => MatchColours(init, done, ofs, len);
      }
      AlphaOnly(init, TokenPixels(Alpha, init, done, tokens[0]), tokens[1..]);
    }
  }

  // ---------------------------------------------------------------- the encoding

  function Flat(raws: seq<seq<Byte>>): seq<Byte> {
    if raws == [] then [] else raws[0] + Flat(raws[1..])
  }

  /** Lengths beyond the head byte, in steps of 255. */
  function Extension(x: nat): (r: seq<Byte>)
    ensures r != []
  {
    if x < 255 then [x] else [255] + Extension(x - 255)
  }

  function OffsetBytes(d: nat): seq<Byte>
    requires d <= 8191 + 65535
  {
    if d < 8191 then [d % 256] else [255, (d - 8191) / 256, (d - 8191) % 256]
  }

  function Head(l: nat, d: nat): Byte {
    32 * (if l < 6 then l + 1 else 7) + (if d < 8191 then d / 256 else 31)
  }

  function EncodedToken(mode: Mode, tok: Token, done: nat): (r: seq<Byte>)
    requires TokenOk(mode, tok, done)
    ensures r != []
  {
    match tok
    case Literal(raws) => [|raws| - 1] + Flat(raws)
    case Match(ofs, len) =>
      var l := len - MinLen(mode);
      [Head(l, ofs - 1)] + (if l < 6 then [] else Extension(l - 6)) + OffsetBytes(ofs - 1)
  }

  function Encoded(mode: Mode, tokens: seq<Token>, done: nat): seq<Byte>
    requires TokensOk(mode, tokens, done)
    decreases |tokens|
  {
    if tokens == [] then []
    else EncodedToken(mode, tokens[0], done) + Encoded(mode, tokens[1..], done + TokenLen(tokens[0]))
  }

  /** The input holds these bytes at index a. */
  predicate HasAt(t: seq<Byte>, a: nat, bytes: seq<Byte>) {
    a + |bytes| <= |t| && t[a..a + |bytes|] == bytes
  }

  lemma HasSplit(t: seq<Byte>, a: nat, x: seq<Byte>, y: seq<Byte>)
    requires HasAt(t, a, x + y)
    ensures HasAt(t, a, x) && HasAt(t, a + |x|, y)
  {
    var z := t[a..a + |x| + |y|];
    assert z == x + y && t[a..a + |x|] == z[..|x|] && t[a + |x|..a + |x| + |y|] == z[|x|..];
  }

  lemma HasHead(t: seq<Byte>, a: nat, x: seq<Byte>)
    requires HasAt(t, a, x) && x != []
    ensures a < |t| && t[a] == x[0]
  {
    assert t[a..a + |x|][0] == t[a];
  }

  // ---------------------------------------------------------------- the canvas

  function PixelAt(n: seq<Byte>, k: nat): Pixel
    requires 4 * k + 4 <= |n|
  {
    [n[4 * k], n[4 * k + 1], n[4 * k + 2], n[4 * k + 3]]
  }

  function Canvas(n: seq<Byte>): (r: seq<Pixel>)
    ensures |r| == |n| / 4
  {
    seq(|n| / 4, k requires 0 <= k < |n| / 4 => PixelAt(n, k))
  }

  /** The first pixels are done, the others as they were. */
  predicate Shows(n: seq<Byte>, init: seq<Pixel>, done: seq<Pixel>) {
    |done| <= |init| && Canvas(n) == done + init[|done|..]
  }

  lemma ShowsNext(n: seq<Byte>, m: seq<Byte>, init: seq<Pixel>, done: seq<Pixel>, px: Pixel)
    requires Shows(n, init, done) && |done| < |init| && Canvas(m) == Canvas(n)[|done| := px]
    ensures Shows(m, init, done + [px])
  {
    hide Canvas;
    assert init[|done|..] == [init[|done|]] + init[|done| + 1..];
  }

  /** Four new bytes are one new pixel. */
  lemma CanvasPut(n: seq<Byte>, m: seq<Byte>, c: nat)
    requires |n| == |m| && |n| % 4 == 0 && 4 * c + 4 <= |n|
    requires forall i :: 0 <= i < |n| && i / 4 != c ==> m[i] == n[i]
    ensures Canvas(m) == Canvas(n)[c := PixelAt(m, c)]
  {
    forall k | 0 <= k < |n| / 4 && k != c
      ensures PixelAt(m, k) == PixelAt(n, k)
    {
      assert (4 * k) / 4 == k && (4 * k + 1) / 4 == k && (4 * k + 2) / 4 == k && (4 * k + 3) / 4 == k;
    }
  }

  // ---------------------------------------------------------------- what the bytes mean

  function ByteOf(t: seq<Byte>, a: nat): nat {
    if a < |t| then t[a] else 0
  }

  /** The sum of the bytes from a up to the first that is not 255, and the index after it. */
  function LengthBytes(t: seq<Byte>, a: nat): (nat, nat)
    decreases |t| - a
  {
    if a < |t| && t[a] == 255 then
      var (x, b) := LengthBytes(t, a + 1);
      (255 + x, b)
    else (ByteOf(t, a), a + 1)
  }

  /** Number of pixels in the match whose head byte is at a, and the index of its offset bytes. */
  function MatchLength(t: seq<Byte>, a: nat, mode: Mode): (nat, nat) {
    var more := if mode.Alpha? then 2 else 0;
    if ByteOf(t, a) / 32 < 7 then (ByteOf(t, a) / 32 + more, a + 1)
    else
      var (x, b) := LengthBytes(t, a + 1);
      (7 + x + more, b)
  }

  /** How far back it copies from, the offset bytes being at b, and the index of the next token. */
  function MatchOffset(t: seq<Byte>, a: nat, b: nat): (nat, nat) {
    if ByteOf(t, a) % 32 == 31 && ByteOf(t, b) == 255 then
      (8192 + 256 * ByteOf(t, b + 1) + ByteOf(t, b + 2), b + 3)
    else (1 + 256 * (ByteOf(t, a) % 32) + ByteOf(t, b), b + 1)
  }

  /** Pixel k of canvas m is a literal of the run that starts at pixel c, whose bytes start at a: blue, green, red in
      the input, and alpha made opaque or left as it was in canvas n; or the alpha alone. */
  ghost predicate LiteralAt(t: seq<Byte>, a: nat, c: nat, mode: Mode, n: seq<Byte>, m: seq<Byte>, k: nat)
    requires |n| == |m| && c <= k && 4 * k + 4 <= |m|
  {
    match mode
    case Rgb(filled) =>
      var b := a + 3 * (k - c);
      && m[4 * k] == ByteOf(t, b + 2) && m[4 * k + 1] == ByteOf(t, b + 1) && m[4 * k + 2] == ByteOf(t, b)
      && m[4 * k + 3] == if filled then 255 else n[4 * k + 3]
    case Alpha =>
      && m[4 * k] == n[4 * k] && m[4 * k + 1] == n[4 * k + 1] && m[4 * k + 2] == n[4 * k + 2]
      && m[4 * k + 3] == ByteOf(t, a + (k - c))
  }

  ghost predicate Literals(t: seq<Byte>, a: nat, c: nat, count: nat, mode: Mode, n: seq<Byte>, m: seq<Byte>)
    requires |n| == |m|
  {
    4 * (c + count) <= |m| && forall k :: c <= k < c + count ==> LiteralAt(t, a, c, mode, n, m, k)
  }

  /** Pixel k of canvas m repeats the pixel ofs before it, or its alpha alone. */
  ghost predicate CopyAt(mode: Mode, n: seq<Byte>, m: seq<Byte>, k: nat, ofs: nat)
    requires |n| == |m| && 4 * k + 4 <= |m| && 1 <= ofs <= k
  {
    var j := k - ofs;
    && m[4 * k + 3] == m[4 * j + 3]
    && if mode.Alpha? then
         m[4 * k] == n[4 * k] && m[4 * k + 1] == n[4 * k + 1] && m[4 * k + 2] == n[4 * k + 2]
       else
         m[4 * k] == m[4 * j] && m[4 * k + 1] == m[4 * j + 1] && m[4 * k + 2] == m[4 * j + 2]
  }

  ghost predicate Copies(c: nat, count: nat, ofs: nat, mode: Mode, n: seq<Byte>, m: seq<Byte>)
    requires |n| == |m|
  {
    4 * (c + count) <= |m| && 1 <= ofs <= c && forall k :: c <= k < c + count ==> CopyAt(mode, n, m, k, ofs)
  }

  /** Canvas m is canvas n with the pixels from c on made by the bytes from a up to end: a head byte below 32 starts
      that many literals and one more, another one a match. */
  ghost predicate Parses(t: seq<Byte>, a: nat, c: nat, end: nat, mode: Mode, n: seq<Byte>, m: seq<Byte>)
    requires |n| == |m|
    decreases |m| - 4 * c
  {
    if 4 * c >= |m| then a == end
    else if ByteOf(t, a) < 32 then
      var count := ByteOf(t, a) + 1;
      && Literals(t, a + 1, c, count, mode, n, m)
      && Parses(t, a + 1 + (if mode.Alpha? then count else 3 * count), c + count, end, mode, n, m)
    else
      var (count, b) := MatchLength(t, a, mode);
      var (ofs, next) := MatchOffset(t, a, b);
      && count > 0 && Copies(c, count, ofs, mode, n, m)
      && Parses(t, next, c + count, end, mode, n, m)
  }

  lemma LiteralGoes(t: seq<Byte>, a: nat, c: nat, end: nat, mode: Mode, n: seq<Byte>, m: seq<Byte>, count: nat, b: nat)
    requires |n| == |m| && ByteOf(t, a) + 1 == count <= 32 && Literals(t, a + 1, c, count, mode, n, m)
    requires b == a + 1 + Width(mode) * count && Parses(t, b, c + count, end, mode, n, m)
    ensures Parses(t, a, c, end, mode, n, m)
  {
    hide MatchLength, MatchOffset, Copies, ByteOf;
    assert b == a + 1 + if mode.Alpha? then count else 3 * count;
    assert 4 * c < |m|;
    hide Literals;
  }

  lemma MatchGoes(t: seq<Byte>, a: nat, c: nat, end: nat, mode: Mode, n: seq<Byte>, m: seq<Byte>, count: nat, ofs: nat,
                  b: nat)
    requires |n| == |m| && ByteOf(t, a) >= 32 && count > 0 && Copies(c, count, ofs, mode, n, m)
    requires MatchLength(t, a, mode).0 == count && MatchOffset(t, a, MatchLength(t, a, mode).1) == (ofs, b)
    requires Parses(t, b, c + count, end, mode, n, m)
    ensures Parses(t, a, c, end, mode, n, m)
  {
    hide Literals, MatchLength, MatchOffset, ByteOf;
    assert 4 * c < |m|;
    hide Copies;
  }

  /** The pixels of a canvas. */
  ghost predicate Pixels(n: seq<Byte>, px: seq<Pixel>) {
    4 * |px| == |n| && forall k :: 0 <= k < |px| ==> px[k] == [n[4 * k], n[4 * k + 1], n[4 * k + 2], n[4 * k + 3]]
  }

  lemma CanvasPixels(n: seq<Byte>)
    requires |n| % 4 == 0
    ensures Pixels(n, Canvas(n))
  {
  }

  lemma PixelBytes(n: seq<Byte>, px: seq<Pixel>, k: nat)
    requires Pixels(n, px) && k < |px|
    ensures 4 * k + 4 <= |n|
    ensures px[k][0] == n[4 * k] && px[k][1] == n[4 * k + 1] && px[k][2] == n[4 * k + 2] && px[k][3] == n[4 * k + 3]
  {
    assert px[k] == [n[4 * k], n[4 * k + 1], n[4 * k + 2], n[4 * k + 3]];
  }

  /** Later tokens leave the pixels that are done alone. */
  lemma {:induction false} LiteralLaw(mode: Mode, init: seq<Pixel>, done: seq<Pixel>, raws: seq<seq<Byte>>)
    requires |done| + |raws| <= |init| && forall j :: 0 <= j < |raws| ==> |raws[j]| == Width(mode)
    ensures var r := LiteralPixels(mode, init, done, raws);
      && r[..|done|] == done
      && forall k :: 0 <= k < |raws| ==> r[|done| + k] == Painted(mode, init[|done| + k], raws[k])
    decreases |raws|
  {
    hide Painted;
    if raws != [] {
      var more := done + [Painted(mode, init[|done|], raws[0])];
      var r := LiteralPixels(mode, init, more, raws[1..]);
      LiteralLaw(mode, init, more, raws[1..]);
      assert r[..|done|] == r[..|more|][..|done|] == done;
      forall k | 0 <= k < |raws|
        ensures r[|done| + k] == Painted(mode, init[|done| + k], raws[k])
      {
        if k == 0 {
          assert r[|done|] == r[..|more|][|done|];
        } else {
          assert r[|more| + (k - 1)] == Painted(mode, init[|more| + (k - 1)], raws[1..][k - 1]);
        }
      }
    }
  }

  lemma {:induction false} ExpansionKeeps(mode: Mode, init: seq<Pixel>, done: seq<Pixel>, tokens: seq<Token>)
    requires TokensOk(mode, tokens, |done|) && |done| + TokensLen(tokens) <= |init|
    ensures Expansion(mode, init, done, tokens)[..|done|] == done
    decreases |tokens|
  {
    if tokens == [] {
      assert done[..|done|] == done;
    } else {
      var next := TokenPixels(mode, init, done, tokens[0]);
      TokenKeeps(mode, init, done, tokens[0]);
      hide TokenPixels, TokenOk;
      ExpansionKeeps(mode, init, next, tokens[1..]);
      var r := Expansion(mode, init, next, tokens[1..]);
      assert r[..|done|] == r[..|next|][..|done|];
    }
  }

  lemma TokenKeeps(mode: Mode, init: seq<Pixel>, done: seq<Pixel>, tok: Token)
    requires TokenOk(mode, tok, |done|) && |done| + TokenLen(tok) <= |init|
    ensures TokenPixels(mode, init, done, tok)[..|done|] == done
  {
    match tok {
      case Literal(raws) => LiteralLaw(mode, init, done, raws);
      case Match(ofs, len) => MatchLaw(mode, init, done, ofs, len);
    }
  }

  /** The bytes of the k-th of some literals. */
  lemma {:induction false} FlatAt(t: seq<Byte>, a: nat, raws: seq<seq<Byte>>, w: nat, k: nat)
    requires HasAt(t, a, Flat(raws)) && (forall j :: 0 <= j < |raws| ==> |raws[j]| == w) && k < |raws|
    ensures HasAt(t, a + w * k, raws[k])
    decreases |raws|
  {
    HasSplit(t, a, raws[0], Flat(raws[1..]));
    hide HasAt;
    if k > 0 {
      FlatAt(t, a + w, raws[1..], w, k - 1);
      assert a + w + w * (k - 1) == a + w * k;
    }
  }

  lemma {:induction false} FlatLength(raws: seq<seq<Byte>>, w: nat)
    requires forall j :: 0 <= j < |raws| ==> |raws[j]| == w
    ensures |Flat(raws)| == w * |raws|
  {
    if raws != [] {
      FlatLength(raws[1..], w);
    }
  }

  lemma {:induction false} ExtensionRead(t: seq<Byte>, a: nat, x: nat)
    requires HasAt(t, a, Extension(x))
    ensures LengthBytes(t, a) == (x, a + |Extension(x)|)
    decreases x
  {
    HasHead(t, a, Extension(x));
    if x >= 255 {
      HasSplit(t, a, [255], Extension(x - 255));
      hide HasAt;
      ExtensionRead(t, a + 1, x - 255);
    }
  }

  lemma OffsetRead(t: seq<Byte>, a: nat, b: nat, d: nat)
    requires d <= 8191 + 65535 && HasAt(t, b, OffsetBytes(d)) && ByteOf(t, a) % 32 == if d < 8191 then d / 256 else 31
    ensures MatchOffset(t, a, b) == (d + 1, b + |OffsetBytes(d)|)
  {
    HasHead(t, b, OffsetBytes(d));
    if d >= 8191 {
      assert t[b..b + 3][1] == t[b + 1] && t[b..b + 3][2] == t[b + 2];
    }
  }

  /** What the bytes of a match say. */
  lemma MatchRead(t: seq<Byte>, a: nat, mode: Mode, tok: Token, c: nat)
    requires tok.Match? && TokenOk(mode, tok, c) && HasAt(t, a, EncodedToken(mode, tok, c))
    ensures ByteOf(t, a) >= 32 && MatchLength(t, a, mode).0 == tok.len
    ensures MatchOffset(t, a, MatchLength(t, a, mode).1) == (tok.ofs, a + |EncodedToken(mode, tok, c)|)
  {
    var l, d := tok.len - MinLen(mode), tok.ofs - 1;
    assert d <= 8191 + 65535;
    hide *;
    TokenParts(t, a + 1, mode, tok, c, l, d);
    FieldsRead(t, a, mode, l, d, if l < 6 then 0 else |Extension(l - 6)|);
  }

  lemma FieldsRead(t: seq<Byte>, a: nat, mode: Mode, l: nat, d: nat, w: nat)
    requires a < |t| && t[a] == Head(l, d) && d <= 8191 + 65535
    requires l < 6 ==> w == 0
    requires l >= 6 ==> HasAt(t, a + 1, Extension(l - 6)) && w == |Extension(l - 6)|
    requires HasAt(t, a + 1 + w, OffsetBytes(d))
    ensures ByteOf(t, a) >= 32 && MatchLength(t, a, mode) == (l + MinLen(mode), a + 1 + w)
    ensures MatchOffset(t, a, a + 1 + w) == (d + 1, a + 1 + w + |OffsetBytes(d)|)
  {
    hide *;
    HeadByte(t, a);
    HeadFields(l, d);
    if l >= 6 {
      ExtensionRead(t, a + 1, l - 6);
    }
    LengthRead(t, a, mode, l, a + 1 + w);
    OffsetRead(t, a, a + 1 + w, d);
  }

  lemma HeadByte(t: seq<Byte>, a: nat)
    requires a < |t|
    ensures ByteOf(t, a) == t[a]
  {
  }

  lemma LengthRead(t: seq<Byte>, a: nat, mode: Mode, l: nat, b: nat)
    requires ByteOf(t, a) / 32 == if l < 6 then l + 1 else 7
    requires if l < 6 then b == a + 1 else LengthBytes(t, a + 1) == (l - 6, b)
    ensures MatchLength(t, a, mode) == (l + MinLen(mode), b)
  {
    hide LengthBytes, ByteOf;
  }

  lemma LiteralRead(t: seq<Byte>, a: nat, mode: Mode, tok: Token, c: nat)
    requires tok.Literal? && TokenOk(mode, tok, c) && HasAt(t, a, EncodedToken(mode, tok, c))
    ensures ByteOf(t, a) + 1 == |tok.raws| <= 32
    ensures |EncodedToken(mode, tok, c)| == 1 + Width(mode) * |tok.raws| && HasAt(t, a + 1, Flat(tok.raws))
  {
    HasHead(t, a, EncodedToken(mode, tok, c));
    HasSplit(t, a, [|tok.raws| - 1], Flat(tok.raws));
    FlatLength(tok.raws, Width(mode));
  }

  lemma LiteralShown(t: seq<Byte>, a: nat, c: nat, mode: Mode, n: seq<Byte>, m: seq<Byte>, from: seq<Pixel>,
                     to: seq<Pixel>, k: nat, raw: seq<Byte>)
    requires Pixels(n, from) && Pixels(m, to) && |n| == |m| && c <= k < |to| && |raw| == Width(mode)
    requires HasAt(t, a + Width(mode) * (k - c), raw) && to[k] == Painted(mode, from[k], raw)
    ensures 4 * k + 4 <= |m| && LiteralAt(t, a, c, mode, n, m, k)
  {
    PixelBytes(n, from, k);
    PixelBytes(m, to, k);
    hide Pixels;
    var b := a + if mode.Alpha? then k - c else 3 * (k - c);
    assert b == a + Width(mode) * (k - c);
    assert forall i :: 0 <= i < |raw| ==> t[b..b + |raw|][i] == t[b + i] == raw[i];
    hide HasAt;
  }

  /** The literals of a run are where they belong. */
  lemma LiteralsShown(t: seq<Byte>, a: nat, mode: Mode, n: seq<Byte>, m: seq<Byte>, from: seq<Pixel>, to: seq<Pixel>,
                      done: seq<Pixel>, raws: seq<seq<Byte>>)
    requires Pixels(n, from) && Pixels(m, to) && |n| == |m| && |from| == |to| && 4 * |to| == |m|
    requires |done| + |raws| <= |from| && (forall j :: 0 <= j < |raws| ==> |raws[j]| == Width(mode))
    requires HasAt(t, a, Flat(raws)) && to[..|done| + |raws|] == LiteralPixels(mode, from, done, raws)
    ensures Literals(t, a, |done|, |raws|, mode, n, m)
  {
    hide *;
    var c := |done|;
    LiteralLaw(mode, from, done, raws);
    forall k | c <= k < c + |raws|
      ensures LiteralAt(t, a, c, mode, n, m, k)
    {
      FlatAt(t, a, raws, Width(mode), k - c);
      assert to[k] == to[..c + |raws|][k];
      assert LiteralPixels(mode, from, done, raws)[c + (k - c)] == Painted(mode, from[c + (k - c)], raws[k - c]);
      LiteralShown(t, a, c, mode, n, m, from, to, k, raws[k - c]);
    }
    LiteralsGather(t, a, c, |raws|, mode, n, m);
  }

  lemma LiteralsGather(t: seq<Byte>, a: nat, c: nat, count: nat, mode: Mode, n: seq<Byte>, m: seq<Byte>)
    requires |n| == |m| && 4 * (c + count) <= |m|
    requires forall k :: c <= k < c + count ==> LiteralAt(t, a, c, mode, n, m, k)
    ensures Literals(t, a, c, count, mode, n, m)
  {
    hide LiteralAt;
  }

  lemma CopyShown(mode: Mode, n: seq<Byte>, m: seq<Byte>, from: seq<Pixel>, to: seq<Pixel>, k: nat, ofs: nat)
    requires Pixels(n, from) && Pixels(m, to) && |n| == |m| && k < |to| && 1 <= ofs <= k
    requires to[k] == Repeated(mode, from[k], to[k - ofs])
    ensures 4 * k + 4 <= |m| && CopyAt(mode, n, m, k, ofs)
  {
    PixelBytes(n, from, k);
    PixelBytes(m, to, k);
    PixelBytes(m, to, k - ofs);
    hide Pixels;
  }

  /** The pixels of a match are where they belong. */
  lemma CopiesShown(mode: Mode, n: seq<Byte>, m: seq<Byte>, from: seq<Pixel>, to: seq<Pixel>, done: seq<Pixel>,
                    ofs: nat, len: nat)
    requires Pixels(n, from) && Pixels(m, to) && |n| == |m| && |from| == |to| && 4 * |to| == |m|
    requires 1 <= ofs <= |done| && |done| + len <= |from|
    requires to[..|done| + len] == MatchPixels(mode, from, done, ofs, len)
    ensures Copies(|done|, len, ofs, mode, n, m)
  {
    hide *;
    var c := |done|;
    MatchLaw(mode, from, done, ofs, len);
    forall k | c <= k < c + len
      ensures CopyAt(mode, n, m, k, ofs)
    {
      assert to[k] == to[..c + len][k] && to[k - ofs] == to[..c + len][k - ofs];
      CopyShown(mode, n, m, from, to, k, ofs);
    }
    CopiesGather(c, len, ofs, mode, n, m);
  }

  lemma CopiesGather(c: nat, count: nat, ofs: nat, mode: Mode, n: seq<Byte>, m: seq<Byte>)
    requires |n| == |m| && 4 * (c + count) <= |m| && 1 <= ofs <= c
    requires forall k :: c <= k < c + count ==> CopyAt(mode, n, m, k, ofs)
    ensures Copies(c, count, ofs, mode, n, m)
  {
    hide CopyAt;
  }

  lemma PendingPrefix(t: seq<Byte>, a: nat, end: nat, mode: Mode, init: seq<Pixel>, done: seq<Pixel>, rest: seq<Token>,
                      result: seq<Pixel>)
    requires Pending(t, a, end, mode, init, done, rest, result)
    ensures |done| <= |result| == |init| && result[..|done|] == done
  {
    ExpansionKeeps(mode, init, done, rest);
  }

  /** The canvas that a token list stands for is what its bytes mean. */
  lemma {:induction false} ExpansionParses(t: seq<Byte>, a: nat, end: nat, mode: Mode, n: seq<Byte>, m: seq<Byte>,
                                           from: seq<Pixel>, to: seq<Pixel>, done: seq<Pixel>, rest: seq<Token>)
    requires Pixels(n, from) && Pixels(m, to) && |n| == |m| && |from| == |to| && 4 * |to| == |m|
    requires |done| <= |to| && Pending(t, a, end, mode, from, done, rest, to)
    ensures Parses(t, a, |done|, end, mode, n, m)
    decreases |rest|
  {
    hide *;
    if |done| == |to| {
      PendingNone(t, a, end, mode, from, done, rest, to);
      NoneParses(t, a, |done|, mode, n, m);
    } else {
      PendingToken(t, a, end, mode, from, done, rest, to);
      var next, b := TokenPixels(mode, from, done, rest[0]), a + |EncodedToken(mode, rest[0], |done|)|;
      PendingPrefix(t, b, end, mode, from, next, rest[1..], to);
      ExpansionParses(t, b, end, mode, n, m, from, to, next, rest[1..]);
      TokenParses(t, a, end, mode, n, m, from, to, done, rest[0], next, b);
    }
  }

  lemma NoneParses(t: seq<Byte>, a: nat, c: nat, mode: Mode, n: seq<Byte>, m: seq<Byte>)
    requires |n| == |m| && 4 * c == |m|
    ensures Parses(t, a, c, a, mode, n, m)
  {
  }

  lemma TokenParses(t: seq<Byte>, a: nat, end: nat, mode: Mode, n: seq<Byte>, m: seq<Byte>, from: seq<Pixel>,
                    to: seq<Pixel>, done: seq<Pixel>, tok: Token, next: seq<Pixel>, b: nat)
    requires Pixels(n, from) && Pixels(m, to) && |n| == |m| && |from| == |to| && 4 * |to| == |m|
    requires TokenOk(mode, tok, |done|) && |done| + TokenLen(tok) <= |from|
    requires HasAt(t, a, EncodedToken(mode, tok, |done|)) && b == a + |EncodedToken(mode, tok, |done|)|
    requires next == TokenPixels(mode, from, done, tok) && |next| <= |to| && to[..|next|] == next
    requires Parses(t, b, |next|, end, mode, n, m)
    ensures Parses(t, a, |done|, end, mode, n, m)
  {
    hide *;
    var c := |done|;
    match tok {
      case Literal(raws) =>
        LiteralRead(t, a, mode, tok, c);
        LiteralIs(mode, from, done, tok);
        LiteralsShown(t, a + 1, mode, n, m, from, to, done, raws);
        LiteralGoes(t, a, c, end, mode, n, m, |raws|, b);
      case Match(ofs, len) =>
        MatchRead(t, a, mode, tok, c);
        MatchedIs(mode, from, done, tok);
        CopiesShown(mode, n, m, from, to, done, ofs, len);
        MatchGoes(t, a, c, end, mode, n, m, len, ofs, b);
    }
  }

  lemma LiteralIs(mode: Mode, init: seq<Pixel>, done: seq<Pixel>, tok: Token)
    requires tok.Literal? && TokenOk(mode, tok, |done|) && |done| + TokenLen(tok) <= |init|
    ensures |done| + |tok.raws| <= |init| && forall j :: 0 <= j < |tok.raws| ==> |tok.raws[j]| == Width(mode)
    ensures TokenPixels(mode, init, done, tok) == LiteralPixels(mode, init, done, tok.raws)
  {
    hide LiteralPixels;
  }

  lemma MatchedIs(mode: Mode, init: seq<Pixel>, done: seq<Pixel>, tok: Token)
    requires tok.Match? && TokenOk(mode, tok, |done|) && |done| + TokenLen(tok) <= |init|
    ensures 1 <= tok.ofs <= |done| && 0 < tok.len && |done| + tok.len <= |init|
    ensures TokenPixels(mode, init, done, tok) == MatchPixels(mode, init, done, tok.ofs, tok.len)
  {
    hide MatchPixels;
  }

  // ---------------------------------------------------------------- the decoder

  method PutLiteral(t: seq<Byte>, a: nat, n: array<Byte>, c: nat, mode: Mode)
    requires 4 * c + 4 <= n.Length && n.Length % 4 == 0 && a + Width(mode) <= |t|
    modifies n
    ensures Canvas(n[..]) == old(Canvas(n[..]))[c := Painted(mode, old(Canvas(n[..])[c]), t[a..a + Width(mode)])]
  {
    ghost var before := n[..];
    if mode.Alpha? {
      n[4 * c + 3] := t[a];
    } else {
      n[4 * c] := t[a + 2];
      n[4 * c + 1] := t[a + 1];
      n[4 * c + 2] := t[a];
      if mode.filled {
        n[4 * c + 3] := 255;
      }
    }
    CanvasPut(before, n[..], c);
  }

  method CopyPixel(n: array<Byte>, c: nat, d: nat, mode: Mode)
    requires 4 * c + 4 <= n.Length && n.Length % 4 == 0 && d < c
    modifies n
    ensures Canvas(n[..]) == old(Canvas(n[..]))[c := Repeated(mode, old(Canvas(n[..])[c]), old(Canvas(n[..])[d]))]
  {
    ghost var before := n[..];
    if mode.Alpha? {
      n[4 * c + 3] := n[4 * d + 3];
    } else {
      for i := 0 to 4
        invariant forall k :: 0 <= k < n.Length && !(4 * c <= k < 4 * c + i) ==> n[k] == before[k]
        invariant i > 0 ==> n[4 * c] == before[4 * d]
        invariant i > 1 ==> n[4 * c + 1] == before[4 * d + 1]
        invariant i > 2 ==> n[4 * c + 2] == before[4 * d + 2]
        invariant i > 3 ==> n[4 * c + 3] == before[4 * d + 3]
      {
        n[4 * c + i] := n[4 * d + i];
      }
    }
    CanvasPut(before, n[..], c);
  }

  /** The run: every pixel is a copy of the one before the match. */
  method CopyRun(n: array<Byte>, c0: nat, u0: nat, mode: Mode, ghost init: seq<Pixel>, ghost done0: seq<Pixel>)
    returns (c: nat)
    requires 4 * |init| == n.Length && Shows(n[..], init, done0) && |done0| == c0 > 0 && c0 + u0 <= |init|
    modifies n
    ensures c == c0 + u0 && Shows(n[..], init, MatchPixels(mode, init, done0, 1, u0))
  {
    hide Canvas, Shows;
    var d, u := c0 - 1, u0;
    c := c0;
    ghost var done := done0;
    while u > 0
      invariant c + u == c0 + u0 && |done| == c && Shows(n[..], init, done)
      invariant MatchPixels(mode, init, done, 1, u) == MatchPixels(mode, init, done0, 1, u0)
      invariant if mode.Alpha? then done[c - 1][3] == done[d][3] else done[c - 1] == done[d]
    {
      done := CopyNext(n, c, d, mode, init, done, 1);
      c := c + 1;
      u := u - 1;
    }
  }

  /** One pixel of a match, from d, which carries what lies ofs before. */
  method CopyNext(n: array<Byte>, c: nat, d: nat, mode: Mode, ghost init: seq<Pixel>, ghost done: seq<Pixel>,
                  ghost ofs: nat)
    returns (ghost more: seq<Pixel>)
    requires 4 * |init| == n.Length && Shows(n[..], init, done) && d < |done| == c < |init| && 1 <= ofs <= c
    requires if mode.Alpha? then done[c - ofs][3] == done[d][3] else done[c - ofs] == done[d]
    modifies n
    ensures more == done + [Repeated(mode, init[c], done[c - ofs])] && Shows(n[..], init, more)
  {
    hide Canvas;
    ghost var before := n[..];
    CopyPixel(n, c, d, mode);
    more := done + [Repeated(mode, init[c], done[c - ofs])];
    ShowsNext(before, n[..], init, done, more[c]);
  }

  /** The general copy, whose source moves along and may run into what the match itself has written. */
  method CopyMoving(n: array<Byte>, c0: nat, l0: nat, u0: nat, mode: Mode, ghost init: seq<Pixel>,
                    ghost done0: seq<Pixel>)
    returns (c: nat)
    requires 4 * |init| == n.Length && Shows(n[..], init, done0) && |done0| == c0 > l0 && c0 + u0 <= |init|
    modifies n
    ensures c == c0 + u0 && Shows(n[..], init, MatchPixels(mode, init, done0, c0 - l0, u0))
  {
    hide Canvas, Shows;
    var l, u := l0, u0;
    c := c0;
    ghost var done := done0;
    while u > 0
      invariant c + u == c0 + u0 && c - l == c0 - l0 && |done| == c && Shows(n[..], init, done)
      invariant MatchPixels(mode, init, done, c0 - l0, u) == MatchPixels(mode, init, done0, c0 - l0, u0)
    {
      done := CopyNext(n, c, l, mode, init, done, c0 - l0);
      c := c + 1;
      l := l + 1;
      u := u - 1;
    }
  }

  /** The length bytes: the loop ends with the first that is not 255. */
  method ReadLength(t: seq<Byte>, a0: nat, u0: nat, ghost x: nat) returns (a: nat, u: nat)
    requires HasAt(t, a0, Extension(x))
    ensures a == a0 + |Extension(x)| && u == u0 + x
  {
    a, u := a0, u0;
    ghost var left := x;
    var p := 255;
    while p == 255
      invariant p == 255 ==> HasAt(t, a, Extension(left)) && a + |Extension(left)| == a0 + |Extension(x)|
      invariant p == 255 ==> u + left == u0 + x
      invariant p != 255 ==> a == a0 + |Extension(x)| && u == u0 + x
      decreases left, p
    {
      HasHead(t, a, Extension(left));
      if left >= 255 {
        HasSplit(t, a, [255], Extension(left - 255));
      }
      p := t[a];
      a := a + 1;
      u := u + p;
      left := if left >= 255 then left - 255 else left;
    }
  }

  /** The offset: 13 bits, or 16 more when these are all ones. */
  method ReadOffset(t: seq<Byte>, a0: nat, h0: nat, ghost d: nat) returns (a: nat, h: nat)
    requires d <= 8191 + 65535 && HasAt(t, a0, OffsetBytes(d)) && h0 == 256 * (if d < 8191 then d / 256 else 31)
    ensures a == a0 + |OffsetBytes(d)| && h == d
  {
    a, h := a0, h0;
    HasHead(t, a, OffsetBytes(d));
    var p := t[a];
    a := a + 1;
    h := h + p;
    if 255 == p && h - p == 7936 {
      assert d >= 8191;
      assert t[a0..a0 + 3][1] == t[a0 + 1] && t[a0..a0 + 3][2] == t[a0 + 2];
      var high: int := t[a];
      h := 256 * high;
      a := a + 1;
      h := h + t[a];
      a := a + 1;
      h := h + 8191;
    }
  }

  /** The branch for s >= 32. */
  method DecodeMatch(t: seq<Byte>, a0: nat, s: nat, n: array<Byte>, c0: nat, mode: Mode, ghost init: seq<Pixel>,
                     ghost done: seq<Pixel>, ghost tok: Token)
    returns (a: nat, c: nat)
    requires 4 * |init| == n.Length && Shows(n[..], init, done) && |done| == c0
    requires tok.Match? && TokenOk(mode, tok, c0) && c0 + tok.len <= |init|
    requires a0 > 0 && HasAt(t, a0 - 1, EncodedToken(mode, tok, c0)) && s == t[a0 - 1]
    modifies n
    ensures a == a0 + |EncodedToken(mode, tok, c0)| - 1 && c == c0 + tok.len
    ensures Shows(n[..], init, TokenPixels(mode, init, done, tok))
  {
    hide Extension, OffsetBytes, EncodedToken, Canvas, Shows, Head;
    ghost var l, d := tok.len - MinLen(mode), tok.ofs - 1;
    var h, u := MatchHead(t, a0, s, mode, c0, tok);
    a := a0;
    if u == 6 {
      a, u := ReadLength(t, a, u, l - 6);
    }
    a, h := ReadOffset(t, a, h, d);
    u := u + 1;
    if mode.Alpha? {
      u := u + 2;
    }
    h := h + 1;
    var from := c0 - h;
    if from == c0 - 1 {
      c := CopyRun(n, c0, u, mode, init, done);
    } else {
      c := CopyMoving(n, c0, from, u, mode, init, done);
    }
  }

  /** The fields of the head byte, and where the rest of the token is. */
  method MatchHead(t: seq<Byte>, a: nat, s: nat, mode: Mode, ghost c: nat, ghost tok: Token) returns (h: nat, u: nat)
    requires tok.Match? && TokenOk(mode, tok, c)
    requires a > 0 && HasAt(t, a - 1, EncodedToken(mode, tok, c)) && s == t[a - 1]
    ensures s >= 32
    ensures var l, d := tok.len - MinLen(mode), tok.ofs - 1;
      && h == 256 * (if d < 8191 then d / 256 else 31)
      && u == (if l < 6 then l else 6)
      && (l >= 6 ==> HasAt(t, a, Extension(l - 6)) && HasAt(t, a + |Extension(l - 6)|, OffsetBytes(d)))
      && (l < 6 ==> HasAt(t, a, OffsetBytes(d)))
      && |EncodedToken(mode, tok, c)| == 1 + (if l < 6 then 0 else |Extension(l - 6)|) + |OffsetBytes(d)|
  {
    hide Extension, OffsetBytes, Head;
    ghost var l, d := tok.len - MinLen(mode), tok.ofs - 1;
    TokenParts(t, a, mode, tok, c, l, d);
    HeadFields(l, d);
    hide EncodedToken, TokenOk, HasAt;
    u := s / 32;
    h := (s % 32) * 256;
    u := u - 1;
  }

  /** The three parts of an encoded match. */
  lemma TokenParts(t: seq<Byte>, a: nat, mode: Mode, tok: Token, c: nat, l: nat, d: nat)
    requires tok.Match? && TokenOk(mode, tok, c) && a > 0 && HasAt(t, a - 1, EncodedToken(mode, tok, c))
    requires l == tok.len - MinLen(mode) && d == tok.ofs - 1 <= 8191 + 65535
    ensures
      && a <= |t| && t[a - 1] == Head(l, d)
      && (l >= 6 ==> HasAt(t, a, Extension(l - 6)) && HasAt(t, a + |Extension(l - 6)|, OffsetBytes(d)))
      && (l < 6 ==> HasAt(t, a, OffsetBytes(d)))
      && |EncodedToken(mode, tok, c)| == 1 + (if l < 6 then 0 else |Extension(l - 6)|) + |OffsetBytes(d)|
  {
    hide *;
    var ext: seq<Byte> := if l < 6 then [] else Extension(l - 6);
    MatchIs(mode, tok, c, l, d, ext);
    ThreeParts(t, a, Head(l, d), ext, OffsetBytes(d));
  }

  lemma MatchIs(mode: Mode, tok: Token, c: nat, l: nat, d: nat, ext: seq<Byte>)
    requires tok.Match? && TokenOk(mode, tok, c) && l == tok.len - MinLen(mode) && d == tok.ofs - 1
    requires ext == if l < 6 then [] else Extension(l - 6)
    ensures EncodedToken(mode, tok, c) == [Head(l, d)] + ext + OffsetBytes(d)
  {
    hide Extension, OffsetBytes, Head;
  }

  lemma ThreeParts(t: seq<Byte>, a: nat, x: Byte, ext: seq<Byte>, off: seq<Byte>)
    requires a > 0 && HasAt(t, a - 1, [x] + ext + off)
    ensures a <= |t| && t[a - 1] == x && HasAt(t, a, ext) && HasAt(t, a + |ext|, off)
  {
    hide HasAt;
    HasSplit(t, a - 1, [x] + ext, off);
    HasSplit(t, a - 1, [x], ext);
    HasHead(t, a - 1, [x]);
  }

  lemma HeadFields(l: nat, d: nat)
    requires d <= 8191 + 65535
    ensures var s := Head(l, d);
      && s >= 32 && s / 32 == (if l < 6 then l + 1 else 7) && s % 32 == (if d < 8191 then d / 256 else 31)
  {
    var x, y := if l < 6 then l + 1 else 7, if d < 8191 then d / 256 else 31;
    assert Head(l, d) == 32 * x + y && 0 <= y < 32;
  }

  /** The branch for s < 32: s + 1 pixels. */
  method DecodeLiteral(t: seq<Byte>, a0: nat, s0: nat, n: array<Byte>, c0: nat, mode: Mode, ghost init: seq<Pixel>,
                       ghost done0: seq<Pixel>, ghost raws0: seq<seq<Byte>>)
    returns (a: nat, c: nat)
    requires 4 * |init| == n.Length && Shows(n[..], init, done0) && |done0| == c0
    requires |raws0| == s0 + 1 && (forall j :: 0 <= j < |raws0| ==> |raws0[j]| == Width(mode)) && c0 + |raws0| <= |init|
    requires HasAt(t, a0, Flat(raws0))
    modifies n
    ensures a == a0 + |Flat(raws0)| && c == c0 + |raws0|
    ensures Shows(n[..], init, LiteralPixels(mode, init, done0, raws0))
  {
    hide Canvas, Shows, Painted;
    var s := s0;
    s := s + 1;
    a, c := a0, c0;
    ghost var done, raws := done0, raws0;
    while s > 0
      invariant |raws| == s && |done| == c && c + s == c0 + |raws0| && Shows(n[..], init, done)
      invariant forall j :: 0 <= j < |raws| ==> |raws[j]| == Width(mode)
      invariant HasAt(t, a, Flat(raws)) && a + |Flat(raws)| == a0 + |Flat(raws0)|
      invariant LiteralPixels(mode, init, done, raws) == LiteralPixels(mode, init, done0, raws0)
    {
      HasSplit(t, a, raws[0], Flat(raws[1..]));
      ghost var before := n[..];
      PutLiteral(t, a, n, c, mode);
      assert Canvas(before)[c] == init[c] by { NotYet(before, init, done); }
      ShowsNext(before, n[..], init, done, Painted(mode, init[c], raws[0]));
      done, raws := done + [Painted(mode, init[c], raws[0])], raws[1..];
      a := a + Width(mode);
      c := c + 1;
      s := s - 1;
    }
  }

  lemma NotYet(n: seq<Byte>, init: seq<Pixel>, done: seq<Pixel>)
    requires Shows(n, init, done) && |done| < |init|
    ensures Canvas(n)[|done|] == init[|done|]
  {
  }

  /** One token. */
  method DecodeToken(t: seq<Byte>, a0: nat, s: nat, n: array<Byte>, c0: nat, mode: Mode, ghost init: seq<Pixel>,
                     ghost done: seq<Pixel>, ghost tok: Token)
    returns (a: nat, c: nat)
    requires 4 * |init| == n.Length && Shows(n[..], init, done) && |done| == c0
    requires TokenOk(mode, tok, c0) && c0 + TokenLen(tok) <= |init|
    requires a0 > 0 && HasAt(t, a0 - 1, EncodedToken(mode, tok, c0)) && s == t[a0 - 1]
    modifies n
    ensures a == a0 + |EncodedToken(mode, tok, c0)| - 1 && c == c0 + TokenLen(tok)
    ensures Shows(n[..], init, TokenPixels(mode, init, done, tok))
  {
    hide Extension, OffsetBytes, Canvas, Shows, Flat;
    HasHead(t, a0 - 1, EncodedToken(mode, tok, c0));
    if s >= 32 {
      a, c := DecodeMatch(t, a0, s, n, c0, mode, init, done, tok);
    } else {
      HasSplit(t, a0 - 1, [|tok.raws| - 1], Flat(tok.raws));
      a, c := DecodeLiteral(t, a0, s, n, c0, mode, init, done, tok.raws);
    }
  }

  /** The tokens from index a on are still to be decoded. */
  predicate Pending(t: seq<Byte>, a: nat, end: nat, mode: Mode, init: seq<Pixel>, done: seq<Pixel>, rest: seq<Token>,
                    result: seq<Pixel>)
  {
    && TokensOk(mode, rest, |done|) && |done| + TokensLen(rest) == |init|
    && HasAt(t, a, Encoded(mode, rest, |done|)) && a + |Encoded(mode, rest, |done|)| == end
    && Expansion(mode, init, done, rest) == result
  }

  lemma PendingNone(t: seq<Byte>, a: nat, end: nat, mode: Mode, init: seq<Pixel>, done: seq<Pixel>, rest: seq<Token>,
                    result: seq<Pixel>)
    requires Pending(t, a, end, mode, init, done, rest, result) && |done| == |init|
    ensures a == end && done == result
  {
    if rest != [] {
      TokenNotEmpty(mode, rest[0], |done|);
    }
  }

  lemma TokenNotEmpty(mode: Mode, tok: Token, done: nat)
    requires TokenOk(mode, tok, done)
    ensures TokenLen(tok) > 0
  {
  }

  /** The first of them, and what is left then. */
  lemma PendingToken(t: seq<Byte>, a: nat, end: nat, mode: Mode, init: seq<Pixel>, done: seq<Pixel>, rest: seq<Token>,
                     result: seq<Pixel>)
    requires Pending(t, a, end, mode, init, done, rest, result) && |done| < |init|
    ensures rest != [] && TokenOk(mode, rest[0], |done|) && |done| + TokenLen(rest[0]) <= |init|
    ensures HasAt(t, a, EncodedToken(mode, rest[0], |done|))
    ensures Pending(t, a + |EncodedToken(mode, rest[0], |done|)|, end, mode, init,
                    TokenPixels(mode, init, done, rest[0]), rest[1..], result)
  {
    hide TokenOk, TokenLen, TokenPixels, EncodedToken;
    assert rest != [];
    HasSplit(t, a, EncodedToken(mode, rest[0], |done|), Encoded(mode, rest[1..], |done| + TokenLen(rest[0])));
  }

  /** lz_rgb32_decompress: the canvas gets the expansion of the tokens, and the index of the first byte after them is
      returned. */
  method LzRgb32Decompress(t: seq<Byte>, e: nat, n: array<Byte>, mode: Mode,
                           ghost tokens: seq<Token>) returns (next: nat)
    requires n.Length % 4 == 0 && TokensOk(mode, tokens, 0) && 4 * TokensLen(tokens) == n.Length
    requires HasAt(t, e, Encoded(mode, tokens, 0))
    modifies n
    ensures next == e + |Encoded(mode, tokens, 0)|
    ensures Canvas(n[..]) == Expansion(mode, old(Canvas(n[..])), [], tokens)
    ensures Parses(t, e, 0, next, mode, old(n[..]), n[..])
  {
    hide EncodedToken, TokenPixels, TokenOk, TokenLen, Encoded, Expansion, TokensOk, TokensLen, HasAt, PixelAt;
    ghost var init := Canvas(n[..]);
    ghost var result, end := Expansion(mode, init, [], tokens), e + |Encoded(mode, tokens, 0)|;
    var a, c := e, 0;
    ghost var done: seq<Pixel>, rest := [], tokens;
    var s := if a < |t| then t[a] else 0;
    a := a + 1;
    assert [] + init[0..] == init;
    while 4 * c < n.Length
      invariant a > 0 && |done| == c && Shows(n[..], init, done)
      invariant Pending(t, a - 1, end, mode, init, done, rest, result)
      invariant s == if a - 1 < |t| then t[a - 1] else 0
    {
      hide Pending, Canvas, Shows;
      PendingToken(t, a - 1, end, mode, init, done, rest, result);
      HasHead(t, a - 1, EncodedToken(mode, rest[0], c));
      TokenNotEmpty(mode, rest[0], c);
      a, c := DecodeToken(t, a, s, n, c, mode, init, done, rest[0]);
      done, rest := TokenPixels(mode, init, done, rest[0]), rest[1..];
      s := if a < |t| then t[a] else 0;
      a := a + 1;
    }
    PendingNone(t, a - 1, end, mode, init, done, rest, result);
    next := a - 1;
    assert Pending(t, e, next, mode, init, [], tokens, result);
    CanvasPixels(old(n[..]));
    CanvasPixels(n[..]);
    ExpansionParses(t, e, next, mode, old(n[..]), n[..], init, Canvas(n[..]), [], tokens);
  }

  /** convert_spice_lz_to_web for an RGBA image: a colour pass, then an alpha pass over the bytes that follow. */
  method ConvertRgba(t: seq<Byte>, n: array<Byte>, ghost colours: seq<Token>, ghost alphas: seq<Token>)
    requires n.Length % 4 == 0 && TokensOk(Rgb(false), colours, 0) && TokensOk(Alpha, alphas, 0)
    requires 4 * TokensLen(colours) == n.Length == 4 * TokensLen(alphas)
    requires HasAt(t, 0, Encoded(Rgb(false), colours, 0) + Encoded(Alpha, alphas, 0))
    modifies n
    ensures var painted := Expansion(Rgb(false), old(Canvas(n[..])), [], colours);
      && Canvas(n[..]) == Expansion(Alpha, painted, [], alphas)
      && SameColours(painted, Canvas(n[..]))
    ensures exists painted: seq<Byte>, next: nat, end: nat ::
      && |painted| == n.Length && Parses(t, 0, 0, next, Rgb(false), old(n[..]), painted)
      && Parses(t, next, 0, end, Alpha, painted, n[..])
  {
    hide TokensOk, TokensLen, Encoded, Expansion, Canvas, SameColours, Parses;
    HasSplit(t, 0, Encoded(Rgb(false), colours, 0), Encoded(Alpha, alphas, 0));
    var next := LzRgb32Decompress(t, 0, n, Rgb(false), colours);
    ghost var painted, between := Canvas(n[..]), n[..];
    var end := LzRgb32Decompress(t, next, n, Alpha, alphas);
    assert Parses(t, next, 0, end, Alpha, between, n[..]);
    assert SameColours(painted, []) by { NoColours(painted); }
    AlphaOnly(painted, [], alphas);
  }

  lemma NoColours(init: seq<Pixel>)
    ensures SameColours(init, [])
  {
  }
}
