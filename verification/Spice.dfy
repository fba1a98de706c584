/** The SPICE wire: byte views, mini messages, the channel state machine, and the reader that cuts
    the frames the machine asks for out of whatever pieces the socket delivers.
 */
module Spice {
  import opened JsInt

  type Byte = b: int | 0 <= b < 256

  type Bytes = seq<Byte>

  datatype Option<+T> = None | Some(value: T)

  // ---------------------------------------------------------------- SpiceDataView, little endian
  // The operands of every | share no bit, so it is written as a sum.

  /** Reading past the end gives undefined, which counts as 0 in bit operations. */
  function GetUint8(u: Bytes, k: nat): int {
    if k < |u| then u[k] else 0
  }

  function GetUint16(u: Bytes, k: nat): int {
    Shl(GetUint8(u, k + 1), 8) + GetUint8(u, k)
  }

  /** The halves meet in a signed 32-bit or, so the top bit makes the result negative. */
  function GetUint32(u: Bytes, k: nat): int {
    Shl(GetUint16(u, k + 2), 16) + GetUint16(u, k)
  }

  function SetUint16(e: int): Bytes {
    var x := ToUint32(e);
    [x % 256, (x / 256) % 256]
  }

  function SetUint32(e: int): Bytes {
    var x := ToUint32(e);
    SetUint16(x % 0x1_0000) + SetUint16(x / 0x1_0000)
  }

  /** The byte at k, or 0 past the end, which is what undefined counts as. */
  function ByteOf(u: Bytes, k: nat): int {
    if k >= |u| then 0 else u[k]
  }

  /** The number in four bytes, low byte first, and the same with the top bit as a sign. */
  function Unsigned(u: Bytes, k: nat): int {
    ByteOf(u, k) + 256 * ByteOf(u, k + 1) + 0x1_0000 * ByteOf(u, k + 2) + 0x100_0000 * ByteOf(u, k + 3)
  }

  function Signed(u: Bytes, k: nat): int {
    if ByteOf(u, k + 3) < 128 then Unsigned(u, k) else Unsigned(u, k) - 0x1_0000_0000
  }

  /** Low byte first. */
  lemma Uint16Is(u: Bytes, k: nat)
    ensures GetUint16(u, k) == ByteOf(u, k) + 256 * ByteOf(u, k + 1)
  {
    LowByteShift(ByteOf(u, k + 1));
    hide Shl;
  }

  /** Four bytes, low byte first, as a signed number. */
  lemma Uint32Is(u: Bytes, k: nat)
    ensures GetUint32(u, k) == Signed(u, k)
  {
    Uint16Is(u, k);
    Uint16Is(u, k + 2);
    HighHalf(ByteOf(u, k + 2) + 256 * ByteOf(u, k + 3));
    hide Shl, GetUint16;
  }

  /** The bytes written are those of the number, low byte first. */
  lemma Uint16Bytes(e: int)
    ensures |SetUint16(e)| == 2 && ByteOf(SetUint16(e), 0) + 256 * ByteOf(SetUint16(e), 1) == e % 0x1_0000
  {
    LowHalf(e);
    hide ToUint32;
    LowBytes(ToUint32(e));
    assert (ToUint32(e) % 0x1_0000) / 256 < 256;
  }

  lemma LowHalf(e: int)
    ensures ToUint32(e) % 0x1_0000 == e % 0x1_0000
  {
    var q := e / 0x1_0000_0000;
    DivModUnique(e, 0x1_0000, q * 0x1_0000 + ToUint32(e) / 0x1_0000, ToUint32(e) % 0x1_0000);
  }

  lemma Uint32Bytes(e: int)
    ensures var b := SetUint32(e);
            |b| == 4 && Unsigned(b, 0) == e % 0x1_0000_0000
  {
    var x := ToUint32(e);
    Uint16Bytes(x % 0x1_0000);
    Uint16Bytes(x / 0x1_0000);
    hide SetUint16;
  }

  lemma Uint16RoundTrip(u: Bytes, k: nat, x: int)
    requires 0 <= x < 0x1_0000 && k + 2 <= |u| && u[k..k + 2] == SetUint16(x)
    ensures GetUint16(u, k) == x
  {
    var s := u[k..k + 2];
    assert s[0] == u[k] && s[1] == u[k + 1];
    assert ToUint32(x) == x && (x / 256) % 256 == x / 256;
    LowByteShift(x / 256);
    hide Shl, ToUint32;
  }

  lemma LowByteShift(b: int)
    requires 0 <= b < 256
    ensures Shl(b, 8) == b * 256
  {
    assert Pow2(8) == 256;
    ShlSmall(b, 8);
  }

  lemma Uint32RoundTrip(u: Bytes, k: nat, x: int)
    requires 0 <= x < 0x1_0000_0000 && k + 4 <= |u| && u[k..k + 4] == SetUint32(x)
    ensures GetUint32(u, k) == ToInt32(x)
  {
    var low, high := SetUint16(x % 0x1_0000), SetUint16(x / 0x1_0000);
    assert ToUint32(x) == x && SetUint32(x) == low + high;
    HalvesAt(u, k, low, high);
    SignedOfHalves(x, x % 0x1_0000, x / 0x1_0000);
    hide SetUint16, SetUint32, GetUint16, Shl, ToInt32;
    Uint16RoundTrip(u, k, x % 0x1_0000);
    Uint16RoundTrip(u, k + 2, x / 0x1_0000);
    HighHalf(x / 0x1_0000);
  }

  lemma HalvesAt(u: Bytes, k: nat, low: Bytes, high: Bytes)
    requires k + 4 <= |u| && |low| == |high| == 2 && u[k..k + 4] == low + high
    ensures u[k..k + 2] == low && u[k + 2..k + 4] == high
  {
    var s := u[k..k + 4];
    assert s[..2] == u[k..k + 2] && s[2..] == u[k + 2..k + 4];
  }

  lemma SignedOfHalves(x: int, low: int, high: int)
    requires 0 <= x < 0x1_0000_0000 && x == low + high * 0x1_0000 && 0 <= low < 0x1_0000
    ensures ToInt32(x) == low + if high < 0x8000 then high * 0x1_0000 else high * 0x1_0000 - 0x1_0000_0000
  {
  }

  lemma HighHalf(x: int)
    requires 0 <= x < 0x1_0000
    ensures Shl(x, 16) == if x < 0x8000 then x * 0x1_0000 else x * 0x1_0000 - 0x1_0000_0000
  {
    Pow2Add(8, 8);
    assert Pow2(8) == 256;
  }

  // ---------------------------------------------------------------- SpiceMiniData

  /** A message: data is undefined or an ArrayBuffer. */
  datatype MiniData = MiniData(kind: int, size: int, data: Option<Bytes>)

  const MINI_HEADER := 6

  function Length(m: MiniData): nat {
    if m.data.Some? then |m.data.value| else 0
  }

  /** from_buffer */
  function MiniFrom(t: Bytes): MiniData {
    MiniData(GetUint16(t, 0), GetUint32(t, 2), if |t| > MINI_HEADER then Some(t[MINI_HEADER..]) else None)
  }

  /** to_buffer into a buffer of buffer_size(): the size written is that of the data. */
  function MiniTo(m: MiniData): (b: Bytes)
    ensures |b| == MINI_HEADER + Length(m)
  {
    SetUint16(m.kind) + SetUint32(Length(m)) + if m.data.Some? then m.data.value else []
  }

  /** Messages that survive the wire: size field and data agree, and no empty buffer for no data. */
  predicate Sendable(m: MiniData) {
    && 0 <= m.kind < 0x1_0000 && m.size == Length(m) < 0x8000_0000
    && (m.data.Some? ==> |m.data.value| > 0)
  }

  // ---------------------------------------------------------------- the channel state machine

  datatype State = Connecting | Start | Linking | Ticket | Ready | Error

  const SPICE_MAGIC: Bytes := [82, 69, 68, 81]

  /** A channel with its reader's request: state, bytes needed, saved header, messages handed to
      process_message, and every frame that the callback got. */
  datatype Link = Link(state: State, needed: int, header: Option<MiniData>, messages: seq<MiniData>, frames: seq<Bytes>)

  /** process_inbound */
  function Step(l: Link, t: Bytes): Link {
    var k := l.(frames := l.frames + [t]);
    match l.state
    case Ready =>
      if l.header.None? then
        var n := MiniFrom(t);
        if n.size == 0 then k.(messages := l.messages + [n], needed := MINI_HEADER)
        else k.(needed := n.size, header := Some(n))
      else
        k.(messages := l.messages + [l.header.value.(data := Some(t))], needed := MINI_HEADER, header := None)
    case Start =>
      if Magic(t) != SPICE_MAGIC then k.(state := Error) else k.(needed := GetUint32(t, 12), state := Linking)
    case Linking =>
      if GetUint32(t, 0) != 0 then k.(state := Error) else k.(state := Ticket, needed := 4)
    case Ticket =>
      if GetUint32(t, 0) == 0 then k.(state := Ready, needed := MINI_HEADER) else k.(state := Error)
    case _ => k
  }

  function Magic(t: Bytes): Bytes {
    seq(4, i requires 0 <= i => if i < |t| then t[i] else 0)
  }

  /** What the handshake and the headers mean, byte by byte. */
  predicate AllZero(t: Bytes) {
    ByteOf(t, 0) == 0 && ByteOf(t, 1) == 0 && ByteOf(t, 2) == 0 && ByteOf(t, 3) == 0
  }

  lemma ZeroWord(t: Bytes)
    ensures GetUint32(t, 0) == 0 <==> AllZero(t)
  {
    Uint32Is(t, 0);
    hide GetUint32;
  }

  /** The link header must start with "REDQ"; it says how long the link reply is. */
  lemma StartStep(l: Link, t: Bytes)
    requires l.state == Start && |t| >= 16
    ensures var k := Step(l, t);
            && k.messages == l.messages && k.frames == l.frames + [t] && k.header == l.header
            && if t[..4] == [0x52, 0x45, 0x44, 0x51] then k.state == Linking && k.needed == Signed(t, 12)
               else k.state == Error && k.needed == l.needed
  {
    Uint32Is(t, 12);
    hide GetUint32;
    assert t[..4] == [t[0], t[1], t[2], t[3]] == Magic(t);
  }

  /** A link reply and an authentication reply whose first word is not 0 are refused. */
  lemma HandshakeStep(l: Link, t: Bytes)
    requires l.state == Linking || l.state == Ticket
    ensures var k := Step(l, t);
            && k.messages == l.messages && k.frames == l.frames + [t] && k.header == l.header
            && if AllZero(t) then
                 if l.state == Linking then k.state == Ticket && k.needed == 4 else k.state == Ready && k.needed == 6
               else k.state == Error && k.needed == l.needed
  {
    ZeroWord(t);
    hide GetUint32, AllZero;
  }

  /** A header: kind, and as many bytes of data as its last four bytes say; without any it is the whole message. */
  lemma HeaderStep(l: Link, t: Bytes)
    requires l.state == Ready && l.header == None && |t| == 6
    ensures var k, kind, size := Step(l, t), ByteOf(t, 0) + 256 * ByteOf(t, 1), Signed(t, 2);
            && k.state == Ready && k.frames == l.frames + [t]
            && if size == 0 then
                 k.messages == l.messages + [MiniData(kind, 0, None)] && k.needed == 6 && k.header == None
               else
                 k.messages == l.messages && k.needed == size && k.header == Some(MiniData(kind, size, None))
  {
    Uint16Is(t, 0);
    Uint32Is(t, 2);
    hide GetUint16, GetUint32;
  }

  /** The data goes with the header that asked for it. */
  lemma DataStep(l: Link, t: Bytes)
    requires l.state == Ready && l.header.Some?
    ensures var k := Step(l, t);
            && k.state == Ready && k.frames == l.frames + [t] && k.needed == 6 && k.header == None
            && k.messages == l.messages + [MiniData(l.header.value.kind, l.header.value.size, Some(t))]
  {
  }

  /** A message as bytes. */
  lemma MessageBytes(m: MiniData)
    ensures var b, n := MiniTo(m), Length(m);
            && |b| == 6 + n
            && ByteOf(b, 0) + 256 * ByteOf(b, 1) == m.kind % 0x1_0000 && Unsigned(b, 2) == n % 0x1_0000_0000
            && b[6..] == if m.data.Some? then m.data.value else []
  {
    Uint16Bytes(m.kind);
    Uint32Bytes(Length(m));
    hide SetUint16, SetUint32;
  }

  // ---------------------------------------------------------------- greedy slicing

  /** The reference: cut off the number of bytes asked for, as long as there are that many. */
  ghost function Greedy(l: Link, pending: Bytes): (Link, Bytes)
    decreases |pending|
  {
    if l.needed <= 0 || |pending| < l.needed then (l, pending)
    else Greedy(Step(l, pending[..l.needed]), pending[l.needed..])
  }

  /** Every request made on the way is for at least one byte. */
  ghost predicate Requests(l: Link, pending: Bytes)
    decreases |pending|
  {
    l.needed > 0 &&
    (|pending| >= l.needed ==> Requests(Step(l, pending[..l.needed]), pending[l.needed..]))
  }

  lemma GreedyStops(l: Link, pending: Bytes)
    requires |pending| < l.needed
    ensures Greedy(l, pending) == (l, pending)
  {
  }

  lemma RequestsPositive(l: Link, pending: Bytes)
    requires Requests(l, pending)
    ensures l.needed > 0
  {
  }

  lemma GreedyGoes(l: Link, pending: Bytes)
    requires Requests(l, pending) && |pending| >= l.needed
    ensures var k, rest := Step(l, pending[..l.needed]), pending[l.needed..];
            Greedy(l, pending) == Greedy(k, rest) && Requests(k, rest)
  {
  }

  /** Slicing what is left after a part together with the rest is slicing the whole. */
  lemma {:induction false} GreedyConcat(l: Link, a: Bytes, b: Bytes)
    ensures Greedy(l, a + b) == Greedy(Greedy(l, a).0, Greedy(l, a).1 + b)
    decreases |a|
  {
    if l.needed <= 0 || |a| < l.needed {
    } else {
      assert (a + b)[..l.needed] == a[..l.needed];
      assert (a + b)[l.needed..] == a[l.needed..] + b;
      GreedyConcat(Step(l, a[..l.needed]), a[l.needed..], b);
    }
  }

  lemma {:induction false} RequestsConcat(l: Link, a: Bytes, b: Bytes)
    requires Requests(l, a + b)
    ensures Requests(l, a) && Requests(Greedy(l, a).0, Greedy(l, a).1 + b)
    decreases |a|
  {
    if |a| >= l.needed {
      assert (a + b)[..l.needed] == a[..l.needed];
      assert (a + b)[l.needed..] == a[l.needed..] + b;
      RequestsConcat(Step(l, a[..l.needed]), a[l.needed..], b);
    }
  }

  /** No byte is lost, duplicated or reordered: the frames and the rest spell the stream. */
  lemma {:induction false} GreedyConserves(l: Link, pending: Bytes)
    ensures var (k, rest) := Greedy(l, pending);
            && |k.frames| >= |l.frames| && k.frames[..|l.frames|] == l.frames
            && Join(k.frames[|l.frames|..]) + rest == pending
            && (Requests(l, pending) ==> |rest| < k.needed)
    decreases |pending|
  {
    if l.needed <= 0 || |pending| < l.needed {
      assert l.frames[|l.frames|..] == [];
    } else {
      var frame := pending[..l.needed];
      var next := Step(l, frame);
      assert next.frames == l.frames + [frame];
      hide Step;
      GreedyConserves(next, pending[l.needed..]);
      var k := Greedy(l, pending).0;
      assert k.frames[..|l.frames|] == k.frames[..|next.frames|][..|l.frames|];
      assert k.frames[|l.frames|] == frame;
      assert k.frames[|l.frames|..] == [frame] + k.frames[|next.frames|..];
      assert pending == frame + pending[l.needed..];
    }
  }

  ghost function Join(parts: seq<Bytes>): Bytes {
    if parts == [] then [] else parts[0] + Join(parts[1..])
  }

  lemma JoinSplit(parts: seq<Bytes>, i: nat)
    requires i < |parts|
    ensures Join(parts[i..]) == parts[i] + Join(parts[i + 1..])
    ensures Join(parts[..i + 1]) == Join(parts[..i]) + parts[i]
  {
    assert parts[i..][1..] == parts[i + 1..];
    assert parts[..i + 1] == parts[..i] + [parts[i]];
    JoinAppend(parts[..i], parts[i]);
  }

  lemma FeedStep(l: Link, p: Bytes, k: Link, q: Bytes, done: Bytes, piece: Bytes, rest: Bytes)
    requires (k, q) == Greedy(l, p + done) && Requests(k, q + (piece + rest))
    ensures Requests(k, q + piece)
    ensures Greedy(k, q + piece) == Greedy(l, p + (done + piece))
    ensures Requests(Greedy(k, q + piece).0, Greedy(k, q + piece).1 + rest)
  {
    assert q + (piece + rest) == (q + piece) + rest;
    assert p + (done + piece) == (p + done) + piece;
    RequestsConcat(k, q + piece, rest);
    GreedyConcat(l, p + done, piece);
  }

  lemma {:induction false} JoinAppend(parts: seq<Bytes>, t: Bytes)
    ensures Join(parts + [t]) == Join(parts) + t
  {
    if parts == [] {
      assert parts + [t] == [t];
      assert [t][1..] == [];
    } else {
      assert (parts + [t])[1..] == parts[1..] + [t];
      JoinAppend(parts[1..], t);
    }
  }

  lemma JoinOne(b: Bytes)
    ensures Join([b]) == b
  {
    assert [b][1..] == [];
  }

  // ---------------------------------------------------------------- combine_array_buffers

  method CombineArrayBuffers(t: Bytes, e: Bytes) returns (o: Bytes)
    ensures o == t + e
  {
    var s := new Byte[|t| + |e|];
    var a, n := 0, 0;
    while n < |t|
      invariant 0 <= n <= |t| && a == n && s[..a] == t[..n]
    {
      s[a] := t[n];
      a, n := a + 1, n + 1;
    }
    n := 0;
    while n < |e|
      invariant 0 <= n <= |e| && a == |t| + n && s[..a] == t + e[..n]
    {
      s[a] := e[n];
      a, n := a + 1, n + 1;
    }
    o := s[..];
  }

  // ---------------------------------------------------------------- SpiceConn and SpiceWireReader

  class SpiceConn {
    var state: State
    var messages: seq<MiniData>
    ghost var frames: seq<Bytes>

    constructor ()
      ensures state == Connecting && messages == [] && frames == []
    {
      state, messages, frames := Connecting, [], [];
    }

    /** The callback: it may change the state and ask the reader for the next size. */
    method ProcessInbound(t: Bytes, e: Option<MiniData>, reader: SpiceWireReader)
      requires reader.sc == this && e == reader.saved
      modifies this, reader`needed, reader`saved
      ensures reader.Channel() == Step(old(reader.Channel()), t)
    {
      frames := frames + [t];
      match state
      case Ready =>
        if e.None? {
          var n := MiniFrom(t);
          if n.size == 0 {
            messages := messages + [n];
            reader.Request(MINI_HEADER);
          } else {
            reader.Request(n.size);
            reader.SaveHeader(Some(n));
          }
        } else {
          messages := messages + [e.value.(data := Some(t))];
          reader.Request(MINI_HEADER);
          reader.SaveHeader(None);
        }
      case Start =>
        if Magic(t) != SPICE_MAGIC {
          state := Error;
        } else {
          reader.Request(GetUint32(t, 12));
          state := Linking;
        }
      case Linking =>
        if GetUint32(t, 0) != 0 {
          state := Error;
        } else {
          state := Ticket;
          reader.Request(4);
        }
      case Ticket =>
        if GetUint32(t, 0) == 0 {
          state := Ready;
          reader.Request(MINI_HEADER);
        } else {
          state := Error;
        }
      case _ =>
    }
  }

  class SpiceWireReader {
    const sc: SpiceConn
    var needed: int
    var saved: Option<MiniData>
    var buffers: seq<Bytes>

    constructor (sc: SpiceConn)
      ensures this.sc == sc && needed == 0 && saved == None && buffers == []
    {
      this.sc, needed, saved, buffers := sc, 0, None, [];
    }

    ghost function Channel(): Link
      reads this, sc
    {
      Link(sc.state, needed, saved, sc.messages, sc.frames)
    }

    ghost function Pending(): Bytes
      reads this
    {
      Join(buffers)
    }

    /** Between calls at most one buffer waits, and it is too short. */
    ghost predicate Valid()
      reads this
    {
      needed > 0 ==> |buffers| <= 1 && (|buffers| == 1 ==> |buffers[0]| < needed)
    }

    method Request(n: int)
      modifies this`needed
      ensures needed == n
    {
      needed := n;
    }

    method SaveHeader(h: Option<MiniData>)
      modifies this`saved
      ensures saved == h
    {
      saved := h;
    }

    /** The open event: the first request, on an empty reader. */
    method Open()
      requires buffers == [] && sc.state == Connecting
      modifies this, sc
      ensures Valid() && Channel() == old(Channel()).(state := Start, needed := 16) && Pending() == []
    {
      Request(16);
      sc.state := Start;
    }

    /** One piece from the socket, of any length: exactly the frames of the greedy slicing go out. */
    method Inbound(piece: Bytes)
      requires Valid() && (needed == 0 || Requests(Channel(), Pending() + piece))
      modifies this, sc
      ensures Valid()
      ensures (Channel(), Pending()) == Greedy(old(Channel()), old(Pending()) + piece)
    {
      JoinAppend(buffers, piece);
      if needed == 0 {
        buffers := buffers + [piece];
        return;
      }
      ghost var goal := Greedy(Channel(), Pending() + piece);
      hide Greedy, Requests, Step;
      assert needed > 0 by { RequestsPositive(Channel(), Pending() + piece); }
      if |buffers| == 0 && |piece| >= needed {
        assert Pending() + piece == piece;
        Deliver(piece);
      } else {
        buffers := buffers + [piece];
      }
      MergeFront();
      while |buffers| > 0 && |buffers[0]| >= needed
        invariant |buffers| <= 1 && Requests(Channel(), Pending())
        invariant Greedy(Channel(), Pending()) == goal
        decreases |Pending()|
      {
        RequestsPositive(Channel(), Pending());
        var t := buffers[0];
        JoinOne(t);
        assert buffers == [t];
        buffers := buffers[1..];
        Deliver(t);
      }
      RequestsPositive(Channel(), Pending());
      if |buffers| == 1 {
        JoinOne(buffers[0]);
        assert buffers == [buffers[0]];
      } else {
        assert buffers == [];
      }
      GreedyStops(Channel(), Pending());
    }

    /** Any number of pieces: only the bytes matter, not where the pieces end. */
    method Feed(pieces: seq<Bytes>)
      requires Valid() && needed > 0 && Requests(Channel(), Pending() + Join(pieces))
      modifies this, sc
      ensures Valid() && needed > 0
      ensures (Channel(), Pending()) == Greedy(old(Channel()), old(Pending()) + Join(pieces))
    {
      ghost var l, p := Channel(), Pending();
      var i := 0;
      assert pieces[..0] == [] && pieces[0..] == pieces;
      PendingShort();
      GreedyStops(l, p + []);
      assert p + [] == p;
      while i < |pieces|
        invariant 0 <= i <= |pieces| && Valid() && needed > 0
        invariant Requests(Channel(), Pending() + Join(pieces[i..]))
        invariant (Channel(), Pending()) == Greedy(l, p + Join(pieces[..i]))
      {
        JoinSplit(pieces, i);
        FeedStep(l, p, Channel(), Pending(), Join(pieces[..i]), pieces[i], Join(pieces[i + 1..]));
        Inbound(pieces[i]);
        i := i + 1;
        RequestsPositive(Channel(), Pending() + Join(pieces[i..]));
      }
      assert pieces[..i] == pieces;
    }

    lemma PendingShort()
      requires Valid() && needed > 0
      ensures |Pending() + []| < needed
    {
      if |buffers| == 1 {
        JoinOne(buffers[0]);
        assert buffers == [buffers[0]];
      } else {
        assert buffers == [];
      }
    }

    /** With nothing else waiting: keeps what exceeds the request and calls back with the rest. */
    method Deliver(whole: Bytes)
      requires buffers == [] && 0 < needed <= |whole| && Requests(Channel(), whole)
      modifies this, sc
      ensures |buffers| <= 1 && Pending() == whole[old(needed)..]
      ensures Greedy(Channel(), Pending()) == old(Greedy(Channel(), whole)) && Requests(Channel(), Pending())
    {
      GreedyGoes(Channel(), whole);
      hide Greedy, Requests, Step;
      var t := whole;
      if |t| > needed {
        buffers := [t[needed..]] + buffers;
        JoinOne(t[needed..]);
        t := t[..needed];
      }
      assert t == whole[..needed] && Pending() == whole[needed..];
      sc.ProcessInbound(t, saved, this);
    }

    /** The loop that glues short buffers together at the front. */
    method MergeFront()
      requires |buffers| <= 2
      modifies this`buffers
      ensures Pending() == old(Pending())
      ensures |buffers| <= 1 || (|buffers| == 2 && buffers == old(buffers) && |buffers[0]| >= needed)
      ensures old(|buffers|) <= 1 ==> buffers == old(buffers)
    {
      while |buffers| > 1 && |buffers[0]| < needed
        invariant |buffers| <= 1 || (|buffers| == 2 && buffers == old(buffers))
        invariant Pending() == old(Pending())
        invariant old(|buffers|) <= 1 ==> buffers == old(buffers)
        decreases |buffers|
      {
        var e, n := buffers[0], buffers[1];
        var c := CombineArrayBuffers(e, n);
        assert buffers == [e, n] && [e, n][1..] == [n];
        JoinOne(n);
        JoinOne(c);
        buffers := [c] + buffers[2..];
        assert buffers == [c];
      }
    }
  }

  // ---------------------------------------------------------------- sessions

  ghost function MiniAll(ms: seq<MiniData>): Bytes {
    if ms == [] then [] else MiniTo(ms[0]) + MiniAll(ms[1..])
  }

  /** Between messages. */
  ghost predicate Idle(l: Link) {
    l.state == Ready && l.needed == MINI_HEADER && l.header == None
  }

  lemma LengthsWritten(a: int, b: int)
    ensures |SetUint16(a)| == 2 && |SetUint32(b)| == 4
  {
  }

  lemma SmallSigned(x: int)
    requires 0 <= x < 0x8000_0000
    ensures ToInt32(x) == x
  {
  }

  lemma HeaderFields(t: Bytes, a: Bytes, b: Bytes)
    requires |a| == 2 && |b| == 4 && t == a + b
    ensures t[0..2] == a && t[2..6] == b
  {
  }

  lemma HeaderRead(m: MiniData, t: Bytes)
    requires Sendable(m) && t == SetUint16(m.kind) + SetUint32(Length(m))
    ensures MiniFrom(t) == MiniData(m.kind, m.size, None)
  {
    LengthsWritten(m.kind, Length(m));
    SmallSigned(Length(m));
    hide SetUint16, SetUint32, GetUint16, GetUint32, ToInt32;
    HeaderFields(t, SetUint16(m.kind), SetUint32(Length(m)));
    Uint16RoundTrip(t, 0, m.kind);
    Uint32RoundTrip(t, 2, Length(m));
  }

  /** One message in front of any stream is delivered as it was sent. */
  lemma OneMessage(l: Link, m: MiniData, tail: Bytes) returns (k: Link)
    requires Idle(l) && Sendable(m)
    ensures Idle(k) && k.messages == l.messages + [m]
    ensures Greedy(l, MiniTo(m) + tail) == Greedy(k, tail)
    ensures Requests(k, tail) ==> Requests(l, MiniTo(m) + tail)
  {
    var head := SetUint16(m.kind) + SetUint32(Length(m));
    HeaderRead(m, head);
    hide Greedy, Requests, MiniFrom, SetUint16, SetUint32;
    var next := Step(l, head);
    if m.data.None? {
      StepBare(l, m, head);
      MiniParts(m, head, tail);
      hide Step, MiniTo;
      OneFrame(l, head, tail);
      k := next;
    } else {
      var body := m.data.value;
      StepHeader(l, m, head, body);
      MiniParts(m, head, tail);
      hide Step, MiniTo;
      OneFrame(l, head, body + tail);
      OneFrame(next, body, tail);
      k := Step(next, body);
    }
  }

  lemma MiniParts(m: MiniData, head: Bytes, tail: Bytes)
    requires head == SetUint16(m.kind) + SetUint32(Length(m))
    ensures MiniTo(m) + tail == if m.data.None? then head + tail else head + (m.data.value + tail)
  {
    hide SetUint16, SetUint32;
  }

  /** A message without data is complete with its header. */
  lemma StepBare(l: Link, m: MiniData, head: Bytes)
    requires Idle(l) && Sendable(m) && m.data.None? && MiniFrom(head) == MiniData(m.kind, m.size, None)
    ensures var k := Step(l, head); Idle(k) && k.messages == l.messages + [m]
  {
    hide MiniFrom;
  }

  /** Another one with the frame that its header asks for. */
  lemma StepHeader(l: Link, m: MiniData, head: Bytes, body: Bytes)
    requires Idle(l) && Sendable(m) && m.data == Some(body) && MiniFrom(head) == MiniData(m.kind, m.size, None)
    ensures var k := Step(Step(l, head), body); Idle(k) && k.messages == l.messages + [m]
    ensures Step(l, head).needed == |body| > 0
  {
    hide MiniFrom;
  }

  /** The stream is exactly the messages ms: all delivered in order, nothing left over. */
  ghost predicate Delivers(l: Link, stream: Bytes, ms: seq<MiniData>) {
    var g := Greedy(l, stream);
    Requests(l, stream) && Idle(g.0) && g.0.messages == l.messages + ms && g.1 == []
  }

  lemma DeliversMore(l: Link, stream: Bytes, m: MiniData, k: Link, tail: Bytes, more: seq<MiniData>)
    requires Greedy(l, stream) == Greedy(k, tail) && (Requests(k, tail) ==> Requests(l, stream))
    requires k.messages == l.messages + [m] && Delivers(k, tail, more)
    ensures Delivers(l, stream, [m] + more)
  {
    hide Greedy, Requests, Idle;
    assert l.messages + ([m] + more) == k.messages + more;
  }

  /** A list of messages written back to back is read as the same list. */
  lemma {:induction false} MessagesRoundTrip(l: Link, ms: seq<MiniData>)
    requires Idle(l) && forall i :: 0 <= i < |ms| ==> Sendable(ms[i])
    ensures Delivers(l, MiniAll(ms), ms)
    decreases |ms|
  {
    if ms == [] {
      GreedyStops(l, []);
    } else {
      hide Greedy, Requests, MiniTo, Sendable, Idle, Delivers;
      var k := OneMessage(l, ms[0], MiniAll(ms[1..]));
      MessagesRoundTrip(k, ms[1..]);
      DeliversMore(l, MiniAll(ms), ms[0], k, MiniAll(ms[1..]), ms[1..]);
      assert ms == [ms[0]] + ms[1..];
    }
  }

  /** A message of less than 2^31 bytes comes back as itself exactly when it is one of those: others come back with
      their kind cut to 16 bits, the size of their data, and no data instead of empty data. */
  lemma OneMessageExact(l: Link, m: MiniData)
    requires Idle(l) && Length(m) < 0x8000_0000
    ensures Delivers(l, MiniTo(m), [m]) <==> Sendable(m)
  {
    var n := MiniData(ToUint32(m.kind) % 0x1_0000, Length(m), if Length(m) > 0 then m.data else None);
    KindCut(m.kind);
    assert MiniTo(n) == MiniTo(m) by { hide SetUint16, SetUint32; }
    MessagesRoundTrip(l, [n]);
    assert MiniAll([n]) == MiniTo(n) + [] == MiniTo(n);
    hide Greedy, Requests, MiniTo, Idle;
    assert (l.messages + [n])[|l.messages|] == n && (l.messages + [m])[|l.messages|] == m;
    assert m.kind == n.kind <==> 0 <= m.kind < 0x1_0000;
  }

  lemma KindCut(x: int)
    ensures 0 <= ToUint32(x) % 0x1_0000 < 0x1_0000 && SetUint16(ToUint32(x) % 0x1_0000) == SetUint16(x)
    ensures ToUint32(x) % 0x1_0000 == x <==> 0 <= x < 0x1_0000
  {
    var u := ToUint32(x);
    var k := u % 0x1_0000;
    LowBytes(u);
    assert ToUint32(k) == k;
    assert x == k ==> u == x;
    hide ToUint32;
    assert SetUint16(k) == [k % 256, (k / 256) % 256] == [u % 256, (u / 256) % 256];
  }

  lemma LowBytes(u: int)
    ensures (u % 0x1_0000) % 256 == u % 256 && ((u % 0x1_0000) / 256) % 256 == (u / 256) % 256
  {
    var q, k := u / 0x1_0000, u % 0x1_0000;
    DivModUnique(u, 256, q * 256 + k / 256, k % 256);
    DivModUnique(q * 256 + k / 256, 256, q, k / 256);
  }

  /** A whole session: link header, link reply, authentication reply, then messages. */
  lemma SessionDelivers(l: Link, head: Bytes, reply: Bytes, auth: Bytes, ms: seq<MiniData>)
    requires l.state == Start && l.needed == 16 && l.header == None
    requires |head| == 16 && head[..4] == [0x52, 0x45, 0x44, 0x51] && Signed(head, 12) == |reply| > 0
    requires AllZero(reply) && |auth| == 4 && AllZero(auth)
    requires forall i :: 0 <= i < |ms| ==> Sendable(ms[i])
    ensures Delivers(l, head + (reply + (auth + MiniAll(ms))), ms)
  {
    hide Delivers, MiniAll, Step, Signed, AllZero;
    StartStep(l, head);
    var l1 := Step(l, head);
    HandshakeStep(l1, reply);
    var l2 := Step(l1, reply);
    HandshakeStep(l2, auth);
    var l3 := Step(l2, auth);
    assert Idle(l3) && l3.messages == l.messages;
    hide Idle;
    MessagesRoundTrip(l3, ms);
    DeliversFrame(l2, auth, MiniAll(ms), ms);
    DeliversFrame(l1, reply, auth + MiniAll(ms), ms);
    DeliversFrame(l, head, reply + (auth + MiniAll(ms)), ms);
  }

  /** A frame that is not a message goes by. */
  lemma DeliversFrame(l: Link, frame: Bytes, tail: Bytes, ms: seq<MiniData>)
    requires |frame| == l.needed > 0 && Step(l, frame).messages == l.messages
    requires Delivers(Step(l, frame), tail, ms)
    ensures Delivers(l, frame + tail, ms)
  {
    hide Step, Greedy, Requests;
    OneFrame(l, frame, tail);
  }

  /** Nothing is handed over, and nothing will be. */
  ghost predicate Refuses(l: Link, stream: Bytes) {
    var k := Greedy(l, stream).0;
    k.state == Error && k.messages == l.messages
  }

  /** A channel in error stays there. */
  lemma {:induction false} ErrorStays(l: Link, stream: Bytes)
    requires l.state == Error
    ensures Refuses(l, stream)
    decreases |stream|
  {
    if l.needed > 0 && |stream| >= l.needed {
      ErrorStays(Step(l, stream[..l.needed]), stream[l.needed..]);
    }
  }

  lemma RefusedFrame(l: Link, frame: Bytes, tail: Bytes)
    requires |frame| == l.needed > 0 && Step(l, frame).messages == l.messages && Refuses(Step(l, frame), tail)
    ensures Refuses(l, frame + tail)
  {
    hide Step, Greedy;
    OneFrame(l, frame, tail);
  }

  /** A session with a wrong magic, a link reply that is not 0 or an authentication reply that is not 0 ends in error
      without any message, whatever follows. */
  lemma SessionRefused(l: Link, head: Bytes, reply: Bytes, auth: Bytes, tail: Bytes)
    requires l.state == Start && l.needed == 16 && l.header == None && |head| == 16
    ensures head[..4] != [0x52, 0x45, 0x44, 0x51] ==> Refuses(l, head + tail)
    ensures head[..4] == [0x52, 0x45, 0x44, 0x51] && Signed(head, 12) == |reply| > 0 && !AllZero(reply) ==>
              Refuses(l, head + (reply + tail))
    ensures head[..4] == [0x52, 0x45, 0x44, 0x51] && Signed(head, 12) == |reply| > 0 && AllZero(reply)
            && |auth| == 4 && !AllZero(auth) ==>
              Refuses(l, head + (reply + (auth + tail)))
  {
    StartStep(l, head);
    var l1 := Step(l, head);
    if l1.state == Error {
      ErrorStays(l1, tail);
      RefusedFrame(l, head, tail);
    } else if Signed(head, 12) == |reply| > 0 {
      HandshakeStep(l1, reply);
      var l2 := Step(l1, reply);
      hide Step, Signed, AllZero;
      if l2.state == Error {
        ErrorStays(l2, tail);
        RefusedFrame(l1, reply, tail);
        RefusedFrame(l, head, reply + tail);
      } else if |auth| == 4 {
        AuthRefused(l, l1, l2, head, reply, auth, tail);
      }
    }
  }

  lemma AuthRefused(l: Link, l1: Link, l2: Link, head: Bytes, reply: Bytes, auth: Bytes, tail: Bytes)
    requires l1 == Step(l, head) && l2 == Step(l1, reply) && l2.state == Ticket && l2.needed == |auth| == 4
    requires |head| == l.needed > 0 && |reply| == l1.needed > 0
    requires l.messages == l1.messages == l2.messages
    ensures !AllZero(auth) ==> Refuses(l, head + (reply + (auth + tail)))
  {
    HandshakeStep(l2, auth);
    hide Step, AllZero, Refuses;
    if Step(l2, auth).state == Error {
      ErrorStays(Step(l2, auth), tail);
      RefusedFrame(l2, auth, tail);
      RefusedFrame(l1, reply, auth + tail);
      RefusedFrame(l, head, reply + (auth + tail));
    }
  }

  lemma OneFrame(l: Link, frame: Bytes, tail: Bytes)
    requires |frame| == l.needed > 0
    ensures Greedy(l, frame + tail) == Greedy(Step(l, frame), tail)
    ensures Requests(l, frame + tail) <==> Requests(Step(l, frame), tail)
  {
    hide Step;
    assert (frame + tail)[..l.needed] == frame && (frame + tail)[l.needed..] == tail;
  }

  /** A header whose size field has its top bit set asks for a negative number of bytes: requests
      stay positive exactly for sizes below 2^31. */
  lemma HeaderRequest(l: Link, t: Bytes, size: int)
    requires Idle(l) && |t| == MINI_HEADER && 0 <= size < 0x1_0000_0000 && t[2..6] == SetUint32(size)
    ensures Step(l, t).needed > 0 <==> size < 0x8000_0000
  {
    hide SetUint32, GetUint32, GetUint16;
    Uint32RoundTrip(t, 2, size);
  }
}
