/**
  Messages between peers: a four-byte length, a command byte and its data, cut
  out of whatever pieces the connection delivers the stream in.
*/
module Framing {
  import opened Common
  import opened SingleRequest

  /** The longest message a peer accepts: a block with its command, index and offset, and three bytes to spare. */
  const MAX_PACKET := 4 + 8 + CHUNK_LEN

  const WORD := 0x1_0000_0000

  // ------------------------------------------------------------ 32-bit numbers

  function ToBytes(v: nat): (b: seq<byte>)
    requires v < WORD
    ensures |b| == 4
  {
    [(v / 0x100_0000) as byte, (v / 0x1_0000 % 0x100) as byte, (v / 0x100 % 0x100) as byte, (v % 0x100) as byte]
  }

  function FromBytes(b: seq<byte>): (v: nat)
    requires |b| >= 4
    ensures v < WORD
  {
    b[0] as nat * 0x100_0000 + b[1] as nat * 0x1_0000 + b[2] as nat * 0x100 + b[3] as nat
  }

  /** Network order: the first byte is the most significant one. */
  lemma NetworkOrder(b: byte, v: nat)
    requires v < WORD
    ensures ToBytes(b as nat) == [0, 0, 0, b] && ToBytes(b as nat * 0x100_0000) == [b, 0, 0, 0]
    ensures FromBytes([b, 0, 0, 0]) == b as nat * 0x100_0000
    ensures ToBytes(v)[3] as nat == v % 0x100 && ToBytes(v)[2] as nat == v / 0x100 % 0x100
  {
  }

  lemma BytesRoundTrip(v: nat, more: seq<byte>)
    requires v < WORD
    ensures FromBytes(ToBytes(v) + more) == v
  {
    assert ToBytes(v) + more == [ToBytes(v)[0], ToBytes(v)[1], ToBytes(v)[2], ToBytes(v)[3]] + more;
  }

  /** A piece index is a signed number sent as an unsigned one. */
  function Unsigned(i: int): (v: nat)
    requires -0x8000_0000 <= i < 0x8000_0000
    ensures v < WORD
  {
    if i < 0 then i + WORD else i
  }

  function Signed(v: nat): (i: int)
    requires v < WORD
    ensures -0x8000_0000 <= i < 0x8000_0000
  {
    if v >= 0x8000_0000 then v - WORD else v
  }

  // ------------------------------------------------------------- cutting a stream

  datatype Event = KeepAlive | Command(id: byte, payload: seq<byte>)

  /** What a stream holds: the messages in it, what is left, and whether a length in it is unacceptable. */
  datatype Parsed = Parsed(events: seq<Event>, rest: seq<byte>, oversized: bool)

  function Parse(s: seq<byte>): Parsed {
    if |s| < 4 then Parsed([], s, false)
    else
      var n := FromBytes(s);
      if n == 0 then
        var p := Parse(s[4..]);
        p.(events := [KeepAlive] + p.events)
      else if n > MAX_PACKET then Parsed([], s, true)
      else if |s| >= n + 4 then
        var p := Parse(s[n + 4..]);
        p.(events := [Command(s[4], s[5..n + 4])] + p.events)
      else Parsed([], s, false)
  }

  lemma FromBytesPrefix(s: seq<byte>, t: seq<byte>)
    requires |s| >= 4
    ensures FromBytes(s + t) == FromBytes(s)
  {
  }

  /** A parse that follows some messages already cut out. */
  function After(events: seq<Event>, p: Parsed): Parsed { p.(events := events + p.events) }

  /** How one message at the head is cut out. */
  lemma ParseHead(s: seq<byte>)
    requires |s| >= 4
    ensures
      var n := FromBytes(s);
      && (n == 0 ==> Parse(s) == After([KeepAlive], Parse(s[4..])))
      && (n > MAX_PACKET ==> Parse(s) == Parsed([], s, true))
      && (0 < n <= MAX_PACKET && |s| < n + 4 ==> Parse(s) == Parsed([], s, false))
      && (0 < n <= MAX_PACKET && |s| >= n + 4 ==> Parse(s) == After([Command(s[4], s[5..n + 4])], Parse(s[n + 4..])))
  {
    hide FromBytes;
  }

  lemma ParseShort(s: seq<byte>)
    requires |s| < 4
    ensures Parse(s) == Parsed([], s, false)
  {
  }

  lemma AfterTwice(e: seq<Event>, p: Parsed, q: Parsed)
    ensures After(e, After(p.events, q)) == After(After(e, p).events, q)
  {
    assert e + (p.events + q.events) == (e + p.events) + q.events;
  }

  /**
    Cutting a stream in two anywhere changes nothing: the messages of the whole
    are those of the first part followed by those of its remainder with the rest.
  */
  lemma {:induction false} ParseSplit(s: seq<byte>, t: seq<byte>)
    ensures Parse(s + t) == After(Parse(s).events, Parse(Parse(s).rest + t))
    ensures Parse(s).oversized ==> Parse(Parse(s).rest + t).oversized && Parse(Parse(s).rest + t).events == []
    decreases |s|
  {
    hide FromBytes;
    hide Parse;
    if |s| < 4 {
      ParseShort(s);
    } else {
      FromBytesPrefix(s, t);
      ParseHead(s);
      ParseHead(s + t);
      var n := FromBytes(s);
      if n == 0 {
        assert (s + t)[4..] == s[4..] + t;
        ParseSplit(s[4..], t);
        AfterTwice([KeepAlive], Parse(s[4..]), Parse(Parse(s).rest + t));
      } else if n <= MAX_PACKET && |s| >= n + 4 {
        assert (s + t)[n + 4..] == s[n + 4..] + t && (s + t)[5..n + 4] == s[5..n + 4] && (s + t)[4] == s[4];
        ParseSplit(s[n + 4..], t);
        AfterTwice([Command(s[4], s[5..n + 4])], Parse(s[n + 4..]), Parse(Parse(s).rest + t));
      }
    }
  }

  /** The receiving half of a connection after both handshakes. */
  class Receiver {
    var recvBuffer: seq<byte>
    var dispatched: seq<Event>
    var closed: bool
    ghost var received: seq<byte>  // everything that has come in

    /** However the stream was cut, the state is that of the whole stream. */
    ghost predicate Valid()
      reads this
    {
      Parse(received) == Parsed(dispatched, recvBuffer, closed)
    }

    constructor ()
      ensures Valid() && received == [] && dispatched == [] && !closed
    {
      recvBuffer, dispatched, closed, received := [], [], false, [];
    }

    /** A chunk of any size arrives. */
    method Receive(chunk: seq<byte>)
      requires Valid()
      modifies this
      ensures Valid() && received == old(received) + chunk
      ensures old(dispatched) <= dispatched
      ensures old(closed) ==> closed && dispatched == old(dispatched)
    {
      ParseSplit(received, chunk);
      recvBuffer := recvBuffer + chunk;
      received := received + chunk;
      ProcessData();
    }

    /** Hands over every complete message in the buffer, up to an unacceptable length. */
    method ProcessData()
      modifies this`recvBuffer, this`dispatched, this`closed
      ensures recvBuffer == Parse(old(recvBuffer)).rest
      ensures dispatched == old(dispatched) + Parse(old(recvBuffer)).events
      ensures closed == (old(closed) || Parse(old(recvBuffer)).oversized)
    {
      hide Parse;
      hide FromBytes;
      ghost var whole := After(dispatched, Parse(recvBuffer));
      while |recvBuffer| >= 4
        invariant After(dispatched, Parse(recvBuffer)) == whole
        invariant closed == old(closed)
        decreases |recvBuffer|
      {
        ParseHead(recvBuffer);
        var packlen := FromBytes(recvBuffer);
        if packlen == 0 {
          dispatched := dispatched + [KeepAlive];
          recvBuffer := recvBuffer[4..];
          continue;
        }
        if packlen > MAX_PACKET {
          closed := true;
          return;
        }
        if |recvBuffer| >= packlen + 4 {
          dispatched := dispatched + [Command(recvBuffer[4], recvBuffer[5..packlen + 4])];
          recvBuffer := recvBuffer[packlen + 4..];
        } else {
          return;
        }
      }
      ParseShort(recvBuffer);
    }
  }

  /** Two receivers of the same stream, cut differently, have dispatched the same. */
  lemma CutsDoNotMatter(a: Receiver, b: Receiver)
    requires a.Valid() && b.Valid() && a.received == b.received
    ensures a.dispatched == b.dispatched && a.recvBuffer == b.recvBuffer && a.closed == b.closed
  {
  }

  // ------------------------------------------------------- senders and handlers

  datatype Message =
    | Alive
    | Have(index: int)
    | Bitfield(bits: seq<byte>)
    | Request(index: int, offset: nat, length: nat)
    | Piece(index: int, offset: nat, data: seq<byte>)
    | Cancel(index: int, offset: nat, length: nat)
    | HaveAll
    | HaveNone
    | Reject(index: int, offset: nat, length: nat)

  predicate IsIndex(i: int) { -0x8000_0000 <= i < 0x8000_0000 }

  /** What the senders accept by their parameter types. */
  predicate Typed(m: Message) {
    match m
    case Have(i) => IsIndex(i)
    case Bitfield(bits) => |bits| + 1 < WORD
    case Request(i, o, n) => IsIndex(i) && o < WORD && n < WORD
    case Piece(i, o, d) => IsIndex(i) && o < WORD && |d| + 9 < WORD
    case Cancel(i, o, n) => IsIndex(i) && o < WORD && n < WORD
    case Reject(i, o, n) => IsIndex(i) && o < WORD && n < WORD
    case _ => true
  }

  function Three(index: int, offset: nat, length: nat): seq<byte>
    requires IsIndex(index) && offset < WORD && length < WORD
  {
    ToBytes(Unsigned(index)) + ToBytes(offset) + ToBytes(length)
  }

  /** The bytes each sender puts into the send buffer. */
  function Sent(m: Message): seq<byte>
    requires Typed(m)
  {
    match m
    case Alive => [0, 0, 0, 0]
    case Have(i) => ToBytes(5) + [4] + ToBytes(Unsigned(i))
    case Bitfield(bits) => ToBytes(1 + |bits|) + [5] + bits
    case Request(i, o, n) => ToBytes(13) + [6] + Three(i, o, n)
    case Piece(i, o, d) => ToBytes(9 + |d|) + [7] + ToBytes(Unsigned(i)) + ToBytes(o) + d
    case Cancel(i, o, n) => ToBytes(13) + [8] + Three(i, o, n)
    case HaveAll => ToBytes(1) + [0x0E]
    case HaveNone => ToBytes(1) + [0x0F]
    case Reject(i, o, n) => ToBytes(13) + [0x10] + Three(i, o, n)
  }

  /** What the handler of an event reads; None when it refuses the data by its length. */
  function Handled(e: Event, pieceCount: nat): Option<Message> {
    match e
    case KeepAlive => Some(Alive)
    case Command(id, p) =>
      if id == 4 then
        if |p| != 4 then None else Some(Have(Signed(FromBytes(p))))
      else if id == 5 then
        if |p| != (pieceCount + 7) / 8 then None else Some(Bitfield(p))
      else if id == 7 then
        if |p| <= 8 then None else Some(Piece(Signed(FromBytes(p)), FromBytes(p[4..]), p[8..]))
      else if id == 0x0E then
        if |p| != 0 then None else Some(HaveAll)
      else if id == 0x0F then
        if |p| != 0 then None else Some(HaveNone)
      else if |p| != 12 then None
      else
        var i, o, n := Signed(FromBytes(p)), FromBytes(p[4..]), FromBytes(p[8..]);
        if id == 6 then Some(Request(i, o, n))
        else if id == 8 then Some(Cancel(i, o, n))
        else if id == 0x10 then Some(Reject(i, o, n))
        else None
  }

  function FrameOf(m: Message): Event
    requires Typed(m)
  {
    match m
    case Alive => KeepAlive
    case Have(i) => Command(4, ToBytes(Unsigned(i)))
    case Bitfield(bits) => Command(5, bits)
    case Request(i, o, n) => Command(6, Three(i, o, n))
    case Piece(i, o, d) => Command(7, ToBytes(Unsigned(i)) + ToBytes(o) + d)
    case Cancel(i, o, n) => Command(8, Three(i, o, n))
    case HaveAll => Command(0x0E, [])
    case HaveNone => Command(0x0F, [])
    case Reject(i, o, n) => Command(0x10, Three(i, o, n))
  }

  /** The length prefix and body of a message, as one frame. */
  function Frame(e: Event): seq<byte>
    requires e.Command? ==> |e.payload| + 1 < WORD
  {
    match e
    case KeepAlive => [0, 0, 0, 0]
    case Command(id, p) => ToBytes(1 + |p|) + [id] + p
  }

  lemma SentIsFrame(m: Message)
    requires Typed(m)
    ensures FrameOf(m).Command? ==> |FrameOf(m).payload| + 1 < WORD
    ensures Sent(m) == Frame(FrameOf(m))
  {
  }

  /** What a message's data must meet to get through: small enough, and a size its handler takes. */
  predicate Deliverable(m: Message, pieceCount: nat) {
    match m
    case Bitfield(bits) => 1 + |bits| <= MAX_PACKET && |bits| == (pieceCount + 7) / 8
    case Piece(_, _, d) => 0 < |d| && 9 + |d| <= MAX_PACKET
    case _ => true
  }

  /** The frame is no longer than a peer accepts. */
  predicate Fits(m: Message)
    requires Typed(m)
  {
    match FrameOf(m)
    case KeepAlive => true
    case Command(_, p) => 1 + |p| <= MAX_PACKET
  }

  /** Every 32-bit number is an index some sender can be given, and messages without data can always be sent. */
  lemma EverythingTyped(v: nat)
    requires v < WORD
    ensures IsIndex(Signed(v)) && Unsigned(Signed(v)) == v
    ensures Typed(Have(Signed(v))) && Typed(Alive) && Typed(HaveAll) && Typed(HaveNone)
  {
  }

  lemma ThreeRead(i: int, o: nat, n: nat)
    requires IsIndex(i) && o < WORD && n < WORD
    ensures |Three(i, o, n)| == 12
    ensures Signed(FromBytes(Three(i, o, n))) == i
    ensures FromBytes(Three(i, o, n)[4..]) == o && FromBytes(Three(i, o, n)[8..]) == n
  {
    hide ToBytes;
    hide FromBytes;
    var p := Three(i, o, n);
    assert p == ToBytes(Unsigned(i)) + (ToBytes(o) + ToBytes(n));
    BytesRoundTrip(Unsigned(i), ToBytes(o) + ToBytes(n));
    assert p[4..] == ToBytes(o) + ToBytes(n);
    BytesRoundTrip(o, ToBytes(n));
    assert p[8..] == ToBytes(n) + [];
    BytesRoundTrip(n, []);
  }

  lemma PieceRead(i: int, o: nat, d: seq<byte>)
    requires IsIndex(i) && o < WORD
    ensures
      var p := ToBytes(Unsigned(i)) + ToBytes(o) + d;
      |p| == 8 + |d| && Signed(FromBytes(p)) == i && FromBytes(p[4..]) == o && p[8..] == d
  {
    hide ToBytes;
    hide FromBytes;
    var p := ToBytes(Unsigned(i)) + ToBytes(o) + d;
    assert p == ToBytes(Unsigned(i)) + (ToBytes(o) + d);
    BytesRoundTrip(Unsigned(i), ToBytes(o) + d);
    assert p[4..] == ToBytes(o) + d;
    BytesRoundTrip(o, d);
  }

  /** Every handler undoes its sender; a message within the limits is read as it was sent, any other is not. */
  lemma HandlerUndoesSender(m: Message, pieceCount: nat)
    requires Typed(m)
    ensures Deliverable(m, pieceCount) ==> Handled(FrameOf(m), pieceCount) == Some(m)
    ensures Handled(FrameOf(m), pieceCount) == Some(m) && Fits(m) ==> Deliverable(m, pieceCount)
    ensures Handled(FrameOf(m), pieceCount) in {Some(m), None}
  {
    hide ToBytes;
    hide FromBytes;
    hide Three;
    match m
    case Have(i) =>
      assert ToBytes(Unsigned(i)) == ToBytes(Unsigned(i)) + [];
      BytesRoundTrip(Unsigned(i), []);
    case Request(i, o, n) => ThreeRead(i, o, n);
    case Cancel(i, o, n) => ThreeRead(i, o, n);
    case Reject(i, o, n) => ThreeRead(i, o, n);
    case Piece(i, o, d) => PieceRead(i, o, d);
    case _ =>
  }

  /** A frame at the head of a stream is cut out exactly when its length is acceptable. */
  lemma FrameParsed(e: Event, t: seq<byte>)
    requires e.Command? ==> |e.payload| + 1 < WORD
    ensures e.KeepAlive? || 1 + |e.payload| <= MAX_PACKET ==> Parse(Frame(e) + t) == After([e], Parse(t))
    ensures e.Command? && 1 + |e.payload| > MAX_PACKET ==> Parse(Frame(e) + t) == Parsed([], Frame(e) + t, true)
  {
    hide ToBytes;
    hide FromBytes;
    var s := Frame(e) + t;
    match e
    case KeepAlive =>
      ZeroWord(t);
      assert s[4..] == t;
    case Command(id, p) =>
      var n := 1 + |p|;
      assert s == ToBytes(n) + ([id] + p + t);
      BytesRoundTrip(n, [id] + p + t);
      assert s[n + 4..] == t && s[5..n + 4] == p && s[4] == id;
  }

  /** What fits is exactly what the message loop cuts out of the stream as it was sent. */
  lemma FitsIff(m: Message)
    requires Typed(m)
    ensures Fits(m) <==> Parse(Sent(m)) == Parsed([FrameOf(m)], [], false)
  {
    hide Sent;
    SentIsFrame(m);
    FrameParsed(FrameOf(m), []);
    assert Sent(m) + [] == Sent(m);
    assert Parse([]) == Parsed([], [], false);
  }

  lemma ZeroWord(t: seq<byte>)
    ensures FromBytes([0, 0, 0, 0] + t) == 0
  {
  }

  function SentAll(ms: seq<Message>): seq<byte>
    requires forall m :: m in ms ==> Typed(m)
  {
    if ms == [] then [] else Sent(ms[0]) + SentAll(ms[1..])
  }

  lemma {:induction false} SentAllGrows(ms: seq<Message>, m: Message)
    requires (forall k :: k in ms ==> Typed(k)) && Typed(m)
    ensures SentAll(ms + [m]) == SentAll(ms) + Sent(m)
  {
    if ms == [] {
      assert [] + [m] == [m];
      assert SentAll([m]) == Sent(m) + SentAll([m][1..]);
    } else {
      assert (ms + [m])[1..] == ms[1..] + [m];
      SentAllGrows(ms[1..], m);
    }
  }

  /** The sending half: each sender lays out its message in the send buffer. */
  class Sender {
    var sendBuffer: seq<byte>
    ghost var sent: seq<Message>

    ghost predicate Valid()
      reads this
    {
      (forall m :: m in sent ==> Typed(m)) && sendBuffer == SentAll(sent)
    }

    constructor ()
      ensures Valid() && sent == []
    {
      sendBuffer, sent := [], [];
    }

    method SendData(data: seq<byte>, ghost m: Message)
      requires Valid() && Typed(m) && data == Sent(m)
      modifies this
      ensures Valid() && sent == old(sent) + [m] && sendBuffer == old(sendBuffer) + data
    {
      SentAllGrows(sent, m);
      sendBuffer := sendBuffer + data;
      sent := sent + [m];
    }

    method SendHave(index: int)
      requires Valid() && IsIndex(index)
      modifies this
      ensures Valid() && sent == old(sent) + [Have(index)]
      ensures sendBuffer == old(sendBuffer) + Sent(Have(index))
    {
      hide SentAll;
      hide ToBytes;
      var buf := ToBytes(5);
      buf := buf + [4];
      buf := buf + ToBytes(Unsigned(index));
      SendData(buf, Have(index));
    }

    method SendRequest(index: int, offset: nat, length: nat)
      requires Valid() && Typed(Request(index, offset, length))
      modifies this
      ensures Valid() && sent == old(sent) + [Request(index, offset, length)]
      ensures sendBuffer == old(sendBuffer) + Sent(Request(index, offset, length))
    {
      hide SentAll;
      hide ToBytes;
      var buf := ToBytes(13) + [6];
      buf := buf + ToBytes(Unsigned(index)) + ToBytes(offset) + ToBytes(length);
      assert buf == Sent(Request(index, offset, length));
      SendData(buf, Request(index, offset, length));
    }

    method SendPieceData(index: int, offset: nat, data: seq<byte>)
      requires Valid() && Typed(Piece(index, offset, data))
      modifies this
      ensures Valid() && sent == old(sent) + [Piece(index, offset, data)]
      ensures sendBuffer == old(sendBuffer) + Sent(Piece(index, offset, data))
    {
      hide SentAll;
      hide ToBytes;
      var pkg := ToBytes(9 + |data|) + [7];
      pkg := pkg + ToBytes(Unsigned(index)) + ToBytes(offset);
      pkg := pkg + data;
      SendData(pkg, Piece(index, offset, data));
    }

    method SendPieceCancel(index: int, offset: nat, length: nat)
      requires Valid() && Typed(Cancel(index, offset, length))
      modifies this
      ensures Valid() && sent == old(sent) + [Cancel(index, offset, length)]
      ensures sendBuffer == old(sendBuffer) + Sent(Cancel(index, offset, length))
    {
      hide SentAll;
      hide ToBytes;
      var buf := ToBytes(13) + [8];
      buf := buf + ToBytes(Unsigned(index)) + ToBytes(offset) + ToBytes(length);
      assert buf == Sent(Cancel(index, offset, length));
      SendData(buf, Cancel(index, offset, length));
    }
  }

  function Frames(ms: seq<Message>): seq<Event>
    requires forall m :: m in ms ==> Typed(m)
  {
    if ms == [] then [] else [FrameOf(ms[0])] + Frames(ms[1..])
  }

  lemma {:induction false} SentAllParsed(ms: seq<Message>, pieceCount: nat)
    requires forall m :: m in ms ==> Typed(m) && Deliverable(m, pieceCount)
    ensures Parse(SentAll(ms)) == Parsed(Frames(ms), [], false)
    ensures |Frames(ms)| == |ms| && forall k :: 0 <= k < |ms| ==> Handled(Frames(ms)[k], pieceCount) == Some(ms[k])
  {
    hide Sent;
    hide FrameOf;
    hide Frame;
    hide Handled;
    if ms != [] {
      SentAllParsed(ms[1..], pieceCount);
      HandlerUndoesSender(ms[0], pieceCount);
      SentIsFrame(ms[0]);
      FitsPacket(ms[0], pieceCount);
      FrameParsed(FrameOf(ms[0]), SentAll(ms[1..]));
    }
  }

  lemma FitsPacket(m: Message, pieceCount: nat)
    requires Typed(m) && Deliverable(m, pieceCount)
    ensures FrameOf(m).KeepAlive? || 1 + |FrameOf(m).payload| <= MAX_PACKET
  {
  }

  /**
    Whatever one side sends, in whatever chunks it arrives, the other side's
    handlers read those messages and no others, in order; once everything has
    arrived they have read all of them and the connection is still open.
  */
  lemma Delivery(ms: seq<Message>, pieceCount: nat, r: Receiver)
    requires forall m :: m in ms ==> Typed(m) && Deliverable(m, pieceCount)
    requires r.Valid() && r.received <= SentAll(ms)
    ensures |r.dispatched| <= |ms| && forall k :: 0 <= k < |r.dispatched| ==>
              Handled(r.dispatched[k], pieceCount) == Some(ms[k])
    ensures !r.closed
    ensures r.received == SentAll(ms) ==> |r.dispatched| == |ms| && r.recvBuffer == []
  {
    hide Handled;
    hide Parse;
    hide SentAll;
    hide Frames;
    SentAllParsed(ms, pieceCount);
    var more := SentAll(ms)[|r.received|..];
    assert r.received + more == SentAll(ms);
    ParseSplit(r.received, more);
    assert r.dispatched <= Frames(ms);
    if more == [] {
      assert r.received == SentAll(ms);
    }
  }

  /**
    A block or bitfield gets through exactly when it fits: a bitfield of more
    than 131160 pieces makes the other side close the connection.
  */
  lemma BitfieldArrivesIff(bits: seq<byte>, pieceCount: nat)
    requires |bits| + 1 < WORD && |bits| == (pieceCount + 7) / 8
    ensures !Parse(Sent(Bitfield(bits))).oversized <==> pieceCount <= 131160
    ensures pieceCount <= 131160 ==> Parse(Sent(Bitfield(bits))).events == [Command(5, bits)]
  {
    SentIsFrame(Bitfield(bits));
    FrameParsed(Command(5, bits), []);
    assert Sent(Bitfield(bits)) + [] == Sent(Bitfield(bits));
  }

  lemma PieceArrivesIff(i: int, o: nat, d: seq<byte>, pieceCount: nat)
    requires IsIndex(i) && o < WORD && |d| + 9 < WORD
    ensures
      var p := Parse(Sent(Piece(i, o, d)));
      (|p.events| == 1 && Handled(p.events[0], pieceCount) == Some(Piece(i, o, d))) <==> 0 < |d| <= 16387
  {
    hide Sent;
    hide Handled;
    var m := Piece(i, o, d);
    SentIsFrame(m);
    FrameParsed(FrameOf(m), []);
    HandlerUndoesSender(m, pieceCount);
    assert Sent(m) + [] == Sent(m);
  }
}
