/** Message framing between two peers: a send queue drained by partial writes, and a parser fed
    with arbitrary chunks. */
module NetFraming {
  import opened Options

  type Byte = b: nat | b < 256

  const HEADER_SIZE: nat := 24
  const MAX_SIZE: nat := 0x02000000
  const MAX_PROTOCOL_MESSAGE_LENGTH: nat := 4 * 1000 * 1000

  const COMMAND_SIZE: nat := 12
  const U32: nat := 0x1_0000_0000

  /** A message header; the four start bytes belong to the network and are no part of it. */
  datatype Header = Header(command: seq<Byte>, size: nat, checksum: nat)
  {
    /** Twelve command bytes, and two fields of 32 bits. */
    predicate Fits() { |command| == COMMAND_SIZE && size < U32 && checksum < U32 }
  }

  /** The header's wire format. */
  datatype Codec = Codec(encode: Header -> seq<Byte>, decode: seq<Byte> -> Option<Header>)

  /** Headers take 24 bytes and are read back as written. */
  ghost predicate RoundTrips(codec: Codec)
  {
    forall h: Header :: h.Fits() ==> |codec.encode(h)| == HEADER_SIZE && codec.decode(codec.encode(h)) == Some(h)
  }

  // ----- the header's actual format -----

  /** Least significant byte first. */
  function WriteLE32(n: nat): (r: seq<Byte>)
    ensures |r| == 4
  {
    var a := n / 0x100;
    var b := a / 0x100;
    var c := b / 0x100;
    [n % 0x100, a % 0x100, b % 0x100, c % 0x100]
  }

  function ReadLE32(b: seq<Byte>): (n: nat)
    requires |b| == 4
    ensures n < U32
  {
    (b[0] as nat) + (b[1] as nat) * 0x100 + (b[2] as nat) * 0x1_0000 + (b[3] as nat) * 0x100_0000
  }

  lemma ReadWrite32(n: nat)
    requires n < U32
    ensures ReadLE32(WriteLE32(n)) == n
  {
    var a := n / 0x100;
    var b := a / 0x100;
    var c := b / 0x100;
    assert c < 0x100;
    assert a == 0x100 * b + a % 0x100 && b == 0x100 * c + b % 0x100;
  }

  function EncodeHeader(start: seq<Byte>, h: Header): seq<Byte>
  {
    start + h.command + WriteLE32(h.size) + WriteLE32(h.checksum)
  }

  /** Any 24 bytes are a header; the start bytes are looked at later. */
  function DecodeHeader(b: seq<Byte>): Option<Header>
  {
    if |b| < HEADER_SIZE then None else Some(Header(b[4..16], ReadLE32(b[16..20]), ReadLE32(b[20..24])))
  }

  function WireCodec(start: seq<Byte>): Codec { Codec((h: Header) => EncodeHeader(start, h), DecodeHeader) }

  /** The actual format meets what is asked of a codec, whatever the network's start bytes. */
  lemma WireRoundTrips(start: seq<Byte>)
    requires |start| == 4
    ensures RoundTrips(WireCodec(start))
  {
    hide ReadLE32, WriteLE32;
    forall h: Header | h.Fits()
      ensures |EncodeHeader(start, h)| == HEADER_SIZE && DecodeHeader(EncodeHeader(start, h)) == Some(h)
    {
      var b := EncodeHeader(start, h);
      ReadWrite32(h.size);
      ReadWrite32(h.checksum);
      assert b[4..16] == h.command && b[16..20] == WriteLE32(h.size) && b[20..24] == WriteLE32(h.checksum);
    }
  }

  // ----- the receiver -----

  /** A message being received: header bytes so far, then the header and the data so far. */
  datatype NetMessage = NetMessage(inData: bool, hdrBuf: seq<Byte>, hdr: Header, data: seq<Byte>)
  {
    predicate Complete() { inData && hdr.size == |data| }

    predicate Valid()
    {
      if inData then |hdrBuf| == HEADER_SIZE && |data| <= hdr.size else |hdrBuf| < HEADER_SIZE && data == []
    }
  }

  const NO_HEADER := Header([], 0, 0)
  const NEW_MESSAGE := NetMessage(false, [], NO_HEADER, [])

  /** The messages received, and whether the stream has been acceptable so far. */
  datatype Fed = Fed(messages: seq<NetMessage>, ok: bool)

  ghost predicate ValidList(v: seq<NetMessage>)
  {
    && (forall k :: 0 <= k < |v| ==> v[k].Valid())
    && (forall k :: 0 <= k < |v| - 1 ==> v[k].Complete())
  }

  /** The list with a message to work on at its end. */
  function Opened(v: seq<NetMessage>): (r: seq<NetMessage>)
    ensures |r| > 0
  {
    if v == [] || v[|v| - 1].Complete() then v + [NEW_MESSAGE] else v
  }

  /** A header that is complete is decoded, and too large a message refused. */
  function HeaderDone(codec: Codec, msg: NetMessage): Option<NetMessage>
  {
    if |msg.hdrBuf| < HEADER_SIZE then Some(msg)
    else match codec.decode(msg.hdrBuf)
      case None => None
      case Some(h) => if h.size > MAX_SIZE then None else Some(msg.(inData := true, hdr := h))
  }

  /** A message after one byte more, and whether it is acceptable. */
  function Advance(codec: Codec, msg: NetMessage, b: Byte): (NetMessage, bool)
  {
    if !msg.inData then
      var got := msg.(hdrBuf := msg.hdrBuf + [b]);
      match HeaderDone(codec, got)
      case None => (got, false)
      case Some(next) => (next, !(next.inData && next.hdr.size > MAX_PROTOCOL_MESSAGE_LENGTH))
    else
      (msg.(data := msg.data + [b]), msg.hdr.size <= MAX_PROTOCOL_MESSAGE_LENGTH)
  }

  function FeedByte(codec: Codec, v: seq<NetMessage>, b: Byte): Fed
  {
    var w := Opened(v);
    var next := Advance(codec, w[|w| - 1], b);
    Fed(w[|w| - 1 := next.0], next.1)
  }

  /** The reference parser: one byte at a time, stopping at the first error. */
  function Feed(codec: Codec, f: Fed, bytes: seq<Byte>): Fed
    decreases |bytes|
  {
    if bytes == [] || !f.ok then f
    else Feed(codec, FeedByte(codec, f.messages, bytes[0]), bytes[1..])
  }

  lemma {:induction false} FeedJoin(codec: Codec, f: Fed, a: seq<Byte>, b: seq<Byte>)
    ensures Feed(codec, f, a + b) == Feed(codec, Feed(codec, f, a), b)
    decreases |a|
  {
    if a == [] {
      assert a + b == b;
    } else if f.ok {
      assert (a + b)[1..] == a[1..] + b;
      FeedJoin(codec, FeedByte(codec, f.messages, a[0]), a[1..], b);
    }
  }

  /** Every list the parser builds is well formed: complete messages, then at most one in progress. */
  lemma FeedByteValid(codec: Codec, v: seq<NetMessage>, b: Byte)
    requires ValidList(v)
    ensures var f := FeedByte(codec, v, b); f.ok ==> ValidList(f.messages)
  {
    assert ValidList(Opened(v));
  }

  lemma {:induction false} FeedValid(codec: Codec, f: Fed, bytes: seq<Byte>)
    requires f.ok ==> ValidList(f.messages)
    ensures var g := Feed(codec, f, bytes); g.ok ==> ValidList(g.messages)
    decreases |bytes|
  {
    if bytes != [] && f.ok {
      FeedByteValid(codec, f.messages, bytes[0]);
      FeedValid(codec, FeedByte(codec, f.messages, bytes[0]), bytes[1..]);
    }
  }

  /** Header bytes that do not complete the header are just kept. */
  lemma {:induction false} FeedHeaderPart(codec: Codec, front: seq<NetMessage>, msg: NetMessage, bytes: seq<Byte>)
    requires !msg.inData && |msg.hdrBuf| + |bytes| < HEADER_SIZE
    ensures Feed(codec, Fed(front + [msg], true), bytes) == Fed(front + [msg.(hdrBuf := msg.hdrBuf + bytes)], true)
    decreases |bytes|
  {
    if bytes == [] {
      assert msg.hdrBuf + [] == msg.hdrBuf;
    } else {
      var next := msg.(hdrBuf := msg.hdrBuf + [bytes[0]]);
      assert (front + [msg])[|front| := next] == front + [next];
      assert next.hdrBuf + bytes[1..] == msg.hdrBuf + bytes;
      FeedHeaderPart(codec, front, next, bytes[1..]);
    }
  }

  /** The rest of the header at once is the rest of the header byte by byte. */
  lemma FeedHeaderEnd(codec: Codec, front: seq<NetMessage>, msg: NetMessage, bytes: seq<Byte>)
    requires !msg.inData && |msg.hdrBuf| < HEADER_SIZE == |msg.hdrBuf| + |bytes|
    ensures var got := msg.(hdrBuf := msg.hdrBuf + bytes);
            Feed(codec, Fed(front + [msg], true), bytes) ==
              match HeaderDone(codec, got)
              case None => Fed(front + [got], false)
              case Some(next) => Fed(front + [next], !(next.inData && next.hdr.size > MAX_PROTOCOL_MESSAGE_LENGTH))
  {
    var k := |bytes| - 1;
    var most, last := bytes[..k], bytes[k];
    assert bytes == most + [last];
    FeedHeaderPart(codec, front, msg, most);
    FeedJoin(codec, Fed(front + [msg], true), most, [last]);
    var part := msg.(hdrBuf := msg.hdrBuf + most);
    var got := msg.(hdrBuf := msg.hdrBuf + bytes);
    assert part.hdrBuf + [last] == got.hdrBuf;
    assert forall m: NetMessage :: (front + [part])[|front| := m] == front + [m];
    assert Feed(codec, Fed(front + [part], true), [last]) ==
        Feed(codec, FeedByte(codec, front + [part], last), [last][1..]);
  }

  /** Data bytes within the message are just kept. */
  lemma {:induction false} FeedData(codec: Codec, front: seq<NetMessage>, msg: NetMessage, bytes: seq<Byte>)
    requires msg.inData && |msg.data| + |bytes| <= msg.hdr.size <= MAX_PROTOCOL_MESSAGE_LENGTH
    ensures Feed(codec, Fed(front + [msg], true), bytes) == Fed(front + [msg.(data := msg.data + bytes)], true)
    decreases |bytes|
  {
    if bytes == [] {
      assert msg.data + [] == msg.data;
    } else {
      var next := msg.(data := msg.data + [bytes[0]]);
      assert (front + [msg])[|front| := next] == front + [next];
      assert next.data + bytes[1..] == msg.data + bytes;
      FeedData(codec, front, next, bytes[1..]);
    }
  }

  // ----- what was pushed -----

  datatype Message = Message(command: seq<Byte>, data: seq<Byte>)

  /** The bytes of a command up to a zero byte, at most n of them. */
  function UpToZero(c: seq<Byte>, n: nat): (r: seq<Byte>)
    ensures |r| <= n && r <= c && forall k :: 0 <= k < |r| ==> r[k] != 0
    decreases n
  {
    if n == 0 || c == [] || c[0] == 0 then [] else [c[0]] + UpToZero(c[1..], n - 1)
  }

  /** The command field: the command, cut after twelve bytes, padded with zeros. */
  function CommandField(c: seq<Byte>): (r: seq<Byte>)
    ensures |r| == COMMAND_SIZE
  {
    var name := UpToZero(c, COMMAND_SIZE);
    name + seq(COMMAND_SIZE - |name|, _ => 0)
  }

  function GetCommand(h: Header): seq<Byte> { UpToZero(h.command, COMMAND_SIZE) }

  /** A command of at most twelve bytes, none of them zero, is read off the header as it was given. */
  lemma CommandKept(c: seq<Byte>, size: nat, checksum: nat)
    requires |c| <= COMMAND_SIZE && forall k :: 0 <= k < |c| ==> c[k] != 0
    ensures GetCommand(Header(CommandField(c), size, checksum)) == c
  {
    WholeName(c, [], COMMAND_SIZE);
    assert c + [] == c;
    WholeName(c, seq(COMMAND_SIZE - |c|, _ => 0), COMMAND_SIZE);
  }

  lemma {:induction false} WholeName(c: seq<Byte>, rest: seq<Byte>, n: nat)
    requires |c| <= n && (forall k :: 0 <= k < |c| ==> c[k] != 0) && (rest == [] || rest[0] == 0)
    ensures UpToZero(c + rest, n) == c
    decreases |c|
  {
    if c == [] {
      assert c + rest == rest;
    } else {
      assert (c + rest)[1..] == c[1..] + rest;
      WholeName(c[1..], rest, n - 1);
    }
  }

  /** The header of a message. Its size field has 32 bits, and four bytes of the hash are its checksum. */
  function HeaderOf(m: Message, checksum: seq<Byte> -> nat): (h: Header)
    ensures h.Fits()
  {
    Header(CommandField(m.command), |m.data| % U32, checksum(m.data) % U32)
  }

  /** The message as a received one. */
  function Received(codec: Codec, m: Message, checksum: seq<Byte> -> nat): NetMessage
  {
    NetMessage(true, codec.encode(HeaderOf(m, checksum)), HeaderOf(m, checksum), m.data)
  }

  /** Small enough for the size field. */
  predicate Encodable(m: Message) { |m.data| < U32 }

  /** Exactly messages below 4 GiB announce their own size. */
  lemma SizeAnnounced(m: Message, checksum: seq<Byte> -> nat)
    ensures HeaderOf(m, checksum).size == |m.data| <==> Encodable(m)
  {
  }

  /** What a received message says: the data, its size and checksum, and a short command as it was given. */
  lemma ReceivedSays(codec: Codec, m: Message, checksum: seq<Byte> -> nat)
    requires Encodable(m)
    ensures var n := Received(codec, m, checksum);
      && n.Complete() && n.data == m.data && n.hdr.checksum == checksum(m.data) % U32
      && (|m.command| <= COMMAND_SIZE && (forall k :: 0 <= k < |m.command| ==> m.command[k] != 0) ==>
            GetCommand(n.hdr) == m.command)
  {
    hide UpToZero, CommandField;
    SizeAnnounced(m, checksum);
    if |m.command| <= COMMAND_SIZE && (forall k :: 0 <= k < |m.command| ==> m.command[k] != 0) {
      CommandKept(m.command, |m.data| % U32, checksum(m.data) % U32);
    }
  }

  function Stream(codec: Codec, ms: seq<Message>, checksum: seq<Byte> -> nat): seq<Byte>
  {
    if ms == [] then [] else codec.encode(HeaderOf(ms[0], checksum)) + ms[0].data + Stream(codec, ms[1..], checksum)
  }

  lemma {:induction false} StreamJoin(codec: Codec, a: seq<Message>, b: seq<Message>, checksum: seq<Byte> -> nat)
    ensures Stream(codec, a + b, checksum) == Stream(codec, a, checksum) + Stream(codec, b, checksum)
    decreases |a|
  {
    hide HeaderOf;
    if a == [] {
      assert a + b == b;
    } else {
      assert (a + b)[1..] == a[1..] + b;
      StreamJoin(codec, a[1..], b, checksum);
    }
  }

  /** The completed messages of a list. */
  function Completed(v: seq<NetMessage>): (r: seq<NetMessage>)
    ensures r <= v
  {
    if v == [] then [] else if v[|v| - 1].Complete() then v else v[..|v| - 1]
  }

  ghost predicate Matches(codec: Codec, done: seq<NetMessage>, ms: seq<Message>, checksum: seq<Byte> -> nat)
  {
    |done| <= |ms| && forall k :: 0 <= k < |done| ==> done[k] == Received(codec, ms[k], checksum)
  }

  /** Complete messages are not looked at again: parsing goes on behind them. */
  lemma {:induction false} FeedBehind(codec: Codec, front: seq<NetMessage>, v: seq<NetMessage>, bytes: seq<Byte>)
    requires (front != [] ==> front[|front| - 1].Complete())
    ensures var f := Feed(codec, Fed(v, true), bytes);
            Feed(codec, Fed(front + v, true), bytes) == Fed(front + f.messages, f.ok)
    decreases |bytes|
  {
    hide Advance, Opened;
    if bytes != [] {
      OpenedBehind(front, v);
      var w := Opened(v);
      var next := Advance(codec, w[|w| - 1], bytes[0]).0;
      assert (front + w)[|front + w| - 1 := next] == front + w[|w| - 1 := next];
      var f := FeedByte(codec, v, bytes[0]);
      if f.ok {
        FeedBehind(codec, front, f.messages, bytes[1..]);
      }
    }
  }

  lemma OpenedBehind(front: seq<NetMessage>, v: seq<NetMessage>)
    requires front != [] ==> front[|front| - 1].Complete()
    ensures Opened(front + v) == front + Opened(v)
  {
    if v == [] {
      assert front + v == front;
    } else {
      assert (front + v)[|front + v| - 1] == v[|v| - 1];
    }
  }

  lemma FeedOpens(codec: Codec, bytes: seq<Byte>)
    requires bytes != []
    ensures Feed(codec, Fed([], true), bytes) == Feed(codec, Fed([NEW_MESSAGE], true), bytes)
  {
    assert Opened([]) == [NEW_MESSAGE] == Opened([NEW_MESSAGE]);
  }

  lemma CodecAt(codec: Codec, h: Header)
    requires RoundTrips(codec) && h.Fits()
    ensures |codec.encode(h)| == HEADER_SIZE && codec.decode(codec.encode(h)) == Some(h)
  {
  }

  /** Less than a header completes nothing. */
  lemma FeedShort(codec: Codec, w: seq<Byte>)
    requires |w| < HEADER_SIZE
    ensures var f := Feed(codec, Fed([], true), w); f.ok && Completed(f.messages) == []
  {
    hide Feed;
    if w == [] {
      FeedNothing(codec, Fed([], true));
    } else {
      FeedOpens(codec, w);
      FeedHeaderPart(codec, [], NEW_MESSAGE, w);
      assert [] + [NEW_MESSAGE] == [NEW_MESSAGE];
    }
  }

  /** A whole header opens the message, or is refused for its size. */
  lemma FeedHeader(codec: Codec, h: Header)
    requires RoundTrips(codec) && h.Fits()
    ensures var e := codec.encode(h);
            var f := Feed(codec, Fed([], true), e);
            if h.size <= MAX_PROTOCOL_MESSAGE_LENGTH then f == Fed([NetMessage(true, e, h, [])], true)
            else !f.ok && Completed(f.messages) == []
  {
    hide Feed;
    var e := codec.encode(h);
    CodecAt(codec, h);
    assert [] + e == e && [] + [NEW_MESSAGE] == [NEW_MESSAGE];
    FeedOpens(codec, e);
    FeedHeaderEnd(codec, [], NEW_MESSAGE, e);
    assert forall m: NetMessage :: [] + [m] == [m];
  }

  /** Reading the start of one message: less than a header, or a header and some data. */
  lemma FeedOne(codec: Codec, m: Message, checksum: seq<Byte> -> nat, w: seq<Byte>)
    requires RoundTrips(codec) && Encodable(m) && w <= codec.encode(HeaderOf(m, checksum)) + m.data
    ensures var f := Feed(codec, Fed([], true), w);
            var whole := codec.encode(HeaderOf(m, checksum)) + m.data;
            && (|m.data| <= MAX_PROTOCOL_MESSAGE_LENGTH ==> f.ok)
            && (|m.data| > MAX_PROTOCOL_MESSAGE_LENGTH && |w| >= HEADER_SIZE ==> !f.ok)
            && if |w| == |whole| && |m.data| <= MAX_PROTOCOL_MESSAGE_LENGTH then f.messages ==
                  [Received(codec, m, checksum)]
               else Completed(f.messages) == []
  {
    hide Feed, RoundTrips, Completed, CommandField;
    var h := HeaderOf(m, checksum);
    var e := codec.encode(h);
    CodecAt(codec, h);
    if |w| < HEADER_SIZE {
      FeedShort(codec, w);
    } else {
      var rest := w[HEADER_SIZE..];
      assert w == e + rest && rest <= m.data;
      FeedHeader(codec, h);
      FeedJoin(codec, Fed([], true), e, rest);
      if |m.data| > MAX_PROTOCOL_MESSAGE_LENGTH {
        FeedStopped(codec, Feed(codec, Fed([], true), e), rest);
      } else {
        var next := NetMessage(true, e, h, []);
        FeedData(codec, [], next, rest);
        assert [] + [next] == [next] && next.data + rest == rest;
        var last := next.(data := rest);
        assert [] + [last] == [last];
        assert Feed(codec, Fed([], true), w) == Fed([last], true);
        CompletedSingle(last);
        if |w| == |e + m.data| { assert rest == m.data; }
      }
    }
  }

  lemma CompletedSingle(m: NetMessage)
    ensures Completed([m]) == if m.Complete() then [m] else []
  {
  }

  lemma FeedNothing(codec: Codec, f: Fed)
    ensures Feed(codec, f, []) == f
  {
  }

  lemma FeedStopped(codec: Codec, f: Fed, bytes: seq<Byte>)
    requires !f.ok
    ensures Feed(codec, f, bytes) == f
  {
  }

  /** Whatever part of the stream has arrived, the completed messages are the first ones pushed. */
  lemma {:induction false} PrefixParses(codec: Codec, ms: seq<Message>, checksum: seq<Byte> -> nat, w: seq<Byte>)
    requires RoundTrips(codec) && (forall k :: 0 <= k < |ms| ==> Encodable(ms[k])) && w <= Stream(codec, ms, checksum)
    ensures Matches(codec, Completed(Feed(codec, Fed([], true), w).messages), ms, checksum)
    decreases |ms|
  {
    hide Feed, HeaderOf;
    if ms == [] {
      FeedNothing(codec, Fed([], true));
    } else {
      var whole := codec.encode(HeaderOf(ms[0], checksum)) + ms[0].data;
      assert Stream(codec, ms, checksum) == whole + Stream(codec, ms[1..], checksum);
      if |w| < |whole| {
        assert w <= whole;
        FeedOne(codec, ms[0], checksum, w);
      } else {
        var rest := w[|whole|..];
        assert w == whole + rest && rest <= Stream(codec, ms[1..], checksum);
        FeedOne(codec, ms[0], checksum, whole);
        FeedJoin(codec, Fed([], true), whole, rest);
        if |ms[0].data| > MAX_PROTOCOL_MESSAGE_LENGTH {
          FeedStopped(codec, Feed(codec, Fed([], true), whole), rest);
        } else {
          var first := Received(codec, ms[0], checksum);
          SizeAnnounced(ms[0], checksum);
          FeedBehind(codec, [first], [], rest);
          assert [first] + [] == [first];
          PrefixParses(codec, ms[1..], checksum, rest);
          var f := Feed(codec, Fed([], true), rest);
          CompletedBehind(first, f.messages);
          MatchesBehind(codec, Completed(f.messages), ms, checksum);
        }
      }
    }
  }

  lemma CompletedBehind(first: NetMessage, v: seq<NetMessage>)
    requires first.Complete()
    ensures Completed([first] + v) == [first] + Completed(v)
  {
    if v != [] {
      assert ([first] + v)[|v|] == v[|v| - 1];
      assert ([first] + v)[..|v|] == [first] + v[..|v| - 1];
    }
  }

  lemma MatchesBehind(codec: Codec, done: seq<NetMessage>, ms: seq<Message>, checksum: seq<Byte> -> nat)
    requires |ms| > 0 && Matches(codec, done, ms[1..], checksum)
    ensures Matches(codec, [Received(codec, ms[0], checksum)] + done, ms, checksum)
  {
  }

  /** Once everything has arrived, and no message was too large, all messages are there, complete and in order. */
  lemma {:induction false} AllParse(codec: Codec, ms: seq<Message>, checksum: seq<Byte> -> nat)
    requires RoundTrips(codec) && forall k :: 0 <= k < |ms| ==> |ms[k].data| <= MAX_PROTOCOL_MESSAGE_LENGTH
    ensures var f := Feed(codec, Fed([], true), Stream(codec, ms, checksum));
            f.ok && |f.messages| == |ms| && forall k :: 0 <= k < |ms| ==>
                f.messages[k] == Received(codec, ms[k], checksum)
    decreases |ms|
  {
    hide Feed, HeaderOf;
    if ms == [] {
      FeedNothing(codec, Fed([], true));
    } else {
      var whole, rest := codec.encode(HeaderOf(ms[0], checksum)) + ms[0].data, Stream(codec, ms[1..], checksum);
      FeedOne(codec, ms[0], checksum, whole);
      FeedJoin(codec, Fed([], true), whole, rest);
      var first := Received(codec, ms[0], checksum);
      SizeAnnounced(ms[0], checksum);
      FeedBehind(codec, [first], [], rest);
      assert [first] + [] == [first];
      AllParse(codec, ms[1..], checksum);
    }
  }
}
