/** The two ends of a connection as objects, and what any run of pushes, partial sends and
    deliveries in chunks leads to. */
module NetPeers {
  import opened Options
  import opened NetFraming

  // ----- the send queue -----

  function Flat(buffers: seq<seq<Byte>>): seq<Byte>
  {
    if buffers == [] then [] else buffers[0] + Flat(buffers[1..])
  }

  function Total(buffers: seq<seq<Byte>>): nat
  {
    if buffers == [] then 0 else |buffers[0]| + Total(buffers[1..])
  }

  lemma {:induction false} FlatJoin(a: seq<seq<Byte>>, b: seq<seq<Byte>>)
    ensures Flat(a + b) == Flat(a) + Flat(b) && Total(a + b) == Total(a) + Total(b)
    decreases |a|
  {
    if a == [] {
      assert a + b == b;
    } else {
      assert (a + b)[1..] == a[1..] + b;
      FlatJoin(a[1..], b);
    }
  }

  class SendNode {
    const nSendBufferMaxSize: nat
    var vSendMsg: seq<seq<Byte>>
    var nSendOffset: nat
    var nSendSize: int
    var fPauseSend: bool
    var socketOpen: bool
    var wire: seq<Byte>      // what the socket has accepted so far

    /** The size field is the total of the queued buffers, and sending is paused exactly above the limit. */
    ghost predicate Valid()
      reads this
    {
      && (forall k :: 0 <= k < |vSendMsg| ==> vSendMsg[k] != [])
      && (if vSendMsg == [] then nSendOffset == 0 else nSendOffset < |vSendMsg[0]|)
      && nSendSize == Total(vSendMsg)
      && (fPauseSend <==> nSendSize > nSendBufferMaxSize)
    }

    /** Everything ever queued: what the socket took, and what is still to go. */
    ghost function Accepted(): seq<Byte>
      requires Valid()
      reads this
    {
      wire + Rest(vSendMsg, nSendOffset)
    }

    constructor (nSendBufferMaxSize: nat)
      ensures Valid() && Accepted() == [] && wire == [] && socketOpen
    {
      this.nSendBufferMaxSize := nSendBufferMaxSize;
      vSendMsg, nSendOffset, nSendSize, fPauseSend, socketOpen, wire := [], 0, 0, false, true, [];
    }

    /** Sends as much as the socket takes. Each outcome is what one call of send reports: bytes taken,
        zero, or negative for an error (below -1: a fatal one); when they run out, send would block.
        The buffers sent as a whole, all of them, are those before the first outcome that is too small. */
    method SocketSendData(outcomes: seq<int>) returns (nSentSize: nat, ghost whole: nat)
      requires Valid()
      modifies this
      ensures Valid() && Accepted() == old(Accepted())
      ensures old(wire) <= wire && |wire| == |old(wire)| + nSentSize
      ensures whole <= |old(vSendMsg)| && vSendMsg == old(vSendMsg)[whole..]
      ensures forall k :: 0 <= k < whole ==> Taken(outcomes, k) >= Left(old(vSendMsg), old(nSendOffset), k)
      ensures !old(socketOpen) ==> whole == nSentSize == 0
      ensures old(socketOpen) && whole == |old(vSendMsg)| ==>
        nSentSize == LeftTotal(old(vSendMsg), old(nSendOffset), whole)
      ensures old(socketOpen) && whole < |old(vSendMsg)| ==>
        && Taken(outcomes, whole) < Left(old(vSendMsg), old(nSendOffset), whole)
        && nSentSize == LeftTotal(old(vSendMsg), old(nSendOffset), whole) + Taken(outcomes, whole)
      ensures socketOpen <==> old(socketOpen) && !(whole < |old(vSendMsg)| && Fatal(outcomes, whole))
    {
      hide Flat, Total, Rest, LeftTotal, SentWhole;
      var it, calls := 0, 0;
      nSentSize := 0;
      ghost var queue, offset, all := vSendMsg, nSendOffset, Accepted();
      NothingSent(queue, offset, outcomes);
      while it < |vSendMsg|
        invariant 0 <= it == calls <= |queue| && vSendMsg == queue && socketOpen == old(socketOpen)
        invariant nSendOffset == if it == 0 then offset else 0
        invariant nSendSize == Total(queue[it..]) && (fPauseSend <==> nSendSize > nSendBufferMaxSize)
        invariant SentWhole(queue, offset, outcomes, it) && (it > 0 ==> socketOpen)
        invariant wire + Rest(queue[it..], nSendOffset) == all
        invariant old(wire) <= wire && |wire| == |old(wire)| + nSentSize
        invariant nSentSize == LeftTotal(queue, offset, it)
        decreases |vSendMsg| - it
      {
        var data := vSendMsg[it];
        if !socketOpen {
          break;
        }
        var left := |data| - nSendOffset;
        var nBytes := if calls >= |outcomes| then -1 else if outcomes[calls] > left then left else outcomes[calls];
        calls := calls + 1;
        SendStep(queue, offset, outcomes, it, wire, if nBytes > 0 then nBytes else 0);
        if nBytes > 0 {
          wire := wire + data[nSendOffset..nSendOffset + nBytes];
          nSendOffset := nSendOffset + nBytes;
          nSentSize := nSentSize + nBytes;
          if nSendOffset == |data| {
            nSendOffset := 0;
            nSendSize := nSendSize - |data|;
            fPauseSend := nSendSize > nSendBufferMaxSize;
            it := it + 1;
          } else {
            break;
          }
        } else {
          if nBytes < -1 {
            socketOpen := false;
          }
          break;
        }
      }
      SentWholeSays(queue, offset, outcomes, it);
      vSendMsg := vSendMsg[it..];
      whole := it;
    }

    /** Queues a message: its header, and its data unless empty. */
    method PushMessage(codec: Codec, m: Message, checksum: seq<Byte> -> nat, outcomes: seq<int>)
      requires Valid() && RoundTrips(codec)
      modifies this
      ensures Valid() && Accepted() == old(Accepted()) + codec.encode(HeaderOf(m, checksum)) + m.data
      ensures old(wire) <= wire && (old(vSendMsg) != [] ==> wire == old(wire))
      ensures old(socketOpen) && Harmless(outcomes) ==> socketOpen
      ensures old(vSendMsg) == [] && old(socketOpen) ==>
        (Taken(outcomes, 0) >= HEADER_SIZE && Taken(outcomes, 1) >= |m.data| ==> vSendMsg == [])
    {
      hide Flat, Total, Rest, RoundTrips, HeaderOf, LeftTotal;
      CodecAt(codec, HeaderOf(m, checksum));
      var serializedHeader := codec.encode(HeaderOf(m, checksum));
      var nTotalSize := |m.data| + HEADER_SIZE;
      var optimisticSend := vSendMsg == [];
      nSendSize := nSendSize + nTotalSize;
      if nSendSize > nSendBufferMaxSize {
        fPauseSend := true;
      }
      ghost var before := vSendMsg;
      PushStep(before, nSendOffset, serializedHeader);
      vSendMsg := vSendMsg + [serializedHeader];
      if |m.data| > 0 {
        PushStep(vSendMsg, nSendOffset, m.data);
        vSendMsg := vSendMsg + [m.data];
      }
      ghost var rest := Rest(before, nSendOffset);
      assert wire + (rest + serializedHeader + m.data) == wire + rest + serializedHeader + m.data;
      assert m.data == [] ==> rest + serializedHeader + m.data == rest + serializedHeader;
      if optimisticSend {
        var _, _ := SocketSendData(outcomes);
      }
    }
  }

  /** What the call for buffer k takes at most, and whether it ends the connection. */
  function Taken(outcomes: seq<int>, k: nat): nat { if k < |outcomes| && outcomes[k] > 0 then outcomes[k] else 0 }

  predicate Harmless(outcomes: seq<int>) { forall k :: 0 <= k < |outcomes| ==> outcomes[k] >= -1 }

  predicate Fatal(outcomes: seq<int>, k: nat) { k < |outcomes| && outcomes[k] < -1 }

  /** What is left of buffer k to send, the first one having been sent up to an offset. */
  function Left(buffers: seq<seq<Byte>>, offset: nat, k: nat): int
    requires k < |buffers|
  {
    |buffers[k]| - if k == 0 then offset else 0
  }

  /** What is left of the first n buffers together. */
  function LeftTotal(buffers: seq<seq<Byte>>, offset: nat, n: nat): int
    requires n <= |buffers|
  {
    if n == 0 then 0 else LeftTotal(buffers, offset, n - 1) + Left(buffers, offset, n - 1)
  }

  /** What is left of a queue whose first buffer has been sent up to an offset. */
  function Rest(buffers: seq<seq<Byte>>, offset: nat): seq<Byte>
    requires if buffers == [] then offset == 0 else offset <= |buffers[0]|
  {
    if buffers == [] then [] else buffers[0][offset..] + Flat(buffers[1..])
  }

  /** The calls so far have taken the first buffers as a whole. */
  ghost predicate SentWhole(queue: seq<seq<Byte>>, offset: nat, outcomes: seq<int>, it: nat)
    requires it <= |queue|
  {
    forall k :: 0 <= k < it ==> Taken(outcomes, k) >= Left(queue, offset, k)
  }

  lemma NothingSent(queue: seq<seq<Byte>>, offset: nat, outcomes: seq<int>)
    ensures SentWhole(queue, offset, outcomes, 0) && queue[0..] == queue && LeftTotal(queue, offset, 0) == 0
  {
    assert queue[0..] == queue;
  }

  /** One call of send, taking n bytes. */
  lemma SendStep(queue: seq<seq<Byte>>, offset: nat, outcomes: seq<int>, it: nat, wire: seq<Byte>, n: nat)
    requires it < |queue| && SentWhole(queue, offset, outcomes, it) && forall k :: 0 <= k < |queue| ==> queue[k] != []
    requires n <= Left(queue, offset, it) && (it == 0 ==> offset <= |queue[0]|)
    ensures LeftTotal(queue, offset, it + 1) == LeftTotal(queue, offset, it) + Left(queue, offset, it)
    ensures Taken(outcomes, it) >= Left(queue, offset, it) ==> SentWhole(queue, offset, outcomes, it + 1)
    ensures var from := if it == 0 then offset else 0;
      var more := wire + queue[it][from..from + n];
      && more + Rest(queue[it..], from + n) == wire + Rest(queue[it..], from)
      && (n == Left(queue, offset, it) ==> more + Rest(queue[it + 1..], 0) == wire + Rest(queue[it..], from))
    ensures Total(queue[it..]) == |queue[it]| + Total(queue[it + 1..])
  {
    hide Flat;
    var from := if it == 0 then offset else 0;
    var d, tail := queue[it], Flat(queue[it + 1..]);
    assert queue[it..][1..] == queue[it + 1..];
    JoinSlice(wire, d, from, n, tail);
    RestFlat(queue[it + 1..]);
    if from + n == |d| { assert d[from + n..] + tail == tail; }
  }

  lemma JoinSlice(wire: seq<Byte>, d: seq<Byte>, from: nat, n: nat, tail: seq<Byte>)
    requires from + n <= |d|
    ensures (wire + d[from..from + n]) + (d[from + n..] + tail) == wire + (d[from..] + tail)
  {
  }

  lemma RestFlat(buffers: seq<seq<Byte>>)
    ensures Rest(buffers, 0) == Flat(buffers)
  {
    if buffers != [] { assert buffers[0][0..] == buffers[0]; }
  }

  lemma SentWholeSays(queue: seq<seq<Byte>>, offset: nat, outcomes: seq<int>, it: nat)
    requires it <= |queue| && SentWhole(queue, offset, outcomes, it)
    ensures forall k :: 0 <= k < it ==> Taken(outcomes, k) >= Left(queue, offset, k)
  {
  }

  lemma PushStep(buffers: seq<seq<Byte>>, offset: nat, data: seq<Byte>)
    requires if buffers == [] then offset == 0 else offset < |buffers[0]|
    requires data != []
    ensures Rest(buffers + [data], offset) == Rest(buffers, offset) + data
    ensures Total(buffers + [data]) == Total(buffers) + |data|
  {
    hide Flat, Total;
    FlatJoin(buffers, [data]);
    FlatOne(data);
    if buffers == [] {
      assert buffers + [data] == [data];
      RestFlat([data]);
    } else {
      assert (buffers + [data])[1..] == buffers[1..] + [data];
      FlatJoin(buffers[1..], [data]);
      JoinEnd(buffers[0][offset..], Flat(buffers[1..]), data);
    }
  }

  lemma FlatOne(data: seq<Byte>)
    ensures Flat([data]) == data && Total([data]) == |data|
  {
    assert Flat([data]) == data + Flat([]);
  }

  lemma JoinEnd(a: seq<Byte>, b: seq<Byte>, c: seq<Byte>)
    ensures a + (b + c) == (a + b) + c
  {
  }

  // ----- the receiver -----

  predicate SizesOk(v: seq<NetMessage>)
  {
    forall k :: 0 <= k < |v| && v[k].inData ==> v[k].hdr.size <= MAX_PROTOCOL_MESSAGE_LENGTH
  }

  class RecvNode {
    var vRecvMsg: seq<NetMessage>

    constructor ()
      ensures vRecvMsg == []
    {
      vRecvMsg := [];
    }

    /** Copies header bytes; at 24 of them the header is decoded. A negative count refuses it. */
    static method ReadHeader(codec: Codec, msg: NetMessage, pch: seq<Byte>) returns (handled: int, r: NetMessage)
      requires msg.Valid() && !msg.inData && pch != []
      ensures var n := if |pch| < HEADER_SIZE - |msg.hdrBuf| then |pch| else HEADER_SIZE - |msg.hdrBuf|;
              var got := msg.(hdrBuf := msg.hdrBuf + pch[..n]);
              match HeaderDone(codec, got)
              case None => handled < 0 && r == got
              case Some(next) => handled == n && r == next
    {
      var nRemaining := HEADER_SIZE - |msg.hdrBuf|;
      var nCopy := if nRemaining < |pch| then nRemaining else |pch|;
      r := msg.(hdrBuf := msg.hdrBuf + pch[..nCopy]);
      if |r.hdrBuf| < HEADER_SIZE {
        return nCopy, r;
      }
      match codec.decode(r.hdrBuf)
      case None => return -1, r;
      case Some(h) =>
        if h.size > MAX_SIZE {
          return -1, r;
        }
        return nCopy, r.(inData := true, hdr := h);
    }

    static method ReadData(msg: NetMessage, pch: seq<Byte>) returns (handled: nat, r: NetMessage)
      requires msg.Valid() && msg.inData && !msg.Complete() && pch != []
      ensures 0 < handled <= |pch| && |msg.data| + handled <= msg.hdr.size
      ensures handled == |pch| || |msg.data| + handled == msg.hdr.size
      ensures r == msg.(data := msg.data + pch[..handled])
    {
      var nRemaining := msg.hdr.size - |msg.data|;
      var nCopy := if nRemaining < |pch| then nRemaining else |pch|;
      return nCopy, msg.(data := msg.data + pch[..nCopy]);
    }

    /** Takes a chunk of any size. The outcome is that of feeding the same bytes one at a time. */
    method ReceiveMsgBytes(codec: Codec, pch: seq<Byte>) returns (ok: bool, complete: bool)
      requires ValidList(vRecvMsg) && SizesOk(vRecvMsg)
      modifies this
      ensures Fed(vRecvMsg, ok) == Feed(codec, Fed(old(vRecvMsg), true), pch)
      ensures ok ==> ValidList(vRecvMsg) && SizesOk(vRecvMsg)
      ensures complete <==> |Completed(vRecvMsg)| > |Completed(old(vRecvMsg))|
    {
      hide Feed, ValidList, SizesOk, HeaderDone, Completed, Opened;
      complete := false;
      ghost var before := |Completed(vRecvMsg)|;
      ghost var result := Feed(codec, Fed(vRecvMsg, true), pch);
      var rest := pch;
      while |rest| > 0
        invariant ValidList(vRecvMsg) && Feed(codec, Fed(vRecvMsg, true), rest) == result
        invariant SizesOk(vRecvMsg)
        invariant |Completed(vRecvMsg)| >= before && (complete <==> |Completed(vRecvMsg)| > before)
        decreases |rest|
      {
        FeedFrom(codec, vRecvMsg, rest);
        OpenedList(vRecvMsg);
        OpenedCompleted(vRecvMsg);
        if vRecvMsg == [] || vRecvMsg[|vRecvMsg| - 1].Complete() {
          vRecvMsg := vRecvMsg + [NEW_MESSAGE];
        }
        var last := |vRecvMsg| - 1;
        var msg := vRecvMsg[last];
        var handled;
        var next;
        if !msg.inData {
          handled, next := ReadHeader(codec, msg, rest);
        } else {
          handled, next := ReadData(msg, rest);
        }
        ReadStep(codec, vRecvMsg, rest, handled, next);
        vRecvMsg := vRecvMsg[last := next];
        if handled < 0 {
          return false, complete;
        }
        if next.inData && next.hdr.size > MAX_PROTOCOL_MESSAGE_LENGTH {
          return false, complete;
        }
        rest := rest[handled..];
        if next.Complete() {
          complete := true;
        }
      }
      FeedNothing(codec, Fed(vRecvMsg, true));
      assert rest == [];
      ok := true;
    }
  }

  lemma OpenedList(v: seq<NetMessage>)
    requires ValidList(v) && SizesOk(v)
    ensures ValidList(Opened(v)) && SizesOk(Opened(v))
    ensures Opened(v) == if v == [] || v[|v| - 1].Complete() then v + [NEW_MESSAGE] else v
    ensures var msg := Opened(v)[|Opened(v)| - 1];
            msg.Valid() && !msg.Complete() && (msg.inData ==> msg.hdr.size <= MAX_PROTOCOL_MESSAGE_LENGTH)
  {
  }

  lemma OpenedCompleted(v: seq<NetMessage>)
    ensures Completed(Opened(v)) == Completed(v)
  {
    if v == [] || v[|v| - 1].Complete() { assert (v + [NEW_MESSAGE])[..|v|] == v; }
  }

  /** The message being worked on is the only one whose completion can change. */
  lemma OneMore(v: seq<NetMessage>, next: NetMessage)
    requires v != [] && !v[|v| - 1].Complete()
    ensures |Completed(v[|v| - 1 := next])| == |Completed(v)| + if next.Complete() then 1 else 0
  {
  }

  lemma NextList(v: seq<NetMessage>, next: NetMessage)
    requires ValidList(v) && SizesOk(v) && v != []
    ensures next.Valid() && (next.inData ==> next.hdr.size <= MAX_PROTOCOL_MESSAGE_LENGTH) ==>
              ValidList(v[|v| - 1 := next]) && SizesOk(v[|v| - 1 := next])
  {
  }

  lemma FeedFrom(codec: Codec, v: seq<NetMessage>, bytes: seq<Byte>)
    requires bytes != []
    ensures Feed(codec, Fed(v, true), bytes) == Feed(codec, Fed(Opened(v), true), bytes)
  {
    assert Opened(Opened(v)) == Opened(v);
  }

  /** What one read makes of a message. */
  ghost predicate Absorbs(codec: Codec, msg: NetMessage, bytes: seq<Byte>, handled: int, next: NetMessage)
    requires msg.Valid()
  {
    if !msg.inData then
      var n := if |bytes| < HEADER_SIZE - |msg.hdrBuf| then |bytes| else HEADER_SIZE - |msg.hdrBuf|;
      var got := msg.(hdrBuf := msg.hdrBuf + bytes[..n]);
      match HeaderDone(codec, got)
      case None => handled < 0 && next == got
      case Some(m) => handled == n && next == m
    else
      && 0 < handled <= |bytes| && |msg.data| + handled <= msg.hdr.size
      && next == msg.(data := msg.data + bytes[..handled])
  }

  /** One read, seen from the whole list. */
  lemma ReadStep(codec: Codec, v: seq<NetMessage>, bytes: seq<Byte>, handled: int, next: NetMessage)
    requires ValidList(v) && SizesOk(v) && v != [] && bytes != []
    requires var msg := v[|v| - 1];
      msg.Valid() && !msg.Complete() && (msg.inData ==> msg.hdr.size <= MAX_PROTOCOL_MESSAGE_LENGTH)
    requires Absorbs(codec, v[|v| - 1], bytes, handled, next)
    ensures var bad := handled < 0 || (next.inData && next.hdr.size > MAX_PROTOCOL_MESSAGE_LENGTH);
      var w := v[|v| - 1 := next];
      && (bad ==> Feed(codec, Fed(v, true), bytes) == Fed(w, false) && |Completed(w)| == |Completed(v)|)
      && (!bad ==>
            && 0 < handled <= |bytes| && ValidList(w) && SizesOk(w)
            && Feed(codec, Fed(v, true), bytes) == Feed(codec, Fed(w, true), bytes[handled..])
            && |Completed(w)| == |Completed(v)| + (if next.Complete() then 1 else 0))
  {
    hide Feed, ValidList, SizesOk, Absorbs, Completed;
    var front, msg := v[..|v| - 1], v[|v| - 1];
    assert v == front + [msg] && v[|v| - 1 := next] == front + [next];
    AbsorbStep(codec, front, msg, bytes, handled, next);
    NextList(v, next);
    OneMore(v, next);
  }

  /** One read absorbs bytes as the reference parser does. */
  lemma AbsorbStep(codec: Codec, front: seq<NetMessage>, msg: NetMessage, bytes: seq<Byte>, handled: int,
                   next: NetMessage)
    requires msg.Valid() && !msg.Complete() && bytes != []
    requires (msg.inData ==> msg.hdr.size <= MAX_PROTOCOL_MESSAGE_LENGTH)
    requires Absorbs(codec, msg, bytes, handled, next)
    ensures var bad := handled < 0 || (next.inData && next.hdr.size > MAX_PROTOCOL_MESSAGE_LENGTH);
            && (bad ==> Feed(codec, Fed(front + [msg], true), bytes) == Fed(front + [next], false))
            && (bad ==> !next.Complete())
            && (!bad ==> 0 < handled <= |bytes| && next.Valid())
            && (!bad ==>
                  Feed(codec, Fed(front + [msg], true), bytes) ==
                  Feed(codec, Fed(front + [next], true), bytes[handled..]))
  {
    hide Feed;
    if msg.inData {
      FeedData(codec, front, msg, bytes[..handled]);
      assert bytes == bytes[..handled] + bytes[handled..];
      FeedJoin(codec, Fed(front + [msg], true), bytes[..handled], bytes[handled..]);
    } else {
      var n := if |bytes| < HEADER_SIZE - |msg.hdrBuf| then |bytes| else HEADER_SIZE - |msg.hdrBuf|;
      assert bytes == bytes[..n] + bytes[n..];
      FeedJoin(codec, Fed(front + [msg], true), bytes[..n], bytes[n..]);
      if |msg.hdrBuf| + n < HEADER_SIZE {
        FeedHeaderPart(codec, front, msg, bytes[..n]);
      } else {
        FeedHeaderEnd(codec, front, msg, bytes[..n]);
        FeedStoppedIf(codec, Feed(codec, Fed(front + [msg], true), bytes[..n]), bytes[n..]);
      }
    }
  }

  lemma FeedStoppedIf(codec: Codec, f: Fed, bytes: seq<Byte>)
    ensures !f.ok ==> Feed(codec, f, bytes) == f
  {
  }

  // ----- runs of a connection -----

  datatype Op =
    | Push(m: Message, outcomes: seq<int>)
    | Send(outcomes: seq<int>)
    | Deliver(n: nat)

  function Pushed(ops: seq<Op>): seq<Message>
  {
    if ops == [] then []
    else Pushed(ops[..|ops| - 1]) + (if ops[|ops| - 1].Push? then [ops[|ops| - 1].m] else [])
  }

  /** Both ends, and how much of the wire has been delivered. */
  class Link {
    const codec: Codec
    const checksum: seq<Byte> -> nat
    const s: SendNode
    const r: RecvNode
    var ok: bool
    var delivered: nat

    /** The sender has accepted the stream of what was pushed; the receiver is where the reference
        parser is after the delivered part of it. */
    ghost predicate Valid(pushed: seq<Message>)
      reads this, s, r
    {
      && s.Valid()
      && s.Accepted() == Stream(codec, pushed, checksum)
      && (forall k :: 0 <= k < |pushed| ==> Encodable(pushed[k]))
      && delivered <= |s.wire|
      && Fed(r.vRecvMsg, ok) == Feed(codec, Fed([], true), s.wire[..delivered])
      && (ok ==> ValidList(r.vRecvMsg) && SizesOk(r.vRecvMsg))
    }

    constructor (codec: Codec, checksum: seq<Byte> -> nat, nSendBufferMaxSize: nat)
      ensures Valid([]) && fresh(s) && fresh(r) && this.codec == codec && this.checksum == checksum && s.socketOpen
    {
      this.codec, this.checksum, ok, delivered := codec, checksum, true, 0;
      s := new SendNode(nSendBufferMaxSize);
      r := new RecvNode();
      new;
      FeedNothing(codec, Fed([], true));
      StreamEmpty(codec, checksum);
      assert s.wire[..0] == [];
    }

    lemma CompletedArePushed(pushed: seq<Message>)
      requires Valid(pushed) && RoundTrips(codec)
      ensures Matches(codec, Completed(r.vRecvMsg), pushed, checksum)
    {
      hide Feed, Stream, Matches, Completed, RoundTrips, Rest;
      assert s.wire[..delivered] <= s.wire <= s.Accepted();
      PrefixParses(codec, pushed, checksum, s.wire[..delivered]);
    }

    /** With the queue empty, everything delivered and no message too large, all that was pushed is there. */
    lemma AllArrived(pushed: seq<Message>)
      requires Valid(pushed) && RoundTrips(codec) && s.vSendMsg == [] && (ok ==> delivered == |s.wire|)
      requires NoneTooLarge(pushed)
      ensures ok && |Completed(r.vRecvMsg)| == |pushed| && Matches(codec, Completed(r.vRecvMsg), pushed, checksum)
    {
      hide Feed, Stream, Matches, RoundTrips, Completed, ValidList, SizesOk;
      CompletedArePushed(pushed);
      AllParse(codec, pushed, checksum);
      assert s.wire + [] == s.wire;
      WholeWire(codec, s.wire, delivered, Fed(r.vRecvMsg, ok));
      assert ok && s.wire[..delivered] == s.wire;
      AllComplete(codec, r.vRecvMsg, pushed, checksum);
    }

    method Push(m: Message, outcomes: seq<int>, ghost pushed: seq<Message>)
      requires Valid(pushed) && RoundTrips(codec) && Encodable(m)
      modifies s
      ensures Valid(pushed + [m]) && (old(s.socketOpen) && Harmless(outcomes) ==> s.socketOpen)
    {
      hide Feed, Stream, RoundTrips, ValidList, SizesOk;
      ghost var wire := s.wire;
      StreamPush(codec, pushed, m, checksum);
      s.PushMessage(codec, m, checksum, outcomes);
      assert s.wire[..delivered] == wire[..delivered];
    }

    method Send(outcomes: seq<int>, ghost pushed: seq<Message>)
      requires Valid(pushed)
      modifies s
      ensures Valid(pushed) && (old(s.socketOpen) && Harmless(outcomes) ==> s.socketOpen)
      ensures old(s.socketOpen) && Takes(outcomes, old(s.vSendMsg)) ==> s.vSendMsg == []
    {
      hide Feed, Stream, ValidList, SizesOk, LeftTotal;
      ghost var wire := s.wire;
      var _, _ := s.SocketSendData(outcomes);
      assert s.wire[..delivered] == wire[..delivered];
    }

    method Deliver(n: nat, ghost pushed: seq<Message>)
      requires Valid(pushed)
      modifies this, r
      ensures Valid(pushed)
      ensures old(ok) ==> delivered == if old(delivered) + n < |s.wire| then old(delivered) + n else |s.wire|
      ensures !old(ok) ==> !ok && delivered == old(delivered)
    {
      hide Feed, Stream, ValidList, SizesOk;
      if ok {
        var upto := if delivered + n < |s.wire| then delivered + n else |s.wire|;
        var chunk := s.wire[delivered..upto];
        FeedJoin(codec, Fed([], true), s.wire[..delivered], chunk);
        assert s.wire[..delivered] + chunk == s.wire[..upto];
        var accepted, _ := r.ReceiveMsgBytes(codec, chunk);
        ok, delivered := accepted, upto;
      }
    }
  }

  /** Whoever stopped early has also stopped at the end. */
  lemma WholeWire(codec: Codec, wire: seq<Byte>, n: nat, f: Fed)
    requires n <= |wire| && f == Feed(codec, Fed([], true), wire[..n])
    ensures !f.ok ==> Feed(codec, Fed([], true), wire) == f
  {
    hide Feed;
    assert wire == wire[..n] + wire[n..];
    FeedJoin(codec, Fed([], true), wire[..n], wire[n..]);
    FeedStoppedIf(codec, f, wire[n..]);
  }

  lemma AllComplete(codec: Codec, v: seq<NetMessage>, ms: seq<Message>, checksum: seq<Byte> -> nat)
    requires |v| == |ms| && forall k :: 0 <= k < |ms| ==> Encodable(ms[k])
    requires forall k :: 0 <= k < |ms| ==> v[k] == Received(codec, ms[k], checksum)
    ensures |Completed(v)| == |ms|
  {
    hide Received;
    if |ms| > 0 { ReceivedSays(codec, ms[|ms| - 1], checksum); }
  }

  /** A socket that takes every buffer of the queue as a whole. */
  predicate Takes(outcomes: seq<int>, buffers: seq<seq<Byte>>)
  {
    forall k :: 0 <= k < |buffers| ==> Taken(outcomes, k) >= |buffers[k]|
  }

  /** One call of send for each buffer, taking as much as there is. */
  function Plenty(buffers: seq<seq<Byte>>): (outcomes: seq<int>)
    ensures Takes(outcomes, buffers) && Harmless(outcomes)
  {
    seq(|buffers|, k requires 0 <= k < |buffers| => |buffers[k]|)
  }

  predicate NoneTooLarge(ms: seq<Message>)
  {
    forall k :: 0 <= k < |ms| ==> |ms[k].data| <= MAX_PROTOCOL_MESSAGE_LENGTH
  }

  /** No call of send reports a fatal error. */
  predicate Unbroken(ops: seq<Op>) { forall k :: 0 <= k < |ops| && !ops[k].Deliver? ==> Harmless(ops[k].outcomes) }

  /** After any run, the messages the receiver has completed are the first of those pushed. If the connection
      was never broken and no message is too large, then sending and delivering the rest completes them all. */
  method Run(codec: Codec, checksum: seq<Byte> -> nat, nSendBufferMaxSize: nat, ops: seq<Op>)
      returns (v: seq<NetMessage>, atLast: seq<NetMessage>)
    requires RoundTrips(codec) && forall k :: 0 <= k < |ops| && ops[k].Push? ==> Encodable(ops[k].m)
    ensures Matches(codec, Completed(v), Pushed(ops), checksum)
    ensures Matches(codec, Completed(atLast), Pushed(ops), checksum)
    ensures Unbroken(ops) && NoneTooLarge(Pushed(ops)) ==> |Completed(atLast)| == |Pushed(ops)|
  {
    hide Feed, Stream, Matches, Completed, RoundTrips, Pushed, ValidList, SizesOk, Rest, Total;
    var link := new Link(codec, checksum, nSendBufferMaxSize);
    var k := 0;
    PushedNothing(ops);
    while k < |ops|
      invariant 0 <= k <= |ops| && fresh(link) && fresh(link.s) && fresh(link.r)
      invariant link.codec == codec && link.checksum == checksum && link.Valid(Pushed(ops[..k]))
      invariant Unbroken(ops) ==> link.s.socketOpen
    {
      PushedStep(ops, k);
      match ops[k] {
        case Push(m, outcomes) => link.Push(m, outcomes, Pushed(ops[..k]));
        case Send(outcomes) => link.Send(outcomes, Pushed(ops[..k]));
        case Deliver(n) => link.Deliver(n, Pushed(ops[..k]));
      }
      k := k + 1;
    }
    assert ops[..k] == ops;
    v := link.r.vRecvMsg;
    link.CompletedArePushed(Pushed(ops));
    link.Send(Plenty(link.s.vSendMsg), Pushed(ops));
    link.Deliver(|link.s.wire|, Pushed(ops));
    atLast := link.r.vRecvMsg;
    link.CompletedArePushed(Pushed(ops));
    if Unbroken(ops) && NoneTooLarge(Pushed(ops)) {
      link.AllArrived(Pushed(ops));
    }
  }

  lemma PushedNothing(ops: seq<Op>)
    ensures Pushed(ops[..0]) == []
  {
  }

  lemma PushedStep(ops: seq<Op>, k: nat)
    requires k < |ops|
    ensures Pushed(ops[..k + 1]) == if ops[k].Push? then Pushed(ops[..k]) + [ops[k].m] else Pushed(ops[..k])
  {
    assert ops[..k + 1][..k] == ops[..k];
    assert Pushed(ops[..k]) + [] == Pushed(ops[..k]);
  }

  lemma StreamEmpty(codec: Codec, checksum: seq<Byte> -> nat)
    ensures Stream(codec, [], checksum) == []
  {
  }

  lemma StreamPush(codec: Codec, ms: seq<Message>, m: Message, checksum: seq<Byte> -> nat)
    ensures Stream(codec, ms + [m], checksum) == Stream(codec, ms,
        checksum) + codec.encode(HeaderOf(m, checksum)) + m.data
  {
    StreamJoin(codec, ms, [m], checksum);
    assert Stream(codec, [m], checksum) == codec.encode(HeaderOf(m, checksum)) + m.data + Stream(codec, [], checksum);
    var a, e := Stream(codec, ms, checksum), codec.encode(HeaderOf(m, checksum));
    assert a + (e + m.data + []) == a + e + m.data;
  }
}
