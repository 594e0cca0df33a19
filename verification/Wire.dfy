/** The message nodes of the session layer and the frame they put on the wire. */
module Wire {
  import opened Wrappers
  import opened Bytes

  const HEAD_ID_LEN := 2
  const HEAD_DATA_LEN := 2
  const HEAD_TOTAL_LEN := HEAD_ID_LEN + HEAD_DATA_LEN
  const MAX_ID := 1024 * 10
  const MAX_LEN := 1024 * 2

  /** The longest body whose length, with the header added, is still a `short`. */
  const MAX_SENDABLE := 0x7FFF - HEAD_TOTAL_LEN

  datatype Message = Message(id: Short, body: seq<Byte>)

  /** The frame a message stands for: id, length and body, both numbers high octet first. */
  function Frame(m: Message): seq<Byte>
  {
    BigEndian(m.id) + BigEndian(ToShort(|m.body|)) + m.body
  }

  function Frames(ms: seq<Message>): seq<Byte>
  {
    if ms == [] then [] else Frame(ms[0]) + Frames(ms[1..])
  }

  lemma Parts(id: seq<Byte>, len: seq<Byte>, body: seq<Byte>, rest: seq<Byte>)
    requires |id| == |len| == 2
    ensures var s := id + len + body + rest;
      s[0] == id[0] && s[1] == id[1] && s[2] == len[0] && s[3] == len[1] && s[4..] == body + rest
  {
  }

  /** The numbers and the octets a reader finds at the front of a frame. */
  lemma FrameParts(m: Message, rest: seq<Byte>, s: seq<Byte>)
    requires |m.body| <= MAX_SENDABLE && s == Frame(m) + rest
    ensures |s| >= HEAD_TOTAL_LEN && s[HEAD_TOTAL_LEN..] == m.body + rest
    ensures ToShort(Pair(s[0], s[1])) == m.id && ToShort(Pair(s[2], s[3])) == |m.body|
  {
    var n := ToShort(|m.body|);
    var id, len := BigEndian(m.id), BigEndian(n);
    Parts(id, len, m.body, rest);
    BigEndianPairs(m.id, id);
    BigEndianPairs(n, len);
    SmallShort(|m.body|);
  }

  /** The frame octet by octet, a negative id as two's complement; 1001 is the id of a test message. */
  lemma FrameSpelledOut(m: Message)
    requires |m.body| <= 32763
    ensures var id := if m.id < 0 then m.id + 65536 else m.id;
      Frame(m) == [id / 256, id % 256, |m.body| / 256, |m.body| % 256] + m.body
    ensures Frame(Message(1001, m.body))[..2] == [0x03, 0xE9]
  {
    SmallShort(|m.body|);
  }

  ghost predicate Sendable(ms: seq<Message>)
  {
    forall i :: 0 <= i < |ms| ==> |ms[i].body| <= MAX_SENDABLE
  }

  lemma {:induction false} FramesConcat(xs: seq<Message>, ys: seq<Message>)
    ensures Frames(xs + ys) == Frames(xs) + Frames(ys)
  {
    if xs == [] {
      assert xs + ys == ys;
    } else {
      assert (xs + ys)[1..] == xs[1..] + ys;
      FramesConcat(xs[1..], ys);
    }
  }

  /** What `Session::Send` hands to `async_write`, or None when building the node is not defined:
      the length is narrowed to `short` once by the `SendNode` parameter and again, four larger,
      by the `MsgNode` parameter, and a negative value of either reaches `new` or `memcpy`. */
  function SendFrame(msg: seq<Byte>, id: Short): Option<seq<Byte>>
  {
    var n := ToShort(|msg|);
    var total := ToShort(n + HEAD_TOTAL_LEN);
    if n < 0 || total < 0 then None
    else Some(BigEndian(id) + BigEndian(n) + msg[..n])
  }

  /** The frame carries the whole message exactly when the length and the header fit a `short`. */
  lemma SendFrameIsFaithful(m: Message)
    ensures SendFrame(m.body, m.id) == Some(Frame(m)) <==> |m.body| <= 32763
  {
    assert m.body[..|m.body|] == m.body;
    if |m.body| > MAX_SENDABLE && SendFrame(m.body, m.id).Some? {
      var n := ToShort(|m.body|);
      assert n < |m.body|;
      assert |SendFrame(m.body, m.id).value| == 4 + n && |Frame(m)| == 4 + |m.body|;
    }
  }

  /** The message a send puts on the wire: the octets that the first narrowing of the length leaves. */
  function Narrowed(m: Message): Message
  {
    var n := ToShort(|m.body|);
    Message(m.id, if n < 0 then [] else m.body[..n])
  }

  /** Building the node is defined. */
  predicate Framable(m: Message)
  {
    SendFrame(m.body, m.id).Some?
  }

  /** What a send puts on the wire is always a well-formed frame, that of the narrowed message. */
  lemma SendFrameIsFrame(m: Message)
    requires Framable(m)
    ensures SendFrame(m.body, m.id) == Some(Frame(Narrowed(m))) && |Narrowed(m).body| <= MAX_SENDABLE
  {
    var n := ToShort(|m.body|);
    SmallShort(n);
    assert |m.body[..n]| == n;
  }

  /** Nothing is lost exactly from messages whose length and header fit a `short`. */
  lemma NarrowedIsWhole(m: Message)
    ensures Framable(m) && Narrowed(m) == m <==> |m.body| <= 32763
  {
    assert m.body[..|m.body|] == m.body;
    if |m.body| > MAX_SENDABLE && Framable(m) {
      SendFrameIsFrame(m);
    }
  }

  /** The messages a list of sends puts on the wire. */
  function AllNarrowed(ms: seq<Message>): (sent: seq<Message>)
    ensures |sent| == |ms|
  {
    seq(|ms|, k requires 0 <= k < |ms| => Narrowed(ms[k]))
  }

  lemma AllNarrowedAreSendable(ms: seq<Message>)
    requires forall k :: 0 <= k < |ms| ==> Framable(ms[k])
    ensures Sendable(AllNarrowed(ms))
  {
    forall k | 0 <= k < |ms|
      ensures |AllNarrowed(ms)[k].body| <= MAX_SENDABLE
    {
      SendFrameIsFrame(ms[k]);
    }
  }

  lemma FittingAreWhole(ms: seq<Message>)
    requires Sendable(ms)
    ensures AllNarrowed(ms) == ms
  {
    forall k | 0 <= k < |ms|
      ensures Narrowed(ms[k]) == ms[k]
    {
      NarrowedIsWhole(ms[k]);
    }
  }

  method Memcpy(dst: array<Byte>, at: nat, src: seq<Byte>)
    requires at + |src| <= dst.Length
    modifies dst
    ensures dst[..] == old(dst[..at]) + src + old(dst[at + |src|..])
  {
    for i := 0 to |src|
      invariant dst[..at] == old(dst[..at]) && dst[at..at + i] == src[..i]
      invariant dst[at + i..] == old(dst[at + i..])
    {
      dst[at + i] := src[i];
    }
    assert dst[..] == dst[..at] + dst[at..at + |src|] + dst[at + |src|..];
  }

  /** A `short` copied into the buffer in network order. */
  method PutShort(host: Endian, dst: array<Byte>, at: nat, x: Short)
    requires at + 2 <= dst.Length
    modifies dst
    ensures dst[..] == old(dst[..at]) + BigEndian(x) + old(dst[at + 2..])
  {
    NetworkOrder(host, x);
    Memcpy(dst, at, InMemory(host, SwapShort(host, x)));
  }

  /** The common part of both encoders: id, length and body copied to the front of the buffer. */
  method PutFrame(host: Endian, dst: array<Byte>, id: Short, body: seq<Byte>)
    requires |body| < 0x8000 && HEAD_TOTAL_LEN + |body| <= dst.Length
    modifies dst
    ensures dst[..HEAD_TOTAL_LEN + |body|] == BigEndian(id) + BigEndian(|body|) + body
    ensures dst[HEAD_TOTAL_LEN + |body|..] == old(dst[HEAD_TOTAL_LEN + |body|..])
  {
    PutShort(host, dst, 0, id);
    PutShort(host, dst, HEAD_ID_LEN, |body|);
    assert dst[..4] == BigEndian(id) + BigEndian(|body|);
    Memcpy(dst, HEAD_TOTAL_LEN, body);
  }

  /** A buffer with one octet to spare for the terminator. */
  class MsgNode {
    var curLen: int
    const totalLen: int
    const msgId: Short
    const data: array<Byte>

    /** `RecvNode`; a negative length, which makes the allocation fail, is the caller's fault path. */
    constructor Recv(totalLen: Short, msgId: Short)
      requires 0 <= totalLen
      ensures this.totalLen == totalLen && this.msgId == msgId && curLen == 0
      ensures fresh(data) && data.Length == totalLen + 1
    {
      this.totalLen, this.msgId, curLen := totalLen, msgId, 0;
      data := new Byte[totalLen + 1];
    }

    /** `SendNode`: header and body are copied into a fresh buffer and terminated. */
    constructor Send(host: Endian, msg: seq<Byte>, bodyLen: Short, msgId: Short)
      requires 0 <= bodyLen <= |msg| && bodyLen + HEAD_TOTAL_LEN < 0x8000
      ensures totalLen == bodyLen + HEAD_TOTAL_LEN && this.msgId == msgId && curLen == 0
      ensures fresh(data) && data.Length == totalLen + 1
      ensures data[..totalLen] == BigEndian(msgId) + BigEndian(bodyLen) + msg[..bodyLen]
      ensures data[totalLen] == 0
    {
      totalLen, this.msgId, curLen := bodyLen + HEAD_TOTAL_LEN, msgId, 0;
      data := new Byte[bodyLen + HEAD_TOTAL_LEN + 1];
      new;
      PutFrame(host, data, msgId, msg[..bodyLen]);
      data[totalLen] := 0;
    }

    method Clear()
      modifies this
      ensures curLen == 0
    {
      curLen := 0;
    }
  }

  /** The allocation in `Session::Send`, with the two narrowing conversions on the way to the node. */
  method NewSendNode(host: Endian, msg: seq<Byte>, id: Short) returns (node: MsgNode?)
    ensures node == null <==> SendFrame(msg, id) == None
    ensures node != null ==> fresh(node) && fresh(node.data) && 0 <= node.totalLen <= node.data.Length
    ensures node != null ==> SendFrame(msg, id) == Some(node.data[..node.totalLen])
  {
    var n := ToShort(|msg|);
    if n < 0 || ToShort(n + HEAD_TOTAL_LEN) < 0 {
      return null;
    }
    node := new MsgNode.Send(host, msg, n, id);
  }
}

/** The command-line client: a second encoder and decoder of the same frame. */
module Client {
  import opened Sequences
  import opened Wrappers
  import opened Bytes
  import opened Wire

  /** The octets `BaseSend` writes, or None when the body does not fit its stack buffer of MAX_LEN. */
  function BaseSendOctets(msg: seq<Byte>, id: Short): Option<seq<Byte>>
  {
    var n := ToShort(|msg|);
    if n < 0 || HEAD_TOTAL_LEN + n > MAX_LEN then None
    else Some(BigEndian(id) + BigEndian(n) + msg[..n])
  }

  method BaseSend(host: Endian, msg: seq<Byte>, id: Short) returns (octets: Option<seq<Byte>>)
    ensures octets == BaseSendOctets(msg, id)
  {
    var requestLen := ToShort(|msg|);
    if requestLen < 0 || HEAD_TOTAL_LEN + requestLen > MAX_LEN {
      return None;
    }
    var sendMsg := new Byte[MAX_LEN](_ => 0);
    PutFrame(host, sendMsg, id, msg[..requestLen]);
    octets := Some(sendMsg[..requestLen + HEAD_TOTAL_LEN]);
  }

  /** The client's encoder makes the server's frame exactly for bodies of up to 2044 octets. */
  lemma BaseSendMatchesSendNode(m: Message)
    ensures BaseSendOctets(m.body, m.id) == Some(Frame(m)) <==> |m.body| <= 2044
    ensures |m.body| <= 2044 ==> BaseSendOctets(m.body, m.id) == SendFrame(m.body, m.id)
  {
    var n := ToShort(|m.body|);
    assert m.body[..|m.body|] == m.body;
    if BaseSendOctets(m.body, m.id).Some? && n < |m.body| {
      assert |BaseSendOctets(m.body, m.id).value| == 4 + n && |Frame(m)| == 4 + |m.body|;
    }
  }

  /** A blocking read of one reply: the message and what stays on the wire, or None when the wire
      runs dry or the length does not fit the receive buffer of MAX_LEN. */
  function ReadReply(wire: seq<Byte>): Option<(Message, seq<Byte>)>
  {
    if |wire| < HEAD_TOTAL_LEN then None else
    var id := ToShort(Pair(wire[0], wire[1]));
    var n := ToShort(Pair(wire[2], wire[3]));
    if n < 0 || n > MAX_LEN || |wire| < HEAD_TOTAL_LEN + n then None
    else Some((Message(id, wire[4..4 + n]), wire[4 + n..]))
  }

  /** `testRecv`. */
  method TestRecv(host: Endian, wire: seq<Byte>) returns (r: Option<(Message, seq<Byte>)>)
    ensures r == ReadReply(wire)
  {
    if |wire| < HEAD_TOTAL_LEN {
      return None;
    }
    var receiveHead := new Byte[HEAD_TOTAL_LEN](_ => 0);
    Memcpy(receiveHead, 0, wire[..HEAD_TOTAL_LEN]);
    assert receiveHead[..] == wire[..4];
    HostOrder(host, receiveHead[..2]);
    HostOrder(host, receiveHead[2..4]);
    var responseId := SwapShort(host, FromMemory(host, receiveHead[..2]));
    var responseLen := SwapShort(host, FromMemory(host, receiveHead[2..4]));
    if responseLen < 0 || responseLen > MAX_LEN || |wire| < HEAD_TOTAL_LEN + responseLen {
      return None;
    }
    var receiveBuf := new Byte[MAX_LEN](_ => 0);
    Memcpy(receiveBuf, 0, wire[4..4 + responseLen]);
    assert receiveBuf[..responseLen] == wire[4..4 + responseLen];
    r := Some((Message(responseId, receiveBuf[..responseLen]), wire[4 + responseLen..]));
  }

  /** The loop of the receiving thread: up to `count` replies, stopping where one cannot be read. */
  function ReadReplies(wire: seq<Byte>, count: nat): seq<Message>
  {
    if count == 0 then [] else
    match ReadReply(wire)
    case None => []
    case Some((m, rest)) => [m] + ReadReplies(rest, count - 1)
  }

  lemma ReadReplyOfFrame(m: Message, rest: seq<Byte>)
    requires |m.body| <= MAX_SENDABLE
    ensures ReadReply(Frame(m) + rest) == if |m.body| <= 2048 then Some((m, rest)) else None
  {
    var wire := Frame(m) + rest;
    FrameParts(m, rest, wire);
    assert wire[4..4 + |m.body|] == wire[4..][..|m.body|] == m.body;
    assert wire[4 + |m.body|..] == wire[4..][|m.body|..] == rest;
  }

  ghost predicate FitBuffer(ms: seq<Message>)
  {
    forall i :: 0 <= i < |ms| ==> |ms[i].body| <= MAX_LEN
  }

  lemma FitBufferCons(m: Message, ms: seq<Message>)
    ensures FitBuffer([m] + ms) <==> |m.body| <= MAX_LEN && FitBuffer(ms)
  {
    assert ([m] + ms)[0] == m;
    assert forall i :: 0 <= i < |ms| ==> ([m] + ms)[i + 1] == ms[i];
  }

  lemma ReadFirst(m: Message, behind: seq<Byte>, count: nat)
    requires |m.body| <= MAX_SENDABLE
    ensures ReadReplies(Frame(m) + behind, count + 1)
      == if |m.body| <= MAX_LEN then [m] + ReadReplies(behind, count) else []
  {
    ReadReplyOfFrame(m, behind);
  }

  lemma FramesBehind(ms: seq<Message>, rest: seq<Byte>, behind: seq<Byte>)
    requires ms != [] && behind == Frames(ms[1..]) + rest
    ensures Frames(ms) + rest == Frame(ms[0]) + behind
  {
    Associates(Frame(ms[0]), Frames(ms[1..]), rest);
  }

  lemma OneMoreReply(m: Message, tail: seq<Message>, later: seq<Message>)
    requires later == tail <==> FitBuffer(tail)
    ensures var got := if |m.body| <= MAX_LEN then [m] + later else [];
      got == [m] + tail <==> FitBuffer([m] + tail)
  {
    FitBufferCons(m, tail);
    hide FitBuffer;
    ConsPrefix(m, later, tail);
  }

  /** The client reads back exactly the messages that were framed, unless one is longer than its buffer. */
  lemma {:induction false} ClientReadsFrames(ms: seq<Message>, rest: seq<Byte>, wire: seq<Byte>)
    requires Sendable(ms) && wire == Frames(ms) + rest
    ensures ReadReplies(wire, |ms|) == ms <==> FitBuffer(ms)
  {
    if ms == [] {
    } else {
      var m, tail := ms[0], ms[1..];
      var behind := Frames(tail) + rest;
      assert |m.body| <= MAX_SENDABLE && Sendable(tail);
      FramesBehind(ms, rest, behind);
      ClientReadsFrames(tail, rest, behind);
      hide Sendable, Frames, Frame, ReadReplies, FitBuffer;
      ReadFirst(m, behind, |tail|);
      OneMoreReply(m, tail, ReadReplies(behind, |tail|));
      assert ms == [m] + tail;
    }
  }

  lemma OneReplyOrNone(m: Message, tail: seq<Message>, later: seq<Message>)
    requires later <= tail
    ensures (if |m.body| <= MAX_LEN then [m] + later else []) <= [m] + tail
  {
    ConsPrefix(m, later, tail);
  }

  /** Reading stops early or gets everything; it never gets anything else. */
  lemma {:induction false} ReadsPrefix(ms: seq<Message>, rest: seq<Byte>, wire: seq<Byte>)
    requires Sendable(ms) && wire == Frames(ms) + rest
    ensures ReadReplies(wire, |ms|) <= ms
  {
    if ms == [] {
    } else {
      var m, tail := ms[0], ms[1..];
      var behind := Frames(tail) + rest;
      assert |m.body| <= MAX_SENDABLE && Sendable(tail);
      FramesBehind(ms, rest, behind);
      ReadsPrefix(tail, rest, behind);
      hide Sendable, Frames, Frame, ReadReplies;
      ReadFirst(m, behind, |tail|);
      OneReplyOrNone(m, tail, ReadReplies(behind, |tail|));
      assert ms == [m] + tail;
    }
  }

  /** What the client reads of messages of any length that were sent: exactly these messages if and only
      if each of them fits its receive buffer. */
  lemma ClientReadsSends(ms: seq<Message>)
    requires forall k :: 0 <= k < |ms| ==> Framable(ms[k])
    ensures ReadReplies(Frames(AllNarrowed(ms)), |ms|) == ms <==> FitBuffer(ms)
  {
    var sent := AllNarrowed(ms);
    var wire := Frames(sent);
    AllNarrowedAreSendable(ms);
    assert wire + [] == wire;
    ClientReadsFrames(sent, [], wire);
    ReadsPrefix(sent, [], wire);
    if FitBuffer(ms) {
      FittingAreWhole(ms);
    }
  }
}
