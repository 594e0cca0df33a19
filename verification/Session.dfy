/** The session object: its receive buffers, read handlers and send queue, updated in place. */
module SessionLayer {
  import opened Sequences
  import opened Wrappers
  import opened Bytes
  import opened Wire
  import opened Reader
  import Sender

  const MAX_SEND_QUEUE_LEN := 1024

  /** The two fields of a complete header, as `PraseHead` reads them out of the buffer. */
  method ReadHeader(host: Endian, head: MsgNode) returns (h: Head)
    requires head.data.Length == HEAD_TOTAL_LEN + 1
    ensures h == ParseHead(head.data[..HEAD_TOTAL_LEN])
  {
    HostOrder(host, head.data[..2]);
    HostOrder(host, head.data[2..4]);
    var msgId := SwapShort(host, FromMemory(host, head.data[..HEAD_ID_LEN]));
    var validDataLen := SwapShort(host, FromMemory(host, head.data[HEAD_ID_LEN..HEAD_TOTAL_LEN]));
    if msgId > MAX_ID || validDataLen > MAX_LEN {
      return Rejected;
    }
    h := Accepted(msgId, validDataLen);
  }

  /** The receiving half, in either build: the handlers and the coroutine work on the same fields and
      differ in what they make of an empty body. The `MsgNode` references are the node numbers of the
      octet machine, in allocation order. */
  class Receiver {
    const host: Endian
    const build: Build
    const recvHeadNode: MsgNode
    var recvMsgNode: MsgNode?
    var phase: Phase
    var transferred: nat      // octets the pending read has stored
    var posted: seq<MsgNode>  // ever handed to the logic system
    ghost var nodes: seq<MsgNode>
    ghost var model: State

    ghost function Footprint(): set<object>
      reads this
    {
      {this, recvHeadNode.data} + set n <- nodes :: n.data
    }

    /** The buffer of every allocated node agrees with the model as far as it has been written. */
    ghost predicate NodesAgree()
      reads this, set n <- nodes :: n.data
    {
      && |nodes| == |model.nodes|
      && (forall i :: 0 <= i < |nodes| ==>
            && nodes[i].totalLen == model.nodes[i].len && nodes[i].msgId == model.nodes[i].id
            && nodes[i].data.Length == nodes[i].totalLen + 1
            && nodes[i].data != recvHeadNode.data
            && model.nodes[i].bytes <= nodes[i].data[..nodes[i].totalLen])
      && (forall i, j :: 0 <= i < j < |nodes| ==> nodes[i].data != nodes[j].data)
    }

    /** Everything but the pending read. */
    ghost predicate Settled()
      reads Footprint()
    {
      && recvHeadNode.totalLen == HEAD_TOTAL_LEN && recvHeadNode.data.Length == HEAD_TOTAL_LEN + 1
      && |model.head| < HEAD_TOTAL_LEN && NodesAgree()
      && (model.current.Some? ==> model.current.value < |model.nodes|)
      && (recvMsgNode == null <==> model.current == None)
      && (recvMsgNode != null ==> recvMsgNode == nodes[model.current.value])
      && |posted| == |model.posted|
      && (forall i :: 0 <= i < |posted| ==>
            && model.posted[i] < |nodes| && posted[i] == nodes[model.posted[i]]
            && posted[i].data[posted[i].totalLen] == 0)
    }

    ghost predicate Valid()
      reads Footprint()
    {
      && Settled() && Good(model)
      && phase == model.phase
      && (phase == ReadHead ==> transferred == |model.head| && recvHeadNode.data[..transferred] == model.head)
      && (phase == ReadBody ==> transferred == model.filled)
    }

    constructor (host: Endian, build: Build)
      ensures Valid() && this.build == build && model == INIT && posted == [] && fresh(Footprint())
    {
      var head := new MsgNode.Recv(HEAD_TOTAL_LEN, -1);
      this.host, this.build, recvHeadNode, recvMsgNode := host, build, head, null;
      phase, transferred, posted := ReadHead, 0, [];
      nodes, model := [], INIT;
    }

    /** `PraseMsg` and the rest of `HandlerReadMsg`: terminate the body, post the node, await a header. */
    method HandlerReadMsg()
      requires Settled() && recvMsgNode != null && |Current(model).bytes| == recvMsgNode.totalLen
      modifies Footprint()
      ensures Valid() && nodes == old(nodes) && model == PostMsg(old(model))
      ensures recvMsgNode == old(recvMsgNode) && posted == old(posted) + [recvMsgNode]
      ensures recvMsgNode.data[..] == old(recvMsgNode.data[..recvMsgNode.totalLen]) + [0]
    {
      recvMsgNode.data[recvMsgNode.totalLen] := 0;
      posted := posted + [recvMsgNode];
      phase, transferred := ReadHead, 0;
      model := PostMsg(model);
    }

    /** The read of the body is started. One of no octets completes at once: the handler posts the empty
        message, the coroutine takes the count 0 for a disconnect and returns. */
    method ReadMsg()
      requires Settled() && recvMsgNode != null
      modifies Footprint()
      ensures Valid() && nodes == old(nodes) && model == StartBody(build, old(model))
    {
      if recvMsgNode.totalLen > 0 {
        AwaitBody();
      } else if build == Callback {
        HandlerReadMsg();
      } else {
        Disconnect();
      }
    }

    method AwaitBody()
      requires Settled() && recvMsgNode != null && recvMsgNode.totalLen > 0
      modifies this`phase, this`transferred, this`model
      ensures Valid() && model == StartBody(build, old(model))
    {
      phase, transferred := ReadBody, 0;
      model := StartBody(build, model);
    }

    method Disconnect()
      requires Settled() && recvMsgNode != null && recvMsgNode.totalLen == 0 && build == Coroutine
      modifies this`phase, this`model
      ensures Valid() && model == StartBody(build, old(model))
    {
      phase := Closed;
      model := StartBody(build, model);
    }

    /** A fresh node for the body announced by an accepted header. */
    method NewNode(id: Short, len: Short)
      requires Settled() && len >= 0
      modifies this
      ensures Settled() && recvMsgNode != null && fresh(Footprint() - old(Footprint()))
      ensures model == Allocated(old(model), id, len)
    {
      var node := new MsgNode.Recv(len, id);
      recvMsgNode := node;
      nodes := nodes + [node];
      model := Allocated(model, id, len);
    }

    /** A header that leads to no usable node: a null pointer, or a negative length. */
    method Fail()
      requires Settled() && Good(model)
      modifies this`phase, this`model
      ensures Valid() && model == old(model).(phase := Fault, head := [])
    {
      phase := Fault;
      model := model.(phase := Fault, head := []);
    }

    /** A rejected header: the old node is filled again. */
    method KeepNode()
      requires Settled() && recvMsgNode != null
      modifies this`model
      ensures Settled() && model == old(model).(reused := old(model).reused + 1)
    {
      model := model.(reused := model.reused + 1);
    }

    /** An accepted header with a length that can be allocated. */
    method OnAccepted(id: Short, len: Short)
      requires Settled() && len >= 0
      modifies Footprint()
      ensures Valid() && fresh(Footprint() - old(Footprint()))
      ensures model == StartBody(build, Allocated(old(model), id, len))
    {
      hide Settled, NodesAgree, Valid, StartBody;
      NewNode(id, len);
      ReadMsg();
    }

    /** An accepted header with a negative length. */
    method OnNegative(len: Short)
      requires Settled() && Good(model) && len < 0
      modifies this`phase, this`model
      ensures Valid()
      ensures model == old(model).(phase := if CaughtLength(build, len) then Closed else Fault, head := [])
    {
      hide Settled, NodesAgree;
      if CaughtLength(build, len) {
        Abandon();
      } else {
        Fail();
      }
    }

    /** The exception ends the coroutine. */
    method Abandon()
      requires Settled() && Good(model)
      modifies this`phase, this`model
      ensures Valid() && model == old(model).(phase := Closed, head := [])
    {
      phase := Closed;
      model := model.(phase := Closed, head := []);
    }

    /** A rejected header: the old node is filled again, if there is one. */
    method OnRejected()
      requires Settled() && Good(model)
      modifies Footprint()
      ensures Valid() && nodes == old(nodes)
      ensures model == if old(model).current == None then old(model).(phase := Fault, head := [])
                       else StartBody(build, old(model).(reused := old(model).reused + 1))
    {
      assert recvMsgNode == null <==> model.current == None;
      hide Settled, NodesAgree, Valid, StartBody;
      if recvMsgNode == null {
        Fail();
      } else {
        KeepNode();
        ReadMsg();
      }
    }

    /** `HandlerReadHead` with `PraseHead`: allocate a node, or keep the old one if the header is bad. */
    method HandlerReadHead()
      requires Settled() && Good(model) && phase == ReadHead == model.phase
      modifies Footprint()
      ensures Valid() && fresh(Footprint() - old(Footprint()))
      ensures model == OnHead(build, old(model), old(recvHeadNode.data[..HEAD_TOTAL_LEN]))
    {
      assert recvHeadNode.data.Length == HEAD_TOTAL_LEN + 1;
      hide Settled, NodesAgree, Valid, StartBody, ParseHead, Good, CaughtLength;
      var h := ReadHeader(host, recvHeadNode);
      if h == Rejected {
        OnRejected();
      } else if h.len < 0 {
        OnNegative(h.len);
      } else {
        OnAccepted(h.id, h.len);
      }
    }

    method OnHeadOctet(b: Byte)
      requires Valid() && phase == ReadHead
      modifies Footprint()
      ensures Valid() && fresh(Footprint() - old(Footprint()))
      ensures model == OnByte(build, old(model), b)
    {
      StoreHeadOctet(b);
      hide Settled, NodesAgree, OnHead;
      if transferred + 1 < HEAD_TOTAL_LEN {
        AwaitHeadOctet(b);
      } else {
        HandlerReadHead();
      }
    }

    method StoreHeadOctet(b: Byte)
      requires Valid() && phase == ReadHead
      modifies recvHeadNode.data
      ensures Settled() && transferred < HEAD_TOTAL_LEN && recvHeadNode.data[..transferred + 1] == model.head + [b]
    {
      recvHeadNode.data[transferred] := b;
    }

    method AwaitHeadOctet(b: Byte)
      requires Settled() && Good(model) && phase == ReadHead == model.phase && transferred + 1 < HEAD_TOTAL_LEN
      requires recvHeadNode.data.Length > transferred + 1 && recvHeadNode.data[..transferred + 1] == model.head + [b]
      modifies this`transferred, this`model
      ensures Valid() && model == old(model).(head := old(model).head + [b])
    {
      transferred := transferred + 1;
      model := model.(head := model.head + [b]);
    }

    /** The octet goes into the buffer of the current node. */
    method StoreOctet(b: Byte)
      requires Valid() && phase == ReadBody
      modifies recvMsgNode.data, this`model
      ensures Settled() && model == Stored(old(model), b)
    {
      recvMsgNode.data[transferred] := b;
      model := Stored(model, b);
    }

    method OnBodyOctet(b: Byte)
      requires Valid() && phase == ReadBody
      modifies Footprint()
      ensures Valid() && nodes == old(nodes)
      ensures model == OnByte(build, old(model), b)
    {
      assert |Current(model).bytes| <= recvMsgNode.totalLen == Current(model).len;
      StoreOctet(b);
      hide Settled, NodesAgree, PostMsg;
      if transferred + 1 < recvMsgNode.totalLen {
        AwaitBodyOctet();
      } else {
        HandlerReadMsg();
      }
    }

    method AwaitBodyOctet()
      requires Settled() && phase == ReadBody == model.phase && transferred == model.filled && model.current.Some?
      requires transferred + 1 < Current(model).len && transferred + 1 <= |Current(model).bytes| <= Current(model).len
      modifies this`transferred, this`model
      ensures Valid() && model == old(model).(filled := transferred) && transferred == old(transferred) + 1
    {
      transferred := transferred + 1;
      model := model.(filled := transferred);
    }

    /** One octet arrives for the pending read. */
    method OnOctet(b: Byte)
      requires Valid()
      modifies Footprint()
      ensures Valid() && fresh(Footprint() - old(Footprint()))
      ensures model == OnByte(build, old(model), b)
    {
      match phase {
        case ReadHead => OnHeadOctet(b);
        case ReadBody => OnBodyOctet(b);
        case Closed =>
        case Fault =>
      }
    }

    /** While no header was rejected: the posted nodes are distinct objects, none of them is being
        filled, and each still holds the octets it was posted with, and the terminator. */
    lemma PostedNodesAreDistinct()
      requires Valid() && Aliasing(build, model) && model.reused == 0
      ensures forall i, j :: 0 <= i < j < |posted| ==> posted[i] != posted[j] && posted[i].data != posted[j].data
      ensures forall i :: 0 <= i < |posted| ==> posted[i].data != recvHeadNode.data
      ensures phase == ReadBody ==> recvMsgNode !in posted
      ensures |model.history| == |posted| && forall i :: 0 <= i < |posted| ==>
        posted[i].msgId == model.history[i].id && posted[i].data[..] == model.history[i].body + [0]
    {
      forall i, j | 0 <= i < j < |posted|
        ensures posted[i] != posted[j] && posted[i].data != posted[j].data
      {
        assert model.posted[i] != model.posted[j];
        assert posted[i] == nodes[model.posted[i]] && posted[j] == nodes[model.posted[j]];
      }
      if phase == ReadBody {
        assert forall i :: 0 <= i < |posted| ==> model.posted[i] != model.current.value;
      }
      forall i | 0 <= i < |posted|
        ensures posted[i].msgId == model.history[i].id && posted[i].data[..] == model.history[i].body + [0]
      {
        var node, seen := nodes[model.posted[i]], model.nodes[model.posted[i]];
        assert node.data[..] == node.data[..node.totalLen] + [0];
        assert seen.bytes == node.data[..node.totalLen];
      }
    }

    /** One delivery of the socket, of any length. */
    method Deliver(chunk: seq<Byte>)
      requires Valid()
      modifies Footprint()
      ensures Valid() && fresh(Footprint() - old(Footprint()))
      ensures model == Feed(build, old(model), chunk)
    {
      hide OnByte;
      for i := 0 to |chunk|
        invariant Valid() && fresh(Footprint() - old(Footprint()))
        invariant Feed(build, model, chunk[i..]) == Feed(build, old(model), chunk)
      {
        OnOctet(chunk[i]);
        assert chunk[i..][1..] == chunk[i + 1..];
      }
    }
  }

  /** The sending half: `_sendQueue`, and the writes Asio has been handed. */
  class SendQueue {
    const host: Endian
    var sendQueue: seq<MsgNode>
    var writing: seq<MsgNode>
    ghost var model: Sender.State<seq<Byte>>

    ghost predicate Holds(nodes: seq<MsgNode>, octets: seq<seq<Byte>>)
      reads set n <- nodes :: n.data
    {
      && |nodes| == |octets|
      && forall i :: 0 <= i < |nodes| ==>
        0 <= nodes[i].totalLen <= nodes[i].data.Length && nodes[i].data[..nodes[i].totalLen] == octets[i]
    }

    ghost predicate Valid()
      reads this, set n <- sendQueue :: n.data, set n <- writing :: n.data
    {
      Holds(sendQueue, model.queue) && Holds(writing, model.writing)
        && Sender.Inv(Sender.Session(MAX_SEND_QUEUE_LEN), model)
    }

    constructor (host: Endian)
      ensures Valid() && model == Sender.Empty<seq<Byte>>()
    {
      this.host, sendQueue, writing, model := host, [], [], Sender.Empty<seq<Byte>>();
    }

    /** What a send does to the queue: the frame goes through it. Where no node can be built, a full
        queue still drops the message; otherwise nothing is claimed of the process after the call. */
    twostate predicate Sent(msg: seq<Byte>, msgId: Short, built: bool)
      reads this
    {
      match SendFrame(msg, msgId)
      case Some(frame) => built && model == Sender.SessionSend(1024, old(model), frame)
      case None => model == old(model) && (built <==> |model.queue| >= 1024)
    }

    /** `Session::Send`. `built` is false where building the node is not defined. */
    method Send(msg: seq<Byte>, msgId: Short) returns (built: bool)
      requires Valid()
      modifies this
      ensures Valid() && Sent(msg, msgId, built)
    {
      var pending := sendQueue != [];
      if |sendQueue| >= MAX_SEND_QUEUE_LEN {
        Refuse(msg, msgId);
        return true;
      }
      var node := NewSendNode(host, msg, msgId);
      if node == null {
        return false;
      }
      Push(node, pending);
      built := true;
    }

    /** The message is dropped; only the record of what was refused changes. */
    ghost method Refuse(msg: seq<Byte>, msgId: Short)
      requires Valid() && |sendQueue| >= MAX_SEND_QUEUE_LEN
      modifies this`model
      ensures Valid() && Sent(msg, msgId, true)
    {
      match SendFrame(msg, msgId) {
        case None =>
        case Some(frame) =>
          Sender.InvStep(Sender.Session(MAX_SEND_QUEUE_LEN), model, Sender.Event<seq<Byte>>.Send(frame));
          model := Sender.SessionSend(MAX_SEND_QUEUE_LEN, model, frame);
      }
    }

    /** The node joins the queue, and is written at once if it is alone there. */
    method Push(node: MsgNode, pending: bool)
      requires Valid() && |sendQueue| < MAX_SEND_QUEUE_LEN && (pending <==> sendQueue != [])
      requires 0 <= node.totalLen <= node.data.Length
      modifies this
      ensures Valid()
      ensures model == Sender.SessionSend(MAX_SEND_QUEUE_LEN, old(model), node.data[..node.totalLen])
    {
      ghost var frame := node.data[..node.totalLen];
      Sender.InvStep(Sender.Session(MAX_SEND_QUEUE_LEN), model, Sender.Event<seq<Byte>>.Send(frame));
      model := Sender.SessionSend(MAX_SEND_QUEUE_LEN, model, frame);
      sendQueue := sendQueue + [node];
      if !pending {
        writing := writing + [sendQueue[0]];
      }
    }

    /** `HandlerWrite` for the i-th outstanding write; an error comes with the octets already sent. */
    method HandlerWrite(i: nat, ec: Option<nat>)
      requires Valid() && i < |writing|
      modifies this
      ensures Valid() && Some(model) == Sender.Complete(old(model), i, ec)
    {
      var kind := Sender.Session(MAX_SEND_QUEUE_LEN);
      Sender.InvStep(kind, model,
                     if ec.Some? then Sender.Event<seq<Byte>>.Failed(i, ec.value) else Sender.Event<seq<Byte>>.Done(i));
      model := Sender.Complete(model, i, ec).value;
      writing := writing[..i] + writing[i + 1..];
      if ec.Some? {
        return;
      }
      sendQueue := sendQueue[1..];
      if sendQueue != [] {
        writing := writing + [sendQueue[0]];
      }
    }
  }

  /** `HelloWorldCallback`: the reply to a node's octets goes out under the node's id, and the progress
      mark of the header buffer is reset. `reply` stands for the JSON work. */
  method HelloWorldCallback(session: SendQueue, head: MsgNode, recvMsgNode: MsgNode, reply: Message -> seq<Byte>)
    returns (built: bool)
    requires session.Valid() && 0 <= recvMsgNode.totalLen <= recvMsgNode.data.Length
    modifies session, head
    ensures session.Valid()
    ensures var m := Message(recvMsgNode.msgId, recvMsgNode.data[..recvMsgNode.totalLen]);
      session.Sent(reply(m), m.id, built)
    ensures built ==> head.curLen == 0
  {
    var m := Message(recvMsgNode.msgId, recvMsgNode.data[..recvMsgNode.totalLen]);
    built := session.Send(reply(m), m.id);
    if built {
      head.Clear();
    }
  }

  lemma FirstNodeIs(prev: Option<Shape>, s: seq<Byte>, head: seq<Byte>)
    requires |s| >= HEAD_TOTAL_LEN && head == s[..HEAD_TOTAL_LEN]
    ensures var target := Target(prev, head);
      FirstNode(Coroutine, prev, s) ==
        if target.None? || |s| < HEAD_TOTAL_LEN + target.value.len || target.value.len == 0 then None else target
  {
  }

  /** The shape a node pointer stands for. */
  ghost function NodeShape(node: MsgNode?): (shape: Option<Shape>)
    requires node != null ==> node.totalLen >= 0
  {
    if node == null then None else Some(Shape(node.msgId, node.totalLen))
  }

  /** The part of the loop up to the body read: the node to fill, or null where the loop ends. */
  method CoroutineHead(host: Endian, head: MsgNode, node: MsgNode?, octets: seq<Byte>) returns (next: MsgNode?)
    requires head.data.Length == HEAD_TOTAL_LEN + 1 && |octets| == HEAD_TOTAL_LEN
    requires node != null ==> 0 <= node.totalLen && node.data.Length == node.totalLen + 1
    modifies head.data
    ensures next != null ==> 0 <= next.totalLen && next.data.Length == next.totalLen + 1
    ensures next != null && next != node ==> fresh(next.data)
    ensures NodeShape(next) == Target(NodeShape(node), octets)
  {
    Memcpy(head.data, 0, octets);
    assert head.data[..HEAD_TOTAL_LEN] == octets;
    var h := ReadHeader(host, head);
    if h == Rejected {
      return node;
    }
    if h.len < 0 {
      return null;
    }
    next := new MsgNode.Recv(h.len, h.id);
  }

  /** The body read of the coroutine and the terminator `PraseMsg` adds. */
  method FillBody(node: MsgNode, body: seq<Byte>)
    requires node.totalLen == |body| && node.data.Length == |body| + 1
    modifies node.data
    ensures node.data[..node.totalLen] == body
  {
    Memcpy(node.data, 0, body);
    node.data[node.totalLen] := 0;
  }

  /** The messages the loop has still to post: it stands at `pos` with this node in hand. */
  ghost function StillToPost(node: MsgNode?, stream: seq<Byte>, pos: nat): seq<Message>
    requires pos <= |stream| && (node != null ==> node.totalLen >= 0)
  {
    Parse(Coroutine, NodeShape(node), stream[pos..])
  }

  /** Where the loop posts: the header leads to a node with a body, and the body is there. */
  lemma TurnPosts(stream: seq<Byte>, pos: nat, prev: Option<Shape>, node: Shape, octets: seq<Byte>, body: seq<Byte>)
    requires var at, next := pos + HEAD_TOTAL_LEN, pos + HEAD_TOTAL_LEN + node.len;
      next <= |stream| && octets == stream[pos..at] && body == stream[at..next]
    requires Target(prev, octets) == Some(node) && node.len > 0
    ensures Parse(Coroutine, prev, stream[pos..])
      == [Message(node.id, body)] + Parse(Coroutine, Some(node), stream[pos + HEAD_TOTAL_LEN + node.len..])
  {
    hide Parse, Target, FirstNode;
    var rest, next := stream[pos..], pos + HEAD_TOTAL_LEN + node.len;
    FrontFrom(stream, pos, HEAD_TOTAL_LEN);
    SliceFrom(stream, pos, HEAD_TOTAL_LEN, HEAD_TOTAL_LEN + node.len);
    PostsFirst(prev, rest, node, octets, body, stream[next..]);
  }

  lemma PostsFirst(prev: Option<Shape>, s: seq<Byte>, node: Shape, octets: seq<Byte>, body: seq<Byte>, tail: seq<Byte>)
    requires var k := HEAD_TOTAL_LEN + node.len;
      k <= |s| && octets == s[..HEAD_TOTAL_LEN] && body == s[HEAD_TOTAL_LEN..k] && tail == s[k..]
    requires Target(prev, octets) == Some(node) && node.len > 0
    ensures Parse(Coroutine, prev, s) == [Message(node.id, body)] + Parse(Coroutine, Some(node), tail)
  {
    FirstNodeIs(prev, s, octets);
    ParseStep(Coroutine, prev, s, node, Message(node.id, body), Parse(Coroutine, Some(node), tail));
  }

  /** Where the loop ends: no header, no node, no body, or an empty one. */
  lemma TurnEnds(stream: seq<Byte>, pos: nat, prev: Option<Shape>)
    requires pos <= |stream|
    requires pos + HEAD_TOTAL_LEN <= |stream| ==>
      var target := Target(prev, stream[pos..pos + HEAD_TOTAL_LEN]);
      target.None? || |stream| < pos + HEAD_TOTAL_LEN + target.value.len || target.value.len == 0
    ensures Parse(Coroutine, prev, stream[pos..]) == []
  {
    if pos + HEAD_TOTAL_LEN <= |stream| {
      FrontFrom(stream, pos, HEAD_TOTAL_LEN);
      FirstNodeIs(prev, stream[pos..], stream[pos..pos + HEAD_TOTAL_LEN]);
    }
  }

  lemma FrontFrom<T>(s: seq<T>, pos: nat, k: nat)
    requires pos + k <= |s|
    ensures s[pos..][..k] == s[pos..pos + k]
  {
  }

  lemma SliceFrom<T>(s: seq<T>, pos: nat, i: nat, j: nat)
    requires i <= j && pos + j <= |s|
    ensures s[pos..][i..j] == s[pos + i..pos + j] && s[pos..][j..] == s[pos + j..]
  {
  }

  /** One turn of the loop: the message it posts, or None where the loop ends. */
  method CoroutineTurn(host: Endian, head: MsgNode, node: MsgNode?, stream: seq<Byte>, pos: nat)
    returns (next: MsgNode?, posted: Option<Message>)
    requires head.data.Length == HEAD_TOTAL_LEN + 1 && pos <= |stream|
    requires node != null ==> 0 <= node.totalLen && node.data.Length == node.totalLen + 1
    modifies head.data, if node == null then {} else {node.data}
    ensures next != null ==> 0 <= next.totalLen && next.data.Length == next.totalLen + 1
    ensures next != null && next != node ==> fresh(next.data)
    ensures posted == None ==> StillToPost(node, stream, pos) == []
    ensures posted.Some? ==> next != null && pos + HEAD_TOTAL_LEN + next.totalLen <= |stream|
    ensures posted.Some? ==>
      StillToPost(node, stream, pos) == [posted.value] + StillToPost(next, stream, pos + HEAD_TOTAL_LEN + next.totalLen)
  {
    hide Parse, Target;
    if |stream| - pos < HEAD_TOTAL_LEN {
      TurnEnds(stream, pos, NodeShape(node));
      return node, None;
    }
    var at := pos + HEAD_TOTAL_LEN;
    var octets := stream[pos..at];
    next := CoroutineHead(host, head, node, octets);
    if next == null || |stream| - at < next.totalLen || next.totalLen == 0 {
      TurnEnds(stream, pos, NodeShape(node));
      return next, None;
    }
    var body := stream[at..at + next.totalLen];
    FillBody(next, body);
    posted := Some(Message(next.msgId, next.data[..next.totalLen]));
    TurnPosts(stream, pos, NodeShape(node), NodeShape(next).value, octets, body);
  }

  /** The coroutine build of `Start`, on everything its socket will ever deliver; the end of the
      stream is the exception that ends the loop. */
  method CoroutineLoop(host: Endian, stream: seq<Byte>) returns (posted: seq<Message>)
    ensures posted == Parse(Coroutine, None, stream)
  {
    hide Parse;
    var recvHeadNode := new MsgNode.Recv(HEAD_TOTAL_LEN, -1);
    var recvMsgNode: MsgNode? := null;
    var pos := 0;
    posted := [];
    ghost var all, left := Parse(Coroutine, None, stream), StillToPost(null, stream, 0);
    assert stream[0..] == stream;
    while true
      invariant pos <= |stream| && recvHeadNode.data.Length == HEAD_TOTAL_LEN + 1 && fresh(recvHeadNode.data)
      invariant recvMsgNode != null ==>
        fresh(recvMsgNode.data) && 0 <= recvMsgNode.totalLen && recvMsgNode.data.Length == recvMsgNode.totalLen + 1
      invariant left == StillToPost(recvMsgNode, stream, pos) && posted + left == all
      decreases |stream| - pos
    {
      var next, m := CoroutineTurn(host, recvHeadNode, recvMsgNode, stream, pos);
      if m == None {
        return;
      }
      recvMsgNode := next;
      pos := pos + HEAD_TOTAL_LEN + recvMsgNode.totalLen;
      left := StillToPost(recvMsgNode, stream, pos);
      Associates(posted, [m.value], left);
      posted := posted + [m.value];
    }
  }
}

/** The WebSocket connection's sender, which queues strings and has no cap. */
module WebSocketLayer {
  import opened Wrappers
  import Sender

  class Connection {
    var sendQueue: seq<string>
    var writing: seq<string>
    ghost var model: Sender.State<string>

    ghost predicate Valid()
      reads this
    {
      sendQueue == model.queue && writing == model.writing && Sender.Inv(Sender.WebSocket, model)
    }

    constructor ()
      ensures Valid() && model == Sender.Empty<string>()
    {
      sendQueue, writing, model := [], [], Sender.Empty<string>();
    }

    method AsyncSend(message: string)
      requires Valid()
      modifies this
      ensures Valid() && model == Sender.WebSocketSend(old(model), message)
    {
      Sender.InvStep(Sender.WebSocket, model, Sender.Event<string>.Send(message));
      model := Sender.WebSocketSend(model, message);
      sendQueue := sendQueue + [message];
      if |sendQueue| > 1 {
        return;
      }
      StartWrite(message);
    }

    /** The part of `SendCallback` that starts a write. */
    method StartWrite(message: string)
      modifies this`writing
      ensures writing == old(writing) + [message]
    {
      writing := writing + [message];
    }

    /** The handler inside `SendCallback`. */
    method OnWritten(i: nat, ec: Option<nat>)
      requires Valid() && i < |writing|
      modifies this
      ensures Valid() && Some(model) == Sender.Complete(old(model), i, ec)
    {
      Sender.InvStep(Sender.WebSocket, model,
                     if ec.Some? then Sender.Event<string>.Failed(i, ec.value) else Sender.Event<string>.Done(i));
      model := Sender.Complete(model, i, ec).value;
      writing := writing[..i] + writing[i + 1..];
      if ec.Some? {
        return;
      }
      sendQueue := sendQueue[1..];
      if sendQueue != [] {
        StartWrite(sendQueue[0]);
      }
    }
  }
}
