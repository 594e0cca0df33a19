/** The receiving half of a session as a machine over single octets, and what it makes of a stream. */
module Reader {
  import opened Sequences
  import opened Wrappers
  import opened Bytes
  import opened Wire

  /** The two builds of `Session::Start`: chained completion handlers, or one coroutine loop. */
  datatype Build = Callback | Coroutine

  datatype Head = Accepted(id: Short, len: Short) | Rejected

  function ParseHead(head: seq<Byte>): Head
    requires |head| == HEAD_TOTAL_LEN
  {
    var id := ToShort(Pair(head[0], head[1]));
    var len := ToShort(Pair(head[2], head[3]));
    if id > MAX_ID || len > MAX_LEN then Rejected else Accepted(id, len)
  }

  /** ReadHead and ReadBody: the buffer the pending read fills. Closed: no further read is started.
      Fault: a null node was dereferenced, or a negative length left no usable buffer; nothing is claimed
      after it. */
  datatype Phase = ReadHead | ReadBody | Closed | Fault

  /** A receive node: `bytes` is the part of its buffer written so far. */
  datatype Node = Node(id: Short, len: nat, bytes: seq<Byte>)

  /** Nodes are numbered in allocation order, so a number stands for an address. `posted` lists the
      nodes ever handed to the logic queue, dispatched since or not, and `history` what each held then. `reused` counts
      the bodies read into an old node because the header before them was rejected. */
  datatype State = State(
    phase: Phase, head: seq<Byte>, filled: nat, current: Option<nat>, nodes: seq<Node>,
    posted: seq<nat>, history: seq<Message>, reused: nat)

  const INIT := State(ReadHead, [], 0, None, [], [], [], 0)

  ghost predicate Good(st: State)
  {
    && |st.head| < HEAD_TOTAL_LEN
    && (st.current.Some? ==> st.current.value < |st.nodes|)
    && (st.phase == ReadBody ==>
          st.current.Some? && st.filled < Current(st).len && st.filled <= |Current(st).bytes| <= Current(st).len)
    && (st.phase == ReadHead && st.current.Some? ==> |Current(st).bytes| == Current(st).len)
  }

  function Current(st: State): Node
    requires st.current.Some? && st.current.value < |st.nodes|
  {
    st.nodes[st.current.value]
  }

  /** `PraseMsg`, then the next header is awaited. */
  function PostMsg(st: State): State
    requires st.current.Some? && st.current.value < |st.nodes|
  {
    st.(phase := ReadHead, head := [],
        posted := st.posted + [st.current.value],
        history := st.history + [Message(Current(st).id, Current(st).bytes)])
  }

  /** The body read is started on the current node. A read of no octets completes at once: the
      handler posts the empty message, the coroutine takes the count 0 for a disconnect. */
  function StartBody(build: Build, st: State): State
    requires st.current.Some? && st.current.value < |st.nodes|
  {
    if Current(st).len > 0 then st.(phase := ReadBody, head := [], filled := 0)
    else if build == Callback then PostMsg(st)
    else st.(phase := Closed, head := [])
  }

  /** A fresh node becomes the current one. */
  function Allocated(st: State, id: Short, len: nat): State
  {
    st.(current := Some(|st.nodes|), nodes := st.nodes + [Node(id, len, [])])
  }

  /** A length of less than -1 makes the allocation throw, which ends the coroutine's loop and nothing
      else. A handler does not catch it; and for -1 the body read gets an absurd size. */
  predicate CaughtLength(build: Build, len: Short)
  {
    build == Coroutine && len < -1
  }

  /** The header is complete. After a rejected one the old node is filled again, if there is one. */
  function OnHead(build: Build, st: State, head: seq<Byte>): State
    requires Good(st) && |head| == HEAD_TOTAL_LEN
  {
    match ParseHead(head)
    case Accepted(id, len) =>
      if len < 0 then st.(phase := if CaughtLength(build, len) then Closed else Fault, head := [])
      else StartBody(build, Allocated(st, id, len))
    case Rejected =>
      if st.current == None then st.(phase := Fault, head := [])
      else StartBody(build, st.(reused := st.reused + 1))
  }

  /** Octet `at` of a buffer of which the first `|bytes|` octets have been written. */
  function Poke(bytes: seq<Byte>, at: nat, b: Byte): seq<Byte>
    requires at <= |bytes|
  {
    if at < |bytes| then bytes[at := b] else bytes + [b]
  }

  /** The octet is written where the pending read of the body stands. */
  function Stored(st: State, b: Byte): State
    requires Good(st) && st.phase == ReadBody
  {
    var node := Current(st);
    st.(nodes := st.nodes[st.current.value := node.(bytes := Poke(node.bytes, st.filled, b))])
  }

  function OnBody(st: State, b: Byte): (next: State)
    requires Good(st) && st.phase == ReadBody
    ensures Good(next)
    ensures st.history <= next.history && |st.nodes| <= |next.nodes| && st.reused <= next.reused
  {
    var stored := Stored(st, b);
    if st.filled + 1 < Current(st).len then stored.(filled := st.filled + 1) else PostMsg(stored)
  }

  function OnByte(build: Build, st: State, b: Byte): (next: State)
    requires Good(st)
    ensures Good(next)
    ensures st.history <= next.history && |st.nodes| <= |next.nodes| && st.reused <= next.reused
  {
    match st.phase
    case ReadHead =>
      if |st.head| + 1 < HEAD_TOTAL_LEN then st.(head := st.head + [b])
      else OnHead(build, st, st.head + [b])
    case ReadBody => OnBody(st, b)
    case Closed => st
    case Fault => st
  }

  /** A run of octets: what one delivery of the socket does to the session. */
  function Feed(build: Build, st: State, s: seq<Byte>): (next: State)
    requires Good(st)
    ensures Good(next) && st.history <= next.history && st.reused <= next.reused
    decreases |s|
  {
    if s == [] then st else Feed(build, OnByte(build, st, s[0]), s[1..])
  }

  function Deliver(build: Build, st: State, chunks: seq<seq<Byte>>): (next: State)
    requires Good(st)
    ensures Good(next)
    decreases |chunks|
  {
    if chunks == [] then st else Deliver(build, Feed(build, st, chunks[0]), chunks[1..])
  }

  lemma {:induction false} FeedConcat(build: Build, st: State, s: seq<Byte>, t: seq<Byte>)
    requires Good(st)
    ensures Feed(build, st, s + t) == Feed(build, Feed(build, st, s), t)
    decreases |s|
  {
    if s == [] {
      assert s + t == t;
    } else {
      assert (s + t)[1..] == s[1..] + t;
      FeedConcat(build, OnByte(build, st, s[0]), s[1..], t);
    }
  }

  /** The session does not see where the stream was cut. */
  lemma {:induction false} CutsDoNotMatter(build: Build, st: State, chunks: seq<seq<Byte>>)
    requires Good(st)
    ensures Deliver(build, st, chunks) == Feed(build, st, Flatten(chunks))
    decreases |chunks|
  {
    if chunks == [] {
    } else {
      FeedConcat(build, st, chunks[0], Flatten(chunks[1..]));
      CutsDoNotMatter(build, Feed(build, st, chunks[0]), chunks[1..]);
    }
  }

  // ---------------------------------------------------------------- the stream, message by message

  /** The id and length of the node a rejected header falls back to. */
  datatype Shape = Shape(id: Short, len: nat)

  function ShapeOf(st: State): Option<Shape>
    requires Good(st)
  {
    if st.current.Some? then Some(Shape(Current(st).id, Current(st).len)) else None
  }

  /** The node the body after this header goes to. */
  function Target(prev: Option<Shape>, head: seq<Byte>): Option<Shape>
    requires |head| == HEAD_TOTAL_LEN
  {
    match ParseHead(head)
    case Accepted(id, len) => if len < 0 then None else Some(Shape(id, len))
    case Rejected => prev
  }

  /** The node of the whole message this build posts first, if the stream starts with one. */
  function FirstNode(build: Build, prev: Option<Shape>, s: seq<Byte>): (first: Option<Shape>)
    ensures first.Some? ==> HEAD_TOTAL_LEN + first.value.len <= |s|
  {
    if |s| < HEAD_TOTAL_LEN then None else
    match Target(prev, s[..HEAD_TOTAL_LEN])
    case None => None
    case Some(node) =>
      if |s| < HEAD_TOTAL_LEN + node.len || (node.len == 0 && build == Coroutine) then None else Some(node)
  }

  /** The messages in a stream: the loop of the source read as a grammar. */
  function Parse(build: Build, prev: Option<Shape>, s: seq<Byte>): seq<Message>
    decreases |s|
  {
    match FirstNode(build, prev, s)
    case None => []
    case Some(node) =>
      var k := HEAD_TOTAL_LEN + node.len;
      [Message(node.id, s[HEAD_TOTAL_LEN..k])] + Parse(build, Some(node), s[k..])
  }

  /** How many bodies this header sends into an old node. */
  function Reuses(head: seq<Byte>): nat
    requires |head| == HEAD_TOTAL_LEN
  {
    if ParseHead(head) == Rejected then 1 else 0
  }

  lemma {:induction false} FeedShortHead(build: Build, st: State, s: seq<Byte>)
    requires Good(st) && st.phase == ReadHead && |st.head| + |s| < HEAD_TOTAL_LEN
    ensures Feed(build, st, s) == st.(head := st.head + s)
    decreases |s|
  {
    if s == [] {
      assert st.head + s == st.head;
    } else {
      FeedShortHead(build, OnByte(build, st, s[0]), s[1..]);
      assert st.head + [s[0]] + s[1..] == st.head + s;
    }
  }

  lemma {:induction false} FeedHead(build: Build, st: State, s: seq<Byte>)
    requires Good(st) && st.phase == ReadHead && st.head == [] && |s| == HEAD_TOTAL_LEN
    ensures Feed(build, st, s) == OnHead(build, st, s)
  {
    FeedConcat(build, st, s[..3], s[3..]);
    assert s == s[..3] + s[3..] && s[..3] + [s[3]] == s;
    FeedShortHead(build, st, s[..3]);
    var st' := Feed(build, st, s[..3]);
    assert st' == st.(head := s[..3]) by { assert st.head + s[..3] == s[..3]; }
    assert s[3..][0] == s[3] && s[3..][1..] == [];
    HeadIsOverwritten(build, st, s[..3], s);
    hide OnHead;
    assert OnByte(build, st', s[3]) == OnHead(build, st', s);
  }

  lemma HeadIsOverwritten(build: Build, st: State, part: seq<Byte>, head: seq<Byte>)
    requires Good(st) && |part| < HEAD_TOTAL_LEN && |head| == HEAD_TOTAL_LEN
    ensures OnHead(build, st.(head := part), head) == OnHead(build, st, head)
  {
  }

  function Overwrite(bytes: seq<Byte>, at: nat, s: seq<Byte>): (r: seq<Byte>)
    requires at <= |bytes|
    ensures at + |s| <= |r| && (at + |s| <= |bytes| ==> |r| == |bytes|) && (at + |s| > |bytes| ==> |r| == at + |s|)
  {
    bytes[..at] + s + if at + |s| < |bytes| then bytes[at + |s|..] else []
  }

  lemma OverwriteConcat(bytes: seq<Byte>, at: nat, s: seq<Byte>, t: seq<Byte>)
    requires at <= |bytes|
    ensures Overwrite(Overwrite(bytes, at, s), at + |s|, t) == Overwrite(bytes, at, s + t)
  {
  }

  lemma PokeOverwrites(bytes: seq<Byte>, at: nat, b: Byte)
    requires at <= |bytes|
    ensures Poke(bytes, at, b) == Overwrite(bytes, at, [b])
  {
  }

  /** The state after some octets of the body that do not complete it. */
  function Filled(st: State, s: seq<Byte>): (next: State)
    requires Good(st) && st.phase == ReadBody && st.filled + |s| < Current(st).len
    ensures Good(next)
  {
    var node := Current(st);
    var bytes := Overwrite(node.bytes, st.filled, s);
    st.(filled := st.filled + |s|, nodes := st.nodes[st.current.value := Node(node.id, node.len, bytes)])
  }

  lemma FilledCons(build: Build, st: State, s: seq<Byte>)
    requires Good(st) && st.phase == ReadBody && st.filled + |s| < Current(st).len && s != []
    ensures Filled(st, [s[0]]) == OnByte(build, st, s[0]) && Filled(Filled(st, [s[0]]), s[1..]) == Filled(st, s)
  {
    PokeOverwrites(Current(st).bytes, st.filled, s[0]);
    OverwriteConcat(Current(st).bytes, st.filled, [s[0]], s[1..]);
    assert [s[0]] + s[1..] == s;
  }

  /** Octets that do not complete the body only overwrite the node from `filled` on. */
  lemma {:induction false} FeedPart(build: Build, st: State, s: seq<Byte>)
    requires Good(st) && st.phase == ReadBody && st.filled + |s| < Current(st).len
    ensures Feed(build, st, s) == Filled(st, s)
    decreases |s|
  {
    if s == [] {
      assert Overwrite(Current(st).bytes, st.filled, s) == Current(st).bytes;
    } else {
      FilledCons(build, st, s);
      FeedPart(build, OnByte(build, st, s[0]), s[1..]);
    }
  }

  /** The state in which the body is complete, just before it is posted. */
  function Complete(st: State, s: seq<Byte>): (read: State)
    requires Good(st) && st.phase == ReadBody && |s| == Current(st).len
    ensures Good(read)
  {
    st.(filled := |s| - 1, nodes := st.nodes[st.current.value := Node(Current(st).id, |s|, s)])
  }

  lemma {:induction false} FeedBody(build: Build, st: State, s: seq<Byte>)
    requires Good(st) && st.phase == ReadBody && st.filled == 0 && |s| == Current(st).len
    ensures Feed(build, st, s) == PostMsg(Complete(st, s))
  {
    var k := |s| - 1;
    FeedConcat(build, st, s[..k], s[k..]);
    assert s == s[..k] + s[k..] && s[k..][0] == s[k] && s[k..][1..] == [];
    FeedPart(build, st, s[..k]);
    FeedLast(build, st, s);
  }

  lemma FeedLast(build: Build, st: State, s: seq<Byte>)
    requires Good(st) && st.phase == ReadBody && st.filled == 0 && |s| == Current(st).len
    ensures OnByte(build, Filled(st, s[..|s| - 1]), s[|s| - 1]) == PostMsg(Complete(st, s))
  {
    LastStored(st, s);
    hide Stored, PostMsg, Complete, Overwrite, OnHead;
  }

  lemma LastStored(st: State, s: seq<Byte>)
    requires Good(st) && st.phase == ReadBody && st.filled == 0 && |s| == Current(st).len
    ensures Stored(Filled(st, s[..|s| - 1]), s[|s| - 1]) == Complete(st, s)
  {
    var node := Current(st);
    LastOctet(node.bytes, s);
    hide Overwrite, Poke;
  }

  lemma LastOctet(bytes: seq<Byte>, s: seq<Byte>)
    requires s != [] && |bytes| <= |s|
    ensures Poke(Overwrite(bytes, 0, s[..|s| - 1]), |s| - 1, s[|s| - 1]) == s
  {
    var k := |s| - 1;
    assert s == s[..k] + [s[k]];
  }

  lemma FeedStopped(build: Build, st: State, s: seq<Byte>)
    requires Good(st) && st.phase in {Closed, Fault}
    ensures Feed(build, st, s) == st
    decreases |s|
  {
  }

  lemma FeedHeadAndBody(build: Build, st: State, head: seq<Byte>, body: seq<Byte>)
    requires Good(st) && st.phase == ReadHead && st.head == [] && |head| == HEAD_TOTAL_LEN
    requires var st1 := OnHead(build, st, head); st1.phase == ReadBody && |body| == Current(st1).len
    ensures Feed(build, st, head + body) == PostMsg(Complete(OnHead(build, st, head), body))
  {
    FeedConcat(build, st, head, body);
    FeedHead(build, st, head);
    FeedBody(build, OnHead(build, st, head), body);
  }

  /** A header and the body it announces put one message on the queue. */
  lemma FeedNode(build: Build, st: State, head: seq<Byte>, body: seq<Byte>, node: Shape) returns (st1: State)
    requires Good(st) && st.phase == ReadHead && st.head == [] && |head| == HEAD_TOTAL_LEN
    requires Target(ShapeOf(st), head) == Some(node) && |body| == node.len && (body == [] ==> build == Callback)
    ensures st1 == Feed(build, st, head + body)
    ensures Good(st1) && st1.phase == ReadHead && st1.head == [] && ShapeOf(st1) == Some(node)
    ensures st1.history == st.history + [Message(node.id, body)] && st1.reused == st.reused + Reuses(head)
  {
    if body == [] {
      assert head + body == head;
      FeedHead(build, st, head);
      st1 := OnHead(build, st, head);
    } else {
      FeedHeadAndBody(build, st, head, body);
      st1 := PostMsg(Complete(OnHead(build, st, head), body));
    }
  }

  lemma CutTwice<T>(s: seq<T>, i: nat, j: nat)
    requires i <= j <= |s|
    ensures s == s[..i] + s[i..j] + s[j..]
  {
  }

  lemma FeedFirst(build: Build, st: State, s: seq<Byte>, node: Shape) returns (st1: State)
    requires Good(st) && st.phase == ReadHead && st.head == []
    requires FirstNode(build, ShapeOf(st), s) == Some(node)
    ensures Good(st1) && st1.phase == ReadHead && st1.head == [] && ShapeOf(st1) == Some(node)
    ensures st1.history == st.history + [Message(node.id, s[HEAD_TOTAL_LEN..HEAD_TOTAL_LEN + node.len])]
    ensures st1.reused == st.reused + Reuses(s[..HEAD_TOTAL_LEN])
    ensures Feed(build, st, s) == Feed(build, st1, s[HEAD_TOTAL_LEN + node.len..])
  {
    var k := HEAD_TOTAL_LEN + node.len;
    var head, body := s[..HEAD_TOTAL_LEN], s[HEAD_TOTAL_LEN..k];
    st1 := FeedNode(build, st, head, body, node);
    CutTwice(s, HEAD_TOTAL_LEN, k);
    FeedConcat(build, st, head + body, s[k..]);
  }

  lemma {:induction false} FeedNothing(build: Build, st: State, s: seq<Byte>)
    requires Good(st) && st.phase == ReadHead && st.head == []
    requires FirstNode(build, ShapeOf(st), s) == None
    ensures Feed(build, st, s).history == st.history
  {
    if |s| < HEAD_TOTAL_LEN {
      FeedShortHead(build, st, s);
    } else {
      var head, rest := s[..HEAD_TOTAL_LEN], s[HEAD_TOTAL_LEN..];
      assert s == head + rest;
      FeedConcat(build, st, head, rest);
      FeedHead(build, st, head);
      var st1 := OnHead(build, st, head);
      if st1.phase == ReadBody {
        FeedPart(build, st1, rest);
      } else {
        FeedStopped(build, st1, rest);
      }
    }
  }

  lemma ParseStep(build: Build, prev: Option<Shape>, s: seq<Byte>, node: Shape, m: Message, left: seq<Message>)
    requires FirstNode(build, prev, s) == Some(node)
    requires m == Message(node.id, s[HEAD_TOTAL_LEN..HEAD_TOTAL_LEN + node.len])
    requires left == Parse(build, Some(node), s[HEAD_TOTAL_LEN + node.len..])
    ensures Parse(build, prev, s) == [m] + left
  {
    hide FirstNode, Target, ParseHead;
  }

  /** The octet machine posts exactly the messages the grammar finds, on every stream whatever. */
  lemma {:induction false} FeedParses(build: Build, st: State, s: seq<Byte>)
    requires Good(st) && st.phase == ReadHead && st.head == []
    ensures Feed(build, st, s).history == st.history + Parse(build, ShapeOf(st), s)
    decreases |s|
  {
    match FirstNode(build, ShapeOf(st), s) {
      case None =>
        FeedNothing(build, st, s);
      case Some(node) =>
        var m, tail := Message(node.id, s[HEAD_TOTAL_LEN..HEAD_TOTAL_LEN + node.len]), s[HEAD_TOTAL_LEN + node.len..];
        var left := Parse(build, Some(node), tail);
        var st1 := FeedFirst(build, st, s, node);
        FeedParses(build, st1, tail);
        ParseStep(build, ShapeOf(st), s, node, m, left);
        Associates(st.history, [m], left);
    }
  }

  // ---------------------------------------------------------------- faults

  /** The header faults the session: a length that leaves no usable buffer, or a rejected header while
      there is no node. */
  predicate HeadFaults(build: Build, prev: Option<Shape>, head: seq<Byte>)
    requires |head| == HEAD_TOTAL_LEN
  {
    match ParseHead(head)
    case Accepted(id, len) => len < 0 && !CaughtLength(build, len)
    case Rejected => prev == None
  }

  /** Some header on the way through the stream faults the session. */
  ghost predicate StreamFaults(build: Build, prev: Option<Shape>, s: seq<Byte>)
    decreases |s|
  {
    match FirstNode(build, prev, s)
    case None => |s| >= HEAD_TOTAL_LEN && HeadFaults(build, prev, s[..HEAD_TOTAL_LEN])
    case Some(node) => StreamFaults(build, Some(node), s[HEAD_TOTAL_LEN + node.len..])
  }

  lemma LastHeadFaultsIff(build: Build, st: State, s: seq<Byte>)
    requires Good(st) && st.phase == ReadHead && st.head == []
    requires FirstNode(build, ShapeOf(st), s) == None
    ensures Feed(build, st, s).phase == Fault
      <==> |s| >= HEAD_TOTAL_LEN && HeadFaults(build, ShapeOf(st), s[..HEAD_TOTAL_LEN])
  {
    if |s| < HEAD_TOTAL_LEN {
      FeedShortHead(build, st, s);
    } else {
      var head, rest := s[..HEAD_TOTAL_LEN], s[HEAD_TOTAL_LEN..];
      assert s == head + rest;
      FeedConcat(build, st, head, rest);
      FeedHead(build, st, head);
      var st1 := OnHead(build, st, head);
      hide Feed, OnByte, ParseHead;
      if st1.phase == ReadBody {
        FeedPart(build, st1, rest);
      } else {
        FeedStopped(build, st1, rest);
      }
    }
  }

  /** On every stream whatever: exactly when a session faults. */
  lemma {:induction false} FaultsIff(build: Build, st: State, s: seq<Byte>)
    requires Good(st) && st.phase == ReadHead && st.head == []
    ensures Feed(build, st, s).phase == Fault <==> StreamFaults(build, ShapeOf(st), s)
    decreases |s|
  {
    match FirstNode(build, ShapeOf(st), s) {
      case None =>
        LastHeadFaultsIff(build, st, s);
      case Some(node) =>
        var st1 := FeedFirst(build, st, s, node);
        FaultsIff(build, st1, s[HEAD_TOTAL_LEN + node.len..]);
    }
  }

  ghost predicate NoneEmpty(ms: seq<Message>)
  {
    forall i :: 0 <= i < |ms| ==> ms[i].body != []
  }

  lemma NoneEmptyCons(m: Message, ms: seq<Message>)
    ensures NoneEmpty([m] + ms) <==> m.body != [] && NoneEmpty(ms)
  {
    assert ([m] + ms)[0] == m;
    assert forall i :: 0 <= i < |ms| ==> ([m] + ms)[i + 1] == ms[i];
  }

  /** The two builds post the same messages on a stream exactly when no message in it is empty;
      otherwise the coroutine stops before the first empty one. */
  lemma {:induction false} BuildsAgree(prev: Option<Shape>, s: seq<Byte>)
    ensures var co, cb := Parse(Coroutine, prev, s), Parse(Callback, prev, s);
      co <= cb && NoneEmpty(co) && (co == cb <==> NoneEmpty(cb))
    decreases |s|
  {
    if FirstNode(Callback, prev, s).Some? {
      var node := FirstNode(Callback, prev, s).value;
      var m := Message(node.id, s[HEAD_TOTAL_LEN..HEAD_TOTAL_LEN + node.len]);
      var tail := s[HEAD_TOTAL_LEN + node.len..];
      var co, cb := Parse(Coroutine, Some(node), tail), Parse(Callback, Some(node), tail);
      assert FirstNode(Coroutine, prev, s) == if node.len > 0 then Some(node) else None;
      NoneEmptyCons(m, cb);
      ParseStep(Callback, prev, s, node, m, cb);
      if node.len > 0 {
        hide Parse, FirstNode, NoneEmpty;
        BuildsAgree(Some(node), tail);
        NoneEmptyCons(m, co);
        ParseStep(Coroutine, prev, s, node, m, co);
        ConsPrefix(m, co, cb);
      } else {
        assert Parse(Coroutine, prev, s) == [];
      }
    }
  }

  /** A `short` on the wire, by its two octets. */
  lemma ShortOfOctets(hi: Byte, lo: Byte)
    ensures ToShort(Pair(hi, lo)) == 256 * hi + lo - if hi >= 0x80 then 65536 else 0
  {
  }

  /** The header octet by octet: rejected are the ids above 10240 and the lengths above 2048, and no
      negative number is. */
  lemma HeaderSpelledOut(h0: Byte, h1: Byte, h2: Byte, h3: Byte)
    ensures ParseHead([h0, h1, h2, h3]) == Rejected
      <==> 10240 < 256 * h0 + h1 < 32768 || 2048 < 256 * h2 + h3 < 32768
    ensures ParseHead([h0, h1, h2, h3]) != Rejected ==>
      ParseHead([h0, h1, h2, h3]) == Accepted(
        if h0 < 0x80 then 256 * h0 + h1 else 256 * h0 + h1 - 65536,
        if h2 < 0x80 then 256 * h2 + h3 else 256 * h2 + h3 - 65536)
  {
    ShortOfOctets(h0, h1);
    ShortOfOctets(h2, h3);
  }

  /** Behind an id that is let through, a length with its sign bit set posts nothing. The handlers do not
      survive it. The coroutine catches what the allocation throws and closes, but for 0xFFFF, which
      allocates a buffer of no octets and reads into it. */
  lemma NegativeLengths(build: Build, st: State, h0: Byte, h1: Byte, h2: Byte, h3: Byte)
    requires Good(st) && st.phase == ReadHead && st.head == []
    requires h2 >= 0x80 && !(10240 < 256 * h0 + h1 < 32768)
    ensures var next := Feed(build, st, [h0, h1, h2, h3]);
      && next.phase == (if build == Callback || (h2 == 0xff && h3 == 0xff) then Fault else Closed)
      && next.posted == st.posted && next.history == st.history && next.nodes == st.nodes
  {
    HeaderSpelledOut(h0, h1, h2, h3);
    FeedHead(build, st, [h0, h1, h2, h3]);
  }

  /** A rejected header behind no accepted one dereferences the null node. */
  lemma RejectedFirst(build: Build, h0: Byte, h1: Byte, h2: Byte, h3: Byte)
    requires 10240 < 256 * h0 + h1 < 32768 || 2048 < 256 * h2 + h3 < 32768
    ensures Feed(build, INIT, [h0, h1, h2, h3]).phase == Fault
  {
    HeaderSpelledOut(h0, h1, h2, h3);
    FeedHead(build, INIT, [h0, h1, h2, h3]);
  }

  // ---------------------------------------------------------------- framed messages

  /** What `PraseHead` lets through. */
  ghost predicate Acceptable(m: Message)
  {
    m.id <= MAX_ID && |m.body| <= MAX_LEN
  }

  ghost predicate Receivable(build: Build, m: Message)
  {
    Acceptable(m) && (build == Coroutine ==> m.body != [])
  }

  lemma HeadOfFrame(m: Message, rest: seq<Byte>, s: seq<Byte>)
    requires |m.body| <= MAX_SENDABLE && s == Frame(m) + rest
    ensures |s| >= HEAD_TOTAL_LEN && s[HEAD_TOTAL_LEN..] == m.body + rest
    ensures ParseHead(s[..HEAD_TOTAL_LEN]) == if Acceptable(m) then Accepted(m.id, |m.body|) else Rejected
  {
    FrameParts(m, rest, s);
  }

  ghost predicate AllReceivable(build: Build, ms: seq<Message>)
  {
    forall i :: 0 <= i < |ms| ==> Receivable(build, ms[i])
  }

  lemma AllReceivableCons(build: Build, m: Message, ms: seq<Message>)
    ensures AllReceivable(build, [m] + ms) <==> Receivable(build, m) && AllReceivable(build, ms)
  {
    assert ([m] + ms)[0] == m;
    assert forall i :: 0 <= i < |ms| ==> ([m] + ms)[i + 1] == ms[i];
  }

  lemma FirstNodeOfFrame(build: Build, prev: Option<Shape>, m: Message, rest: seq<Byte>, s: seq<Byte>)
    requires Receivable(build, m) && s == Frame(m) + rest
    ensures FirstNode(build, prev, s) == Some(Shape(m.id, |m.body|))
    ensures s[HEAD_TOTAL_LEN..HEAD_TOTAL_LEN + |m.body|] == m.body && s[HEAD_TOTAL_LEN + |m.body|..] == rest
  {
    var k := HEAD_TOTAL_LEN + |m.body|;
    HeadOfFrame(m, rest, s);
    assert s[HEAD_TOTAL_LEN..k] == s[HEAD_TOTAL_LEN..][..|m.body|] == m.body;
    assert s[k..] == s[HEAD_TOTAL_LEN..][|m.body|..] == rest;
  }

  lemma ParseReceivable(build: Build, prev: Option<Shape>, m: Message, rest: seq<Byte>, s: seq<Byte>)
    requires Receivable(build, m) && s == Frame(m) + rest
    ensures Parse(build, prev, s) == [m] + Parse(build, Some(Shape(m.id, |m.body|)), rest)
  {
    FirstNodeOfFrame(build, prev, m, rest, s);
    hide FirstNode, Frame;
  }

  /** A message that is not receivable is not posted: the stream ends, or an old node's shape is used. */
  lemma ParseOther(build: Build, prev: Option<Shape>, m: Message, rest: seq<Byte>, s: seq<Byte>)
    requires !Receivable(build, m) && |m.body| <= MAX_SENDABLE && s == Frame(m) + rest
    requires prev.Some? ==> prev.value.id <= MAX_ID && prev.value.len <= MAX_LEN
    ensures Parse(build, prev, s) == [] || Parse(build, prev, s)[0] != m
  {
    HeadOfFrame(m, rest, s);
    if FirstNode(build, prev, s).Some? {
      var node := FirstNode(build, prev, s).value;
      var got := Message(node.id, s[HEAD_TOTAL_LEN..HEAD_TOTAL_LEN + node.len]);
      assert Parse(build, prev, s)[0] == got;
      assert got.id != m.id || |got.body| != |m.body|;
    }
  }

  /** A session posts exactly the messages its client framed, in order, if and only if every header
      is accepted (and, in the coroutine build, no body is empty). */
  lemma {:induction false} ParseInvertsFrames(build: Build, prev: Option<Shape>, ms: seq<Message>)
    requires Sendable(ms)
    requires prev.Some? ==> prev.value.id <= MAX_ID && prev.value.len <= MAX_LEN
    ensures Parse(build, prev, Frames(ms)) == ms <==> AllReceivable(build, ms)
    decreases |ms|
  {
    if ms == [] {
    } else {
      var m, tail := ms[0], ms[1..];
      var next := Some(Shape(m.id, |m.body|));
      assert ms == [m] + tail;
      AllReceivableCons(build, m, tail);
      if Receivable(build, m) {
        ParseReceivable(build, prev, m, Frames(tail), Frames(ms));
        ParseInvertsFrames(build, next, tail);
        ConsPrefix(m, Parse(build, next, Frames(tail)), tail);
      } else {
        ParseOther(build, prev, m, Frames(tail), Frames(ms));
      }
    }
  }

  /** Reassembly inverts framing for every way of cutting the stream into deliveries. */
  lemma ReassemblyInvertsFraming(build: Build, ms: seq<Message>, chunks: seq<seq<Byte>>)
    requires Sendable(ms) && Flatten(chunks) == Frames(ms)
    ensures Deliver(build, INIT, chunks).history == ms <==> AllReceivable(build, ms)
  {
    CutsDoNotMatter(build, INIT, chunks);
    FeedParses(build, INIT, Frames(ms));
    ParseInvertsFrames(build, None, ms);
  }

  // ---------------------------------------------------------------- aliasing

  ghost predicate Distinct(xs: seq<nat>)
  {
    forall i, j :: 0 <= i < j < |xs| ==> xs[i] != xs[j]
  }

  /** No node is posted twice, and none is filled after it was posted. */
  ghost predicate NoAlias(st: State)
    requires Good(st)
  {
    Distinct(st.posted) && (st.phase == ReadBody ==> st.current.value !in st.posted)
  }

  /** Every posted node still holds what it held when it was posted. */
  ghost predicate Unchanged(st: State)
  {
    |st.posted| == |st.history| && forall i :: 0 <= i < |st.posted| ==>
      && st.posted[i] < |st.nodes|
      && st.history[i] == Message(st.nodes[st.posted[i]].id, st.nodes[st.posted[i]].bytes)
  }

  ghost predicate Full(node: Node)
  {
    |node.bytes| == node.len
  }

  /** What every octet keeps: aliasing is absent exactly while no body was read into an old node. */
  ghost predicate Aliasing(build: Build, st: State)
    requires Good(st)
  {
    && (NoAlias(st) <==> st.reused == 0)
    && (st.reused == 0 ==> Unchanged(st))
    && |st.posted| == |st.history|
    && (forall i :: 0 <= i < |st.posted| ==> st.posted[i] < |st.nodes| && Full(st.nodes[st.posted[i]]))
    && (st.phase == ReadHead && st.current.Some? ==>
          st.current.value in st.posted && (build == Coroutine ==> Current(st).len > 0))
  }

  lemma PostingAgain(xs: seq<nat>, x: nat)
    ensures Distinct(xs + [x]) <==> Distinct(xs) && x !in xs
  {
    var ys := xs + [x];
    assert ys[|xs|] == x;
    assert forall i :: 0 <= i < |xs| ==> ys[i] == xs[i];
  }

  /** The header got a node of its own, which cannot have been posted yet. */
  lemma AliasingAccepted(build: Build, st: State, id: Short, len: nat)
    requires Good(st) && st.phase == ReadHead && Aliasing(build, st)
    ensures Aliasing(build, StartBody(build, Allocated(st, id, len)))
  {
    var ready := Allocated(st, id, len);
    assert st.reused == 0 ==> Unchanged(ready);
    PostingAgain(st.posted, |st.nodes|);
  }

  /** The body goes to the old node, which has been posted. */
  lemma AliasingRejected(build: Build, st: State)
    requires Good(st) && st.phase == ReadHead && st.current.Some? && Aliasing(build, st)
    ensures Aliasing(build, StartBody(build, st.(reused := st.reused + 1)))
  {
    PostingAgain(st.posted, st.current.value);
  }

  lemma AliasingHead(build: Build, st: State, head: seq<Byte>)
    requires Good(st) && st.phase == ReadHead && Aliasing(build, st) && |head| == HEAD_TOTAL_LEN
    ensures Aliasing(build, OnHead(build, st, head))
  {
    match ParseHead(head) {
      case Accepted(id, len) =>
        if len >= 0 {
          AliasingAccepted(build, st, id, len);
        }
      case Rejected =>
        if st.current.Some? {
          AliasingRejected(build, st);
        }
    }
  }

  lemma AliasingBody(build: Build, st: State, b: Byte)
    requires Good(st) && st.phase == ReadBody && Aliasing(build, st)
    ensures Aliasing(build, OnByte(build, st, b))
  {
    assert st.reused == 0 ==> Unchanged(Stored(st, b));
    PostingAgain(st.posted, st.current.value);
  }

  lemma AliasingStep(build: Build, st: State, b: Byte)
    requires Good(st) && Aliasing(build, st)
    ensures Aliasing(build, OnByte(build, st, b))
  {
    if st.phase == ReadBody {
      AliasingBody(build, st, b);
    } else if st.phase == ReadHead && |st.head| + 1 == HEAD_TOTAL_LEN {
      AliasingHead(build, st, st.head + [b]);
    }
  }

  lemma OneOctetPostsAtMostOne(build: Build, st: State, b: Byte)
    requires Good(st)
    ensures var next := OnByte(build, st, b);
      && st.posted <= next.posted && |next.posted| <= |st.posted| + 1
      && |next.history| - |st.history| == |next.posted| - |st.posted|
      && |st.nodes| <= |next.nodes|
  {
  }

  lemma {:induction false} AliasingKept(build: Build, st: State, s: seq<Byte>)
    requires Good(st) && Aliasing(build, st)
    ensures Aliasing(build, Feed(build, st, s))
    decreases |s|
  {
    if s == [] {
    } else {
      AliasingStep(build, st, s[0]);
      AliasingKept(build, OnByte(build, st, s[0]), s[1..]);
    }
  }

  /** On every stream, however cut: the nodes ever posted, and so those in the logic queue, are distinct
      from each other and from the one being filled exactly if no body was read after a rejected header;
      then their octets are still those that were posted. */
  lemma NoAliasIffNoReuse(build: Build, chunks: seq<seq<Byte>>)
    ensures var st := Deliver(build, INIT, chunks);
      && (NoAlias(st) <==> st.reused == 0)
      && (st.reused == 0 ==> Unchanged(st))
  {
    CutsDoNotMatter(build, INIT, chunks);
    AliasingKept(build, INIT, Flatten(chunks));
  }

  /** No rejected header is read: the coroutine stops reading behind the first empty body. */
  ghost predicate NoneRejected(build: Build, ms: seq<Message>)
  {
    ms == [] || (Acceptable(ms[0]) && ((build == Coroutine && ms[0].body == []) || NoneRejected(build, ms[1..])))
  }

  /** For the handlers that means that every header is accepted. */
  lemma {:induction false} NoneRejectedByHandlers(ms: seq<Message>)
    ensures NoneRejected(Callback, ms) <==> forall i :: 0 <= i < |ms| ==> Acceptable(ms[i])
  {
    if ms == [] {
    } else {
      NoneRejectedByHandlers(ms[1..]);
      assert forall i :: 0 <= i < |ms[1..]| ==> ms[1..][i] == ms[i + 1];
      if Acceptable(ms[0]) && NoneRejected(Callback, ms[1..]) {
        forall i | 0 <= i < |ms|
          ensures Acceptable(ms[i])
        {
          assert i > 0 ==> ms[i] == ms[1..][i - 1];
        }
      }
    }
  }

  /** A rejected header sends the body behind it into the old node, or into none. */
  lemma ReuseOfRejected(build: Build, st: State, m: Message, rest: seq<Byte>, s: seq<Byte>)
    requires Good(st) && st.phase == ReadHead && st.head == [] && |m.body| <= MAX_SENDABLE
    requires s == Frame(m) + rest && !Acceptable(m)
    ensures st.current.Some? ==> Feed(build, st, s).reused > st.reused
    ensures st.current == None ==> Feed(build, st, s) == st.(phase := Fault)
  {
    var head, behind := s[..HEAD_TOTAL_LEN], s[HEAD_TOTAL_LEN..];
    HeadOfFrame(m, rest, s);
    assert s == head + behind;
    FeedConcat(build, st, head, behind);
    FeedHead(build, st, head);
    if st.current == None {
      FeedStopped(build, st.(phase := Fault, head := []), behind);
    }
  }

  /** The coroutine takes an empty body for a disconnect and reads no further. */
  lemma ReuseOfEmpty(st: State, m: Message, rest: seq<Byte>, s: seq<Byte>)
    requires Good(st) && st.phase == ReadHead && st.head == []
    requires s == Frame(m) + rest && Acceptable(m) && m.body == []
    ensures Feed(Coroutine, st, s).reused == st.reused
  {
    var head, behind := s[..HEAD_TOTAL_LEN], s[HEAD_TOTAL_LEN..];
    HeadOfFrame(m, rest, s);
    assert s == head + behind;
    FeedConcat(Coroutine, st, head, behind);
    FeedHead(Coroutine, st, head);
    FeedStopped(Coroutine, OnHead(Coroutine, st, head), behind);
  }

  lemma {:induction false} ReuseOfFrames(build: Build, st: State, ms: seq<Message>)
    requires Good(st) && st.phase == ReadHead && st.head == [] && st.reused == 0 && Sendable(ms)
    requires ms != [] && st.current == None ==> Acceptable(ms[0])
    ensures Feed(build, st, Frames(ms)).reused == 0 <==> NoneRejected(build, ms)
    decreases |ms|
  {
    if ms == [] {
    } else {
      var m, tail, s := ms[0], ms[1..], Frames(ms);
      if !Acceptable(m) {
        ReuseOfRejected(build, st, m, Frames(tail), s);
      } else if build == Coroutine && m.body == [] {
        ReuseOfEmpty(st, m, Frames(tail), s);
      } else {
        HeadOfFrame(m, Frames(tail), s);
        hide Frame;
        var k := HEAD_TOTAL_LEN + |m.body|;
        var st1 := FeedFirst(build, st, s, Shape(m.id, |m.body|));
        assert s[k..] == s[HEAD_TOTAL_LEN..][|m.body|..] == Frames(tail);
        ReuseOfFrames(build, st1, tail);
      }
    }
  }

  lemma {:induction false} NoneRejectedNeverFaults(build: Build, prev: Option<Shape>, ms: seq<Message>)
    requires Sendable(ms) && NoneRejected(build, ms)
    ensures !StreamFaults(build, prev, Frames(ms))
    decreases |ms|
  {
    if ms == [] {
    } else {
      var m, tail, s := ms[0], ms[1..], Frames(ms);
      var next := Some(Shape(m.id, |m.body|));
      HeadOfFrame(m, Frames(tail), s);
      if m.body != [] || build == Callback {
        FirstNodeOfFrame(build, prev, m, Frames(tail), s);
        hide FirstNode, Frame, Frames, Target, ParseHead;
        NoneRejectedNeverFaults(build, next, tail);
      }
    }
  }

  /** A client of which no rejected header is read never faults its session, in either build; one whose
      first message is unacceptable always does. */
  lemma FaultOfFrames(build: Build, ms: seq<Message>, chunks: seq<seq<Byte>>)
    requires Sendable(ms) && Flatten(chunks) == Frames(ms)
    ensures NoneRejected(build, ms) ==> Deliver(build, INIT, chunks).phase != Fault
    ensures ms != [] && !Acceptable(ms[0]) ==> Deliver(build, INIT, chunks).phase == Fault
  {
    CutsDoNotMatter(build, INIT, chunks);
    if NoneRejected(build, ms) {
      NoneRejectedNeverFaults(build, None, ms);
      FaultsIff(build, INIT, Frames(ms));
    }
    if ms != [] && !Acceptable(ms[0]) {
      ReuseOfRejected(build, INIT, ms[0], Frames(ms[1..]), Frames(ms));
    }
  }

  lemma {:induction false} ReceivableAreNotRejected(build: Build, ms: seq<Message>)
    requires AllReceivable(build, ms)
    ensures NoneRejected(build, ms)
  {
    if ms == [] {
    } else {
      assert forall i :: 0 <= i < |ms[1..]| ==> ms[1..][i] == ms[i + 1];
      ReceivableAreNotRejected(build, ms[1..]);
    }
  }

  /** A client of receivable messages faults its session at no moment. */
  lemma PrefixNeverFaults(build: Build, ms: seq<Message>, received: seq<Byte>)
    requires Sendable(ms) && received <= Frames(ms) && AllReceivable(build, ms)
    ensures Feed(build, INIT, received).phase != Fault
  {
    var now, rest := Feed(build, INIT, received), Frames(ms)[|received|..];
    assert received + rest == Frames(ms);
    FeedConcat(build, INIT, received, rest);
    ReceivableAreNotRejected(build, ms);
    NoneRejectedNeverFaults(build, None, ms);
    FaultsIff(build, INIT, Frames(ms));
    if now.phase == Fault {
      FeedStopped(build, now, rest);
    }
  }

  lemma {:induction false} ReceivableNeverReuses(build: Build, st: State, ms: seq<Message>)
    requires Good(st) && st.phase == ReadHead && st.head == [] && Sendable(ms)
    requires AllReceivable(build, ms)
    ensures Feed(build, st, Frames(ms)).reused == st.reused
    decreases |ms|
  {
    if ms == [] {
    } else {
      var m, tail, s := ms[0], ms[1..], Frames(ms);
      HeadOfFrame(m, Frames(tail), s);
      var st1 := FeedFirst(build, st, s, Shape(m.id, |m.body|));
      assert s[HEAD_TOTAL_LEN + |m.body|..] == s[HEAD_TOTAL_LEN..][|m.body|..] == Frames(tail);
      ReceivableNeverReuses(build, st1, tail);
    }
  }

  /** However much of a well-formed stream has arrived, a prefix of its messages has been posted. */
  lemma PrefixPosted(build: Build, ms: seq<Message>, received: seq<Byte>)
    requires Sendable(ms) && received <= Frames(ms) && AllReceivable(build, ms)
    ensures Feed(build, INIT, received).history <= ms && Feed(build, INIT, received).reused == 0
    ensures received == Frames(ms) ==> Feed(build, INIT, received).history == ms
  {
    var rest := Frames(ms)[|received|..];
    assert received + rest == Frames(ms);
    FeedConcat(build, INIT, received, rest);
    var now := Feed(build, INIT, received);
    var end := Feed(build, now, rest);
    assert end.history == ms by {
      FeedParses(build, INIT, Frames(ms));
      ParseInvertsFrames(build, None, ms);
    }
    ReceivableNeverReuses(build, INIT, ms);
  }

  /** In either build, for every client: aliasing is absent if and only if no rejected header is read
      behind an accepted one. One with an id above MAX_ID or a length above MAX_LEN is enough. */
  lemma NoAliasIffNoneRejected(build: Build, ms: seq<Message>, chunks: seq<seq<Byte>>)
    requires Sendable(ms) && Flatten(chunks) == Frames(ms)
    ensures NoAlias(Deliver(build, INIT, chunks))
      <==> ms == [] || !Acceptable(ms[0]) || NoneRejected(build, ms)
  {
    NoAliasIffNoReuse(build, chunks);
    CutsDoNotMatter(build, INIT, chunks);
    if ms != [] && !Acceptable(ms[0]) {
      ReuseOfRejected(build, INIT, ms[0], Frames(ms[1..]), Frames(ms));
    } else {
      ReuseOfFrames(build, INIT, ms);
    }
  }

  /** For the handlers, and a client whose first message is acceptable: if and only if every message is. */
  lemma NoAliasIffAllAcceptable(ms: seq<Message>, chunks: seq<seq<Byte>>)
    requires Sendable(ms) && Flatten(chunks) == Frames(ms)
    requires ms != [] ==> Acceptable(ms[0])
    ensures NoAlias(Deliver(Callback, INIT, chunks)) <==> forall i :: 0 <= i < |ms| ==> Acceptable(ms[i])
  {
    NoAliasIffNoneRejected(Callback, ms, chunks);
    NoneRejectedByHandlers(ms);
  }

  /** The failing family: behind any message, a rejected header sends the next body into the node
      already posted. If that has not been dispatched by then, the logic queue holds it twice and the
      first body is gone. */
  lemma RejectedHeaderOverwritesQueue(build: Build, m: Message, head: seq<Byte>, body: seq<Byte>)
    requires Receivable(build, m) && |body| == |m.body|
    requires |head| == HEAD_TOTAL_LEN && ParseHead(head) == Rejected
    ensures var st := Feed(build, Feed(build, INIT, Frame(m)), head + body);
      && st.posted == [0, 0] && st.nodes == [Node(m.id, |body|, body)]
      && st.history == [m, Message(m.id, body)]
  {
    var s := Frame(m);
    OnePosted(build, m);
    var st := Feed(build, INIT, s);
    if body == [] {
      assert head + body == head;
      FeedHead(build, st, head);
    } else {
      hide Feed, OnByte, Frame;
      FeedHeadAndBody(build, st, head, body);
    }
  }

  lemma OnePosted(build: Build, m: Message)
    requires Receivable(build, m)
    ensures Feed(build, INIT, Frame(m))
      == State(ReadHead, [], if m.body == [] then 0 else |m.body| - 1, Some(0),
               [Node(m.id, |m.body|, m.body)], [0], [m], 0)
  {
    var s := Frame(m);
    HeadOfFrame(m, [], s);
    var first := s[..HEAD_TOTAL_LEN];
    assert s == first + m.body;
    if m.body == [] {
      assert first + m.body == first;
      FeedHead(build, INIT, first);
    } else {
      FeedHeadAndBody(build, INIT, first, m.body);
      hide Feed, OnByte, Frame;
    }
  }
}
