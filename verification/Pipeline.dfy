/** The whole server over every interleaving: any number of sessions read octets, post to the one
    logic queue, are dispatched to by the worker and write their replies. */
module Pipeline {
  import opened Sequences
  import opened Wrappers
  import opened Bytes
  import opened Wire
  import Client
  import Reader
  import Sender

  /** What is fixed for a run; `reply` stands for the JSON work of the callback. */
  datatype Config = Config(
    build: Reader.Build, reply: Message -> seq<Byte>, registered: set<Short>, recvCap: nat, sendCap: nat)

  /** A `LogicNode`: the session, its receive node, and the position of the message among those of
      the session. */
  datatype Job = Job(sid: nat, node: nat, index: nat)

  datatype Reply = Reply(index: nat, frame: seq<Byte>)

  /** `pending` is the message whose post waits for the logic mutex; the session reads no further
      until it is through. `clean` stays true while nothing of the session was dropped or unknown. */
  datatype Session = Session(
    received: seq<Byte>, reader: Reader.State, pending: Option<Job>, sender: Sender.State<Reply>, clean: bool)

  /** `down` is set once the behaviour of the process is no longer defined: a session faulted, or the
      node of a reply could not be built. */
  datatype System = System(sessions: map<nat, Session>, queue: seq<Job>, down: bool)

  datatype Event =
    | Connect(sid: nat)
    | Octet(sid: nat, b: Byte)
    | Post(sid: nat)
    | Dispatch
    | WriteDone(sid: nat, i: nat)
    | WriteFailed(sid: nat, i: nat, sent: nat)

  const START := System(map[], [], false)

  function Fresh(): Session
  {
    Session([], Reader.INIT, None, Sender.Empty<Reply>(), true)
  }

  function OnOctet(cfg: Config, sid: nat, s: Session, b: Byte): Session
    requires Reader.Good(s.reader)
  {
    var reader := Reader.OnByte(cfg.build, s.reader, b);
    var n := |reader.posted|;
    s.(received := s.received + [b], reader := reader,
       pending := if n > |s.reader.posted| then Some(Job(sid, reader.posted[n - 1], n - 1)) else None)
  }

  function Answer(cfg: Config, m: Message): Message
  {
    Message(m.id, cfg.reply(m))
  }

  /** The callback of the worker, with the node's octets as they are when it runs. A reply of any length
      is sent; None where its node cannot be built and no full queue drops it before. */
  function OnDispatch(cfg: Config, s: Session, j: Job): Option<Session>
    requires j.node < |s.reader.nodes|
  {
    var node := s.reader.nodes[j.node];
    if node.id !in cfg.registered then Some(s.(clean := false)) else
    var full := |s.sender.queue| >= cfg.sendCap;
    var answer := Answer(cfg, Message(node.id, node.bytes));
    match SendFrame(answer.body, answer.id)
    case None => if full then Some(s.(clean := false)) else None
    case Some(frame) =>
      Some(s.(sender := Sender.SessionSend(cfg.sendCap, s.sender, Reply(j.index, frame)), clean := s.clean && !full))
  }

  function OnWrite(cfg: Config, s: Session, e: Sender.Event<Reply>): Session
  {
    match Sender.Step(Sender.Session(cfg.sendCap), s.sender, e)
    case None => s
    case Some(sender) => s.(sender := sender)
  }

  function ConnectAt(st: System, sid: nat): System
  {
    if sid in st.sessions then st else st.(sessions := st.sessions[sid := Fresh()])
  }

  function OctetAt(cfg: Config, st: System, sid: nat, b: Byte): System
    requires sid in st.sessions ==> Reader.Good(st.sessions[sid].reader)
  {
    if sid !in st.sessions || st.sessions[sid].pending != None then st
    else
      var s := OnOctet(cfg, sid, st.sessions[sid], b);
      st.(sessions := st.sessions[sid := s], down := s.reader.phase == Reader.Fault)
  }

  /** The post gets the mutex: the job joins the queue or, if that is full, is dropped. */
  function PostAt(cfg: Config, st: System, sid: nat): System
  {
    if sid !in st.sessions || st.sessions[sid].pending == None then st else
    var s := st.sessions[sid];
    var full := |st.queue| >= cfg.recvCap;
    st.(sessions := st.sessions[sid := s.(pending := None, clean := s.clean && !full)],
        queue := if full then st.queue else st.queue + [s.pending.value])
  }

  ghost predicate CanDispatch(st: System)
  {
    && st.queue != [] && st.queue[0].sid in st.sessions
    && st.queue[0].node < |st.sessions[st.queue[0].sid].reader.nodes|
  }

  function DispatchFront(cfg: Config, st: System): System
    requires CanDispatch(st)
  {
    var j := st.queue[0];
    match OnDispatch(cfg, st.sessions[j.sid], j)
    case None => st.(down := true)
    case Some(s) => st.(sessions := st.sessions[j.sid := s], queue := st.queue[1..])
  }

  function WriteAt(cfg: Config, st: System, sid: nat, e: Sender.Event<Reply>): System
  {
    if sid !in st.sessions then st
    else st.(sessions := st.sessions[sid := OnWrite(cfg, st.sessions[sid], e)])
  }

  /** An event that is not possible in a state changes nothing; a process that is down does nothing more. */
  function Step(cfg: Config, st: System, e: Event): System
    requires Inv(cfg, st)
  {
    if st.down then st else
    match e
    case Connect(sid) => ConnectAt(st, sid)
    case Octet(sid, b) => OctetAt(cfg, st, sid, b)
    case Post(sid) => PostAt(cfg, st, sid)
    case Dispatch => if st.queue == [] then st else DispatchFront(cfg, st)
    case WriteDone(sid, i) => WriteAt(cfg, st, sid, Sender.Done(i))
    case WriteFailed(sid, i, sent) => WriteAt(cfg, st, sid, Sender.Failed(i, sent))
  }

  // ---------------------------------------------------------------- where each request is

  function Indices(rs: seq<Reply>): (xs: seq<nat>)
    ensures |xs| == |rs|
  {
    seq(|rs|, i requires 0 <= i < |rs| => rs[i].index)
  }

  function Own(j: Job, sid: nat): seq<nat>
  {
    if j.sid == sid then [j.index] else []
  }

  /** The positions of one session's jobs in the queue, in order. */
  function Queued(queue: seq<Job>, sid: nat): seq<nat>
  {
    if queue == [] then [] else Own(queue[0], sid) + Queued(queue[1..], sid)
  }

  lemma {:induction false} QueuedAppend(queue: seq<Job>, j: Job, sid: nat)
    ensures Queued(queue + [j], sid) == Queued(queue, sid) + Own(j, sid)
  {
    hide Own;
    if queue == [] {
      assert (queue + [j])[1..] == [];
      assert Own(j, sid) + [] == [] + Own(j, sid);
    } else {
      assert (queue + [j])[1..] == queue[1..] + [j];
      QueuedAppend(queue[1..], j, sid);
      Associates(Own(queue[0], sid), Queued(queue[1..], sid), Own(j, sid));
    }
  }

  function Waiting(pending: Option<Job>): seq<nat>
  {
    if pending == None then [] else [pending.value.index]
  }

  /** A session's requests still on their way, oldest first: answered, queued, about to be posted. */
  function Track(s: Session, sid: nat, queue: seq<Job>): seq<nat>
  {
    Indices(s.sender.accepted) + Queued(queue, sid) + Waiting(s.pending)
  }

  ghost predicate Increasing(xs: seq<nat>, bound: nat)
  {
    (forall i, j :: 0 <= i < j < |xs| ==> xs[i] < xs[j]) && forall i :: 0 <= i < |xs| ==> xs[i] < bound
  }

  ghost predicate Complete(xs: seq<nat>, n: nat)
  {
    |xs| == n && forall i :: 0 <= i < n ==> xs[i] == i
  }

  lemma DropOne(a: seq<nat>, x: nat, b: seq<nat>, bound: nat)
    requires Increasing(a + [x] + b, bound)
    ensures Increasing(a + b, bound)
  {
    var xs, ys := a + [x] + b, a + b;
    assert forall i :: 0 <= i < |ys| ==> ys[i] == xs[if i < |a| then i else i + 1];
  }

  /** The job points at the node its session posted. */
  ghost predicate JobOk(s: Session, j: Job)
  {
    j.index < |s.reader.posted| && j.node == s.reader.posted[j.index]
  }

  /** The frame is what sending the answer to this request puts on the wire. */
  ghost predicate Answers(cfg: Config, m: Message, frame: seq<Byte>)
  {
    var answer := Answer(cfg, m);
    SendFrame(answer.body, answer.id) == Some(frame)
  }

  ghost predicate RepliesOk(cfg: Config, s: Session)
  {
    forall k :: 0 <= k < |s.sender.accepted| ==>
      var r := s.sender.accepted[k];
      && r.index < |s.reader.history| && s.reader.history[r.index].id in cfg.registered
      && Answers(cfg, s.reader.history[r.index], r.frame)
  }

  ghost predicate ReaderOk(cfg: Config, s: Session)
  {
    && Reader.Good(s.reader) && Reader.Aliasing(cfg.build, s.reader)
    && s.reader == Reader.Feed(cfg.build, Reader.INIT, s.received)
  }

  /** What does not depend on the logic queue. */
  ghost predicate LocalOk(cfg: Config, sid: nat, s: Session)
  {
    && ReaderOk(cfg, s)
    && Sender.Inv(Sender.Session(cfg.sendCap), s.sender)
    && (s.pending.Some? ==> s.pending.value.sid == sid && JobOk(s, s.pending.value))
    && (s.reader.reused == 0 ==> RepliesOk(cfg, s))
  }

  /** Requests are answered in order, each at most once, and none is missing while nothing was dropped. */
  ghost predicate TrackOk(sid: nat, s: Session, queue: seq<Job>)
  {
    && Increasing(Track(s, sid, queue), |s.reader.history|)
    && (s.clean ==> Complete(Track(s, sid, queue), |s.reader.history|))
  }

  ghost predicate SessionOk(cfg: Config, sid: nat, s: Session, queue: seq<Job>)
  {
    LocalOk(cfg, sid, s) && TrackOk(sid, s, queue)
  }

  ghost predicate SessionsOk(cfg: Config, st: System)
  {
    forall sid <- st.sessions :: SessionOk(cfg, sid, st.sessions[sid], st.queue)
  }

  ghost predicate JobsOk(st: System)
  {
    forall k :: 0 <= k < |st.queue| ==>
      && st.queue[k].sid in st.sessions
      && JobOk(st.sessions[st.queue[k].sid], st.queue[k])
      && st.queue[k].node < |st.sessions[st.queue[k].sid].reader.nodes|
  }

  ghost predicate Inv(cfg: Config, st: System)
  {
    SessionsOk(cfg, st) && JobsOk(st) && |st.queue| <= cfg.recvCap
  }

  // ---------------------------------------------------------------- every step keeps the invariant

  lemma OctetReader(cfg: Config, sid: nat, s: Session, b: Byte)
    requires ReaderOk(cfg, s)
    ensures ReaderOk(cfg, OnOctet(cfg, sid, s, b))
  {
    Reader.AliasingStep(cfg.build, s.reader, b);
    Reader.FeedConcat(cfg.build, Reader.INIT, s.received, [b]);
    var next := Reader.OnByte(cfg.build, s.reader, b);
    assert [b][1..] == [];
    assert Reader.Feed(cfg.build, s.reader, [b]) == Reader.Feed(cfg.build, next, []);
  }

  lemma OctetTrack(cfg: Config, sid: nat, s: Session, b: Byte, queue: seq<Job>)
    requires ReaderOk(cfg, s) && s.pending == None && TrackOk(sid, s, queue)
    ensures TrackOk(sid, OnOctet(cfg, sid, s, b), queue)
  {
    var next := OnOctet(cfg, sid, s, b);
    Reader.OneOctetPostsAtMostOne(cfg.build, s.reader, b);
    var was, n := Track(s, sid, queue), |s.reader.history|;
    if |next.reader.posted| > |s.reader.posted| {
      assert Track(next, sid, queue) == was + [n];
    } else {
      assert Track(next, sid, queue) == was;
    }
  }

  lemma OctetKeeps(cfg: Config, sid: nat, s: Session, b: Byte, queue: seq<Job>)
    requires SessionOk(cfg, sid, s, queue) && s.pending == None
    ensures SessionOk(cfg, sid, OnOctet(cfg, sid, s, b), queue)
    ensures s.reader.posted <= OnOctet(cfg, sid, s, b).reader.posted
    ensures |s.reader.nodes| <= |OnOctet(cfg, sid, s, b).reader.nodes|
  {
    OctetReader(cfg, sid, s, b);
    OctetTrack(cfg, sid, s, b, queue);
    OctetPending(cfg, sid, s, b);
    hide ReaderOk, RepliesOk, TrackOk, JobOk, Sender.Inv, Reader.OnByte;
  }

  lemma OctetPending(cfg: Config, sid: nat, s: Session, b: Byte)
    requires ReaderOk(cfg, s) && s.pending == None
    ensures var next := OnOctet(cfg, sid, s, b);
      && (next.pending.Some? ==> next.pending.value.sid == sid && JobOk(next, next.pending.value))
      && s.reader.posted <= next.reader.posted && |s.reader.nodes| <= |next.reader.nodes|
      && s.reader.reused <= next.reader.reused && (RepliesOk(cfg, s) ==> RepliesOk(cfg, next))
  {
    Reader.OneOctetPostsAtMostOne(cfg.build, s.reader, b);
    var next := Reader.OnByte(cfg.build, s.reader, b);
    assert s.reader.history <= next.history && s.reader.reused <= next.reused;
    hide Reader.OnByte, Reader.Feed, Reader.Aliasing, Answers;
  }

  lemma ReplaceJobs(st: System, sid: nat, s: Session)
    requires JobsOk(st) && sid in st.sessions
    requires st.sessions[sid].reader.posted <= s.reader.posted
    requires |st.sessions[sid].reader.nodes| <= |s.reader.nodes|
    ensures JobsOk(st.(sessions := st.sessions[sid := s]))
  {
  }

  /** One session moves on, the queue stays. */
  lemma ReplaceSession(cfg: Config, st: System, sid: nat, s: Session)
    requires Inv(cfg, st) && sid in st.sessions && SessionOk(cfg, sid, s, st.queue)
    requires st.sessions[sid].reader.posted <= s.reader.posted
    requires |st.sessions[sid].reader.nodes| <= |s.reader.nodes|
    ensures Inv(cfg, st.(sessions := st.sessions[sid := s]))
  {
    ReplaceJobs(st, sid, s);
  }

  lemma SameButDown(cfg: Config, st: System, down: bool)
    requires Inv(cfg, st)
    ensures Inv(cfg, st.(down := down))
  {
  }

  lemma OctetStep(cfg: Config, st: System, sid: nat, b: Byte)
    requires Inv(cfg, st)
    ensures Inv(cfg, OctetAt(cfg, st, sid, b))
  {
    if sid in st.sessions && st.sessions[sid].pending == None {
      var s := OnOctet(cfg, sid, st.sessions[sid], b);
      OctetKeeps(cfg, sid, st.sessions[sid], b, st.queue);
      ReplaceSession(cfg, st, sid, s);
      SameButDown(cfg, st.(sessions := st.sessions[sid := s]), s.reader.phase == Reader.Fault);
    }
  }

  lemma FreshOk(cfg: Config, sid: nat, queue: seq<Job>)
    requires Queued(queue, sid) == []
    ensures SessionOk(cfg, sid, Fresh(), queue)
  {
    assert Track(Fresh(), sid, queue) == [];
    assert Reader.Feed(cfg.build, Reader.INIT, []) == Reader.INIT;
  }

  lemma ConnectJobs(st: System, sid: nat)
    requires JobsOk(st) && sid !in st.sessions
    ensures JobsOk(ConnectAt(st, sid)) && Queued(st.queue, sid) == []
  {
    hide JobOk, Fresh;
    NoneQueued(st.queue, sid, st.sessions.Keys);
  }

  lemma ConnectStep(cfg: Config, st: System, sid: nat)
    requires Inv(cfg, st)
    ensures Inv(cfg, ConnectAt(st, sid))
  {
    if sid !in st.sessions {
      var next := ConnectAt(st, sid);
      hide JobsOk, SessionOk, Fresh;
      ConnectJobs(st, sid);
      FreshOk(cfg, sid, st.queue);
      forall other <- next.sessions
        ensures SessionOk(cfg, other, next.sessions[other], next.queue)
      {
        if other != sid {
          assert SessionOk(cfg, other, st.sessions[other], st.queue);
        }
      }
    }
  }

  lemma {:induction false} NoneQueued(queue: seq<Job>, sid: nat, sids: set<nat>)
    requires sid !in sids && forall k :: 0 <= k < |queue| ==> queue[k].sid in sids
    ensures Queued(queue, sid) == []
  {
    if queue == [] {
    } else {
      NoneQueued(queue[1..], sid, sids);
    }
  }

  lemma PostTrack(sid: nat, s: Session, queue: seq<Job>, full: bool)
    requires TrackOk(sid, s, queue) && s.pending.Some? && s.pending.value.sid == sid
    ensures var queue' := if full then queue else queue + [s.pending.value];
      TrackOk(sid, s.(pending := None, clean := s.clean && !full), queue')
  {
    var j := s.pending.value;
    var next := s.(pending := None, clean := s.clean && !full);
    var sent := Indices(s.sender.accepted) + Queued(queue, sid);
    assert Track(s, sid, queue) == sent + [j.index] + [];
    if full {
      DropOne(sent, j.index, [], |s.reader.history|);
      assert Track(next, sid, queue) == sent + [];
    } else {
      QueuedAppend(queue, j, sid);
      assert Track(next, sid, queue + [j]) == Track(s, sid, queue);
    }
  }

  /** A queue matters to a session only for its own jobs. */
  lemma SameQueued(sid: nat, s: Session, queue: seq<Job>, queue': seq<Job>)
    requires TrackOk(sid, s, queue) && Queued(queue', sid) == Queued(queue, sid)
    ensures TrackOk(sid, s, queue')
  {
    assert Track(s, sid, queue') == Track(s, sid, queue);
  }

  lemma PostOthers(cfg: Config, other: nat, s: Session, queue: seq<Job>, j: Job)
    requires SessionOk(cfg, other, s, queue) && j.sid != other
    ensures SessionOk(cfg, other, s, queue + [j])
  {
    QueuedAppend(queue, j, other);
    SameQueued(other, s, queue, queue + [j]);
  }

  /** Sessions that only let go of their pending post keep every job pointing at its node. */
  lemma JobsAppended(st: System, next: System, sid: nat)
    requires JobsOk(st) && sid in st.sessions && st.sessions[sid].pending.Some?
    requires var j := st.sessions[sid].pending.value;
      j.sid == sid && JobOk(st.sessions[sid], j) && j.node < |st.sessions[sid].reader.nodes|
        && (next.queue == st.queue || next.queue == st.queue + [j])
    requires next.sessions.Keys == st.sessions.Keys
    requires forall k <- st.sessions :: next.sessions[k].reader == st.sessions[k].reader
    ensures JobsOk(next)
  {
    forall k | 0 <= k < |next.queue|
      ensures next.queue[k].sid in st.sessions && JobOk(st.sessions[next.queue[k].sid], next.queue[k])
      ensures next.queue[k].node < |st.sessions[next.queue[k].sid].reader.nodes|
    {
      if k < |st.queue| {
        assert next.queue[k] == st.queue[k];
      }
    }
  }

  lemma PostJobs(cfg: Config, st: System, sid: nat)
    requires Inv(cfg, st)
    ensures JobsOk(PostAt(cfg, st, sid))
  {
    hide TrackOk, RepliesOk;
    if sid in st.sessions && st.sessions[sid].pending.Some? {
      assert LocalOk(cfg, sid, st.sessions[sid]);
      JobsAppended(st, PostAt(cfg, st, sid), sid);
    }
  }

  lemma PostStep(cfg: Config, st: System, sid: nat)
    requires Inv(cfg, st)
    ensures Inv(cfg, PostAt(cfg, st, sid))
  {
    hide TrackOk, Track, Increasing, Complete;
    PostJobs(cfg, st, sid);
    if sid in st.sessions && st.sessions[sid].pending != None {
      var s, next := st.sessions[sid], PostAt(cfg, st, sid);
      assert SessionOk(cfg, sid, s, st.queue);
      PostTrack(sid, s, st.queue, |st.queue| >= cfg.recvCap);
      forall other <- next.sessions
        ensures SessionOk(cfg, other, next.sessions[other], next.queue)
      {
        if other != sid {
          assert SessionOk(cfg, other, st.sessions[other], st.queue);
          PostOthers(cfg, other, st.sessions[other], st.queue, s.pending.value);
        }
      }
    }
  }

  lemma IndicesAppend(rs: seq<Reply>, r: Reply)
    ensures Indices(rs + [r]) == Indices(rs) + [r.index]
  {
  }

  lemma FrontJobCounts(queue: seq<Job>, sid: nat)
    requires queue != [] && queue[0].sid == sid
    ensures Queued(queue, sid) == [queue[0].index] + Queued(queue[1..], sid)
  {
  }

  /** The front job became an accepted reply. */
  lemma FrontAnswered(sid: nat, s: Session, next: Session, queue: seq<Job>, r: Reply)
    requires TrackOk(sid, s, queue) && queue != [] && queue[0].sid == sid && r.index == queue[0].index
    requires next.sender.accepted == s.sender.accepted + [r]
    requires next.reader == s.reader && next.pending == s.pending && (next.clean ==> s.clean)
    ensures TrackOk(sid, next, queue[1..])
  {
    FrontJobCounts(queue, sid);
    IndicesAppend(s.sender.accepted, r);
    assert Track(next, sid, queue[1..]) == Track(s, sid, queue);
  }

  lemma Regroup(a: seq<nat>, x: nat, b: seq<nat>, c: seq<nat>)
    ensures a + ([x] + b) + c == a + [x] + (b + c) && a + b + c == a + (b + c)
  {
  }

  /** The front job was dropped. */
  lemma FrontDropped(sid: nat, s: Session, next: Session, queue: seq<Job>)
    requires TrackOk(sid, s, queue) && queue != [] && queue[0].sid == sid
    requires next.sender.accepted == s.sender.accepted
    requires next.reader == s.reader && next.pending == s.pending && !next.clean
    ensures TrackOk(sid, next, queue[1..])
  {
    var x, before := queue[0].index, Indices(s.sender.accepted);
    var queued, waiting := Queued(queue[1..], sid), Waiting(s.pending);
    FrontJobCounts(queue, sid);
    Regroup(before, x, queued, waiting);
    DropOne(before, x, queued + waiting, |s.reader.history|);
  }

  lemma DispatchTrack(cfg: Config, sid: nat, s: Session, queue: seq<Job>, next: Session)
    requires TrackOk(sid, s, queue) && queue != [] && queue[0].sid == sid && queue[0].node < |s.reader.nodes|
    requires OnDispatch(cfg, s, queue[0]) == Some(next)
    ensures TrackOk(sid, next, queue[1..])
  {
    hide SendFrame;
    if next.sender.accepted != s.sender.accepted {
      FrontAnswered(sid, s, next, queue, next.sender.accepted[|s.sender.accepted|]);
    } else {
      FrontDropped(sid, s, next, queue);
    }
  }

  lemma DispatchLocal(cfg: Config, sid: nat, s: Session, j: Job, next: Session)
    requires LocalOk(cfg, sid, s) && JobOk(s, j) && j.node < |s.reader.nodes|
    requires OnDispatch(cfg, s, j) == Some(next)
    ensures LocalOk(cfg, sid, next)
  {
    var node := s.reader.nodes[j.node];
    var m := Message(node.id, node.bytes);
    var answer := Answer(cfg, m);
    var sent := SendFrame(answer.body, answer.id);
    hide SendFrame;
    if node.id in cfg.registered && sent.Some? {
      Sender.InvStep(Sender.Session(cfg.sendCap), s.sender, Sender.Event<Reply>.Send(Reply(j.index, sent.value)));
      if s.reader.reused == 0 {
        assert s.reader.history[j.index] == m;
      }
    }
  }

  lemma OtherJobDoesNotCount(queue: seq<Job>, sid: nat)
    requires queue != [] && queue[0].sid != sid
    ensures Queued(queue[1..], sid) == Queued(queue, sid)
  {
  }

  lemma DispatchOther(cfg: Config, other: nat, s: Session, queue: seq<Job>)
    requires SessionOk(cfg, other, s, queue) && queue != [] && queue[0].sid != other
    ensures SessionOk(cfg, other, s, queue[1..])
  {
    OtherJobDoesNotCount(queue, other);
    SameQueued(other, s, queue, queue[1..]);
  }

  lemma DispatchSession(cfg: Config, sid: nat, s: Session, queue: seq<Job>, next: Session)
    requires SessionOk(cfg, sid, s, queue) && queue != [] && queue[0].sid == sid
    requires JobOk(s, queue[0]) && queue[0].node < |s.reader.nodes|
    requires OnDispatch(cfg, s, queue[0]) == Some(next)
    ensures SessionOk(cfg, sid, next, queue[1..]) && next.reader == s.reader
  {
    DispatchTrack(cfg, sid, s, queue, next);
    DispatchLocal(cfg, sid, s, queue[0], next);
  }

  /** Sessions whose reader did not change keep every job pointing at its node. */
  lemma JobsKept(st: System, next: System)
    requires JobsOk(st) && st.queue != [] && next.queue == st.queue[1..]
    requires st.sessions.Keys <= next.sessions.Keys
    requires forall sid <- st.sessions :: next.sessions[sid].reader == st.sessions[sid].reader
    ensures JobsOk(next)
  {
    forall k | 0 <= k < |next.queue|
      ensures next.queue[k] == st.queue[k + 1]
    {
    }
  }

  lemma DispatchStep(cfg: Config, st: System)
    requires Inv(cfg, st) && CanDispatch(st)
    ensures Inv(cfg, DispatchFront(cfg, st))
  {
    var j := st.queue[0];
    match OnDispatch(cfg, st.sessions[j.sid], j) {
      case None => SameButDown(cfg, st, true);
      case Some(s) => FrontDispatched(cfg, st, s);
    }
  }

  lemma FrontDispatched(cfg: Config, st: System, s: Session)
    requires Inv(cfg, st) && CanDispatch(st)
    requires OnDispatch(cfg, st.sessions[st.queue[0].sid], st.queue[0]) == Some(s)
    ensures Inv(cfg, st.(sessions := st.sessions[st.queue[0].sid := s], queue := st.queue[1..]))
  {
    var j := st.queue[0];
    var next := st.(sessions := st.sessions[j.sid := s], queue := st.queue[1..]);
    assert SessionOk(cfg, j.sid, st.sessions[j.sid], st.queue);
    DispatchSession(cfg, j.sid, st.sessions[j.sid], st.queue, s);
    JobsKept(st, next);
    hide OnDispatch, LocalOk, TrackOk;
    forall other <- st.sessions | other != j.sid
      ensures SessionOk(cfg, other, next.sessions[other], next.queue)
    {
      DispatchOther(cfg, other, st.sessions[other], st.queue);
    }
  }

  lemma WriteKeeps(cfg: Config, sid: nat, s: Session, e: Sender.Event<Reply>, queue: seq<Job>)
    requires SessionOk(cfg, sid, s, queue) && !e.Send?
    ensures SessionOk(cfg, sid, OnWrite(cfg, s, e), queue) && OnWrite(cfg, s, e).reader == s.reader
  {
    Sender.InvStep(Sender.Session(cfg.sendCap), s.sender, e);
    assert OnWrite(cfg, s, e).sender.accepted == s.sender.accepted;
    assert Track(OnWrite(cfg, s, e), sid, queue) == Track(s, sid, queue);
  }

  lemma WriteStep(cfg: Config, st: System, sid: nat, e: Sender.Event<Reply>)
    requires Inv(cfg, st) && !e.Send?
    ensures Inv(cfg, WriteAt(cfg, st, sid, e))
  {
    if sid in st.sessions {
      WriteKeeps(cfg, sid, st.sessions[sid], e, st.queue);
      ReplaceSession(cfg, st, sid, OnWrite(cfg, st.sessions[sid], e));
    }
  }

  lemma FrontIsThere(cfg: Config, st: System)
    requires Inv(cfg, st) && st.queue != []
    ensures CanDispatch(st)
  {
  }

  lemma InvStep(cfg: Config, st: System, e: Event)
    requires Inv(cfg, st)
    ensures Inv(cfg, Step(cfg, st, e))
  {
    hide SessionsOk, JobsOk, SessionOk, CanDispatch, ConnectAt, OctetAt, PostAt, DispatchFront, WriteAt;
    match e {
      case Connect(sid) => ConnectStep(cfg, st, sid);
      case Octet(sid, b) => OctetStep(cfg, st, sid, b);
      case Post(sid) => PostStep(cfg, st, sid);
      case Dispatch =>
        if st.queue != [] {
          FrontIsThere(cfg, st);
          DispatchStep(cfg, st);
        }
      case WriteDone(sid, i) => WriteStep(cfg, st, sid, Sender.Done(i));
      case WriteFailed(sid, i, sent) => WriteStep(cfg, st, sid, Sender.Failed(i, sent));
    }
  }

  function Run(cfg: Config, st: System, es: seq<Event>): (end: System)
    requires Inv(cfg, st)
    ensures Inv(cfg, end)
    decreases |es|
  {
    if es == [] then st else
    InvStep(cfg, st, es[0]);
    Run(cfg, Step(cfg, st, es[0]), es[1..])
  }

  // ---------------------------------------------------------------- what is possible is done

  /** A new connection starts with nothing read, nothing pending and nothing to send. */
  lemma ConnectTaken(cfg: Config, st: System, sid: nat)
    requires Inv(cfg, st) && !st.down && sid !in st.sessions
    ensures var next := Step(cfg, st, Connect(sid));
      && next.sessions == st.sessions[sid := Session([], Reader.INIT, None, Sender.Empty<Reply>(), true)]
      && next.queue == st.queue && !next.down
  {
  }

  /** A session none of whose posts is waiting takes every octet that arrives. */
  lemma OctetTaken(cfg: Config, st: System, sid: nat, b: Byte)
    requires Inv(cfg, st) && !st.down && sid in st.sessions && st.sessions[sid].pending == None
    ensures var s, next := st.sessions[sid], Step(cfg, st, Octet(sid, b));
      && sid in next.sessions && next.sessions[sid].received == s.received + [b]
      && next.sessions[sid].reader == Reader.Feed(cfg.build, Reader.INIT, s.received + [b])
      && next.sessions[sid].sender == s.sender && next.queue == st.queue
  {
    var s := st.sessions[sid];
    assert SessionOk(cfg, sid, s, st.queue);
    OctetReader(cfg, sid, s, b);
  }

  /** A waiting post goes to the back of the logic queue; it is dropped only if that is full. */
  lemma PostTaken(cfg: Config, st: System, sid: nat)
    requires Inv(cfg, st) && !st.down && sid in st.sessions && st.sessions[sid].pending.Some?
    ensures var s, next := st.sessions[sid], Step(cfg, st, Post(sid));
      && next.queue == (if |st.queue| < cfg.recvCap then st.queue + [s.pending.value] else st.queue)
      && sid in next.sessions && next.sessions[sid].pending == None && !next.down
      && next.sessions[sid].sender == s.sender && next.sessions[sid].reader == s.reader
  {
  }

  lemma DispatchIsFront(cfg: Config, st: System, sid: nat)
    requires Inv(cfg, st) && !st.down && CanDispatch(st)
    ensures Step(cfg, st, Dispatch) == DispatchFront(cfg, st)
    ensures st.queue[0].sid == sid && DispatchUndisturbed(cfg, st.sessions[sid], st.queue[0]) ==>
      StepUndisturbed(cfg, st, Dispatch, sid)
  {
    hide Inv, DispatchFront, DispatchUndisturbed;
  }

  lemma WriteIsTaken(cfg: Config, st: System, sid: nat, i: nat, sent: nat)
    requires Inv(cfg, st) && !st.down
    ensures Step(cfg, st, WriteDone(sid, i)) == WriteAt(cfg, st, sid, Sender.Done(i))
    ensures Step(cfg, st, WriteFailed(sid, i, sent)) == WriteAt(cfg, st, sid, Sender.Failed(i, sent))
  {
    hide Inv, WriteAt;
  }

  lemma UnknownIdLocal(cfg: Config, s: Session, j: Job)
    requires j.node < |s.reader.nodes| && s.reader.nodes[j.node].id !in cfg.registered
    ensures OnDispatch(cfg, s, j).Some? && OnDispatch(cfg, s, j).value.sender == s.sender
  {
  }

  /** A message whose id has no callback leaves the queue, and nothing else happens: nothing is sent and
      the process goes on. */
  lemma UnknownIdIsSilent(cfg: Config, st: System)
    requires Inv(cfg, st) && !st.down && CanDispatch(st)
    requires var j := st.queue[0]; st.sessions[j.sid].reader.nodes[j.node].id !in cfg.registered
    ensures var sid, next := st.queue[0].sid, Step(cfg, st, Dispatch);
      && next.queue == st.queue[1..] && !next.down && next.sessions.Keys == st.sessions.Keys
      && next.sessions[sid].sender == st.sessions[sid].sender
      && forall other <- st.sessions :: other != sid ==> next.sessions[other] == st.sessions[other]
  {
    var j := st.queue[0];
    assert j.sid in st.sessions && j.node < |st.sessions[j.sid].reader.nodes|;
    hide Inv, Step, OnDispatch;
    UnknownIdLocal(cfg, st.sessions[j.sid], j);
    DispatchIsFront(cfg, st, j.sid);
  }

  lemma FullSendQueueLocal(cfg: Config, s: Session, j: Job)
    requires j.node < |s.reader.nodes| && |s.sender.queue| >= cfg.sendCap
    ensures OnDispatch(cfg, s, j).Some?
    ensures OnDispatch(cfg, s, j).value.sender.(refused := []) == s.sender.(refused := [])
  {
    hide SendFrame;
  }

  /** So does one whose session has a full send queue. */
  lemma FullSendQueueIsSilent(cfg: Config, st: System)
    requires Inv(cfg, st) && !st.down && CanDispatch(st)
    requires |st.sessions[st.queue[0].sid].sender.queue| >= cfg.sendCap
    ensures var sid, next := st.queue[0].sid, Step(cfg, st, Dispatch);
      && next.queue == st.queue[1..] && !next.down && next.sessions.Keys == st.sessions.Keys
      && next.sessions[sid].sender.(refused := []) == st.sessions[sid].sender.(refused := [])
      && forall other <- st.sessions :: other != sid ==> next.sessions[other] == st.sessions[other]
  {
    var j := st.queue[0];
    assert j.sid in st.sessions && j.node < |st.sessions[j.sid].reader.nodes|;
    hide Inv, Step, OnDispatch;
    FullSendQueueLocal(cfg, st.sessions[j.sid], j);
    DispatchIsFront(cfg, st, j.sid);
  }

  /** Every other dispatch accepts one reply: the frame of the answer to the message that was posted, under
      the id of the request. */
  lemma DispatchAnswers(cfg: Config, st: System, m: Message)
    requires Inv(cfg, st) && !st.down && CanDispatch(st)
    requires var j := st.queue[0];
      var s := st.sessions[j.sid];
      && s.reader.reused == 0 && j.index < |s.reader.history| && s.reader.history[j.index] == m
      && |s.sender.queue| < cfg.sendCap
    requires m.id in cfg.registered && Framable(Message(m.id, cfg.reply(m)))
    ensures var j, next := st.queue[0], Step(cfg, st, Dispatch);
      && next.queue == st.queue[1..] && !next.down && j.sid in next.sessions
      && next.sessions[j.sid].sender.accepted
        == st.sessions[j.sid].sender.accepted + [Reply(j.index, Frame(Narrowed(Message(m.id, cfg.reply(m)))))]
      && next.sessions[j.sid].sender.queue
        == st.sessions[j.sid].sender.queue + [Reply(j.index, Frame(Narrowed(Message(m.id, cfg.reply(m)))))]
  {
    var j := st.queue[0];
    var s := st.sessions[j.sid];
    assert SessionOk(cfg, j.sid, s, st.queue) && JobOk(s, j);
    JobOfCleanReader(cfg, s, j);
    SendFrameIsFrame(Message(m.id, cfg.reply(m)));
    hide Inv, Step, OnDispatch, SendFrame, Narrowed, Frame, Framable;
    DispatchIsFront(cfg, st, j.sid);
    AnswerLocal(cfg, s, j, m, Frame(Narrowed(Message(m.id, cfg.reply(m)))));
  }

  lemma AnswerLocal(cfg: Config, s: Session, j: Job, m: Message, frame: seq<Byte>)
    requires j.node < |s.reader.nodes| && Message(s.reader.nodes[j.node].id, s.reader.nodes[j.node].bytes) == m
    requires m.id in cfg.registered && |s.sender.queue| < cfg.sendCap && SendFrame(cfg.reply(m), m.id) == Some(frame)
    ensures OnDispatch(cfg, s, j).Some?
    ensures var next := OnDispatch(cfg, s, j).value;
      && next.sender.accepted == s.sender.accepted + [Reply(j.index, frame)]
      && next.sender.queue == s.sender.queue + [Reply(j.index, frame)]
  {
    hide SendFrame;
  }

  /** A failed write breaks the session off behind the octets that had gone out. */
  lemma FailureBreaksOff(cfg: Config, st: System, sid: nat, sent: nat)
    requires Inv(cfg, st) && !st.down && sid in st.sessions
    requires st.sessions[sid].sender.queue != [] && st.sessions[sid].sender.broken == None
    ensures var s, next := st.sessions[sid], Step(cfg, st, WriteFailed(sid, 0, sent));
      && sid in next.sessions && next.sessions[sid].sender.broken == Some((s.sender.queue[0], sent))
      && next.sessions[sid].sender.written == s.sender.written && next.sessions[sid].sender.writing == []
  {
    var s := st.sessions[sid];
    SenderKept(cfg, st, sid);
    assert s.sender.writing != [];
    hide *;
    Sender.FailedStops(Sender.Session(cfg.sendCap), s.sender, sent);
    FailedLocal(cfg, s, sent);
    WriteIsTaken(cfg, st, sid, 0, sent);
    WriteAtSession(cfg, st, sid, Sender.Failed(0, sent));
  }

  lemma WriteAtSession(cfg: Config, st: System, sid: nat, e: Sender.Event<Reply>)
    requires sid in st.sessions
    ensures var next := WriteAt(cfg, st, sid, e);
      sid in next.sessions && next.sessions[sid] == OnWrite(cfg, st.sessions[sid], e)
  {
    hide OnWrite;
  }

  lemma FailedLocal(cfg: Config, s: Session, sent: nat)
    requires s.sender.queue != []
    requires Sender.Step(Sender.Session(cfg.sendCap), s.sender, Sender.Failed(0, sent))
      == Some(s.sender.(writing := [], broken := Some((s.sender.queue[0], sent))))
    ensures var next := OnWrite(cfg, s, Sender.Failed(0, sent));
      && next.sender.broken == Some((s.sender.queue[0], sent)) && next.sender.written == s.sender.written
      && next.sender.writing == []
  {
    hide Sender.Step;
  }

  lemma DispatchGoesDownIff(cfg: Config, st: System)
    requires CanDispatch(st) && !st.down
    ensures DispatchFront(cfg, st).down <==>
      var s, j := st.sessions[st.queue[0].sid], st.queue[0];
      var m := Message(s.reader.nodes[j.node].id, s.reader.nodes[j.node].bytes);
      m.id in cfg.registered && |s.sender.queue| < cfg.sendCap && SendFrame(cfg.reply(m), m.id) == None
  {
    hide SendFrame;
  }

  /** Exactly when the process goes down: an octet faults the session it arrives at, or the callback of a
      registered id makes a reply whose node cannot be built, for a session with room in its send queue. */
  lemma GoesDownIff(cfg: Config, st: System, e: Event)
    requires Inv(cfg, st) && !st.down
    ensures Step(cfg, st, e).down <==>
      || (&& e.Octet? && e.sid in st.sessions && st.sessions[e.sid].pending == None
          && Reader.OnByte(cfg.build, st.sessions[e.sid].reader, e.b).phase == Reader.Fault)
      || (&& e.Dispatch? && CanDispatch(st)
          && var s, j := st.sessions[st.queue[0].sid], st.queue[0];
            var m := Message(s.reader.nodes[j.node].id, s.reader.nodes[j.node].bytes);
            && m.id in cfg.registered && |s.sender.queue| < cfg.sendCap
            && SendFrame(cfg.reply(m), m.id) == None)
  {
    if e.Dispatch? && st.queue != [] {
      FrontIsThere(cfg, st);
      DispatchGoesDownIff(cfg, st);
    }
    hide Inv, DispatchFront, SendFrame, Reader.OnByte;
  }

  // ---------------------------------------------------------------- no aliasing in the logic queue

  lemma IncreasingBehind(xs: seq<nat>, ys: seq<nat>, bound: nat)
    requires Increasing(xs + ys, bound)
    ensures Increasing(ys, bound)
    ensures forall x <- xs, y <- ys :: x < y
  {
    var both := xs + ys;
    assert forall k :: 0 <= k < |ys| ==> ys[k] == both[|xs| + k];
    forall x <- xs, y <- ys
      ensures x < y
    {
      var i, j :| 0 <= i < |xs| && xs[i] == x && 0 <= j < |ys| && ys[j] == y;
      assert both[i] == x && both[|xs| + j] == y;
    }
  }

  /** Of two queued jobs of one session, the one further back is for a later message. */
  lemma {:induction false} QueuedInOrder(queue: seq<Job>, sid: nat, a: nat, b: nat, bound: nat)
    requires a < b < |queue| && queue[a].sid == queue[b].sid == sid && Increasing(Queued(queue, sid), bound)
    ensures queue[a].index < queue[b].index
  {
    IncreasingBehind(Own(queue[0], sid), Queued(queue[1..], sid), bound);
    QueuedHas(queue[1..], sid, b - 1);
    hide Increasing, Queued;
    if a == 0 {
      assert queue[a].index in Own(queue[0], sid);
    } else {
      QueuedInOrder(queue[1..], sid, a - 1, b - 1, bound);
    }
  }

  lemma {:induction false} QueuedHas(queue: seq<Job>, sid: nat, a: nat)
    requires a < |queue| && queue[a].sid == sid
    ensures queue[a].index in Queued(queue, sid)
  {
    if a == 0 {
    } else {
      QueuedHas(queue[1..], sid, a - 1);
    }
  }

  lemma Inner(a: seq<nat>, b: seq<nat>, c: seq<nat>, bound: nat)
    requires Increasing(a + b + c, bound)
    ensures Increasing(b, bound)
  {
    var all := a + b + c;
    assert forall k :: 0 <= k < |b| ==> b[k] == all[|a| + k];
  }

  lemma QueuedIsIncreasing(cfg: Config, sid: nat, s: Session, queue: seq<Job>)
    requires SessionOk(cfg, sid, s, queue)
    ensures Increasing(Queued(queue, sid), |s.reader.history|)
  {
    hide LocalOk, Indices, Queued;
    Inner(Indices(s.sender.accepted), Queued(queue, sid), Waiting(s.pending), |s.reader.history|);
  }

  /** The node a queued job of this session points at holds the message that was posted with it, and is
      not the one being filled. */
  ghost predicate JobHolds(s: Session, j: Job)
  {
    && j.node < |s.reader.nodes| && j.index < |s.reader.history|
    && s.reader.history[j.index] == Message(s.reader.nodes[j.node].id, s.reader.nodes[j.node].bytes)
    && (s.reader.phase == Reader.ReadBody && s.reader.current.Some? ==> s.reader.current.value != j.node)
  }

  lemma JobOfCleanReader(cfg: Config, s: Session, j: Job)
    requires ReaderOk(cfg, s) && JobOk(s, j) && s.reader.reused == 0
    ensures JobHolds(s, j)
  {
    assert s.reader.posted[j.index] == j.node;
  }

  /** Over every run: the logic queue holds, of every session in whose stream no header was rejected,
      pairwise distinct nodes, none of them being filled, each with the octets it was posted with. */
  lemma QueueHoldsNoAlias(cfg: Config, es: seq<Event>, sid: nat, a: nat, b: nat)
    requires sid in Run(cfg, START, es).sessions && Run(cfg, START, es).sessions[sid].reader.reused == 0
    requires a < |Run(cfg, START, es).queue| && Run(cfg, START, es).queue[a].sid == sid
    ensures var end := Run(cfg, START, es);
      && JobHolds(end.sessions[sid], end.queue[a])
      && (b < |end.queue| && b != a && end.queue[b].sid == sid ==> end.queue[b].node != end.queue[a].node)
  {
    var end := Run(cfg, START, es);
    var s := end.sessions[sid];
    assert SessionOk(cfg, sid, s, end.queue);
    assert JobOk(s, end.queue[a]);
    JobOfCleanReader(cfg, s, end.queue[a]);
    if b < |end.queue| && b != a && end.queue[b].sid == sid {
      var x, y := if a < b then a else b, if a < b then b else a;
      QueuedIsIncreasing(cfg, sid, s, end.queue);
      QueuedInOrder(end.queue, sid, x, y, |s.reader.history|);
      assert JobOk(s, end.queue[b]);
      assert s.reader.posted[end.queue[x].index] != s.reader.posted[end.queue[y].index];
    }
  }

  // ---------------------------------------------------------------- what the peers see

  /** The octets a session has written: whole frames, then what went out before a failed write broke off. */
  function WireOf(s: Session): seq<Byte>
  {
    Octets(s.sender.written) +
    match s.sender.broken
    case None => []
    case Some((r, sent)) => if sent <= |r.frame| then r.frame[..sent] else r.frame
  }

  function Octets(rs: seq<Reply>): seq<Byte>
  {
    if rs == [] then [] else rs[0].frame + Octets(rs[1..])
  }

  /** The answers to the requests at the given positions. */
  function AnswersAt(cfg: Config, history: seq<Message>, ix: seq<nat>): (ms: seq<Message>)
    requires Increasing(ix, |history|)
    ensures |ms| == |ix|
  {
    seq(|ix|, k requires 0 <= k < |ix| => Answer(cfg, history[ix[k]]))
  }

  /** A node can be built for each of them. */
  ghost predicate AllFramable(ms: seq<Message>)
  {
    forall k :: 0 <= k < |ms| ==> Framable(ms[k])
  }

  lemma {:induction false} OctetsAreFrames(rs: seq<Reply>, ms: seq<Message>)
    requires |rs| == |ms| && forall k :: 0 <= k < |rs| ==> rs[k].frame == Frame(ms[k])
    ensures Octets(rs) == Frames(ms)
  {
    if rs == [] {
    } else {
      OctetsAreFrames(rs[1..], ms[1..]);
    }
  }

  lemma TrackPrefix(xs: seq<nat>, ys: seq<nat>, bound: nat)
    requires Increasing(xs, bound) && ys <= xs
    ensures Increasing(ys, bound)
  {
  }

  /** The replies of which the peer has seen anything: written in full, then the one a failed write cut off. */
  function Begun(s: Session): seq<Reply>
  {
    s.sender.written + match s.sender.broken case None => [] case Some((r, _)) => [r]
  }

  lemma BegunOk(cfg: Config, sid: nat, s: Session, queue: seq<Job>)
    requires SessionOk(cfg, sid, s, queue)
    ensures Begun(s) <= s.sender.accepted && Increasing(Indices(Begun(s)), |s.reader.history|)
  {
    var sent := Begun(s);
    assert forall k :: 0 <= k < |sent| ==> sent[k] == s.sender.accepted[k];
    assert Indices(sent) <= Indices(s.sender.accepted) <= Track(s, sid, queue);
    TrackPrefix(Track(s, sid, queue), Indices(sent), |s.reader.history|);
  }

  lemma WrittenOk(cfg: Config, sid: nat, s: Session, queue: seq<Job>)
    requires SessionOk(cfg, sid, s, queue)
    ensures Increasing(Indices(s.sender.written), |s.reader.history|)
    ensures s.reader.reused == 0 ==>
      var answers := AnswersAt(cfg, s.reader.history, Indices(s.sender.written));
      && AllRegistered(cfg, s.reader.history, Indices(s.sender.written))
      && AllFramable(answers) && Octets(s.sender.written) == Frames(AllNarrowed(answers))
  {
    var written := s.sender.written;
    BegunOk(cfg, sid, s, queue);
    assert forall k :: 0 <= k < |written| ==> written[k] == s.sender.accepted[k];
    assert Indices(written) <= Indices(Begun(s));
    TrackPrefix(Indices(Begun(s)), Indices(written), |s.reader.history|);
    if s.reader.reused == 0 {
      var answers := AnswersAt(cfg, s.reader.history, Indices(written));
      forall k | 0 <= k < |written|
        ensures Framable(answers[k]) && written[k].frame == Frame(AllNarrowed(answers)[k])
      {
        assert Answers(cfg, s.reader.history[written[k].index], written[k].frame);
        SendFrameIsFrame(answers[k]);
      }
      OctetsAreFrames(written, AllNarrowed(answers));
    }
  }

  /** The requests at these positions have a callback. */
  ghost predicate AllRegistered(cfg: Config, history: seq<Message>, ix: seq<nat>)
    requires Increasing(ix, |history|)
  {
    forall k :: 0 <= k < |ix| ==> history[ix[k]].id in cfg.registered
  }

  /** The wire is whole frames: those that sending the answers to the requests at these positions makes,
      all of them requests with a registered id. */
  ghost predicate CarriesWhole(cfg: Config, s: Session, ix: seq<nat>)
  {
    && Increasing(ix, |s.reader.history|) && AllRegistered(cfg, s.reader.history, ix)
    && AllFramable(AnswersAt(cfg, s.reader.history, ix))
    && WireOf(s) == Frames(AllNarrowed(AnswersAt(cfg, s.reader.history, ix)))
  }

  /** Behind the frames of the answers to the requests at these positions, the wire ends in a front part
      of the frame of the answer to one later request. */
  ghost predicate CarriesCut(cfg: Config, s: Session, ix: seq<nat>, next: nat, cut: seq<Byte>)
  {
    var history := s.reader.history;
    && Increasing(ix, |history|) && Increasing(ix + [next], |history|) && next < |history|
    && AllRegistered(cfg, history, ix) && history[next].id in cfg.registered
    && AllFramable(AnswersAt(cfg, history, ix)) && Framable(Answer(cfg, history[next]))
    && WireOf(s) == Frames(AllNarrowed(AnswersAt(cfg, history, ix))) + cut
    && cut <= Frame(Narrowed(Answer(cfg, history[next])))
  }

  lemma WholeWire(cfg: Config, sid: nat, s: Session, queue: seq<Job>)
    requires SessionOk(cfg, sid, s, queue) && s.reader.reused == 0 && s.sender.broken == None
    ensures CarriesWhole(cfg, s, Indices(s.sender.written))
  {
    WrittenOk(cfg, sid, s, queue);
    assert WireOf(s) == Octets(s.sender.written);
  }

  lemma CutWire(cfg: Config, sid: nat, s: Session, queue: seq<Job>, r: Reply, sent: nat)
    requires SessionOk(cfg, sid, s, queue) && s.reader.reused == 0 && s.sender.broken == Some((r, sent))
    ensures var cut := if sent <= |r.frame| then r.frame[..sent] else r.frame;
      CarriesCut(cfg, s, Indices(s.sender.written), r.index, cut)
  {
    WrittenOk(cfg, sid, s, queue);
    BegunOk(cfg, sid, s, queue);
    IndicesAppend(s.sender.written, r);
    var k := |s.sender.written|;
    assert Begun(s)[k] == s.sender.accepted[k] == r;
    assert Answers(cfg, s.reader.history[r.index], r.frame);
    SendFrameIsFrame(Answer(cfg, s.reader.history[r.index]));
  }

  /** Over every run, with replies of any length: what a session has read is what its stream says, and
      the replies it has begun to write answer requests of its own, in order, none twice. If its stream
      contained no rejected header, all of those requests have a registered id, and the octets on its
      wire are the frames that sending those replies makes; after a failed write they end in a front part
      of the frame of the next one. The other sessions may send anything; should one of them fault, the
      process stops where it is. */
  lemma WireCarriesReplies(cfg: Config, es: seq<Event>, sid: nat)
    requires sid in Run(cfg, START, es).sessions
    ensures var s := Run(cfg, START, es).sessions[sid];
      && s.reader.history == Reader.Parse(cfg.build, None, s.received)
      && Increasing(Indices(Begun(s)), |s.reader.history|)
      && (s.reader.reused == 0 ==>
            if s.sender.broken == None then exists ix :: CarriesWhole(cfg, s, ix)
            else exists ix, next, cut :: CarriesCut(cfg, s, ix, next, cut))
  {
    var end := Run(cfg, START, es);
    var s := end.sessions[sid];
    assert SessionOk(cfg, sid, s, end.queue);
    Reader.FeedParses(cfg.build, Reader.INIT, s.received);
    BegunOk(cfg, sid, s, end.queue);
    if s.reader.reused == 0 {
      match s.sender.broken {
        case None => WholeWire(cfg, sid, s, end.queue);
        case Some((r, sent)) => CutWire(cfg, sid, s, end.queue, r, sent);
      }
    }
  }

  /** Where the answers fit a frame, the frames on the wire are those of the answers themselves. */
  lemma FittingRepliesAreWhole(cfg: Config, s: Session, ix: seq<nat>)
    requires CarriesWhole(cfg, s, ix) && Sendable(AnswersAt(cfg, s.reader.history, ix))
    ensures WireOf(s) == Frames(AnswersAt(cfg, s.reader.history, ix))
  {
    FittingAreWhole(AnswersAt(cfg, s.reader.history, ix));
  }

  /** No step of the run found a full queue or an unknown id where this session was concerned. */
  ghost predicate Undisturbed(cfg: Config, st: System, es: seq<Event>, sid: nat)
    requires Inv(cfg, st)
    decreases |es|
  {
    es == [] ||
    (InvStep(cfg, st, es[0]);
     && StepUndisturbed(cfg, st, es[0], sid)
     && Undisturbed(cfg, Step(cfg, st, es[0]), es[1..], sid))
  }

  /** What the step asks of the queues and the callback map on this session's behalf. */
  ghost predicate StepUndisturbed(cfg: Config, st: System, e: Event, sid: nat)
    requires Inv(cfg, st)
  {
    || st.down
    || (&& (e == Post(sid) ==> |st.queue| < cfg.recvCap)
        && (e == Dispatch && st.queue != [] && st.queue[0].sid == sid ==>
              DispatchUndisturbed(cfg, st.sessions[sid], st.queue[0])))
  }

  ghost predicate DispatchUndisturbed(cfg: Config, s: Session, j: Job)
    requires j.node < |s.reader.nodes|
  {
    |s.sender.queue| < cfg.sendCap && s.reader.nodes[j.node].id in cfg.registered
  }

  /** The step left the session's record as clean, or as unclean, as it was. */
  ghost predicate AsClean(st: System, next: System, sid: nat)
    requires sid in st.sessions
  {
    sid in next.sessions && next.sessions[sid].clean == st.sessions[sid].clean
  }

  lemma CleanConnect(st: System, k: nat, sid: nat)
    requires sid in st.sessions
    ensures AsClean(st, ConnectAt(st, k), sid)
  {
  }

  lemma CleanDispatch(cfg: Config, st: System, sid: nat)
    requires CanDispatch(st) && sid in st.sessions
    requires st.queue[0].sid == sid ==> DispatchUndisturbed(cfg, st.sessions[sid], st.queue[0])
    ensures AsClean(st, DispatchFront(cfg, st), sid)
  {
  }

  lemma CleanOctet(cfg: Config, st: System, k: nat, b: Byte, sid: nat)
    requires sid in st.sessions && (k in st.sessions ==> Reader.Good(st.sessions[k].reader))
    ensures AsClean(st, OctetAt(cfg, st, k, b), sid)
  {
  }

  lemma CleanWrite(cfg: Config, st: System, k: nat, e: Sender.Event<Reply>, sid: nat)
    requires sid in st.sessions
    ensures AsClean(st, WriteAt(cfg, st, k, e), sid)
  {
  }

  lemma CleanPost(cfg: Config, st: System, k: nat, sid: nat)
    requires sid in st.sessions && (k == sid ==> |st.queue| < cfg.recvCap)
    ensures AsClean(st, PostAt(cfg, st, k), sid)
  {
  }

  lemma CleanWritten(cfg: Config, st: System, e: Event, sid: nat, next: System)
    requires Inv(cfg, st) && sid in st.sessions && next == Step(cfg, st, e) && (e.WriteDone? || e.WriteFailed?)
    ensures AsClean(st, next, sid)
  {
    if st.down {
    } else if e.WriteDone? {
      CleanWrite(cfg, st, e.sid, Sender.Done(e.i), sid);
    } else {
      CleanWrite(cfg, st, e.sid, Sender.Failed(e.i, e.sent), sid);
    }
  }

  lemma CleanStep(cfg: Config, st: System, e: Event, sid: nat, next: System)
    requires Inv(cfg, st) && StepUndisturbed(cfg, st, e, sid) && sid in st.sessions && next == Step(cfg, st, e)
    ensures AsClean(st, next, sid)
  {
    if st.down {
    } else if e.Post? {
      CleanPost(cfg, st, e.sid, sid);
    } else if e.Dispatch? {
      if st.queue != [] {
        CleanDispatch(cfg, st, sid);
      }
    } else if e.Octet? {
      CleanOctet(cfg, st, e.sid, e.b, sid);
    } else if e.Connect? {
      CleanConnect(st, e.sid, sid);
    } else {
      CleanWritten(cfg, st, e, sid, next);
    }
  }

  lemma ReadersGood(cfg: Config, st: System, sid: nat)
    requires Inv(cfg, st)
    ensures sid in st.sessions ==> Reader.Good(st.sessions[sid].reader)
  {
    if sid in st.sessions {
      assert SessionOk(cfg, sid, st.sessions[sid], st.queue);
    }
  }

  lemma SameSessions(cfg: Config, st: System, sid: nat, b: Byte, e: Sender.Event<Reply>)
    requires sid in st.sessions ==> Reader.Good(st.sessions[sid].reader)
    ensures OctetAt(cfg, st, sid, b).sessions.Keys == st.sessions.Keys
    ensures PostAt(cfg, st, sid).sessions.Keys == st.sessions.Keys
    ensures WriteAt(cfg, st, sid, e).sessions.Keys == st.sessions.Keys
    ensures CanDispatch(st) ==> DispatchFront(cfg, st).sessions.Keys == st.sessions.Keys
  {
    hide OnOctet, OnWrite, OnDispatch, Reader.Good;
  }

  lemma NewIsClean(cfg: Config, st: System, e: Event, sid: nat)
    requires Inv(cfg, st) && sid !in st.sessions && sid in Step(cfg, st, e).sessions
    ensures Step(cfg, st, e).sessions[sid] == Fresh()
  {
    hide SessionsOk, JobsOk, SessionOk, OctetAt, PostAt, DispatchFront, WriteAt, CanDispatch, Fresh;
    hide Reader.Good;
    ReadersGood(cfg, st, if e.Connect? || e.Dispatch? then sid else e.sid);
    match e {
      case Connect(k) =>
      case Octet(k, b) => SameSessions(cfg, st, k, b, Sender.Done(0));
      case Post(k) => SameSessions(cfg, st, k, 0, Sender.Done(0));
      case Dispatch =>
        if st.queue != [] {
          FrontIsThere(cfg, st);
          SameSessions(cfg, st, sid, 0, Sender.Done(0));
        }
      case WriteDone(k, i) => SameSessions(cfg, st, k, 0, Sender.Done(i));
      case WriteFailed(k, i, sent) => SameSessions(cfg, st, k, 0, Sender.Failed(i, sent));
    }
  }

  lemma {:induction false} CleanWhileUndisturbed(cfg: Config, st: System, es: seq<Event>, sid: nat)
    requires Inv(cfg, st) && (sid in st.sessions ==> st.sessions[sid].clean)
    requires Undisturbed(cfg, st, es, sid)
    ensures var end := Run(cfg, st, es); sid in end.sessions ==> end.sessions[sid].clean
    decreases |es|
  {
    if es == [] {
    } else {
      InvStep(cfg, st, es[0]);
      if sid in st.sessions {
        CleanStep(cfg, st, es[0], sid, Step(cfg, st, es[0]));
      } else if sid in Step(cfg, st, es[0]).sessions {
        NewIsClean(cfg, st, es[0], sid);
      }
      CleanWhileUndisturbed(cfg, Step(cfg, st, es[0]), es[1..], sid);
    }
  }

  function AllAnswers(cfg: Config, ms: seq<Message>): (answers: seq<Message>)
    ensures |answers| == |ms|
  {
    seq(|ms|, k requires 0 <= k < |ms| => Answer(cfg, ms[k]))
  }

  /** Nothing of the session is left anywhere between its socket's two directions. */
  ghost predicate Drained(st: System, sid: nat)
    requires sid in st.sessions
  {
    var s := st.sessions[sid];
    && s.pending == None && s.sender.queue == [] && s.sender.broken == None
    && forall k :: 0 <= k < |st.queue| ==> st.queue[k].sid != sid
  }

  lemma {:induction false} NoneOf(queue: seq<Job>, sid: nat)
    requires forall k :: 0 <= k < |queue| ==> queue[k].sid != sid
    ensures Queued(queue, sid) == []
  {
    if queue == [] {
    } else {
      NoneOf(queue[1..], sid);
    }
  }

  /** An upper bound on the steps that are left until a session is drained. */
  function WorkLeft(st: System, sid: nat): nat
    requires sid in st.sessions
  {
    var s := st.sessions[sid];
    3 * |Waiting(s.pending)| + 2 * |st.queue| + |s.sender.queue|
  }

  /** Steps that are the server's own, or the completion of a write. */
  predicate Draining(e: Event)
  {
    e.Post? || e.Dispatch? || e.WriteDone?
  }

  lemma PostDrains(cfg: Config, st: System, sid: nat)
    requires sid in st.sessions && st.sessions[sid].pending.Some?
    ensures var next := PostAt(cfg, st, sid);
      sid in next.sessions && WorkLeft(next, sid) < WorkLeft(st, sid)
        && next.sessions[sid].sender == st.sessions[sid].sender
  {
  }

  lemma DispatchDrains(cfg: Config, st: System, sid: nat)
    requires CanDispatch(st) && sid in st.sessions
    ensures var next := DispatchFront(cfg, st);
      sid in next.sessions && next.sessions[sid].sender.broken == st.sessions[sid].sender.broken
        && (next.down || WorkLeft(next, sid) < WorkLeft(st, sid))
  {
    hide SendFrame;
  }

  lemma WriteDrains(cfg: Config, st: System, sid: nat)
    requires sid in st.sessions && Sender.Inv(Sender.Session(cfg.sendCap), st.sessions[sid].sender)
    requires st.sessions[sid].sender.queue != [] && st.sessions[sid].sender.broken == None
    ensures var next := WriteAt(cfg, st, sid, Sender.Done(0));
      && sid in next.sessions && WorkLeft(next, sid) < WorkLeft(st, sid)
      && next.sessions[sid].sender.broken == None && next.queue == st.queue && next.down == st.down
      && next.sessions[sid].sender.queue == st.sessions[sid].sender.queue[1..]
      && next.sessions[sid].received == st.sessions[sid].received
      && next.sessions[sid].pending == st.sessions[sid].pending
  {
    Sender.DoneKeeps(Sender.Session(cfg.sendCap), st.sessions[sid].sender);
  }

  lemma SenderKept(cfg: Config, st: System, sid: nat)
    requires Inv(cfg, st) && sid in st.sessions
    ensures Sender.Inv(Sender.Session(cfg.sendCap), st.sessions[sid].sender)
  {
    assert SessionOk(cfg, sid, st.sessions[sid], st.queue);
  }

  /** One step closer to the drained session. */
  lemma DrainStep(cfg: Config, st: System, sid: nat) returns (e: Event)
    requires Inv(cfg, st) && sid in st.sessions && st.sessions[sid].sender.broken == None
    requires !st.down && !Drained(st, sid)
    ensures Draining(e)
    ensures var next := Step(cfg, st, e);
      sid in next.sessions && next.sessions[sid].sender.broken == None
        && (next.down || WorkLeft(next, sid) < WorkLeft(st, sid))
  {
    hide SessionsOk, JobsOk, SessionOk, CanDispatch, ConnectAt, OctetAt, PostAt, DispatchFront, WriteAt, WorkLeft;
    SenderKept(cfg, st, sid);
    if st.sessions[sid].pending.Some? {
      e := Post(sid);
      PostDrains(cfg, st, sid);
    } else if st.queue != [] {
      e := Dispatch;
      FrontIsThere(cfg, st);
      DispatchDrains(cfg, st, sid);
    } else {
      e := WriteDone(sid, 0);
      WriteDrains(cfg, st, sid);
    }
  }

  lemma SomeWorkLeft(st: System, sid: nat)
    requires sid in st.sessions && st.sessions[sid].sender.broken == None && !Drained(st, sid)
    ensures WorkLeft(st, sid) > 0
  {
  }

  /** From every reachable state, the server's own steps and the completion of its writes drain any session
      whose writes have not failed, within a bounded number of steps, unless the process goes down. */
  lemma {:induction false} CanDrain(cfg: Config, st: System, sid: nat) returns (es: seq<Event>)
    requires Inv(cfg, st) && sid in st.sessions && st.sessions[sid].sender.broken == None
    ensures |es| <= WorkLeft(st, sid) && forall k :: 0 <= k < |es| ==> Draining(es[k])
    ensures var end := Run(cfg, st, es);
      sid in end.sessions && (end.down || Drained(end, sid))
    decreases WorkLeft(st, sid)
  {
    hide SessionsOk, JobsOk, Step, Drained, WorkLeft;
    if st.down || Drained(st, sid) {
      es := [];
    } else {
      SomeWorkLeft(st, sid);
      var e := DrainStep(cfg, st, sid);
      var next := Step(cfg, st, e);
      InvStep(cfg, st, e);
      var rest: seq<Event> := [];
      if !next.down {
        rest := CanDrain(cfg, next, sid);
      }
      RunFirst(cfg, st, e, rest);
      es := [e] + rest;
    }
  }

  lemma RunFirst(cfg: Config, st: System, e: Event, es: seq<Event>)
    requires Inv(cfg, st)
    ensures Inv(cfg, Step(cfg, st, e)) && Run(cfg, st, [e] + es) == Run(cfg, Step(cfg, st, e), es)
  {
    InvStep(cfg, st, e);
    assert ([e] + es)[1..] == es;
  }

  /** A clean session of which nothing is left anywhere has its answers on the wire. */
  lemma AllOnTheWire(cfg: Config, sid: nat, s: Session, queue: seq<Job>)
    requires SessionOk(cfg, sid, s, queue) && s.clean && s.reader.reused == 0
    requires s.pending == None && s.sender.queue == [] && s.sender.broken == None && Queued(queue, sid) == []
    ensures var answers := AllAnswers(cfg, s.reader.history);
      AllFramable(answers) && WireOf(s) == Frames(AllNarrowed(answers))
  {
    WrittenOk(cfg, sid, s, queue);
    var ix := Indices(s.sender.written);
    assert s.sender.accepted == s.sender.written;
    assert Track(s, sid, queue) == ix;
    assert AnswersAt(cfg, s.reader.history, ix) == AllAnswers(cfg, s.reader.history);
    assert WireOf(s) == Octets(s.sender.written);
  }

  /** If no queue was full, every id was registered, no write failed and the pipeline is empty, the wire
      carries the reply to every request, in order, and nothing else: the frames that sending the replies
      makes, and those of the replies themselves if they fit a frame. */
  lemma EveryRequestAnswered(cfg: Config, es: seq<Event>, sid: nat)
    requires sid in Run(cfg, START, es).sessions
    requires Run(cfg, START, es).sessions[sid].reader.reused == 0 && Undisturbed(cfg, START, es, sid)
    requires Drained(Run(cfg, START, es), sid)
    ensures var s := Run(cfg, START, es).sessions[sid];
      var answers := AllAnswers(cfg, s.reader.history);
      && AllFramable(answers) && WireOf(s) == Frames(AllNarrowed(answers))
      && (Sendable(answers) ==> WireOf(s) == Frames(answers))
  {
    var end := Run(cfg, START, es);
    assert SessionOk(cfg, sid, end.sessions[sid], end.queue);
    CleanWhileUndisturbed(cfg, START, es, sid);
    NoneOf(end.queue, sid);
    hide SessionOk, WireOf, Frames, AllAnswers, AllNarrowed, Sendable;
    AllOnTheWire(cfg, sid, end.sessions[sid], end.queue);
    var answers := AllAnswers(cfg, end.sessions[sid].reader.history);
    if Sendable(answers) {
      FittingAreWhole(answers);
    }
  }

  /** The client reads back the replies as they were if and only if each of them fits its buffer. */
  lemma AnswersReadBack(cfg: Config, ms: seq<Message>, answers: seq<Message>)
    requires answers == AllAnswers(cfg, ms) && AllFramable(answers)
    ensures Client.ReadReplies(Frames(AllNarrowed(answers)), |ms|) == answers <==> Client.FitBuffer(answers)
  {
    Client.ClientReadsSends(answers);
  }

  /** Whatever the other sessions send, a client that frames `ms` has at every moment had exactly a
      prefix of `ms` posted, all of it once all its octets are read. */
  lemma RequestsArePosted(cfg: Config, es: seq<Event>, sid: nat, ms: seq<Message>)
    requires Sendable(ms) && Reader.AllReceivable(cfg.build, ms)
    requires sid in Run(cfg, START, es).sessions && Run(cfg, START, es).sessions[sid].received <= Frames(ms)
    ensures var s := Run(cfg, START, es).sessions[sid];
      s.reader.history <= ms && s.reader.reused == 0 && (s.received == Frames(ms) ==> s.reader.history == ms)
  {
    var end := Run(cfg, START, es);
    var s := end.sessions[sid];
    assert SessionOk(cfg, sid, s, end.queue);
    Reader.PrefixPosted(cfg.build, ms, s.received);
  }

  /** From one client to itself: once `ms` is read and the pipeline has drained without a drop, the
      client reads back exactly the replies to `ms`, one each, in order, if and only if each of these
      replies fits its buffer. */
  lemma RequestsToReplies(cfg: Config, es: seq<Event>, end: System, sid: nat, ms: seq<Message>)
    requires end == Run(cfg, START, es) && sid in end.sessions && Drained(end, sid)
    requires Sendable(ms) && Reader.AllReceivable(cfg.build, ms)
    requires end.sessions[sid].received == Frames(ms) && Undisturbed(cfg, START, es, sid)
    ensures Client.ReadReplies(WireOf(end.sessions[sid]), |ms|) == AllAnswers(cfg, ms)
      <==> Client.FitBuffer(AllAnswers(cfg, ms))
  {
    RequestsArePosted(cfg, es, sid, ms);
    assert end.sessions[sid].reader.history == ms;
    EveryRequestAnswered(cfg, es, sid);
    AnswersReadBack(cfg, ms, AllAnswers(cfg, ms));
  }

  // ---------------------------------------------------------------- the server serves

  /** What a client has to keep to: every message is one the build receives, its id has a callback, and a
      node can be built for the reply. */
  ghost predicate Servable(cfg: Config, ms: seq<Message>)
  {
    && Sendable(ms) && Reader.AllReceivable(cfg.build, ms)
    && forall k :: 0 <= k < |ms| ==> ms[k].id in cfg.registered && Framable(Message(ms[k].id, cfg.reply(ms[k])))
  }

  /** The process is up, the session has read all but `rest` of its client's stream, and at most one message
      is on its way through the server, one of this session. */
  ghost predicate Serving(cfg: Config, st: System, sid: nat, ms: seq<Message>, rest: seq<Byte>)
  {
    && Inv(cfg, st) && !st.down && sid in st.sessions && Servable(cfg, ms)
    && var s := st.sessions[sid];
      && s.received + rest == Frames(ms) && s.sender.broken == None
      && |Waiting(s.pending)| + |st.queue| + |s.sender.queue| <= 1
      && (st.queue != [] ==> st.queue[0].sid == sid)
  }

  lemma ReadByServer(cfg: Config, st: System, sid: nat, ms: seq<Message>, rest: seq<Byte>)
    requires Serving(cfg, st, sid, ms, rest)
    ensures var s := st.sessions[sid];
      && ReaderOk(cfg, s) && s.reader.reused == 0 && s.reader.history <= ms
      && (rest != [] ==> Reader.Feed(cfg.build, Reader.INIT, s.received + [rest[0]]).phase != Reader.Fault)
  {
    var s := st.sessions[sid];
    assert SessionOk(cfg, sid, s, st.queue);
    hide Frames, Inv, SessionOk, Reader.AllReceivable;
    Reader.PrefixPosted(cfg.build, ms, s.received);
    if rest != [] {
      assert s.received + [rest[0]] + rest[1..] == Frames(ms);
      Reader.PrefixNeverFaults(cfg.build, ms, s.received + [rest[0]]);
    }
  }

  lemma StillServing(cfg: Config, next: System, sid: nat, ms: seq<Message>, left: seq<Byte>)
    requires Inv(cfg, next) && !next.down && sid in next.sessions && Servable(cfg, ms)
    requires next.sessions[sid].received + left == Frames(ms) && next.sessions[sid].sender.broken == None
    requires next.queue == [] || (|next.queue| == 1 && next.queue[0].sid == sid && next.sessions[sid].pending == None)
    requires |next.sessions[sid].sender.queue| <= 1
    requires next.sessions[sid].sender.queue != [] ==> next.queue == [] && next.sessions[sid].pending == None
    ensures Serving(cfg, next, sid, ms, left)
  {
  }

  lemma OneRead(received: seq<Byte>, rest: seq<Byte>)
    requires rest != []
    ensures received + [rest[0]] + rest[1..] == received + rest
  {
  }

  lemma OctetFeeds(cfg: Config, sid: nat, s: Session, b: Byte)
    requires ReaderOk(cfg, s)
    ensures Reader.OnByte(cfg.build, s.reader, b) == Reader.Feed(cfg.build, Reader.INIT, s.received + [b])
  {
    OctetReader(cfg, sid, s, b);
  }

  lemma ServeOctet(cfg: Config, st: System, sid: nat, ms: seq<Message>, rest: seq<Byte>)
    requires Serving(cfg, st, sid, ms, rest) && rest != []
    requires st.sessions[sid].pending == None && st.queue == [] && st.sessions[sid].sender.queue == []
    ensures Serving(cfg, Step(cfg, st, Octet(sid, rest[0])), sid, ms, rest[1..])
  {
    var s, b := st.sessions[sid], rest[0];
    assert Inv(cfg, st) && Servable(cfg, ms) && s.received + rest == Frames(ms) && s.sender.broken == None;
    hide *;
    ReadByServer(cfg, st, sid, ms, rest);
    OctetTaken(cfg, st, sid, b);
    OctetFeeds(cfg, sid, s, b);
    GoesDownIff(cfg, st, Octet(sid, b));
    InvStep(cfg, st, Octet(sid, b));
    OneRead(s.received, rest);
    StillServing(cfg, Step(cfg, st, Octet(sid, b)), sid, ms, rest[1..]);
  }

  lemma PendingIsOwn(cfg: Config, st: System, sid: nat)
    requires Inv(cfg, st) && sid in st.sessions && st.sessions[sid].pending.Some?
    ensures st.sessions[sid].pending.value.sid == sid
  {
    assert SessionOk(cfg, sid, st.sessions[sid], st.queue);
  }

  lemma ServePost(cfg: Config, st: System, sid: nat, ms: seq<Message>, rest: seq<Byte>)
    requires Serving(cfg, st, sid, ms, rest) && st.sessions[sid].pending.Some? && cfg.recvCap >= 1
    ensures Serving(cfg, Step(cfg, st, Post(sid)), sid, ms, rest)
    ensures StepUndisturbed(cfg, st, Post(sid), sid) && WorkLeft(Step(cfg, st, Post(sid)), sid) < WorkLeft(st, sid)
  {
    hide SessionsOk, JobsOk, Frames, Servable;
    PendingIsOwn(cfg, st, sid);
    PostTaken(cfg, st, sid);
    InvStep(cfg, st, Post(sid));
  }

  /** The front job is for a message of the client. */
  lemma FrontIsServable(cfg: Config, st: System, sid: nat, ms: seq<Message>, rest: seq<Byte>) returns (m: Message)
    requires Serving(cfg, st, sid, ms, rest) && st.queue != []
    ensures var s, j := st.sessions[sid], st.queue[0];
      && CanDispatch(st) && s.reader.reused == 0 && j.index < |s.reader.history| && s.reader.history[j.index] == m
      && s.reader.nodes[j.node].id == m.id
    ensures m.id in cfg.registered && Framable(Message(m.id, cfg.reply(m)))
  {
    var s, j := st.sessions[sid], st.queue[0];
    ReadByServer(cfg, st, sid, ms, rest);
    FrontIsThere(cfg, st);
    assert JobOk(s, j);
    JobOfCleanReader(cfg, s, j);
    m := s.reader.history[j.index];
    assert m == ms[j.index];
  }

  lemma ServeDispatch(cfg: Config, st: System, sid: nat, ms: seq<Message>, rest: seq<Byte>)
    requires Serving(cfg, st, sid, ms, rest) && st.queue != [] && cfg.sendCap >= 1
    ensures Serving(cfg, Step(cfg, st, Dispatch), sid, ms, rest)
    ensures StepUndisturbed(cfg, st, Dispatch, sid) && WorkLeft(Step(cfg, st, Dispatch), sid) < WorkLeft(st, sid)
  {
    var s := st.sessions[sid];
    assert Inv(cfg, st) && Servable(cfg, ms) && s.received + rest == Frames(ms) && s.sender.broken == None;
    assert s.pending == None && |st.queue| == 1 && s.sender.queue == [] && st.queue[0].sid == sid;
    var m := FrontIsServable(cfg, st, sid, ms, rest);
    assert DispatchUndisturbed(cfg, s, st.queue[0]);
    hide *;
    DispatchAnswers(cfg, st, m);
    DispatchIsFront(cfg, st, sid);
    DispatchDrains(cfg, st, sid);
    DispatchReads(cfg, st);
    InvStep(cfg, st, Dispatch);
    StillServing(cfg, Step(cfg, st, Dispatch), sid, ms, rest);
  }

  /** A dispatch does not touch what its session reads. */
  lemma DispatchReads(cfg: Config, st: System)
    requires Inv(cfg, st) && CanDispatch(st)
    ensures var s, next := st.sessions[st.queue[0].sid], DispatchFront(cfg, st);
      && st.queue[0].sid in next.sessions
      && next.sessions[st.queue[0].sid].received == s.received && next.sessions[st.queue[0].sid].pending == s.pending
  {
    hide SendFrame, Inv;
  }

  lemma ServeWrite(cfg: Config, st: System, sid: nat, ms: seq<Message>, rest: seq<Byte>)
    requires Serving(cfg, st, sid, ms, rest) && st.sessions[sid].sender.queue != []
    ensures Serving(cfg, Step(cfg, st, WriteDone(sid, 0)), sid, ms, rest)
    ensures WorkLeft(Step(cfg, st, WriteDone(sid, 0)), sid) < WorkLeft(st, sid)
  {
    var s := st.sessions[sid];
    assert Inv(cfg, st) && Servable(cfg, ms) && s.received + rest == Frames(ms) && s.sender.broken == None;
    assert |s.sender.queue| == 1 && st.queue == [] && s.pending == None;
    hide *;
    SenderKept(cfg, st, sid);
    WriteIsTaken(cfg, st, sid, 0, 0);
    WriteDrains(cfg, st, sid);
    InvStep(cfg, st, WriteDone(sid, 0));
    StillServing(cfg, Step(cfg, st, WriteDone(sid, 0)), sid, ms, rest);
  }

  /** One step further through the client's stream. */
  lemma Serve(cfg: Config, st: System, sid: nat, ms: seq<Message>, rest: seq<Byte>)
    returns (e: Event, left: seq<Byte>)
    requires Serving(cfg, st, sid, ms, rest) && cfg.recvCap >= 1 && cfg.sendCap >= 1
    requires rest != [] || !Drained(st, sid)
    ensures var next := Step(cfg, st, e);
      && Serving(cfg, next, sid, ms, left) && StepUndisturbed(cfg, st, e, sid)
      && |left| <= |rest| && (|left| == |rest| ==> WorkLeft(next, sid) < WorkLeft(st, sid))
  {
    left := rest;
    var s := st.sessions[sid];
    if s.pending.Some? {
      e := Post(sid);
      ServePost(cfg, st, sid, ms, rest);
    } else if st.queue != [] {
      e := Dispatch;
      ServeDispatch(cfg, st, sid, ms, rest);
    } else if s.sender.queue != [] {
      e := WriteDone(sid, 0);
      ServeWrite(cfg, st, sid, ms, rest);
    } else {
      e := Octet(sid, rest[0]);
      left := rest[1..];
      ServeOctet(cfg, st, sid, ms, rest);
    }
  }

  lemma {:induction false} ServeAll(cfg: Config, st: System, sid: nat, ms: seq<Message>, rest: seq<Byte>)
    returns (es: seq<Event>)
    requires Serving(cfg, st, sid, ms, rest) && cfg.recvCap >= 1 && cfg.sendCap >= 1
    ensures Serving(cfg, Run(cfg, st, es), sid, ms, []) && Drained(Run(cfg, st, es), sid)
    ensures Undisturbed(cfg, st, es, sid)
    decreases |rest|, WorkLeft(st, sid)
  {
    if rest == [] && Drained(st, sid) {
      es := [];
    } else {
      var e, left := Serve(cfg, st, sid, ms, rest);
      var next := Step(cfg, st, e);
      hide Step, StepUndisturbed, Drained, Inv, Frames, Servable, WorkLeft;
      var more := ServeAll(cfg, next, sid, ms, left);
      RunFirst(cfg, st, e, more);
      UndisturbedFirst(cfg, st, e, more, sid);
      es := [e] + more;
    }
  }

  lemma UndisturbedFirst(cfg: Config, st: System, e: Event, es: seq<Event>, sid: nat)
    requires Inv(cfg, st) && StepUndisturbed(cfg, st, e, sid)
    requires Inv(cfg, Step(cfg, st, e)) && Undisturbed(cfg, Step(cfg, st, e), es, sid)
    ensures Undisturbed(cfg, st, [e] + es, sid)
  {
    assert ([e] + es)[1..] == es;
  }

  /** The server serves: for every list of messages that can be received and answered, with room for one
      message in either queue, there is a run from the start in which the process stays up, the client's
      octets are all read, nothing is dropped, the pipeline drains, and the client reads back exactly the
      replies to its messages if and only if each of them fits its buffer. */
  lemma ServerServes(cfg: Config, sid: nat, ms: seq<Message>) returns (es: seq<Event>)
    requires Servable(cfg, ms) && cfg.recvCap >= 1 && cfg.sendCap >= 1
    ensures Undisturbed(cfg, START, es, sid)
    ensures var end := Run(cfg, START, es);
      && !end.down && sid in end.sessions && end.sessions[sid].received == Frames(ms) && Drained(end, sid)
      && (Client.ReadReplies(WireOf(end.sessions[sid]), |ms|) == AllAnswers(cfg, ms)
          <==> Client.FitBuffer(AllAnswers(cfg, ms)))
  {
    ConnectTaken(cfg, START, sid);
    InvStep(cfg, START, Connect(sid));
    var st := Step(cfg, START, Connect(sid));
    assert Serving(cfg, st, sid, ms, Frames(ms)) by {
      assert [] + Frames(ms) == Frames(ms);
    }
    var more := ServeAll(cfg, st, sid, ms, Frames(ms));
    RunFirst(cfg, START, Connect(sid), more);
    UndisturbedFirst(cfg, START, Connect(sid), more, sid);
    es := [Connect(sid)] + more;
    var end := Run(cfg, START, es);
    assert end.sessions[sid].received + [] == end.sessions[sid].received;
    RequestsToReplies(cfg, es, end, sid, ms);
  }
}
