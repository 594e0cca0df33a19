/** The single-writer send queue of a session, and of the WebSocket connection, over every schedule
    of sends and write completions. */
module Sender {
  import opened Sequences
  import opened Wrappers

  /** `writing` lists the writes started and not completed. `accepted`, `written` and `refused`
      record what was pushed, what was written in full, and what a full queue dropped. `broken` is
      the item whose write failed, with the number of octets that had already gone out. */
  datatype State<T> = State(
    queue: seq<T>, writing: seq<T>, accepted: seq<T>, written: seq<T>, refused: seq<T>, broken: Option<(T, nat)>)

  function Empty<T>(): State<T>
  {
    State([], [], [], [], [], None)
  }

  /** The schedule: a send, or the completion of the i-th outstanding write, with success or not. */
  datatype Event<T> = Send(x: T) | Done(i: nat) | Failed(i: nat, sent: nat)

  function StartWrite<T>(st: State<T>, x: T): State<T>
  {
    st.(writing := st.writing + [x])
  }

  function RemoveAt<T>(xs: seq<T>, i: nat): seq<T>
    requires i < |xs|
  {
    xs[..i] + xs[i + 1..]
  }

  /** `Session::Send`: test for a pending write, drop if the queue is full, push, and write the
      front if nothing was pending. */
  function SessionSend<T>(cap: nat, st: State<T>, x: T): State<T>
  {
    if |st.queue| >= cap then st.(refused := st.refused + [x]) else
    var pushed := st.(queue := st.queue + [x], accepted := st.accepted + [x]);
    if st.queue != [] then pushed else StartWrite(pushed, pushed.queue[0])
  }

  /** `Connection::AsyncSend`: push, and write the argument unless something else is queued. */
  function WebSocketSend<T>(st: State<T>, x: T): State<T>
  {
    var pushed := st.(queue := st.queue + [x], accepted := st.accepted + [x]);
    if |pushed.queue| > 1 then pushed else StartWrite(pushed, x)
  }

  /** The completion handler both share. None where it would pop an empty queue. */
  function Complete<T>(st: State<T>, i: nat, error: Option<nat>): Option<State<T>>
    requires i < |st.writing|
  {
    var x := st.writing[i];
    var rest := st.(writing := RemoveAt(st.writing, i));
    match error
    case Some(sent) => Some(rest.(broken := Some((x, sent))))
    case None =>
      if st.queue == [] then None else
      var popped := rest.(queue := st.queue[1..], written := st.written + [x]);
      Some(if popped.queue != [] then StartWrite(popped, popped.queue[0]) else popped)
  }

  /** Which of the two senders runs. */
  datatype Kind = Session(cap: nat) | WebSocket

  /** An event naming a write that is not outstanding cannot happen and changes nothing. */
  function Step<T>(kind: Kind, st: State<T>, e: Event<T>): Option<State<T>>
  {
    match e
    case Send(x) => Some(if kind.Session? then SessionSend(kind.cap, st, x) else WebSocketSend(st, x))
    case Done(i) => if i < |st.writing| then Complete(st, i, None) else Some(st)
    case Failed(i, sent) => if i < |st.writing| then Complete(st, i, Some(sent)) else Some(st)
  }

  function Run<T>(kind: Kind, st: State<T>, es: seq<Event<T>>): Option<State<T>>
    decreases |es|
  {
    if es == [] then Some(st) else
    match Step(kind, st, es[0])
    case None => None
    case Some(next) => Run(kind, next, es[1..])
  }

  /** At most one write is outstanding; until one fails it is the write of the front of the queue,
      and there is one exactly when the queue is not empty; nothing accepted is lost or reordered. */
  ghost predicate Inv<T>(kind: Kind, st: State<T>)
  {
    && |st.writing| <= 1
    && st.accepted == st.written + st.queue
    && (st.broken == None ==> st.writing == if st.queue == [] then [] else st.queue[..1])
    && (st.broken.Some? ==> st.writing == [] && st.queue != [] && st.queue[0] == st.broken.value.0)
    && (kind.Session? ==> |st.queue| <= kind.cap)
    && (kind.WebSocket? ==> st.refused == [])
  }

  /** The one outstanding write completes: its item leaves the queue for the peer. */
  lemma DoneKeeps<T>(kind: Kind, st: State<T>)
    requires Inv(kind, st) && st.writing != []
    ensures Complete(st, 0, None).Some? && Inv(kind, Complete(st, 0, None).value)
    ensures var next := Complete(st, 0, None).value;
      && next.written == st.written + [st.queue[0]] && st.broken == None == next.broken
      && next.queue == st.queue[1..] && next.accepted == st.accepted
  {
    var x, rest, next := st.queue[0], st.queue[1..], Complete(st, 0, None).value;
    assert st.writing == [x] && RemoveAt(st.writing, 0) == [];
    assert st.queue == [x] + rest;
    assert st.written + st.queue == (st.written + [x]) + rest;
    assert next.writing == if rest == [] then [] else [rest[0]];
  }

  /** The one outstanding write fails: nothing more is written, and what it was writing is on record. */
  lemma FailedStops<T>(kind: Kind, st: State<T>, sent: nat)
    requires Inv(kind, st) && st.writing != []
    ensures Step(kind, st, Failed(0, sent)) == Some(st.(writing := [], broken := Some((st.queue[0], sent))))
  {
    assert RemoveAt(st.writing, 0) == [];
  }

  lemma InvStep<T>(kind: Kind, st: State<T>, e: Event<T>)
    requires Inv(kind, st)
    ensures Step(kind, st, e).Some? && Inv(kind, Step(kind, st, e).value)
    ensures var next := Step(kind, st, e).value;
      st.written <= next.written && (st.broken.Some? ==> next.broken == st.broken && next.written == st.written)
  {
    match e {
      case Send(x) =>
        assert st.accepted + [x] == st.written + (st.queue + [x]);
      case Done(i) =>
        if i < |st.writing| {
          DoneKeeps(kind, st);
        }
      case Failed(i, sent) =>
    }
  }

  /** Over every run, of either sender: no empty queue is popped and the invariant holds; once a
      write has failed, nothing more is written. */
  lemma {:induction false} InvRun<T>(kind: Kind, st: State<T>, es: seq<Event<T>>)
    requires Inv(kind, st)
    ensures Run(kind, st, es).Some? && Inv(kind, Run(kind, st, es).value)
    ensures var next := Run(kind, st, es).value;
      st.written <= next.written && (st.broken.Some? ==> next.broken == st.broken && next.written == st.written)
    decreases |es|
  {
    if es == [] {
    } else {
      InvStep(kind, st, es[0]);
      InvRun(kind, Step(kind, st, es[0]).value, es[1..]);
    }
  }

  /** As long as writes complete, one completion for each queued item puts everything accepted on the wire. */
  lemma {:induction false} QueueDrains<T>(kind: Kind, st: State<T>) returns (es: seq<Event<T>>)
    requires Inv(kind, st) && st.broken == None
    ensures |es| == |st.queue| && forall i :: 0 <= i < |es| ==> es[i] == Done(0)
    ensures Run(kind, st, es).Some?
    ensures var end := Run(kind, st, es).value;
      end.written == st.accepted && end.queue == [] && end.writing == [] && end.broken == None
    decreases |st.queue|
  {
    if st.queue == [] {
      es := [];
    } else {
      DoneKeeps(kind, st);
      var next := Step(kind, st, Done(0)).value;
      var rest := QueueDrains(kind, next);
      es := [Done(0)] + rest;
      assert es[1..] == rest;
    }
  }

  function Pushed<T>(e: Event<T>): seq<T>
  {
    if e.Send? then [e.x] else []
  }

  /** What was pushed, in order. */
  function Sends<T>(es: seq<Event<T>>): seq<T>
  {
    if es == [] then [] else Pushed(es[0]) + Sends(es[1..])
  }

  lemma AcceptStep<T>(st: State<T>, e: Event<T>)
    requires Step(WebSocket, st, e).Some?
    ensures Step(WebSocket, st, e).value.accepted == st.accepted + Pushed(e)
  {
  }

  lemma SendsCons<T>(before: seq<T>, es: seq<Event<T>>)
    requires es != []
    ensures before + Pushed(es[0]) + Sends(es[1..]) == before + Sends(es)
  {
    Associates(before, Pushed(es[0]), Sends(es[1..]));
  }

  lemma {:induction false} UncappedAcceptsAll<T>(st: State<T>, es: seq<Event<T>>) returns (end: State<T>)
    requires Inv(WebSocket, st)
    ensures Run(WebSocket, st, es) == Some(end) && end.accepted == st.accepted + Sends(es)
    decreases |es|
  {
    if es == [] {
      end := st;
    } else {
      InvStep(WebSocket, st, es[0]);
      AcceptStep(st, es[0]);
      var next := Step(WebSocket, st, es[0]).value;
      end := UncappedAcceptsAll(next, es[1..]);
      SendsCons(st.accepted, es);
    }
  }

  lemma {:induction false} RefusedGrows<T>(cap: nat, st: State<T>, es: seq<Event<T>>)
    requires Inv(Session(cap), st)
    ensures Run(Session(cap), st, es).Some? && st.refused <= Run(Session(cap), st, es).value.refused
    decreases |es|
  {
    if es == [] {
    } else {
      InvStep(Session(cap), st, es[0]);
      RefusedGrows(cap, Step(Session(cap), st, es[0]).value, es[1..]);
    }
  }

  /** The WebSocket sender is the session's without the cap: on every schedule the two end in the
      same state exactly when the capped one refused nothing. */
  lemma {:induction false} WebSocketRefines<T>(cap: nat, st: State<T>, es: seq<Event<T>>)
    requires Inv(Session(cap), st) && st.refused == []
    ensures Run(Session(cap), st, es).Some?
    ensures Run(WebSocket, st, es) == Run(Session(cap), st, es)
      <==> Run(Session(cap), st, es).value.refused == []
    decreases |es|
  {
    assert Inv(WebSocket, st);
    InvRun(WebSocket, st, es);
    InvRun(Session(cap), st, es);
    if es == [] {
    } else {
      InvStep(Session(cap), st, es[0]);
      InvStep(WebSocket, st, es[0]);
      var next := Step(Session(cap), st, es[0]).value;
      if next.refused == [] {
        assert Step(WebSocket, st, es[0]) == Some(next);
        WebSocketRefines(cap, next, es[1..]);
      } else {
        RefusedGrows(cap, next, es[1..]);
      }
    }
  }

  /** The promise to the peer: the items written are a prefix of those accepted, in order, and when
      everything pushed was accepted, nothing failed and no write is outstanding, they are all of them. */
  lemma WrittenIsPrefix<T>(kind: Kind, es: seq<Event<T>>)
    ensures Run(kind, Empty<T>(), es).Some?
    ensures var st := Run(kind, Empty<T>(), es).value;
      st.written <= st.accepted && (st.writing == [] && st.broken == None ==> st.written == st.accepted)
  {
    InvRun(kind, Empty<T>(), es);
  }

  lemma RoomForOne<T>(cap: nat, st: State<T>, e: Event<T>) returns (next: State<T>)
    requires Inv(Session(cap), st) && |st.queue| + |Pushed(e)| <= cap
    ensures Step(Session(cap), st, e) == Some(next) && Inv(Session(cap), next)
    ensures next.refused == st.refused && next.accepted == st.accepted + Pushed(e)
    ensures |next.queue| <= |st.queue| + |Pushed(e)|
  {
    InvStep(Session(cap), st, e);
    next := Step(Session(cap), st, e).value;
  }

  /** A session refuses nothing as long as its queue has room for everything sent. */
  lemma {:induction false} RoomForAll<T>(cap: nat, st: State<T>, es: seq<Event<T>>) returns (end: State<T>)
    requires Inv(Session(cap), st) && |st.queue| + |Sends(es)| <= cap
    ensures Run(Session(cap), st, es) == Some(end)
    ensures end.refused == st.refused && end.accepted == st.accepted + Sends(es)
    decreases |es|
  {
    if es == [] {
      end := st;
    } else {
      assert |Sends(es)| == |Pushed(es[0])| + |Sends(es[1..])|;
      var next := RoomForOne(cap, st, es[0]);
      end := RoomForAll(cap, next, es[1..]);
      SendsCons(st.accepted, es);
    }
  }
}
