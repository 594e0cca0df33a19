/** The log queue under any number of pushing threads and its one worker. A push notifies only when
    it makes the size 1, while it still holds the mutex. */
module LogQueue {
  import opened Sequences
  import opened Wrappers
  import LogicWorker

  /** A pusher: waits for the mutex; holds it; holds it after the push, knowing whether it has to
      notify; holds it with nothing left to do. */
  datatype PusherPc = Entering(line: string) | Holding(line: string) | Pushed(first: bool) | Leaving

  /** The worker: before `Pop`; evaluating the predicate; about to sleep; asleep; awake and
      reacquiring; past the wait; writing a line without the mutex; out of its loop. Crashed:
      `front` of an empty queue. */
  datatype WorkerPc =
    Outside | Testing | Parking | Asleep | Woken | Chosen | Writing(line: string) | Ended | Crashed

  datatype Owner = Free | Worker | Pusher(t: nat)

  /** A line and the thread that logs it. */
  datatype Line = Line(t: nat, text: string)

  /** `entered`, `pushed` and `written` record, in order, the lines with which `Push` was called, those
      that joined the queue, and those the worker has put out. */
  datatype State = State(
    que: seq<string>, owner: Owner, pushers: map<nat, PusherPc>, worker: WorkerPc, isShutDown: bool,
    entered: seq<Line>, pushed: seq<Line>, written: seq<string>)

  const START := State([], Free, map[], Outside, false, [], [], [])

  datatype Event =
    | Arrive(t: nat, line: string) | Lock(t: nat) | Push(t: nat) | Notify(t: nat) | Unlock(t: nat)
    | WorkerStep | Spurious | SetShutDown | NotifyAll

  function Wake(st: State): State
  {
    if st.worker == Asleep then st.(worker := Woken) else st
  }

  function WorkerNext(st: State): State
  {
    match st.worker
    case Outside => if st.owner == Free then st.(worker := Testing, owner := Worker) else st
    case Woken => if st.owner == Free then st.(worker := Testing, owner := Worker) else st
    case Testing => st.(worker := if st.que != [] || st.isShutDown then Chosen else Parking)
    case Parking => st.(worker := Asleep, owner := Free)
    case Chosen =>
      if st.isShutDown && st.que == [] then st.(worker := Ended, owner := Free)
      else if st.que == [] then st.(worker := Crashed)
      else st.(worker := Writing(st.que[0]), que := st.que[1..], owner := Free)
    case Writing(line) => st.(worker := Outside, written := st.written + [line])
    case Asleep => st
    case Ended => st
    case Crashed => st
  }

  function At(st: State, t: nat): Option<PusherPc>
  {
    if t in st.pushers then Some(st.pushers[t]) else None
  }

  /** An event that is not enabled changes nothing. */
  function Step(st: State, e: Event): State
  {
    match e
    case Arrive(t, line) =>
      if t in st.pushers then st
      else st.(pushers := st.pushers[t := Entering(line)], entered := st.entered + [Line(t, line)])
    case Lock(t) =>
      if At(st, t).Some? && st.pushers[t].Entering? && st.owner == Free
      then st.(pushers := st.pushers[t := Holding(st.pushers[t].line)], owner := Pusher(t)) else st
    case Push(t) =>
      if At(st, t).None? || !st.pushers[t].Holding? then st
      else
        var line := st.pushers[t].line;
        var que := st.que + [line];
        st.(que := que, pushed := st.pushed + [Line(t, line)], pushers := st.pushers[t := Pushed(|que| == 1)])
    case Notify(t) =>
      if At(st, t).None? || !st.pushers[t].Pushed? then st
      else (if st.pushers[t].first then Wake(st) else st).(pushers := st.pushers[t := Leaving])
    case Unlock(t) => if At(st, t) == Some(Leaving) then st.(pushers := st.pushers - {t}, owner := Free) else st
    case WorkerStep => WorkerNext(st)
    case Spurious => Wake(st)
    case SetShutDown => st.(isShutDown := true)
    case NotifyAll => if st.isShutDown then Wake(st) else st
  }

  function Run(st: State, es: seq<Event>): State
    decreases |es|
  {
    if es == [] then st else Run(Step(st, es[0]), es[1..])
  }

  function InHand(w: WorkerPc): seq<string>
  {
    if w.Writing? then [w.line] else []
  }

  function Texts(lines: seq<Line>): seq<string>
  {
    if lines == [] then [] else [lines[0].text] + Texts(lines[1..])
  }

  lemma {:induction false} TextsAppend(lines: seq<Line>, line: Line)
    ensures Texts(lines + [line]) == Texts(lines) + [line.text]
  {
    if lines == [] {
      assert (lines + [line])[1..] == [];
    } else {
      assert (lines + [line])[1..] == lines[1..] + [line];
      TextsAppend(lines[1..], line);
    }
  }

  ghost predicate Exclusive(st: State)
  {
    && (st.owner == Worker <==> st.worker.Testing? || st.worker.Parking? || st.worker.Chosen?)
    && (forall t :: st.owner == Pusher(t) <==> t in st.pushers && !st.pushers[t].Entering?)
  }

  ghost predicate WillNotify(st: State, t: nat)
  {
    t in st.pushers && st.pushers[t] == Pushed(true)
  }

  ghost predicate Inv(st: State)
  {
    && Exclusive(st)
    && (st.worker == Asleep && st.que != [] ==> exists t :: WillNotify(st, t))
    && Texts(st.pushed) == st.written + InHand(st.worker) + st.que
    && (st.worker == Parking ==> st.que == [])
    && (st.worker == Chosen ==> st.que != [] || st.isShutDown)
    && (st.worker == Ended ==> st.isShutDown)
    && st.worker != Crashed
  }

  lemma WorkerKeeps(st: State)
    requires Inv(st)
    ensures Inv(WorkerNext(st))
  {
    if st.worker == Chosen && st.que != [] {
      assert st.written + [] + st.que == st.written + [st.que[0]] + st.que[1..];
    }
    if st.worker.Writing? {
      assert st.written + [st.worker.line] + st.que == (st.written + [st.worker.line]) + [] + st.que;
    }
  }

  lemma PushKeeps(st: State, t: nat)
    requires Inv(st)
    ensures Inv(Step(st, Push(t)))
  {
    var next := Step(st, Push(t));
    if next.que != st.que {
      var line := st.pushers[t].line;
      TextsAppend(st.pushed, Line(t, line));
      Associates(st.written + InHand(st.worker), st.que, [line]);
      if st.worker == Asleep {
        // Another pusher about to notify would hold the mutex that this one holds.
        assert forall u :: WillNotify(st, u) ==> st.owner == Pusher(u);
        assert st.que == [];
        assert WillNotify(next, t);
      }
    }
  }

  lemma PusherKeeps(st: State, e: Event)
    requires Inv(st) && (e.Arrive? || e.Lock? || e.Notify? || e.Unlock?)
    ensures Inv(Step(st, e))
  {
    var next := Step(st, e);
    if next.worker == Asleep && st.que != [] {
      var t :| WillNotify(st, t);
      assert st.owner == Pusher(t);
      assert WillNotify(next, t);
    }
  }

  lemma InvStep(st: State, e: Event)
    requires Inv(st)
    ensures Inv(Step(st, e))
  {
    if e.WorkerStep? {
      WorkerKeeps(st);
    } else if e.Push? {
      PushKeeps(st, e.t);
    } else if e.Arrive? || e.Lock? || e.Notify? || e.Unlock? {
      PusherKeeps(st, e);
    } else if st.worker == Asleep && st.que != [] && e.SetShutDown? {
      var t :| WillNotify(st, t);
      assert WillNotify(Step(st, e), t);
    }
  }

  lemma {:induction false} InvRun(st: State, es: seq<Event>)
    requires Inv(st)
    ensures Inv(Run(st, es))
    decreases |es|
  {
    if es == [] {
    } else {
      InvStep(st, es[0]);
      InvRun(Step(st, es[0]), es[1..]);
    }
  }

  /** Notifying at size 1 only is enough: on every schedule, whenever no pusher holds the mutex, a
      sleeping worker means an empty queue; and every line pushed is written, being written or
      queued, once each and in order. */
  lemma SleepsOnlyWhenEmpty(es: seq<Event>)
    ensures var st := Run(START, es);
      && (st.worker == Asleep && st.owner == Free ==> st.que == [] && st.written == Texts(st.pushed))
      && Texts(st.pushed) == st.written + InHand(st.worker) + st.que
  {
    InvRun(START, es);
    var st := Run(START, es);
    assert forall t :: WillNotify(st, t) ==> st.owner == Pusher(t);
  }

  /** The worker leaves its loop only on shutdown, at a moment when every line pushed so far has been
      written. */
  lemma EndsWithAllWritten(es: seq<Event>, e: Event)
    requires Run(START, es).worker != Ended && Step(Run(START, es), e).worker == Ended
    ensures var st := Step(Run(START, es), e); st.isShutDown && st.que == [] && st.written == Texts(st.pushed)
  {
    InvRun(START, es);
  }

  // ---------------------------------------------------------------- no line is lost at the door

  /** A thread outside `Push` can always enter it. */
  lemma ArriveTaken(st: State, t: nat, line: string)
    requires t !in st.pushers
    ensures Step(st, Arrive(t, line))
      == st.(pushers := st.pushers[t := Entering(line)], entered := st.entered + [Line(t, line)])
  {
  }

  /** A free mutex is taken, whatever the worker does. */
  lemma LockTaken(st: State, t: nat, line: string)
    requires At(st, t) == Some(Entering(line)) && st.owner == Free
    ensures Step(st, Lock(t)) == st.(pushers := st.pushers[t := Holding(line)], owner := Pusher(t))
  {
  }

  /** The line goes to the back of the queue, and a notification is due if it is the only one there. */
  lemma PushTaken(st: State, t: nat, line: string)
    requires At(st, t) == Some(Holding(line))
    ensures var next := Step(st, Push(t));
      && next.que == st.que + [line] && next.pushed == st.pushed + [Line(t, line)]
      && At(next, t) == Some(Pushed(st.que == []))
  {
  }

  /** The flag can be set at any moment; the notification behind it, and a spurious wakeup, wake a sleeping
      worker and do nothing else. */
  lemma WakeupsTaken(st: State)
    ensures Step(st, SetShutDown) == st.(isShutDown := true)
    ensures st.worker == Asleep ==>
      && Step(st, Spurious) == st.(worker := Woken)
      && (st.isShutDown ==> Step(st, NotifyAll) == st.(worker := Woken))
  {
  }

  function ThreadOf(line: Line): nat
  {
    line.t
  }

  function LinesOf(lines: seq<Line>, t: nat): seq<Line>
  {
    LogicWorker.OfSession(lines, ThreadOf, t)
  }

  /** The line with which a thread stands in front of the queue. */
  function AtTheDoor(st: State, t: nat): seq<Line>
  {
    if t in st.pushers && (st.pushers[t].Entering? || st.pushers[t].Holding?) then [Line(t, st.pushers[t].line)]
    else []
  }

  /** Of the lines a thread logged, all but the one it is about to push have joined the queue, in its order. */
  ghost predicate NoLineLost(st: State, t: nat)
  {
    LinesOf(st.entered, t) == LinesOf(st.pushed, t) + AtTheDoor(st, t)
  }

  lemma NoLineLostArrive(st: State, u: nat, line: string, t: nat)
    requires NoLineLost(st, t)
    ensures NoLineLost(Step(st, Arrive(u, line)), t)
  {
    if u !in st.pushers {
      LogicWorker.OfSessionAppend(st.entered, Line(u, line), ThreadOf, t);
      hide LogicWorker.OfSession;
      assert LinesOf(st.pushed, t) + [] == LinesOf(st.pushed, t);
    }
  }

  lemma NoLineLostPush(st: State, u: nat, t: nat)
    requires NoLineLost(st, t)
    ensures NoLineLost(Step(st, Push(u)), t)
  {
    if At(st, u).Some? && st.pushers[u].Holding? {
      LogicWorker.OfSessionAppend(st.pushed, Line(u, st.pushers[u].line), ThreadOf, t);
      hide LogicWorker.OfSession;
      assert LinesOf(st.pushed, t) + [] == LinesOf(st.pushed, t);
    }
  }

  /** No other step touches the records or the doors. */
  lemma SameDoors(st: State, e: Event, t: nat)
    requires !e.Arrive? && !e.Push?
    ensures var next := Step(st, e);
      next.entered == st.entered && next.pushed == st.pushed && AtTheDoor(next, t) == AtTheDoor(st, t)
  {
  }

  lemma NoLineLostStep(st: State, e: Event, t: nat)
    requires NoLineLost(st, t)
    ensures NoLineLost(Step(st, e), t)
  {
    if e.Arrive? {
      NoLineLostArrive(st, e.t, e.line, t);
    } else if e.Push? {
      NoLineLostPush(st, e.t, t);
    } else {
      SameDoors(st, e, t);
    }
  }

  lemma {:induction false} NoLineLostRun(st: State, es: seq<Event>, t: nat)
    requires NoLineLost(st, t)
    ensures NoLineLost(Run(st, es), t)
    decreases |es|
  {
    if es == [] {
    } else {
      NoLineLostStep(st, es[0], t);
      NoLineLostRun(Step(st, es[0]), es[1..], t);
    }
  }

  /** On every schedule, a thread that is not inside `Push` has every line it logged in the queue, in the
      worker's hands or written; a thread that is has all of them but the one it is about to push. */
  lemma LoggedIsPushed(es: seq<Event>, t: nat)
    ensures var st := Run(START, es);
      LinesOf(st.entered, t) == LinesOf(st.pushed, t) + AtTheDoor(st, t)
  {
    NoLineLostRun(START, es, t);
  }

  // ---------------------------------------------------------------- every line gets written

  /** A step of an existing thread. */
  ghost predicate Internal(e: Event)
  {
    !e.Arrive? && !e.Spurious? && !e.SetShutDown? && !e.NotifyAll?
  }

  ghost predicate AllInternal(es: seq<Event>)
  {
    forall i :: 0 <= i < |es| ==> Internal(es[i])
  }

  lemma RunFirst(st: State, e: Event, es: seq<Event>)
    ensures Run(st, [e] + es) == Run(Step(st, e), es)
  {
    assert ([e] + es)[1..] == es;
  }

  lemma RunOne(st: State, e: Event)
    ensures Run(st, [e]) == Step(st, e)
  {
    assert [e][1..] == [];
  }

  lemma {:induction false} RunConcat(st: State, es: seq<Event>, fs: seq<Event>)
    ensures Run(st, es + fs) == Run(Run(st, es), fs)
    decreases |es|
  {
    if es == [] {
      assert es + fs == fs;
    } else {
      assert (es + fs)[1..] == es[1..] + fs;
      RunConcat(Step(st, es[0]), es[1..], fs);
    }
  }

  /** How many steps the owner of the mutex can keep it. */
  function HoldTime(st: State): (n: nat)
    ensures n <= 3
  {
    match st.owner
    case Free => 0
    case Worker => if st.worker.Testing? then 2 else 1
    case Pusher(t) =>
      if t !in st.pushers then 0
      else match st.pushers[t]
        case Entering(_) => 0
        case Holding(_) => 3
        case Pushed(_) => 2
        case Leaving => 1
  }

  /** The owner's next step. */
  lemma Freer(st: State) returns (e: Event)
    requires Inv(st) && st.owner != Free
    ensures Internal(e) && Inv(Step(st, e)) && HoldTime(Step(st, e)) < HoldTime(st)
    ensures if st.owner == Worker then e == WorkerStep else e.Push? || e.Notify? || e.Unlock?
    ensures forall t <- st.pushers :: st.pushers[t].Entering? ==> At(Step(st, e), t) == Some(st.pushers[t])
  {
    e := WorkerStep;
    if st.owner.Pusher? {
      var t := st.owner.t;
      assert t in st.pushers && !st.pushers[t].Entering?;
      e := if st.pushers[t].Holding? then Push(t) else if st.pushers[t].Pushed? then Notify(t) else Unlock(t);
    }
    InvStep(st, e);
  }

  /** A pusher in front of the mutex gets it within four steps of existing threads. */
  lemma {:induction false} PushGetsMutex(st: State, t: nat, line: string) returns (es: seq<Event>)
    requires Inv(st) && (At(st, t) == Some(Entering(line)) || At(st, t) == Some(Holding(line)))
    ensures |es| <= HoldTime(st) + 1 && AllInternal(es)
    ensures At(Run(st, es), t) == Some(Holding(line))
    decreases HoldTime(st)
  {
    if At(st, t) == Some(Holding(line)) {
      es := [];
    } else if st.owner == Free {
      LockTaken(st, t, line);
      es := [Lock(t)];
      RunOne(st, Lock(t));
    } else {
      var e := Freer(st);
      hide Inv, Step, Run, HoldTime;
      var rest := PushGetsMutex(Step(st, e), t, line);
      RunFirst(st, e, rest);
      es := [e] + rest;
    }
  }

  /** So every call of `Push` puts its line at the back of the queue within five steps, */
  lemma PushGetsThrough(st: State, t: nat, line: string) returns (es: seq<Event>)
    requires Inv(st) && (At(st, t) == Some(Entering(line)) || At(st, t) == Some(Holding(line)))
    ensures 0 < |es| <= 5 && AllInternal(es)
    ensures var before, after := Run(st, es[..|es| - 1]), Run(st, es);
      && after.que == before.que + [line] && after.pushed == before.pushed + [Line(t, line)]
      && At(after, t) == Some(Pushed(before.que == []))
  {
    var lead := PushGetsMutex(st, t, line);
    es := lead + [Push(t)];
    var before := Run(st, lead);
    PushTaken(before, t, line);
    RunConcat(st, lead, [Push(t)]);
    RunOne(before, Push(t));
    assert es[..|es| - 1] == lead;
  }

  /** and returns within two more. */
  lemma {:induction false} PusherLeaves(st: State, t: nat) returns (es: seq<Event>)
    requires t in st.pushers && (st.pushers[t].Pushed? || st.pushers[t].Leaving?)
    ensures |es| <= (if st.pushers[t].Pushed? then 2 else 1) && AllInternal(es)
    ensures t !in Run(st, es).pushers && Run(st, es).owner == Free
    decreases if st.pushers[t].Pushed? then 1 else 0
  {
    var e := if st.pushers[t].Pushed? then Notify(t) else Unlock(t);
    var rest: seq<Event> := [];
    if st.pushers[t].Pushed? {
      rest := PusherLeaves(Step(st, e), t);
    }
    RunFirst(st, e, rest);
    es := [e] + rest;
  }

  /** How many steps of existing threads may pass before the next line is written. */
  function Distance(st: State): (n: nat)
    ensures n <= 8
  {
    (if st.owner.Pusher? then HoldTime(st) else 0)
    + match st.worker
      case Asleep => 5
      case Parking => 5
      case Outside => 4
      case Woken => 4
      case Testing => 3
      case Chosen => 2
      case Writing(_) => 1
      case Ended => 0
      case Crashed => 0
  }

  lemma WorkerCloser(st: State)
    requires Inv(st) && st.que != [] && !st.worker.Writing? && st.worker != Ended && !st.owner.Pusher?
    ensures var next := Step(st, WorkerStep);
      && Distance(next) < Distance(st) && next.worker != Ended
      && next.written == st.written && st.que == InHand(next.worker) + next.que
  {
    assert forall t :: WillNotify(st, t) ==> st.owner == Pusher(t);
    if st.worker == Chosen {
      assert [st.que[0]] + st.que[1..] == st.que;
    }
  }

  lemma PusherCloser(st: State, e: Event)
    requires Inv(st) && !st.worker.Writing? && st.worker != Ended && st.owner.Pusher?
    requires e.Push? || e.Notify? || e.Unlock?
    requires HoldTime(Step(st, e)) < HoldTime(st)
    ensures var next := Step(st, e);
      && Distance(next) < Distance(st) && next.worker != Ended
      && next.written == st.written && st.que <= InHand(next.worker) + next.que
  {
  }

  /** A step that does not write a line but brings the next one closer. */
  lemma Closer(st: State) returns (e: Event)
    requires Inv(st) && st.que != [] && !st.worker.Writing? && st.worker != Ended
    ensures Internal(e)
    ensures var next := Step(st, e);
      && Inv(next) && Distance(next) < Distance(st) && next.worker != Ended
      && next.written == st.written && st.que <= InHand(next.worker) + next.que
  {
    e := WorkerStep;
    if st.owner.Pusher? {
      e := Freer(st);
      hide Inv, Step, HoldTime, Distance;
      PusherCloser(st, e);
    } else {
      hide Step, Distance;
      InvStep(st, e);
      WorkerCloser(st);
    }
  }

  /** From every state in which there is something to write and the worker has not ended, at most eight
      steps of existing threads write the next line. */
  lemma {:induction false} NextIsWritten(st: State) returns (es: seq<Event>)
    requires Inv(st) && InHand(st.worker) + st.que != [] && st.worker != Ended
    ensures |es| <= 8 && |es| <= Distance(st) && AllInternal(es)
    ensures Run(st, es).written == st.written + [(InHand(st.worker) + st.que)[0]]
    decreases Distance(st)
  {
    if st.worker.Writing? {
      RunOne(st, WorkerStep);
      es := [WorkerStep];
    } else {
      var e := Closer(st);
      var next := Step(st, e);
      hide Inv, Step, Run, Distance;
      var rest := NextIsWritten(next);
      RunFirst(st, e, rest);
      es := [e] + rest;
      assert (InHand(next.worker) + next.que)[0] == st.que[0];
    }
  }

  lemma {:induction false} RecordsGrow(st: State, es: seq<Event>)
    ensures var end := Run(st, es);
      && st.pushed <= end.pushed && st.written <= end.written && (AllInternal(es) ==> end.isShutDown == st.isShutDown)
    decreases |es|
  {
    if es == [] {
    } else {
      RecordsGrow(Step(st, es[0]), es[1..]);
      assert AllInternal(es) ==> Internal(es[0]) && AllInternal(es[1..]);
    }
  }

  lemma {:induction false} TextsPrefix(xs: seq<Line>, ys: seq<Line>)
    requires xs <= ys
    ensures Texts(xs) <= Texts(ys) && |Texts(xs)| == |xs|
  {
    if xs == [] {
    } else {
      TextsPrefix(xs[1..], ys[1..]);
    }
  }

  /** Until shutdown, everything pushed so far is written within a bounded number of steps. */
  lemma {:induction false} PushedIsWritten(st: State, n: nat) returns (es: seq<Event>)
    requires Inv(st) && !st.isShutDown && n <= |Texts(st.pushed)|
    ensures AllInternal(es) && |es| <= 8 * (if n > |st.written| then n - |st.written| else 0)
    ensures Texts(st.pushed)[..n] <= Run(st, es).written
    decreases n - |st.written|
  {
    if n <= |st.written| {
      assert Texts(st.pushed)[..n] == st.written[..n];
      es := [];
    } else {
      var lead := NextIsWritten(st);
      var next := Run(st, lead);
      InvRun(st, lead);
      RecordsGrow(st, lead);
      TextsPrefix(st.pushed, next.pushed);
      hide Inv, Run, Distance, Texts;
      var rest := PushedIsWritten(next, n);
      RunConcat(st, lead, rest);
      assert Texts(st.pushed)[..n] == Texts(next.pushed)[..n];
      es := lead + rest;
    }
  }

  /** Until shutdown, every line with which a thread stands in `Push` is written by steps of existing
      threads alone. */
  lemma EveryLineIsWritten(st: State, t: nat, line: string) returns (es: seq<Event>)
    requires Inv(st) && !st.isShutDown && At(st, t) == Some(Entering(line))
    ensures AllInternal(es)
    ensures exists k :: |st.pushed| <= k < |Run(st, es).written| && Run(st, es).written[k] == line
  {
    var lead := PushGetsThrough(st, t, line);
    var before, after := Run(st, lead[..|lead| - 1]), Run(st, lead);
    RecordsGrow(st, lead[..|lead| - 1]);
    RecordsGrow(st, lead);
    InvRun(st, lead);
    TextsAppend(before.pushed, Line(t, line));
    TextsPrefix(before.pushed, before.pushed);
    var n := |before.pushed| + 1;
    var rest := PushedIsWritten(after, n);
    RunConcat(st, lead, rest);
    es := lead + rest;
    assert Texts(after.pushed)[..n] == Texts(after.pushed) && Run(st, es).written[n - 1] == line;
  }

  /** How many steps of its own the worker has left after shutdown. */
  function StepsToEnd(st: State): nat
  {
    4 * |st.que| + match st.worker
      case Writing(_) => 4
      case Outside => 3
      case Woken => 3
      case Testing => 2
      case Chosen => 1
      case Parking => 0
      case Asleep => 0
      case Ended => 0
      case Crashed => 0
  }

  lemma EndsSooner(st: State)
    requires Inv(st) && HasHeard(st) && !st.owner.Pusher? && st.worker != Ended
    ensures var next := Step(st, WorkerStep);
      && HasHeard(next) && !next.owner.Pusher? && next.pushed == st.pushed && StepsToEnd(next) == StepsToEnd(st) - 1
      && (next.worker == Ended ==> StepsToEnd(next) == 0 && next.que == [] && next.written == Texts(st.pushed))
  {
  }

  /** Once shutdown is heard and no pusher holds the mutex, the worker's own steps write what is left and
      end its loop, so the join of the destructor returns. */
  lemma {:induction false} WorkerEnds(st: State) returns (es: seq<Event>)
    requires Inv(st) && HasHeard(st) && !st.owner.Pusher? && st.worker != Ended
    ensures |es| == StepsToEnd(st) && forall i :: 0 <= i < |es| ==> es[i] == WorkerStep
    ensures var end := Run(st, es); end.worker == Ended && end.que == [] && end.written == Texts(st.pushed)
    decreases StepsToEnd(st)
  {
    var next := Step(st, WorkerStep);
    InvStep(st, WorkerStep);
    EndsSooner(st);
    hide Inv, Step, StepsToEnd, HasHeard, Texts;
    var rest: seq<Event> := [];
    if next.worker != Ended {
      rest := WorkerEnds(next);
    }
    RunFirst(st, WorkerStep, rest);
    es := [WorkerStep] + rest;
  }

  /** Shutdown is set and the worker is past every point from which it could still fall asleep. */
  ghost predicate HasHeard(st: State)
  {
    st.isShutDown && st.worker != Parking && st.worker != Asleep
  }

  lemma {:induction false} HeardForGood(st: State, es: seq<Event>)
    requires HasHeard(st)
    ensures HasHeard(Run(st, es))
    decreases |es|
  {
    if es == [] {
    } else {
      HeardForGood(Step(st, es[0]), es[1..]);
    }
  }

  ghost predicate AsleepAfter(st: State, es: seq<Event>)
  {
    Run(st, es).worker == Asleep
  }

  lemma {:induction false} ShutDownStays(st: State, es: seq<Event>)
    requires st.isShutDown
    ensures Run(st, es).isShutDown
    decreases |es|
  {
    if es == [] {
    } else {
      ShutDownStays(Step(st, es[0]), es[1..]);
    }
  }

  /** `ShutDown` sets the flag without the mutex, so its notification can fall between the worker's test
      and its sleep. Exactly otherwise the worker never sleeps again, on any continuation. */
  lemma ShutDownIsHeardIff(st: State, between: seq<Event>)
    ensures var found := Run(Step(st, SetShutDown), between);
      (forall es :: !AsleepAfter(Step(found, NotifyAll), es)) <==> found.worker != Parking
  {
    ShutDownStays(Step(st, SetShutDown), between);
    var found := Run(Step(st, SetShutDown), between);
    var after := Step(found, NotifyAll);
    if found.worker == Parking {
      var es := [WorkerStep];
      assert es[1..] == [];
      assert AsleepAfter(after, es);
    } else {
      assert HasHeard(after);
      forall es: seq<Event>
        ensures !AsleepAfter(after, es)
      {
        HeardForGood(after, es);
      }
    }
  }

  /** The object behind the machine; each method is one critical section. */
  class Queue {
    var que: seq<string>
    var isShutDown: bool

    constructor ()
      ensures que == [] && !isShutDown
    {
      que, isShutDown := [], false;
    }

    method Push(msg: string) returns (notified: bool)
      modifies this
      ensures que == old(que) + [msg] && isShutDown == old(isShutDown)
      ensures notified <==> old(que) == []
    {
      que := que + [msg];
      notified := |que| == 1;
    }

    /** `Pop` once its wait is over; None is the `false` that ends the worker's loop. */
    method Pop() returns (msg: Option<string>)
      requires que != [] || isShutDown
      modifies this
      ensures isShutDown == old(isShutDown)
      ensures match msg
        case None => isShutDown && old(que) == [] && que == []
        case Some(line) => old(que) == [line] + que
    {
      if isShutDown && que == [] {
        return None;
      }
      msg := Some(que[0]);
      que := que[1..];
    }

    method ShutDown()
      modifies this
      ensures isShutDown && que == old(que)
    {
      isShutDown := true;
    }

    /** The worker's loop after shutdown, undisturbed: it writes what is queued and ends. */
    method WorkerLoop() returns (written: seq<string>)
      requires isShutDown
      modifies this
      ensures written == old(que) && que == []
    {
      written := [];
      while true
        invariant isShutDown && written + que == old(que)
        decreases |que|
      {
        var msg := Pop();
        if msg == None {
          return;
        }
        written := written + [msg.value];
      }
    }
  }
}
