/** The logic queue: any number of posting threads, one worker, one mutex, one condition variable.
    Every thread has a program counter and the scheduler picks the next step. */
module LogicWorker {
  import opened Sequences
  import opened Wrappers

  /** Whether a post notifies before it releases the mutex (02_async) or after (05_ftp). */
  datatype Style = NotifyLocked | NotifyUnlocked

  /** A poster: waits for the mutex; holds it; holds it with its message pushed; has released it but
      not yet notified; still holds it after notifying. */
  datatype PosterPc<M> = Entering(m: M) | Holding(m: M) | Pushed | Released | Notified

  /** The worker: before `lock`; evaluating the predicate; the predicate was false and it is about to
      sleep, still holding the mutex; asleep; awake and reacquiring; past the wait, about to read
      `_stop`; in the callback (drain: inside the loop that empties the queue); at the test of that
      loop; returned. Crashed: `front` of an empty queue. */
  datatype WorkerPc<M> =
    | Outside | Testing | Parking | Asleep | Woken | Chosen
    | Working(m: M, drain: bool) | Draining | Exited | Crashed

  datatype Owner = Free | Worker | Poster(t: nat)

  /** `entered`, `accepted`, `dropped` and `dispatched` record, in order, the messages with which
      `PostMsgToQue` was called, those it pushed, those it dropped because the queue was full, and
      those whose callback has run. */
  datatype State<M> = State(
    queue: seq<M>, owner: Owner, posters: map<nat, PosterPc<M>>, worker: WorkerPc<M>, stop: bool,
    entered: seq<M>, accepted: seq<M>, dropped: seq<M>, dispatched: seq<M>)

  function Start<M>(): State<M>
  {
    State([], Free, map[], Outside, false, [], [], [], [])
  }

  /** One step of one thread; `Arrive` is a session entering `PostMsgToQue`, `Spurious` a wakeup
      without a notification, `SetStop` and `NotifyStop` the two halves of the destructor. */
  datatype Event<M> =
    | Arrive(t: nat, m: M) | Lock(t: nat) | Push(t: nat) | Unlock(t: nat) | Notify(t: nat)
    | WorkerStep | Spurious | SetStop | NotifyStop

  function Wake<M>(st: State<M>): State<M>
  {
    if st.worker == Asleep then st.(worker := Woken) else st
  }

  function At<M>(st: State<M>, t: nat): Option<PosterPc<M>>
  {
    if t in st.posters then Some(st.posters[t]) else None
  }

  function Pop<M>(st: State<M>, drain: bool): State<M>
  {
    if st.queue == [] then st.(worker := Crashed)
    else st.(queue := st.queue[1..], worker := Working(st.queue[0], drain))
  }

  /** The worker's next step; it stutters while it is asleep, returned, or waits for the mutex. */
  function WorkerNext<M>(st: State<M>): State<M>
  {
    match st.worker
    case Outside => if st.owner == Free then st.(worker := Testing, owner := Worker) else st
    case Woken => if st.owner == Free then st.(worker := Testing, owner := Worker) else st
    case Testing => st.(worker := if st.queue != [] || st.stop then Chosen else Parking)
    case Parking => st.(worker := Asleep, owner := Free)
    case Chosen => if st.stop then st.(worker := Draining) else Pop(st, false)
    case Draining => if st.queue != [] then Pop(st, true) else st.(worker := Exited, owner := Free)
    case Working(m, drain) =>
      if drain then st.(dispatched := st.dispatched + [m], worker := Draining)
      else st.(dispatched := st.dispatched + [m], worker := Outside, owner := Free)
    case Asleep => st
    case Exited => st
    case Crashed => st
  }

  /** An event that is not enabled changes nothing. */
  function Step<M>(style: Style, cap: nat, st: State<M>, e: Event<M>): State<M>
  {
    match e
    case Arrive(t, m) =>
      if t in st.posters then st else st.(posters := st.posters[t := Entering(m)], entered := st.entered + [m])
    case Lock(t) =>
      if At(st, t).Some? && st.posters[t].Entering? && st.owner == Free
      then st.(posters := st.posters[t := Holding(st.posters[t].m)], owner := Poster(t)) else st
    case Push(t) =>
      if At(st, t).None? || !st.posters[t].Holding? then st
      else if |st.queue| >= cap
      then st.(posters := st.posters - {t}, owner := Free, dropped := st.dropped + [st.posters[t].m])
      else
        var m := st.posters[t].m;
        st.(queue := st.queue + [m], accepted := st.accepted + [m], posters := st.posters[t := Pushed])
    case Unlock(t) =>
      if style == NotifyUnlocked && At(st, t) == Some(Pushed)
      then st.(posters := st.posters[t := Released], owner := Free)
      else if style == NotifyLocked && At(st, t) == Some(Notified)
      then st.(posters := st.posters - {t}, owner := Free) else st
    case Notify(t) =>
      if style == NotifyUnlocked && At(st, t) == Some(Released)
      then Wake(st).(posters := st.posters - {t})
      else if style == NotifyLocked && At(st, t) == Some(Pushed)
      then Wake(st).(posters := st.posters[t := Notified]) else st
    case WorkerStep => WorkerNext(st)
    case Spurious => Wake(st)
    case SetStop => st.(stop := true)
    case NotifyStop => if st.stop then Wake(st) else st
  }

  function Run<M>(style: Style, cap: nat, st: State<M>, es: seq<Event<M>>): State<M>
    decreases |es|
  {
    if es == [] then st else Run(style, cap, Step(style, cap, st, es[0]), es[1..])
  }

  // ---------------------------------------------------------------- the invariant

  function InHand<M>(w: WorkerPc<M>): seq<M>
  {
    if w.Working? then [w.m] else []
  }

  ghost predicate HoldsMutex<M>(pc: PosterPc<M>)
  {
    pc.Holding? || pc.Pushed? || pc.Notified?
  }

  ghost predicate WorkerHolds<M>(w: WorkerPc<M>)
  {
    w.Testing? || w.Parking? || w.Chosen? || w.Working? || w.Draining?
  }

  /** The mutex has one owner, and the program counters know who it is. */
  ghost predicate Exclusive<M>(st: State<M>)
  {
    && (st.owner == Worker <==> WorkerHolds(st.worker))
    && (forall t :: st.owner == Poster(t) <==> t in st.posters && HoldsMutex(st.posters[t]))
  }

  /** The poster has pushed and has still to notify. */
  ghost predicate WillNotify<M>(st: State<M>, t: nat)
  {
    t in st.posters && (st.posters[t].Pushed? || st.posters[t].Released?)
  }

  /** No post is lost to a sleeping worker. */
  ghost predicate NoLostWakeup<M>(st: State<M>)
  {
    st.worker == Asleep && st.queue != [] ==> exists t :: WillNotify(st, t)
  }

  ghost predicate Inv<M>(style: Style, cap: nat, st: State<M>)
  {
    && Exclusive(st)
    && NoLostWakeup(st)
    && st.accepted == st.dispatched + InHand(st.worker) + st.queue
    && |st.queue| <= cap
    && (st.worker == Parking ==> st.queue == [])
    && (st.worker == Chosen ==> st.queue != [] || st.stop)
    && (st.worker == Draining || st.worker == Exited || (st.worker.Working? && st.worker.drain) ==> st.stop)
    && st.worker != Crashed
    && (forall t <- st.posters :: st.posters[t].Released? ==> style == NotifyUnlocked)
    && (forall t <- st.posters :: st.posters[t].Notified? ==> style == NotifyLocked)
  }

  lemma StartInv<M>(style: Style, cap: nat)
    ensures Inv(style, cap, Start<M>())
  {
  }

  lemma WorkerKeeps<M>(style: Style, cap: nat, st: State<M>)
    requires Inv(style, cap, st)
    ensures Inv(style, cap, WorkerNext(st))
  {
    if (st.worker == Chosen && !st.stop) || (st.worker == Draining && st.queue != []) {
      assert st.dispatched + [] + st.queue == st.dispatched + [st.queue[0]] + st.queue[1..];
    }
    if st.worker.Working? {
      assert st.dispatched + [st.worker.m] + st.queue == (st.dispatched + [st.worker.m]) + [] + st.queue;
    }
  }

  lemma PushKeeps<M>(style: Style, cap: nat, st: State<M>, t: nat)
    requires Inv(style, cap, st)
    ensures Inv(style, cap, Step(style, cap, st, Push(t)))
  {
    var next := Step(style, cap, st, Push(t));
    if next.queue != st.queue {
      assert WillNotify(next, t);
      var m := st.posters[t].m;
      assert st.dispatched + InHand(st.worker) + (st.queue + [m]) == st.accepted + [m];
    } else if next.worker == Asleep && st.queue != [] {
      var u :| WillNotify(st, u);
      assert WillNotify(next, u);
    }
  }

  lemma LockKeeps<M>(style: Style, cap: nat, st: State<M>, e: Event<M>)
    requires Inv(style, cap, st) && (e.Arrive? || e.Lock?)
    ensures Inv(style, cap, Step(style, cap, st, e))
  {
    var next := Step(style, cap, st, e);
    if next.worker == Asleep && st.queue != [] {
      var t :| WillNotify(st, t);
      assert WillNotify(next, t);
    }
  }

  lemma UnlockKeeps<M>(style: Style, cap: nat, st: State<M>, t: nat)
    requires Inv(style, cap, st)
    ensures Inv(style, cap, Step(style, cap, st, Unlock(t)))
  {
    var next := Step(style, cap, st, Unlock(t));
    if next.worker == Asleep && st.queue != [] {
      var u :| WillNotify(st, u);
      assert WillNotify(next, u);
    }
  }

  lemma NotifyKeeps<M>(style: Style, cap: nat, st: State<M>, t: nat)
    requires Inv(style, cap, st)
    ensures Inv(style, cap, Step(style, cap, st, Notify(t)))
  {
    var next := Step(style, cap, st, Notify(t));
    if next.worker == Asleep && st.queue != [] {
      assert next == st;
    }
  }

  lemma InvStep<M>(style: Style, cap: nat, st: State<M>, e: Event<M>)
    requires Inv(style, cap, st)
    ensures Inv(style, cap, Step(style, cap, st, e))
  {
    if e.WorkerStep? {
      WorkerKeeps(style, cap, st);
    } else if e.Arrive? || e.Lock? {
      LockKeeps(style, cap, st, e);
    } else if e.Push? {
      PushKeeps(style, cap, st, e.t);
    } else if e.Unlock? {
      UnlockKeeps(style, cap, st, e.t);
    } else if e.Notify? {
      NotifyKeeps(style, cap, st, e.t);
    } else if st.worker == Asleep && st.queue != [] && e.SetStop? {
      var t :| WillNotify(st, t);
      assert WillNotify(Step(style, cap, st, e), t);
    }
  }

  /** Over every schedule of any number of posters, in both styles: mutual exclusion, no lost wakeup,
      the queue within its cap, no pop of an empty queue, and every accepted message either
      dispatched, in the worker's hands or queued, in order. */
  lemma {:induction false} InvRun<M>(style: Style, cap: nat, st: State<M>, es: seq<Event<M>>)
    requires Inv(style, cap, st)
    ensures Inv(style, cap, Run(style, cap, st, es))
    decreases |es|
  {
    if es == [] {
    } else {
      InvStep(style, cap, st, es[0]);
      InvRun(style, cap, Step(style, cap, st, es[0]), es[1..]);
    }
  }

  // ---------------------------------------------------------------- every post gets through

  /** A thread outside `PostMsgToQue` can always enter it. */
  lemma ArriveTaken<M>(style: Style, cap: nat, st: State<M>, t: nat, m: M)
    requires t !in st.posters
    ensures var next := Step(style, cap, st, Arrive(t, m));
      next == st.(posters := st.posters[t := Entering(m)], entered := st.entered + [m])
  {
  }

  /** A free mutex is taken, whatever the worker does. */
  lemma LockTaken<M>(style: Style, cap: nat, st: State<M>, t: nat, m: M)
    requires At(st, t) == Some(Entering(m)) && st.owner == Free
    ensures var next := Step(style, cap, st, Lock(t));
      next == st.(posters := st.posters[t := Holding(m)], owner := Poster(t))
  {
  }

  /** What is pushed goes to the back of the queue; it is dropped only if the queue is full. */
  lemma PushTaken<M>(style: Style, cap: nat, st: State<M>, t: nat, m: M)
    requires At(st, t) == Some(Holding(m))
    ensures var next := Step(style, cap, st, Push(t));
      if |st.queue| < cap
      then next == st.(queue := st.queue + [m], accepted := st.accepted + [m], posters := st.posters[t := Pushed])
      else next == st.(dropped := st.dropped + [m], posters := st.posters - {t}, owner := Free)
  {
  }

  /** The destructor can set the flag at any moment; its notification, and a spurious wakeup, wake a
      sleeping worker and do nothing else. */
  lemma WakeupsTaken<M>(style: Style, cap: nat, st: State<M>)
    ensures Step(style, cap, st, SetStop) == st.(stop := true)
    ensures st.worker == Asleep ==>
      && Step(style, cap, st, Spurious) == st.(worker := Woken)
      && (st.stop ==> Step(style, cap, st, NotifyStop) == st.(worker := Woken))
  {
  }

  /** Until stop, the worker gives the mutex back after each message. */
  lemma TurnReleases<M>(style: Style, cap: nat, st: State<M>)
    requires Inv(style, cap, st) && st.worker.Working? && !st.stop
    ensures var next := Step(style, cap, st, WorkerStep);
      next.owner == Free && next.dispatched == st.dispatched + [st.worker.m] && next.queue == st.queue
  {
  }

  /** How many steps the owner of the mutex can keep it. */
  function HoldTime<M>(st: State<M>): nat
  {
    match st.owner
    case Free => 0
    case Poster(t) => PosterSteps(st)
    case Worker =>
      match st.worker
      case Parking => 1
      case Testing => 2 * |st.queue| + 3
      case Chosen => 2 * |st.queue| + 2
      case Working(_, drain) => if drain then 2 * |st.queue| + 2 else 1
      case Draining => 2 * |st.queue| + 1
      case Outside => 0
      case Asleep => 0
      case Woken => 0
      case Exited => 0
      case Crashed => 0
  }

  /** The owner comes closer to releasing the mutex; who waits for it keeps waiting. */
  lemma Freer<M>(style: Style, cap: nat, st: State<M>) returns (e: Event<M>)
    requires Inv(style, cap, st) && st.owner != Free
    ensures Internal(e) && Inv(style, cap, Step(style, cap, st, e))
    ensures HoldTime(Step(style, cap, st, e)) < HoldTime(st)
    ensures forall t <- st.posters :: st.posters[t].Entering? ==> At(Step(style, cap, st, e), t) == Some(st.posters[t])
  {
    e := WorkerStep;
    if st.owner.Poster? {
      var t := st.owner.t;
      assert t in st.posters && HoldsMutex(st.posters[t]);
      e := if st.posters[t].Holding? then Push(t)
           else if (st.posters[t].Pushed? && style == NotifyLocked) then Notify(t) else Unlock(t);
    }
    InvStep(style, cap, st, e);
  }

  lemma RunFirst<M>(style: Style, cap: nat, st: State<M>, e: Event<M>, es: seq<Event<M>>)
    ensures Run(style, cap, st, [e] + es) == Run(style, cap, Step(style, cap, st, e), es)
  {
    assert ([e] + es)[1..] == es;
  }

  lemma RunOne<M>(style: Style, cap: nat, st: State<M>, e: Event<M>)
    ensures Run(style, cap, st, [e]) == Step(style, cap, st, e)
  {
    assert [e][1..] == [];
  }

  lemma {:induction false} RunConcat<M>(style: Style, cap: nat, st: State<M>, es: seq<Event<M>>, fs: seq<Event<M>>)
    ensures Run(style, cap, st, es + fs) == Run(style, cap, Run(style, cap, st, es), fs)
    decreases |es|
  {
    if es == [] {
      assert es + fs == fs;
    } else {
      assert (es + fs)[1..] == es[1..] + fs;
      RunConcat(style, cap, Step(style, cap, st, es[0]), es[1..], fs);
    }
  }

  ghost predicate AllInternal<M>(es: seq<Event<M>>)
  {
    forall i :: 0 <= i < |es| ==> Internal(es[i])
  }

  /** From every reachable state, a poster in front of the mutex gets it after a bounded number of steps
      of existing threads: no wakeup, no stop and no work in the queue is needed. */
  lemma {:induction false} PostGetsMutex<M>(style: Style, cap: nat, st: State<M>, t: nat, m: M)
    returns (es: seq<Event<M>>)
    requires Inv(style, cap, st) && (At(st, t) == Some(Entering(m)) || At(st, t) == Some(Holding(m)))
    ensures |es| <= HoldTime(st) + 1 <= 2 * cap + 4 && AllInternal(es)
    ensures var before := Run(style, cap, st, es);
      At(before, t) == Some(Holding(m)) && before.owner == Poster(t)
    decreases HoldTime(st)
  {
    if At(st, t) == Some(Holding(m)) {
      assert st.owner == Poster(t);
      es := [];
    } else if st.owner == Free {
      LockTaken(style, cap, st, t, m);
      es := [Lock(t)];
      RunOne(style, cap, st, Lock(t));
    } else {
      var e := Freer(style, cap, st);
      hide Inv, Step, Run, HoldTime;
      var rest := PostGetsMutex(style, cap, Step(style, cap, st, e), t, m);
      RunFirst(style, cap, st, e, rest);
      es := [e] + rest;
    }
  }

  /** So every message with which a thread stands in `PostMsgToQue` is pushed, or dropped because the queue
      is full at that moment, within a bounded number of steps. */
  lemma PostGetsThrough<M>(style: Style, cap: nat, st: State<M>, t: nat, m: M) returns (es: seq<Event<M>>)
    requires Inv(style, cap, st) && (At(st, t) == Some(Entering(m)) || At(st, t) == Some(Holding(m)))
    ensures |es| <= 2 * cap + 5 && AllInternal(es) && es != []
    ensures var before, after := Run(style, cap, st, es[..|es| - 1]), Run(style, cap, st, es);
      if |before.queue| < cap
      then after.queue == before.queue + [m] && after.accepted == before.accepted + [m]
           && after.dropped == before.dropped
      else after.accepted == before.accepted && after.dropped == before.dropped + [m]
  {
    var lead := PostGetsMutex(style, cap, st, t, m);
    es := lead + [Push(t)];
    var before := Run(style, cap, st, lead);
    PushTaken(style, cap, before, t, m);
    RunConcat(style, cap, st, lead, [Push(t)]);
    RunOne(style, cap, before, Push(t));
    assert es[..|es| - 1] == lead;
  }

  /** How many steps of its own a poster has left behind its push. */
  lemma {:induction false} PosterLeaves<M>(style: Style, cap: nat, st: State<M>, t: nat) returns (es: seq<Event<M>>)
    requires Inv(style, cap, st) && t in st.posters && !st.posters[t].Entering? && !st.posters[t].Holding?
    ensures |es| <= (if st.posters[t].Pushed? then 2 else 1) && AllInternal(es)
    ensures t !in Run(style, cap, st, es).posters
    decreases if st.posters[t].Pushed? then 1 else 0
  {
    var unlocks := st.posters[t].Notified? || (st.posters[t].Pushed? && style == NotifyUnlocked);
    var e := if unlocks then Unlock(t) else Notify(t);
    var next := Step(style, cap, st, e);
    InvStep(style, cap, st, e);
    var rest: seq<Event<M>> := [];
    if t in next.posters {
      rest := PosterLeaves(style, cap, next, t);
    }
    RunFirst(style, cap, st, e, rest);
    es := [e] + rest;
  }

  /** Every call of `PostMsgToQue` returns within a bounded number of steps. */
  lemma PostReturns<M>(style: Style, cap: nat, st: State<M>, t: nat) returns (es: seq<Event<M>>)
    requires Inv(style, cap, st) && t in st.posters
    ensures |es| <= 2 * cap + 7 && AllInternal(es) && t !in Run(style, cap, st, es).posters
  {
    var lead: seq<Event<M>> := [];
    if st.posters[t].Entering? || st.posters[t].Holding? {
      lead := PostGetsMutex(style, cap, st, t, st.posters[t].m);
      var before := Run(style, cap, st, lead);
      RunConcat(style, cap, st, lead, [Push(t)]);
      RunOne(style, cap, before, Push(t));
      lead := lead + [Push(t)];
    }
    var now := Run(style, cap, st, lead);
    InvRun(style, cap, st, lead);
    var rest: seq<Event<M>> := [];
    if t in now.posters {
      rest := PosterLeaves(style, cap, now, t);
    }
    RunConcat(style, cap, st, lead, rest);
    es := lead + rest;
  }

  /** With the mutex free, a worker asleep over a non-empty queue means that a poster stands between
      its unlock and its notify; where the notify comes first, that cannot happen at all. */
  lemma SleepingOverWork<M>(style: Style, cap: nat, es: seq<Event<M>>)
    ensures var st := Run(style, cap, Start<M>(), es);
      st.worker == Asleep && st.queue != [] && st.owner == Free ==>
        style == NotifyUnlocked && exists t :: t in st.posters && st.posters[t].Released?
  {
    StartInv<M>(style, cap);
    InvRun(style, cap, Start<M>(), es);
    var st := Run(style, cap, Start<M>(), es);
    if st.worker == Asleep && st.queue != [] && st.owner == Free {
      var t :| WillNotify(st, t);
      assert !HoldsMutex(st.posters[t]);
    }
  }

  /** The server cannot get stuck over queued work: some thread that is not asleep can move, without
      a new arrival or a spurious wakeup. */
  lemma WorkCanProceed<M>(style: Style, cap: nat, st: State<M>) returns (e: Event<M>)
    requires Inv(style, cap, st) && st.queue != [] && st.worker != Exited
    ensures !e.Arrive? && !e.Spurious? && !e.SetStop? && !e.NotifyStop? && Step(style, cap, st, e) != st
  {
    match st.owner {
      case Worker =>
        e := WorkerStep;
        if st.worker.Working? {
          assert |WorkerNext(st).dispatched| == |st.dispatched| + 1;
        }
      case Poster(t) =>
        assert t in st.posters && HoldsMutex(st.posters[t]);
        e := if st.posters[t].Holding? then Push(t)
             else if (st.posters[t].Pushed? && style == NotifyLocked) then Notify(t) else Unlock(t);
      case Free =>
        if st.worker == Asleep {
          var t :| WillNotify(st, t);
          assert st.owner != Poster(t);
          e := Notify(t);
        } else {
          e := WorkerStep;
        }
    }
  }

  /** How many steps of existing threads may pass before the next callback has run: those of a poster
      that holds the mutex, then those of the worker, one more if it has to be woken. */
  function Distance<M>(st: State<M>): nat
  {
    PosterSteps(st) + WorkerSteps(st.worker)
  }

  function PosterSteps<M>(st: State<M>): nat
  {
    if !st.owner.Poster? || st.owner.t !in st.posters then 0
    else match st.posters[st.owner.t]
      case Holding(_) => 3
      case Pushed => 2
      case Notified => 1
      case Entering(_) => 0
      case Released => 0
  }

  function WorkerSteps<M>(w: WorkerPc<M>): nat
  {
    match w
    case Asleep => 6
    case Parking => 7
    case Outside => 5
    case Woken => 5
    case Testing => 4
    case Chosen => 3
    case Draining => 2
    case Working(_, _) => 1
    case Exited => 0
    case Crashed => 0
  }

  /** The front of the queue, or the message in the worker's hands. */
  function Next<M>(st: State<M>): M
    requires InHand(st.worker) + st.queue != []
  {
    (InHand(st.worker) + st.queue)[0]
  }

  /** A step of an existing thread. */
  ghost predicate Internal<M>(e: Event<M>)
  {
    !e.Arrive? && !e.Spurious? && !e.SetStop? && !e.NotifyStop?
  }

  lemma WorkerCloser<M>(style: Style, cap: nat, st: State<M>)
    requires Inv(style, cap, st) && st.queue != [] && !st.worker.Working? && st.owner != Free
    requires st.owner == Worker
    ensures var next := WorkerNext(st);
      && Distance(next) < Distance(st) && next.worker != Exited && next.dispatched == st.dispatched
      && InHand(next.worker) + next.queue == st.queue
  {
    if st.worker == Chosen || st.worker == Draining {
      assert [st.queue[0]] + st.queue[1..] == st.queue;
    }
  }

  lemma PosterCloser<M>(style: Style, cap: nat, st: State<M>) returns (e: Event<M>)
    requires Inv(style, cap, st) && st.queue != [] && st.owner.Poster? && st.worker != Exited
    ensures Internal(e) && e != WorkerStep
    ensures var next := Step(style, cap, st, e);
      && Distance(next) < Distance(st) && next.worker != Exited && next.dispatched == st.dispatched
      && st.queue <= InHand(next.worker) + next.queue
  {
    var t := st.owner.t;
    assert t in st.posters && HoldsMutex(st.posters[t]);
    e := if st.posters[t].Holding? then Push(t)
         else if (st.posters[t].Pushed? && style == NotifyLocked) then Notify(t) else Unlock(t);
  }

  lemma FreeCloser<M>(style: Style, cap: nat, st: State<M>) returns (e: Event<M>)
    requires Inv(style, cap, st) && st.queue != [] && st.owner == Free && st.worker != Exited
    ensures Internal(e)
    ensures var next := Step(style, cap, st, e);
      && Distance(next) < Distance(st) && next.worker != Exited && next.dispatched == st.dispatched
      && InHand(next.worker) + next.queue == st.queue
  {
    if st.worker == Asleep {
      var t :| WillNotify(st, t);
      assert st.owner != Poster(t);
      e := Notify(t);
    } else {
      e := WorkerStep;
    }
  }

  /** A step that does not run a callback but brings the next one closer. */
  lemma Closer<M>(style: Style, cap: nat, st: State<M>) returns (e: Event<M>)
    requires Inv(style, cap, st) && st.queue != [] && !st.worker.Working? && st.worker != Exited
    ensures Internal(e)
    ensures var next := Step(style, cap, st, e);
      && Inv(style, cap, next) && Distance(next) < Distance(st) && next.worker != Exited
      && next.dispatched == st.dispatched && st.queue <= InHand(next.worker) + next.queue
  {
    e := WorkerStep;
    if st.owner == Worker {
      WorkerCloser(style, cap, st);
    } else if st.owner == Free {
      e := FreeCloser(style, cap, st);
    } else {
      e := PosterCloser(style, cap, st);
    }
    InvStep(style, cap, st, e);
  }

  lemma NextKept<M>(st: State<M>, next: State<M>)
    requires !st.worker.Working? && st.queue != [] && st.queue <= InHand(next.worker) + next.queue
    ensures InHand(st.worker) + st.queue != [] && InHand(next.worker) + next.queue != [] && Next(next) == Next(st)
  {
  }

  lemma HandIsNext<M>(style: Style, cap: nat, st: State<M>)
    requires st.worker.Working?
    ensures Run(style, cap, st, [WorkerStep]).dispatched == st.dispatched + [Next(st)]
  {
    var es: seq<Event<M>> := [WorkerStep];
    assert es[1..] == [];
  }

  /** From every state in which there is something to dispatch and the worker has not returned, at most
      ten steps of existing threads run the callback of the next message. */
  lemma {:induction false} NextIsDispatched<M>(style: Style, cap: nat, st: State<M>) returns (es: seq<Event<M>>)
    requires Inv(style, cap, st) && InHand(st.worker) + st.queue != [] && st.worker != Exited
    ensures |es| <= Distance(st) <= 10 && forall i :: 0 <= i < |es| ==> Internal(es[i])
    ensures Run(style, cap, st, es).dispatched == st.dispatched + [Next(st)]
    decreases Distance(st)
  {
    if st.worker.Working? {
      HandIsNext(style, cap, st);
      es := [WorkerStep];
    } else {
      assert st.queue != [];
      hide *;
      DistanceBound(st);
      var e := Closer(style, cap, st);
      var next := Step(style, cap, st, e);
      NextKept(st, next);
      var rest := NextIsDispatched(style, cap, next);
      RunFirst(style, cap, st, e, rest);
      es := [e] + rest;
    }
  }

  lemma DistanceBound<M>(st: State<M>)
    ensures Distance(st) <= 10
  {
  }

  lemma WorkerRecords<M>(st: State<M>)
    ensures var next := WorkerNext(st);
      && next.accepted == st.accepted && next.dropped == st.dropped && st.dispatched <= next.dispatched
      && next.stop == st.stop
  {
  }

  lemma RecordsGrowStep<M>(style: Style, cap: nat, st: State<M>, e: Event<M>)
    ensures var next := Step(style, cap, st, e);
      st.accepted <= next.accepted && st.dropped <= next.dropped && st.dispatched <= next.dispatched
        && (Internal(e) ==> next.stop == st.stop)
  {
    hide WorkerNext;
    WorkerRecords(st);
  }

  lemma {:induction false} RecordsGrow<M>(style: Style, cap: nat, st: State<M>, es: seq<Event<M>>)
    ensures var end := Run(style, cap, st, es);
      st.accepted <= end.accepted && st.dropped <= end.dropped && st.dispatched <= end.dispatched
        && (AllInternal(es) ==> end.stop == st.stop)
    decreases |es|
  {
    if es == [] {
    } else {
      RecordsGrowStep(style, cap, st, es[0]);
      RecordsGrow(style, cap, Step(style, cap, st, es[0]), es[1..]);
      assert AllInternal(es) ==> Internal(es[0]) && AllInternal(es[1..]);
    }
  }

  /** Until stop, everything accepted so far is dispatched within a bounded number of steps of existing
      threads. */
  lemma {:induction false} AcceptedIsDispatched<M>(style: Style, cap: nat, st: State<M>, n: nat)
    returns (es: seq<Event<M>>)
    requires Inv(style, cap, st) && !st.stop && n <= |st.accepted|
    ensures AllInternal(es) && |es| <= 10 * (if n > |st.dispatched| then n - |st.dispatched| else 0)
    ensures st.accepted[..n] <= Run(style, cap, st, es).dispatched
    decreases n - |st.dispatched|
  {
    if n <= |st.dispatched| {
      assert st.accepted[..n] == st.dispatched[..n];
      es := [];
    } else {
      var lead := NextIsDispatched(style, cap, st);
      var next := Run(style, cap, st, lead);
      InvRun(style, cap, st, lead);
      RecordsGrow(style, cap, st, lead);
      hide Inv, Run, Next, Distance;
      var rest := AcceptedIsDispatched(style, cap, next, n);
      RunConcat(style, cap, st, lead, rest);
      assert st.accepted[..n] == next.accepted[..n];
      es := lead + rest;
    }
  }

  /** Liveness of the server: until stop, every message with which a thread stands in `PostMsgToQue` is
      dispatched, or dropped at a full queue, by steps of existing threads alone. */
  lemma EveryPostIsServed<M>(style: Style, cap: nat, st: State<M>, t: nat, m: M) returns (es: seq<Event<M>>)
    requires Inv(style, cap, st) && !st.stop && At(st, t) == Some(Entering(m))
    ensures AllInternal(es)
    ensures var end := Run(style, cap, st, es);
      || (exists k :: |st.accepted| <= k < |end.dispatched| && end.dispatched[k] == m)
      || (exists k :: |st.dropped| <= k < |end.dropped| && end.dropped[k] == m)
  {
    var lead := PostGetsThrough(style, cap, st, t, m);
    var before, after := Run(style, cap, st, lead[..|lead| - 1]), Run(style, cap, st, lead);
    RecordsGrow(style, cap, st, lead[..|lead| - 1]);
    RecordsGrow(style, cap, st, lead);
    InvRun(style, cap, st, lead);
    if |before.queue| < cap {
      var n := |after.accepted|;
      var rest := AcceptedIsDispatched(style, cap, after, n);
      RunConcat(style, cap, st, lead, rest);
      es := lead + rest;
      var end := Run(style, cap, st, es);
      assert after.accepted[..n] == after.accepted && end.dispatched[n - 1] == m;
    } else {
      es := lead;
      assert after.dropped[|before.dropped|] == m;
    }
  }

  // ---------------------------------------------------------------- the queue as its users see it

  /** A bounded queue whose two operations are indivisible: a post is taken unless the queue is full,
      a dispatch runs the callback on the front. */
  datatype Atomic<M> = Atomic(queue: seq<M>, dropped: seq<M>, dispatched: seq<M>)

  function AtomicPost<M>(cap: nat, a: Atomic<M>, m: M): Atomic<M>
  {
    if |a.queue| < cap then a.(queue := a.queue + [m]) else a.(dropped := a.dropped + [m])
  }

  function AtomicDispatch<M>(a: Atomic<M>): Atomic<M>
    requires a.queue != []
  {
    a.(queue := a.queue[1..], dispatched := a.dispatched + [a.queue[0]])
  }

  function Abstraction<M>(st: State<M>): Atomic<M>
  {
    Atomic(InHand(st.worker) + st.queue, st.dropped, st.dispatched)
  }

  lemma WorkerRefines<M>(style: Style, cap: nat, st: State<M>)
    requires Inv(style, cap, st)
    ensures var a, b := Abstraction(st), Abstraction(WorkerNext(st));
      if st.worker.Working? then a.queue != [] && b == AtomicDispatch(a) else b == a
  {
    if st.worker.Working? {
      assert ([st.worker.m] + st.queue)[1..] == st.queue;
    } else if st.queue != [] {
      assert [st.queue[0]] + st.queue[1..] == st.queue;
    }
  }

  lemma PushRefines<M>(style: Style, cap: nat, st: State<M>, t: nat)
    requires Inv(style, cap, st) && t in st.posters && st.posters[t].Holding?
    ensures Abstraction(Step(style, cap, st, Push(t))) == AtomicPost(cap, Abstraction(st), st.posters[t].m)
  {
    assert st.owner == Poster(t);
    assert Abstraction(st).queue == st.queue;
    assert Abstraction(Step(style, cap, st, Push(t))).queue == Step(style, cap, st, Push(t)).queue;
  }

  /** Every step of every thread is, to the users of the queue, one indivisible post, one indivisible
      dispatch, or nothing. */
  lemma RefinesAtomicQueue<M>(style: Style, cap: nat, st: State<M>, e: Event<M>)
    requires Inv(style, cap, st)
    ensures var a, b := Abstraction(st), Abstraction(Step(style, cap, st, e));
      if e.Push? && At(st, e.t).Some? && st.posters[e.t].Holding? then b == AtomicPost(cap, a, st.posters[e.t].m)
      else if e.WorkerStep? && st.worker.Working? then a.queue != [] && b == AtomicDispatch(a)
      else b == a
  {
    if e.Push? && At(st, e.t).Some? && st.posters[e.t].Holding? {
      PushRefines(style, cap, st, e.t);
    } else if e.WorkerStep? {
      WorkerRefines(style, cap, st);
    }
  }

  datatype AtomicOp<M> = Post(m: M) | Dispatch

  /** The indivisible operation a step stands for, if any. */
  function Ops<M>(st: State<M>, e: Event<M>): seq<AtomicOp<M>>
  {
    if e.Push? && At(st, e.t).Some? && st.posters[e.t].Holding? then [Post(st.posters[e.t].m)]
    else if e.WorkerStep? && st.worker.Working? then [Dispatch]
    else []
  }

  function OpsOfRun<M>(style: Style, cap: nat, st: State<M>, es: seq<Event<M>>): seq<AtomicOp<M>>
    decreases |es|
  {
    if es == [] then [] else Ops(st, es[0]) + OpsOfRun(style, cap, Step(style, cap, st, es[0]), es[1..])
  }

  /** None where an empty queue would be dispatched from. */
  function AtomicRun<M>(cap: nat, a: Atomic<M>, ops: seq<AtomicOp<M>>): Option<Atomic<M>>
    decreases |ops|
  {
    if ops == [] then Some(a) else
    match ops[0]
    case Post(m) => AtomicRun(cap, AtomicPost(cap, a, m), ops[1..])
    case Dispatch => if a.queue == [] then None else AtomicRun(cap, AtomicDispatch(a), ops[1..])
  }

  lemma AtomicRunFirst<M>(cap: nat, a: Atomic<M>, op: AtomicOp<M>, ops: seq<AtomicOp<M>>)
    requires op.Dispatch? ==> a.queue != []
    ensures AtomicRun(cap, a, [op] + ops)
      == AtomicRun(cap, if op.Post? then AtomicPost(cap, a, op.m) else AtomicDispatch(a), ops)
  {
    assert ([op] + ops)[1..] == ops;
  }

  /** Whole runs: whatever the schedule of the threads, what their users see is a run of the indivisible
      queue, one operation for each push and each callback, in their order. */
  lemma {:induction false} RefinesAtomicRun<M>(style: Style, cap: nat, st: State<M>, es: seq<Event<M>>)
    requires Inv(style, cap, st)
    ensures AtomicRun(cap, Abstraction(st), OpsOfRun(style, cap, st, es)) == Some(Abstraction(Run(style, cap, st, es)))
    decreases |es|
  {
    if es == [] {
    } else {
      var next := Step(style, cap, st, es[0]);
      var first, rest := Ops(st, es[0]), OpsOfRun(style, cap, next, es[1..]);
      InvStep(style, cap, st, es[0]);
      RefinesAtomicQueue(style, cap, st, es[0]);
      RefinesAtomicRun(style, cap, next, es[1..]);
      hide Inv, Step, Abstraction;
      if first == [] {
        assert [] + rest == rest;
      } else {
        assert first == [first[0]];
        AtomicRunFirst(cap, Abstraction(st), first[0], rest);
      }
    }
  }

  // ---------------------------------------------------------------- draining

  /** The worker has seen stop and not returned. */
  ghost predicate InDrain<M>(st: State<M>)
  {
    (st.worker == Chosen && st.stop) || st.worker == Draining || (st.worker.Working? && st.worker.drain)
  }

  /** How many steps of its own the worker has left before it returns. */
  function DrainMeasure<M>(st: State<M>): nat
  {
    2 * |st.queue| + if st.worker == Draining then 1 else 2
  }

  /** Once the worker has seen stop, no other thread can touch the queue, every step of the worker
      lowers the measure, and it can only leave the drain by returning with everything dispatched. */
  lemma DrainStep<M>(style: Style, cap: nat, st: State<M>, e: Event<M>)
    requires Inv(style, cap, st) && InDrain(st)
    ensures var next := Step(style, cap, st, e);
      && (e != WorkerStep ==> InDrain(next) && next.queue == st.queue && next.accepted == st.accepted
                              && next.worker == st.worker)
      && (e == WorkerStep && InDrain(next) ==> DrainMeasure(next) < DrainMeasure(st))
      && (!InDrain(next) ==> next.worker == Exited && next.queue == [] && next.dispatched == next.accepted)
  {
  }

  /** The worker's steps alone take it from the drain to its return with everything accepted dispatched. */
  lemma {:induction false} DrainEnds<M>(style: Style, cap: nat, st: State<M>) returns (es: seq<Event<M>>)
    requires Inv(style, cap, st) && InDrain(st)
    ensures |es| == DrainMeasure(st) && forall i :: 0 <= i < |es| ==> es[i] == WorkerStep
    ensures var end := Run(style, cap, st, es);
      end.worker == Exited && end.queue == [] && end.dispatched == st.accepted
    decreases DrainMeasure(st)
  {
    var next := WorkerNext(st);
    InvStep(style, cap, st, WorkerStep);
    DrainStep(style, cap, st, WorkerStep);
    assert next.accepted == st.accepted;
    if InDrain(next) {
      var rest := DrainEnds(style, cap, next);
      es := [WorkerStep] + rest;
      assert es[1..] == rest;
    } else {
      es := [WorkerStep];
      assert es[1..] == [];
    }
  }

  /** After the return nothing more is dispatched, though posts are still accepted. */
  lemma {:induction false} ExitedForGood<M>(style: Style, cap: nat, st: State<M>, es: seq<Event<M>>)
    requires st.worker == Exited
    ensures Run(style, cap, st, es).worker == Exited && Run(style, cap, st, es).dispatched == st.dispatched
    decreases |es|
  {
    if es == [] {
    } else {
      ExitedForGood(style, cap, Step(style, cap, st, es[0]), es[1..]);
    }
  }

  /** The destructor sets stop without the mutex, so its one notification can fall between the
      worker's test and its sleep: the worker then sleeps with stop set and nobody left to notify. */
  lemma StopCanBeMissed<M>(style: Style, cap: nat)
    ensures var st := Run(style, cap, Start<M>(), [WorkerStep, WorkerStep, SetStop, NotifyStop, WorkerStep]);
      st.worker == Asleep && st.stop && st.queue == [] && st.posters == map[]
  {
    var a := Step(style, cap, Start<M>(), WorkerStep);
    var b := Step(style, cap, a, WorkerStep);
    assert b.worker == Parking;
    var c := Step(style, cap, Step(style, cap, b, SetStop), NotifyStop);
    assert Step(style, cap, c, WorkerStep).worker == Asleep;
  }

  /** Stop is set and the worker is past every point from which it could still fall asleep. */
  ghost predicate HasHeard<M>(st: State<M>)
  {
    st.stop && st.worker != Parking && st.worker != Asleep
  }

  lemma {:induction false} HeardForGood<M>(style: Style, cap: nat, st: State<M>, es: seq<Event<M>>)
    requires HasHeard(st)
    ensures HasHeard(Run(style, cap, st, es))
    decreases |es|
  {
    if es == [] {
    } else {
      HeardForGood(style, cap, Step(style, cap, st, es[0]), es[1..]);
    }
  }

  ghost predicate AsleepAfter<M>(style: Style, cap: nat, st: State<M>, es: seq<Event<M>>)
  {
    Run(style, cap, st, es).worker == Asleep
  }

  /** On no continuation whatever does the worker sleep again. */
  ghost predicate NeverSleepsAgain<M(!new)>(style: Style, cap: nat, st: State<M>)
  {
    forall es: seq<Event<M>> :: !AsleepAfter(style, cap, st, es)
  }

  lemma {:induction false} StopStays<M>(style: Style, cap: nat, st: State<M>, es: seq<Event<M>>)
    requires st.stop
    ensures Run(style, cap, st, es).stop
    decreases |es|
  {
    if es == [] {
    } else {
      StopStays(style, cap, Step(style, cap, st, es[0]), es[1..]);
    }
  }

  /** Exactly when the destructor's stop is heard. Whatever happens between setting the flag and the one
      notification: the worker never sleeps again, on any continuation, if and only if the notification
      does not find it between its test and its sleep. */
  lemma StopIsHeardIff<M(!new)>(style: Style, cap: nat, st: State<M>, between: seq<Event<M>>)
    ensures var found := Run(style, cap, Step(style, cap, st, SetStop), between);
      NeverSleepsAgain(style, cap, Step(style, cap, found, NotifyStop)) <==> found.worker != Parking
  {
    StopStays(style, cap, Step(style, cap, st, SetStop), between);
    var found := Run(style, cap, Step(style, cap, st, SetStop), between);
    var after := Step(style, cap, found, NotifyStop);
    if found.worker == Parking {
      var es: seq<Event<M>> := [WorkerStep];
      assert es[1..] == [];
      assert AsleepAfter(style, cap, after, es);
    } else {
      assert HasHeard(after);
      forall es: seq<Event<M>>
        ensures !AsleepAfter(style, cap, after, es)
      {
        HeardForGood(style, cap, after, es);
      }
    }
  }

  // ---------------------------------------------------------------- order within a session

  function OfSession<M>(ms: seq<M>, session: M -> nat, s: nat): seq<M>
  {
    if ms == [] then [] else Own(ms[0], session, s) + OfSession(ms[1..], session, s)
  }

  function Own<M>(m: M, session: M -> nat, s: nat): seq<M>
  {
    if session(m) == s then [m] else []
  }

  lemma {:induction false} OfSessionConcat<M>(xs: seq<M>, ys: seq<M>, session: M -> nat, s: nat)
    ensures OfSession(xs + ys, session, s) == OfSession(xs, session, s) + OfSession(ys, session, s)
  {
    if xs == [] {
      assert xs + ys == ys;
    } else {
      var own, more, rest := Own(xs[0], session, s), OfSession(xs[1..], session, s), OfSession(ys, session, s);
      assert (xs + ys)[1..] == xs[1..] + ys;
      OfSessionConcat(xs[1..], ys, session, s);
      Associates(own, more, rest);
    }
  }

  lemma OfSessionAppend<M>(ms: seq<M>, m: M, session: M -> nat, s: nat)
    ensures OfSession(ms + [m], session, s) == OfSession(ms, session, s) + if session(m) == s then [m] else []
  {
    OfSessionConcat(ms, [m], session, s);
    assert [m][1..] == [];
  }

  /** The message a session is about to push. */
  function AtTheDoor<M>(st: State<M>, s: nat): seq<M>
  {
    if s in st.posters && (st.posters[s].Entering? || st.posters[s].Holding?) then [st.posters[s].m] else []
  }

  /** Every thread posts for its own session. */
  ghost predicate OwnMessages<M>(es: seq<Event<M>>, session: M -> nat)
  {
    forall i :: 0 <= i < |es| ==> es[i].Arrive? ==> session(es[i].m) == es[i].t
  }

  ghost predicate OwnDoors<M>(st: State<M>, session: M -> nat)
  {
    forall t <- st.posters :: st.posters[t].Entering? || st.posters[t].Holding? ==> session(st.posters[t].m) == t
  }

  lemma OwnDoorsStep<M>(style: Style, cap: nat, st: State<M>, e: Event<M>, session: M -> nat)
    requires OwnDoors(st, session) && (e.Arrive? ==> session(e.m) == e.t)
    ensures OwnDoors(Step(style, cap, st, e), session)
  {
    var next := Step(style, cap, st, e);
    forall t <- next.posters | next.posters[t].Entering? || next.posters[t].Holding?
      ensures session(next.posters[t].m) == t
    {
      assert t in st.posters || e == Arrive(t, next.posters[t].m);
    }
  }

  ghost predicate InOrder<M>(st: State<M>, session: M -> nat, s: nat)
  {
    && OwnDoors(st, session)
    && (OfSession(st.dropped, session, s) == [] ==>
          OfSession(st.entered, session, s) == OfSession(st.accepted, session, s) + AtTheDoor(st, s))
  }

  lemma InOrderArrive<M>(style: Style, cap: nat, st: State<M>, t: nat, m: M, session: M -> nat, s: nat)
    requires InOrder(st, session, s) && session(m) == t
    ensures InOrder(Step(style, cap, st, Arrive(t, m)), session, s)
  {
    OfSessionAppend(st.entered, m, session, s);
    if t !in st.posters && t == s {
      var was := OfSession(st.accepted, session, s);
      assert was + [] == was;
    }
  }

  lemma InOrderPush<M>(style: Style, cap: nat, st: State<M>, t: nat, session: M -> nat, s: nat)
    requires InOrder(st, session, s)
    ensures InOrder(Step(style, cap, st, Push(t)), session, s)
  {
    if At(st, t).Some? && st.posters[t].Holding? {
      var m := st.posters[t].m;
      var next := Step(style, cap, st, Push(t));
      assert AtTheDoor(next, s) == if t == s then [] else AtTheDoor(st, s);
      if |st.queue| < cap {
        PushedInOrder(st, next, t, session, s);
      } else {
        OfSessionAppend(st.dropped, m, session, s);
      }
    }
  }

  lemma PushedInOrder<M>(st: State<M>, next: State<M>, t: nat, session: M -> nat, s: nat)
    requires InOrder(st, session, s) && t in st.posters && st.posters[t].Holding?
    requires next.entered == st.entered && next.dropped == st.dropped
    requires next.accepted == st.accepted + [st.posters[t].m]
    requires AtTheDoor(next, s) == if t == s then [] else AtTheDoor(st, s)
    ensures OfSession(next.dropped, session, s) == [] ==>
      OfSession(next.entered, session, s) == OfSession(next.accepted, session, s) + AtTheDoor(next, s)
  {
    OfSessionAppend(st.accepted, st.posters[t].m, session, s);
  }

  /** No other step touches the records or the doors. */
  lemma SameDoors<M>(style: Style, cap: nat, st: State<M>, e: Event<M>, t: nat)
    requires !e.Arrive? && !e.Push?
    ensures var next := Step(style, cap, st, e);
      && next.entered == st.entered && next.accepted == st.accepted && next.dropped == st.dropped
      && AtTheDoor(next, t) == AtTheDoor(st, t)
  {
  }

  lemma InOrderStep<M>(style: Style, cap: nat, st: State<M>, e: Event<M>, session: M -> nat, s: nat)
    requires InOrder(st, session, s) && (e.Arrive? ==> session(e.m) == e.t)
    ensures InOrder(Step(style, cap, st, e), session, s)
  {
    if e.Arrive? {
      InOrderArrive(style, cap, st, e.t, e.m, session, s);
    } else if e.Push? {
      InOrderPush(style, cap, st, e.t, session, s);
    } else {
      SameDoors(style, cap, st, e, s);
      OwnDoorsStep(style, cap, st, e, session);
    }
  }

  lemma {:induction false} InOrderRun<M>(
      style: Style, cap: nat, st: State<M>, es: seq<Event<M>>, session: M -> nat, s: nat)
    requires InOrder(st, session, s) && OwnMessages(es, session)
    ensures InOrder(Run(style, cap, st, es), session, s)
    decreases |es|
  {
    if es == [] {
    } else {
      InOrderStep(style, cap, st, es[0], session, s);
      assert OwnMessages(es[1..], session);
      InOrderRun(style, cap, Step(style, cap, st, es[0]), es[1..], session, s);
    }
  }

  /** What a session got into the queue, with what it is about to push, is in the order in which it
      called `PostMsgToQue`. */
  ghost predicate KeepsOrder<M>(st: State<M>, session: M -> nat, s: nat)
  {
    && OwnDoors(st, session)
    && IsSubsequence(OfSession(st.accepted, session, s) + AtTheDoor(st, s), OfSession(st.entered, session, s))
  }

  lemma ArrivedKeepsOrder<M>(st: State<M>, next: State<M>, m: M, session: M -> nat, s: nat)
    requires KeepsOrder(st, session, s)
    requires next.accepted == st.accepted && next.entered == st.entered + [m]
    requires if session(m) == s then AtTheDoor(st, s) == [] && AtTheDoor(next, s) == [m]
             else AtTheDoor(next, s) == AtTheDoor(st, s)
    ensures IsSubsequence(
      OfSession(next.accepted, session, s) + AtTheDoor(next, s), OfSession(next.entered, session, s))
  {
    var mine, posted := OfSession(st.accepted, session, s), OfSession(st.entered, session, s);
    OfSessionAppend(st.entered, m, session, s);
    hide IsSubsequence, OfSession, OwnDoors;
    if session(m) == s {
      assert mine + [] == mine;
      SubsequenceTake(mine, posted, m);
    } else {
      assert posted + [] == posted;
    }
  }

  lemma KeepsOrderArrive<M>(style: Style, cap: nat, st: State<M>, t: nat, m: M, session: M -> nat, s: nat)
    requires KeepsOrder(st, session, s) && session(m) == t
    ensures KeepsOrder(Step(style, cap, st, Arrive(t, m)), session, s)
  {
    if t !in st.posters {
      OwnDoorsStep(style, cap, st, Arrive(t, m), session);
      hide OwnDoors, IsSubsequence, OfSession;
      ArrivedKeepsOrder(st, Step(style, cap, st, Arrive(t, m)), m, session, s);
    }
  }

  /** A push turns the message at the door into an accepted one, a drop takes it away. */
  lemma DoorToQueue<M>(mine: seq<M>, door: seq<M>, m: M, posted: seq<M>, accepted: seq<M>)
    requires IsSubsequence(mine + door, posted) && (door == [] || door == [m])
    requires accepted == mine + door || accepted == mine
    ensures IsSubsequence(accepted + [], posted)
  {
    hide IsSubsequence;
    assert accepted + [] == accepted && mine + [] == mine;
    if door != [] && accepted == mine {
      SubsequenceDrop(mine, m, posted);
    }
  }

  lemma PushedKeepsOrder<M>(st: State<M>, next: State<M>, t: nat, session: M -> nat, s: nat)
    requires KeepsOrder(st, session, s) && t in st.posters && st.posters[t].Holding?
    requires next.entered == st.entered
    requires next.accepted == st.accepted || next.accepted == st.accepted + [st.posters[t].m]
    requires AtTheDoor(next, s) == if t == s then [] else AtTheDoor(st, s)
    ensures IsSubsequence(
      OfSession(next.accepted, session, s) + AtTheDoor(next, s), OfSession(next.entered, session, s))
  {
    var m, mine, posted := st.posters[t].m, OfSession(st.accepted, session, s), OfSession(st.entered, session, s);
    OfSessionAppend(st.accepted, m, session, s);
    assert session(m) == t && (t == s ==> AtTheDoor(st, s) == [m]);
    hide IsSubsequence, OfSession;
    if t == s {
      DoorToQueue(mine, [m], m, posted, OfSession(next.accepted, session, s));
    } else {
      assert mine + [] == mine;
    }
  }

  lemma KeepsOrderPush<M>(style: Style, cap: nat, st: State<M>, t: nat, session: M -> nat, s: nat)
    requires KeepsOrder(st, session, s)
    ensures KeepsOrder(Step(style, cap, st, Push(t)), session, s)
  {
    if At(st, t).Some? && st.posters[t].Holding? {
      var next := Step(style, cap, st, Push(t));
      OwnDoorsStep(style, cap, st, Push(t), session);
      assert session(st.posters[t].m) == t;
      hide IsSubsequence, OfSession, OwnDoors;
      assert AtTheDoor(next, s) == if t == s then [] else AtTheDoor(st, s);
      PushedKeepsOrder(st, next, t, session, s);
    }
  }

  lemma KeepsOrderStep<M>(style: Style, cap: nat, st: State<M>, e: Event<M>, session: M -> nat, s: nat)
    requires KeepsOrder(st, session, s) && (e.Arrive? ==> session(e.m) == e.t)
    ensures KeepsOrder(Step(style, cap, st, e), session, s)
  {
    if e.Arrive? {
      KeepsOrderArrive(style, cap, st, e.t, e.m, session, s);
    } else if e.Push? {
      KeepsOrderPush(style, cap, st, e.t, session, s);
    } else {
      SameDoors(style, cap, st, e, s);
      OwnDoorsStep(style, cap, st, e, session);
    }
  }

  lemma {:induction false} KeepsOrderRun<M>(
      style: Style, cap: nat, st: State<M>, es: seq<Event<M>>, session: M -> nat, s: nat)
    requires KeepsOrder(st, session, s) && OwnMessages(es, session)
    ensures KeepsOrder(Run(style, cap, st, es), session, s)
    decreases |es|
  {
    if es == [] {
    } else {
      KeepsOrderStep(style, cap, st, es[0], session, s);
      assert OwnMessages(es[1..], session);
      KeepsOrderRun(style, cap, Step(style, cap, st, es[0]), es[1..], session, s);
    }
  }

  lemma DispatchedInOrder<M>(st: State<M>, session: M -> nat, s: nat)
    requires KeepsOrder(st, session, s)
    requires st.accepted == st.dispatched + InHand(st.worker) + st.queue
    ensures IsSubsequence(OfSession(st.dispatched, session, s), OfSession(st.entered, session, s))
  {
    var done, rest := OfSession(st.dispatched, session, s), InHand(st.worker) + st.queue;
    Associates(st.dispatched, InHand(st.worker), st.queue);
    OfSessionConcat(st.dispatched, rest, session, s);
    Associates(done, OfSession(rest, session, s), AtTheDoor(st, s));
    SubsequencePrefix(done, OfSession(rest, session, s) + AtTheDoor(st, s), OfSession(st.entered, session, s));
  }

  /** Whatever the schedule, and whatever a full queue dropped: what was dispatched of a session is in
      the order in which it posted. Of a session of which nothing was dropped it is a prefix, and all of
      it once the session stands outside `PostMsgToQue` and neither the queue nor the worker holds
      anything. */
  lemma SessionOrderKept<M>(style: Style, cap: nat, es: seq<Event<M>>, session: M -> nat, s: nat)
    requires OwnMessages(es, session)
    ensures var st := Run(style, cap, Start<M>(), es);
      var posted, dispatched := OfSession(st.entered, session, s), OfSession(st.dispatched, session, s);
      && IsSubsequence(dispatched, posted)
      && (OfSession(st.dropped, session, s) == [] ==> dispatched <= posted)
      && (OfSession(st.dropped, session, s) == [] && s !in st.posters && st.queue == [] && !st.worker.Working? ==>
            dispatched == posted)
  {
    StartInv<M>(style, cap);
    InvRun(style, cap, Start<M>(), es);
    InOrderRun(style, cap, Start<M>(), es, session, s);
    KeepsOrderRun(style, cap, Start<M>(), es, session, s);
    var st := Run(style, cap, Start<M>(), es);
    DispatchedInOrder(st, session, s);
    if OfSession(st.dropped, session, s) == [] {
      OrderOfState(st, session, s);
    }
  }

  lemma OrderOfState<M>(st: State<M>, session: M -> nat, s: nat)
    requires InOrder(st, session, s) && OfSession(st.dropped, session, s) == []
    requires st.accepted == st.dispatched + InHand(st.worker) + st.queue
    ensures OfSession(st.dispatched, session, s) <= OfSession(st.entered, session, s)
    ensures s !in st.posters && st.queue == [] && !st.worker.Working? ==>
      OfSession(st.dispatched, session, s) == OfSession(st.entered, session, s)
  {
    var done, rest := OfSession(st.dispatched, session, s), InHand(st.worker) + st.queue;
    Associates(st.dispatched, InHand(st.worker), st.queue);
    OfSessionConcat(st.dispatched, rest, session, s);
    Associates(done, OfSession(rest, session, s), AtTheDoor(st, s));
  }
}
