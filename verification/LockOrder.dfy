/** The three kinds of lock of the file server, the sequences in which its code takes them, and why
    no set of threads running that code can deadlock on them. */
module LockOrder {
  import opened Wrappers

  /** The logic queue's mutex, the send lock of a session, the log queue's mutex. */
  datatype Lock = LogicMutex | SendLock(session: nat) | LogMutex

  datatype Op = Acquire(lock: Lock) | Release(lock: Lock)

  function Rank(l: Lock): nat
  {
    match l
    case LogicMutex => 0
    case SendLock(_) => 1
    case LogMutex => 2
  }

  // ---------------------------------------------------------------- what the code takes, path by path

  /** Every LOG_ call ends in `LogQueue::Push`, that of the session's destructor included;
      `LogQueue::Pop` takes the same lock the same way. */
  function Log(): seq<Op>
  {
    [Acquire(LogMutex), Release(LogMutex)]
  }

  function LogIf(b: bool): seq<Op>
  {
    if b then Log() else []
  }

  datatype SendPath = QueueFull | Pending | Started

  /** `Session::Send`: it logs when it drops and when it starts a write, both under the lock. */
  function SendOps(session: nat, path: SendPath): seq<Op>
  {
    [Acquire(SendLock(session))] + LogIf(path != Pending) + [Release(SendLock(session))]
  }

  /** `HandlerWrite`: an error is logged before the lock is reached. */
  function WriteOps(session: nat, error: bool): seq<Op>
  {
    if error then Log() else [Acquire(SendLock(session)), Release(SendLock(session))]
  }

  datatype Job =
    | TestMsg(session: nat, parsed: bool, path: SendPath)
    | Upload(session: nat, parsed: bool, isOpen: bool, path: SendPath)
    | Unknown

  /** A message the worker takes off the queue; `last` if its node held the last reference to the
      session, whose destructor then logs when `doWork` lets go of it. */
  datatype Work = Work(job: Job, last: bool)

  /** `doWork` in `DealMsg`, with the callback it dispatches to and the destructor it may end in. */
  function WorkOps(work: Work): seq<Op>
  {
    JobOps(work.job) + LogIf(work.last)
  }

  function JobOps(job: Job): seq<Op>
  {
    Log() +
    match job
    case TestMsg(session, parsed, path) => LogIf(!parsed) + Log() + SendOps(session, path)
    case Upload(session, parsed, isOpen, path) =>
      LogIf(!parsed) + Log() + Log() + if isOpen then SendOps(session, path) else Log()
    case Unknown => Log()
  }

  function AllWorkOps(works: seq<Work>): seq<Op>
  {
    if works == [] then [] else WorkOps(works[0]) + AllWorkOps(works[1..])
  }

  /** `wait` gives the mutex up and takes it again, any number of times. */
  function WaitOps(wakeups: nat): seq<Op>
  {
    if wakeups == 0 then [] else [Release(LogicMutex), Acquire(LogicMutex)] + WaitOps(wakeups - 1)
  }

  /** One turn of `DealMsg`: one job, or on stop all that are queued. */
  function TurnOps(wakeups: nat, works: seq<Work>): seq<Op>
  {
    [Acquire(LogicMutex)] + WaitOps(wakeups) + AllWorkOps(works) + [Release(LogicMutex)]
  }

  /** `PostMsgToQue`: a drop is logged under the mutex. */
  function PostOps(full: bool): seq<Op>
  {
    [Acquire(LogicMutex)] + LogIf(full) + [Release(LogicMutex)]
  }

  // ---------------------------------------------------------------- the discipline

  /** What a thread that holds `held` holds after the operations; None if it takes a lock whose rank
      is not above everything it holds, or releases one that is not its latest. */
  function Exec(held: seq<Lock>, ops: seq<Op>): Option<seq<Lock>>
    decreases |ops|
  {
    if ops == [] then Some(held) else
    match ops[0]
    case Acquire(l) =>
      if exists i :: 0 <= i < |held| && Rank(l) <= Rank(held[i]) then None else Exec(held + [l], ops[1..])
    case Release(l) =>
      if held == [] || held[|held| - 1] != l then None else Exec(held[..|held| - 1], ops[1..])
  }

  lemma {:induction false} ExecConcat(held: seq<Lock>, a: seq<Op>, b: seq<Op>)
    ensures Exec(held, a + b) == match Exec(held, a) case None => None case Some(mid) => Exec(mid, b)
    decreases |a|
  {
    if a == [] {
      assert a + b == b;
    } else {
      assert (a + b)[1..] == a[1..] + b;
      match a[0] {
        case Acquire(l) => ExecConcat(held + [l], a[1..], b);
        case Release(l) => if held != [] { ExecConcat(held[..|held| - 1], a[1..], b); }
      }
    }
  }

  /** Operations that take and give back one lock, with something balanced in between. */
  lemma ExecBracket(held: seq<Lock>, l: Lock, inner: seq<Op>)
    requires forall i :: 0 <= i < |held| ==> Rank(held[i]) < Rank(l)
    requires Exec(held + [l], inner) == Some(held + [l])
    ensures Exec(held, [Acquire(l)] + inner + [Release(l)]) == Some(held)
  {
    var ops := [Acquire(l)] + inner + [Release(l)];
    assert ops[1..] == inner + [Release(l)];
    ExecConcat(held + [l], inner, [Release(l)]);
    assert [Release(l)][1..] == [];
    assert (held + [l])[..|held|] == held;
    assert Exec(held + [l], [Release(l)]) == Exec(held, []);
  }

  lemma LogOrdered(held: seq<Lock>, b: bool)
    requires forall i :: 0 <= i < |held| ==> Rank(held[i]) < 2
    ensures Exec(held, Log()) == Some(held) && Exec(held, LogIf(b)) == Some(held)
  {
    assert Exec(held + [LogMutex], []) == Some(held + [LogMutex]);
    ExecBracket(held, LogMutex, []);
    assert [Acquire(LogMutex)] + [] + [Release(LogMutex)] == Log();
  }

  lemma SendOrdered(held: seq<Lock>, session: nat, path: SendPath)
    requires forall i :: 0 <= i < |held| ==> Rank(held[i]) < 1
    ensures Exec(held, SendOps(session, path)) == Some(held)
  {
    LogOrdered(held + [SendLock(session)], path != Pending);
    ExecBracket(held, SendLock(session), LogIf(path != Pending));
  }

  lemma ExecPair(held: seq<Lock>, a: seq<Op>, b: seq<Op>)
    requires Exec(held, a) == Some(held) && Exec(held, b) == Some(held)
    ensures Exec(held, a + b) == Some(held)
  {
    ExecConcat(held, a, b);
  }

  lemma JobOrdered(job: Job)
    ensures Exec([LogicMutex], JobOps(job)) == Some([LogicMutex])
  {
    var held := [LogicMutex];
    LogOrdered(held, true);
    match job {
      case TestMsg(session, parsed, path) =>
        LogOrdered(held, !parsed);
        SendOrdered(held, session, path);
        ExecPair(held, LogIf(!parsed), Log());
        ExecPair(held, LogIf(!parsed) + Log(), SendOps(session, path));
        ExecPair(held, Log(), LogIf(!parsed) + Log() + SendOps(session, path));
      case Upload(session, parsed, isOpen, path) =>
        LogOrdered(held, !parsed);
        SendOrdered(held, session, path);
        var last := if isOpen then SendOps(session, path) else Log();
        ExecPair(held, LogIf(!parsed), Log());
        ExecPair(held, LogIf(!parsed) + Log(), Log());
        ExecPair(held, LogIf(!parsed) + Log() + Log(), last);
        ExecPair(held, Log(), LogIf(!parsed) + Log() + Log() + last);
      case Unknown =>
        ExecPair(held, Log(), Log());
    }
  }

  lemma WorkOrdered(work: Work)
    ensures Exec([LogicMutex], WorkOps(work)) == Some([LogicMutex])
  {
    JobOrdered(work.job);
    LogOrdered([LogicMutex], work.last);
    ExecPair([LogicMutex], JobOps(work.job), LogIf(work.last));
  }

  lemma {:induction false} AllWorkOrdered(works: seq<Work>)
    ensures Exec([LogicMutex], AllWorkOps(works)) == Some([LogicMutex])
  {
    if works == [] {
    } else {
      WorkOrdered(works[0]);
      AllWorkOrdered(works[1..]);
      ExecPair([LogicMutex], WorkOps(works[0]), AllWorkOps(works[1..]));
    }
  }

  lemma {:induction false} WaitOrdered(wakeups: nat)
    ensures Exec([LogicMutex], WaitOps(wakeups)) == Some([LogicMutex])
  {
    if wakeups == 0 {
    } else {
      WaitOrdered(wakeups - 1);
      var once := [Release(LogicMutex), Acquire(LogicMutex)];
      assert once[1..] == [Acquire(LogicMutex)] && [Acquire(LogicMutex)][1..] == [];
      assert [LogicMutex][..0] == [] && [] + [LogicMutex] == [LogicMutex];
      assert Exec([], [Acquire(LogicMutex)]) == Exec([LogicMutex], []);
      assert Exec([LogicMutex], once) == Some([LogicMutex]);
      ExecPair([LogicMutex], once, WaitOps(wakeups - 1));
    }
  }

  /** Every path through the server's locking code, from no lock to no lock, respects the order. */
  ghost predicate ServerOps(ops: seq<Op>)
  {
    || ops == Log()
    || (exists full :: ops == PostOps(full))
    || (exists session, path :: ops == SendOps(session, path))
    || (exists session, error :: ops == WriteOps(session, error))
    || (exists wakeups, works :: ops == TurnOps(wakeups, works))
  }

  lemma Regroup(a: seq<Op>, b: seq<Op>, c: seq<Op>, d: seq<Op>)
    ensures a + b + c + d == a + (b + c) + d
  {
  }

  lemma TurnOrdered(wakeups: nat, works: seq<Work>)
    ensures Exec([], TurnOps(wakeups, works)) == Some([])
  {
    WaitOrdered(wakeups);
    AllWorkOrdered(works);
    var waits, work := WaitOps(wakeups), AllWorkOps(works);
    ExecPair([LogicMutex], waits, work);
    assert [] + [LogicMutex] == [LogicMutex];
    ExecBracket([], LogicMutex, waits + work);
    Regroup([Acquire(LogicMutex)], waits, work, [Release(LogicMutex)]);
  }

  lemma ServerRespectsOrder(ops: seq<Op>)
    requires ServerOps(ops)
    ensures Exec([], ops) == Some([])
  {
    LogOrdered([], true);
    if full :| ops == PostOps(full) {
      LogOrdered([LogicMutex], full);
      assert [] + [LogicMutex] == [LogicMutex];
      ExecBracket([], LogicMutex, LogIf(full));
    } else if session, path :| ops == SendOps(session, path) {
      SendOrdered([], session, path);
    } else if session, error :| ops == WriteOps(session, error) {
      var l := SendLock(session);
      assert Exec([] + [l], []) == Some([] + [l]);
      ExecBracket([], l, []);
      assert [Acquire(l)] + [] + [Release(l)] == [Acquire(l), Release(l)];
    } else if wakeups, works :| ops == TurnOps(wakeups, works) {
      TurnOrdered(wakeups, works);
    }
  }

  // ---------------------------------------------------------------- threads

  datatype Thread = Thread(held: seq<Lock>, rest: seq<Op>)

  type System = map<nat, Thread>

  datatype Event = Enter(t: nat, ops: seq<Op>) | Move(t: nat)

  ghost predicate Held(st: System, l: Lock)
  {
    exists t <- st :: l in st[t].held
  }

  /** A thread can move unless it is done or the lock it wants is held. */
  ghost predicate CanMove(st: System, t: nat)
  {
    t in st && st[t].rest != [] && (st[t].rest[0].Acquire? ==> !Held(st, st[t].rest[0].lock))
  }

  /** A thread between two paths enters one of the server's; a thread that can move does. */
  ghost function Step(st: System, e: Event): System
  {
    match e
    case Enter(t, ops) =>
      if ServerOps(ops) && (t in st ==> st[t] == Thread([], [])) then st[t := Thread([], ops)] else st
    case Move(t) =>
      if !CanMove(st, t) then st else
      match st[t].rest[0]
      case Acquire(l) => st[t := Thread(st[t].held + [l], st[t].rest[1..])]
      case Release(l) =>
        if st[t].held == [] then st else st[t := Thread(st[t].held[..|st[t].held| - 1], st[t].rest[1..])]
  }

  ghost function Run(st: System, es: seq<Event>): System
    decreases |es|
  {
    if es == [] then st else Run(Step(st, es[0]), es[1..])
  }

  ghost predicate Inv(st: System)
  {
    && (forall t <- st :: Exec(st[t].held, st[t].rest) == Some([]))
    && (forall t <- st, u <- st, l :: l in st[t].held && l in st[u].held ==> t == u)
  }

  lemma InvStep(st: System, e: Event)
    requires Inv(st)
    ensures Inv(Step(st, e))
  {
    var next := Step(st, e);
    if e.Enter? {
      if ServerOps(e.ops) {
        ServerRespectsOrder(e.ops);
      }
    } else if CanMove(st, e.t) {
      var was, now := st[e.t], next[e.t];
      assert Exec(was.held, was.rest) == Some([]);
      forall l | l in now.held
        ensures l in was.held || (was.rest[0] == Acquire(l) && !Held(st, l))
      {
      }
    }
  }

  lemma {:induction false} InvRun(st: System, es: seq<Event>)
    requires Inv(st)
    ensures Inv(Run(st, es))
    decreases |es|
  {
    if es == [] {
    } else {
      InvStep(st, es[0]);
      InvRun(Step(st, es[0]), es[1..]);
    }
  }

  ghost predicate WaitsFor(st: System, t: nat, u: nat)
  {
    t in st && u in st && st[t].rest != [] && st[t].rest[0].Acquire? && st[t].rest[0].lock in st[u].held
  }

  /** The rank of the lock a thread is about to take. */
  ghost function Wanted(st: System, t: nat): nat
  {
    if t in st && st[t].rest != [] && st[t].rest[0].Acquire? then Rank(st[t].rest[0].lock) else 0
  }

  /** The lock a waiting thread wants ranks above everything it holds. */
  lemma WantsHigher(st: System, t: nat, l: Lock)
    requires Inv(st) && t in st && st[t].rest != [] && st[t].rest[0].Acquire? && l in st[t].held
    ensures Rank(l) < Wanted(st, t)
  {
    assert Exec(st[t].held, st[t].rest) == Some([]);
    var i :| 0 <= i < |st[t].held| && st[t].held[i] == l;
  }

  ghost predicate WaitChain(st: System, c: seq<nat>)
  {
    forall i :: 0 <= i < |c| - 1 ==> WaitsFor(st, c[i], c[i + 1])
  }

  /** Along a chain of waiting threads the wanted ranks climb. */
  lemma {:induction false} WaitChainClimbs(st: System, c: seq<nat>)
    requires Inv(st) && |c| >= 2 && WaitChain(st, c)
    ensures Wanted(st, c[0]) <= Wanted(st, c[|c| - 2])
  {
    if |c| > 2 {
      var n := |c|;
      assert WaitsFor(st, c[n - 3], c[n - 2]) && WaitsFor(st, c[n - 2], c[n - 1]);
      WaitChainClimbs(st, c[..n - 1]);
      WantsHigher(st, c[n - 2], st[c[n - 3]].rest[0].lock);
    }
  }

  /** The wait-for relation has no cycle, of any length, in any reachable state. */
  lemma NoDeadlockCycle(es: seq<Event>, c: seq<nat>)
    requires |c| >= 2 && c[0] == c[|c| - 1]
    ensures !WaitChain(Run(map[], es), c)
  {
    InvRun(map[], es);
    var st, n := Run(map[], es), |c|;
    if WaitChain(st, c) {
      WaitChainClimbs(st, c);
      assert WaitsFor(st, c[0], c[1]) && WaitsFor(st, c[n - 2], c[n - 1]);
      WantsHigher(st, c[0], st[c[n - 2]].rest[0].lock);
      assert false;
    }
  }

  /** Whenever some thread is inside the locking code, some thread can move. */
  lemma SomeThreadMoves(st: System, t: nat) returns (u: nat)
    requires Inv(st) && t in st && st[t].rest != []
    ensures CanMove(st, u)
    decreases if st[t].rest[0].Acquire? then 2 - Rank(st[t].rest[0].lock) else 0
  {
    if CanMove(st, t) {
      return t;
    }
    var l := st[t].rest[0].lock;
    var v :| v in st && l in st[v].held;
    assert Exec(st[v].held, st[v].rest) == Some([]);
    if st[v].rest[0].Release? {
      return v;
    }
    WantsHigher(st, v, l);
    u := SomeThreadMoves(st, v);
  }

  /** Over every run of any number of sessions, posters, write handlers and workers. */
  lemma NeverStuck(es: seq<Event>, t: nat) returns (u: nat)
    requires t in Run(map[], es) && Run(map[], es)[t].rest != []
    ensures CanMove(Run(map[], es), u)
  {
    InvRun(map[], es);
    u := SomeThreadMoves(Run(map[], es), t);
  }

  // ---------------------------------------------------------------- everyone gets out

  /** A thread between two paths can always enter one. */
  lemma EnterTaken(st: System, t: nat, ops: seq<Op>)
    requires ServerOps(ops) && (t in st ==> st[t] == Thread([], []))
    ensures Step(st, Enter(t, ops)) == st[t := Thread([], ops)]
  {
  }

  /** A thread that can move gets its lock, or gives back the one it took last, and nobody else changes. */
  lemma MoveTaken(st: System, t: nat)
    requires Inv(st) && CanMove(st, t)
    ensures var was, next := st[t], Step(st, Move(t));
      && t in next && next == st[t := next[t]] && next[t].rest == was.rest[1..]
      && match was.rest[0]
         case Acquire(l) => next[t].held == was.held + [l]
         case Release(l) => was.held == next[t].held + [l]
  {
    assert Exec(st[t].held, st[t].rest) == Some([]);
    if st[t].rest[0].Release? {
      var k := |st[t].held| - 1;
      assert st[t].held == st[t].held[..k] + [st[t].held[k]];
    }
  }

  /** The operations that the threads below n have still before them. */
  function OpsLeft(st: System, n: nat): nat
  {
    if n == 0 then 0 else OpsLeft(st, n - 1) + if n - 1 in st then |st[n - 1].rest| else 0
  }

  lemma {:induction false} OpsLeftAfter(st: System, t: nat, thread: Thread, n: nat)
    requires t in st && |thread.rest| + 1 == |st[t].rest|
    ensures OpsLeft(st[t := thread], n) == OpsLeft(st, n) - if t < n then 1 else 0
  {
    if n == 0 {
    } else {
      OpsLeftAfter(st, t, thread, n - 1);
    }
  }

  lemma {:induction false} SomeoneIsInside(st: System, n: nat) returns (t: nat)
    requires OpsLeft(st, n) > 0
    ensures t in st && st[t].rest != []
  {
    if n - 1 in st && st[n - 1].rest != [] {
      t := n - 1;
    } else {
      t := SomeoneIsInside(st, n - 1);
    }
  }

  lemma {:induction false} NobodyIsInside(st: System, n: nat, t: nat)
    requires OpsLeft(st, n) == 0 && t in st && t < n
    ensures st[t].rest == []
  {
    if t == n - 1 {
    } else {
      NobodyIsInside(st, n - 1, t);
    }
  }

  ghost predicate AllMoves(es: seq<Event>)
  {
    forall i :: 0 <= i < |es| ==> es[i].Move?
  }

  /** Freedom from deadlock in full: from every reachable state, as many moves as there are operations left
      take every thread out of the locking code, holding nothing. */
  lemma {:induction false} EveryoneGetsOut(st: System, n: nat) returns (es: seq<Event>)
    requires Inv(st) && forall t <- st :: t < n
    ensures |es| == OpsLeft(st, n) && AllMoves(es)
    ensures var end := Run(st, es); end.Keys == st.Keys && forall t <- end :: end[t] == Thread([], [])
    decreases OpsLeft(st, n)
  {
    if OpsLeft(st, n) == 0 {
      es := [];
      forall t <- st
        ensures st[t] == Thread([], [])
      {
        NobodyIsInside(st, n, t);
        assert Exec(st[t].held, st[t].rest) == Some([]);
      }
    } else {
      var t := SomeoneIsInside(st, n);
      var u := SomeThreadMoves(st, t);
      MoveTaken(st, u);
      InvStep(st, Move(u));
      var next := Step(st, Move(u));
      hide Inv, Step, CanMove;
      OpsLeftAfter(st, u, next[u], n);
      var rest := EveryoneGetsOut(next, n);
      es := [Move(u)] + rest;
      assert es[1..] == rest;
    }
  }

  // ---------------------------------------------------------------- the paths spelled out

  /** The sends and the completion handler, operation by operation. */
  lemma SendPathsSpelledOut(s: nat)
    ensures SendOps(s, QueueFull) == SendOps(s, Started)
      == [Acquire(SendLock(s)), Acquire(LogMutex), Release(LogMutex), Release(SendLock(s))]
    ensures SendOps(s, Pending) == WriteOps(s, false) == [Acquire(SendLock(s)), Release(SendLock(s))]
    ensures WriteOps(s, true) == [Acquire(LogMutex), Release(LogMutex)]
    ensures PostOps(false) == [Acquire(LogicMutex), Release(LogicMutex)]
    ensures PostOps(true) == [Acquire(LogicMutex), Acquire(LogMutex), Release(LogMutex), Release(LogicMutex)]
  {
  }

  /** How often a list of operations takes a lock. */
  function Takes(ops: seq<Op>, l: Lock): nat
  {
    if ops == [] then 0 else (if ops[0] == Acquire(l) then 1 else 0) + Takes(ops[1..], l)
  }

  lemma {:induction false} TakesConcat(a: seq<Op>, b: seq<Op>, l: Lock)
    ensures Takes(a + b, l) == Takes(a, l) + Takes(b, l)
  {
    if a == [] {
      assert a + b == b;
    } else {
      assert (a + b)[1..] == a[1..] + b;
      TakesConcat(a[1..], b, l);
    }
  }

  lemma TakesLog(b: bool, l: Lock)
    ensures Takes(Log(), l) == (if l == LogMutex then 1 else 0)
    ensures Takes(LogIf(b), l) == (if b && l == LogMutex then 1 else 0)
  {
    assert Log()[1..] == [Release(LogMutex)] && [Release(LogMutex)][1..] == [];
    assert Takes([Release(LogMutex)], l) == 0;
  }

  lemma TakesSend(session: nat, path: SendPath, l: Lock)
    ensures Takes(SendOps(session, path), l)
      == (if l == SendLock(session) then 1 else 0) + if l == LogMutex && path != Pending then 1 else 0
  {
    var take, give := [Acquire(SendLock(session))], [Release(SendLock(session))];
    assert take[1..] == [] && give[1..] == [];
    TakesConcat(take, LogIf(path != Pending), l);
    TakesConcat(take + LogIf(path != Pending), give, l);
    TakesLog(path != Pending, l);
  }

  /** What the worker takes for one message under the logic mutex, which it does not take again: it logs
      the message, its callback logs it once or twice more, and once if its body does not parse; then it
      sends, or logs that the file did not open or that there is no callback. */
  lemma JobTakes(job: Job, l: Lock)
    ensures Takes(JobOps(job), l) ==
      match l
      case LogicMutex => 0
      case SendLock(s) => if (job.TestMsg? || (job.Upload? && job.isOpen)) && job.session == s then 1 else 0
      case LogMutex =>
        match job
        case TestMsg(_, parsed, path) => 2 + (if parsed then 0 else 1) + (if path.Pending? then 0 else 1)
        case Upload(_, parsed, isOpen, path) =>
          3 + (if parsed then 0 else 1) + (if isOpen && path.Pending? then 0 else 1)
        case Unknown => 2
  {
    TakesLog(true, l);
    match job {
      case TestMsg(session, parsed, path) =>
        var logs := LogIf(!parsed) + Log();
        TakesLog(!parsed, l);
        TakesSend(session, path, l);
        TakesConcat(LogIf(!parsed), Log(), l);
        TakesConcat(logs, SendOps(session, path), l);
        TakesConcat(Log(), logs + SendOps(session, path), l);
      case Upload(session, parsed, isOpen, path) =>
        var logs, last := LogIf(!parsed) + Log() + Log(), if isOpen then SendOps(session, path) else Log();
        TakesLog(!parsed, l);
        TakesSend(session, path, l);
        TakesConcat(LogIf(!parsed), Log(), l);
        TakesConcat(LogIf(!parsed) + Log(), Log(), l);
        TakesConcat(logs, last, l);
        TakesConcat(Log(), logs + last, l);
      case Unknown =>
        TakesConcat(Log(), Log(), l);
    }
  }

  lemma {:induction false} TakesTurn(works: seq<Work>, l: Lock)
    requires l != LogMutex
    ensures Takes(AllWorkOps(works), l) == Served(works, l)
  {
    if works == [] {
    } else {
      var work := works[0];
      TakesConcat(WorkOps(work), AllWorkOps(works[1..]), l);
      TakesConcat(JobOps(work.job), LogIf(work.last), l);
      TakesLog(work.last, l);
      JobTakes(work.job, l);
      TakesTurn(works[1..], l);
    }
  }

  /** How many of the messages are answered under this lock. */
  function Served(works: seq<Work>, l: Lock): nat
  {
    if works == [] then 0 else
    var job := works[0].job;
    (if (job.TestMsg? || (job.Upload? && job.isOpen)) && l == SendLock(job.session) then 1 else 0)
    + Served(works[1..], l)
  }

  lemma {:induction false} TakesWait(wakeups: nat, l: Lock)
    ensures Takes(WaitOps(wakeups), l) == if l == LogicMutex then wakeups else 0
  {
    if wakeups == 0 {
    } else {
      var once := [Release(LogicMutex), Acquire(LogicMutex)];
      assert once[1..] == [Acquire(LogicMutex)] && [Acquire(LogicMutex)][1..] == [];
      TakesConcat(once, WaitOps(wakeups - 1), l);
      TakesWait(wakeups - 1, l);
    }
  }

  /** One turn of the worker takes the logic mutex once, and once more for every wakeup of its wait; it takes
      a session's send lock once for every message of that session that it answers. */
  lemma TurnTakes(wakeups: nat, works: seq<Work>, session: nat)
    ensures Takes(TurnOps(wakeups, works), LogicMutex) == wakeups + 1
    ensures Takes(TurnOps(wakeups, works), SendLock(session)) == Served(works, SendLock(session))
  {
    var take, give := [Acquire(LogicMutex)], [Release(LogicMutex)];
    assert take[1..] == [] && give[1..] == [];
    forall l | l == LogicMutex || l == SendLock(session)
      ensures Takes(TurnOps(wakeups, works), l)
        == (if l == LogicMutex then wakeups + 1 else 0) + Served(works, l)
    {
      TakesConcat(take, WaitOps(wakeups), l);
      TakesConcat(take + WaitOps(wakeups), AllWorkOps(works), l);
      TakesConcat(take + WaitOps(wakeups) + AllWorkOps(works), give, l);
      TakesWait(wakeups, l);
      TakesTurn(works, l);
    }
    NeverServed(works);
  }

  lemma {:induction false} NeverServed(works: seq<Work>)
    ensures Served(works, LogicMutex) == 0
  {
    if works == [] {
    } else {
      NeverServed(works[1..]);
    }
  }
}
