/** Whole runs of the thread library: the order of the run queue over every run,
    and how long a runnable thread can wait. */
module ThreadRuns {
  import opened Options
  import opened Threads
  import opened Dispatch

  /** A scheduling decision of PSJF.  A thread that is alone is simply resumed. */
  ghost function Decide(s: State): State
    requires OrderInv(s) && |s.queue| > 0 && (|s.queue| > 1 ==> SomeRunnable(s))
  {
    if |s.queue| == 1 then Bump(s, s.queue[0]).(deciding := false)
    else
      RotatedReady(s);
      Resume(Settle(Rotate(PrintThreadList(s))))
  }

  lemma PrintKeeps(s: State)
    requires OrderInv(s)
    ensures OrderInv(PrintThreadList(s))
    ensures PrintThreadList(s).queue == s.queue && PrintThreadList(s).tcb == s.tcb
    ensures forall t :: Runnable(PrintThreadList(s), t) == Runnable(s, t)
  {
    var p := PrintThreadList(s);
    forall t ensures Runnable(p, t) == Runnable(s, t) {
      if t in s.tcb { JudgeDepends(p, s, t); }
    }
  }

  lemma RotatedReady(s: State)
    requires OrderInv(s) && |s.queue| > 0 && SomeRunnable(s)
    ensures var p := PrintThreadList(s);
      && |p.queue| > 0 && p.queue[0] in p.tcb
      && OrderInv(Rotate(p)) && |Rotate(p).queue| > 0 && SomeRunnable(Rotate(p))
      && forall t :: Runnable(Rotate(p), t) == Runnable(s, t)
  {
    PrintKeeps(s);
    var p := PrintThreadList(s);
    RotateKeepsOrder(p);
    RotateKeepsVerdicts(p);
    var t :| Runnable(s, t);
    assert Runnable(Rotate(p), t);
  }

  // ----- steps and runs -----

  /** Calls are made by the running thread, on mutexes that have been set up
      once and on thread ids that were handed out; a decision needs a queued
      thread that can run. */
  ghost predicate Allowed(s: State, op: Op) {
    match op
    case DoCreate => !s.deciding
    case DoInit(m) => !s.deciding && m !in s.mutexes
    case DoLock(m) => !s.deciding && s.queue != [] && m in s.mutexes
    case DoUnlock(m) => !s.deciding && s.queue != [] && m in s.mutexes
    case DoJoin(target, _) => !s.deciding && s.queue != [] && target >= 2
    case DoExit(_) => !s.deciding && s.queue != []
    case Preempt => !s.deciding && s.queue != []
    case Schedule => s.deciding && s.queue != [] && (|s.queue| > 1 ==> SomeRunnable(s))
  }

  ghost function Apply(s: State, op: Op): State
    requires Inv(s) && Allowed(s, op)
  {
    match op
    case DoCreate => Create(s)
    case DoInit(m) => InitMutex(s, m)
    case DoLock(m) => Lock(s, m)
    case DoUnlock(m) => Unlock(s, m)
    case DoJoin(target, location) => Join(s, target, location)
    case DoExit(value) => Exit(s, value)
    case Preempt => s.(deciding := true)
    case Schedule => Decide(s)
  }

  /** Ids are handed out in order, and none is used twice. */
  ghost predicate IdsOk(s: State) {
    && s.lastId >= 1 && s.lastId != 2
    && (forall t :: t in s.tcb <==> 2 <= t <= s.lastId)
    && (s.lastId == 1 ==> s.queue == [])
    && (s.lastId > 1 && !s.deciding ==> s.queue != [])
  }

  ghost predicate Inv(s: State) {
    OrderInv(s) && IdsOk(s)
  }

  lemma InvStart()
    ensures Inv(START)
  {
  }

  /** The order depends only on the queue and the quanta. */
  lemma OrderDepends(a: State, b: State)
    requires OrderInv(a) && b.queue == a.queue
    requires forall i | 0 <= i < |a.queue| :: a.queue[i] in b.tcb
    requires forall i | 1 <= i < |a.queue| :: Quantum(b.tcb, a.queue[i]) == Quantum(a.tcb, a.queue[i])
    requires a.queue != [] ==> Quantum(b.tcb, a.queue[0]) >= Quantum(a.tcb, a.queue[0])
    ensures OrderInv(b)
  {
    if a.queue != [] {
      var rest := a.queue[1..];
      forall i, j | 0 <= i < j < |rest| ensures Quantum(b.tcb, rest[i]) <= Quantum(b.tcb, rest[j]) {
        assert rest[i] == a.queue[i + 1] && rest[j] == a.queue[j + 1];
      }
    }
  }

  /** A new thread's quantum is the smallest there is: it goes in second place. */
  lemma CreateKeeps(s: State)
    requires Inv(s) && !s.deciding
    ensures Inv(Create(s))
    ensures s.lastId > 1 ==> Create(s).queue == [s.queue[0], s.lastId + 1] + s.queue[1..]
  {
    if s.lastId == 1 {
      assert [MAIN_ID, 2][1..] == [2];
    } else {
      var r := Create(s);
      assert r.queue == [s.queue[0], s.lastId + 1] + s.queue[1..];
      SecondPlaceKeepsOrder(s, r, s.lastId + 1);
    }
  }

  lemma SecondPlaceKeepsOrder(s: State, r: State, id: ThreadId)
    requires OrderInv(s) && s.queue != [] && id !in s.tcb && id in r.tcb
    requires Quantum(r.tcb, id) == INITIAL_QUANTUM
    requires r.queue == [s.queue[0], id] + s.queue[1..]
    requires forall t | t in s.tcb :: t in r.tcb && r.tcb[t] == s.tcb[t]
    ensures OrderInv(r)
  {
    assert forall i | 0 <= i < |r.queue| && i != 1 :: r.queue[i] == s.queue[if i == 0 then 0 else i - 1];
    assert forall i | 0 <= i < |s.queue| :: Quantum(r.tcb, s.queue[i]) == Quantum(s.tcb, s.queue[i]);
    TailSorted(s.tcb, r.tcb, s.queue[1..], id);
    assert r.queue[1..] == [id] + s.queue[1..];
  }

  lemma TailSorted(a: map<ThreadId, Tcb>, b: map<ThreadId, Tcb>, rest: seq<ThreadId>, id: ThreadId)
    requires Sorted(a, rest) && forall i | 0 <= i < |rest| :: Quantum(b, rest[i]) == Quantum(a, rest[i])
    requires forall i | 0 <= i < |rest| :: Quantum(b, id) <= Quantum(b, rest[i])
    ensures Sorted(b, [id] + rest)
  {
    hide Quantum;
    var tail := [id] + rest;
    assert forall i | 0 < i < |tail| :: tail[i] == rest[i - 1];
  }

  lemma ExitKeeps(s: State, value: Value)
    requires Inv(s) && !s.deciding && s.queue != []
    ensures Inv(Exit(s, value)) && Exit(s, value).queue == s.queue[1..]
  {
    hide FirstJoiner, ExitDelivery, Stored;
    var r := Exit(s, value);
    forall i | 0 <= i < |r.queue|
      ensures r.queue[i] == s.queue[i + 1] && r.queue[i] in r.tcb
      ensures Quantum(r.tcb, r.queue[i]) == Quantum(s.tcb, s.queue[i + 1])
    {
    }
    if r.queue != [] {
      var tail := r.queue[1..];
      forall i, j | 0 <= i < j < |tail| ensures Quantum(r.tcb, tail[i]) <= Quantum(r.tcb, tail[j]) {
        assert tail[i] == s.queue[1..][i + 1] && tail[j] == s.queue[1..][j + 1];
      }
    }
  }

  /** What the dispatch loop does with the thread it stops at concerns that
      thread alone, the mutexes and the mutex queue. */
  lemma ResumeFrame(s: State)
    requires |s.queue| > 0 && Runnable(s, s.queue[0])
    ensures Resume(s).queue == s.queue && !Resume(s).deciding
    ensures Resume(s).tcb.Keys == s.tcb.Keys && Resume(s).lastId == s.lastId
    ensures forall t | t in s.tcb && t != s.queue[0] :: Resume(s).tcb[t] == s.tcb[t]
    ensures Resume(s).tcb[s.queue[0]].quantum >= s.tcb[s.queue[0]].quantum
    ensures Resume(s).exits == s.exits && Resume(s).memory == s.memory
  {
    hide FirstOf, FindNext, DeleteAt, DropEntryOf, Quantum;
    var t := s.queue[0];
    match Judge(s, t)
    case Free =>
    case Owns =>
    case _ =>
  }

  lemma ResumeKeeps(s: State)
    requires OrderInv(s) && |s.queue| > 0 && Runnable(s, s.queue[0])
    ensures OrderInv(Resume(s)) && Resume(s).queue == s.queue && !Resume(s).deciding
    ensures Resume(s).tcb.Keys == s.tcb.Keys && Resume(s).lastId == s.lastId
    ensures forall t | t in s.tcb && t != s.queue[0] :: Resume(s).tcb[t] == s.tcb[t]
    ensures Resume(s).tcb[s.queue[0]].quantum >= s.tcb[s.queue[0]].quantum
    ensures Resume(s).exits == s.exits && Resume(s).memory == s.memory
  {
    hide Resume, Judge, Sorted;
    ResumeFrame(s);
    OrderDepends(s, Resume(s));
  }

  /** Only the order of the queue and quanta differ. */
  ghost predicate QuantaOnly(a: State, b: State) {
    && b == a.(queue := b.queue, tcb := b.tcb)
    && b.tcb.Keys == a.tcb.Keys
    && forall t | t in a.tcb :: b.tcb[t] == a.tcb[t].(quantum := b.tcb[t].quantum)
  }

  lemma RotateQuantaOnly(s: State)
    requires |s.queue| > 0 && s.queue[0] in s.tcb
    ensures QuantaOnly(s, Rotate(s))
  {
    hide Insert;
  }

  lemma QuantaOnlyTransitive(a: State, b: State, c: State)
    requires QuantaOnly(a, b) && QuantaOnly(b, c)
    ensures QuantaOnly(a, c)
  {
  }

  lemma {:induction false} SettleKeeps(s: State)
    requires OrderInv(s) && |s.queue| > 0 && SomeRunnable(s)
    ensures QuantaOnly(s, Settle(s))
    decreases Bound(s)
  {
    hide QuantaOnly, Runnable, Rotate, Bound;
    if Runnable(s, s.queue[0]) {
      QuantaOnlyReflexive(s);
    } else {
      RotateLowersBound(s);
      RotateKeepsOrder(s);
      RotateQuantaOnly(s);
      SettleKeeps(Rotate(s));
      QuantaOnlyTransitive(s, Rotate(s), Settle(Rotate(s)));
    }
  }

  lemma QuantaOnlyReflexive(s: State)
    ensures QuantaOnly(s, s)
  {
  }

  /** The state in which the dispatch loop stops: only the order of the queue and
      quanta have changed, but for the flag that printing sets. */
  lemma SettledKeeps(s: State)
    requires Inv(s) && |s.queue| > 1 && SomeRunnable(s)
    ensures var p := PrintThreadList(s);
      && OrderInv(p) && |p.queue| > 0 && p.queue[0] in p.tcb
      && OrderInv(Rotate(p)) && |Rotate(p).queue| > 0 && SomeRunnable(Rotate(p))
      && QuantaOnly(p, Settle(Rotate(p)))
      && OrderInv(Settle(Rotate(p))) && multiset(Settle(Rotate(p)).queue) == multiset(s.queue)
      && Decide(s) == Resume(Settle(Rotate(p)))
  {
    hide QuantaOnly, Runnable, PrintThreadList, Resume;
    RotatedReady(s);
    PrintKeeps(s);
    var p := PrintThreadList(s);
    RotateKeepsOrder(p);
    RotateQuantaOnly(p);
    SettleKeeps(Rotate(p));
    QuantaOnlyTransitive(p, Rotate(p), Settle(Rotate(p)));
  }

  /** A decision permutes the queue. */
  lemma DecideKeeps(s: State)
    requires Inv(s) && Allowed(s, Schedule)
    ensures Inv(Decide(s)) && multiset(Decide(s).queue) == multiset(s.queue)
    ensures Decide(s).tcb.Keys == s.tcb.Keys && !Decide(s).deciding
  {
    hide Resume, Settle, Judge;
    if |s.queue| == 1 {
      OrderDepends(s, Decide(s));
    } else {
      SettledKeeps(s);
      ResumeKeeps(Settle(Rotate(PrintThreadList(s))));
    }
  }

  lemma ApplyKeepsInv(s: State, op: Op)
    requires Inv(s) && Allowed(s, op)
    ensures Inv(Apply(s, op))
  {
    hide InsertSorted, FirstJoiner, FirstFor, FirstOf, ExitOf, Judge, PrintThreadList, Decide;
    match op {
      case DoCreate => CreateKeeps(s);
      case DoExit(value) => ExitKeeps(s, value);
      case Schedule => DecideKeeps(s);
      case DoInit(m) => OrderDepends(s, InitMutex(s, m));
      case DoLock(m) => OrderDepends(s, Lock(s, m));
      case DoUnlock(m) => OrderDepends(s, Unlock(s, m));
      case DoJoin(target, location) => JoinKeeps(s, target, location);
      case Preempt => OrderDepends(s, s.(deciding := true));
    }
  }

  lemma JoinKeeps(s: State, target: ThreadId, location: Option<Location>)
    requires Inv(s) && s.queue != []
    ensures Inv(Join(s, target, location))
    ensures Join(s, target, location).queue == s.queue
    ensures Join(s, target, location).tcb.Keys == s.tcb.Keys
    ensures forall t | t in s.tcb :: Quantum(Join(s, target, location).tcb, t) == Quantum(s.tcb, t)
  {
    hide FirstJoiner, ExitOf;
    OrderDepends(s, Join(s, target, location));
  }

  ghost predicate AllAllowed(s: State, ops: seq<Op>)
    requires Inv(s)
    decreases |ops|
  {
    ops == [] || (Allowed(s, ops[0]) && (ApplyKeepsInv(s, ops[0]); AllAllowed(Apply(s, ops[0]), ops[1..])))
  }

  ghost function Run(s: State, ops: seq<Op>): (r: State)
    requires Inv(s) && AllAllowed(s, ops)
    ensures Inv(r)
    decreases |ops|
  {
    if ops == [] then s
    else
      ApplyKeepsInv(s, ops[0]);
      Run(Apply(s, ops[0]), ops[1..])
  }

  /** Over every run from the start: every queued thread's quantum is at least
      500, the queue after its head is nondecreasing in quantum, no thread is
      queued twice, and the ids handed out are exactly 2..lastId. */
  lemma RunsKeepOrder(ops: seq<Op>)
    requires Inv(START) && AllAllowed(START, ops)
    ensures var s := Run(START, ops);
      && (forall i | 0 <= i < |s.queue| :: s.queue[i] in s.tcb && s.tcb[s.queue[i]].quantum >= 500)
      && (forall i, j | 1 <= i < j < |s.queue| :: Quantum(s.tcb, s.queue[i]) <= Quantum(s.tcb, s.queue[j]))
      && (forall i, j | 0 <= i < j < |s.queue| :: s.queue[i] != s.queue[j])
      && (forall t :: t in s.tcb <==> 2 <= t <= s.lastId)
  {
    var s := Run(START, ops);
    forall i, j | 1 <= i < j < |s.queue| ensures Quantum(s.tcb, s.queue[i]) <= Quantum(s.tcb, s.queue[j]) {
      assert s.queue[1..][i - 1] == s.queue[i] && s.queue[1..][j - 1] == s.queue[j];
    }
    forall i | 0 <= i < |s.queue| ensures s.queue[i] in s.tcb && s.tcb[s.queue[i]].quantum >= 500 {
      assert Quantum(s.tcb, s.queue[i]) >= INITIAL_QUANTUM;
    }
  }

  // ----- fairness -----

  function Decisions(ops: seq<Op>): nat {
    if ops == [] then 0 else (if ops[0].Schedule? then 1 else 0) + Decisions(ops[1..])
  }

  /** Thread r can run whenever a decision is made in the run. */
  ghost predicate StaysRunnable(s: State, ops: seq<Op>, r: ThreadId)
    requires Inv(s) && AllAllowed(s, ops)
    decreases |ops|
  {
    ops == [] || (ApplyKeepsInv(s, ops[0]);
                  (ops[0].Schedule? ==> Runnable(s, r)) && StaysRunnable(Apply(s, ops[0]), ops[1..], r))
  }

  /** Some decision in the run makes r the head, running. */
  ghost predicate Dispatched(s: State, ops: seq<Op>, r: ThreadId)
    requires Inv(s) && AllAllowed(s, ops)
    decreases |ops|
  {
    ops != [] && (ApplyKeepsInv(s, ops[0]);
                  var u := Apply(s, ops[0]);
                  (ops[0].Schedule? && u.queue != [] && u.queue[0] == r) || Dispatched(u, ops[1..], r))
  }

  lemma {:induction false} SettleLowersPotential(s: State, r: ThreadId)
    requires OrderInv(s) && Runnable(s, r)
    ensures SomeRunnable(s) && |s.queue| > 0
    ensures Settle(s).queue[0] == r || (r in Settle(s).queue && Potential(Settle(s), r) <= Potential(s, r))
    decreases Bound(s)
  {
    if !Runnable(s, s.queue[0]) {
      RotateLowersBound(s);
      RotateKeepsOrder(s);
      RotateKeepsVerdicts(s);
      RotateLowersPotential(s, r);
      SettleLowersPotential(Rotate(s), r);
    }
  }

  /** A decision makes r the head or lowers its potential. */
  lemma DecideLowersPotential(s: State, r: ThreadId)
    requires Inv(s) && Allowed(s, Schedule) && Runnable(s, r) && s.queue[0] != r
    ensures |Decide(s).queue| > 0
    ensures Decide(s).queue[0] == r || (r in Decide(s).queue && Potential(Decide(s), r) < Potential(s, r))
  {
    hide Judge, Insert, Resume, Pressure;
    PrintKeeps(s);
    RotatedReady(s);
    var p := PrintThreadList(s);
    RotateLowersPotential(p, r);
    RotateKeepsOrder(p);
    SettleLowersPotential(Rotate(p), r);
    var d := Settle(Rotate(p));
    ResumeKeeps(d);
    if d.queue[0] != r {
      ResumeKeepsPotential(d, Resume(d), r);
    }
  }

  lemma ResumeKeepsPotential(a: State, b: State, r: ThreadId)
    requires QueueOk(a) && |a.queue| > 0 && b.queue == a.queue && r in a.queue && a.queue[0] != r
    requires a.tcb.Keys == b.tcb.Keys && forall t | t in a.tcb && t != a.queue[0] :: b.tcb[t] == a.tcb[t]
    requires b.tcb[a.queue[0]].quantum >= a.tcb[a.queue[0]].quantum
    ensures Potential(b, r) <= Potential(a, r)
  {
    PressureFrame(a.tcb, b.tcb, a.queue, Quantum(a.tcb, r), r);
  }

  lemma OtherStepsKeepPotential(s: State, op: Op, r: ThreadId)
    requires Inv(s) && Allowed(s, op) && !op.Schedule? && !op.DoCreate? && !op.DoExit?
    ensures Apply(s, op).queue == s.queue && Potential(Apply(s, op), r) == Potential(s, r)
  {
    hide FirstJoiner, ExitOf, Judge, Pressure;
    var u := Apply(s, op);
    assert forall t :: Quantum(u.tcb, t) == Quantum(s.tcb, t);
    PressureSame(s.tcb, u.tcb, s.queue, Quantum(s.tcb, r), r);
  }

  lemma {:induction false} PressureSame(a: map<ThreadId, Tcb>, b: map<ThreadId, Tcb>, queue: seq<ThreadId>, Q: int,
                                        r: ThreadId)
    requires forall t :: Quantum(b, t) == Quantum(a, t)
    ensures Pressure(b, queue, Q, r) == Pressure(a, queue, Q, r)
  {
    if queue != [] { PressureSame(a, b, queue[1..], Q, r); }
  }

  /** While nothing is created and nothing exits, a thread in the tail of the
      queue that stays runnable is made to run within as many decisions as its
      potential: its position, plus, for every other thread, how often that
      thread can still be put before it. */
  lemma {:induction false} RunnableThreadIsDispatched(s: State, ops: seq<Op>, r: ThreadId)
    requires Inv(s) && AllAllowed(s, ops) && r in s.queue && s.queue[0] != r
    requires forall i | 0 <= i < |ops| :: !ops[i].DoCreate? && !ops[i].DoExit?
    requires StaysRunnable(s, ops, r)
    requires Decisions(ops) >= Potential(s, r)
    ensures Dispatched(s, ops, r)
    decreases |ops|
  {
    hide OrderInv, Apply, Pressure, IdsOk, Runnable, Decide;
    assert Index(s.queue, r) >= 1;
    var op, rest := ops[0], ops[1..];
    ApplyKeepsInv(s, op);
    var u := Apply(s, op);
    assert forall i | 0 <= i < |rest| :: rest[i] == ops[i + 1];
    if op.Schedule? {
      ApplySchedule(s);
      DecideLowersPotential(s, r);
      if u.queue[0] != r {
        RunnableThreadIsDispatched(u, rest, r);
      }
    } else {
      OtherStepsKeepPotential(s, op, r);
      RunnableThreadIsDispatched(u, rest, r);
    }
  }

  lemma ApplySchedule(s: State)
    requires Inv(s) && Allowed(s, Schedule)
    ensures Apply(s, Schedule) == Decide(s)
  {
  }
}
