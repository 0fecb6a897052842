/** Exit values over whole runs: what is kept of a thread that has terminated, what
    each join answers, and what is stored where. */
module ExitRuns {
  import opened Options
  import opened Threads
  import opened Dispatch
  import opened ThreadRuns
  import opened Joins

  // ----- what a join answers -----

  /** Thread w is waited for already. */
  ghost predicate Awaited(s: State, w: ThreadId) {
    exists t :: WaitsFor(s, t, w)
  }

  /** Each answer by its cause: 3 for an id that was never handed out, 22 for a
      thread that another one waits for, and no other code but 0, for the caller
      itself and for a thread that has terminated; otherwise the caller waits. */
  lemma JoinAnswers(s: State, target: ThreadId, location: Option<Location>)
    requires Inv(s) && JoinInv(s) && Allowed(s, DoJoin(target, location))
    ensures var h, r := s.queue[0], JoinOutcome(s, target);
      && h in s.queue
      && (r == Returns(3) <==> target != h && target !in s.tcb)
      && (r == Returns(22) <==> target != h && target in s.queue && Awaited(s, target))
      && (r == Returns(0) <==> target == h || (target in s.tcb && target !in s.queue))
      && (r == Waits <==> target != h && target in s.queue && !Awaited(s, target))
  {
    hide FirstJoiner, Sorted;
    var h, i := s.queue[0], FirstJoiner(s.queue, s.tcb, target);
    assert h in s.queue;
    RunningWaitsForNone(s);
    AllQueuedAreThreads(s);
    assert JoinOutcome(s, target) != Returns(35) by { DeadlockIsNeverReported(s, target); }
    if i < |s.queue| { JoinerIs(s, i, target); } else { NoJoiner(s, target); }
  }

  lemma AllQueuedAreThreads(s: State)
    requires OrderInv(s)
    ensures forall t | t in s.queue :: t in s.tcb
  {
  }

  // ----- exit records -----

  /** The value with which thread id exits in a run. */
  ghost function ExitedWith(s: State, ops: seq<Op>, id: ThreadId): Option<Value>
    requires Inv(s) && AllAllowed(s, ops)
    decreases |ops|
  {
    if ops == [] then None
    else if ops[0].DoExit? && s.queue[0] == id then Some(ops[0].value)
    else
      ApplyKeepsInv(s, ops[0]);
      ExitedWith(Apply(s, ops[0]), ops[1..], id)
  }

  /** What the exit records say about a thread. */
  function Record(s: State, id: ThreadId): Option<Value> {
    var i := ExitOf(s.exits, id);
    if i < |s.exits| then Some(s.exits[i].value) else None
  }

  /** A step records the value of the thread that exits, if it has none yet, and
      keeps every record there is. */
  lemma StepRecords(s: State, op: Op, id: ThreadId)
    requires Inv(s) && Allowed(s, op)
    ensures Record(Apply(s, op), id) ==
              if Record(s, id).Some? then Record(s, id)
              else if op.DoExit? && s.queue[0] == id then Some(op.value) else None
  {
    hide Insert, FirstJoiner, ExitOf, Decide, Sorted;
    match op {
      case DoExit(value) => ExitOfAppend(s.exits, ExitValue(s.queue[0], value), id);
      case DoJoin(target, location) => PrintFrame(s);
      case Schedule => DecideExits(s);
      case _ =>
    }
  }

  lemma DecideExits(s: State)
    requires Inv(s) && Allowed(s, Schedule)
    ensures Decide(s).exits == s.exits && Decide(s).memory == s.memory
    ensures forall t | t in s.tcb ::
              t in Decide(s).tcb && Decide(s).tcb[t].joinReturnLocation == s.tcb[t].joinReturnLocation
  {
    hide Settle, Rotate, Resume, Judge, Sorted;
    if |s.queue| > 1 {
      SettledKeeps(s);
      PrintKeeps(s);
      PrintFrame(s);
      var d := Settle(Rotate(PrintThreadList(s)));
      ResumeFrame(d);
      ResumeHead(d);
    }
  }

  lemma {:induction false} RunRecords(s: State, ops: seq<Op>, id: ThreadId)
    requires Inv(s) && AllAllowed(s, ops)
    ensures Record(Run(s, ops), id) == if Record(s, id).Some? then Record(s, id) else ExitedWith(s, ops, id)
    decreases |ops|
  {
    hide Inv, Allowed, Apply, Record;
    if ops != [] {
      ApplyKeepsInv(s, ops[0]);
      StepRecords(s, ops[0], id);
      RunRecords(Apply(s, ops[0]), ops[1..], id);
    }
  }

  /** Over every run from the start, a thread has terminated exactly when it has
      left a record, and the value there is the one that it exited with. */
  lemma RunsRecordExits(ops: seq<Op>, id: ThreadId)
    requires Inv(START) && AllAllowed(START, ops)
    ensures var s := Run(START, ops);
      && Record(s, id) == ExitedWith(START, ops, id)
      && (id in s.tcb && id !in s.queue ==> Record(s, id).Some?)
  {
    hide Run, AllAllowed;
    JoinInvStart();
    RunKeepsJoins(START, ops);
    RunRecords(START, ops, id);
    if id in Run(START, ops).tcb { assert Recorded(Run(START, ops), id); }
  }

  // ----- the location of the last join that waited -----

  /** Where thread t wants a value, after a step. */
  ghost function LocationAfter(s: State, op: Op, t: ThreadId, location: Option<Location>): Option<Location>
    requires Inv(s) && Allowed(s, op)
  {
    if op.DoJoin? && s.queue[0] == t && WaitsFor(Apply(s, op), t, op.target) then op.location else location
  }

  /** The location that thread t gave in its last join that waited. */
  ghost function LastLocation(s: State, ops: seq<Op>, t: ThreadId, location: Option<Location>): Option<Location>
    requires Inv(s) && AllAllowed(s, ops)
    decreases |ops|
  {
    if ops == [] then location
    else
      ApplyKeepsInv(s, ops[0]);
      LastLocation(Apply(s, ops[0]), ops[1..], t, LocationAfter(s, ops[0], t, location))
  }

  function LocationOf(s: State, t: ThreadId): Option<Location> {
    if t in s.tcb then s.tcb[t].joinReturnLocation else None
  }

  lemma StepLocation(s: State, op: Op, t: ThreadId)
    requires Inv(s) && JoinInv(s) && Allowed(s, op)
    ensures LocationOf(Apply(s, op), t) == LocationAfter(s, op, t, LocationOf(s, t))
  {
    hide Insert, FirstJoiner, ExitOf, Decide, Sorted, JoinInv;
    if s.queue != [] { QueuedHead(s); }
    match op {
      case DoJoin(target, location) => JoinLocation(s, target, location, t);
      case DoExit(value) => ExitKeepsJoins(s, value); ExitThreads(s, value);
      case Schedule => DecideExits(s); DecideKeeps(s);
      case _ =>
    }
  }

  lemma QueuedHead(s: State)
    requires OrderInv(s) && s.queue != []
    ensures s.queue[0] in s.tcb
  {
  }

  lemma ExitThreads(s: State, value: Value)
    requires Inv(s) && Allowed(s, DoExit(value))
    ensures Exit(s, value).tcb.Keys == s.tcb.Keys
  {
    hide FirstJoiner;
  }

  lemma JoinLocation(s: State, target: ThreadId, location: Option<Location>, t: ThreadId)
    requires Inv(s) && JoinInv(s) && Allowed(s, DoJoin(target, location))
    ensures var u := Join(s, target, location);
      LocationOf(u, t) == if s.queue[0] == t && WaitsFor(u, t, target) then location else LocationOf(s, t)
  {
    hide FirstJoiner, ExitOf, Sorted, PrintThreadList;
    PrintKeeps(s);
    QueuedHead(s);
    JoinKeepsJoins(s, target, location);
    JoinKeeps(s, target, location);
  }

  lemma {:induction false} RunLocation(s: State, ops: seq<Op>, t: ThreadId)
    requires Inv(s) && JoinInv(s) && AllAllowed(s, ops)
    ensures LocationOf(Run(s, ops), t) == LastLocation(s, ops, t, LocationOf(s, t))
    decreases |ops|
  {
    hide Inv, JoinInv, Allowed, Apply, LocationOf, LocationAfter;
    if ops != [] {
      ApplyKeepsInv(s, ops[0]);
      ApplyKeepsJoins(s, ops[0]);
      StepLocation(s, ops[0], t);
      RunLocation(Apply(s, ops[0]), ops[1..], t);
    }
  }

  /** After every run from the start, the join of a thread that has terminated
      delivers the value that this thread exited with, to the location that the
      caller gave in its last join that waited; if there was none, nothing. */
  lemma LateJoinDelivers(ops: seq<Op>, target: ThreadId, location: Option<Location>)
    requires Inv(START) && AllAllowed(START, ops)
    requires var s := Run(START, ops);
      Allowed(s, DoJoin(target, location)) && target in s.tcb && target !in s.queue
    ensures var s := Run(START, ops);
      && s.queue[0] in s.tcb && ExitedWith(START, ops, target).Some?
      && LateDelivery(s, target) ==
           match LastLocation(START, ops, s.queue[0], None)
           case None => None
           case Some(l) => Some(Delivery(l, ExitedWith(START, ops, target).value))
  {
    hide Run, AllAllowed, LastLocation, ExitedWith, ExitOf, Sorted;
    JoinInvStart();
    RunKeepsJoins(START, ops);
    RunsRecordExits(ops, target);
    var s := Run(START, ops);
    QueuedHead(s);
    var h := s.queue[0];
    RunLocation(START, ops, h);
    RunningWaitsForNone(s);
  }

  // ----- what is stored -----

  /** What a step stores through a location. */
  ghost function DeliveryIn(s: State, op: Op): Option<Delivery>
    requires Inv(s) && Allowed(s, op)
  {
    if s.queue == [] || s.queue[0] !in s.tcb then None
    else
      match op
      case DoJoin(target, _) => LateDelivery(s, target)
      case DoExit(value) => ExitDelivery(s, value)
      case _ => None
  }

  /** Outside the page slots a step changes the one cell that it delivers to, if
      it delivers there, to the value delivered; and no other. */
  lemma MemoryAfter(s: State, op: Op, at: int)
    requires Inv(s) && Allowed(s, op)
    ensures var u, d := Apply(s, op), DeliveryIn(s, op);
      if d.Some? && d.value.location == Unpaged(at)
      then at in u.memory && u.memory[at] == d.value.value
      else (at in u.memory <==> at in s.memory) && (at in s.memory ==> u.memory[at] == s.memory[at])
  {
    hide Insert, FirstJoiner, ExitOf, Decide, Sorted;
    if s.queue != [] { QueuedHead(s); }
    match op {
      case DoJoin(target, location) => PrintFrame(s);
      case Schedule => DecideExits(s);
      case _ =>
    }
  }

  /** An exit delivers exactly to a thread that waits for it and has given a
      location. */
  lemma ExitDeliversExactly(s: State, value: Value, location: Location)
    requires Inv(s) && JoinInv(s) && Allowed(s, DoExit(value))
    ensures ExitDelivery(s, value) == Some(Delivery(location, value))
            <==> exists t :: Expects(s, t, s.queue[0], Some(location))
    ensures ExitDelivery(s, value).Some? ==> ExitDelivery(s, value).value.value == value
  {
    hide FirstJoiner, Sorted, JoinInv;
    var h, i := s.queue[0], FirstJoiner(s.queue, s.tcb, s.queue[0]);
    if i < |s.queue| {
      JoinerIs(s, i, h);
      assert ExitDelivery(s, value) == Some(Delivery(location, value)) ==> Expects(s, s.queue[i], h, Some(location));
    }
    if t :| Expects(s, t, h, Some(location)) {
      JoinerIndex(s, t, h);
    }
  }

  /** A thread that waits is never found to wait for one that is gone: the branch
      of the dispatch loop for that case is not entered. */
  lemma TargetsAreNeverGone(s: State)
    requires Inv(s) && JoinInv(s)
    ensures forall t | t in s.queue && t in s.tcb :: Judge(s, t) != TargetGone
  {
    forall t | t in s.queue && t in s.tcb ensures Judge(s, t) != TargetGone {
      assert s.tcb[t].waitingToEnd.Some? ==> WaitsFor(s, t, s.tcb[t].waitingToEnd.value);
    }
  }

  /** A thread in the queue that waits for another is passed over exactly while
      that one is queued. */
  lemma WaiterIsPassedOverExactly(s: State, t: ThreadId, w: ThreadId)
    requires WaitsFor(s, t, w)
    ensures Runnable(s, t) <==> w !in s.queue
  {
  }
}
