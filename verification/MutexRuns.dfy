/** Mutex safety and first-come-first-served hand-over, over whole runs. */
module MutexRuns {
  import opened Options
  import opened Threads
  import opened Dispatch
  import opened ThreadRuns
  import opened Mutexes

  // ----- the calls keep the invariant -----

  lemma LockKeeps(s: State, m: MutexId)
    requires Inv(s) && MutexInv(s) && Allowed(s, DoLock(m))
    ensures MutexInv(Lock(s, m))
    ensures forall x | OwnerOf(Lock(s, m), x) != OwnerOf(s, x) ::
              OwnerOf(s, x) == None && OwnerOf(Lock(s, m), x) == Some(s.queue[0])
    ensures EntriesOf(Lock(s, m).waiting) ==
              EntriesOf(s.waiting) + if s.mutexes[m].flag && s.mutexes[m].owner != Some(s.queue[0])
                                     then [Entry(s.queue[0], m)] else []
  {
    hide MutexInv, FirstOf, DeleteAt;
    var t, b := s.queue[0], Lock(s, m);
    LockIsSafe(s, m);
    if !s.mutexes[m].flag {
      GiveKeeps(s, b, t, m);
    } else if s.mutexes[m].owner != Some(t) {
      WaitKeeps(s, m);
    }
  }

  lemma LockIsSafe(s: State, m: MutexId)
    requires Inv(s) && MutexInv(s) && Allowed(s, DoLock(m))
    ensures s.queue[0] in s.tcb && s.tcb[s.queue[0]].waitingToEnd == None
    ensures !s.mutexes[m].flag ==> OwnerOf(s, m) == None
    ensures DeleteAt(EntriesOf(s.waiting), FirstOf(EntriesOf(s.waiting), s.queue[0])) == EntriesOf(s.waiting)
  {
  }

  /** A thread that finds the mutex locked gets an entry and gives up the processor. */
  lemma WaitKeeps(s: State, m: MutexId)
    requires Inv(s) && MutexInv(s) && Allowed(s, DoLock(m))
    requires s.mutexes[m].flag && s.mutexes[m].owner != Some(s.queue[0])
    ensures MutexInv(Lock(s, m)) && Lock(s, m).mutexes == s.mutexes
    ensures EntriesOf(Lock(s, m).waiting) == EntriesOf(s.waiting) + [Entry(s.queue[0], m)]
  {
    var t, b := s.queue[0], Lock(s, m);
    var es, fs := EntriesOf(s.waiting), EntriesOf(b.waiting);
    forall i | 0 <= i < |fs| ensures WaiterOk(b, fs[i]) {
      assert i < |es| ==> WaiterOk(s, es[i]);
    }
    forall i | 0 <= i < |b.queue| ensures HolderOk(b, b.queue[i]) {
      assert HolderOk(s, s.queue[i]);
      assert Entry(t, m) == fs[|es|];
    }
  }

  lemma UnlockKeeps(s: State, m: MutexId)
    requires Inv(s) && MutexInv(s) && Allowed(s, DoUnlock(m))
    ensures MutexInv(Unlock(s, m)) && Unlock(s, m).waiting == s.waiting
    ensures forall x | OwnerOf(Unlock(s, m), x) != OwnerOf(s, x) ::
              x == m && OwnerOf(s, x) == Some(s.queue[0]) && OwnerOf(Unlock(s, m), x) == None
  {
    var b := Unlock(s, m);
    forall i | 0 <= i < |EntriesOf(b.waiting)| ensures WaiterOk(b, EntriesOf(b.waiting)[i]) {
      assert WaiterOk(s, EntriesOf(s.waiting)[i]);
    }
    forall i | 0 <= i < |b.queue| ensures HolderOk(b, b.queue[i]) {
      assert HolderOk(s, s.queue[i]);
    }
  }

  lemma InitKeeps(s: State, m: MutexId)
    requires Inv(s) && MutexInv(s) && Allowed(s, DoInit(m))
    ensures MutexInv(InitMutex(s, m)) && EntriesOf(InitMutex(s, m).waiting) == EntriesOf(s.waiting)
    ensures forall x :: OwnerOf(InitMutex(s, m), x) == OwnerOf(s, x)
  {
    var b := InitMutex(s, m);
    assert EntriesOf(s.waiting) != [] ==> WaiterOk(s, EntriesOf(s.waiting)[0]);
    forall i | 0 <= i < |EntriesOf(b.waiting)| ensures WaiterOk(b, EntriesOf(b.waiting)[i]) {
      assert WaiterOk(s, EntriesOf(s.waiting)[i]);
    }
    forall i | 0 <= i < |b.queue| ensures HolderOk(b, b.queue[i]) {
      assert HolderOk(s, s.queue[i]);
    }
  }

  lemma CreateKeepsMutexInv(s: State)
    requires Inv(s) && MutexInv(s) && Allowed(s, DoCreate)
    ensures MutexInv(Create(s)) && Create(s).waiting == s.waiting && Create(s).mutexes == s.mutexes
  {
    var b := Create(s);
    CreateKeeps(s);
    forall i | 0 <= i < |EntriesOf(b.waiting)| ensures WaiterOk(b, EntriesOf(b.waiting)[i]) {
      assert WaiterOk(s, EntriesOf(s.waiting)[i]);
      var t: ThreadId := EntriesOf(s.waiting)[i].thread;
      assert t in s.queue;
      var j :| 0 <= j < |s.queue| && s.queue[j] == t;
      assert b.queue[if j == 0 then 0 else j + 1] == t;
    }
    forall i | 0 <= i < |b.queue| ensures HolderOk(b, b.queue[i]) {
      if s.lastId > 1 && i != 1 {
        var j := if i == 0 then 0 else i - 1;
        assert b.queue[i] == s.queue[j] && HolderOk(s, s.queue[j]);
      }
    }
  }

  lemma JoinKeepsMutexInv(s: State, target: ThreadId, location: Option<Location>)
    requires Inv(s) && MutexInv(s) && Allowed(s, DoJoin(target, location))
    ensures MutexInv(Join(s, target, location)) && Join(s, target, location).waiting == s.waiting
    ensures forall m :: OwnerOf(Join(s, target, location), m) == OwnerOf(s, m)
  {
    hide FirstJoiner, ExitOf, PrintThreadList;
    PrintKeepsMutexInv(s);
    PrintKeeps(s);
    PrintDecides(s);
    var p, b := PrintThreadList(s), Join(s, target, location);
    if b != s {
      forall i | 0 <= i < |EntriesOf(b.waiting)| ensures WaiterOk(b, EntriesOf(b.waiting)[i]) {
        assert WaiterOk(p, EntriesOf(p.waiting)[i]);
      }
      forall i | 0 <= i < |b.queue| ensures HolderOk(b, b.queue[i]) {
        assert HolderOk(p, p.queue[i]);
      }
    }
  }

  lemma ExitKeepsMutexInv(s: State, value: Value)
    requires Inv(s) && MutexInv(s) && Allowed(s, DoExit(value))
    ensures MutexInv(Exit(s, value)) && Exit(s, value).waiting == s.waiting && Exit(s, value).mutexes == s.mutexes
  {
    var b := Exit(s, value);
    forall i | 0 <= i < |EntriesOf(b.waiting)| ensures WaiterOk(b, EntriesOf(b.waiting)[i]) {
      assert WaiterOk(s, EntriesOf(s.waiting)[i]);
      assert EntriesOf(s.waiting)[i].thread != s.queue[0];
      var t: ThreadId := EntriesOf(s.waiting)[i].thread;
      assert t in s.queue;
      var j :| 0 <= j < |s.queue| && s.queue[j] == t;
      assert b.queue[j - 1] == t;
    }
    forall i | 0 <= i < |b.queue| ensures HolderOk(b, b.queue[i]) {
      assert b.queue[i] == s.queue[i + 1] && HolderOk(s, s.queue[i + 1]);
    }
  }

  /** At a decision at least two threads are queued. */
  ghost predicate TwoQueued(s: State, op: Op) {
    op.Schedule? ==> |s.queue| > 1
  }

  lemma ApplyKeepsMutexInv(s: State, op: Op)
    requires Inv(s) && MutexInv(s) && Allowed(s, op) && TwoQueued(s, op)
    ensures MutexInv(Apply(s, op))
  {
    hide MutexInv, OrderInv, OwnerOf, Grants, Settled;
    match op {
      case DoCreate => CreateKeepsMutexInv(s);
      case DoInit(m) => InitKeeps(s, m);
      case DoLock(m) => LockKeeps(s, m);
      case DoUnlock(m) => UnlockKeeps(s, m);
      case DoJoin(target, location) => JoinKeepsMutexInv(s, target, location);
      case DoExit(value) => ExitKeepsMutexInv(s, value);
      case Preempt => PreemptKeeps(s);
      case Schedule => DecideKeepsMutexInv(s);
    }
  }

  lemma PreemptKeeps(s: State)
    requires Inv(s) && MutexInv(s)
    ensures MutexInv(s.(deciding := true))
  {
    MutexDepends(s, s.(deciding := true));
  }

  /** In one step, an owner changes only from none to the thread that runs after
      the step, by its own lock or by the decision that picks it; or from the
      running thread to none, by that thread's own unlock. */
  lemma OwnersChangeOnlyByLockAndUnlock(s: State, op: Op, m: MutexId)
    requires Inv(s) && MutexInv(s) && Allowed(s, op) && TwoQueued(s, op)
    requires OwnerOf(Apply(s, op), m) != OwnerOf(s, m)
    ensures var u := Apply(s, op);
      || (&& OwnerOf(s, m) == None && u.queue != [] && OwnerOf(u, m) == Some(u.queue[0])
          && (op == DoLock(m) || op == Schedule))
      || (OwnerOf(s, m) == Some(s.queue[0]) && OwnerOf(u, m) == None && op == DoUnlock(m))
  {
    hide MutexInv, OrderInv, OwnerOf, Grants, Settled, EntriesOf;
    match op {
      case DoCreate => CreateKeepsMutexInv(s); SameOwners(s, Create(s), m);
      case DoInit(x) => InitKeeps(s, x);
      case DoLock(x) => LockKeeps(s, x); LockOwner(s, x, m);
      case DoUnlock(x) => UnlockKeeps(s, x);
      case DoJoin(target, location) => JoinKeepsMutexInv(s, target, location);
      case DoExit(value) => ExitKeepsMutexInv(s, value); SameOwners(s, Exit(s, value), m);
      case Preempt => SameOwners(s, s.(deciding := true), m);
      case Schedule => DecideKeepsMutexInv(s);
    }
  }

  lemma SameOwners(a: State, b: State, m: MutexId)
    requires a.mutexes == b.mutexes
    ensures OwnerOf(a, m) == OwnerOf(b, m)
  {
  }

  lemma LockOwner(s: State, x: MutexId, m: MutexId)
    requires Inv(s) && Allowed(s, DoLock(x))
    ensures Lock(s, x).queue == s.queue
    ensures OwnerOf(Lock(s, x), m) != OwnerOf(s, m) ==> m == x
  {
  }

  // ----- whole runs -----

  ghost predicate AllTwoQueued(s: State, ops: seq<Op>)
    requires Inv(s) && AllAllowed(s, ops)
    decreases |ops|
  {
    ops == [] || (ApplyKeepsInv(s, ops[0]); TwoQueued(s, ops[0]) && AllTwoQueued(Apply(s, ops[0]), ops[1..]))
  }

  /** Over every run in which each decision finds two queued threads: owned
      mutexes have their flag set, every blocked waiter has exactly one entry in
      the mutex queue, and the two branches that would take a mutex over are
      never entered. */
  lemma {:induction false} RunsKeepMutexInv(s: State, ops: seq<Op>)
    requires Inv(s) && MutexInv(s) && AllAllowed(s, ops) && AllTwoQueued(s, ops)
    ensures MutexInv(Run(s, ops))
    ensures forall t | t in Run(s, ops).queue && t in Run(s, ops).tcb :: Judge(Run(s, ops), t) != TakesOver
    ensures forall m | m in Run(s, ops).mutexes && !Run(s, ops).mutexes[m].flag :: Run(s, ops).mutexes[m].owner.None?
    decreases |ops|
  {
    hide MutexInv, Inv, Allowed, Apply, Judge;
    if ops != [] {
      ApplyKeepsInv(s, ops[0]);
      ApplyKeepsMutexInv(s, ops[0]);
      RunsKeepMutexInv(Apply(s, ops[0]), ops[1..]);
    } else {
      TakeoversUnreachable(s);
    }
  }

  // ----- first come, first served -----

  /** The threads that have an entry for mutex m, in order. */
  function WaitersFor(es: seq<Entry>, m: MutexId): seq<ThreadId> {
    if es == [] then []
    else (if es[0].mutex == m then [es[0].thread] else []) + WaitersFor(es[1..], m)
  }

  lemma {:induction false} WaitersConcat(a: seq<Entry>, b: seq<Entry>, m: MutexId)
    ensures WaitersFor(a + b, m) == WaitersFor(a, m) + WaitersFor(b, m)
  {
    if a == [] {
      assert a + b == b;
    } else {
      assert (a + b)[1..] == a[1..] + b;
      WaitersConcat(a[1..], b, m);
      var h := if a[0].mutex == m then [a[0].thread] else [];
      assert h + (WaitersFor(a[1..], m) + WaitersFor(b, m)) == h + WaitersFor(a[1..], m) + WaitersFor(b, m);
    }
  }

  lemma {:induction false} NoWaiters(a: seq<Entry>, m: MutexId)
    requires forall i | 0 <= i < |a| :: a[i].mutex != m
    ensures WaitersFor(a, m) == []
  {
    if a != [] {
      assert forall i | 0 <= i < |a[1..]| :: a[1..][i] == a[i + 1];
      NoWaiters(a[1..], m);
    }
  }

  /** The thread that starts to wait for a mutex in this step. */
  function StartsWaiting(s: State, op: Op): seq<Entry> {
    match op
    case DoLock(m) =>
      if s.queue != [] && m in s.mutexes && s.mutexes[m].flag && s.mutexes[m].owner != Some(s.queue[0])
      then [Entry(s.queue[0], m)] else []
    case _ => []
  }

  /** The waiter that is handed its mutex in this step. */
  ghost function HandedOver(s: State, op: Op): seq<Entry>
    requires Inv(s) && Allowed(s, op) && TwoQueued(s, op)
  {
    if op.Schedule? && Grants(s) then
      var t := Settled(s).queue[0];
      [Entry(t, Settled(s).tcb[t].mutex.value)]
    else []
  }

  /** Deleting the oldest waiter's entry takes just it from its mutex's queue. */
  lemma DeleteOldest(es: seq<Entry>, t: ThreadId, m: MutexId, x: MutexId)
    requires Distinct(es) && FirstFor(es, m) < |es| && es[FirstFor(es, m)].thread == t
    ensures FirstOf(es, t) == FirstFor(es, m)
    ensures WaitersFor(es, x) == WaitersFor([Entry(t, m)], x) + WaitersFor(DeleteAt(es, FirstOf(es, t)), x)
  {
    hide WaitersFor, FirstFor, FirstOf, Distinct;
    OldestIsFirst(es, t, m);
    var i := FirstFor(es, m);
    var a, b := es[..i], es[i + 1..];
    assert es == a + [Entry(t, m)] + b;
    WaitersConcat(a + [Entry(t, m)], b, x);
    WaitersConcat(a, [Entry(t, m)], x);
    WaitersConcat(a, b, x);
    if x == m { NoWaiters(a, m); } else { NoWaiters([Entry(t, m)], x); }
  }

  lemma OldestIsFirst(es: seq<Entry>, t: ThreadId, m: MutexId)
    requires Distinct(es) && FirstFor(es, m) < |es| && es[FirstFor(es, m)].thread == t
    ensures FirstOf(es, t) == FirstFor(es, m)
  {
  }

  lemma GrantIsOldest(s: State)
    requires MutexInv(s) && QueueOk(s) && |s.queue| > 0 && Judge(s, s.queue[0]) == Granted
    ensures var t := s.queue[0];
      && s.tcb[t].mutex.Some?
      && var m := s.tcb[t].mutex.value;
         && FirstFor(EntriesOf(s.waiting), m) < |EntriesOf(s.waiting)|
         && EntriesOf(s.waiting)[FirstFor(EntriesOf(s.waiting), m)].thread == t
  {
  }

  /** One step: who waited and who starts to wait are, in order, who is handed the
      mutex and who waits afterwards. */
  lemma StepIsFirstComeFirstServed(s: State, op: Op, m: MutexId)
    requires Inv(s) && MutexInv(s) && Allowed(s, op) && TwoQueued(s, op)
    ensures WaitersFor(EntriesOf(s.waiting) + StartsWaiting(s, op), m) ==
              WaitersFor(HandedOver(s, op) + EntriesOf(Apply(s, op).waiting), m)
  {
    hide MutexInv, OrderInv, OwnerOf, Settled, WaitersFor, Judge, Grants;
    var es, fs := EntriesOf(s.waiting), EntriesOf(Apply(s, op).waiting);
    match op {
      case DoCreate => CreateKeepsMutexInv(s);
      case DoInit(x) => InitKeeps(s, x);
      case DoLock(x) => LockKeeps(s, x);
      case DoUnlock(x) => UnlockKeeps(s, x);
      case DoJoin(target, location) => JoinKeepsMutexInv(s, target, location);
      case DoExit(value) => ExitKeepsMutexInv(s, value);
      case Preempt =>
      case Schedule =>
        DecideKeepsMutexInv(s);
        if Grants(s) { GrantStep(s, m); }
    }
    if !(op.Schedule? && Grants(s)) {
      assert es + StartsWaiting(s, op) == HandedOver(s, op) + fs;
    }
  }

  lemma GrantStep(s: State, m: MutexId)
    requires Inv(s) && MutexInv(s) && Allowed(s, Schedule) && |s.queue| > 1 && Grants(s)
    ensures WaitersFor(EntriesOf(s.waiting) + [], m) ==
              WaitersFor(HandedOver(s, Schedule) + EntriesOf(Decide(s).waiting), m)
  {
    hide MutexInv, OrderInv, WaitersFor, Judge, Resume, FirstFor, FirstOf, DeleteAt, Settled, OwnerOf, Decide,
         IdsOk, Distinct;
    DecideKeepsMutexInv(s);
    var d := Settled(s);
    GrantIsOldest(d);
    GrantedKeeps(d);
    var t := d.queue[0];
    var es := EntriesOf(s.waiting);
    assert es + [] == es;
    MutexDistinct(d);
    DeleteOldest(es, t, d.tcb[t].mutex.value, m);
    WaitersConcat(HandedOver(s, Schedule), EntriesOf(Decide(s).waiting), m);
  }

  lemma MutexDistinct(s: State)
    requires MutexInv(s)
    ensures Distinct(EntriesOf(s.waiting))
  {
  }

  /** Everyone who starts to wait in a run, in order. */
  ghost function AllStarts(s: State, ops: seq<Op>): seq<Entry>
    requires Inv(s) && AllAllowed(s, ops)
    decreases |ops|
  {
    if ops == [] then []
    else
      ApplyKeepsInv(s, ops[0]);
      StartsWaiting(s, ops[0]) + AllStarts(Apply(s, ops[0]), ops[1..])
  }

  /** Everyone who is handed a mutex in a run, in order. */
  ghost function AllHandovers(s: State, ops: seq<Op>): seq<Entry>
    requires Inv(s) && AllAllowed(s, ops) && AllTwoQueued(s, ops)
    decreases |ops|
  {
    if ops == [] then []
    else
      ApplyKeepsInv(s, ops[0]);
      HandedOver(s, ops[0]) + AllHandovers(Apply(s, ops[0]), ops[1..])
  }

  lemma {:induction false} RunIsFirstComeFirstServed(s: State, ops: seq<Op>, m: MutexId)
    requires Inv(s) && MutexInv(s) && AllAllowed(s, ops) && AllTwoQueued(s, ops)
    ensures WaitersFor(EntriesOf(s.waiting) + AllStarts(s, ops), m) ==
              WaitersFor(AllHandovers(s, ops) + EntriesOf(Run(s, ops).waiting), m)
    decreases |ops|
  {
    hide Inv, MutexInv, Allowed, Apply, WaitersFor, StartsWaiting, HandedOver;
    var es := EntriesOf(s.waiting);
    if ops == [] {
      assert es + [] == [] + es;
    } else {
      ApplyKeepsInv(s, ops[0]);
      ApplyKeepsMutexInv(s, ops[0]);
      var u := Apply(s, ops[0]);
      StepIsFirstComeFirstServed(s, ops[0], m);
      RunIsFirstComeFirstServed(u, ops[1..], m);
      var a, b := StartsWaiting(s, ops[0]), AllStarts(u, ops[1..]);
      var c, d := HandedOver(s, ops[0]), AllHandovers(u, ops[1..]);
      var us, fs := EntriesOf(u.waiting), EntriesOf(Run(u, ops[1..]).waiting);
      assert es + (a + b) == (es + a) + b;
      assert (c + d) + fs == c + (d + fs);
      WaitersConcat(es + a, b, m);
      WaitersConcat(c, us, m);
      WaitersConcat(us, b, m);
      WaitersConcat(c, d + fs, m);
    }
  }

  /** Over every run from the start in which each decision finds two queued
      threads, and for every mutex: the threads that waited for it have been
      handed it in the order in which they started to wait, and the ones not yet
      served are exactly those still waiting, in that order. */
  lemma WaitersAreServedInOrder(ops: seq<Op>, m: MutexId)
    requires Inv(START) && AllAllowed(START, ops) && AllTwoQueued(START, ops)
    ensures WaitersFor(AllStarts(START, ops), m) ==
              WaitersFor(AllHandovers(START, ops), m) + WaitersFor(EntriesOf(Run(START, ops).waiting), m)
  {
    hide Inv, MutexInv, AllAllowed, AllTwoQueued, AllStarts, AllHandovers, Run, WaitersFor;
    MutexInvStart();
    RunIsFirstComeFirstServed(START, ops, m);
    assert EntriesOf(START.waiting) + AllStarts(START, ops) == AllStarts(START, ops);
    WaitersConcat(AllHandovers(START, ops), EntriesOf(Run(START, ops).waiting), m);
  }

  /** The thread that is handed a mutex runs next, and owns it. */
  lemma HandedOverOwns(s: State, op: Op)
    requires Inv(s) && MutexInv(s) && Allowed(s, op) && TwoQueued(s, op) && HandedOver(s, op) != []
    ensures var e, u := HandedOver(s, op)[0], Apply(s, op);
      && |u.queue| > 0 && u.queue[0] == e.thread && !u.deciding
      && OwnerOf(s, e.mutex) == None && OwnerOf(u, e.mutex) == Some(e.thread)
  {
    hide MutexInv, OrderInv, Judge, Settled, FirstFor, FirstOf;
    DecideKeepsMutexInv(s);
    GrantedKeeps(Settled(s));
  }

  // ----- the condition on runs is needed -----

  /** With one queued thread, a decision keeps the invariant exactly when that
      thread waits for no mutex and for no other thread: it is resumed either way. */
  lemma LoneThreadExactly(s: State)
    requires Inv(s) && MutexInv(s) && Allowed(s, Schedule) && |s.queue| == 1
    ensures MutexInv(Decide(s)) <==>
              s.tcb[s.queue[0]].waitingToEnd.None? && OldestEntry(s) == None
  {
    var d, t := Decide(s), s.queue[0];
    var es := EntriesOf(s.waiting);
    assert HolderOk(s, s.queue[0]);
    assert es != [] ==> WaiterOk(s, es[0]);
    assert es != [] ==> es[0].thread == t;
    if s.tcb[t].waitingToEnd.None? && es == [] {
      assert HolderOk(d, d.queue[0]);
    }
  }

  /** The oldest entry of the mutex queue. */
  function OldestEntry(s: State): Option<Entry> {
    if EntriesOf(s.waiting) == [] then None else Some(EntriesOf(s.waiting)[0])
  }

  /** Such a run: the main thread locks mutex 1 and exits; thread 2, now alone,
      tries to lock it, gets an entry in the mutex queue, and is resumed all the
      same, although it does not own the mutex. */
  lemma LoneThreadRun()
    ensures var s0 := Create(InitMutex(START, 1));
      && s0.queue == [3, 2] && Inv(s0) && MutexInv(s0)
      && var s1 := Exit(Lock(s0, 1), 0);
         && s1.queue == [2] && Allowed(s1, Schedule) && Inv(s1)
         && var s2 := Decide(s1);
            && Allowed(s2, DoLock(1))
            && var s3 := Lock(s2, 1);
               && Inv(s3) && Allowed(s3, Schedule)
               && Decide(s3).queue == [2] && !Decide(s3).deciding
               && OwnerOf(Decide(s3), 1) == Some(3)
               && EntriesOf(Decide(s3).waiting) == [Entry(2, 1)]
  {
    hide FirstJoiner, FirstFor, FirstOf, ExitDelivery, Stored, Settle, Rotate, InsertSorted, Sorted;
    InvStart();
    MutexInvStart();
    var i := InitMutex(START, 1);
    ApplyKeepsInv(START, DoInit(1));
    InitKeeps(START, 1);
    ApplyKeepsInv(i, DoCreate);
    CreateKeepsMutexInv(i);
    var s0 := Create(i);
    ApplyKeepsInv(s0, DoLock(1));
    var l := Lock(s0, 1);
    ApplyKeepsInv(l, DoExit(0));
    var s1 := Exit(l, 0);
    ApplyKeepsInv(s1, Schedule);
    var s2 := Decide(s1);
    ApplyKeepsInv(s2, DoLock(1));
  }
}
