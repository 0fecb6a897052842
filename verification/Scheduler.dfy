/** The thread library's calls and the PSJF scheduler, with their loops, working
    on the library's own state in place. */
module Scheduler {
  import opened Options
  import opened Threads
  import opened Dispatch
  import opened ThreadRuns
  import opened Mutexes
  import opened Quanta

  /** Every mutex that a thread holds or waits for has been set up, and so has
      the head of the list of mutexes. */
  ghost predicate MutexesKnown(s: State) {
    && (s.firstMutex.Some? ==> s.firstMutex.value in s.mutexes)
    && forall t | t in s.tcb && s.tcb[t].mutex.Some? :: s.tcb[t].mutex.value in s.mutexes
  }

  /** The mutexes with the first one's flag set. */
  ghost function FirstFlagged(s: State): map<MutexId, Mutex>
    requires MutexesKnown(s) && s.firstMutex.Some?
  {
    s.mutexes[s.firstMutex.value := s.mutexes[s.firstMutex.value].(flag := true)]
  }

  /** The state in which the dispatch loop leaves the scheduler. */
  ghost function Outcome(s: State): State
    requires OrderInv(s) && s.queue != [] && SomeRunnable(s)
  {
    Resume(Settle(s))
  }

  class Scheduler {
    var queue: seq<ThreadId>
    var tcb: map<ThreadId, Tcb>
    var mutexes: map<MutexId, Mutex>
    var firstMutex: Option<MutexId>
    var waiting: MutexQueue
    var exits: seq<ExitValue>
    var memory: map<int, Value>
    var lastId: int
    var deciding: bool

    ghost function View(): State
      reads this
    {
      State(queue, tcb, mutexes, firstMutex, waiting, exits, memory, lastId, deciding)
    }

    constructor ()
      ensures View() == START
    {
      queue, tcb, mutexes, firstMutex := [], map[], map[], None;
      waiting, exits, memory, lastId, deciding := Entries([]), [], map[], 1, false;
    }

    // ----- the run queue -----

    /** `llNodeInsertSortedByQuantum`. */
    method InsertSortedByQuantum(t: ThreadId)
      requires t in tcb && forall i | 0 <= i < |queue| :: queue[i] in tcb
      modifies this`queue
      ensures queue == Insert(tcb, old(queue), t)
    {
      hide InsertSorted;
      if queue == [] {
        queue := [t];
      } else if tcb[t].quantum <= tcb[queue[0]].quantum {
        queue := [queue[0], t] + queue[1..];
      } else {
        var i := 0;
        while i < |queue| && tcb[t].quantum >= tcb[queue[i]].quantum
          invariant i <= |queue| && queue == old(queue)
          invariant InsertSorted(tcb, queue, t) == queue[..i] + InsertSorted(tcb, queue[i..], t)
        {
          InsertSortedStep(tcb, queue, t, i);
          i := i + 1;
        }
        InsertSortedStep(tcb, queue, t, i);
        queue := queue[..i] + [t] + queue[i..];
      }
    }

    method PopHead() returns (t: ThreadId)
      requires queue != []
      modifies this`queue
      ensures t == old(queue)[0] && queue == old(queue)[1..]
    {
      t := queue[0];
      queue := queue[1..];
    }

    method AddQuantum(t: ThreadId)
      requires t in tcb
      modifies this`tcb
      ensures View() == Bump(old(View()), t)
    {
      tcb := tcb[t := tcb[t].(quantum := tcb[t].quantum + QUANTUM_INCREMENT)];
    }

    /** Pops the head, raises its quantum and puts it back. */
    method RotateHead()
      requires OrderInv(View()) && queue != []
      modifies this`queue, this`tcb
      ensures View() == Rotate(old(View()))
    {
      var pop := PopHead();
      AddQuantum(pop);
      InsertSortedByQuantum(pop);
    }

    /** Printing the thread list sets the first mutex's flag on the way. */
    method PrintThreads()
      requires forall i | 0 <= i < |queue| :: queue[i] in tcb
      requires MutexesKnown(View())
      modifies this`mutexes
      ensures View() == PrintThreadList(old(View()))
    {
      ghost var before := View();
      for i := 0 to |queue|
        invariant View() == before.(mutexes := mutexes)
        invariant if (exists j | 0 <= j < i :: tcb[queue[j]].mutex.Some?) && firstMutex.Some?
                  then mutexes == FirstFlagged(before) else mutexes == before.mutexes
      {
        if tcb[queue[i]].mutex.Some? && firstMutex.Some? {
          mutexes := mutexes[firstMutex.value := mutexes[firstMutex.value].(flag := true)];
        }
      }
    }

    // ----- the mutex queue -----

    /** `mqFindNext`; the placeholder's null control block would be dereferenced. */
    method FindNextWaiter(m: MutexId) returns (next: Next)
      ensures next == FindNext(waiting, m)
      ensures next == Faults <==> waiting.Placeholder?
      ensures next == Empty <==> waiting == Entries([])
      ensures next.Thread? ==> exists e :: e in EntriesOf(waiting) && e.mutex == m && e.thread == next.id
    {
      if waiting.Placeholder? {
        return Faults;
      }
      var es := waiting.entries;
      if es == [] {
        return Empty;
      }
      var i := 0;
      while i < |es|
        invariant i <= |es| && forall j | 0 <= j < i :: es[j].mutex != m
      {
        if es[i].mutex == m {
          return Thread(es[i].thread);
        }
        i := i + 1;
      }
      return NoEntry;
    }

    /** `mqFindOnID` and the deletion of what it finds. */
    method DeleteEntryOf(t: ThreadId)
      modifies this`waiting
      ensures waiting == DropEntryOf(old(waiting), t)
    {
      if waiting.Placeholder? {
        return;
      }
      var es := waiting.entries;
      var i := 0;
      while i < |es|
        invariant i <= |es| && forall j | 0 <= j < i :: es[j].thread != t
        invariant waiting == old(waiting)
      {
        if es[i].thread == t {
          waiting := Entries(es[..i] + es[i + 1..]);
          return;
        }
        i := i + 1;
      }
    }

    // ----- mutexes -----

    method MutexInit(m: MutexId)
      modifies this
      ensures View() == InitMutex(old(View()), m)
      ensures m in mutexes && mutexes[m].owner == None && !mutexes[m].flag
      ensures waiting == if old(firstMutex).None? then Placeholder else old(waiting)
    {
      mutexes := mutexes[m := Mutex(None, false)];
      if firstMutex.None? {
        firstMutex := Some(m);
        waiting := Placeholder;
      }
    }

    method MutexLock(m: MutexId) returns (code: int)
      requires queue != [] && queue[0] in tcb && m in mutexes
      modifies this
      ensures View() == Lock(old(View()), m)
      ensures code == if old(mutexes[m].flag) && old(mutexes[m].owner) == Some(queue[0]) then 1 else 0
    {
      var t := queue[0];
      var flagWasSet := mutexes[m].flag;
      mutexes := mutexes[m := mutexes[m].(flag := true)];
      if !flagWasSet {
        if mutexes[m].owner.None? {
          mutexes := mutexes[m := mutexes[m].(owner := Some(t))];
          tcb := tcb[t := tcb[t].(mutex := Some(m))];
        } else {
          mutexes := mutexes[m := mutexes[m].(owner := Some(t))];
        }
        return 0;
      }
      assert mutexes == old(mutexes) by {
        assert old(mutexes)[m].(flag := true) == old(mutexes)[m];
      }
      if mutexes[m].owner == Some(t) {
        return 1;
      }
      tcb := tcb[t := tcb[t].(mutex := Some(m))];
      match waiting {
        case Placeholder =>
          waiting := Entries([Entry(t, m)]);
          assert [] + [Entry(t, m)] == [Entry(t, m)];
        case Entries(es) => waiting := Entries(es + [Entry(t, m)]);
      }
      deciding := true;
      return 0;
    }

    method MutexUnlock(m: MutexId) returns (code: int)
      requires queue != [] && queue[0] in tcb && m in mutexes
      modifies this
      ensures View() == Unlock(old(View()), m)
      ensures old(mutexes[m].flag && mutexes[m].owner == Some(queue[0])) ==>
                mutexes[m].owner == None && !mutexes[m].flag && tcb[queue[0]].mutex == None
      ensures code == if old(mutexes[m].flag) && old(mutexes[m].owner) != Some(queue[0]) then 1 else 0
    {
      if !mutexes[m].flag {
        return 0;
      }
      if mutexes[m].owner == Some(queue[0]) {
        mutexes := mutexes[m := Mutex(None, false)];
        tcb := tcb[queue[0] := tcb[queue[0]].(mutex := None)];
        return 0;
      }
      return 1;
    }

    // ----- threads -----

    method CreateThread() returns (id: ThreadId)
      requires Inv(View()) && !deciding
      modifies this
      ensures View() == Create(old(View())) && id == if old(lastId) == 1 then 2 else lastId
      ensures Inv(View()) && id !in old(tcb) && id in queue
    {
      ghost var before := View();
      CreateKeeps(before);
      var first := lastId == 1;
      lastId := lastId + 1;
      id := lastId;
      tcb := tcb[id := NewTcb()];
      InsertSortedByQuantum(id);
      if first {
        tcb := tcb[MAIN_ID := NewTcb()];
        queue := [MAIN_ID] + queue;
        lastId := lastId + 1;
      }
    }

    /** The position of the first thread that waits for w, or the length. */
    method FindWaitingForJoin(w: ThreadId) returns (i: nat)
      requires forall i | 0 <= i < |queue| :: queue[i] in tcb
      ensures i == FirstJoiner(queue, tcb, w)
    {
      i := 0;
      while i < |queue|
        invariant i <= |queue|
        invariant forall j | 0 <= j < i :: tcb[queue[j]].waitingToEnd != Some(w)
      {
        if tcb[queue[i]].waitingToEnd == Some(w) {
          return;
        }
        i := i + 1;
      }
    }

    method FindExit(t: ThreadId) returns (i: nat)
      ensures i == ExitOf(exits, t)
    {
      i := 0;
      while i < |exits|
        invariant i <= |exits| && forall j | 0 <= j < i :: exits[j].thread != t
      {
        if exits[i].thread == t {
          return;
        }
        i := i + 1;
      }
    }

    /** Stores an exit value through a joiner's location. */
    method Store(d: Delivery)
      modifies this`memory
      ensures memory == Stored(old(memory), Some(d))
    {
      if d.location.Unpaged? {
        memory := memory[d.location.at := d.value];
      }
    }

    /** Also returns the store made through a location. */
    method JoinThread(target: ThreadId, location: Option<Location>)
      returns (result: JoinResult, delivery: Option<Delivery>)
      requires Inv(View()) && queue != []
      requires MutexesKnown(View())
      modifies this
      ensures View() == Join(old(View()), target, location)
      ensures result == JoinOutcome(old(View()), target) && delivery == LateDelivery(old(View()), target)
    {
      hide FirstJoiner, ExitOf, OrderInv, IdsOk;
      HeadInTcb(View());
      delivery := None;
      var t := queue[0];
      if tcb[t].waitingToEnd.Some? || target == t {
        return Returns(0), delivery;
      }
      if target > lastId {
        return Returns(ESRCH), delivery;
      }
      PrintThreads();
      if target !in queue {
        var x := FindExit(target);
        if tcb[t].joinReturnLocation.Some? && x < |exits| {
          delivery := Some(Delivery(tcb[t].joinReturnLocation.value, exits[x].value));
          Store(delivery.value);
        }
        return Returns(0), delivery;
      }
      var i := FindWaitingForJoin(target);
      if i == |queue| {
        tcb := tcb[t := tcb[t].(waitingToEnd := Some(target), joinReturnLocation := location)];
        deciding := true;
        return Waits, delivery;
      }
      if tcb[queue[i]].waitingToEnd == Some(t) {
        return Returns(EDEADLK), delivery;
      }
      return Returns(EINVAL), delivery;
    }

    method ExitThread(value: Value) returns (delivery: Option<Delivery>)
      requires Inv(View()) && queue != []
      modifies this
      ensures View() == Exit(old(View()), value) && delivery == ExitDelivery(old(View()), value)
      ensures exits == old(exits) + [ExitValue(old(queue)[0], value)] && queue == old(queue)[1..]
    {
      delivery := None;
      var t := queue[0];
      exits := exits + [ExitValue(t, value)];
      var i := FindWaitingForJoin(t);
      if i < |queue| {
        var j := queue[i];
        if tcb[j].joinReturnLocation.Some? {
          delivery := Some(Delivery(tcb[j].joinReturnLocation.value, value));
          Store(delivery.value);
        }
        tcb := tcb[j := tcb[j].(waitingToEnd := None)];
      }
      queue := queue[1..];
      deciding := true;
    }

    // ----- the scheduler -----

    /** Clears the mutex and locks it for the head, from inside the scheduler. */
    method Regrant(m: MutexId)
      requires queue != [] && queue[0] in tcb && m in mutexes && tcb[queue[0]].mutex == Some(m)
      modifies this`mutexes, this`tcb
      ensures View() == Give(old(View()), queue[0], m)
    {
      mutexes := mutexes[m := Mutex(None, false)];
      mutexes := mutexes[m := Mutex(Some(queue[0]), true)];
      tcb := tcb[queue[0] := tcb[queue[0]].(mutex := Some(m))];
    }

    /** Tries to let the head run; false when it has to be passed over. */
    method TryHead() returns (runs: bool)
      requires OrderInv(View()) && queue != []
      requires MutexesKnown(View())
      modifies this
      ensures runs == Runnable(old(View()), old(queue)[0])
      ensures View() == if runs then Resume(old(View())) else old(View())
    {
      hide OrderInv, FindNext, DropEntryOf;
      HeadInTcb(View());
      var t := queue[0];
      if tcb[t].mutex.None? && tcb[t].waitingToEnd.None? {
        AddQuantum(t);
      } else if tcb[t].waitingToEnd.None? {
        var m := tcb[t].mutex.value;
        var next := FindNextWaiter(m);
        if mutexes[m].owner == Some(t) {
          DeleteEntryOf(t);
        } else if next == Empty {
          Regrant(m);
          AddQuantum(t);
        } else if mutexes[m].owner.None? && next == Thread(t) {
          DeleteEntryOf(t);
          Regrant(m);
          AddQuantum(t);
        } else {
          return false;
        }
      } else if tcb[t].waitingToEnd.value in queue {
        return false;
      } else {
        tcb := tcb[t := tcb[t].(waitingToEnd := None)];
        AddQuantum(t);
      }
      deciding := false;
      return true;
    }

    /** `sched_PSJF`: one scheduling decision.  The loop ends because some queued
        thread is runnable. */
    method SchedPSJF()
      requires Inv(View()) && Allowed(View(), Schedule)
      requires MutexesKnown(View())
      modifies this
      ensures View() == Decide(old(View()))
      ensures queue != [] && multiset(queue) == multiset(old(queue)) && !deciding
      ensures Sum(tcb, queue) == Sum(old(tcb), old(queue))
                                 + if |old(queue)| == 1 then 100
                                   else 100 * (DecisionTurns(old(View()))
                                               + if OwnsItsMutex(old(View()), queue[0]) then 0 else 1)
    {
      hide Insert, OrderInv, Runnable, Judge, Settle, Resume, Rotate, PrintThreadList, SomeRunnable, MutexesKnown, Sum,
           DecisionTurns, OwnsItsMutex;
      ghost var before := View();
      DecideKeeps(before);
      DecideSum(before);
      HeadInTcb(before);
      if |queue| == 1 {
        AddQuantum(queue[0]);
        deciding := false;
        return;
      }
      RotatedReady(before);
      PrintKeeps(before);
      PrintThreads();
      PrintKeepsMutexes(before);
      RotateKeepsMutexes(View());
      RotateHead();
      PrintAgain(before);
      HeadInTcb(View());
      PrintThreads();
      Dispatch(before);
    }

    method Dispatch(ghost before: State)
      requires OrderInv(View()) && queue != [] && SomeRunnable(View())
      requires MutexesKnown(View())
      modifies this
      ensures View() == Outcome(old(View()))
    {
      hide OrderInv, Runnable, Resume, Rotate, Bound, Outcome, SomeRunnable, MutexesKnown;
      ghost var start := View();
      OutcomeStep(start);
      var runs := TryHead();
      while !runs
        invariant runs ==> View() == Outcome(start)
        invariant !runs ==> OrderInv(View()) && queue != [] && SomeRunnable(View()) && !Runnable(View(), queue[0])
        invariant !runs ==> Outcome(View()) == Outcome(start)
        invariant !runs ==> MutexesKnown(View())
        decreases if runs then 0 else 1, Bound(View())
      {
        OutcomeStep(View());
        RotateLowersBound(View());
        RotateKeepsOrder(View());
        RotateKeepsMutexes(View());
        RotateHead();
        OutcomeStep(View());
        runs := TryHead();
      }
    }
  }

  lemma InsertSortedStep(tcb: map<ThreadId, Tcb>, queue: seq<ThreadId>, t: ThreadId, i: nat)
    requires i <= |queue|
    ensures if i < |queue| && Quantum(tcb, t) >= Quantum(tcb, queue[i])
            then queue[..i] + InsertSorted(tcb, queue[i..], t) == queue[..i + 1] + InsertSorted(tcb, queue[i + 1..], t)
            else InsertSorted(tcb, queue[i..], t) == [t] + queue[i..]
  {
    if i < |queue| {
      assert queue[i..][1..] == queue[i + 1..];
      assert queue[..i + 1] == queue[..i] + [queue[i]];
    }
  }

  lemma OutcomeStep(s: State)
    requires OrderInv(s) && s.queue != [] && SomeRunnable(s)
    ensures if Runnable(s, s.queue[0])
            then s.queue[0] in s.tcb && Judge(s, s.queue[0]) != Blocked && Outcome(s) == Resume(s)
            else OrderInv(Rotate(s)) && Rotate(s).queue != [] && SomeRunnable(Rotate(s))
                 && Outcome(s) == Outcome(Rotate(s))
  {
    hide Resume, Rotate, Judge;
    if !Runnable(s, s.queue[0]) {
      RotateLowersBound(s);
      RotateKeepsOrder(s);
    }
  }

  lemma HeadInTcb(s: State)
    requires OrderInv(s) && s.queue != []
    ensures s.queue[0] in s.tcb && forall i | 0 <= i < |s.queue| :: s.queue[i] in s.tcb
  {
  }

  lemma RotateKeepsMutexes(s: State)
    requires OrderInv(s) && s.queue != [] && MutexesKnown(s)
    ensures Rotate(s).queue != [] && MutexesKnown(Rotate(s))
  {
    hide Insert;
    RotateKeepsOrder(s);
  }

  lemma PrintKeepsMutexes(s: State)
    requires MutexesKnown(s)
    ensures MutexesKnown(PrintThreadList(s))
  {
  }

  lemma PrintKeepsThreads(s: State)
    ensures PrintThreadList(s) == s.(mutexes := PrintThreadList(s).mutexes)
  {
  }

  lemma {:induction false} SettleKeepsMutexes(s: State)
    requires OrderInv(s) && s.queue != [] && SomeRunnable(s) && MutexesKnown(s)
    ensures MutexesKnown(Settle(s))
    decreases Bound(s)
  {
    hide OrderInv, Runnable, Rotate, Bound, MutexesKnown;
    HeadInTcb(s);
    if !Runnable(s, s.queue[0]) {
      RotateLowersBound(s);
      RotateKeepsOrder(s);
      RotateKeepsMutexes(s);
      SettleKeepsMutexes(Rotate(s));
    }
  }

  lemma ResumeKeepsMutexes(s: State)
    requires s.queue != [] && s.queue[0] in s.tcb && Judge(s, s.queue[0]) != Blocked && MutexesKnown(s)
    ensures MutexesKnown(Resume(s))
  {
    hide FindNext, DropEntryOf;
  }

  /** The methods' demand on mutexes is met at the start and by every step. */
  lemma ApplyKeepsMutexesKnown(s: State, op: Op)
    requires Inv(s) && Allowed(s, op) && MutexesKnown(s)
    ensures MutexesKnown(START) && MutexesKnown(Apply(s, op))
  {
    hide Insert, FindNext, OrderInv, Runnable, Decide;
    if s.queue != [] { HeadInTcb(s); }
    match op
    case Schedule => DecideKeepsMutexes(s);
    case DoJoin(target, location) => JoinKeepsMutexes(s, target, location);
    case _ =>
  }

  lemma JoinKeepsMutexes(s: State, target: ThreadId, location: Option<Location>)
    requires s.queue != [] && s.queue[0] in s.tcb && MutexesKnown(s)
    ensures MutexesKnown(Join(s, target, location))
  {
    hide PrintThreadList;
    PrintKeepsMutexes(s);
    PrintKeepsThreads(s);
  }

  lemma DecideKeepsMutexes(s: State)
    requires OrderInv(s) && s.queue != [] && (|s.queue| > 1 ==> SomeRunnable(s)) && MutexesKnown(s)
    ensures MutexesKnown(Decide(s))
  {
    hide Insert, Rotate, Settle, Resume, OrderInv, Runnable, SomeRunnable;
    HeadInTcb(s);
    if |s.queue| > 1 {
      var p := PrintThreadList(s);
      RotatedReady(s);
      PrintKeeps(s);
      RotateKeepsMutexes(p);
      SettleKeepsMutexes(Rotate(p));
      HeadMayRun(Settle(Rotate(p)));
      ResumeKeepsMutexes(Settle(Rotate(p)));
    }
  }

  lemma HeadMayRun(s: State)
    requires s.queue != [] && Runnable(s, s.queue[0])
    ensures s.queue[0] in s.tcb && Judge(s, s.queue[0]) != Blocked
  {
  }

  /** Printing after the rotation finds the flag as printing before it left it. */
  lemma PrintAgain(s: State)
    requires OrderInv(s) && s.queue != []
    ensures var r := Rotate(PrintThreadList(s));
      OrderInv(r) && PrintThreadList(r) == r
  {
    PrintKeeps(s);
    var p := PrintThreadList(s);
    RotateKeepsOrder(p);
    var r := Rotate(p);
    if i :| 0 <= i < |r.queue| && r.queue[i] in r.tcb && r.tcb[r.queue[i]].mutex.Some? {
      var t: ThreadId := r.queue[i];
      assert t in p.queue;
      var j :| 0 <= j < |p.queue| && p.queue[j] == t;
      assert s.tcb[s.queue[j]].mutex.Some?;
    }
  }
}
