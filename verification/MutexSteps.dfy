/** What each step does to the mutexes: who owns them afterwards, whose flag is set,
    who waits for them, and who gives up the processor. */
module MutexSteps {
  import opened Options
  import opened Threads
  import opened Dispatch
  import opened ThreadRuns
  import opened Mutexes
  import opened MutexRuns
  import Joins

  // ----- owners -----

  /** The thread that has waited longest for mutex m. */
  function OldestWaiter(s: State, m: MutexId): Option<ThreadId> {
    var ws := WaitersFor(EntriesOf(s.waiting), m);
    if ws == [] then None else Some(ws[0])
  }

  lemma {:induction false} FirstWaiter(es: seq<Entry>, m: MutexId)
    ensures var i, ws := FirstFor(es, m), WaitersFor(es, m);
      if i < |es| then ws != [] && ws[0] == es[i].thread else ws == []
  {
    if es != [] && es[0].mutex != m {
      FirstForTail(es, m);
      FirstWaiter(es[1..], m);
    }
  }

  lemma FirstForTail(es: seq<Entry>, m: MutexId)
    requires es != [] && es[0].mutex != m
    ensures FirstFor(es, m) == 1 + FirstFor(es[1..], m)
  {
    var i, j := FirstFor(es, m), FirstFor(es[1..], m);
    assert forall k | 0 <= k < |es[1..]| :: es[1..][k] == es[k + 1];
    assert j < |es[1..]| ==> es[j + 1].mutex == m;
  }

  /** Who owns a mutex after a step: a lock on a clear flag takes it, the owner's
      unlock gives it up, and a decision hands an ownerless one to its oldest
      waiter if that is the thread that it picks; nothing else changes an owner. */
  lemma OwnerAfter(s: State, op: Op, m: MutexId)
    requires Inv(s) && MutexInv(s) && Allowed(s, op) && TwoQueued(s, op)
    ensures var u, was := Apply(s, op), OwnerOf(s, m);
      OwnerOf(u, m) ==
        match op
        case DoLock(x) => if x == m && !s.mutexes[m].flag then Some(s.queue[0]) else was
        case DoUnlock(x) => if x == m && was == Some(s.queue[0]) then None else was
        case Schedule =>
          if was == None && u.queue != [] && OldestWaiter(s, m) == Some(u.queue[0]) then Some(u.queue[0]) else was
        case _ => was
  {
    hide MutexInv, OrderInv, Settled, Decide, OldestWaiter, FirstJoiner, ExitOf, PrintThreadList;
    match op {
      case DoCreate => CreateKeepsMutexInv(s);
      case DoInit(x) => InitKeeps(s, x);
      case DoUnlock(x) => UnlockOwner(s, x, m);
      case DoLock(x) => LockIsSafe(s, x);
      case DoJoin(target, location) => JoinKeepsMutexInv(s, target, location);
      case DoExit(value) => ExitKeepsMutexInv(s, value);
      case Preempt =>
      case Schedule => DecideOwner(s, m);
    }
  }

  lemma UnlockOwner(s: State, x: MutexId, m: MutexId)
    requires Inv(s) && MutexInv(s) && Allowed(s, DoUnlock(x))
    ensures OwnerOf(Unlock(s, x), m) == if x == m && OwnerOf(s, m) == Some(s.queue[0]) then None else OwnerOf(s, m)
  {
  }

  lemma DecideOwner(s: State, m: MutexId)
    requires Inv(s) && MutexInv(s) && Allowed(s, Schedule) && |s.queue| > 1
    ensures var u, was := Decide(s), OwnerOf(s, m);
      u.queue != []
      && OwnerOf(u, m) == if was == None && OldestWaiter(s, m) == Some(u.queue[0]) then Some(u.queue[0]) else was
  {
    hide MutexInv, OrderInv, Judge, FirstFor, FirstOf, Settle, Rotate, WaitersFor, OwnerOf, Resume;
    DecideKeepsMutexInv(s);
    SettledKeeps(s);
    var d, u := Settled(s), Decide(s);
    ResumeKeeps(d);
    ResumeKeepsMutexInv(d);
    FirstWaiter(EntriesOf(s.waiting), m);
    if OwnerOf(s, m) == None && OldestWaiter(s, m) == Some(u.queue[0]) {
      OldestWaiterIsRunnable(d, m);
      OldestIsGiven(d, m);
    } else if Judge(d, d.queue[0]) == Granted {
      GrantIsOldest(d);
      GrantedKeeps(d);
      OthersNotGiven(d, m);
    }
  }

  lemma OldestIsGiven(d: State, m: MutexId)
    requires MutexInv(d) && QueueOk(d) && |d.queue| > 0 && Runnable(d, d.queue[0])
    requires FirstFor(EntriesOf(d.waiting), m) < |EntriesOf(d.waiting)| && OwnerOf(d, m) == None
    requires EntriesOf(d.waiting)[FirstFor(EntriesOf(d.waiting), m)].thread == d.queue[0]
    ensures OwnerOf(Resume(d), m) == Some(d.queue[0])
  {
    hide FirstFor, FirstOf, Judge, MutexInv;
    OldestWaiterIsRunnable(d, m);
    WaiterNames(d, FirstFor(EntriesOf(d.waiting), m));
    GrantedKeeps(d);
  }

  lemma WaiterNames(d: State, i: nat)
    requires MutexInv(d) && i < |EntriesOf(d.waiting)|
    ensures WaiterOk(d, EntriesOf(d.waiting)[i])
  {
  }

  lemma OthersNotGiven(d: State, m: MutexId)
    requires MutexInv(d) && QueueOk(d) && |d.queue| > 0 && Judge(d, d.queue[0]) == Granted
    requires OwnerOf(d, m).Some?
             || !(FirstFor(EntriesOf(d.waiting), m) < |EntriesOf(d.waiting)|
                  && EntriesOf(d.waiting)[FirstFor(EntriesOf(d.waiting), m)].thread == d.queue[0])
    ensures OwnerOf(Resume(d), m) == OwnerOf(d, m)
  {
    hide FirstFor, FirstOf, Judge, MutexInv;
    GrantIsOldest(d);
    GrantedKeeps(d);
  }

  /** No lock is lost and none is kept: after an unlock the mutex is free, its flag
      clear, exactly when the running thread owned it, or it was free already.
      Then the thread names no mutex any more, and the oldest waiter can run. */
  lemma UnlockFreesExactly(s: State, m: MutexId)
    requires Inv(s) && MutexInv(s) && Allowed(s, DoUnlock(m))
    ensures var u := Unlock(s, m);
      && m in u.mutexes
      && (OwnerOf(u, m) == None && !u.mutexes[m].flag <==>
            OwnerOf(s, m) == Some(s.queue[0]) || (OwnerOf(s, m) == None && !s.mutexes[m].flag))
      && (OwnerOf(s, m) == Some(s.queue[0]) ==>
            && s.queue[0] in u.tcb && u.tcb[s.queue[0]].mutex == None
            && (OldestWaiter(s, m).Some? ==> Runnable(u, OldestWaiter(s, m).value)))
      && (OwnerOf(s, m) != Some(s.queue[0]) ==> u == s)
  {
    hide MutexInv, OrderInv, WaitersFor;
    UnlockKeeps(s, m);
    HeadIsQueued(s);
    FlagOfOwned(s, m);
    FirstWaiter(EntriesOf(s.waiting), m);
    var u := Unlock(s, m);
    if OwnerOf(s, m) == Some(s.queue[0]) && OldestWaiter(s, m).Some? {
      OldestWaiterIsRunnable(u, m);
    }
  }

  lemma HeadIsQueued(s: State)
    requires OrderInv(s) && |s.queue| > 0
    ensures s.queue[0] in s.tcb
  {
  }

  lemma FlagOfOwned(s: State, m: MutexId)
    requires MutexInv(s)
    ensures OwnerOf(s, m).Some? ==> m in s.mutexes && s.mutexes[m].flag
  {
  }

  /** A lock gives the running thread the mutex exactly when the flag is clear; when
      the flag is set and the thread does not own the mutex, which includes the
      flag that printing has set on a free one, it waits behind the others. */
  lemma LockGivesExactly(s: State, m: MutexId)
    requires Inv(s) && MutexInv(s) && Allowed(s, DoLock(m))
    ensures var t, u := s.queue[0], Lock(s, m);
      && t in u.tcb && m in u.mutexes && u.mutexes[m].flag
      && (OwnerOf(u, m) == Some(t) <==> !s.mutexes[m].flag || OwnerOf(s, m) == Some(t))
      && (!s.mutexes[m].flag ==>
            u.tcb[t].mutex == Some(m) && EntriesOf(u.waiting) == EntriesOf(s.waiting) && !u.deciding)
      && (OwnerOf(s, m) == Some(t) ==> u == s)
      && (s.mutexes[m].flag && OwnerOf(s, m) != Some(t) ==>
            && u.tcb[t].mutex == Some(m) && u.deciding
            && EntriesOf(u.waiting) == EntriesOf(s.waiting) + [Entry(t, m)])
  {
    hide MutexInv, OrderInv, FirstOf, DeleteAt;
    LockKeeps(s, m);
    LockIsSafe(s, m);
    FlagOfOwned(s, m);
  }

  /** Whatever the state, invariant or not, a clear flag is set and its mutex taken
      over, from an owner too; only a thread that finds no owner names the mutex. */
  lemma ClearFlagIsTaken(s: State, m: MutexId)
    requires |s.queue| > 0 && s.queue[0] in s.tcb && m in s.mutexes && !s.mutexes[m].flag
    ensures var t, u := s.queue[0], Lock(s, m);
      && OwnerOf(u, m) == Some(t) && u.mutexes[m].flag && t in u.tcb
      && u.tcb[t].mutex == (if OwnerOf(s, m) == None then Some(m) else s.tcb[t].mutex)
      && u.waiting == s.waiting && u.deciding == s.deciding
      && (forall x | x in s.mutexes && x != m :: x in u.mutexes && u.mutexes[x] == s.mutexes[x])
  {
  }

  /** A mutex that is set up is free, and the thread that locks it next has it. */
  lemma InitThenLock(s: State, m: MutexId)
    requires Inv(s) && MutexInv(s) && Allowed(s, DoInit(m)) && s.queue != []
    ensures var u := InitMutex(s, m);
      && OwnerOf(u, m) == None && Allowed(u, DoLock(m))
      && OwnerOf(Lock(u, m), m) == Some(s.queue[0]) && !Lock(u, m).deciding
      && (forall x | x in s.mutexes :: x in u.mutexes && u.mutexes[x] == s.mutexes[x])
      && u.firstMutex == (if s.mutexes == map[] then Some(m) else s.firstMutex)
      && (u.waiting == Placeholder <==> s.mutexes == map[] || s.waiting == Placeholder)
  {
    HeadIsQueued(s);
    FirstIsKnown(s);
  }

  lemma FirstIsKnown(s: State)
    requires MutexInv(s)
    ensures s.firstMutex.None? <==> s.mutexes == map[]
  {
    assert s.firstMutex.Some? ==> s.firstMutex.value in s.mutexes;
  }

  // ----- flags -----

  /** A queued thread names a mutex. */
  ghost predicate SomeoneNames(s: State) {
    exists t :: t in s.queue && t in s.tcb && s.tcb[t].mutex.Some?
  }

  /** Printing the thread list sets the first mutex's flag, owned or not, exactly
      when some queued thread names a mutex, whichever. */
  lemma PrintFlags(s: State)
    ensures PrintThreadList(s) == s.(mutexes := PrintThreadList(s).mutexes)
    ensures PrintThreadList(s).mutexes.Keys == s.mutexes.Keys
    ensures forall m | m in s.mutexes ::
              && PrintThreadList(s).mutexes[m].owner == s.mutexes[m].owner
              && (PrintThreadList(s).mutexes[m].flag <==>
                    s.mutexes[m].flag || (s.firstMutex == Some(m) && SomeoneNames(s)))
  {
    if t: ThreadId :| t in s.queue && t in s.tcb && s.tcb[t].mutex.Some? {
      var i :| 0 <= i < |s.queue| && s.queue[i] == t;
      assert s.queue[i] in s.tcb && s.tcb[s.queue[i]].mutex.Some?;
    }
    if i :| 0 <= i < |s.queue| && s.queue[i] in s.tcb && s.tcb[s.queue[i]].mutex.Some? {
      var t: ThreadId := s.queue[i];
      assert t in s.queue;
    }
  }

  /** A join that comes as far as to look for its target prints the thread list. */
  ghost predicate Prints(s: State, op: Op) {
    match op
    case DoJoin(target, _) =>
      s.queue != [] && target != s.queue[0] && target <= s.lastId
    case Schedule => true
    case _ => false
  }

  /** Whose flag is set after a step. */
  lemma FlagAfter(s: State, op: Op, m: MutexId)
    requires Inv(s) && MutexInv(s) && Joins.JoinInv(s) && Allowed(s, op) && TwoQueued(s, op) && m in s.mutexes
    ensures var u := Apply(s, op);
      m in u.mutexes
      && (u.mutexes[m].flag <==>
            match op
            case DoLock(x) => x == m || s.mutexes[m].flag
            case DoUnlock(x) => s.mutexes[m].flag && !(x == m && OwnerOf(s, m) == Some(s.queue[0]))
            case _ =>
              || s.mutexes[m].flag
              || (Prints(s, op) && s.firstMutex == Some(m) && SomeoneNames(s))
              || OwnerOf(u, m) != OwnerOf(s, m))
  {
    hide MutexInv, OrderInv, Joins.JoinInv, Decide, FirstJoiner, ExitOf, SomeoneNames, PrintThreadList;
    match op {
      case DoCreate => CreateKeepsMutexInv(s);
      case DoInit(x) =>
      case DoLock(x) => LockIsSafe(s, x);
      case DoUnlock(x) => HeadIsQueued(s);
      case DoJoin(target, location) =>
        PrintFlags(s);
        Joins.RunningWaitsForNone(s);
        JoinKeepsMutexInv(s, target, location);
      case DoExit(value) => ExitKeepsMutexInv(s, value);
      case Preempt =>
      case Schedule => DecideFlag(s, m);
    }
  }

  lemma DecideFlag(s: State, m: MutexId)
    requires Inv(s) && MutexInv(s) && Allowed(s, Schedule) && |s.queue| > 1 && m in s.mutexes
    ensures m in Decide(s).mutexes
    ensures Decide(s).mutexes[m].flag <==>
              || s.mutexes[m].flag || (s.firstMutex == Some(m) && SomeoneNames(s))
              || OwnerOf(Decide(s), m) != OwnerOf(s, m)
  {
    hide MutexInv, OrderInv, Judge, FirstFor, FirstOf, SomeoneNames, PrintThreadList, Settle, Rotate;
    DecideKeepsMutexInv(s);
    SettledKeeps(s);
    PrintFlags(s);
    var p, d := PrintThreadList(s), Settled(s);
    assert d.mutexes == p.mutexes;
    TakeoversUnreachable(d);
    if Judge(d, d.queue[0]) == Granted { GrantedKeeps(d); } else { NoGrantKeepsMutexes(d); }
  }

  lemma NoGrantKeepsMutexes(d: State)
    requires MutexInv(d) && QueueOk(d) && |d.queue| > 0 && Runnable(d, d.queue[0])
    requires Judge(d, d.queue[0]) != Granted
    ensures Resume(d).mutexes == d.mutexes
  {
    TakeoversUnreachable(d);
  }

  // ----- which mutex a thread names, and who goes on -----

  /** Which mutex a thread names after a step: only its own lock sets it, and only
      its own unlock clears it. */
  lemma NamedAfter(s: State, op: Op, t: ThreadId)
    requires Inv(s) && MutexInv(s) && Allowed(s, op) && TwoQueued(s, op) && t in Apply(s, op).tcb
    ensures Apply(s, op).tcb[t].mutex ==
              if t !in s.tcb then None
              else
                match op
                case DoLock(m) =>
                  if t == s.queue[0] && OwnerOf(s, m) != Some(t) then Some(m) else s.tcb[t].mutex
                case DoUnlock(m) =>
                  if t == s.queue[0] && OwnerOf(s, m) == Some(t) then None else s.tcb[t].mutex
                case _ => s.tcb[t].mutex
  {
    hide MutexInv, OrderInv, Decide, FirstJoiner, ExitOf, PrintThreadList, Insert;
    if s.queue != [] { HeadIsQueued(s); }
    match op {
      case DoLock(m) => LockIsSafe(s, m); FlagOfOwned(s, m);
      case DoUnlock(m) => FlagOfOwned(s, m);
      case Schedule => DecideNames(s, t);
      case DoJoin(target, location) => PrintKeeps(s);
      case _ =>
    }
  }

  lemma DecideNames(s: State, t: ThreadId)
    requires Inv(s) && MutexInv(s) && Allowed(s, Schedule) && |s.queue| > 1 && t in Decide(s).tcb
    ensures t in s.tcb && Decide(s).tcb[t].mutex == s.tcb[t].mutex
  {
    hide MutexInv, OrderInv, Judge, FirstFor, FirstOf, Settle, Rotate, DropEntryOf;
    DecideKeepsMutexInv(s);
    SettledKeeps(s);
    PrintKeeps(s);
    var d := Settled(s);
    assert d.tcb[t].mutex == s.tcb[t].mutex;
    TakeoversUnreachable(d);
    ResumeFrame(d);
    ResumeNames(d);
  }

  lemma ResumeNames(d: State)
    requires MutexInv(d) && |d.queue| > 0 && Runnable(d, d.queue[0])
    ensures d.queue[0] in d.tcb && d.queue[0] in Resume(d).tcb
    ensures Resume(d).tcb[d.queue[0]].mutex == d.tcb[d.queue[0]].mutex
  {
    hide FindNext, DropEntryOf;
    TakeoversUnreachable(d);
  }

  /** After which steps the scheduler is about to run: a lock that has to wait, a
      join that does, an exit and a preemption. */
  lemma GivesUpExactly(s: State, op: Op)
    requires Inv(s) && Allowed(s, op) && !op.Schedule?
    ensures Apply(s, op).deciding <==>
              || s.deciding || op.Preempt? || op.DoExit?
              || (op.DoLock? && s.mutexes[op.mutex].flag && OwnerOf(s, op.mutex) != Some(s.queue[0]))
              || (op.DoJoin? && s.queue[0] in s.tcb && JoinOutcome(s, op.target).Waits?)
  {
    hide OrderInv, FirstJoiner, ExitOf, Insert;
    if s.queue != [] { HeadIsQueued(s); }
  }

  // ----- verdicts -----

  /** What the dispatch loop makes of a thread, by the cause; in whatever state. */
  lemma VerdictByCause(s: State, t: ThreadId)
    requires t in s.tcb
    ensures var b, v := s.tcb[t], Judge(s, t);
      && (v == Free <==> b.waitingToEnd.None? && b.mutex.None?)
      && (v == TargetGone <==> b.waitingToEnd.Some? && b.waitingToEnd.value !in s.queue)
      && (v == Owns <==> OwnsItsMutex(s, t))
      && (v == TakesOver <==> Contends(s, t) && s.waiting == Entries([]))
      && (v == Granted <==>
            && Contends(s, t) && OwnerOf(s, b.mutex.value) == None && !s.waiting.Placeholder?
            && OldestWaiter(s, b.mutex.value) == Some(t))
  {
    hide WaitersFor, FirstFor;
    var b := s.tcb[t];
    if b.mutex.Some? { FirstWaiter(EntriesOf(s.waiting), b.mutex.value); }
  }

  /** The thread waits for no other, and names a mutex that it does not own. */
  ghost predicate Contends(s: State, t: ThreadId) {
    && t in s.tcb && s.tcb[t].waitingToEnd.None? && s.tcb[t].mutex.Some?
    && OwnerOf(s, s.tcb[t].mutex.value) != Some(t)
  }

  /** A thread that contends for a mutex while nobody has an entry is given it, in
      whatever state, from an owner too. */
  lemma TakeOverGives(s: State)
    requires |s.queue| > 0 && Contends(s, s.queue[0]) && s.waiting == Entries([])
    ensures Runnable(s, s.queue[0])
    ensures var t, u := s.queue[0], Resume(s);
      && OwnerOf(u, s.tcb[t].mutex.value) == Some(t) && u.mutexes[s.tcb[t].mutex.value].flag
      && u.waiting == s.waiting && t in u.tcb && u.tcb[t].mutex == s.tcb[t].mutex
  {
  }

  // ----- entries of threads that are resumed -----

  /** Whatever the state: the dispatch loop takes the entry of a thread that owns
      its mutex, or is given it, out of the mutex queue, and no other. */
  lemma ResumeDropsEntry(s: State)
    requires |s.queue| > 0 && Runnable(s, s.queue[0]) && Distinct(EntriesOf(s.waiting))
    ensures var t, es, fs := s.queue[0], EntriesOf(s.waiting), EntriesOf(Resume(s).waiting);
      if Judge(s, t) == Owns || Judge(s, t) == Granted
      then
        && (forall e :: e in fs <==> e in es && e.thread != t)
        && forall m :: WaitersFor(fs, m) == Without(WaitersFor(es, m), t)
      else fs == es
  {
    hide FirstOf, DeleteAt, FindNext, WaitersFor;
    var t, es := s.queue[0], EntriesOf(s.waiting);
    DropEffect(es, t);
    ResumedEntries(s);
    forall m ensures WaitersFor(DeleteAt(es, FirstOf(es, t)), m) == Without(WaitersFor(es, m), t) {
      DropOrder(es, t, m);
    }
  }

  lemma ResumedEntries(s: State)
    requires |s.queue| > 0 && Runnable(s, s.queue[0])
    ensures EntriesOf(Resume(s).waiting) ==
              if Judge(s, s.queue[0]) == Owns || Judge(s, s.queue[0]) == Granted
              then DeleteAt(EntriesOf(s.waiting), FirstOf(EntriesOf(s.waiting), s.queue[0]))
              else EntriesOf(s.waiting)
  {
    hide FirstOf, FindNext;
  }

  function Without(ts: seq<ThreadId>, t: ThreadId): seq<ThreadId> {
    if ts == [] then [] else (if ts[0] == t then [] else [ts[0]]) + Without(ts[1..], t)
  }

  lemma {:induction false} DropOrder(es: seq<Entry>, t: ThreadId, m: MutexId)
    requires Distinct(es)
    ensures WaitersFor(DeleteAt(es, FirstOf(es, t)), m) == Without(WaitersFor(es, m), t)
  {
    if es == [] {
    } else if es[0].thread == t {
      assert FirstOf(es, t) == 0;
      assert DeleteAt(es, 0) == es[1..];
      NoneWithout(es[1..], t, m);
      WithoutFirst(es, t, m);
    } else {
      FirstOfTail(es, t);
      DropOrder(es[1..], t, m);
      WithoutFirst(es, t, m);
    }
  }

  lemma FirstOfTail(es: seq<Entry>, t: ThreadId)
    requires es != [] && es[0].thread != t
    ensures FirstOf(es, t) == 1 + FirstOf(es[1..], t)
    ensures var r := DeleteAt(es, FirstOf(es, t));
      r != [] && r[0] == es[0] && r[1..] == DeleteAt(es[1..], FirstOf(es[1..], t))
  {
    var i, j := FirstOf(es, t), FirstOf(es[1..], t);
    assert forall k | 0 <= k < |es[1..]| :: es[1..][k] == es[k + 1];
    assert j < |es[1..]| ==> es[j + 1].thread == t;
  }

  lemma WithoutFirst(es: seq<Entry>, t: ThreadId, m: MutexId)
    requires es != []
    ensures Without(WaitersFor(es, m), t) ==
              (if es[0].mutex == m && es[0].thread != t then [es[0].thread] else [])
              + Without(WaitersFor(es[1..], m), t)
  {
    var ws, rest := WaitersFor(es, m), WaitersFor(es[1..], m);
    if es[0].mutex == m {
      assert ws == [es[0].thread] + rest;
      assert ws[1..] == rest;
    } else {
      assert ws == [] + rest == rest;
    }
  }

  lemma {:induction false} NoneWithout(es: seq<Entry>, t: ThreadId, m: MutexId)
    requires forall i | 0 <= i < |es| :: es[i].thread != t
    ensures Without(WaitersFor(es, m), t) == WaitersFor(es, m)
  {
    if es != [] {
      assert forall i | 0 <= i < |es[1..]| :: es[1..][i] == es[i + 1];
      NoneWithout(es[1..], t, m);
      WithoutFirst(es, t, m);
    }
  }
}
