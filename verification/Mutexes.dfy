/** Mutexes over whole runs in which every decision finds at least two queued
    threads: who may own them, and in which order waiters get them. */
module Mutexes {
  import opened Options
  import opened Threads
  import opened Dispatch
  import opened ThreadRuns

  function OwnerOf(s: State, m: MutexId): Option<ThreadId> {
    if m in s.mutexes then s.mutexes[m].owner else None
  }

  /** The thread waits for no other, and names a mutex that it owns. */
  ghost predicate OwnsItsMutex(s: State, t: ThreadId) {
    && t in s.tcb && s.tcb[t].waitingToEnd.None? && s.tcb[t].mutex.Some?
    && OwnerOf(s, s.tcb[t].mutex.value) == Some(t)
  }

  /** Entry e belongs to a queued thread that is blocked on that mutex. */
  ghost predicate WaiterOk(s: State, e: Entry) {
    && e.thread in s.queue && e.thread in s.tcb && e.mutex in s.mutexes
    && s.tcb[e.thread].mutex == Some(e.mutex) && s.tcb[e.thread].waitingToEnd == None
    && OwnerOf(s, e.mutex) != Some(e.thread)
  }

  /** A queued thread's mutex is one it owns or one it has an entry for. */
  ghost predicate HolderOk(s: State, t: ThreadId) {
    t in s.tcb && s.tcb[t].mutex.Some? ==>
      var m := s.tcb[t].mutex.value;
      m in s.mutexes && (OwnerOf(s, m) == Some(t) || Entry(t, m) in EntriesOf(s.waiting))
  }

  /** An owned mutex has its flag set. */
  ghost predicate OwnersOk(s: State) {
    forall m | m in s.mutexes :: s.mutexes[m].owner.Some? ==> s.mutexes[m].flag
  }

  ghost predicate EntriesOk(s: State) {
    && (forall i | 0 <= i < |EntriesOf(s.waiting)| :: WaiterOk(s, EntriesOf(s.waiting)[i]))
    && Distinct(EntriesOf(s.waiting))
  }

  /** No thread has two entries. */
  ghost predicate Distinct(es: seq<Entry>) {
    forall i, j | 0 <= i < j < |es| :: es[i].thread != es[j].thread
  }

  /** The running thread waits for nothing. */
  ghost predicate HeadOk(s: State) {
    !s.deciding && s.queue != [] ==>
      && s.queue[0] in s.tcb && s.tcb[s.queue[0]].waitingToEnd == None
      && forall i | 0 <= i < |EntriesOf(s.waiting)| :: EntriesOf(s.waiting)[i].thread != s.queue[0]
  }

  ghost predicate FirstOk(s: State) {
    && (s.firstMutex.None? ==> s.mutexes == map[])
    && (s.firstMutex.Some? ==> s.firstMutex.value in s.mutexes)
  }

  ghost predicate MutexInv(s: State) {
    && OwnersOk(s) && EntriesOk(s) && HeadOk(s) && FirstOk(s)
    && forall i | 0 <= i < |s.queue| :: HolderOk(s, s.queue[i])
  }

  // ----- what the invariant rules out -----

  /** The branch of the dispatch loop that takes a mutex away from its owner
      because no queue has formed is never reached; nor is the placeholder node
      ever searched; nor does `mypthread_mutex_lock` ever find a clear flag on
      an owned mutex. */
  lemma TakeoversUnreachable(s: State)
    requires MutexInv(s)
    ensures forall t | t in s.queue && t in s.tcb :: Judge(s, t) != TakesOver
    ensures forall t | t in s.queue && t in s.tcb && s.tcb[t].mutex.Some? && s.tcb[t].waitingToEnd.None?
                       && OwnerOf(s, s.tcb[t].mutex.value) != Some(t) ::
              !s.waiting.Placeholder? && s.waiting.entries != []
    ensures forall m | m in s.mutexes && !s.mutexes[m].flag :: s.mutexes[m].owner.None?
  {
    forall t | t in s.queue && t in s.tcb && s.tcb[t].mutex.Some? && s.tcb[t].waitingToEnd.None?
               && OwnerOf(s, s.tcb[t].mutex.value) != Some(t)
      ensures !s.waiting.Placeholder? && s.waiting.entries != []
    {
      var i :| 0 <= i < |s.queue| && s.queue[i] == t;
      assert HolderOk(s, s.queue[i]);
    }
  }

  /** No lost wake-up: when a mutex has waiters and no owner, its oldest waiter
      can run. */
  lemma OldestWaiterIsRunnable(s: State, m: MutexId)
    requires MutexInv(s) && OwnerOf(s, m) == None
    requires FirstFor(EntriesOf(s.waiting), m) < |EntriesOf(s.waiting)|
    ensures var t := EntriesOf(s.waiting)[FirstFor(EntriesOf(s.waiting), m)].thread;
      Runnable(s, t) && Judge(s, t) == Granted
  {
    var e := EntriesOf(s.waiting)[FirstFor(EntriesOf(s.waiting), m)];
    assert WaiterOk(s, e);
  }

  /** And a waiter that is not the oldest, or whose mutex is owned, cannot. */
  lemma OtherWaitersAreBlocked(s: State, i: nat)
    requires MutexInv(s) && i < |EntriesOf(s.waiting)|
    requires var e := EntriesOf(s.waiting)[i];
      OwnerOf(s, e.mutex).Some? || FirstFor(EntriesOf(s.waiting), e.mutex) != i
    ensures !Runnable(s, EntriesOf(s.waiting)[i].thread)
  {
    var e := EntriesOf(s.waiting)[i];
    assert WaiterOk(s, e);
    var k := FirstFor(EntriesOf(s.waiting), e.mutex);
    assert k <= i;
  }

  // ----- every step keeps the invariant -----

  lemma MutexInvStart()
    ensures MutexInv(START)
  {
  }

  /** The invariant does not look at quanta, flags being set, or the order of the
      queue behind a decision. */
  lemma MutexDepends(a: State, b: State)
    requires MutexInv(a) && QueueOk(b) && b.deciding
    requires forall t :: t in b.queue <==> t in a.queue
    requires b.waiting == a.waiting && b.mutexes == a.mutexes && b.firstMutex == a.firstMutex
    requires b.tcb.Keys == a.tcb.Keys
    requires forall t | t in a.tcb ::
               b.tcb[t].mutex == a.tcb[t].mutex && b.tcb[t].waitingToEnd == a.tcb[t].waitingToEnd
    ensures MutexInv(b)
  {
    forall i | 0 <= i < |b.queue| ensures HolderOk(b, b.queue[i]) {
      var t: ThreadId := b.queue[i];
      assert t in b.queue && t in a.queue;
      var j :| 0 <= j < |a.queue| && a.queue[j] == t;
      assert HolderOk(a, a.queue[j]);
    }
    forall i | 0 <= i < |EntriesOf(b.waiting)| ensures WaiterOk(b, EntriesOf(b.waiting)[i]) {
      assert WaiterOk(a, EntriesOf(a.waiting)[i]);
    }
  }

  lemma PrintKeepsMutexInv(s: State)
    requires MutexInv(s)
    ensures MutexInv(PrintThreadList(s))
    ensures forall m :: OwnerOf(PrintThreadList(s), m) == OwnerOf(s, m)
  {
    var p := PrintThreadList(s);
    forall i | 0 <= i < |p.queue| ensures HolderOk(p, p.queue[i]) {
      assert HolderOk(s, s.queue[i]);
    }
    forall i | 0 <= i < |EntriesOf(p.waiting)| ensures WaiterOk(p, EntriesOf(p.waiting)[i]) {
      assert WaiterOk(s, EntriesOf(s.waiting)[i]);
    }
  }

  lemma DeletedAt(es: seq<Entry>, i: nat)
    requires i < |es|
    ensures |DeleteAt(es, i)| == |es| - 1
    ensures forall k | 0 <= k < |es| - 1 :: DeleteAt(es, i)[k] == es[if k < i then k else k + 1]
    ensures forall k | 0 <= k < |es| && k != i :: es[k] == DeleteAt(es, i)[if k < i then k else k - 1]
  {
  }

  /** The first entry of a thread is its only one; without it, the others keep
      their order. */
  lemma DropEffect(es: seq<Entry>, t: ThreadId)
    requires Distinct(es)
    ensures Distinct(DeleteAt(es, FirstOf(es, t)))
    ensures forall i | 0 <= i < |DeleteAt(es, FirstOf(es, t))| ::
              DeleteAt(es, FirstOf(es, t))[i].thread != t && DeleteAt(es, FirstOf(es, t))[i] in es
    ensures forall e | e in es && e.thread != t :: e in DeleteAt(es, FirstOf(es, t))
  {
    hide DeleteAt;
    var i, r := FirstOf(es, t), DeleteAt(es, FirstOf(es, t));
    if i < |es| {
      DeletedAt(es, i);
      forall e | e in es && e.thread != t ensures e in r {
        var k :| 0 <= k < |es| && es[k] == e;
        assert r[if k < i then k else k - 1] == e;
      }
    } else {
      DeletedNone(es, i);
    }
  }

  lemma DeletedNone(es: seq<Entry>, i: nat)
    requires i >= |es|
    ensures DeleteAt(es, i) == es
  {
  }

  /** The dispatch loop stops at a thread and lets it run. */
  lemma ResumeKeepsMutexInv(s: State)
    requires MutexInv(s) && QueueOk(s) && |s.queue| > 0 && Runnable(s, s.queue[0])
    ensures MutexInv(Resume(s))
    ensures Judge(s, s.queue[0]) == Owns ==> Resume(s).waiting == s.waiting
    ensures forall m | OwnerOf(Resume(s), m) != OwnerOf(s, m) ::
              OwnerOf(s, m) == None && OwnerOf(Resume(s), m) == Some(s.queue[0]) && Judge(s, s.queue[0]) == Granted
  {
    var t := s.queue[0];
    TakeoversUnreachable(s);
    assert HolderOk(s, s.queue[0]);
    hide FirstFor, OwnersOk;
    match Judge(s, t)
    case Free => FreeKeeps(s);
    case Owns => OwnsKeeps(s);
    case Granted => GrantedKeeps(s);
    case TargetGone => GoneKeeps(s);
    case _ =>
  }

  lemma NoEntryOf(s: State, t: ThreadId)
    requires MutexInv(s) && t in s.tcb
    requires s.tcb[t].mutex.None? || s.tcb[t].waitingToEnd.Some? || OwnerOf(s, s.tcb[t].mutex.value) == Some(t)
    ensures FirstOf(EntriesOf(s.waiting), t) == |EntriesOf(s.waiting)|
    ensures forall i | 0 <= i < |EntriesOf(s.waiting)| :: EntriesOf(s.waiting)[i].thread != t
  {
    forall i | 0 <= i < |EntriesOf(s.waiting)| ensures EntriesOf(s.waiting)[i].thread != t {
      assert WaiterOk(s, EntriesOf(s.waiting)[i]);
    }
  }

  /** Only the head's waits, and quanta, differ; the head runs. */
  lemma HeadRuns(s: State, b: State)
    requires MutexInv(s) && QueueOk(s) && |s.queue| > 0
    requires b.queue == s.queue && b.mutexes == s.mutexes && b.firstMutex == s.firstMutex
    requires EntriesOf(b.waiting) == EntriesOf(s.waiting) && b.tcb.Keys == s.tcb.Keys
    requires forall t | t in s.tcb && t != s.queue[0] ::
               b.tcb[t].mutex == s.tcb[t].mutex && b.tcb[t].waitingToEnd == s.tcb[t].waitingToEnd
    requires b.tcb[s.queue[0]].mutex == s.tcb[s.queue[0]].mutex
    requires b.tcb[s.queue[0]].waitingToEnd == None
    requires forall i | 0 <= i < |EntriesOf(s.waiting)| :: EntriesOf(s.waiting)[i].thread != s.queue[0]
    ensures MutexInv(b)
  {
    forall i | 0 <= i < |b.queue| ensures HolderOk(b, b.queue[i]) {
      assert HolderOk(s, s.queue[i]);
    }
    forall i | 0 <= i < |EntriesOf(b.waiting)| ensures WaiterOk(b, EntriesOf(b.waiting)[i]) {
      assert WaiterOk(s, EntriesOf(s.waiting)[i]);
    }
  }

  lemma FreeKeeps(s: State)
    requires MutexInv(s) && QueueOk(s) && |s.queue| > 0 && Judge(s, s.queue[0]) == Free
    ensures MutexInv(Resume(s)) && Resume(s).mutexes == s.mutexes
  {
    NoEntryOf(s, s.queue[0]);
    HeadRuns(s, Resume(s));
  }

  lemma OwnsKeeps(s: State)
    requires MutexInv(s) && QueueOk(s) && |s.queue| > 0 && Judge(s, s.queue[0]) == Owns
    ensures MutexInv(Resume(s)) && Resume(s).mutexes == s.mutexes && Resume(s).waiting == s.waiting
  {
    NoEntryOf(s, s.queue[0]);
    HeadRuns(s, Resume(s));
  }

  lemma GoneKeeps(s: State)
    requires MutexInv(s) && QueueOk(s) && |s.queue| > 0 && Judge(s, s.queue[0]) == TargetGone
    ensures MutexInv(Resume(s)) && Resume(s).mutexes == s.mutexes
  {
    NoEntryOf(s, s.queue[0]);
    HeadRuns(s, Resume(s));
  }

  /** A grant: the head is the oldest waiter; its entry goes, the mutex is its own. */
  lemma GrantedKeeps(s: State)
    requires MutexInv(s) && QueueOk(s) && |s.queue| > 0 && Judge(s, s.queue[0]) == Granted
    ensures MutexInv(Resume(s))
    ensures var t := s.queue[0];
      && s.tcb[t].mutex.Some? && OwnerOf(s, s.tcb[t].mutex.value) == None
      && Resume(s).mutexes == s.mutexes[s.tcb[t].mutex.value := Mutex(Some(t), true)]
      && EntriesOf(Resume(s).waiting) == DeleteAt(EntriesOf(s.waiting), FirstOf(EntriesOf(s.waiting), t))
  {
    hide FirstFor, FirstOf, DeleteAt;
    var t := s.queue[0];
    assert HolderOk(s, s.queue[0]);
    GiveKeeps(s, Resume(s), t, s.tcb[t].mutex.value);
  }

  /** Thread t becomes the owner of m and has no entry any more. */
  lemma GiveKeeps(s: State, b: State, t: ThreadId, m: MutexId)
    requires MutexInv(s) && QueueOk(s) && |s.queue| > 0 && t == s.queue[0]
    requires m in s.mutexes && OwnerOf(s, m) == None
    requires b.queue == s.queue && b.firstMutex == s.firstMutex && b.tcb.Keys == s.tcb.Keys
    requires b.mutexes == s.mutexes[m := Mutex(Some(t), true)]
    requires EntriesOf(b.waiting) == DeleteAt(EntriesOf(s.waiting), FirstOf(EntriesOf(s.waiting), t))
    requires forall x | x in s.tcb && x != t ::
               b.tcb[x].mutex == s.tcb[x].mutex && b.tcb[x].waitingToEnd == s.tcb[x].waitingToEnd
    requires b.tcb[t].mutex == Some(m) && b.tcb[t].waitingToEnd == None
    ensures MutexInv(b)
  {
    hide FirstOf, DeleteAt;
    var es, fs := EntriesOf(s.waiting), EntriesOf(b.waiting);
    DropEffect(es, t);
    forall i | 0 <= i < |fs| ensures WaiterOk(b, fs[i]) {
      var e := fs[i];
      assert e in es && e.thread != t;
      var j :| 0 <= j < |es| && es[j] == e;
      assert WaiterOk(s, es[j]);
    }
    forall i | 0 <= i < |b.queue| ensures HolderOk(b, b.queue[i]) {
      assert HolderOk(s, s.queue[i]);
    }
  }

  lemma DecideKeepsMutexInv(s: State)
    requires Inv(s) && MutexInv(s) && Allowed(s, Schedule) && |s.queue| > 1
    ensures MutexInv(Decide(s))
    ensures forall m | OwnerOf(Decide(s), m) != OwnerOf(s, m) ::
              OwnerOf(s, m) == None && Decide(s).queue != [] && OwnerOf(Decide(s), m) == Some(Decide(s).queue[0])
    ensures EntriesOf(Decide(s).waiting) == EntriesOf(s.waiting) || Grants(s)
    ensures Grants(s) ==> Judge(Settled(s), Settled(s).queue[0]) == Granted && Decide(s) == Resume(Settled(s))
    ensures Settled(s).waiting == s.waiting && MutexInv(Settled(s)) && QueueOk(Settled(s)) && |Settled(s).queue| > 0
    ensures forall m :: OwnerOf(Settled(s), m) == OwnerOf(s, m)
  {
    SettledKeeps(s);
    PrintKeepsMutexInv(s);
    var p, d := PrintThreadList(s), Settled(s);
    hide MutexInv, Settle, Judge, Rotate, OwnerOf, Resume;
    PrintDecides(s);
    assert forall t :: t in d.queue <==> t in multiset(d.queue);
    assert forall t :: t in p.queue <==> t in multiset(p.queue);
    MutexDepends(p, d);
    ResumeKeepsMutexInv(d);
    ResumeKeeps(d);
    SettledOwners(p, d);
    if !Grants(s) { NoGrantKeepsEntries(d); }
  }

  lemma SettledOwners(p: State, d: State)
    requires d.mutexes == p.mutexes
    ensures forall m :: OwnerOf(d, m) == OwnerOf(p, m)
  {
  }

  lemma PrintDecides(s: State)
    ensures PrintThreadList(s).deciding == s.deciding && PrintThreadList(s).queue == s.queue
    ensures PrintThreadList(s).waiting == s.waiting
  {
  }

  lemma NoGrantKeepsEntries(s: State)
    requires MutexInv(s) && QueueOk(s) && |s.queue| > 0 && Runnable(s, s.queue[0])
    requires Judge(s, s.queue[0]) != Granted
    ensures EntriesOf(Resume(s).waiting) == EntriesOf(s.waiting)
  {
    TakeoversUnreachable(s);
    if Judge(s, s.queue[0]) == Owns { NoEntryOf(s, s.queue[0]); }
  }

  /** Where the dispatch loop of a decision stops. */
  ghost function Settled(s: State): State
    requires Inv(s) && |s.queue| > 1 && SomeRunnable(s)
  {
    RotatedReady(s);
    Settle(Rotate(PrintThreadList(s)))
  }

  /** The decision hands a mutex to the thread it picks. */
  ghost predicate Grants(s: State)
    requires Inv(s) && |s.queue| > 1 && SomeRunnable(s)
  {
    var d := Settled(s);
    d.queue != [] && d.queue[0] in d.tcb && Judge(d, d.queue[0]) == Granted
  }
}
