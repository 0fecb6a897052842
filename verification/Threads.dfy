/** The thread library as a state machine: creation, preemption, mutexes, joins
    and exits by the running thread, and the scheduling decisions of PSJF.

    A thread control block is never freed and ids are never reused, so a thread
    stands for its node in the run queue. */
module Threads {
  import opened Options
  import opened Sequences

  const INITIAL_QUANTUM: int := 500
  const QUANTUM_INCREMENT: int := 100
  const MAIN_ID: int := 3

  type ThreadId = int
  type MutexId = int
  type Value = int

  /** Where a joiner wants an exit value: outside the page slots, as in a global
      variable or on the main stack, or at an address in them. */
  datatype Location = Unpaged(at: int) | Paged(addr: nat)

  datatype Tcb = Tcb(quantum: int, mutex: Option<MutexId>, waitingToEnd: Option<ThreadId>,
                     joinReturnLocation: Option<Location>)

  datatype Mutex = Mutex(owner: Option<ThreadId>, flag: bool)

  /** A copy of a waiting thread's control block, as far as it is looked at. */
  datatype Entry = Entry(thread: ThreadId, mutex: MutexId)

  /** The mutex queue: the node that `mypthread_mutex_init` leaves there, whose
      control block is null, or a list of entries; the null pointer is the empty
      list. */
  datatype MutexQueue = Placeholder | Entries(entries: seq<Entry>)

  datatype ExitValue = ExitValue(thread: ThreadId, value: Value)

  datatype State = State(
    queue: seq<ThreadId>,               // the run queue, its head running
    tcb: map<ThreadId, Tcb>,
    mutexes: map<MutexId, Mutex>,
    firstMutex: Option<MutexId>,        // the head of the list of mutexes
    waiting: MutexQueue,
    exits: seq<ExitValue>,
    memory: map<int, Value>,            // exit values stored outside the page slots
    lastId: int,                        // globalThreadIncrement
    deciding: bool)                     // the scheduler is about to run

  const START: State := State([], map[], map[], None, Entries([]), [], map[], 1, false)

  // ----- the run queue -----

  ghost predicate QueueOk(s: State) {
    && (forall i, j | 0 <= i < j < |s.queue| :: s.queue[i] != s.queue[j])
    && (forall i | 0 <= i < |s.queue| :: s.queue[i] in s.tcb)
  }

  function Quantum(tcb: map<ThreadId, Tcb>, t: ThreadId): int {
    if t in tcb then tcb[t].quantum else 0
  }

  /** Before the first element with a larger quantum. */
  function InsertSorted(tcb: map<ThreadId, Tcb>, queue: seq<ThreadId>, t: ThreadId): (r: seq<ThreadId>)
    ensures |r| == |queue| + 1
  {
    if queue == [] || Quantum(tcb, t) < Quantum(tcb, queue[0]) then [t] + queue
    else [queue[0]] + InsertSorted(tcb, queue[1..], t)
  }

  /** `llNodeInsertSortedByQuantum`: a thread whose quantum is no larger than the
      head's goes in second place. */
  function Insert(tcb: map<ThreadId, Tcb>, queue: seq<ThreadId>, t: ThreadId): (r: seq<ThreadId>)
    ensures |r| == |queue| + 1
  {
    if queue == [] then [t]
    else if Quantum(tcb, t) <= Quantum(tcb, queue[0]) then [queue[0], t] + queue[1..]
    else InsertSorted(tcb, queue, t)
  }

  function Bump(s: State, t: ThreadId): State
    requires t in s.tcb
  {
    s.(tcb := s.tcb[t := s.tcb[t].(quantum := s.tcb[t].quantum + QUANTUM_INCREMENT)])
  }

  /** The head, its quantum raised, goes back into the queue. */
  function Rotate(s: State): State
    requires |s.queue| > 0 && s.queue[0] in s.tcb
  {
    var b := Bump(s, s.queue[0]);
    b.(queue := Insert(b.tcb, s.queue[1..], s.queue[0]))
  }

  // ----- the mutex queue -----

  /** Position of the first entry for mutex m, or the length. */
  function FirstFor(es: seq<Entry>, m: MutexId): (i: nat)
    ensures i <= |es|
    ensures i < |es| ==> es[i].mutex == m
    ensures forall j | 0 <= j < i :: es[j].mutex != m
  {
    FirstIndex(es, (e: Entry) => e.mutex == m)
  }

  /** Position of the first entry of thread t, or the length. */
  function FirstOf(es: seq<Entry>, t: ThreadId): (i: nat)
    ensures i <= |es|
    ensures i < |es| ==> es[i].thread == t
    ensures forall j | 0 <= j < i :: es[j].thread != t
  {
    FirstIndex(es, (e: Entry) => e.thread == t)
  }

  function DeleteAt(es: seq<Entry>, i: nat): seq<Entry> {
    if i < |es| then es[..i] + es[i + 1..] else es
  }

  function EntriesOf(q: MutexQueue): seq<Entry> {
    if q.Placeholder? then [] else q.entries
  }

  /** What `mqFindNext` says; Faults is the null control block of the
      placeholder node. */
  datatype Next = Faults | Empty | NoEntry | Thread(id: ThreadId)

  function FindNext(q: MutexQueue, m: MutexId): Next {
    if q.Placeholder? then Faults
    else if q.entries == [] then Empty
    else
      var i := FirstFor(q.entries, m);
      if i == |q.entries| then NoEntry else Thread(q.entries[i].thread)
  }

  /** Waiters for a mutex are appended to the one queue for all mutexes. */
  function Enqueue(q: MutexQueue, e: Entry): MutexQueue {
    Entries(EntriesOf(q) + [e])
  }

  // ----- a scheduling decision -----

  /** The thread list is printed when a decision starts and in a join; printing
      it sets the first mutex's flag if any queued thread has a mutex. */
  function PrintThreadList(s: State): State {
    if (exists i | 0 <= i < |s.queue| :: s.queue[i] in s.tcb && s.tcb[s.queue[i]].mutex.Some?)
       && s.firstMutex.Some? && s.firstMutex.value in s.mutexes
    then s.(mutexes := s.mutexes[s.firstMutex.value := s.mutexes[s.firstMutex.value].(flag := true)])
    else s
  }

  /** Does the dispatch loop let thread t run, or pass it over? */
  datatype Verdict = Free | Owns | TakesOver | Granted | TargetGone | Blocked

  function Judge(s: State, t: ThreadId): Verdict
    requires t in s.tcb
  {
    var b := s.tcb[t];
    if b.waitingToEnd.Some? then
      if b.waitingToEnd.value in s.queue then Blocked else TargetGone
    else if b.mutex.None? then Free
    else
      var m := b.mutex.value;
      var owner := if m in s.mutexes then s.mutexes[m].owner else None;
      if owner == Some(t) then Owns
      else if FindNext(s.waiting, m) == Empty then TakesOver
      else if owner == None && FindNext(s.waiting, m) == Thread(t) then Granted
      else Blocked
  }

  function Runnable(s: State, t: ThreadId): bool {
    t in s.queue && t in s.tcb && Judge(s, t) != Blocked
  }

  /** Gives mutex m to thread t, as `mypthread_mutex_lock` does on a clear flag. */
  function Give(s: State, t: ThreadId, m: MutexId): State
    requires t in s.tcb
  {
    s.(mutexes := s.mutexes[m := Mutex(Some(t), true)], tcb := s.tcb[t := s.tcb[t].(mutex := Some(m))])
  }

  function DropEntryOf(q: MutexQueue, t: ThreadId): MutexQueue {
    if q.Placeholder? then q else Entries(DeleteAt(q.entries, FirstOf(q.entries, t)))
  }

  /** What the dispatch loop does with the head when it stops there. */
  function Resume(s: State): State
    requires |s.queue| > 0 && s.queue[0] in s.tcb && Judge(s, s.queue[0]) != Blocked
  {
    var t := s.queue[0];
    match Judge(s, t)
    case Free => Bump(s, t).(deciding := false)
    case Owns => s.(waiting := DropEntryOf(s.waiting, t), deciding := false)
    case TakesOver => Bump(Give(s, t, s.tcb[t].mutex.value), t).(deciding := false)
    case Granted =>
      Bump(Give(s.(waiting := DropEntryOf(s.waiting, t)), t, s.tcb[t].mutex.value), t).(deciding := false)
    case TargetGone =>
      Bump(s.(tcb := s.tcb[t := s.tcb[t].(waitingToEnd := None)]), t).(deciding := false)
  }

  // ----- the calls of the running thread -----

  function NewTcb(): Tcb {
    Tcb(INITIAL_QUANTUM, None, None, None)
  }

  /** `mypthread_create`; the first call also puts the main thread, with id 3,
      at the head of the queue. */
  function Create(s: State): State {
    if s.lastId == 1 then
      s.(queue := [MAIN_ID, 2], tcb := s.tcb[2 := NewTcb()][MAIN_ID := NewTcb()], lastId := MAIN_ID)
    else
      var id := s.lastId + 1;
      var tcb := s.tcb[id := NewTcb()];
      s.(queue := Insert(tcb, s.queue, id), tcb := tcb, lastId := id)
  }

  function InitMutex(s: State, m: MutexId): State {
    s.(mutexes := s.mutexes[m := Mutex(None, false)],
       firstMutex := if s.firstMutex.None? then Some(m) else s.firstMutex,
       waiting := if s.firstMutex.None? then Placeholder else s.waiting)
  }

  function Lock(s: State, m: MutexId): State
    requires |s.queue| > 0 && s.queue[0] in s.tcb && m in s.mutexes
  {
    var t := s.queue[0];
    var x := s.mutexes[m];
    if !x.flag then
      if x.owner.None? then Give(s, t, m)
      else s.(mutexes := s.mutexes[m := Mutex(Some(t), true)])
    else if x.owner == Some(t) then s
    else
      s.(tcb := s.tcb[t := s.tcb[t].(mutex := Some(m))],
         waiting := Enqueue(s.waiting, Entry(t, m)),
         deciding := true)
  }

  function Unlock(s: State, m: MutexId): State
    requires |s.queue| > 0 && s.queue[0] in s.tcb && m in s.mutexes
  {
    var t := s.queue[0];
    if !s.mutexes[m].flag || s.mutexes[m].owner != Some(t) then s
    else s.(mutexes := s.mutexes[m := Mutex(None, false)], tcb := s.tcb[t := s.tcb[t].(mutex := None)])
  }

  /** Position in the queue of the first thread that waits for thread w to end,
      or the length. */
  function FirstJoiner(queue: seq<ThreadId>, tcb: map<ThreadId, Tcb>, w: ThreadId): (i: nat)
    ensures i <= |queue|
    ensures i < |queue| ==> queue[i] in tcb && tcb[queue[i]].waitingToEnd == Some(w)
    ensures forall j | 0 <= j < i :: !(queue[j] in tcb && tcb[queue[j]].waitingToEnd == Some(w))
  {
    FirstIndex(queue, (t: ThreadId) => t in tcb && tcb[t].waitingToEnd == Some(w))
  }

  /** Position of the exit record of thread t, or the length. */
  function ExitOf(exits: seq<ExitValue>, t: ThreadId): (i: nat)
    ensures i <= |exits|
    ensures i < |exits| ==> exits[i].thread == t
    ensures forall j | 0 <= j < i :: exits[j].thread != t
  {
    FirstIndex(exits, (e: ExitValue) => e.thread == t)
  }

  datatype JoinResult = Returns(code: int) | Waits

  const ESRCH: int := 3
  const EINVAL: int := 22
  const EDEADLK: int := 35

  function JoinOutcome(s: State, target: ThreadId): JoinResult
    requires |s.queue| > 0 && s.queue[0] in s.tcb
  {
    var t := s.queue[0];
    if s.tcb[t].waitingToEnd.Some? || target == t then Returns(0)
    else if target > s.lastId then Returns(ESRCH)
    else if target !in s.queue then Returns(0)
    else
      var i := FirstJoiner(s.queue, s.tcb, target);
      if i == |s.queue| then Waits
      else if s.tcb[s.queue[i]].waitingToEnd == Some(t) then Returns(EDEADLK)
      else Returns(EINVAL)
  }

  /** A store of an exit value through a joiner's location. */
  datatype Delivery = Delivery(location: Location, value: Value)

  /** What a delivery does outside the page slots; one into the slots is a write
      to the page table. */
  function Stored(memory: map<int, Value>, d: Option<Delivery>): map<int, Value> {
    if d.Some? && d.value.location.Unpaged? then memory[d.value.location.at := d.value.value] else memory
  }

  /** What the join of a thread that has terminated delivers: the exit value, to
      the location that the caller gave in an earlier join. */
  function LateDelivery(s: State, target: ThreadId): Option<Delivery>
    requires |s.queue| > 0 && s.queue[0] in s.tcb
  {
    var t, x := s.queue[0], ExitOf(s.exits, target);
    if s.tcb[t].waitingToEnd.None? && target != t && target <= s.lastId && target !in s.queue
       && s.tcb[t].joinReturnLocation.Some? && x < |s.exits|
    then Some(Delivery(s.tcb[t].joinReturnLocation.value, s.exits[x].value))
    else None
  }

  /** `mypthread_join`. */
  function Join(s: State, target: ThreadId, location: Option<Location>): State
    requires |s.queue| > 0 && s.queue[0] in s.tcb
  {
    var t := s.queue[0];
    if s.tcb[t].waitingToEnd.Some? || target == t || target > s.lastId then s
    else
      var p := PrintThreadList(s);
      if target !in s.queue then p.(memory := Stored(s.memory, LateDelivery(s, target)))
      else if FirstJoiner(s.queue, s.tcb, target) < |s.queue| then p
      else p.(tcb := s.tcb[t := s.tcb[t].(waitingToEnd := Some(target), joinReturnLocation := location)],
              deciding := true)
  }

  /** What an exit delivers: its value, to the first thread that waits for it, if
      that wants it. */
  function ExitDelivery(s: State, value: Value): Option<Delivery>
    requires |s.queue| > 0
  {
    var i := FirstJoiner(s.queue, s.tcb, s.queue[0]);
    if i < |s.queue| && s.tcb[s.queue[i]].joinReturnLocation.Some?
    then Some(Delivery(s.tcb[s.queue[i]].joinReturnLocation.value, value))
    else None
  }

  /** `mypthread_exit`: records the value, hands it to the first thread that
      waits for this one, and takes the head off the queue. */
  function Exit(s: State, value: Value): State
    requires |s.queue| > 0
  {
    var t := s.queue[0];
    var i := FirstJoiner(s.queue, s.tcb, t);
    var d := s.(exits := s.exits + [ExitValue(t, value)], queue := s.queue[1..], deciding := true);
    if i == |s.queue| then d
    else
      var j := s.queue[i];
      d.(tcb := s.tcb[j := s.tcb[j].(waitingToEnd := None)], memory := Stored(s.memory, ExitDelivery(s, value)))
  }

  datatype Op =
    | DoCreate
    | DoInit(mutex: MutexId)
    | DoLock(mutex: MutexId)
    | DoUnlock(mutex: MutexId)
    | DoJoin(target: ThreadId, location: Option<Location>)
    | DoExit(value: Value)
    | Preempt
    | Schedule
}
