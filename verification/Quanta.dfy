/** The threads' quanta: what each decision raises, and what they are after a run. */
module Quanta {
  import opened Options
  import opened Threads
  import opened Dispatch
  import opened ThreadRuns
  import opened Mutexes

  // ----- rotations -----

  /** How many of the first k rotations take thread t off the head. */
  ghost function Turns(s: State, k: nat, t: ThreadId): nat
    requires OrderInv(s) && |s.queue| > 0
    decreases k
  {
    if k == 0 then 0
    else
      RotateKeepsOrder(s);
      (if s.queue[0] == t then 1 else 0) + Turns(Rotate(s), k - 1, t)
  }

  /** A rotation raises the quantum of the thread that was the head, by 100, and
      changes nothing else of any thread. */
  lemma {:induction false} RotationsRaise(s: State, k: nat)
    requires OrderInv(s) && |s.queue| > 0
    ensures QuantaOnly(s, Rotations(s, k))
    ensures forall t | t in s.tcb :: Rotations(s, k).tcb[t].quantum == s.tcb[t].quantum + 100 * Turns(s, k, t)
    decreases k
  {
    hide OrderInv, Insert, QuantaOnly;
    if k == 0 {
      QuantaOnlyReflexive(s);
    } else {
      HeadIsThread(s);
      RotateKeepsOrder(s);
      RotateQuantaOnly(s);
      SameThreads(s, Rotate(s));
      RotationsRaise(Rotate(s), k - 1);
      QuantaOnlyTransitive(s, Rotate(s), Rotations(Rotate(s), k - 1));
    }
  }

  lemma HeadIsThread(s: State)
    requires OrderInv(s) && |s.queue| > 0
    ensures s.queue[0] in s.tcb
  {
  }

  lemma SameThreads(a: State, b: State)
    requires QuantaOnly(a, b)
    ensures a.tcb.Keys == b.tcb.Keys
  {
  }

  /** How often the dispatch loop rotates before it stops. */
  ghost function LoopTurns(s: State): nat
    requires OrderInv(s) && |s.queue| > 0 && SomeRunnable(s)
    decreases Bound(s)
  {
    if Runnable(s, s.queue[0]) then 0
    else
      RotateLowersBound(s);
      RotateKeepsOrder(s);
      1 + LoopTurns(Rotate(s))
  }

  /** The loop stops at the first rotation that brings a runnable thread to the head. */
  lemma {:induction false} LoopStops(s: State)
    requires OrderInv(s) && |s.queue| > 0 && SomeRunnable(s)
    ensures Settle(s) == Rotations(s, LoopTurns(s)) && StopsAfter(s, LoopTurns(s))
    ensures forall j: nat | j < LoopTurns(s) :: !StopsAfter(s, j)
    decreases Bound(s)
  {
    hide OrderInv, Runnable, Rotate, Bound;
    if !Runnable(s, s.queue[0]) {
      HeadIsThread(s);
      RotateLowersBound(s);
      RotateKeepsOrder(s);
      LoopStops(Rotate(s));
      forall j: nat | j < LoopTurns(s) ensures !StopsAfter(s, j) {
        if j > 0 { assert !StopsAfter(Rotate(s), j - 1); }
      }
    }
  }

  // ----- one decision -----

  /** How often a decision rotates the queue: once, and then in the loop. */
  ghost function DecisionTurns(s: State): nat
    requires Inv(s) && |s.queue| > 1 && SomeRunnable(s)
  {
    RotatedReady(s);
    1 + LoopTurns(Rotate(PrintThreadList(s)))
  }

  /** The dispatch loop raises the quantum of the thread that it lets run, unless
      that thread owns the mutex that it names. */
  lemma ResumeRaises(s: State)
    requires |s.queue| > 0 && Runnable(s, s.queue[0])
    ensures s.queue[0] in s.tcb && s.queue[0] in Resume(s).tcb
    ensures var t := s.queue[0];
      Resume(s).tcb[t].quantum == s.tcb[t].quantum + if OwnsItsMutex(s, t) then 0 else 100
  {
    hide FindNext, DropEntryOf;
  }

  /** A decision with two or more queued threads: the queue is rotated until the
      head can run, at least once; each rotation raises the thread that it turns
      by 100, and the thread picked is raised by 100 once more, unless it owns the
      mutex that it names. */
  lemma DecideRaises(s: State)
    requires Inv(s) && Allowed(s, Schedule) && |s.queue| > 1
    ensures var p, k, u := PrintThreadList(s), DecisionTurns(s), Decide(s);
      && OrderInv(p) && |p.queue| > 0 && k >= 1 && StopsAfter(p, k) && (forall j: nat | 1 <= j < k :: !StopsAfter(p, j))
      && u.queue == Rotations(p, k).queue && u.tcb.Keys == s.tcb.Keys
      && forall t | t in s.tcb ::
           u.tcb[t].quantum
             == s.tcb[t].quantum + 100 * (Turns(p, k, t) + if t == u.queue[0] && !OwnsItsMutex(s, t) then 1 else 0)
  {
    hide OrderInv, Insert, Resume, Runnable, QuantaOnly, Judge;
    SettledKeeps(s);
    PrintKeeps(s);
    var p, k, u := PrintThreadList(s), DecisionTurns(s), Decide(s);
    var d := Settle(Rotate(p));
    LoopStops(Rotate(p));
    assert d == Rotations(p, k);
    forall j: nat | 1 <= j < k ensures !StopsAfter(p, j) { assert !StopsAfter(Rotate(p), j - 1); }
    RotationsRaise(p, k);
    SameThreads(p, d);
    ResumeFrame(d);
    ResumeRaises(d);
    SameOwnership(s, d, d.queue[0]);
  }

  lemma SameOwnership(s: State, d: State, t: ThreadId)
    requires QuantaOnly(PrintThreadList(s), d)
    ensures OwnsItsMutex(d, t) <==> OwnsItsMutex(s, t)
  {
    if t in s.tcb { assert d.tcb[t] == s.tcb[t].(quantum := d.tcb[t].quantum); }
  }

  /** A thread that is alone is raised by 100 and runs; nothing else changes. */
  lemma LoneRaises(s: State)
    requires Inv(s) && Allowed(s, Schedule) && |s.queue| == 1
    ensures var t := s.queue[0];
      && t in s.tcb
      && Decide(s) == s.(deciding := false, tcb := s.tcb[t := s.tcb[t].(quantum := s.tcb[t].quantum + 100)])
  {
  }

  // ----- the sum over the queue -----

  function Sum(tcb: map<ThreadId, Tcb>, queue: seq<ThreadId>): int {
    if queue == [] then 0 else Quantum(tcb, queue[0]) + Sum(tcb, queue[1..])
  }

  lemma {:induction false} SumConcat(tcb: map<ThreadId, Tcb>, a: seq<ThreadId>, b: seq<ThreadId>)
    ensures Sum(tcb, a + b) == Sum(tcb, a) + Sum(tcb, b)
  {
    if a == [] {
      assert a + b == b;
    } else {
      assert (a + b)[1..] == a[1..] + b;
      SumConcat(tcb, a[1..], b);
    }
  }

  lemma {:induction false} SumFrame(a: map<ThreadId, Tcb>, b: map<ThreadId, Tcb>, queue: seq<ThreadId>)
    requires forall i | 0 <= i < |queue| :: Quantum(b, queue[i]) == Quantum(a, queue[i])
    ensures Sum(b, queue) == Sum(a, queue)
  {
    if queue != [] {
      forall i | 0 <= i < |queue[1..]| ensures Quantum(b, queue[1..][i]) == Quantum(a, queue[1..][i]) {
        assert queue[1..][i] == queue[i + 1];
      }
      SumFrame(a, b, queue[1..]);
    }
  }

  /** One thread of the queue has another quantum. */
  lemma SumOneMore(a: map<ThreadId, Tcb>, b: map<ThreadId, Tcb>, queue: seq<ThreadId>, raise: int)
    requires queue != [] && Quantum(b, queue[0]) == Quantum(a, queue[0]) + raise
    requires forall i | 1 <= i < |queue| :: Quantum(b, queue[i]) == Quantum(a, queue[i])
    ensures Sum(b, queue) == Sum(a, queue) + raise
  {
    hide Quantum;
    SumFrame(a, b, queue[1..]);
  }

  lemma RotateSum(s: State)
    requires OrderInv(s) && |s.queue| > 0
    ensures Sum(Rotate(s).tcb, Rotate(s).queue) == Sum(s.tcb, s.queue) + 100
  {
    hide Insert, Place;
    var h, rest := s.queue[0], s.queue[1..];
    var b := Bump(s, h);
    SumOneMore(s.tcb, b.tcb, s.queue, 100);
    hide Sum, Sorted, Quantum;
    BumpedOrder(s);
    InsertAt(b.tcb, rest, h);
    var p := Place(b.tcb, rest, h);
    assert s.queue == [h] + (rest[..p] + rest[p..]);
    SumConcat(b.tcb, [h], rest[..p] + rest[p..]);
    SumConcat(b.tcb, rest[..p], rest[p..]);
    SumConcat(b.tcb, rest[..p] + [h], rest[p..]);
    SumConcat(b.tcb, rest[..p], [h]);
  }

  lemma BumpedOrder(s: State)
    requires OrderInv(s) && |s.queue| > 0
    ensures Sorted(Bump(s, s.queue[0]).tcb, s.queue[1..])
  {
  }

  lemma {:induction false} RotationsSum(s: State, k: nat)
    requires OrderInv(s) && |s.queue| > 0
    ensures Sum(Rotations(s, k).tcb, Rotations(s, k).queue) == Sum(s.tcb, s.queue) + 100 * k
    decreases k
  {
    hide OrderInv, Rotate, Sum;
    if k > 0 {
      HeadIsThread(s);
      RotateKeepsOrder(s);
      RotateSum(s);
      RotationsSum(Rotate(s), k - 1);
    }
  }

  /** Over a decision the sum of the queued threads' quanta grows by 100 for each
      rotation, and by 100 for the thread that is picked, unless it owns the mutex
      that it names; or by 100 when one thread is queued. */
  lemma DecideSum(s: State)
    requires Inv(s) && Allowed(s, Schedule)
    ensures Decide(s).queue != []
    ensures Sum(Decide(s).tcb, Decide(s).queue)
            == Sum(s.tcb, s.queue)
               + if |s.queue| == 1 then 100
                 else 100 * (DecisionTurns(s) + if OwnsItsMutex(s, Decide(s).queue[0]) then 0 else 1)
  {
    hide OrderInv, Insert, Resume, Runnable, Judge, Sum, QuantaOnly, Rotate;
    if |s.queue| == 1 {
      LoneRaises(s);
      SumOneMore(s.tcb, Decide(s).tcb, s.queue, 100);
    } else {
      SettledKeeps(s);
      PrintKeeps(s);
      var p, k := PrintThreadList(s), DecisionTurns(s);
      var d := Settle(Rotate(p));
      LoopStops(Rotate(p));
      assert d == Rotations(p, k);
      RotationsSum(p, k);
      RotationsRaise(p, k);
      ResumeFrame(d);
      ResumeRaises(d);
      SameOwnership(s, d, d.queue[0]);
      ApartFromHead(d);
      PickedIsRunnable(d);
      SumOneMore(d.tcb, Resume(d).tcb, d.queue, if OwnsItsMutex(d, d.queue[0]) then 0 else 100);
    }
  }

  lemma PickedIsRunnable(s: State)
    requires |s.queue| > 0 && Runnable(s, s.queue[0])
    ensures s.queue[0] in s.tcb && Judge(s, s.queue[0]) != Blocked
  {
  }

  lemma ApartFromHead(s: State)
    requires OrderInv(s)
    ensures forall i | 1 <= i < |s.queue| :: s.queue[i] != s.queue[0] && s.queue[i] in s.tcb
  {
  }

  // ----- over runs -----

  /** How often a step raises thread t. */
  ghost function RaisesIn(s: State, op: Op, t: ThreadId): nat
    requires Inv(s) && Allowed(s, op)
  {
    if !op.Schedule? then 0
    else if |s.queue| == 1 then (if s.queue[0] == t then 1 else 0)
    else
      PrintKeeps(s);
      Turns(PrintThreadList(s), DecisionTurns(s), t)
      + if Decide(s).queue != [] && t == Decide(s).queue[0] && !OwnsItsMutex(s, t) then 1 else 0
  }

  ghost function Raises(s: State, ops: seq<Op>, t: ThreadId): nat
    requires Inv(s) && AllAllowed(s, ops)
    decreases |ops|
  {
    if ops == [] then 0
    else
      ApplyKeepsInv(s, ops[0]);
      RaisesIn(s, ops[0], t) + Raises(Apply(s, ops[0]), ops[1..], t)
  }

  /** A step raises the threads there are as counted, and gives a new thread 500. */
  lemma StepRaises(s: State, op: Op, t: ThreadId)
    requires Inv(s) && Allowed(s, op) && t in Apply(s, op).tcb
    ensures if t in s.tcb then Apply(s, op).tcb[t].quantum == s.tcb[t].quantum + 100 * RaisesIn(s, op, t)
            else Apply(s, op).tcb[t].quantum == 500 && RaisesIn(s, op, t) == 0
  {
    hide OrderInv, Insert, FirstJoiner, ExitOf, Decide, Turns, OwnsItsMutex, PrintThreadList, SomeRunnable;
    if s.queue != [] { HeadIsThread(s); }
    match op
    case Schedule =>
      if |s.queue| == 1 { LoneRaises(s); } else { DecideRaises(s); }
    case DoJoin(target, location) => JoinKeeps(s, target, location);
    case _ =>
  }

  lemma {:induction false} RunRaises(s: State, ops: seq<Op>, t: ThreadId)
    requires Inv(s) && AllAllowed(s, ops) && t in Run(s, ops).tcb
    ensures Run(s, ops).tcb[t].quantum
            == (if t in s.tcb then s.tcb[t].quantum else 500) + 100 * Raises(s, ops, t)
    decreases |ops|
  {
    hide Inv, Allowed, Apply, RaisesIn;
    if ops != [] {
      ApplyKeepsInv(s, ops[0]);
      var u := Apply(s, ops[0]);
      RunRaises(u, ops[1..], t);
      if t in u.tcb { StepRaises(s, ops[0], t); } else { NotYet(s, ops[0], t); }
    }
  }

  /** A thread that there is not yet is not raised. */
  lemma NotYet(s: State, op: Op, t: ThreadId)
    requires Inv(s) && Allowed(s, op) && t !in Apply(s, op).tcb
    ensures t !in s.tcb && RaisesIn(s, op, t) == 0
  {
    hide OrderInv, Insert, FirstJoiner, ExitOf, Decide, Turns, OwnsItsMutex, PrintThreadList, SomeRunnable;
    if s.queue != [] { HeadIsThread(s); }
    match op
    case Schedule =>
      DecideKeeps(s);
      AllThreads(s);
      if |s.queue| > 1 {
        PrintKeeps(s);
        DecideRaises(s);
        OthersTakeNoTurn(PrintThreadList(s), DecisionTurns(s), t);
        AllThreads(Decide(s));
      }
    case DoJoin(target, location) => JoinKeeps(s, target, location);
    case _ =>
  }

  lemma AllThreads(s: State)
    requires OrderInv(s)
    ensures forall t | t in s.queue :: t in s.tcb
  {
  }

  lemma {:induction false} OthersTakeNoTurn(s: State, k: nat, t: ThreadId)
    requires OrderInv(s) && |s.queue| > 0 && t !in s.queue
    ensures Turns(s, k, t) == 0
    decreases k
  {
    hide OrderInv, Rotate;
    if k > 0 {
      HeadIsThread(s);
      RotateKeepsOrder(s);
      OthersTakeNoTurn(Rotate(s), k - 1, t);
    }
  }

  /** Over every run from the start, a thread's quantum is 500 and 100 for every
      time that it was rotated or picked. */
  lemma RunsCountQuanta(ops: seq<Op>, t: ThreadId)
    requires Inv(START) && AllAllowed(START, ops) && t in Run(START, ops).tcb
    ensures Run(START, ops).tcb[t].quantum == 500 + 100 * Raises(START, ops, t)
  {
    RunRaises(START, ops, t);
  }
}
