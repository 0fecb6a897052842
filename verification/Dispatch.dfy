/** The PSJF run queue: its order, and why the dispatch loop and the fairness
    bound hold. */
module Dispatch {
  import opened Options
  import opened Threads

  // ----- where a thread goes -----

  /** The position at which a thread is put into the queue `rest`. */
  function PlaceSorted(tcb: map<ThreadId, Tcb>, rest: seq<ThreadId>, t: ThreadId): (p: nat)
    ensures p <= |rest|
  {
    if rest == [] || Quantum(tcb, t) < Quantum(tcb, rest[0]) then 0
    else 1 + PlaceSorted(tcb, rest[1..], t)
  }

  function Place(tcb: map<ThreadId, Tcb>, rest: seq<ThreadId>, t: ThreadId): (p: nat)
    ensures p <= |rest|
  {
    if rest == [] then 0
    else if Quantum(tcb, t) <= Quantum(tcb, rest[0]) then 1
    else PlaceSorted(tcb, rest, t)
  }

  lemma {:induction false} InsertSortedAt(tcb: map<ThreadId, Tcb>, rest: seq<ThreadId>, t: ThreadId)
    ensures var p := PlaceSorted(tcb, rest, t);
      && InsertSorted(tcb, rest, t) == rest[..p] + [t] + rest[p..]
      && (forall i | 0 <= i < p :: Quantum(tcb, rest[i]) <= Quantum(tcb, t))
      && (p < |rest| ==> Quantum(tcb, t) < Quantum(tcb, rest[p]))
  {
    if rest != [] && Quantum(tcb, t) >= Quantum(tcb, rest[0]) {
      InsertSortedAt(tcb, rest[1..], t);
      var p := PlaceSorted(tcb, rest[1..], t);
      assert rest[..1 + p] == [rest[0]] + rest[1..][..p];
      assert rest[1 + p..] == rest[1..][p..];
      forall i | 0 <= i < 1 + p ensures Quantum(tcb, rest[i]) <= Quantum(tcb, t) {
        if i > 0 { assert rest[i] == rest[1..][i - 1]; }
      }
    }
  }

  /** Nondecreasing in quantum. */
  ghost predicate Sorted(tcb: map<ThreadId, Tcb>, queue: seq<ThreadId>) {
    forall i, j | 0 <= i < j < |queue| :: Quantum(tcb, queue[i]) <= Quantum(tcb, queue[j])
  }

  /** Inserting into a sorted queue: what goes before is no larger unless it is
      the head, and what goes after is no smaller. */
  lemma InsertAt(tcb: map<ThreadId, Tcb>, rest: seq<ThreadId>, t: ThreadId)
    requires Sorted(tcb, rest)
    ensures var p := Place(tcb, rest, t);
      && Insert(tcb, rest, t) == rest[..p] + [t] + rest[p..]
      && (rest != [] ==> p >= 1)
      && (forall i | 1 <= i < p :: Quantum(tcb, rest[i]) <= Quantum(tcb, t))
      && (forall i | p <= i < |rest| :: Quantum(tcb, t) <= Quantum(tcb, rest[i]))
  {
    if rest != [] {
      InsertSortedAt(tcb, rest, t);
      var p := Place(tcb, rest, t);
      assert p == 1 ==> rest[..1] == [rest[0]];
      if Quantum(tcb, t) > Quantum(tcb, rest[0]) {
        assert p >= 1;
      }
    }
  }

  // ----- the order invariant -----

  /** Every quantum is at least the initial one, and the queue after its head is
      nondecreasing in quantum. */
  ghost predicate OrderInv(s: State) {
    && QueueOk(s)
    && (forall i | 0 <= i < |s.queue| :: Quantum(s.tcb, s.queue[i]) >= INITIAL_QUANTUM)
    && (s.queue != [] ==> Sorted(s.tcb, s.queue[1..]))
  }

  /** Position of a thread in the queue, or the length. */
  function Index(queue: seq<ThreadId>, t: ThreadId): (i: nat)
    ensures i <= |queue|
    ensures i < |queue| <==> t in queue
    ensures i < |queue| ==> queue[i] == t
  {
    if queue == [] || queue[0] == t then 0 else 1 + Index(queue[1..], t)
  }

  lemma InsertKeepsOrder(tcb: map<ThreadId, Tcb>, rest: seq<ThreadId>, t: ThreadId)
    requires Sorted(tcb, rest)
    ensures Insert(tcb, rest, t) != [] && Sorted(tcb, Insert(tcb, rest, t)[1..])
  {
    hide Insert, Place;
    InsertAt(tcb, rest, t);
    var p, r := Place(tcb, rest, t), Insert(tcb, rest, t);
    if rest == [] {
      assert r == [t];
    } else {
      var tail := r[1..];
      assert tail == rest[1..p] + [t] + rest[p..];
      forall i, j | 0 <= i < j < |tail| ensures Quantum(tcb, tail[i]) <= Quantum(tcb, tail[j]) {
        assert i < p - 1 ==> tail[i] == rest[i + 1];
        assert j < p - 1 ==> tail[j] == rest[j + 1];
        assert i > p - 1 ==> tail[i] == rest[i];
        assert j > p - 1 ==> tail[j] == rest[j];
      }
    }
  }

  lemma InsertMembers(tcb: map<ThreadId, Tcb>, rest: seq<ThreadId>, t: ThreadId)
    requires Sorted(tcb, rest)
    ensures multiset(Insert(tcb, rest, t)) == multiset(rest) + multiset{t}
    ensures forall x :: x in Insert(tcb, rest, t) <==> x in rest || x == t
  {
    hide Insert, Place, Sorted;
    InsertAt(tcb, rest, t);
    var p := Place(tcb, rest, t);
    assert rest == rest[..p] + rest[p..];
  }

  lemma InsertDistinct(tcb: map<ThreadId, Tcb>, rest: seq<ThreadId>, t: ThreadId)
    requires Sorted(tcb, rest) && t !in rest
    requires forall i, j | 0 <= i < j < |rest| :: rest[i] != rest[j]
    ensures forall i, j | 0 <= i < j < |Insert(tcb, rest, t)| :: Insert(tcb, rest, t)[i] != Insert(tcb, rest, t)[j]
  {
    InsertAt(tcb, rest, t);
    var p, r := Place(tcb, rest, t), Insert(tcb, rest, t);
    forall i, j | 0 <= i < j < |r| ensures r[i] != r[j] {
      assert i < p ==> r[i] == rest[i];
      assert j < p ==> r[j] == rest[j];
      assert i > p ==> r[i] == rest[i - 1];
      assert j > p ==> r[j] == rest[j - 1];
    }
  }

  /** A rotation keeps the order, and permutes the queue. */
  lemma RotateKeepsOrder(s: State)
    requires OrderInv(s) && |s.queue| > 0
    ensures OrderInv(Rotate(s)) && multiset(Rotate(s).queue) == multiset(s.queue)
    ensures forall t :: t in Rotate(s).queue <==> t in s.queue
  {
    var h, rest := s.queue[0], s.queue[1..];
    var b := Bump(s, h);
    var r := Rotate(s);
    assert s.queue == [h] + rest;
    assert Sorted(b.tcb, rest);
    InsertKeepsOrder(b.tcb, rest, h);
    InsertMembers(b.tcb, rest, h);
    InsertDistinct(b.tcb, rest, h);
    forall i | 0 <= i < |r.queue| ensures r.queue[i] in r.tcb && Quantum(r.tcb, r.queue[i]) >= INITIAL_QUANTUM {
      assert r.queue[i] in r.queue;
      if r.queue[i] != h {
        var j := Index(rest, r.queue[i]);
        assert rest[j] == s.queue[j + 1];
      }
    }
  }

  /** Rotations change no thread's chances: who is runnable stays the same. */
  lemma RotateKeepsVerdicts(s: State)
    requires OrderInv(s) && |s.queue| > 0
    ensures forall t :: Runnable(Rotate(s), t) == Runnable(s, t)
  {
    RotateKeepsOrder(s);
    hide Insert, OrderInv;
    forall t ensures Runnable(Rotate(s), t) == Runnable(s, t) {
      if t in s.tcb { JudgeDepends(Rotate(s), s, t); }
    }
  }

  /** A verdict depends on the thread's own waits, on who is queued and on the
      mutexes, not on the order of the queue or on quanta. */
  lemma JudgeDepends(a: State, b: State, t: ThreadId)
    requires t in a.tcb && t in b.tcb
    requires a.tcb[t].mutex == b.tcb[t].mutex && a.tcb[t].waitingToEnd == b.tcb[t].waitingToEnd
    requires a.waiting == b.waiting
    requires forall m | m in a.mutexes || m in b.mutexes ::
               m in a.mutexes && m in b.mutexes && a.mutexes[m].owner == b.mutexes[m].owner
    requires forall x :: x in a.queue <==> x in b.queue
    ensures Judge(a, t) == Judge(b, t)
  {
    var x := a.tcb[t];
    if x.waitingToEnd.Some? {
      var w: ThreadId := x.waitingToEnd.value;
      assert w in a.queue <==> w in b.queue;
    } else if x.mutex.Some? {
      var m := x.mutex.value;
      assert (if m in a.mutexes then a.mutexes[m].owner else None) ==
             (if m in b.mutexes then b.mutexes[m].owner else None);
      assert Judge(a, t) == Judge(b, t);
    }
  }

  // ----- the potential -----

  /** How often a thread of quantum q can still be put before one of quantum Q. */
  function Deficit(Q: int, q: int): nat {
    if q > Q then 0 else (Q - q) / QUANTUM_INCREMENT + 1
  }

  /** The deficits of all queued threads but r. */
  function Pressure(tcb: map<ThreadId, Tcb>, queue: seq<ThreadId>, Q: int, r: ThreadId): nat {
    if queue == [] then 0
    else (if queue[0] == r then 0 else Deficit(Q, Quantum(tcb, queue[0]))) + Pressure(tcb, queue[1..], Q, r)
  }

  /** How many more rotations thread r can be kept from the head. */
  function Potential(s: State, r: ThreadId): nat {
    Index(s.queue, r) + Pressure(s.tcb, s.queue, Quantum(s.tcb, r), r)
  }

  lemma {:induction false} PressureConcat(tcb: map<ThreadId, Tcb>, a: seq<ThreadId>, b: seq<ThreadId>, Q: int,
                                          r: ThreadId)
    ensures Pressure(tcb, a + b, Q, r) == Pressure(tcb, a, Q, r) + Pressure(tcb, b, Q, r)
  {
    if a == [] {
      assert a + b == b;
    } else {
      assert (a + b)[1..] == a[1..] + b;
      PressureConcat(tcb, a[1..], b, Q, r);
    }
  }

  lemma {:induction false} PressureFrame(a: map<ThreadId, Tcb>, b: map<ThreadId, Tcb>, queue: seq<ThreadId>, Q: int,
                                         r: ThreadId)
    requires forall i | 0 <= i < |queue| && queue[i] != r :: Quantum(b, queue[i]) >= Quantum(a, queue[i])
    ensures Pressure(b, queue, Q, r) <= Pressure(a, queue, Q, r)
  {
    if queue != [] {
      forall i | 0 <= i < |queue[1..]| && queue[1..][i] != r
        ensures Quantum(b, queue[1..][i]) >= Quantum(a, queue[1..][i])
      {
        assert queue[1..][i] == queue[i + 1];
      }
      PressureFrame(a, b, queue[1..], Q, r);
    }
  }

  lemma {:induction false} IndexConcat(a: seq<ThreadId>, b: seq<ThreadId>, r: ThreadId)
    ensures Index(a + b, r) == if r in a then Index(a, r) else |a| + Index(b, r)
  {
    if a == [] {
      assert a + b == b;
    } else {
      assert (a + b)[1..] == a[1..] + b;
      IndexConcat(a[1..], b, r);
    }
  }

  lemma IndexAfterInsert(rest: seq<ThreadId>, t: ThreadId, r: ThreadId, p: nat)
    requires p <= |rest| && r in rest && r != t
    ensures Index(rest[..p] + [t] + rest[p..], r) == Index(rest, r) + if p <= Index(rest, r) then 1 else 0
  {
    hide Index;
    assert rest == rest[..p] + rest[p..];
    IndexConcat(rest[..p], rest[p..], r);
    IndexConcat(rest[..p] + [t], rest[p..], r);
    IndexConcat(rest[..p], [t], r);
  }

  lemma PressureAfterInsert(tcb: map<ThreadId, Tcb>, rest: seq<ThreadId>, t: ThreadId, Q: int, r: ThreadId)
    requires Sorted(tcb, rest) && t != r
    ensures Pressure(tcb, Insert(tcb, rest, t), Q, r) == Pressure(tcb, rest, Q, r) + Deficit(Q, Quantum(tcb, t))
  {
    InsertAt(tcb, rest, t);
    hide Insert, Place, Sorted, Pressure;
    var p := Place(tcb, rest, t);
    assert rest == rest[..p] + rest[p..];
    PressureConcat(tcb, rest[..p], rest[p..], Q, r);
    PressureConcat(tcb, rest[..p] + [t], rest[p..], Q, r);
    PressureConcat(tcb, rest[..p], [t], Q, r);
    PressureOne(tcb, t, Q, r);
  }

  lemma PressureOne(tcb: map<ThreadId, Tcb>, t: ThreadId, Q: int, r: ThreadId)
    ensures Pressure(tcb, [t], Q, r) == if t == r then 0 else Deficit(Q, Quantum(tcb, t))
  {
    assert [t][1..] == [];
  }

  lemma DeficitDrops(Q: int, q: int)
    ensures Deficit(Q, q + QUANTUM_INCREMENT) <= Deficit(Q, q)
    ensures q + QUANTUM_INCREMENT <= Q ==> Deficit(Q, q + QUANTUM_INCREMENT) < Deficit(Q, q)
  {
  }

  /** The heart of it: a thread h whose quantum has just been raised goes either
      behind r, or before it with one increment less to spare. */
  lemma InsertLowers(tcb0: map<ThreadId, Tcb>, tcb: map<ThreadId, Tcb>, rest: seq<ThreadId>, h: ThreadId, r: ThreadId)
    requires Sorted(tcb, rest) && r in rest && h != r
    requires Quantum(tcb, h) == Quantum(tcb0, h) + QUANTUM_INCREMENT
    requires forall i | 0 <= i < |rest| :: Quantum(tcb, rest[i]) == Quantum(tcb0, rest[i])
    ensures var Q, q := Quantum(tcb, r), Insert(tcb, rest, h);
      Index(q, r) + Pressure(tcb, q, Q, r) <= Index(rest, r) + Deficit(Q, Quantum(tcb0, h)) + Pressure(tcb0, rest, Q, r)
  {
    hide Insert, Place, Pressure, Deficit, Sorted, Index, Quantum;
    var p, Q := Place(tcb, rest, h), Quantum(tcb, r);
    InsertAt(tcb, rest, h);
    IndexAfterInsert(rest, h, r, p);
    PressureAfterInsert(tcb, rest, h, Q, r);
    PressureFrame(tcb0, tcb, rest, Q, r);
    DeficitDrops(Q, Quantum(tcb0, h));
    if p <= Index(rest, r) {
      assert rest[Index(rest, r)] == r;
      assert Quantum(tcb, h) <= Q;
    }
  }

  /** Every rotation of a head other than r lowers r's potential. */
  lemma RotateLowersPotential(s: State, r: ThreadId)
    requires OrderInv(s) && r in s.queue && s.queue[0] != r
    ensures Potential(Rotate(s), r) < Potential(s, r)
  {
    hide Insert, Pressure, Deficit;
    var h, rest := s.queue[0], s.queue[1..];
    var b := Bump(s, h);
    var Q := Quantum(s.tcb, r);
    assert s.queue == [h] + rest;
    InsertLowers(s.tcb, b.tcb, rest, h, r);
    PressureConcat(s.tcb, [h], rest, Q, r);
    PressureOne(s.tcb, h, Q, r);
    assert Index(s.queue, r) == 1 + Index(rest, r);
  }

  // ----- the dispatch loop -----

  ghost function Runnables(s: State): set<ThreadId> {
    set t | t in s.queue && Runnable(s, t)
  }

  ghost function Pick(ts: set<ThreadId>): ThreadId
    requires exists t :: t in ts
  {
    var t :| t in ts; t
  }

  ghost predicate SomeRunnable(s: State) {
    exists t :: Runnable(s, t)
  }

  /** A bound on the rotations left, for the runnable thread that is picked. */
  ghost function Bound(s: State): nat {
    if exists t :: t in Runnables(s) then Potential(s, Pick(Runnables(s))) else 0
  }

  lemma RotateLowersBound(s: State)
    requires OrderInv(s) && |s.queue| > 0 && SomeRunnable(s) && !Runnable(s, s.queue[0])
    ensures Bound(Rotate(s)) < Bound(s) && SomeRunnable(Rotate(s))
  {
    hide Judge, Rotate, Pressure;
    var t :| Runnable(s, t);
    assert t in Runnables(s);
    RotateKeepsVerdicts(s);
    RotateKeepsOrder(s);
    assert Runnables(Rotate(s)) == Runnables(s);
    var r := Pick(Runnables(s));
    RotateLowersPotential(s, r);
    assert Runnable(Rotate(s), t);
  }

  /** The loop: rotates until the head may run. */
  ghost function Settle(s: State): (r: State)
    requires OrderInv(s) && |s.queue| > 0 && SomeRunnable(s)
    ensures OrderInv(r) && |r.queue| > 0 && Runnable(r, r.queue[0])
    ensures multiset(r.queue) == multiset(s.queue)
    decreases Bound(s)
  {
    if Runnable(s, s.queue[0]) then s
    else
      RotateLowersBound(s);
      RotateKeepsOrder(s);
      Settle(Rotate(s))
  }

  /** k rotations. */
  ghost function Rotations(s: State, k: nat): (r: State)
    requires OrderInv(s) && |s.queue| > 0
    ensures OrderInv(r) && |r.queue| > 0
    decreases k
  {
    if k == 0 then s
    else
      RotateKeepsOrder(s);
      Rotations(Rotate(s), k - 1)
  }

  /** The dispatch loop comes to an end exactly when some queued thread is
      runnable; and then within that thread's potential. */
  lemma LoopEndsExactly(s: State)
    requires OrderInv(s) && |s.queue| > 0
    ensures (exists k: nat :: StopsAfter(s, k)) <==> SomeRunnable(s)
    ensures forall r | Runnable(s, r) :: exists k: nat :: k <= Potential(s, r) && StopsAfter(s, k)
  {
    hide OrderInv, Runnable, Potential, Rotations;
    forall r | Runnable(s, r) ensures exists k: nat :: k <= Potential(s, r) && StopsAfter(s, k) {
      var k := LoopEndsWithin(s, r);
    }
    if k: nat :| StopsAfter(s, k) {
      RotationsKeepRunnable(s, k, Rotations(s, k).queue[0]);
    }
  }

  /** After k rotations the loop is done. */
  ghost predicate StopsAfter(s: State, k: nat)
    requires OrderInv(s) && |s.queue| > 0
  {
    Runnable(Rotations(s, k), Rotations(s, k).queue[0])
  }

  lemma {:induction false} LoopEndsWithin(s: State, r: ThreadId) returns (k: nat)
    requires OrderInv(s) && Runnable(s, r)
    ensures k <= Potential(s, r) && StopsAfter(s, k)
    decreases Potential(s, r)
  {
    if Runnable(s, s.queue[0]) {
      k := 0;
    } else {
      RotateLowersPotential(s, r);
      RotateKeepsOrder(s);
      RotateKeepsVerdicts(s);
      var j := LoopEndsWithin(Rotate(s), r);
      k := j + 1;
    }
  }

  lemma {:induction false} RotationsKeepRunnable(s: State, k: nat, t: ThreadId)
    requires OrderInv(s) && |s.queue| > 0
    ensures Runnable(Rotations(s, k), t) == Runnable(s, t)
    decreases k
  {
    if k > 0 {
      RotateKeepsOrder(s);
      RotateKeepsVerdicts(s);
      RotationsKeepRunnable(Rotate(s), k - 1, t);
    }
  }
}
