/** Joins over whole runs: who waits for whom, and that exit values arrive. */
module Joins {
  import opened Options
  import opened Threads
  import opened Dispatch
  import opened ThreadRuns

  ghost predicate WaitsFor(s: State, t: ThreadId, w: ThreadId) {
    t in s.queue && t in s.tcb && s.tcb[t].waitingToEnd == Some(w)
  }

  /** A thread that has terminated has left an exit record. */
  ghost predicate Recorded(s: State, id: ThreadId) {
    id in s.queue || ExitOf(s.exits, id) < |s.exits|
  }

  ghost predicate JoinInv(s: State) {
    && (forall t, w | WaitsFor(s, t, w) :: w in s.queue && w != t)
    && (forall t, u, w | WaitsFor(s, t, w) && WaitsFor(s, u, w) :: t == u)
    && (!s.deciding && s.queue != [] ==> forall w :: !WaitsFor(s, s.queue[0], w))
    && (forall id | 2 <= id <= s.lastId :: Recorded(s, id))
  }

  lemma JoinInvStart()
    ensures JoinInv(START)
  {
  }

  // ----- every step keeps the invariant -----

  lemma JoinDepends(a: State, b: State)
    requires JoinInv(a) && (forall t :: t in b.queue <==> t in a.queue)
    requires forall t, w | WaitsFor(b, t, w) :: WaitsFor(a, t, w)
    requires b.exits == a.exits && b.lastId == a.lastId
    requires !b.deciding && b.queue != [] ==> forall w :: !WaitsFor(b, b.queue[0], w)
    ensures JoinInv(b)
  {
    forall id | 2 <= id <= b.lastId ensures Recorded(b, id) { assert Recorded(a, id); }
  }

  /** The thread that a decision picks waits for no thread that is queued. */
  lemma DecideKeepsJoins(s: State)
    requires Inv(s) && JoinInv(s) && Allowed(s, Schedule)
    ensures JoinInv(Decide(s))
    ensures forall t, w | WaitsFor(s, t, w) ::
              WaitsFor(Decide(s), t, w) && Decide(s).tcb[t].joinReturnLocation == s.tcb[t].joinReturnLocation
  {
    var d := Decide(s);
    if |s.queue| == 1 {
      LoneJoins(s);
    } else {
      DecideFrame(s);
      JoinDepends(s, d);
    }
  }

  lemma LoneJoins(s: State)
    requires Inv(s) && JoinInv(s) && Allowed(s, Schedule) && |s.queue| == 1
    ensures JoinInv(Decide(s)) && forall t, w :: !WaitsFor(s, t, w)
  {
    forall t: ThreadId, w: ThreadId ensures !WaitsFor(s, t, w) {
      assert t in s.queue ==> t == s.queue[0];
      assert w in s.queue ==> w == s.queue[0];
    }
    forall t, w ensures !WaitsFor(Decide(s), t, w) {
      if WaitsFor(Decide(s), t, w) { assert WaitsFor(s, t, w); }
    }
    JoinDepends(s, Decide(s));
  }

  lemma DecideFrame(s: State)
    requires Inv(s) && JoinInv(s) && Allowed(s, Schedule) && |s.queue| > 1
    ensures var d := Decide(s);
      && (forall t :: t in d.queue <==> t in s.queue) && d.queue != []
      && d.exits == s.exits && d.lastId == s.lastId
      && (forall t, w :: WaitsFor(d, t, w) <==> WaitsFor(s, t, w))
      && (forall w :: !WaitsFor(d, d.queue[0], w))
      && (forall t | t in s.tcb :: t in d.tcb && d.tcb[t].joinReturnLocation == s.tcb[t].joinReturnLocation)
      && d.memory == s.memory
  {
    hide Insert, InsertSorted, FindNext, DropEntryOf, Settle, Rotate, Sorted;
    SettledKeeps(s);
    PrintKeeps(s);
    var p := PrintThreadList(s);
    var e := Settle(Rotate(p));
    var d := Decide(s);
    assert forall t :: t in e.queue <==> t in multiset(e.queue);
    assert forall t :: t in s.queue <==> t in multiset(s.queue);
    ResumeJoins(s, e);
  }

  lemma ResumeJoins(s: State, e: State)
    requires JoinInv(s) && |e.queue| > 0 && Runnable(e, e.queue[0])
    requires forall t :: t in e.queue <==> t in s.queue
    requires e.tcb.Keys == s.tcb.Keys && e.exits == s.exits && e.lastId == s.lastId && e.memory == s.memory
    requires forall t | t in s.tcb ::
               e.tcb[t].waitingToEnd == s.tcb[t].waitingToEnd
               && e.tcb[t].joinReturnLocation == s.tcb[t].joinReturnLocation
    ensures var d := Resume(e);
      && d.queue == e.queue && d.exits == s.exits && d.lastId == s.lastId && d.memory == s.memory
      && (forall t, w :: WaitsFor(d, t, w) <==> WaitsFor(s, t, w))
      && (forall w :: !WaitsFor(d, d.queue[0], w))
      && (forall t | t in s.tcb :: t in d.tcb && d.tcb[t].joinReturnLocation == s.tcb[t].joinReturnLocation)
  {
    hide Resume, Judge, JoinInv;
    var h, d := e.queue[0], Resume(e);
    HeadWaitsForNone(s, e);
    ResumeFrame(e);
    ResumeHead(e);
    forall t, w ensures WaitsFor(d, t, w) <==> WaitsFor(s, t, w) {
      if t in s.tcb && t != h { assert d.tcb[t].waitingToEnd == s.tcb[t].waitingToEnd; }
    }
  }

  /** The thread that is resumed waits for no thread. */
  lemma ResumeHead(e: State)
    requires |e.queue| > 0 && Runnable(e, e.queue[0])
    ensures e.queue[0] in e.tcb && e.queue[0] in Resume(e).tcb
    ensures Resume(e).tcb[e.queue[0]].waitingToEnd == None
    ensures Resume(e).tcb[e.queue[0]].joinReturnLocation == e.tcb[e.queue[0]].joinReturnLocation
  {
    hide FindNext, DropEntryOf;
  }

  lemma HeadWaitsForNone(s: State, e: State)
    requires JoinInv(s) && |e.queue| > 0 && Runnable(e, e.queue[0])
    requires forall t :: t in e.queue <==> t in s.queue
    requires e.tcb.Keys == s.tcb.Keys
    requires forall t | t in s.tcb :: e.tcb[t].waitingToEnd == s.tcb[t].waitingToEnd
    ensures s.tcb[e.queue[0]].waitingToEnd == None
  {
    var h := e.queue[0];
    var o := s.tcb[h].waitingToEnd;
    assert h in e.queue;
    forall w: ThreadId | o == Some(w) ensures w in e.queue {
      assert WaitsFor(s, h, w);
    }
  }

  lemma CreateKeepsJoins(s: State)
    requires Inv(s) && JoinInv(s) && Allowed(s, DoCreate)
    ensures JoinInv(Create(s))
    ensures forall t, w :: WaitsFor(Create(s), t, w) <==> WaitsFor(s, t, w)
    ensures forall t | t in s.tcb :: t in Create(s).tcb && Create(s).tcb[t] == s.tcb[t]
  {
    var b := Create(s);
    CreateKeeps(s);
    if s.lastId > 1 {
      assert s.queue == [s.queue[0]] + s.queue[1..];
      assert forall t :: t in b.queue <==> t in s.queue || t == s.lastId + 1;
    }
    forall t, w ensures WaitsFor(b, t, w) <==> WaitsFor(s, t, w) {}
    forall id | 2 <= id <= b.lastId ensures Recorded(b, id) {
      if id <= s.lastId { assert Recorded(s, id); }
    }
  }

  lemma {:induction false} ExitOfAppend(exits: seq<ExitValue>, e: ExitValue, id: ThreadId)
    ensures ExitOf(exits + [e], id) ==
              if ExitOf(exits, id) < |exits| then ExitOf(exits, id)
              else if e.thread == id then |exits| else |exits| + 1
  {
    if exits == [] {
      assert exits + [e] == [e];
      assert [e][1..] == [];
    } else {
      assert (exits + [e])[1..] == exits[1..] + [e];
      ExitOfAppend(exits[1..], e, id);
    }
  }

  lemma JoinerIndex(s: State, t: ThreadId, w: ThreadId)
    requires JoinInv(s) && WaitsFor(s, t, w)
    ensures FirstJoiner(s.queue, s.tcb, w) < |s.queue| && s.queue[FirstJoiner(s.queue, s.tcb, w)] == t
  {
    var i := FirstJoiner(s.queue, s.tcb, w);
    var k :| 0 <= k < |s.queue| && s.queue[k] == t;
    assert i <= k;
    assert WaitsFor(s, s.queue[i], w);
  }

  /** The exit stores its value through the location, and has stored it there if
      it is outside the page slots. */
  ghost predicate Delivers(s: State, value: Value, location: Option<Location>)
    requires |s.queue| > 0
  {
    location.Some? ==>
      && ExitDelivery(s, value) == Some(Delivery(location.value, value))
      && (location.value.Unpaged? ==>
            var m := Exit(s, value).memory; location.value.at in m && m[location.value.at] == value)
  }

  lemma ExitKeepsJoins(s: State, value: Value)
    requires Inv(s) && JoinInv(s) && Allowed(s, DoExit(value))
    ensures JoinInv(Exit(s, value))
    ensures forall t, w :: WaitsFor(Exit(s, value), t, w) <==> WaitsFor(s, t, w) && w != s.queue[0]
    ensures forall t | WaitsFor(s, t, s.queue[0]) :: Delivers(s, value, s.tcb[t].joinReturnLocation)
    ensures forall t | t in s.tcb ::
              t in Exit(s, value).tcb && Exit(s, value).tcb[t].joinReturnLocation == s.tcb[t].joinReturnLocation
  {
    hide FirstJoiner, Sorted;
    var h, b := s.queue[0], Exit(s, value);
    assert forall t :: t in b.queue <==> t in s.queue && t != h;
    forall t | WaitsFor(s, t, h)
      ensures b.tcb[t].waitingToEnd == None
      ensures Delivers(s, value, s.tcb[t].joinReturnLocation)
    {
      JoinerIndex(s, t, h);
    }
    forall t, w ensures WaitsFor(b, t, w) <==> WaitsFor(s, t, w) && w != h {
      ExitWaits(s, value, t, w);
    }
    forall t, w | WaitsFor(b, t, w) ensures w in b.queue && w != t {
      assert WaitsFor(s, t, w);
      var x: ThreadId := w;
      assert x in s.queue;
    }
    forall id | 2 <= id <= b.lastId ensures Recorded(b, id) {
      assert Recorded(s, id);
      ExitOfAppend(s.exits, ExitValue(h, value), id);
    }
  }

  lemma ExitWaits(s: State, value: Value, t: ThreadId, w: ThreadId)
    requires Inv(s) && JoinInv(s) && Allowed(s, DoExit(value))
    requires forall x :: x in Exit(s, value).queue <==> x in s.queue && x != s.queue[0]
    ensures WaitsFor(Exit(s, value), t, w) <==> WaitsFor(s, t, w) && w != s.queue[0]
  {
    hide FirstJoiner, Sorted;
    var h, i := s.queue[0], FirstJoiner(s.queue, s.tcb, s.queue[0]);
    if WaitsFor(s, t, w) && w == h { JoinerIndex(s, t, h); }
    if i < |s.queue| { JoinerIs(s, i, h); }
  }

  lemma JoinerIs(s: State, i: nat, w: ThreadId)
    requires i == FirstJoiner(s.queue, s.tcb, w) < |s.queue|
    ensures WaitsFor(s, s.queue[i], w)
  {
  }

  lemma JoinKeepsJoins(s: State, target: ThreadId, location: Option<Location>)
    requires Inv(s) && JoinInv(s) && Allowed(s, DoJoin(target, location))
    ensures JoinInv(Join(s, target, location))
    ensures forall t, w | WaitsFor(s, t, w) :: WaitsFor(Join(s, target, location), t, w)
    ensures forall t | t in s.tcb && t != s.queue[0] ::
              t in Join(s, target, location).tcb && Join(s, target, location).tcb[t] == s.tcb[t]
    ensures JoinOutcome(s, target).Waits? <==> WaitsFor(Join(s, target, location), s.queue[0], target)
    ensures JoinOutcome(s, target).Waits? ==>
              Join(s, target, location).tcb[s.queue[0]].joinReturnLocation == location
  {
    hide ExitOf, PrintThreadList, Sorted;
    PrintKeeps(s);
    PrintFrame(s);
    var h, b := s.queue[0], Join(s, target, location);
    assert h in s.queue && h in s.tcb;
    assert s.tcb[h].waitingToEnd.Some? ==> WaitsFor(s, h, s.tcb[h].waitingToEnd.value);
    forall t, w
      ensures WaitsFor(b, t, w) <==> WaitsFor(s, t, w) || (JoinOutcome(s, target).Waits? && t == h && w == target) {}
    if JoinOutcome(s, target).Waits? {
      NoJoiner(s, target);
    }
    forall id | 2 <= id <= b.lastId ensures Recorded(b, id) { assert Recorded(s, id); }
  }

  lemma NoJoiner(s: State, w: ThreadId)
    requires FirstJoiner(s.queue, s.tcb, w) == |s.queue|
    ensures forall u :: !WaitsFor(s, u, w)
  {
    forall u: ThreadId ensures !WaitsFor(s, u, w) {
      if u in s.queue { var k :| 0 <= k < |s.queue| && s.queue[k] == u; }
    }
  }

  lemma PrintFrame(s: State)
    ensures var p := PrintThreadList(s);
      p.exits == s.exits && p.lastId == s.lastId && p.deciding == s.deciding && p.memory == s.memory
  {
  }

  lemma ApplyKeepsJoins(s: State, op: Op)
    requires Inv(s) && JoinInv(s) && Allowed(s, op)
    ensures JoinInv(Apply(s, op))
  {
    hide JoinInv, IdsOk, Decide, FirstJoiner, Sorted;
    match op {
      case DoCreate => CreateKeepsJoins(s);
      case DoJoin(target, location) => JoinKeepsJoins(s, target, location);
      case DoExit(value) => ExitKeepsJoins(s, value);
      case Schedule => DecideKeepsJoins(s);
      case DoInit(m) => QuietKeepsJoins(s, InitMutex(s, m));
      case DoLock(m) => QuietKeepsJoins(s, Lock(s, m));
      case DoUnlock(m) => QuietKeepsJoins(s, Unlock(s, m));
      case Preempt => QuietKeepsJoins(s, s.(deciding := true));
    }
  }

  lemma QuietKeepsJoins(s: State, b: State)
    requires JoinInv(s) && b.queue == s.queue && b.exits == s.exits && b.lastId == s.lastId
    requires b.tcb.Keys == s.tcb.Keys && (b.deciding || !s.deciding)
    requires forall t | t in s.tcb :: b.tcb[t].waitingToEnd == s.tcb[t].waitingToEnd
    ensures JoinInv(b)
  {
    forall t, w ensures WaitsFor(b, t, w) <==> WaitsFor(s, t, w) {}
    JoinDepends(s, b);
  }

  // ----- delivery -----

  lemma {:induction false} RunKeepsJoins(s: State, ops: seq<Op>)
    requires Inv(s) && JoinInv(s) && AllAllowed(s, ops)
    ensures JoinInv(Run(s, ops))
    decreases |ops|
  {
    hide Inv, JoinInv, Allowed, Apply;
    if ops != [] {
      ApplyKeepsInv(s, ops[0]);
      ApplyKeepsJoins(s, ops[0]);
      RunKeepsJoins(Apply(s, ops[0]), ops[1..]);
    }
  }

  /** Over every run from the start: at most one thread waits for any other, a
      thread that is waited for is still queued, nobody waits for itself, and
      every thread that is gone has left its exit value. */
  lemma RunsKeepJoins(ops: seq<Op>)
    requires Inv(START) && AllAllowed(START, ops)
    ensures var s := Run(START, ops);
      && (forall t, w | WaitsFor(s, t, w) :: w in s.queue && w != t)
      && (forall t, u, w | WaitsFor(s, t, w) && WaitsFor(s, u, w) :: t == u)
      && (forall id | 2 <= id <= s.lastId && id !in s.queue :: ExitOf(s.exits, id) < |s.exits|)
  {
    hide Run, AllAllowed;
    JoinInvStart();
    RunKeepsJoins(START, ops);
    var s := Run(START, ops);
    forall id | 2 <= id <= s.lastId && id !in s.queue ensures ExitOf(s.exits, id) < |s.exits| {
      assert Recorded(s, id);
    }
  }

  /** Thread t waits for w and will want its value at the location. */
  ghost predicate Expects(s: State, t: ThreadId, w: ThreadId, location: Option<Location>) {
    WaitsFor(s, t, w) && s.tcb[t].joinReturnLocation == location
  }

  /** In the step, w exits and stores its value through t's location, and t waits
      no more. */
  ghost predicate DeliversTo(s: State, op: Op, t: ThreadId, w: ThreadId, location: Option<Location>)
    requires Inv(s) && Allowed(s, op)
  {
    var u := Apply(s, op);
    && op.DoExit? && s.queue[0] == w
    && t in u.queue && t in u.tcb && u.tcb[t].waitingToEnd == None
    && Delivers(s, op.value, location)
  }

  /** A joiner goes on waiting, for the same thread and location, until the step
      in which that thread exits; and that step hands it the value. */
  lemma JoinerWaitsOrReceives(s: State, op: Op, t: ThreadId, w: ThreadId, location: Option<Location>)
    requires Inv(s) && JoinInv(s) && Allowed(s, op) && Expects(s, t, w, location)
    ensures if op.DoExit? && s.queue[0] == w then DeliversTo(s, op, t, w, location)
            else Expects(Apply(s, op), t, w, location)
  {
    hide IdsOk, Decide, FirstJoiner, JoinOutcome, Sorted;
    if !s.deciding && s.queue != [] { NotRunning(s, t, w); }
    match op {
      case DoCreate => CreateKeepsJoins(s);
      case DoJoin(target, l) => JoinKeepsJoins(s, target, l);
      case DoExit(value) =>
        ExitKeepsJoins(s, value);
        assert t in s.queue[1..] by { Tail(s.queue, t); }
      case Schedule => DecideKeepsJoins(s);
      case _ =>
    }
  }

  /** The running thread waits for none. */
  lemma RunningWaitsForNone(s: State)
    requires Inv(s) && JoinInv(s) && !s.deciding && s.queue != []
    ensures s.queue[0] in s.tcb && s.tcb[s.queue[0]].waitingToEnd == None
  {
    assert s.queue[0] in s.queue;
    WaiterHasTarget(s, s.queue[0]);
  }

  lemma WaiterHasTarget(s: State, t: ThreadId)
    requires t in s.queue && t in s.tcb
    ensures s.tcb[t].waitingToEnd == None || exists w :: WaitsFor(s, t, w)
  {
    if s.tcb[t].waitingToEnd.Some? { assert WaitsFor(s, t, s.tcb[t].waitingToEnd.value); }
  }

  lemma NotRunning(s: State, t: ThreadId, w: ThreadId)
    requires JoinInv(s) && WaitsFor(s, t, w) && !s.deciding && s.queue != []
    ensures t != s.queue[0]
  {
  }

  lemma Tail(queue: seq<ThreadId>, t: ThreadId)
    requires t in queue && queue[0] != t
    ensures t in queue[1..]
  {
    var i :| 0 <= i < |queue| && queue[i] == t;
    assert queue[1..][i - 1] == t;
  }

  /** Some step of the run is the exit that delivers to t. */
  ghost predicate Delivered(s: State, ops: seq<Op>, t: ThreadId, w: ThreadId, location: Option<Location>)
    requires Inv(s) && AllAllowed(s, ops)
    decreases |ops|
  {
    ops != [] &&
    (ApplyKeepsInv(s, ops[0]);
     DeliversTo(s, ops[0], t, w, location) || Delivered(Apply(s, ops[0]), ops[1..], t, w, location))
  }

  /** Over every run that begins with thread t waiting for w: at most one thread
      waits for any other, a thread that is waited for is queued; and t goes on
      waiting for as long as w is queued, and once w is not, w has stored its
      exit value through t's own location. */
  lemma {:induction false} JoinersAreServed(s: State, ops: seq<Op>, t: ThreadId, w: ThreadId,
                                            location: Option<Location>)
    requires Inv(s) && JoinInv(s) && AllAllowed(s, ops) && Expects(s, t, w, location)
    ensures JoinInv(Run(s, ops))
    ensures w in Run(s, ops).queue ==> Expects(Run(s, ops), t, w, location)
    ensures w !in Run(s, ops).queue ==> Delivered(s, ops, t, w, location)
    decreases |ops|
  {
    hide Inv, JoinInv, Apply, Expects, DeliversTo, SomeRunnable;
    ExpectedIsQueued(s, t, w, location);
    if ops != [] {
      ApplyKeepsInv(s, ops[0]);
      ApplyKeepsJoins(s, ops[0]);
      JoinerWaitsOrReceives(s, ops[0], t, w, location);
      if ops[0].DoExit? && s.queue[0] == w {
        GoneStaysGone(s, ops[0], w);
        RunKeepsGone(Apply(s, ops[0]), ops[1..], w);
      } else {
        JoinersAreServed(Apply(s, ops[0]), ops[1..], t, w, location);
      }
    }
  }

  lemma ExpectedIsQueued(s: State, t: ThreadId, w: ThreadId, location: Option<Location>)
    requires Inv(s) && JoinInv(s) && Expects(s, t, w, location)
    ensures w in s.queue && w in s.tcb
  {
  }

  /** A terminated thread does not come back: its id is not handed out again. */
  lemma GoneStaysGone(s: State, op: Op, w: ThreadId)
    requires Inv(s) && Allowed(s, op) && w in s.tcb
    requires w !in s.queue || (op.DoExit? && s.queue[0] == w)
    ensures w in Apply(s, op).tcb && w !in Apply(s, op).queue
  {
    hide FirstJoiner, ExitOf, Insert, Sorted, PrintThreadList, Decide;
    match op {
      case DoCreate => CreateKeeps(s); CreateMembers(s, w);
      case Schedule => DecideKeeps(s); DecideMembers(s, w);
      case DoJoin(target, l) => JoinKeeps(s, target, l);
      case DoExit(value) => ExitKeeps(s, value);
      case _ =>
    }
  }

  lemma CreateMembers(s: State, w: ThreadId)
    requires Inv(s) && !s.deciding && w in s.tcb && w !in s.queue
    ensures w in Create(s).tcb && w !in Create(s).queue
  {
    CreateKeeps(s);
  }

  lemma DecideMembers(s: State, w: ThreadId)
    requires Inv(s) && Allowed(s, Schedule) && w !in s.queue
    ensures w !in Decide(s).queue
  {
    DecideKeeps(s);
    assert w !in multiset(s.queue);
  }

  lemma {:induction false} RunKeepsGone(s: State, ops: seq<Op>, w: ThreadId)
    requires Inv(s) && JoinInv(s) && AllAllowed(s, ops) && w in s.tcb && w !in s.queue
    ensures JoinInv(Run(s, ops)) && w !in Run(s, ops).queue
    decreases |ops|
  {
    hide Inv, JoinInv, Allowed, Apply;
    if ops != [] {
      ApplyKeepsInv(s, ops[0]);
      ApplyKeepsJoins(s, ops[0]);
      GoneStaysGone(s, ops[0], w);
      RunKeepsGone(Apply(s, ops[0]), ops[1..], w);
    }
  }

  /** A join of a thread that has already terminated returns at once.  It stores
      the exit value through the location that it is given exactly when the
      caller's previous join gave the same; so a location outside the page slots
      has the value exactly then, or when it had it before. */
  lemma LateJoinExactly(s: State, target: ThreadId, location: Location)
    requires Inv(s) && JoinInv(s) && Allowed(s, DoJoin(target, Some(location)))
    requires target <= s.lastId && target !in s.queue
    ensures var u, x := Join(s, target, Some(location)), ExitOf(s.exits, target);
      && !u.deciding && u.tcb == s.tcb && x < |s.exits|
      && (LateDelivery(s, target) == Some(Delivery(location, s.exits[x].value)) <==>
            s.tcb[s.queue[0]].joinReturnLocation == Some(location))
      && (location.Unpaged? ==>
            ((location.at in u.memory && u.memory[location.at] == s.exits[x].value) <==>
               || s.tcb[s.queue[0]].joinReturnLocation == Some(location)
               || (location.at in s.memory && s.memory[location.at] == s.exits[x].value)))
  {
    hide PrintThreadList, ExitOf;
    PrintKeeps(s);
    PrintFrame(s);
    assert Recorded(s, target);
    var h := s.queue[0];
    assert s.tcb[h].waitingToEnd.Some? ==> WaitsFor(s, h, s.tcb[h].waitingToEnd.value);
  }

  /** EDEADLK is never returned: the thread that is looked at waits for the
      target, so it waits for the caller only if the target is the caller, and
      that was answered before. */
  lemma DeadlockIsNeverReported(s: State, target: ThreadId)
    requires |s.queue| > 0 && s.queue[0] in s.tcb
    ensures JoinOutcome(s, target) != Returns(EDEADLK)
  {
  }

  /** In particular two threads that join each other both block, for good: the
      second join is accepted, and no decision can pick either of them. */
  lemma MutualJoinBlocksBoth(s: State, target: ThreadId, location: Option<Location>)
    requires Inv(s) && JoinInv(s) && Allowed(s, DoJoin(target, location))
    requires WaitsFor(s, target, s.queue[0]) && forall t :: !WaitsFor(s, t, target)
    ensures var u := Join(s, target, location);
      && JoinOutcome(s, target).Waits?
      && WaitsFor(u, s.queue[0], target) && WaitsFor(u, target, s.queue[0])
      && !Runnable(u, s.queue[0]) && !Runnable(u, target)
  {
    hide PrintThreadList, ExitOf;
    var h, u := s.queue[0], Join(s, target, location);
    PrintKeeps(s);
    assert h in s.queue;
    assert s.tcb[h].waitingToEnd.Some? ==> WaitsFor(s, h, s.tcb[h].waitingToEnd.value);
    NoWaiterFound(s, target);
  }

  lemma NoWaiterFound(s: State, w: ThreadId)
    requires forall t :: !WaitsFor(s, t, w)
    ensures FirstJoiner(s.queue, s.tcb, w) == |s.queue|
  {
    hide WaitsFor;
    var i := FirstJoiner(s.queue, s.tcb, w);
    if i < |s.queue| {
      JoinerIs(s, i, w);
    }
  }
}
