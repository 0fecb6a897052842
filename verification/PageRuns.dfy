/** Whole runs of the page table: any sequence of page searches, loads, faults
    and re-protections, by any threads, while a slot stays free. */
module PageRuns {
  import opened HeaderBytes
  import opened PageTable
  import opened PageTableLemmas
  import opened FlatMemory
  import opened Loader
  import opened PageAlloc
  import opened Paging

  datatype PageOp =
    | NewPages(thread: int, size: int, span: nat)
    | LoadAll(thread: int)
    | LoadFirst(thread: int)
    | FaultAt(thread: int, addr: nat)
    | Protect(thread: int)
    | SharedRegion

  function Apply(tb: Table, op: PageOp): (r: Table)
    requires Sized(tb) && FirstFree(tb.meta) < SCHEDULER_PAGE_START
    ensures Sized(r)
  {
    match op
    case NewPages(t, size, span) => AfterFindFreePage(tb, t, size, span)
    case LoadAll(t) => Load(tb, t)
    case LoadFirst(t) => LoadStack(tb, t)
    case FaultAt(t, addr) => var r := Fault(tb, t, addr); if r.Some? then r.value else tb
    case Protect(t) => LockAllBut(tb, t)
    case SharedRegion => MakeShared(tb)
  }

  /** What the callers keep to, and a free slot, without which the swap file
      would be used. */
  ghost predicate Allowed(tb: Table, op: PageOp)
    requires Sized(tb)
  {
    && FirstFree(tb.meta) < SCHEDULER_PAGE_START
    && (!op.SharedRegion? ==> ThreadId(op.thread))
    && (op.NewPages? ==> op.span >= 1)
  }

  ghost predicate AllAllowed(tb: Table, ops: seq<PageOp>)
    requires Sized(tb)
    decreases |ops|
  {
    ops == [] || (Allowed(tb, ops[0]) && AllAllowed(Apply(tb, ops[0]), ops[1..]))
  }

  ghost function Run(tb: Table, ops: seq<PageOp>): (r: Table)
    requires Sized(tb) && AllAllowed(tb, ops)
    ensures Sized(r)
    decreases |ops|
  {
    if ops == [] then tb else Run(Apply(tb, ops[0]), ops[1..])
  }

  lemma SharedKeeps(tb: Table)
    requires Inv(tb)
    ensures Inv(MakeShared(tb)) && SameMemory(tb, MakeShared(tb))
  {
    var r := MakeShared(tb);
    assert Layout(r.meta) by {
      forall i, j | RESERVED_PAGES <= i < j < SCHEDULER_PAGE_START && Touched(r.meta, j) ensures Touched(r.meta, i) {
        assert Touched(tb.meta, j) && Touched(tb.meta, i);
      }
    }
    forall i, t, k ensures Holds(tb, i, t, k) <==> Holds(r, i, t, k) {}
    assert Unique(r);
    forall t, k ensures InTable(tb, t, k) <==> InTable(r, t, k) {
      if InTable(tb, t, k) { var i :| Holds(tb, i, t, k); assert Holds(r, i, t, k); }
      if InTable(r, t, k) { var i :| Holds(r, i, t, k); assert Holds(tb, i, t, k); }
    }
    forall t ensures PageCount(r, t) == PageCount(tb, t) { CountPrefix(tb.meta, r.meta, t, SCHEDULER_PAGE_START); }
    forall t, k | t != 0 ensures PageOf(tb, t, k) == PageOf(r, t, k) {
      if InTable(tb, t, k) {
        var i :| Holds(tb, i, t, k);
        PageOfIs(tb, i, t, k);
        PageOfIs(r, i, t, k);
      }
    }
  }

  lemma {:induction false} CountPrefix(a: seq<Meta>, b: seq<Meta>, t: int, hi: nat)
    requires hi <= |a| == |b| && forall i | 0 <= i < hi :: a[i] == b[i]
    ensures Count(a, t, hi) == Count(b, t, hi)
    decreases hi
  {
    if hi > RESERVED_PAGES { CountPrefix(a, b, t, hi - 1); }
  }

  lemma FaultKeeps(tb: Table, t: int, addr: nat)
    requires Inv(tb) && HasFreeSlot(tb) && ThreadId(t)
    ensures FirstFree(tb.meta) < SCHEDULER_PAGE_START
    ensures Fault(tb, t, addr).Some? ==> Inv(Fault(tb, t, addr).value) && SameMemory(tb, Fault(tb, t, addr).value)
  {
    FirstFreeIs(tb);
    if Fault(tb, t, addr).Some? {
      var slot := addr / PAGE_SIZE;
      var src := SlotOf(tb, t, slot - RESERVED_PAGES + 1);
      HandlerTarget(tb, t, slot - RESERVED_PAGES + 1, src);
      SwapKeeps(tb, slot, src);
      LockingKeeps(Swap(tb, slot, src), LockAllBut(Swap(tb, slot, src), t));
      SameTransitive(tb, Swap(tb, slot, src), LockAllBut(Swap(tb, slot, src), t));
    }
  }

  lemma ApplyKeeps(tb: Table, op: PageOp)
    requires Inv(tb) && Allowed(tb, op)
    ensures Inv(Apply(tb, op)) && KeepsPages(tb, Apply(tb, op))
  {
    hide Swap, LockAllBut, MakeShared, Load, LoadStack, FindFreePage, AfterFindFreePage, Fault, PageOf;
    FirstFreeIs(tb);
    match op {
      case NewPages(t, size, span) => FindFreePageEffect(tb, t, size, span);
      case LoadAll(t) => LoadKeepsMemory(tb, t); SameKeeps(tb, Load(tb, t));
      case LoadFirst(t) => LoadKeepsMemory(tb, t); SameKeeps(tb, LoadStack(tb, t));
      case FaultAt(t, addr) =>
        FaultKeeps(tb, t, addr);
        SameReflexive(tb);
        SameKeeps(tb, Apply(tb, op));
      case Protect(t) => ProtectKeeps(tb, t);
      case SharedRegion => SharedKeeps(tb); SameKeeps(tb, MakeShared(tb));
    }
  }

  lemma ProtectKeeps(tb: Table, t: int)
    requires Inv(tb)
    ensures Inv(LockAllBut(tb, t)) && KeepsPages(tb, LockAllBut(tb, t))
  {
    LockingKeeps(tb, LockAllBut(tb, t));
    SameKeeps(tb, LockAllBut(tb, t));
  }

  /** Over every such run: each thread's pages stay numbered 1..n without
      duplicates, the touched slots stay a prefix whose headers name their own
      slots, and no page that a thread owns is lost or changed. */
  lemma {:induction false} RunKeepsTable(tb: Table, ops: seq<PageOp>)
    requires Inv(tb) && AllAllowed(tb, ops)
    ensures Inv(Run(tb, ops)) && KeepsPages(tb, Run(tb, ops))
    decreases |ops|
  {
    hide Apply, PageOf;
    if ops == [] {
      SameReflexive(tb);
      SameKeeps(tb, tb);
    } else {
      ApplyKeeps(tb, ops[0]);
      RunKeepsTable(Apply(tb, ops[0]), ops[1..]);
      KeepsTransitive(tb, Apply(tb, ops[0]), Run(tb, ops));
    }
  }
}
