/** What protection is for, and what its absence means: which accesses go through
    the handler. */
module OpenSlots {
  import opened Options
  import opened HeaderBytes
  import opened PageTable
  import opened PageTableLemmas
  import opened FlatMemory
  import opened Loader
  import opened JoinWrites
  import opened LateJoins
  import opened RegionCode
  import opened TableHeap
  import PageAlloc
  import ThreadHeap

  /** Where nothing is protected, an access by anyone to any slot reads or writes
      the byte that is there, whosever it is, and moves no page. */
  lemma OpenStep(tb: Table, t: int, a: Access)
    requires Open(tb) && FirstFree(tb.meta) < SCHEDULER_PAGE_START && a.addr < HEAP_SIZE
    ensures Step(tb, t, a).Some?
    ensures var (r, b) := Step(tb, t, a).value;
      && r.meta == tb.meta && r.locked == tb.locked
      && (forall i, off | 0 <= i < TOTAL_PAGES && 0 <= off < PAGE_SIZE ::
            r.pages[i][off] == if a.Write? && a.addr == i * PAGE_SIZE + off then a.value else tb.pages[i][off])
      && b == if a.Write? then a.value else tb.pages[a.addr / PAGE_SIZE][a.addr % PAGE_SIZE]
  {
    hide FirstFree;
    var r := Step(tb, t, a).value.0;
    forall i, off | 0 <= i < TOTAL_PAGES && 0 <= off < PAGE_SIZE
      ensures r.pages[i][off] == if a.Write? && a.addr == i * PAGE_SIZE + off then a.value else tb.pages[i][off]
    {
      SamePlace(i, off, a.addr);
    }
  }

  /** Nor does any sequence of accesses. */
  lemma {:induction false} OpenExec(tb: Table, t: int, ops: seq<Access>)
    requires Open(tb) && FirstFree(tb.meta) < SCHEDULER_PAGE_START
    requires forall i | 0 <= i < |ops| :: ops[i].addr < HEAP_SIZE
    ensures Exec(tb, t, ops).Some?
    ensures Exec(tb, t, ops).value.0.meta == tb.meta && Exec(tb, t, ops).value.0.locked == tb.locked
    decreases |ops|
  {
    hide FirstFree, Step;
    if ops != [] {
      OpenStep(tb, t, ops[0]);
      var u := Step(tb, t, ops[0]).value.0;
      assert forall i | 0 <= i < |ops[1..]| :: ops[1..][i] == ops[i + 1];
      OpenExec(u, t, ops[1..]);
    }
  }

  /** After a load, and after a search for a page, nobody's access faults, to
      whatever address in the array: headers and protection stay as they are. */
  lemma NobodyFaultsAfterLoad(tb: Table, t: int, o: int, ops: seq<Access>)
    requires Inv(tb) && HasFreeSlot(tb) && ThreadId(t) && forall i | 0 <= i < |ops| :: ops[i].addr < HEAP_SIZE
    ensures var u := Load(tb, t);
      && Open(u) && Exec(u, o, ops).Some?
      && Exec(u, o, ops).value.0.meta == u.meta && Exec(u, o, ops).value.0.locked == u.locked
    ensures var u := LoadStack(tb, t);
      && Open(u) && Exec(u, o, ops).Some?
      && Exec(u, o, ops).value.0.meta == u.meta && Exec(u, o, ops).value.0.locked == u.locked
  {
    hide Load, LoadStack, Exec, Open, FirstFree;
    LoadKeepsMemory(tb, t);
    LoadsOpen(tb, t);
    FreeExists(Load(tb, t));
    FreeExists(LoadStack(tb, t));
    OpenExec(Load(tb, t), o, ops);
    OpenExec(LoadStack(tb, t), o, ops);
  }

  /** So the store that an exit makes after a load, to the slots as they are, is
      what the writes of any thread would do, one after the other. */
  lemma {:induction false} StoreIsWrites(tb: Table, o: int, addr: nat, bytes: seq<byte>)
    requires Open(tb) && FirstFree(tb.meta) < SCHEDULER_PAGE_START && addr + |bytes| <= HEAP_SIZE
    ensures Exec(tb, o, Writes(addr, bytes)).Some?
    ensures Exec(tb, o, Writes(addr, bytes)).value.0 == RawStore(tb, addr, bytes)
    decreases |bytes|
  {
    hide FirstFree;
    if bytes != [] {
      var ops := Writes(addr, bytes);
      assert ops[1..] == Writes(addr + 1, bytes[1..]);
      OpenStep(tb, o, ops[0]);
      StoreIsWrites(Poke(tb, addr / PAGE_SIZE, addr % PAGE_SIZE, bytes[0]), o, addr + 1, bytes[1..]);
    }
  }

  // ----- after a request, and after a free -----

  /** What a request of a thread leaves protected: the others' slots, when a page
      was found, whether it has a chunk or not; nothing at all, when the thread is
      at its limit; and nothing after a request of the library. */
  lemma RequestProtects(tb: Table, t: int, size: nat)
    requires Inv(tb) && ThreadId(t) && !PageAlloc.FindFreePage(tb, t, size, 1).Evicts?
    ensures if PageAlloc.FindFreePage(tb, t, size, 1).Full? then Open(Malloc(tb, t, size).0)
            else Guarded(Malloc(tb, t, size).0, t)
    ensures Open(Request(tb, t, size).0)
  {
    hide PageAlloc.FindFreePage, PageAlloc.AfterFindFreePage, AllocBytes;
    PageAlloc.SearchOpens(tb, t, size, 1);
    UnlockOpens(tb);
  }

  /** A free leaves nothing protected. */
  lemma FreeLeavesOpen(tb: Table, t: int, addr: nat)
    requires Sized(tb) && Free(tb, t, addr).Some?
    ensures Open(Free(tb, t, addr).value)
  {
    hide Load, ReleaseBytes;
    LoadsOpen(tb, t);
  }

  /** An access that reaches its page acts on the flat memory. */
  lemma ReachIsFlat(tb: Table, t: int, a: Access)
    requires Inv(tb) && HasFreeSlot(tb) && ThreadId(t) && InRange(tb, t, a.addr)
    requires a.addr < HEAP_SIZE && Reaches(tb, t, a.addr)
    ensures FirstFree(tb.meta) < SCHEDULER_PAGE_START && ActsFlat(tb, t, a)
  {
    hide PageOf, PageCount, Step, Inv, HasFreeSlot, FirstFree;
    InvIsSized(tb);
    ReachStep(tb, t, a);
    var r, k, off := Step(tb, t, a).value.0, PageFor(a.addr), a.addr % PAGE_SIZE;
    assert PageCount(r, t) == PageCount(tb, t);
    var m, n := FlatMem(tb, t), FlatMem(r, t);
    forall j | 0 <= j < |n| ensures n[j] == Store(m, a)[j] {
      assert n[j] == FlatByte(r, t, j) && m[j] == FlatByte(tb, t, j);
      SamePlace(j / PAGE_SIZE, j % PAGE_SIZE, a.addr - BASE);
      assert a.addr - BASE == (k - 1) * PAGE_SIZE + off;
    }
  }

  /** With nothing protected, every single write to the thread's range acts as on a
      flat memory exactly when every page of the thread is in its own slot. */
  lemma OpenActsFlatExactly(tb: Table, t: int)
    requires Inv(tb) && HasFreeSlot(tb) && ThreadId(t) && Open(tb)
    ensures FirstFree(tb.meta) < SCHEDULER_PAGE_START
    ensures (forall a: Access | a.Write? && InRange(tb, t, a.addr) :: ActsFlat(tb, t, a)) <==>
              forall k | 1 <= k <= PageCount(tb, t) :: InItsSlot(tb, t, k)
  {
    hide ActsFlat, PageCount, Inv, HasFreeSlot;
    FreeExists(tb);
    if forall k | 1 <= k <= PageCount(tb, t) :: InItsSlot(tb, t, k) {
      forall a: Access | a.Write? && InRange(tb, t, a.addr) ensures ActsFlat(tb, t, a) {
        RangeInArray(tb, t, a.addr);
        assert InItsSlot(tb, t, PageFor(a.addr));
        ReachIsFlat(tb, t, a);
      }
    } else {
      var k :| 1 <= k <= PageCount(tb, t) && !InItsSlot(tb, t, k);
      WriteMissesPage(tb, t, k);
    }
  }

  /** A fresh value written to the first byte of a page that is not in its slot
      does not get there. */
  lemma WriteMissesPage(tb: Table, t: int, k: nat)
    requires Inv(tb) && HasFreeSlot(tb) && ThreadId(t) && Open(tb)
    requires 1 <= k <= PageCount(tb, t) && !InItsSlot(tb, t, k)
    ensures FirstFree(tb.meta) < SCHEDULER_PAGE_START
    ensures exists a: Access :: a.Write? && InRange(tb, t, a.addr) && !ActsFlat(tb, t, a)
  {
    hide PageOf, Layout, Unique, Numbered, PageCount, FirstFree, Step;
    FreeExists(tb);
    var slot := RESERVED_PAGES + k - 1;
    var was := FlatMem(tb, t)[(k - 1) * PAGE_SIZE];
    var v: byte := if was == 0 then 1 else 0;
    var a := Write(slot * PAGE_SIZE, v);
    assert a.addr / PAGE_SIZE == slot && a.addr % PAGE_SIZE == 0 && a.addr - BASE == (k - 1) * PAGE_SIZE;
    assert InRange(tb, t, a.addr);
    RangeInArray(tb, t, a.addr);
    OpenWriteIs(tb, t, slot, v);
    var r := Poke(tb, slot, 0, v);
    assert PageOf(tb, t, k) == PageOf(r, t, k) && PageCount(r, t) == PageCount(tb, t) by {
      if Owned(tb.meta, slot) { PokeChanges(tb, slot, 0, v); } else { PokeUnowned(tb, slot, 0, v); }
    }
    PageIsThere(tb, t, k);
    FlatStart(tb, t, k);
    FlatStart(r, t, k);
    assert !ActsFlat(tb, t, a);
  }

  lemma PageIsThere(tb: Table, t: int, k: nat)
    requires Inv(tb) && t != 0 && 1 <= k <= PageCount(tb, t)
    ensures PageOf(tb, t, k).Some?
  {
    assert InTable(tb, t, k);
  }

  lemma OpenWriteIs(tb: Table, t: int, slot: nat, v: byte)
    requires Open(tb) && slot < TOTAL_PAGES && FirstFree(tb.meta) < SCHEDULER_PAGE_START
    ensures Step(tb, t, Write(slot * PAGE_SIZE, v)) == Some((Poke(tb, slot, 0, v), v))
  {
    hide FirstFree;
    assert slot * PAGE_SIZE / PAGE_SIZE == slot && slot * PAGE_SIZE % PAGE_SIZE == 0;
  }

  /** So after a free the thread goes on with a flat memory exactly when none of its
      pages lay before its own slot: the handler is not there to bring the others. */
  lemma AfterFreeExactly(tb: Table, t: int, h: ThreadHeap.Heap, addr: nat)
    requires Represents(tb, t, h) && ThreadHeap.Ok(h) && HasFreeSlot(tb) && ThreadHeap.Mapped(h, addr)
    ensures Free(tb, t, addr).Some?
    ensures var u := Free(tb, t, addr).value;
      && Inv(u) && HasFreeSlot(u) && FirstFree(u.meta) < SCHEDULER_PAGE_START && Sized(tb)
      && ((forall a: Access | a.Write? && InRange(u, t, a.addr) :: ActsFlat(u, t, a)) <==> NoneBeforeItsSlot(tb, t))
  {
    hide ActsFlat, PageCount, Load, ThreadHeap.Ok, ThreadHeap.Mapped, Free, InItsSlot, NoneBeforeItsSlot,
         ThreadHeap.Release, Represents;
    Parts(tb, t, h);
    FreeIs(tb, t, h, addr);
    FreeLeavesOpen(tb, t, addr);
    var u, l := Free(tb, t, addr).value, Load(tb, t);
    LoadKeepsMemory(tb, t);
    AfterFreeIs(tb, t, h, addr);
    FreeStays(l, u);
    LoadPlacesExactly(tb, t);
    OpenActsFlatExactly(u, t);
    forall k ensures InItsSlot(u, t, k) <==> InItsSlot(l, t, k) { SlotSame(l, u, t, k); }
  }

  lemma AfterFreeIs(tb: Table, t: int, h: ThreadHeap.Heap, addr: nat)
    requires Represents(tb, t, h) && ThreadHeap.Ok(h) && HasFreeSlot(tb) && ThreadHeap.Mapped(h, addr)
    ensures Free(tb, t, addr).Some? && Inv(Free(tb, t, addr).value) && Sized(tb) && Sized(Free(tb, t, addr).value)
    ensures PageCount(Free(tb, t, addr).value, t) == PageCount(tb, t)
  {
    hide PageCount, Load, Free, InItsSlot;
    FreeIs(tb, t, h, addr);
    Parts(tb, t, h);
    assert |ThreadHeap.Release(h, addr).pages| == |h.pages|;
  }

  lemma FreeStays(a: Table, b: Table)
    requires SameHeads(a, b) && HasFreeSlot(a)
    ensures HasFreeSlot(b)
  {
    var i :| PageSlot(i) && a.meta[i].thread == 0;
    assert b.meta[i].(usage := 0) == a.meta[i].(usage := 0);
  }

  lemma SlotSame(a: Table, b: Table, t: int, k: int)
    requires SameHeads(a, b)
    ensures InItsSlot(a, t, k) <==> InItsSlot(b, t, k)
  {
    var i := RESERVED_PAGES + k - 1;
    if PageSlot(i) { assert b.meta[i].(usage := 0) == a.meta[i].(usage := 0); }
  }

  /** With the protection of a time slice, an access goes through the handler
      exactly when it is to a page slot that the thread does not own; the slots
      that are not for pages stay open to everyone. */
  lemma FaultsExactly(tb: Table, t: int, addr: nat)
    requires Sized(tb) && addr < HEAP_SIZE
    ensures var i := addr / PAGE_SIZE;
      LockAllBut(tb, t).locked[i] <==> RESERVED_PAGES <= i < SCHEDULER_PAGE_START && tb.meta[i].thread != t
    ensures !LockAllBut(tb, t).locked[addr / PAGE_SIZE] && FirstFree(tb.meta) < SCHEDULER_PAGE_START ==>
              forall o, a: Access | a.addr == addr ::
                && Step(LockAllBut(tb, t), o, a).Some?
                && Step(LockAllBut(tb, t), o, a).value.0.meta == tb.meta
  {
    hide FirstFree;
  }
}
