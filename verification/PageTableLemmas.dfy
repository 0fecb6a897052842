/** Moving pages between slots changes no thread's memory. */
module PageTableLemmas {
  import opened Options
  import opened PageTable

  // ----- counts -----

  lemma {:induction false} CountUpdate(meta: seq<Meta>, i: nat, m: Meta, t: int, hi: nat)
    requires PageSlot(i) && i < |meta| && hi <= |meta|
    ensures Count(meta[i := m], t, hi) ==
              Count(meta, t, hi) +
              if i < hi then (if m.thread == t then 1 else 0) - (if meta[i].thread == t then 1 else 0) else 0
    decreases hi
  {
    if hi > RESERVED_PAGES { CountUpdate(meta, i, m, t, hi - 1); }
  }

  lemma {:induction false} CountBound(meta: seq<Meta>, t: int, lo: nat, hi: nat)
    requires RESERVED_PAGES <= lo <= hi <= |meta|
    ensures Count(meta, t, lo) <= Count(meta, t, hi) <= Count(meta, t, lo) + (hi - lo)
    ensures (forall i | lo <= i < hi :: meta[i].thread != t) ==> Count(meta, t, hi) == Count(meta, t, lo)
    ensures (exists i :: lo <= i < hi && meta[i].thread == t) ==> Count(meta, t, hi) > Count(meta, t, lo)
    decreases hi
  {
    if lo < hi { CountBound(meta, t, lo, hi - 1); }
  }

  /** A thread's address range lies within the touched slots. */
  lemma RangeIsTouched(tb: Table, t: int, s: nat)
    requires Inv(tb) && t != 0
    requires RESERVED_PAGES <= s < RESERVED_PAGES + PageCount(tb, t)
    ensures s < SCHEDULER_PAGE_START && Touched(tb.meta, s)
  {
    CountBound(tb.meta, t, RESERVED_PAGES, SCHEDULER_PAGE_START);
    if !Touched(tb.meta, s) { UntouchedBounds(tb, t, s); }
  }

  lemma UntouchedBounds(tb: Table, t: int, s: nat)
    requires Sized(tb) && Layout(tb.meta) && t != 0 && PageSlot(s) && !Touched(tb.meta, s)
    ensures PageCount(tb, t) <= s - RESERVED_PAGES
  {
    assert forall i | s < i < SCHEDULER_PAGE_START :: !Touched(tb.meta, i);
    CountBound(tb.meta, t, RESERVED_PAGES, s);
    CountBound(tb.meta, t, s, SCHEDULER_PAGE_START);
  }

  // ----- logical memory -----

  lemma PageOfIs(tb: Table, i: int, t: int, k: int)
    requires Sized(tb) && Unique(tb) && t != 0 && Holds(tb, i, t, k)
    ensures PageOf(tb, t, k) == Some(Content(tb.pages[i], tb.meta[i].usage, tb.meta[i].span))
  {
  }

  lemma SlotOfIs(tb: Table, i: int, t: int, k: int)
    requires Sized(tb) && Layout(tb.meta) && Unique(tb) && ThreadId(t) && Holds(tb, i, t, k)
    ensures SlotOf(tb, t, k) == i
  {
    var r := SlotOf(tb, t, k);
    assert Holds(tb, r, t, k);
  }

  lemma SlotOfMissing(tb: Table, t: int, k: int)
    requires Sized(tb) && Layout(tb.meta) && ThreadId(t) && !InTable(tb, t, k)
    ensures SlotOf(tb, t, k) == SCHEDULER_PAGE_START
  {
    var r := SlotOf(tb, t, k);
    if r < SCHEDULER_PAGE_START { assert Holds(tb, r, t, k); }
  }

  lemma FirstFreeIs(tb: Table)
    requires Sized(tb) && Layout(tb.meta)
    ensures HasFreeSlot(tb) <==> FirstFree(tb.meta) < SCHEDULER_PAGE_START
    ensures FirstFree(tb.meta) < SCHEDULER_PAGE_START ==>
              && PageSlot(FirstFree(tb.meta)) && tb.meta[FirstFree(tb.meta)].thread == 0
              && forall i | RESERVED_PAGES <= i < FirstFree(tb.meta) :: Touched(tb.meta, i)
  {
    var f := FirstFree(tb.meta);
    forall i | RESERVED_PAGES <= i < f ensures Touched(tb.meta, i) {
      assert tb.meta[i].thread != 0;
    }
  }

  /** Where the page of slot i is after a relocation. */
  function Moved(src: int, dst: int, i: int): int {
    if i == src then dst else i
  }

  lemma RelocateHolds(tb: Table, src: nat, dst: nat, t: int, k: int)
    requires Sized(tb) && PageSlot(src) && PageSlot(dst) && src != dst
    requires tb.meta[dst].thread == 0 && t != 0
    ensures forall i :: Holds(tb, i, t, k) ==> Holds(Relocate(tb, src, dst), Moved(src, dst, i), t, k)
    ensures forall j :: Holds(Relocate(tb, src, dst), j, t, k) ==> Holds(tb, if j == dst then src else j, t, k)
  {
  }

  /** Moving one page to an empty slot at or before the end of the touched
      prefix keeps the table well formed, every thread's memory, and the number
      of slots every thread owns; no other page moves. */
  lemma RelocateKeeps(tb: Table, src: nat, dst: nat)
    requires Inv(tb) && Owned(tb.meta, src) && PageSlot(dst) && tb.meta[dst].thread == 0
    requires forall i | RESERVED_PAGES <= i < dst :: Touched(tb.meta, i)
    ensures Inv(Relocate(tb, src, dst))
    ensures SameMemory(tb, Relocate(tb, src, dst)) && SameCounts(tb, Relocate(tb, src, dst))
    ensures Holds(Relocate(tb, src, dst), dst, tb.meta[src].thread, tb.meta[src].num)
  {
    var r := Relocate(tb, src, dst);
    RelocateCounts(tb, src, dst);
    RelocateUnique(tb, src, dst);
    assert Layout(r.meta) by { RelocateLayout(tb, src, dst); }
    hide PageOf, Layout, PageCount, Relocate;
    forall t, k | t != 0
      ensures PageOf(tb, t, k) == PageOf(r, t, k) && (InTable(tb, t, k) <==> InTable(r, t, k))
    {
      RelocatePage(tb, src, dst, t, k);
    }
    assert Numbered(r);
  }

  lemma RelocateCounts(tb: Table, src: nat, dst: nat)
    requires Sized(tb) && PageSlot(src) && PageSlot(dst) && src != dst && tb.meta[dst].thread == 0
    ensures SameCounts(tb, Relocate(tb, src, dst))
  {
    var m1 := tb.meta[dst := tb.meta[src].(loc := dst)];
    forall t ensures PageCount(Relocate(tb, src, dst), t) == PageCount(tb, t) {
      CountUpdate(tb.meta, dst, tb.meta[src].(loc := dst), t, SCHEDULER_PAGE_START);
      CountUpdate(m1, src, Cleared(src), t, SCHEDULER_PAGE_START);
    }
  }

  lemma RelocateUnique(tb: Table, src: nat, dst: nat)
    requires Sized(tb) && Unique(tb) && PageSlot(src) && PageSlot(dst) && src != dst && tb.meta[dst].thread == 0
    ensures Unique(Relocate(tb, src, dst))
  {
    var r := Relocate(tb, src, dst);
    forall i, j, t, k | t != 0 && Holds(r, i, t, k) && Holds(r, j, t, k) ensures i == j {
      RelocateHolds(tb, src, dst, t, k);
      assert Holds(tb, if i == dst then src else i, t, k) && Holds(tb, if j == dst then src else j, t, k);
      assert !Holds(r, src, t, k);
    }
  }

  lemma RelocateLayout(tb: Table, src: nat, dst: nat)
    requires Sized(tb) && Layout(tb.meta) && Owned(tb.meta, src) && PageSlot(dst) && tb.meta[dst].thread == 0
    requires forall i | RESERVED_PAGES <= i < dst :: Touched(tb.meta, i)
    ensures Layout(Relocate(tb, src, dst).meta)
  {
    var meta := Relocate(tb, src, dst).meta;
    forall i, j | RESERVED_PAGES <= i < j < SCHEDULER_PAGE_START && Touched(meta, j)
      ensures Touched(meta, i)
    {
      assert Touched(tb.meta, j) || j == dst;
      assert Touched(tb.meta, i);
    }
  }

  lemma RelocatePage(tb: Table, src: nat, dst: nat, t: int, k: int)
    requires Sized(tb) && Unique(tb) && PageSlot(src) && PageSlot(dst) && src != dst
    requires tb.meta[dst].thread == 0 && t != 0
    ensures PageOf(tb, t, k) == PageOf(Relocate(tb, src, dst), t, k)
    ensures InTable(tb, t, k) <==> InTable(Relocate(tb, src, dst), t, k)
  {
    var r := Relocate(tb, src, dst);
    RelocateHolds(tb, src, dst, t, k);
    RelocateUnique(tb, src, dst);
    if InTable(tb, t, k) {
      var i :| Holds(tb, i, t, k);
      PageOfIs(tb, i, t, k);
      PageOfIs(r, Moved(src, dst, i), t, k);
    }
    if InTable(r, t, k) {
      var j :| Holds(r, j, t, k);
      assert Holds(tb, if j == dst then src else j, t, k);
    }
  }

  lemma FreeSlotCount(tb: Table)
    requires Sized(tb)
    ensures HasFreeSlot(tb) <==> PageCount(tb, 0) > 0
  {
    CountBound(tb.meta, 0, RESERVED_PAGES, SCHEDULER_PAGE_START);
    if HasFreeSlot(tb) {
      var i :| PageSlot(i) && tb.meta[i].thread == 0;
    }
  }

  lemma UnlockKeeps(tb: Table)
    requires Inv(tb)
    ensures Inv(Unlock(tb)) && SameMemory(tb, Unlock(tb)) && SameCounts(tb, Unlock(tb))
  {
    LockingKeeps(tb, Unlock(tb));
  }

  /** Unlocking opens every slot, and changes no header and no page. */
  lemma UnlockOpens(tb: Table)
    requires Sized(tb)
    ensures Open(Unlock(tb)) && Unlock(tb).meta == tb.meta && Unlock(tb).pages == tb.pages
  {
  }

  /** A swap leaves every slot open. */
  lemma SwapOpens(tb: Table, target: nat, src: nat)
    requires Sized(tb) && target < TOTAL_PAGES && src < TOTAL_PAGES && FirstFree(tb.meta) < SCHEDULER_PAGE_START
    ensures Open(Swap(tb, target, src))
  {
    UnlockOpens(tb);
  }

  /** Protection is no part of the logical memory. */
  lemma LockingKeeps(tb: Table, r: Table)
    requires Inv(tb) && Sized(r) && r.meta == tb.meta && r.pages == tb.pages
    ensures Inv(r) && SameMemory(tb, r) && SameCounts(tb, r)
  {
    forall t, k ensures InTable(tb, t, k) <==> InTable(r, t, k) {
      if InTable(tb, t, k) { var i :| Holds(tb, i, t, k); assert Holds(r, i, t, k); }
      if InTable(r, t, k) { var i :| Holds(r, i, t, k); assert Holds(tb, i, t, k); }
    }
    forall i, t, k ensures Holds(tb, i, t, k) <==> Holds(r, i, t, k) {}
    assert Unique(r);
    forall t, k | t != 0 ensures PageOf(tb, t, k) == PageOf(r, t, k) {
      if InTable(tb, t, k) {
        var i :| Holds(tb, i, t, k);
        PageOfIs(tb, i, t, k);
        PageOfIs(r, i, t, k);
      }
    }
  }

  /** `swapPages` into a touched slot: the table stays well formed, every
      thread's memory and page count and the number of free slots are kept, and
      the page asked for is in the slot asked for. */
  lemma SwapKeeps(tb: Table, target: nat, src: nat)
    requires Inv(tb) && HasFreeSlot(tb) && Owned(tb.meta, src)
    requires PageSlot(target) && Touched(tb.meta, target)
    ensures FirstFree(tb.meta) < SCHEDULER_PAGE_START
    ensures Inv(Swap(tb, target, src)) && HasFreeSlot(Swap(tb, target, src))
    ensures SameMemory(tb, Swap(tb, target, src)) && SameCounts(tb, Swap(tb, target, src))
    ensures Holds(Swap(tb, target, src), target, tb.meta[src].thread, tb.meta[src].num)
  {
    FirstFreeIs(tb);
    FreeSlotCount(tb);
    hide Inv, PageOf, InTable, PageCount, FirstFree;
    var u, f := Unlock(tb), FirstFree(tb.meta);
    UnlockKeeps(tb);
    var r := Swap(tb, target, src);
    TouchedBefore(tb, target);
    if src == target {
    } else if tb.meta[target].thread != 0 {
      var v := Relocate(u, target, f);
      RelocateKeeps(u, target, f);
      TouchedBefore(v, target);
      RelocateKeeps(v, src, target);
    } else {
      RelocateKeeps(u, src, target);
    }
    FreeSlotCount(r);
  }

  lemma TouchedBefore(tb: Table, target: nat)
    requires Inv(tb) && PageSlot(target) && Touched(tb.meta, target)
    ensures Sized(tb) && forall i | RESERVED_PAGES <= i <= target :: Touched(tb.meta, i)
  {
  }

  /** The slot that the page comes from is free afterwards, its header all zero but
      for the location; a slot that is neither of the two, nor the first free one,
      keeps its header. */
  lemma SwapClearsSource(tb: Table, target: nat, src: nat, i: nat)
    requires Sized(tb) && FirstFree(tb.meta) < SCHEDULER_PAGE_START && Owned(tb.meta, src)
    requires PageSlot(target) && target != src && i < TOTAL_PAGES
    ensures Swap(tb, target, src).meta[src] == Meta(0, 0, 0, src, 0)
    ensures i != target && i != src && i != FirstFree(tb.meta) ==> Swap(tb, target, src).meta[i] == tb.meta[i]
  {
  }

  /** A swap moves at most two pages: the one asked for, and the one it displaces. */
  lemma SwapMoves(tb: Table, target: nat, src: nat, j: int, t: int, k: int)
    requires Sized(tb) && FirstFree(tb.meta) < SCHEDULER_PAGE_START && PageSlot(FirstFree(tb.meta))
    requires Owned(tb.meta, src) && PageSlot(target) && t != 0
    requires Holds(Swap(tb, target, src), j, t, k)
    ensures j == target || Holds(tb, j, t, k) || (j == FirstFree(tb.meta) && Holds(tb, target, t, k))
    ensures j == target ==> Holds(tb, src, t, k)
  {
  }
}
