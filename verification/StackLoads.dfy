/** What `loadThreadStack` comes to, without its scan. */
module StackLoads {
  import opened PageTable
  import opened PageTableLemmas
  import opened Loader

  /** The thread's first three pages are moved into their slots one after the
      other, up to the first that is there already, or is missing. */
  function StackMoves(tb: Table, t: int, k: nat): (r: Table)
    requires Sized(tb)
    ensures Sized(r)
    decreases 4 - k
  {
    if k < 1 || k > 3 || FirstFree(tb.meta) >= SCHEDULER_PAGE_START then tb
    else
      var from, to := SlotOf(tb, t, k), RESERVED_PAGES + k - 1;
      if from == SCHEDULER_PAGE_START || from == to then tb
      else StackMoves(Swap(tb, to, from), t, k + 1)
  }

  /** A page of the thread that has been placed stays when the next one is moved. */
  lemma PlacedStaysPut(tb: Table, t: int, k: nat, from: nat)
    requires Inv(tb) && HasFreeSlot(tb) && ThreadId(t) && 1 <= k <= 3 && Placed(tb, t, k)
    requires Holds(tb, from, t, k) && from != RESERVED_PAGES + k - 1
    ensures FirstFree(tb.meta) < SCHEDULER_PAGE_START
    ensures var u := Swap(tb, RESERVED_PAGES + k - 1, from);
      Inv(u) && HasFreeSlot(u) && Placed(u, t, k + 1) && SameCounts(tb, u)
  {
    hide Layout, Unique, PageCount, Relocate;
    var to := RESERVED_PAGES + k - 1;
    FoundCanMove(tb, t, k, from);
    assert InTable(tb, t, k);
    RangeIsTouched(tb, t, to);
    SwapKeeps(tb, to, from);
    FirstFreeIs(tb);
    var u := Swap(tb, to, from);
    forall m | 1 <= m < k + 1 ensures InItsSlot(u, t, m) {
      if m < k {
        assert InItsSlot(tb, t, m);
        OtherSlotStays(tb, to, from, RESERVED_PAGES + m - 1);
      }
    }
  }

  lemma OtherSlotStays(tb: Table, target: nat, src: nat, i: nat)
    requires Sized(tb) && FirstFree(tb.meta) < SCHEDULER_PAGE_START
    requires PageSlot(target) && PageSlot(src) && Owned(tb.meta, i) && i != target && i != src
    ensures Swap(tb, target, src).meta[i] == tb.meta[i]
  {
  }

  /** Nothing that the scan has passed is the page it looks for. */
  ghost predicate NotYet(tb: Table, t: int, k: int, idx: int) {
    forall j | RESERVED_PAGES <= j < idx && j != RESERVED_PAGES + k - 1 :: !Holds(tb, j, t, k)
  }

  lemma {:induction false} ScanIsMoves(tb: Table, t: int, k: nat, idx: nat)
    requires Sized(tb) && Inv(tb) && HasFreeSlot(tb) && ThreadId(t) && 1 <= k <= 3 && idx >= RESERVED_PAGES
    requires Placed(tb, t, k) && NotYet(tb, t, k, idx)
    ensures StackScan(tb, t, k, idx) == StackMoves(tb, t, k)
    decreases 4 - k, SCHEDULER_PAGE_START - idx
  {
    hide Inv, HasFreeSlot, Placed, Swap, FirstFree, SlotOf;
    var to := RESERVED_PAGES + k - 1;
    FreeExists(tb);
    if idx >= SCHEDULER_PAGE_START {
      NotElsewhere(tb, t, k, idx);
    } else if tb.meta[idx].thread == t && tb.meta[idx].num == k && idx != to {
      FoundIs(tb, t, k, idx);
      PlacedStaysPut(tb, t, k, idx);
      if k < 3 {
        var u := Swap(tb, to, idx);
        FirstHolds(u, t, k + 1);
        ScanIsMoves(u, t, k + 1, RESERVED_PAGES + 1);
      }
    } else {
      ScanIsMoves(tb, t, k, idx + 1);
    }
  }

  lemma FoundIs(tb: Table, t: int, k: int, idx: nat)
    requires Inv(tb) && ThreadId(t) && Holds(tb, idx, t, k)
    ensures SlotOf(tb, t, k) == idx
  {
    SlotOfIs(tb, idx, t, k);
  }

  lemma NotElsewhere(tb: Table, t: int, k: int, idx: nat)
    requires Inv(tb) && ThreadId(t) && k >= 1 && idx >= SCHEDULER_PAGE_START && NotYet(tb, t, k, idx)
    ensures SlotOf(tb, t, k) == SCHEDULER_PAGE_START || SlotOf(tb, t, k) == RESERVED_PAGES + k - 1
  {
    var r := SlotOf(tb, t, k);
    if r < SCHEDULER_PAGE_START { assert Holds(tb, r, t, k); }
  }

  /** The scan restarts at the slot after the first, which holds page 1. */
  lemma FirstHolds(tb: Table, t: int, k: nat)
    requires Placed(tb, t, k) && k >= 2
    ensures NotYet(tb, t, k, RESERVED_PAGES + 1)
  {
    assert InItsSlot(tb, t, 1);
  }

  /** The load is those moves, on the unlocked table. */
  lemma LoadStackIs(tb: Table, t: int)
    requires Inv(tb) && HasFreeSlot(tb) && ThreadId(t)
    ensures LoadStack(tb, t) == StackMoves(Unlock(tb), t, 1)
  {
    UnlockKeepsFree(tb);
    ScanIsMoves(Unlock(tb), t, 1, RESERVED_PAGES);
  }

  /** The pages that are moved, and the one that the moving stops at, are in their
      slots afterwards. */
  lemma {:induction false} MovesPlace(tb: Table, t: int, k: nat) returns (last: nat)
    requires Inv(tb) && HasFreeSlot(tb) && ThreadId(t) && 1 <= k <= 3 && Placed(tb, t, k)
    ensures last >= k - 1 && Placed(StackMoves(tb, t, k), t, last + 1)
    ensures last >= k || PageCount(tb, t) < k
    decreases 4 - k
  {
    hide Inv, HasFreeSlot, Placed, Swap, FirstFree, PageCount;
    InvIsSized(tb);
    FreeExists(tb);
    var from, to := SlotOf(tb, t, k), RESERVED_PAGES + k - 1;
    if from == SCHEDULER_PAGE_START {
      last := k - 1;
      MissingIs(tb, t, k);
    } else if from == to {
      last := k;
      PlacedNext(tb, t, k);
    } else {
      FoundThere(tb, t, k);
      PlacedStaysPut(tb, t, k, from);
      var u := Swap(tb, to, from);
      last := k;
      if k < 3 { last := MovesPlace(u, t, k + 1); }
    }
  }

  lemma FoundThere(tb: Table, t: int, k: int)
    requires Inv(tb) && ThreadId(t) && Sized(tb) && SlotOf(tb, t, k) < SCHEDULER_PAGE_START
    ensures Holds(tb, SlotOf(tb, t, k), t, k)
  {
  }

  lemma MissingIs(tb: Table, t: int, k: nat)
    requires Inv(tb) && ThreadId(t) && k >= 1 && SlotOf(tb, t, k) == SCHEDULER_PAGE_START
    ensures PageCount(tb, t) < k
  {
    if i :| Holds(tb, i, t, k) {
      SlotOfIs(tb, i, t, k);
    }
    assert !InTable(tb, t, k);
  }

  lemma PlacedNext(tb: Table, t: int, k: nat)
    requires Inv(tb) && ThreadId(t) && k >= 1 && Placed(tb, t, k) && SlotOf(tb, t, k) == RESERVED_PAGES + k - 1
    requires SlotOf(tb, t, k) < SCHEDULER_PAGE_START
    ensures Placed(tb, t, k + 1)
  {
  }

  /** A thread that is resumed finds the first page of its stack in its slot; if it
      was there already, no page has moved. */
  lemma FirstPageIsPlaced(tb: Table, t: int)
    requires Inv(tb) && HasFreeSlot(tb) && ThreadId(t) && PageCount(tb, t) >= 1
    ensures InItsSlot(LoadStack(tb, t), t, 1)
    ensures InItsSlot(tb, t, 1) ==> LoadStack(tb, t) == Unlock(tb)
  {
    hide Inv, StackMoves, PageCount;
    UnlockKeepsFree(tb);
    LoadStackIs(tb, t);
    var u := Unlock(tb);
    SameRangeUnlocked(tb, t);
    var last := MovesPlace(u, t, 1);
    if InItsSlot(tb, t, 1) { StopsAtOnce(u, t); }
  }

  lemma SameRangeUnlocked(tb: Table, t: int)
    requires Inv(tb)
    ensures Sized(tb) && Sized(Unlock(tb)) && PageCount(Unlock(tb), t) == PageCount(tb, t)
    ensures InItsSlot(Unlock(tb), t, 1) <==> InItsSlot(tb, t, 1)
  {
  }

  lemma StopsAtOnce(tb: Table, t: int)
    requires Inv(tb) && ThreadId(t) && InItsSlot(tb, t, 1)
    ensures StackMoves(tb, t, 1) == tb
  {
    SlotOfIs(tb, RESERVED_PAGES, t, 1);
  }
}
