/** `loadLibraryPages`: brings a thread's pages 1..n into its address range. */
module Loader {
  import opened HeaderBytes
  import opened PageTable
  import opened PageTableLemmas
  import opened FlatMemory

  /** The scan, looking for page k of thread t from slot `idx` on.  A page found
      elsewhere is swapped into its slot; a slot that already holds a page of t,
      whichever, is passed over; both start the scan again for page k+1, at the
      slot after the first.  It ends when it has passed the last page slot. */
  function Scan(tb: Table, t: int, k: nat, idx: nat): (r: Table)
    requires Sized(tb)
    ensures Sized(r)
    decreases TOTAL_PAGES - k, SCHEDULER_PAGE_START - idx
  {
    var slot := RESERVED_PAGES + k - 1;
    if idx >= SCHEDULER_PAGE_START || FirstFree(tb.meta) >= SCHEDULER_PAGE_START
       || slot < RESERVED_PAGES || slot >= SCHEDULER_PAGE_START then tb
    else if tb.meta[idx].thread == t && tb.meta[idx].num == k && idx != slot
    then Scan(Swap(tb, slot, idx), t, k + 1, RESERVED_PAGES + 1)
    else if idx == slot && tb.meta[idx].thread == t
    then Scan(tb, t, k + 1, RESERVED_PAGES + 1)
    else Scan(tb, t, k, idx + 1)
  }

  /** `loadLibraryPages` for thread t. */
  function Load(tb: Table, t: int): Table
    requires Sized(tb)
  {
    Scan(Unlock(tb), t, 1, RESERVED_PAGES)
  }

  /** No page of t within t's address range lies before its own slot. */
  ghost predicate NoneBeforeItsSlot(tb: Table, t: int)
    requires Sized(tb)
  {
    forall i | RESERVED_PAGES <= i < RESERVED_PAGES + PageCount(tb, t) && PageSlot(i) && tb.meta[i].thread == t ::
      tb.meta[i].num <= i - RESERVED_PAGES + 1
  }

  /** Page m of t is in the slot where t addresses it. */
  ghost predicate InItsSlot(tb: Table, t: int, m: int) {
    Holds(tb, RESERVED_PAGES + m - 1, t, m)
  }

  /** Pages 1..k-1 of t are in their slots. */
  ghost predicate Placed(tb: Table, t: int, k: int) {
    forall m | 1 <= m < k :: InItsSlot(tb, t, m)
  }

  /** What holds before page k is dealt with. */
  ghost predicate Loading(tb: Table, t: int, k: int) {
    && Sized(tb) && Inv(tb) && HasFreeSlot(tb) && ThreadId(t)
    && 1 <= k <= PageCount(tb, t) + 1
    && NoneBeforeItsSlot(tb, t) && Placed(tb, t, k)
  }

  /** The slot for page k holds page k or no page of t at all. */
  lemma SlotForPage(tb: Table, t: int, k: nat)
    requires Loading(tb, t, k) && k <= PageCount(tb, t)
    ensures PageSlot(RESERVED_PAGES + k - 1) && Touched(tb.meta, RESERVED_PAGES + k - 1)
    ensures tb.meta[RESERVED_PAGES + k - 1].thread == t ==> tb.meta[RESERVED_PAGES + k - 1].num == k
    ensures InTable(tb, t, k) && Holds(tb, SlotOf(tb, t, k), t, k)
  {
    var p := RESERVED_PAGES + k - 1;
    RangeIsTouched(tb, t, p);
    assert InTable(tb, t, k);
    var i :| Holds(tb, i, t, k);
    SlotOfIs(tb, i, t, k);
    if tb.meta[p].thread == t {
      var m := tb.meta[p].num;
      assert Holds(tb, p, t, m) && InTable(tb, t, m);
      assert m < k ==> InItsSlot(tb, t, m);
    }
  }

  lemma LoadStep(tb: Table, t: int, k: nat)
    requires Loading(tb, t, k) && k <= PageCount(tb, t)
    ensures PageSlot(RESERVED_PAGES + k - 1) && SlotOf(tb, t, k) < SCHEDULER_PAGE_START
    ensures FirstFree(tb.meta) < SCHEDULER_PAGE_START
    ensures var r := Swap(tb, RESERVED_PAGES + k - 1, SlotOf(tb, t, k));
      Loading(r, t, k + 1) && SameMemory(tb, r) && SameCounts(tb, r)
  {
    var p, src := RESERVED_PAGES + k - 1, SlotOf(tb, t, k);
    SlotForPage(tb, t, k);
    SwapKeeps(tb, p, src);
    FirstFreeIs(tb);
    var r := Swap(tb, p, src);
    assert PageCount(r, t) == PageCount(tb, t);
    forall i | RESERVED_PAGES <= i < RESERVED_PAGES + PageCount(r, t) && PageSlot(i) && r.meta[i].thread == t
      ensures r.meta[i].num <= i - RESERVED_PAGES + 1
    {
      SwapMoves(tb, p, src, i, t, r.meta[i].num);
    }
    forall m | 1 <= m < k + 1 ensures InItsSlot(r, t, m) {
      if m < k { PlacedStays(tb, t, k, m); }
    }
  }

  lemma PlacedStays(tb: Table, t: int, k: nat, m: nat)
    requires Loading(tb, t, k) && k <= PageCount(tb, t) && 1 <= m < k
    requires FirstFree(tb.meta) < SCHEDULER_PAGE_START && PageSlot(RESERVED_PAGES + k - 1)
    ensures InItsSlot(Swap(tb, RESERVED_PAGES + k - 1, SlotOf(tb, t, k)), t, m)
  {
    SlotForPage(tb, t, k);
    FirstFreeIs(tb);
    assert InItsSlot(tb, t, m);
  }

  lemma SameReflexive(tb: Table)
    requires Sized(tb)
    ensures SameMemory(tb, tb) && SameCounts(tb, tb)
  {
  }

  /** A page of t that the scan finds can be swapped into its slot. */
  lemma FoundCanMove(tb: Table, t: int, k: nat, idx: nat)
    requires Inv(tb) && HasFreeSlot(tb) && ThreadId(t) && k >= 1 && Holds(tb, idx, t, k)
    ensures PageSlot(RESERVED_PAGES + k - 1) && FirstFree(tb.meta) < SCHEDULER_PAGE_START
    ensures Inv(Swap(tb, RESERVED_PAGES + k - 1, idx)) && HasFreeSlot(Swap(tb, RESERVED_PAGES + k - 1, idx))
    ensures SameMemory(tb, Swap(tb, RESERVED_PAGES + k - 1, idx))
    ensures SameCounts(tb, Swap(tb, RESERVED_PAGES + k - 1, idx))
  {
    assert InTable(tb, t, k);
    RangeIsTouched(tb, t, RESERVED_PAGES + k - 1);
    SwapKeeps(tb, RESERVED_PAGES + k - 1, idx);
  }

  /** From any table with a free slot, the scan changes no thread's memory. */
  lemma {:induction false} ScanKeepsMemory(tb: Table, t: int, k: nat, idx: nat)
    requires Sized(tb) && Inv(tb) && HasFreeSlot(tb) && ThreadId(t) && k >= 1 && idx >= RESERVED_PAGES
    ensures var r := Scan(tb, t, k, idx);
      Inv(r) && HasFreeSlot(r) && SameMemory(tb, r) && SameCounts(tb, r)
    decreases TOTAL_PAGES - k, SCHEDULER_PAGE_START - idx
  {
    hide Inv, HasFreeSlot, SameMemory, SameCounts, PageCount, Swap, FirstFree;
    var slot := RESERVED_PAGES + k - 1;
    SameReflexive(tb);
    if idx >= SCHEDULER_PAGE_START || FirstFree(tb.meta) >= SCHEDULER_PAGE_START || slot >= SCHEDULER_PAGE_START {
    } else if tb.meta[idx].thread == t && tb.meta[idx].num == k && idx != slot {
      FoundCanMove(tb, t, k, idx);
      var u := Swap(tb, slot, idx);
      ScanKeepsMemory(u, t, k + 1, RESERVED_PAGES + 1);
      SameTransitive(tb, u, Scan(u, t, k + 1, RESERVED_PAGES + 1));
    } else if idx == slot && tb.meta[idx].thread == t {
      ScanKeepsMemory(tb, t, k + 1, RESERVED_PAGES + 1);
    } else {
      ScanKeepsMemory(tb, t, k, idx + 1);
    }
  }

  /** Nothing the scan has passed so far would have stopped it. */
  ghost predicate Passed(tb: Table, t: int, k: int, idx: int)
    requires Sized(tb)
  {
    && (forall j | RESERVED_PAGES <= j < idx && j != RESERVED_PAGES + k - 1 :: !Holds(tb, j, t, k))
    && (RESERVED_PAGES <= RESERVED_PAGES + k - 1 < idx && RESERVED_PAGES + k - 1 < SCHEDULER_PAGE_START ==>
          tb.meta[RESERVED_PAGES + k - 1].thread != t)
  }

  /** The scan restarts at the slot after the first: the first holds page 1. */
  lemma RestartPasses(tb: Table, t: int, k: nat)
    requires Loading(tb, t, k + 1) && k >= 1
    ensures Passed(tb, t, k + 1, RESERVED_PAGES + 1)
  {
    assert InItsSlot(tb, t, 1);
  }

  lemma InPlaceStep(tb: Table, t: int, k: nat)
    requires Loading(tb, t, k) && PageSlot(RESERVED_PAGES + k - 1)
    requires tb.meta[RESERVED_PAGES + k - 1].thread == t
    ensures k <= PageCount(tb, t) && Loading(tb, t, k + 1)
  {
    var p := RESERVED_PAGES + k - 1;
    var m := tb.meta[p].num;
    assert Holds(tb, p, t, m) && InTable(tb, t, m);
    assert m < k || k == PageCount(tb, t) + 1 ==> InItsSlot(tb, t, m);
    SlotForPage(tb, t, k);
    forall i | 1 <= i < k + 1 ensures InItsSlot(tb, t, i) {}
  }

  lemma ScanIsDone(tb: Table, t: int, k: nat, idx: nat)
    requires Loading(tb, t, k) && Passed(tb, t, k, idx)
    requires idx >= SCHEDULER_PAGE_START || RESERVED_PAGES + k - 1 >= SCHEDULER_PAGE_START
    ensures k == PageCount(tb, t) + 1
  {
    CountBound(tb.meta, t, RESERVED_PAGES, SCHEDULER_PAGE_START);
    if k <= PageCount(tb, t) { SlotForPage(tb, t, k); }
  }

  lemma {:induction false} ScanLoads(tb: Table, t: int, k: nat, idx: nat)
    requires Loading(tb, t, k) && idx >= RESERVED_PAGES && Passed(tb, t, k, idx)
    ensures var r := Scan(tb, t, k, idx);
      Loading(r, t, PageCount(r, t) + 1) && SameMemory(tb, r) && SameCounts(tb, r)
    decreases TOTAL_PAGES - k, SCHEDULER_PAGE_START - idx
  {
    hide Inv, HasFreeSlot, NoneBeforeItsSlot, Placed, SameMemory, SameCounts, PageCount, Swap, FirstFree, SlotOf;
    var slot := RESERVED_PAGES + k - 1;
    SameReflexive(tb);
    FreeExists(tb);
    if idx >= SCHEDULER_PAGE_START || slot >= SCHEDULER_PAGE_START {
      ScanIsDone(tb, t, k, idx);
    } else if tb.meta[idx].thread == t && tb.meta[idx].num == k && idx != slot {
      FoundIsNext(tb, t, k, idx);
      LoadStep(tb, t, k);
      var u := Swap(tb, slot, idx);
      RestartPasses(u, t, k);
      ScanLoads(u, t, k + 1, RESERVED_PAGES + 1);
      SameTransitive(tb, u, Scan(u, t, k + 1, RESERVED_PAGES + 1));
    } else if idx == slot && tb.meta[idx].thread == t {
      InPlaceStep(tb, t, k);
      RestartPasses(tb, t, k);
      ScanLoads(tb, t, k + 1, RESERVED_PAGES + 1);
    } else {
      ScanLoads(tb, t, k, idx + 1);
    }
  }

  lemma FreeExists(tb: Table)
    requires Inv(tb) && HasFreeSlot(tb)
    ensures FirstFree(tb.meta) < SCHEDULER_PAGE_START
  {
    FirstFreeIs(tb);
  }

  lemma FoundIsNext(tb: Table, t: int, k: nat, idx: nat)
    requires Loading(tb, t, k) && Holds(tb, idx, t, k)
    ensures k <= PageCount(tb, t) && SlotOf(tb, t, k) == idx
  {
    assert InTable(tb, t, k);
    SlotOfIs(tb, idx, t, k);
  }

  /** After the load, page k of thread t is in slot 6+k-1 for every k in 1..n;
      no thread's memory, page count or the number of free slots has changed;
      and the thread is ready for a time slice. */
  lemma LoadPutsPagesInPlace(tb: Table, t: int)
    requires Inv(tb) && HasFreeSlot(tb) && ThreadId(t) && NoneBeforeItsSlot(tb, t)
    ensures var r := Load(tb, t);
      && Inv(r) && HasFreeSlot(r) && SameMemory(tb, r) && SameCounts(tb, r)
      && (forall k | 1 <= k <= PageCount(tb, t) :: InItsSlot(r, t, k))
      && InSlice(LockAllBut(r, t), t)
  {
    var u := Unlock(tb);
    UnlockKeeps(tb);
    assert PageCount(u, t) == PageCount(tb, t);
    assert HasFreeSlot(u) by {
      var i :| PageSlot(i) && tb.meta[i].thread == 0;
      assert u.meta[i].thread == 0;
    }
    ScanLoads(u, t, 1, RESERVED_PAGES);
    var r := Load(tb, t);
    SameTransitive(tb, u, r);
    assert InPlace(r, t) by {
      forall i | RESERVED_PAGES <= i < RESERVED_PAGES + PageCount(r, t) && PageSlot(i) && r.meta[i].thread == t
        ensures r.meta[i].num == i - RESERVED_PAGES + 1
      {
        assert InItsSlot(r, t, i - RESERVED_PAGES + 1);
      }
    }
    LockKeepsSlice(r, t);
  }

  // ----- when the pages end up in place -----

  /** Page m of t is out of its slot for good once page k is next: it has had its
      turn, or it lies before its slot. */
  ghost predicate StaysOut(tb: Table, t: int, k: int, m: int)
    requires Sized(tb)
  {
    && 1 <= m <= PageCount(tb, t) && !InItsSlot(tb, t, m)
    && (m < k || exists i :: i < RESERVED_PAGES + m - 1 && Holds(tb, i, t, m))
  }

  /** The slot for page k, if the scan has passed it, holds no page of t. */
  ghost predicate SlotPassed(tb: Table, t: int, k: int, idx: int)
    requires Sized(tb)
  {
    RESERVED_PAGES + k - 1 < idx && PageSlot(RESERVED_PAGES + k - 1) ==> tb.meta[RESERVED_PAGES + k - 1].thread != t
  }

  /** A page moved back to its slot meets no page of t there, and leaves the
      other pages of t where they are. */
  lemma MoveBackKeepsOut(tb: Table, t: int, k: nat, idx: nat, m: nat)
    requires Inv(tb) && HasFreeSlot(tb) && ThreadId(t) && k >= 1 && Holds(tb, idx, t, k)
    requires idx > RESERVED_PAGES + k - 1 && SlotPassed(tb, t, k, idx) && StaysOut(tb, t, k, m)
    ensures FirstFree(tb.meta) < SCHEDULER_PAGE_START && StaysOut(Swap(tb, RESERVED_PAGES + k - 1, idx), t, k + 1, m)
  {
    hide Layout, Numbered, PageCount, Touched;
    var target := RESERVED_PAGES + k - 1;
    FoundCanMove(tb, t, k, idx);
    FirstFreeIs(tb);
    var r := Swap(tb, target, idx);
    assert PageCount(r, t) == PageCount(tb, t);
    assert m != k;
    assert !InItsSlot(r, t, m) by {
      if InItsSlot(r, t, m) {
        SwapMoves(tb, target, idx, RESERVED_PAGES + m - 1, t, m);
      }
    }
    if m >= k {
      var i :| i < RESERVED_PAGES + m - 1 && Holds(tb, i, t, m);
      assert Holds(r, i, t, m);
    }
  }

  /** A page moved on to its slot leaves the slot of an earlier page empty. */
  lemma MoveOnEmpties(tb: Table, t: int, k: nat, idx: nat)
    requires Inv(tb) && HasFreeSlot(tb) && ThreadId(t) && k >= 1 && Holds(tb, idx, t, k)
    requires idx < RESERVED_PAGES + k - 1
    ensures FirstFree(tb.meta) < SCHEDULER_PAGE_START && PageSlot(RESERVED_PAGES + k - 1)
    ensures StaysOut(Swap(tb, RESERVED_PAGES + k - 1, idx), t, k + 1, idx - RESERVED_PAGES + 1)
  {
    var target := RESERVED_PAGES + k - 1;
    FoundCanMove(tb, t, k, idx);
    var r := Swap(tb, target, idx);
    assert InTable(tb, t, k);
    assert PageCount(r, t) == PageCount(tb, t);
    assert r.meta[idx].thread == 0;
  }

  /** Once some page is out of its slot for good, some page is at the end. */
  lemma {:induction false} ScanLeavesOut(tb: Table, t: int, k: nat, idx: nat, m: nat) returns (w: nat)
    requires Inv(tb) && HasFreeSlot(tb) && ThreadId(t) && k >= 1 && idx >= RESERVED_PAGES
    requires SlotPassed(tb, t, k, idx) && StaysOut(tb, t, k, m)
    ensures 1 <= w <= PageCount(tb, t) && !InItsSlot(Scan(tb, t, k, idx), t, w)
    decreases TOTAL_PAGES - k, SCHEDULER_PAGE_START - idx
  {
    hide Inv, HasFreeSlot, PageCount, Swap, FirstFree;
    var slot := RESERVED_PAGES + k - 1;
    FreeExists(tb);
    InvIsSized(tb);
    if idx >= SCHEDULER_PAGE_START || slot >= SCHEDULER_PAGE_START {
      w := m;
    } else if tb.meta[idx].thread == t && tb.meta[idx].num == k && idx != slot {
      FoundCanMove(tb, t, k, idx);
      var u := Swap(tb, slot, idx);
      if slot < idx {
        MoveBackKeepsOut(tb, t, k, idx, m);
        w := ScanLeavesOut(u, t, k + 1, RESERVED_PAGES + 1, m);
      } else {
        MoveOnEmpties(tb, t, k, idx);
        w := ScanLeavesOut(u, t, k + 1, RESERVED_PAGES + 1, idx - RESERVED_PAGES + 1);
      }
    } else if idx == slot && tb.meta[idx].thread == t {
      w := ScanLeavesOut(tb, t, k + 1, RESERVED_PAGES + 1, m);
    } else {
      w := ScanLeavesOut(tb, t, k, idx + 1, m);
    }
  }

  lemma InvIsSized(tb: Table)
    requires Inv(tb)
    ensures Sized(tb)
  {
  }

  /** Loading puts every page of the thread into its slot exactly when none of
      them lies before its own slot within the thread's range. */
  lemma LoadPlacesExactly(tb: Table, t: int)
    requires Inv(tb) && HasFreeSlot(tb) && ThreadId(t)
    ensures (forall k | 1 <= k <= PageCount(tb, t) :: InItsSlot(Load(tb, t), t, k)) <==> NoneBeforeItsSlot(tb, t)
  {
    if NoneBeforeItsSlot(tb, t) {
      LoadPutsPagesInPlace(tb, t);
    } else {
      var i :| RESERVED_PAGES <= i < RESERVED_PAGES + PageCount(tb, t) && PageSlot(i) && tb.meta[i].thread == t
               && tb.meta[i].num > i - RESERVED_PAGES + 1;
      var u, m := Unlock(tb), tb.meta[i].num;
      UnlockKeeps(tb);
      assert HasFreeSlot(u) by {
        var f :| PageSlot(f) && tb.meta[f].thread == 0;
        assert u.meta[f].thread == 0;
      }
      assert Holds(tb, i, t, m) && Holds(u, i, t, m) && InTable(tb, t, m);
      assert PageCount(u, t) == PageCount(tb, t);
      assert !InItsSlot(u, t, m) by {
        assert Unique(u);
      }
      var w := ScanLeavesOut(u, t, 1, RESERVED_PAGES, m);
      assert !InItsSlot(Load(tb, t), t, w);
    }
  }

  /** The smallest such case: a thread whose two pages sit in each other's slots
      keeps them there, because a slot that holds any page of the thread is
      taken to be in place. */
  lemma CrossedPagesStay(tb: Table, t: int)
    requires Inv(tb) && HasFreeSlot(tb) && ThreadId(t) && PageCount(tb, t) == 2
    requires Holds(tb, RESERVED_PAGES, t, 2) && Holds(tb, RESERVED_PAGES + 1, t, 1)
    ensures !NoneBeforeItsSlot(tb, t)
    ensures Load(tb, t) == Unlock(tb) && !InItsSlot(Load(tb, t), t, 1)
  {
    var u := Unlock(tb);
    FirstFreeIs(tb);
    assert Scan(u, t, 1, RESERVED_PAGES) == Scan(u, t, 2, RESERVED_PAGES + 1);
    assert Scan(u, t, 2, RESERVED_PAGES + 1) == Scan(u, t, 3, RESERVED_PAGES + 1);
    forall i | RESERVED_PAGES + 2 <= i < SCHEDULER_PAGE_START ensures tb.meta[i].thread != t {
      if tb.meta[i].thread == t {
        assert Holds(tb, i, t, tb.meta[i].num) && InTable(tb, t, tb.meta[i].num);
      }
    }
    ScanPassesRest(u, t, 3, RESERVED_PAGES + 1);
  }

  lemma {:induction false} ScanPassesRest(tb: Table, t: int, k: nat, idx: nat)
    requires Sized(tb) && k >= 1
    requires forall i | idx <= i < SCHEDULER_PAGE_START :: tb.meta[i].thread == t ==>
               tb.meta[i].num != k && i != RESERVED_PAGES + k - 1
    ensures Scan(tb, t, k, idx) == tb
    decreases SCHEDULER_PAGE_START - idx
  {
    if idx < SCHEDULER_PAGE_START { ScanPassesRest(tb, t, k, idx + 1); }
  }

  // ----- the stack loader -----

  /** Pages of a thread's stack and context: those of 8186+6 bytes, and one. */
  const STACK_PAGES: nat := (STACK_SIZE + 6) / PAGE_SIZE + 1

  /** The scan of `loadThreadStack`: as above, but it stops after the stack's
      pages and does not advance past a page that is already in its slot. */
  function StackScan(tb: Table, t: int, k: nat, idx: nat): (r: Table)
    requires Sized(tb)
    ensures Sized(r)
    decreases TOTAL_PAGES - k, SCHEDULER_PAGE_START - idx
  {
    var slot := RESERVED_PAGES + k - 1;
    if idx >= SCHEDULER_PAGE_START || FirstFree(tb.meta) >= SCHEDULER_PAGE_START
       || slot < RESERVED_PAGES || slot >= SCHEDULER_PAGE_START then tb
    else if tb.meta[idx].thread == t && tb.meta[idx].num == k && idx != slot
    then
      var u := Swap(tb, slot, idx);
      if k + 1 > STACK_PAGES then u else StackScan(u, t, k + 1, RESERVED_PAGES + 1)
    else StackScan(tb, t, k, idx + 1)
  }

  function LoadStack(tb: Table, t: int): Table
    requires Sized(tb)
  {
    StackScan(Unlock(tb), t, 1, RESERVED_PAGES)
  }

  lemma {:induction false} StackScanKeepsMemory(tb: Table, t: int, k: nat, idx: nat)
    requires Sized(tb) && Inv(tb) && HasFreeSlot(tb) && ThreadId(t) && k >= 1 && idx >= RESERVED_PAGES
    ensures var r := StackScan(tb, t, k, idx);
      Inv(r) && HasFreeSlot(r) && SameMemory(tb, r) && SameCounts(tb, r)
    decreases TOTAL_PAGES - k, SCHEDULER_PAGE_START - idx
  {
    hide Inv, HasFreeSlot, SameMemory, SameCounts, PageCount, Swap, FirstFree;
    var slot := RESERVED_PAGES + k - 1;
    SameReflexive(tb);
    if idx >= SCHEDULER_PAGE_START || FirstFree(tb.meta) >= SCHEDULER_PAGE_START || slot >= SCHEDULER_PAGE_START {
    } else if tb.meta[idx].thread == t && tb.meta[idx].num == k && idx != slot {
      FoundCanMove(tb, t, k, idx);
      if k + 1 <= STACK_PAGES {
        var u := Swap(tb, slot, idx);
        StackScanKeepsMemory(u, t, k + 1, RESERVED_PAGES + 1);
        SameTransitive(tb, u, StackScan(u, t, k + 1, RESERVED_PAGES + 1));
      }
    } else {
      StackScanKeepsMemory(tb, t, k, idx + 1);
    }
  }

  lemma {:induction false} ScanKeepsOpen(tb: Table, t: int, k: nat, idx: nat)
    requires Open(tb)
    ensures Open(Scan(tb, t, k, idx))
    decreases TOTAL_PAGES - k, SCHEDULER_PAGE_START - idx
  {
    hide Swap, Open, FirstFree;
    var slot := RESERVED_PAGES + k - 1;
    OpenIsSized(tb);
    if idx >= SCHEDULER_PAGE_START || FirstFree(tb.meta) >= SCHEDULER_PAGE_START
       || slot < RESERVED_PAGES || slot >= SCHEDULER_PAGE_START {
    } else if tb.meta[idx].thread == t && tb.meta[idx].num == k && idx != slot {
      SwapOpens(tb, slot, idx);
      ScanKeepsOpen(Swap(tb, slot, idx), t, k + 1, RESERVED_PAGES + 1);
    } else if idx == slot && tb.meta[idx].thread == t {
      ScanKeepsOpen(tb, t, k + 1, RESERVED_PAGES + 1);
    } else {
      ScanKeepsOpen(tb, t, k, idx + 1);
    }
  }

  lemma OpenIsSized(tb: Table)
    requires Open(tb)
    ensures Sized(tb)
  {
  }

  lemma {:induction false} StackScanKeepsOpen(tb: Table, t: int, k: nat, idx: nat)
    requires Open(tb)
    ensures Open(StackScan(tb, t, k, idx))
    decreases TOTAL_PAGES - k, SCHEDULER_PAGE_START - idx
  {
    hide Swap, Open, FirstFree;
    var slot := RESERVED_PAGES + k - 1;
    OpenIsSized(tb);
    if idx >= SCHEDULER_PAGE_START || FirstFree(tb.meta) >= SCHEDULER_PAGE_START
       || slot < RESERVED_PAGES || slot >= SCHEDULER_PAGE_START {
    } else if tb.meta[idx].thread == t && tb.meta[idx].num == k && idx != slot {
      SwapOpens(tb, slot, idx);
      StackScanKeepsOpen(Swap(tb, slot, idx), t, k + 1, RESERVED_PAGES + 1);
    } else {
      StackScanKeepsOpen(tb, t, k, idx + 1);
    }
  }

  /** After either load, no slot is protected. */
  lemma LoadsOpen(tb: Table, t: int)
    requires Sized(tb)
    ensures Open(Load(tb, t)) && Open(LoadStack(tb, t))
  {
    UnlockOpens(tb);
    ScanKeepsOpen(Unlock(tb), t, 1, RESERVED_PAGES);
    StackScanKeepsOpen(Unlock(tb), t, 1, RESERVED_PAGES);
  }

  lemma UnlockKeepsFree(tb: Table)
    requires Inv(tb) && HasFreeSlot(tb)
    ensures Inv(Unlock(tb)) && HasFreeSlot(Unlock(tb))
  {
    UnlockKeeps(tb);
    var i :| PageSlot(i) && tb.meta[i].thread == 0;
    assert Unlock(tb).meta[i].thread == 0;
  }

  lemma LoadIsScan(tb: Table, t: int)
    requires Sized(tb)
    ensures Load(tb, t) == Scan(Unlock(tb), t, 1, RESERVED_PAGES)
    ensures LoadStack(tb, t) == StackScan(Unlock(tb), t, 1, RESERVED_PAGES)
  {
  }

  lemma LoadKeepsMemory(tb: Table, t: int)
    requires Inv(tb) && HasFreeSlot(tb) && ThreadId(t)
    ensures var r := Load(tb, t);
      Inv(r) && HasFreeSlot(r) && SameMemory(tb, r) && SameCounts(tb, r)
    ensures var r := LoadStack(tb, t);
      Inv(r) && HasFreeSlot(r) && SameMemory(tb, r) && SameCounts(tb, r)
  {
    UnlockKeeps(tb);
    UnlockKeepsFree(tb);
    ScanKeepsMemory(Unlock(tb), t, 1, RESERVED_PAGES);
    SameTransitive(tb, Unlock(tb), Load(tb, t));
    StackScanKeepsMemory(Unlock(tb), t, 1, RESERVED_PAGES);
    SameTransitive(tb, Unlock(tb), LoadStack(tb, t));
  }
}
