/** The page table worked on in place: the scans, the moves between slots, the
    fault handler, the loaders and the search for pages, each proved to do what
    the functions on tables say. */
module Paging {
  import opened Options
  import opened HeaderBytes
  import opened PageTable
  import opened PageTableLemmas
  import opened FlatMemory
  import opened Loader
  import opened PageAlloc

  class Paging {
    const meta: array<Meta>
    const pages: array<Page>
    const locked: array<bool>
    var threadPageIndex: int

    ghost predicate Allocated() {
      meta.Length == pages.Length == locked.Length == TOTAL_PAGES
    }

    ghost function View(): Table
      reads this, meta, pages, locked
    {
      Table(meta[..], pages[..], locked[..])
    }

    ghost predicate Valid()
      reads this, meta, pages, locked
    {
      Allocated() && Inv(View())
    }

    /** The table when the array has just been set up: the reserved slots named,
        every other header zero, nothing protected. */
    constructor ()
      ensures Valid() && HasFreeSlot(View())
      ensures forall t | t != 0 :: PageCount(View(), t) == 0
      ensures fresh(meta) && fresh(pages) && fresh(locked)
    {
      meta := new Meta[TOTAL_PAGES](i => if i < RESERVED_PAGES then Meta(-1, -1, 0, i, 0) else Cleared(0));
      pages := new Page[TOTAL_PAGES](_ => ZeroPage());
      locked := new bool[TOTAL_PAGES](_ => false);
      threadPageIndex := 1;
      new;
      EmptyTable(View());
    }

    // ----- scans -----

    method FindFreePageUsingMetaData() returns (slot: nat)
      requires Allocated()
      modifies this`threadPageIndex
      ensures slot == FirstFree(meta[..])
      ensures threadPageIndex == if slot < SCHEDULER_PAGE_START then slot else old(threadPageIndex)
    {
      ghost var m := meta[..];
      slot := 0;
      while slot < SCHEDULER_PAGE_START
        invariant slot <= SCHEDULER_PAGE_START
        invariant FirstFree(m) == FindFree(m, slot, SCHEDULER_PAGE_START)
        invariant threadPageIndex == old(threadPageIndex)
      {
        if meta[slot].thread == 0 {
          threadPageIndex := slot;
          return;
        }
        slot := slot + 1;
      }
    }

    /** The slot whose header names location `loc`; TOTAL_PAGES when there is none. */
    method FindPageGivenPageNum(loc: int) returns (slot: nat)
      requires Allocated()
      modifies this`threadPageIndex
      ensures slot <= TOTAL_PAGES && forall i | 0 <= i < slot :: meta[i].loc != loc
      ensures slot < TOTAL_PAGES ==> meta[slot].loc == loc && threadPageIndex == slot
      ensures slot == TOTAL_PAGES ==> threadPageIndex == old(threadPageIndex)
    {
      slot := 0;
      while slot < TOTAL_PAGES
        invariant slot <= TOTAL_PAGES && threadPageIndex == old(threadPageIndex)
        invariant forall i | 0 <= i < slot :: meta[i].loc != loc
      {
        if meta[slot].loc == loc {
          threadPageIndex := slot;
          return;
        }
        slot := slot + 1;
      }
    }

    method FindPageForThreadGivenPageNum(thread: int, num: int) returns (slot: nat)
      requires Allocated()
      modifies this`threadPageIndex
      ensures slot == SlotOf(View(), thread, num)
      ensures threadPageIndex == if slot < SCHEDULER_PAGE_START then slot else old(threadPageIndex)
    {
      ghost var m := meta[..];
      slot := 0;
      while slot < SCHEDULER_PAGE_START
        invariant slot <= SCHEDULER_PAGE_START
        invariant SlotOf(View(), thread, num) == FindPage(m, thread, num, slot, SCHEDULER_PAGE_START)
        invariant threadPageIndex == old(threadPageIndex)
      {
        if meta[slot].num == num && meta[slot].thread == thread {
          threadPageIndex := slot;
          return;
        }
        slot := slot + 1;
      }
    }

    /** Scans all slots, the fixed ones at the end too. */
    method FindMetaDataGivenPageNum(thread: int, num: int) returns (slot: nat)
      requires Allocated()
      ensures slot == FindPage(meta[..], thread, num, 0, TOTAL_PAGES)
    {
      ghost var m := meta[..];
      slot := 0;
      while slot < TOTAL_PAGES
        invariant slot <= TOTAL_PAGES
        invariant FindPage(m, thread, num, 0, TOTAL_PAGES) == FindPage(m, thread, num, slot, TOTAL_PAGES)
      {
        if meta[slot].num == num && meta[slot].thread == thread {
          return;
        }
        slot := slot + 1;
      }
    }

    // ----- protection -----

    method UnlockMemoryPages()
      requires Allocated()
      modifies locked
      ensures View() == Unlock(old(View())) && Open(View())
    {
      for i := 0 to TOTAL_PAGES
        invariant forall k | 0 <= k < i :: !locked[k]
      {
        locked[i] := false;
      }
      assert locked[..] == seq(TOTAL_PAGES, _ => false);
    }

    method LockAllButThread(thread: int)
      requires Allocated()
      modifies locked
      ensures View() == LockAllBut(old(View()), thread)
      ensures forall i | 0 <= i < TOTAL_PAGES :: locked[i] <==> PageSlot(i) && meta[i].thread != thread
    {
      UnlockMemoryPages();
      for i := RESERVED_PAGES to SCHEDULER_PAGE_START
        invariant forall k | 0 <= k < TOTAL_PAGES ::
                    locked[k] == (RESERVED_PAGES <= k < i && meta[k].thread != thread)
      {
        if meta[i].thread != thread {
          locked[i] := true;
        }
      }
      assert locked[..] == LockAllBut(old(View()), thread).locked;
    }

    // ----- moving pages -----

    /** Copies a page and its header to slot `dst` and names the new location. */
    method CopyTo(page: nat, header: nat, dst: nat)
      requires Allocated() && page < TOTAL_PAGES && header < TOTAL_PAGES && dst < TOTAL_PAGES
      modifies meta, pages
      ensures meta[..] == old(meta[..])[dst := old(meta[header]).(loc := dst)]
      ensures pages[..] == old(pages[..])[dst := old(pages[page])]
    {
      pages[dst] := pages[page];
      meta[dst] := meta[header];
      meta[dst] := meta[dst].(loc := dst);
    }

    method ClearHeader(slot: nat)
      requires Allocated() && slot < TOTAL_PAGES
      modifies meta
      ensures meta[..] == old(meta[..])[slot := Cleared(slot)]
    {
      meta[slot] := Cleared(0);
      meta[slot] := meta[slot].(loc := slot);
    }

    /** Puts the page in slot `src` into slot `target`.  The page that is there is
        found by its location, its header by index; the two agree. */
    method SwapPages(target: nat, src: nat)
      requires Valid() && HasFreeSlot(View()) && Owned(meta[..], src)
      requires PageSlot(target) && Touched(meta[..], target)
      modifies this`threadPageIndex, meta, pages, locked
      ensures FirstFree(old(View()).meta) < SCHEDULER_PAGE_START
      ensures View() == Swap(old(View()), target, src) && Valid() && HasFreeSlot(View()) && Open(View())
      ensures threadPageIndex == target
    {
      hide Inv, HasFreeSlot, Swap, FirstFree, Relocate;
      ghost var tb := View();
      SwapKeeps(tb, target, src);
      SwapOpens(tb, target, src);
      UnlockMemoryPages();
      var free := FindFreePageUsingMetaData();
      FreeIsNeither(tb, target, src);
      var evict := FindPageGivenPageNum(target);
      ScanByLocation(tb, target, evict);
      SwapIsCopies(tb, target, src);
      if src == meta[target].loc {
        return;
      }
      if meta[target].thread != 0 {
        CopyTo(evict, target, free);
        CopyTo(src, src, evict);
        ClearHeader(src);
      } else {
        CopyTo(src, src, evict);
        ClearHeader(src);
      }
    }

    /** Loads the page that was addressed; false when the process exits. */
    method PageFaultHandler(thread: int, addr: nat) returns (served: bool)
      requires Valid() && HasFreeSlot(View()) && ThreadId(thread)
      modifies this`threadPageIndex, meta, pages, locked
      ensures FirstFree(old(View()).meta) < SCHEDULER_PAGE_START
      ensures served == Fault(old(View()), thread, addr).Some?
      ensures View() == if served then Fault(old(View()), thread, addr).value else old(View())
    {
      ghost var tb := View();
      FirstFreeIs(tb);
      if addr < RESERVED_PAGES + 1 || addr >= HEAP_SIZE {
        return false;
      }
      var slot := addr / PAGE_SIZE;
      var num := slot - RESERVED_PAGES + 1;
      var src := FindPageForThreadGivenPageNum(thread, num);
      if src == SCHEDULER_PAGE_START {
        return false;
      }
      HandlerTarget(tb, thread, num, src);
      var header := FindMetaDataGivenPageNum(thread, num);
      SwapPages(slot, header);
      LockAllButThread(thread);
      return true;
    }

    /** One read or write of the running thread; None when the process exits. */
    method Access(thread: int, a: Access) returns (result: Option<byte>)
      requires Valid() && HasFreeSlot(View()) && ThreadId(thread) && a.addr < HEAP_SIZE
      modifies this`threadPageIndex, meta, pages, locked
      ensures FirstFree(old(View()).meta) < SCHEDULER_PAGE_START
      ensures result.Some? <==> Step(old(View()), thread, a).Some?
      ensures result.Some? ==> (View(), result.value) == Step(old(View()), thread, a).value
      ensures result.None? ==> View() == old(View())
    {
      FirstFreeIs(View());
      var slot, off := a.addr / PAGE_SIZE, a.addr % PAGE_SIZE;
      if locked[slot] {
        var served := PageFaultHandler(thread, a.addr);
        if !served {
          return None;
        }
      }
      match a {
        case Read(_) =>
          return Some(pages[slot][off]);
        case Write(_, v) =>
          pages[slot] := pages[slot][off := v];
          return Some(v);
      }
    }

    // ----- loaders -----

    method LoadLibraryPages(thread: int)
      requires Valid() && HasFreeSlot(View()) && ThreadId(thread)
      modifies this`threadPageIndex, meta, pages, locked
      ensures View() == Load(old(View()), thread)
      ensures Valid() && HasFreeSlot(View()) && Open(View())
      ensures SameMemory(old(View()), View()) && SameCounts(old(View()), View())
    {
      hide Inv, HasFreeSlot, SameMemory, SameCounts, Swap, FirstFree, Load;
      ghost var tb := View();
      LoadKeepsMemory(tb, thread);
      LoadsOpen(tb, thread);
      LoadIsScan(tb, thread);
      UnlockMemoryPages();
      UnlockKeepsFree(tb);
      var startPageIndexForThread := 1;
      var positionLoadTo := RESERVED_PAGES;
      var pageIndex := RESERVED_PAGES;
      while pageIndex < SCHEDULER_PAGE_START
        invariant startPageIndexForThread >= 1 && pageIndex >= RESERVED_PAGES
        invariant positionLoadTo == RESERVED_PAGES + startPageIndexForThread - 1 <= SCHEDULER_PAGE_START
        invariant Allocated() && Inv(View()) && HasFreeSlot(View())
        invariant Scan(View(), thread, startPageIndexForThread, pageIndex) == Load(tb, thread)
        decreases SCHEDULER_PAGE_START - positionLoadTo, SCHEDULER_PAGE_START - pageIndex
      {
        ghost var now := View();
        FreeExists(now);
        assert now.meta[pageIndex] == meta[pageIndex];
        if meta[pageIndex].thread == thread && meta[pageIndex].num == startPageIndexForThread
           && pageIndex != positionLoadTo
        {
          FoundTarget(now, thread, startPageIndexForThread, pageIndex);
          SwapPages(positionLoadTo, pageIndex);
          positionLoadTo := positionLoadTo + 1;
          pageIndex := RESERVED_PAGES;
          startPageIndexForThread := startPageIndexForThread + 1;
        } else if pageIndex == positionLoadTo && meta[pageIndex].thread == thread {
          positionLoadTo := positionLoadTo + 1;
          pageIndex := RESERVED_PAGES;
          startPageIndexForThread := startPageIndexForThread + 1;
        }
        pageIndex := pageIndex + 1;
      }
    }

    method LoadThreadStack(thread: int)
      requires Valid() && HasFreeSlot(View()) && ThreadId(thread)
      modifies this`threadPageIndex, meta, pages, locked
      ensures View() == LoadStack(old(View()), thread)
      ensures Valid() && HasFreeSlot(View()) && Open(View())
      ensures SameMemory(old(View()), View()) && SameCounts(old(View()), View())
    {
      hide Inv, HasFreeSlot, SameMemory, SameCounts, Swap, FirstFree, LoadStack;
      ghost var tb := View();
      LoadKeepsMemory(tb, thread);
      LoadsOpen(tb, thread);
      LoadIsScan(tb, thread);
      UnlockMemoryPages();
      UnlockKeepsFree(tb);
      var startPageIndexForThread := 1;
      var positionLoadTo := RESERVED_PAGES;
      var pageIndex := RESERVED_PAGES;
      while pageIndex < SCHEDULER_PAGE_START
        invariant startPageIndexForThread >= 1 && pageIndex >= RESERVED_PAGES
        invariant positionLoadTo == RESERVED_PAGES + startPageIndexForThread - 1 <= SCHEDULER_PAGE_START
        invariant Allocated() && Inv(View()) && HasFreeSlot(View())
        invariant StackScan(View(), thread, startPageIndexForThread, pageIndex) == LoadStack(tb, thread)
        decreases SCHEDULER_PAGE_START - positionLoadTo, SCHEDULER_PAGE_START - pageIndex
      {
        ghost var now := View();
        FreeExists(now);
        assert now.meta[pageIndex] == meta[pageIndex];
        if meta[pageIndex].thread == thread && meta[pageIndex].num == startPageIndexForThread
           && pageIndex != positionLoadTo
        {
          FoundTarget(now, thread, startPageIndexForThread, pageIndex);
          SwapPages(positionLoadTo, pageIndex);
          positionLoadTo := positionLoadTo + 1;
          pageIndex := RESERVED_PAGES;
          startPageIndexForThread := startPageIndexForThread + 1;
          if startPageIndexForThread > STACK_PAGES {
            break;
          }
        }
        pageIndex := pageIndex + 1;
      }
    }

    // ----- finding pages -----

    method FindNumberOfFreePages(pagesNeeded: nat) returns (enough: bool)
      requires Valid() && pagesNeeded >= 1
      ensures enough <==> PageCount(View(), 0) >= pagesNeeded
    {
      var needed := pagesNeeded;
      var pageIndex := 0;
      while pageIndex < SCHEDULER_PAGE_START
        invariant pageIndex <= SCHEDULER_PAGE_START
        invariant needed >= 1 && needed + Count(meta[..], 0, pageIndex) == pagesNeeded
      {
        if meta[pageIndex].thread == 0 {
          needed := needed - 1;
        }
        if needed == 0 {
          CountGrows(View(), 0, pageIndex + 1);
          return true;
        }
        pageIndex := pageIndex + 1;
      }
      return false;
    }

    /** Looks for a page of the thread whose usage field admits the request, and
        otherwise for `span` free slots to make a new region of. */
    method FindFreePage(thread: int, size: int, span: nat) returns (found: Found)
      requires Valid() && ThreadId(thread) && span >= 1
      modifies this`threadPageIndex, meta, pages, locked
      ensures found == PageAlloc.FindFreePage(old(View()), thread, size, span)
      ensures View() == AfterFindFreePage(old(View()), thread, size, span) && Valid() && Open(View())
      ensures found.Reused? || found.Fresh? ==> threadPageIndex == found.index
    {
      hide PageOf, KeepsPages, SameMemory, SameCounts, Claim, Inv, Grown, NewPage, FirstFree, Open, FindUsable, Count;
      ghost var tb := View();
      FindFreePageEffect(tb, thread, size, span);
      SearchOpens(tb, thread, size, span);
      SearchStarts(tb, thread, size);
      UnlockMemoryPages();
      UnlockKeeps(tb);
      var threadPageCount := 1;
      var pageIndex := 0;
      while pageIndex < SCHEDULER_PAGE_START
        invariant pageIndex <= SCHEDULER_PAGE_START && View() == Unlock(tb)
        invariant threadPageCount == 1 + Count(tb.meta, thread, pageIndex)
        invariant FindUsable(tb.meta, thread, size, 0) == FindUsable(tb.meta, thread, size, pageIndex)
      {
        assert tb.meta[pageIndex] == meta[pageIndex];
        SearchStep(tb, thread, size, pageIndex);
        if meta[pageIndex].thread == thread {
          threadPageCount := threadPageCount + 1;
          if size <= meta[pageIndex].usage {
            threadPageCount := threadPageCount - 1;
            threadPageIndex := threadPageCount;
            return Reused(pageIndex, threadPageCount);
          }
        }
        pageIndex := pageIndex + 1;
      }
      if threadPageCount > MAX_THREAD_PAGES {
        return Full;
      }
      var enough := FindNumberOfFreePages(span);
      if !enough {
        return if span == 1 then Evicts else Full;
      }
      var slot := ClaimPages(thread, threadPageCount, span);
      return Fresh(slot, threadPageCount);
    }

    /** Sets up the shared region in the last four slots. */
    method MakeShallocPages() returns (slot: nat)
      requires Valid()
      modifies this`threadPageIndex, meta, pages
      ensures View() == MakeShared(old(View())) && slot == 2044 && threadPageIndex == 1
      ensures meta[2044] == Meta(-5, 1, 16378, 2044, 4)
      ensures forall i | 2045 <= i < 2048 :: meta[i] == Meta(-5, -5, -1, i, 4)
    {
      slot := 2044;
      meta[slot] := Meta(-5, 1, 4 * PAGE_SIZE - 6, slot, 4);
      meta[slot + 1] := Meta(-5, -5, -1, slot + 1, 4);
      meta[slot + 2] := Meta(-5, -5, -1, slot + 2, 4);
      meta[slot + 3] := Meta(-5, -5, -1, slot + 3, 4);
      pages[slot] := InitialPage(4);
      threadPageIndex := 1;
      assert meta[..] == MakeShared(old(View())).meta;
    }

    /** Fills in one slot's header; the first one's page is initialised. */
    method ClaimSlot(thread: int, first: nat, j: nat, span: nat, slot: nat)
      requires Allocated() && slot == FirstFree(meta[..]) < SCHEDULER_PAGE_START
      modifies this`threadPageIndex, meta, pages
      ensures View() == ClaimOne(old(View()), thread, first, j, span)
      ensures meta[slot].thread == thread && meta[..] == old(meta[..])[slot := meta[slot]]
      ensures threadPageIndex == if j == 0 then first else old(threadPageIndex)
    {
      meta[slot] := NewMeta(thread, first, j, span, slot);
      if j == 0 {
        pages[slot] := InitialPage(span);
        threadPageIndex := first;
      }
    }

    /** Gives the first `span` free slots, in slot order, to a new region. */
    method ClaimPages(thread: int, first: nat, span: nat) returns (slot: nat)
      requires Valid() && ThreadId(thread) && span >= 1 && PageCount(View(), 0) >= span
      modifies this`threadPageIndex, meta, pages
      ensures View() == Claim(old(View()), thread, first, 0, span)
      ensures slot == FirstFree(old(meta[..])) && threadPageIndex == first
    {
      hide Inv, ClaimOne, Claim, Claiming, FirstFree, PageCount, HasFreeSlot;
      ghost var tb := View();
      FreeSlotCount(tb);
      FreeExists(tb);
      ClaimStarts(tb, thread, first, span);
      slot := SCHEDULER_PAGE_START;
      var numAllocated := 0;
      for pageIndex := 0 to SCHEDULER_PAGE_START
        invariant Claiming(tb, View(), thread, first, span, numAllocated, pageIndex)
        invariant numAllocated > 0 ==> slot == FirstFree(tb.meta) && threadPageIndex == first
      {
        ghost var now := View();
        assert now.meta[pageIndex] == meta[pageIndex];
        ClaimAdvances(tb, now, thread, first, span, numAllocated, pageIndex);
        if meta[pageIndex].thread == 0 && numAllocated < span {
          ClaimSlot(thread, first, numAllocated, span, pageIndex);
          if numAllocated == 0 {
            slot := pageIndex;
          }
          numAllocated := numAllocated + 1;
        }
      }
      ClaimEnds(tb, View(), thread, first, span, numAllocated);
    }
  }

  lemma SearchStarts(tb: Table, t: int, size: int)
    requires Inv(tb)
    ensures Sized(tb) && Count(tb.meta, t, 0) == 0
    ensures FindUsable(tb.meta, t, size, SCHEDULER_PAGE_START) == SCHEDULER_PAGE_START
  {
  }

  /** One header of the search; no thread owns a slot that is not for pages. */
  lemma SearchStep(tb: Table, t: int, size: int, i: nat)
    requires Inv(tb) && ThreadId(t) && i < SCHEDULER_PAGE_START
    ensures Sized(tb)
    ensures Count(tb.meta, t, i + 1) == Count(tb.meta, t, i) + if tb.meta[i].thread == t then 1 else 0
    ensures FindUsable(tb.meta, t, size, i)
            == if tb.meta[i].thread == t && size <= tb.meta[i].usage then i else FindUsable(tb.meta, t, size, i + 1)
  {
  }

  /** Half way through claiming slots: j of `span` pages have one, and no slot
      below idx is free unless all have. */
  ghost predicate Claiming(tb: Table, now: Table, t: int, first: nat, span: nat, j: nat, idx: nat) {
    && Sized(tb) && Sized(now) && j <= span && idx <= SCHEDULER_PAGE_START
    && Claim(tb, t, first, 0, span) == Claim(now, t, first, j, span)
    && (j < span ==> FirstFree(now.meta) == FindFree(now.meta, idx, SCHEDULER_PAGE_START))
    && (j == 0 ==> now == tb)
  }

  lemma ClaimStarts(tb: Table, t: int, first: nat, span: nat)
    requires Sized(tb)
    ensures Claiming(tb, tb, t, first, span, 0, 0)
  {
  }

  lemma ClaimAdvances(tb: Table, now: Table, t: int, first: nat, span: nat, j: nat, idx: nat)
    requires Claiming(tb, now, t, first, span, j, idx) && idx < SCHEDULER_PAGE_START && t != 0
    ensures !(now.meta[idx].thread == 0 && j < span) ==> Claiming(tb, now, t, first, span, j, idx + 1)
    ensures now.meta[idx].thread == 0 && j < span ==>
              && FirstFree(now.meta) == idx && (j == 0 ==> FirstFree(tb.meta) == idx)
              && Claiming(tb, ClaimOne(now, t, first, j, span), t, first, span, j + 1, idx + 1)
  {
    if now.meta[idx].thread == 0 && j < span {
      FindFreeAfter(now.meta, idx, NewMeta(t, first, j, span, idx));
    }
  }

  lemma ClaimEnds(tb: Table, now: Table, t: int, first: nat, span: nat, j: nat)
    requires Claiming(tb, now, t, first, span, j, SCHEDULER_PAGE_START)
    requires FirstFree(tb.meta) < SCHEDULER_PAGE_START && span >= 1
    ensures now == Claim(tb, t, first, 0, span) && j > 0
  {
  }

  function ZeroPage(): Page {
    seq(PAGE_SIZE, _ => 0 as byte)
  }

  lemma EmptyTable(tb: Table)
    requires Sized(tb)
    requires forall i | 0 <= i < TOTAL_PAGES ::
               tb.meta[i] == if i < RESERVED_PAGES then Meta(-1, -1, 0, i, 0) else Cleared(0)
    ensures Inv(tb) && HasFreeSlot(tb)
    ensures forall t | t != 0 :: PageCount(tb, t) == 0
  {
    forall t | t != 0 ensures PageCount(tb, t) == 0 {
      CountBound(tb.meta, t, RESERVED_PAGES, SCHEDULER_PAGE_START);
    }
    assert tb.meta[RESERVED_PAGES].thread == 0;
  }

  /** The scan by location, which goes over all 2048 headers, always stops at
      the slot that the location is the index of. */
  lemma ScanByLocation(tb: Table, target: nat, found: nat)
    requires Inv(tb) && PageSlot(target) && Touched(tb.meta, target)
    requires found <= TOTAL_PAGES && forall i | 0 <= i < found :: tb.meta[i].loc != target
    requires found < TOTAL_PAGES ==> tb.meta[found].loc == target
    ensures found == target
  {
    forall i | 0 <= i < TOTAL_PAGES && i != target ensures tb.meta[i].loc != target {}
  }

  lemma FreeIsNeither(tb: Table, target: nat, src: nat)
    requires Inv(tb) && HasFreeSlot(tb) && Owned(tb.meta, src) && PageSlot(target)
    ensures FirstFree(tb.meta) < SCHEDULER_PAGE_START && FirstFree(tb.meta) != src
    ensures tb.meta[target].thread != 0 ==> FirstFree(tb.meta) != target
  {
    FirstFreeIs(tb);
  }

  function Copied(tb: Table, src: nat, dst: nat): Table
    requires Sized(tb) && src < TOTAL_PAGES && dst < TOTAL_PAGES
  {
    tb.(meta := tb.meta[dst := tb.meta[src].(loc := dst)], pages := tb.pages[dst := tb.pages[src]])
  }

  function HeaderCleared(tb: Table, slot: nat): Table
    requires Sized(tb) && slot < TOTAL_PAGES
  {
    tb.(meta := tb.meta[slot := Cleared(slot)])
  }

  /** A swap as the copies that the source makes: one header is cleared, at the end. */
  lemma SwapIsCopies(tb: Table, target: nat, src: nat)
    requires Sized(tb) && target < TOTAL_PAGES && src < TOTAL_PAGES
    requires FirstFree(tb.meta) < SCHEDULER_PAGE_START
    requires FirstFree(tb.meta) != src && (tb.meta[target].thread != 0 ==> FirstFree(tb.meta) != target)
    ensures var u, f := Unlock(tb), FirstFree(tb.meta);
      Swap(tb, target, src) ==
        if src == target then u
        else if tb.meta[target].thread != 0
        then HeaderCleared(Copied(Copied(u, target, f), src, target), src)
        else HeaderCleared(Copied(u, src, target), src)
  {
    var u, f := Unlock(tb), FirstFree(tb.meta);
    var a := HeaderCleared(Copied(Copied(u, target, f), src, target), src);
    var b := Relocate(Relocate(u, target, f), src, target);
    if src != target && tb.meta[target].thread != 0 {
      assert a.meta == b.meta;
      assert a.pages == b.pages;
    }
  }

  /** What the handler is about to swap is there to be swapped, and both header
      searches find the same slot. */
  lemma HandlerTarget(tb: Table, t: int, num: int, src: nat)
    requires Inv(tb) && HasFreeSlot(tb) && ThreadId(t)
    requires src == SlotOf(tb, t, num) < SCHEDULER_PAGE_START
    ensures Owned(tb.meta, src) && PageSlot(RESERVED_PAGES + num - 1)
    ensures Touched(tb.meta, RESERVED_PAGES + num - 1)
    ensures FindPage(tb.meta, t, num, 0, TOTAL_PAGES) == src
  {
    assert Holds(tb, src, t, num) && InTable(tb, t, num);
    RangeIsTouched(tb, t, RESERVED_PAGES + num - 1);
  }

  lemma FoundTarget(tb: Table, t: int, k: nat, idx: nat)
    requires Inv(tb) && ThreadId(t) && k >= 1 && Holds(tb, idx, t, k)
    ensures PageSlot(RESERVED_PAGES + k - 1) && Touched(tb.meta, RESERVED_PAGES + k - 1) && Owned(tb.meta, idx)
  {
    assert InTable(tb, t, k);
    RangeIsTouched(tb, t, RESERVED_PAGES + k - 1);
  }

  /** Taking the first free slot leaves the next one to be found further on. */
  lemma FindFreeAfter(meta: seq<Meta>, f: nat, m: Meta)
    requires |meta| == TOTAL_PAGES && f == FirstFree(meta) < SCHEDULER_PAGE_START && m.thread != 0
    ensures FirstFree(meta[f := m]) == FindFree(meta[f := m], f + 1, SCHEDULER_PAGE_START)
  {
    FindFreeFrom(meta[f := m], 0, f + 1);
  }

  lemma {:induction false} FindFreeFrom(meta: seq<Meta>, lo: nat, hi: nat)
    requires lo <= hi <= SCHEDULER_PAGE_START <= |meta|
    requires forall i | lo <= i < hi :: meta[i].thread != 0
    ensures FindFree(meta, lo, SCHEDULER_PAGE_START) == FindFree(meta, hi, SCHEDULER_PAGE_START)
    decreases hi - lo
  {
    if lo < hi { FindFreeFrom(meta, lo + 1, hi); }
  }

  lemma CountGrows(tb: Table, t: int, hi: nat)
    requires Sized(tb) && hi <= SCHEDULER_PAGE_START
    ensures Count(tb.meta, t, hi) <= PageCount(tb, t)
  {
    if hi >= RESERVED_PAGES {
      CountBound(tb.meta, t, hi, SCHEDULER_PAGE_START);
    } else {
      CountBound(tb.meta, t, RESERVED_PAGES, SCHEDULER_PAGE_START);
    }
  }
}
