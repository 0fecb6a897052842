/** `findFreePage`: finds a region of a thread that may hold a request, or
    gives the thread new pages for one; and the addresses that result. */
module PageAlloc {
  import opened Options
  import opened HeaderBytes
  import opened PageTable
  import opened PageTableLemmas
  import opened FlatMemory
  import ChunkList
  import ChunkListLemmas
  import Region

  /** The most pages that a thread may own. */
  const MAX_THREAD_PAGES: nat := 2035

  /** How the search ends: a page of the thread whose usage field admits the
      request, or new pages; each with the slot of the first page and the value
      left in `Thread_Page_Index`.  Full is the null pointer.  Evicts leaves the
      slots for the swap file, which is not part of this model. */
  datatype Found = Reused(slot: nat, index: nat) | Fresh(slot: nat, index: nat) | Full | Evicts

  /** The lowest slot from `from` on with a page of t that admits the request. */
  function FindUsable(meta: seq<Meta>, t: int, size: int, from: nat): (r: nat)
    requires from <= SCHEDULER_PAGE_START <= |meta|
    ensures from <= r <= SCHEDULER_PAGE_START
    ensures r < SCHEDULER_PAGE_START ==> meta[r].thread == t && size <= meta[r].usage
    ensures forall i | from <= i < r :: !(meta[i].thread == t && size <= meta[i].usage)
    decreases SCHEDULER_PAGE_START - from
  {
    if from == SCHEDULER_PAGE_START || (meta[from].thread == t && size <= meta[from].usage) then from
    else FindUsable(meta, t, size, from + 1)
  }

  /** The bytes `initialize` leaves in the first page of a region. */
  function InitialPage(span: nat): Page {
    var zeros := seq(PAGE_SIZE, _ => 0 as byte);
    PutPrev(PutSize(PutFree(zeros, 0, true), 0, span * PAGE_SIZE - 6), 0, 0)
  }

  /** The header of page j of a new region whose first page has number `first`. */
  function NewMeta(t: int, first: nat, j: nat, span: nat, slot: nat): Meta {
    Meta(t, first + j, if j == 0 then ChunkList.AsShort(span * PAGE_SIZE - 6) else -1, slot, span)
  }

  /** Gives page j of a new region the first free slot. */
  function ClaimOne(tb: Table, t: int, first: nat, j: nat, span: nat): (r: Table)
    requires Sized(tb) && FirstFree(tb.meta) < SCHEDULER_PAGE_START
    ensures Sized(r)
  {
    var f := FirstFree(tb.meta);
    tb.(meta := tb.meta[f := NewMeta(t, first, j, span, f)],
        pages := tb.pages[f := if j == 0 then InitialPage(span) else tb.pages[f]])
  }

  /** Gives pages j.. of a new region of `span` pages their slots. */
  function Claim(tb: Table, t: int, first: nat, j: nat, span: nat): (r: Table)
    requires Sized(tb)
    ensures Sized(r)
    decreases span - j
  {
    if j >= span || FirstFree(tb.meta) >= SCHEDULER_PAGE_START then tb
    else Claim(ClaimOne(tb, t, first, j, span), t, first, j + 1, span)
  }

  function FindFreePage(tb: Table, t: int, size: int, span: nat): Found
    requires Sized(tb)
  {
    var r := FindUsable(tb.meta, t, size, 0);
    var first := PageCount(tb, t) + 1;
    if r < SCHEDULER_PAGE_START then Reused(r, Count(tb.meta, t, r + 1))
    else if first > MAX_THREAD_PAGES then Full
    else if PageCount(tb, 0) >= span then Fresh(FirstFree(tb.meta), first)
    else if span == 1 then Evicts
    else Full
  }

  function AfterFindFreePage(tb: Table, t: int, size: int, span: nat): Table
    requires Sized(tb)
  {
    if FindFreePage(tb, t, size, span).Fresh? then Claim(Unlock(tb), t, PageCount(tb, t) + 1, 0, span)
    else Unlock(tb)
  }

  /** `makeShallocPages`: the four fixed slots at the end become the shared region. */
  function MakeShared(tb: Table): (r: Table)
    requires Sized(tb)
    ensures Sized(r)
  {
    tb.(meta := tb.meta[2044 := Meta(-5, 1, 4 * PAGE_SIZE - 6, 2044, 4)]
                       [2045 := Meta(-5, -5, -1, 2045, 4)]
                       [2046 := Meta(-5, -5, -1, 2046, 4)]
                       [2047 := Meta(-5, -5, -1, 2047, 4)],
        pages := tb.pages[2044 := InitialPage(4)])
  }

  // ----- new pages -----

  lemma ClaimOneHolds(tb: Table, t: int, first: nat, j: nat, span: nat, t': int, k: int)
    requires Inv(tb) && ThreadId(t) && HasFreeSlot(tb) && t' != 0
    ensures FirstFree(tb.meta) < SCHEDULER_PAGE_START && PageSlot(FirstFree(tb.meta))
    ensures forall i :: Holds(ClaimOne(tb, t, first, j, span), i, t', k) <==>
              Holds(tb, i, t', k) || (i == FirstFree(tb.meta) && t' == t && k == first + j)
  {
    FirstFreeIs(tb);
  }

  lemma ClaimOneLayout(tb: Table, t: int, first: nat, j: nat, span: nat)
    requires Inv(tb) && ThreadId(t) && HasFreeSlot(tb)
    ensures FirstFree(tb.meta) < SCHEDULER_PAGE_START
    ensures Layout(ClaimOne(tb, t, first, j, span).meta)
  {
    FirstFreeIs(tb);
    var f := FirstFree(tb.meta);
    var meta := ClaimOne(tb, t, first, j, span).meta;
    forall i, j' | RESERVED_PAGES <= i < j' < SCHEDULER_PAGE_START && Touched(meta, j')
      ensures Touched(meta, i)
    {
      assert Touched(tb.meta, j') || j' == f;
      assert i == f || Touched(tb.meta, i);
    }
  }

  /** Every page there was is there still, with the same contents. */
  ghost predicate KeepsPages(a: Table, b: Table) {
    && Sized(a) && Sized(b)
    && forall t, k | t != 0 && InTable(a, t, k) :: PageOf(b, t, k) == PageOf(a, t, k)
  }

  /** Thread t owns d pages more, from free slots; other threads as before. */
  ghost predicate Grown(a: Table, b: Table, t: int, d: int) {
    && Sized(a) && Sized(b)
    && PageCount(b, t) == PageCount(a, t) + d && PageCount(b, 0) == PageCount(a, 0) - d
    && forall t' | t' != t && t' != 0 :: PageCount(b, t') == PageCount(a, t')
  }

  lemma ClaimOneKeeps(tb: Table, t: int, first: nat, j: nat, span: nat)
    requires Inv(tb) && ThreadId(t) && HasFreeSlot(tb)
    requires first + j == PageCount(tb, t) + 1
    ensures FirstFree(tb.meta) < SCHEDULER_PAGE_START
    ensures var r := ClaimOne(tb, t, first, j, span);
      && Inv(r) && KeepsPages(tb, r) && Grown(tb, r, t, 1) && InTable(r, t, first + j)
      && PageOf(r, t, first + j) ==
           Some(Content(if j == 0 then InitialPage(span) else tb.pages[FirstFree(tb.meta)],
                        NewMeta(t, first, j, span, 0).usage, span))
  {
    FirstFreeIs(tb);
    var f := FirstFree(tb.meta);
    var r := ClaimOne(tb, t, first, j, span);
    ClaimOneLayout(tb, t, first, j, span);
    forall t' ensures PageCount(r, t') == PageCount(tb, t') + (if t' == t then 1 else 0) - (if t' == 0 then 1 else 0) {
      CountUpdate(tb.meta, f, NewMeta(t, first, j, span, f), t', SCHEDULER_PAGE_START);
    }
    ClaimOneUnique(tb, t, first, j, span);
    forall t', k | t' != 0
      ensures InTable(r, t', k) <==> InTable(tb, t', k) || (t' == t && k == first + j)
      ensures InTable(tb, t', k) ==> PageOf(r, t', k) == PageOf(tb, t', k)
    {
      ClaimOneHolds(tb, t, first, j, span, t', k);
      if InTable(tb, t', k) {
        var i :| Holds(tb, i, t', k);
        PageOfIs(tb, i, t', k);
        PageOfIs(r, i, t', k);
      }
      if InTable(r, t', k) { var i :| Holds(r, i, t', k); }
      if t' == t && k == first + j { assert Holds(r, f, t', k); }
    }
    PageOfIs(r, f, t, first + j);
  }

  lemma ClaimOneUnique(tb: Table, t: int, first: nat, j: nat, span: nat)
    requires Inv(tb) && ThreadId(t) && HasFreeSlot(tb)
    requires first + j == PageCount(tb, t) + 1
    ensures FirstFree(tb.meta) < SCHEDULER_PAGE_START && Unique(ClaimOne(tb, t, first, j, span))
  {
    FirstFreeIs(tb);
    var r := ClaimOne(tb, t, first, j, span);
    forall a, b, t', k | t' != 0 && Holds(r, a, t', k) && Holds(r, b, t', k) ensures a == b {
      ClaimOneHolds(tb, t, first, j, span, t', k);
      assert Holds(tb, a, t', k) || Holds(tb, b, t', k) ==> InTable(tb, t', k);
    }
  }

  lemma {:induction false} ClaimKeeps(tb: Table, t: int, first: nat, j: nat, span: nat)
    requires Sized(tb) && Inv(tb) && ThreadId(t) && first + j == PageCount(tb, t) + 1
    requires j <= span && PageCount(tb, 0) >= span - j
    ensures var r := Claim(tb, t, first, j, span);
      && Inv(r) && KeepsPages(tb, r) && Grown(tb, r, t, span - j)
      && (forall i | j <= i < span :: NewPage(r, t, first, i, span))
    decreases span - j
  {
    hide PageOf, Count, Layout, Unique, Numbered, ClaimOne;
    var r := Claim(tb, t, first, j, span);
    if j < span {
      FreeSlotCount(tb);
      ClaimOneKeeps(tb, t, first, j, span);
      var u := ClaimOne(tb, t, first, j, span);
      ClaimKeeps(u, t, first, j + 1, span);
      assert InTable(u, t, first + j);
      KeepsTransitive(tb, u, r);
      assert NewPage(r, t, first, j, span);
    }
  }

  /** Page i of a new region: its own number, the region's span, and the first
      one initialised. */
  ghost predicate NewPage(tb: Table, t: int, first: nat, i: nat, span: nat) {
    && Sized(tb) && PageOf(tb, t, first + i).Some?
    && var c := PageOf(tb, t, first + i).value;
       c.span == span && c.usage == NewMeta(t, first, i, span, 0).usage && (i == 0 ==> c.page == InitialPage(span))
  }

  lemma KeepsTransitive(a: Table, b: Table, c: Table)
    requires KeepsPages(a, b) && KeepsPages(b, c)
    ensures KeepsPages(a, c)
  {
    forall t, k | t != 0 && InTable(a, t, k) ensures PageOf(c, t, k) == PageOf(a, t, k) {
      assert PageOf(a, t, k).Some? && PageOf(b, t, k).Some?;
      assert InTable(b, t, k);
    }
  }

  /** What `findFreePage` does: the table stays well formed and every page that
      was there keeps its contents; when it gives the thread new pages they
      carry the next `span` numbers, the index is the first of them, and the
      first page is a fresh region. */
  lemma FindFreePageEffect(tb: Table, t: int, size: int, span: nat)
    requires Inv(tb) && ThreadId(t) && span >= 1
    ensures var r := AfterFindFreePage(tb, t, size, span);
      && Inv(r) && KeepsPages(tb, r)
      && match FindFreePage(tb, t, size, span)
         case Fresh(slot, index) =>
           && Grown(tb, r, t, span) && index == PageCount(tb, t) + 1
           && PageSlot(slot) && Holds(r, slot, t, index)
           && forall i | 0 <= i < span :: NewPage(r, t, index, i, span)
         case Reused(slot, _) =>
           && SameMemory(tb, r) && SameCounts(tb, r)
           && PageSlot(slot) && tb.meta[slot].thread == t && size <= tb.meta[slot].usage
         case _ => SameMemory(tb, r) && SameCounts(tb, r)
  {
    hide PageOf, PageCount, Count, FindUsable, Claim, Unique, Numbered, FirstFree, NewPage, KeepsPages;
    UnlockKeeps(tb);
    var u := Unlock(tb);
    FirstFreeIs(tb);
    FreeSlotCount(tb);
    SameKeeps(tb, u);
    match FindFreePage(tb, t, size, span) {
      case Fresh(slot, index) =>
        var r := Claim(u, t, index, 0, span);
        ClaimKeeps(u, t, index, 0, span);
        KeepsTransitive(tb, u, r);
        FirstClaimed(u, t, index, span);
      case _ =>
    }
  }

  lemma {:induction false} ClaimKeepsOpen(tb: Table, t: int, first: nat, j: nat, span: nat)
    requires Open(tb)
    ensures Open(Claim(tb, t, first, j, span))
    decreases span - j
  {
    if j < span && FirstFree(tb.meta) < SCHEDULER_PAGE_START {
      ClaimKeepsOpen(ClaimOne(tb, t, first, j, span), t, first, j + 1, span);
    }
  }

  /** After the search for a page, whatever it finds, no slot is protected. */
  lemma SearchOpens(tb: Table, t: int, size: int, span: nat)
    requires Sized(tb)
    ensures Open(AfterFindFreePage(tb, t, size, span))
  {
    UnlockOpens(tb);
    ClaimKeepsOpen(Unlock(tb), t, PageCount(tb, t) + 1, 0, span);
  }

  lemma SameKeeps(a: Table, b: Table)
    requires SameMemory(a, b)
    ensures KeepsPages(a, b)
  {
  }

  /** A page of thread t admits the request by its usage field. */
  ghost predicate SomePageAdmits(tb: Table, t: int, size: int)
    requires Sized(tb)
  {
    exists i :: PageSlot(i) && tb.meta[i].thread == t && size <= tb.meta[i].usage
  }

  /** How the search ends, by its cause: it finds a page exactly when one admits
      the request, and then the first in slot order; without one it gives up at
      2035 pages, or for want of slots for several; it goes to the swap file for
      want of a slot for one; and it makes a region in the lowest free slots
      otherwise. */
  lemma FoundExactly(tb: Table, t: int, size: int, span: nat)
    requires Inv(tb) && ThreadId(t) && span >= 1
    ensures var f, none := FindFreePage(tb, t, size, span), !SomePageAdmits(tb, t, size);
      && (f.Reused? <==> !none)
      && (f.Full? <==> none && (PageCount(tb, t) >= 2035 || (span > 1 && PageCount(tb, 0) < span)))
      && (f.Evicts? <==> none && PageCount(tb, t) < 2035 && span == 1 && !HasFreeSlot(tb))
      && (f.Reused? ==>
            && PageSlot(f.slot) && tb.meta[f.slot].thread == t && size <= tb.meta[f.slot].usage
            && (forall i | RESERVED_PAGES <= i < f.slot && tb.meta[i].thread == t :: size > tb.meta[i].usage)
            && f.index == Count(tb.meta, t, f.slot) + 1)
      && (f.Fresh? ==>
            && PageSlot(f.slot) && tb.meta[f.slot].thread == 0 && f.index == PageCount(tb, t) + 1
            && forall i | RESERVED_PAGES <= i < f.slot :: tb.meta[i].thread != 0)
  {
    hide Inv, Count, FindUsable, FirstFree, HasFreeSlot, SomePageAdmits;
    UsableIs(tb, t, size);
    LowestFree(tb);
    var r := FindUsable(tb.meta, t, size, 0);
    if r < SCHEDULER_PAGE_START { CountStep(tb.meta, t, r); }
  }

  lemma CountStep(meta: seq<Meta>, t: int, i: nat)
    requires PageSlot(i) && i < |meta| && meta[i].thread == t
    ensures Count(meta, t, i + 1) == Count(meta, t, i) + 1
  {
  }

  lemma UsableIs(tb: Table, t: int, size: int)
    requires Inv(tb) && ThreadId(t)
    ensures Sized(tb)
    ensures var r := FindUsable(tb.meta, t, size, 0);
      && (r < SCHEDULER_PAGE_START <==> SomePageAdmits(tb, t, size))
      && (r < SCHEDULER_PAGE_START ==>
            && PageSlot(r) && tb.meta[r].thread == t && size <= tb.meta[r].usage
            && forall i | RESERVED_PAGES <= i < r && tb.meta[i].thread == t :: size > tb.meta[i].usage)
  {
    hide Unique, Numbered, FindUsable;
    var r := FindUsable(tb.meta, t, size, 0);
    if r < SCHEDULER_PAGE_START { assert PageSlot(r); }
  }

  lemma LowestFree(tb: Table)
    requires Inv(tb)
    ensures Sized(tb) && (HasFreeSlot(tb) <==> PageCount(tb, 0) > 0)
    ensures var f := FirstFree(tb.meta);
      HasFreeSlot(tb) ==>
        && PageSlot(f) && tb.meta[f].thread == 0 && forall i | RESERVED_PAGES <= i < f :: tb.meta[i].thread != 0
  {
    hide Unique, Numbered, Count;
    FirstFreeIs(tb);
    FreeSlotCount(tb);
  }

  /** The first page of a new region is in the slot that was free first. */
  lemma FirstClaimed(tb: Table, t: int, first: nat, span: nat)
    requires Inv(tb) && ThreadId(t) && HasFreeSlot(tb) && span >= 1 && first == PageCount(tb, t) + 1
    requires PageCount(tb, 0) >= span
    ensures FirstFree(tb.meta) < SCHEDULER_PAGE_START
    ensures Holds(Claim(tb, t, first, 0, span), FirstFree(tb.meta), t, first)
  {
    FirstFreeIs(tb);
    var f := FirstFree(tb.meta);
    var u := ClaimOne(tb, t, first, 0, span);
    assert u.meta[f].thread == t && u.meta[f].num == first;
    ClaimKeepsOwned(u, t, first, 1, span, f);
  }

  lemma {:induction false} ClaimKeepsOwned(tb: Table, t: int, first: nat, j: nat, span: nat, i: nat)
    requires Sized(tb) && i < TOTAL_PAGES && tb.meta[i].thread != 0
    ensures Claim(tb, t, first, j, span).meta[i] == tb.meta[i]
    decreases span - j
  {
    if j < span && FirstFree(tb.meta) < SCHEDULER_PAGE_START {
      ClaimKeepsOwned(ClaimOne(tb, t, first, j, span), t, first, j + 1, span, i);
    }
  }

  // ----- the index of a page that is used again -----

  /** The pages of t lie in the order of their numbers. */
  ghost predicate InSlotOrder(tb: Table, t: int)
    requires Sized(tb)
  {
    forall i, j | PageSlot(i) && PageSlot(j) && i < j && tb.meta[i].thread == t && tb.meta[j].thread == t ::
      tb.meta[i].num < tb.meta[j].num
  }

  /** The page's position among t's pages, which is what `findFreePage` leaves in
      `Thread_Page_Index`, is its number. */
  ghost predicate RankIsNumber(tb: Table, t: int, i: nat)
    requires Sized(tb) && i < TOTAL_PAGES
  {
    Count(tb.meta, t, i + 1) == tb.meta[i].num
  }

  /** The index left for a page that is used again is the page's number, for
      every page of the thread, exactly when the thread's pages lie in slot
      order. */
  lemma IndexIsPageNumberExactly(tb: Table, t: int)
    requires Inv(tb) && ThreadId(t)
    ensures (forall i | PageSlot(i) && tb.meta[i].thread == t :: RankIsNumber(tb, t, i)) <==> InSlotOrder(tb, t)
  {
    if InSlotOrder(tb, t) {
      forall i | PageSlot(i) && tb.meta[i].thread == t ensures RankIsNumber(tb, t, i) {
        RankInOrder(tb, t, i);
      }
    }
    if forall i | PageSlot(i) && tb.meta[i].thread == t :: RankIsNumber(tb, t, i) {
      forall i, j | PageSlot(i) && PageSlot(j) && i < j && tb.meta[i].thread == t && tb.meta[j].thread == t
        ensures tb.meta[i].num < tb.meta[j].num
      {
        assert RankIsNumber(tb, t, i) && RankIsNumber(tb, t, j);
        CountBound(tb.meta, t, i + 1, j + 1);
      }
    }
  }

  /** In slot order, the pages of t in the slots below hi are the first ones. */
  lemma {:induction false} PrefixInOrder(tb: Table, t: int, hi: nat)
    requires Inv(tb) && ThreadId(t) && InSlotOrder(tb, t) && RESERVED_PAGES <= hi <= SCHEDULER_PAGE_START
    ensures forall i | RESERVED_PAGES <= i < hi && tb.meta[i].thread == t ::
              1 <= tb.meta[i].num <= Count(tb.meta, t, hi)
    ensures forall k | 1 <= k <= Count(tb.meta, t, hi) :: InTableBelow(tb, t, k, hi)
    decreases hi
  {
    if hi > RESERVED_PAGES {
      PrefixInOrder(tb, t, hi - 1);
      var i := hi - 1;
      var c := Count(tb.meta, t, i);
      forall k | 1 <= k <= c ensures InTableBelow(tb, t, k, hi) {
        assert InTableBelow(tb, t, k, hi - 1);
        var x :| RESERVED_PAGES <= x < hi - 1 && Holds(tb, x, t, k);
      }
      if tb.meta[i].thread == t {
        NextInOrder(tb, t, i);
        assert Holds(tb, i, t, c + 1) && InTableBelow(tb, t, c + 1, hi);
      }
    }
  }

  ghost predicate InTableBelow(tb: Table, t: int, k: int, hi: int) {
    exists i :: RESERVED_PAGES <= i < hi && Holds(tb, i, t, k)
  }

  lemma NextInOrder(tb: Table, t: int, i: nat)
    requires Inv(tb) && ThreadId(t) && InSlotOrder(tb, t) && PageSlot(i) && tb.meta[i].thread == t
    requires forall x | RESERVED_PAGES <= x < i && tb.meta[x].thread == t :: 1 <= tb.meta[x].num <= Count(tb.meta, t, i)
    requires forall k | 1 <= k <= Count(tb.meta, t, i) :: InTableBelow(tb, t, k, i)
    ensures tb.meta[i].num == Count(tb.meta, t, i) + 1 == Count(tb.meta, t, i + 1)
  {
    var c, v := Count(tb.meta, t, i), tb.meta[i].num;
    assert Holds(tb, i, t, v) && InTable(tb, t, v);
    CountBound(tb.meta, t, i + 1, SCHEDULER_PAGE_START);
    assert !InTableBelow(tb, t, v, i) by {
      forall x | RESERVED_PAGES <= x < i ensures !Holds(tb, x, t, v) {}
    }
    assert InTable(tb, t, c + 1);
    var j :| Holds(tb, j, t, c + 1);
    assert j >= i;
  }

  lemma RankInOrder(tb: Table, t: int, i: nat)
    requires Inv(tb) && ThreadId(t) && InSlotOrder(tb, t) && PageSlot(i) && tb.meta[i].thread == t
    ensures RankIsNumber(tb, t, i)
  {
    PrefixInOrder(tb, t, i);
    NextInOrder(tb, t, i);
  }

  // ----- addresses -----

  /** The address that `findFreeChunk` returns for byte `offset` of the region
      whose first page has number `index`. */
  function VirtualAddress(index: nat, offset: nat): nat
    requires index >= 1
  {
    BASE + (index - 1) * PAGE_SIZE + offset
  }

  /** That address, dereferenced in the thread's time slice, reaches byte
      offset%4096 of page index + offset/4096 of the thread, whatever slot that
      page sits in when it is addressed. */
  lemma AddressReachesItsPage(tb: Table, t: int, index: nat, span: nat, offset: nat)
    requires InSlice(tb, t) && index >= 1 && index + span <= PageCount(tb, t) + 1 && offset < span * PAGE_SIZE
    ensures var addr, k := VirtualAddress(index, offset), index + offset / PAGE_SIZE;
      && addr < HEAP_SIZE && FirstFree(tb.meta) < SCHEDULER_PAGE_START
      && addr / PAGE_SIZE - RESERVED_PAGES + 1 == k && addr % PAGE_SIZE == offset % PAGE_SIZE
      && PageOf(tb, t, k).Some? && Step(tb, t, Read(addr)).Some?
      && Step(tb, t, Read(addr)).value.1 == PageOf(tb, t, k).value.page[offset % PAGE_SIZE]
  {
    hide Step, PageOf, Fault;
    var addr, k := VirtualAddress(index, offset), index + offset / PAGE_SIZE;
    AddressArithmetic(index, span, offset);
    StepIsFlat(tb, t, Read(addr));
    assert InTable(tb, t, k);
    var i :| Holds(tb, i, t, k);
    PageOfIs(tb, i, t, k);
    assert addr - BASE == (k - 1) * PAGE_SIZE + offset % PAGE_SIZE;
    assert FlatByte(tb, t, addr - BASE) == PageOf(tb, t, k).value.page[offset % PAGE_SIZE];
  }

  lemma AddressArithmetic(index: nat, span: nat, offset: nat)
    requires index >= 1 && offset < span * PAGE_SIZE
    ensures var addr := VirtualAddress(index, offset);
      && addr / PAGE_SIZE - RESERVED_PAGES + 1 == index + offset / PAGE_SIZE
      && addr % PAGE_SIZE == offset % PAGE_SIZE && offset / PAGE_SIZE < span
  {
  }

  /** A region of a thread: the number of its first page, and its pages. */
  datatype Span = Span(first: nat, pages: nat)

  /** The regions made so far tile the thread's pages 1..n in order. */
  ghost predicate Tile(regions: seq<Span>, n: nat) {
    if regions == [] then n == 0
    else
      var last := regions[|regions| - 1];
      last.first >= 1 && last.pages >= 1 && last.first + last.pages == n + 1
      && Tile(regions[..|regions| - 1], last.first - 1)
  }

  /** New pages extend the tiling by one region. */
  lemma FreshExtendsTiling(tb: Table, t: int, size: int, span: nat, regions: seq<Span>)
    requires Inv(tb) && ThreadId(t) && span >= 1 && Tile(regions, PageCount(tb, t))
    requires FindFreePage(tb, t, size, span).Fresh?
    ensures var r := AfterFindFreePage(tb, t, size, span);
      Sized(r) && Tile(regions + [Span(FindFreePage(tb, t, size, span).index, span)], PageCount(r, t))
  {
    FindFreePageEffect(tb, t, size, span);
    var more := regions + [Span(FindFreePage(tb, t, size, span).index, span)];
    assert more[..|more| - 1] == regions;
  }

  lemma {:induction false} TileOrders(regions: seq<Span>, n: nat, i: nat, j: nat)
    requires Tile(regions, n) && i < j < |regions|
    ensures 1 <= regions[i].first && regions[i].first + regions[i].pages <= regions[j].first
    ensures regions[j].first + regions[j].pages <= n + 1
    decreases |regions|
  {
    var m := |regions| - 1;
    if j < m {
      TileOrders(regions[..m], regions[m].first - 1, i, j);
    } else if i < m - 1 {
      TileOrders(regions[..m], regions[m].first - 1, i, m - 1);
    }
  }

  /** Address ranges of live blocks in two different regions of a thread are
      disjoint. */
  lemma LiveRangesDisjoint(regions: seq<Span>, n: nat, i: nat, j: nat,
                           cs: seq<ChunkList.Chunk>, ds: seq<ChunkList.Chunk>,
                           b: ChunkList.Block, c: ChunkList.Block)
    requires Tile(regions, n) && i < j < |regions|
    requires ChunkList.Extent(cs) == regions[i].pages * PAGE_SIZE && b in ChunkList.Live(cs, 0)
    requires ChunkList.Extent(ds) == regions[j].pages * PAGE_SIZE && c in ChunkList.Live(ds, 0)
    ensures b.addr >= 0 && c.addr >= 0 && regions[i].first >= 1 && regions[j].first >= 1
    ensures VirtualAddress(regions[i].first, b.addr) + b.size <= VirtualAddress(regions[j].first, c.addr)
  {
    TileOrders(regions, n, i, j);
    ChunkListLemmas.LiveBounds(cs, 0, b);
    ChunkListLemmas.LiveBounds(ds, 0, c);
  }

  /** The first page of a new region, followed by whatever its other pages hold,
      encodes one free chunk of the whole region. */
  lemma InitialPageEncodes(span: nat, others: seq<byte>)
    requires 1 <= span <= 8 && |others| == (span - 1) * PAGE_SIZE
    ensures Encodes(InitialPage(span) + others, ChunkList.Fresh(span * PAGE_SIZE))
  {
    var zeros := seq(PAGE_SIZE, _ => 0 as byte);
    var n := span * PAGE_SIZE;
    var m := PutFree(zeros + others, 0, true);
    assert m == PutFree(zeros, 0, true) + others;
    assert PutSize(m, 0, n - 6) == PutSize(PutFree(zeros, 0, true), 0, n - 6) + others;
    assert PutPrev(PutSize(m, 0, n - 6), 0, 0) == InitialPage(span) + others;
    Region.FreshEncodes(zeros + others, InitialPage(span) + others);
  }

  lemma OnePageEncodes()
    ensures Encodes(InitialPage(1), ChunkList.Fresh(PAGE_SIZE))
  {
    assert InitialPage(1) + [] == InitialPage(1);
    InitialPageEncodes(1, []);
  }

  /** The bytes of n consecutive slots. */
  function BytesFrom(tb: Table, slot: nat, n: nat): (r: seq<byte>)
    requires Sized(tb) && slot + n <= TOTAL_PAGES
    ensures |r| == n * PAGE_SIZE
    decreases n
  {
    if n == 0 then []
    else
      var page: seq<byte> := tb.pages[slot];
      page + BytesFrom(tb, slot + 1, n - 1)
  }

  /** The headers of the shared region: its pages belong to id -5, span four slots
      and name them; a search for that id's page 1 finds the first, and only the
      first admits any request. */
  lemma SharedHeaders(tb: Table)
    requires Inv(tb) && Sized(tb) && forall i | SCHEDULER_PAGE_START <= i < 2044 :: tb.meta[i].thread != -5
    ensures var r := MakeShared(tb);
      && FindPage(r.meta, -5, 1, 0, TOTAL_PAGES) == 2044
      && (forall i | 0 <= i < TOTAL_PAGES :: r.meta[i].thread == -5 <==> 2044 <= i < 2048)
      && (forall i | 2044 <= i < 2048 ::
            && r.meta[i].loc == i && r.meta[i].span == 4
            && r.meta[i].num == (if i == 2044 then 1 else -5)
            && r.meta[i].usage == (if i == 2044 then 16378 else -1))
  {
    var r := MakeShared(tb);
    forall i | 0 <= i < 2044 ensures r.meta[i].thread != -5 {
      if PageSlot(i) { assert tb.meta[i].thread != 0 ==> Owned(tb.meta, i); }
    }
    var f := FindPage(r.meta, -5, 1, 0, TOTAL_PAGES);
    assert r.meta[2044].thread == -5 && r.meta[2044].num == 1;
    assert f <= 2044;
  }

  /** The shared region as it is set up is one free chunk of 16378 bytes, and its
      usage field says so. */
  lemma SharedRegionEncodes(tb: Table)
    requires Sized(tb)
    ensures var r := MakeShared(tb);
      Encodes(BytesFrom(r, 2044, 4), [ChunkList.Chunk(true, 16378)]) && r.meta[2044].usage == 16378
  {
    var r := MakeShared(tb);
    assert BytesFrom(r, 2044, 4) == InitialPage(4) + BytesFrom(r, 2045, 3);
    InitialPageEncodes(4, BytesFrom(r, 2045, 3));
  }
}
