/** Requests of several pages: new pages are claimed, `loadSpan` brings them
    together, and the chunk is carved across them. */
module LargeRegions {
  import opened Options
  import opened HeaderBytes
  import opened PageTable
  import opened PageTableLemmas
  import opened FlatMemory
  import opened Loader
  import opened ThreadHeap
  import opened RegionCode
  import opened TableHeap
  import ChunkList
  import PageAlloc

  // ----- the operations -----

  /** The scan of `loadSpan`, looking for page k of thread t from slot `idx` on,
      to put it into slot `dst`; `left` pages are to come.  A page that is there
      already is not found, and ends the search. */
  function SpanScan(tb: Table, t: int, first: nat, k: int, dst: nat, idx: nat, left: nat): (r: Table)
    requires Sized(tb)
    ensures Sized(r)
    decreases left, SCHEDULER_PAGE_START - idx
  {
    if left == 0 || idx >= SCHEDULER_PAGE_START || dst >= SCHEDULER_PAGE_START
       || FirstFree(tb.meta) >= SCHEDULER_PAGE_START then tb
    else if tb.meta[idx].thread == t && tb.meta[idx].num == k && idx != first && idx != dst
    then SpanScan(Swap(tb, dst, idx), t, first, k + 1, dst + 1, RESERVED_PAGES + 1, left - 1)
    else SpanScan(tb, t, first, k, dst, idx + 1, left)
  }

  /** `loadSpan` for the region of `span` pages whose first page is in `slot`. */
  function LoadSpan(tb: Table, slot: nat, span: nat): (r: Table)
    requires Sized(tb) && slot < TOTAL_PAGES && span >= 1
    ensures Sized(r)
  {
    SpanScan(Unlock(tb), tb.meta[slot].thread, slot, tb.meta[slot].num + 1, slot + 1, RESERVED_PAGES, span - 1)
  }

  /** Overwrites n pages from `slot` on. */
  function SetPages(tb: Table, slot: nat, n: nat, bytes: seq<byte>): (r: Table)
    requires Sized(tb) && slot + n <= TOTAL_PAGES && |bytes| == n * PAGE_SIZE
    ensures Sized(r)
    decreases n
  {
    if n == 0 then tb
    else SetPages(SetPage(tb, slot, bytes[..PAGE_SIZE]), slot + 1, n - 1, bytes[PAGE_SIZE..])
  }

  /** `findFreeChunk` over the `span` slots from `slot` on. */
  function CarveSpan(tb: Table, t: int, slot: nat, index: nat, span: nat, size: nat): (r: (Table, Reply))
    requires Sized(tb) && slot + span <= TOTAL_PAGES
    ensures Sized(r.0)
  {
    var c := AllocBytes(PageAlloc.BytesFrom(tb, slot, span), size);
    if c.offset.None? then (tb, Null)
    else
      var header := FindPage(tb.meta, t, index, 0, TOTAL_PAGES);
      var u := SetPages(tb, slot, span, c.bytes);
      var v := if header < TOTAL_PAGES
               then SetUsage(u, header, ChunkList.AsShort(u.meta[header].usage - c.charge)) else u;
      (v, Address(BASE + (index - 1) * PAGE_SIZE + c.offset.value))
  }

  /** A request of several pages that gets new ones, before any protection: None
      when the pages claimed do not come to lie one after another, and the chunk
      would be carved in other pages. */
  function LargeRequest(tb: Table, t: int, size: nat): (r: Option<(Table, Reply)>)
    requires Sized(tb)
    ensures r.Some? ==> Sized(r.value.0)
  {
    var span := PagesForMalloc(size);
    match PageAlloc.FindFreePage(tb, t, size, span)
    case Fresh(slot, index) =>
      var u := PageAlloc.AfterFindFreePage(tb, t, size, span);
      if slot + span > SCHEDULER_PAGE_START || FirstFree(u.meta) >= SCHEDULER_PAGE_START then None
      else
        var v := LoadSpan(u, slot, span);
        if Together(v, t, slot, index, span) then Some(CarveSpan(v, t, slot, index, span, size)) else None
    case _ => None
  }

  /** Pages k.. of thread t lie in n slots from `slot` on. */
  predicate Together(tb: Table, t: int, slot: nat, k: int, n: nat)
    requires Sized(tb) && slot + n <= SCHEDULER_PAGE_START
  {
    RESERVED_PAGES <= slot
    && forall i | slot <= i < slot + n :: tb.meta[i].thread == t && tb.meta[i].num == k + i - slot
  }

  // ----- loading -----

  /** A swap leaves no slot untouched that was touched. */
  lemma SwapTouches(tb: Table, target: nat, src: nat, i: nat)
    requires Inv(tb) && HasFreeSlot(tb) && PageSlot(target) && Owned(tb.meta, src) && i < TOTAL_PAGES
    requires Touched(tb.meta, i)
    ensures FirstFree(tb.meta) < SCHEDULER_PAGE_START && Touched(Swap(tb, target, src).meta, i)
  {
    FirstFreeIs(tb);
  }

  /** Bringing the pages of a region together changes no thread's memory. */
  lemma {:induction false} SpanScanKeeps(tb: Table, t: int, first: nat, k: int, dst: nat, idx: nat, left: nat)
    requires Sized(tb) && Inv(tb) && HasFreeSlot(tb) && ThreadId(t) && RESERVED_PAGES <= first < dst
    requires idx >= RESERVED_PAGES
    requires dst + left <= SCHEDULER_PAGE_START && forall i | dst <= i < dst + left :: Touched(tb.meta, i)
    ensures var r := SpanScan(tb, t, first, k, dst, idx, left);
      Inv(r) && HasFreeSlot(r) && SameMemory(tb, r) && SameCounts(tb, r)
    decreases left, SCHEDULER_PAGE_START - idx
  {
    hide Inv, HasFreeSlot, SameMemory, SameCounts, PageCount, Swap, FirstFree, Touched;
    SameReflexive(tb);
    if left == 0 || idx >= SCHEDULER_PAGE_START || FirstFree(tb.meta) >= SCHEDULER_PAGE_START {
    } else if tb.meta[idx].thread == t && tb.meta[idx].num == k && idx != first && idx != dst {
      SwapKeeps(tb, dst, idx);
      var u := Swap(tb, dst, idx);
      forall i | dst + 1 <= i < dst + left ensures Touched(u.meta, i) {
        SwapTouches(tb, dst, idx, i);
      }
      SpanScanKeeps(u, t, first, k + 1, dst + 1, RESERVED_PAGES + 1, left - 1);
      SameTransitive(tb, u, SpanScan(u, t, first, k + 1, dst + 1, RESERVED_PAGES + 1, left - 1));
    } else {
      SpanScanKeeps(tb, t, first, k, dst, idx + 1, left);
    }
  }

  // ----- carving -----

  /** Overwriting pages of thread t that lie together changes no header, no other
      page, and no other thread's memory. */
  lemma {:induction false} SetPagesKeeps(tb: Table, t: int, slot: nat, k: nat, n: nat, bytes: seq<byte>)
    requires Inv(tb) && ThreadId(t) && Sized(tb) && slot + n <= SCHEDULER_PAGE_START && Together(tb, t, slot, k, n)
    requires |bytes| == n * PAGE_SIZE
    ensures var r := SetPages(tb, slot, n, bytes);
      && Inv(r) && r.meta == tb.meta && SameCounts(tb, r)
      && (forall t', m | t' != 0 && !(t' == t && k <= m < k + n) :: PageOf(r, t', m) == PageOf(tb, t', m))
      && (forall m | k <= m < k + n :: PageOf(tb, t, m).Some? && SameButBytes(PageOf(tb, t, m), PageOf(r, t, m)))
    decreases n
  {
    hide Inv, PageOf, PageCount;
    InvIsSized(tb);
    if n > 0 {
      OnePageSet(tb, t, slot, k, bytes[..PAGE_SIZE]);
      var u := SetPage(tb, slot, bytes[..PAGE_SIZE]);
      SetPagesKeeps(u, t, slot + 1, k + 1, n - 1, bytes[PAGE_SIZE..]);
    }
  }

  ghost predicate SameButBytes(a: Option<Content>, b: Option<Content>) {
    a.Some? && b.Some? && b.value.usage == a.value.usage && b.value.span == a.value.span
  }

  lemma OnePageSet(tb: Table, t: int, slot: nat, k: int, page: Page)
    requires Inv(tb) && ThreadId(t) && Holds(tb, slot, t, k)
    ensures var r := SetPage(tb, slot, page);
      && Inv(r) && r.meta == tb.meta && SameCounts(tb, r)
      && (forall t', m | t' != 0 && !(t' == t && m == k) :: PageOf(r, t', m) == PageOf(tb, t', m))
      && SameButBytes(PageOf(tb, t, k), PageOf(r, t, k))
  {
    hide PageCount, Layout, Numbered;
    SetContent(tb, slot, page, tb.meta[slot].usage);
    SameUsage(SetPage(tb, slot, page), slot);
    PageOfIs(tb, slot, t, k);
  }

  // ----- the pages claimed -----

  /** The pages of a region are claimed from `lo` on upwards, so that the first
      slots from there are all touched. */
  lemma {:induction false} ClaimTouches(tb: Table, t: int, first: nat, j: nat, span: nat, lo: nat)
    requires Sized(tb) && Inv(tb) && ThreadId(t) && first + j == PageCount(tb, t) + 1
    requires j <= span && PageCount(tb, 0) >= span - j
    requires FirstFree(tb.meta) >= lo + j && lo >= RESERVED_PAGES
    requires lo + j <= SCHEDULER_PAGE_START && forall i | lo <= i < lo + j :: Touched(tb.meta, i)
    ensures var r := PageAlloc.Claim(tb, t, first, j, span);
      lo + span <= SCHEDULER_PAGE_START && forall i | lo <= i < lo + span :: Touched(r.meta, i)
    decreases span - j
  {
    hide Inv, PageOf, PageCount, Count, PageAlloc.ClaimOne, FirstFree, Touched;
    if j < span {
      InvIsSized(tb);
      FreeSlotCount(tb);
      PageAlloc.ClaimOneKeeps(tb, t, first, j, span);
      var u := PageAlloc.ClaimOne(tb, t, first, j, span);
      NextClaim(tb, t, first, j, span, lo);
      ClaimTouches(u, t, first, j + 1, span, lo);
      assert PageAlloc.Claim(tb, t, first, j, span) == PageAlloc.Claim(u, t, first, j + 1, span);
    }
  }

  lemma NextClaim(tb: Table, t: int, first: nat, j: nat, span: nat, lo: nat)
    requires Inv(tb) && HasFreeSlot(tb) && ThreadId(t) && FirstFree(tb.meta) >= lo + j && lo >= RESERVED_PAGES
    requires lo + j <= SCHEDULER_PAGE_START && forall i | lo <= i < lo + j :: Touched(tb.meta, i)
    ensures FirstFree(tb.meta) < SCHEDULER_PAGE_START
    ensures var u := PageAlloc.ClaimOne(tb, t, first, j, span);
      && FirstFree(u.meta) >= lo + j + 1
      && lo + j + 1 <= SCHEDULER_PAGE_START && forall i | lo <= i < lo + j + 1 :: Touched(u.meta, i)
  {
    hide PageAlloc.InitialPage, ChunkList.AsShort;
    FirstFreeIs(tb);
    var f, u := FirstFree(tb.meta), PageAlloc.ClaimOne(tb, t, first, j, span);
    assert u.meta[f].loc == f;
    forall i | 0 <= i <= f ensures u.meta[i].thread != 0 {
      if i < f { assert tb.meta[i].thread != 0; }
    }
  }

  // ----- what a large request does -----

  /** The pages of a region of `span` pages, as a heap sees them. */
  function LargePages(span: nat, usage: int): (r: seq<PageHeap>)
    ensures |r| == span
  {
    seq(span, i => Larger(if i == 0 then usage else -1))
  }

  lemma ClaimedTouched(tb: Table, t: int, size: nat, span: nat)
    requires Inv(tb) && ThreadId(t) && span >= 1 && PageAlloc.FindFreePage(tb, t, size, span).Fresh?
    ensures var u, found := PageAlloc.AfterFindFreePage(tb, t, size, span), PageAlloc.FindFreePage(tb, t, size, span);
      && Sized(u) && Inv(u) && found.index == PageCount(tb, t) + 1
      && PageSlot(found.slot) && Holds(u, found.slot, t, found.index)
      && found.slot + span <= SCHEDULER_PAGE_START
      && (forall i | found.slot <= i < found.slot + span :: Touched(u.meta, i))
  {
    hide PageOf, Layout, Unique, Count, PageAlloc.FindUsable, PageAlloc.Claim, PageAlloc.InitialPage;
    var u, n, f := PageAlloc.AfterFindFreePage(tb, t, size, span), PageCount(tb, t), FirstFree(tb.meta);
    PageAlloc.FindFreePageEffect(tb, t, size, span);
    FirstFreeIs(tb);
    FreeSlotCount(tb);
    UnlockKeeps(tb);
    ClaimTouches(Unlock(tb), t, n + 1, 0, span, f);
    assert u == PageAlloc.Claim(Unlock(tb), t, n + 1, 0, span);
    forall i: nat | f <= i < f + span ensures Touched(u.meta, i) {}
  }

  /** The table in which the chunk is carved. */
  function Gathered(tb: Table, t: int, size: nat): (r: Table)
    requires Sized(tb) && PageAlloc.FindFreePage(tb, t, size, PagesForMalloc(size)).Fresh?
    ensures Sized(r)
  {
    var span, slot := PagesForMalloc(size), PageAlloc.FindFreePage(tb, t, size, PagesForMalloc(size)).slot;
    if slot >= TOTAL_PAGES || span == 0 then tb
    else LoadSpan(PageAlloc.AfterFindFreePage(tb, t, size, span), slot, span)
  }

  /** Gathering the pages of the new region changes no thread's memory. */
  lemma GatheredKeeps(tb: Table, t: int, size: nat)
    requires Inv(tb) && ThreadId(t) && PagesForMalloc(size) >= 2
    requires PageAlloc.FindFreePage(tb, t, size, PagesForMalloc(size)).Fresh?
    requires FirstFree(PageAlloc.AfterFindFreePage(tb, t, size, PagesForMalloc(size)).meta) < SCHEDULER_PAGE_START
    ensures var u, v := PageAlloc.AfterFindFreePage(tb, t, size, PagesForMalloc(size)), Gathered(tb, t, size);
      var found, span := PageAlloc.FindFreePage(tb, t, size, PagesForMalloc(size)), PagesForMalloc(size);
      && found.slot + span <= SCHEDULER_PAGE_START && v == LoadSpan(u, found.slot, span)
      && Inv(v) && HasFreeSlot(v) && SameMemory(u, v) && SameCounts(u, v)
  {
    hide PageOf, Layout, Unique, Numbered, PageAlloc.FindFreePage, PageAlloc.AfterFindFreePage, SpanScan, PageCount,
         Touched;
    var span := PagesForMalloc(size);
    var u, found := PageAlloc.AfterFindFreePage(tb, t, size, span), PageAlloc.FindFreePage(tb, t, size, span);
    ClaimedTouched(tb, t, size, span);
    FirstFreeIs(u);
    UnlockKeepsFree(u);
    UnlockKeeps(u);
    var w := Unlock(u);
    forall i | found.slot + 1 <= i < found.slot + span ensures Touched(w.meta, i) { assert Touched(u.meta, i); }
    SpanScanKeeps(w, t, found.slot, u.meta[found.slot].num + 1, found.slot + 1, RESERVED_PAGES, span - 1);
    SameTransitive(u, w, LoadSpan(u, found.slot, span));
  }

  lemma ClaimedIsRepresented(tb: Table, t: int, h: Heap, size: nat, span: nat)
    requires Represents(tb, t, h) && span >= 2 && PageAlloc.FindFreePage(tb, t, size, span).Fresh?
    ensures var u, n := PageAlloc.AfterFindFreePage(tb, t, size, span), |h.pages|;
      && Sized(u)
      && Represents(u, t, Heap(h.pages + LargePages(span, ChunkList.AsShort(span * PAGE_SIZE - 6)), Room(u, t)))
      && PageOf(u, t, n + 1).Some? && PageOf(u, t, n + 1).value.page == PageAlloc.InitialPage(span)
  {
    hide Encodes, PageOf, Layout, Unique, Count, PageAlloc.FindUsable, PageAlloc.Claim, ChunkList.AsShort,
         PageAlloc.InitialPage;
    var u, n := PageAlloc.AfterFindFreePage(tb, t, size, span), |h.pages|;
    PageAlloc.FindFreePageEffect(tb, t, size, span);
    assert PageAlloc.NewPage(u, t, n + 1, 0, span);
    var g := Heap(h.pages + LargePages(span, ChunkList.AsShort(span * PAGE_SIZE - 6)), Room(u, t));
    forall k | 1 <= k <= |g.pages| ensures PageIs(u, t, k, g) {
      if k <= n {
        assert PageIs(tb, t, k, h) && InTable(tb, t, k);
      } else {
        assert PageAlloc.NewPage(u, t, n + 1, k - n - 1, span);
      }
    }
  }

  lemma GatheredIsRepresented(tb: Table, t: int, h: Heap, size: nat)
    requires Represents(tb, t, h) && PagesForMalloc(size) >= 2
    requires PageAlloc.FindFreePage(tb, t, size, PagesForMalloc(size)).Fresh?
    requires FirstFree(PageAlloc.AfterFindFreePage(tb, t, size, PagesForMalloc(size)).meta) < SCHEDULER_PAGE_START
    ensures var v, n, span := Gathered(tb, t, size), |h.pages|, PagesForMalloc(size);
      && PageAlloc.FindFreePage(tb, t, size, span).index == n + 1
      && Represents(v, t, Heap(h.pages + LargePages(span, ChunkList.AsShort(span * PAGE_SIZE - 6)), Room(v, t)))
      && PageOf(v, t, n + 1).Some? && PageOf(v, t, n + 1).value.page == PageAlloc.InitialPage(span)
  {
    hide Represents, PageOf, Layout, Unique, Numbered, PageAlloc.FindFreePage, PageAlloc.AfterFindFreePage, LoadSpan,
         ChunkList.AsShort, PageAlloc.InitialPage, PageCount, Touched;
    Parts(tb, t, h);
    var span := PagesForMalloc(size);
    var u := PageAlloc.AfterFindFreePage(tb, t, size, span);
    ClaimedTouched(tb, t, size, span);
    ClaimedIsRepresented(tb, t, h, size, span);
    GatheredKeeps(tb, t, size);
    SameForRepresents(u, Gathered(tb, t, size), t,
                      Heap(h.pages + LargePages(span, ChunkList.AsShort(span * PAGE_SIZE - 6)), Room(u, t)));
  }

  lemma SameForRepresents(a: Table, b: Table, t: int, h: Heap)
    requires Represents(a, t, h) && Inv(b) && SameMemory(a, b) && SameCounts(a, b)
    ensures Represents(b, t, Heap(h.pages, Room(b, t)))
  {
    hide Encodes, PageOf, PageCount;
    RepresentsFrame(a, b, t, h);
  }

  /** What a fresh region of `span` pages serves a request with. */
  lemma FreshSpanServes(tb: Table, t: int, slot: nat, index: int, span: nat, size: nat)
    requires Inv(tb) && ThreadId(t) && 2 <= span <= 8 && span == PagesForMalloc(size) && size >= 1
    requires slot + span <= SCHEDULER_PAGE_START && Holds(tb, slot, t, index)
    requires PageOf(tb, t, index).Some? && PageOf(tb, t, index).value.page == PageAlloc.InitialPage(span)
    ensures var c := AllocBytes(PageAlloc.BytesFrom(tb, slot, span), size);
      c.offset == Some(6) && c.charge == ChunkList.AllocCharge(ChunkList.Fresh(span * PAGE_SIZE), size)
  {
    hide AllocBytes, Encodes, ChunkList.Alloc, ChunkList.AllocAddr, ChunkList.AllocCharge, PageAlloc.InitialPage,
         ChunkList.Fresh, PageOf, Layout, Numbered;
    PageOfIs(tb, slot, t, index);
    PageAlloc.InitialPageEncodes(span, PageAlloc.BytesFrom(tb, slot + 1, span - 1));
    AllocBytesIs(PageAlloc.BytesFrom(tb, slot, span), ChunkList.Fresh(span * PAGE_SIZE), size);
    RegionServesItsRequest(size);
  }

  lemma LargeTail(h: Heap, span: nat, usage: int, room: nat)
    requires span >= 1
    ensures var g := Heap(h.pages + LargePages(span, usage), room);
      g.pages[|h.pages|].usage == usage && forall k | |h.pages| <= k < |g.pages| :: g.pages[k].Larger?
  {
  }

  /** The carving, on pages that lie together. */
  lemma CarveSpanIs(tb: Table, t: int, h: Heap, slot: nat, span: nat, start: int, size: nat) returns (usage: int)
    requires Sized(tb) && span >= 2 && slot + span <= SCHEDULER_PAGE_START && -0x8000 <= start < 0x8000
    requires Together(tb, t, slot, |h.pages| + 1, span)
    requires Represents(tb, t, Heap(h.pages + LargePages(span, start), Room(tb, t)))
    ensures -0x8000 <= usage < 0x8000
    ensures var (r, reply) := CarveSpan(tb, t, slot, |h.pages| + 1, span, size);
      var c := AllocBytes(PageAlloc.BytesFrom(tb, slot, span), size);
      && Represents(r, t, Heap(h.pages + LargePages(span, usage), Room(r, t)))
      && (c.offset.Some? ==> reply == Address(PageAlloc.VirtualAddress(|h.pages| + 1, c.offset.value))
                             && usage == ChunkList.AsShort(start - c.charge))
  {
    hide Represents, PageOf, PageCount, AllocBytes, SetPages, SetUsage, PageAlloc.BytesFrom, Inv, ChunkList.AsShort,
         Layout, Unique, Numbered, LargePages, Room, FindPage, Together;
    LargeTail(h, span, start, Room(tb, t));
    var index, g := |h.pages| + 1, Heap(h.pages + LargePages(span, start), Room(tb, t));
    Parts(tb, t, g);
    usage := start;
    var c := AllocBytes(PageAlloc.BytesFrom(tb, slot, span), size);
    if c.offset.Some? {
      var u := SetPages(tb, slot, span, c.bytes);
      SetPagesRepresents(tb, t, g, |h.pages|, slot, span, c.bytes);
      Parts(u, t, g);
      RoomOf(u, t, g);
      HeaderSlot(u, t, index);
      var header := FindPage(tb.meta, t, index, 0, TOTAL_PAGES);
      PageInSlot(u, t, g, header);
      usage := ChunkList.AsShort(u.meta[header].usage - c.charge);
      ChargeLarge(u, t, h, span, start, header, usage);
    }
  }

  /** A request of several pages that gets new ones: thread t's heap has a larger
      region more, and is otherwise as it was.  Up to 8 pages, the block is at the
      start of the region, and the charge is that of first fit. */
  lemma LargeIs(tb: Table, t: int, h: Heap, size: nat) returns (usage: int)
    requires Represents(tb, t, h) && Ok(h) && size >= 1 && PagesForMalloc(size) >= 2
    requires LargeRequest(tb, t, size).Some?
    ensures PagesForMalloc(size) <= 8 ==>
              && LargeRequest(tb, t, size).value.1 == Address(PageAlloc.VirtualAddress(|h.pages| + 1, 6))
              && usage == ChunkList.AsShort(PagesForMalloc(size) * PAGE_SIZE - 6
                            - ChunkList.AllocCharge(ChunkList.Fresh(PagesForMalloc(size) * PAGE_SIZE), size))
    ensures var r := LargeRequest(tb, t, size).value.0;
      var g := Heap(h.pages + LargePages(PagesForMalloc(size), usage), Room(r, t));
      Represents(r, t, g) && Ok(g)
  {
    hide Represents, PageOf, Layout, Unique, Numbered, PageAlloc.FindFreePage, PageAlloc.AfterFindFreePage, LoadSpan,
         ChunkList.AsShort, PageAlloc.InitialPage, PageCount, AllocBytes, PageAlloc.BytesFrom, Inv, CarveSpan, Ok,
         ChunkList.AllocCharge, SameMemory, SameCounts, HasFreeSlot, LargePages;
    Parts(tb, t, h);
    var span := PagesForMalloc(size);
    var found := PageAlloc.FindFreePage(tb, t, size, span);
    GatheredIsRepresented(tb, t, h, size);
    GatheredKeeps(tb, t, size);
    var v, start := Gathered(tb, t, size), ChunkList.AsShort(span * PAGE_SIZE - 6);
    usage := CarveSpanIs(v, t, h, found.slot, span, start, size);
    LargePagesOk(h, span, usage, Room(LargeRequest(tb, t, size).value.0, t));
    if span <= 8 {
      ShortOf(span);
      FreshSpanServes(v, t, found.slot, found.index, span, size);
    }
  }

  lemma ShortOf(span: nat)
    requires span <= 8
    ensures ChunkList.AsShort(span * PAGE_SIZE - 6) == span * PAGE_SIZE - 6
  {
  }

  lemma LargePagesOk(h: Heap, span: nat, usage: int, room: nat)
    requires Ok(h) && -0x8000 <= usage < 0x8000
    ensures Ok(Heap(h.pages + LargePages(span, usage), room))
  {
    hide ChunkList.Shape, ChunkList.Extent;
    var g := Heap(h.pages + LargePages(span, usage), room);
    forall i | 0 <= i < |g.pages| ensures PageOk(g.pages[i]) {
      if i < |h.pages| { assert g.pages[i] == h.pages[i]; }
    }
  }

  /** The bytes of pages of larger regions are no part of the heap. */
  lemma SetPagesRepresents(tb: Table, t: int, h: Heap, n: nat, slot: nat, span: nat, bytes: seq<byte>)
    requires Represents(tb, t, h) && slot + span <= SCHEDULER_PAGE_START && Sized(tb) && |bytes| == span * PAGE_SIZE
    requires Together(tb, t, slot, n + 1, span) && n + span == |h.pages|
    requires forall k | n <= k < n + span :: h.pages[k].Larger?
    ensures var r := SetPages(tb, slot, span, bytes); r.meta == tb.meta && Represents(r, t, h)
  {
    hide Encodes, PageOf, PageCount, Layout, Unique, Numbered;
    SetPagesKeeps(tb, t, slot, n + 1, span, bytes);
    var r := SetPages(tb, slot, span, bytes);
    forall k | 1 <= k <= |h.pages| ensures PageIs(r, t, k, h) {
      assert PageIs(tb, t, k, h);
      if k > n { assert SameButBytes(PageOf(tb, t, k), PageOf(r, t, k)); }
    }
  }

  lemma ChargeLarge(tb: Table, t: int, h: Heap, span: nat, start: int, header: nat, usage: int)
    requires Sized(tb) && span >= 1 && PageSlot(header) && Holds(tb, header, t, |h.pages| + 1)
    requires Represents(tb, t, Heap(h.pages + LargePages(span, start), Room(tb, t)))
    ensures var r := SetUsage(tb, header, usage);
      Represents(r, t, Heap(h.pages + LargePages(span, usage), Room(r, t)))
  {
    hide Represents, PageOf, PageCount, SetUsage;
    var g, n := Heap(h.pages + LargePages(span, start), Room(tb, t)), |h.pages|;
    PageInSlot(tb, t, g, header);
    RepresentsUpdate(tb, t, g, header, tb.pages[header], Larger(usage));
    SameBytes(tb, header);
    assert g.pages[n := Larger(usage)] == h.pages + LargePages(span, usage);
    RoomOf(SetUsage(tb, header, usage), t, g.(pages := g.pages[n := Larger(usage)]));
  }

  lemma RoomOf(tb: Table, t: int, h: Heap)
    requires Represents(tb, t, h)
    ensures Sized(tb) && h == Heap(h.pages, Room(tb, t))
  {
  }

  // ----- other threads, and stacks -----

  /** Thread t's pages are in b as they were in a. */
  ghost predicate SamePagesOf(a: Table, b: Table, t: int) {
    && Sized(a) && Sized(b) && PageCount(b, t) == PageCount(a, t)
    && forall k | 1 <= k <= PageCount(a, t) :: PageOf(b, t, k) == PageOf(a, t, k)
  }

  lemma KeptPages(a: Table, b: Table, t: int)
    requires Inv(a) && PageAlloc.KeepsPages(a, b) && t != 0 && Sized(b) && PageCount(b, t) == PageCount(a, t)
    ensures SamePagesOf(a, b, t)
  {
    hide PageOf, PageCount;
    forall k | 1 <= k <= PageCount(a, t) ensures PageOf(b, t, k) == PageOf(a, t, k) {
      assert InTable(a, t, k);
    }
  }

  /** Another thread's request of several pages leaves thread t's pages alone. */
  lemma OtherLarge(tb: Table, o: int, size: nat, t: int)
    requires Inv(tb) && ThreadId(o) && ThreadId(t) && t != o
    requires PagesForMalloc(size) >= 2 && LargeRequest(tb, o, size).Some?
    ensures Inv(LargeRequest(tb, o, size).value.0) && SamePagesOf(tb, LargeRequest(tb, o, size).value.0, t)
  {
    hide PageOf, Layout, Unique, Numbered, PageAlloc.FindFreePage, PageAlloc.AfterFindFreePage, LoadSpan, PageCount,
         AllocBytes, SetPages, SetUsage, SetPage, PageAlloc.BytesFrom, ChunkList.AsShort;
    var span := PagesForMalloc(size);
    var u, found := PageAlloc.AfterFindFreePage(tb, o, size, span), PageAlloc.FindFreePage(tb, o, size, span);
    ClaimedTouched(tb, o, size, span);
    PageAlloc.FindFreePageEffect(tb, o, size, span);
    GatheredKeeps(tb, o, size);
    var v := Gathered(tb, o, size);
    InvIsSized(v);
    KeptPages(tb, u, t);
    assert SamePagesOf(tb, v, t);
    var c := AllocBytes(PageAlloc.BytesFrom(v, found.slot, span), size);
    if c.offset.Some? {
      SetPagesKeeps(v, o, found.slot, found.index, span, c.bytes);
      var w := SetPages(v, found.slot, span, c.bytes);
      HeaderSlot(w, o, found.index);
      var header := FindPage(v.meta, o, found.index, 0, TOTAL_PAGES);
      SetContent(w, header, w.pages[header], ChunkList.AsShort(w.meta[header].usage - c.charge));
      SameBytes(w, header);
    }
  }

  /** The scan for the second page of a region of two finds it, unless it is in
      place. */
  lemma {:induction false} SecondPageComes(tb: Table, t: int, slot: nat, k: int, p: nat, idx: nat)
    requires Inv(tb) && HasFreeSlot(tb) && ThreadId(t) && Holds(tb, slot, t, k) && Holds(tb, p, t, k + 1)
    requires PageSlot(slot + 1) && Touched(tb.meta, slot + 1)
    requires idx >= RESERVED_PAGES && (idx <= p || p == slot + 1)
    ensures var r := SpanScan(tb, t, slot, k + 1, slot + 1, idx, 1);
      Holds(r, slot, t, k) && Holds(r, slot + 1, t, k + 1)
    decreases SCHEDULER_PAGE_START - idx
  {
    hide Layout, Numbered, PageCount, Swap, FirstFree;
    FirstFreeIs(tb);
    if idx >= SCHEDULER_PAGE_START {
    } else if tb.meta[idx].thread == t && tb.meta[idx].num == k + 1 && idx != slot && idx != slot + 1 {
      assert Holds(tb, idx, t, k + 1);
      SwapKeeps(tb, slot + 1, idx);
      SwapLeaves(tb, slot + 1, idx, slot);
    } else {
      SecondPageComes(tb, t, slot, k, p, idx + 1);
    }
  }

  lemma SwapLeaves(tb: Table, target: nat, src: nat, i: nat)
    requires Sized(tb) && FirstFree(tb.meta) < SCHEDULER_PAGE_START
    requires PageSlot(target) && Owned(tb.meta, src) && Owned(tb.meta, i) && i != target && i != src
    ensures Swap(tb, target, src).meta[i] == tb.meta[i]
  {
    hide FindFree;
    assert tb.meta[FirstFree(tb.meta)].thread == 0;
  }

  /** The two pages of a stack always come to lie together. */
  lemma StackIsTogether(tb: Table, t: int)
    requires Inv(tb) && ThreadId(t)
    requires PageAlloc.FindFreePage(tb, t, STACK_SIZE, 2).Fresh?
    requires FirstFree(PageAlloc.AfterFindFreePage(tb, t, STACK_SIZE, 2).meta) < SCHEDULER_PAGE_START
    ensures LargeRequest(tb, t, STACK_SIZE).Some?
  {
    hide PageOf, PageAlloc.FindFreePage, PageAlloc.AfterFindFreePage, PageCount, CarveSpan, LoadSpan, Unique, Layout,
         Numbered, Touched, HasFreeSlot;
    var u, found := PageAlloc.AfterFindFreePage(tb, t, STACK_SIZE, 2), PageAlloc.FindFreePage(tb, t, STACK_SIZE, 2);
    ClaimedTouched(tb, t, STACK_SIZE, 2);
    PageAlloc.FindFreePageEffect(tb, t, STACK_SIZE, 2);
    assert Touched(u.meta, found.slot + 1);
    PairIsLoaded(u, t, found.slot, found.index);
  }

  lemma PairIsLoaded(u: Table, t: int, slot: nat, k: nat)
    requires Inv(u) && FirstFree(u.meta) < SCHEDULER_PAGE_START && ThreadId(t) && k >= 1
    requires Holds(u, slot, t, k) && PageCount(u, t) >= k + 1 && PageSlot(slot + 1) && Touched(u.meta, slot + 1)
    ensures Holds(LoadSpan(u, slot, 2), slot, t, k) && Holds(LoadSpan(u, slot, 2), slot + 1, t, k + 1)
  {
    hide PageCount, SpanScan, FirstFree;
    FirstFreeIs(u);
    UnlockKeepsFree(u);
    var w := Unlock(u);
    assert InTable(u, t, k + 1);
    var p :| Holds(u, p, t, k + 1);
    SecondPageComes(w, t, slot, k, p, RESERVED_PAGES);
  }

  /** A thread gets its stack: a region of two pages, filled to the last byte, so
      that neither page admits any request. */
  lemma StackIsRepresented(tb: Table, t: int, h: Heap)
    requires Represents(tb, t, h) && Ok(h)
    requires PageAlloc.FindFreePage(tb, t, STACK_SIZE, 2).Fresh?
    requires FirstFree(PageAlloc.AfterFindFreePage(tb, t, STACK_SIZE, 2).meta) < SCHEDULER_PAGE_START
    ensures LargeRequest(tb, t, STACK_SIZE).Some?
    ensures var (r, reply) := LargeRequest(tb, t, STACK_SIZE).value;
      var g := Heap(h.pages + [Larger(0), Larger(-1)], Room(r, t));
      && reply == Address(PageAlloc.VirtualAddress(|h.pages| + 1, 6)) && Represents(r, t, g) && Ok(g)
  {
    hide Represents, LargeRequest, PageAlloc.FindFreePage, PageAlloc.AfterFindFreePage, Inv;
    Parts(tb, t, h);
    StackIsTogether(tb, t);
    var usage := LargeIs(tb, t, h, STACK_SIZE);
    StackCharge();
    assert LargePages(2, 0) == [Larger(0), Larger(-1)];
  }

  lemma StackCharge()
    ensures ChunkList.AllocCharge(ChunkList.Fresh(2 * PAGE_SIZE), STACK_SIZE) == 2 * PAGE_SIZE - 6
  {
    var cs := ChunkList.Fresh(2 * PAGE_SIZE);
    assert ChunkList.Fits(cs[0], STACK_SIZE);
    assert ChunkList.FirstFit(cs, STACK_SIZE) == 0;
  }
}
