/** `mymalloc` and `myfree` for requests of one page, on the page table: the search
    goes by slot, the index that it leaves is a rank, and the address handed out
    and the usage field charged are those of the page with that number. */
module TableHeap {
  import opened Options
  import opened HeaderBytes
  import opened PageTable
  import opened PageTableLemmas
  import opened FlatMemory
  import opened Loader
  import opened ThreadHeap
  import opened RegionCode
  import ChunkList
  import ChunkListLemmas
  import PageAlloc

  // ----- the operations -----

  /** How a request ends.  Evicts leaves the slots for the swap file, which is not
      part of this model. */
  datatype Reply = Address(addr: int) | Null | Evicts

  function SetPage(tb: Table, slot: nat, page: Page): Table
    requires Sized(tb) && slot < TOTAL_PAGES
  {
    tb.(pages := tb.pages[slot := page])
  }

  function SetUsage(tb: Table, slot: nat, usage: int): Table
    requires Sized(tb) && slot < TOTAL_PAGES
  {
    tb.(meta := tb.meta[slot := tb.meta[slot].(usage := usage)])
  }

  /** `findFreeChunk` on the page in `slot`, with `index` in `Thread_Page_Index`:
      carves the chunk there, and charges and addresses page `index`. */
  function Carve(tb: Table, t: int, slot: nat, index: nat, size: nat): (r: (Table, Reply))
    requires Sized(tb) && slot < TOTAL_PAGES
    ensures Sized(r.0)
  {
    var c := AllocBytes(tb.pages[slot], size);
    if c.offset.None? then (tb, Null)
    else
      var header := FindPage(tb.meta, t, index, 0, TOTAL_PAGES);
      var u := SetPage(tb, slot, c.bytes);
      var v := if header < TOTAL_PAGES
               then SetUsage(u, header, ChunkList.AsShort(u.meta[header].usage - c.charge)) else u;
      (v, Address(BASE + (index - 1) * PAGE_SIZE + c.offset.value))
  }

  /** The page used again for a request, if one is, is not part of a larger region. */
  predicate UsesOnePage(tb: Table, t: int, size: nat)
    requires Sized(tb)
  {
    var found := PageAlloc.FindFreePage(tb, t, size, 1);
    found.Reused? ==> found.slot < TOTAL_PAGES && tb.meta[found.slot].span == 1
  }

  /** `mymalloc` called by the library while it acts for thread t: as below, but it
      protects no slot afterwards. */
  function Request(tb: Table, t: int, size: nat): (r: (Table, Reply))
    requires Sized(tb)
    ensures Sized(r.0)
  {
    var found := PageAlloc.FindFreePage(tb, t, size, 1);
    match found
    case Full => (Unlock(tb), Null)
    case Evicts => (tb, Evicts)
    case _ => Carve(PageAlloc.AfterFindFreePage(tb, t, size, 1), t, found.slot, found.index, size)
  }

  /** `mymalloc` called by thread t. */
  function Malloc(tb: Table, t: int, size: nat): (r: (Table, Reply))
    requires Sized(tb)
    ensures Sized(r.0)
  {
    var (u, reply) := Request(tb, t, size);
    match PageAlloc.FindFreePage(tb, t, size, 1)
    case Full => (u, reply)
    case Evicts => (u, reply)
    case _ => (LockAllBut(u, t), reply)
  }

  /** Which of the thread's pages an address names. */
  function PageNumber(addr: nat): int {
    addr / PAGE_SIZE - RESERVED_PAGES + 1
  }

  /** `myfree` called by thread t: loads the thread's pages, then looks for the
      pointer in the page that it names, wherever that page is.  None when the
      thread has no such page, or it is part of a larger region. */
  function Free(tb: Table, t: int, addr: nat): (r: Option<Table>)
    requires Sized(tb)
    ensures r.Some? ==> Sized(r.value)
  {
    var u := Load(tb, t);
    var slot := SlotOf(u, t, PageNumber(addr));
    if slot == SCHEDULER_PAGE_START || u.meta[slot].span != 1 then None
    else
      var r := ReleaseBytes(u.pages[slot], addr - slot * PAGE_SIZE);
      Some(SetUsage(SetPage(u, slot, r.bytes), slot, ChunkList.AsShort(u.meta[slot].usage + r.credit)))
  }

  /** The scheduler hands the processor to thread t. */
  function Resume(tb: Table, t: int): (r: Table)
    requires Sized(tb)
    ensures Sized(r)
  {
    LockAllBut(LoadStack(tb, t), t)
  }

  // ----- what changes in the table -----

  /** A page and its usage field overwritten, in one slot: its owner sees the new
      contents of that page, and nothing else changes. */
  lemma SetContent(tb: Table, slot: nat, page: Page, usage: int)
    requires Inv(tb) && Owned(tb.meta, slot)
    ensures var r, t, m := SetUsage(SetPage(tb, slot, page), slot, usage), tb.meta[slot].thread, tb.meta[slot].num;
      && Inv(r) && SameCounts(tb, r) && SameHeads(tb, r)
      && (forall t', k | t' != 0 && !(t' == t && k == m) :: PageOf(r, t', k) == PageOf(tb, t', k))
      && PageOf(r, t, m) == Some(Content(page, usage, tb.meta[slot].span))
  {
    var r, t, m := SetUsage(SetPage(tb, slot, page), slot, usage), tb.meta[slot].thread, tb.meta[slot].num;
    forall i, t', k ensures Holds(tb, i, t', k) <==> Holds(r, i, t', k) {}
    assert Unique(r);
    assert forall i | 0 <= i < TOTAL_PAGES :: Touched(r.meta, i) <==> Touched(tb.meta, i);
    assert Layout(r.meta) by {
      forall i, j | RESERVED_PAGES <= i < j < SCHEDULER_PAGE_START && Touched(r.meta, j) ensures Touched(r.meta, i) {
        assert Touched(tb.meta, j) && Touched(tb.meta, i);
      }
    }
    forall t', k ensures InTable(tb, t', k) <==> InTable(r, t', k) {
      if InTable(tb, t', k) { var i :| Holds(tb, i, t', k); assert Holds(r, i, t', k); }
      if InTable(r, t', k) { var i :| Holds(r, i, t', k); assert Holds(tb, i, t', k); }
    }
    forall t' ensures PageCount(r, t') == PageCount(tb, t') {
      CountUpdate(tb.meta, slot, r.meta[slot], t', SCHEDULER_PAGE_START);
    }
    forall t', k | t' != 0 && !(t' == t && k == m) ensures PageOf(r, t', k) == PageOf(tb, t', k) {
      if InTable(tb, t', k) {
        var i :| Holds(tb, i, t', k);
        PageOfIs(tb, i, t', k);
        PageOfIs(r, i, t', k);
      }
    }
    assert Holds(r, slot, t, m);
    PageOfIs(r, slot, t, m);
  }

  /** Every slot holds the same page of the same thread. */
  ghost predicate SameHeads(a: Table, b: Table) {
    && Sized(a) && Sized(b)
    && forall i | 0 <= i < TOTAL_PAGES :: b.meta[i].(usage := 0) == a.meta[i].(usage := 0)
  }

  // ----- the heap that the table holds -----

  /** How many more pages thread t can get without an eviction. */
  function Room(tb: Table, t: int): nat
    requires Sized(tb)
  {
    var left := PageAlloc.MAX_THREAD_PAGES - PageCount(tb, t);
    if left < 0 then 0 else if PageCount(tb, 0) < left then PageCount(tb, 0) else left
  }

  /** Thread t's pages in the table, in whatever slots, are the pages of the heap:
      same usage fields, and bytes that encode the chunks. */
  ghost predicate Represents(tb: Table, t: int, h: Heap) {
    && Inv(tb) && ThreadId(t)
    && PageCount(tb, t) == |h.pages| && h.room == Room(tb, t)
    && forall k | 1 <= k <= |h.pages| :: PageIs(tb, t, k, h)
  }

  ghost predicate PageIs(tb: Table, t: int, k: int, h: Heap)
    requires Sized(tb) && 1 <= k <= |h.pages|
  {
    && PageOf(tb, t, k).Some? && PageOf(tb, t, k).value.usage == h.pages[k - 1].usage
    && match h.pages[k - 1]
       case PageHeap(chunks, _) => PageOf(tb, t, k).value.span == 1 && Encodes(PageOf(tb, t, k).value.page, chunks)
       case Larger(_) => PageOf(tb, t, k).value.span != 1
  }

  lemma Parts(tb: Table, t: int, h: Heap)
    requires Represents(tb, t, h)
    ensures Inv(tb) && Sized(tb) && ThreadId(t) && Layout(tb.meta) && Unique(tb)
    ensures |tb.meta| == TOTAL_PAGES && PageCount(tb, t) == |h.pages| && h.room == Room(tb, t)
  {
  }

  /** The page in a slot of thread t. */
  lemma PageInSlot(tb: Table, t: int, h: Heap, i: nat)
    requires Represents(tb, t, h) && PageSlot(i) && tb.meta[i].thread == t
    ensures 1 <= tb.meta[i].num <= |h.pages|
    ensures var p := h.pages[tb.meta[i].num - 1];
      && tb.meta[i].usage == p.usage && (p.PageHeap? <==> tb.meta[i].span == 1)
      && (p.PageHeap? ==> Encodes(tb.pages[i], p.chunks))
  {
    var k := tb.meta[i].num;
    assert Holds(tb, i, t, k);
    assert InTable(tb, t, k);
    PageOfIs(tb, i, t, k);
    assert PageIs(tb, t, k, h);
  }

  /** Whatever other threads do: a table in which thread t's pages have the same
      contents represents the same heap, but for the room left. */
  lemma RepresentsFrame(tb: Table, r: Table, t: int, h: Heap)
    requires Represents(tb, t, h) && Inv(r) && PageCount(r, t) == PageCount(tb, t)
    requires forall k | 1 <= k <= |h.pages| :: PageOf(r, t, k) == PageOf(tb, t, k)
    ensures Represents(r, t, h.(room := Room(r, t)))
  {
    hide Encodes, PageOf, Inv, PageCount;
    InvIsSized(tb);
    InvIsSized(r);
    var g := h.(room := Room(r, t));
    forall k | 1 <= k <= |g.pages| ensures PageIs(r, t, k, g) {
      assert PageIs(tb, t, k, h);
    }
  }

  /** One page of thread t overwritten, as the heap's page is. */
  lemma RepresentsUpdate(tb: Table, t: int, h: Heap, slot: nat, page: Page, p: PageHeap)
    requires Represents(tb, t, h) && PageSlot(slot) && tb.meta[slot].thread == t
    requires tb.meta[slot].span == 1 <==> p.PageHeap?
    requires p.PageHeap? ==> Encodes(page, p.chunks)
    ensures 1 <= tb.meta[slot].num <= |h.pages|
    ensures var r := SetUsage(SetPage(tb, slot, page), slot, p.usage);
      && Represents(r, t, h.(pages := h.pages[tb.meta[slot].num - 1 := p]))
      && SameHeads(tb, r) && SameCounts(tb, r)
  {
    PageInSlot(tb, t, h, slot);
    SetContent(tb, slot, page, p.usage);
    hide Encodes, PageOf, Inv, PageCount;
    var r := SetUsage(SetPage(tb, slot, page), slot, p.usage);
    var m := tb.meta[slot].num;
    var g := h.(pages := h.pages[m - 1 := p]);
    forall k | 1 <= k <= |g.pages| ensures PageIs(r, t, k, g) {
      assert PageIs(tb, t, k, h);
    }
  }

  lemma LockRepresents(tb: Table, r: Table, t: int, h: Heap)
    requires Represents(tb, t, h) && Sized(r) && r.meta == tb.meta && r.pages == tb.pages
    ensures Represents(r, t, h)
  {
    hide Encodes, PageOf, PageCount;
    LockingKeeps(tb, r);
    RepresentsFrame(tb, r, t, h);
  }

  // ----- a request -----

  /** The header charged is that of the page with the number. */
  lemma HeaderSlot(tb: Table, t: int, k: nat)
    requires Inv(tb) && ThreadId(t) && 1 <= k <= PageCount(tb, t)
    ensures var s := FindPage(tb.meta, t, k, 0, TOTAL_PAGES); PageSlot(s) && Holds(tb, s, t, k)
  {
    assert InTable(tb, t, k);
    var i :| Holds(tb, i, t, k);
    var s := FindPage(tb.meta, t, k, 0, TOTAL_PAGES);
    assert s <= i;
  }

  lemma HeaderIsOwn(tb: Table, t: int, h: Heap, slot: nat)
    requires Represents(tb, t, h) && PageSlot(slot) && tb.meta[slot].thread == t
    ensures tb.meta[slot].num >= 1 && FindPage(tb.meta, t, tb.meta[slot].num, 0, TOTAL_PAGES) == slot
  {
    PageInSlot(tb, t, h, slot);
    HeaderSlot(tb, t, tb.meta[slot].num);
    assert Holds(tb, slot, t, tb.meta[slot].num);
  }

  function Said(o: Option<nat>): Reply {
    match o
    case None => Null
    case Some(a) => Address(a)
  }

  /** Carving a page with its own number as the index serves the request from that
      page of the heap. */
  lemma CarveOwn(tb: Table, t: int, h: Heap, slot: nat, size: nat)
    requires Represents(tb, t, h) && Ok(h) && size >= 1 && PageSlot(slot) && tb.meta[slot].thread == t
    requires tb.meta[slot].span == 1
    ensures 1 <= tb.meta[slot].num <= |h.pages|
    ensures var p := tb.meta[slot].num;
      var (r, reply) := Carve(tb, t, slot, p, size);
      && Represents(r, t, MallocIn(h, p - 1, size)) && reply == Said(ResultIn(h, p - 1, size))
      && SameHeads(tb, r) && SameCounts(tb, r)
  {
    hide Represents, PageOk, Encodes, AllocBytes, ChunkList.Alloc, ChunkList.AllocAddr, ChunkList.AllocCharge,
         SetUsage, SetPage, PageCount;
    PageInSlot(tb, t, h, slot);
    HeaderIsOwn(tb, t, h, slot);
    Parts(tb, t, h);
    var p := tb.meta[slot].num;
    var page, c := h.pages[p - 1], AllocBytes(tb.pages[slot], size);
    AllocBytesIs(tb.pages[slot], page.chunks, size);
    AllocInOk(page, size);
    var next := AllocIn(page, size);
    if c.offset.None? {
      assert h.pages[p - 1 := page] == h.pages;
      SameSelf(tb);
    } else {
      RepresentsUpdate(tb, t, h, slot, c.bytes, next);
      UsageKept(tb, slot, c.bytes);
    }
  }

  lemma SameSelf(tb: Table)
    requires Sized(tb)
    ensures SameHeads(tb, tb) && SameCounts(tb, tb)
  {
  }

  lemma UsageKept(tb: Table, slot: nat, page: Page)
    requires Sized(tb) && slot < TOTAL_PAGES
    ensures SetPage(tb, slot, page).meta == tb.meta && Sized(SetPage(tb, slot, page))
  {
  }

  /** A new page: the table then represents the heap with a fresh page more. */
  lemma FreshIsRepresented(tb: Table, t: int, h: Heap, size: nat)
    requires Represents(tb, t, h) && PageAlloc.FindFreePage(tb, t, size, 1).Fresh?
    ensures h.room > 0
    ensures var u, found := PageAlloc.AfterFindFreePage(tb, t, size, 1), PageAlloc.FindFreePage(tb, t, size, 1);
      && Represents(u, t, Heap(h.pages + [NewPage()], h.room - 1))
      && found.index == |h.pages| + 1 && PageSlot(found.slot) && Holds(u, found.slot, t, found.index)
      && u.meta[found.slot].span == 1
  {
    hide Encodes, PageOf, Layout, Unique, Count, PageAlloc.FindUsable, PageAlloc.Claim;
    var u, n := PageAlloc.AfterFindFreePage(tb, t, size, 1), |h.pages|;
    PageAlloc.FindFreePageEffect(tb, t, size, 1);
    PageAlloc.OnePageEncodes();
    assert PageAlloc.NewPage(u, t, n + 1, 0, 1);
    var g := Heap(h.pages + [NewPage()], h.room - 1);
    forall k | 1 <= k <= |g.pages| ensures PageIs(u, t, k, g) {
      if k <= n {
        assert PageIs(tb, t, k, h) && InTable(tb, t, k);
      }
    }
    PageInSlot(u, t, g, PageAlloc.FindFreePage(tb, t, size, 1).slot);
  }

  /** What a request does to the table: with the index of the page that is carved,
      it is a request served from that page of the heap; a page that is new always
      has it, one that is used again may not. */
  lemma MallocIs(tb: Table, t: int, h: Heap, size: nat)
    requires Represents(tb, t, h) && Ok(h) && size >= 1
    ensures var found := PageAlloc.FindFreePage(tb, t, size, 1);
      var (r, reply) := Malloc(tb, t, size);
      match found
      case Reused(slot, _) =>
        && PageSlot(slot) && tb.meta[slot].thread == t && 1 <= tb.meta[slot].num <= |h.pages|
        && var p := tb.meta[slot].num;
           tb.meta[slot].span == 1 && PageAlloc.RankIsNumber(tb, t, slot) ==>
             Represents(r, t, MallocIn(h, p - 1, size)) && reply == Said(ResultIn(h, p - 1, size)) && SameHeads(tb, r)
      case Fresh(slot, index) =>
        && h.room > 0 && Represents(r, t, MallocIn(h, |h.pages|, size)) && reply == Said(ResultIn(h, |h.pages|, size))
        && index == |h.pages| + 1 && SameHeads(PageAlloc.AfterFindFreePage(tb, t, size, 1), r)
      case Full => reply == Null && Represents(r, t, h) && SameHeads(tb, r)
      case Evicts => reply == Evicts && r == tb
  {
    hide Represents, Carve, PageAlloc.AfterFindFreePage, MallocIn, ResultIn, Ok, Count, PageAlloc.FindUsable, Inv,
         Layout, PageCount;
    Parts(tb, t, h);
    var found, u := PageAlloc.FindFreePage(tb, t, size, 1), PageAlloc.AfterFindFreePage(tb, t, size, 1);
    var r := Malloc(tb, t, size).0;
    match found {
      case Reused(slot, index) =>
        AfterReused(tb, t, size);
        LockRepresents(tb, u, t, h);
        UsableIsSlot(tb, t, size);
        PageInSlot(tb, t, h, slot);
        if tb.meta[slot].span == 1 && PageAlloc.RankIsNumber(tb, t, slot) {
          CarveOwn(u, t, h, slot, size);
          LockRepresents(Carve(u, t, slot, index, size).0, r, t, MallocIn(h, tb.meta[slot].num - 1, size));
        }
      case Fresh(slot, index) =>
        FreshIsRepresented(tb, t, h, size);
        var g := Heap(h.pages + [NewPage()], h.room - 1);
        GrownOk(h);
        CarveOwn(u, t, g, slot, size);
        GrownServes(h, size);
        LockRepresents(Carve(u, t, slot, index, size).0, r, t, MallocIn(g, |h.pages|, size));
      case Full =>
        LockRepresents(tb, r, t, h);
      case Evicts =>
    }
  }

  lemma AfterReused(tb: Table, t: int, size: nat)
    requires Sized(tb) && !PageAlloc.FindFreePage(tb, t, size, 1).Fresh?
    ensures PageAlloc.AfterFindFreePage(tb, t, size, 1) == Unlock(tb)
  {
  }

  lemma GrownOk(h: Heap)
    requires Ok(h) && h.room > 0
    ensures Ok(Heap(h.pages + [NewPage()], h.room - 1))
  {
    hide PageOk;
    NewPageOk();
  }

  lemma GrownServes(h: Heap, size: nat)
    requires h.room > 0
    ensures var g := Heap(h.pages + [NewPage()], h.room - 1);
      && MallocIn(g, |h.pages|, size) == MallocIn(h, |h.pages|, size)
      && ResultIn(g, |h.pages|, size) == ResultIn(h, |h.pages|, size)
  {
  }

  lemma UsableIsSlot(tb: Table, t: int, size: nat)
    requires Inv(tb) && ThreadId(t) && |tb.meta| == TOTAL_PAGES
    ensures var r := PageAlloc.FindUsable(tb.meta, t, size, 0);
      r < SCHEDULER_PAGE_START ==> PageSlot(r) && tb.meta[r].thread == t
  {
  }

  /** The library's requests differ from a thread's own in the protection only. */
  lemma RequestIs(tb: Table, t: int, size: nat)
    requires Sized(tb)
    ensures var (r, reply), (m, said) := Request(tb, t, size), Malloc(tb, t, size);
      r.meta == m.meta && r.pages == m.pages && reply == said
  {
    hide Carve, PageAlloc.FindFreePage, PageAlloc.AfterFindFreePage;
  }

  // ----- which page the address names -----

  /** Page p carved, page `index` charged. */
  function CarveIn(h: Heap, p: nat, index: nat, size: nat): Heap
    requires 1 <= p <= |h.pages| && 1 <= index <= |h.pages| && h.pages[p - 1].PageHeap?
  {
    var charge := ChunkList.AllocCharge(h.pages[p - 1].chunks, size);
    var carved := h.pages[p - 1 := h.pages[p - 1].(chunks := ChunkList.Alloc(h.pages[p - 1].chunks, size))];
    var charged := carved[index - 1].(usage := ChunkList.AsShort(carved[index - 1].usage - charge));
    h.(pages := carved[index - 1 := charged])
  }

  /** Whatever the index: the page carved is the one in the slot, the page charged
      and named by the address is the one with the index as its number. */
  lemma CarveAnywhere(tb: Table, t: int, h: Heap, slot: nat, index: nat, size: nat)
    requires Represents(tb, t, h) && PageSlot(slot) && tb.meta[slot].thread == t && 1 <= index <= |h.pages|
    requires Ok(h) && size >= 1 && tb.meta[slot].span == 1
    ensures 1 <= tb.meta[slot].num <= |h.pages| && h.pages[tb.meta[slot].num - 1].PageHeap?
    ensures var p := tb.meta[slot].num;
      var (r, reply) := Carve(tb, t, slot, index, size);
      match ChunkList.AllocAddr(h.pages[p - 1].chunks, size)
      case None => r == tb && reply == Null && ChunkList.Alloc(h.pages[p - 1].chunks, size) == h.pages[p - 1].chunks
      case Some(offset) =>
        && Represents(r, t, CarveIn(h, p, index, size)) && SameHeads(tb, r)
        && reply == Address(PageAlloc.VirtualAddress(index, offset))
  {
    hide Represents, PageOk, Encodes, AllocBytes, ChunkList.Alloc, ChunkList.AllocAddr, ChunkList.AllocCharge,
         SetUsage, SetPage, PageCount, Inv, ChunkList.AsShort, SameCounts, SameHeads;
    PageInSlot(tb, t, h, slot);
    Parts(tb, t, h);
    HeaderSlot(tb, t, index);
    var p, c := tb.meta[slot].num, AllocBytes(tb.pages[slot], size);
    var page := h.pages[p - 1];
    AllocBytesIs(tb.pages[slot], page.chunks, size);
    AllocInOk(page, size);
    if c.offset.Some? {
      var header := FindPage(tb.meta, t, index, 0, TOTAL_PAGES);
      var u := SetPage(tb, slot, c.bytes);
      UsageKept(tb, slot, c.bytes);
      var carved := page.(chunks := ChunkList.Alloc(page.chunks, size));
      var g := h.(pages := h.pages[p - 1 := carved]);
      RepresentsUpdate(tb, t, h, slot, c.bytes, carved);
      SameUsage(u, slot);
      PageInSlot(u, t, g, header);
      var charged := g.pages[index - 1].(usage := ChunkList.AsShort(g.pages[index - 1].usage - c.charge));
      RepresentsUpdate(u, t, g, header, u.pages[header], charged);
      SameBytes(u, header);
      HeadsTransitive(tb, u, SetUsage(u, header, charged.usage));
    }
  }

  lemma SameUsage(tb: Table, slot: nat)
    requires Sized(tb) && slot < TOTAL_PAGES
    ensures SetUsage(tb, slot, tb.meta[slot].usage) == tb
  {
    assert tb.meta[slot := tb.meta[slot]] == tb.meta;
  }

  lemma SameBytes(tb: Table, slot: nat)
    requires Sized(tb) && slot < TOTAL_PAGES
    ensures SetPage(tb, slot, tb.pages[slot]) == tb
  {
    assert tb.pages[slot := tb.pages[slot]] == tb.pages;
  }

  lemma HeadsTransitive(a: Table, b: Table, c: Table)
    requires SameHeads(a, b) && SameHeads(b, c)
    ensures SameHeads(a, c)
  {
  }

  /** The bytes that end up in the page carved. */
  lemma CarvedBytes(tb: Table, t: int, h: Heap, p: nat, index: nat, size: nat)
    requires 1 <= p <= |h.pages| && 1 <= index <= |h.pages| && h.pages[p - 1].PageHeap?
    requires Represents(tb, t, CarveIn(h, p, index, size))
    ensures Sized(tb) && PageOf(tb, t, p).Some?
    ensures Encodes(PageOf(tb, t, p).value.page, ChunkList.Alloc(h.pages[p - 1].chunks, size))
  {
    hide Encodes, PageOf;
    assert PageIs(tb, t, p, CarveIn(h, p, index, size));
  }

  lemma PageInTable(tb: Table, t: int, slot: nat)
    requires Inv(tb) && ThreadId(t) && PageSlot(slot) && tb.meta[slot].thread == t
    ensures PageOf(tb, t, tb.meta[slot].num).Some? && PageOf(tb, t, tb.meta[slot].num).value.page == tb.pages[slot]
  {
    assert Holds(tb, slot, t, tb.meta[slot].num);
    PageOfIs(tb, slot, t, tb.meta[slot].num);
  }

  lemma CarvedThenCharged(tb: Table, t: int, slot: nat, header: nat, page: Page, usage: int)
    requires Inv(tb) && ThreadId(t)
    requires PageSlot(slot) && tb.meta[slot].thread == t && PageSlot(header) && tb.meta[header].thread == t
    ensures var r := SetUsage(SetPage(tb, slot, page), header, usage);
      && Inv(r) && SameHeads(tb, r) && SameCounts(tb, r)
      && PageOf(r, t, tb.meta[slot].num).Some? && PageOf(r, t, tb.meta[slot].num).value.page == page
      && forall t', k | t' != 0 && t' != t :: PageOf(r, t', k) == PageOf(tb, t', k)
  {
    hide PageOf, Layout, Unique, Numbered, PageCount;
    var u := SetPage(tb, slot, page);
    SetContent(tb, slot, page, tb.meta[slot].usage);
    assert SetUsage(u, slot, tb.meta[slot].usage) == u by {
      assert u.meta[slot := u.meta[slot]] == u.meta;
    }
    var r := SetUsage(u, header, usage);
    SetContent(u, header, u.pages[header], usage);
    assert SetPage(u, header, u.pages[header]) == u by {
      assert u.pages[header := u.pages[header]] == u.pages;
    }
    PageInTable(r, t, slot);
  }

  /** One request that is served: the page that is carved is one, the page that
      the address names is another, unless the page's number is what the search
      left as the index.  For a page that is used again, that is exactly when its
      number is its rank among the thread's pages in slot order; for a new page
      it always is. */
  lemma AddressNamesBlockExactly(tb: Table, t: int, h: Heap, size: nat) returns (p: nat, offset: nat)
    requires Represents(tb, t, h) && Ok(h) && size >= 1 && Malloc(tb, t, size).1.Address?
    requires UsesOnePage(tb, t, size)
    ensures 1 <= p <= |Extended(h, |h.pages|)| && Extended(h, |h.pages|)[p - 1].PageHeap?
    ensures var (r, reply) := Malloc(tb, t, size);
      var cs := Extended(h, |h.pages|)[p - 1].chunks;
      && ChunkList.AllocAddr(cs, size) == Some(offset)
      && Sized(r) && PageOf(r, t, p).Some? && Encodes(PageOf(r, t, p).value.page, ChunkList.Alloc(cs, size))
      && (reply.addr == PageAlloc.VirtualAddress(p, offset) <==>
            match PageAlloc.FindFreePage(tb, t, size, 1)
            case Reused(slot, _) => slot < TOTAL_PAGES && PageAlloc.RankIsNumber(tb, t, slot)
            case _ => true)
  {
    hide Represents, Encodes, PageOf, ChunkList.Alloc, ChunkList.AllocAddr, Inv, Layout, Carve, Ok, PageCount,
         PageAlloc.FindUsable, PageAlloc.AfterFindFreePage;
    Parts(tb, t, h);
    var found, u := PageAlloc.FindFreePage(tb, t, size, 1), PageAlloc.AfterFindFreePage(tb, t, size, 1);
    var r := Malloc(tb, t, size).0;
    match found {
      case Reused(slot, index) =>
        AfterReused(tb, t, size);
        LockRepresents(tb, u, t, h);
        UsableIsSlot(tb, t, size);
        RankBounds(tb, t, slot);
        CarveAnywhere(u, t, h, slot, index, size);
        LockRepresents(Carve(u, t, slot, index, size).0, r, t, CarveIn(h, tb.meta[slot].num, index, size));
        CarvedBytes(r, t, h, tb.meta[slot].num, index, size);
        p := tb.meta[slot].num;
        offset := ChunkList.AllocAddr(h.pages[p - 1].chunks, size).value;
      case Fresh(slot, index) =>
        FreshIsRepresented(tb, t, h, size);
        var g := Heap(h.pages + [NewPage()], h.room - 1);
        Parts(u, t, g);
        GrownOk(h);
        CarveAnywhere(u, t, g, slot, index, size);
        LockRepresents(Carve(u, t, slot, index, size).0, r, t, CarveIn(g, index, index, size));
        CarvedBytes(r, t, g, index, index, size);
        p := index;
        offset := ChunkList.AllocAddr(g.pages[p - 1].chunks, size).value;
    }
  }

  lemma RankBounds(tb: Table, t: int, slot: nat)
    requires Sized(tb) && PageSlot(slot) && tb.meta[slot].thread == t
    ensures 1 <= Count(tb.meta, t, slot + 1) <= PageCount(tb, t)
  {
    CountBound(tb.meta, t, slot + 1, SCHEDULER_PAGE_START);
  }

  lemma LockKeepsPages(tb: Table, t: int)
    requires Inv(tb)
    ensures Sized(LockAllBut(tb, t)) && forall t', k | t' != 0 :: PageOf(LockAllBut(tb, t), t', k) == PageOf(tb, t', k)
  {
    LockingKeeps(tb, LockAllBut(tb, t));
  }

  // ----- a thread whose pages lie in slot order -----

  /** Of two pages of the thread, the one in the lower slot has the lower number. */
  lemma OrderedSlots(tb: Table, t: int, i: nat, j: nat)
    requires Sized(tb) && PageAlloc.InSlotOrder(tb, t) && PageSlot(i) && PageSlot(j) && i <= j
    requires tb.meta[i].thread == t && tb.meta[j].thread == t
    ensures tb.meta[i].num <= tb.meta[j].num
  {
  }

  /** The search stops no later than at a page that admits the request. */
  lemma AdmittedSlot(tb: Table, t: int, h: Heap, size: nat, k: nat) returns (s: nat)
    requires Represents(tb, t, h) && 1 <= k <= |h.pages| && size <= h.pages[k - 1].usage
    ensures PageSlot(s) && Holds(tb, s, t, k) && PageAlloc.FindUsable(tb.meta, t, size, 0) <= s
  {
    hide Encodes;
    assert PageIs(tb, t, k, h) && InTable(tb, t, k);
    var i :| Holds(tb, i, t, k);
    s := i;
    PageInSlot(tb, t, h, s);
  }

  lemma UsableSlot(tb: Table, t: int, h: Heap, size: nat)
    requires Represents(tb, t, h) && PageAlloc.InSlotOrder(tb, t)
    ensures |tb.meta| == TOTAL_PAGES
    ensures var i, r := Admitting(h.pages, size), PageAlloc.FindUsable(tb.meta, t, size, 0);
      && (r < SCHEDULER_PAGE_START <==> i < |h.pages|)
      && (i < |h.pages| ==> PageSlot(r) && Holds(tb, r, t, i + 1))
  {
    hide Represents, Inv, Sized, PageAlloc.InSlotOrder, Admitting, PageAlloc.FindUsable, Layout;
    Parts(tb, t, h);
    UsableIsSlot(tb, t, size);
    var i, r := Admitting(h.pages, size), PageAlloc.FindUsable(tb.meta, t, size, 0);
    if r < SCHEDULER_PAGE_START {
      PageInSlot(tb, t, h, r);
    }
    if i < |h.pages| {
      var s := AdmittedSlot(tb, t, h, size, i + 1);
      OrderedSlots(tb, t, r, s);
    }
  }

  /** In slot order the search chooses the page that the heap would: a page is
      used again exactly when one admits the request, and then it is the first
      such, and the index left is its number. */
  lemma SearchAgrees(tb: Table, t: int, h: Heap, size: nat)
    requires Represents(tb, t, h) && PageAlloc.InSlotOrder(tb, t)
    ensures var i, found := Admitting(h.pages, size), PageAlloc.FindFreePage(tb, t, size, 1);
      && (found.Reused? <==> i < |h.pages|)
      && (found.Reused? ==> found.slot < TOTAL_PAGES && PageAlloc.RankIsNumber(tb, t, found.slot)
                            && found.index == i + 1 && Holds(tb, found.slot, t, i + 1))
      && (found.Fresh? ==> found.index == i + 1)
  {
    hide Represents, Count, Inv, PageAlloc.InSlotOrder, Admitting, PageAlloc.FindUsable, Layout;
    Parts(tb, t, h);
    UsableSlot(tb, t, h, size);
    if Admitting(h.pages, size) < |h.pages| {
      PageAlloc.RankInOrder(tb, t, PageAlloc.FindUsable(tb.meta, t, size, 0));
    }
  }

  /** In slot order, `mymalloc` on the table is the heap's malloc, but that it asks
      for an eviction where the heap has no room; a page that is used again stays
      in order. */
  lemma MallocRefines(tb: Table, t: int, h: Heap, size: nat)
    requires Represents(tb, t, h) && Ok(h) && size >= 1 && PageAlloc.InSlotOrder(tb, t) && UsesOnePage(tb, t, size)
    ensures var (r, reply) := Malloc(tb, t, size);
      && Represents(r, t, ThreadHeap.Malloc(h, size))
      && (reply == Said(Result(h, size)) || (reply.Evicts? && Result(h, size).None?))
      && (Admitting(h.pages, size) < |h.pages| ==> PageAlloc.InSlotOrder(r, t))
  {
    hide Represents, Malloc, MallocIn, ResultIn, Ok, Admitting, PageAlloc.InSlotOrder, Inv, Layout, Count,
         PageAlloc.FindUsable;
    Parts(tb, t, h);
    SearchAgrees(tb, t, h, size);
    MallocIs(tb, t, h, size);
    NoRoom(tb, t, h, size);
    if Admitting(h.pages, size) < |h.pages| {
      OrderDepends(tb, Malloc(tb, t, size).0, t);
    }
  }

  lemma NoRoom(tb: Table, t: int, h: Heap, size: nat)
    requires Represents(tb, t, h)
    ensures PageAlloc.FindFreePage(tb, t, size, 1).Full? || PageAlloc.FindFreePage(tb, t, size, 1).Evicts? ==>
              && h.room == 0 && MallocIn(h, |h.pages|, size) == h && ResultIn(h, |h.pages|, size) == None
  {
  }

  lemma OrderDepends(a: Table, b: Table, t: int)
    requires SameHeads(a, b) && PageAlloc.InSlotOrder(a, t)
    ensures PageAlloc.InSlotOrder(b, t)
  {
    forall i, j | PageSlot(i) && PageSlot(j) && i < j && b.meta[i].thread == t && b.meta[j].thread == t
      ensures b.meta[i].num < b.meta[j].num
    {
      assert b.meta[i].(usage := 0) == a.meta[i].(usage := 0) && b.meta[j].(usage := 0) == a.meta[j].(usage := 0);
    }
  }

  /** Once the thread's pages are in their slots they are in order, and a new page
      goes behind them all. */
  lemma LoadedIsInOrder(tb: Table, t: int)
    requires Inv(tb) && ThreadId(t) && Placed(tb, t, PageCount(tb, t) + 1)
    ensures PageAlloc.InSlotOrder(tb, t)
    ensures forall s | PageSlot(s) && tb.meta[s].thread == t :: s < RESERVED_PAGES + PageCount(tb, t)
    ensures forall s | RESERVED_PAGES <= s < RESERVED_PAGES + PageCount(tb, t) ::
              PageSlot(s) && tb.meta[s].thread == t
  {
    forall s | PageSlot(s) && tb.meta[s].thread == t
      ensures s == RESERVED_PAGES + tb.meta[s].num - 1 && 1 <= tb.meta[s].num <= PageCount(tb, t)
    {
      var k := tb.meta[s].num;
      assert Holds(tb, s, t, k) && InTable(tb, t, k);
      assert InItsSlot(tb, t, k);
    }
    forall s | RESERVED_PAGES <= s < RESERVED_PAGES + PageCount(tb, t) ensures PageSlot(s) && tb.meta[s].thread == t {
      assert InItsSlot(tb, t, s - RESERVED_PAGES + 1);
    }
  }

  /** So a thread whose pages have been loaded gets its pages in order. */
  lemma MallocKeepsOrder(tb: Table, t: int, h: Heap, size: nat)
    requires Represents(tb, t, h) && Ok(h) && size >= 1 && Placed(tb, t, |h.pages| + 1) && UsesOnePage(tb, t, size)
    ensures PageAlloc.InSlotOrder(Malloc(tb, t, size).0, t)
  {
    hide Represents, Malloc, PageOk, Count, PageAlloc.FindUsable, PageCount, PageAlloc.InSlotOrder;
    Parts(tb, t, h);
    LoadedIsInOrder(tb, t);
    MallocIs(tb, t, h, size);
    var r, found := Malloc(tb, t, size).0, PageAlloc.FindFreePage(tb, t, size, 1);
    if found.Fresh? {
      NewPageInOrder(tb, t, size);
      OrderDepends(PageAlloc.AfterFindFreePage(tb, t, size, 1), r, t);
    } else if !found.Evicts? {
      SearchAgrees(tb, t, h, size);
      OrderDepends(tb, r, t);
    }
  }

  lemma NewPageInOrder(tb: Table, t: int, size: nat)
    requires Inv(tb) && ThreadId(t) && Placed(tb, t, PageCount(tb, t) + 1)
    requires PageAlloc.FindFreePage(tb, t, size, 1).Fresh?
    ensures PageAlloc.InSlotOrder(PageAlloc.AfterFindFreePage(tb, t, size, 1), t)
  {
    var f := FirstFree(tb.meta);
    LoadedIsInOrder(tb, t);
    FirstFreeIs(tb);
    FreeSlotCount(tb);
    assert f >= RESERVED_PAGES + PageCount(tb, t);
    forall s | PageSlot(s) && tb.meta[s].thread == t ensures tb.meta[s].num <= PageCount(tb, t) {
      assert Holds(tb, s, t, tb.meta[s].num) && InTable(tb, t, tb.meta[s].num);
    }
  }

  // ----- null, and evictions -----

  /** A one-page request ends with null exactly when the first page in slot order
      that admits it has no chunk for it, or when none admits it and the thread is
      at its limit; and it goes to the swap file exactly when none admits it and
      no slot is free. */
  lemma NullExactly(tb: Table, t: int, h: Heap, size: nat)
    requires Represents(tb, t, h) && Ok(h) && size >= 1 && PagesForMalloc(size) == 1 && UsesOnePage(tb, t, size)
    ensures |tb.meta| == TOTAL_PAGES
    ensures var r, reply := PageAlloc.FindUsable(tb.meta, t, size, 0), Malloc(tb, t, size).1;
      if r < SCHEDULER_PAGE_START
      then
        && tb.meta[r].thread == t && 1 <= tb.meta[r].num <= |h.pages| && !reply.Evicts?
        && h.pages[tb.meta[r].num - 1].PageHeap?
        && (reply.Null? <==>
              forall c | c in h.pages[tb.meta[r].num - 1].chunks :: !ChunkList.Fits(c, size))
      else
        && (reply.Null? <==> PageCount(tb, t) >= PageAlloc.MAX_THREAD_PAGES)
        && (reply.Evicts? <==> PageCount(tb, t) < PageAlloc.MAX_THREAD_PAGES && PageCount(tb, 0) == 0)
  {
    hide Represents, Carve, PageCount, Inv, Layout, PageAlloc.FindUsable, PageAlloc.AfterFindFreePage, PageOf, Encodes,
         ChunkList.Alloc, ChunkList.AllocAddr, Count;
    Parts(tb, t, h);
    var found, u := PageAlloc.FindFreePage(tb, t, size, 1), PageAlloc.AfterFindFreePage(tb, t, size, 1);
    match found {
      case Reused(slot, index) =>
        AfterReused(tb, t, size);
        LockRepresents(tb, u, t, h);
        UsableIsSlot(tb, t, size);
        PageInSlot(tb, t, h, slot);
        RankBounds(tb, t, slot);
        CarveAnywhere(u, t, h, slot, index, size);
        assert PageOk(h.pages[tb.meta[slot].num - 1]);
        ChunkListLemmas.AllocEffect(h.pages[tb.meta[slot].num - 1].chunks, size);
      case Fresh(slot, index) =>
        FreshIsRepresented(tb, t, h, size);
        var g := Heap(h.pages + [NewPage()], h.room - 1);
        Parts(u, t, g);
        GrownOk(h);
        CarveAnywhere(u, t, g, slot, index, size);
        RegionServesItsRequest(size);
      case _ =>
    }
  }

  // ----- a free -----

  /** A pointer outside the bytes of a page releases nothing there. */
  lemma OutsideReleasesNothing(cs: seq<ChunkList.Chunk>, addr: int)
    requires ChunkList.Shape(cs) && (addr < 0 || addr >= ChunkList.Extent(cs))
    ensures !ChunkList.FreeResult(cs, ChunkList.Extent(cs), addr).Released?
    ensures ChunkList.Free(cs, addr) == cs && ChunkList.FreeCredit(cs, addr) == 0
  {
    var i: nat := ChunkList.PayloadIndex(cs, addr);
    if i < |cs| {
      ChunkListLemmas.StartMonotone(cs, i, |cs|);
    }
  }

  /** `myfree` of a pointer to a page that the thread has: when the load has put
      that page into its slot, it is the heap's release; when it has not, the
      pointer is out of the range of the page's bytes, and nothing is released. */
  lemma FreeIs(tb: Table, t: int, h: Heap, addr: nat)
    requires Represents(tb, t, h) && Ok(h) && HasFreeSlot(tb) && Mapped(h, addr)
    ensures Free(tb, t, addr).Some?
    ensures Represents(Free(tb, t, addr).value, t,
                       if InItsSlot(Load(tb, t), t, PageNumber(addr)) then Release(h, addr) else h)
    ensures SameHeads(Load(tb, t), Free(tb, t, addr).value)
  {
    hide Represents, PageCount, Inv, Layout, PageOf, Encodes, Load, ReleaseBytes, ChunkList.Free, ChunkList.FreeCredit,
         ChunkList.Shape, ChunkList.Extent, SetUsage, SetPage, ChunkList.FreeResult, ChunkList.AsShort, Holds;
    Parts(tb, t, h);
    LoadRepresents(tb, t, h);
    var u, k := Load(tb, t), PageNumber(addr);
    Parts(u, t, h);
    var slot := SlotOfPage(u, t, h, k);
    PageInSlot(u, t, h, slot);
    var p := h.pages[k - 1];
    assert PageOk(p);
    var offset := addr - slot * PAGE_SIZE;
    ReleaseBytesIs(u.pages[slot], p.chunks, offset);
    assert slot == RESERVED_PAGES + k - 1 ==> offset == addr % PAGE_SIZE;
    if !InItsSlot(u, t, k) {
      OutsideReleasesNothing(p.chunks, offset);
      KeptUsage(p.usage);
      assert h.pages[k - 1 := p] == h.pages;
    }
    var credited := PageHeap(ChunkList.Free(p.chunks, offset),
                             ChunkList.AsShort(p.usage + ChunkList.FreeCredit(p.chunks, offset)));
    RepresentsUpdate(u, t, h, slot, ReleaseBytes(u.pages[slot], offset).bytes, credited);
    UsageKept(u, slot, ReleaseBytes(u.pages[slot], offset).bytes);
  }

  lemma KeptUsage(usage: int)
    requires -0x8000 <= usage < 0x8000
    ensures ChunkList.AsShort(usage + 0) == usage
  {
  }

  lemma LoadRepresents(tb: Table, t: int, h: Heap)
    requires Represents(tb, t, h) && HasFreeSlot(tb)
    ensures Represents(Load(tb, t), t, h)
  {
    hide Encodes, PageOf, PageCount, Load;
    LoadKeepsMemory(tb, t);
    RepresentsFrame(tb, Load(tb, t), t, h);
  }

  lemma SlotOfPage(tb: Table, t: int, h: Heap, k: nat) returns (slot: nat)
    requires Represents(tb, t, h) && 1 <= k <= |h.pages|
    ensures PageSlot(slot) && Holds(tb, slot, t, k) && SlotOf(tb, t, k) == slot
    ensures InItsSlot(tb, t, k) <==> slot == RESERVED_PAGES + k - 1
  {
    assert PageIs(tb, t, k, h) && InTable(tb, t, k);
    var i :| Holds(tb, i, t, k);
    SlotOfIs(tb, i, t, k);
    slot := i;
  }

  // ----- an access -----

  /** The address lies in the payload of a chunk, live or not, or in a larger
      region. */
  ghost predicate InPayload(h: Heap, addr: nat) {
    && 0 <= PageAt(addr) < |h.pages|
    && match h.pages[PageAt(addr)]
       case PageHeap(chunks, _) => exists i :: ChunkHolds(chunks, i, addr % PAGE_SIZE)
       case Larger(_) => true
  }

  ghost predicate ChunkHolds(cs: seq<ChunkList.Chunk>, i: int, offset: nat) {
    0 <= i < |cs| && ChunkList.Start(cs, i) + ChunkList.HEADER <= offset
                   < ChunkList.Start(cs, i) + ChunkList.HEADER + cs[i].size
  }

  /** A thread that reads, or writes within the payloads of its pages, leaves its
      heap as it is. */
  lemma AccessKeeps(tb: Table, t: int, h: Heap, a: Access)
    requires Represents(tb, t, h) && HasFreeSlot(tb) && InRange(tb, t, a.addr) && a.addr < HEAP_SIZE
    requires Reaches(tb, t, a.addr) && (a.Write? ==> InPayload(h, a.addr))
    ensures FirstFree(tb.meta) < SCHEDULER_PAGE_START && Step(tb, t, a).Some?
    ensures Represents(Step(tb, t, a).value.0, t, h) && HasFreeSlot(Step(tb, t, a).value.0)
  {
    hide Encodes, PageOf, PageCount, Step, Inv, Layout;
    Parts(tb, t, h);
    ReachStep(tb, t, a);
    var r, k, off := Step(tb, t, a).value.0, PageNumber(a.addr), a.addr % PAGE_SIZE;
    InvIsSized(r);
    forall j | 1 <= j <= |h.pages| ensures PageIs(r, t, j, h) {
      assert PageIs(tb, t, j, h);
      if j == k && a.Write? && h.pages[k - 1].PageHeap? {
        var cs := h.pages[k - 1].chunks;
        var i :| ChunkHolds(cs, i, off);
        PayloadWriteKeeps(PageOf(tb, t, k).value.page, cs, i, off, a.value);
      }
    }
  }

  lemma LiveIsPayload(h: Heap, b: ChunkList.Block, addr: nat)
    requires Ok(h) && IsLive(h, b) && b.addr <= addr < b.addr + b.size
    ensures InPayload(h, addr)
  {
    var i: nat :| LiveIn(h, i, b);
    LiveOnItsPage(h, i, b);
    var base := PageAlloc.VirtualAddress(i + 1, 0);
    AddressOf(i, addr - base);
    var k := ChunkListLemmas.LiveIndex(h.pages[i].chunks, 0, ChunkList.Block(b.addr - base, b.size));
    assert ChunkHolds(h.pages[i].chunks, k, addr % PAGE_SIZE);
  }
}
