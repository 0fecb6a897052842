/** Runs of any threads over the page table: when the blocks that a thread holds are
    its own. */
module TableHeapRuns {
  import opened Options
  import opened HeaderBytes
  import opened PageTable
  import opened PageTableLemmas
  import opened FlatMemory
  import opened Loader
  import opened ThreadHeap
  import opened RegionCode
  import opened TableHeap
  import opened LargeRegions
  import ChunkList
  import PageAlloc

  // ----- what other threads do -----

  lemma OtherMalloc(tb: Table, o: int, size: nat, t: int)
    requires Inv(tb) && ThreadId(o) && ThreadId(t) && t != o
    ensures Inv(TableHeap.Malloc(tb, o, size).0) && SamePagesOf(tb, TableHeap.Malloc(tb, o, size).0, t)
  {
    hide PageOf, Layout, Unique, Count, PageAlloc.FindUsable, PageAlloc.Claim, Carve;
    var found, u := PageAlloc.FindFreePage(tb, o, size, 1), PageAlloc.AfterFindFreePage(tb, o, size, 1);
    PageAlloc.FindFreePageEffect(tb, o, size, 1);
    if found.Reused? || found.Fresh? {
      if found.Reused? { RankBounds(tb, o, found.slot); }
      OtherCarve(u, o, found.slot, found.index, size, t);
      LockKeepsPages(Carve(u, o, found.slot, found.index, size).0, o);
      LockingKeeps(Carve(u, o, found.slot, found.index, size).0, TableHeap.Malloc(tb, o, size).0);
    }
  }

  lemma OtherCarve(tb: Table, o: int, slot: nat, index: nat, size: nat, t: int)
    requires Inv(tb) && ThreadId(o) && ThreadId(t) && t != o && 1 <= index <= PageCount(tb, o)
    requires PageSlot(slot) && tb.meta[slot].thread == o
    ensures Inv(Carve(tb, o, slot, index, size).0) && SamePagesOf(tb, Carve(tb, o, slot, index, size).0, t)
  {
    hide PageOf, Layout, Unique, Numbered, AllocBytes, SetPage, SetUsage, PageCount;
    HeaderSlot(tb, o, index);
    var c, header := AllocBytes(tb.pages[slot], size), FindPage(tb.meta, o, index, 0, TOTAL_PAGES);
    if c.offset.Some? {
      UsageKept(tb, slot, c.bytes);
      CarvedThenCharged(tb, o, slot, header, c.bytes, ChunkList.AsShort(tb.meta[header].usage - c.charge));
    }
  }

  lemma OtherFree(tb: Table, o: int, addr: nat, t: int)
    requires Inv(tb) && HasFreeSlot(tb) && ThreadId(o) && ThreadId(t) && t != o && Free(tb, o, addr).Some?
    ensures Inv(Free(tb, o, addr).value) && SamePagesOf(tb, Free(tb, o, addr).value, t)
  {
    hide Inv, SamePagesOf, ReleaseBytes, SetPage, SetUsage, Load, ChunkList.AsShort, SameMemory, SameCounts,
         HasFreeSlot;
    LoadKeepsMemory(tb, o);
    var u := Load(tb, o);
    SameMemorySamePages(tb, u, t);
    var slot := SlotOf(u, o, PageNumber(addr));
    ReservedOwner(u, o, PageNumber(addr));
    var r := ReleaseBytes(u.pages[slot], addr - slot * PAGE_SIZE);
    var usage := ChunkList.AsShort(u.meta[slot].usage + r.credit);
    UsageKept(u, slot, r.bytes);
    OtherContent(u, slot, r.bytes, usage, t);
    PagesTransitive(tb, u, SetUsage(SetPage(u, slot, r.bytes), slot, usage), t);
  }

  lemma OtherContent(tb: Table, slot: nat, page: Page, usage: int, t: int)
    requires Inv(tb) && Owned(tb.meta, slot) && t != 0 && tb.meta[slot].thread != t
    ensures var r := SetUsage(SetPage(tb, slot, page), slot, usage); Inv(r) && SamePagesOf(tb, r, t)
  {
    hide PageOf, PageCount, Layout, Unique, Numbered;
    SetContent(tb, slot, page, usage);
  }

  lemma PagesTransitive(a: Table, b: Table, c: Table, t: int)
    requires SamePagesOf(a, b, t) && SamePagesOf(b, c, t)
    ensures SamePagesOf(a, c, t)
  {
    hide PageOf, PageCount;
  }

  lemma ReservedOwner(tb: Table, t: int, k: int)
    requires Inv(tb) && ThreadId(t) && SlotOf(tb, t, k) < SCHEDULER_PAGE_START
    ensures PageSlot(SlotOf(tb, t, k)) && tb.meta[SlotOf(tb, t, k)].thread == t
  {
  }

  lemma SameMemorySamePages(a: Table, b: Table, t: int)
    requires SameMemory(a, b) && SameCounts(a, b) && t != 0
    ensures SamePagesOf(a, b, t)
  {
    hide PageOf, PageCount;
  }

  // ----- runs -----

  /** A step by some thread. */
  datatype Op =
    | DoMalloc(thread: int, size: nat)
    | DoRequest(thread: int, size: nat)                 // by the library, for the thread
    | DoLarge(thread: int, size: nat, protects: bool)   // by either
    | DoFree(thread: int, addr: nat)
    | DoAccess(thread: int, access: Access)
    | DoResume(thread: int)
    | DoLoad(thread: int)

  /** What every step keeps to: small requests fit one page and use no page of a
      larger region again; large ones get new pages that come to lie together, as
      those of a stack do; frees name a page that the thread has, accesses are to
      its own range; and a slot is free. */
  ghost predicate Proper(tb: Table, op: Op) {
    && Sized(tb) && FirstFree(tb.meta) < SCHEDULER_PAGE_START && ThreadId(op.thread)
    && match op
       case DoMalloc(o, size) => size >= 1 && PagesForMalloc(size) == 1 && UsesOnePage(tb, o, size)
       case DoRequest(o, size) => size >= 1 && PagesForMalloc(size) == 1 && UsesOnePage(tb, o, size)
       case DoLarge(o, size, _) => size >= 1 && PagesForMalloc(size) >= 2 && LargeRequest(tb, o, size).Some?
       case DoFree(o, addr) => 1 <= PageNumber(addr) <= PageCount(tb, o) && Free(tb, o, addr).Some?
       case DoAccess(o, a) => InRange(tb, o, a.addr) && a.addr < HEAP_SIZE && Reaches(tb, o, a.addr)
       case DoResume(_) => true
       case DoLoad(_) => true
  }

  ghost function Apply(tb: Table, op: Op): (r: Table)
    requires Proper(tb, op)
    ensures Sized(r)
  {
    match op
    case DoMalloc(o, size) => TableHeap.Malloc(tb, o, size).0
    case DoRequest(o, size) => Request(tb, o, size).0
    case DoLarge(o, size, protects) =>
      var r := LargeRequest(tb, o, size).value.0;
      if protects then LockAllBut(r, o) else r
    case DoFree(o, addr) => Free(tb, o, addr).value
    case DoAccess(o, a) => var r := Step(tb, o, a); if r.Some? then r.value.0 else tb
    case DoResume(o) => Resume(tb, o)
    case DoLoad(o) => Load(tb, o)
  }

  /** The page that serves thread t's request, if it is used again, has its rank as
      its number; the page that thread t frees on is brought into its slot; and
      thread t writes only to blocks that it holds and to larger regions. */
  ghost predicate Served(tb: Table, t: int, op: Op, held: set<ChunkList.Block>)
    requires Sized(tb)
  {
    match op
    case DoMalloc(_, size) => ReusesByNumber(tb, t, size)
    case DoRequest(_, size) => ReusesByNumber(tb, t, size)
    case DoFree(_, addr) => InItsSlot(Load(tb, t), t, PageNumber(addr))
    case DoAccess(_, a) => a.Write? ==> InHeld(held, a.addr) || OnLarger(tb, t, a.addr)
    case _ => true
  }

  /** The page used again for a request, if one is, has its rank as its number. */
  ghost predicate ReusesByNumber(tb: Table, t: int, size: nat)
    requires Sized(tb)
  {
    var found := PageAlloc.FindFreePage(tb, t, size, 1);
    found.Reused? ==> found.slot < TOTAL_PAGES && PageAlloc.RankIsNumber(tb, t, found.slot)
  }

  ghost predicate InHeld(held: set<ChunkList.Block>, addr: nat) {
    exists b | b in held :: b.addr <= addr < b.addr + b.size
  }

  /** The address is on a page of a larger region of thread t. */
  ghost predicate OnLarger(tb: Table, t: int, addr: nat)
    requires Sized(tb)
  {
    PageOf(tb, t, PageNumber(addr)).Some? && PageOf(tb, t, PageNumber(addr)).value.span != 1
  }

  /** The blocks of one-page regions that thread t holds after the step: what it
      was given and has not given back, as long as it asked for. */
  ghost function HeldAfter(tb: Table, t: int, op: Op, held: set<ChunkList.Block>): set<ChunkList.Block>
    requires Sized(tb)
  {
    if op.thread != t then held
    else
      match op
      case DoMalloc(_, size) =>
        HeldWith(held, TableHeap.Malloc(tb, t, size).1, size)
      case DoRequest(_, size) =>
        HeldWith(held, Request(tb, t, size).1, size)
      case DoFree(_, addr) => set b | b in held && b.addr != addr
      case _ => held
  }

  function HeldWith(held: set<ChunkList.Block>, reply: Reply, size: nat): set<ChunkList.Block> {
    if reply.Address? then held + {ChunkList.Block(reply.addr, size)} else held
  }

  /** The block is the beginning of a live one. */
  ghost predicate Backed(h: Heap, b: ChunkList.Block) {
    exists c :: IsLive(h, c) && c.addr == b.addr && b.size <= c.size
  }

  ghost predicate HeldAt(held: set<ChunkList.Block>, addr: int) {
    exists b :: b in held && b.addr == addr
  }

  /** Every block held is the beginning of a live block of its own, and every live
      block is held. */
  ghost predicate Holding(h: Heap, held: set<ChunkList.Block>) {
    && (forall b | b in held :: Backed(h, b))
    && (forall c | IsLive(h, c) :: HeldAt(held, c.addr))
    && (forall b, c | b in held && c in held && b.addr == c.addr :: b == c)
  }

  lemma BackedIn(h: Heap, r: Heap, b: ChunkList.Block)
    requires Backed(h, b) && forall c | IsLive(h, c) && c.addr == b.addr :: IsLive(r, c)
    ensures Backed(r, b)
  {
    hide IsLive;
    var c :| IsLive(h, c) && c.addr == b.addr && b.size <= c.size;
    assert IsLive(r, c);
  }

  lemma NotBacked(h: Heap, b: ChunkList.Block, addr: int)
    requires forall c | IsLive(h, c) :: c.addr != addr
    ensures Backed(h, b) ==> b.addr != addr
  {
    hide IsLive;
  }

  lemma HeldIn(held: set<ChunkList.Block>, now: set<ChunkList.Block>, addr: int)
    requires HeldAt(held, addr) && forall b | b in held && b.addr == addr :: b in now
    ensures HeldAt(now, addr)
  {
  }

  /** Block b is handed out of the new live block g. */
  lemma HoldingGrows(h: Heap, r: Heap, g: ChunkList.Block, b: ChunkList.Block, held: set<ChunkList.Block>)
    requires Holding(h, held) && b.addr == g.addr && b.size <= g.size
    requires forall c :: IsLive(r, c) <==> IsLive(h, c) || c == g
    requires forall c | IsLive(h, c) :: c.addr != g.addr
    ensures Holding(r, held + {b})
  {
    hide IsLive, Backed, HeldAt;
    var now := held + {b};
    assert Backed(r, b) && HeldAt(now, b.addr) by {
      NewlyHeld(r, g, b, now);
    }
    forall x | x in held ensures Backed(r, x) && x.addr != b.addr {
      BackedIn(h, r, x);
      NotBacked(h, x, g.addr);
    }
    forall c | IsLive(r, c) ensures HeldAt(now, c.addr) {
      if c != g { HeldIn(held, now, c.addr); }
    }
  }

  lemma NewlyHeld(r: Heap, g: ChunkList.Block, b: ChunkList.Block, now: set<ChunkList.Block>)
    requires IsLive(r, g) && b in now && b.addr == g.addr && b.size <= g.size
    ensures Backed(r, b) && HeldAt(now, b.addr)
  {
    hide IsLive;
  }

  lemma HoldingSame(h: Heap, r: Heap, held: set<ChunkList.Block>)
    requires Holding(h, held) && forall c :: IsLive(r, c) <==> IsLive(h, c)
    ensures Holding(r, held)
  {
    hide IsLive, Backed, HeldAt;
    forall x | x in held ensures Backed(r, x) {
      BackedIn(h, r, x);
    }
  }

  lemma HoldingMalloc(h: Heap, i: nat, size: nat, held: set<ChunkList.Block>)
    requires Ok(h) && size >= 1 && Holding(h, held)
    ensures Ok(MallocIn(h, i, size))
    ensures ResultIn(h, i, size).None? ==> Holding(MallocIn(h, i, size), held)
    ensures ResultIn(h, i, size).Some? ==>
              Holding(MallocIn(h, i, size), held + {ChunkList.Block(ResultIn(h, i, size).value, size)})
  {
    hide Ok, IsLive, MallocIn, ResultIn, Holding;
    MallocEffect(h, i, size);
    var r := MallocIn(h, i, size);
    if ResultIn(h, i, size).Some? {
      HoldingGrows(h, r, GivenIn(h, i, size), ChunkList.Block(ResultIn(h, i, size).value, size), held);
    } else {
      HoldingSame(h, r, held);
    }
  }

  lemma HoldingRelease(h: Heap, addr: nat, held: set<ChunkList.Block>)
    requires Ok(h) && Mapped(h, addr) && Holding(h, held)
    ensures Ok(Release(h, addr)) && Holding(Release(h, addr), set b | b in held && b.addr != addr)
  {
    hide Ok, IsLive, Release, Mapped, Backed, HeldAt;
    ReleaseEffect(h, addr);
    var r, now := Release(h, addr), set b | b in held && b.addr != addr;
    forall b | b in now ensures Backed(r, b) {
      BackedIn(h, r, b);
    }
    forall c | IsLive(r, c) ensures HeldAt(now, c.addr) {
      HeldIn(held, now, c.addr);
    }
  }

  lemma HoldingRoom(h: Heap, room: nat, held: set<ChunkList.Block>)
    requires Ok(h) && Holding(h, held)
    ensures Ok(h.(room := room)) && Holding(h.(room := room), held)
  {
    hide PageOk, ChunkList.Live, Holding;
    var g := h.(room := room);
    forall b ensures IsLive(g, b) <==> IsLive(h, b) {
      if IsLive(g, b) { var i :| LiveIn(g, i, b); assert LiveIn(h, i, b); }
      if IsLive(h, b) { var i :| LiveIn(h, i, b); assert LiveIn(g, i, b); }
    }
    HoldingSame(h, g, held);
  }

  lemma OwnMalloc(tb: Table, t: int, h: Heap, size: nat, held: set<ChunkList.Block>) returns (g: Heap)
    requires Represents(tb, t, h) && Ok(h) && Holding(h, held) && size >= 1
    requires UsesOnePage(tb, t, size) && ReusesByNumber(tb, t, size)
    ensures Represents(TableHeap.Malloc(tb, t, size).0, t, g) && Ok(g)
    ensures Holding(g, HeldWith(held, TableHeap.Malloc(tb, t, size).1, size))
  {
    hide Represents, Ok, Holding, TableHeap.Malloc, MallocIn, ResultIn, PageCount, PageAlloc.FindFreePage,
         PageAlloc.RankIsNumber, PageAlloc.AfterFindFreePage;
    Parts(tb, t, h);
    MallocIs(tb, t, h, size);
    g := h;
    match PageAlloc.FindFreePage(tb, t, size, 1) {
      case Reused(slot, _) =>
        g := MallocIn(h, tb.meta[slot].num - 1, size);
        HoldingMalloc(h, tb.meta[slot].num - 1, size, held);
      case Fresh(_, _) =>
        g := MallocIn(h, |h.pages|, size);
        HoldingMalloc(h, |h.pages|, size, held);
      case _ =>
    }
  }

  lemma OwnRequest(tb: Table, t: int, h: Heap, size: nat, held: set<ChunkList.Block>) returns (g: Heap)
    requires Represents(tb, t, h) && Ok(h) && Holding(h, held) && size >= 1
    requires UsesOnePage(tb, t, size) && ReusesByNumber(tb, t, size)
    ensures Represents(Request(tb, t, size).0, t, g) && Ok(g)
    ensures Holding(g, HeldWith(held, Request(tb, t, size).1, size))
  {
    hide Represents, Ok, Holding, TableHeap.Malloc, Request, UsesOnePage, ReusesByNumber;
    Parts(tb, t, h);
    g := OwnMalloc(tb, t, h, size, held);
    RequestIs(tb, t, size);
    LockRepresents(TableHeap.Malloc(tb, t, size).0, Request(tb, t, size).0, t, g);
  }

  lemma OwnLarge(tb: Table, t: int, h: Heap, size: nat, protects: bool, held: set<ChunkList.Block>) returns (g: Heap)
    requires Represents(tb, t, h) && Ok(h) && Holding(h, held) && Proper(tb, DoLarge(t, size, protects))
    ensures Represents(Apply(tb, DoLarge(t, size, protects)), t, g) && Ok(g) && Holding(g, held)
  {
    hide Represents, Ok, Holding, LargeRequest, PageCount, Inv;
    Parts(tb, t, h);
    var usage := LargeIs(tb, t, h, size);
    var r := LargeRequest(tb, t, size).value.0;
    g := Heap(h.pages + LargePages(PagesForMalloc(size), usage), Room(r, t));
    HoldingLarger(h, g, |h.pages|, held);
    if protects { LockRepresents(r, LockAllBut(r, t), t, g); }
  }

  /** Pages of larger regions hold no block of a one-page region. */
  lemma HoldingLarger(h: Heap, g: Heap, n: nat, held: set<ChunkList.Block>)
    requires Ok(h) && Holding(h, held) && n == |h.pages| <= |g.pages| && g.pages[..n] == h.pages
    requires forall i | n <= i < |g.pages| :: g.pages[i].Larger?
    ensures Holding(g, held)
  {
    hide PageOk, ChunkList.Live, Holding;
    forall b ensures IsLive(g, b) <==> IsLive(h, b) {
      if IsLive(g, b) { var i :| LiveIn(g, i, b); assert g.pages[i] == h.pages[i] && LiveIn(h, i, b); }
      if IsLive(h, b) { var i :| LiveIn(h, i, b); assert g.pages[i] == h.pages[i] && LiveIn(g, i, b); }
    }
    HoldingSame(h, g, held);
  }

  lemma FreeIsMapped(tb: Table, t: int, h: Heap, addr: nat)
    requires Represents(tb, t, h) && HasFreeSlot(tb) && 1 <= PageNumber(addr) <= |h.pages|
    requires Sized(tb) && Free(tb, t, addr).Some?
    ensures Mapped(h, addr)
  {
    hide Represents, Load, ReleaseBytes;
    LoadRepresents(tb, t, h);
    var slot := SlotOfPage(Load(tb, t), t, h, PageNumber(addr));
    PageInSlot(Load(tb, t), t, h, slot);
  }

  lemma FreeSlotThere(tb: Table)
    requires Inv(tb) && FirstFree(tb.meta) < SCHEDULER_PAGE_START
    ensures HasFreeSlot(tb)
  {
    FirstFreeIs(tb);
  }

  /** One step keeps the match between the table, the heap and what is held. */
  lemma OwnStep(tb: Table, t: int, h: Heap, op: Op, held: set<ChunkList.Block>) returns (g: Heap)
    requires Represents(tb, t, h) && Ok(h) && Holding(h, held)
    requires Proper(tb, op) && op.thread == t && Served(tb, t, op, held)
    ensures Represents(Apply(tb, op), t, g) && Ok(g) && Holding(g, HeldAfter(tb, t, op, held))
  {
    hide Represents, Ok, Holding, TableHeap.Malloc, Request, LargeRequest, Free, Step, PageCount, HasFreeSlot,
         Release, Inv, Layout, PageAlloc.FindFreePage, Load, Reaches, Mapped, UsesOnePage, ReusesByNumber, OnLarger,
         InHeld, InPayload;
    Parts(tb, t, h);
    FreeSlotThere(tb);
    match op {
      case DoMalloc(_, size) =>
        g := OwnMalloc(tb, t, h, size, held);
      case DoRequest(_, size) =>
        g := OwnRequest(tb, t, h, size, held);
      case DoLarge(_, size, protects) =>
        g := OwnLarge(tb, t, h, size, protects, held);
      case DoFree(_, addr) =>
        FreeIsMapped(tb, t, h, addr);
        FreeIs(tb, t, h, addr);
        HoldingRelease(h, addr, held);
        g := Release(h, addr);
      case DoAccess(_, a) =>
        if a.Write? {
          if InHeld(held, a.addr) {
            HeldIsPayload(h, held, a.addr);
          } else {
            LargerIsPayload(tb, t, h, a.addr);
          }
        }
        AccessKeeps(tb, t, h, a);
        g := h;
      case DoResume(_) =>
        ResumeRepresents(tb, t, h);
        g := h;
      case DoLoad(_) =>
        LoadRepresents(tb, t, h);
        g := h;
    }
  }

  lemma HeldIsPayload(h: Heap, held: set<ChunkList.Block>, addr: nat)
    requires Ok(h) && Holding(h, held) && InHeld(held, addr)
    ensures InPayload(h, addr)
  {
    hide IsLive, InPayload, Ok, HeldAt;
    var b :| b in held && b.addr <= addr < b.addr + b.size;
    var c :| IsLive(h, c) && c.addr == b.addr && b.size <= c.size;
    LiveIsPayload(h, c, addr);
  }

  lemma LargerIsPayload(tb: Table, t: int, h: Heap, addr: nat)
    requires Represents(tb, t, h) && OnLarger(tb, t, addr) && InRange(tb, t, addr)
    ensures InPayload(h, addr)
  {
    hide PageOf, PageCount, Inv;
    InvIsSized(tb);
    assert PageIs(tb, t, PageNumber(addr), h);
  }

  lemma ResumeRepresents(tb: Table, t: int, h: Heap)
    requires Represents(tb, t, h) && HasFreeSlot(tb)
    ensures Represents(Resume(tb, t), t, h)
  {
    hide Encodes, PageOf, PageCount, LoadStack;
    LoadKeepsMemory(tb, t);
    RepresentsFrame(tb, LoadStack(tb, t), t, h);
    LockRepresents(LoadStack(tb, t), Resume(tb, t), t, h);
  }

  /** And so does a step of another thread, whatever page serves its requests. */
  lemma OtherStep(tb: Table, t: int, h: Heap, op: Op) returns (g: Heap)
    requires Represents(tb, t, h) && Proper(tb, op) && op.thread != t
    ensures g == h.(room := g.room) && Represents(Apply(tb, op), t, g)
  {
    hide Represents, TableHeap.Malloc, Request, LargeRequest, Free, Step, PageCount, PageOf, Resume, Load, Layout,
         Unique, Numbered, UsesOnePage;
    Parts(tb, t, h);
    FreeSlotThere(tb);
    match op {
      case DoMalloc(o, size) => OtherMalloc(tb, o, size, t);
      case DoFree(o, addr) => OtherFree(tb, o, addr, t);
      case DoAccess(o, a) => ReachStep(tb, o, a);
      case DoResume(o) => OtherResume(tb, o, t);
      case DoRequest(o, size) => OtherRequest(tb, o, size, t);
      case DoLarge(o, size, protects) =>
        OtherLarge(tb, o, size, t);
        if protects { SameLocked(tb, LargeRequest(tb, o, size).value.0, o, t); }
      case DoLoad(o) =>
        LoadKeepsMemory(tb, o);
        SameMemorySamePages(tb, Load(tb, o), t);
    }
    var r := Apply(tb, op);
    assert SamePagesOf(tb, r, t);
    RepresentsFrame(tb, r, t, h);
    g := h.(room := Room(r, t));
  }

  lemma OtherRequest(tb: Table, o: int, size: nat, t: int)
    requires Inv(tb) && ThreadId(o) && ThreadId(t) && t != o
    ensures Inv(Request(tb, o, size).0) && SamePagesOf(tb, Request(tb, o, size).0, t)
  {
    hide PageOf, PageCount, TableHeap.Malloc, Request;
    OtherMalloc(tb, o, size, t);
    RequestIs(tb, o, size);
    LockingKeeps(TableHeap.Malloc(tb, o, size).0, Request(tb, o, size).0);
  }

  lemma SameLocked(a: Table, b: Table, o: int, t: int)
    requires Inv(b) && SamePagesOf(a, b, t) && t != 0
    ensures Inv(LockAllBut(b, o)) && SamePagesOf(a, LockAllBut(b, o), t)
  {
    hide PageOf, PageCount;
    LockingKeeps(b, LockAllBut(b, o));
  }

  lemma OtherResume(tb: Table, o: int, t: int)
    requires Inv(tb) && HasFreeSlot(tb) && ThreadId(o) && t != 0
    ensures Inv(Resume(tb, o)) && SamePagesOf(tb, Resume(tb, o), t)
  {
    hide PageOf, PageCount, LoadStack;
    LoadKeepsMemory(tb, o);
    var u := LoadStack(tb, o);
    LockingKeeps(u, Resume(tb, o));
    SameTransitive(tb, u, Resume(tb, o));
    SameMemorySamePages(tb, Resume(tb, o), t);
  }

  /** The run keeps to the conditions; those of thread t with what it holds. */
  ghost predicate ProperRun(tb: Table, t: int, ops: seq<Op>, held: set<ChunkList.Block>)
    decreases |ops|
  {
    ops == [] ||
    (&& Proper(tb, ops[0]) && (ops[0].thread == t ==> Served(tb, t, ops[0], held))
     && ProperRun(Apply(tb, ops[0]), t, ops[1..], HeldAfter(tb, t, ops[0], held)))
  }

  ghost function Run(tb: Table, t: int, ops: seq<Op>, held: set<ChunkList.Block>): Table
    requires ProperRun(tb, t, ops, held)
    decreases |ops|
  {
    if ops == [] then tb else Run(Apply(tb, ops[0]), t, ops[1..], HeldAfter(tb, t, ops[0], held))
  }

  ghost function Held(tb: Table, t: int, ops: seq<Op>, held: set<ChunkList.Block>): set<ChunkList.Block>
    requires ProperRun(tb, t, ops, held)
    decreases |ops|
  {
    if ops == [] then held else Held(Apply(tb, ops[0]), t, ops[1..], HeldAfter(tb, t, ops[0], held))
  }

  /** Over every run of any threads' requests, small and large, frees, accesses,
      loads and resumptions, in which each of t's requests that uses a page again
      uses one whose number is its rank, each page that t frees on is brought into
      its slot, and t writes only to blocks it holds and to larger regions: what t
      holds is what its one-page regions have live, and any two blocks that it
      holds are disjoint. */
  lemma {:induction false} RunOwnsDisjointBlocks(tb: Table, t: int, h: Heap, ops: seq<Op>, held: set<ChunkList.Block>)
    returns (g: Heap)
    requires Represents(tb, t, h) && Ok(h) && Holding(h, held) && ProperRun(tb, t, ops, held)
    ensures Represents(Run(tb, t, ops, held), t, g) && Ok(g) && Holding(g, Held(tb, t, ops, held))
    ensures forall b, c | b in Held(tb, t, ops, held) && c in Held(tb, t, ops, held) ::
              b == c || b.addr + b.size + ChunkList.HEADER <= c.addr || c.addr + c.size + ChunkList.HEADER <= b.addr
    decreases |ops|
  {
    hide Represents, Ok, Holding, Served, Apply, HeldAfter, Free, PageCount;
    if ops == [] {
      g := h;
      HeldAreDisjoint(h, held);
    } else {
      var m: Heap;
      if ops[0].thread == t {
        m := OwnStep(tb, t, h, ops[0], held);
      } else {
        m := OtherStep(tb, t, h, ops[0]);
        HoldingRoom(h, m.room, held);
        HeldByOthers(tb, t, ops[0], held);
      }
      g := RunOwnsDisjointBlocks(Apply(tb, ops[0]), t, m, ops[1..], HeldAfter(tb, t, ops[0], held));
    }
  }

  lemma HeldByOthers(tb: Table, t: int, op: Op, held: set<ChunkList.Block>)
    requires Sized(tb) && op.thread != t
    ensures HeldAfter(tb, t, op, held) == held
  {
  }

  lemma HeldAreDisjoint(h: Heap, held: set<ChunkList.Block>)
    requires Ok(h) && Holding(h, held)
    ensures forall b, c | b in held && c in held ::
              b == c || b.addr + b.size + ChunkList.HEADER <= c.addr || c.addr + c.size + ChunkList.HEADER <= b.addr
  {
    hide Ok, IsLive, HeldAt;
    forall b, c | b in held && c in held && b != c
      ensures b.addr + b.size + ChunkList.HEADER <= c.addr || c.addr + c.size + ChunkList.HEADER <= b.addr
    {
      var x :| IsLive(h, x) && x.addr == b.addr && b.size <= x.size;
      var y :| IsLive(h, y) && y.addr == c.addr && c.size <= y.size;
      LiveBlocksDisjoint(h, x, y);
    }
  }
}
