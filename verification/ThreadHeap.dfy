/** The heap that one thread sees: its pages by number, those that are regions of
    their own with their chunks, as `mymalloc` and `myfree` mean to use them. */
module ThreadHeap {
  import opened Options
  import opened Sequences
  import opened ChunkList
  import opened ChunkListLemmas
  import opened HeaderBytes
  import PageAlloc
  import PageTable

  /** A page that is a region, with its chunks and the usage field of its header;
      or a page of a larger region, such as a stack, whose contents are not
      followed. */
  datatype PageHeap = PageHeap(chunks: seq<Chunk>, usage: int) | Larger(usage: int)

  /** Page k of the thread is pages[k-1]; `room` is how many more it can get. */
  datatype Heap = Heap(pages: seq<PageHeap>, room: nat)

  const CAPACITY: nat := PAGE_SIZE - HEADER

  /** The first page whose usage field admits the request, or the page count. */
  function Admitting(pages: seq<PageHeap>, size: nat): (i: nat)
    ensures i <= |pages|
    ensures i < |pages| ==> size <= pages[i].usage
    ensures forall j | 0 <= j < i :: size > pages[j].usage
  {
    FirstIndex(pages, (p: PageHeap) => size <= p.usage)
  }

  function NewPage(): PageHeap {
    PageHeap(Fresh(PAGE_SIZE), CAPACITY)
  }

  function AllocIn(p: PageHeap, size: nat): (r: PageHeap)
    requires p.PageHeap?
    ensures r.PageHeap?
  {
    PageHeap(Alloc(p.chunks, size), AsShort(p.usage - AllocCharge(p.chunks, size)))
  }

  function FreeIn(p: PageHeap, offset: nat): (r: PageHeap)
    requires p.PageHeap?
    ensures r.PageHeap?
  {
    PageHeap(Free(p.chunks, offset), AsShort(p.usage + FreeCredit(p.chunks, offset)))
  }

  /** The pages once page i+1 has been chosen: a new one when the thread does not
      have it and can get it. */
  function Extended(h: Heap, i: nat): seq<PageHeap> {
    if i == |h.pages| && h.room > 0 then h.pages + [NewPage()] else h.pages
  }

  /** Page i+1 is there, or can be had, and is a region of its own. */
  predicate Serving(h: Heap, i: nat) {
    i < |Extended(h, i)| && Extended(h, i)[i].PageHeap?
  }

  /** A request served from page i+1. */
  function MallocIn(h: Heap, i: nat, size: nat): Heap {
    var pages := Extended(h, i);
    if !Serving(h, i) then h
    else Heap(pages[i := AllocIn(pages[i], size)], h.room - (|pages| - |h.pages|))
  }

  function ResultIn(h: Heap, i: nat, size: nat): Option<nat> {
    var pages := Extended(h, i);
    if !Serving(h, i) || AllocAddr(pages[i].chunks, size).None? then None
    else Some(PageAlloc.VirtualAddress(i + 1, AllocAddr(pages[i].chunks, size).value))
  }

  /** The page of choice is the first that admits the request, or a new one. */
  function Malloc(h: Heap, size: nat): Heap {
    MallocIn(h, Admitting(h.pages, size), size)
  }

  function Result(h: Heap, size: nat): Option<nat> {
    ResultIn(h, Admitting(h.pages, size), size)
  }

  /** Which page of the thread an address is on. */
  function PageAt(addr: nat): int {
    addr / PAGE_SIZE - PageTable.RESERVED_PAGES
  }

  predicate Mapped(h: Heap, addr: nat) {
    0 <= PageAt(addr) < |h.pages| && h.pages[PageAt(addr)].PageHeap?
  }

  function Release(h: Heap, addr: nat): Heap
    requires Mapped(h, addr)
  {
    var i := PageAt(addr);
    h.(pages := h.pages[i := FreeIn(h.pages[i], addr % PAGE_SIZE)])
  }

  // ----- what is kept -----

  ghost predicate PageOk(p: PageHeap) {
    -0x8000 <= p.usage < 0x8000 && (p.PageHeap? ==> Shape(p.chunks) && Extent(p.chunks) == PAGE_SIZE)
  }

  ghost predicate Ok(h: Heap) {
    forall i | 0 <= i < |h.pages| :: PageOk(h.pages[i])
  }

  /** Block b, at a virtual address, is live in page i. */
  ghost predicate LiveIn(h: Heap, i: int, b: Block) {
    && 0 <= i < |h.pages| && h.pages[i].PageHeap?
    && Block(b.addr - PageAlloc.VirtualAddress(i + 1, 0), b.size) in Live(h.pages[i].chunks, 0)
  }

  ghost predicate IsLive(h: Heap, b: Block) {
    exists i :: LiveIn(h, i, b)
  }

  lemma AddressOf(i: nat, offset: nat)
    requires offset < PAGE_SIZE
    ensures PageAlloc.VirtualAddress(i + 1, offset) == PageAlloc.VirtualAddress(i + 1, 0) + offset
    ensures PageAt(PageAlloc.VirtualAddress(i + 1, offset)) == i
    ensures PageAlloc.VirtualAddress(i + 1, offset) % PAGE_SIZE == offset
  {
    PageAlloc.AddressArithmetic(i + 1, 1, offset);
    PageAlloc.AddressArithmetic(i + 1, 1, 0);
  }

  /** A live block lies on the page that its address names, clear of the page's
      first header. */
  lemma LiveOnItsPage(h: Heap, i: nat, b: Block)
    requires Ok(h) && LiveIn(h, i, b)
    ensures b.addr >= PageAlloc.VirtualAddress(i + 1, 0) + HEADER
    ensures b.addr + b.size <= PageAlloc.VirtualAddress(i + 1, 0) + PAGE_SIZE
    ensures b.size >= 1 && PageAt(b.addr) == i
    ensures b.addr % PAGE_SIZE == b.addr - PageAlloc.VirtualAddress(i + 1, 0)
  {
    var base := PageAlloc.VirtualAddress(i + 1, 0);
    var c := Block(b.addr - base, b.size);
    assert PageOk(h.pages[i]);
    LiveBounds(h.pages[i].chunks, 0, c);
    var k := LiveIndex(h.pages[i].chunks, 0, c);
    AddressOf(i, b.addr - base);
  }

  /** Live blocks of one thread, on whatever pages, are disjoint, headers
      between them. */
  lemma LiveBlocksDisjoint(h: Heap, b: Block, c: Block)
    requires Ok(h) && IsLive(h, b) && IsLive(h, c)
    ensures b == c || b.addr + b.size + HEADER <= c.addr || c.addr + c.size + HEADER <= b.addr
  {
    var i :| LiveIn(h, i, b);
    var j :| LiveIn(h, j, c);
    LiveOnItsPage(h, i, b);
    LiveOnItsPage(h, j, c);
    if i == j {
      var base := PageAlloc.VirtualAddress(i + 1, 0);
      assert PageOk(h.pages[i]);
      LiveDisjoint(h.pages[i].chunks, Block(b.addr - base, b.size), Block(c.addr - base, c.size));
    }
  }

  // ----- malloc -----

  lemma NewPageOk()
    ensures NewPage().PageHeap? && PageOk(NewPage()) && Live(NewPage().chunks, 0) == {}
  {
    Single(NewPage().chunks[0], 0);
  }

  lemma ExtendedOk(h: Heap, i: nat)
    requires Ok(h)
    ensures var pages := Extended(h, i);
      && |h.pages| <= |pages| && pages[..|h.pages|] == h.pages
      && (forall j | 0 <= j < |pages| :: PageOk(pages[j]))
      && (forall j | |h.pages| <= j < |pages| :: pages[j].PageHeap? && Live(pages[j].chunks, 0) == {})
  {
    hide PageOk, Live;
    NewPageOk();
  }

  /** The block that a served request gets. */
  function GivenIn(h: Heap, i: nat, size: nat): Block
    requires ResultIn(h, i, size).Some?
  {
    Block(ResultIn(h, i, size).value, ChunkListLemmas.Given(Extended(h, i)[i].chunks, size).size)
  }

  lemma AllocInOk(p: PageHeap, size: nat)
    requires p.PageHeap? && PageOk(p) && size >= 1
    ensures PageOk(AllocIn(p, size))
    ensures AllocAddr(p.chunks, size).None? ==> AllocIn(p, size) == p
    ensures AllocAddr(p.chunks, size).Some? ==>
              && ChunkListLemmas.Given(p.chunks, size).size >= size
              && HEADER <= AllocAddr(p.chunks, size).value < PAGE_SIZE
              && Live(AllocIn(p, size).chunks, 0) == Live(p.chunks, 0) + {ChunkListLemmas.Given(p.chunks, size)}
              && forall b | b in Live(p.chunks, 0) :: b.addr != AllocAddr(p.chunks, size).value
  {
    hide Live, Extent, Alloc, FirstFit, Shape;
    AllocEffect(p.chunks, size);
    NoCharge(p.chunks, size);
    if AllocAddr(p.chunks, size).Some? {
      LiveBounds(Alloc(p.chunks, size), 0, ChunkListLemmas.Given(p.chunks, size));
    }
  }

  lemma NoCharge(cs: seq<Chunk>, size: nat)
    ensures AllocAddr(cs, size).None? ==> AllocCharge(cs, size) == 0
  {
  }

  /** What a request does, whichever page serves it: the null pointer changes no
      page; otherwise the new block is at least as long as asked for, was not live
      before, and is all that has become live. */
  lemma MallocEffect(h: Heap, i: nat, size: nat)
    requires Ok(h) && size >= 1
    ensures Ok(MallocIn(h, i, size))
    ensures ResultIn(h, i, size).None? ==> forall b :: IsLive(MallocIn(h, i, size), b) <==> IsLive(h, b)
    ensures ResultIn(h, i, size).Some? ==>
              && GivenIn(h, i, size).size >= size
              && (forall b :: IsLive(MallocIn(h, i, size), b) <==> IsLive(h, b) || b == GivenIn(h, i, size))
              && (forall b | IsLive(h, b) :: b.addr != GivenIn(h, i, size).addr)
  {
    hide PageOk, AllocIn, Live, Extended, AllocAddr;
    var pages, r, served := Extended(h, i), MallocIn(h, i, size), ResultIn(h, i, size).Some?;
    ExtendedOk(h, i);
    if Serving(h, i) {
      AllocInOk(pages[i], size);
      forall j, b ensures LiveIn(r, j, b) <==> LiveIn(h, j, b) || (served && j == i && b == GivenIn(h, i, size)) {
        LiveInAfterMalloc(h, i, size, j, b);
      }
      forall b | served && IsLive(h, b) ensures b.addr != GivenIn(h, i, size).addr {
        var j :| LiveIn(h, j, b);
        LiveOnItsPage(h, j, b);
        AddressOf(i, AllocAddr(pages[i].chunks, size).value);
      }
    }
    if served { assert LiveIn(r, i, GivenIn(h, i, size)); }
    forall b ensures IsLive(r, b) <==> IsLive(h, b) || (served && b == GivenIn(h, i, size)) {
      if IsLive(r, b) { var j :| LiveIn(r, j, b); }
      if IsLive(h, b) { var j :| LiveIn(h, j, b); assert LiveIn(r, j, b); }
    }
  }

  lemma LiveInAfterMalloc(h: Heap, i: nat, size: nat, j: int, b: Block)
    requires Ok(h) && size >= 1
    ensures LiveIn(MallocIn(h, i, size), j, b) <==>
              LiveIn(h, j, b) || (ResultIn(h, i, size).Some? && j == i && b == GivenIn(h, i, size))
  {
    hide PageOk, AllocIn, Live, Extended, AllocAddr;
    var pages := Extended(h, i);
    ExtendedOk(h, i);
    if Serving(h, i) {
      AllocInOk(pages[i], size);
      assert 0 <= j < |h.pages| ==> pages[j] == h.pages[j];
      if AllocAddr(pages[i].chunks, size).Some? {
        AddressOf(i, AllocAddr(pages[i].chunks, size).value);
      }
    }
  }

  /** A one-page request ends with the null pointer exactly when the first page
      that admits it by its usage field has no chunk for it, or when no page
      admits it and the thread can get no more. */
  lemma NullExactly(h: Heap, size: nat)
    requires Ok(h) && size >= 1 && PagesForMalloc(size) == 1
    requires Admitting(h.pages, size) < |h.pages| ==> h.pages[Admitting(h.pages, size)].PageHeap?
    ensures Result(h, size).None? <==>
              var i := Admitting(h.pages, size);
              if i < |h.pages|
              then forall k | 0 <= k < |h.pages[i].chunks| :: !Fits(h.pages[i].chunks[k], size)
              else h.room == 0
  {
    hide Admitting, FirstFit, Alloc, Live, Shape, Extent, AllocAddr;
    var i := Admitting(h.pages, size);
    if i < |h.pages| {
      assert PageOk(h.pages[i]);
      AllocEffect(h.pages[i].chunks, size);
    } else {
      NewPageServes(size);
    }
  }

  lemma NewPageServes(size: nat)
    requires size >= 1 && PagesForMalloc(size) == 1
    ensures AllocAddr(NewPage().chunks, size).Some?
  {
    RegionServesItsRequest(size);
  }

  // ----- pages filled from the front -----

  function Taken(sizes: seq<nat>): (r: seq<Chunk>)
    ensures |r| == |sizes|
  {
    seq(|sizes|, i requires 0 <= i < |sizes| => Chunk(false, sizes[i]))
  }

  /** A page after requests of these sizes, with `left` bytes free at its end. */
  function Filled(sizes: seq<nat>, left: nat): PageHeap {
    PageHeap(Taken(sizes) + [Chunk(true, left)], left)
  }

  /** The next request is carved from the end. */
  lemma FilledServes(sizes: seq<nat>, left: nat, size: nat)
    requires size + 6 < left <= 4090
    ensures AllocAddr(Filled(sizes, left).chunks, size) == Some(Extent(Taken(sizes)) + 6)
    ensures AllocIn(Filled(sizes, left), size) == Filled(sizes + [size], left - size - 6)
  {
    var cs := Filled(sizes, left).chunks;
    assert Fits(cs[|sizes|], size);
    assert FirstFit(cs, size) == |sizes|;
    assert cs[..|sizes|] == Taken(sizes);
    assert Alloc(cs, size) == Filled(sizes + [size], left - size - 6).chunks;
  }

  /** A request that the first page admits. */
  lemma MallocFirst(sizes: seq<nat>, left: nat, room: nat, size: nat)
    requires size + 6 < left <= 4090
    ensures Malloc(Heap([Filled(sizes, left)], room), size) == Heap([Filled(sizes + [size], left - size - 6)], room)
  {
    hide AllocIn, Filled, FirstFit;
    FilledServes(sizes, left, size);
    FilledIs(sizes, left);
    assert Admitting([Filled(sizes, left)], size) == 0;
  }

  /** A request for which there is no page, with room for one. */
  lemma MallocNew(pages: seq<PageHeap>, room: nat, size: nat)
    requires room > 0 && 1 <= size < 4084 && forall i | 0 <= i < |pages| :: pages[i].usage < size
    ensures Malloc(Heap(pages, room), size) == Heap(pages + [Filled([size], 4084 - size)], room - 1)
  {
    hide AllocIn, Filled, FirstFit;
    FilledServes([], 4090, size);
    FilledIs([], 4090);
    assert [] + [size] == [size] && Admitting(pages, size) == |pages|;
  }

  lemma FilledIs(sizes: seq<nat>, left: nat)
    ensures Filled(sizes, left).PageHeap? && Filled(sizes, left).usage == left && Filled([], 4090) == NewPage()
  {
  }

  /** So a request can be refused although another page of the thread could
      serve it: page 1 has 2066 free bytes, but in pieces, and is asked first. */
  lemma RefusedThoughServable()
    ensures var h := Fragmented();
      && Ok(h) && Result(h, 1050).None?
      && (exists k :: 0 <= k < |h.pages[1].chunks| && Fits(h.pages[1].chunks[k], 1050))
      && forall i | 0 <= i < |h.pages| :: h.pages[i].usage == FreeBytes(h.pages[i].chunks)
  {
    hide Extent, FreeBytes, FirstFit, Alloc, Admitting;
    var h := Fragmented();
    var a, b := h.pages[0].chunks, h.pages[1].chunks;
    Sums(b, 0);
    Sums(a, 0);
    Sums(a, 2);
    EndOf(a, 4);
    assert a[0..] == a && b[0..] == b;
    AllocEffect(a, 1050);
    assert Admitting(h.pages, 1050) == 0;
    assert Fits(b[1], 1050);
  }

  /** Extent and free bytes of two chunks and the rest. */
  lemma Sums(cs: seq<Chunk>, i: nat)
    requires i + 2 <= |cs|
    ensures Extent(cs[i..]) == 2 * HEADER + cs[i].size + cs[i + 1].size + Extent(cs[i + 2..])
    ensures FreeBytes(cs[i..]) ==
              (if cs[i].free then cs[i].size else 0) + (if cs[i + 1].free then cs[i + 1].size else 0)
              + FreeBytes(cs[i + 2..])
    ensures |cs| == i + 2 ==> Extent(cs[i + 2..]) == 0 && FreeBytes(cs[i + 2..]) == 0
  {
    assert cs[i..][1..] == cs[i + 1..];
    assert cs[i + 1..][1..] == cs[i + 2..];
  }

  lemma EndOf(cs: seq<Chunk>, i: nat)
    requires i + 1 == |cs|
    ensures Extent(cs[i..]) == HEADER + cs[i].size
    ensures FreeBytes(cs[i..]) == if cs[i].free then cs[i].size else 0
  {
    assert cs[i..] == [cs[i]];
    Single(cs[i], 0);
  }

  function Fragmented(): Heap {
    Heap([PageHeap([Chunk(true, 1000), Chunk(false, 1000), Chunk(true, 1000), Chunk(false, 1000), Chunk(true, 66)],
                   2066),
          PageHeap([Chunk(false, 3000), Chunk(true, 1084)], 1084)], 0)
  }

  // ----- free -----

  /** What a free does: the block that starts at the address, and only it, stops
      being live; any other pointer into the thread's pages changes nothing. */
  lemma ReleaseEffect(h: Heap, addr: nat)
    requires Ok(h) && Mapped(h, addr)
    ensures Ok(Release(h, addr))
    ensures forall b :: IsLive(Release(h, addr), b) <==> IsLive(h, b) && b.addr != addr
  {
    hide PageOk, FreeIn, Live;
    var i, r := PageAt(addr), Release(h, addr);
    FreeInOk(h.pages[i], addr % PAGE_SIZE);
    forall j, b ensures LiveIn(r, j, b) <==> LiveIn(h, j, b) && b.addr != addr {
      LiveInAfterRelease(h, addr, j, b);
    }
    forall b ensures IsLive(r, b) <==> IsLive(h, b) && b.addr != addr {
      if IsLive(r, b) { var j :| LiveIn(r, j, b); }
      if IsLive(h, b) && b.addr != addr { var j :| LiveIn(h, j, b); assert LiveIn(r, j, b); }
    }
  }

  lemma FreeInOk(p: PageHeap, offset: nat)
    requires p.PageHeap? && PageOk(p)
    ensures PageOk(FreeIn(p, offset))
    ensures Live(FreeIn(p, offset).chunks, 0) == set b | b in Live(p.chunks, 0) && b.addr != offset
  {
    hide Live, Extent, Free, Shape;
    FreeEffect(p.chunks, offset);
  }

  lemma LiveInAfterRelease(h: Heap, addr: nat, j: int, b: Block)
    requires Ok(h) && Mapped(h, addr)
    ensures LiveIn(Release(h, addr), j, b) <==> LiveIn(h, j, b) && b.addr != addr
  {
    hide PageOk, FreeIn, Live;
    var i := PageAt(addr);
    FreeInOk(h.pages[i], addr % PAGE_SIZE);
    AddressOf(i, addr % PAGE_SIZE);
    assert addr == PageAlloc.VirtualAddress(i + 1, 0) + addr % PAGE_SIZE;
    if LiveIn(h, j, b) {
      LiveOnItsPage(h, j, b);
    }
  }

  // ----- how such a heap arises -----

  /** Freeing a block between blocks. */
  lemma FreeBetween(p: PageHeap, k: nat)
    requires p.PageHeap? && PageOk(p) && k < |p.chunks| && !p.chunks[k].free && p.usage + p.chunks[k].size < 0x8000
    requires p.usage >= 0
    requires (k > 0 ==> !p.chunks[k - 1].free) && (k + 1 < |p.chunks| ==> !p.chunks[k + 1].free)
    ensures FreeIn(p, Start(p.chunks, k) + HEADER)
            == PageHeap(p.chunks[k := Chunk(true, p.chunks[k].size)], p.usage + p.chunks[k].size)
  {
    hide Start, Extent;
    var cs, addr := p.chunks, Start(p.chunks, k) + HEADER;
    PayloadIndexIs(cs, k);
    StartStep(cs, k);
    StartMonotone(cs, k, |cs|);
    StartEnd(cs);
  }

  /** Four requests of 1000 bytes, one of 3000, and two frees make the heap in
      which a request is refused though it could be served. */
  lemma FragmentedArises(room: nat)
    requires room >= 2
    ensures var h := Malloc(Malloc(Malloc(Malloc(Malloc(Heap([], room), 1000), 1000), 1000), 1000), 3000);
      var first, third := PageAlloc.VirtualAddress(1, 6), PageAlloc.VirtualAddress(1, 2018);
      && Mapped(h, first) && Mapped(Release(h, first), third)
      && Release(Release(h, first), third) == Fragmented().(room := room - 2)
  {
    hide Malloc, Filled, FreeIn, Extent;
    MallocNew([], room, 1000);
    MallocFirst([1000], 3084, room - 1, 1000);
    MallocFirst([1000, 1000], 2078, room - 1, 1000);
    MallocFirst([1000, 1000, 1000], 1072, room - 1, 1000);
    assert [1000] + [1000] == [1000, 1000] && [1000, 1000] + [1000] == [1000, 1000, 1000];
    var full := [1000, 1000, 1000, 1000];
    assert [1000, 1000, 1000] + [1000] == full && [] + [Filled([1000], 3084)] == [Filled([1000], 3084)];
    FilledIs(full, 66);
    MallocNew([Filled(full, 66)], room - 1, 3000);
    FilledIs([3000], 1084);
    AddressOf(0, 6);
    AddressOf(0, 2018);
    FreedTwice();
  }

  lemma FreedTwice()
    ensures var p := Filled([1000, 1000, 1000, 1000], 66);
      && p.PageHeap? && FreeIn(FreeIn(p, 6), 2018) == Fragmented().pages[0]
      && Filled([3000], 1084) == Fragmented().pages[1]
  {
    hide FreeIn, Start, PageOk;
    var f, t := Chunk(false, 1000), Chunk(true, 1000);
    var p := PageHeap([f, f, f, f, Chunk(true, 66)], 66);
    var q := PageHeap([t, f, f, f, Chunk(true, 66)], 1066);
    assert Taken([1000, 1000, 1000, 1000]) == [f, f, f, f] && Taken([3000]) == [Chunk(false, 3000)];
    assert Filled([1000, 1000, 1000, 1000], 66) == p;
    FiveChunks(p);
    FiveChunks(q);
    FreeBetween(p, 0);
    assert p.chunks[0 := t] == q.chunks;
    FreeBetween(q, 2);
    assert q.chunks[2 := t] == Fragmented().pages[0].chunks;
  }

  lemma FiveChunks(p: PageHeap)
    requires p.PageHeap? && |p.chunks| == 5 && 0 <= p.usage < 0x8000 && p.chunks[4].size == 66
    requires forall i | 0 <= i < 4 :: p.chunks[i].size == 1000 && (i > 0 ==> !p.chunks[i].free)
    ensures PageOk(p) && Start(p.chunks, 0) == 0 && Start(p.chunks, 2) == 2012
  {
    hide Extent;
    var cs := p.chunks;
    StartStep(cs, 0);
    StartStep(cs, 1);
    StartStep(cs, 2);
    StartStep(cs, 3);
    StartStep(cs, 4);
    StartEnd(cs);
    NoChunks(cs);
  }

  lemma NoChunks(cs: seq<Chunk>)
    ensures Start(cs, 0) == 0
  {
  }
}
