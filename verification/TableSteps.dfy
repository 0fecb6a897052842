/** Steps of a run from one layout of the page slots to the next, with the heaps
    that the threads have. */
module TableSteps {
  import opened Options
  import opened HeaderBytes
  import opened PageTable
  import opened PageTableLemmas
  import opened FlatMemory
  import opened Loader
  import opened ThreadHeap
  import opened TableHeap
  import opened LargeRegions
  import opened TableHeapRuns
  import ChunkList
  import PageAlloc
  import RegionCode

  // ----- which page is in which slot -----

  datatype Head = Head(thread: int, num: int)

  const FREE := Head(0, 0)

  function HeadAt(hs: seq<Head>, i: int): Head {
    if RESERVED_PAGES <= i < RESERVED_PAGES + |hs| then hs[i - RESERVED_PAGES] else FREE
  }

  /** The page slots hold these pages from the first slot on, and the slots after
      them are free. */
  ghost predicate Lays(tb: Table, hs: seq<Head>) {
    && Sized(tb) && |hs| < SCHEDULER_PAGE_START - RESERVED_PAGES
    && (forall i | 0 <= i < RESERVED_PAGES :: tb.meta[i].thread == -1)
    && forall i | PageSlot(i) ::
         && tb.meta[i].thread == HeadAt(hs, i).thread
         && (tb.meta[i].thread != 0 ==> tb.meta[i].num == HeadAt(hs, i).num)
  }

  predicate FirstHole(hs: seq<Head>, f: nat) {
    f <= |hs| && (f < |hs| ==> hs[f].thread == 0) && forall j | 0 <= j < f :: hs[j].thread != 0
  }

  function Put(hs: seq<Head>, f: nat, h: Head): seq<Head>
    requires f <= |hs|
  {
    if f == |hs| then hs + [h] else hs[f := h]
  }

  lemma FirstFreeAt(tb: Table, hs: seq<Head>, f: nat)
    requires Lays(tb, hs) && FirstHole(hs, f)
    ensures Sized(tb) && f <= |hs| && FirstFree(tb.meta) == RESERVED_PAGES + f && HasFreeSlot(tb)
  {
    assert tb.meta[RESERVED_PAGES + f].thread == HeadAt(hs, RESERVED_PAGES + f).thread;
    forall i | RESERVED_PAGES <= i < RESERVED_PAGES + f ensures tb.meta[i].thread != 0 {
      assert tb.meta[i].thread == HeadAt(hs, i).thread;
    }
  }

  lemma LaysSame(a: Table, b: Table, hs: seq<Head>)
    requires Lays(a, hs) && SameHeads(a, b)
    ensures Lays(b, hs)
  {
    forall i | 0 <= i < TOTAL_PAGES ensures a.meta[i].thread == b.meta[i].thread && a.meta[i].num == b.meta[i].num {
      assert b.meta[i].(usage := 0) == a.meta[i].(usage := 0);
    }
  }

  lemma ClaimLays(tb: Table, hs: seq<Head>, f: nat, t: int, first: nat, j: nat, span: nat)
    requires Lays(tb, hs) && FirstHole(hs, f) && |hs| + 1 < SCHEDULER_PAGE_START - RESERVED_PAGES && t != 0
    ensures FirstFree(tb.meta) == RESERVED_PAGES + f
    ensures Lays(PageAlloc.ClaimOne(tb, t, first, j, span), Put(hs, f, Head(t, first + j)))
  {
    hide PageAlloc.InitialPage, FirstFree, ChunkList.AsShort, FirstHole;
    FirstFreeAt(tb, hs, f);
  }

  lemma RelocateLays(tb: Table, hs: seq<Head>, src: nat, dst: nat)
    requires Lays(tb, hs) && src < |hs| && dst <= |hs| && src != dst
    requires |hs| + 1 < SCHEDULER_PAGE_START - RESERVED_PAGES
    ensures Lays(Relocate(tb, RESERVED_PAGES + src, RESERVED_PAGES + dst), Put(hs, dst, hs[src])[src := FREE])
  {
    assert tb.meta[RESERVED_PAGES + src].thread == HeadAt(hs, RESERVED_PAGES + src).thread;
  }

  /** What a swap does to the layout. */
  function Shifted(hs: seq<Head>, f: nat, target: nat, src: nat): seq<Head>
    requires f <= |hs| && target < |hs| && src < |hs|
  {
    (if hs[target].thread != 0 then Put(hs, f, hs[target]) else hs)[target := hs[src]][src := FREE]
  }

  lemma SwapLays(tb: Table, hs: seq<Head>, f: nat, target: nat, src: nat)
    requires Lays(tb, hs) && FirstHole(hs, f) && |hs| + 2 < SCHEDULER_PAGE_START - RESERVED_PAGES
    requires target < |hs| && src < |hs| && target != src && hs[src].thread != 0
    ensures FirstFree(tb.meta) == RESERVED_PAGES + f
    ensures Lays(Swap(tb, RESERVED_PAGES + target, RESERVED_PAGES + src), Shifted(hs, f, target, src))
  {
    hide Relocate, FirstFree;
    FirstFreeAt(tb, hs, f);
    assert tb.meta[RESERVED_PAGES + target].thread == HeadAt(hs, RESERVED_PAGES + target).thread;
    var u := Unlock(tb);
    assert Lays(u, hs);
    if hs[target].thread != 0 {
      var mid := Put(hs, f, hs[target])[target := FREE];
      RelocateLays(u, hs, target, f);
      RelocateLays(Relocate(u, RESERVED_PAGES + target, RESERVED_PAGES + f), mid, src, target);
      assert Put(mid, target, mid[src])[src := FREE] == Shifted(hs, f, target, src);
    } else {
      RelocateLays(u, hs, src, target);
    }
  }

  lemma HeadIn(tb: Table, hs: seq<Head>, i: nat)
    requires Lays(tb, hs) && PageSlot(i)
    ensures Sized(tb) && |hs| < SCHEDULER_PAGE_START - RESERVED_PAGES && tb.meta[i].thread == HeadAt(hs, i).thread
    ensures tb.meta[i].thread != 0 ==> tb.meta[i].num == HeadAt(hs, i).num
  {
  }

  // ----- the threads' heaps -----

  /** Each thread's pages by number. */
  type Pages = map<int, seq<PageHeap>>

  ghost predicate Has(tb: Table, t: int, pages: seq<PageHeap>)
    requires Sized(tb)
  {
    Represents(tb, t, Heap(pages, Room(tb, t))) && Ok(Heap(pages, 0))
  }

  /** The threads have these pages, in these slots. */
  ghost predicate State(tb: Table, ps: Pages, hs: seq<Head>) {
    Lays(tb, hs) && forall t | t in ps :: Has(tb, t, ps[t])
  }

  ghost predicate Empty(tb: Table) {
    Inv(tb) && forall i | PageSlot(i) :: tb.meta[i].thread == 0
  }

  /** In an empty table every thread has the empty heap, and holds nothing: the
      runs of RunOwnsDisjointBlocks can start there. */
  lemma EmptyHasNoPages(tb: Table, t: int)
    requires Empty(tb) && ThreadId(t)
    ensures Sized(tb) && PageCount(tb, t) == 0 && Lays(tb, []) && Has(tb, t, [])
    ensures Ok(Heap([], Room(tb, t))) && Holding(Heap([], Room(tb, t)), {})
  {
    CountBound(tb.meta, t, RESERVED_PAGES, SCHEDULER_PAGE_START);
  }

  lemma StateHas(tb: Table, ps: Pages, hs: seq<Head>, t: int)
    requires State(tb, ps, hs) && t in ps
    ensures Sized(tb) && Inv(tb) && ThreadId(t) && Lays(tb, hs) && |hs| < SCHEDULER_PAGE_START - RESERVED_PAGES
    ensures Has(tb, t, ps[t]) && PageCount(tb, t) == |ps[t]| && Ok(Heap(ps[t], Room(tb, t)))
  {
    hide Inv, PageCount, PageOk;
    assert Has(tb, t, ps[t]);
    OkAnyRoom(ps[t], Room(tb, t));
    Parts(tb, t, Heap(ps[t], Room(tb, t)));
  }

  lemma OkAnyRoom(pages: seq<PageHeap>, room: nat)
    ensures Ok(Heap(pages, room)) <==> Ok(Heap(pages, 0))
  {
    hide PageOk;
  }

  lemma RoomIs(tb: Table, t: int, h: Heap)
    requires Represents(tb, t, h) && Ok(h)
    ensures Sized(tb) && h == Heap(h.pages, Room(tb, t)) && Has(tb, t, h.pages)
  {
    hide PageOk, Layout, Unique, Numbered;
    OkAnyRoom(h.pages, h.room);
  }

  lemma HasSame(a: Table, b: Table, t: int, pages: seq<PageHeap>)
    requires Sized(a) && Sized(b) && a.meta == b.meta && a.pages == b.pages && Has(a, t, pages)
    ensures Has(b, t, pages)
  {
    hide Represents, Ok;
    LockRepresents(a, b, t, Heap(pages, Room(a, t)));
    LockRoom(a, b, t);
  }

  lemma LockRoom(a: Table, b: Table, t: int)
    requires Sized(a) && Sized(b) && a.meta == b.meta
    ensures Room(a, t) == Room(b, t)
  {
  }

  lemma LaysSized(tb: Table, hs: seq<Head>)
    requires Lays(tb, hs)
    ensures Sized(tb) && |hs| < SCHEDULER_PAGE_START - RESERVED_PAGES
  {
  }

  /** The step of one thread, and what becomes of it; the others keep what they have. */
  lemma StepTo(tb: Table, ps: Pages, hs: seq<Head>, op: Op, pages: seq<PageHeap>, to: seq<Head>)
    requires State(tb, ps, hs) && Proper(tb, op) && Lays(Apply(tb, op), to) && Has(Apply(tb, op), op.thread, pages)
    ensures State(Apply(tb, op), ps[op.thread := pages], to)
  {
    hide Lays, Represents, Apply, Proper, Ok, Room;
    LaysSized(tb, hs);
    LaysSized(Apply(tb, op), to);
    var r, qs := Apply(tb, op), ps[op.thread := pages];
    forall t | t in qs ensures Has(r, t, qs[t]) {
      if t != op.thread {
        assert Has(tb, t, ps[t]);
        var h := Heap(ps[t], Room(tb, t));
        var g := OtherStep(tb, t, h, op);
        OkAnyRoom(ps[t], g.room);
        OkAnyRoom(ps[t], h.room);
        RoomIs(r, t, g);
      }
    }
  }

  // ----- loads -----

  /** The scan goes by slots at which it does nothing. */
  lemma {:induction false} ScanSkips(tb: Table, t: int, k: nat, idx: nat, to: nat)
    requires idx <= to <= SCHEDULER_PAGE_START
    requires Sized(tb) && FirstFree(tb.meta) < SCHEDULER_PAGE_START && 1 <= k < SCHEDULER_PAGE_START - RESERVED_PAGES
    requires forall i | idx <= i < to :: tb.meta[i].thread == t ==> tb.meta[i].num != k && i != RESERVED_PAGES + k - 1
    ensures Scan(tb, t, k, idx) == Scan(tb, t, k, to)
    decreases SCHEDULER_PAGE_START - idx
  {
    if idx < to { ScanSkips(tb, t, k, idx + 1, to); }
  }

  /** Page k of t is at position src of the layout, and no other page of t is in
      its slot or further forward than `from`. */
  predicate NextUp(hs: seq<Head>, t: int, k: nat, src: nat, from: nat) {
    && src < |hs| && hs[src] == Head(t, k) && from <= src
    && forall j | 0 <= j < |hs| && j != src :: hs[j].thread == t ==> hs[j].num != k && j != k - 1
  }

  /** One page is swapped into its slot, and the scan starts again. */
  lemma LoadMoves(tb: Table, hs: seq<Head>, t: int, k: nat, from: nat, f: nat, src: nat, to: seq<Head>)
    returns (u: Table)
    requires FirstHole(hs, f) && |hs| < 20 && 1 <= k <= |hs| && t != 0
    requires NextUp(hs, t, k, src, from) && src != k - 1 && to == Shifted(hs, f, k - 1, src)
    requires Lays(tb, hs)
    ensures Sized(tb) && Sized(u) && Lays(u, to)
    ensures Scan(tb, t, k, RESERVED_PAGES + from) == Scan(u, t, k + 1, RESERVED_PAGES + 1)
    ensures k + 1 <= STACK_PAGES ==>
              StackScan(tb, t, k, RESERVED_PAGES + from) == StackScan(u, t, k + 1, RESERVED_PAGES + 1)
  {
    hide Swap, FirstFree, FirstHole;
    FirstFreeAt(tb, hs, f);
    forall i | RESERVED_PAGES + from <= i < RESERVED_PAGES + src
      ensures tb.meta[i].thread == t ==> tb.meta[i].num != k && i != RESERVED_PAGES + k - 1
    {
      HeadIn(tb, hs, i);
    }
    HeadIn(tb, hs, RESERVED_PAGES + src);
    ScanSkips(tb, t, k, RESERVED_PAGES + from, RESERVED_PAGES + src);
    StackSkips(tb, t, k, RESERVED_PAGES + from, RESERVED_PAGES + src);
    SwapLays(tb, hs, f, k - 1, src);
    u := Swap(tb, RESERVED_PAGES + k - 1, RESERVED_PAGES + src);
  }

  lemma {:induction false} StackSkips(tb: Table, t: int, k: nat, idx: nat, to: nat)
    requires idx <= to <= SCHEDULER_PAGE_START
    requires Sized(tb) && FirstFree(tb.meta) < SCHEDULER_PAGE_START && 1 <= k < SCHEDULER_PAGE_START - RESERVED_PAGES
    requires forall i | idx <= i < to :: tb.meta[i].thread == t && tb.meta[i].num == k ==> i == RESERVED_PAGES + k - 1
    ensures StackScan(tb, t, k, idx) == StackScan(tb, t, k, to)
    decreases SCHEDULER_PAGE_START - idx
  {
    if idx < to { StackSkips(tb, t, k, idx + 1, to); }
  }

  /** The slot for page k holds a page of t, this or another, and page k does not
      lie before it. */
  predicate PassedOver(hs: seq<Head>, t: int, k: nat, from: nat) {
    1 <= k <= |hs| && from <= k - 1 && hs[k - 1].thread == t && forall j | from <= j < k - 1 :: hs[j] != Head(t, k)
  }

  /** Then the scan passes it. */
  lemma LoadPasses(tb: Table, hs: seq<Head>, t: int, k: nat, from: nat, f: nat)
    requires FirstHole(hs, f) && |hs| < 20 && t != 0 && PassedOver(hs, t, k, from)
    requires Lays(tb, hs)
    ensures Sized(tb) && Scan(tb, t, k, RESERVED_PAGES + from) == Scan(tb, t, k + 1, RESERVED_PAGES + 1)
  {
    hide FirstFree, FirstHole;
    FirstFreeAt(tb, hs, f);
    forall i | RESERVED_PAGES + from <= i < RESERVED_PAGES + k - 1
      ensures tb.meta[i].thread == t ==> tb.meta[i].num != k && i != RESERVED_PAGES + k - 1
    {
      HeadIn(tb, hs, i);
    }
    HeadIn(tb, hs, RESERVED_PAGES + k - 1);
    ScanSkips(tb, t, k, RESERVED_PAGES + from, RESERVED_PAGES + k - 1);
  }

  /** The thread has no page k, and none in the slot for it. */
  predicate NoneUp(hs: seq<Head>, t: int, k: nat) {
    forall j | 0 <= j < |hs| :: hs[j].thread == t ==> hs[j].num != k && j != k - 1
  }

  lemma LoadEnds(tb: Table, hs: seq<Head>, t: int, k: nat, f: nat)
    requires FirstHole(hs, f) && |hs| < 20 && 1 <= k < 20 && t != 0
    requires NoneUp(hs, t, k)
    requires Lays(tb, hs)
    ensures Sized(tb) && Scan(tb, t, k, RESERVED_PAGES + 1) == tb
  {
    hide FirstFree, FirstHole;
    FirstFreeAt(tb, hs, f);
    forall i | RESERVED_PAGES + 1 <= i < SCHEDULER_PAGE_START
      ensures tb.meta[i].thread == t ==> tb.meta[i].num != k && i != RESERVED_PAGES + k - 1
    {
      HeadIn(tb, hs, i);
    }
    ScanSkips(tb, t, k, RESERVED_PAGES + 1, SCHEDULER_PAGE_START);
  }

  /** The page for which the stack's scan looks is in its slot: it looks no further. */
  lemma StackEnds(tb: Table, hs: seq<Head>, t: int, k: nat, f: nat)
    requires FirstHole(hs, f) && |hs| < 20 && 1 <= k <= |hs| && t != 0
    requires NextUp(hs, t, k, k - 1, 0)
    requires Lays(tb, hs)
    ensures Sized(tb) && StackScan(tb, t, k, RESERVED_PAGES + 1) == tb
  {
    hide FirstFree, FirstHole;
    FirstFreeAt(tb, hs, f);
    forall i | RESERVED_PAGES + 1 <= i < SCHEDULER_PAGE_START
      ensures tb.meta[i].thread == t && tb.meta[i].num == k ==> i == RESERVED_PAGES + k - 1
    {
      HeadIn(tb, hs, i);
    }
    StackSkips(tb, t, k, RESERVED_PAGES + 1, SCHEDULER_PAGE_START);
  }

  lemma Unlocked(tb: Table, hs: seq<Head>)
    requires Lays(tb, hs)
    ensures Sized(tb) && Lays(Unlock(tb), hs)
  {
  }

  lemma Locked(tb: Table, hs: seq<Head>, t: int)
    requires Lays(tb, hs)
    ensures Sized(tb) && Lays(LockAllBut(tb, t), hs) && Guarded(LockAllBut(tb, t), t)
  {
  }

  /** The thread keeps its pages over a load. */
  lemma LoadTo(tb: Table, ps: Pages, hs: seq<Head>, t: int, f: nat, to: seq<Head>) returns (r: Table)
    requires FirstHole(hs, f) && t in ps && State(tb, ps, hs)
    requires Sized(tb) && Lays(Load(tb, t), to)
    ensures Proper(tb, DoLoad(t)) && r == Apply(tb, DoLoad(t)) && State(r, ps, to)
  {
    hide Lays, Represents, Load, FirstHole, Inv, PageCount, Room, Ok;
    StateHas(tb, ps, hs, t);
    FirstFreeAt(tb, hs, f);
    var h := Heap(ps[t], Room(tb, t));
    LoadRepresents(tb, t, h);
    r := Load(tb, t);
    RoomIs(r, t, h);
    StepTo(tb, ps, hs, DoLoad(t), ps[t], to);
    assert ps[t := ps[t]] == ps;
  }

  /** A load of a thread whose one page is in its slot. */
  lemma LoadNone(tb: Table, ps: Pages, hs: seq<Head>, t: int, f: nat) returns (r: Table)
    requires FirstHole(hs, f) && 1 <= |hs| < 20 && t in ps && PassedOver(hs, t, 1, 0) && NoneUp(hs, t, 2)
    requires State(tb, ps, hs)
    ensures Proper(tb, DoLoad(t)) && r == Apply(tb, DoLoad(t)) && State(r, ps, hs)
  {
    hide Lays, FirstHole, NextUp, PassedOver, NoneUp, Shifted, State, Scan, Unlock, Inv, PageCount, Proper, Apply;
    StateHas(tb, ps, hs, t);
    Unlocked(tb, hs);
    LoadPasses(Unlock(tb), hs, t, 1, 0, f);
    LoadEnds(Unlock(tb), hs, t, 2, f);
    r := LoadTo(tb, ps, hs, t, f, hs);
  }

  /** A load that moves a thread's one page. */
  lemma LoadOne(tb: Table, ps: Pages, hs: seq<Head>, t: int, f: nat, src: nat, to: seq<Head>, g: nat) returns (r: Table)
    requires FirstHole(hs, f) && 1 <= |hs| < 20 && t in ps && NextUp(hs, t, 1, src, 0) && src != 0
    requires to == Shifted(hs, f, 0, src) && FirstHole(to, g) && |to| < 20 && NoneUp(to, t, 2)
    requires State(tb, ps, hs)
    ensures Proper(tb, DoLoad(t)) && r == Apply(tb, DoLoad(t)) && State(r, ps, to)
  {
    hide Lays, FirstHole, NextUp, PassedOver, NoneUp, Shifted, State, Scan, Unlock, Inv, PageCount, Proper, Apply;
    StateHas(tb, ps, hs, t);
    Unlocked(tb, hs);
    var u := LoadMoves(Unlock(tb), hs, t, 1, 0, f, src, to);
    LoadEnds(u, to, t, 2, g);
    r := LoadTo(tb, ps, hs, t, f, to);
  }

  /** A load that moves the first of a thread's three pages. */
  lemma LoadFront(tb: Table, ps: Pages, hs: seq<Head>, t: int, f: nat, src: nat, to: seq<Head>, g: nat)
    returns (r: Table)
    requires FirstHole(hs, f) && 1 <= |hs| < 20 && t in ps && NextUp(hs, t, 1, src, 0) && src != 0
    requires to == Shifted(hs, f, 0, src) && FirstHole(to, g) && 3 <= |to| < 20
    requires PassedOver(to, t, 2, 1) && PassedOver(to, t, 3, 1) && NoneUp(to, t, 4)
    requires State(tb, ps, hs)
    ensures Proper(tb, DoLoad(t)) && r == Apply(tb, DoLoad(t)) && State(r, ps, to)
  {
    hide Lays, FirstHole, NextUp, PassedOver, NoneUp, Shifted, State, Scan, Unlock, Inv, PageCount, Proper, Apply;
    StateHas(tb, ps, hs, t);
    Unlocked(tb, hs);
    var u := LoadMoves(Unlock(tb), hs, t, 1, 0, f, src, to);
    LoadPasses(u, to, t, 2, 1, g);
    LoadPasses(u, to, t, 3, 1, g);
    LoadEnds(u, to, t, 4, g);
    r := LoadTo(tb, ps, hs, t, f, to);
  }

  lemma ThreeMoves(tb: Table, h0: seq<Head>, t: int, f0: nat, s0: nat, h1: seq<Head>, f1: nat, s1: nat,
                   h2: seq<Head>, f2: nat, s2: nat, h3: seq<Head>, f3: nat) returns (w: Table)
    requires FirstHole(h0, f0) && 3 <= |h0| < 20 && NextUp(h0, t, 1, s0, 0) && s0 != 0 && t != 0
    requires h1 == Shifted(h0, f0, 0, s0) && FirstHole(h1, f1) && 3 <= |h1| < 20 && NextUp(h1, t, 2, s1, 1) && s1 != 1
    requires h2 == Shifted(h1, f1, 1, s1) && FirstHole(h2, f2) && 3 <= |h2| < 20 && NextUp(h2, t, 3, s2, 1) && s2 != 2
    requires h3 == Shifted(h2, f2, 2, s2) && FirstHole(h3, f3) && |h3| < 20 && NoneUp(h3, t, 4)
    requires Lays(tb, h0)
    ensures Sized(tb) && Lays(w, h3) && Scan(tb, t, 1, RESERVED_PAGES) == w
  {
    hide Lays, FirstHole, NextUp, PassedOver, NoneUp, Shifted, Scan, StackScan, HeadAt;
    var u := LoadMoves(tb, h0, t, 1, 0, f0, s0, h1);
    var v := LoadMoves(u, h1, t, 2, 1, f1, s1, h2);
    w := LoadMoves(v, h2, t, 3, 1, f2, s2, h3);
    LoadEnds(w, h3, t, 4, f3);
  }

  /** A load that moves all of a thread's three pages. */
  lemma LoadThree(tb: Table, ps: Pages, h0: seq<Head>, t: int, f0: nat, s0: nat, h1: seq<Head>, f1: nat, s1: nat,
                  h2: seq<Head>, f2: nat, s2: nat, h3: seq<Head>, f3: nat) returns (r: Table)
    requires FirstHole(h0, f0) && 3 <= |h0| < 20 && t in ps && NextUp(h0, t, 1, s0, 0) && s0 != 0
    requires h1 == Shifted(h0, f0, 0, s0) && FirstHole(h1, f1) && 3 <= |h1| < 20 && NextUp(h1, t, 2, s1, 1) && s1 != 1
    requires h2 == Shifted(h1, f1, 1, s1) && FirstHole(h2, f2) && 3 <= |h2| < 20 && NextUp(h2, t, 3, s2, 1) && s2 != 2
    requires h3 == Shifted(h2, f2, 2, s2) && FirstHole(h3, f3) && |h3| < 20 && NoneUp(h3, t, 4)
    requires State(tb, ps, h0)
    ensures Proper(tb, DoLoad(t)) && r == Apply(tb, DoLoad(t)) && State(r, ps, h3)
  {
    hide Lays, FirstHole, NextUp, PassedOver, NoneUp, Shifted, State, Scan, Unlock, Inv, PageCount, Proper, Apply,
         HeadAt;
    StateHas(tb, ps, h0, t);
    Unlocked(tb, h0);
    var w := ThreeMoves(Unlock(tb), h0, t, f0, s0, h1, f1, s1, h2, f2, s2, h3, f3);
    r := LoadTo(tb, ps, h0, t, f0, h3);
  }

  // ----- requests -----

  lemma NoneUsable(tb: Table, t: int, h: Heap, size: nat)
    requires Represents(tb, t, h) && forall k | 0 <= k < |h.pages| :: h.pages[k].usage < size
    ensures |tb.meta| == TOTAL_PAGES && PageAlloc.FindUsable(tb.meta, t, size, 0) == SCHEDULER_PAGE_START
  {
    hide Represents, Inv, Layout;
    Parts(tb, t, h);
    UsableIsSlot(tb, t, size);
    var r := PageAlloc.FindUsable(tb.meta, t, size, 0);
    if r < SCHEDULER_PAGE_START { PageInSlot(tb, t, h, r); }
  }

  lemma ClaimsOne(tb: Table, t: int, n: nat)
    requires Sized(tb) && FirstFree(tb.meta) < SCHEDULER_PAGE_START
    ensures PageAlloc.Claim(tb, t, n, 0, 1) == PageAlloc.ClaimOne(tb, t, n, 0, 1)
  {
  }

  lemma GrownReplies(h: Heap, size: nat)
    requires h.room > 0 && size >= 1 && PagesForMalloc(size) == 1
    ensures ResultIn(h, |h.pages|, size) == Some(PageAlloc.VirtualAddress(|h.pages| + 1, 6))
  {
    hide ChunkList.AllocAddr;
    RegionServesItsRequest(size);
  }

  lemma AfterFresh(tb: Table, t: int, size: nat, hs: seq<Head>, f: nat, n: nat)
    requires Lays(tb, hs) && FirstHole(hs, f) && |hs| + 1 < SCHEDULER_PAGE_START - RESERVED_PAGES && t != 0
    requires PageAlloc.FindFreePage(tb, t, size, 1).Fresh? && n == PageCount(tb, t) + 1
    ensures Lays(PageAlloc.AfterFindFreePage(tb, t, size, 1), Put(hs, f, Head(t, n)))
  {
    hide PageAlloc.FindFreePage, PageCount, FirstHole, PageAlloc.ClaimOne;
    var u := Unlock(tb);
    assert Lays(u, hs);
    FirstFreeAt(u, hs, f);
    ClaimLays(u, hs, f, t, n, 0, 1);
    ClaimsOne(u, t, n);
  }

  lemma GrownPages(h: Heap, size: nat)
    requires h.room > 0
    ensures MallocIn(h, |h.pages|, size).pages == h.pages + [AllocIn(NewPage(), size)]
  {
  }

  lemma UnlockSame(tb: Table)
    requires Sized(tb)
    ensures Sized(Unlock(tb)) && SameHeads(tb, Unlock(tb)) && Unlock(tb).meta == tb.meta && Unlock(tb).pages == tb.pages
    ensures forall hs :: Lays(tb, hs) ==> Lays(Unlock(tb), hs)
  {
  }

  lemma LockSame(tb: Table, t: int)
    requires Sized(tb)
    ensures var r := LockAllBut(tb, t); Sized(r) && SameHeads(tb, r) && r.meta == tb.meta && r.pages == tb.pages
  {
  }

  lemma MallocGuards(tb: Table, t: int, size: nat)
    requires Sized(tb)
    requires PageAlloc.FindFreePage(tb, t, size, 1).Fresh? || PageAlloc.FindFreePage(tb, t, size, 1).Reused?
    ensures Guarded(TableHeap.Malloc(tb, t, size).0, t)
  {
    hide PageAlloc.FindFreePage, PageAlloc.AfterFindFreePage, Carve;
  }

  /** A request by the thread, or by the library for it. */
  predicate Asks(op: Op, t: int, size: nat) {
    op == DoMalloc(t, size) || op == DoRequest(t, size)
  }

  lemma AskedSame(tb: Table, op: Op, t: int, size: nat)
    requires Proper(tb, op) && Asks(op, t, size)
    ensures Sized(tb)
    ensures Apply(tb, op).meta == TableHeap.Malloc(tb, t, size).0.meta
    ensures Apply(tb, op).pages == TableHeap.Malloc(tb, t, size).0.pages
    ensures op.DoMalloc? ==> Apply(tb, op) == TableHeap.Malloc(tb, t, size).0
  {
    hide TableHeap.Malloc, Request;
    RequestIs(tb, t, size);
  }

  lemma MetaLays(a: Table, b: Table, hs: seq<Head>)
    requires Lays(a, hs) && Sized(b) && a.meta == b.meta
    ensures Lays(b, hs)
  {
  }

  /** A request for which the thread has no page that admits it. */
  lemma FreshTo(tb: Table, ps: Pages, hs: seq<Head>, op: Op, t: int, size: nat, f: nat, page: PageHeap, to: seq<Head>)
    returns (r: Table)
    requires FirstHole(hs, f) && |hs| < 20 && t in ps && |ps[t]| < 20 && Asks(op, t, size)
    requires size >= 1 && PagesForMalloc(size) == 1 && forall k | 0 <= k < |ps[t]| :: ps[t][k].usage < size
    requires page == AllocIn(NewPage(), size) && to == Put(hs, f, Head(t, |ps[t]| + 1))
    requires State(tb, ps, hs)
    ensures Sized(tb) && TableHeap.Malloc(tb, t, size).1 == Address(PageAlloc.VirtualAddress(|ps[t]| + 1, 6))
    ensures Proper(tb, op) && r == Apply(tb, op) && State(r, ps[t := ps[t] + [page]], to)
    ensures op.DoMalloc? ==> Guarded(r, t)
  {
    hide Represents, PageOk, TableHeap.Malloc, Request, AllocIn, ResultIn, MallocIn, NewPage, PageCount, Inv, Layout,
         PageAlloc.FindUsable, Lays, PageAlloc.AfterFindFreePage, FirstHole, Has, Apply, Guarded;
    StateHas(tb, ps, hs, t);
    FirstFreeAt(tb, hs, f);
    var h := Heap(ps[t], Room(tb, t));
    HasIs(tb, t, ps[t]);
    FreeSlotCount(tb);
    NoneUsable(tb, t, h, size);
    MallocIs(tb, t, h, size);
    var m, u := TableHeap.Malloc(tb, t, size).0, PageAlloc.AfterFindFreePage(tb, t, size, 1);
    AfterFresh(tb, t, size, hs, f, |ps[t]| + 1);
    LaysSame(u, m, to);
    MallocGuards(tb, t, size);
    GrownPages(h, size);
    GrownReplies(h, size);
    NewPageOk();
    AllocInOk(NewPage(), size);
    RoomIs(m, t, MallocIn(h, |ps[t]|, size));
    r := Apply(tb, op);
    AskedSame(tb, op, t, size);
    HasSame(m, r, t, ps[t] + [page]);
    MetaLays(m, r, to);
    StepTo(tb, ps, hs, op, ps[t] + [page], to);
  }

  lemma HasIs(tb: Table, t: int, pages: seq<PageHeap>)
    requires Sized(tb) && Has(tb, t, pages)
    ensures Represents(tb, t, Heap(pages, Room(tb, t))) && Ok(Heap(pages, Room(tb, t)))
  {
    hide Represents, PageOk;
    OkAnyRoom(pages, Room(tb, t));
  }

  /** How many of the first n heads are thread t's. */
  function Rank(hs: seq<Head>, t: int, n: nat): nat
    requires n <= |hs|
  {
    if n == 0 then 0 else Rank(hs, t, n - 1) + if hs[n - 1].thread == t then 1 else 0
  }

  lemma {:induction false} CountIsRank(tb: Table, hs: seq<Head>, t: int, n: nat)
    requires Lays(tb, hs) && n <= |hs|
    ensures Count(tb.meta, t, RESERVED_PAGES + n) == Rank(hs, t, n)
  {
    if n > 0 {
      CountIsRank(tb, hs, t, n - 1);
      assert tb.meta[RESERVED_PAGES + n - 1].thread == HeadAt(hs, RESERVED_PAGES + n - 1).thread;
    }
  }

  /** In slot order, the page at position s is the first to admit the request. */
  predicate Serves(pages: seq<PageHeap>, hs: seq<Head>, t: int, s: nat, size: nat) {
    && s < |hs| && hs[s].thread == t && 1 <= hs[s].num <= |pages| && size <= pages[hs[s].num - 1].usage
    && forall j | 0 <= j < s && hs[j].thread == t ::
         1 <= hs[j].num <= |pages| && size > pages[hs[j].num - 1].usage
  }

  lemma UsableAt(tb: Table, t: int, h: Heap, hs: seq<Head>, s: nat, size: nat)
    requires Represents(tb, t, h) && Lays(tb, hs) && Serves(h.pages, hs, t, s, size)
    ensures PageAlloc.FindUsable(tb.meta, t, size, 0) == RESERVED_PAGES + s
    ensures tb.meta[RESERVED_PAGES + s].num == hs[s].num && tb.meta[RESERVED_PAGES + s].thread == t
  {
    hide Represents, Inv, Layout, Lays, Unique, PageCount, Encodes, PageAlloc.FindUsable;
    Parts(tb, t, h);
    UsableIsSlot(tb, t, size);
    var r := PageAlloc.FindUsable(tb.meta, t, size, 0);
    HeadIn(tb, hs, RESERVED_PAGES);
    HeadIn(tb, hs, RESERVED_PAGES + s);
    PageInSlot(tb, t, h, RESERVED_PAGES + s);
    assert r <= RESERVED_PAGES + s;
    HeadIn(tb, hs, r);
    PageInSlot(tb, t, h, r);
  }

  lemma CarveInOk(h: Heap, p: nat, index: nat, size: nat)
    requires Ok(h) && size >= 1 && 1 <= p <= |h.pages| && 1 <= index <= |h.pages|
    requires h.pages[p - 1].PageHeap?
    ensures Ok(CarveIn(h, p, index, size))
  {
    hide ChunkList.Shape, ChunkList.Extent, ChunkList.Alloc, ChunkList.AllocCharge, ChunkList.AsShort;
    assert PageOk(h.pages[p - 1]);
    AllocInOk(h.pages[p - 1], size);
  }

  lemma CarvedPages(h: Heap, p: nat, index: nat, size: nat)
    requires 1 <= p <= |h.pages| && 1 <= index <= |h.pages| && h.pages[p - 1].PageHeap?
    ensures CarveIn(h, p, index, size) == Heap(CarveIn(Heap(h.pages, 0), p, index, size).pages, h.room)
  {
    hide ChunkList.Alloc, ChunkList.AllocCharge, ChunkList.AsShort;
  }

  /** A request that a page at position s serves, whatever its number is. */
  lemma ReuseTo(tb: Table, ps: Pages, hs: seq<Head>, op: Op, t: int, size: nat, f: nat, s: nat, index: nat,
                offset: nat, pages: seq<PageHeap>) returns (r: Table)
    requires FirstHole(hs, f) && t in ps && Asks(op, t, size) && size >= 1 && PagesForMalloc(size) == 1
    requires Serves(ps[t], hs, t, s, size) && 1 <= index <= |ps[t]| && index == Rank(hs, t, s + 1)
    requires ps[t][hs[s].num - 1].PageHeap?
    requires ChunkList.AllocAddr(ps[t][hs[s].num - 1].chunks, size) == Some(offset)
    requires pages == CarveIn(Heap(ps[t], 0), hs[s].num, index, size).pages
    requires State(tb, ps, hs)
    ensures Sized(tb) && TableHeap.Malloc(tb, t, size).1 == Address(PageAlloc.VirtualAddress(index, offset))
    ensures Proper(tb, op) && r == Apply(tb, op) && State(r, ps[t := pages], hs)
    ensures op.DoMalloc? ==> Guarded(r, t)
  {
    hide Represents, Ok, Carve, CarveIn, PageCount, Inv, Layout, PageAlloc.FindUsable, Lays, Unlock, LockAllBut,
         ChunkList.AllocAddr, PageAlloc.VirtualAddress, ChunkList.Alloc, FirstHole, Count, Rank, Has, Guarded, Apply;
    StateHas(tb, ps, hs, t);
    FirstFreeAt(tb, hs, f);
    HasIs(tb, t, ps[t]);
    var h := Heap(ps[t], Room(tb, t));
    UsableAt(tb, t, h, hs, s, size);
    PageInSlot(tb, t, h, RESERVED_PAGES + s);
    CountIsRank(tb, hs, t, s + 1);
    var slot, u := RESERVED_PAGES + s, Unlock(tb);
    AfterReused(tb, t, size);
    UnlockSame(tb);
    LockRepresents(tb, u, t, h);
    CarveAnywhere(u, t, h, slot, index, size);
    var v, m := Carve(u, t, slot, index, size).0, TableHeap.Malloc(tb, t, size).0;
    var g := CarveIn(h, hs[s].num, index, size);
    LockSame(v, t);
    LockRepresents(v, m, t, g);
    CarveInOk(h, hs[s].num, index, size);
    RoomIs(m, t, g);
    CarvedPages(h, hs[s].num, index, size);
    LaysSame(u, v, hs);
    LaysSame(v, m, hs);
    MallocGuards(tb, t, size);
    r := Apply(tb, op);
    AskedSame(tb, op, t, size);
    HasSame(m, r, t, pages);
    MetaLays(m, r, hs);
    StepTo(tb, ps, hs, op, pages, hs);
  }

  // ----- writes through the handler -----

  /** What an access to a protected page does to the headers. */
  lemma StepMoves(tb: Table, t: int, hs: seq<Head>, f: nat, target: nat, src: nat, a: Access)
    requires Inv(tb) && Lays(tb, hs) && FirstHole(hs, f) && |hs| + 2 < SCHEDULER_PAGE_START - RESERVED_PAGES
    requires ThreadId(t) && Guarded(tb, t)
    requires target < |hs| && src < |hs| && hs[target].thread != 0 && hs[target].thread != t
    requires hs[src] == Head(t, target + 1) && a.addr / PAGE_SIZE == RESERVED_PAGES + target
    ensures a.addr < HEAP_SIZE && Reaches(tb, t, a.addr) && FirstFree(tb.meta) < SCHEDULER_PAGE_START
    ensures Step(tb, t, a).Some?
    ensures Lays(Step(tb, t, a).value.0, Shifted(hs, f, target, src))
    ensures Guarded(Step(tb, t, a).value.0, t)
  {
    hide Lays, Swap, FirstFree, FirstHole, SlotOf, Layout, Unique, Numbered, PageCount;
    FirstFreeAt(tb, hs, f);
    HeadIn(tb, hs, RESERVED_PAGES);
    HeadIn(tb, hs, RESERVED_PAGES + target);
    HeadIn(tb, hs, RESERVED_PAGES + src);
    assert Holds(tb, RESERVED_PAGES + src, t, target + 1);
    SlotOfIs(tb, RESERVED_PAGES + src, t, target + 1);
    SwapLays(tb, hs, f, target, src);
    var u := Swap(tb, RESERVED_PAGES + target, RESERVED_PAGES + src);
    LockSame(u, t);
    LaysSame(u, LockAllBut(u, t), Shifted(hs, f, target, src));
    LaysSame(LockAllBut(u, t), Step(tb, t, a).value.0, Shifted(hs, f, target, src));
  }

  /** A thread writes into one of its pages, at whose place another thread's page
      is: the handler swaps them. */
  lemma WriteTo(tb: Table, ps: Pages, hs: seq<Head>, t: int, f: nat, target: nat, src: nat, addr: nat, v: byte,
                to: seq<Head>) returns (r: Table)
    requires FirstHole(hs, f) && |hs| < 20 && t in ps
    requires target < |hs| && src < |hs| && hs[target].thread != 0 && hs[target].thread != t
    requires hs[src] == Head(t, target + 1) && addr / PAGE_SIZE == RESERVED_PAGES + target
    requires to == Shifted(hs, f, target, src) && InPayload(Heap(ps[t], 0), addr)
    requires State(tb, ps, hs) && Guarded(tb, t)
    ensures Proper(tb, DoAccess(t, Write(addr, v))) && r == Apply(tb, DoAccess(t, Write(addr, v)))
    ensures State(r, ps, to) && Guarded(r, t)
  {
    hide Represents, Lays, Step, Inv, Layout, FirstFree, FirstHole, Reaches, PageCount, Guarded, Ok, Has;
    StateHas(tb, ps, hs, t);
    FirstFreeAt(tb, hs, f);
    HasIs(tb, t, ps[t]);
    var h := Heap(ps[t], Room(tb, t));
    StepMoves(tb, t, hs, f, target, src, Write(addr, v));
    PayloadAnyRoom(ps[t], h.room, addr);
    AccessKeeps(tb, t, h, Write(addr, v));
    r := Step(tb, t, Write(addr, v)).value.0;
    RoomIs(r, t, h);
    StepTo(tb, ps, hs, DoAccess(t, Write(addr, v)), ps[t], to);
    assert ps[t := ps[t]] == ps;
  }

  lemma PayloadAnyRoom(pages: seq<PageHeap>, room: nat, addr: nat)
    requires InPayload(Heap(pages, 0), addr)
    ensures InPayload(Heap(pages, room), addr)
  {
    hide ChunkHolds;
  }


  // ----- stacks -----

  lemma {:induction false} CountAll(meta: seq<Meta>, t: int, lo: nat, hi: nat)
    requires RESERVED_PAGES <= lo <= hi <= |meta| && forall i | lo <= i < hi :: meta[i].thread == t
    ensures Count(meta, t, hi) == Count(meta, t, lo) + (hi - lo)
    decreases hi
  {
    if lo < hi { CountAll(meta, t, lo, hi - 1); }
  }

  /** A page next to its predecessor is not looked for further. */
  lemma {:induction false} SpanStays(tb: Table, t: int, first: nat, k: int, dst: nat, idx: nat)
    requires Sized(tb) && forall i | RESERVED_PAGES <= i < SCHEDULER_PAGE_START && i != dst ::
               !(tb.meta[i].thread == t && tb.meta[i].num == k)
    requires idx >= RESERVED_PAGES
    ensures SpanScan(tb, t, first, k, dst, idx, 1) == tb
    decreases SCHEDULER_PAGE_START - idx
  {
    if idx < SCHEDULER_PAGE_START { SpanStays(tb, t, first, k, dst, idx + 1); }
  }

  lemma CarveSpanHeads(tb: Table, t: int, slot: nat, index: nat, span: nat, size: nat)
    requires Sized(tb) && slot + span <= TOTAL_PAGES
    ensures SameHeads(tb, CarveSpan(tb, t, slot, index, span, size).0)
  {
    hide SetPages;
    var bytes := PageAlloc.BytesFrom(tb, slot, span);
    SetPagesMeta(tb, slot, span, RegionCode.AllocBytes(bytes, size).bytes);
  }

  lemma {:induction false} SetPagesMeta(tb: Table, slot: nat, n: nat, bytes: seq<byte>)
    requires Sized(tb) && slot + n <= TOTAL_PAGES && |bytes| == n * PAGE_SIZE
    ensures SetPages(tb, slot, n, bytes).meta == tb.meta
    decreases n
  {
    if n > 0 { SetPagesMeta(SetPage(tb, slot, bytes[..PAGE_SIZE]), slot + 1, n - 1, bytes[PAGE_SIZE..]); }
  }

  /** Where the two pages of a stack are claimed, one slot after the other. */
  lemma StackClaimed(tb: Table, t: int, hs: seq<Head>, f: nat, n: nat, mid: seq<Head>, to: seq<Head>)
    requires Lays(tb, hs) && FirstHole(hs, f) && |hs| < 20 && t != 0 && mid == Put(hs, f, Head(t, n))
    requires FirstHole(mid, f + 1) && to == Put(mid, f + 1, Head(t, n + 1))
    requires PageAlloc.FindFreePage(tb, t, STACK_SIZE, 2).Fresh? && n == PageCount(tb, t) + 1
    ensures PageAlloc.FindFreePage(tb, t, STACK_SIZE, 2).slot == RESERVED_PAGES + f
    ensures Lays(PageAlloc.AfterFindFreePage(tb, t, STACK_SIZE, 2), to)
  {
    hide PageCount, FirstHole, PageAlloc.ClaimOne, PageAlloc.FindUsable, PageAlloc.Claim, Lays, Unlock, FirstFree;
    Unlocked(tb, hs);
    var u := Unlock(tb);
    FirstFreeAt(tb, hs, f);
    FirstFreeAt(u, hs, f);
    ClaimLays(u, hs, f, t, n, 0, 2);
    var v := PageAlloc.ClaimOne(u, t, n, 0, 2);
    FirstFreeAt(v, mid, f + 1);
    ClaimLays(v, mid, f + 1, t, n, 1, 2);
    ClaimsTwo(u, v, t, n);
  }

  lemma ClaimsTwo(tb: Table, u: Table, t: int, n: nat)
    requires Sized(tb) && FirstFree(tb.meta) < SCHEDULER_PAGE_START && u == PageAlloc.ClaimOne(tb, t, n, 0, 2)
    requires FirstFree(u.meta) < SCHEDULER_PAGE_START
    ensures PageAlloc.Claim(tb, t, n, 0, 2) == PageAlloc.ClaimOne(u, t, n, 1, 2)
  {
    hide PageAlloc.ClaimOne;
  }

  /** A thread gets its stack in two slots that follow each other. */
  lemma StackTo(tb: Table, ps: Pages, hs: seq<Head>, t: int, f: nat, mid: seq<Head>, to: seq<Head>, g: nat)
    returns (r: Table)
    requires FirstHole(hs, f) && |hs| < 20 && t in ps && |ps[t]| < 20
    requires mid == Put(hs, f, Head(t, |ps[t]| + 1)) && FirstHole(mid, f + 1)
    requires to == Put(mid, f + 1, Head(t, |ps[t]| + 2)) && FirstHole(to, g)
    requires forall j | 0 <= j < |to| && j != f + 1 :: to[j] != Head(t, |ps[t]| + 2)
    requires forall k | 0 <= k < |ps[t]| :: ps[t][k].usage < STACK_SIZE
    requires State(tb, ps, hs)
    ensures Proper(tb, DoLarge(t, STACK_SIZE, false)) && r == Apply(tb, DoLarge(t, STACK_SIZE, false))
    ensures State(r, ps[t := ps[t] + [Larger(0), Larger(-1)]], to)
  {
    hide Represents, Ok, PageCount, Inv, Layout, PageAlloc.FindUsable, Lays, PageAlloc.AfterFindFreePage, FirstHole,
         Has, CarveSpan, LargeRequest;
    StateHas(tb, ps, hs, t);
    FirstFreeAt(tb, hs, f);
    HasIs(tb, t, ps[t]);
    var h, n := Heap(ps[t], Room(tb, t)), |ps[t]| + 1;
    NoneUsable(tb, t, h, STACK_SIZE);
    FreeCount(tb, hs);
    StackClaimed(tb, t, hs, f, n, mid, to);
    FirstFreeAt(PageAlloc.AfterFindFreePage(tb, t, STACK_SIZE, 2), to, g);
    StackIsRepresented(tb, t, h);
    r := LargeRequest(tb, t, STACK_SIZE).value.0;
    RoomIs(r, t, Heap(h.pages + [Larger(0), Larger(-1)], Room(r, t)));
    StackLays(tb, t, f, n, to);
    StepTo(tb, ps, hs, DoLarge(t, STACK_SIZE, false), ps[t] + [Larger(0), Larger(-1)], to);
  }

  lemma FreeCount(tb: Table, hs: seq<Head>)
    requires Lays(tb, hs) && |hs| < 20
    ensures Sized(tb) && PageCount(tb, 0) >= 2
  {
    CountAll(tb.meta, 0, RESERVED_PAGES + |hs|, SCHEDULER_PAGE_START);
  }

  lemma StackLays(tb: Table, t: int, f: nat, n: nat, to: seq<Head>)
    requires Sized(tb) && LargeRequest(tb, t, STACK_SIZE).Some? && f + 1 < |to| && to[f] == Head(t, n) && t != 0
    requires PageAlloc.FindFreePage(tb, t, STACK_SIZE, 2).slot == RESERVED_PAGES + f
    requires Lays(PageAlloc.AfterFindFreePage(tb, t, STACK_SIZE, 2), to)
    requires forall j | 0 <= j < |to| && j != f + 1 :: to[j] != Head(t, n + 1)
    ensures Lays(LargeRequest(tb, t, STACK_SIZE).value.0, to)
  {
    hide Lays, PageAlloc.FindFreePage, PageAlloc.AfterFindFreePage, CarveSpan, Unlock, SpanScan;
    var u, found := PageAlloc.AfterFindFreePage(tb, t, STACK_SIZE, 2), PageAlloc.FindFreePage(tb, t, STACK_SIZE, 2);
    var w, slot := Unlock(u), RESERVED_PAGES + f;
    Unlocked(u, to);
    LaysSized(w, to);
    HeadIn(u, to, slot);
    forall i | RESERVED_PAGES <= i < SCHEDULER_PAGE_START && i != slot + 1
      ensures !(w.meta[i].thread == t && w.meta[i].num == n + 1)
    {
      HeadIn(w, to, i);
    }
    SpanStays(w, t, slot, n + 1, slot + 1, RESERVED_PAGES);
    CarveSpanHeads(w, t, slot, found.index, 2, STACK_SIZE);
    LaysSame(w, CarveSpan(w, t, slot, found.index, 2, STACK_SIZE).0, to);
  }

  // ----- a dispatch -----

  /** The thread's first page is brought back in front; its second is in place. */
  lemma ResumeTo(tb: Table, ps: Pages, hs: seq<Head>, t: int, f: nat, src: nat, to: seq<Head>, g: nat)
    returns (r: Table)
    requires FirstHole(hs, f) && 2 <= |hs| < 20 && t in ps && NextUp(hs, t, 1, src, 0) && src != 0
    requires to == Shifted(hs, f, 0, src) && FirstHole(to, g) && |to| < 20 && |to| >= 2 && NextUp(to, t, 2, 1, 0)
    requires State(tb, ps, hs)
    ensures Proper(tb, DoResume(t)) && r == Apply(tb, DoResume(t)) && State(r, ps, to) && Guarded(r, t)
  {
    hide Lays, Represents, FirstHole, Inv, PageCount, Room, Ok, NextUp, StackScan, Unlock, LockAllBut, Guarded,
         Shifted, State, HeadAt, Has, Put;
    StateHas(tb, ps, hs, t);
    FirstFreeAt(tb, hs, f);
    HasIs(tb, t, ps[t]);
    var h, w := Heap(ps[t], Room(tb, t)), Unlock(tb);
    Unlocked(tb, hs);
    var u := LoadMoves(w, hs, t, 1, 0, f, src, to);
    StackEnds(u, to, t, 2, g);
    assert LoadStack(tb, t) == u;
    Locked(u, to, t);
    r := Resume(tb, t);
    ResumeRepresents(tb, t, h);
    RoomIs(r, t, h);
    StepTo(tb, ps, hs, DoResume(t), ps[t], to);
    assert ps[t := ps[t]] == ps;
  }
}
