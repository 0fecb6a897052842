/** Runs that the code makes, from an empty table: the first creation of a thread,
    after which the main thread comes to hold two blocks one inside the other, and
    to have pages that a load leaves out of place. */
module TableRuns {
  import opened HeaderBytes
  import opened PageTable
  import opened FlatMemory
  import opened Loader
  import opened ThreadHeap
  import opened TableHeap
  import opened TableHeapRuns
  import opened TableSteps
  import ChunkList
  import ChunkListLemmas
  import PageAlloc
  import Threads

  // ----- the pages of the runs -----

  /** A page after a request of 4085 bytes, which takes it whole. */
  function Whole(): PageHeap {
    PageHeap([ChunkList.Chunk(false, 4090)], 5)
  }

  lemma NewPagesAre()
    ensures NewPage() == Filled([], 4090) && AllocIn(NewPage(), 4085) == Whole()
  {
    var cs := NewPage().chunks;
    assert ChunkList.Fits(cs[0], 4085);
    assert ChunkList.FirstFit(cs, 4085) == 0;
  }

  lemma Usages(sizes: seq<nat>, left: nat)
    ensures Filled(sizes, left).PageHeap? && Filled(sizes, left).usage == left
    ensures Whole().PageHeap? && Whole().usage == 5
  {
  }

  /** Carving a page with its own number as the index. */
  lemma CarveOwnPage(pages: seq<PageHeap>, p: nat, sizes: seq<nat>, left: nat, size: nat)
    requires 1 <= p <= |pages| && pages[p - 1] == Filled(sizes, left) && size + 6 < left <= 4090
    ensures CarveIn(Heap(pages, 0), p, p, size).pages == pages[p - 1 := Filled(sizes + [size], left - size - 6)]
  {
    hide ChunkList.Alloc, ChunkList.AllocCharge, Filled;
    Usages(sizes, left);
    FilledServes(sizes, left, size);
    assert CarveIn(Heap(pages, 0), p, p, size).pages == pages[p - 1 := AllocIn(pages[p - 1], size)];
  }

  // ----- the first creation of a thread -----

  /** The library's own id, that of the first thread, and the main thread's. */
  const LIBRARY: int := LIBRARY_ID
  const FIRST: int := 2
  const MAIN: int := Threads.MAIN_ID

  /** Sizes of a control block, a queue node and a context, on a 64-bit machine. */
  const TCB_SIZE: nat := 64
  const NODE_SIZE: nat := 16
  const CONTEXT_SIZE: nat := 968

  function PagesOf(l: seq<PageHeap>, t: seq<PageHeap>, m: seq<PageHeap>): Pages {
    map[LIBRARY := l, FIRST := t, MAIN := m]
  }

  lemma PagesUpdate(l: seq<PageHeap>, t: seq<PageHeap>, m: seq<PageHeap>)
    ensures forall x :: PagesOf(l, t, m)[LIBRARY := x] == PagesOf(x, t, m)
    ensures forall x :: PagesOf(l, t, m)[FIRST := x] == PagesOf(l, x, m)
    ensures forall x :: PagesOf(l, t, m)[MAIN := x] == PagesOf(l, t, x)
    ensures PagesOf(l, t, m).Keys == {LIBRARY, FIRST, MAIN}
    ensures PagesOf(l, t, m)[LIBRARY] == l && PagesOf(l, t, m)[FIRST] == t && PagesOf(l, t, m)[MAIN] == m
  {
  }

  function L(): Head { Head(LIBRARY, 1) }

  function T(k: int): Head { Head(FIRST, k) }

  function M(k: int): Head { Head(MAIN, k) }

  /** The library sets a control block aside, and the thread gets its stack and
      its context. */
  function Starting(): seq<Op> {
    [DoRequest(LIBRARY, TCB_SIZE), DoLoad(LIBRARY), DoLarge(FIRST, STACK_SIZE, false), DoRequest(FIRST, CONTEXT_SIZE)]
  }

  /** The context is set up; the library makes the queue node; and the main thread
      gets a stack and a context. */
  function Following(): seq<Op> {
    [DoLoad(FIRST), DoLoad(LIBRARY), DoRequest(LIBRARY, NODE_SIZE), DoLarge(MAIN, STACK_SIZE, false),
     DoRequest(MAIN, CONTEXT_SIZE)]
  }

  /** Those are set up, the main thread's node and control block are made, and the
      main thread goes on. */
  function Ending(): seq<Op> {
    [DoLoad(MAIN), DoLoad(LIBRARY), DoRequest(LIBRARY, NODE_SIZE), DoRequest(LIBRARY, TCB_SIZE), DoLoad(MAIN),
     DoLoad(LIBRARY), DoResume(MAIN)]
  }

  /** `mypthread_create` called for the first time, as far as the slots go. */
  function FirstCreate(): seq<Op> {
    Starting() + Following() + Ending()
  }

  ghost predicate IsRun(run: seq<Table>, ops: seq<Op>) {
    && |run| == |ops| + 1
    && forall i | 0 <= i < |ops| :: Proper(run[i], ops[i]) && run[i + 1] == Apply(run[i], ops[i])
  }

  lemma JoinRuns(r: seq<Table>, x: seq<Op>, u: seq<Table>, y: seq<Op>)
    requires IsRun(r, x) && IsRun(u, y) && r[|x|] == u[0]
    ensures IsRun(r + u[1..], x + y)
    ensures forall i | 0 <= i <= |y| :: (r + u[1..])[|x| + i] == u[i]
  {
    hide Proper, Apply;
    var run, ops := r + u[1..], x + y;
    forall i | 0 <= i < |ops| ensures Proper(run[i], ops[i]) && run[i + 1] == Apply(run[i], ops[i]) {
      if i < |x| {
        assert run[i] == r[i] && run[i + 1] == r[i + 1] && ops[i] == x[i];
      } else {
        assert run[i] == u[i - |x|] && run[i + 1] == u[i + 1 - |x|] && ops[i] == y[i - |x|];
      }
    }
  }

  /** What a thread has once its stack and its context are there. */
  function SetUp(): seq<PageHeap> {
    [Larger(0), Larger(-1), Filled([CONTEXT_SIZE], 3116)]
  }

  lemma EmptyState(tb: Table)
    requires Empty(tb)
    ensures State(tb, PagesOf([], [], []), [])
  {
    hide Represents, Lays, Inv, Ok, Room;
    EmptyHasNoPages(tb, LIBRARY);
    EmptyHasNoPages(tb, FIRST);
    EmptyHasNoPages(tb, MAIN);
    PagesUpdate([], [], []);
  }

  lemma StartingRun(tb: Table) returns (run: seq<Table>)
    requires Empty(tb)
    ensures IsRun(run, Starting()) && run[0] == tb
    ensures State(run[4], PagesOf([Filled([TCB_SIZE], 4020)], SetUp(), []), [L(), T(1), T(2), T(3)])
  {
    hide State, Guarded, Apply, Proper, AllocIn, NewPage, Filled, PagesOf, TableHeap.Malloc, PageAlloc.VirtualAddress;
    EmptyState(tb);
    NewPagesAre();
    Usages([TCB_SIZE], 4020);
    FilledServes([], 4090, TCB_SIZE);
    FilledServes([], 4090, CONTEXT_SIZE);
    var l := [Filled([TCB_SIZE], 4020)];
    var larger := [Larger(0), Larger(-1)];
    PagesUpdate([], [], []);
    PagesUpdate(l, [], []);
    PagesUpdate(l, larger, []);
    assert [] + [TCB_SIZE] == [TCB_SIZE] && [] + [CONTEXT_SIZE] == [CONTEXT_SIZE];
    var t1 := FreshTo(tb, PagesOf([], [], []), [], DoRequest(LIBRARY, TCB_SIZE), LIBRARY, TCB_SIZE, 0, l[0], [L()]);
    assert [] + [l[0]] == l;
    var t2 := LoadNone(t1, PagesOf(l, [], []), [L()], LIBRARY, 1);
    var t3 := StackTo(t2, PagesOf(l, [], []), [L()], FIRST, 1, [L(), T(1)], [L(), T(1), T(2)], 3);
    assert [] + larger == larger;
    var t4 := FreshTo(t3, PagesOf(l, larger, []), [L(), T(1), T(2)], DoRequest(FIRST, CONTEXT_SIZE), FIRST,
                      CONTEXT_SIZE, 3, SetUp()[2], [L(), T(1), T(2), T(3)]);
    assert larger + [SetUp()[2]] == SetUp();
    run := [tb, t1, t2, t3, t4];
  }

  /** The library's page, in front, serves the library's request. */
  lemma LibraryTo(tb: Table, sizes: seq<nat>, left: nat, t: seq<PageHeap>, m: seq<PageHeap>, hs: seq<Head>, f: nat,
                  size: nat, more: seq<nat>, rest: nat) returns (r: Table)
    requires FirstHole(hs, f) && 1 <= |hs| < 20 && hs[0] == L()
    requires 1 <= size && size + 6 < left <= 4090 && more == sizes + [size] && rest == left - size - 6
    requires PagesForMalloc(size) == 1
    requires State(tb, PagesOf([Filled(sizes, left)], t, m), hs)
    ensures Proper(tb, DoRequest(LIBRARY, size)) && r == Apply(tb, DoRequest(LIBRARY, size))
    ensures State(r, PagesOf([Filled(more, rest)], t, m), hs)
  {
    hide State, Apply, Proper, FirstHole, Filled, CarveIn, ChunkList.AllocAddr, AllocIn, PagesOf, TableHeap.Malloc;
    var l := [Filled(sizes, left)];
    Usages(sizes, left);
    PagesUpdate(l, t, m);
    FilledServes(sizes, left, size);
    CarveOwnPage(l, 1, sizes, left, size);
    assert Rank(hs, LIBRARY, 1) == 1;
    var offset := ChunkList.AllocAddr(l[0].chunks, size).value;
    r := ReuseTo(tb, PagesOf(l, t, m), hs, DoRequest(LIBRARY, size), LIBRARY, size, f, 0, 1, offset,
                 [Filled(more, rest)]);
  }

  lemma FollowingRun(tb: Table) returns (run: seq<Table>)
    requires State(tb, PagesOf([Filled([TCB_SIZE], 4020)], SetUp(), []), [L(), T(1), T(2), T(3)])
    ensures IsRun(run, Following()) && run[0] == tb
    ensures State(run[5], PagesOf([Filled([TCB_SIZE, NODE_SIZE], 3998)], SetUp(), SetUp()),
                  [L(), T(2), T(3), T(1), M(1), M(2), M(3)])
  {
    hide State, Guarded, Apply, Proper, AllocIn, NewPage, Filled, PagesOf, TableHeap.Malloc, PageAlloc.VirtualAddress;
    NewPagesAre();
    FilledServes([], 4090, CONTEXT_SIZE);
    var l, k := [Filled([TCB_SIZE], 4020)], [Filled([TCB_SIZE, NODE_SIZE], 3998)];
    var larger := [Larger(0), Larger(-1)];
    PagesUpdate(l, SetUp(), []);
    PagesUpdate(k, SetUp(), []);
    PagesUpdate(k, SetUp(), larger);
    assert [] + [CONTEXT_SIZE] == [CONTEXT_SIZE] && [TCB_SIZE] + [NODE_SIZE] == [TCB_SIZE, NODE_SIZE];
    var t2 := LoadsOfFirst(tb, PagesOf(l, SetUp(), []));
    var hs := [L(), T(2), T(3), T(1), FREE];
    var t3 := LibraryTo(t2[1], [TCB_SIZE], 4020, SetUp(), [], hs, 4, NODE_SIZE, [TCB_SIZE, NODE_SIZE], 3998);
    var mid, both := [L(), T(2), T(3), T(1), M(1)], [L(), T(2), T(3), T(1), M(1), M(2)];
    var t4 := StackTo(t3, PagesOf(k, SetUp(), []), hs, MAIN, 4, mid, both, 6);
    assert [] + larger == larger;
    var t5 := FreshTo(t4, PagesOf(k, SetUp(), larger), both, DoRequest(MAIN, CONTEXT_SIZE), MAIN, CONTEXT_SIZE, 6,
                      SetUp()[2], [L(), T(2), T(3), T(1), M(1), M(2), M(3)]);
    assert larger + [SetUp()[2]] == SetUp();
    run := [tb, t2[0], t2[1], t3, t4, t5];
  }

  /** The thread's pages come to the front, and the library's page again. */
  lemma LoadsOfFirst(tb: Table, ps: Pages) returns (r: seq<Table>)
    requires LIBRARY in ps && FIRST in ps && State(tb, ps, [L(), T(1), T(2), T(3)])
    ensures |r| == 2 && Proper(tb, DoLoad(FIRST)) && r[0] == Apply(tb, DoLoad(FIRST))
    ensures Proper(r[0], DoLoad(LIBRARY)) && r[1] == Apply(r[0], DoLoad(LIBRARY))
    ensures State(r[1], ps, [L(), T(2), T(3), T(1), FREE])
  {
    hide State, Apply, Proper;
    var a, b := [L(), T(1), T(2), T(3)], [T(1), FREE, T(2), T(3), L()];
    var c, d := [T(1), T(2), FREE, T(3), L()], [T(1), T(2), T(3), FREE, L()];
    var t1 := LoadThree(tb, ps, a, FIRST, 4, 1, b, 1, 2, c, 2, 3, d, 3);
    var t2 := LoadOne(t1, ps, d, LIBRARY, 3, 4, [L(), T(2), T(3), T(1), FREE], 4);
    r := [t1, t2];
  }

  lemma EndingRun(tb: Table) returns (run: seq<Table>)
    requires State(tb, PagesOf([Filled([TCB_SIZE, NODE_SIZE], 3998)], SetUp(), SetUp()),
                   [L(), T(2), T(3), T(1), M(1), M(2), M(3)])
    ensures IsRun(run, Ending()) && run[0] == tb && State(run[7], Created(), InFront()) && Guarded(run[7], MAIN)
  {
    hide State, Guarded, Apply, Proper, Filled, PagesOf;
    var l := [Filled([TCB_SIZE, NODE_SIZE], 3998)];
    var behind := [L(), M(2), M(3), T(1), T(2), T(3), M(1), FREE];
    PagesUpdate(l, SetUp(), SetUp());
    PagesUpdate([Filled([TCB_SIZE, NODE_SIZE, NODE_SIZE, TCB_SIZE], 3906)], SetUp(), SetUp());
    var t2 := LoadsOfMain(tb, PagesOf(l, SetUp(), SetUp()));
    var sizes := [TCB_SIZE, NODE_SIZE, NODE_SIZE];
    assert [TCB_SIZE, NODE_SIZE] + [NODE_SIZE] == sizes && sizes + [TCB_SIZE] == sizes + [64];
    var t3 := LibraryTo(t2[1], [TCB_SIZE, NODE_SIZE], 3998, SetUp(), SetUp(), behind, 7, NODE_SIZE, sizes, 3976);
    var t4 := LibraryTo(t3, sizes, 3976, SetUp(), SetUp(), behind, 7, TCB_SIZE,
                        [TCB_SIZE, NODE_SIZE, NODE_SIZE, TCB_SIZE], 3906);
    var t7 := MainGoesOn(t4, Created());
    run := [tb, t2[0], t2[1], t3, t4, t7[0], t7[1], t7[2]];
  }

  /** The pages after the first creation. */
  function Created(): Pages {
    PagesOf([Filled([TCB_SIZE, NODE_SIZE, NODE_SIZE, TCB_SIZE], 3906)], SetUp(), SetUp())
  }

  /** Their slots: the main thread's in front, the first thread's, a free slot, and
      the library's. */
  function InFront(): seq<Head> {
    [M(1), M(2), M(3), T(1), T(2), T(3), FREE, L()]
  }

  lemma LoadsOfMain(tb: Table, ps: Pages) returns (r: seq<Table>)
    requires LIBRARY in ps && MAIN in ps && State(tb, ps, [L(), T(2), T(3), T(1), M(1), M(2), M(3)])
    ensures |r| == 2 && Proper(tb, DoLoad(MAIN)) && r[0] == Apply(tb, DoLoad(MAIN))
    ensures Proper(r[0], DoLoad(LIBRARY)) && r[1] == Apply(r[0], DoLoad(LIBRARY))
    ensures State(r[1], ps, [L(), M(2), M(3), T(1), T(2), T(3), M(1), FREE])
  {
    hide State, Apply, Proper;
    var a, b := [L(), T(2), T(3), T(1), M(1), M(2), M(3)], [M(1), T(2), T(3), T(1), FREE, M(2), M(3), L()];
    var c := [M(1), M(2), T(3), T(1), T(2), FREE, M(3), L()];
    var t1 := LoadThree(tb, ps, a, MAIN, 7, 4, b, 4, 5, c, 5, 6, InFront(), 6);
    var t2 := LoadOne(t1, ps, InFront(), LIBRARY, 6, 7, [L(), M(2), M(3), T(1), T(2), T(3), M(1), FREE], 7);
    r := [t1, t2];
  }

  lemma MainGoesOn(tb: Table, ps: Pages) returns (r: seq<Table>)
    requires LIBRARY in ps && MAIN in ps && State(tb, ps, [L(), M(2), M(3), T(1), T(2), T(3), M(1), FREE])
    ensures |r| == 3 && Proper(tb, DoLoad(MAIN)) && r[0] == Apply(tb, DoLoad(MAIN))
    ensures Proper(r[0], DoLoad(LIBRARY)) && r[1] == Apply(r[0], DoLoad(LIBRARY))
    ensures Proper(r[1], DoResume(MAIN)) && r[2] == Apply(r[1], DoResume(MAIN))
    ensures State(r[2], ps, InFront()) && Guarded(r[2], MAIN)
  {
    hide State, Apply, Proper, Guarded;
    var behind := [L(), M(2), M(3), T(1), T(2), T(3), M(1), FREE];
    var t1 := LoadFront(tb, ps, behind, MAIN, 7, 6, InFront(), 6);
    var t2 := LoadOne(t1, ps, InFront(), LIBRARY, 6, 7, behind, 7);
    var t3 := ResumeTo(t2, ps, behind, MAIN, 7, 6, InFront(), 6);
    r := [t1, t2, t3];
  }

  /** What the first creation of a thread leaves: the library, the first thread and
      the main thread have their pages, each with a stack of two pages that admits
      no request, and the main thread runs. */
  lemma FirstCreateRun(tb: Table) returns (run: seq<Table>)
    requires Empty(tb)
    ensures IsRun(run, FirstCreate()) && |FirstCreate()| == 16 && run[0] == tb
    ensures State(run[16], Created(), InFront()) && Guarded(run[16], MAIN)
  {
    hide State, Guarded, Empty, Created, InFront, Filled, PagesOf;
    var r := StartingRun(tb);
    var u := FollowingRun(r[4]);
    var w := EndingRun(u[5]);
    JoinRuns(r, Starting(), u, Following());
    JoinRuns(r + u[1..], Starting() + Following(), w, Ending());
    run := r + u[1..] + w[1..];
  }

  // ----- a block inside a block -----

  /** Where the block of 4085 bytes starts, on the main thread's fourth page, and
      where the one of 70 bytes does. */
  const OUTER: nat := PageAlloc.VirtualAddress(4, 6)
  const INNER: nat := PageAlloc.VirtualAddress(4, 4012)

  /** The main thread asks for three blocks: two get new pages, the third goes
      behind the context. */
  function Asking(): seq<Op> {
    [DoMalloc(MAIN, 4085), DoMalloc(MAIN, 4000), DoMalloc(MAIN, 3050)]
  }

  /** It writes to the second, which brings that page forward, before the page of
      the first; and asks for another. */
  function Nesting(v: byte): seq<Op> {
    [DoAccess(MAIN, Write(PageAlloc.VirtualAddress(5, 6), v)), DoMalloc(MAIN, 70)]
  }

  function Asked(): seq<PageHeap> {
    [Larger(0), Larger(-1), Filled([CONTEXT_SIZE, 3050], 60), Whole(), Filled([4000], 84)]
  }

  lemma AskedRun(tb: Table) returns (run: seq<Table>)
    requires State(tb, Created(), InFront()) && Guarded(tb, MAIN)
    ensures IsRun(run, Asking()) && run[0] == tb && Sized(tb) && Guarded(run[3], MAIN)
    ensures TableHeap.Malloc(tb, MAIN, 4085).1 == Address(OUTER)
    ensures State(run[3], Created()[MAIN := Asked()], [M(1), M(2), M(3), T(1), T(2), T(3), M(4), L(), M(5)])
  {
    hide State, Guarded, Apply, Proper, AllocIn, NewPage, Filled, PagesOf, TableHeap.Malloc, ChunkList.AllocAddr,
         CarveIn;
    NewPagesAre();
    Usages([CONTEXT_SIZE], 3116);
    FilledServes([], 4090, 4000);
    assert [] + [4000] == [4000] && [CONTEXT_SIZE] + [3050] == [CONTEXT_SIZE, 3050];
    var l := [Filled([TCB_SIZE, NODE_SIZE, NODE_SIZE, TCB_SIZE], 3906)];
    var four, five := SetUp() + [Whole()], SetUp() + [Whole()] + [Filled([4000], 84)];
    PagesUpdate(l, SetUp(), SetUp());
    PagesUpdate(l, SetUp(), four);
    PagesUpdate(l, SetUp(), five);
    var h4 := [M(1), M(2), M(3), T(1), T(2), T(3), M(4), L()];
    var h5 := [M(1), M(2), M(3), T(1), T(2), T(3), M(4), L(), M(5)];
    var t1 := FreshTo(tb, Created(), InFront(), DoMalloc(MAIN, 4085), MAIN, 4085, 6, Whole(), h4);
    var t2 := FreshTo(t1, PagesOf(l, SetUp(), four), h4, DoMalloc(MAIN, 4000), MAIN, 4000, 8, Filled([4000], 84), h5);
    FilledServes([CONTEXT_SIZE], 3116, 3050);
    CarveOwnPage(five, 3, [CONTEXT_SIZE], 3116, 3050);
    ThirdPage();
    assert five[2 := Filled([CONTEXT_SIZE, 3050], 60)] == Asked();
    var offset := ChunkList.AllocAddr(five[2].chunks, 3050).value;
    var t3 := ReuseTo(t2, PagesOf(l, SetUp(), five), h5, DoMalloc(MAIN, 3050), MAIN, 3050, 9, 2, 3, offset, Asked());
    assert Created()[MAIN := Asked()] == PagesOf(l, SetUp(), Asked());
    run := [tb, t1, t2, t3];
  }

  lemma ThirdPage()
    ensures Rank([M(1), M(2), M(3), T(1), T(2), T(3), M(4), L(), M(5)], MAIN, 3) == 3
  {
    var hs := [M(1), M(2), M(3), T(1), T(2), T(3), M(4), L(), M(5)];
    assert Rank(hs, MAIN, 1) == 1;
  }

  lemma NestedRun(tb: Table, v: byte) returns (run: seq<Table>)
    requires Guarded(tb, MAIN)
    requires State(tb, Created()[MAIN := Asked()], [M(1), M(2), M(3), T(1), T(2), T(3), M(4), L(), M(5)])
    ensures IsRun(run, Nesting(v)) && run[0] == tb
    ensures Sized(run[1]) && TableHeap.Malloc(run[1], MAIN, 70).1 == Address(INNER)
  {
    hide State, Guarded, Apply, Proper, Filled, PagesOf, TableHeap.Malloc, ChunkList.AllocAddr, CarveIn, InPayload,
         Rank, Taken, ChunkList.Extent, AllocIn;
    Usages([CONTEXT_SIZE, 3050], 60);
    Usages([4000], 84);
    var l := [Filled([TCB_SIZE, NODE_SIZE, NODE_SIZE, TCB_SIZE], 3906)];
    PagesUpdate(l, SetUp(), SetUp());
    PagesUpdate(l, SetUp(), Asked());
    AddressOf(4, 6);
    FifthHolds();
    var ps, hs := PagesOf(l, SetUp(), Asked()), [M(1), M(2), M(3), T(1), T(2), T(3), M(4), L(), M(5)];
    var to := [M(1), M(2), M(3), T(1), M(5), T(3), M(4), L(), FREE, T(2)];
    var t1 := WriteTo(tb, ps, hs, MAIN, 9, 4, 8, PageAlloc.VirtualAddress(5, 6), v, to);
    FilledServes([4000], 84, 70);
    FourthInOrder();
    var pages := CarveIn(Heap(Asked(), 0), 5, 4, 70).pages;
    var t2 := ReuseTo(t1, ps, to, DoMalloc(MAIN, 70), MAIN, 70, 8, 4, 4, 4012, pages);
    run := [tb, t1, t2];
  }

  /** The fifth page is the fourth in slot order; its free bytes begin at 4012. */
  lemma FourthInOrder()
    ensures Rank([M(1), M(2), M(3), T(1), M(5), T(3), M(4), L(), FREE, T(2)], MAIN, 5) == 4
    ensures ChunkList.Extent(Taken([4000])) == 4006
  {
    var hs := [M(1), M(2), M(3), T(1), M(5), T(3), M(4), L(), FREE, T(2)];
    assert Rank(hs, MAIN, 1) == 1;
    assert Rank(hs, MAIN, 3) == 3;
    assert Rank(hs, MAIN, 4) == 3;
    ChunkListLemmas.Single(ChunkList.Chunk(false, 4000), 0);
    assert Taken([4000]) == [ChunkList.Chunk(false, 4000)];
  }

  lemma FifthHolds()
    ensures InPayload(Heap(Asked(), 0), PageAlloc.VirtualAddress(5, 6))
  {
    AddressOf(4, 6);
    var cs := Asked()[4].chunks;
    assert cs[..0] == [];
    assert ChunkHolds(cs, 0, 6);
  }

  /** The main thread is given a block of 70 bytes inside the block of 4085 bytes
      that it holds.  Its fifth page lies before its fourth, so the search leaves
      4 as the index of the fifth; the chunk is carved there, and the address is
      on the fourth page. */
  lemma BlockInsideBlock(tb: Table, v: byte) returns (run: seq<Table>)
    requires Empty(tb)
    ensures IsRun(run, FirstCreate() + Asking() + Nesting(v)) && run[0] == tb
    ensures Sized(run[16]) && TableHeap.Malloc(run[16], MAIN, 4085).1 == Address(OUTER)
    ensures Sized(run[20]) && TableHeap.Malloc(run[20], MAIN, 70).1 == Address(INNER)
    ensures OUTER < INNER && INNER + 70 <= OUTER + 4085
  {
    hide State, Guarded, TableHeap.Malloc, Empty, Created, InFront, Asked, FirstCreate;
    var r := FirstCreateRun(tb);
    var u := AskedRun(r[16]);
    var w := NestedRun(u[3], v);
    JoinRuns(r, FirstCreate(), u, Asking());
    JoinRuns(r + u[1..], FirstCreate() + Asking(), w, Nesting(v));
    run := r + u[1..] + w[1..];
  }

  // ----- a free that releases nothing -----

  /** The main thread asks for four blocks that take a page each; writes to the
      first, which brings that page into its slot and leaves the slot where it was
      free; and asks for another, whose page goes there, before its own slot. */
  function Crowding(v: byte): seq<Op> {
    Four() + [DoAccess(MAIN, Write(PageAlloc.VirtualAddress(4, 6), v)), DoMalloc(MAIN, 4085)]
  }

  function Four(): seq<Op> {
    [DoMalloc(MAIN, 4085), DoMalloc(MAIN, 4085), DoMalloc(MAIN, 4085), DoMalloc(MAIN, 4085)]
  }

  /** The main thread's pages with n of them taken whole. */
  function Wholes(n: nat): (r: seq<PageHeap>)
    ensures |r| == n + 3
  {
    SetUp() + seq(n, _ => Whole())
  }

  lemma WholesAre(n: nat)
    ensures Wholes(0) == SetUp() && Wholes(n) + [Whole()] == Wholes(n + 1)
    ensures forall k | 0 <= k < n + 3 :: Wholes(n)[k].usage < 4085
    ensures forall k | 3 <= k < n + 3 :: Wholes(n)[k] == Whole()
  {
    hide Filled;
    Usages([CONTEXT_SIZE], 3116);
  }

  /** One more page for the main thread. */
  lemma WholeTo(tb: Table, l: seq<PageHeap>, n: nat, hs: seq<Head>, f: nat, to: seq<Head>) returns (r: Table)
    requires FirstHole(hs, f) && |hs| < 20 && n < 10 && to == Put(hs, f, M(n + 4))
    requires State(tb, PagesOf(l, SetUp(), Wholes(n)), hs)
    ensures Sized(tb) && TableHeap.Malloc(tb, MAIN, 4085).1 == Address(PageAlloc.VirtualAddress(n + 4, 6))
    ensures Proper(tb, DoMalloc(MAIN, 4085)) && r == Apply(tb, DoMalloc(MAIN, 4085))
    ensures State(r, PagesOf(l, SetUp(), Wholes(n + 1)), to) && Guarded(r, MAIN)
  {
    hide State, Guarded, Apply, Proper, AllocIn, NewPage, Filled, PagesOf, TableHeap.Malloc, Wholes, FirstHole, Put,
         Whole;
    NewPagesAre();
    WholesAre(n);
    PagesUpdate(l, SetUp(), Wholes(n));
    r := FreshTo(tb, PagesOf(l, SetUp(), Wholes(n)), hs, DoMalloc(MAIN, 4085), MAIN, 4085, f, Whole(), to);
  }

  lemma FourRun(tb: Table, l: seq<PageHeap>) returns (run: seq<Table>)
    requires State(tb, PagesOf(l, SetUp(), SetUp()), InFront())
    ensures IsRun(run, Four()) && run[0] == tb && Guarded(run[4], MAIN)
    ensures Sized(run[3]) && TableHeap.Malloc(run[3], MAIN, 4085).1 == Address(PageAlloc.VirtualAddress(7, 6))
    ensures State(run[4], PagesOf(l, SetUp(), Wholes(4)),
                  [M(1), M(2), M(3), T(1), T(2), T(3), M(4), L(), M(5), M(6), M(7)])
  {
    hide State, Guarded, Apply, Proper, PagesOf, TableHeap.Malloc, Wholes, PageAlloc.VirtualAddress, SetUp;
    WholesAre(0);
    var a := [M(1), M(2), M(3), T(1), T(2), T(3), M(4), L()];
    var b, c := a + [M(5)], a + [M(5), M(6)];
    var t1 := WholeTo(tb, l, 0, InFront(), 6, a);
    var t2 := WholeTo(t1, l, 1, a, 8, b);
    var t3 := WholeTo(t2, l, 2, b, 9, c);
    var t4 := WholeTo(t3, l, 3, c, 10, [M(1), M(2), M(3), T(1), T(2), T(3), M(4), L(), M(5), M(6), M(7)]);
    run := [tb, t1, t2, t3, t4];
  }

  lemma WriteThenMalloc(tb: Table, l: seq<PageHeap>, v: byte) returns (run: seq<Table>)
    requires Guarded(tb, MAIN)
    requires State(tb, PagesOf(l, SetUp(), Wholes(4)),
                   [M(1), M(2), M(3), T(1), T(2), T(3), M(4), L(), M(5), M(6), M(7)])
    ensures IsRun(run, [DoAccess(MAIN, Write(PageAlloc.VirtualAddress(4, 6), v)), DoMalloc(MAIN, 4085)])
    ensures run[0] == tb && State(run[2], PagesOf(l, SetUp(), Wholes(5)), Crowded())
  {
    hide State, Guarded, Apply, Proper, PagesOf, TableHeap.Malloc, Wholes, PageAlloc.VirtualAddress, InPayload, SetUp;
    WholeHolds(4, 4);
    AddressOf(3, 6);
    PagesUpdate(l, SetUp(), Wholes(4));
    var hs := [M(1), M(2), M(3), T(1), T(2), T(3), M(4), L(), M(5), M(6), M(7)];
    var to := [M(1), M(2), M(3), M(4), T(2), T(3), FREE, L(), M(5), M(6), M(7), T(1)];
    var t1 := WriteTo(tb, PagesOf(l, SetUp(), Wholes(4)), hs, MAIN, 11, 3, 6, PageAlloc.VirtualAddress(4, 6), v, to);
    var t2 := WholeTo(t1, l, 4, to, 6, Crowded());
    run := [tb, t1, t2];
  }

  function Crowded(): seq<Head> {
    [M(1), M(2), M(3), M(4), T(2), T(3), M(8), L(), M(5), M(6), M(7), T(1)]
  }

  /** A page taken whole holds one block, which is live. */
  lemma WholeHolds(n: nat, k: nat)
    requires 4 <= k <= n + 3
    ensures var h, addr := Heap(Wholes(n), 0), PageAlloc.VirtualAddress(k, 6);
      InPayload(h, addr) && Mapped(h, addr) && IsLive(h, ChunkList.Block(addr, 4090))
  {
    hide Filled;
    WholesAre(n);
    AddressOf(k - 1, 6);
    AddressOf(k - 1, 0);
    var h, cs := Heap(Wholes(n), 0), Whole().chunks;
    assert h.pages[k - 1] == Whole();
    assert cs[..0] == [];
    assert ChunkHolds(cs, 0, 6);
    ChunkListLemmas.Single(cs[0], 0);
    assert LiveIn(h, k - 1, ChunkList.Block(PageAlloc.VirtualAddress(k, 6), 4090));
  }

  /** The load passes page 7 over, because its slot holds page 8. */
  lemma CrowdedLoad(tb: Table)
    requires Lays(tb, Crowded())
    ensures Sized(tb) && !InItsSlot(Load(tb, MAIN), MAIN, 7)
  {
    hide Lays, Scan, StackScan, Unlock, HeadAt;
    Unlocked(tb, Crowded());
    var u0 := Unlock(tb);
    var a := [M(1), M(2), M(3), M(4), M(5), T(3), M(8), L(), FREE, M(6), M(7), T(1), T(2)];
    var b := [M(1), M(2), M(3), M(4), M(5), M(6), M(8), L(), T(3), FREE, M(7), T(1), T(2)];
    var c := [M(1), M(2), M(3), M(4), M(5), M(6), FREE, M(8), T(3), L(), M(7), T(1), T(2)];
    LoadPasses(u0, Crowded(), MAIN, 1, 0, 12);
    LoadPasses(u0, Crowded(), MAIN, 2, 1, 12);
    LoadPasses(u0, Crowded(), MAIN, 3, 1, 12);
    LoadPasses(u0, Crowded(), MAIN, 4, 1, 12);
    var u1 := LoadMoves(u0, Crowded(), MAIN, 5, 1, 12, 8, a);
    var u2 := LoadMoves(u1, a, MAIN, 6, 1, 8, 9, b);
    LoadPasses(u2, b, MAIN, 7, 1, 9);
    var u3 := LoadMoves(u2, b, MAIN, 8, 1, 9, 6, c);
    LoadEnds(u3, c, MAIN, 9, 6);
    SeventhOut(u3, c);
  }

  lemma SeventhOut(tb: Table, hs: seq<Head>)
    requires Lays(tb, hs) && |hs| > 6 && hs[6] == FREE
    ensures !InItsSlot(tb, MAIN, 7)
  {
    HeadIn(tb, hs, RESERVED_PAGES + 6);
  }

  /** The main thread frees a block that it holds, and nothing is released: its
      page's slot holds a later page, so that the load leaves the page where it
      was, and the pointer is out of the page's range. */
  lemma FreeReleasesNothing(tb: Table, v: byte) returns (run: seq<Table>, h: Heap)
    requires Empty(tb)
    ensures IsRun(run, FirstCreate() + Crowding(v)) && run[0] == tb
    ensures Sized(run[19]) && TableHeap.Malloc(run[19], MAIN, 4085).1 == Address(PageAlloc.VirtualAddress(7, 6))
    ensures var u, addr := run[22], PageAlloc.VirtualAddress(7, 6);
      && Represents(u, MAIN, h) && IsLive(h, ChunkList.Block(addr, 4090))
      && Sized(u) && !InItsSlot(Load(u, MAIN), MAIN, 7)
      && Free(u, MAIN, addr).Some? && Represents(Free(u, MAIN, addr).value, MAIN, h)
  {
    hide State, Guarded, TableHeap.Malloc, Empty, InFront, FirstCreate, Filled, PagesOf, Wholes, SetUp, Represents,
         Free, Load, InItsSlot, IsLive, Mapped, InPayload, PageAlloc.VirtualAddress, Crowded, Lays, Ok, FirstHole,
         PageCount, Inv;
    var l := [Filled([TCB_SIZE, NODE_SIZE, NODE_SIZE, TCB_SIZE], 3906)];
    var r := FirstCreateRun(tb);
    var u := FourRun(r[16], l);
    var w := WriteThenMalloc(u[4], l, v);
    var tail := [DoAccess(MAIN, Write(PageAlloc.VirtualAddress(4, 6), v)), DoMalloc(MAIN, 4085)];
    JoinRuns(u, Four(), w, tail);
    JoinRuns(r, FirstCreate(), u + w[1..], Crowding(v));
    run := r + (u + w[1..])[1..];
    h := FreeFails(w[2], l);
  }

  lemma FreeFails(tb: Table, l: seq<PageHeap>) returns (h: Heap)
    requires State(tb, PagesOf(l, SetUp(), Wholes(5)), Crowded())
    ensures var addr := PageAlloc.VirtualAddress(7, 6);
      && Represents(tb, MAIN, h) && IsLive(h, ChunkList.Block(addr, 4090))
      && Sized(tb) && !InItsSlot(Load(tb, MAIN), MAIN, 7)
      && Free(tb, MAIN, addr).Some? && Represents(Free(tb, MAIN, addr).value, MAIN, h)
  {
    hide State, PagesOf, Wholes, Represents, Free, Load, InItsSlot, IsLive, InPayload, Lays, Ok, PageCount, Inv,
         FirstHole;
    var addr := PageAlloc.VirtualAddress(7, 6);
    PagesUpdate(l, SetUp(), Wholes(5));
    StateHas(tb, PagesOf(l, SetUp(), Wholes(5)), Crowded(), MAIN);
    HasIs(tb, MAIN, Wholes(5));
    FirstFreeAt(tb, Crowded(), 12);
    CrowdedLoad(tb);
    WholeHolds(5, 7);
    AddressOf(6, 6);
    h := Heap(Wholes(5), Room(tb, MAIN));
    LiveAnyRoom(Wholes(5), h.room, ChunkList.Block(addr, 4090));
    FreeIs(tb, MAIN, h, addr);
  }

  lemma LiveAnyRoom(pages: seq<PageHeap>, room: nat, b: ChunkList.Block)
    requires IsLive(Heap(pages, 0), b)
    ensures IsLive(Heap(pages, room), b)
  {
    var i :| LiveIn(Heap(pages, 0), i, b);
    assert LiveIn(Heap(pages, room), i, b);
  }
}
