/** The page table: 2048 slots of memory, each with a page header saying which
    thread owns the page in it and which of the thread's pages it is.

    A thread addresses its page k at slot 6+k-1, wherever the page really sits;
    the fault handler and the loaders move pages between slots. */
module PageTable {
  import opened Options
  import opened HeaderBytes

  const TOTAL_PAGES: nat := 2048
  const RESERVED_PAGES: nat := 6
  const SCHEDULER_PAGE_START: nat := 2041
  const HEAP_SIZE: nat := TOTAL_PAGES * PAGE_SIZE

  type Page = p: seq<byte> | |p| == PAGE_SIZE witness seq(PAGE_SIZE, _ => 0)

  /** The page header `page_header_t`. */
  datatype Meta = Meta(thread: int, num: int, usage: int, loc: int, span: int)

  /** The slots' headers, their pages, and which of them are protected. */
  datatype Table = Table(meta: seq<Meta>, pages: seq<Page>, locked: seq<bool>)

  /** A page as its owner sees it, independent of the slot it sits in. */
  datatype Content = Content(page: Page, usage: int, span: int)

  // ----- well-formed tables -----

  predicate Sized(tb: Table) {
    |tb.meta| == |tb.pages| == |tb.locked| == TOTAL_PAGES
  }

  /** A header cleared by `memset`, then given its location. */
  function Cleared(loc: int): Meta {
    Meta(0, 0, 0, loc, 0)
  }

  /** A slot that has held a page: its header names it. */
  predicate Touched(meta: seq<Meta>, i: nat)
    requires i < |meta|
  {
    meta[i].loc == i
  }

  /** Slots for pages; the others hold the table itself, the scheduler's pages
      and the shared region. */
  predicate PageSlot(i: int) {
    RESERVED_PAGES <= i < SCHEDULER_PAGE_START
  }

  predicate Owned(meta: seq<Meta>, i: int) {
    PageSlot(i) && i < |meta| && meta[i].thread != 0
  }

  /** Ids that may own page slots: not free (0), not the reserved slots' -1, and
      not the owners of the fixed slots at the end. */
  predicate ThreadId(t: int) {
    t != 0 && t != -1 && t != 1 && t != -5
  }

  /** Owner of the thread library's own pages. */
  const LIBRARY_ID: int := -3

  /** Page k of thread t sits in slot i. */
  predicate Holds(tb: Table, i: int, t: int, k: int) {
    PageSlot(i) && i < |tb.meta| && tb.meta[i].thread == t && tb.meta[i].num == k
  }

  /** How many of the page slots below `hi` have owner t; free slots have owner 0. */
  function Count(meta: seq<Meta>, t: int, hi: nat): nat
    requires hi <= |meta|
  {
    if hi <= RESERVED_PAGES then 0
    else Count(meta, t, hi - 1) + if meta[hi - 1].thread == t then 1 else 0
  }

  function PageCount(tb: Table, t: int): nat
    requires Sized(tb)
  {
    Count(tb.meta, t, SCHEDULER_PAGE_START)
  }

  ghost predicate HasFreeSlot(tb: Table) {
    exists i | PageSlot(i) && i < |tb.meta| :: tb.meta[i].thread == 0
  }

  /** The layout of the headers: the reserved and the fixed slots, and the
      touched slots as a prefix of the page slots. */
  ghost predicate Layout(meta: seq<Meta>) {
    && |meta| == TOTAL_PAGES
    && (forall i | 0 <= i < RESERVED_PAGES :: meta[i].thread == -1 && meta[i].loc == i)
    && (forall i | SCHEDULER_PAGE_START <= i < TOTAL_PAGES ::
          !ThreadId(meta[i].thread) && (meta[i].loc == i || meta[i].loc == 0))
    && (forall i | RESERVED_PAGES <= i < SCHEDULER_PAGE_START :: Touched(meta, i) || meta[i] == Cleared(0))
    && (forall i, j | RESERVED_PAGES <= i < j < SCHEDULER_PAGE_START && Touched(meta, j) :: Touched(meta, i))
    && (forall i | Owned(meta, i) :: ThreadId(meta[i].thread))
  }

  /** No page is in two slots. */
  ghost predicate Unique(tb: Table) {
    forall i, j, t, k | t != 0 && Holds(tb, i, t, k) && Holds(tb, j, t, k) :: i == j
  }

  /** Each thread's pages are numbered 1..n, n being how many it owns. */
  ghost predicate Numbered(tb: Table)
    requires Sized(tb)
  {
    forall t, k | t != 0 :: InTable(tb, t, k) <==> 1 <= k <= PageCount(tb, t)
  }

  ghost predicate InTable(tb: Table, t: int, k: int) {
    exists i :: Holds(tb, i, t, k)
  }

  ghost predicate Inv(tb: Table) {
    Sized(tb) && Layout(tb.meta) && Unique(tb) && Numbered(tb)
  }

  /** The logical memory: what thread t's page k holds, wherever it sits. */
  ghost function PageOf(tb: Table, t: int, k: int): Option<Content>
    requires Sized(tb)
  {
    if InTable(tb, t, k) then
      var i :| Holds(tb, i, t, k);
      Some(Content(tb.pages[i], tb.meta[i].usage, tb.meta[i].span))
    else None
  }

  /** Every thread's every page is the same in both tables. */
  ghost predicate SameMemory(a: Table, b: Table) {
    && Sized(a) && Sized(b)
    && forall t, k | t != 0 :: PageOf(a, t, k) == PageOf(b, t, k)
  }

  /** Page numbers owned and slots owned are the same in both tables. */
  ghost predicate SameCounts(a: Table, b: Table) {
    Sized(a) && Sized(b) && forall t :: PageCount(a, t) == PageCount(b, t)
  }

  // ----- searches -----

  /** The lowest slot below `end`, from `from` on, that thread t's page k is in. */
  function FindPage(meta: seq<Meta>, t: int, k: int, from: nat, end: nat): (r: nat)
    requires from <= end <= |meta|
    ensures from <= r <= end
    ensures r < end ==> meta[r].thread == t && meta[r].num == k
    ensures forall i | from <= i < r :: !(meta[i].thread == t && meta[i].num == k)
    decreases end - from
  {
    if from == end || (meta[from].thread == t && meta[from].num == k) then from
    else FindPage(meta, t, k, from + 1, end)
  }

  /** The lowest free slot below `end`, from `from` on. */
  function FindFree(meta: seq<Meta>, from: nat, end: nat): (r: nat)
    requires from <= end <= |meta|
    ensures from <= r <= end
    ensures r < end ==> meta[r].thread == 0
    ensures forall i | from <= i < r :: meta[i].thread != 0
    decreases end - from
  {
    if from == end || meta[from].thread == 0 then from
    else FindFree(meta, from + 1, end)
  }

  function FirstFree(meta: seq<Meta>): (r: nat)
    requires |meta| == TOTAL_PAGES
    ensures r <= SCHEDULER_PAGE_START
  {
    FindFree(meta, 0, SCHEDULER_PAGE_START)
  }

  /** The slot that thread t's page k is in. */
  function SlotOf(tb: Table, t: int, k: int): (r: nat)
    requires Sized(tb)
    ensures r <= SCHEDULER_PAGE_START
  {
    FindPage(tb.meta, t, k, 0, SCHEDULER_PAGE_START)
  }

  // ----- moving pages -----

  function Unlock(tb: Table): Table {
    tb.(locked := seq(|tb.locked|, _ => false))
  }

  /** No slot is protected. */
  ghost predicate Open(tb: Table) {
    Sized(tb) && forall i | 0 <= i < TOTAL_PAGES :: !tb.locked[i]
  }

  /** Protects every page slot that thread t does not own, and nothing else. */
  function LockAllBut(tb: Table, t: int): Table
    requires Sized(tb)
  {
    tb.(locked := seq(TOTAL_PAGES, i requires 0 <= i < TOTAL_PAGES => PageSlot(i) && tb.meta[i].thread != t))
  }

  /** Moves the page in slot `src` to the empty slot `dst`; the bytes left
      behind stay, the header left behind is cleared. */
  function Relocate(tb: Table, src: nat, dst: nat): Table
    requires Sized(tb) && src < TOTAL_PAGES && dst < TOTAL_PAGES
  {
    tb.(pages := tb.pages[dst := tb.pages[src]],
        meta := tb.meta[dst := tb.meta[src].(loc := dst)][src := Cleared(src)])
  }

  /** `swapPages`: puts the page in slot `src` into slot `target`, moving the
      page that is there, if any, to the first free slot. */
  function Swap(tb: Table, target: nat, src: nat): (r: Table)
    requires Sized(tb) && target < TOTAL_PAGES && src < TOTAL_PAGES
    requires FirstFree(tb.meta) < SCHEDULER_PAGE_START
    ensures Sized(r)
  {
    var u := Unlock(tb);
    if src == target then u
    else if tb.meta[target].thread != 0
    then Relocate(Relocate(u, target, FirstFree(tb.meta)), src, target)
    else Relocate(u, src, target)
  }
}
