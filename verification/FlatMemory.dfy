/** A thread's time slice: its reads and writes, with page faults served by the
    handler, behave like reads and writes of one private flat memory. */
module FlatMemory {
  import opened Options
  import opened HeaderBytes
  import opened PageTable
  import opened PageTableLemmas

  const BASE: nat := RESERVED_PAGES * PAGE_SIZE

  datatype Access = Read(addr: nat) | Write(addr: nat, value: byte)

  // ----- what the program does -----

  /** The page-fault handler for thread t: None when the process exits, because
      the address is outside the array or the thread has no such page. */
  function Fault(tb: Table, t: int, addr: nat): (r: Option<Table>)
    requires Sized(tb) && FirstFree(tb.meta) < SCHEDULER_PAGE_START
    ensures r.Some? ==> Sized(r.value)
  {
    if addr < RESERVED_PAGES + 1 || addr >= HEAP_SIZE then None
    else
      var slot := addr / PAGE_SIZE;
      var src := SlotOf(tb, t, slot - RESERVED_PAGES + 1);
      if src == SCHEDULER_PAGE_START then None
      else Some(LockAllBut(Swap(tb, slot, src), t))
  }

  /** One access: straight to the slot when it is not protected, through the
      handler and then to the slot when it is. */
  function Step(tb: Table, t: int, a: Access): (r: Option<(Table, byte)>)
    requires Sized(tb) && FirstFree(tb.meta) < SCHEDULER_PAGE_START
    requires a.addr < HEAP_SIZE
    ensures r.Some? ==> Sized(r.value.0)
  {
    var slot, off := a.addr / PAGE_SIZE, a.addr % PAGE_SIZE;
    var ready := if tb.locked[slot] then Fault(tb, t, a.addr) else Some(tb);
    match ready
    case None => None
    case Some(u) =>
      match a
      case Read(_) => Some((u, u.pages[slot][off]))
      case Write(_, v) => Some((Poke(u, slot, off, v), v))
  }

  function Poke(u: Table, slot: nat, off: nat, v: byte): Table
    requires Sized(u) && slot < TOTAL_PAGES && off < PAGE_SIZE
  {
    u.(pages := u.pages[slot := u.pages[slot][off := v]])
  }

  /** The slots of the others, and only they, are protected. */
  ghost predicate Guarded(tb: Table, t: int) {
    Sized(tb) && tb.locked == LockAllBut(tb, t).locked
  }

  /** The state in which the scheduler hands the processor to thread t. */
  ghost predicate InSlice(tb: Table, t: int) {
    && Inv(tb) && HasFreeSlot(tb) && ThreadId(t)
    && Guarded(tb, t) && InPlace(tb, t)
  }

  /** A page of t that lies within t's address range lies where t addresses it. */
  ghost predicate InPlace(tb: Table, t: int)
    requires Sized(tb)
  {
    forall i | RESERVED_PAGES <= i < RESERVED_PAGES + PageCount(tb, t) && PageSlot(i) && tb.meta[i].thread == t ::
      tb.meta[i].num == i - RESERVED_PAGES + 1
  }

  ghost predicate InRange(tb: Table, t: int, addr: nat)
    requires Sized(tb)
  {
    BASE <= addr < BASE + PageCount(tb, t) * PAGE_SIZE
  }

  /** Runs a sequence of accesses; the bytes are those read or written. */
  ghost function Exec(tb: Table, t: int, ops: seq<Access>): Option<(Table, seq<byte>)>
    requires Sized(tb)
    decreases |ops|
  {
    if ops == [] then Some((tb, []))
    else if FirstFree(tb.meta) >= SCHEDULER_PAGE_START || ops[0].addr >= HEAP_SIZE then None
    else
      match Step(tb, t, ops[0])
      case None => None
      case Some((u, b)) =>
        match Exec(u, t, ops[1..])
        case None => None
        case Some((v, bs)) => Some((v, [b] + bs))
  }

  // ----- what it means -----

  /** Byte j of thread t's memory, its pages laid end to end. */
  ghost function FlatByte(tb: Table, t: int, j: nat): byte
    requires Sized(tb)
  {
    match PageOf(tb, t, j / PAGE_SIZE + 1)
    case Some(c) => c.page[j % PAGE_SIZE]
    case None => 0
  }

  ghost function FlatMem(tb: Table, t: int): (mem: seq<byte>)
    requires Sized(tb)
    ensures |mem| == PageCount(tb, t) * PAGE_SIZE
  {
    seq(PageCount(tb, t) * PAGE_SIZE, j requires j >= 0 => FlatByte(tb, t, j))
  }

  function Fetch(mem: seq<byte>, addr: nat): byte {
    if BASE <= addr < BASE + |mem| then mem[addr - BASE] else 0
  }

  function Store(mem: seq<byte>, a: Access): seq<byte> {
    if a.Write? && BASE <= a.addr < BASE + |mem| then mem[a.addr - BASE := a.value] else mem
  }

  function StoreAll(mem: seq<byte>, ops: seq<Access>): (r: seq<byte>)
    ensures |r| == |mem|
    decreases |ops|
  {
    if ops == [] then mem else StoreAll(Store(mem, ops[0]), ops[1..])
  }

  /** The byte that address `addr` holds after the first i accesses: the last
      one written to it, or the one that was there at the start. */
  function LastWritten(mem: seq<byte>, ops: seq<Access>, i: nat, addr: nat): byte
    requires i <= |ops|
  {
    if i == 0 then Fetch(mem, addr)
    else if ops[i - 1].Write? && ops[i - 1].addr == addr then ops[i - 1].value
    else LastWritten(mem, ops, i - 1, addr)
  }

  // ----- one access -----

  lemma SlotOfAddress(tb: Table, t: int, addr: nat)
    requires InSlice(tb, t) && InRange(tb, t, addr)
    ensures var slot := addr / PAGE_SIZE;
      && PageSlot(slot) && Touched(tb.meta, slot) && addr < HEAP_SIZE
      && slot < RESERVED_PAGES + PageCount(tb, t)
      && InTable(tb, t, slot - RESERVED_PAGES + 1)
  {
    var slot := addr / PAGE_SIZE;
    assert RESERVED_PAGES <= slot < RESERVED_PAGES + PageCount(tb, t);
    RangeIsTouched(tb, t, slot);
  }

  lemma LockKeepsSlice(tb: Table, t: int)
    requires Inv(tb) && HasFreeSlot(tb) && ThreadId(t) && InPlace(tb, t)
    ensures InSlice(LockAllBut(tb, t), t)
    ensures SameMemory(tb, LockAllBut(tb, t)) && SameCounts(tb, LockAllBut(tb, t))
  {
    LockingKeeps(tb, LockAllBut(tb, t));
    var i :| PageSlot(i) && tb.meta[i].thread == 0;
    assert LockAllBut(tb, t).meta[i].thread == 0;
  }

  lemma SwapKeepsInPlace(tb: Table, t: int, target: nat, src: nat)
    requires Inv(tb) && HasFreeSlot(tb) && ThreadId(t) && InPlace(tb, t)
    requires Owned(tb.meta, src) && tb.meta[src].thread == t
    requires PageSlot(target) && Touched(tb.meta, target)
    requires tb.meta[src].num == target - RESERVED_PAGES + 1
    requires target < RESERVED_PAGES + PageCount(tb, t)
    ensures FirstFree(tb.meta) < SCHEDULER_PAGE_START && InPlace(Swap(tb, target, src), t)
  {
    SwapKeeps(tb, target, src);
    FirstFreeIs(tb);
    var r := Swap(tb, target, src);
    assert PageCount(r, t) == PageCount(tb, t);
    assert Holds(tb, src, t, tb.meta[src].num);
    assert tb.meta[target].thread == t ==> Holds(tb, target, t, tb.meta[src].num);
    forall i | RESERVED_PAGES <= i < RESERVED_PAGES + PageCount(r, t) && PageSlot(i) && r.meta[i].thread == t
      ensures r.meta[i].num == i - RESERVED_PAGES + 1
    {
      SwapMoves(tb, target, src, i, t, r.meta[i].num);
    }
  }

  /** The handler puts the page that was addressed into the slot that was
      addressed, opens it, and changes no thread's memory. */
  lemma FaultServes(tb: Table, t: int, addr: nat)
    requires InSlice(tb, t) && InRange(tb, t, addr)
    ensures FirstFree(tb.meta) < SCHEDULER_PAGE_START
    ensures Fault(tb, t, addr).Some?
    ensures var u := Fault(tb, t, addr).value;
      && InSlice(u, t) && SameMemory(tb, u) && SameCounts(tb, u)
      && PageSlot(addr / PAGE_SIZE)
      && u.meta[addr / PAGE_SIZE].thread == t && !u.locked[addr / PAGE_SIZE]
  {
    SlotOfAddress(tb, t, addr);
    var slot := addr / PAGE_SIZE;
    var k := slot - RESERVED_PAGES + 1;
    var i :| Holds(tb, i, t, k);
    SlotOfIs(tb, i, t, k);
    SwapKeeps(tb, slot, i);
    SwapKeepsInPlace(tb, t, slot, i);
    var r := Swap(tb, slot, i);
    LockKeepsSlice(r, t);
    SameTransitive(tb, r, LockAllBut(r, t));
  }

  lemma SameTransitive(a: Table, b: Table, c: Table)
    requires SameMemory(a, b) && SameCounts(a, b) && SameMemory(b, c) && SameCounts(b, c)
    ensures SameMemory(a, c) && SameCounts(a, c)
  {
    hide PageOf, PageCount;
  }

  /** The table after the fault, if there was one. */
  ghost function Ready(tb: Table, t: int, addr: nat): Table
    requires InSlice(tb, t) && InRange(tb, t, addr)
  {
    FaultServes(tb, t, addr);
    SlotOfAddress(tb, t, addr);
    if tb.locked[addr / PAGE_SIZE] then Fault(tb, t, addr).value else tb
  }

  lemma ReadyIs(tb: Table, t: int, addr: nat)
    requires InSlice(tb, t) && InRange(tb, t, addr)
    ensures var u, slot := Ready(tb, t, addr), addr / PAGE_SIZE;
      && InSlice(u, t) && SameMemory(tb, u) && SameCounts(tb, u)
      && Holds(u, slot, t, slot - RESERVED_PAGES + 1)
  {
    FaultServes(tb, t, addr);
    SlotOfAddress(tb, t, addr);
  }

  lemma FlatByteIs(tb: Table, t: int, slot: nat, off: nat)
    requires Inv(tb) && t != 0 && Holds(tb, slot, t, slot - RESERVED_PAGES + 1) && off < PAGE_SIZE
    ensures FlatByte(tb, t, (slot - RESERVED_PAGES) * PAGE_SIZE + off) == tb.pages[slot][off]
  {
    PageOfIs(tb, slot, t, slot - RESERVED_PAGES + 1);
  }

  lemma SameFlat(a: Table, b: Table, t: int)
    requires SameMemory(a, b) && SameCounts(a, b) && t != 0
    ensures FlatMem(a, t) == FlatMem(b, t)
  {
    hide PageOf, PageCount;
    assert forall j: nat :: FlatByte(a, t, j) == FlatByte(b, t, j);
  }

  /** One byte of the page in `slot` overwritten: that byte of that page changes,
      for its owner, and nothing else. */
  lemma PokeChanges(tb: Table, slot: nat, off: nat, v: byte)
    requires Inv(tb) && Owned(tb.meta, slot) && off < PAGE_SIZE
    ensures var r, t, m := Poke(tb, slot, off, v), tb.meta[slot].thread, tb.meta[slot].num;
      && Inv(r) && SameCounts(tb, r) && r.meta == tb.meta && r.locked == tb.locked
      && (forall t', k | t' != 0 && !(t' == t && k == m) :: PageOf(r, t', k) == PageOf(tb, t', k))
      && PageOf(tb, t, m).Some?
      && PageOf(r, t, m) == Some(PageOf(tb, t, m).value.(page := tb.pages[slot][off := v]))
  {
    var r, t, m := Poke(tb, slot, off, v), tb.meta[slot].thread, tb.meta[slot].num;
    forall i, t', k ensures Holds(tb, i, t', k) <==> Holds(r, i, t', k) {}
    assert Unique(r);
    forall t', k ensures InTable(tb, t', k) <==> InTable(r, t', k) {
      if InTable(tb, t', k) { var i :| Holds(tb, i, t', k); assert Holds(r, i, t', k); }
      if InTable(r, t', k) { var i :| Holds(r, i, t', k); assert Holds(tb, i, t', k); }
    }
    forall t', k | t' != 0 && !(t' == t && k == m) ensures PageOf(r, t', k) == PageOf(tb, t', k) {
      if InTable(tb, t', k) {
        var i :| Holds(tb, i, t', k);
        PageOfIs(tb, i, t', k);
        PageOfIs(r, i, t', k);
      }
    }
    assert Holds(tb, slot, t, m) && Holds(r, slot, t, m);
    PageOfIs(tb, slot, t, m);
    PageOfIs(r, slot, t, m);
  }

  /** In a slice, the slice goes on. */
  lemma PokeKeeps(tb: Table, slot: nat, off: nat, v: byte, t: int)
    requires InSlice(tb, t) && PageSlot(slot) && off < PAGE_SIZE && tb.meta[slot].thread == t
    ensures var r := tb.(pages := tb.pages[slot := tb.pages[slot][off := v]]);
      && InSlice(r, t) && SameCounts(tb, r)
      && (forall t', k | t' != 0 && !(t' == t && k == tb.meta[slot].num) :: PageOf(r, t', k) == PageOf(tb, t', k))
      && PageOf(tb, t, tb.meta[slot].num).Some?
      && PageOf(r, t, tb.meta[slot].num)
           == Some(PageOf(tb, t, tb.meta[slot].num).value.(page := tb.pages[slot][off := v]))
  {
    PokeChanges(tb, slot, off, v);
  }

  /** Other threads' memory is the same in both tables. */
  ghost predicate OthersSame(a: Table, b: Table, t: int) {
    && Sized(a) && Sized(b)
    && forall t', k | t' != 0 && t' != t :: PageOf(a, t', k) == PageOf(b, t', k)
  }

  /** One access to thread t's own range never fails, reads or writes the byte
      of the flat memory, and leaves every other thread's memory alone. */
  lemma StepIsFlat(tb: Table, t: int, a: Access)
    requires InSlice(tb, t) && InRange(tb, t, a.addr)
    ensures FirstFree(tb.meta) < SCHEDULER_PAGE_START && a.addr < HEAP_SIZE
    ensures Step(tb, t, a).Some?
    ensures var (r, b) := Step(tb, t, a).value;
      && InSlice(r, t) && SameCounts(tb, r) && OthersSame(tb, r, t)
      && FlatMem(r, t) == Store(FlatMem(tb, t), a)
      && b == if a.Write? then a.value else Fetch(FlatMem(tb, t), a.addr)
  {
    hide Inv, PageOf, FlatMem, PageCount, Swap, LockAllBut, SameMemory, OthersSame, InPlace;
    var slot, off := a.addr / PAGE_SIZE, a.addr % PAGE_SIZE;
    FaultServes(tb, t, a.addr);
    SlotOfAddress(tb, t, a.addr);
    ReadyIs(tb, t, a.addr);
    var u := Ready(tb, t, a.addr);
    SameFlat(tb, u, t);
    AccessReady(u, t, a);
    SameThenOthers(tb, u, if a.Write? then Poke(u, slot, off, a.value) else u, t);
  }

  lemma SameThenOthers(a: Table, b: Table, c: Table, t: int)
    requires SameMemory(a, b) || OthersSame(a, b, t)
    requires SameCounts(a, b)
    requires b == c || (OthersSame(b, c, t) && SameCounts(b, c))
    ensures OthersSame(a, c, t) && SameCounts(a, c)
  {
    hide PageOf, PageCount;
  }

  lemma SameSelf(a: Table, t: int)
    requires InSlice(a, t)
    ensures OthersSame(a, a, t) && SameCounts(a, a)
  {
  }

  /** The access itself, once the right page is in its slot and open. */
  lemma AccessReady(u: Table, t: int, a: Access)
    requires InSlice(u, t) && InRange(u, t, a.addr) && a.addr < HEAP_SIZE
    requires Holds(u, a.addr / PAGE_SIZE, t, a.addr / PAGE_SIZE - RESERVED_PAGES + 1)
    ensures Fetch(FlatMem(u, t), a.addr) == u.pages[a.addr / PAGE_SIZE][a.addr % PAGE_SIZE]
    ensures Store(FlatMem(u, t), Read(a.addr)) == FlatMem(u, t)
    ensures a.Write? ==>
              var r := Poke(u, a.addr / PAGE_SIZE, a.addr % PAGE_SIZE, a.value);
              && InSlice(r, t) && SameCounts(u, r) && OthersSame(u, r, t)
              && FlatMem(r, t) == Store(FlatMem(u, t), a)
  {
    var slot, off := a.addr / PAGE_SIZE, a.addr % PAGE_SIZE;
    FlatByteIs(u, t, slot, off);
    assert a.addr - BASE == (slot - RESERVED_PAGES) * PAGE_SIZE + off;
    if a.Write? {
      PokeKeeps(u, slot, off, a.value, t);
      PokeIsStore(u, Poke(u, slot, off, a.value), t, slot, off, a);
    }
  }

  lemma PokeIsStore(u: Table, r: Table, t: int, slot: nat, off: nat, a: Access)
    requires InSlice(u, t) && Holds(u, slot, t, slot - RESERVED_PAGES + 1) && off < PAGE_SIZE && a.Write?
    requires r == u.(pages := u.pages[slot := u.pages[slot][off := a.value]])
    requires a.addr == slot * PAGE_SIZE + off && InRange(u, t, a.addr)
    ensures FlatMem(r, t) == Store(FlatMem(u, t), a)
  {
    PokeKeeps(u, slot, off, a.value, t);
    PageOfIs(u, slot, t, slot - RESERVED_PAGES + 1);
    var m, n := FlatMem(u, t), FlatMem(r, t);
    assert PageCount(u, t) == PageCount(r, t);
    hide PageOf, InSlice, PageCount;
    forall j | 0 <= j < |n| ensures n[j] == Store(m, a)[j] {
      assert n[j] == FlatByte(r, t, j) && m[j] == FlatByte(u, t, j);
      assert j == (j / PAGE_SIZE) * PAGE_SIZE + j % PAGE_SIZE;
      if j / PAGE_SIZE + 1 == slot - RESERVED_PAGES + 1 {
        assert j == a.addr - BASE <==> j % PAGE_SIZE == off;
      } else {
        assert j != a.addr - BASE;
      }
    }
  }

  // ----- a whole slice -----

  /** For every sequence of accesses to thread t's own range: no access fails;
      every read returns what was last written to its address; the memory left
      is the flat memory with the writes done; no other thread's memory
      changes; and the thread can be resumed in the same way. */
  lemma {:induction false} SliceIsFlatMemory(tb: Table, t: int, ops: seq<Access>)
    requires InSlice(tb, t)
    requires forall i | 0 <= i < |ops| :: InRange(tb, t, ops[i].addr)
    ensures Exec(tb, t, ops).Some?
    ensures var (r, bytes) := Exec(tb, t, ops).value;
      && InSlice(r, t) && SameCounts(tb, r) && OthersSame(tb, r, t)
      && FlatMem(r, t) == StoreAll(FlatMem(tb, t), ops)
      && |bytes| == |ops|
      && forall i | 0 <= i < |ops| && ops[i].Read? ::
           bytes[i] == LastWritten(FlatMem(tb, t), ops, i, ops[i].addr)
    decreases |ops|
  {
    hide InSlice, PageOf, FlatMem, PageCount, Step, OthersSame, SameCounts, Fetch, InPlace;
    SameSelf(tb, t);
    if ops != [] {
      StepIsFlat(tb, t, ops[0]);
      var (u, b) := Step(tb, t, ops[0]).value;
      SliceIsFlatMemory(u, t, ops[1..]);
      var (r, bs) := Exec(u, t, ops[1..]).value;
      SameThenOthers(tb, u, r, t);
      var mem := FlatMem(tb, t);
      forall i | 0 <= i < |ops| && ops[i].Read?
        ensures ([b] + bs)[i] == LastWritten(mem, ops, i, ops[i].addr)
      {
        if i > 0 { LastWrittenTail(mem, ops, i, ops[i].addr); }
      }
    }
  }

  lemma {:induction false} LastWrittenTail(mem: seq<byte>, ops: seq<Access>, i: nat, addr: nat)
    requires 0 < i <= |ops| && BASE <= addr < BASE + |mem|
    ensures LastWritten(mem, ops, i, addr) == LastWritten(Store(mem, ops[0]), ops[1..], i - 1, addr)
    decreases i
  {
    if i > 1 { LastWrittenTail(mem, ops, i - 1, addr); }
  }

  /** Even an access outside the thread's own range, to any page slot, leaves
      every other thread's memory alone: it ends the process or hits a page of
      thread t. */
  lemma StrayAccessStaysHome(tb: Table, t: int, a: Access)
    requires InSlice(tb, t) && PageSlot(a.addr / PAGE_SIZE)
    ensures FirstFree(tb.meta) < SCHEDULER_PAGE_START && a.addr < HEAP_SIZE
    ensures Step(tb, t, a).Some? ==> OthersSame(tb, Step(tb, t, a).value.0, t)
    ensures Step(tb, t, a).None? <==> !InRange(tb, t, a.addr) && tb.meta[a.addr / PAGE_SIZE].thread != t
  {
    FirstFreeIs(tb);
    var slot, off := a.addr / PAGE_SIZE, a.addr % PAGE_SIZE;
    if InRange(tb, t, a.addr) {
      StepIsFlat(tb, t, a);
    } else if tb.locked[slot] {
      SlotOfMissing(tb, t, slot - RESERVED_PAGES + 1);
    } else if a.Write? {
      PokeKeeps(tb, slot, off, a.value, t);
    }
  }

  // ----- the condition is the exact one -----

  /** The access does to the thread's memory what it would do to a flat one. */
  ghost predicate ActsFlat(tb: Table, t: int, a: Access)
    requires Sized(tb) && FirstFree(tb.meta) < SCHEDULER_PAGE_START
  {
    && a.addr < HEAP_SIZE && Step(tb, t, a).Some?
    && FlatMem(Step(tb, t, a).value.0, t) == Store(FlatMem(tb, t), a)
  }

  /** With the protection that `lockAllButThread` leaves, every single write to
      the thread's range acts as on a flat memory exactly when each of its pages
      that lies within the range lies where it is addressed. */
  lemma InPlaceExactly(tb: Table, t: int)
    requires Inv(tb) && HasFreeSlot(tb) && ThreadId(t) && Guarded(tb, t)
    ensures FirstFree(tb.meta) < SCHEDULER_PAGE_START
    ensures (forall a: Access | a.Write? && InRange(tb, t, a.addr) :: ActsFlat(tb, t, a)) <==> InPlace(tb, t)
  {
    hide Step, FlatMem, PageOf, Layout, Unique, Numbered, PageCount;
    FirstFreeIs(tb);
    if InPlace(tb, t) {
      forall a: Access | a.Write? && InRange(tb, t, a.addr) ensures ActsFlat(tb, t, a) {
        StepIsFlat(tb, t, a);
      }
    } else {
      var i :| RESERVED_PAGES <= i < RESERVED_PAGES + PageCount(tb, t) && PageSlot(i) && tb.meta[i].thread == t
               && tb.meta[i].num != i - RESERVED_PAGES + 1;
      WrongPageIsSeen(tb, t, i);
    }
  }

  /** A fresh value written to a slot that holds another page of the thread
      changes another byte of its memory. */
  lemma WrongPageIsSeen(tb: Table, t: int, i: nat)
    requires Inv(tb) && HasFreeSlot(tb) && ThreadId(t) && Guarded(tb, t)
    requires RESERVED_PAGES <= i < RESERVED_PAGES + PageCount(tb, t) && PageSlot(i) && tb.meta[i].thread == t
    requires tb.meta[i].num != i - RESERVED_PAGES + 1
    ensures FirstFree(tb.meta) < SCHEDULER_PAGE_START
    ensures exists a: Access :: a.Write? && InRange(tb, t, a.addr) && !ActsFlat(tb, t, a)
  {
    FirstFreeIs(tb);
    var m := tb.meta[i].num;
    assert Holds(tb, i, t, m) && InTable(tb, t, m);
    var v: byte := if tb.pages[i][0] == 0 then 1 else 0;
    var a := Write(i * PAGE_SIZE, v);
    assert InRange(tb, t, a.addr);
    var r, j := Poke(tb, i, 0, v), (m - 1) * PAGE_SIZE;
    assert Step(tb, t, a) == Some((r, v)) by {
      assert a.addr / PAGE_SIZE == i && a.addr % PAGE_SIZE == 0 && !tb.locked[i];
    }
    PokeChanges(tb, i, 0, v);
    PageOfIs(tb, i, t, m);
    FlatStart(tb, t, m);
    FlatStart(r, t, m);
    assert Store(FlatMem(tb, t), a)[j] == FlatMem(tb, t)[j] == tb.pages[i][0] by {
      assert a.addr - BASE == (i - RESERVED_PAGES) * PAGE_SIZE != j;
    }
    assert FlatMem(r, t)[j] == v;
    assert !ActsFlat(tb, t, a);
  }

  /** The first byte of page m in the flat memory. */
  lemma FlatStart(tb: Table, t: int, m: nat)
    requires Sized(tb) && 1 <= m <= PageCount(tb, t) && PageOf(tb, t, m).Some?
    ensures 0 <= (m - 1) * PAGE_SIZE < |FlatMem(tb, t)|
    ensures FlatMem(tb, t)[(m - 1) * PAGE_SIZE] == PageOf(tb, t, m).value.page[0]
  {
    hide PageCount;
    var j := (m - 1) * PAGE_SIZE;
    assert j / PAGE_SIZE == m - 1 && j % PAGE_SIZE == 0;
    assert FlatMem(tb, t)[j] == FlatByte(tb, t, j);
  }

  // ----- an access outside a slice -----

  /** The access ends at the page that is addressed: through the handler, or
      because that page is in the slot. */
  predicate Reaches(tb: Table, t: int, addr: nat)
    requires Sized(tb) && addr < HEAP_SIZE
  {
    tb.locked[addr / PAGE_SIZE] || Holds(tb, addr / PAGE_SIZE, t, addr / PAGE_SIZE - RESERVED_PAGES + 1)
  }

  lemma RangeInArray(tb: Table, t: int, addr: nat)
    requires Inv(tb) && ThreadId(t) && InRange(tb, t, addr)
    ensures PageSlot(addr / PAGE_SIZE) && addr < HEAP_SIZE && InTable(tb, t, addr / PAGE_SIZE - RESERVED_PAGES + 1)
    ensures Touched(tb.meta, addr / PAGE_SIZE)
  {
    RangeIsTouched(tb, t, addr / PAGE_SIZE);
  }

  /** Such an access reads or writes its byte of its page, and changes nothing
      else in anyone's memory. */
  lemma ReachStep(tb: Table, t: int, a: Access)
    requires Inv(tb) && HasFreeSlot(tb) && ThreadId(t) && InRange(tb, t, a.addr)
    requires a.addr < HEAP_SIZE && Reaches(tb, t, a.addr)
    ensures FirstFree(tb.meta) < SCHEDULER_PAGE_START && Step(tb, t, a).Some?
    ensures var (r, b) := Step(tb, t, a).value;
      var k, off := a.addr / PAGE_SIZE - RESERVED_PAGES + 1, a.addr % PAGE_SIZE;
      && Inv(r) && HasFreeSlot(r) && SameCounts(tb, r)
      && (forall t', k' | t' != 0 && !(t' == t && k' == k) :: PageOf(r, t', k') == PageOf(tb, t', k'))
      && PageOf(tb, t, k).Some?
      && var c := PageOf(tb, t, k).value;
         && PageOf(r, t, k) == Some(if a.Write? then c.(page := c.page[off := a.value]) else c)
         && (a.Read? ==> b == c.page[off])
  {
    hide PageOf, Layout, Unique, Numbered, PageCount, Swap, LockAllBut;
    RangeInArray(tb, t, a.addr);
    FirstFreeIs(tb);
    var slot, off := a.addr / PAGE_SIZE, a.addr % PAGE_SIZE;
    var k := slot - RESERVED_PAGES + 1;
    var u := tb;
    if tb.locked[slot] {
      u := FaultBrings(tb, t, a.addr);
    }
    FreeSlotCount(u);
    PageOfIs(u, slot, t, k);
    PokeChanges(u, slot, off, if a.Write? then a.value else u.pages[slot][off]);
    if a.Write? { FreeSlotCount(Poke(u, slot, off, a.value)); }
  }

  /** The handler brings the page addressed into the slot addressed. */
  lemma FaultBrings(tb: Table, t: int, addr: nat) returns (u: Table)
    requires Inv(tb) && HasFreeSlot(tb) && ThreadId(t) && InRange(tb, t, addr)
    ensures FirstFree(tb.meta) < SCHEDULER_PAGE_START && Fault(tb, t, addr) == Some(u)
    ensures Inv(u) && HasFreeSlot(u) && SameMemory(tb, u) && SameCounts(tb, u)
    ensures Holds(u, addr / PAGE_SIZE, t, addr / PAGE_SIZE - RESERVED_PAGES + 1)
    ensures u == LockAllBut(Swap(tb, addr / PAGE_SIZE, SlotOf(tb, t, addr / PAGE_SIZE - RESERVED_PAGES + 1)), t)
  {
    RangeInArray(tb, t, addr);
    var slot := addr / PAGE_SIZE;
    var k := slot - RESERVED_PAGES + 1;
    var i :| Holds(tb, i, t, k);
    SlotOfIs(tb, i, t, k);
    SwapKeeps(tb, slot, i);
    var r := Swap(tb, slot, i);
    u := LockAllBut(r, t);
    LockingKeeps(r, u);
    FreeSlotCount(r);
    FreeSlotCount(u);
    SameTransitive(tb, r, u);
  }
}
