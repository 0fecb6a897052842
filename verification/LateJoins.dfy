/** The join of a thread that has terminated stores the exit value itself, after its
    own stack is loaded and the others' pages are protected: through the handler. */
module LateJoins {
  import opened Options
  import opened HeaderBytes
  import opened PageTable
  import opened PageTableLemmas
  import opened FlatMemory
  import opened Loader
  import opened Words
  import opened JoinWrites

  /** The writes of a value at an address, as the joiner itself makes them. */
  function Writes(addr: nat, bytes: seq<byte>): (r: seq<Access>)
    ensures |r| == |bytes| && forall i | 0 <= i < |r| :: r[i] == Write(addr + i, bytes[i])
  {
    seq(|bytes|, i requires 0 <= i < |bytes| => Write(addr + i, bytes[i]))
  }

  lemma {:induction false} StoredByte(mem: seq<byte>, addr: nat, bytes: seq<byte>, a: nat)
    requires BASE <= a < BASE + |mem| && BASE <= addr && addr + |bytes| <= BASE + |mem|
    ensures StoreAll(mem, Writes(addr, bytes))[a - BASE] ==
              if addr <= a < addr + |bytes| then bytes[a - addr] else mem[a - BASE]
    decreases |bytes|
  {
    var ops := Writes(addr, bytes);
    if bytes != [] {
      assert ops[1..] == Writes(addr + 1, bytes[1..]);
      StoredByte(Store(mem, ops[0]), addr + 1, bytes[1..], a);
    }
  }

  /** Byte by byte, the flat memory is what the thread has at its addresses. */
  lemma FlatByteAt(tb: Table, t: int, a: nat)
    requires Inv(tb) && t != 0 && InRange(tb, t, a)
    ensures ByteAt(tb, t, a) == Some(FlatMem(tb, t)[a - BASE])
  {
    hide PageCount, PageOf;
    var j := a - BASE;
    assert j / PAGE_SIZE + 1 == PageFor(a) && j % PAGE_SIZE == a % PAGE_SIZE;
    assert InTable(tb, t, PageFor(a));
    var i :| Holds(tb, i, t, PageFor(a));
    PageOfIs(tb, i, t, PageFor(a));
    assert FlatMem(tb, t)[j] == FlatByte(tb, t, j);
  }

  /** The joiner of a thread that has terminated stores the value itself, after
      its own stack is loaded and the others' pages are protected: through the
      handler, the value arrives wherever the joiner's page was. */
  lemma LateValueArrives(tb: Table, t: int, addr: nat, value: int)
    requires Inv(tb) && HasFreeSlot(tb) && ThreadId(t) && OwnRange(tb, t, addr, WORD)
    requires InPlace(LoadStack(tb, t), t)
    ensures var u, ops := LockAllBut(LoadStack(tb, t), t), Writes(addr, WordOf(value));
      Exec(u, t, ops).Some? && Sized(Exec(u, t, ops).value.0)
      && HasBytes(Exec(u, t, ops).value.0, t, addr, WordOf(value))
  {
    hide LoadStack, WordOf, FlatMem, Exec, PageCount, PageOf, Layout, Unique, Numbered, OwnRange, ByteAt, StoreAll,
         InPlace, LockAllBut, OthersSame;
    LoadKeepsMemory(tb, t);
    var v, ops := LoadStack(tb, t), Writes(addr, WordOf(value));
    var u := LockAllBut(v, t);
    LockKeepsSlice(v, t);
    SameRange(tb, v, t, addr);
    SameRange(v, u, t, addr);
    InOwnRange(u, t, addr);
    SliceIsFlatMemory(u, t, ops);
    var r := Exec(u, t, ops).value.0;
    forall i | 0 <= i < WORD ensures ByteAt(r, t, addr + i) == Some(WordOf(value)[i]) {
      FlatByteAt(r, t, addr + i);
      StoredByte(FlatMem(u, t), addr, WordOf(value), addr + i);
    }
  }

  lemma InOwnRange(tb: Table, t: int, addr: nat)
    requires Sized(tb) && OwnRange(tb, t, addr, WORD)
    ensures BASE <= addr && addr + WORD <= BASE + |FlatMem(tb, t)|
    ensures forall a | addr <= a < addr + WORD :: InRange(tb, t, a)
  {
  }

  /** Writes to a page that is not protected are stores to the slot. */
  lemma {:induction false} OpenWrites(tb: Table, t: int, addr: nat, bytes: seq<byte>)
    requires Inv(tb) && HasFreeSlot(tb) && bytes != [] && addr % PAGE_SIZE + |bytes| <= PAGE_SIZE
    requires PageSlot(addr / PAGE_SIZE) && Sized(tb) && !tb.locked[addr / PAGE_SIZE]
    ensures addr + |bytes| <= HEAP_SIZE
    ensures Exec(tb, t, Writes(addr, bytes)).Some?
    ensures Exec(tb, t, Writes(addr, bytes)).value.0 == RawStore(tb, addr, bytes)
    decreases |bytes|
  {
    hide Inv, HasFreeSlot, FirstFree;
    var ops, slot := Writes(addr, bytes), addr / PAGE_SIZE;
    var u := Poke(tb, slot, addr % PAGE_SIZE, bytes[0]);
    PokeReady(tb, slot, addr % PAGE_SIZE, bytes[0]);
    assert ops[1..] == Writes(addr + 1, bytes[1..]);
    if |bytes| > 1 {
      assert (addr + 1) / PAGE_SIZE == slot;
      OpenWrites(u, t, addr + 1, bytes[1..]);
    }
  }

  lemma PokeReady(tb: Table, slot: nat, off: nat, v: byte)
    requires Inv(tb) && HasFreeSlot(tb) && PageSlot(slot) && off < PAGE_SIZE
    ensures FirstFree(tb.meta) < SCHEDULER_PAGE_START
    ensures Inv(Poke(tb, slot, off, v)) && HasFreeSlot(Poke(tb, slot, off, v))
  {
    FirstFreeIs(tb);
    if Owned(tb.meta, slot) {
      PokeChanges(tb, slot, off, v);
    } else {
      PokeUnowned(tb, slot, off, v);
    }
    FirstFreeIs(Poke(tb, slot, off, v));
  }

  lemma FaultThenOpen(u: Table, w: Table, t: int, addr: nat, bytes: seq<byte>)
    requires Sized(u) && Sized(w) && bytes != [] && addr < HEAP_SIZE && u.locked[addr / PAGE_SIZE]
    requires FirstFree(u.meta) < SCHEDULER_PAGE_START && FirstFree(w.meta) < SCHEDULER_PAGE_START
    requires Fault(u, t, addr) == Some(w) && !w.locked[addr / PAGE_SIZE]
    ensures Exec(u, t, Writes(addr, bytes)) == Exec(w, t, Writes(addr, bytes))
  {
    hide Fault, FirstFree;
    var ops := Writes(addr, bytes);
    assert Step(u, t, ops[0]) == Step(w, t, ops[0]);
  }

  /** The writes of bytes within one page: they arrive exactly when the first one
      faults, or finds the joiner's page in the slot, or they were there before;
      no byte at another offset of any page of the joiner changes. */
  lemma PartWritten(u: Table, t: int, addr: nat, bytes: seq<byte>)
    returns (w: Table, r: Table)
    requires Inv(u) && HasFreeSlot(u) && ThreadId(t) && Guarded(u, t) && OwnRange(u, t, addr, |bytes|)
    requires bytes != [] && addr % PAGE_SIZE + |bytes| <= PAGE_SIZE
    ensures addr < HEAP_SIZE && Exec(u, t, Writes(addr, bytes)).Some? && Exec(u, t, Writes(addr, bytes)).value.0 == r
    ensures Inv(r) && HasFreeSlot(r) && Guarded(r, t) && SameCounts(u, r)
    ensures HasBytes(r, t, addr, bytes) <==> Reaches(u, t, addr) || HasBytes(u, t, addr, bytes)
    ensures SameElsewhere(u, r, t, addr % PAGE_SIZE, |bytes|) && r.meta == w.meta && r.locked == w.locked
    ensures FirstFree(u.meta) < SCHEDULER_PAGE_START
    ensures if u.locked[addr / PAGE_SIZE] then Fault(u, t, addr) == Some(w) else w == u
  {
    hide PageCount, PageOf, Layout, Unique, Numbered, OwnRange, ByteAt, HasBytes, RawStore, Exec, HasFreeSlot,
         FirstFree, Writes, Fault, SameElsewhere;
    var slot := addr / PAGE_SIZE;
    FirstFreeIs(u);
    OwnPages(u, t, addr, |bytes|);
    OwnInRange(u, t, addr, |bytes|);
    RangeInArray(u, t, addr);
    w := u;
    if u.locked[slot] {
      w := FaultBrings(u, t, addr);
      FirstFreeIs(w);
      SameOwnRange(u, w, t, addr, |bytes|);
      OpenWrites(w, t, addr, bytes);
      PartArrivesExactly(w, t, addr, bytes);
      FaultThenOpen(u, w, t, addr, bytes);
    } else {
      OpenWrites(u, t, addr, bytes);
      PartArrivesExactly(u, t, addr, bytes);
    }
    r := RawStore(w, addr, bytes);
    StoredElsewhere(w, t, addr, bytes);
    if u.locked[slot] { SameThenElsewhere(u, w, r, t, addr % PAGE_SIZE, |bytes|); }
  }

  /** Outside n offsets from lo on, thread t has the same bytes. */
  ghost predicate SameElsewhere(a: Table, b: Table, t: int, lo: nat, n: nat) {
    && Sized(a) && Sized(b)
    && forall x: nat | InRange(a, t, x) && !(lo <= x % PAGE_SIZE < lo + n) :: ByteAt(b, t, x) == ByteAt(a, t, x)
  }

  lemma SameThenElsewhere(a: Table, b: Table, c: Table, t: int, lo: nat, n: nat)
    requires SameMemory(a, b) && SameCounts(a, b) && t != 0 && SameElsewhere(b, c, t, lo, n)
    ensures SameElsewhere(a, c, t, lo, n)
  {
    hide PageOf, PageCount;
  }

  lemma OwnInRange(tb: Table, t: int, addr: nat, n: nat)
    requires Sized(tb) && OwnRange(tb, t, addr, n)
    ensures forall a | addr <= a < addr + n :: InRange(tb, t, a)
  {
  }

  lemma SameOwnRange(a: Table, b: Table, t: int, addr: nat, n: nat)
    requires SameMemory(a, b) && SameCounts(a, b) && t != 0 && OwnRange(a, t, addr, n)
    ensures OwnRange(b, t, addr, n) && forall x :: ByteAt(b, t, x) == ByteAt(a, t, x)
    ensures forall bytes :: HasBytes(b, t, addr, bytes) <==> HasBytes(a, t, addr, bytes)
  {
    hide PageOf, PageCount;
    assert forall x :: ByteAt(b, t, x) == ByteAt(a, t, x);
  }

  /** A store within one page leaves the bytes at other offsets as they are. */
  lemma StoredElsewhere(tb: Table, t: int, addr: nat, bytes: seq<byte>)
    requires Inv(tb) && HasFreeSlot(tb) && ThreadId(t) && Sized(tb) && OwnRange(tb, t, addr, |bytes|)
    requires bytes != [] && addr % PAGE_SIZE + |bytes| <= PAGE_SIZE
    ensures addr + |bytes| <= HEAP_SIZE
    ensures var r := RawStore(tb, addr, bytes);
      && Inv(r) && HasFreeSlot(r) && SameCounts(tb, r) && r.meta == tb.meta && r.locked == tb.locked
      && SameElsewhere(tb, r, t, addr % PAGE_SIZE, |bytes|)
  {
    hide Inv, ByteAt, RawStore, PageFor, Place, OwnRange, InTable, PageCount;
    OwnPages(tb, t, addr, |bytes|);
    var r := RawStore(tb, addr, bytes);
    StoreByte(tb, addr, bytes, t, addr);
    FreeSlotCount(tb);
    FreeSlotCount(r);
    forall a: nat | InRange(tb, t, a) && !(addr % PAGE_SIZE <= a % PAGE_SIZE < addr % PAGE_SIZE + |bytes|)
      ensures ByteAt(r, t, a) == ByteAt(tb, t, a)
    {
      InOwnTable(tb, t, a);
      StoreByte(tb, addr, bytes, t, a);
      OtherOffset(tb, t, addr, |bytes|, a);
    }
  }

  lemma InOwnTable(tb: Table, t: int, a: nat)
    requires Inv(tb) && ThreadId(t) && InRange(tb, t, a)
    ensures InTable(tb, t, PageFor(a))
  {
    RangeInArray(tb, t, a);
  }

  lemma OffsetIn(addr: nat, n: nat, p: nat)
    requires addr % PAGE_SIZE + n <= PAGE_SIZE
    ensures addr <= p < addr + n ==> addr % PAGE_SIZE <= p % PAGE_SIZE < addr % PAGE_SIZE + n
  {
  }

  lemma OtherOffset(tb: Table, t: int, addr: nat, n: nat, a: nat)
    requires Sized(tb) && addr % PAGE_SIZE + n <= PAGE_SIZE
    requires !(addr % PAGE_SIZE <= a % PAGE_SIZE < addr % PAGE_SIZE + n)
    ensures !(addr <= Place(tb, t, a) < addr + n)
  {
    var p := Place(tb, t, a);
    assert p % PAGE_SIZE == a % PAGE_SIZE;
    OffsetIn(addr, n, p);
  }

  /** When the joiner's own writes arrive.  The first page's: the write faults, or
      finds the page in the slot, or the bytes were there.  The second page's, if
      the value goes on there: likewise, or the fault for the first page has taken
      that page away from the second's slot. */
  ghost predicate ArrivesLate(u: Table, t: int, addr: nat, bytes: seq<byte>)
    requires Sized(u) && addr + |bytes| <= HEAP_SIZE && bytes != [] && |bytes| <= PAGE_SIZE
  {
    var n, slot := PAGE_SIZE - addr % PAGE_SIZE, addr / PAGE_SIZE;
    if |bytes| <= n then Reaches(u, t, addr) || HasBytes(u, t, addr, bytes)
    else
      && (Reaches(u, t, addr) || HasBytes(u, t, addr, bytes[..n]))
      && (|| Reaches(u, t, addr + n) || HasBytes(u, t, addr + n, bytes[n..])
          || (u.locked[slot] && Holds(u, slot + 1, t, PageFor(addr))))
  }

  /** What the fault for one page does to the slot after it. */
  lemma NextReach(u: Table, w: Table, t: int, addr: nat, next: nat)
    requires Inv(u) && HasFreeSlot(u) && ThreadId(t) && Guarded(u, t) && InRange(u, t, addr) && addr < HEAP_SIZE
    requires next == (addr / PAGE_SIZE + 1) * PAGE_SIZE && PageSlot(addr / PAGE_SIZE + 1)
    requires FirstFree(u.meta) < SCHEDULER_PAGE_START
    requires if u.locked[addr / PAGE_SIZE] then Fault(u, t, addr) == Some(w) else w == u
    ensures Sized(w) && next < HEAP_SIZE
    ensures Reaches(w, t, next) <==>
              || Reaches(u, t, next) || (u.locked[addr / PAGE_SIZE] && Holds(u, addr / PAGE_SIZE + 1, t, PageFor(addr)))
  {
    hide PageCount, Numbered, FirstFree, SlotOf;
    var slot := addr / PAGE_SIZE;
    assert next / PAGE_SIZE == slot + 1;
    FirstFreeIs(u);
    if u.locked[slot] {
      InOwnTable(u, t, addr);
      var i :| Holds(u, i, t, PageFor(addr));
      SlotOfIs(u, i, t, PageFor(addr));
    }
  }

  lemma {:induction false} ExecConcat(tb: Table, t: int, x: seq<Access>, y: seq<Access>)
    requires Sized(tb) && Exec(tb, t, x).Some? && Sized(Exec(tb, t, x).value.0)
    requires Exec(Exec(tb, t, x).value.0, t, y).Some?
    ensures Exec(tb, t, x + y).Some?
    ensures Exec(tb, t, x + y).value.0 == Exec(Exec(tb, t, x).value.0, t, y).value.0
    decreases |x|
  {
    hide Step;
    if x == [] {
      assert x + y == y;
    } else {
      assert (x + y)[1..] == x[1..] + y;
      ExecConcat(Step(tb, t, x[0]).value.0, t, x[1..], y);
    }
  }

  /** The late join delivers exactly in those cases, for a value within one page
      and for one across two. */
  lemma LateValueArrivesExactly(tb: Table, t: int, addr: nat, value: int)
    requires Inv(tb) && HasFreeSlot(tb) && ThreadId(t) && OwnRange(tb, t, addr, WORD)
    ensures var u, ops := LockAllBut(LoadStack(tb, t), t), Writes(addr, WordOf(value));
      && addr + WORD <= HEAP_SIZE && Exec(u, t, ops).Some? && Sized(Exec(u, t, ops).value.0)
      && (HasBytes(Exec(u, t, ops).value.0, t, addr, WordOf(value)) <==> ArrivesLate(u, t, addr, WordOf(value)))
  {
    hide LoadStack, WordOf, Exec, PageCount, PageOf, Layout, Unique, Numbered, OwnRange, HasBytes, HasFreeSlot,
         Writes, Reaches;
    LoadKeepsMemory(tb, t);
    var v := LoadStack(tb, t);
    var u := LockAllBut(v, t);
    LockingKeeps(v, u);
    FreeSlotCount(v);
    FreeSlotCount(u);
    SameOwnRange(tb, v, t, addr, WORD);
    SameOwnRange(v, u, t, addr, WORD);
    OwnPages(u, t, addr, WORD);
    if addr % PAGE_SIZE + WORD <= PAGE_SIZE {
      var w, r := PartWritten(u, t, addr, WordOf(value));
    } else {
      TwoPartsWritten(u, t, addr, WordOf(value));
    }
  }

  lemma TwoPartsWritten(u: Table, t: int, addr: nat, bytes: seq<byte>)
    requires Inv(u) && HasFreeSlot(u) && ThreadId(t) && Guarded(u, t) && OwnRange(u, t, addr, |bytes|)
    requires |bytes| <= WORD && addr % PAGE_SIZE + |bytes| > PAGE_SIZE
    ensures addr + |bytes| <= HEAP_SIZE && Exec(u, t, Writes(addr, bytes)).Some?
    ensures Sized(Exec(u, t, Writes(addr, bytes)).value.0)
    ensures HasBytes(Exec(u, t, Writes(addr, bytes)).value.0, t, addr, bytes) <==> ArrivesLate(u, t, addr, bytes)
  {
    hide Exec, PageCount, PageOf, Layout, Unique, Numbered, OwnRange, HasFreeSlot, Writes, Reaches, ByteAt, Fault,
         FirstFree, HasBytes, SameElsewhere, Guarded;
    var n := PAGE_SIZE - addr % PAGE_SIZE;
    var x, y, next := bytes[..n], bytes[n..], addr + n;
    SplitRange(u, t, addr, |bytes|, n);
    var w1, r1 := PartWritten(u, t, addr, x);
    SameRangeCount(u, r1, t, next, |y|);
    SameRangeCount(u, r1, t, addr, n);
    var w2, r2 := PartWritten(r1, t, next, y);
    assert bytes == x + y;
    WritesConcat(addr, x, y);
    ExecConcat(u, t, Writes(addr, x), Writes(next, y));
    NextReach(u, w1, t, addr, next);
    SameReach(w1, r1, t, next);
    BytesSplit(r2, t, addr, x, y);
    SameBytesAt(r1, r2, t, 0, |y|, addr, x);
    SameBytesAt(u, r1, t, addr % PAGE_SIZE, n, next, y);
  }

  lemma SplitRange(tb: Table, t: int, addr: nat, n: nat, m: nat)
    requires Inv(tb) && ThreadId(t) && OwnRange(tb, t, addr, n) && m == PAGE_SIZE - addr % PAGE_SIZE < n <= PAGE_SIZE
    ensures OwnRange(tb, t, addr, m) && OwnRange(tb, t, addr + m, n - m) && addr + n <= HEAP_SIZE
    ensures addr + m == (addr / PAGE_SIZE + 1) * PAGE_SIZE && PageSlot(addr / PAGE_SIZE + 1) && InRange(tb, t, addr)
  {
    OwnPages(tb, t, addr, n);
  }

  lemma SameRangeCount(a: Table, b: Table, t: int, addr: nat, n: nat)
    requires SameCounts(a, b) && OwnRange(a, t, addr, n)
    ensures OwnRange(b, t, addr, n)
  {
  }

  lemma WritesConcat(addr: nat, x: seq<byte>, y: seq<byte>)
    ensures Writes(addr, x + y) == Writes(addr, x) + Writes(addr + |x|, y)
  {
  }

  lemma SameReach(a: Table, b: Table, t: int, addr: nat)
    requires Sized(a) && Sized(b) && a.meta == b.meta && a.locked == b.locked && addr < HEAP_SIZE
    ensures Reaches(a, t, addr) <==> Reaches(b, t, addr)
  {
  }

  lemma BytesSplit(tb: Table, t: int, addr: nat, x: seq<byte>, y: seq<byte>)
    requires Sized(tb)
    ensures HasBytes(tb, t, addr, x + y) <==> HasBytes(tb, t, addr, x) && HasBytes(tb, t, addr + |x|, y)
  {
    hide ByteAt;
    var z := x + y;
    if HasBytes(tb, t, addr, z) {
      assert forall i | 0 <= i < |x| :: z[i] == x[i];
      forall i | 0 <= i < |y| ensures ByteAt(tb, t, addr + |x| + i) == Some(y[i]) {
        assert z[|x| + i] == y[i];
      }
    }
    if HasBytes(tb, t, addr, x) && HasBytes(tb, t, addr + |x|, y) {
      forall i | 0 <= i < |z| ensures ByteAt(tb, t, addr + i) == Some(z[i]) {
        if i >= |x| { assert z[i] == y[i - |x|]; }
      }
    }
  }

  lemma SameBytesAt(a: Table, b: Table, t: int, lo: nat, n: nat, addr: nat, bytes: seq<byte>)
    requires SameElsewhere(a, b, t, lo, n) && OwnRange(a, t, addr, |bytes|)
    requires forall x | addr <= x < addr + |bytes| :: !(lo <= x % PAGE_SIZE < lo + n)
    ensures HasBytes(a, t, addr, bytes) <==> HasBytes(b, t, addr, bytes)
  {
    hide ByteAt, PageCount;
    forall x: nat | addr <= x < addr + |bytes| ensures ByteAt(b, t, x) == ByteAt(a, t, x) {
      assert InRange(a, t, x);
    }
  }
}
