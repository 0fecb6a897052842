/** Exit values that joiners want in their own pages: the exit's store goes through
    an address to whatever page is in that slot. */
module JoinWrites {
  import opened Options
  import opened HeaderBytes
  import opened PageTable
  import opened PageTableLemmas
  import opened FlatMemory
  import opened Loader
  import opened Words
  import Threads
  import ThreadRuns
  import Joins

  // ----- the store -----

  /** The bytes of a `void *`. */
  function WordOf(value: int): (r: seq<byte>)
    ensures |r| == WORD
  {
    Encode(value % 0x1_0000_0000_0000_0000, WORD)
  }

  /** Writes bytes from an address on, to the slots as they are: an exit stores
      the value after `loadLibraryPages`, which leaves every slot unprotected. */
  function RawStore(tb: Table, addr: nat, bytes: seq<byte>): (r: Table)
    requires Sized(tb) && addr + |bytes| <= HEAP_SIZE
    ensures Sized(r)
    decreases |bytes|
  {
    if bytes == [] then tb
    else RawStore(Poke(tb, addr / PAGE_SIZE, addr % PAGE_SIZE, bytes[0]), addr + 1, bytes[1..])
  }

  /** The store of a delivery, on the page table. */
  function Delivered(tb: Table, d: Option<Threads.Delivery>): (r: Table)
    requires Sized(tb)
    ensures Sized(r)
  {
    if d.Some? && d.value.location.Paged? && d.value.location.addr + WORD <= HEAP_SIZE
    then RawStore(tb, d.value.location.addr, WordOf(d.value.value))
    else tb
  }

  // ----- what it means -----

  /** Which of its pages a thread means by an address. */
  function PageFor(addr: nat): int {
    addr / PAGE_SIZE - RESERVED_PAGES + 1
  }

  /** The byte that thread t has at an address of its own, wherever its page is. */
  ghost function ByteAt(tb: Table, t: int, addr: nat): Option<byte>
    requires Sized(tb)
  {
    match PageOf(tb, t, PageFor(addr))
    case Some(c) => Some(c.page[addr % PAGE_SIZE])
    case None => None
  }

  /** Thread t's page for the address is in the slot of the address. */
  ghost predicate PageThere(tb: Table, t: int, addr: nat) {
    Holds(tb, addr / PAGE_SIZE, t, PageFor(addr))
  }

  /** Thread t has these bytes at the address. */
  ghost predicate HasBytes(tb: Table, t: int, addr: nat, bytes: seq<byte>)
    requires Sized(tb)
  {
    forall i | 0 <= i < |bytes| :: ByteAt(tb, t, addr + i) == Some(bytes[i])
  }

  ghost predicate OwnRange(tb: Table, t: int, addr: nat, n: nat)
    requires Sized(tb)
  {
    BASE <= addr && addr + n <= BASE + PageCount(tb, t) * PAGE_SIZE
  }

  // ----- one byte -----

  /** A byte written to a slot that no thread owns. */
  lemma PokeUnowned(tb: Table, slot: nat, off: nat, v: byte)
    requires Inv(tb) && PageSlot(slot) && !Owned(tb.meta, slot) && off < PAGE_SIZE
    ensures var r := Poke(tb, slot, off, v);
      && Inv(r) && SameCounts(tb, r) && r.meta == tb.meta && r.locked == tb.locked && SameMemory(tb, r)
  {
    var r := Poke(tb, slot, off, v);
    forall i, t, k ensures Holds(tb, i, t, k) <==> Holds(r, i, t, k) {}
    assert Unique(r);
    forall t, k ensures InTable(tb, t, k) <==> InTable(r, t, k) {
      if InTable(tb, t, k) { var i :| Holds(tb, i, t, k); assert Holds(r, i, t, k); }
      if InTable(r, t, k) { var i :| Holds(r, i, t, k); assert Holds(tb, i, t, k); }
    }
    forall t, k | t != 0 ensures PageOf(tb, t, k) == PageOf(r, t, k) {
      if InTable(tb, t, k) {
        var i :| Holds(tb, i, t, k);
        PageOfIs(tb, i, t, k);
        PageOfIs(r, i, t, k);
      }
    }
  }

  /** Where a byte of thread t's memory is. */
  function Place(tb: Table, t: int, addr: nat): nat
    requires Sized(tb)
  {
    SlotOf(tb, t, PageFor(addr)) * PAGE_SIZE + addr % PAGE_SIZE
  }

  lemma SamePlace(slot: nat, off: nat, addr: nat)
    requires off < PAGE_SIZE
    ensures slot * PAGE_SIZE + off == addr <==> slot == addr / PAGE_SIZE && off == addr % PAGE_SIZE
  {
  }

  /** A byte written to an address changes the byte that is there, whosever it
      is, and nothing else. */
  lemma PokeByte(tb: Table, addr: nat, v: byte, t: int, a: nat)
    requires Inv(tb) && ThreadId(t) && InTable(tb, t, PageFor(a)) && PageSlot(addr / PAGE_SIZE)
    ensures var r := Poke(tb, addr / PAGE_SIZE, addr % PAGE_SIZE, v);
      && Inv(r) && SameCounts(tb, r) && r.meta == tb.meta && r.locked == tb.locked
      && ByteAt(r, t, a) == if Place(tb, t, a) == addr then Some(v) else ByteAt(tb, t, a)
  {
    hide SlotOf, PageCount, Layout, Numbered;
    var slot, off, k := addr / PAGE_SIZE, addr % PAGE_SIZE, PageFor(a);
    var i :| Holds(tb, i, t, k);
    SlotOfIs(tb, i, t, k);
    PageOfIs(tb, i, t, k);
    SamePlace(i, a % PAGE_SIZE, addr);
    if Owned(tb.meta, slot) {
      assert Holds(tb, slot, tb.meta[slot].thread, tb.meta[slot].num);
      assert i == slot <==> tb.meta[slot].thread == t && tb.meta[slot].num == k;
      PokeChanges(tb, slot, off, v);
    } else {
      PokeUnowned(tb, slot, off, v);
    }
  }

  // ----- the whole value -----

  /** After a store, thread t's byte is the one stored at its place, or the one
      it had. */
  lemma {:induction false} StoreByte(tb: Table, addr: nat, bytes: seq<byte>, t: int, a: nat)
    requires Inv(tb) && ThreadId(t) && InTable(tb, t, PageFor(a))
    requires BASE <= addr && addr + |bytes| <= SCHEDULER_PAGE_START * PAGE_SIZE
    ensures var r, p := RawStore(tb, addr, bytes), Place(tb, t, a);
      && Inv(r) && SameCounts(tb, r) && r.meta == tb.meta && r.locked == tb.locked
      && ByteAt(r, t, a) == if addr <= p < addr + |bytes| then Some(bytes[p - addr]) else ByteAt(tb, t, a)
    decreases |bytes|
  {
    hide Inv, ByteAt, SlotOf, PageCount, Poke, InTable;
    if bytes != [] {
      PokeByte(tb, addr, bytes[0], t, a);
      var u := Poke(tb, addr / PAGE_SIZE, addr % PAGE_SIZE, bytes[0]);
      SameTables(tb, u, t, PageFor(a));
      StoreByte(u, addr + 1, bytes[1..], t, a);
    }
  }

  lemma SameTables(a: Table, b: Table, t: int, k: int)
    requires a.meta == b.meta
    ensures InTable(a, t, k) <==> InTable(b, t, k)
    ensures Sized(a) && Sized(b) ==> SlotOf(a, t, k) == SlotOf(b, t, k)
  {
    if InTable(a, t, k) { var i :| Holds(a, i, t, k); assert Holds(b, i, t, k); }
    if InTable(b, t, k) { var i :| Holds(b, i, t, k); assert Holds(a, i, t, k); }
  }

  /** A byte of the range written to is changed by the write to its own address
      or by none: another place for it is in another page, at least a page away. */
  lemma PlaceInRange(tb: Table, t: int, addr: nat, n: nat, a: nat)
    requires Inv(tb) && ThreadId(t) && InTable(tb, t, PageFor(a)) && n <= PAGE_SIZE && addr <= a < addr + n
    ensures addr <= Place(tb, t, a) < addr + n <==> PageThere(tb, t, a)
    ensures PageThere(tb, t, a) ==> Place(tb, t, a) == a
  {
    hide SlotOf;
    var i :| Holds(tb, i, t, PageFor(a));
    SlotOfIs(tb, i, t, PageFor(a));
    PageAway(i, a);
  }

  lemma PageAway(slot: nat, a: nat)
    ensures var p := slot * PAGE_SIZE + a % PAGE_SIZE;
      if slot == a / PAGE_SIZE then p == a else p <= a - PAGE_SIZE || p >= a + PAGE_SIZE
  {
  }

  lemma OwnPages(tb: Table, t: int, addr: nat, n: nat)
    requires Inv(tb) && ThreadId(t) && OwnRange(tb, t, addr, n)
    ensures Sized(tb) && BASE <= addr && addr + n <= SCHEDULER_PAGE_START * PAGE_SIZE
    ensures forall a | addr <= a < addr + n :: InTable(tb, t, PageFor(a))
  {
    CountBound(tb.meta, t, RESERVED_PAGES, SCHEDULER_PAGE_START);
    forall a | addr <= a < addr + n ensures InTable(tb, t, PageFor(a)) {
      assert 1 <= PageFor(a) <= PageCount(tb, t);
    }
  }

  /** Thread t's page is in the slot of each byte that it does not have already. */
  ghost predicate Arrives(tb: Table, t: int, addr: nat, bytes: seq<byte>)
    requires Sized(tb)
  {
    forall i | 0 <= i < |bytes| :: PageThere(tb, t, addr + i) || ByteAt(tb, t, addr + i) == Some(bytes[i])
  }

  /** A store through thread t's address gives t these bytes exactly when, for
      each of them, t's page is in the slot at that moment, or t had the byte
      there already. */
  lemma StoreArrivesExactly(tb: Table, t: int, addr: nat, bytes: seq<byte>)
    requires Inv(tb) && ThreadId(t) && |bytes| <= PAGE_SIZE && OwnRange(tb, t, addr, |bytes|)
    ensures addr + |bytes| <= HEAP_SIZE
    ensures HasBytes(RawStore(tb, addr, bytes), t, addr, bytes) <==> Arrives(tb, t, addr, bytes)
  {
    hide Inv, ByteAt, PageThere, Place, RawStore, PageFor, OwnRange, InTable;
    OwnPages(tb, t, addr, |bytes|);
    var r := RawStore(tb, addr, bytes);
    forall i | 0 <= i < |bytes|
      ensures ByteAt(r, t, addr + i) == Some(bytes[i]) <==>
                PageThere(tb, t, addr + i) || ByteAt(tb, t, addr + i) == Some(bytes[i])
    {
      StoreByte(tb, addr, bytes, t, addr + i);
      PlaceInRange(tb, t, addr, |bytes|, addr + i);
    }
  }

  /** For bytes within one page: exactly when that page is in the slot. */
  lemma PartArrivesExactly(tb: Table, t: int, addr: nat, bytes: seq<byte>)
    requires Inv(tb) && ThreadId(t) && OwnRange(tb, t, addr, |bytes|)
    requires bytes != [] && addr % PAGE_SIZE + |bytes| <= PAGE_SIZE
    ensures addr + |bytes| <= HEAP_SIZE
    ensures HasBytes(RawStore(tb, addr, bytes), t, addr, bytes) <==>
              PageThere(tb, t, addr) || HasBytes(tb, t, addr, bytes)
  {
    hide Inv, ByteAt, RawStore, OwnRange;
    InvIsSized(tb);
    OwnPages(tb, t, addr, |bytes|);
    StoreArrivesExactly(tb, t, addr, bytes);
    forall a | addr <= a < addr + |bytes| ensures PageThere(tb, t, a) <==> PageThere(tb, t, addr) {
      assert a / PAGE_SIZE == addr / PAGE_SIZE;
    }
    if !PageThere(tb, t, addr) && Arrives(tb, t, addr, bytes) {
      forall i | 0 <= i < |bytes| ensures ByteAt(tb, t, addr + i) == Some(bytes[i]) {
        assert !PageThere(tb, t, addr + i);
      }
    }
  }

  // ----- an exit -----

  /** Thread t has the value at its location. */
  ghost predicate HasValue(s: Threads.State, tb: Table, t: int, location: Threads.Location, value: int)
    requires Sized(tb)
  {
    match location
    case Unpaged(at) => at in s.memory && s.memory[at] == value
    case Paged(addr) => HasBytes(tb, t, addr, WordOf(value))
  }

  /** A location in the slots lies in the joiner's own pages. */
  ghost predicate OwnLocation(tb: Table, t: int, location: Threads.Location) {
    Inv(tb) && (location.Paged? ==> OwnRange(tb, t, location.addr, WORD))
  }

  /** When the thread that t waits for exits, t has the value at its location
      exactly when the location is outside the page slots, or t's own page is in
      the slot when the exit writes there, or, byte by byte, t had it already. */
  lemma ExitArrivesExactly(s: Threads.State, value: int, tb: Table, t: int, location: Threads.Location)
    requires ThreadRuns.Inv(s) && Joins.JoinInv(s) && ThreadRuns.Allowed(s, Threads.DoExit(value))
    requires Joins.Expects(s, t, s.queue[0], Some(location)) && OwnLocation(tb, t, location)
    ensures HasValue(Threads.Exit(s, value), Delivered(tb, Threads.ExitDelivery(s, value)), t, location, value) <==>
              location.Unpaged? || Arrives(tb, t, location.addr, WordOf(value))
  {
    hide Inv, WordOf, Joins.JoinInv, Threads.Exit, Threads.ExitDelivery, OwnRange, HasBytes, RawStore, PageThere,
         ByteAt;
    Joins.ExitKeepsJoins(s, value);
    assert Joins.Delivers(s, value, Some(location));
    InvIsSized(tb);
    if location.Paged? {
      JoinerIsThread(s, t);
      OwnPages(tb, t, location.addr, WORD);
      StoreArrivesExactly(tb, t, location.addr, WordOf(value));
    }
  }

  lemma JoinerIsThread(s: Threads.State, t: int)
    requires ThreadRuns.Inv(s) && t in s.tcb
    ensures ThreadId(t) && t != LIBRARY_ID
  {
  }

  // ----- the library's pages -----

  /** A page that the library has loaded is in the way: what an exit stores at a
      location on the joiner's page of the same number goes into the library's
      page, and the joiner's is left as it was. */
  lemma LostToLibrary(tb: Table, t: int, addr: nat, value: int)
    requires Inv(tb) && HasFreeSlot(tb) && ThreadId(t) && t != LIBRARY_ID && NoneBeforeItsSlot(tb, LIBRARY_ID)
    requires OwnRange(tb, t, addr, WORD) && OwnRange(tb, LIBRARY_ID, addr, WORD)
    ensures var u := Load(tb, LIBRARY_ID);
      && Sized(u) && addr + WORD <= HEAP_SIZE
      && HasBytes(RawStore(u, addr, WordOf(value)), LIBRARY_ID, addr, WordOf(value))
      && forall a | addr <= a < addr + WORD :: ByteAt(RawStore(u, addr, WordOf(value)), t, a) == ByteAt(tb, t, a)
  {
    hide Inv, ByteAt, RawStore, OwnRange, PageThere, PageFor, Place, WordOf, HasBytes, InTable, PageCount, Load,
         InItsSlot;
    LoadPlacesExactly(tb, LIBRARY_ID);
    LoadKeepsMemory(tb, LIBRARY_ID);
    var u := Load(tb, LIBRARY_ID);
    SameRange(tb, u, t, addr);
    SameRange(tb, u, LIBRARY_ID, addr);
    OwnPages(u, t, addr, WORD);
    forall a | addr <= a < addr + WORD
      ensures PageThere(u, LIBRARY_ID, a)
      ensures ByteAt(RawStore(u, addr, WordOf(value)), t, a) == ByteAt(tb, t, a)
    {
      LibraryThere(u, addr, a, t);
      StoreByte(u, addr, WordOf(value), t, a);
      PlaceInRange(u, t, addr, WORD, a);
    }
    StoreArrivesExactly(u, LIBRARY_ID, addr, WordOf(value));
  }

  lemma SameRange(a: Table, b: Table, t: int, addr: nat)
    requires SameMemory(a, b) && SameCounts(a, b) && t != 0 && OwnRange(a, t, addr, WORD)
    ensures OwnRange(b, t, addr, WORD) && forall x :: ByteAt(b, t, x) == ByteAt(a, t, x)
  {
    hide PageOf, PageCount;
  }

  lemma LibraryThere(tb: Table, addr: nat, a: nat, t: int)
    requires Sized(tb) && OwnRange(tb, LIBRARY_ID, addr, WORD) && addr <= a < addr + WORD && t != LIBRARY_ID
    requires forall k | 1 <= k <= PageCount(tb, LIBRARY_ID) :: InItsSlot(tb, LIBRARY_ID, k)
    ensures PageThere(tb, LIBRARY_ID, a) && !PageThere(tb, t, a)
  {
    hide PageCount;
    assert 1 <= PageFor(a) <= PageCount(tb, LIBRARY_ID);
    assert InItsSlot(tb, LIBRARY_ID, PageFor(a));
  }

  // ----- over whole runs -----

  /** State m is what the first i steps make of s. */
  ghost predicate After(s: Threads.State, ops: seq<Threads.Op>, i: nat, m: Threads.State)
    requires ThreadRuns.Inv(s) && ThreadRuns.AllAllowed(s, ops)
    decreases |ops|
  {
    if i == 0 || ops == [] then i == 0 && m == s
    else (ThreadRuns.ApplyKeepsInv(s, ops[0]); After(ThreadRuns.Apply(s, ops[0]), ops[1..], i - 1, m))
  }

  /** Step i is the exit of the thread that t waits for; after it, t has the
      value exactly when the location is outside the page slots, or the bytes
      arrive in the table as it is then. */
  ghost predicate ReceivesAt(m: Threads.State, op: Threads.Op, tb: Table, t: int, w: int, location: Threads.Location) {
    && op.DoExit? && m.queue != [] && m.queue[0] == w && Sized(tb)
    && var u, r := Threads.Exit(m, op.value), Delivered(tb, Threads.ExitDelivery(m, op.value));
       HasValue(u, r, t, location, op.value) <==>
         location.Unpaged? || Arrives(tb, t, location.addr, WordOf(op.value))
  }

  /** Over every run of the thread library that begins with thread t waiting for
      w and in which w comes to exit, whatever the page table is at each step:
      at that exit t receives the value at its location exactly when it is
      outside the page slots or t's page is in the slot. */
  lemma {:induction false} JoinerReceivesExactly(s: Threads.State, ops: seq<Threads.Op>, tables: seq<Table>,
                                                 t: int, w: int, location: Threads.Location)
    returns (i: nat, m: Threads.State)
    requires ThreadRuns.Inv(s) && Joins.JoinInv(s) && ThreadRuns.AllAllowed(s, ops)
    requires Joins.Expects(s, t, w, Some(location)) && w !in ThreadRuns.Run(s, ops).queue
    requires |tables| == |ops| && forall j | 0 <= j < |tables| :: OwnLocation(tables[j], t, location)
    ensures i < |ops| && After(s, ops, i, m) && ReceivesAt(m, ops[i], tables[i], t, w, location)
    decreases |ops|
  {
    hide ThreadRuns.Inv, Joins.JoinInv, ThreadRuns.Apply, Joins.Expects, OwnLocation, ReceivesAt, Joins.DeliversTo;
    Joins.ExpectedIsQueued(s, t, w, Some(location));
    if ops == [] {
      assert false;
    } else {
      ThreadRuns.ApplyKeepsInv(s, ops[0]);
      Joins.ApplyKeepsJoins(s, ops[0]);
      Joins.JoinerWaitsOrReceives(s, ops[0], t, w, Some(location));
      if ops[0].DoExit? && s.queue[0] == w {
        i, m := 0, s;
        ReceivesNow(s, ops[0], tables[0], t, w, location);
      } else {
        var u := ThreadRuns.Apply(s, ops[0]);
        i, m := JoinerReceivesExactly(u, ops[1..], tables[1..], t, w, location);
        i := i + 1;
      }
    }
  }

  lemma ReceivesNow(s: Threads.State, op: Threads.Op, tb: Table, t: int, w: int, location: Threads.Location)
    requires ThreadRuns.Inv(s) && Joins.JoinInv(s) && ThreadRuns.Allowed(s, op) && op.DoExit? && s.queue[0] == w
    requires Joins.Expects(s, t, w, Some(location)) && OwnLocation(tb, t, location)
    ensures ReceivesAt(s, op, tb, t, w, location)
  {
    hide ThreadRuns.Inv, Joins.JoinInv, Inv, HasValue, Threads.Exit, Delivered, OwnRange, Joins.Expects;
    InvIsSized(tb);
    ExitArrivesExactly(s, op.value, tb, t, location);
  }
}
