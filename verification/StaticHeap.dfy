/** The static test heap in its byte array: guard headers, payloads and end
    markers, and the functions that hand blocks out and take them back. */
module StaticHeap {
  import opened Options
  import opened BumpHeap
  import opened Words
  import HeaderBytes

  type byte = HeaderBytes.byte

  lemma WordPower()
    ensures Power(8) == WORD_LIMIT
  {
    assert Power(2) == 0x1_0000;
    assert Power(4) == 0x1_0000_0000;
    assert Power(6) == 0x1_0000_0000_0000;
  }

  // ----- what the bytes hold -----

  const END: seq<byte> := [69, 78, 68, 0]

  ghost predicate HoldsAt(m: seq<byte>, o: nat, bytes: seq<byte>) {
    o + |bytes| <= |m| && m[o..o + |bytes|] == bytes
  }

  function Overwrite(m: seq<byte>, o: nat, bytes: seq<byte>): (r: seq<byte>)
    requires o + |bytes| <= |m|
    ensures |r| == |m|
  {
    m[..o] + bytes + m[o + |bytes|..]
  }

  /** The size in the header of every block, live or stranded. */
  ghost predicate SizesHold(m: seq<byte>, bs: seq<Block>) {
    forall i | 0 <= i < |bs| :: HoldsAt(m, Start(bs, i), Encode(bs[i].size, WORD))
  }

  /** Neither the guard space before a payload nor the marker after it has been
      written to. */
  ghost predicate Intact(m: seq<byte>, payload: nat, size: nat) {
    payload >= WORD && HoldsAt(m, payload - WORD, Encode(0, WORD)) && HoldsAt(m, payload + size, END)
  }

  ghost predicate AllIntact(m: seq<byte>, bs: seq<Block>) {
    forall i | 0 <= i < |bs| && bs[i].live :: Intact(m, Payload(bs, i), bs[i].size)
  }

  /** A block's payload reads the same in both arrays. */
  ghost predicate SamePayload(a: seq<byte>, b: seq<byte>, payload: nat, size: nat) {
    payload + size <= |a| && payload + size <= |b| && a[payload..payload + size] == b[payload..payload + size]
  }

  /** A new block at `guard`; nothing below it, and nothing of its payload, has
      changed. */
  ghost predicate Stamped(before: seq<byte>, m: seq<byte>, guard: nat, size: nat) {
    && guard + GUARD + size + MARKER <= |m| == |before|
    && m[..guard] == before[..guard]
    && HoldsAt(m, guard, Encode(size, WORD)) && Intact(m, guard + GUARD, size)
    && SamePayload(before, m, guard + GUARD, size)
  }

  lemma OverwriteReads(m: seq<byte>, o: nat, bytes: seq<byte>, lo: nat, hi: nat)
    requires o + |bytes| <= |m| && lo <= hi <= |m| && (hi <= o || o + |bytes| <= lo)
    ensures Overwrite(m, o, bytes)[lo..hi] == m[lo..hi]
    ensures HoldsAt(Overwrite(m, o, bytes), o, bytes)
  {
  }

  lemma StampedBytes(m: seq<byte>, guard: nat, size: nat)
    requires guard + GUARD + size + MARKER <= |m|
    ensures Stamped(m, Overwrite(Overwrite(Overwrite(m, guard, Encode(size, WORD)),
                                           guard + WORD, Encode(0, WORD)), guard + GUARD + size, END), guard, size)
  {
    hide Encode, Overwrite;
    var payload := guard + GUARD;
    var a := Overwrite(m, guard, Encode(size, WORD));
    var b := Overwrite(a, guard + WORD, Encode(0, WORD));
    OverwriteReads(m, guard, Encode(size, WORD), 0, guard);
    OverwriteReads(a, guard + WORD, Encode(0, WORD), 0, guard);
    OverwriteReads(b, payload + size, END, 0, guard);
    OverwriteReads(a, guard + WORD, Encode(0, WORD), guard, guard + WORD);
    OverwriteReads(b, payload + size, END, guard, guard + WORD);
    OverwriteReads(b, payload + size, END, guard + WORD, payload);
    OverwriteReads(m, guard, Encode(size, WORD), payload, payload + size);
    OverwriteReads(a, guard + WORD, Encode(0, WORD), payload, payload + size);
    OverwriteReads(b, payload + size, END, payload, payload + size);
  }

  /** A test failure leaves `unity_free` and `unity_realloc` by a long jump. */
  datatype Outcome = Returned(mem: Option<nat>) | OverrunReported

  class StaticHeap {
    const heap: array<byte>
    var heapIndex: nat
    var mallocCount: int
    var failCountdown: int
    ghost var blocks: seq<Block>

    ghost function View(): State
      reads this
    {
      State(blocks, mallocCount, failCountdown)
    }

    ghost predicate Valid()
      reads this, heap
    {
      && heap.Length + 32 < WORD_LIMIT
      && heapIndex == Extent(blocks) && Inv(View(), heap.Length)
      && SizesHold(heap[..], blocks)
    }

    constructor (capacity: nat)
      requires capacity + 32 < WORD_LIMIT
      ensures Valid() && View() == State([], 0, DONT_FAIL) && heap.Length == capacity && fresh(heap)
    {
      heap := new byte[capacity];
      heapIndex, mallocCount, failCountdown, blocks := 0, 0, DONT_FAIL, [];
    }

    method Put(o: nat, bytes: seq<byte>)
      requires o + |bytes| <= heap.Length
      modifies heap
      ensures heap[..] == Overwrite(old(heap[..]), o, bytes)
    {
      forall k | 0 <= k < |bytes| {
        heap[o + k] := bytes[k];
      }
    }

    /** The guard header and the end marker of a new block. */
    method Stamp(guard: nat, size: nat)
      requires guard + GUARD + size + MARKER <= heap.Length
      modifies heap
      ensures Stamped(old(heap[..]), heap[..], guard, size)
    {
      hide Encode, Stamped;
      StampedBytes(heap[..], guard, size);
      Put(guard, Encode(size, WORD));
      Put(guard + WORD, Encode(0, WORD));
      Put(guard + GUARD + size, END);
    }

    /** `unity_malloc`. */
    method Malloc(size: nat) returns (mem: Option<nat>)
      requires Valid() && size < WORD_LIMIT && !Wraps(heapIndex, size, heap.Length)
      modifies this, heap
      ensures Valid()
      ensures View() == BumpHeap.Malloc(old(View()), size, heap.Length)
      ensures mem == MallocResult(old(View()), size, heap.Length)
      ensures mem.None? ==> heap[..] == old(heap[..])
      ensures mem.Some? ==> Stamped(old(heap[..]), heap[..], old(heapIndex), size)
      ensures forall j | 0 <= j < |old(blocks)| ::
                SamePayload(old(heap[..]), heap[..], Payload(old(blocks), j), old(blocks)[j].size)
      ensures old(AllIntact(heap[..], blocks)) ==> AllIntact(heap[..], blocks)
    {
      hide Extent, LiveCount, Total, WordTotal, Encode, SizesHold, Stamped, Intact, HoldsAt, Inv,
           SamePayload, AllIntact;
      MallocKeeps(View(), size, heap.Length);
      IndexInArray(View(), heap.Length);
      NothingChanges(heap[..], blocks);
      var totalSize := WordTotal(size);
      if failCountdown != DONT_FAIL {
        if failCountdown == 0 {
          return None;
        }
        failCountdown := failCountdown - 1;
      }
      if size == 0 {
        return None;
      }
      HasRoomExactly(heapIndex, size, heap.Length);
      if (heapIndex + totalSize) % WORD_LIMIT > heap.Length {
        return None;
      }
      Fits(heapIndex, size, heap.Length);
      ExtendBy(blocks, Block(size, true));
      ghost var before := heap[..];
      var guard := heapIndex;
      heapIndex := heapIndex + totalSize;
      mallocCount := mallocCount + 1;
      Stamp(guard, size);
      StampedSizes(before, heap[..], blocks, size);
      StampedPayloads(before, heap[..], blocks, size);
      blocks := blocks + [Block(size, true)];
      return Some(guard + GUARD);
    }

    /** `isOverrun`. */
    method IsOverrun(mem: nat, ghost i: nat) returns (overrun: bool)
      requires Valid() && i < |blocks| && mem == Payload(blocks, i)
      ensures overrun == !Intact(heap[..], mem, blocks[i].size)
    {
      hide Encode, Decode, Extent, LiveCount, Inv, SizesHold;
      var size := StoredSize(mem, i);
      ghost var m := heap[..];
      assert heap[mem - WORD..mem] == m[mem - WORD..mem];
      ZeroWord(m[mem - WORD..mem]);
      overrun := Decode(heap[mem - WORD..mem]) != 0 || heap[mem + size..mem + size + MARKER] != END;
    }

    /** The size field of a block that lies in the array. */
    method StoredSize(mem: nat, ghost i: nat) returns (size: nat)
      requires Valid() && i < |blocks| && mem == Payload(blocks, i)
      ensures size == blocks[i].size && mem >= GUARD && mem - GUARD + Total(size) <= heapIndex <= heap.Length
      ensures WordRoundUp((size + MARKER) % WORD_LIMIT) == RoundUp(size + MARKER)
      ensures size + MARKER <= RoundUp(size + MARKER)
    {
      hide Encode, Decode, Extent, LiveCount;
      BlockFits(blocks, i);
      WordSized(blocks[i].size, heap.Length);
      DecodeEncode(blocks[i].size, WORD);
      size := Decode(heap[mem - GUARD..mem - GUARD + WORD]);
    }

    /** `release_memory`. */
    method Release(mem: nat, ghost i: nat)
      requires Valid() && i < |blocks| && blocks[i].live && mem == Payload(blocks, i)
      modifies this
      ensures Valid() && View() == BumpHeap.Release(old(View()), i)
    {
      hide Extent, LiveCount, RoundUp, WordRoundUp, SizesHold, Inv;
      ReleaseKeeps(View(), i, heap.Length);
      DropSizes(heap[..], blocks, i);
      var size := StoredSize(mem, i);
      LastBlockEnds(blocks, i);
      mallocCount := mallocCount - 1;
      var blockSize := WordRoundUp((size + MARKER) % WORD_LIMIT);
      if mem == heapIndex - blockSize {
        heapIndex := heapIndex - (GUARD + blockSize);
      }
      blocks := Drop(blocks, i);
    }

    /** `unity_free`. */
    method Free(mem: Option<nat>, ghost i: nat) returns (outcome: Outcome)
      requires Valid()
      requires mem.Some? ==> i < |blocks| && blocks[i].live && mem.value == Payload(blocks, i)
      modifies this
      ensures Valid()
      ensures View() == if mem.None? then old(View()) else BumpHeap.Release(old(View()), i)
      ensures outcome.Returned? <==> mem.None? || Intact(heap[..], mem.value, old(blocks)[i].size)
      ensures old(AllIntact(heap[..], blocks)) ==> AllIntact(heap[..], blocks)
    {
      hide Extent, Intact, Inv, SizesHold;
      if mem.None? {
        return Returned(None);
      }
      var overrun := IsOverrun(mem.value, i);
      DropSizes(heap[..], blocks, i);
      Release(mem.value, i);
      return if overrun then OverrunReported else Returned(None);
    }

    /** `memcpy` of a payload into the block that was handed out last. */
    method Copy(target: nat, source: nat, length: nat)
      requires Valid() && |blocks| > 0
      requires target == Payload(blocks, |blocks| - 1) && length <= blocks[|blocks| - 1].size
      requires source + length <= target
      modifies heap
      ensures Valid()
      ensures target + length <= heap.Length
      ensures heap[target..target + length] == old(heap[source..source + length])
      ensures forall j | 0 <= j < |blocks| - 1 ::
                SamePayload(old(heap[..]), heap[..], Payload(blocks, j), blocks[j].size)
      ensures old(AllIntact(heap[..], blocks)) ==> AllIntact(heap[..], blocks)
    {
      hide Extent, Intact, Inv, SizesHold, AllIntact, SamePayload, Total;
      ghost var before := heap[..];
      BlockFits(blocks, |blocks| - 1);
      IndexInArray(View(), heap.Length);
      forall k | 0 <= k < length {
        heap[target + k] := heap[source + k];
      }
      WritesInBlock(before, heap[..], blocks, |blocks| - 1);
    }

    /** The end of `unity_realloc`: a new block, the old bytes copied into it. */
    method Move(mem: nat, length: nat, size: nat, ghost i: nat) returns (newMem: Option<nat>)
      requires Valid() && size < WORD_LIMIT && !Wraps(heapIndex, size, heap.Length)
      requires i < |blocks| && blocks[i].live && mem == Payload(blocks, i)
      requires length == blocks[i].size < size && !GrowsInPlace(blocks, i, size, heap.Length)
      modifies this, heap
      ensures Valid()
      ensures View() == BumpHeap.Realloc(old(View()), i, size, heap.Length)
      ensures newMem == ReallocResult(old(View()), i, size, heap.Length)
      ensures newMem.None? ==> heap[..] == old(heap[..])
      ensures newMem.Some? ==> newMem.value + length <= heap.Length && mem + length <= heap.Length
      ensures newMem.Some? ==> heap[newMem.value..newMem.value + length] == old(heap[mem..mem + length])
      ensures forall j | 0 <= j < |old(blocks)| ::
                SamePayload(old(heap[..]), heap[..], Payload(old(blocks), j), old(blocks)[j].size)
      ensures old(AllIntact(heap[..], blocks)) ==> AllIntact(heap[..], blocks)
    {
      hide Extent, Intact, Inv, SizesHold, AllIntact, Total, Stamped, Wraps, HasRoom, LiveCount;
      ghost var before, bs := heap[..], blocks;
      newMem := Malloc(size);
      if newMem.None? {
        return;
      }
      ghost var between := heap[..];
      PayloadsOfPrefix(bs, Block(size, true));
      assert SamePayload(before, between, mem, length);
      BlockFits(bs, i);
      Copy(newMem.value, mem, length);
      DropSizes(heap[..], blocks, i);
      Release(mem, i);
    }

    /** The last block, released and handed out again where it is. */
    method Grow(mem: nat, size: nat, ghost i: nat) returns (grown: Option<nat>)
      requires Valid() && size < WORD_LIMIT
      requires i == |blocks| - 1 && blocks[i].live && mem == Payload(blocks, i)
      requires blocks[i].size < size && !Wraps(Start(blocks, i), size, heap.Length)
      requires GrowsInPlace(blocks, i, size, heap.Length)
      modifies this, heap
      ensures Valid()
      ensures View() == BumpHeap.Realloc(old(View()), i, size, heap.Length)
      ensures grown == ReallocResult(old(View()), i, size, heap.Length)
      ensures grown.Some? ==> grown.value == mem && mem + old(blocks)[i].size <= heap.Length
      ensures grown.Some? ==> heap[mem..mem + old(blocks)[i].size] == old(heap[mem..mem + blocks[i].size])
      ensures forall j | 0 <= j < i ::
                SamePayload(old(heap[..]), heap[..], Payload(old(blocks), j), old(blocks)[j].size)
      ensures old(AllIntact(heap[..], blocks)) ==> AllIntact(heap[..], blocks)
    {
      hide Extent, Intact, Inv, SizesHold, AllIntact, Total, Wraps, HasRoom, LiveCount;
      ghost var before, bs := heap[..], blocks;
      DropSizes(before, bs, i);
      assert bs == bs[..i] + [bs[i]];
      PayloadsOfPrefix(bs[..i], bs[i]);
      Release(mem, i);
      grown := Malloc(size);
      if grown.Some? {
        GrownKeepsBytes(before, heap[..], mem, bs[i].size, size);
      }
    }

    /** `unity_realloc`. */
    method Realloc(mem: Option<nat>, size: nat, ghost i: nat) returns (outcome: Outcome)
      requires Valid() && size < WORD_LIMIT && !Wraps(heapIndex, size, heap.Length)
      requires mem.Some? ==> i < |blocks| && blocks[i].live && mem.value == Payload(blocks, i)
      requires mem.Some? ==> !Wraps(Start(blocks, i), size, heap.Length)
      modifies this, heap
      ensures Valid()
      ensures mem.None? ==> View() == BumpHeap.Malloc(old(View()), size, heap.Length)
      ensures mem.None? ==> outcome == Returned(MallocResult(old(View()), size, heap.Length))
      ensures mem.Some? && old(Intact(heap[..], mem.value, blocks[i].size)) ==>
                && View() == BumpHeap.Realloc(old(View()), i, size, heap.Length)
                && outcome == Returned(ReallocResult(old(View()), i, size, heap.Length))
      ensures mem.Some? && !old(Intact(heap[..], mem.value, blocks[i].size)) ==>
                View() == BumpHeap.Release(old(View()), i) && outcome == OverrunReported
      ensures mem.Some? && old(Intact(heap[..], mem.value, blocks[i].size)) && 0 < size <= old(blocks)[i].size ==>
                outcome == Returned(mem) && View() == old(View()) && heap[..] == old(heap[..])
      ensures mem.Some? && outcome.Returned? && outcome.mem.Some? ==>
                var p, n := outcome.mem.value, old(blocks)[i].size;
                && mem.value + n <= heap.Length && p + n <= heap.Length
                && heap[p..p + n] == old(heap[mem.value..mem.value + n])
      ensures forall j | 0 <= j < |old(blocks)| && (mem.Some? ==> j != i) ::
                SamePayload(old(heap[..]), heap[..], Payload(old(blocks), j), old(blocks)[j].size)
      ensures old(AllIntact(heap[..], blocks)) ==> AllIntact(heap[..], blocks)
    {
      hide Extent, Intact, Inv, SizesHold, AllIntact, SamePayload, Stamped, Wraps, RoundUp, WordRoundUp;
      if mem.None? {
        var first := Malloc(size);
        return Returned(first);
      }
      var oldMem := mem.value;
      BlockFits(blocks, i);
      IndexInArray(View(), heap.Length);
      NothingChanges(heap[..], blocks);
      DropSizes(heap[..], blocks, i);
      var overrun := IsOverrun(oldMem, i);
      if overrun {
        Release(oldMem, i);
        return OverrunReported;
      }
      if size == 0 {
        Release(oldMem, i);
        return Returned(None);
      }
      var oldSize := StoredSize(oldMem, i);
      if oldSize >= size {
        return Returned(mem);
      }
      var oldTotal := WordRoundUp((oldSize + MARKER) % WORD_LIMIT);
      LastBlockEnds(blocks, i);
      GrowthTestIs(Start(blocks, i), size, heap.Length);
      HasRoomExactly(Start(blocks, i), size, heap.Length);
      if oldMem == heapIndex - oldTotal &&
         (heapIndex - oldTotal + WordRoundUp((size + MARKER) % WORD_LIMIT)) % WORD_LIMIT <= heap.Length {
        var grown := Grow(oldMem, size, i);
        return Returned(grown);
      }
      var newMem := Move(oldMem, oldSize, size, i);
      return Returned(newMem);
    }
  }

  lemma StampedSizes(before: seq<byte>, m: seq<byte>, bs: seq<Block>, size: nat)
    requires SizesHold(before, bs) && Stamped(before, m, Extent(bs), size)
    ensures SizesHold(m, bs + [Block(size, true)])
  {
    hide Encode, Extent;
    var r := bs + [Block(size, true)];
    forall i | 0 <= i < |r| ensures HoldsAt(m, Start(r, i), Encode(r[i].size, WORD)) {
      assert r[..i] == if i < |bs| then bs[..i] else bs;
      if i < |bs| {
        SizeFieldBelow(bs, i);
        var o := Start(bs, i);
        assert m[o..o + WORD] == m[..Extent(bs)][o..o + WORD] == before[o..o + WORD];
      }
    }
  }

  lemma IndexInArray(s: State, capacity: nat)
    requires Inv(s, capacity)
    ensures Extent(s.blocks) <= capacity
  {
  }

  lemma SizeFieldBelow(bs: seq<Block>, i: nat)
    requires i < |bs|
    ensures Start(bs, i) + WORD <= Extent(bs)
  {
    StartsOrdered(bs, i, |bs|);
    assert bs[..|bs|] == bs;
  }

  /** When the comparison lets a block in, its true size was computed. */
  lemma Fits(index: nat, size: nat, capacity: nat)
    requires size < WORD_LIMIT && index + Total(size) <= capacity && capacity + 32 < WORD_LIMIT
    ensures WordTotal(size) == Total(size) >= GUARD + size + MARKER
  {
    WordTotalIs(size);
    TotalBound(size);
  }

  /** What every other block sees of a new one: nothing. */
  lemma StampedPayloads(before: seq<byte>, m: seq<byte>, bs: seq<Block>, size: nat)
    requires Stamped(before, m, Extent(bs), size)
    ensures forall j | 0 <= j < |bs| :: SamePayload(before, m, Payload(bs, j), bs[j].size)
    ensures AllIntact(before, bs) ==> AllIntact(m, bs + [Block(size, true)])
  {
    hide Encode, Extent, Intact, HoldsAt, Start, Total, SamePayload;
    var r := bs + [Block(size, true)];
    forall j | 0 <= j < |r|
      ensures j < |bs| ==> SamePayload(before, m, Payload(bs, j), bs[j].size)
      ensures AllIntact(before, bs) && r[j].live ==> Intact(m, Payload(r, j), r[j].size)
    {
      PayloadOfPrefix(bs, Block(size, true), j);
      if j < |bs| {
        BlockFits(bs, j);
        SamePrefix(before, m, Extent(bs), Payload(bs, j), bs[j].size);
      }
    }
  }

  lemma GrownKeepsBytes(before: seq<byte>, m: seq<byte>, payload: nat, oldSize: nat, size: nat)
    requires payload >= GUARD && Stamped(before, m, payload - GUARD, size) && oldSize <= size
    ensures m[payload..payload + oldSize] == before[payload..payload + oldSize]
  {
    assert m[payload..payload + size][..oldSize] == m[payload..payload + oldSize];
    assert before[payload..payload + size][..oldSize] == before[payload..payload + oldSize];
  }

  lemma PayloadsOfPrefix(bs: seq<Block>, b: Block)
    ensures forall j | 0 <= j < |bs| :: Payload(bs + [b], j) == Payload(bs, j) && (bs + [b])[j] == bs[j]
    ensures Payload(bs + [b], |bs|) == Extent(bs) + GUARD
  {
    forall j | 0 <= j <= |bs|
      ensures Payload(bs + [b], j) == if j < |bs| then Payload(bs, j) else Extent(bs) + GUARD
    {
      PayloadOfPrefix(bs, b, j);
    }
  }

  lemma PayloadOfPrefix(bs: seq<Block>, b: Block, j: nat)
    requires j <= |bs|
    ensures Payload(bs + [b], j) == if j < |bs| then Payload(bs, j) else Extent(bs) + GUARD
  {
    assert (bs + [b])[..j] == if j < |bs| then bs[..j] else bs;
  }

  lemma SliceBelow(m: seq<byte>, top: nat, lo: nat, hi: nat)
    requires lo <= hi <= top <= |m|
    ensures m[..top][lo..hi] == m[lo..hi]
  {
  }

  /** What lies below the point where the arrays differ reads the same. */
  lemma SamePrefix(a: seq<byte>, b: seq<byte>, top: nat, payload: nat, size: nat)
    requires top <= |a| == |b| && a[..top] == b[..top]
    requires payload >= WORD && payload + size + MARKER <= top
    ensures SamePayload(a, b, payload, size) && (Intact(a, payload, size) <==> Intact(b, payload, size))
  {
    hide Encode;
    SliceBelow(a, top, payload, payload + size);
    SliceBelow(b, top, payload, payload + size);
    SliceBelow(a, top, payload - WORD, payload);
    SliceBelow(b, top, payload - WORD, payload);
    SliceBelow(a, top, payload + size, payload + size + MARKER);
    SliceBelow(b, top, payload + size, payload + size + MARKER);
  }

  lemma NothingChanges(m: seq<byte>, bs: seq<Block>)
    requires Extent(bs) <= |m|
    ensures forall j | 0 <= j < |bs| :: SamePayload(m, m, Payload(bs, j), bs[j].size)
  {
    hide Extent, Total;
    forall j | 0 <= j < |bs| ensures SamePayload(m, m, Payload(bs, j), bs[j].size) {
      BlockFits(bs, j);
    }
  }

  lemma BlockFits(bs: seq<Block>, i: nat)
    requires i < |bs|
    ensures GUARD <= Payload(bs, i) && Start(bs, i) + Total(bs[i].size) <= Extent(bs)
    ensures Payload(bs, i) + bs[i].size + MARKER <= Extent(bs)
  {
    StartsOrdered(bs, i, |bs|);
    assert bs[..|bs|] == bs;
    TotalBound(bs[i].size);
  }

  lemma WordSized(size: nat, capacity: nat)
    requires Total(size) <= capacity && capacity + 32 < WORD_LIMIT
    ensures size < WORD_LIMIT == Power(WORD)
    ensures WordRoundUp((size + MARKER) % WORD_LIMIT) == RoundUp(size + MARKER) >= size + MARKER
  {
    TotalBound(size);
    WordPower();
  }

  /** A block is the last one exactly when it ends at the heap index. */
  lemma LastBlockEnds(bs: seq<Block>, i: nat)
    requires i < |bs|
    ensures Start(bs, i) + Total(bs[i].size) == Extent(bs) <==> i == |bs| - 1
    ensures Extent(Drop(bs, i)) == if i == |bs| - 1 then Start(bs, i) else Extent(bs)
  {
    StartStep(bs, i);
    if i < |bs| - 1 {
      StartsOrdered(bs, i + 1, |bs|);
      TotalBound(bs[i + 1].size);
      SameExtent(bs, i);
    }
  }

  lemma DropSizes(m: seq<byte>, bs: seq<Block>, i: nat)
    requires SizesHold(m, bs) && i < |bs|
    ensures SizesHold(m, Drop(bs, i))
    ensures AllIntact(m, bs) ==> AllIntact(m, Drop(bs, i))
  {
    hide Encode, Extent, HoldsAt, Intact;
    var d := Drop(bs, i);
    forall j | 0 <= j < |d| ensures Start(d, j) == Start(bs, j) && d[j].size == bs[j].size {
      if i < j {
        SameExtent(bs[..j], i);
        assert d[..j] == bs[..j][i := bs[i].(live := false)];
      } else {
        assert d[..j] == bs[..j];
      }
    }
  }

  lemma {:induction false} ZeroWord(s: seq<byte>)
    ensures Decode(s) == 0 <==> s == Encode(0, |s|)
    decreases |s|
  {
    if s != [] {
      ZeroWord(s[1..]);
      assert Encode(0, |s|) == [0] + Encode(0, |s| - 1);
      assert s == [s[0]] + s[1..];
      assert Encode(0, |s|)[1..] == Encode(0, |s| - 1);
    }
  }

  // ----- writes by the owner of a block -----

  /** Writes inside one block's payload leave every header, every marker and
      every other payload as they were. */
  lemma WritesInBlock(a: seq<byte>, b: seq<byte>, bs: seq<Block>, i: nat)
    requires i < |bs| && Extent(bs) <= |a| == |b|
    requires SameBut(a, b, Payload(bs, i), bs[i].size)
    ensures SizesHold(a, bs) ==> SizesHold(b, bs)
    ensures AllIntact(b, bs) <==> AllIntact(a, bs)
    ensures forall j | 0 <= j < |bs| && j != i :: SamePayload(a, b, Payload(bs, j), bs[j].size)
  {
    hide Extent, Encode, Start, Total, SamePayload, Intact, SameBut, HoldsAt;
    forall j | 0 <= j < |bs|
      ensures Intact(b, Payload(bs, j), bs[j].size) <==> Intact(a, Payload(bs, j), bs[j].size)
      ensures j != i ==> SamePayload(a, b, Payload(bs, j), bs[j].size)
      ensures HoldsAt(a, Start(bs, j), Encode(bs[j].size, WORD)) <==> HoldsAt(b, Start(bs, j), Encode(bs[j].size, WORD))
    {
      BlockFits(bs, j);
      BlockFits(bs, i);
      if j < i { BlocksDisjoint(bs, j, i); }
      if i < j { BlocksDisjoint(bs, i, j); }
      WritesElsewhere(a, b, Payload(bs, i), bs[i].size, Payload(bs, j), bs[j].size);
    }
  }

  /** The arrays differ only inside one payload. */
  ghost predicate SameBut(a: seq<byte>, b: seq<byte>, payload: nat, size: nat) {
    payload + size <= |a| == |b| && a[..payload] == b[..payload] && a[payload + size..] == b[payload + size..]
  }

  lemma WritesElsewhere(a: seq<byte>, b: seq<byte>, lo: nat, length: nat, p: nat, n: nat)
    requires SameBut(a, b, lo, length) && GUARD <= p && p + n + MARKER <= |a|
    requires p + n + MARKER <= lo || lo + length + GUARD <= p || (p == lo && n == length)
    ensures Intact(b, p, n) <==> Intact(a, p, n)
    ensures HoldsAt(a, p - GUARD, Encode(n, WORD)) <==> HoldsAt(b, p - GUARD, Encode(n, WORD))
    ensures (p, n) != (lo, length) ==> SamePayload(a, b, p, n)
  {
    hide Encode, SameBut, HoldsAt;
    HoldsOutside(a, b, lo, length, p - GUARD, Encode(n, WORD));
    HoldsOutside(a, b, lo, length, p - WORD, Encode(0, WORD));
    HoldsOutside(a, b, lo, length, p + n, END);
    if (p, n) != (lo, length) { SameOutside(a, b, lo, length, p, p + n); }
  }

  lemma HoldsOutside(a: seq<byte>, b: seq<byte>, lo: nat, length: nat, o: nat, bytes: seq<byte>)
    requires SameBut(a, b, lo, length) && o + |bytes| <= |a|
    requires o + |bytes| <= lo || lo + length <= o
    ensures HoldsAt(a, o, bytes) <==> HoldsAt(b, o, bytes)
  {
    SameOutside(a, b, lo, length, o, o + |bytes|);
  }

  lemma SliceAbove(m: seq<byte>, bottom: nat, lo: nat, hi: nat)
    requires bottom <= lo <= hi <= |m|
    ensures m[bottom..][lo - bottom..hi - bottom] == m[lo..hi]
  {
  }

  lemma SameOutside(a: seq<byte>, b: seq<byte>, lo: nat, length: nat, p: nat, q: nat)
    requires SameBut(a, b, lo, length) && p <= q <= |a| && (q <= lo || lo + length <= p)
    ensures |b| == |a| && a[p..q] == b[p..q]
  {
    var hi := lo + length;
    if q <= lo {
      SliceBelow(a, lo, p, q);
      SliceBelow(b, lo, p, q);
    } else {
      SliceAbove(a, hi, p, q);
      SliceAbove(b, hi, p, q);
    }
  }

  /** One byte written to an intact block is noticed exactly when it changes a
      byte of the guard space or of the end marker. */
  lemma StrayByteSeenExactly(m: seq<byte>, payload: nat, size: nat, k: nat, b: byte)
    requires Intact(m, payload, size) && k < |m|
    ensures !Intact(m[k := b], payload, size) <==>
              b != m[k] && (payload - WORD <= k < payload || payload + size <= k < payload + size + MARKER)
  {
    hide Encode;
    var w := m[k := b];
    if b == m[k] {
      assert w == m;
    } else if payload - WORD <= k < payload {
      assert w[payload - WORD..payload][k - (payload - WORD)] != m[payload - WORD..payload][k - (payload - WORD)];
    } else if payload + size <= k < payload + size + MARKER {
      var marker := payload + size;
      assert w[marker..marker + MARKER][k - marker] != m[marker..marker + MARKER][k - marker];
    } else {
      assert w[payload - WORD..payload] == m[payload - WORD..payload];
      assert w[payload + size..payload + size + MARKER] == m[payload + size..payload + size + MARKER];
    }
  }
}
