/** One heap region: the bytes of a page, of a span of pages or of the shared
    region, worked on in place, with the usage field of its page header. */
module Region {
  import opened Options
  import opened ChunkList
  import opened ChunkListLemmas
  import opened HeaderBytes
  import opened RegionBytes
  import opened RegionCode

  class Region {
    const memory: array<byte>
    var usage: int  // a `short`
    ghost var chunks: seq<Chunk>

    ghost predicate Encoded()
      reads this, memory
    {
      memory.Length <= MAX_REGION && Encodes(memory[..], chunks) && -0x8000 <= usage < 0x8000
    }

    ghost predicate Valid()
      reads this, memory
    {
      Encoded() && Shape(chunks)
    }

    /** Sets a region up in memory of arbitrary contents: clears its first page
        and writes one header for the whole of it. */
    constructor (memory: array<byte>, pages: nat)
      requires 1 <= pages && memory.Length == pages * PAGE_SIZE
      modifies memory
      ensures this.memory == memory && chunks == Fresh(memory.Length) && usage == AsShort(memory.Length - HEADER)
      ensures SizeAt(memory[..], 0) == (memory.Length - HEADER) % 0x1_0000
      ensures pages <= 8 ==> Valid() && usage == memory.Length - HEADER
      ensures forall k | HEADER <= k < PAGE_SIZE :: memory[k] == 0
    {
      this.memory := memory;
      this.usage := AsShort(memory.Length - HEADER);
      this.chunks := Fresh(memory.Length);
      new;
      Initialize();
    }

    method Initialize()
      requires memory.Length % PAGE_SIZE == 0 && PAGE_SIZE <= memory.Length
      modifies memory
      ensures memory[0] == 1 && SizeAt(memory[..], 0) == (memory.Length - HEADER) % 0x1_0000
      ensures PrevAt(memory[..], 0) == 0
      ensures memory.Length <= MAX_REGION ==> Encodes(memory[..], Fresh(memory.Length))
      ensures forall k | HEADER <= k < PAGE_SIZE :: memory[k] == 0
      ensures forall k | PAGE_SIZE <= k < memory.Length :: memory[k] == old(memory[k])
    {
      for i := 0 to PAGE_SIZE
        invariant forall k | 0 <= k < i :: memory[k] == 0
        invariant forall k | PAGE_SIZE <= k < memory.Length :: memory[k] == old(memory[k])
      {
        memory[i] := 0;
      }
      ghost var cleared := memory[..];
      SetFree(0, true);
      SetSize(0, memory.Length - HEADER);
      SetPrev(0, 0);
      PutSizeReads(PutFree(cleared, 0, true), 0, memory.Length - HEADER);
      PutPrevReads(PutSize(PutFree(cleared, 0, true), 0, memory.Length - HEADER), 0, 0);
      if memory.Length <= MAX_REGION {
        FreshEncodes(cleared, memory[..]);
      }
    }

    // ----- header fields -----

    function SizeOf(o: int): nat
      requires 0 <= o <= memory.Length - HEADER
      reads memory
    {
      SizeAt(memory[..], o)
    }

    method SetFree(o: int, free: bool)
      requires 0 <= o <= memory.Length - HEADER
      modifies memory
      ensures memory[..] == PutFree(old(memory[..]), o, free)
    {
      memory[o] := if free then 1 else 0;
    }

    method SetSize(o: int, v: int)
      requires 0 <= o <= memory.Length - HEADER
      modifies memory
      ensures memory[..] == PutSize(old(memory[..]), o, v)
    {
      memory[o + 2] := v % 256;
      memory[o + 3] := (v / 256) % 256;
    }

    method SetPrev(o: int, v: int)
      requires 0 <= o <= memory.Length - HEADER
      modifies memory
      ensures memory[..] == PutPrev(old(memory[..]), o, v)
    {
      memory[o + 4] := v % 256;
      memory[o + 5] := (v / 256) % 256;
    }

    // ----- allocation -----

    /** First fit: walks the headers, splits the first free chunk that is large
        enough when the rest can hold a header and a byte, and charges the
        page's usage field.  Returns the payload offset, or None for null. */
    method FindFreeChunk(size: nat) returns (location: Option<nat>)
      requires Valid() && size >= 1
      modifies this`usage, this`chunks, memory
      ensures Valid()
      ensures chunks == Alloc(old(chunks), size)
      ensures location == AllocAddr(old(chunks), size)
      ensures usage == AsShort(old(usage) - AllocCharge(old(chunks), size))
      ensures memory[..] == AllocBytes(old(memory[..]), size).bytes
      ensures location.None? ==> memory[..] == old(memory[..])
      ensures KeepsAll(old(memory[..]), memory[..], Live(old(chunks), 0))
    {
      hide Encodes, Live, Walks, Extent, KeepsAll, SameIn, AllocAt, Shape, AsShort, Start;
      ghost var cs := chunks;
      ghost var i := FirstFit(cs, size);
      var pointer := FindFit(size);
      AllKept(memory[..], cs);
      InShort(usage);
      Ends(memory[..], cs);
      FitFromIs(memory[..], cs, 0, size);
      if pointer == memory.Length {
        return None;
      }
      WalksAt(memory[..], cs, i);
      Take(pointer, size, i);
      return Some(pointer + HEADER);
    }

    /** Walks the headers until the first free chunk that is large enough;
        memory.Length when there is none. */
    method FindFit(size: nat) returns (pointer: nat)
      requires Encoded()
      ensures pointer <= memory.Length
      ensures pointer == memory.Length <==> FirstFit(chunks, size) == |chunks|
      ensures pointer == Start(chunks, FirstFit(chunks, size))
    {
      hide Encodes, Walks, Extent, PrevAt;
      ghost var m, cs := memory[..], chunks;
      ghost var i: nat := 0;
      pointer := 0;
      Ends(m, cs);
      while pointer < memory.Length
        invariant i <= |cs| && pointer == Start(cs, i) <= memory.Length
        invariant i == |cs| <==> pointer == memory.Length
        invariant forall j | 0 <= j < i :: !Fits(cs[j], size)
        decreases |cs| - i
      {
        WalksAt(m, cs, i);
        if memory[pointer] == 1 && SizeOf(pointer) >= size {
          break;
        }
        pointer := pointer + SizeOf(pointer) + HEADER;
        i := i + 1;
      }
      assert FirstFit(cs, size) == i;
    }

    /** The body of the loop once a chunk has been found. */
    method Take(pointer: nat, size: nat, ghost i: nat)
      requires Valid() && size >= 1 && i < |chunks| && Fits(chunks[i], size)
      requires pointer == Start(chunks, i) && pointer + HEADER <= memory.Length
      requires SizeAt(memory[..], pointer) == chunks[i].size
      modifies this`usage, this`chunks, memory
      ensures Valid() && chunks == AllocAt(old(chunks), i, size)
      ensures usage == AsShort(old(usage) - if Splits(old(chunks)[i], size) then size + HEADER else size)
      ensures pointer + HEADER + SizeAt(old(memory[..]), pointer) <= memory.Length
      ensures memory[..] == if SizeAt(old(memory[..]), pointer) - size > HEADER
                            then SplitBytes(old(memory[..]), pointer, size)
                            else PutFree(old(memory[..]), pointer, false)
      ensures KeepsAll(old(memory[..]), memory[..], Live(old(chunks), 0))
    {
      hide Encodes, Walks, ChangesWithin, Start, SplitBytes, KeepsAll, Live, Extent, Shape, AsShort;
      ghost var m, cs := memory[..], chunks;
      WalksAt(m, cs, i);
      AllocShape(cs, i, size);
      if SizeOf(pointer) - size > HEADER {
        SplitEncodes(m, cs, i, size);
        WriteSplit(pointer, size);
        usage := AsShort(usage - size - HEADER);
      } else {
        MarkTakenEncodes(m, cs, i, size);
        usage := AsShort(usage - size);
        SetFree(pointer, false);
      }
      chunks := AllocAt(cs, i, size);
      ReplaceKeeps(m, memory[..], cs, i, i + 1);
    }

    /** The header writes of a split, in the source's order. */
    method WriteSplit(pointer: nat, size: nat)
      requires memory.Length <= MAX_REGION && pointer + HEADER <= memory.Length
      requires pointer + HEADER + SizeAt(memory[..], pointer) <= memory.Length
      requires pointer + HEADER + SizeAt(memory[..], pointer) < memory.Length ==>
                 pointer + HEADER + SizeAt(memory[..], pointer) + HEADER <= memory.Length
      requires SizeAt(memory[..], pointer) - size > HEADER
      modifies memory
      ensures memory[..] == SplitBytes(old(memory[..]), pointer, size)
    {
      ghost var m := memory[..];
      var next := pointer + size + HEADER;
      SetPrev(next, size);
      SetFree(next, true);
      assert SizeOf(pointer) == SizeAt(m, pointer);
      SetSize(next, SizeOf(pointer) - size - HEADER);
      SetSize(pointer, size);
      SetFree(pointer, false);
      SplitRest(m, pointer, size);
      var after := next + SizeOf(next) + HEADER;
      if after < memory.Length {
        SetPrev(after, SizeOf(next));
      }
    }

    // ----- release -----

    /** Merges the chunk at `right` into the one at `left` when both lie in the
        region and are free. */
    method Coalesce(left: int, right: int, ghost k: int) returns (merged: bool)
      requires Encoded() && -1 <= k < |chunks|
      requires left == if k < 0 then -6 else Start(chunks, k)
      requires right == Start(chunks, k + 1)
      modifies this`usage, this`chunks, memory
      ensures Encoded() && merged == BothFree(old(chunks), k)
      ensures chunks == ChunkList.Coalesce(old(chunks), k)
      ensures usage == if merged then AsShort(old(usage) + HEADER) else old(usage)
      ensures (memory[..], merged) == CoalesceBytes(old(memory[..]), left, right)
      ensures !merged ==> memory[..] == old(memory[..])
      ensures merged ==> SameIn(old(memory[..]), memory[..], left + HEADER, Start(old(chunks), k + 2))
      ensures KeepsAll(old(memory[..]), memory[..], Live(old(chunks), 0))
    {
      hide Encodes, Walks, ChangesWithin, Start, MergeBytes, KeepsAll, Live, Extent, AsShort;
      ghost var m, cs := memory[..], chunks;
      StartEnd(cs);
      AllKept(m, cs);
      if k >= 0 { WalksAt(m, cs, k); }
      if left < 0 || memory.Length - right <= 0 {
        return false;
      }
      WalksAt(m, cs, k + 1);
      if memory[left] == 0 || memory[right] == 0 {
        return false;
      }
      MergeEncodes(m, cs, k);
      MergeSame(m, left, right);
      WriteMerge(left, right);
      usage := AsShort(usage + HEADER);
      chunks := ChunkList.Coalesce(cs, k);
      ReplaceKeeps(m, memory[..], cs, k, k + 2);
      return true;
    }

    /** Releases the block whose payload starts at addr: walks the headers to
        make sure that it is one, marks it free, clears it, credits the usage
        field and merges with the free neighbours. */
    method Free(addr: int) returns (outcome: FreeOutcome)
      requires Valid()
      modifies this`usage, this`chunks, memory
      ensures Valid()
      ensures outcome == FreeResult(old(chunks), memory.Length, addr)
      ensures chunks == ChunkList.Free(old(chunks), addr)
      ensures usage == AsShort(old(usage) + FreeCredit(old(chunks), addr))
      ensures memory[..] == ReleaseBytes(old(memory[..]), addr).bytes
      ensures !outcome.Released? ==> memory[..] == old(memory[..])
      ensures forall b, x | outcome.Released? && b in Live(old(chunks), 0) && b.addr == addr
                            && b.addr <= x < b.addr + b.size && x < memory.Length :: memory[x] == 0
      ensures KeepsAll(old(memory[..]), memory[..], set b | b in Live(old(chunks), 0) && b.addr != addr)
    {
      hide Encodes, Live, Walks, Extent, KeepsAll, SameIn, AsShort, Start, ChunkList.Coalesce, Merged,
           Shape, PayloadIndex, MarkBytes, JoinBytes;
      ghost var m, cs := memory[..], chunks;
      ghost var i := PayloadIndex(cs, addr);
      NothingFreed(m, cs, addr);
      Ends(m, cs);
      HeaderFromIs(m, cs, 0, addr);
      InShort(usage);
      if addr < 0 || addr > memory.Length {
        return OutOfRange;
      }
      var pointer := FindHeader(addr);
      if pointer >= memory.Length {
        return NotAPayload;
      }
      WalksAt(m, cs, i);
      if memory[pointer] == 1 {
        return AlreadyFree;
      }
      MarkFree(pointer, i);
      ghost var m1, size, credited := memory[..], cs[i].size, usage;
      MergeAround(pointer, i);
      FreeKeeps(m, m1, memory[..], cs, i);
      ZerosStay(m1, memory[..], pointer + HEADER, pointer + HEADER + size);
      ReleaseShape(cs, i);
      ReleaseIsMerged(cs, i);
      CreditIs(cs, addr, old(usage), credited);
      return Released;
    }

    /** Walks the headers until the one just before addr; memory.Length when
        there is none. */
    method FindHeader(addr: int) returns (pointer: nat)
      requires Encoded()
      ensures pointer <= memory.Length
      ensures pointer == memory.Length <==> PayloadIndex(chunks, addr) == |chunks|
      ensures pointer == Start(chunks, PayloadIndex(chunks, addr))
    {
      hide Encodes, Walks, Extent;
      ghost var m, cs := memory[..], chunks;
      ghost var i: nat := 0;
      pointer := 0;
      Ends(m, cs);
      while pointer < memory.Length
        invariant i <= |cs| && pointer == Start(cs, i) <= memory.Length
        invariant i == |cs| <==> pointer == memory.Length
        invariant forall j | 0 <= j < i :: Start(cs, j) + HEADER != addr
        decreases |cs| - i
      {
        WalksAt(m, cs, i);
        if pointer + HEADER == addr {
          break;
        }
        pointer := pointer + HEADER + SizeOf(pointer);
        i := i + 1;
      }
      assert PayloadIndex(cs, addr) == i;
    }

    /** Sets the flag, clears the payload and credits it. */
    method MarkFree(pointer: nat, ghost i: nat)
      requires Encoded() && i < |chunks| && !chunks[i].free
      requires pointer == Start(chunks, i) && pointer + HEADER <= memory.Length
      requires SizeAt(memory[..], pointer) == chunks[i].size
      modifies this`usage, this`chunks, memory
      ensures Encoded() && chunks == old(chunks)[i := Chunk(true, old(chunks)[i].size)]
      ensures usage == AsShort(old(usage) + old(chunks)[i].size)
      ensures memory[..] == MarkBytes(old(memory[..]), pointer, old(chunks)[i].size)
      ensures Start(chunks, i) == pointer && pointer + HEADER + chunks[i].size <= memory.Length
      ensures forall x | pointer + HEADER <= x < pointer + HEADER + chunks[i].size :: memory[x] == 0
      ensures ChangesWithin(old(memory[..]), memory[..], pointer, Start(old(chunks), i + 1))
    {
      hide Encodes;
      ghost var m, cs := memory[..], chunks;
      WalksAt(m, cs, i);
      var size := SizeOf(pointer);
      SetFree(pointer, true);
      for k := 0 to size
        invariant forall x | pointer + HEADER <= x < pointer + HEADER + k :: memory[x] == 0
        invariant memory[pointer] == 1 && usage == old(usage)
        invariant forall x | 0 <= x < memory.Length && memory[x] != m[x] ::
                    x == pointer || pointer + HEADER <= x < pointer + HEADER + k
      {
        memory[pointer + HEADER + k] := 0;
      }
      MarkEncodes(m, memory[..], cs, i, true);
      usage := AsShort(usage + size);
      chunks := cs[i := Chunk(true, cs[i].size)];
      assert chunks[..i] == cs[..i];
    }

    /** Coalesces chunk i, just marked free, with its predecessor and then the
        result with its successor. */
    method MergeAround(pointer: nat, ghost i: nat)
      requires Encoded() && i < |chunks| && chunks[i].free && pointer == Start(chunks, i)
      modifies this`usage, this`chunks, memory
      ensures Encoded() && chunks == Merged(old(chunks), i) && pointer + HEADER <= memory.Length
      ensures memory[..] == JoinBytes(old(memory[..]), pointer).bytes
      ensures usage == AsShort(old(usage) + (if BothFree(old(chunks), i - 1) then HEADER else 0)
                                          + (if BothFree(old(chunks), i) then HEADER else 0))
      ensures SameIn(old(memory[..]), memory[..], pointer + HEADER, pointer + HEADER + old(chunks)[i].size)
      ensures KeepsAll(old(memory[..]), memory[..], Live(old(chunks), 0))
    {
      hide Encodes, Live, Walks, Extent, KeepsAll, AsShort, Start, ChunkList.Coalesce, SameIn, CoalesceBytes;
      ghost var m, cs := memory[..], chunks;
      var header := MergeLeft(pointer, i);
      ghost var m1, left := memory[..], chunks;
      CoalescedStart(cs, i);
      ghost var j: nat := if BothFree(cs, i - 1) then i - 1 else i;
      WalksAt(m1, left, j);
      var merged := Coalesce(header, header + SizeOf(header) + HEADER, j);
      UsageSums(old(usage), BothFree(cs, i - 1), BothFree(cs, i));
      Narrow(m1, memory[..], header + HEADER, if merged then Start(left, j + 2) else 0,
             pointer + HEADER, pointer + HEADER + cs[i].size);
      KeepsTransitive(m, m1, memory[..], Live(cs, 0), pointer + HEADER, pointer + HEADER + cs[i].size);
    }

    /** The first of the two merges; returns the header of the chunk that now
        holds chunk i. */
    method MergeLeft(pointer: nat, ghost i: nat) returns (header: nat)
      requires Encoded() && i < |chunks| && chunks[i].free && pointer == Start(chunks, i)
      modifies this`usage, this`chunks, memory
      ensures Encoded() && chunks == ChunkList.Coalesce(old(chunks), i - 1)
      ensures header == Start(old(chunks), if BothFree(old(chunks), i - 1) then i - 1 else i)
      ensures pointer + HEADER <= memory.Length
      ensures var previous := pointer - PrevAt(old(memory[..]), pointer) - HEADER;
        var (joined, left) := CoalesceBytes(old(memory[..]), previous, pointer);
        memory[..] == joined && header == if left then previous else pointer
      ensures usage == if BothFree(old(chunks), i - 1) then AsShort(old(usage) + HEADER) else old(usage)
      ensures SameIn(old(memory[..]), memory[..], pointer + HEADER, pointer + HEADER + old(chunks)[i].size)
      ensures KeepsAll(old(memory[..]), memory[..], Live(old(chunks), 0))
    {
      hide Encodes, Live, Walks, Extent, KeepsAll, SameIn, AsShort, Start, ChunkList.Coalesce;
      ghost var cs, k: int := chunks, i - 1;
      ghost var m := memory[..];
      WalksAt(m, cs, i);
      Ends(m, cs);
      if i > 0 { StartStep(cs, i - 1); }
      var previous := pointer - PrevOf(pointer) - HEADER;
      header := pointer;
      var merged := Coalesce(previous, pointer, k);
      if merged {
        header := previous;
      }
      Narrow(m, memory[..], previous + HEADER, Start(cs, i + 1), pointer + HEADER, Start(cs, i + 1));
    }

    function PrevOf(o: int): int
      requires 0 <= o <= memory.Length - HEADER
      reads memory
    {
      PrevAt(memory[..], o)
    }

    method WriteMerge(left: nat, right: nat)
      requires memory.Length <= MAX_REGION && left + HEADER <= memory.Length && right + HEADER <= memory.Length
      requires right == left + HEADER + SizeAt(memory[..], left)
      requires right + HEADER + SizeAt(memory[..], right) <= memory.Length
      requires right + HEADER + SizeAt(memory[..], right) < memory.Length ==>
                 right + HEADER + SizeAt(memory[..], right) + HEADER <= memory.Length
      modifies memory
      ensures memory[..] == MergeBytes(old(memory[..]), left, right)
    {
      ghost var m := memory[..];
      SetSize(left, SizeOf(left) + (SizeOf(right) + HEADER));
      assert SizeOf(left) == SizeAt(m, left) + SizeAt(m, right) + HEADER by {
        PutSizeReads(m, left, SizeAt(m, left) + SizeAt(m, right) + HEADER);
      }
      var after := right + SizeOf(right) + HEADER;
      if after < memory.Length {
        SetPrev(after, SizeOf(left));
      }
    }
  }

  /** Bytes lo..hi are the same in both. */
  ghost predicate SameIn(m: seq<byte>, r: seq<byte>, lo: int, hi: int) {
    |m| == |r| && forall x | 0 <= x < |m| && lo <= x < hi :: m[x] == r[x]
  }

  /** The bytes of every block are the same in both. */
  ghost predicate KeepsAll(m: seq<byte>, r: seq<byte>, bs: set<Block>) {
    forall b | b in bs :: Keeps(m, r, b)
  }

  /** The block's bytes are the same in both. */
  ghost predicate Keeps(m: seq<byte>, r: seq<byte>, b: Block) {
    0 <= b.addr && b.addr + b.size <= |m| == |r| && r[b.addr..b.addr + b.size] == m[b.addr..b.addr + b.size]
  }

  lemma InShort(x: int)
    requires -0x8000 <= x < 0x8000
    ensures AsShort(x) == x
  {
  }

  lemma Ends(m: seq<byte>, cs: seq<Chunk>)
    requires Encodes(m, cs)
    ensures Start(cs, 0) == 0 && Start(cs, |cs|) == |m| == Extent(cs)
    ensures |cs| == 0 <==> |m| == 0
  {
    StartEnd(cs);
  }

  lemma MergeSame(m: seq<byte>, left: nat, right: nat)
    requires left + HEADER <= |m| && right + HEADER <= |m| && left < right
    ensures SameIn(m, MergeBytes(m, left, right), left + HEADER, right + HEADER + SizeAt(m, right))
  {
  }

  lemma ZerosStay(m: seq<byte>, r: seq<byte>, lo: nat, hi: nat)
    requires hi <= |m| && SameIn(m, r, lo, hi)
    requires forall x | lo <= x < hi :: m[x] == 0
    ensures |m| == |r| && forall x | lo <= x < hi :: r[x] == 0
  {
  }

  lemma NothingFreed(m: seq<byte>, cs: seq<Chunk>, addr: int)
    requires Encodes(m, cs)
    ensures KeepsAll(m, m, set b | b in Live(cs, 0) && b.addr != addr)
  {
    AllKept(m, cs);
  }

  lemma AllKept(m: seq<byte>, cs: seq<Chunk>)
    requires Encodes(m, cs)
    ensures KeepsAll(m, m, Live(cs, 0))
  {
    forall b | b in Live(cs, 0) ensures Keeps(m, m, b) { LiveBounds(cs, 0, b); }
  }

  lemma ReplaceKeeps(m: seq<byte>, r: seq<byte>, cs: seq<Chunk>, i: nat, j: nat)
    requires i <= j <= |cs| && Encodes(m, cs) && ChangesWithin(m, r, Start(cs, i), Start(cs, j))
    requires forall k | i <= k < j :: cs[k].free
    ensures KeepsAll(m, r, Live(cs, 0))
  {
    hide Live, Start;
    forall b | b in Live(cs, 0) ensures Keeps(m, r, b) {
      ReplaceKeepsPayloads(m, r, cs, i, j, b);
    }
  }

  function Merged(cs: seq<Chunk>, i: nat): seq<Chunk> {
    ChunkList.Coalesce(ChunkList.Coalesce(cs, i - 1), if BothFree(cs, i - 1) then i - 1 else i)
  }

  lemma ReleaseIsMerged(cs: seq<Chunk>, i: nat)
    requires i < |cs|
    ensures Release(cs, i) == Merged(cs[i := Chunk(true, cs[i].size)], i)
  {
  }

  lemma CreditIs(cs: seq<Chunk>, addr: int, before: int, credited: int)
    requires FreeResult(cs, Extent(cs), addr).Released?
    requires credited == AsShort(before + cs[PayloadIndex(cs, addr)].size)
    ensures var i := PayloadIndex(cs, addr);
      var marked := cs[i := Chunk(true, cs[i].size)];
      AsShort(credited + (if BothFree(marked, i - 1) then HEADER else 0) + (if BothFree(marked, i) then HEADER else 0))
        == AsShort(before + FreeCredit(cs, addr))
  {
    var i: int := PayloadIndex(cs, addr);
    var marked := cs[i := Chunk(true, cs[i].size)];
    var d := (if BothFree(marked, i - 1) then HEADER else 0) + (if BothFree(marked, i) then HEADER else 0);
    AsShortCongruent(before + cs[i].size, before + cs[i].size, 0);
    AsShortCongruent(credited, before + cs[i].size, d);
  }

  lemma KeepsTransitive(m: seq<byte>, m1: seq<byte>, r: seq<byte>, bs: set<Block>, lo: int, hi: int)
    requires KeepsAll(m, m1, bs) && KeepsAll(m1, r, bs)
    requires SameIn(m, m1, lo, hi) && SameIn(m1, r, lo, hi)
    ensures KeepsAll(m, r, bs) && SameIn(m, r, lo, hi)
  {
  }

  lemma Narrow(m: seq<byte>, r: seq<byte>, lo: int, hi: int, lo': int, hi': int)
    requires m == r || (SameIn(m, r, lo, hi) && lo <= lo' && hi' <= hi)
    ensures SameIn(m, r, lo', hi')
  {
  }

  lemma UsageSums(usage: int, p: bool, q: bool)
    requires -0x8000 <= usage < 0x8000
    ensures var u := if p then AsShort(usage + HEADER) else usage;
      (if q then AsShort(u + HEADER) else u)
        == AsShort(usage + (if p then HEADER else 0) + (if q then HEADER else 0))
  {
    if p && q { AsShortCongruent(AsShort(usage + HEADER), usage + HEADER, HEADER); }
    AsShortCongruent(usage + HEADER, usage + HEADER, 0);
  }

  lemma FreeKeeps(m: seq<byte>, m1: seq<byte>, r: seq<byte>, cs: seq<Chunk>, i: nat)
    requires i < |cs| && !cs[i].free && Extent(cs) == |m|
    requires ChangesWithin(m, m1, Start(cs, i), Start(cs, i + 1))
    requires KeepsAll(m1, r, Live(cs[i := Chunk(true, cs[i].size)], 0))
    ensures KeepsAll(m, r, set b | b in Live(cs, 0) && b.addr != Start(cs, i) + HEADER)
    ensures forall b | b in Live(cs, 0) && b.addr == Start(cs, i) + HEADER :: b.size == cs[i].size
  {
    hide Start, Live, Extent;
    MarkEffect(cs, i);
    forall b | b in Live(cs, 0) && b.addr != Start(cs, i) + HEADER ensures Keeps(m, r, b) {
      ReplaceKeepsPayloads(m, m1, cs, i, i + 1, b);
      assert Keeps(m1, r, b);
    }
    forall b | b in Live(cs, 0) && b.addr == Start(cs, i) + HEADER ensures b.size == cs[i].size {
      var j := LiveIndex(cs, 0, b);
      PayloadUnique(cs, i, j);
    }
  }

  lemma FreshEncodes(cleared: seq<byte>, m: seq<byte>)
    requires HEADER < |cleared| <= MAX_REGION
    requires m == PutPrev(PutSize(PutFree(cleared, 0, true), 0, |cleared| - HEADER), 0, 0)
    ensures Encodes(m, Fresh(|m|))
  {
    var s := PutSize(PutFree(cleared, 0, true), 0, |cleared| - HEADER);
    PutSizeReads(PutFree(cleared, 0, true), 0, |cleared| - HEADER);
    PutPrevReads(s, 0, 0);
    Single(Fresh(|m|)[0], 0);
    WalksOne(m, 0, 0, Fresh(|m|)[0]);
  }

  lemma SplitRest(m: seq<byte>, o: nat, size: nat)
    requires |m| <= MAX_REGION && o + HEADER <= |m|
    requires o + HEADER + SizeAt(m, o) <= |m| && SizeAt(m, o) - size > HEADER
    ensures var next, rest := o + HEADER + size, SizeAt(m, o) - size - HEADER;
      SizeAt(PutFree(PutSize(PutHeader(m, next, true, rest, size), o, size), o, false), next) == rest
  {
    hide AsShort;
    var next, rest := o + HEADER + size, SizeAt(m, o) - size - HEADER;
    PutHeaderReads(m, next, true, rest, size);
  }
}
