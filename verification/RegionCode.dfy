/** What `findFreeChunk` and `myfree` do to the bytes of a region, as functions of
    those bytes, and that on an encoding they are allocation and release. */
module RegionCode {
  import opened Options
  import opened ChunkList
  import opened ChunkListLemmas
  import opened HeaderBytes
  import opened RegionBytes

  // ----- allocation -----

  /** The walk for a free chunk that is large enough, from the header at o on; the
      length when there is none. */
  function FitFrom(m: seq<byte>, o: nat, size: nat): (p: nat)
    ensures p == |m| || p + HEADER <= |m|
    decreases |m| - o
  {
    if o + HEADER > |m| then |m|
    else if m[o] == 1 && SizeAt(m, o) >= size then o
    else FitFrom(m, o + SizeAt(m, o) + HEADER, size)
  }

  /** The region afterwards, the payload offset that is handed out, and what is
      taken off the usage field. */
  datatype Carving = Carving(bytes: seq<byte>, offset: Option<nat>, charge: nat)

  function AllocBytes(m: seq<byte>, size: nat): (r: Carving)
    ensures |r.bytes| == |m|
  {
    var o := FitFrom(m, 0, size);
    if o == |m| then Carving(m, None, 0)
    else if SizeAt(m, o) - size > HEADER && o + HEADER + SizeAt(m, o) <= |m|
    then Carving(SplitBytes(m, o, size), Some(o + HEADER), size + HEADER)
    else Carving(PutFree(m, o, false), Some(o + HEADER), size)
  }

  lemma {:induction false} FitFromIs(m: seq<byte>, cs: seq<Chunk>, i: nat, size: nat)
    requires Encodes(m, cs) && i <= |cs| && forall j | 0 <= j < i :: !Fits(cs[j], size)
    ensures FitFrom(m, Start(cs, i), size) == Start(cs, FirstFit(cs, size)) <= |m|
    ensures FirstFit(cs, size) == |cs| <==> Start(cs, FirstFit(cs, size)) == |m|
    decreases |cs| - i
  {
    hide Encodes, Walks, Extent, PrevAt, Start;
    EndsAt(m, cs);
    if i < |cs| {
      WalksAt(m, cs, i);
      if !Fits(cs[i], size) {
        FitFromIs(m, cs, i + 1, size);
      }
    }
  }

  lemma EndsAt(m: seq<byte>, cs: seq<Chunk>)
    requires Encodes(m, cs)
    ensures Start(cs, 0) == 0 && Start(cs, |cs|) == |m|
  {
    StartEnd(cs);
  }

  lemma MarkTakenEncodes(m: seq<byte>, cs: seq<Chunk>, i: nat, size: nat)
    requires Encodes(m, cs) && i < |cs| && Fits(cs[i], size) && !Splits(cs[i], size)
    ensures Start(cs, i) + HEADER + cs[i].size <= |m|
    ensures Encodes(PutFree(m, Start(cs, i), false), AllocAt(cs, i, size))
    ensures ChangesWithin(m, PutFree(m, Start(cs, i), false), Start(cs, i), Start(cs, i + 1))
  {
    WalksAt(m, cs, i);
    MarkEncodes(m, PutFree(m, Start(cs, i), false), cs, i, false);
    assert cs[i := Chunk(false, cs[i].size)] == AllocAt(cs, i, size);
  }

  /** On an encoding, the code carves out what first fit gives. */
  lemma AllocBytesIs(m: seq<byte>, cs: seq<Chunk>, size: nat)
    requires Encodes(m, cs) && |m| <= MAX_REGION
    ensures Encodes(AllocBytes(m, size).bytes, Alloc(cs, size))
    ensures AllocBytes(m, size).offset == AllocAddr(cs, size)
    ensures AllocBytes(m, size).charge == AllocCharge(cs, size)
    ensures AllocAddr(cs, size).None? ==> AllocBytes(m, size).bytes == m
  {
    hide Encodes, Walks, Extent, PrevAt, Start, SplitBytes, AllocAt, FirstFit, FitFrom, ChangesWithin, PutFree;
    var i := FirstFit(cs, size);
    EndsAt(m, cs);
    FitFromIs(m, cs, 0, size);
    if i < |cs| {
      WalksAt(m, cs, i);
      if Splits(cs[i], size) {
        SplitEncodes(m, cs, i, size);
      } else {
        MarkTakenEncodes(m, cs, i, size);
      }
    }
  }

  // ----- release -----

  /** The walk for the header just before addr, from the one at o on. */
  function HeaderFrom(m: seq<byte>, o: nat, addr: int): (p: nat)
    ensures p == |m| || (p + HEADER <= |m| && p + HEADER == addr)
    decreases |m| - o
  {
    if o + HEADER > |m| then |m|
    else if o + HEADER == addr then o
    else HeaderFrom(m, o + HEADER + SizeAt(m, o), addr)
  }

  /** The flag set and the payload cleared. */
  function MarkBytes(m: seq<byte>, o: nat, size: nat): (r: seq<byte>)
    requires o + HEADER <= |m|
    ensures |r| == |m|
  {
    seq(|m|, x requires 0 <= x < |m| =>
      if x == o then 1 else if o + HEADER <= x < o + HEADER + size then 0 else m[x])
  }

  /** `coalesce`: merges when both headers lie in the region and are free. */
  function CoalesceBytes(m: seq<byte>, left: int, right: int): (r: (seq<byte>, bool))
    ensures |r.0| == |m| && (r.1 ==> 0 <= left && left + HEADER <= |m|)
  {
    if left < 0 || right < 0 || left + HEADER > |m| || right + HEADER > |m| then (m, false)
    else if m[left] == 0 || m[right] == 0 then (m, false)
    else (MergeBytes(m, left, right), true)
  }

  /** The region afterwards, and what is added to the usage field. */
  datatype Releasing = Releasing(bytes: seq<byte>, credit: nat)

  /** The chunk with its header at o, just marked, merged with its predecessor and
      then with its successor. */
  function JoinBytes(m: seq<byte>, o: nat): (r: Releasing)
    requires o + HEADER <= |m|
    ensures |r.bytes| == |m|
  {
    var previous := o - PrevAt(m, o) - HEADER;
    var (joined, left) := CoalesceBytes(m, previous, o);
    var header := if left then previous else o;
    var (out, right) := CoalesceBytes(joined, header, header + HEADER + SizeAt(joined, header));
    Releasing(out, (if left then HEADER else 0) + (if right then HEADER else 0))
  }

  function ReleaseBytes(m: seq<byte>, addr: int): (r: Releasing)
    ensures |r.bytes| == |m|
  {
    var o := HeaderFrom(m, 0, addr);
    if addr < 0 || addr > |m| || o == |m| || m[o] == 1 then Releasing(m, 0)
    else
      var r := JoinBytes(MarkBytes(m, o, SizeAt(m, o)), o);
      r.(credit := r.credit + SizeAt(m, o))
  }

  lemma {:induction false} HeaderFromIs(m: seq<byte>, cs: seq<Chunk>, i: nat, addr: int)
    requires Encodes(m, cs) && i <= |cs| && forall j | 0 <= j < i :: Start(cs, j) + HEADER != addr
    ensures HeaderFrom(m, Start(cs, i), addr) == Start(cs, PayloadIndex(cs, addr)) <= |m|
    ensures PayloadIndex(cs, addr) == |cs| <==> Start(cs, PayloadIndex(cs, addr)) == |m|
    decreases |cs| - i
  {
    hide Encodes, Walks, Extent, PrevAt, Start;
    EndsAt(m, cs);
    if i < |cs| {
      WalksAt(m, cs, i);
      if Start(cs, i) + HEADER != addr {
        HeaderFromIs(m, cs, i + 1, addr);
      } else {
        assert PayloadIndex(cs, addr) == i;
      }
    } else {
      assert PayloadIndex(cs, addr) == i;
    }
  }

  lemma MarkBytesIs(m: seq<byte>, cs: seq<Chunk>, i: nat)
    requires Encodes(m, cs) && i < |cs|
    ensures Start(cs, i) + HEADER + cs[i].size <= |m|
    ensures Encodes(MarkBytes(m, Start(cs, i), cs[i].size), cs[i := Chunk(true, cs[i].size)])
  {
    hide Encodes, Walks, Extent, PrevAt, Start;
    WalksAt(m, cs, i);
    MarkEncodes(m, MarkBytes(m, Start(cs, i), cs[i].size), cs, i, true);
  }

  /** On an encoding, merging at a chunk's header merges in the list. */
  lemma CoalesceBytesIs(m: seq<byte>, cs: seq<Chunk>, k: int, left: int, right: int)
    requires Encodes(m, cs) && |m| <= MAX_REGION && -1 <= k < |cs|
    requires left == if k < 0 then -6 else Start(cs, k)
    requires right == Start(cs, k + 1)
    ensures CoalesceBytes(m, left, right).1 == BothFree(cs, k)
    ensures Encodes(CoalesceBytes(m, left, right).0, Coalesce(cs, k))
  {
    hide Encodes, Walks, Extent, PrevAt, Start, MergeBytes, ChangesWithin;
    EndsAt(m, cs);
    if k >= 0 {
      WalksAt(m, cs, k);
      if k + 1 < |cs| {
        WalksAt(m, cs, k + 1);
        if BothFree(cs, k) { MergeEncodes(m, cs, k); }
      }
    }
  }

  lemma JoinBytesIs(m: seq<byte>, cs: seq<Chunk>, i: nat)
    requires Encodes(m, cs) && |m| <= MAX_REGION && i < |cs| && cs[i].free
    ensures Start(cs, i) + HEADER <= |m|
    ensures var list, j := Coalesce(cs, i - 1), if BothFree(cs, i - 1) then i - 1 else i;
      && Encodes(JoinBytes(m, Start(cs, i)).bytes, Coalesce(list, j))
      && JoinBytes(m, Start(cs, i)).credit
           == (if BothFree(cs, i - 1) then HEADER else 0) + (if BothFree(cs, i) then HEADER else 0)
  {
    hide Encodes, Walks, Extent, Start, CoalesceBytes, Coalesce;
    EndsAt(m, cs);
    var o := Start(cs, i);
    WalksAt(m, cs, i);
    if i > 0 { StartStep(cs, i - 1); }
    var previous := o - PrevAt(m, o) - HEADER;
    CoalesceBytesIs(m, cs, i - 1, previous, o);
    CoalescedStart(cs, i);
    var list, j := Coalesce(cs, i - 1), if BothFree(cs, i - 1) then i - 1 else i;
    var joined := CoalesceBytes(m, previous, o).0;
    WalksAt(joined, list, j);
    CoalesceBytesIs(joined, list, j, Start(list, j), Start(list, j + 1));
  }

  /** On an encoding, the code releases the chunk that starts at the address. */
  lemma ReleaseBytesIs(m: seq<byte>, cs: seq<Chunk>, addr: int)
    requires Encodes(m, cs) && |m| <= MAX_REGION
    ensures Encodes(ReleaseBytes(m, addr).bytes, Free(cs, addr))
    ensures ReleaseBytes(m, addr).credit == FreeCredit(cs, addr)
    ensures !FreeResult(cs, Extent(cs), addr).Released? ==> ReleaseBytes(m, addr).bytes == m
  {
    hide Encodes, Walks, Extent, Start, MarkBytes, Coalesce, JoinBytes, PayloadIndex, HeaderFrom;
    EndsAt(m, cs);
    ExtentIs(m, cs);
    HeaderFromIs(m, cs, 0, addr);
    var i: nat := PayloadIndex(cs, addr);
    if i < |cs| {
      WalksAt(m, cs, i);
      if FreeResult(cs, Extent(cs), addr).Released? {
        MarkBytesIs(m, cs, i);
        MarkedStarts(cs, i);
        JoinBytesIs(MarkBytes(m, Start(cs, i), cs[i].size), cs[i := Chunk(true, cs[i].size)], i);
      }
    }
  }

  lemma ExtentIs(m: seq<byte>, cs: seq<Chunk>)
    requires Encodes(m, cs)
    ensures Extent(cs) == |m|
  {
  }

  lemma MarkedStarts(cs: seq<Chunk>, i: nat)
    requires i < |cs|
    ensures Start(cs[i := Chunk(true, cs[i].size)], i) == Start(cs, i)
  {
    assert cs[i := Chunk(true, cs[i].size)][..i] == cs[..i];
  }

  /** After chunk i has been merged to the left, or not, the chunk that holds it
      starts where it should and meets the same successor. */
  lemma CoalescedStart(cs: seq<Chunk>, i: nat)
    requires i < |cs| && cs[i].free
    ensures var left := Coalesce(cs, i - 1);
      var j := if BothFree(cs, i - 1) then i - 1 else i;
      && 0 <= j < |left| && left[j].free
      && Start(left, j) == Start(cs, j) <= Start(cs, i)
      && Start(left, j + 1) == Start(cs, i + 1)
      && (BothFree(left, j) <==> BothFree(cs, i))
      && (j + 2 <= |left| ==> Start(left, j + 2) >= Start(cs, i + 1) == Start(cs, i) + HEADER + cs[i].size)
      && Live(left, 0) == Live(cs, 0)
  {
    hide Start, Live, Extent;
    var left := Coalesce(cs, i - 1);
    var j := if BothFree(cs, i - 1) then i - 1 else i;
    CoalesceEffect(cs, i - 1);
    SamePrefix(left, cs, j);
    StartStep(left, j);
    StartStep(cs, i);
    if i > 0 { StartStep(cs, i - 1); }
    if j + 2 <= |left| { StartMonotone(left, j + 1, j + 2); }
    if BothFree(cs, i - 1) { assert forall k | i <= k < |left| :: left[k] == cs[k + 1]; }
  }

  lemma SamePrefix(a: seq<Chunk>, b: seq<Chunk>, i: nat)
    requires i <= |a| && i <= |b| && a[..i] == b[..i]
    ensures Start(a, i) == Start(b, i)
  {
  }

  // ----- writes by the owner of a block -----

  /** A byte written inside a payload changes no header. */
  lemma PayloadWriteKeeps(m: seq<byte>, cs: seq<Chunk>, i: nat, x: nat, v: byte)
    requires Encodes(m, cs) && i < |cs|
    requires Start(cs, i) + HEADER <= x < Start(cs, i) + HEADER + cs[i].size
    ensures x < |m| && Encodes(m[x := v], cs)
  {
    hide Encodes, Walks, Extent, Start;
    WalksAt(m, cs, i);
    MarkEncodes(m, m[x := v], cs, i, cs[i].free);
    assert cs[i := Chunk(cs[i].free, cs[i].size)] == cs;
  }
}
