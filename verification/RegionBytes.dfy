/** The byte writes of a split and of a merge, and why they turn the encoding of
    one chunk list into the encoding of the next. */
module RegionBytes {
  import opened ChunkList
  import opened ChunkListLemmas
  import opened HeaderBytes

  /** Largest region whose header fields are all representable: 8 pages. */
  const MAX_REGION: nat := 8 * PAGE_SIZE

  /** Bytes outside [o, o+6) are the same in both. */
  ghost predicate SameBut(m: seq<byte>, r: seq<byte>, o: nat) {
    && |m| == |r|
    && forall k | 0 <= k < |m| && !(o <= k < o + HEADER) :: m[k] == r[k]
  }

  /** A header written whole. */
  function PutHeader(m: seq<byte>, o: nat, free: bool, size: int, prev: int): (r: seq<byte>)
    requires o + HEADER <= |m|
    ensures |r| == |m|
  {
    PutSize(PutFree(PutPrev(m, o, prev), o, free), o, size)
  }

  lemma PutHeaderReads(m: seq<byte>, o: nat, free: bool, size: nat, prev: nat)
    requires o + HEADER <= |m| && size < 0x1_0000 && prev < 0x8000
    ensures HeaderIs(PutHeader(m, o, free, size, prev), o, free, size, prev)
    ensures SameBut(m, PutHeader(m, o, free, size, prev), o)
  {
    var p := PutPrev(m, o, prev);
    var r := PutHeader(m, o, free, size, prev);
    PutPrevReads(m, o, prev);
    PutSizeReads(PutFree(p, o, free), o, size);
    assert r[o + 4] == p[o + 4] && r[o + 5] == p[o + 5];
  }

  // ----- split -----

  /** The two header writes of a split, without the relink of the next chunk. */
  function SplitHeaders(m: seq<byte>, o: nat, size: nat): (r: seq<byte>)
    requires o + HEADER <= |m| && SizeAt(m, o) - size > HEADER && o + HEADER + SizeAt(m, o) <= |m|
    ensures |r| == |m|
  {
    PutFree(PutSize(PutHeader(m, o + HEADER + size, true, SizeAt(m, o) - size - HEADER, size), o, size), o, false)
  }

  /** The writes of `findFreeChunk` when it splits the chunk at o: the new
      header, the taken chunk's size and flag, and the `prev` field after. */
  function SplitBytes(m: seq<byte>, o: nat, size: nat): (r: seq<byte>)
    requires o + HEADER <= |m| && SizeAt(m, o) - size > HEADER
    requires o + HEADER + SizeAt(m, o) <= |m|
    ensures |r| == |m|
  {
    var next := o + HEADER + size;
    var rest := SizeAt(m, o) - size - HEADER;
    var after := next + HEADER + rest;
    var r := SplitHeaders(m, o, size);
    if after + HEADER <= |m| then PutPrev(r, after, rest) else r
  }

  /** The `prev` field at o is v and the rest of the header there is as in m. */
  ghost predicate Relinked(m: seq<byte>, out: seq<byte>, o: nat, v: int) {
    && o + HEADER <= |m| == |out|
    && PrevAt(out, o) == v
    && out[o] == m[o] && out[o + 2] == m[o + 2] && out[o + 3] == m[o + 3]
  }

  /** After the chunk before it changed size to v, the tail of a walk that
      starts at o has its first `prev` field relinked and is otherwise as before. */
  ghost predicate TailRelinked(m: seq<byte>, out: seq<byte>, o: nat, v: int) {
    && |m| == |out|
    && (o + HEADER <= |m| ==> Relinked(m, out, o, v))
    && (o + HEADER > |m| ==> forall x | o <= x < |m| :: out[x] == m[x])
    && forall x | o + HEADER <= x < |m| :: out[x] == m[x]
  }

  lemma TailWalks(m: seq<byte>, out: seq<byte>, o: nat, prev: nat, v: nat, tail: seq<Chunk>)
    requires Walks(m, o, prev, tail) && TailRelinked(m, out, o, v)
    ensures Walks(out, o, v, tail)
  {
    if tail != [] {
      WalksFrame(m, out, o + HEADER + tail[0].size, tail[0].size, tail[1..]);
    }
  }

  /** Bytes before o are as in m, as are the payload bytes from `after` on. */
  ghost predicate ChangesWithin(m: seq<byte>, out: seq<byte>, o: nat, after: nat) {
    && |m| == |out|
    && (forall x | 0 <= x < o && x < |m| :: out[x] == m[x])
    && (forall x | after + HEADER <= x < |m| :: out[x] == m[x])
  }

  /** The general step: bytes change only from chunk i to the `prev` field after
      chunk j-1; chunks i..j become `mid`, of the same extent. */
  lemma ReplaceEncodes(m: seq<byte>, out: seq<byte>, cs: seq<Chunk>, i: nat, j: nat, mid: seq<Chunk>)
    requires Encodes(m, cs) && i < j <= |cs| && mid != []
    requires Extent(mid) == Start(cs, j) - Start(cs, i)
    requires ChangesWithin(m, out, Start(cs, i), Start(cs, j))
    requires TailRelinked(m, out, Start(cs, j), mid[|mid| - 1].size)
    requires Walks(out, Start(cs, i), LastSize(cs[..i], 0), mid)
    ensures Encodes(out, cs[..i] + mid + cs[j..])
  {
    hide HeaderIs, PrevAt, TailRelinked, Walks, Extent;
    var pre, post := cs[..i], cs[j..];
    assert cs == cs[..j] + post && cs[..j] == pre + cs[i..j];
    WalksConcat(m, 0, 0, cs[..j], post);
    WalksConcat(m, 0, 0, pre, cs[i..j]);
    ExtentConcat(cs[..j], post);
    SpliceExtent(pre, mid, post);
    WalksFrame(m, out, 0, 0, pre);
    TailWalks(m, out, Start(cs, j), LastSize(cs[..j], 0), LastSize(mid, 0), post);
    WalksConcat(out, 0, 0, pre, mid);
    ExtentConcat(pre, mid);
    WalksConcat(out, 0, 0, pre + mid, post);
    assert LastSize(pre + mid, 0) == LastSize(mid, 0);
  }

  /** A live block that is none of chunks i..j ends before chunk i or starts
      after the header of chunk j. */
  lemma LiveClear(cs: seq<Chunk>, i: nat, j: nat, b: Block)
    requires i <= j <= |cs| && b in Live(cs, 0)
    requires forall k | i <= k < j :: cs[k].free || b.addr != Start(cs, k) + HEADER
    ensures 0 <= b.addr && b.addr + b.size <= Extent(cs)
    ensures b.addr + b.size <= Start(cs, i) || b.addr >= Start(cs, j) + HEADER
  {
    hide Start;
    var k := LiveIndex(cs, 0, b);
    LiveBounds(cs, 0, b);
    if k < i { StartMonotone(cs, k, i); }
    if j < k { StartMonotone(cs, j, k); }
  }

  /** Such blocks keep their bytes under a step that changes chunks i..j. */
  lemma ReplaceKeepsPayloads(m: seq<byte>, out: seq<byte>, cs: seq<Chunk>, i: nat, j: nat, b: Block)
    requires i <= j <= |cs| && ChangesWithin(m, out, Start(cs, i), Start(cs, j))
    requires Extent(cs) == |m| && b in Live(cs, 0)
    requires forall k | i <= k < j :: cs[k].free || b.addr != Start(cs, k) + HEADER
    ensures 0 <= b.addr && b.addr + b.size <= |m|
    ensures out[b.addr..b.addr + b.size] == m[b.addr..b.addr + b.size]
  {
    hide Start, Extent, Live;
    LiveClear(cs, i, j, b);
  }

  lemma WalksOne(m: seq<byte>, o: nat, prev: nat, c: Chunk)
    ensures Walks(m, o, prev, [c]) <==> HeaderIs(m, o, c.free, c.size, prev)
  {
    hide HeaderIs;
    assert [c][1..] == [];
  }

  /** The shared last write of a split and of a merge. */
  lemma RelinkTail(m: seq<byte>, r: seq<byte>, o: nat, v: nat)
    requires |m| == |r| && v < 0x8000
    requires forall x | o <= x < |m| :: r[x] == m[x]
    ensures TailRelinked(m, if o + HEADER <= |m| then PutPrev(r, o, v) else r, o, v)
  {
    hide PrevAt;
    if o + HEADER <= |m| { PutPrevReads(r, o, v); assert AsShort(v) == v; }
  }

  /** The header writes leave the bytes outside the two headers. */
  lemma SplitHeadersKeep(m: seq<byte>, o: nat, size: nat)
    requires o + HEADER <= |m| && o + HEADER + SizeAt(m, o) <= |m| && SizeAt(m, o) - size > HEADER
    ensures var next, r := o + HEADER + size, SplitHeaders(m, o, size);
      && (forall x | 0 <= x < o :: r[x] == m[x]) && forall x | next + HEADER <= x < |m| :: r[x] == m[x]
  {
  }

  lemma SplitHeaderWrites(m: seq<byte>, o: nat, size: nat, prev: nat)
    requires |m| <= MAX_REGION && o + HEADER <= |m| && o + HEADER + SizeAt(m, o) <= |m|
    requires SizeAt(m, o) - size > HEADER && PrevAt(m, o) == prev
    ensures var next, rest := o + HEADER + size, SizeAt(m, o) - size - HEADER;
      var r := SplitHeaders(m, o, size);
      HeaderIs(r, o, false, size, prev) && HeaderIs(r, next, true, rest, size)
  {
    hide AsShort;
    var next, rest := o + HEADER + size, SizeAt(m, o) - size - HEADER;
    var h := PutHeader(m, next, true, rest, size);
    var r := SplitHeaders(m, o, size);
    PutHeaderReads(m, next, true, rest, size);
    assert HeaderIs(r, o, false, size, prev) by { PutSizeReads(h, o, size); }
    assert HeaderIs(r, next, true, rest, size) by { HeaderSame(h, r, next, true, rest, size); }
  }

  lemma SplitWrites(m: seq<byte>, o: nat, size: nat, prev: nat)
    requires |m| <= MAX_REGION && o + HEADER <= |m|
    requires o + HEADER + SizeAt(m, o) <= |m|
    requires SizeAt(m, o) - size > HEADER && PrevAt(m, o) == prev
    ensures var next, rest := o + HEADER + size, SizeAt(m, o) - size - HEADER;
      var after := next + HEADER + rest;
      var out := SplitBytes(m, o, size);
      && HeaderIs(out, o, false, size, prev)
      && HeaderIs(out, next, true, rest, size)
      && TailRelinked(m, out, after, rest)
      && ChangesWithin(m, out, o, after)
  {
    hide AsShort, TailRelinked, PrevAt, SplitHeaders;
    var next, rest := o + HEADER + size, SizeAt(m, o) - size - HEADER;
    var r, out, after := SplitHeaders(m, o, size), SplitBytes(m, o, size), next + HEADER + rest;
    SplitHeaderWrites(m, o, size, prev);
    SplitHeadersKeep(m, o, size);
    RelinkTail(m, r, after, rest);
    HeaderSame(r, out, next, true, rest, size);
    HeaderSame(r, out, o, false, size, prev);
  }

  lemma PlaceWalks(out: seq<byte>, o: nat, prev: nat, c: Chunk, size: nat)
    requires Fits(c, size) && Splits(c, size)
    requires HeaderIs(out, o, false, size, prev)
    requires HeaderIs(out, o + HEADER + size, true, c.size - size - HEADER, size)
    ensures Walks(out, o, prev, Place(c, size))
  {
    hide HeaderIs;
    var mid := Place(c, size);
    assert mid[1..] == [mid[1]];
    WalksOne(out, o + HEADER + size, size, mid[1]);
  }

  lemma SplitEncodes(m: seq<byte>, cs: seq<Chunk>, i: nat, size: nat)
    requires |m| <= MAX_REGION && Encodes(m, cs)
    requires i < |cs| && Fits(cs[i], size) && Splits(cs[i], size)
    ensures Start(cs, i) + HEADER + cs[i].size == Start(cs, i + 1) <= |m|
    ensures SizeAt(m, Start(cs, i)) == cs[i].size
    ensures Encodes(SplitBytes(m, Start(cs, i), size), AllocAt(cs, i, size))
    ensures ChangesWithin(m, SplitBytes(m, Start(cs, i), size), Start(cs, i), Start(cs, i + 1))
  {
    hide PrevAt, SplitBytes, TailRelinked, Encodes, Extent, Walks, Start, ChangesWithin;
    WalksAt(m, cs, i);
    var o := Start(cs, i);
    SplitWrites(m, o, size, PrevSize(cs, i));
    PlaceWalks(SplitBytes(m, o, size), o, PrevSize(cs, i), cs[i], size);
    PlaceEffect(cs[i], size, 0);
    ReplaceEncodes(m, SplitBytes(m, o, size), cs, i, i + 1, Place(cs[i], size));
  }

  /** Marking a chunk, with or without clearing its payload, changes its flag. */
  lemma MarkEncodes(m: seq<byte>, out: seq<byte>, cs: seq<Chunk>, i: nat, free: bool)
    requires Encodes(m, cs) && i < |cs| && |m| == |out|
    requires Start(cs, i) + HEADER + cs[i].size <= |m|
    requires forall x | 0 <= x < |m| && out[x] != m[x] ::
               x == Start(cs, i) || Start(cs, i) + HEADER <= x < Start(cs, i) + HEADER + cs[i].size
    requires out[Start(cs, i)] == if free then 1 else 0
    ensures Encodes(out, cs[i := Chunk(free, cs[i].size)])
    ensures ChangesWithin(m, out, Start(cs, i), Start(cs, i + 1))
  {
    hide AsShort, Walks, Extent, Encodes, Start;
    WalksAt(m, cs, i);
    var c := Chunk(free, cs[i].size);
    var o, after := Start(cs, i), Start(cs, i + 1);
    Single(c, 0);
    assert HeaderIs(out, o, free, c.size, PrevSize(cs, i));
    WalksOne(out, o, PrevSize(cs, i), c);
    assert TailRelinked(m, out, after, c.size) by {
      if i + 1 < |cs| { WalksAt(m, cs, i + 1); }
    }
    ReplaceEncodes(m, out, cs, i, i + 1, [c]);
    assert cs[..i] + [c] + cs[i + 1..] == cs[i := c];
  }

  // ----- merge -----

  /** The writes of `coalesce` on the chunks at o and right. */
  function MergeBytes(m: seq<byte>, o: nat, right: nat): (r: seq<byte>)
    requires o + HEADER <= |m| && right + HEADER <= |m|
    ensures |r| == |m|
  {
    var size := SizeAt(m, o) + SizeAt(m, right) + HEADER;
    var after := right + HEADER + SizeAt(m, right);
    var r := PutSize(m, o, size);
    if after + HEADER <= |m| then PutPrev(r, after, size) else r
  }

  lemma MergeWrites(m: seq<byte>, o: nat, right: nat, prev: nat)
    requires |m| <= MAX_REGION && o + HEADER <= |m| && right + HEADER <= |m|
    requires right == o + HEADER + SizeAt(m, o) && right + HEADER + SizeAt(m, right) <= |m|
    requires m[o] == 1 && PrevAt(m, o) == prev
    ensures var size := SizeAt(m, o) + SizeAt(m, right) + HEADER;
      var out := MergeBytes(m, o, right);
      && HeaderIs(out, o, true, size, prev)
      && TailRelinked(m, out, right + HEADER + SizeAt(m, right), size)
      && ChangesWithin(m, out, o, right + HEADER + SizeAt(m, right))
  {
    hide AsShort, TailRelinked;
    var size := SizeAt(m, o) + SizeAt(m, right) + HEADER;
    var after := right + HEADER + SizeAt(m, right);
    var r := PutSize(m, o, size);
    PutSizeReads(m, o, size);
    assert HeaderIs(r, o, true, size, prev);
    RelinkTail(m, r, after, size);
    HeaderSame(r, MergeBytes(m, o, right), o, true, size, prev);
  }

  lemma MergeEncodes(m: seq<byte>, cs: seq<Chunk>, k: nat)
    requires |m| <= MAX_REGION && Encodes(m, cs) && BothFree(cs, k)
    ensures Start(cs, k) + HEADER <= |m| && Start(cs, k + 1) + HEADER <= |m|
    ensures Encodes(MergeBytes(m, Start(cs, k), Start(cs, k + 1)), Coalesce(cs, k))
    ensures ChangesWithin(m, MergeBytes(m, Start(cs, k), Start(cs, k + 1)), Start(cs, k), Start(cs, k + 2))
  {
    hide PrevAt, MergeBytes, TailRelinked, Encodes, Extent, Walks, Start, ChangesWithin;
    WalksAt(m, cs, k);
    WalksAt(m, cs, k + 1);
    var o, right := Start(cs, k), Start(cs, k + 1);
    var c := Chunk(true, cs[k].size + cs[k + 1].size + HEADER);
    MergeWrites(m, o, right, PrevSize(cs, k));
    Single(c, 0);
    WalksOne(MergeBytes(m, o, right), o, PrevSize(cs, k), c);
    ReplaceEncodes(m, MergeBytes(m, o, right), cs, k, k + 2, [c]);
  }
}
