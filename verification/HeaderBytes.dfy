/** The in-band chunk header, byte by byte: `char isFree` at offset 0 (offset 1
    is padding), `unsigned short sizeOfChunk` at 2 and `short prev` at 4, little
    endian.  Encodes ties a region's bytes to its chunk list. */
module HeaderBytes {
  import opened Options
  import opened ChunkList
  import opened ChunkListLemmas

  type byte = b: int | 0 <= b < 256

  const PAGE_SIZE: nat := 4096

  // ----- fields -----

  function SizeAt(m: seq<byte>, o: nat): nat
    requires o + HEADER <= |m|
  {
    var lo: int, hi: int := m[o + 2], m[o + 3];
    lo + 256 * hi
  }

  function PrevAt(m: seq<byte>, o: nat): int
    requires o + HEADER <= |m|
  {
    var lo: int, hi: int := m[o + 4], m[o + 5];
    AsShort(lo + 256 * hi)
  }

  function PutFree(m: seq<byte>, o: nat, free: bool): (r: seq<byte>)
    requires o + HEADER <= |m|
    ensures |r| == |m|
  {
    m[o := if free then 1 else 0]
  }

  function PutSize(m: seq<byte>, o: nat, v: int): (r: seq<byte>)
    requires o + HEADER <= |m|
    ensures |r| == |m|
  {
    m[o + 2 := v % 256][o + 3 := (v / 256) % 256]
  }

  function PutPrev(m: seq<byte>, o: nat, v: int): (r: seq<byte>)
    requires o + HEADER <= |m|
    ensures |r| == |m|
  {
    m[o + 4 := v % 256][o + 5 := (v / 256) % 256]
  }

  lemma LowWord(v: int)
    ensures v % 256 + 256 * ((v / 256) % 256) == v % 0x1_0000
  {
    var q, r := v / 256, v % 256;
    var q2, r2 := q / 256, q % 256;
    assert v == 256 * (256 * q2 + r2) + r == 0x1_0000 * q2 + (256 * r2 + r);
    assert 0 <= 256 * r2 + r < 0x1_0000;
  }

  lemma AsShortOfWord(v: int)
    ensures AsShort(v % 0x1_0000) == AsShort(v)
  {
    ModShift(v + 0x8000, -(v / 0x1_0000));
    assert v % 0x1_0000 + 0x8000 == v + 0x8000 + (-(v / 0x1_0000)) * 0x1_0000;
  }

  lemma PutSizeReads(m: seq<byte>, o: nat, v: int)
    requires o + HEADER <= |m|
    ensures SizeAt(PutSize(m, o, v), o) == v % 0x1_0000
  {
    LowWord(v);
  }

  lemma PutPrevReads(m: seq<byte>, o: nat, v: int)
    requires o + HEADER <= |m|
    ensures PrevAt(PutPrev(m, o, v), o) == AsShort(v)
  {
    LowWord(v);
    AsShortOfWord(v);
  }

  // ----- a region's bytes -----

  ghost predicate HeaderIs(m: seq<byte>, o: nat, free: bool, size: nat, prev: nat) {
    && o + HEADER <= |m|
    && m[o] == (if free then 1 else 0)
    && SizeAt(m, o) == size
    && PrevAt(m, o) == prev
  }

  /** Walking the headers from offset o, after a chunk of size prev, reads cs. */
  ghost predicate Walks(m: seq<byte>, o: nat, prev: nat, cs: seq<Chunk>)
    decreases |cs|
  {
    cs == [] ||
    (HeaderIs(m, o, cs[0].free, cs[0].size, prev) && Walks(m, o + HEADER + cs[0].size, cs[0].size, cs[1..]))
  }

  /** The bytes m hold exactly the chunk list cs: it tiles them, and walking
      the headers from the first byte reads it. */
  ghost predicate Encodes(m: seq<byte>, cs: seq<Chunk>) {
    Extent(cs) == |m| && Walks(m, 0, 0, cs)
  }

  function LastSize(cs: seq<Chunk>, prev: nat): nat {
    if cs == [] then prev else cs[|cs| - 1].size
  }

  lemma {:induction false} WalksConcat(m: seq<byte>, o: nat, prev: nat, a: seq<Chunk>, b: seq<Chunk>)
    ensures Walks(m, o, prev, a + b) <==>
              Walks(m, o, prev, a) && Walks(m, o + Extent(a), LastSize(a, prev), b)
    decreases |a|
  {
    if a == [] {
      assert a + b == b;
    } else {
      assert (a + b)[1..] == a[1..] + b;
      WalksConcat(m, o + HEADER + a[0].size, a[0].size, a[1..], b);
    }
  }

  /** A walk depends only on the bytes it passes over. */
  lemma {:induction false} WalksFrame(m: seq<byte>, r: seq<byte>, o: nat, prev: nat, cs: seq<Chunk>)
    requires |m| == |r| && Walks(m, o, prev, cs)
    requires forall x | o <= x < o + Extent(cs) && x < |m| :: m[x] == r[x]
    ensures Walks(r, o, prev, cs)
    decreases |cs|
  {
    if cs != [] {
      HeaderSame(m, r, o, cs[0].free, cs[0].size, prev);
      WalksFrame(m, r, o + HEADER + cs[0].size, cs[0].size, cs[1..]);
    }
  }

  lemma HeaderSame(m: seq<byte>, r: seq<byte>, o: nat, free: bool, size: nat, prev: nat)
    requires |m| == |r| && HeaderIs(m, o, free, size, prev)
    requires forall k | o <= k < o + HEADER :: m[k] == r[k]
    ensures HeaderIs(r, o, free, size, prev)
  {
    assert m[o] == r[o] && m[o + 2] == r[o + 2] && m[o + 3] == r[o + 3];
    assert m[o + 4] == r[o + 4] && m[o + 5] == r[o + 5];
  }

  /** Chunk i of an encoded list: what lies before it, its header, what lies
      after it. */
  lemma WalksAt(m: seq<byte>, cs: seq<Chunk>, i: nat)
    requires Encodes(m, cs) && i < |cs|
    ensures Start(cs, i) + HEADER + cs[i].size == Start(cs, i + 1) <= |m|
    ensures i + 1 == |cs| <==> Start(cs, i + 1) == |m|
    ensures i + 1 < |cs| ==> Start(cs, i + 1) + HEADER <= |m|
    ensures HeaderIs(m, Start(cs, i), cs[i].free, cs[i].size, PrevSize(cs, i))
    ensures Walks(m, 0, 0, cs[..i])
    ensures Walks(m, Start(cs, i + 1), cs[i].size, cs[i + 1..])
  {
    hide HeaderIs, PrevAt, AsShort;
    assert cs == cs[..i] + cs[i..];
    WalksConcat(m, 0, 0, cs[..i], cs[i..]);
    assert cs[i..][1..] == cs[i + 1..];
    StartStep(cs, i);
    StartMonotone(cs, i, |cs|);
    StartEnd(cs);
    if i + 1 < |cs| { StartMonotone(cs, i + 1, |cs|); }
  }

  /** Header fields of every chunk of a list survive being stored in 16 bits. */
  ghost predicate FieldsFit(cs: seq<Chunk>) {
    forall i | 0 <= i < |cs| ::
      cs[i].size % 0x1_0000 == cs[i].size && AsShort(PrevSize(cs, i)) == PrevSize(cs, i)
  }

  lemma {:induction false} SizeWithinExtent(cs: seq<Chunk>, i: nat)
    requires i < |cs|
    ensures cs[i].size + HEADER <= Extent(cs)
    ensures |cs| > 1 ==> cs[i].size + 2 * HEADER <= Extent(cs)
  {
    if i > 0 { SizeWithinExtent(cs[1..], i - 1); }
  }

  /** The list that one request of 32768 bytes makes of a fresh region. */
  function HalfTaken(pages: nat): seq<Chunk>
    requires pages >= 9
  {
    Alloc(Fresh(pages * PAGE_SIZE), 0x8000)
  }

  /** Every shaped tiling of a region of that many pages fits the 16-bit header
      fields exactly when the region has at most 8 pages; from 9 pages on, a
      single request of 32768 bytes leaves a `prev` of -32768 behind. */
  lemma FieldsFitExactly(pages: nat)
    requires pages >= 1
    ensures (forall cs: seq<Chunk> | Shape(cs) && Extent(cs) == pages * PAGE_SIZE :: FieldsFit(cs)) <==> pages <= 8
  {
    if pages <= 8 {
      forall cs: seq<Chunk> | Shape(cs) && Extent(cs) == pages * PAGE_SIZE ensures FieldsFit(cs) {
        forall i | 0 <= i < |cs|
          ensures cs[i].size < 0x8000 && PrevSize(cs, i) < 0x8000
        {
          SizeWithinExtent(cs, i);
          if i > 0 { SizeWithinExtent(cs, i - 1); }
        }
      }
    } else {
      var n := pages * PAGE_SIZE;
      var f, cs := Fresh(n), HalfTaken(pages);
      assert FirstFit(f, 0x8000) == 0;
      Single(f[0], 0);
      AllocEffect(f, 0x8000);
      assert cs == [Chunk(false, 0x8000), Chunk(true, n - 0x8000 - 2 * HEADER)];
      assert PrevSize(cs, 1) == 0x8000 && AsShort(0x8000) == -0x8000;
      assert Shape(cs) && Extent(cs) == n && !FieldsFit(cs);
    }
  }

  // ----- requests and region sizes -----

  const STACK_SIZE: nat := 8186
  const PAGE_HEADER_SIZE: nat := 10

  /** How many pages `mymalloc` sets aside for a request. */
  function PagesForMalloc(size: nat): nat {
    if size == STACK_SIZE then 2 else size / (PAGE_SIZE - PAGE_HEADER_SIZE) + 1
  }

  /** A fresh region of that many pages serves the request it was made for, at
      its first byte; the page count is the least that leaves 10 bytes of every
      page unused, and a thread stack, which is sized by hand, fills its two
      pages to the last byte. */
  lemma RegionServesItsRequest(size: nat)
    requires size >= 1
    ensures var n := PagesForMalloc(size) * PAGE_SIZE;
      && n > HEADER && size <= n - HEADER
      && AllocAddr(Fresh(n), size) == Some(HEADER)
      && size >= (PagesForMalloc(size) - 1) * (PAGE_SIZE - PAGE_HEADER_SIZE)
      && (size == STACK_SIZE ==> Alloc(Fresh(n), size) == [Chunk(false, n - HEADER)])
  {
    var p := PagesForMalloc(size);
    var d := PAGE_SIZE - PAGE_HEADER_SIZE;
    if size != STACK_SIZE {
      assert size == d * (size / d) + size % d;
      assert size < d * p;
    }
    assert Fits(Fresh(p * PAGE_SIZE)[0], size);
    assert Fresh(p * PAGE_SIZE)[..0] == [];
  }
}
