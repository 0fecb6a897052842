/** Properties of the chunk list: shape, first fit, liveness, inverses and the
    accounting in the page's usage field. */
module ChunkListLemmas {
  import opened Options
  import opened ChunkList

  // ----- extents -----

  lemma {:induction false} ExtentConcat(a: seq<Chunk>, b: seq<Chunk>)
    ensures Extent(a + b) == Extent(a) + Extent(b)
  {
    if a == [] {
      assert a + b == b;
    } else {
      assert (a + b)[1..] == a[1..] + b;
      ExtentConcat(a[1..], b);
    }
  }

  lemma {:induction false} FreeBytesConcat(a: seq<Chunk>, b: seq<Chunk>)
    ensures FreeBytes(a + b) == FreeBytes(a) + FreeBytes(b)
  {
    if a == [] {
      assert a + b == b;
    } else {
      assert (a + b)[1..] == a[1..] + b;
      FreeBytesConcat(a[1..], b);
    }
  }

  lemma StartStep(cs: seq<Chunk>, i: nat)
    requires i < |cs|
    ensures Start(cs, i + 1) == Start(cs, i) + HEADER + cs[i].size
  {
    assert cs[..i + 1] == cs[..i] + [cs[i]];
    ExtentConcat(cs[..i], [cs[i]]);
  }

  lemma StartEnd(cs: seq<Chunk>)
    ensures Start(cs, |cs|) == Extent(cs)
  {
    assert cs[..|cs|] == cs;
  }

  /** Chunks do not overlap: everything of chunk i lies before chunk j. */
  lemma {:induction false} StartMonotone(cs: seq<Chunk>, i: nat, j: nat)
    requires i < j <= |cs|
    ensures Start(cs, i) + HEADER + cs[i].size <= Start(cs, j) <= Extent(cs)
  {
    assert cs == cs[..j] + cs[j..];
    ExtentConcat(cs[..j], cs[j..]);
    assert cs[..j] == cs[..i] + cs[i..j];
    ExtentConcat(cs[..i], cs[i..j]);
    assert cs[i..j][0] == cs[i];
  }

  lemma SpliceExtent(pre: seq<Chunk>, mid: seq<Chunk>, post: seq<Chunk>)
    ensures Extent(pre + mid + post) == Extent(pre) + Extent(mid) + Extent(post)
    ensures FreeBytes(pre + mid + post) == FreeBytes(pre) + FreeBytes(mid) + FreeBytes(post)
  {
    ExtentConcat(pre + mid, post);
    ExtentConcat(pre, mid);
    FreeBytesConcat(pre + mid, post);
    FreeBytesConcat(pre, mid);
  }

  // ----- live blocks -----

  lemma {:induction false} LiveConcat(a: seq<Chunk>, b: seq<Chunk>, base: int)
    ensures Live(a + b, base) == Live(a, base) + Live(b, base + Extent(a))
  {
    if a == [] {
      assert a + b == b;
    } else {
      assert (a + b)[1..] == a[1..] + b;
      LiveConcat(a[1..], b, base + HEADER + a[0].size);
    }
  }

  lemma LiveSplice(pre: seq<Chunk>, mid: seq<Chunk>, post: seq<Chunk>)
    ensures Live(pre + mid + post, 0) ==
              Live(pre, 0) + Live(mid, Extent(pre)) + Live(post, Extent(pre) + Extent(mid))
  {
    hide Extent, Live;
    LiveConcat(pre + mid, post, 0);
    LiveConcat(pre, mid, 0);
    ExtentConcat(pre, mid);
  }

  /** The live blocks are exactly the payloads of the chunks that are not free. */
  lemma {:induction false} LiveIndex(cs: seq<Chunk>, base: int, b: Block) returns (i: nat)
    requires b in Live(cs, base)
    ensures i < |cs| && !cs[i].free && b == Block(base + Start(cs, i) + HEADER, cs[i].size)
  {
    if !cs[0].free && b == Block(base + HEADER, cs[0].size) {
      i := 0;
    } else {
      var j := LiveIndex(cs[1..], base + HEADER + cs[0].size, b);
      i := j + 1;
      assert cs[..i][1..] == cs[1..][..j];
    }
  }

  lemma {:induction false} LiveMember(cs: seq<Chunk>, base: int, i: nat)
    requires i < |cs| && !cs[i].free
    ensures Block(base + Start(cs, i) + HEADER, cs[i].size) in Live(cs, base)
  {
    if i > 0 {
      LiveMember(cs[1..], base + HEADER + cs[0].size, i - 1);
      assert cs[..i][1..] == cs[1..][..i - 1];
    }
  }

  lemma LiveBounds(cs: seq<Chunk>, base: int, b: Block)
    requires b in Live(cs, base)
    ensures base + HEADER <= b.addr && b.addr + b.size <= base + Extent(cs)
  {
    var i := LiveIndex(cs, base, b);
    StartMonotone(cs, i, |cs|);
    StartEnd(cs);
  }

  /** Live blocks lie inside the region, clear of every header, and two live
      blocks are either the same block or disjoint. */
  lemma LiveDisjoint(cs: seq<Chunk>, b: Block, c: Block)
    requires b in Live(cs, 0) && c in Live(cs, 0)
    ensures HEADER <= b.addr && b.addr + b.size <= Extent(cs)
    ensures forall k | 0 <= k < |cs| :: Start(cs, k) + HEADER <= b.addr || b.addr + b.size <= Start(cs, k)
    ensures b == c || b.addr + b.size + HEADER <= c.addr || c.addr + c.size + HEADER <= b.addr
  {
    var i := LiveIndex(cs, 0, b);
    var j := LiveIndex(cs, 0, c);
    LiveBounds(cs, 0, b);
    if i < j { StartMonotone(cs, i, j); }
    if j < i { StartMonotone(cs, j, i); }
    forall k | 0 <= k < |cs|
      ensures Start(cs, k) + HEADER <= b.addr || b.addr + b.size <= Start(cs, k)
    {
      if i < k { StartMonotone(cs, i, k); }
      if k < i { StartMonotone(cs, k, i); }
    }
  }

  lemma PayloadUnique(cs: seq<Chunk>, i: nat, j: nat)
    requires i < |cs| && j < |cs| && Start(cs, i) == Start(cs, j)
    ensures i == j
  {
    if i < j { StartMonotone(cs, i, j); }
    if j < i { StartMonotone(cs, j, i); }
  }

  lemma PayloadIndexIs(cs: seq<Chunk>, i: nat)
    requires i < |cs|
    ensures PayloadIndex(cs, Start(cs, i) + HEADER) == i
  {
    var k := PayloadIndex(cs, Start(cs, i) + HEADER);
    if k < |cs| { PayloadUnique(cs, i, k); }
  }

  // ----- allocation -----

  lemma Single(c: Chunk, base: int)
    ensures Extent([c]) == HEADER + c.size
    ensures FreeBytes([c]) == if c.free then c.size else 0
    ensures Live([c], base) == if c.free then {} else {Block(base + HEADER, c.size)}
  {
    assert [c][1..] == [];
  }

  lemma PlaceEffect(c: Chunk, size: nat, base: int)
    requires Fits(c, size)
    ensures Extent(Place(c, size)) == HEADER + c.size == Extent([c])
    ensures FreeBytes(Place(c, size)) == if Splits(c, size) then c.size - size - HEADER else 0
    ensures Live(Place(c, size), base) == {Block(base + HEADER, Place(c, size)[0].size)}
  {
    var p := Place(c, size);
    Single(c, base);
    Single(p[0], base);
    if Splits(c, size) {
      assert p == [p[0]] + [p[1]];
      Single(p[1], base + HEADER + size);
      ExtentConcat([p[0]], [p[1]]);
      FreeBytesConcat([p[0]], [p[1]]);
      LiveConcat([p[0]], [p[1]], base);
    } else {
      assert p == [p[0]];
    }
  }

  /** The block that an allocation returns. */
  function Given(cs: seq<Chunk>, size: nat): Block
    requires AllocAddr(cs, size).Some?
  {
    Block(AllocAddr(cs, size).value, Place(cs[FirstFit(cs, size)], size)[0].size)
  }

  /** What an allocation does to a shaped region: the extent and the shape are
      kept; the null pointer comes back exactly when no free chunk is large
      enough, and then nothing changes; otherwise the returned block is new,
      holds at least the bytes asked for, and every other live block is as
      before. */
  lemma AllocEffect(cs: seq<Chunk>, size: nat)
    requires Shape(cs) && size >= 1
    ensures Shape(Alloc(cs, size)) && Extent(Alloc(cs, size)) == Extent(cs)
    ensures AllocAddr(cs, size).None? <==> forall i | 0 <= i < |cs| :: !Fits(cs[i], size)
    ensures AllocAddr(cs, size).None? ==> Alloc(cs, size) == cs
    ensures AllocAddr(cs, size).Some? ==>
              && size <= Given(cs, size).size <= size + HEADER
              && Live(Alloc(cs, size), 0) == Live(cs, 0) + {Given(cs, size)}
              && (forall b | b in Live(cs, 0) :: b.addr != Given(cs, size).addr)
              && (forall i | 0 <= i < |cs| && Fits(cs[i], size) :: Given(cs, size).addr <= Start(cs, i) + HEADER)
  {
    hide Extent, Live, AllocAt, Shape, Start, FirstFit, FreeBytes;
    var i := FirstFit(cs, size);
    if i < |cs| {
      AllocLive(cs, i, size);
      AllocShape(cs, i, size);
      LowestFit(cs, size);
    }
  }

  lemma LowestFit(cs: seq<Chunk>, size: nat)
    requires AllocAddr(cs, size).Some?
    ensures forall k | 0 <= k < |cs| && Fits(cs[k], size) :: AllocAddr(cs, size).value <= Start(cs, k) + HEADER
  {
    var i := FirstFit(cs, size);
    forall k | 0 <= k < |cs| && Fits(cs[k], size)
      ensures Start(cs, i) <= Start(cs, k)
    {
      if i < k { StartMonotone(cs, i, k); }
    }
  }

  lemma AllocShape(cs: seq<Chunk>, i: nat, size: nat)
    requires Shape(cs) && size >= 1 && i < |cs| && Fits(cs[i], size)
    ensures Shape(AllocAt(cs, i, size))
  {
    var r := AllocAt(cs, i, size);
    var d := |r| - |cs|;
    forall k | 0 < k < |r|
      ensures !(r[k - 1].free && r[k].free)
    {
      if k < i { assert r[k] == cs[k]; }
      else if k > i + 1 + d { assert r[k] == cs[k - d] && r[k - 1] == cs[k - d - 1]; }
      else if k == i + 1 + d && d == 1 { assert r[k] == cs[i + 1]; }
    }
  }

  /** Replacing chunk i by chunks of the same extent exchanges just its own
      block and its own free bytes. */
  lemma ReplaceEffect(cs: seq<Chunk>, i: nat, mid: seq<Chunk>) returns (others: set<Block>)
    requires i < |cs| && Extent(mid) == Extent([cs[i]])
    ensures Extent(cs[..i] + mid + cs[i + 1..]) == Extent(cs)
    ensures FreeBytes(cs[..i] + mid + cs[i + 1..]) == FreeBytes(cs) - FreeBytes([cs[i]]) + FreeBytes(mid)
    ensures Live(cs, 0) == others + Live([cs[i]], Start(cs, i))
    ensures Live(cs[..i] + mid + cs[i + 1..], 0) == others + Live(mid, Start(cs, i))
    ensures forall b | b in others :: b.addr != Start(cs, i) + HEADER
  {
    hide Extent, FreeBytes, Live;
    var pre, c, post := cs[..i], cs[i], cs[i + 1..];
    var rest := Start(cs, i) + Extent([c]);
    others := Live(pre, 0) + Live(post, rest);
    Single(c, 0);
    assert cs == pre + [c] + post;
    SpliceExtent(pre, [c], post);
    SpliceExtent(pre, mid, post);
    LiveSplice(pre, [c], post);
    LiveSplice(pre, mid, post);
    forall b | b in others ensures b.addr != Start(cs, i) + HEADER {
      if b in Live(pre, 0) { LiveBounds(pre, 0, b); } else { LiveBounds(post, rest, b); }
    }
  }

  lemma AllocLive(cs: seq<Chunk>, i: nat, size: nat)
    requires i < |cs| && Fits(cs[i], size)
    ensures Extent(AllocAt(cs, i, size)) == Extent(cs)
    ensures FreeBytes(AllocAt(cs, i, size)) == FreeBytes(cs) - cs[i].size + FreeBytes(Place(cs[i], size))
    ensures Live(AllocAt(cs, i, size), 0) ==
              Live(cs, 0) + {Block(Start(cs, i) + HEADER, Place(cs[i], size)[0].size)}
    ensures forall b | b in Live(cs, 0) :: b.addr != Start(cs, i) + HEADER
  {
    hide Extent, Live, FreeBytes;
    PlaceEffect(cs[i], size, Start(cs, i));
    Single(cs[i], Start(cs, i));
    var others := ReplaceEffect(cs, i, Place(cs[i], size));
  }

  // ----- release -----

  lemma CoalesceEffect(cs: seq<Chunk>, k: int)
    ensures Extent(Coalesce(cs, k)) == Extent(cs)
    ensures FreeBytes(Coalesce(cs, k)) == FreeBytes(cs) + if BothFree(cs, k) then HEADER else 0
    ensures Live(Coalesce(cs, k), 0) == Live(cs, 0)
  {
    hide Extent, FreeBytes, Live;
    if BothFree(cs, k) {
      var pre, mid, post := cs[..k], [cs[k]] + [cs[k + 1]], cs[k + 2..];
      var joined := Chunk(true, cs[k].size + cs[k + 1].size + HEADER);
      assert cs == pre + mid + post;
      ExtentConcat([cs[k]], [cs[k + 1]]);
      FreeBytesConcat([cs[k]], [cs[k + 1]]);
      LiveConcat([cs[k]], [cs[k + 1]], Extent(pre));
      SpliceExtent(pre, mid, post);
      SpliceExtent(pre, [joined], post);
      Single(joined, Extent(pre));
      Single(cs[k], Extent(pre));
      Single(cs[k + 1], Extent(pre) + Extent([cs[k]]));
      LiveSplice(pre, mid, post);
      LiveSplice(pre, [joined], post);
    }
  }

  lemma MarkEffect(cs: seq<Chunk>, i: nat)
    requires i < |cs| && !cs[i].free
    ensures var m := cs[i := Chunk(true, cs[i].size)];
      && Extent(m) == Extent(cs)
      && FreeBytes(m) == FreeBytes(cs) + cs[i].size
      && Live(m, 0) == Live(cs, 0) - {Block(Start(cs, i) + HEADER, cs[i].size)}
  {
    var f := Chunk(true, cs[i].size);
    assert cs[i := f] == cs[..i] + [f] + cs[i + 1..];
    Single(cs[i], Start(cs, i));
    Single(f, Start(cs, i));
    var others := ReplaceEffect(cs, i, [f]);
  }

  lemma ReleaseShape(cs: seq<Chunk>, i: nat)
    requires Shape(cs) && i < |cs| && !cs[i].free
    ensures Shape(Release(cs, i))
  {
    var marked := cs[i := Chunk(true, cs[i].size)];
    var left := Coalesce(marked, i - 1);
    var j := if BothFree(marked, i - 1) then i - 1 else i;
    assert left[j].free;
    forall k | 0 < k < |left| && k != j + 1
      ensures !(left[k - 1].free && left[k].free)
    {
      if BothFree(marked, i - 1) {
        if k < j { assert left[k] == cs[k] && left[k - 1] == cs[k - 1]; }
        else if k == j { assert left[k - 1] == cs[k - 1] && cs[i - 1].free; }
        else { assert left[k] == cs[k + 1] && left[k - 1] == cs[k]; }
      }
    }
    assert forall k | 0 <= k < |left| :: left[k].size >= 1;
    CoalesceRightShape(left, j);
  }

  lemma CoalesceRightShape(left: seq<Chunk>, j: nat)
    requires j < |left| && left[j].free
    requires forall k | 0 <= k < |left| :: left[k].size >= 1
    requires forall k | 0 < k < |left| && k != j + 1 :: !(left[k - 1].free && left[k].free)
    ensures Shape(Coalesce(left, j))
  {
    var r := Coalesce(left, j);
    forall k | 0 < k < |r|
      ensures !(r[k - 1].free && r[k].free)
    {
      if BothFree(left, j) {
        if k > j + 1 { assert r[k] == left[k + 1] && r[k - 1] == left[k]; }
        else if k == j + 1 { assert r[k] == left[k + 1] && left[j + 1].free; }
        else if k < j { assert r[k] == left[k] && r[k - 1] == left[k - 1]; }
      }
    }
  }

  /** What a free does to a shaped region: extent and shape are kept; the freed
      block, and only it, stops being live; freeing anything but the start of a
      live block changes nothing. */
  lemma FreeEffect(cs: seq<Chunk>, addr: int)
    requires Shape(cs)
    ensures Shape(Free(cs, addr)) && Extent(Free(cs, addr)) == Extent(cs)
    ensures Live(Free(cs, addr), 0) == set b | b in Live(cs, 0) && b.addr != addr
    ensures FreeResult(cs, Extent(cs), addr).Released? <==> exists b :: b in Live(cs, 0) && b.addr == addr
    ensures !FreeResult(cs, Extent(cs), addr).Released? ==> Free(cs, addr) == cs
  {
    hide Extent, Live, Coalesce, Start, Shape;
    var r := FreeResult(cs, Extent(cs), addr);
    forall b | b in Live(cs, 0) && b.addr == addr
      ensures r.Released? && b == Block(addr, cs[PayloadIndex(cs, addr)].size)
    {
      LiveBounds(cs, 0, b);
      var i := LiveIndex(cs, 0, b);
      PayloadIndexIs(cs, i);
    }
    if r.Released? {
      var i: nat := PayloadIndex(cs, addr);
      var marked := cs[i := Chunk(true, cs[i].size)];
      MarkEffect(cs, i);
      CoalesceEffect(marked, i - 1);
      CoalesceEffect(Coalesce(marked, i - 1), if BothFree(marked, i - 1) then i - 1 else i);
      ReleaseShape(cs, i);
      LiveMember(cs, 0, i);
    }
  }

  /** A payload of some chunk starts at the address. */
  ghost predicate PayloadAt(cs: seq<Chunk>, addr: int, free: bool) {
    exists i :: 0 <= i < |cs| && Start(cs, i) + HEADER == addr && cs[i].free == free
  }

  /** How a free ends, by the cause. */
  lemma FreeAnswers(cs: seq<Chunk>, addr: int)
    ensures var r, n := FreeResult(cs, Extent(cs), addr), Extent(cs);
      && (r == OutOfRange <==> addr < 0 || addr > n)
      && (r == NotAPayload <==> 0 <= addr <= n && !PayloadAt(cs, addr, true) && !PayloadAt(cs, addr, false))
      && (r == AlreadyFree <==> PayloadAt(cs, addr, true))
      && (r == Released <==> PayloadAt(cs, addr, false))
  {
    hide Extent, Start;
    var i := PayloadIndex(cs, addr);
    forall k | 0 <= k < |cs| && Start(cs, k) + HEADER == addr ensures k == i && 0 <= addr <= Extent(cs) {
      PayloadIndexIs(cs, k);
      StartInside(cs, k);
    }
  }

  lemma StartInside(cs: seq<Chunk>, i: nat)
    requires i < |cs|
    ensures 0 <= Start(cs, i) && Start(cs, i) + HEADER <= Extent(cs)
  {
    StartMonotone(cs, i, |cs|);
    StartEnd(cs);
  }

  /** A second free of the same pointer is seen to be one exactly when the chunk
      before was not free; otherwise its header is gone by then, and the pointer
      starts nothing. */
  lemma SecondFreeIsSeenExactly(cs: seq<Chunk>, i: nat)
    requires Shape(cs) && i < |cs| && !cs[i].free
    ensures var addr := Start(cs, i) + HEADER;
      var r := Free(cs, addr);
      FreeResult(r, Extent(r), addr) == if i > 0 && cs[i - 1].free then NotAPayload else AlreadyFree
  {
    hide Extent, Start, Shape;
    var addr := Start(cs, i) + HEADER;
    PayloadIndexIs(cs, i);
    FreeAnswers(cs, addr);
    assert PayloadAt(cs, addr, false);
    var r := Free(cs, addr);
    FreeAnswers(r, addr);
    if i > 0 && cs[i - 1].free {
      MergedLeft(cs, i, r);
    } else {
      StaysInPlace(cs, i, r);
    }
  }

  lemma StaysInPlace(cs: seq<Chunk>, i: nat, r: seq<Chunk>)
    requires i < |cs| && r == Release(cs, i) && !(i > 0 && cs[i - 1].free)
    ensures PayloadAt(r, Start(cs, i) + HEADER, true)
  {
    hide Extent;
    assert r[..i] == cs[..i];
    assert Start(r, i) == Start(cs, i) && r[i].free;
  }

  lemma MergedLeft(cs: seq<Chunk>, i: nat, r: seq<Chunk>)
    requires Shape(cs) && 0 < i < |cs| && cs[i - 1].free && r == Release(cs, i)
    ensures var addr := Start(cs, i) + HEADER;
      0 <= addr <= Extent(r) && !PayloadAt(r, addr, true) && !PayloadAt(r, addr, false)
  {
    hide Extent;
    var j, addr := i - 1, Start(cs, i) + HEADER;
    assert r[..j] == cs[..j];
    assert Start(r, j) == Start(cs, j) && r[j].size >= cs[j].size + HEADER + cs[i].size && cs[i].size >= 1;
    StartStep(cs, j);
    StartMonotone(r, j, |r|);
    StartEnd(r);
    forall k: nat | k < |r| ensures Start(r, k) + HEADER != addr {
      if k < j { StartMonotone(r, k, j); }
      if k > j { StartMonotone(r, j, k); }
    }
  }

  // ----- whole runs -----

  /** Every malloc/free sequence keeps the region tiled and shaped. */
  lemma {:induction false} RunKeepsShape(cs: seq<Chunk>, ops: seq<Op>)
    requires Shape(cs) && Requests(ops)
    ensures Shape(Run(cs, ops)) && Extent(Run(cs, ops)) == Extent(cs)
    decreases |ops|
  {
    if ops != [] {
      if ops[0].Malloc? { AllocEffect(cs, ops[0].size); } else { FreeEffect(cs, ops[0].addr); }
      RunKeepsShape(Apply(cs, ops[0]), ops[1..]);
    }
  }

  lemma AllocIsReleasable(cs: seq<Chunk>, i: nat, size: nat)
    requires i < |cs| && Fits(cs[i], size)
    ensures var r, addr := AllocAt(cs, i, size), Start(cs, i) + HEADER;
      FreeResult(r, Extent(r), addr) == Released && PayloadIndex(r, addr) == i
  {
    var r := AllocAt(cs, i, size);
    assert r[..i] == cs[..i];
    PayloadIndexIs(r, i);
    StartMonotone(r, i, |r|);
    StartEnd(r);
  }

  /** Freeing what an allocation has just returned restores the chunk list. */
  lemma MallocThenFree(cs: seq<Chunk>, size: nat)
    requires Shape(cs) && size >= 1 && AllocAddr(cs, size).Some?
    ensures Free(Alloc(cs, size), AllocAddr(cs, size).value) == cs
  {
    var i := FirstFit(cs, size);
    var r := Alloc(cs, size);
    AllocIsReleasable(cs, i, size);
    var marked := r[i := Chunk(true, r[i].size)];
    assert i > 0 ==> marked[i - 1] == cs[i - 1];
    assert !BothFree(marked, i - 1);
    if Splits(cs[i], size) {
      assert marked[..i] == cs[..i] && marked[i + 2..] == cs[i + 1..];
      assert Coalesce(marked, i) == cs[..i] + [cs[i]] + cs[i + 1..] == cs;
    } else {
      assert i + 1 < |cs| ==> marked[i + 1] == cs[i + 1];
      assert marked == cs;
    }
  }

  lemma NoLiveIsFresh(cs: seq<Chunk>)
    requires Shape(cs) && Live(cs, 0) == {}
    ensures cs == Fresh(Extent(cs))
  {
    forall i | 0 <= i < |cs| ensures cs[i].free {
      if !cs[i].free { LiveMember(cs, 0, i); }
    }
    assert cs == [cs[0]];
  }

  /** Whatever the order, and whatever else is passed to `free` in between:
      once every live block has been freed, one free chunk of N-6 bytes is left. */
  lemma {:induction false} FreeAllInAnyOrder(cs: seq<Chunk>, ops: seq<Op>)
    requires Shape(cs)
    requires forall k | 0 <= k < |ops| :: ops[k].FreeOp?
    requires forall b | b in Live(cs, 0) :: FreeOp(b.addr) in ops
    ensures Extent(cs) > HEADER && Run(cs, ops) == Fresh(Extent(cs))
    decreases |ops|
  {
    StartMonotone(cs, 0, |cs|);
    StartEnd(cs);
    if ops == [] {
      NoLiveIsFresh(cs);
    } else {
      FreeEffect(cs, ops[0].addr);
      forall b | b in Live(Free(cs, ops[0].addr), 0) ensures FreeOp(b.addr) in ops[1..] {
        assert FreeOp(b.addr) in ops && FreeOp(b.addr) != ops[0];
      }
      FreeAllInAnyOrder(Free(cs, ops[0].addr), ops[1..]);
    }
  }

  // ----- usage -----

  lemma AllocUsage(cs: seq<Chunk>, size: nat)
    ensures FreeBytes(Alloc(cs, size)) == FreeBytes(cs) - AllocCharge(cs, size) - AllocSlack(cs, size)
  {
    var i := FirstFit(cs, size);
    if i < |cs| {
      AllocLive(cs, i, size);
      PlaceEffect(cs[i], size, 0);
    }
  }

  lemma FreeUsage(cs: seq<Chunk>, addr: int)
    requires Shape(cs)
    ensures FreeBytes(Free(cs, addr)) == FreeBytes(cs) + FreeCredit(cs, addr)
  {
    var r := FreeResult(cs, Extent(cs), addr);
    if r.Released? {
      var i := PayloadIndex(cs, addr);
      var marked := cs[i := Chunk(true, cs[i].size)];
      var left := Coalesce(marked, i - 1);
      MarkEffect(cs, i);
      CoalesceEffect(marked, i - 1);
      CoalesceEffect(left, if BothFree(marked, i - 1) then i - 1 else i);
      if BothFree(marked, i - 1) {
        assert i + 1 < |cs| ==> left[i] == marked[i + 1];
        assert BothFree(left, i - 1) <==> BothFree(marked, i);
      }
    }
  }

  /** Over any run the usage field exceeds the free payload bytes by what it
      exceeded them at the start plus exactly the slack of the unsplit
      allocations: the excess never shrinks. */
  lemma {:induction false} UsageIsFreeBytesPlusSlack(cs: seq<Chunk>, usage: int, ops: seq<Op>)
    requires Shape(cs) && Requests(ops)
    ensures RunUsage(cs, usage, ops) - FreeBytes(Run(cs, ops)) ==
              usage - FreeBytes(cs) + RunSlack(cs, ops)
    decreases |ops|
  {
    if ops != [] {
      match ops[0] {
        case Malloc(size) => AllocEffect(cs, size); AllocUsage(cs, size);
        case FreeOp(addr) => FreeEffect(cs, addr); FreeUsage(cs, addr);
      }
      UsageIsFreeBytesPlusSlack(Apply(cs, ops[0]), ApplyUsage(cs, usage, ops[0]), ops[1..]);
    }
  }

  lemma AsShortCongruent(x: int, y: int, d: int)
    requires AsShort(x) == AsShort(y)
    ensures AsShort(x + d) == AsShort(y + d)
    ensures AsShort(AsShort(x)) == AsShort(x)
  {
    var m := 0x1_0000;
    var p, q := (x + 0x8000) / m, (y + 0x8000) / m;
    assert x + 0x8000 == p * m + (x + 0x8000) % m;
    assert y + 0x8000 == q * m + (y + 0x8000) % m;
    assert x + d + 0x8000 == (y + d + 0x8000) + (p - q) * m;
    ModShift(y + d + 0x8000, p - q);
    ModShift(x + 0x8000, -p);
  }

  lemma ModShift(a: int, k: int)
    ensures (a + k * 0x1_0000) % 0x1_0000 == a % 0x1_0000
  {
  }

  /** Truncating to a `short` after every operation gives the truncation of the
      unbounded account. */
  lemma {:induction false} StoredUsageIsTruncated(cs: seq<Chunk>, stored: int, usage: int, ops: seq<Op>)
    requires stored == AsShort(usage)
    ensures RunStoredUsage(cs, stored, ops) == AsShort(RunUsage(cs, usage, ops))
    decreases |ops|
  {
    if ops != [] {
      var delta := ApplyUsage(cs, usage, ops[0]) - usage;
      AsShortCongruent(usage, usage, 0);
      AsShortCongruent(stored, usage, delta);
      StoredUsageIsTruncated(Apply(cs, ops[0]), AsShort(ApplyUsage(cs, stored, ops[0])),
                             ApplyUsage(cs, usage, ops[0]), ops[1..]);
    }
  }

  /** The largest free chunk; 0 when nothing is free. */
  function LargestFree(cs: seq<Chunk>): nat {
    if cs == [] then 0
    else if cs[0].free && cs[0].size > LargestFree(cs[1..]) then cs[0].size
    else LargestFree(cs[1..])
  }

  lemma {:induction false} LargestFreeIs(cs: seq<Chunk>)
    ensures forall i | 0 <= i < |cs| && cs[i].free :: cs[i].size <= LargestFree(cs)
    ensures LargestFree(cs) > 0 ==> exists i :: 0 <= i < |cs| && Fits(cs[i], LargestFree(cs))
    ensures LargestFree(cs) <= FreeBytes(cs)
  {
    if cs != [] {
      LargestFreeIs(cs[1..]);
      forall i | 0 <= i < |cs| && cs[i].free ensures cs[i].size <= LargestFree(cs) {
        if i > 0 { assert cs[i] == cs[1..][i - 1]; }
      }
      if LargestFree(cs) == LargestFree(cs[1..]) > 0 {
        var i :| 0 <= i < |cs[1..]| && Fits(cs[1..][i], LargestFree(cs[1..]));
        assert Fits(cs[i + 1], LargestFree(cs));
      } else if LargestFree(cs) > 0 {
        assert Fits(cs[0], LargestFree(cs));
      }
    }
  }

  /** Every request that the region can serve passes the test `size <= usage`. */
  ghost predicate TestIsSound(cs: seq<Chunk>, usage: int) {
    forall size: nat | size >= 1 && FirstFit(cs, size) < |cs| :: size <= usage
  }

  /** `findFreePage` looks at a page only when `size <= usage`.  Whatever chunks
      the page holds and whatever its usage field says, that test lets every
      request through that the page can serve exactly when the field is at least
      the largest free chunk, if there is one. */
  lemma UsageTestIsSoundExactly(cs: seq<Chunk>, usage: int)
    ensures TestIsSound(cs, usage) <==> LargestFree(cs) == 0 || LargestFree(cs) <= usage
  {
    hide LargestFree;
    LargestFreeIs(cs);
    var largest := LargestFree(cs);
    if largest > 0 {
      assert FirstFit(cs, largest) < |cs|;
    }
    forall size: nat | size >= 1 && FirstFit(cs, size) < |cs| ensures size <= largest {
      assert cs[FirstFit(cs, size)].free;
    }
  }

  /** What that comes to on a run from a fresh region: as long as the account has
      not passed 32767 the test is sound; from there to 2^16 it is sound only
      while nothing is free. */
  lemma UsageTestOverRuns(n: nat, ops: seq<Op>)
    requires n > HEADER && Requests(ops)
    ensures var cs, account := Run(Fresh(n), ops), RunUsage(Fresh(n), n - HEADER, ops);
      && (account <= 0x7FFF ==> TestIsSound(cs, AsShort(account)))
      && (0x7FFF < account < 0x1_0000 ==> (TestIsSound(cs, AsShort(account)) <==> LargestFree(cs) == 0))
  {
    hide Run, RunUsage, RunSlack, LargestFree, TestIsSound;
    var cs, account := Run(Fresh(n), ops), RunUsage(Fresh(n), n - HEADER, ops);
    UsageIsFreeBytesPlusSlack(Fresh(n), n - HEADER, ops);
    RunKeepsShape(Fresh(n), ops);
    FreshBytes(n);
    LargestFreeIs(cs);
    UsageTestIsSoundExactly(cs, AsShort(account));
  }

  lemma FreshBytes(n: nat)
    requires n > HEADER
    ensures FreeBytes(Fresh(n)) == n - HEADER && Shape(Fresh(n))
  {
    Single(Fresh(n)[0], 0);
  }

  /** k times: take 4084 bytes of a fresh 4096-byte page and give them back. */
  function Rounds(k: nat): seq<Op> {
    if k == 0 then [] else [Malloc(4084), FreeOp(6)] + Rounds(k - 1)
  }

  /** The account does pass 32767: each such round leaves the page as it was and
      adds the 6 bytes of slack, so from round 4780 on the stored field is
      negative and the page's one free chunk of 4090 bytes is never tried. */
  lemma UsageDrifts(k: nat)
    ensures Run(Fresh(4096), Rounds(k)) == Fresh(4096)
    ensures RunStoredUsage(Fresh(4096), 4090, Rounds(k)) == AsShort(4090 + 6 * k)
    ensures 4780 <= k <= 10240 ==> RunStoredUsage(Fresh(4096), 4090, Rounds(k)) < 0
  {
    hide Rounds, Run, RunUsage, RunStoredUsage;
    RoundsDrift(4090, k);
    StoredUsageIsTruncated(Fresh(4096), 4090, 4090, Rounds(k));
  }

  lemma {:induction false} RoundsDrift(usage: int, k: nat)
    ensures Run(Fresh(4096), Rounds(k)) == Fresh(4096)
    ensures RunUsage(Fresh(4096), usage, Rounds(k)) == usage + 6 * k
    decreases k
  {
    if k > 0 {
      var f := Fresh(4096);
      var ops := Rounds(k);
      assert f[..0] == [] && FirstFit(f, 4084) == 0;
      var a := Alloc(f, 4084);
      assert a == [Chunk(false, 4090)];
      assert Start(a, 0) == 0;
      PayloadIndexIs(a, 0);
      Single(a[0], 0);
      assert FreeResult(a, Extent(a), 6) == Released && PayloadIndex(a, 6) == 0;
      assert Free(a, 6) == f;
      assert ops[1..][1..] == Rounds(k - 1);
      RoundsDrift(usage + 6, k - 1);
    }
  }
}
