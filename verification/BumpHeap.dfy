/** The static test heap: blocks are taken from the end of one array, and only
    the last block can be given back.  Every block is a 16-byte guard header,
    the payload and an end marker, rounded up to the alignment. */
module BumpHeap {
  import opened Options

  const GUARD: nat := 16
  const ALIGNMENT: nat := 8
  const MARKER: nat := 4
  const WORD_LIMIT: nat := 0x1_0000_0000_0000_0000
  const DONT_FAIL: int := -1

  /** A block that lies in the array; one that was released while it was not the
      last is stranded there. */
  datatype Block = Block(size: nat, live: bool)

  /** countdown is `malloc_fail_countdown`, count is `malloc_count`. */
  datatype State = State(blocks: seq<Block>, count: int, countdown: int)

  // ----- layout -----

  function RoundUp(n: nat): nat {
    (n + ALIGNMENT - 1) / ALIGNMENT * ALIGNMENT
  }

  function Total(size: nat): nat {
    GUARD + RoundUp(size + MARKER)
  }

  /** Bytes taken by a list of blocks: the value of `heap_index`. */
  function Extent(bs: seq<Block>): nat {
    if bs == [] then 0 else Extent(bs[..|bs| - 1]) + Total(bs[|bs| - 1].size)
  }

  function Start(bs: seq<Block>, i: nat): nat
    requires i <= |bs|
  {
    Extent(bs[..i])
  }

  /** The address that the caller holds, as an offset into the array. */
  function Payload(bs: seq<Block>, i: nat): nat
    requires i < |bs|
  {
    Start(bs, i) + GUARD
  }

  // ----- the operations -----

  function Tick(s: State): State {
    if s.countdown == DONT_FAIL then s else s.(countdown := s.countdown - 1)
  }

  predicate HasRoom(bs: seq<Block>, size: nat, capacity: nat) {
    Extent(bs) + Total(size) <= capacity
  }

  predicate Grants(s: State, size: nat, capacity: nat) {
    s.countdown != 0 && size > 0 && HasRoom(s.blocks, size, capacity)
  }

  function Malloc(s: State, size: nat, capacity: nat): State {
    if s.countdown == 0 then s
    else if !Grants(s, size, capacity) then Tick(s)
    else Tick(s).(blocks := s.blocks + [Block(size, true)], count := s.count + 1)
  }

  function MallocResult(s: State, size: nat, capacity: nat): Option<nat> {
    if Grants(s, size, capacity) then Some(Extent(s.blocks) + GUARD) else None
  }

  function Drop(bs: seq<Block>, i: nat): seq<Block>
    requires i < |bs|
  {
    if i == |bs| - 1 then bs[..i] else bs[i := bs[i].(live := false)]
  }

  function Release(s: State, i: nat): State
    requires i < |s.blocks|
  {
    s.(blocks := Drop(s.blocks, i), count := s.count - 1)
  }

  /** A block that is the last grows where it is. */
  predicate GrowsInPlace(bs: seq<Block>, i: nat, size: nat, capacity: nat)
    requires i < |bs|
  {
    i == |bs| - 1 && HasRoom(bs[..i], size, capacity)
  }

  function Realloc(s: State, i: nat, size: nat, capacity: nat): State
    requires i < |s.blocks|
  {
    if size == 0 then Release(s, i)
    else if s.blocks[i].size >= size then s
    else if GrowsInPlace(s.blocks, i, size, capacity) then Malloc(Release(s, i), size, capacity)
    else if Grants(s, size, capacity) then Release(Malloc(s, size, capacity), i)
    else Malloc(s, size, capacity)
  }

  function ReallocResult(s: State, i: nat, size: nat, capacity: nat): Option<nat>
    requires i < |s.blocks|
  {
    if size == 0 then None
    else if s.blocks[i].size >= size then Some(Payload(s.blocks, i))
    else if GrowsInPlace(s.blocks, i, size, capacity) then MallocResult(Release(s, i), size, capacity)
    else MallocResult(s, size, capacity)
  }

  // ----- sizes in 64-bit words -----

  function WordRoundUp(n: nat): nat {
    ((n + ALIGNMENT - 1) % WORD_LIMIT) / ALIGNMENT * ALIGNMENT
  }

  function WordTotal(size: nat): nat {
    (GUARD + WordRoundUp((size + MARKER) % WORD_LIMIT)) % WORD_LIMIT
  }

  /** The comparison that `unity_malloc` makes. */
  predicate WordHasRoom(index: nat, size: nat, capacity: nat) {
    (index + WordTotal(size)) % WORD_LIMIT <= capacity
  }

  /** The sum wraps past zero and comes out small enough. */
  predicate Wraps(index: nat, size: nat, capacity: nat) {
    WORD_LIMIT <= index + Total(size) <= WORD_LIMIT + capacity
  }

  /** Rounding down to the alignment commutes with a wrap. */
  lemma FloorWraps(x: nat)
    requires WORD_LIMIT <= x
    ensures (x - WORD_LIMIT) / ALIGNMENT * ALIGNMENT == x / ALIGNMENT * ALIGNMENT - WORD_LIMIT
  {
    var q, r := x / ALIGNMENT, x % ALIGNMENT;
    assert x - WORD_LIMIT == ALIGNMENT * (q - 0x2000_0000_0000_0000) + r;
  }

  lemma WrapIs(x: nat)
    requires x < 2 * WORD_LIMIT
    ensures x % WORD_LIMIT == if x < WORD_LIMIT then x else x - WORD_LIMIT
  {
  }

  /** x and y differ by a wrap. */
  predicate Congruent(x: int, y: int) {
    x == y || x == y - WORD_LIMIT
  }

  lemma WordTotalIs(size: nat)
    requires size < WORD_LIMIT
    ensures Congruent(WordTotal(size), Total(size)) && WordTotal(size) < WORD_LIMIT
  {
    var n := size + MARKER;
    WrapIs(n);
    if n < WORD_LIMIT {
      WrapIs(n + ALIGNMENT - 1);
      if n + ALIGNMENT - 1 >= WORD_LIMIT { FloorWraps(n + ALIGNMENT - 1); }
    } else {
      WrapIs(n - WORD_LIMIT + ALIGNMENT - 1);
      FloorWraps(n + ALIGNMENT - 1);
    }
    WrapIs(GUARD + WordRoundUp(n % WORD_LIMIT));
  }

  /** The comparison in 64-bit words tells whether the block really fits, except
      for the requests whose size makes the sum wrap to a small one. */
  lemma HasRoomExactly(index: nat, size: nat, capacity: nat)
    requires size < WORD_LIMIT && index <= capacity && capacity + 32 < WORD_LIMIT
    ensures (WordHasRoom(index, size, capacity) <==> index + Total(size) <= capacity)
            <==> !Wraps(index, size, capacity)
  {
    hide Total, WordTotal;
    WordTotalIs(size);
    TotalBound(size);
    WrapIs(index + WordTotal(size));
  }

  lemma TotalBound(size: nat)
    ensures size + GUARD + MARKER <= Total(size) < size + GUARD + MARKER + ALIGNMENT
  {
  }

  /** `unity_realloc` leaves the guard out on both sides of its comparison. */
  lemma GrowthTestIs(start: nat, size: nat, capacity: nat)
    requires size < WORD_LIMIT && start + GUARD <= capacity && capacity + 32 < WORD_LIMIT
    ensures (start + GUARD + WordRoundUp((size + MARKER) % WORD_LIMIT)) % WORD_LIMIT <= capacity
            <==> WordHasRoom(start, size, capacity)
  {
    var r := WordRoundUp((size + MARKER) % WORD_LIMIT);
    WrapIs(GUARD + r);
    WrapIs(start + GUARD + r);
    WrapIs(start + WordTotal(size));
  }

  // ----- where blocks lie -----

  lemma {:induction false} StartStep(bs: seq<Block>, i: nat)
    requires i < |bs|
    ensures Start(bs, i + 1) == Start(bs, i) + Total(bs[i].size)
    ensures Start(bs, |bs|) == Extent(bs)
  {
    assert bs[..i + 1][..i] == bs[..i];
    assert bs[..|bs|] == bs;
  }

  lemma {:induction false} StartsOrdered(bs: seq<Block>, i: nat, j: nat)
    requires i < j <= |bs|
    ensures Start(bs, i) + Total(bs[i].size) <= Start(bs, j)
    decreases j
  {
    hide Total;
    StartStep(bs, j - 1);
    if i < j - 1 {
      StartsOrdered(bs, i, j - 1);
    }
  }

  /** Blocks, with their headers and markers, are disjoint and lie below the
      heap index. */
  lemma BlocksDisjoint(bs: seq<Block>, i: nat, j: nat)
    requires i < j < |bs|
    ensures Payload(bs, i) + bs[i].size + MARKER <= Payload(bs, j) - GUARD
    ensures Payload(bs, j) + bs[j].size + MARKER <= Extent(bs)
  {
    StartsOrdered(bs, i, j);
    StartStep(bs, j);
    StartsOrdered(bs, j, |bs|);
  }

  /** Payloads are aligned, as the array is. */
  lemma {:induction false} Aligned(bs: seq<Block>, i: nat)
    requires i <= |bs|
    ensures Start(bs, i) % ALIGNMENT == 0
  {
    hide Total;
    if i > 0 {
      Aligned(bs, i - 1);
      StartStep(bs, i - 1);
      TotalAligned(bs[i - 1].size);
      assert Start(bs, i) == Start(bs, i - 1) + Total(bs[i - 1].size);
    }
  }

  lemma TotalAligned(size: nat)
    ensures Total(size) % ALIGNMENT == 0
  {
  }

  // ----- whole runs -----

  datatype Op = DoMalloc(size: nat) | DoFree(index: nat) | DoRealloc(index: nat, size: nat)

  /** Only live blocks are given back or grown. */
  predicate Allowed(s: State, op: Op) {
    match op
    case DoMalloc(_) => true
    case DoFree(i) => i < |s.blocks| && s.blocks[i].live
    case DoRealloc(i, _) => i < |s.blocks| && s.blocks[i].live
  }

  function Apply(s: State, op: Op, capacity: nat): State
    requires Allowed(s, op)
  {
    match op
    case DoMalloc(size) => Malloc(s, size, capacity)
    case DoFree(i) => Release(s, i)
    case DoRealloc(i, size) => Realloc(s, i, size, capacity)
  }

  function LiveCount(bs: seq<Block>): nat {
    if bs == [] then 0 else LiveCount(bs[..|bs| - 1]) + if bs[|bs| - 1].live then 1 else 0
  }

  /** The blocks lie inside the array, none is empty, and the leak counter
      counts the live ones. */
  ghost predicate Inv(s: State, capacity: nat) {
    && Extent(s.blocks) <= capacity
    && (forall i | 0 <= i < |s.blocks| :: s.blocks[i].size > 0)
    && s.count == LiveCount(s.blocks)
  }

  lemma {:induction false} ExtentDrop(bs: seq<Block>, i: nat)
    requires i < |bs| && bs[i].live
    ensures Extent(Drop(bs, i)) <= Extent(bs)
    ensures i < |bs| - 1 ==> Extent(Drop(bs, i)) == Extent(bs)
    ensures LiveCount(Drop(bs, i)) == LiveCount(bs) - 1
    decreases |bs|
  {
    hide Total;
    var n := |bs| - 1;
    if i < n {
      var d := bs[i := bs[i].(live := false)];
      if i < n - 1 {
        ExtentDrop(bs[..n], i);
        assert d[..n] == Drop(bs[..n], i);
      } else {
        assert bs[..n][..i] == bs[..i] == d[..n][..i];
      }
    }
  }

  lemma ExtendBy(bs: seq<Block>, b: Block)
    ensures Extent(bs + [b]) == Extent(bs) + Total(b.size)
    ensures LiveCount(bs + [b]) == LiveCount(bs) + if b.live then 1 else 0
  {
    assert (bs + [b])[..|bs|] == bs;
  }

  lemma MallocKeeps(s: State, size: nat, capacity: nat)
    requires Inv(s, capacity)
    ensures Inv(Malloc(s, size, capacity), capacity)
  {
    hide Extent, LiveCount, Total;
    ExtendBy(s.blocks, Block(size, true));
  }

  lemma ReleaseKeeps(s: State, i: nat, capacity: nat)
    requires Inv(s, capacity) && i < |s.blocks| && s.blocks[i].live
    ensures Inv(Release(s, i), capacity)
  {
    hide Extent, LiveCount;
    ExtentDrop(s.blocks, i);
  }

  lemma ApplyKeeps(s: State, op: Op, capacity: nat)
    requires Inv(s, capacity) && Allowed(s, op)
    ensures Inv(Apply(s, op, capacity), capacity)
  {
    hide Inv, HasRoom;
    match op
    case DoMalloc(size) => MallocKeeps(s, size, capacity);
    case DoFree(i) => ReleaseKeeps(s, i, capacity);
    case DoRealloc(i, size) =>
      ReleaseKeeps(s, i, capacity);
      MallocKeeps(Release(s, i), size, capacity);
      MallocKeeps(s, size, capacity);
      if Grants(s, size, capacity) {
        ReleaseKeeps(Malloc(s, size, capacity), i, capacity);
      }
  }

  ghost predicate AllowedRun(s: State, ops: seq<Op>, capacity: nat)
    decreases |ops|
  {
    ops == [] || (Allowed(s, ops[0]) && AllowedRun(Apply(s, ops[0], capacity), ops[1..], capacity))
  }

  ghost function Run(s: State, ops: seq<Op>, capacity: nat): State
    requires AllowedRun(s, ops, capacity)
    decreases |ops|
  {
    if ops == [] then s else Run(Apply(s, ops[0], capacity), ops[1..], capacity)
  }

  lemma {:induction false} RunKeeps(s: State, ops: seq<Op>, capacity: nat)
    requires Inv(s, capacity) && AllowedRun(s, ops, capacity)
    ensures Inv(Run(s, ops, capacity), capacity)
    decreases |ops|
  {
    hide Inv, Apply;
    if ops != [] {
      ApplyKeeps(s, ops[0], capacity);
      RunKeeps(Apply(s, ops[0], capacity), ops[1..], capacity);
    }
  }

  lemma {:induction false} LiveCountIsZero(bs: seq<Block>)
    ensures LiveCount(bs) == 0 <==> forall i | 0 <= i < |bs| :: !bs[i].live
  {
    if bs != [] {
      var n := |bs| - 1;
      LiveCountIsZero(bs[..n]);
      assert forall i | 0 <= i < n :: bs[..n][i] == bs[i];
    }
  }

  /** At the end of a test that began with no blocks, the leak is reported
      exactly when some block is still live; whatever was stranded is not. */
  lemma LeakReportedExactly(ops: seq<Op>, countdown: int, capacity: nat)
    requires AllowedRun(State([], 0, countdown), ops, capacity)
    ensures var s := Run(State([], 0, countdown), ops, capacity);
      s.count != 0 <==> exists i :: 0 <= i < |s.blocks| && s.blocks[i].live
  {
    hide Run, AllowedRun;
    RunKeeps(State([], 0, countdown), ops, capacity);
    LiveCountIsZero(Run(State([], 0, countdown), ops, capacity).blocks);
  }

  // ----- giving blocks back -----

  /** Giving back the block that was just handed out restores the heap. */
  lemma MallocThenFree(s: State, size: nat, capacity: nat)
    requires Grants(s, size, capacity)
    ensures var m := Malloc(s, size, capacity);
      && MallocResult(s, size, capacity) == Some(Payload(m.blocks, |s.blocks|))
      && Release(m, |s.blocks|) == Tick(s)
  {
    var m := Malloc(s, size, capacity);
    assert m.blocks[..|s.blocks|] == s.blocks;
  }

  /** Blocks are given back one after the other. */
  ghost predicate Returnable(bs: seq<Block>, order: seq<nat>)
    decreases |order|
  {
    order == [] || (order[0] < |bs| && bs[order[0]].live && Returnable(Drop(bs, order[0]), order[1..]))
  }

  ghost function Return(bs: seq<Block>, order: seq<nat>): seq<Block>
    requires Returnable(bs, order)
    decreases |order|
  {
    if order == [] then bs else Return(Drop(bs, order[0]), order[1..])
  }

  lemma {:induction false} ReturnLength(bs: seq<Block>, order: seq<nat>)
    requires Returnable(bs, order)
    ensures |bs| - |order| <= |Return(bs, order)| <= |bs|
    decreases |order|
  {
    if order != [] {
      ReturnLength(Drop(bs, order[0]), order[1..]);
    }
  }

  /** As many blocks leave the heap as are given back exactly when the last one
      is given back each time. */
  lemma {:induction false} LastEachTimeExactly(bs: seq<Block>, order: seq<nat>)
    requires Returnable(bs, order)
    ensures |Return(bs, order)| == |bs| - |order|
            <==> forall j | 0 <= j < |order| :: order[j] == |bs| - 1 - j
    decreases |order|
  {
    if order != [] {
      var d, rest := Drop(bs, order[0]), order[1..];
      LastEachTimeExactly(d, rest);
      ReturnLength(d, rest);
      if order[0] == |bs| - 1 {
        assert forall j | 0 <= j < |rest| :: rest[j] == order[j + 1];
        assert forall j | 1 <= j < |order| :: order[j] == rest[j - 1];
      }
    }
  }

  /** Blocks that are given back leave what remains where it was. */
  lemma {:induction false} ReturnKeepsPlaces(bs: seq<Block>, order: seq<nat>)
    requires Returnable(bs, order)
    ensures |Return(bs, order)| <= |bs| && Extent(Return(bs, order)) == Start(bs, |Return(bs, order)|)
    decreases |order|
  {
    hide Extent;
    ReturnLength(bs, order);
    if order == [] {
      assert bs[..|bs|] == bs;
    } else {
      var d, r := Drop(bs, order[0]), Return(bs, order);
      ReturnKeepsPlaces(d, order[1..]);
      if order[0] < |r| {
        SameExtent(bs[..|r|], order[0]);
        assert d[..|r|] == bs[..|r|][order[0] := bs[order[0]].(live := false)];
      } else {
        assert d[..|r|] == bs[..|r|];
      }
    }
  }

  /** After the latest blocks, from block k on, are given back in some order,
      `heap_index` is what it was before they were handed out exactly when they
      came back in the reverse order; any other order strands memory. */
  lemma RestoredExactly(bs: seq<Block>, k: nat, order: seq<nat>)
    requires Returnable(bs, order) && k + |order| == |bs|
    ensures Extent(Return(bs, order)) == Start(bs, k) <==> forall j | 0 <= j < |order| :: order[j] == |bs| - 1 - j
  {
    ReturnKeepsPlaces(bs, order);
    LastEachTimeExactly(bs, order);
    ReturnLength(bs, order);
    var n := |Return(bs, order)|;
    if k < n {
      StartsOrdered(bs, k, n);
    }
  }

  /** Growing the last block within the array keeps its address; it fails only
      when failures are being injected, and then the block is gone. */
  lemma LastBlockGrowsExactly(s: State, i: nat, size: nat, capacity: nat)
    requires i < |s.blocks| && size > s.blocks[i].size && GrowsInPlace(s.blocks, i, size, capacity)
    ensures s.countdown != 0 ==>
              && ReallocResult(s, i, size, capacity) == Some(Payload(s.blocks, i))
              && Realloc(s, i, size, capacity).blocks == s.blocks[i := s.blocks[i].(size := size, live := true)]
              && Realloc(s, i, size, capacity).count == s.count
    ensures s.countdown == 0 ==>
              ReallocResult(s, i, size, capacity) == None && Realloc(s, i, size, capacity) == Release(s, i)
  {
    if s.countdown != 0 {
      assert s.blocks[i := s.blocks[i].(size := size, live := true)] == s.blocks[..i] + [Block(size, true)];
    }
  }

  /** A malloc is refused exactly when failures are being injected, nothing is
      asked for, or the block, its header and its marker do not fit behind the
      others; otherwise it is the new last block, and nothing else changes. */
  lemma MallocNullExactly(s: State, size: nat, capacity: nat)
    ensures MallocResult(s, size, capacity) == None <==>
              s.countdown == 0 || size == 0 || Start(s.blocks, |s.blocks|) + Total(size) > capacity
    ensures var r := Malloc(s, size, capacity);
      if MallocResult(s, size, capacity) == None then r.blocks == s.blocks && r.count == s.count
      else
        && r.blocks == s.blocks + [Block(size, true)] && r.count == s.count + 1
        && MallocResult(s, size, capacity) == Some(Payload(r.blocks, |s.blocks|))
  {
    assert s.blocks[..|s.blocks|] == s.blocks;
    var r := Malloc(s, size, capacity);
    if MallocResult(s, size, capacity).Some? { assert r.blocks[..|s.blocks|] == s.blocks; }
  }

  /** A realloc is refused exactly when nothing is asked for, or more than the
      block has and either failures are being injected or there is no room for it,
      in place or behind the others.  For no more than the block has, nothing
      happens; for nothing, the block is given back. */
  lemma ReallocNullExactly(s: State, i: nat, size: nat, capacity: nat)
    requires i < |s.blocks|
    ensures ReallocResult(s, i, size, capacity) == None <==>
              || size == 0
              || (&& size > s.blocks[i].size
                  && (|| s.countdown == 0
                      || (&& (i < |s.blocks| - 1 || Start(s.blocks, i) + Total(size) > capacity)
                          && Start(s.blocks, |s.blocks|) + Total(size) > capacity)))
    ensures 0 < size <= s.blocks[i].size ==>
              ReallocResult(s, i, size, capacity) == Some(Payload(s.blocks, i)) && Realloc(s, i, size, capacity) == s
    ensures size == 0 ==> Realloc(s, i, size, capacity) == Release(s, i)
  {
    hide Extent, Total;
    assert s.blocks[..|s.blocks|] == s.blocks;
  }

  // ----- injected failures -----

  /** How often a call comes as far as to ask for a new block. */
  function Attempts(s: State, op: Op): nat
    requires Allowed(s, op)
  {
    match op
    case DoMalloc(_) => 1
    case DoFree(_) => 0
    case DoRealloc(i, size) => if size > s.blocks[i].size then 1 else 0
  }

  ghost function AllAttempts(s: State, ops: seq<Op>, capacity: nat): nat
    requires AllowedRun(s, ops, capacity)
    decreases |ops|
  {
    if ops == [] then 0 else Attempts(s, ops[0]) + AllAttempts(Apply(s, ops[0], capacity), ops[1..], capacity)
  }

  lemma {:induction false} CountdownAfter(s: State, ops: seq<Op>, capacity: nat)
    requires AllowedRun(s, ops, capacity) && s.countdown >= -1
    ensures var n := AllAttempts(s, ops, capacity);
      Run(s, ops, capacity).countdown ==
        if s.countdown == -1 then -1 else if n <= s.countdown then s.countdown - n else 0
    decreases |ops|
  {
    hide HasRoom;
    if ops != [] {
      CountdownAfter(Apply(s, ops[0], capacity), ops[1..], capacity);
    }
  }

  /** A countdown of n lets n attempts through to the test for room, over any run;
      every later one is refused and changes nothing, until it is set again.
      Without one, attempts fail for want of room only. */
  lemma FailsAfterCountdown(s: State, ops: seq<Op>, size: nat, capacity: nat)
    requires AllowedRun(s, ops, capacity) && s.countdown >= -1 && size > 0
    ensures var r, n := Run(s, ops, capacity), AllAttempts(s, ops, capacity);
      && (s.countdown >= 0 && n >= s.countdown ==>
            MallocResult(r, size, capacity) == None && Malloc(r, size, capacity) == r)
      && (s.countdown == -1 || n < s.countdown ==>
            (MallocResult(r, size, capacity) == None <==> Extent(r.blocks) + Total(size) > capacity))
  {
    hide Extent, Total;
    CountdownAfter(s, ops, capacity);
  }

  /** A realloc that finds no room anywhere leaves the old block as it was. */
  lemma FailedReallocKeepsBlock(s: State, i: nat, size: nat, capacity: nat)
    requires i < |s.blocks| && size > 0 && !GrowsInPlace(s.blocks, i, size, capacity)
    requires ReallocResult(s, i, size, capacity) == None
    ensures Realloc(s, i, size, capacity).blocks == s.blocks && Realloc(s, i, size, capacity).count == s.count
  {
  }

  /** A realloc that moves a block hands out the end of the heap; the old block
      stays stranded under it. */
  lemma MovedBlockStrands(s: State, i: nat, size: nat, capacity: nat)
    requires i < |s.blocks| && size > s.blocks[i].size && !GrowsInPlace(s.blocks, i, size, capacity)
    requires Grants(s, size, capacity)
    ensures var r := Realloc(s, i, size, capacity);
      && r.blocks == s.blocks[i := s.blocks[i].(live := false)] + [Block(size, true)]
      && ReallocResult(s, i, size, capacity) == Some(Payload(r.blocks, |s.blocks|))
      && r.count == s.count
  {
    var r := Realloc(s, i, size, capacity);
    assert r.blocks == s.blocks[i := s.blocks[i].(live := false)] + [Block(size, true)];
    assert r.blocks[..|s.blocks|] == s.blocks[i := s.blocks[i].(live := false)];
    SameExtent(s.blocks, i);
  }

  /** Stranding a block moves nothing. */
  lemma {:induction false} SameExtent(bs: seq<Block>, i: nat)
    requires i < |bs|
    ensures Extent(bs[i := bs[i].(live := false)]) == Extent(bs)
    decreases |bs|
  {
    var n := |bs| - 1;
    var d := bs[i := bs[i].(live := false)];
    if i < n {
      SameExtent(bs[..n], i);
      assert d[..n] == bs[..n][i := bs[i].(live := false)];
    } else {
      assert d[..n] == bs[..n];
    }
  }
}
