/** The chunk list that the in-band headers of one heap region describe.

    A region of N bytes is tiled by chunks; each chunk is a 6-byte header
    followed by its payload.  Allocation is first fit with splitting, release
    coalesces with both neighbours. */
module ChunkList {
  import opened Options
  import opened Sequences

  const HEADER: nat := 6

  datatype Chunk = Chunk(free: bool, size: nat)

  // ----- layout -----

  /** Bytes covered by a list of chunks, headers included. */
  function Extent(cs: seq<Chunk>): nat {
    if cs == [] then 0 else HEADER + cs[0].size + Extent(cs[1..])
  }

  /** Offset of the header of chunk i; Start(cs, |cs|) is the end of the list. */
  function Start(cs: seq<Chunk>, i: nat): nat
    requires i <= |cs|
  {
    Extent(cs[..i])
  }

  /** The value of the `prev` field of chunk i: its predecessor's size. */
  function PrevSize(cs: seq<Chunk>, i: nat): nat
    requires i < |cs|
  {
    if i == 0 then 0 else cs[i - 1].size
  }

  /** What every malloc/free sequence keeps: no empty payload and no two
      neighbouring free chunks. */
  ghost predicate Shape(cs: seq<Chunk>) {
    && |cs| > 0
    && (forall i | 0 <= i < |cs| :: cs[i].size >= 1)
    && (forall i | 0 < i < |cs| :: !(cs[i - 1].free && cs[i].free))
  }

  /** A block handed out and not yet released. */
  datatype Block = Block(addr: int, size: nat)

  /** The live blocks of a list whose first header is at `base`. */
  function Live(cs: seq<Chunk>, base: int): set<Block> {
    if cs == [] then {}
    else (if cs[0].free then {} else {Block(base + HEADER, cs[0].size)})
         + Live(cs[1..], base + HEADER + cs[0].size)
  }

  // ----- allocation -----

  predicate Fits(c: Chunk, size: nat) {
    c.free && c.size >= size
  }

  /** The lowest chunk that fits, or |cs|. */
  function FirstFit(cs: seq<Chunk>, size: nat): (i: nat)
    ensures i <= |cs|
    ensures i < |cs| ==> Fits(cs[i], size)
    ensures forall j | 0 <= j < i :: !Fits(cs[j], size)
  {
    FirstIndex(cs, (c: Chunk) => Fits(c, size))
  }

  predicate Splits(c: Chunk, size: nat) {
    c.size - size > HEADER
  }

  /** A chunk after `size` bytes are taken from it: the remainder becomes a
      free chunk only when it can hold a header and at least one byte. */
  function Place(c: Chunk, size: nat): seq<Chunk>
    requires Fits(c, size)
  {
    if Splits(c, size) then [Chunk(false, size), Chunk(true, c.size - size - HEADER)]
    else [Chunk(false, c.size)]
  }

  function AllocAt(cs: seq<Chunk>, i: nat, size: nat): seq<Chunk>
    requires i < |cs| && Fits(cs[i], size)
  {
    cs[..i] + Place(cs[i], size) + cs[i + 1..]
  }

  function Alloc(cs: seq<Chunk>, size: nat): seq<Chunk> {
    var i := FirstFit(cs, size);
    if i == |cs| then cs else AllocAt(cs, i, size)
  }

  /** Payload address that an allocation returns, None for the null pointer. */
  function AllocAddr(cs: seq<Chunk>, size: nat): Option<nat> {
    var i := FirstFit(cs, size);
    if i == |cs| then None else Some(Start(cs, i) + HEADER)
  }

  // ----- release -----

  /** Index of the chunk whose payload starts at addr, or |cs|. */
  function PayloadIndex(cs: seq<Chunk>, addr: int): (i: nat)
    ensures i <= |cs|
    ensures i < |cs| ==> Start(cs, i) + HEADER == addr
    ensures forall j | 0 <= j < i :: Start(cs, j) + HEADER != addr
  {
    PayloadIndexFrom(cs, addr, 0)
  }

  function PayloadIndexFrom(cs: seq<Chunk>, addr: int, from: nat): (i: nat)
    requires from <= |cs|
    ensures from <= i <= |cs|
    ensures i < |cs| ==> Start(cs, i) + HEADER == addr
    ensures forall j | from <= j < i :: Start(cs, j) + HEADER != addr
    decreases |cs| - from
  {
    if from == |cs| || Start(cs, from) + HEADER == addr then from
    else PayloadIndexFrom(cs, addr, from + 1)
  }

  predicate BothFree(cs: seq<Chunk>, k: int) {
    0 <= k && k + 1 < |cs| && cs[k].free && cs[k + 1].free
  }

  /** Merges chunks k and k+1 when both exist and are free. */
  function Coalesce(cs: seq<Chunk>, k: int): (r: seq<Chunk>)
    ensures |r| == if BothFree(cs, k) then |cs| - 1 else |cs|
  {
    if BothFree(cs, k)
    then cs[..k] + [Chunk(true, cs[k].size + cs[k + 1].size + HEADER)] + cs[k + 2..]
    else cs
  }

  /** Releases chunk i: mark it free, merge to the left, then merge the result
      to the right. */
  function Release(cs: seq<Chunk>, i: nat): seq<Chunk>
    requires i < |cs|
  {
    var marked := cs[i := Chunk(true, cs[i].size)];
    var left := Coalesce(marked, i - 1);
    Coalesce(left, if BothFree(marked, i - 1) then i - 1 else i)
  }

  datatype FreeOutcome = OutOfRange | NotAPayload | AlreadyFree | Released

  /** How `free(addr)` ends on a region of `n` bytes. */
  function FreeResult(cs: seq<Chunk>, n: nat, addr: int): (r: FreeOutcome)
    ensures r.Released? ==> PayloadIndex(cs, addr) < |cs| && !cs[PayloadIndex(cs, addr)].free
  {
    var i := PayloadIndex(cs, addr);
    if addr < 0 || addr > n then OutOfRange
    else if i == |cs| then NotAPayload
    else if cs[i].free then AlreadyFree
    else Released
  }

  function Free(cs: seq<Chunk>, addr: int): seq<Chunk> {
    if FreeResult(cs, Extent(cs), addr).Released? then Release(cs, PayloadIndex(cs, addr)) else cs
  }

  // ----- usage accounting -----

  /** Payload bytes in free chunks. */
  function FreeBytes(cs: seq<Chunk>): nat {
    if cs == [] then 0 else (if cs[0].free then cs[0].size else 0) + FreeBytes(cs[1..])
  }

  /** How much an allocation takes off the page's usage field. */
  function AllocCharge(cs: seq<Chunk>, size: nat): nat {
    var i := FirstFit(cs, size);
    if i == |cs| then 0 else if Splits(cs[i], size) then size + HEADER else size
  }

  /** Bytes that an allocation hands out beyond what it charges for. */
  function AllocSlack(cs: seq<Chunk>, size: nat): (s: nat)
    ensures s <= HEADER
  {
    var i := FirstFit(cs, size);
    if i == |cs| || Splits(cs[i], size) then 0 else cs[i].size - size
  }

  /** How much a free adds to the usage field: the payload, and one header for
      every merge. */
  function FreeCredit(cs: seq<Chunk>, addr: int): nat {
    if !FreeResult(cs, Extent(cs), addr).Released? then 0
    else
      var i := PayloadIndex(cs, addr);
      var marked := cs[i := Chunk(true, cs[i].size)];
      cs[i].size
      + (if BothFree(marked, i - 1) then HEADER else 0)
      + (if BothFree(marked, i) then HEADER else 0)
  }

  // ----- runs -----

  datatype Op = Malloc(size: nat) | FreeOp(addr: int)

  function Apply(cs: seq<Chunk>, op: Op): seq<Chunk> {
    match op
    case Malloc(size) => Alloc(cs, size)
    case FreeOp(addr) => Free(cs, addr)
  }

  function ApplyUsage(cs: seq<Chunk>, usage: int, op: Op): int {
    match op
    case Malloc(size) => usage - AllocCharge(cs, size)
    case FreeOp(addr) => usage + FreeCredit(cs, addr)
  }

  function Run(cs: seq<Chunk>, ops: seq<Op>): seq<Chunk>
    decreases |ops|
  {
    if ops == [] then cs else Run(Apply(cs, ops[0]), ops[1..])
  }

  /** The usage field after a run, on unbounded integers. */
  function RunUsage(cs: seq<Chunk>, usage: int, ops: seq<Op>): int
    decreases |ops|
  {
    if ops == [] then usage
    else RunUsage(Apply(cs, ops[0]), ApplyUsage(cs, usage, ops[0]), ops[1..])
  }

  /** The value a C `short` holds after x is stored in it. */
  function AsShort(x: int): (r: int)
    ensures -0x8000 <= r < 0x8000
  {
    (x + 0x8000) % 0x1_0000 - 0x8000
  }

  /** The usage field after a run as the page header stores it, in a `short`. */
  function RunStoredUsage(cs: seq<Chunk>, usage: int, ops: seq<Op>): int
    decreases |ops|
  {
    if ops == [] then usage
    else RunStoredUsage(Apply(cs, ops[0]), AsShort(ApplyUsage(cs, usage, ops[0])), ops[1..])
  }

  /** Slack handed out over a run. */
  function RunSlack(cs: seq<Chunk>, ops: seq<Op>): nat
    decreases |ops|
  {
    if ops == [] then 0
    else (if ops[0].Malloc? then AllocSlack(cs, ops[0].size) else 0) + RunSlack(Apply(cs, ops[0]), ops[1..])
  }

  /** Every request is for at least one byte: `mymalloc` and `shalloc` return
      null for the others before they reach a region. */
  ghost predicate Requests(ops: seq<Op>) {
    forall i | 0 <= i < |ops| :: ops[i].Malloc? ==> ops[i].size >= 1
  }

  /** A region as `initialize` leaves it: one free chunk. */
  function Fresh(n: nat): seq<Chunk>
    requires n > HEADER
  {
    [Chunk(true, n - HEADER)]
  }
}
