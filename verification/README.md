# A verified model of the thread library and its memory manager

The repository holds a user-level thread library (`mypthread.c`) with its own
two-level memory manager (`umalloc.c`), and carries a copy of the Unity test
framework. This project models the parts of it that move state around and proves
what they keep:

- **The heap regions** of `umalloc.c`: first fit over in-band 6-byte headers,
  splitting, two-sided coalescing, and the usage field of the page header.
  `ChunkList` is the list of chunks that the headers describe, `HeaderBytes` and
  `RegionBytes` tie it to the bytes, `RegionCode` is what the code computes on
  bytes, and `Region` the code over a byte array.
- **The page table** of `umalloc.c`: 2048 slots, in which every thread addresses its
  page k at slot 6+k-1 and the fault handler and the loaders move pages around.
  `PageTable` is the table as a value, `FlatMemory` shows that a time slice behaves
  like one private flat memory, `Loader`, `StackLoads` and `PageAlloc` treat loading
  and allocation, `OpenSlots` what is left unprotected and what that means,
  `PageRuns` whole runs, and `Paging` is the code over arrays of headers, pages and
  protection bits.
- **Both levels together**: `TableHeap` is `mymalloc` and `myfree` for requests of
  one page as the code does them on the page table: the search goes by slot, the
  index it leaves is a rank, and the address and the charge are those of the page
  with that number. `ThreadHeap` is the heap that a thread is meant to see, its
  pages by number, those of larger regions (such as its stack) among them;
  `LargeRegions` is a request of several pages, which `loadSpan` brings together.
  `TableHeap` and `TableHeapRuns` say when the heap on the table is the heap meant,
  for one call and over whole runs of any threads and the library. `TableRuns`
  follows the first `mypthread_create` from an empty table, and two runs of the main
  thread from there in which the conditions fail; `TableSteps` has its steps.
- **The scheduler, mutexes and joins** of `mypthread.c` under PSJF. `Threads` is the
  state machine; `Dispatch` and `ThreadRuns` treat the order of the run queue and
  fairness, `Quanta` what every decision adds to whose quantum, `Mutexes`,
  `MutexRuns` and `MutexSteps` ownership and hand-over, `Joins` and `ExitRuns` who
  waits for whom and what becomes of exit values, and `JoinWrites` and `LateJoins`
  what becomes of an exit value that the joiner wants in its own pages. `Scheduler`
  is the code over the library's state, and `LinkedQueue` the queues as linked
  nodes.
- **The static test heap** of `unity_memory.c`, as built with
  `UNITY_EXCLUDE_STDLIB_MALLOC`: `BumpHeap` is the list of blocks, `StaticHeap` the
  code over the byte array.

`Options`, `Sequences` and `Words` hold what several of these share.

Code that works in place is a class whose methods are proved to compute a
specification function of the old state; the properties are lemmas about those
functions, over all inputs and all runs.

Some promises are kept only under a condition. For these it is given by an
if-and-only-if: the 16-bit header fields (`FieldsFitExactly`), the usage test
(`UsageTestIsSoundExactly`), the flat memory of a time slice (`InPlaceExactly`) and
after a free, which leaves nothing protected (`AfterFreeExactly`),
`loadLibraryPages` putting the pages in place (`LoadPlacesExactly`), the index left
in `Thread_Page_Index` (`IndexIsPageNumberExactly`), the address of a block
(`AddressNamesBlockExactly`), the exit value on its way to a joiner's pages
(`ExitArrivesExactly`, `LateValueArrivesExactly`), the late join
(`LateJoinExactly`), the lone thread (`LoneThreadExactly`), the end of the dispatch
loop (`LoopEndsExactly`), the size arithmetic, the order of frees and the growth of
the last block in the test heap (`HasRoomExactly`, `RestoredExactly`,
`LastBlockGrowsExactly`). Two consequences of the conditions that fail are shown on
runs that the code makes, from an empty table through the first creation of a
thread: in `BlockInsideBlock` the main thread is given a block inside another that
it holds, and in `FreeReleasesNothing` its free of a block that it holds releases
nothing.

## Model

| member | source | states |
|---|---|---|
| ChunkListLemmas.AllocEffect | umalloc.c:122-211 | on a well-shaped region an allocation keeps tiling and shape; null comes back exactly when no free chunk fits, and then nothing changes; otherwise the lowest chunk that fits is used, the new block is at least as long as asked for, and the live blocks are the old ones and it |
| ChunkListLemmas.FreeEffect | umalloc.c:526-605 | a free keeps tiling and shape; it releases exactly when the pointer starts a live block; just that block stops being live; any other pointer changes nothing |
| ChunkListLemmas.FreeAnswers | umalloc.c:526-580 | how a free ends, by the cause: out of range, on no payload start, on the start of a free chunk, or on that of a live one, which is released |
| ChunkListLemmas.SecondFreeIsSeenExactly | umalloc.c:541-605 | a second free of the same pointer is reported as one exactly when the chunk before was not free; otherwise the header has been merged away and the pointer starts nothing |
| ChunkListLemmas.RunKeepsShape | umalloc.c:86-255 | every malloc/free sequence keeps the chunks tiling the region, none empty, no two free neighbours |
| ChunkListLemmas.LiveDisjoint | umalloc.c:132-189 | live payloads lie inside the region, overlap no header and not each other |
| ChunkListLemmas.MallocThenFree | umalloc.c:576-605 | freeing what malloc has just returned restores the chunk list |
| ChunkListLemmas.FreeAllInAnyOrder | umalloc.c:541-605 | once every live block has been freed, in whatever order and with whatever stray pointers in between, one free chunk of N-6 bytes is left |
| ChunkListLemmas.UsageIsFreeBytesPlusSlack | umalloc.c:157-170 | over any run the usage account, unbounded, exceeds the free bytes by its initial excess plus the slack of the unsplit allocations, so the excess never shrinks |
| ChunkListLemmas.StoredUsageIsTruncated | umalloc.h:43 | the `short` in the page header is the truncation of that account, after any run |
| ChunkListLemmas.UsageTestIsSoundExactly | umalloc.c:828 | whatever a page holds and whatever its usage field says, the usage test admits every request that the page can serve exactly when the field is at least the largest free chunk, or nothing is free |
| ChunkListLemmas.UsageTestOverRuns | umalloc.c:828 | on any run from a fresh region the test is sound as long as the account has not passed 32767; from there to 2^16 only while nothing is free |
| ChunkListLemmas.UsageDrifts | umalloc.c:170 | a run that takes the account past 32767: rounds of malloc(4084) and free leave the page as it was and add 6 each, and from round 4780 on the stored field is negative |
| HeaderBytes.WalksConcat | umalloc.c:66-76 | walking the headers of one list after another is walking the two, from where the first ends |
| HeaderBytes.WalksAt | umalloc.c:66-76 | in bytes that encode a chunk list, every header sits at its chunk's offset and its `prev` is the predecessor's size |
| HeaderBytes.FieldsFitExactly | umalloc.h:48-52 | every well-shaped tiling of a region of p pages fits the 16-bit header fields exactly when p is at most 8 |
| HeaderBytes.RegionServesItsRequest | umalloc.c:1370-1378 | the page count computed for a request makes a region that holds it, at its first byte, and is not too large by a page; a thread stack fills its two pages |
| RegionBytes.SplitEncodes | umalloc.c:137-150 | the byte writes of a split turn the encoding of a chunk list into that of the list with the chunk split, and touch only that chunk and the next `prev` |
| RegionBytes.MergeEncodes | umalloc.c:312-323 | the byte writes of a coalesce turn the encoding into that of the merged list, and touch only the two chunks and the next `prev` |
| RegionBytes.ReplaceKeepsPayloads | umalloc.c:132-189 | bytes of live blocks outside the rewritten chunks stay |
| Region.Region.constructor | umalloc.c:276-283 | a region set up over arbitrary memory has one header, its size field the length less 6 truncated to 16 bits, and the usage field likewise in a `short`; up to 8 pages that is one free chunk, its usage all but the header |
| Region.Region.Initialize | umalloc.c:276-283 | clears the first page only, and writes one header for the whole region, whose size field is truncated to 16 bits; up to 8 pages the bytes encode one free chunk |
| Region.Region.FindFit | umalloc.c:122-194 | the walk over the headers stops at the first free chunk that is large enough, or at the end when there is none |
| RegionCode.AllocBytesIs | umalloc.c:86-255 | on bytes that encode a chunk list, what the code writes encodes the list after first fit, and its address and charge are those of first fit; no byte changes when it returns null |
| RegionCode.ReleaseBytesIs | umalloc.c:526-605 | likewise for a free: the bytes encode the list after the release, with its credit; no byte changes when nothing is released |
| Region.Region.FindFreeChunk | umalloc.c:86-255 | on bytes, does to the chunk list what first fit does, returns its address, charges the usage field in 16 bits, and changes no byte of a live block; none at all when it returns null |
| Region.Region.Coalesce | umalloc.c:289-333 | merges exactly when both neighbours exist and are free, crediting one header |
| Region.Region.FindHeader | umalloc.c:541-554 | the walk finds the header before the pointer exactly when the pointer is a payload start |
| Region.Region.Free | umalloc.c:526-605 | on bytes: the four outcomes; the chunk list as after a release; the freed payload all zero; no byte of another live block changed; no byte at all unless something was released |
| PageTableLemmas.SwapKeeps | umalloc.c:1865-1971 | swapping into a touched slot keeps the table well formed, every thread's every page (bytes, usage, span), every thread's page count and the number of free slots, and puts the page where it was asked for |
| PageTableLemmas.SwapMoves | umalloc.c:1865-1971 | a swap moves at most two pages: the one asked for and the one it displaces |
| PageTableLemmas.SwapClearsSource | umalloc.c:1928-1967 | the slot the page comes from is free afterwards with a zero header but for its location, and every slot other than the target and the first free one keeps its header |
| PageTableLemmas.RelocateKeeps | umalloc.c:1951-1967 | moving one page to an empty slot inside or right after the touched prefix keeps all of that |
| PageTableLemmas.RangeIsTouched | umalloc.c:1672 | every slot of a thread's address range has held a page |
| PageTableLemmas.LockingKeeps | umalloc.c:2335-2376 | protection is no part of any thread's memory |
| PageTableLemmas.UnlockOpens | umalloc.c:2017-2041 | unlocking opens every slot, and changes no header and no page |
| PageTableLemmas.SwapOpens | umalloc.c:1865-1867 | a swap leaves every slot open |
| FlatMemory.SliceIsFlatMemory | umalloc.c:1643-1705 | in a time slice, for every sequence of accesses to the thread's own pages: none fails, every read returns what was last written to its address, no other thread's memory changes, the thread's memory is the flat memory with the writes done, and the slice's start condition holds again |
| FlatMemory.StepIsFlat | umalloc.c:1643-1705 | the same for one access |
| FlatMemory.InPlaceExactly | umalloc.c:1643-1705 | with the others' slots protected, every single write in the thread's range acts as on a flat memory exactly when every page of the thread in its range lies where it is addressed |
| FlatMemory.ReachStep | umalloc.c:1643-1705 | an access that faults, or finds its own page in the slot, reads or writes that byte of that page and changes nothing else in anyone's memory |
| FlatMemory.FaultServes | umalloc.c:1664-1687 | a fault in the thread's range is served: the page asked for is in the slot that was addressed, open, and nobody's memory has changed |
| FlatMemory.LockKeepsSlice | umalloc.c:2335-2376 | protecting all but the thread's slots, with its in-range pages in place, starts a slice |
| FlatMemory.StrayAccessStaysHome | umalloc.c:1676-1697 | an access outside the thread's range never changes another thread's memory, and ends the process exactly when it is outside the range and does not hit a page of the thread |
| OpenSlots.FaultsExactly | umalloc.c:2335-2376 | with the protection of a time slice, an access goes through the handler exactly when it is to a page slot that the thread does not own; the reserved, the scheduler's and the shared slots are open to everyone |
| OpenSlots.OpenStep | umalloc.c:2017-2041 | with nothing protected, an access by anyone reads or writes the byte that is there, whosever it is, and moves no page |
| OpenSlots.NobodyFaultsAfterLoad | umalloc.c:2086-2149 | after either load, no sequence of accesses by anyone to the array faults: headers and protection stay as they are |
| OpenSlots.OpenActsFlatExactly | umalloc.c:2017-2041 | with nothing protected, every single write in the thread's range acts as on a flat memory exactly when every page of the thread is in its own slot |
| OpenSlots.FreeLeavesOpen | umalloc.c:444-643 | a free leaves nothing protected |
| OpenSlots.AfterFreeExactly | umalloc.c:444-643 | so after a free every single write of the thread acts as on a flat memory exactly when, before it, none of its pages lay before its own slot |
| OpenSlots.RequestProtects | umalloc.c:1473-1494 | a thread's request leaves the others' slots protected exactly when the search has found a page; at the limit of pages it leaves nothing protected, and neither does a request of the library |
| Loader.LoadPlacesExactly | umalloc.c:2086-2149 | loading leaves page k in slot 6+k-1 for every k in 1..n exactly when no page of the thread within its range lies before its own slot |
| Loader.LoadPutsPagesInPlace | umalloc.c:2086-2149 | in that case loading also changes nobody's memory and readies the thread for a slice |
| Loader.LoadsOpen | umalloc.c:2086-2090 | after either load no slot is protected |
| Loader.ScanKeepsMemory | umalloc.c:2086-2149 | from any table with a free slot, loading ends and changes nobody's memory |
| Loader.CrossedPagesStay | umalloc.c:2138-2143 | the smallest case in which it does not: two pages in each other's slots stay there |
| TableRuns.FreeReleasesNothing | umalloc.c:444-480 | such tables do arise: after the first creation of a thread from an empty table, six steps of the main thread alone leave a block that it holds on a page which the load does not put into its slot, and its free of that block releases nothing |
| Loader.StackScanKeepsMemory | umalloc.c:2380-2431 | loading a thread's stack pages ends and changes nobody's memory |
| StackLoads.LoadStackIs | umalloc.c:2380-2431 | without its scan: the thread's first three pages are moved into their slots one after the other, up to the first that is there already, or missing |
| StackLoads.MovesPlace | umalloc.c:2398-2424 | the pages moved, and the one at which the moving stops, are in their slots afterwards |
| StackLoads.FirstPageIsPlaced | umalloc.c:2380-2431 | the first page of the stack always is; if it was before, no page has moved |
| PageAlloc.FindFreePageEffect | umalloc.c:809-1015 | the search keeps the table well formed and every page there was; new pages take the next numbers, the index left is the first of them, and the first page is a fresh region |
| PageAlloc.FoundExactly | umalloc.c:809-1015 | how the search ends, by its cause: with the first page in slot order whose usage field admits the request, if there is one; else with null exactly at 2035 pages, or for want of slots for several; with an eviction for want of a slot for one; and else with a region from the lowest free slot on |
| PageAlloc.SearchOpens | umalloc.c:809-812 | whatever it finds, no slot is protected afterwards |
| PageAlloc.IndexIsPageNumberExactly | umalloc.c:816-842 | for a page that is used again the index left is the page's number, for every page, exactly when the thread's pages lie in slot order |
| PageAlloc.AddressReachesItsPage | umalloc.c:229-234 | the address built for byte o of a region, dereferenced in the thread's slice, reaches byte o%4096 of the thread's page index+o/4096, wherever that page sits |
| PageAlloc.FreshExtendsTiling | umalloc.c:939-1008 | the regions given to a thread tile its pages 1..n |
| PageAlloc.LiveRangesDisjoint | umalloc.c:229-234 | live address ranges of blocks in different regions of a thread are disjoint |
| PageAlloc.InitialPageEncodes | umalloc.c:276-283 | for regions of 1 to 8 pages: the bytes of the first page as initialised, with anything in the pages after it, encode one free chunk of the region's length less 6 |
| PageAlloc.SharedRegionEncodes | umalloc.c:1022-1126 | the last four slots, as set up, encode one free chunk of 16378 bytes, and the usage field says so |
| PageAlloc.SharedHeaders | umalloc.c:1022-1126 | the last four slots belong to id -5, whose page 1 a search finds in the first; only that one admits any request |
| PageRuns.RunKeepsTable | umalloc.c:809-1015 | over every run of page searches, loads, faults and protections, while a slot stays free: pages numbered 1..n without duplicates, touched slots a prefix with `loc` the index, no page lost or changed |
| PageRuns.SharedKeeps | umalloc.c:1022-1126 | setting up the shared region keeps the table well formed and every thread's memory |
| Paging.ScanByLocation | umalloc.c:1711-1731 | the scan by location always stops at the slot that the location is the index of |
| Paging.SwapIsCopies | umalloc.c:1865-1971 | the copies and the one cleared header of the code add up to the two moves of the page table |
| Paging.Paging.constructor | umalloc.c:651-681 | the table as set up is well formed, has a free slot, and nobody owns a page |
| Paging.Paging.FindFreePageUsingMetaData | umalloc.c:1803-1821 | finds the lowest free slot, if there is one |
| Paging.Paging.FindPageGivenPageNum | umalloc.c:1711-1731 | the lowest header that names the location |
| Paging.Paging.FindPageForThreadGivenPageNum | umalloc.c:1738-1756 | the lowest page slot with that page of the thread, if there is one |
| Paging.Paging.FindMetaDataGivenPageNum | umalloc.c:1773-1789 | the lowest slot of all, the fixed ones too, with that page of the thread, if there is one |
| Paging.Paging.UnlockMemoryPages | umalloc.c:2017-2046 | opens every slot, changes nothing else |
| Paging.Paging.LockAllButThread | umalloc.c:2335-2376 | protects exactly the page slots that the thread does not own |
| Paging.Paging.SwapPages | umalloc.c:1865-1971 | computes the swap of the page table in the filled, empty and already-in-place cases, keeping it well formed with a free slot |
| Paging.Paging.PageFaultHandler | umalloc.c:1643-1705 | computes the fault of the model; the process exits exactly when the address is out of the array or the thread has no such page |
| Paging.Paging.Access | umalloc.c:1643-1705 | an access to memory under protection is the step of the model |
| Paging.Paging.LoadLibraryPages | umalloc.c:2086-2149 | the loop with its restarting index ends, computes the scan, opens every slot, and changes nobody's memory |
| Paging.Paging.LoadThreadStack | umalloc.c:2380-2431 | likewise |
| Paging.Paging.FindNumberOfFreePages | umalloc.c:774-794 | says yes exactly when so many slots are free |
| Paging.Paging.FindFreePage | umalloc.c:809-1015 | the search, the claims and the index as specified |
| Paging.Paging.ClaimPages | umalloc.c:933-1010 | a region of several pages takes the lowest free slots in order |
| Paging.Paging.MakeShallocPages | umalloc.c:1022-1126 | the last four slots become the shared region; that it is one free chunk of 16378 bytes is `PageAlloc.SharedRegionEncodes` |
| TableHeap.MallocIs | umalloc.c:1473-1494 | a small request on the page table, in terms of the heap that the table holds for the thread, larger regions included: with a new page always, and with a page that is used again, if it is a one-page region and its rank is its number, it is the request served from that page of the heap, with the same answer; without either nothing changes |
| TableHeap.AddressNamesBlockExactly | umalloc.c:229-234 | a served request that uses no page of a larger region again carves its chunk in one page of the thread, which it names; the address returned names that chunk exactly when the page is new, or its position among the thread's pages in slot order is its number |
| TableHeap.CarveAnywhere | umalloc.c:86-255 | whatever the index: the chunk is carved in the one-page region found, and the page with the index as its number, of whatever region, is charged and addressed |
| TableHeap.SearchAgrees | umalloc.c:816-842 | while the thread's pages lie in slot order, a page is used again exactly when one of them admits the request; it is the first such, and the index left is its number |
| TableHeap.MallocRefines | umalloc.c:1473-1494 | while they do, a request that uses no page of a larger region again is the heap's malloc with the same answer, except that it goes to the swap file where the heap has no room, and a page used again leaves them in order |
| TableHeap.MallocKeepsOrder | umalloc.c:861-916 | such a request of a thread whose pages are all in their slots leaves its pages in slot order, a new page behind the others |
| TableHeap.NullExactly | umalloc.c:1473-1482 | a one-page request ends with null exactly when the first page in slot order that admits it has no chunk for it, or none admits it and the thread is at its limit of 2035 pages; it goes to the swap file exactly when none admits it, the thread is below its limit and no slot is free |
| TableHeap.FreeIs | umalloc.c:444-605 | a free of a pointer into a one-page region of the thread is the heap's release when the load has put that page into its slot, and changes nothing in the heap when it has not |
| TableHeap.AccessKeeps | umalloc.c:1643-1705 | a read, or a write within the payloads or to a larger region, that reaches the page addressed leaves the thread's heap as it is |
| TableHeapRuns.RunOwnsDisjointBlocks | umalloc.c:1473-1494 | over every run of requests of threads and of the library, of one page or several, and of frees, accesses, loads and dispatches, in which each page of thread t that is used again has its rank as its number, each page that t frees on is in its slot after the load, and t writes only to blocks it holds and to larger regions: what t holds is exactly what is live in its one-page regions, and any two blocks it holds are disjoint |
| TableHeapRuns.OtherStep | umalloc.c:809-1015 | whatever another thread does, with whatever index, thread t's heap stays as it is but for the room left |
| TableRuns.FirstCreateRun | mypthread.c:145-352 | the requests, loads and the dispatch of the first creation of a thread, from an empty table, can be made as steps of such a run, and after them the library, the new thread and the main thread have exactly these pages in these slots, each of the two threads with a filled stack of two pages |
| TableRuns.BlockInsideBlock | umalloc.c:816-842 | the condition is needed: three requests of the main thread after that, a write to its own block and one request more, and it is given a block of 70 bytes inside the block of 4085 bytes that it holds |
| LargeRegions.LargeIs | umalloc.c:86-255 | a request of several pages that gets new ones, which come to lie together: the thread's heap has that region more, and every page it had is as it was; up to 8 pages, the block is at the start of the region and the charge is that of first fit |
| LargeRegions.SpanScanKeeps | umalloc.c:2158-2224 | bringing the pages of a region together changes nobody's memory, from any table with a free slot |
| LargeRegions.SetPagesKeeps | umalloc.c:132-189 | carving across pages that lie together changes no header, no other page and no other thread's memory |
| LargeRegions.StackIsRepresented | mypthread.c:171 | while a slot stays free, a thread's request for its stack gets two new pages, which always come to lie together, one behind the other; the block is at their start, and neither page admits any request |
| LargeRegions.OtherLarge | umalloc.c:86-255 | another thread's request of several pages leaves a thread's pages as they are |
| ThreadHeap.MallocEffect | umalloc.c:86-255 | on the heap by page number, a request served from any page: null makes nothing live; otherwise the new block is at least as long as asked for, was not live, and is all that has become live |
| ThreadHeap.ReleaseEffect | umalloc.c:526-605 | on the heap by page number, a free of a pointer into the thread's pages ends just the block that starts there |
| ThreadHeap.LiveBlocksDisjoint | umalloc.c:229-234 | live blocks on whatever pages of the heap are disjoint with a header between them |
| ThreadHeap.RefusedThoughServable | umalloc.c:828 | a request that is refused although another page of the thread has a chunk for it |
| ThreadHeap.FragmentedArises | umalloc.c:828 | that heap is what five requests and two frees make of an empty one |
| Dispatch.InsertAt | mypthread.c:1708-1736 | where a node goes: never before the head of a non-empty queue; behind nodes no larger, the head excepted; before nodes no smaller |
| Dispatch.RotateKeepsOrder | mypthread.c:1623-1627 | a rotation keeps the order invariant and permutes the queue |
| Dispatch.RotateKeepsVerdicts | mypthread.c:1525-1650 | a rotation changes nobody's chance to run |
| Dispatch.RotateLowersPotential | mypthread.c:1708-1736 | every rotation of another head lowers a thread's potential: its position plus, for every other thread, how many raises it needs to get behind |
| Dispatch.LoopEndsExactly | mypthread.c:1514-1654 | the dispatch loop ends exactly when some queued thread is runnable, and then within that thread's potential |
| ThreadRuns.RunsKeepOrder | mypthread.c:1432-1670 | over all runs: quanta of queued threads are at least 500, the queue after its head is nondecreasing in quantum, no thread is queued twice, the ids handed out are 2..lastId |
| ThreadRuns.CreateKeeps | mypthread.c:209-319 | a new thread goes in second place and the order invariant stays |
| ThreadRuns.ExitKeeps | mypthread.c:542 | an exit takes the head off and the order invariant stays |
| ThreadRuns.DecideKeeps | mypthread.c:1432-1670 | a scheduling decision permutes the queue and the order invariant stays |
| ThreadRuns.DecideLowersPotential | mypthread.c:1432-1670 | a decision makes a runnable thread the head or lowers its potential |
| ThreadRuns.RunnableThreadIsDispatched | mypthread.c:1432-1670 | with no creates and exits, a thread in the tail that stays runnable runs within as many decisions as its potential at the start |
| Quanta.ResumeRaises | mypthread.c:1525-1643 | the thread that the loop lets run is raised by 100, unless it waits for no other thread and owns the mutex that it names |
| Quanta.DecideRaises | mypthread.c:1466-1656 | a decision with two or more queued threads rotates the queue until the head can run, at least once; each thread's quantum grows by 100 for every rotation that turns it, and the picked thread's by 100 more, unless it owns the mutex that it names |
| Quanta.LoneRaises | mypthread.c:1442-1452 | a thread that is alone is raised by 100 and runs, and nothing else changes |
| Quanta.DecideSum | mypthread.c:1432-1670 | so over a decision the sum of the queued threads' quanta grows by 100 for each rotation and for the pick, unless it owns its mutex |
| Quanta.RunsCountQuanta | mypthread.c:1432-1670 | over all runs, a thread's quantum is 500 and 100 for every time that it was turned or picked |
| Mutexes.TakeoversUnreachable | mypthread.c:1581-1595 | under the mutex invariant the take-over branch of the loop is never entered, the placeholder is never searched, and a clear flag means no owner |
| Mutexes.OldestWaiterIsRunnable | mypthread.c:1597-1617 | no lost wake-up: the oldest waiter of a mutex without an owner is runnable |
| Mutexes.OtherWaitersAreBlocked | mypthread.c:1597-1628 | a waiter that is not the oldest, or whose mutex is owned, is not |
| Mutexes.ResumeKeepsMutexInv | mypthread.c:1525-1617 | what the loop does at the thread it picks keeps the mutex invariant; an owner changes there only from none to that thread, by a grant |
| Mutexes.DecideKeepsMutexInv | mypthread.c:1432-1670 | a decision with two queued threads keeps the mutex invariant |
| MutexRuns.OwnersChangeOnlyByLockAndUnlock | mypthread.c:754-967 | an owner changes only from none to the thread that runs next, by its lock or the decision, or from the running thread to none by its own unlock |
| MutexRuns.RunsKeepMutexInv | mypthread.c:754-914 | over all runs with two queued threads at each decision: owned mutexes have their flag set, each blocked waiter has exactly one entry, and neither take-over branch is reachable |
| MutexRuns.StepIsFirstComeFirstServed | mypthread.c:837-888 | one step: those waiting for a mutex and the one that starts to wait are, in order, the one served and those waiting afterwards |
| MutexRuns.WaitersAreServedInOrder | mypthread.c:1597-1617 | over all such runs from the start, and for every mutex: served in the order in which they started to wait, the rest still waiting in that order |
| MutexRuns.HandedOverOwns | mypthread.c:1597-1617 | whoever is served runs next and owns the mutex, which had no owner |
| MutexRuns.LoneThreadExactly | mypthread.c:1442-1452 | a decision with one queued thread keeps the invariant exactly when that thread waits for nothing |
| MutexRuns.LoneThreadRun | mypthread.c:1442-1452 | a run in which a waiter is resumed alone without being given the mutex |
| MutexSteps.OwnerAfter | mypthread.c:754-967 | who owns a mutex after any step: the locker of a clear flag; nobody, after the owner's unlock; the thread picked, if it is the oldest waiter of an ownerless mutex; and otherwise whoever did |
| MutexSteps.UnlockFreesExactly | mypthread.c:929-967 | after an unlock the mutex is free with a clear flag exactly when the running thread owned it or it was so already; the owner then names no mutex, and the oldest waiter is runnable; nobody else's unlock changes anything |
| MutexSteps.LockGivesExactly | mypthread.c:776-900 | a lock gives the mutex exactly when the flag is clear; an owner's second lock changes nothing; any other caller, also of a free mutex whose flag printing has set, is put behind the waiters and gives up the processor |
| MutexSteps.ClearFlagIsTaken | mypthread.c:776-796 | whatever the state, a clear flag is set and its mutex taken, from an owner too; only a thread that finds no owner names the mutex |
| MutexSteps.InitThenLock | mypthread.c:675-745 | a mutex that is set up is free, the next lock has it, and the mutexes there were are as they were |
| MutexSteps.PrintFlags | mypthread.c:1820-1857 | printing sets the first mutex's flag exactly when some queued thread names a mutex, whichever, and changes nothing else |
| MutexSteps.FlagAfter | mypthread.c:754-967 | whose flag is set after any step |
| MutexSteps.NamedAfter | mypthread.c:754-967 | which mutex a thread names after any step: only its own lock sets it, only its own unlock clears it |
| MutexSteps.GivesUpExactly | mypthread.c:898 | the calls after which the scheduler runs: a lock that has to wait, a join that does, an exit, a preemption |
| MutexSteps.VerdictByCause | mypthread.c:1525-1643 | what the dispatch loop makes of a thread, by the cause, in whatever state |
| MutexSteps.TakeOverGives | mypthread.c:1581-1595 | a thread that contends for a mutex while nobody has an entry is given it, in whatever state, from an owner too |
| MutexSteps.ResumeDropsEntry | mypthread.c:1566-1610 | in whatever state: a thread resumed as owner, or given its mutex, has its entry taken out of the mutex queue, and the others keep their order |
| Joins.RunsKeepJoins | mypthread.c:563-662 | over all runs: at most one thread waits for any other, never for itself, a thread that is waited for is queued, and a thread that is gone has left its exit value |
| Joins.JoinerWaitsOrReceives | mypthread.c:518-542 | in every step a joiner either goes on waiting for the same thread and location, or that thread exits, stores its value through that location, and the joiner waits no more |
| Joins.JoinersAreServed | mypthread.c:518-542 | the same over all runs |
| Joins.JoinKeepsJoins | mypthread.c:563-662 | a join keeps the invariant, and its caller waits exactly in the case in which it blocks |
| Joins.ExitKeepsJoins | mypthread.c:448-545 | an exit keeps the invariant, releases exactly the threads that wait for the exiting one, and stores the value through their location; outside the page slots it is then there |
| Joins.DeadlockIsNeverReported | mypthread.c:653-657 | the EDEADLK answer is unreachable in every state |
| Joins.MutualJoinBlocksBoth | mypthread.c:634-652 | two threads that join each other are both left waiting, and no decision can pick either |
| Joins.LateJoinExactly | mypthread.c:586-615 | a join of a terminated thread stores the exit value through the location it is given exactly when the previous join gave the same; a location outside the page slots has the value exactly then, or when it had it already |
| ExitRuns.JoinAnswers | mypthread.c:553-671 | each answer of a join by its cause: 3 for an id never handed out, 22 for a thread that is waited for already, 0 for the caller itself and for a terminated thread, and waiting otherwise |
| ExitRuns.RunsRecordExits | mypthread.c:484-514 | over all runs, what the exit records hold for a thread is the value of the step with which it exited, and every thread that is gone has one |
| ExitRuns.LateJoinDelivers | mypthread.c:586-615 | after every run, the join of a terminated thread delivers the value that this thread exited with, to the location that the caller gave in its last join that waited, if there was one |
| ExitRuns.MemoryAfter | mypthread.c:518-531 | outside the page slots a step changes the cell that it delivers to, and no other |
| ExitRuns.ExitDeliversExactly | mypthread.c:518-531 | an exit delivers its value exactly to a thread that waits for it and has given a location |
| ExitRuns.TargetsAreNeverGone | mypthread.c:1636-1643 | a waiting thread's target is queued, so the branch of the loop for a target that is gone is not entered |
| ExitRuns.WaiterIsPassedOverExactly | mypthread.c:1636-1650 | a thread that waits for another is passed over exactly while that one is queued |
| JoinWrites.StoreArrivesExactly | mypthread.c:530 | bytes stored at a thread's address, to the slots as they are, reach the thread's memory exactly when, for each of them, its page is in the slot or it had the byte already |
| OpenSlots.StoreIsWrites | mypthread.c:526-530 | with nothing protected, as a load leaves it, that store is what the writes of any thread do, one after the other |
| JoinWrites.PartArrivesExactly | mypthread.c:530 | for bytes within one page: exactly when that page is in the slot, or the bytes were there |
| JoinWrites.ExitArrivesExactly | mypthread.c:518-530 | when the thread that a joiner waits for exits, the joiner has the value at its location exactly when the location is outside the page slots, or the value's bytes reach the joiner's page as above |
| JoinWrites.LostToLibrary | mypthread.c:490-530 | a location on a page whose number the library has too is such a case: after the library's pages are loaded, the value goes into the library's page and the joiner's memory is as it was |
| JoinWrites.JoinerReceivesExactly | mypthread.c:518-530 | over every run in which the thread waited for comes to exit, and whatever the page table is at each step: at that exit the joiner receives the value exactly in these cases |
| LateJoins.LateValueArrives | mypthread.c:600-609 | the late join, which loads the joiner's stack and protects the other slots before it stores, delivers to any location in the joiner's pages, provided they are in place |
| LateJoins.LateValueArrivesExactly | mypthread.c:600-609 | it delivers exactly when the write to the first page faults, or finds the joiner's page in the slot, or the bytes were there; and, if the value goes on to a second page, likewise for that one, or the fault for the first has taken its page out of the second's slot |
| Scheduler.Scheduler.InsertSortedByQuantum | mypthread.c:1708-1736 | the insertion of the state machine |
| Scheduler.Scheduler.PrintThreads | mypthread.c:1820-1857 | sets the first mutex's flag exactly when a queued thread has a mutex |
| Scheduler.Scheduler.FindNextWaiter | mypthread.c:2124-2152 | the oldest entry for the mutex, an empty queue and a queue without such an entry told apart |
| Scheduler.Scheduler.DeleteEntryOf | mypthread.c:2154-2186 | deletes the thread's first entry and nothing else |
| Scheduler.Scheduler.MutexInit | mypthread.c:675-745 | a mutex without owner and flag; the first one also leaves the placeholder in the mutex queue |
| Scheduler.Scheduler.MutexLock | mypthread.c:754-914 | gives, takes over, refuses or enqueues as the flag and the owner say, with the code returned |
| Scheduler.Scheduler.MutexUnlock | mypthread.c:917-967 | exactly the owner's unlock frees the mutex, clears its flag and the thread's mutex, with the code returned |
| Scheduler.Scheduler.CreateThread | mypthread.c:117-319 | the new id is unused, the thread is queued, the invariant of runs stays |
| Scheduler.Scheduler.FindWaitingForJoin | mypthread.c:1913-1930 | the first queued thread that waits for the given one |
| Scheduler.Scheduler.JoinThread | mypthread.c:553-671 | the state, the code and the store of every case of a join |
| Scheduler.Scheduler.ExitThread | mypthread.c:444-550 | the exit record with the value, the store through the joiner's location and the removal of the head |
| Scheduler.Scheduler.TryHead | mypthread.c:1525-1643 | lets the head run exactly when it is runnable, with the effect of the branch taken, else changes nothing; what the branches add to the quantum is `Quanta.ResumeRaises` |
| Scheduler.Scheduler.Dispatch | mypthread.c:1514-1654 | the loop ends and leaves the outcome of the state machine |
| Scheduler.Scheduler.SchedPSJF | mypthread.c:1432-1670 | one scheduling decision of the state machine: a permutation of the queue, with 100 more for every rotation and for the pick, unless it owns its mutex |
| Scheduler.PrintAgain | mypthread.c:1466-1490 | the second printing in a decision changes nothing that the first has not |
| Scheduler.ApplyKeepsMutexesKnown | mypthread.c:675-745 | what the methods demand of mutexes holds at the start and after every step |
| LinkedQueue.Queue.InsertSortedByQuantum | mypthread.c:1708-1736 | on linked nodes: the chain afterwards is the old one with the node put where the state machine puts the thread |
| LinkedQueue.Queue.Walk | mypthread.c:1728-1735 | the walk passes every node that is no larger and stops at the first that is |
| LinkedQueue.Queue.PopHead | mypthread.c:1803-1814 | takes the first node off; null for the empty list |
| LinkedQueue.Queue.Append | mypthread.c:1689-1704 | puts a node last |
| LinkedQueue.Queue.Delete | mypthread.c:1933-1965 | takes one node out, wherever it is, and keeps the order of the others |
| LinkedQueue.Queue.RotateHead | mypthread.c:1623-1627 | pop, raise and insert on linked nodes are a rotation of the state machine |
| LinkedQueue.Queue.DeleteEntryOf | mypthread.c:2154-2186 | find on id and delete on linked nodes remove the entry that the state machine removes |
| LinkedQueue.InsertIs | mypthread.c:1708-1736 | the node's place in the chain is the thread's place in the run queue, and nothing is lost or duplicated |
| BumpHeap.BlocksDisjoint | unit_tests/Unity/extras/memory/src/unity_memory.c:84-102 | blocks, with headers and markers, are disjoint and lie below `heap_index` |
| BumpHeap.Aligned | unit_tests/Unity/extras/memory/src/unity_memory.c:58-65 | every block starts at a multiple of the alignment |
| BumpHeap.HasRoomExactly | unit_tests/Unity/extras/memory/src/unity_memory.c:73-84 | the comparison in 64-bit words tells whether a block fits exactly when the sum does not wrap to a small one |
| BumpHeap.RunKeeps | unit_tests/Unity/extras/memory/src/unity_memory.c:67-202 | over all malloc/free/realloc runs the blocks stay in the array and the leak counter counts the live ones |
| BumpHeap.LeakReportedExactly | unit_tests/Unity/extras/memory/src/unity_memory.c:21-28 | a test's leak is reported exactly when a block is still live |
| BumpHeap.MallocThenFree | unit_tests/Unity/extras/memory/src/unity_memory.c:116-136 | giving back the block just handed out restores the heap |
| BumpHeap.RestoredExactly | unit_tests/Unity/extras/memory/src/unity_memory.c:128-131 | giving back the latest blocks restores `heap_index` exactly when it is done in the reverse order |
| BumpHeap.LastBlockGrowsExactly | unit_tests/Unity/extras/memory/src/unity_memory.c:185-195 | growing the last block in place keeps its address and cannot fail, unless failures are injected, and then the block is gone |
| BumpHeap.FailedReallocKeepsBlock | unit_tests/Unity/extras/memory/src/unity_memory.c:197-198 | a realloc that finds no room elsewhere leaves the block |
| BumpHeap.MovedBlockStrands | unit_tests/Unity/extras/memory/src/unity_memory.c:197-201 | a realloc that moves a block leaves the old one stranded and the count as it was |
| BumpHeap.GrowthTestIs | unit_tests/Unity/extras/memory/src/unity_memory.c:189-190 | realloc's own comparison agrees with the one malloc makes after the release |
| BumpHeap.MallocNullExactly | unit_tests/Unity/extras/memory/src/unity_memory.c:67-105 | a malloc is refused exactly when failures are injected, nothing is asked for, or the block with header and marker does not fit behind the others; otherwise it is the new last block |
| BumpHeap.ReallocNullExactly | unit_tests/Unity/extras/memory/src/unity_memory.c:163-202 | a realloc is refused exactly for size 0, or for more than the block has when failures are injected or there is room neither in place nor behind the others; for no more than the block has, nothing happens |
| BumpHeap.FailsAfterCountdown | unit_tests/Unity/extras/memory/src/unity_memory.c:69-77 | over any run, a countdown of n lets n attempts through; every later one is refused and changes nothing; without one, attempts fail for want of room only |
| StaticHeap.StaticHeap.Malloc | unit_tests/Unity/extras/memory/src/unity_memory.c:67-105 | on bytes: the block list and the address as specified, its header and marker intact, every other payload unchanged |
| StaticHeap.StaticHeap.IsOverrun | unit_tests/Unity/extras/memory/src/unity_memory.c:107-114 | true exactly when the guard space or the end marker is not as malloc left it |
| StaticHeap.StaticHeap.Release | unit_tests/Unity/extras/memory/src/unity_memory.c:116-136 | moves `heap_index` back exactly for the last block |
| StaticHeap.StaticHeap.Free | unit_tests/Unity/extras/memory/src/unity_memory.c:138-153 | releases, and reports an overrun exactly when there was one; null does nothing |
| StaticHeap.StaticHeap.Realloc | unit_tests/Unity/extras/memory/src/unity_memory.c:163-202 | all cases; for no more than the block has, the same address and nothing changed; the old bytes are at the address returned, every other payload is unchanged, and intact blocks stay intact |
| StaticHeap.WritesInBlock | unit_tests/Unity/extras/memory/src/unity_memory.c:107-114 | writes inside a block trip no check and change no header, marker or other payload |
| StaticHeap.StrayByteSeenExactly | unit_tests/Unity/extras/memory/src/unity_memory.c:107-114 | one byte written to an intact block is noticed exactly when it changes the guard space or the marker |

## Left out

- Region.Region.FindFreeChunk: the bound of a region is its own length; when a multi-page region is used again for a smaller request the code bounds the walk by the request's page count (umalloc.c:114), and the heap invariant is not claimed then.
- Region.Region.constructor: that a region encodes one free chunk is claimed up to 8 pages, because header fields are truncated from 9 pages on (`FieldsFitExactly`).
- RegionCode.AllocBytesIs: regions of up to 8 pages, for the same reason; so is RegionCode.ReleaseBytesIs.
- Paging.Paging.SwapPages: needs a free slot; without one the page displaced would go to the swap file.
- Paging.Paging.PageFaultHandler: needs a free slot, as the swap does.
- Paging.Paging.Access: needs a free slot, as the swap does.
- Paging.Paging.LoadLibraryPages: needs a free slot, as the swap does.
- Paging.Paging.LoadThreadStack: needs a free slot, as the swap does.
- Paging.Paging.FindFreePageUsingMetaData: the eviction that follows a scan without result (umalloc.c:1825).
- Paging.Paging.FindPageForThreadGivenPageNum: the search of the swap file that follows a scan without result (umalloc.c:1764).
- Paging.Paging.FindMetaDataGivenPageNum: the search of the swap file that follows a scan without result (umalloc.c:1796).
- Loader.StackScanKeepsMemory: placement is claimed for the pages up to the one at which the load stops (`StackLoads.MovesPlace`), because the scan does not advance past a page that is already in its slot (umalloc.c:2398).
- FlatMemory.InPlaceExactly: pages that the thread owns outside its range may lie anywhere.
- TableHeap.MallocIs: what a small request does when it uses a page of a larger region again; the code then walks that region with the bound of one page (umalloc.c:114). Larger regions are pages with a usage field here; their chunks are treated one region at a time in `Region` and `RegionCode`.
- TableHeap.AddressNamesBlockExactly: leaves out the requests that use a page of a larger region again (`UsesOnePage`). A filled stack admits no request, so a thread that asks for less than a page at a time never makes one.
- TableHeap.MallocRefines: leaves out the same requests.
- TableHeap.MallocKeepsOrder: leaves out the same requests.
- TableHeap.CarveAnywhere: carves one-page regions only.
- LargeRegions.LargeIs: requests of several pages that use a region again, and those whose pages do not come to lie together, because `loadSpan` does not advance past a page that is already there (umalloc.c:2176); the address and the charge are claimed up to 8 pages, where header fields are not truncated.
- TableHeap.FreeIs: pointers to pages of larger regions and to pages that the thread does not have; for the latter `myfree` uses an uninitialised header pointer.
- TableHeap.NullExactly: leaves out the same requests as `AddressNamesBlockExactly`, and what a request does once it has gone to the swap file.
- TableHeapRuns.RunOwnsDisjointBlocks: its conditions on a run suffice, and the exact one is given for each request (`AddressNamesBlockExactly`); needs a free slot at each step, and requests as in `MallocIs` and `LargeIs`; blocks in larger regions are not among those counted as held (their pages are disjoint from all others, `PageAlloc.LiveRangesDisjoint`); a free by the library is the same step, since `myfree` protects nothing again (`OpenSlots.FreeLeavesOpen`).
- TableRuns.FirstCreateRun: sizes are those of a 64-bit machine, with 968 bytes for `ucontext_t`; what the library writes into control blocks, queue nodes, contexts and stacks lies within their blocks, changes no header, and is not followed; the scheduler's own pages lie behind the page slots.
- PageAlloc.AddressReachesItsPage: the dereference happens in the owner's time slice; that the index is the page's number is the exact condition `IndexIsPageNumberExactly`.
- JoinWrites.ExitArrivesExactly: the store meets no protection, as `loadLibraryPages` leaves the slots and the requests of a library built with `LIBRARY_MALLOC` keep them; the joiner's location lies outside the page slots or within its own pages.
- LateJoins.LateValueArrives: pages in place suffice; the exact condition is `LateValueArrivesExactly`.
- StaticHeap.StaticHeap.Malloc: requests whose size makes the 64-bit sum wrap to a small one (`Wraps`) are excluded; the code would write outside the array.
- StaticHeap.StaticHeap.Realloc: such sizes are excluded here too.
- MutexRuns.RunsKeepMutexInv: needs two queued threads at each decision, since a thread that is alone is resumed without a look at what it waits for (`LoneThreadExactly`).
- `mymalloc` and `myfree` on the table are functions put together from the search and the byte writes that the methods of `Paging` and `Region` compute; the very first call of `mymalloc`, which sets the array up and does not protect the slots before it returns, is not among them.
- The swap file and eviction (`evictPageToSwapFile`, `writeDataToSwap`, `swapFindOnPageNum`, `putPageAndMetaInMemory`): file input and output.
- `preemptiveThreadLoad`: a further scan made of the same swaps, which nothing calls; `findSpanStart`: the start of a region of several pages is taken as known.
- The headers' storage in the first six pages of the array: headers, pages and protection bits are three arrays here.
- `posix_memalign` does not promise zeroed memory, but the code relies on zero headers; the table starts with zero headers.
- `mprotect` is an array of booleans; signals, timers, `ucontext` switching, the re-entrancy flags and debug output are not modelled, and every library call is one atomic step.
- The truncation of request sizes to `int` in `mymalloc` and `shalloc`, and `calloc` of the test heap.
- Round robin, which deletes a waiter's entry before it tests ownership, and MLFQ, which is empty.
- `mypthread_mutex_destroy`, which leaves the flag set, and setting a mutex up a second time; there is no claim of freedom from deadlock.
- Null mutex pointers, which every mutex call answers with code 1, mutexes that were never set up, and joins of ids below 2, which no thread ever has and for which the code would dereference a missing exit record.
- The flag of a mutex implies nothing: printing the thread list sets the first mutex's flag (mypthread.c:1841-1846).
- Scheduler.Scheduler.FindNextWaiter: searching the placeholder node would dereference a null control block; the model's answer for it is `Faults`, and `TakeoversUnreachable` shows that it is not reached.
- Scheduler keeps the queues as sequences in fields; `LinkedQueue` treats the linked nodes, with the quantum held in the node. Nodes and control blocks are never freed, so a thread's id stands for its node.
- `joinReturnLocation` of the main thread's control block is never initialised by the code; it is taken as null.
- A thread never returns from `main` of its own accord here: exits are explicit.
- The rest of Unity: assertions, output, generators, samples.
