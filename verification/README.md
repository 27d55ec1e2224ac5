# The low-level runtime, modelled

Five parts of the runtime under `lowcode/`, each as a value-level specification with its theorems and as
an imperative class whose methods are proved to compute that specification.

**Buddy allocator.** A pool is a map from offsets to blocks plus one sequence per order. The invariant says
that the blocks tile the managed region, that the bins hold exactly the free blocks of their order, and that
no two equal buddies are free. `BuddyPool` defines the operations, `BuddyTiling` and `BuddyTheorems` prove
refusal exact, coalescing complete and the start state restored; `BuddyPayload` and `BuddyRecords` say when
payloads and headers stay inside their blocks. `BuddyAllocator` threads the bins through block headers, with
the bitmap beside them.

**Page manager.** A space is a list of segments, each with its set of used pages, and the outstanding
chunks. `PageSpace` has first fit and the ownership invariant; `PageManager` has the bitmap words and the
scan that jumps over runs of bits. A machine word is a sequence of bits (`Words`).

**Arena and metadata arena.** `ArenaSpace` and `ArenaRuns` treat the bump allocator over the page space,
with nested markers; `ArenaAllocator` is its linked list of chunks. `MetaSpace` and `MetaRuns` put size
classes on top, `ArenaAlignment` and `MetaPacking` say which alignments are given and when bytes are lost;
`MetaArena` threads its free lists through the recycled blocks, and `MetaClient` is the view its clients
have.

**Shapes.** A graph is a map from addresses to shape records plus the creation list. `ShapeGrowth` is about
creating transitions, `ShapeSweep` about the reverse walk, `ShapeTheorems` and `ShapeRuns` about canonicity
and runs, `ShapeRequests` about what a request stores and asks for. `ShapeGraph` edits the records link by
link and keeps, through `ShapeMemory`, a `Ledger` that gives every block of the metadata arena in use
exactly one owner. `InlineCache` is the field cache that relies on published descriptors never changing.

**Atoms and registry.** `AtomText` is base-36 text and the short text in one word, `AtomLiterals` says what
the characters and bits are, `AtomPrinter` has the parser's and printer's loops; `AtomIds` says when two
registry ids agree. `RegistrySpace`, `RegistryTheorems` and `Registry` are the interning table,
`RegistryMemory` its share of the `Ledger`.

Where the code differs from what its comments or its evident intent say, the model follows the code, and
the exact condition under which the intent is met is proved:

- The order of a request ignores the header (`buddy.cpp:21`) while the pointer returned lies behind it
  (`buddy.cpp:172`). The payload fits its block exactly for the sizes of `BuddyPayload.PayloadFitsIff`;
  payloads never overlap each other (`BuddyPayload.PayloadsApart`). The size test wraps on 64 bits
  (`BuddyTheorems.GrantHoldsSize`, `BuddyPayload.WrappedGrant`).
- A free header, sixteen bytes and two offsets, does not fit a block of the smallest order, and a payload
  that straddles reaches into the next block's header, which a merge reads (`buddy.cpp:101-106`): thirty-two
  bytes do (`BuddyRecords.ThirtyTwo`). One record per block tells the truth in every state of a run iff no
  granted size wraps or straddles (`BuddyRecords.RunFitsIff`, `BuddyRecords.HeadersUntouched`).
- The constructor rounds the start order up (`buddy.cpp:142`), so the start block may exceed the pages
  (`BuddyTheorems.ManagedRegionFits`, `BuddyPayload.ThreePages`).
- The arena rounds offsets within a chunk, so alignments above a page are given only if the chunk's own
  address has them; the metadata arena does not look at the alignment when a free list serves the request,
  for which its debug build would panic (`meta_arena.cpp:36-43`) (`ArenaAlignment.AllocAlignedIff`,
  `ArenaAlignment.MetallocAlignedIff`, `ArenaAlignment.OddPageMisaligned`, `ArenaAlignment.RecycledMisaligned`).
- A zero atom yields an empty descriptor (`shape_map.cpp:115-123`), so a request for a zero atom with
  attributes never finds the shape it created (`ShapeTheorems.SecondRequestFinds`, `ShapeRuns.TwinShapes`).
- Marking is not recursive (`shape_map.h:166-171`); a sweep leaves dangling parents unless the marks are
  closed under parents (`ShapeSweep.SweepWellFormedIff`, `ShapeRuns.UnclosedMarks`).
- A cache entry outlives the shape it names, and the shape's address is the next to be reused
  (`InlineCache.RecycledAddressHits`, `InlineCache.SweptAddressReturns`).
- `numToStarId` writes no terminator (`starid.cpp:86`); the id depends on the byte that happens to follow
  (`AtomText.SlotIdRoundTripIff`). In the model that byte, and whatever follows it up to the next zero, is
  the parameter `junk`, and every statement about ids holds for all such bytes. For a table of 256 slots the
  ids still tell texts apart while no more than four bytes follow (`AtomIds.IdsInjectiveIff`,
  `RegistryTheorems.SameIdIffSameText`).
- A kill in `sweepPlaces` clears the length of place 0, whichever place dies (`starid.cpp:225`)
  (`RegistryTheorems.SweepInvIff`, `RegistryTheorems.UnsafeSweepLoses`), and the next death of place 0 then
  recycles the first sixteen bytes of the text's block and loses the rest (`RegistryMemory.NextSweepFitsIff`,
  `RegistryMemory.ShortRecycleReachable`, `RegistryMachine.ALAR.SweepPlaces`). The setter of the mark belongs
  to a private record and nothing calls it with true; as long as nobody does, every sweep is safe and empties
  the table (`RegistryTheorems.UntouchedRun`).
- `staridize` looks a text without a length up by its terminator but stores a copy of length zero
  (`RegistryTheorems.StaridizeHoldsIff`, `RegistryTheorems.StaridizeInvIff`).
- `getRaw` and `lenOf` index the table for the broken atom (`starid.cpp:205`), beyond its end
  (`RegistryTheorems.OutsideIffBroken`), and `getRaw` reads recycled memory for a dead text
  (`RegistryTheorems.RecycledIffDead`).
- The cell that points to a text is never recycled: a sweep gives back the texts' blocks only
  (`RegistryMachine.ALAR.SweepPlaces`).

The parameter `reserved` (`r1`, `r2`, `r3`, `reserved1`, `reserved2` where several blocks are obtained) is
the address range the operating system would hand out for a new segment: page aligned and apart from the
ranges in use. `k` names the exponent of an alignment that is a power of two.

## Model

| member | source | states |
|---|---|---|
| BuddyTheorems.RefusalExact | lowcode/source/allocators/buddy.cpp:148-173 | a size that passes the test is refused iff no aligned window of the request's order in the managed region is wholly free; a refusal changes nothing |
| BuddyTheorems.CanonicalForm | lowcode/source/allocators/buddy.cpp:93-117 | two well-formed pools with the same live blocks have the same blocks and the same bin contents: the free space has exactly one coalesced tiling |
| BuddyTheorems.RunInv | lowcode/source/allocators/buddy.cpp:121-184 | tiling, exact bins and full coalescing hold after every run of alloc and free; a run that ends with nothing live ends in the constructed state |
| BuddyTheorems.DrainRestores | lowcode/source/allocators/buddy.cpp:175-184 | freeing all outstanding blocks, in any order, restores the single start-order block, the bins and the bitmap |
| BuddyTheorems.AllocFreeRoundTrip | lowcode/source/allocators/buddy.cpp:148-184 | a free right after an alloc gives back every block of the pool as it was |
| BuddyTheorems.AllocGrants | lowcode/source/allocators/buddy.cpp:157-172 | a grant cuts the smallest adequate free block down to the request's order; every other live block is untouched |
| BuddyTheorems.FreeInv | lowcode/source/allocators/buddy.cpp:175-184 | freeing a live pointer keeps the invariant and takes exactly that block out of the live ledger |
| BuddyTheorems.FreeWindowInOneBlock | lowcode/source/allocators/buddy.cpp:93-117 | coalescing is complete: every wholly free aligned window lies inside one free block |
| BuddyTheorems.NoSmallBlocks | lowcode/source/allocators/buddy.cpp:93-117 | inside a wholly free window of order k no block is smaller than any order up to k |
| BuddyTheorems.LiveDisjoint | lowcode/source/allocators/buddy.cpp:83-117 | in any pool whose tiling HalveTiled and JoinTiled have kept, live blocks are pairwise disjoint, each at a multiple of its size inside the managed region |
| BuddyTheorems.BuddyInside | lowcode/source/allocators/buddy.cpp:93-107 | the address guard and the header guard of a merge together accept exactly the free buddies of equal order |
| BuddyTiling.BuddyIsBlockStart | lowcode/source/allocators/buddy.cpp:96-104 | the address a merge inspects is always the start of a current block of no larger order |
| BuddyTiling.BuddyPair | lowcode/source/allocators/buddy.cpp:16-18 | the exclusive-or buddy is an involution, and the two blocks fill the aligned window one order up |
| BuddyTiling.HalveTiled | lowcode/source/allocators/buddy.cpp:83-91 | a split step keeps the partition of the managed region |
| BuddyTiling.JoinTiled | lowcode/source/allocators/buddy.cpp:106-113 | a merge step keeps the partition of the managed region |
| BuddyTheorems.PushInv | lowcode/source/allocators/buddy.cpp:36-57 | pushing a taken block whose buddy is not free keeps tiling, bins and coalescing |
| BuddyTheorems.RemoveInv | lowcode/source/allocators/buddy.cpp:59-81 | removing a free block keeps tiling, bins and coalescing and adds it to the live ledger |
| BuddyTheorems.SplitInv | lowcode/source/allocators/buddy.cpp:83-91 | splitting keeps the invariant and leaves a taken block of the target order |
| BuddyTheorems.FuseInv | lowcode/source/allocators/buddy.cpp:106-112 | fusing with a free buddy keeps the invariant and yields the taken double block at the lower address |
| BuddyTheorems.MergeInv | lowcode/source/allocators/buddy.cpp:93-117 | recursive merging keeps the invariant and frees exactly the block it was given |
| BuddyTheorems.OrderLeast | lowcode/source/allocators/buddy.cpp:20-30 | up to 4 MB the order is the least one from 4 to 22 whose block holds the size |
| BuddyTheorems.GrantHoldsSize | lowcode/source/allocators/buddy.cpp:149-152 | the wrapping size test rejects exactly the sizes from 4194289 up that do not wrap, and a size of zero gets null; a granted block holds the size iff it did not wrap |
| BuddyTheorems.ManagedRegionFits | lowcode/source/allocators/buddy.cpp:122-143 | the start block lies inside the requested pages iff they span a power of two, or at least 4 MB |
| BuddyTheorems.LeastPages | lowcode/source/allocators/buddy.cpp:122 | the pages cover the size asked for, at least one, and one fewer would not |
| BuddyPayload.ThreePages | lowcode/source/allocators/buddy.cpp:122-143 | three pages: a start block of 16384 bytes over 12288 |
| BuddyPayload.PayloadFitsIff | lowcode/source/allocators/buddy.cpp:148-173 | the payload behind the header of a grant lies inside the block iff the size does not wrap and is not one of the sixteen just up to a power of two |
| BuddyPayload.PayloadOutside | lowcode/source/allocators/buddy.cpp:148-173 | sixteen bytes from a new 4 MB pool: granted, and the payload begins where its block ends |
| BuddyPayload.WrappedGrant | lowcode/source/allocators/buddy.cpp:149-152 | the largest 64-bit size passes the wrapping test on a new pool and is granted its 4 MB |
| BuddyPayload.PayloadsApart | lowcode/source/allocators/buddy.cpp:148-184 | over every run of non-wrapping sizes no two live payloads overlap, and none reaches further than the sixteen bytes behind its block |
| BuddyPayload.HeadersFitIff | lowcode/include/allocators/buddy.h:31-39 | every block has room for a free header iff none has the smallest order |
| BuddyRecords.RunFitsIff | lowcode/source/allocators/buddy.cpp:148-184 | over every run: every live payload stays inside its block and every block keeps room for a free header iff no granted size wraps or straddles |
| BuddyRecords.StepFitsIff | lowcode/source/allocators/buddy.cpp:148-184 | from a state where all fits, a step keeps it so iff a granted size neither wraps nor straddles |
| BuddyRecords.HeadersUntouched | lowcode/source/allocators/buddy.cpp:101-106 | where all fits, a payload touches no other block's header, so merges read what the allocator wrote |
| BuddyRecords.StartFits | lowcode/source/allocators/buddy.cpp:121-146 | in a constructed pool all fits |
| BuddyRecords.ThirtyTwo | lowcode/source/allocators/buddy.cpp:148-173 | thirty-two bytes from a new pool: the payload covers the next block's header |
| BuddyRecords.StepSmallestIff | lowcode/source/allocators/buddy.cpp:148-173 | from a state without smallest blocks, a step makes one iff it grants sixteen bytes or fewer |
| BuddyPayload.RoomyRun | lowcode/source/allocators/buddy.cpp:148-184 | over runs, requests above sixteen bytes make no block of the smallest order |
| BuddyPayload.StartRoomy | lowcode/source/allocators/buddy.cpp:121-146 | a constructed pool has no block of the smallest order |
| BuddyMachine.BuddyAllocator.constructor | lowcode/source/allocators/buddy.cpp:121-146 | bins, bitmap and headers start as the single free block of the start order, over the fewest pages, at least one, that cover the size |
| BuddyMachine.BuddyAllocator.PushFreeBlock | lowcode/source/allocators/buddy.cpp:36-57 | threading a header onto its bin and setting the bin's bit yields the pool with that block free |
| BuddyMachine.BuddyAllocator.RemoveFreeBlock | lowcode/source/allocators/buddy.cpp:59-81 | unthreading from head or middle, clearing the bit when the bin empties, yields the pool without that block free |
| BuddyMachine.BuddyAllocator.SplitBlock | lowcode/source/allocators/buddy.cpp:83-91 | the descending loop yields the recursive split |
| BuddyMachine.BuddyAllocator.MergeBlock | lowcode/source/allocators/buddy.cpp:93-117 | reading the buddy's header, unthreading it and recursing yields the recursive merge |
| BuddyMachine.BuddyAllocator.Alloc | lowcode/source/allocators/buddy.cpp:148-173 | mask, count of trailing zeros, unthreading and splitting yield the pool and pointer of the specification |
| BuddyMachine.BuddyAllocator.Free | lowcode/source/allocators/buddy.cpp:175-184 | freeing through the stored order yields the pool of the specification; null changes nothing |
| PageMachine.FindRun | lowcode/source/allocators/page_mgr.cpp:49-89 | the scan that skips full and empty words and counts zeros returns exactly the first fit of a page-by-page search, and falls through iff there is none |
| PageMachine.ScanWord | lowcode/source/allocators/page_mgr.cpp:67-88 | the jumps inside one word keep or finish the run as a bit-by-bit scan would |
| PageMachine.ScanZeros | lowcode/source/allocators/page_mgr.cpp:57-79 | a stretch of clear pages extends the run, or completes the least fit |
| PageMachine.ScanOnes | lowcode/source/allocators/page_mgr.cpp:52-55 | a stretch of used pages ends every run through it |
| PageSpace.RequestInv | lowcode/source/allocators/page_mgr.cpp:49-112 | a request of 1 to 2097152 pages ends with at most one new segment, needed iff the last one has no fit, and the new chunk touches no outstanding one |
| PageSpace.FreshSegmentFits | lowcode/source/allocators/page_mgr.cpp:96-112 | an all-clear bitmap satisfies a request iff it is no longer than a segment: what ends the recursion |
| PageSpace.ReleaseInv | lowcode/source/allocators/page_mgr.cpp:114-134 | a release clears exactly the chunk's own pages, keeps all other chunks and adds no segment |
| PageSpace.OneOwner | lowcode/source/allocators/page_mgr.cpp:39-47 | a page in use belongs to exactly one outstanding chunk, in whatever segment |
| PageSpace.RunInv | lowcode/source/allocators/page_mgr.cpp:30-134 | over every run of matched requests and releases a page is in use iff an outstanding chunk covers it; with nothing outstanding all segments are clear |
| PageSpace.FirstSpaceInv | lowcode/source/allocators/page_mgr.cpp:15-28 | the constructed manager satisfies the ownership invariant |
| PageSpace.Geometry | lowcode/include/allocators/page_mgr.h:21-28 | pages are 4096 bytes, segments 8 GB |
| PageMachine.PageManager.constructor | lowcode/source/allocators/page_mgr.cpp:15-28 | one segment with an all-clear bitmap and no chunk |
| PageMachine.PageManager.RequestPageChunk | lowcode/source/allocators/page_mgr.cpp:30-94 | the search from the current segment with its recursion yields the space and address of the specification; zero pages yield null |
| PageMachine.PageManager.CreateNewSegmentAndAllocate | lowcode/source/allocators/page_mgr.cpp:96-112 | appending a segment and asking again yields the specified request, with a measure that falls |
| PageMachine.PageManager.CommitAndReturn | lowcode/source/allocators/page_mgr.cpp:39-47 | sets exactly the found pages and returns their address |
| PageMachine.PageManager.AppendSegment | lowcode/source/allocators/page_mgr.cpp:96-108 | links a clear segment behind the last one |
| PageMachine.PageManager.ReleasePageChunk | lowcode/source/allocators/page_mgr.cpp:114-134 | finds the segment by address and yields the space of the specification |
| PageMachine.PageManager.SegmentHolding | lowcode/source/allocators/page_mgr.cpp:117-131 | the walk from the head stops at the segment that holds the address |
| PageMachine.SetRun | lowcode/source/allocators/page_mgr.cpp:40-43 | the bit loop adds exactly the pages of the run |
| PageMachine.ClearRun | lowcode/source/allocators/page_mgr.cpp:122-126 | the bit loop removes exactly the pages of the run |
| ArenaRuns.RunInv | lowcode/source/allocators/arena.cpp:35-70 | over every run of allocations and nested marks and pops, handed-out regions stay disjoint and in place, every outstanding marker can be restored, and nobody else's pages are touched |
| ArenaRuns.StepPop | lowcode/source/allocators/arena.cpp:56-70 | a pop restores the chunk list, offsets and regions of its marker and gives back exactly the pages of the later chunks |
| ArenaRuns.NewBytesApart | lowcode/source/allocators/arena.cpp:35-54 | new bytes never overlap bytes handed out before |
| ArenaSpace.PopRestores | lowcode/source/allocators/arena.cpp:56-70 | popping any extension back to the marker taken before it restores the arena exactly |
| ArenaSpace.PopInv | lowcode/source/allocators/arena.cpp:56-70 | a pop releases each later chunk once and keeps everyone else's chunks |
| ArenaSpace.AllocInv | lowcode/source/allocators/arena.cpp:35-54 | an allocation extends the arena; its bytes are in the current chunk, above all earlier ones, aligned relative to the chunk |
| ArenaAlignment.AllocAlignedIff | lowcode/source/allocators/arena.cpp:35-54 | the pointer is aligned as asked iff the alignment is at most a page or the serving chunk's address has it |
| ArenaAlignment.OddPageMisaligned | lowcode/source/allocators/arena.cpp:35-54 | from a chunk on an odd page an 8192-byte alignment is not given |
| ArenaAlignment.AllocSizes | lowcode/source/allocators/arena.cpp:35-54 | when a chunk is opened and how large it is: in numbers, for every request |
| ArenaSpace.AlignForwardLeast | lowcode/include/allocators/arena.h:57-59 | rounding up yields the least multiple of a power of two not below the address |
| ArenaSpace.GrowInv | lowcode/include/allocators/arena.h:32-38 | a new chunk has room for the bytes it was made for and a fresh page-aligned address |
| ArenaMachine.ArenaAllocator.constructor | lowcode/source/allocators/arena.cpp:23-29 | one empty chunk of the fewest whole pages with room for the default size |
| ArenaMachine.ArenaAllocator.Alloc | lowcode/source/allocators/arena.cpp:35-54 | bumping the current chunk, or a newly linked one, yields the arena, pages and pointer of the specification; a new chunk is opened iff the request fits the current one at no aligned offset, and has the fewest whole pages that hold both the request and the default size |
| ArenaMachine.ArenaAllocator.AppendChunk | lowcode/source/allocators/arena.cpp:40-46 | linking a new chunk behind the current one yields the grown arena |
| ArenaMachine.ArenaAllocator.GetMarker | lowcode/include/allocators/arena.h:93-97 | the marker names the last chunk of the list and its offset |
| ArenaMachine.ArenaAllocator.PopToMarker | lowcode/source/allocators/arena.cpp:56-70 | cutting and deleting the list behind the marker yields the specified pop; a null marker changes nothing |
| ArenaMachine.ArenaAllocator.ReleaseChunks | lowcode/source/allocators/arena.cpp:13-21 | deleting a chain releases its chunks' pages first to last, each once |
| ArenaMachine.ArenaAllocator.Clear | lowcode/source/allocators/arena.cpp:72-77 | one empty chunk of the fewest whole pages for the default size remains, and everyone else's pages are as before |
| MetaRuns.RunInv | lowcode/source/meta/meta_arena.cpp:29-94 | over every run the blocks in use are exactly what the client holds, and no block vanishes or changes size |
| MetaRuns.RunPacked | lowcode/source/meta/meta_arena.cpp:29-94 | over every run every given-out byte is in a block iff that was so at the start and no step left padding |
| MetaRuns.EveryBlockAccounted | lowcode/source/meta/meta_arena.cpp:53-94 | a block is held, or on the one list of its size, or too large for any list; never two of these |
| MetaSpace.MetallocInv | lowcode/source/meta/meta_arena.cpp:29-51 | a served pointer was in nobody's hands, is 16-byte aligned and stands for exactly the rounded size |
| ArenaAlignment.MetallocAlignedIff | lowcode/source/meta/meta_arena.cpp:29-51 | a listed block comes as it is; a carved one is aligned as asked iff the alignment is at most a page or the serving chunk's address has it; up to 16 always |
| ArenaAlignment.ReuseIgnoresAlignment | lowcode/source/meta/meta_arena.cpp:34-47 | requests that differ only in alignment get the same listed block |
| ArenaAlignment.RecycledMisaligned | lowcode/source/meta/meta_arena.cpp:34-47 | a block at 4112, recycled and asked for again at 32 bytes' alignment, is served as it is |
| MetaPacking.MetallocPacked | lowcode/source/meta/meta_arena.cpp:29-51 | serving a request leaves every given-out byte in a block iff that was so and no padding arises: a listed block, a new chunk, or an offset already aligned |
| MetaPacking.SmallNeverPads | lowcode/source/meta/meta_arena.cpp:49-50 | alignments up to 16 never leave padding |
| MetaPacking.RecycleShort | lowcode/source/meta/meta_arena.cpp:53-94 | recycling with the allocated size or less keeps the arena well-formed, and loses bytes iff the size was less |
| MetaSpace.ReuseInv | lowcode/source/meta/meta_arena.cpp:34-47 | a block from a free list has exactly the size class of the request |
| MetaSpace.CarveInv | lowcode/source/meta/meta_arena.cpp:49-50 | a carved block overlaps no other block and is 16-byte aligned whatever alignment was asked for |
| MetaSpace.RecycleInv | lowcode/source/meta/meta_arena.cpp:53-94 | recycling with the allocated size keeps all lists exact and takes the block out of the ledger |
| MetaSpace.RecycledComesBack | lowcode/source/meta/meta_arena.cpp:29-94 | a recycled block is the very next one served in its size class |
| MetaSpace.ListedUpTo2048 | lowcode/source/meta/meta_arena.cpp:53-94 | a recycled block of up to 2048 bytes is served next in its class, a larger one is given up |
| MetaSpace.Disjoint | lowcode/source/meta/meta_arena.cpp:29-94 | a held block and a listed one are different and do not overlap |
| MetaSpace.AlignSize | lowcode/include/meta/meta_arena.h:18-21 | the rounded size is the least multiple of 16 that is at least 16 and at least the size |
| MetaSpace.SizeClass | lowcode/include/meta/meta_arena.h:18-25 | rounding and bucket index agree on block sizes of 16(b+1) bytes |
| MetaMachine.MetaArena.constructor | lowcode/source/meta/meta_arena.cpp:7-23 | empty free lists over a new arena |
| MetaMachine.MetaArena.Metalloc | lowcode/source/meta/meta_arena.cpp:29-51 | popping a list head or bumping the arena yields the world and pointer of the specification |
| MetaMachine.MetaArena.Metarecycle | lowcode/source/meta/meta_arena.cpp:53-94 | pushing onto the bucket yields the specified lists; null and oversized blocks are handled as in the source |
| MetaClient.Acquire | lowcode/source/meta/meta_arena.cpp:29-51 | a client gets the head of the free list or a new block, held by nobody before, and nothing is lost |
| MetaClient.GiveBack | lowcode/source/meta/meta_arena.cpp:53-94 | the block leaves the client's hands for the head of its list, and bytes are lost iff the size was too small |
| ShapeTheorems.SamePathSameShape | lowcode/source/meta/shape_map.cpp:257-290 | two live shapes are the same object iff their descriptor sequences agree in name and attributes |
| ShapeRuns.ReplayAcrossRun | lowcode/source/meta/shape_map.cpp:257-290 | the keys that led to a shape lead to it again after any run that keeps it live, whatever else was created, marked or swept |
| ShapeTheorems.ReplayReturns | lowcode/include/meta/shape_map.h:270-285 | replaying a live shape's keys from the root finds that shape |
| ShapeTheorems.LookupFindsChild | lowcode/include/meta/shape_map.h:270-285 | looking up a shape's last key in its parent finds that shape |
| ShapeRequests.CreatedDescriptor | lowcode/source/meta/shape_map.cpp:107-138 | a creation appends exactly one descriptor with the name, slot and attributes asked for, all zeros for a zero atom, and looking up a name that was new answers that slot |
| ShapeRequests.AttributeBits | lowcode/include/meta/shape_map.h:16-21 | bit 0 iff read-only, bit 1 iff hidden, bit 2 iff a getter, bit 3 iff a setter, and no other bit |
| ShapeRequests.FlagsTellAttributes | lowcode/source/meta/shape_map.cpp:257-290 | two requests ask for the same attributes iff they agree in all four flags |
| ShapeRuns.DifferentFlagsDifferentShapes | lowcode/source/meta/shape_map.cpp:257-290 | two requests in a row for one name that differ in their attributes are answered by different live shapes |
| ShapeRequests.CreatedFlags | lowcode/include/meta/shape_map.h:82-95 | the flags of a new shape are the accessor bit iff it has a getter or setter among its descriptors, and otherwise zero |
| ShapeRequests.OverflowsIff | lowcode/source/meta/shape_map.cpp:140-290 | a creation panics iff the shape has 65535 properties, or a full table of 65532 entries or more |
| ShapeRequests.Capacities | lowcode/include/meta/shape_map.h:32-38 | tables grow 2, 4, 8, 16, 32, 36, and by four from there |
| ShapeRequests.BlockSizes | lowcode/include/meta/shape_map.h:43-76 | in the ledger a live shape owns 64 bytes, its descriptors eight each rounded up to sixteens, its table sixteen for every entry of its capacity |
| ShapeTheorems.SecondRequestFinds | lowcode/source/meta/shape_map.cpp:107-138 | right after a creation the same request finds the new shape iff the atom is non-zero or no attribute was asked for |
| ShapeRuns.TwinShapes | lowcode/source/meta/shape_map.cpp:107-138 | from a fresh root, two requests for a zero atom with an attribute make two live shapes with one path |
| ShapeRuns.UnclosedMarks | lowcode/source/meta/shape_map.cpp:357-382 | root, child, grandchild, only the last marked: a reachable state whose sweep leaves a survivor without its parent |
| ShapeGrowth.CreateCanonical | lowcode/source/meta/shape_map.cpp:140-255 | creation keeps the graph canonical iff the table held no transition with the stored name and attributes |
| ShapeGrowth.CreateInv | lowcode/source/meta/shape_map.cpp:43-255 | creation keeps list, tree, tables and descriptors well-formed |
| ShapeGrowth.NewLocal | lowcode/include/meta/shape_map.h:82-95 | the new shape has the accessor flag iff a getter or setter is among its descriptors, given that its parent has |
| ShapeSweep.SweepCorrect | lowcode/source/meta/shape_map.cpp:357-382 | a sweep removes exactly the unmarked non-root shapes, returns their number, clears the survivors' marks, leaves no pointer to a removed shape in list or tables, and loses no transition between survivors |
| ShapeSweep.SweepWellFormedIff | lowcode/source/meta/shape_map.cpp:357-382 | after a sweep every parent pointer leads to a live shape iff the marked set was closed under parents |
| ShapeSweep.SweepCanonical | lowcode/source/meta/shape_map.cpp:313-382 | a sweep never breaks canonicity |
| ShapeSweep.WalkCorrect | lowcode/source/meta/shape_map.cpp:362-379 | at every stage of the reverse walk the part already passed is swept and the rest is untouched |
| ShapeSweep.RemoveWeak | lowcode/source/meta/shape_map.cpp:313-355 | forgetting and killing one shape keeps everything but its own children's parents |
| ShapeSweep.SwapRemoveKeeps | lowcode/source/meta/shape_map.cpp:340-347 | overwriting an entry with the last one keeps every other entry, once |
| ShapeSweep.FlagsWeak | lowcode/include/meta/shape_map.h:166-171 | changing mark bits concerns nothing else |
| ShapeRuns.StepInv | lowcode/source/meta/shape_map.cpp:140-382 | each transition, mark or parent-closed sweep keeps the graph well-formed, and canonical iff a creation stores the key that was asked for, or the empty key it stores instead is still free |
| ShapeRuns.RunInv | lowcode/source/meta/shape_map.cpp:140-382 | the same over every run |
| ShapeRuns.StepKeepsBodies | lowcode/source/meta/shape_map.cpp:245-252 | published descriptors and parents never change while a shape lives; only a sweep removes shapes |
| ShapeRuns.RunKeepsBodies | lowcode/source/meta/shape_map.cpp:245-252 | descriptors and version stay the same over every run in which the shape stays live |
| ShapeRuns.StepKeepsVersion | lowcode/include/meta/shape_map.h:312-323 | no transition, mark or sweep changes the version the cache reads |
| ShapeRequests.ShapeBits | lowcode/include/meta/shape_map.h:23-29 | the mark is bit 0 and marking and unmarking touch no other bit; the accessor flag is bit 1 |
| ShapeRequests.EpochLiteral | lowcode/include/meta/shape_map.h:312-323 | the version stands above the four flag bits |
| ShapeRuns.MarkInv | lowcode/include/meta/shape_map.h:166-171 | marking keeps the graph well-formed and canonical |
| ShapeRuns.MarkClosedIff | lowcode/include/meta/shape_map.h:166-171 | marking one more shape keeps the marks closed under parents iff the shape is the root or its parent is the root or marked |
| ShapeTheorems.CountIsDepth | lowcode/include/meta/shape_map.h:298-306 | the property count is the depth in the tree |
| ShapeTheorems.FlagTellsAccessors | lowcode/include/meta/shape_map.h:82-95 | in a graph that NewLocal and CreateInv have kept well-formed, the accessor flag is set iff some descriptor on the path is a getter or setter |
| ShapeTheorems.DescendantExtends | lowcode/source/meta/shape_map.cpp:76-100 | every descendant's descriptors extend the ancestor's |
| ShapeTheorems.ResolutionInherited | lowcode/include/meta/shape_map.h:142-164 | a name resolved in a shape resolves to the same descriptor in every descendant |
| ShapeTheorems.ParentOf | lowcode/source/meta/shape_map.cpp:43-105 | exactly the root has no properties; any other shape extends a live parent by one descriptor |
| Ledger.TallyAdd | lowcode/source/meta/meta_arena.cpp:29-51 | a new block with one new owner keeps the ledger of blocks and owners exact |
| Ledger.TallyRemove | lowcode/source/meta/meta_arena.cpp:53-94 | giving a block back takes out exactly one owner and one block |
| ShapeMachine.GetProperty | lowcode/include/meta/shape_map.h:142-150 | the loop returns the first descriptor of the name |
| ShapeMachine.FindTransitionIndex | lowcode/include/meta/shape_map.h:270-285 | the loop returns the first transition with that name and those attributes |
| ShapeMachine.GetShapeChainDepth | lowcode/include/meta/shape_map.h:298-306 | the walk to the root counts the depth, which is the property count; zero for null |
| ShapeMachine.DetachLinks | lowcode/source/meta/shape_map.cpp:333-347 | relinking neighbours and swap-removing the parent's entry yields the specified links |
| ShapeMachine.ShapeArena.constructor | lowcode/source/meta/shape_map.cpp:7-41 | the root of a new graph alone, marked, as the only owner of a new block |
| ShapeMachine.ShapeArena.GrowTransitionTable | lowcode/source/meta/shape_map.cpp:152-220 | the table gets room and its old block goes back with the size it was allocated with |
| ShapeMachine.ShapeArena.MakeShape | lowcode/source/meta/shape_map.cpp:43-105 | the child at the end of the list owns a new shape block and a new property block |
| ShapeMachine.ShapeArena.CreateTransition | lowcode/source/meta/shape_map.cpp:140-255 | panics iff the table or the property count would outgrow 16 bits, yields null for null, else the specified graph with every block accounted; the new shape's last descriptor has the name, slot and attributes asked for; with room in the table it stands at the head of its free list |
| ShapeMachine.ShapeArena.TransitionShape | lowcode/source/meta/shape_map.cpp:257-290 | reuses the matching transition, else creates; the answer's last descriptor has the name and exactly the attribute bits of the four flags, and a new one the slot, which a lookup answers; a null shape yields null |
| ShapeMachine.ShapeArena.MarkShapeAlive | lowcode/include/meta/shape_map.h:166-171 | sets one mark and nothing else |
| ShapeMachine.ShapeArena.ForgetShape | lowcode/source/meta/shape_map.cpp:313-355 | the shape leaves the list and its parent's table, its blocks stay held; null and the root are left alone |
| ShapeMachine.ShapeArena.KillShape | lowcode/source/meta/shape_map.cpp:292-311 | property array, table and shape go back with their allocated sizes, the shape last; null is ignored |
| ShapeMachine.ShapeArena.SweepOrphanedShapes | lowcode/source/meta/shape_map.cpp:357-382 | the reverse walk yields the specified graph and count with every block accounted, and a well-formed graph iff the marks were closed under parents |
| InlineCache.FieldCache.GetField | lowcode/include/meta/inline_cache_gc.h:20-34 | a hit answers from the record, a miss looks up and records; from a coherent record the answer is the shape's own and the record stays coherent |
| InlineCache.CoherentAcrossRun | lowcode/include/meta/inline_cache_gc.h:27-29 | over any run in which the shape is not swept a hit stays a hit and the cached offset stays the shape's own answer |
| InlineCache.RecycledAddressHits | lowcode/include/meta/inline_cache_gc.h:27-29 | for every field, a version-0 entry for an address used for a new shape hits, and is right iff its offset happens to be the new shape's answer |
| InlineCache.SweptAddressReturns | lowcode/source/meta/shape_map.cpp:257-382 | a sweep that takes a child, then a transition from its parent: the new shape stands at a swept shape's address, where left-over entries hit under that condition |
| AtomText.ParsePrintParse | lowcode/include/meta/starid.h:102-155 | a parsed atom, printed and parsed again, is the same atom, for every C string |
| AtomText.PrintParseIff | lowcode/include/meta/starid.h:102-155 | printing an atom and parsing the text returns the atom iff the atom is canonical |
| AtomText.ParsedIsCanonical | lowcode/include/meta/starid.h:102-128 | every parsed atom is canonical, and never the broken atom |
| AtomText.HornerDigits | lowcode/include/meta/starid.h:108-118 | parsing printed digits gives the number back, and no 16-bit step wraps on the way |
| AtomLiterals.DigitsNumeral | lowcode/include/meta/starid.h:26 | six printed digits are characters 0-9 and a-z that read as the number in base 36 |
| AtomLiterals.DigitCases | lowcode/include/meta/starid.h:108-118 | the parser reads upper and lower case alike and any other character as zero |
| AtomLiterals.ParsedIds | lowcode/include/meta/starid.h:102-118 | a text that begins with a star parses to an atom from 0x80000000 to 0x8000ffff |
| AtomLiterals.ParsedBytes | lowcode/include/meta/starid.h:120-128 | any other text parses to its first four bytes, the first one lowest, without the top bit |
| AtomText.SlotIdRoundTripIff | lowcode/source/meta/starid.cpp:85-106 | slot to id to slot is the identity on all 16-bit numbers iff the unwritten byte behind the digits is zero |
| AtomText.JunkParity | lowcode/source/meta/starid.cpp:85-102 | with any byte behind the digits the parsed slot's parity no longer depends on the slot |
| AtomPrinter.ParseDigits | lowcode/include/meta/starid.h:108-118 | the parser's loop computes the 16-bit Horner value |
| AtomPrinter.PrintDigits | lowcode/source/meta/starid.cpp:85-99 | the printer's loops write the star and six characters out of 0-9 and a-z that read as the number in base 36, and leave the byte behind them unwritten |
| AtomPrinter.AtomToBuffer | lowcode/include/meta/starid.h:130-155 | for ids a star and the six-character numeral of the low 16 bits; for packed atoms their bytes, all of them when the size is zero or at least five; smaller sizes write one byte fewer than the size; the broken atom writes nothing |
| AtomIds.IdNumber | lowcode/source/meta/starid.cpp:85-106 | whatever bytes follow the digits, the id carries slot times 36 to their number, plus their own value, modulo 65536 |
| AtomIds.IdsAgreeIff | lowcode/source/meta/starid.cpp:85-102 | over the same bytes two slots get one id iff their distance times 4 to the number of bytes is a multiple of 65536 |
| AtomIds.IdsAgreeApartIff | lowcode/source/meta/starid.cpp:85-102 | over different bytes two ids agree iff the numbers they carry do |
| AtomIds.IdsInjectiveIff | lowcode/source/meta/starid.cpp:85-102 | the ids of a table's slots all differ iff the table is narrow enough for the bytes behind the digits |
| AtomIds.FiveBytesCollide | lowcode/source/meta/starid.cpp:85-102 | any five bytes behind the digits give slots 0 and 64 one id |
| AtomIds.ChangingByteSplits | lowcode/source/meta/starid.cpp:85-102 | one slot printed over two different bytes keeps its id iff the bytes are the same digit |
| RegistryTheorems.SameIdIffSameText | lowcode/source/meta/starid.cpp:120-232 | intern one text, run on while its slot is kept, intern another: the slots agree iff the texts do; the ids, for any bytes behind the digits, iff the numbers they carry do, and over the same bytes in a narrow enough table iff the texts do |
| RegistryTheorems.FindExact | lowcode/source/meta/starid.cpp:120-147 | the search answers a slot iff that slot holds the text: equal hashes never merge two texts |
| RegistryTheorems.FindNone | lowcode/source/meta/starid.cpp:120-147 | the search fails iff no slot holds the text |
| RegistryTheorems.StaridizeInv | lowcode/source/meta/starid.cpp:149-201 | interning with a length, or the empty text, keeps hashes, lengths and uniqueness, adds at most the text itself, in the first unused slot and unmarked, and leaves every other slot as it was |
| RegistryTheorems.StaridizeInvIff | lowcode/source/meta/starid.cpp:149-201 | for any length, interning keeps them iff a length was given, the text was found, or the empty text stored instead was not there yet |
| RegistryTheorems.StaridizeHoldsIff | lowcode/source/meta/starid.cpp:149-201 | the answered slot holds the text that was looked up iff a length was given, the text is empty, or it was found |
| RegistryTheorems.UnmeasuredStoresEmpty | lowcode/source/meta/starid.cpp:149-201 | one character without a length, into an empty table: the empty text is stored and the character is not found |
| RegistryTheorems.IdResolves | lowcode/source/meta/starid.cpp:203-217 | for any bytes behind the digits, the id leads to the slot whose number it carries, and back to the text iff that is the text's slot, or the text is empty and the number lies behind the filled part |
| RegistryTheorems.NothingBehind | lowcode/source/meta/starid.cpp:203-217 | behind the filled part every id has the empty text and length zero |
| RegistryTheorems.LowBitsDecide | lowcode/source/meta/starid.cpp:203-217 | only the low sixteen bits of an id other than the broken atom decide what is read |
| RegistryTheorems.OutsideIffBroken | lowcode/source/meta/starid.cpp:203-217 | a read by id leaves the table iff the id is the broken atom |
| RegistryTheorems.RecycledIffDead | lowcode/source/meta/starid.cpp:203-209 | a read by id meets recycled memory iff it leads to a filled place whose text has died |
| RegistryTheorems.FullIff | lowcode/source/meta/starid.cpp:155-168 | interning panics iff the text is new and every slot is in use |
| RegistryTheorems.SweepTable | lowcode/source/meta/starid.cpp:219-233 | a sweep keeps exactly the marked texts, reports the number of the others and clears all survivors' marks |
| RegistryTheorems.SweepInvIff | lowcode/source/meta/starid.cpp:219-233 | lengths, hashes and uniqueness survive a sweep iff slot 0 was unused, unmarked, empty, or nothing died |
| RegistryTheorems.UnsafeSweepLoses | lowcode/source/meta/starid.cpp:219-233 | in the other case the text still occupies slot 0 but is no longer found |
| RegistryTheorems.UnsafeSweepReachable | lowcode/include/meta/starid.h:55-61 | the setter of the mark is private and never called with true; a caller of it reaches a state whose sweep does that damage |
| RegistryTheorems.UntouchedRun | lowcode/source/meta/starid.cpp:219-233 | as long as nobody marks, every run leaves every sweep safe, and every sweep empties the table |
| RegistryTheorems.RunInv | lowcode/source/meta/starid.cpp:120-233 | over every run with safe sweeps the registry stays intact |
| RegistryTheorems.RunHolds | lowcode/source/meta/starid.cpp:120-233 | a text whose slot is marked before each sweep keeps its slot |
| RegistryMachine.HashOf | lowcode/include/meta/starid.h:28-35 | the loop computes the string hash |
| RegistryTheorems.HashSnoc | lowcode/include/meta/starid.h:28-35 | one character more is one more step: the hash runs over the text from first to last |
| RegistryTheorems.HashSamples | lowcode/include/meta/starid.h:28-35 | published FNV-1a values of the empty text, a and ab, and the value of a byte that widens to a negative number |
| RegistryMemory.TextsApart | lowcode/source/meta/starid.cpp:170-189 | two live texts stand at different blocks of the arena |
| RegistryMemory.RecordedFits | lowcode/source/meta/starid.cpp:219-226 | in an intact registry every dying text goes back with its allocated size |
| RegistryMemory.NextSweepFitsIff | lowcode/source/meta/starid.cpp:219-226 | after a sweep of an intact registry the next one gives every dying text back whole iff slot 0 was safe or its text is at most sixteen bytes long |
| RegistryMemory.ShortRecycleReachable | lowcode/source/meta/starid.cpp:219-226 | two texts, the first of seventeen bytes or more and marked: the second sweep recycles a part of its block only |
| RegistryMemory.TerminatorInsideIff | lowcode/source/meta/starid.cpp:170-183 | the terminator behind a copied text stands inside its block iff the length is zero or no multiple of sixteen |
| RegistryMachine.ALAR.constructor | lowcode/source/meta/starid.cpp:5-83 | an empty table over a metadata arena of its own, with 64 bytes a place to start from, in which exactly the blocks of the three arrays are held |
| RegistryMachine.ALAR.GetStarIdOf | lowcode/source/meta/starid.cpp:120-147 | the loop over hash cache and places yields the id of the specified slot, or the broken atom |
| RegistryMachine.ALAR.Staridize | lowcode/source/meta/starid.cpp:149-201 | finding, or filling the first unused place, yields the specified table and id; a new text takes exactly one block for its copy and one for its cell, nothing of the arena is lost; a full table panics |
| RegistryMachine.ALAR.GetRaw | lowcode/source/meta/starid.cpp:203-209 | the text behind an id, recycled memory for a dead one, the empty text beyond the filled part, a read outside the table for the broken atom |
| RegistryMachine.ALAR.LenOf | lowcode/source/meta/starid.cpp:211-217 | the recorded length behind an id, zero beyond the filled part, a read outside the table for the broken atom |
| RegistryMachine.ALAR.SetMarkedAlive | lowcode/include/meta/starid.h:55-61 | the private setter: sets one mark and nothing else |
| RegistryMachine.ALAR.SweepPlaces | lowcode/source/meta/starid.cpp:219-233 | the walk yields the specified table and count and gives back exactly the dead texts' blocks while every cell stays held; the arena loses bytes iff a dying text's recorded length no longer rounds to its block |

## Left out

- Operating system calls, page permissions, commit and decommit, atomics: reservation is assumed to succeed with a page-aligned range apart from all others.
- Panic and warning output: a panic is an absent result; after it nothing more is claimed. The out-of-memory panics of the metadata arena cannot occur under the reservation assumption.
- `PageMachine.PageManager.RequestPageChunk`: asks for at most 2097152 pages; by `PageSpace.FreshSegmentFits` a longer request finds no fit even in a new segment and the recursion would not end. The arena, the metadata arena and the registry ask for at most one segment's bytes for the same reason.
- `PageMachine.PageManager.ReleasePageChunk`: is only called with an outstanding chunk and its page count, so the panic for foreign addresses does not arise.
- `PageMachine.PageManager.constructor`: a new segment's bitmap is clear because the segment is value-initialised; the clearing of memory at the segment's base address (`page_mgr.cpp:22`, `page_mgr.cpp:103`) is not modelled.
- `BuddyMachine.BuddyAllocator.constructor`: takes only sizes for which the start block lies inside its pages, exactly those of `BuddyTheorems.ManagedRegionFits`; pointers are offsets from the pool's base, and the pages behind the pool are not tied to the page manager's model.
- `BuddyMachine.BuddyAllocator.Free`: takes null or a live pointer; headers are one record per block, which is exact under the condition of `BuddyRecords.RunFitsIff`. What is read from a header that a payload has overwritten is not modelled.
- `ArenaMachine.ArenaAllocator.Alloc`: alignments are powers of two, as the rounding mask requires, and sums do not wrap.
- `MetaMachine.MetaArena.Metarecycle`: takes null or a held block with a size that rounds to no more than the block's; the debug walk for double frees would find nothing.
- `ShapeMachine.ShapeArena.constructor`: a second root in one arena starts a graph of its own; the arena then no longer knows the first one's shapes, and nothing is claimed about them.
- `ShapeMachine.ShapeArena.CreateTransition`: the three blocks it may obtain each come with their own reserved range; if the creation panics nothing is claimed about the graph. A property array or a table is a sequence inside the shape record with the address of its block, so in-place writes to array cells appear as new sequences.
- `ShapeMachine.ShapeArena.SweepOrphanedShapes`: the two panics of `forgetShape` for corrupted links do not arise in a well-formed graph.
- `InlineCache.FieldCache.GetField`: the lookup behind a miss is not part of the source; `findPropertyOffset` stands in for it. Of `SweptAddressReturns`, the parent's table must have had the swept child, so that no new table is allocated in between.
- `RegistryMachine.ALAR.constructor`: the memory of the arena's own record, taken from another arena, is not modelled.
- `RegistryMachine.ALAR.Staridize`: the copy of the text is a sequence beside the address of its block; the terminator is not written in the model, `RegistryMemory.TerminatorInsideIff` says when it stays inside the block. A null text is not modelled.
- `RegistryMachine.ALAR.GetRaw`: what recycled memory holds is not modelled.
- `getNewStarId`, which hands out slots without a text.
- `setShapeEpoche`, frozen and hash-table flags: the version is a field only the cache reads.
- The method, global and staridize macros of the inline cache, which rest on functions not shown.
- `TLAB`, `ThreadContext`, `BlockAllocator`, tagged values: thin or simple, they would add only easy members.
- Destructors of page manager, arena and buddy allocator: bulk release with no client afterwards.
- Byte layout of headers, bit fields and strings.
