/** Which alignments the arena and the metadata arena really give. */
module ArenaAlignment {
  import opened Options
  import opened Powers
  import opened PageSpace
  import opened ArenaSpace
  import opened MetaSpace

  // ---- Where an allocation lands ----

  /** The request is served from the current chunk at its offset rounded up, or at the start of a new one. */
  lemma AllocPlace(a: Arena, sp: Space, bytes: nat, k: nat, reserved: nat, a': Arena, sp': Space, ptr: nat)
    requires ArenaSpace.Inv(a, sp) && bytes <= SEGMENT_SIZE && Reservable(sp.segs, reserved)
    requires |sp.segs| > 0 && Alloc(a, sp, bytes, Pow2(k), reserved) == (a', sp', ptr)
    ensures ArenaSpace.Inv(a', sp') && Served(a, sp, a', sp', ptr, bytes, k)
    ensures NeedsChunk(a, bytes, Pow2(k)) ==> |a'.chunks| == |a.chunks| + 1 && ptr == Current(a').data
    ensures !NeedsChunk(a, bytes, Pow2(k)) ==>
      |a'.chunks| == |a.chunks| && Current(a').data == Current(a).data
      && ptr == Current(a).data + AlignForward(Current(a).offset, Pow2(k))
  {
    AllocInv(a, sp, bytes, k, reserved);
    hide ArenaSpace.Inv, Request, Pow2, Aligned, Reservable, Served, AlignForward, NeedsChunk;
    ZeroAligned(k);
    AlignForwardLeast(0, k);
  }

  /** A new chunk is opened iff the request fits the current one at no aligned offset, and it has the fewest
      pages that hold both the request and the default size. */
  lemma AllocSizes(a: Arena, sp: Space, bytes: nat, k: nat, reserved: nat, a': Arena, sp': Space, ptr: nat)
    requires ArenaSpace.Inv(a, sp) && bytes <= SEGMENT_SIZE && Reservable(sp.segs, reserved)
    requires |sp.segs| > 0 && Alloc(a, sp, bytes, Pow2(k), reserved) == (a', sp', ptr)
    ensures |a'.chunks| > |a.chunks| <==>
      (forall at: nat :: Current(a).offset <= at && Aligned(at, k) ==> at + bytes > Current(a).capacity)
    ensures |a'.chunks| > |a.chunks| ==>
      WholePages(Current(a').capacity, if a.defaultSize < bytes then bytes else a.defaultSize)
  {
    AllocPlace(a, sp, bytes, k, reserved, a', sp', ptr);
    RoomIff(a, bytes, k);
    if NeedsChunk(a, bytes, Pow2(k)) {
      var want := if a.defaultSize < bytes then bytes else a.defaultSize;
      assert ChunkBytes(a, bytes) == want;
      hide ArenaSpace.Inv, Pow2, Aligned, Reservable, Served, AlignForward, NeedsChunk, Request, PagesFor, WholePages;
      PagesForLeast(want);
      assert Current(a').capacity == PagesFor(want) * PAGE_SIZE;
    }
  }

  lemma RoomIff(a: Arena, bytes: nat, k: nat)
    requires |a.chunks| > 0
    ensures NeedsChunk(a, bytes, Pow2(k)) <==>
      (forall at: nat :: Current(a).offset <= at && Aligned(at, k) ==> at + bytes > Current(a).capacity)
  {
    hide AlignForward, Pow2, Aligned;
    var x := Current(a).offset;
    var r := AlignForward(x, Pow2(k));
    AlignForwardLeast(x, k);
    forall at: nat | x <= at && Aligned(at, k)
      ensures r <= at
    {
      NextAligned(x, r, at, k);
    }
    LeastDecides(x, r, k, bytes, Current(a).capacity);
  }

  lemma LeastDecides(x: nat, r: nat, k: nat, bytes: nat, capacity: nat)
    requires x <= r && Aligned(r, k) && forall at: nat :: x <= at && Aligned(at, k) ==> r <= at
    ensures r + bytes > capacity <==> (forall at: nat :: x <= at && Aligned(at, k) ==> at + bytes > capacity)
  {
    hide Aligned;
  }

  lemma NextAligned(x: nat, r: nat, at: nat, k: nat)
    requires Aligned(r, k) && Aligned(at, k) && r < x + Pow2(k) && x <= at
    ensures r <= at
  {
    hide Aligned, Pow2;
    if at < r {
      AlignedGap(at, r, k);
    }
  }

  lemma PageAligned(x: nat)
    requires x % PAGE_SIZE == 0
    ensures Aligned(x, 12)
  {
    assert Pow2(4) == 16 && Pow2(8) == 16 * Pow2(4) && Pow2(12) == 16 * Pow2(8);
    MultipleIsAligned(x / PAGE_SIZE, 12);
  }

  lemma AlignedOffset(data: nat, ptr: nat, k: nat)
    requires data <= ptr && Aligned(ptr - data, k) && data % PAGE_SIZE == 0
    ensures Aligned(ptr, k) <==> k <= 12 || Aligned(data, k)
  {
    PageAligned(data);
    hide Aligned;
    if k <= 12 {
      AlignedDown(data, 12, k);
    }
    if Aligned(data, k) {
      AlignedSum(data, ptr - data, k);
    }
    if Aligned(ptr, k) {
      AlignedDifference(ptr, ptr - data, k);
    }
  }

  /** The pointer is aligned as asked iff the alignment is at most a page, or the serving chunk's address
      has it. */
  lemma AllocAlignedIff(a: Arena, sp: Space, bytes: nat, k: nat, reserved: nat, a': Arena, sp': Space, ptr: nat)
    requires ArenaSpace.Inv(a, sp) && bytes <= SEGMENT_SIZE && Reservable(sp.segs, reserved)
    requires |sp.segs| > 0 && Alloc(a, sp, bytes, Pow2(k), reserved) == (a', sp', ptr)
    ensures |a'.chunks| > 0 && (Aligned(ptr, k) <==> k <= 12 || Aligned(Current(a').data, k))
  {
    AllocPlace(a, sp, bytes, k, reserved, a', sp', ptr);
    ChunkAddress(a', sp');
    hide ArenaSpace.Inv, Alloc, Pow2, Aligned, Reservable;
    AlignedOffset(Current(a').data, ptr, k);
  }

  /** A block from a free list has whatever alignment it has, and the request's is not looked at; a carved
      block is aligned as asked iff the alignment is at most a page or the serving chunk's address has it.
      Alignments up to 16 are always given. */
  lemma MetallocAlignedIff(w: World, size: nat, k: nat, reserved: nat, w': World, p: nat)
    requires MetaSpace.Inv(w) && AlignSize(size) <= SEGMENT_SIZE && Reservable(w.space.segs, reserved)
    requires Metalloc(w, size, Pow2(k), reserved) == (w', p)
    ensures |w.meta.free| == NUM_BUCKETS && |w'.arena.chunks| > 0
    ensures k <= 4 ==> Aligned(p, k)
    ensures Reusable(w.meta, size) ==> p == ListFor(w.meta, size)[0]
    ensures !Reusable(w.meta, size) ==> (Aligned(p, k) <==> k <= 12 || Aligned(Current(w'.arena).data, k))
  {
    MetallocInv(w, size, k, reserved, w', p);
    AlignedQuantum(p);
    if k <= 4 {
      AlignedDown(p, 4, k);
    }
    hide MetaSpace.Inv, Alloc, AlignSize, Pow2, Aligned, Reservable;
    Ready(w);
    if !Reusable(w.meta, size) {
      var actual := AlignSize(size);
      var (a, sp, q) := Alloc(w.arena, w.space, actual, Pow2(k), reserved);
      ArenaPart(w);
      AllocAlignedIff(w.arena, w.space, actual, k, reserved, a, sp, q);
    } else {
      ArenaPart(w);
    }
  }

  lemma ArenaPart(w: World)
    requires MetaSpace.Inv(w)
    ensures ArenaSpace.Inv(w.arena, w.space) && |w.arena.chunks| > 0
  {
  }

  /** Two requests that differ only in alignment get the same listed block. */
  lemma ReuseIgnoresAlignment(w: World, size: nat, k: nat, j: nat, reserved: nat)
    requires MetaSpace.Inv(w) && AlignSize(size) <= SEGMENT_SIZE && |w.meta.free| == NUM_BUCKETS && Reusable(w.meta, size)
    ensures |w.arena.chunks| > 0 && |w.space.segs| > 0 && w.arena.defaultSize <= SEGMENT_SIZE
    ensures Metalloc(w, size, Pow2(k), reserved).1 == Metalloc(w, size, Pow2(j), reserved).1
  {
    Ready(w);
    hide MetaSpace.Inv, Alloc, AlignSize, Pow2;
  }

  // ---- Inputs ----

  const RESERVED: nat := PAGE_SIZE + SEGMENT_SIZE

  /** An arena of one page whose first segment was reserved at address 4096. */
  lemma OddPageArena() returns (a: Arena, sp: Space)
    ensures ArenaSpace.Inv(a, sp) && |sp.segs| > 0 && Reservable(sp.segs, RESERVED)
    ensures a == Arena([Chunk(PAGE_SIZE, PAGE_SIZE, 0, 1)], PAGE_SIZE)
  {
    var sp0 := Space([Segment(PAGE_SIZE, {})], map[]);
    FirstSpaceInv(PAGE_SIZE);
    FreshSegmentFits(1);
    RequestInv(sp0, 1, RESERVED);
    sp := Request(sp0, 1, RESERVED).0;
    hide FirstFit, PageSpace.Inv;
    a := Arena([Chunk(PAGE_SIZE, PAGE_SIZE, 0, 1)], PAGE_SIZE);
    assert sp.chunks == map[PAGE_SIZE := 1];
  }

  /** From a chunk on an odd page an 8192-byte alignment is not given. */
  lemma OddPageMisaligned() returns (a: Arena, sp: Space)
    ensures ArenaSpace.Inv(a, sp) && |sp.segs| > 0 && a.defaultSize <= SEGMENT_SIZE
    ensures Alloc(a, sp, 16, Pow2(13), RESERVED).2 == PAGE_SIZE && !Aligned(PAGE_SIZE, 13)
  {
    a, sp := OddPageArena();
    hide ArenaSpace.Inv, Request, Aligned;
    assert Pow2(4) == 16 && Pow2(8) == 16 * Pow2(4) && Pow2(12) == 16 * Pow2(8);
    assert Pow2(13) == 8192;
    hide Pow2;
    if Aligned(PAGE_SIZE, 13) {
      var q := AlignedIsMultiple(PAGE_SIZE, 13);
    }
  }

  /** Recycled and asked for again with any alignment, a block comes back as it is. */
  lemma RecycledAsItIs(w: World, p: nat, size: nat, k: nat, reserved: nat)
    requires MetaSpace.Inv(w) && p in w.meta.blocks && AlignSize(size) <= SEGMENT_SIZE
    requires BucketIndex(AlignSize(size)) < NUM_BUCKETS && !Aligned(p, k)
    ensures |w.meta.free| == NUM_BUCKETS && |w.arena.chunks| > 0 && |w.space.segs| > 0 && w.arena.defaultSize <= SEGMENT_SIZE
    ensures var w' := w.(meta := Metarecycle(w.meta, p, size));
      |w'.meta.free| == NUM_BUCKETS && Metalloc(w', size, Pow2(k), reserved).1 == p && !Aligned(p, k)
  {
    Ready(w);
    PositiveBlock(w, p);
    hide MetaSpace.Inv, Metalloc, Metarecycle, AlignSize, BucketIndex, Aligned, Pow2;
    RecycledComesBack(w, p, size, Pow2(k), reserved);
  }

  /** Two blocks of sixteen bytes from a new metadata arena on that page: the second stands at 4112. */
  lemma SecondBlock() returns (w: World)
    ensures MetaSpace.Inv(w) && Reservable(w.space.segs, RESERVED)
    ensures PAGE_SIZE + 16 in w.meta.blocks && w.meta.blocks[PAGE_SIZE + 16] == Block(16, InUse)
  {
    var a, sp := OddPageArena();
    var w0 := World(Meta(map[], seq(NUM_BUCKETS, _ => [])), a, sp);
    EmptyInv(w0);
    var w1 := SmallBlock(w0);
    w := SmallBlock(w1);
  }

  /** Sixteen more bytes behind those in use, when the page has room and no list has a block. */
  lemma SmallBlock(w: World) returns (w': World)
    requires MetaSpace.Inv(w) && Reservable(w.space.segs, RESERVED) && ListFor(w.meta, 16) == []
    requires |w.arena.chunks| == 1 && w.arena.chunks[0].data == PAGE_SIZE && w.arena.chunks[0].capacity == PAGE_SIZE
    requires w.arena.chunks[0].offset == 0 || w.arena.chunks[0].offset == 16
    ensures MetaSpace.Inv(w') && Reservable(w'.space.segs, RESERVED) && ListFor(w'.meta, 16) == []
    ensures |w'.arena.chunks| == 1 && w'.arena.chunks[0] == w.arena.chunks[0].(offset := w.arena.chunks[0].offset + 16)
    ensures var p := PAGE_SIZE + w.arena.chunks[0].offset; p in w'.meta.blocks && w'.meta.blocks[p] == Block(16, InUse)
  {
    SixteenClass();
    hide MetaSpace.Inv, Reservable, Pow2, AlignSize, BucketIndex, Alloc;
    Ready(w);
    SmallAlloc(w.arena, w.space);
    MetallocCarves(w, 16, 16, RESERVED);
    w' := Metalloc(w, 16, 16, RESERVED).0;
    hide Metalloc;
    MetallocInv(w, 16, 4, RESERVED, w', PAGE_SIZE + w.arena.chunks[0].offset);
  }

  lemma SixteenClass()
    ensures AlignSize(16) == 16 && BucketIndex(16) == 0 && Pow2(4) == 16 && Pow2(5) == 32
  {
    assert Pow2(2) == 4;
  }

  lemma SmallAlloc(a: Arena, sp: Space)
    requires |a.chunks| == 1 && a.chunks[0].data == PAGE_SIZE && a.chunks[0].capacity == PAGE_SIZE
    requires a.chunks[0].offset == 0 || a.chunks[0].offset == 16
    requires |sp.segs| > 0 && a.defaultSize <= SEGMENT_SIZE
    ensures Alloc(a, sp, 16, 16, RESERVED) == (Bump(a, a.chunks[0].offset, 16), sp, PAGE_SIZE + a.chunks[0].offset)
  {
    hide AlignForward, Request, PagesFor;
    SixteenStays();
  }

  lemma SixteenStays()
    ensures AlignForward(0, 16) == 0 && AlignForward(16, 16) == 16
  {
  }

  /** That second block, recycled and asked for again at 32 bytes' alignment, is served as it is. */
  lemma RecycledMisaligned() returns (w: World)
    ensures MetaSpace.Inv(w) && |w.arena.chunks| > 0 && |w.space.segs| > 0 && w.arena.defaultSize <= SEGMENT_SIZE
    ensures |w.meta.free| == NUM_BUCKETS && AlignSize(16) == 16
    ensures Metalloc(w, 16, Pow2(5), RESERVED).1 == PAGE_SIZE + 16 && !Aligned(PAGE_SIZE + 16, 5)
  {
    var v := SecondBlock();
    SixteenClass();
    hide MetaSpace.Inv, Metalloc, AlignSize, BucketIndex, Pow2;
    if Aligned(PAGE_SIZE + 16, 5) {
      var q := AlignedIsMultiple(PAGE_SIZE + 16, 5);
    }
    RecycledAsItIs(v, PAGE_SIZE + 16, 16, 5, RESERVED);
    RecycleInv(v, PAGE_SIZE + 16, 16);
    w := v.(meta := Metarecycle(v.meta, PAGE_SIZE + 16, 16));
  }
}
