/** When every byte the arena has given out still belongs to a block, and what loses some. */
module MetaPacking {
  import opened Powers
  import opened PageSpace
  import opened ArenaSpace
  import opened ArenaAlignment
  import opened MetaSpace

  // ---- Recycling ----

  /** A held block handed back, whole or only its first bytes, keeps the invariant. */
  lemma Shrink(w: World, m': Meta, p: nat, blk: Block)
    requires MetaSpace.Inv(w) && p in w.meta.blocks && ListsExact(m') && m'.blocks == w.meta.blocks[p := blk]
    requires ALIGN_QUANTUM <= blk.size <= w.meta.blocks[p].size && blk.size % ALIGN_QUANTUM == 0
    requires blk.status == Abandoned ==> blk.size > BucketSize(NUM_BUCKETS - 1)
    ensures MetaSpace.Inv(w.(meta := m'))
  {
    hide ArenaSpace.Inv, ListsExact, BucketSize, OffsetsAligned;
    var b, c := w.meta.blocks, m'.blocks;
    forall x, y | x in c && y in c && x != y
      ensures Apart(c, x, y)
    {
      assert Apart(b, x, y);
    }
    forall q | q in c
      ensures BlockOk(w.arena, q, c[q])
    {
      assert BlockOk(w.arena, q, b[q]);
      var i :| 0 <= i < |w.arena.chunks| && Inside(w.arena.chunks, i, q, b[q].size);
      assert Inside(w.arena.chunks, i, q, c[q].size);
    }
  }

  /** What the shrunken block no longer holds nobody holds. */
  lemma ShrinkPacked(w: World, m': Meta, p: nat, blk: Block)
    requires MetaSpace.Inv(w) && p in w.meta.blocks && m'.blocks == w.meta.blocks[p := blk]
    requires ALIGN_QUANTUM <= blk.size <= w.meta.blocks[p].size
    ensures Packed(w.(meta := m')) <==> Packed(w) && blk.size == w.meta.blocks[p].size
  {
    var b, c := w.meta.blocks, m'.blocks;
    var w' := w.(meta := m');
    if blk.size == b[p].size {
      hide MetaSpace.Inv, Held, MetaSpace.AllApart;
      SameSizes(b, c);
      SameSizes(c, b);
    } else {
      var i := BlockPlace(w, p);
      hide MetaSpace.Inv;
      LostByte(b, p, blk);
      hide MetaSpace.AllApart, Held;
      assert Used(w'.arena, i, p + blk.size);
    }
  }

  lemma BlockPlace(w: World, p: nat) returns (i: nat)
    requires MetaSpace.Inv(w) && p in w.meta.blocks
    ensures MetaSpace.AllApart(w.meta.blocks)
    ensures i < |w.arena.chunks| && Inside(w.arena.chunks, i, p, w.meta.blocks[p].size)
  {
    assert BlockOk(w.arena, p, w.meta.blocks[p]);
    i :| 0 <= i < |w.arena.chunks| && Inside(w.arena.chunks, i, p, w.meta.blocks[p].size);
  }

  lemma LostByte(b: map<nat, Block>, p: nat, blk: Block)
    requires MetaSpace.AllApart(b) && p in b && blk.size < b[p].size
    ensures !Held(b[p := blk], p + blk.size)
  {
    var c, x := b[p := blk], p + blk.size;
    forall q
      ensures !Holds(c, q, x)
    {
      assert q in b && q != p ==> Apart(b, q, p);
    }
  }

  /** Recycling with the allocated size or a shorter one: the block leaves the ledger, and the arena stays
      packed iff the size was the allocated one. */
  lemma RecycleShort(w: World, p: nat, size: nat)
    requires MetaSpace.Inv(w) && p in w.meta.blocks && w.meta.blocks[p].status == InUse && AlignSize(size) <= w.meta.blocks[p].size
    ensures |w.meta.free| == NUM_BUCKETS && p > 0
    ensures var w' := w.(meta := Metarecycle(w.meta, p, size));
      && MetaSpace.Inv(w') && Outs(w'.meta.blocks) == Outs(w.meta.blocks) - {p}
      && (Packed(w') <==> Packed(w) && AlignSize(size) == w.meta.blocks[p].size)
  {
    BucketCount(w);
    PositiveBlock(w, p);
    SizeClass(size);
    hide MetaSpace.Inv, Outs, Packed, ListExact, AlignSize, BucketIndex;
    var b := BucketIndex(AlignSize(size));
    var m := Metarecycle(w.meta, p, size);
    Exact(w);
    if b >= NUM_BUCKETS {
      WriteExact(w.meta, p, Block(AlignSize(size), Abandoned));
    } else {
      PushExact(w.meta, b, p);
    }
    hide ListsExact;
    Shrink(w, m, p, m.blocks[p]);
    ShrinkPacked(w, m, p, m.blocks[p]);
    OutsWrite(w.meta.blocks, p, m.blocks[p]);
  }

  lemma Exact(w: World)
    requires MetaSpace.Inv(w)
    ensures ListsExact(w.meta)
  {
  }

  // ---- Serving ----

  /** The request is carved from the current chunk with padding before it. */
  predicate Pads(w: World, size: nat, k: nat)
    requires |w.meta.free| == NUM_BUCKETS && |w.arena.chunks| > 0
  {
    !Reusable(w.meta, size) && !NeedsChunk(w.arena, AlignSize(size), Pow2(k)) && !Aligned(Current(w.arena).offset, k)
  }

  lemma ReusePacked(w: World, size: nat, k: nat, reserved: nat, w': World, p: nat)
    requires MetaSpace.Inv(w) && Reusable(w.meta, size) && AlignSize(size) <= SEGMENT_SIZE
    requires |w.arena.chunks| > 0 && |w.space.segs| > 0 && w.arena.defaultSize <= SEGMENT_SIZE
    requires Metalloc(w, size, Pow2(k), reserved) == (w', p)
    ensures Packed(w') <==> Packed(w)
  {
    hide MetaSpace.Inv, AlignSize, Pow2, Alloc, BucketIndex, Held, MetaSpace.AllApart;
    BucketCount(w);
    ReuseInv(w, size, Pow2(k), reserved, w', p);
    SameSizes(w.meta.blocks, w'.meta.blocks);
    SameSizes(w'.meta.blocks, w.meta.blocks);
  }

  lemma ServedExtends(a: Arena, sp: Space, a': Arena, sp': Space, p: nat, bytes: nat, k: nat)
    requires Served(a, sp, a', sp', p, bytes, k)
    ensures Extends(a, a') && |a.chunks| <= |a'.chunks|
  {
  }

  lemma UsedInside(a: Arena, i: nat, x: nat)
    requires i < |a.chunks|
    ensures Used(a, i, x) <==> Inside(a.chunks, i, x, 1)
  {
  }

  /** Bytes in use stay in use, and a new block takes over none of them. */
  lemma CarveNeverFills(w: World, a: Arena, sp: Space, p: nat, actual: nat, k: nat)
    requires MetaSpace.Inv(w) && ArenaSpace.Inv(a, sp) && Served(w.arena, w.space, a, sp, p, actual, k)
    requires p !in w.meta.blocks && Packed(Carve(w, a, sp, p, actual))
    ensures Packed(w)
  {
    hide MetaSpace.Inv, ArenaSpace.Inv, Served, Inside;
    ServedExtends(w.arena, w.space, a, sp, p, actual, k);
    var c := Carve(w, a, sp, p, actual).meta.blocks;
    forall i, x | 0 <= i < |w.arena.chunks| && Used(w.arena, i, x)
      ensures Held(w.meta.blocks, x)
    {
      UsedInside(w.arena, i, x);
      OldInside(w.arena, a, i, x, 1);
      UsedInside(a, i, x);
      var q :| Holds(c, q, x);
      if q == p {
        NewPlaceFar(w.arena, w.space, a, sp, p, actual, k, i, x, 1);
      } else {
        assert Holds(w.meta.blocks, q, x);
      }
    }
  }

  /** The first byte of the padding is nobody's. */
  lemma PaddingLost(w: World, a: Arena, sp: Space, p: nat, actual: nat, k: nat)
    requires MetaSpace.Inv(w) && ArenaSpace.Inv(a, sp) && Served(w.arena, w.space, a, sp, p, actual, k)
    requires |a.chunks| == |w.arena.chunks| && p > Current(w.arena).data + Current(w.arena).offset
    ensures !Packed(Carve(w, a, sp, p, actual))
  {
    var c := Carve(w, a, sp, p, actual).meta.blocks;
    var n := |a.chunks| - 1;
    var x := w.arena.chunks[n].data + w.arena.chunks[n].offset;
    assert Used(a, n, x);
    if Held(c, x) {
      var q :| Holds(c, q, x);
      assert BlockOk(w.arena, q, w.meta.blocks[q]);
      var i :| 0 <= i < |w.arena.chunks| && Inside(w.arena.chunks, i, q, w.meta.blocks[q].size);
      OldInside(w.arena, a, i, q, w.meta.blocks[q].size);
      if i != n {
        ChunksFar(a, sp, i, n);
      }
    }
  }

  /** A carved block leaves the arena packed iff it was and no padding arises. */
  lemma CarvePacked(w: World, size: nat, k: nat, reserved: nat, w': World, p: nat)
    requires MetaSpace.Inv(w) && !Reusable(w.meta, size) && AlignSize(size) <= SEGMENT_SIZE && Reservable(w.space.segs, reserved)
    requires |w.arena.chunks| > 0 && |w.space.segs| > 0 && w.arena.defaultSize <= SEGMENT_SIZE
    requires Metalloc(w, size, Pow2(k), reserved) == (w', p)
    ensures Packed(w') <==> Packed(w) && !Pads(w, size, k)
  {
    hide MetaSpace.Inv, AlignSize, Pow2, Reservable, Packed, Served, Aligned, AlignForward, NeedsChunk, Reusable, Metalloc;
    var actual := AlignSize(size);
    CarveInv(w, size, k, reserved, w', p);
    ArenaPart(w);
    BucketCount(w);
    MetallocCarves(w, size, Pow2(k), reserved);
    var (a, sp, q) := Alloc(w.arena, w.space, actual, Pow2(k), reserved);
    hide Alloc, ArenaSpace.Inv;
    AllocPlace(w.arena, w.space, actual, k, reserved, a, sp, q);
    var x := Current(w.arena).offset;
    AlignForwardLeast(x, k);
    if Packed(w') {
      CarveNeverFills(w, a, sp, p, actual, k);
      if Pads(w, size, k) {
        PaddingLost(w, a, sp, p, actual, k);
      }
    }
    if Packed(w) && !Pads(w, size, k) {
      CarvedPacked(w, a, sp, p, actual, k);
    }
  }

  /** Serving a request leaves the arena packed iff it was and no padding arises. */
  lemma MetallocPacked(w: World, size: nat, k: nat, reserved: nat, w': World, p: nat)
    requires MetaSpace.Inv(w) && AlignSize(size) <= SEGMENT_SIZE && Reservable(w.space.segs, reserved)
    requires Metalloc(w, size, Pow2(k), reserved) == (w', p)
    ensures |w.meta.free| == NUM_BUCKETS && |w.arena.chunks| > 0
    ensures Packed(w') <==> Packed(w) && !Pads(w, size, k)
  {
    hide MetaSpace.Inv, AlignSize, Pow2, Reservable, Packed, Aligned, AlignForward, NeedsChunk, Reusable, Metalloc;
    Ready(w);
    if Reusable(w.meta, size) {
      ReusePacked(w, size, k, reserved, w', p);
    } else {
      CarvePacked(w, size, k, reserved, w', p);
    }
  }

  /** No padding arises for alignments up to 16. */
  lemma SmallNeverPads(w: World, size: nat, k: nat)
    requires MetaSpace.Inv(w) && k <= 4
    ensures |w.meta.free| == NUM_BUCKETS && |w.arena.chunks| > 0 && !Pads(w, size, k)
  {
    Ready(w);
    var x := Current(w.arena).offset;
    assert x % ALIGN_QUANTUM == 0;
    AlignedQuantum(x);
    AlignedDown(x, 4, k);
  }
}
