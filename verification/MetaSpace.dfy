/** The metadata arena as a value: size-class free lists over the bump arena. */
module MetaSpace {
  import opened Lists
  import opened Powers
  import opened PageSpace
  import opened ArenaSpace

  const ALIGN_QUANTUM: nat := 16
  const NUM_BUCKETS: nat := 128

  datatype Status = InUse | Listed | Abandoned

  datatype Block = Block(size: nat, status: Status)

  /** `blocks` holds every block ever carved from the arena; `free` the recycled ones by size class. */
  datatype Meta = Meta(blocks: map<nat, Block>, free: seq<seq<nat>>)

  datatype World = World(meta: Meta, arena: Arena, space: Space)

  function AlignSize(size: nat): (r: nat)
    ensures r >= size && r >= ALIGN_QUANTUM && r % ALIGN_QUANTUM == 0
    ensures forall s :: s >= size && s >= ALIGN_QUANTUM && s % ALIGN_QUANTUM == 0 ==> r <= s
  {
    var actual := if size < ALIGN_QUANTUM then ALIGN_QUANTUM else size;
    (actual + ALIGN_QUANTUM - 1) / ALIGN_QUANTUM * ALIGN_QUANTUM
  }

  function BucketIndex(alignedSize: nat): nat
    requires alignedSize >= ALIGN_QUANTUM
  {
    alignedSize / ALIGN_QUANTUM - 1
  }

  /** Size of every block in bucket `b`. */
  function BucketSize(b: nat): nat {
    ALIGN_QUANTUM * (b + 1)
  }

  predicate Reusable(m: Meta, size: nat)
    requires |m.free| == NUM_BUCKETS
  {
    var b := BucketIndex(AlignSize(size));
    b < NUM_BUCKETS && m.free[b] != []
  }

  /** The free list that serves blocks of that size. */
  function ListFor(m: Meta, size: nat): seq<nat> {
    var b := BucketIndex(AlignSize(size));
    if b < NUM_BUCKETS && |m.free| == NUM_BUCKETS then m.free[b] else []
  }

  /** Take the head of the size class, or carve a new block. */
  function Metalloc(w: World, size: nat, alignment: nat, reserved: nat): (World, nat)
    requires |w.meta.free| == NUM_BUCKETS && |w.arena.chunks| > 0 && |w.space.segs| > 0 && alignment > 0
    requires AlignSize(size) <= SEGMENT_SIZE && w.arena.defaultSize <= SEGMENT_SIZE
  {
    var actual := AlignSize(size);
    if Reusable(w.meta, size) then
      var b := BucketIndex(actual);
      var p := w.meta.free[b][0];
      (w.(meta := Meta(w.meta.blocks[p := Block(actual, InUse)], w.meta.free[b := w.meta.free[b][1..]])), p)
    else
      var (a, sp, p) := Alloc(w.arena, w.space, actual, alignment, reserved);
      (World(w.meta.(blocks := w.meta.blocks[p := Block(actual, InUse)]), a, sp), p)
  }

  /** Push the block on its size class; blocks too large for any class are given up, null is ignored. */
  function Metarecycle(m: Meta, p: nat, size: nat): Meta
    requires |m.free| == NUM_BUCKETS
  {
    var actual := AlignSize(size);
    var b := BucketIndex(actual);
    if p == 0 then m
    else if b >= NUM_BUCKETS then m.(blocks := m.blocks[p := Block(actual, Abandoned)])
    else Meta(m.blocks[p := Block(actual, Listed)], m.free[b := [p] + m.free[b]])
  }

  // ---- The invariant ----

  predicate Apart(b: map<nat, Block>, p: nat, q: nat)
    requires p in b && q in b
  {
    p + b[p].size <= q || q + b[q].size <= p
  }

  ghost predicate LocatedIn(a: Arena, p: nat, size: nat) {
    exists i :: 0 <= i < |a.chunks| && Inside(a.chunks, i, p, size)
  }

  ghost predicate BlockOk(a: Arena, p: nat, b: Block) {
    && p > 0 && p % ALIGN_QUANTUM == 0 && b.size >= ALIGN_QUANTUM && b.size % ALIGN_QUANTUM == 0
    && LocatedIn(a, p, b.size)
    && (b.status == Abandoned ==> b.size > BucketSize(NUM_BUCKETS - 1))
  }

  ghost predicate AllApart(b: map<nat, Block>) {
    forall p, q :: p in b && q in b && p != q ==> Apart(b, p, q)
  }

  ghost predicate ListExact(m: Meta, b: nat)
    requires b < |m.free|
  {
    && NoDup(m.free[b])
    && forall p :: p in m.free[b] <==> p in m.blocks && m.blocks[p] == Block(BucketSize(b), Listed)
  }

  /** Bucket b holds exactly the recycled blocks of 16(b+1) bytes, each once. */
  ghost predicate ListsExact(m: Meta) {
    |m.free| == NUM_BUCKETS && forall b :: 0 <= b < NUM_BUCKETS ==> ListExact(m, b)
  }

  ghost predicate OffsetsAligned(a: Arena) {
    forall i :: 0 <= i < |a.chunks| ==> a.chunks[i].offset % ALIGN_QUANTUM == 0
  }

  ghost predicate Inv(w: World) {
    && ArenaSpace.Inv(w.arena, w.space) && OffsetsAligned(w.arena)
    && ListsExact(w.meta) && AllApart(w.meta.blocks)
    && forall p :: p in w.meta.blocks ==> BlockOk(w.arena, p, w.meta.blocks[p])
  }

  predicate Holds(b: map<nat, Block>, p: nat, x: nat) {
    p in b && p <= x < p + b[p].size
  }

  ghost predicate Held(b: map<nat, Block>, x: nat) {
    exists p :: Holds(b, p, x)
  }

  predicate Used(a: Arena, i: nat, x: nat)
    requires i < |a.chunks|
  {
    a.chunks[i].data <= x < a.chunks[i].data + a.chunks[i].offset
  }

  /** Nothing is lost: every byte the arena has given out belongs to a block. */
  ghost predicate Packed(w: World) {
    forall i, x :: 0 <= i < |w.arena.chunks| && Used(w.arena, i, x) ==> Held(w.meta.blocks, x)
  }

  /** The blocks a client holds, with their sizes. */
  ghost function Outs(b: map<nat, Block>): map<nat, nat> {
    map p | p in b && b[p].status == InUse :: b[p].size
  }

  // ---- Theorems ----

  lemma AlignedQuantum(x: nat)
    ensures Aligned(x, 4) <==> x % ALIGN_QUANTUM == 0
  {
    assert Aligned(x, 4) <==> x % 2 == 0 && Aligned(x / 2, 3);
    assert Aligned(x / 2, 3) <==> x / 2 % 2 == 0 && Aligned(x / 4, 2);
    assert Aligned(x / 4, 2) <==> x / 4 % 2 == 0 && Aligned(x / 8, 1);
    assert Aligned(x / 8, 1) <==> x / 8 % 2 == 0 && Aligned(x / 16, 0);
    hide Aligned;
    var q, m := x / 16, x % 16;
    assert x == 16 * q + m;
    assert x / 2 == 8 * q + m / 2 && x / 4 == 4 * q + m / 4 && x / 8 == 2 * q + m / 8;
  }

  lemma EmptyInv(w: World)
    requires ArenaSpace.Inv(w.arena, w.space) && |w.arena.chunks| == 1 && Current(w.arena).offset == 0
    requires w.meta == Meta(map[], seq(NUM_BUCKETS, _ => []))
    ensures Inv(w) && Packed(w)
  {
    forall b | 0 <= b < NUM_BUCKETS
      ensures ListExact(w.meta, b)
    {
    }
  }

  lemma SizeClass(size: nat)
    ensures BucketSize(BucketIndex(AlignSize(size))) == AlignSize(size)
    ensures BucketIndex(AlignSize(size)) >= NUM_BUCKETS ==> AlignSize(size) > BucketSize(NUM_BUCKETS - 1)
  {
  }

  function PopBucket(m: Meta, b: nat): Meta
    requires b < |m.free| && m.free[b] != []
  {
    Meta(m.blocks[m.free[b][0] := Block(BucketSize(b), InUse)], m.free[b := m.free[b][1..]])
  }

  lemma PopExact(m: Meta, b: nat)
    requires ListsExact(m) && b < NUM_BUCKETS && m.free[b] != []
    ensures var p := m.free[b][0]; p in m.blocks && m.blocks[p] == Block(BucketSize(b), Listed)
    ensures ListsExact(PopBucket(m, b))
  {
    assert ListExact(m, b);
    var m' := PopBucket(m, b);
    assert m.free[b][0] in m.free[b];
    forall c | 0 <= c < NUM_BUCKETS
      ensures ListExact(m', c)
    {
      assert ListExact(m, c);
      assert c == b ==> m.free[b] == [m.free[b][0]] + m'.free[b];
    }
  }

  function PushBucket(m: Meta, b: nat, p: nat): Meta
    requires b < |m.free|
  {
    Meta(m.blocks[p := Block(BucketSize(b), Listed)], m.free[b := [p] + m.free[b]])
  }

  lemma PushExact(m: Meta, b: nat, p: nat)
    requires ListsExact(m) && b < NUM_BUCKETS && (p in m.blocks ==> m.blocks[p].status != Listed)
    ensures ListsExact(PushBucket(m, b, p))
  {
    var m' := PushBucket(m, b, p);
    forall c | 0 <= c < NUM_BUCKETS
      ensures ListExact(m', c)
    {
      assert ListExact(m, c);
    }
  }

  /** Writing a block that is on no list, before and after. */
  lemma WriteExact(m: Meta, p: nat, blk: Block)
    requires ListsExact(m) && blk.status != Listed && (p in m.blocks ==> m.blocks[p].status != Listed)
    ensures ListsExact(m.(blocks := m.blocks[p := blk]))
  {
    var m' := m.(blocks := m.blocks[p := blk]);
    forall c | 0 <= c < NUM_BUCKETS
      ensures ListExact(m', c)
    {
      assert ListExact(m, c);
    }
  }

  /** A block that changes hands keeps its place: whatever the lists become, the rest of the invariant stands. */
  lemma Restatus(w: World, m': Meta, p: nat, status: Status)
    requires Inv(w) && p in w.meta.blocks && ListsExact(m')
    requires m'.blocks == w.meta.blocks[p := Block(w.meta.blocks[p].size, status)]
    requires status == Abandoned ==> w.meta.blocks[p].size > BucketSize(NUM_BUCKETS - 1)
    ensures Inv(w.(meta := m')) && (Packed(w) ==> Packed(w.(meta := m')))
  {
    hide ArenaSpace.Inv, ListsExact, LocatedIn, BucketSize;
    SameSizes(w.meta.blocks, m'.blocks);
    assert BlockOk(w.arena, p, w.meta.blocks[p]);
    hide AllApart, Held;
  }

  lemma OutsWrite(b: map<nat, Block>, p: nat, blk: Block)
    ensures Outs(b[p := blk]) == if blk.status == InUse then Outs(b)[p := blk.size] else Outs(b) - {p}
  {
  }

  lemma ReusableBucket(m: Meta, size: nat)
    requires |m.free| == NUM_BUCKETS
    ensures BucketIndex(AlignSize(size)) < NUM_BUCKETS && m.free[BucketIndex(AlignSize(size))] != [] <==> Reusable(m, size)
  {
  }

  lemma MetallocReuses(w: World, size: nat, alignment: nat, reserved: nat)
    requires |w.meta.free| == NUM_BUCKETS && |w.arena.chunks| > 0 && |w.space.segs| > 0 && alignment > 0
    requires AlignSize(size) <= SEGMENT_SIZE && w.arena.defaultSize <= SEGMENT_SIZE
    requires Reusable(w.meta, size)
    ensures var b := BucketIndex(AlignSize(size));
      Metalloc(w, size, alignment, reserved) == (w.(meta := PopBucket(w.meta, b)), w.meta.free[b][0])
  {
    SizeClass(size);
  }

  /** A request served from a free list: the block has exactly the size class of the request. */
  lemma ReuseInv(w: World, size: nat, alignment: nat, reserved: nat, w': World, p: nat)
    requires Inv(w) && Reusable(w.meta, size) && AlignSize(size) <= SEGMENT_SIZE && alignment > 0
    requires Metalloc(w, size, alignment, reserved) == (w', p)
    ensures Inv(w') && (Packed(w) ==> Packed(w'))
    ensures p in w.meta.blocks && w.meta.blocks[p] == Block(AlignSize(size), Listed)
    ensures p % ALIGN_QUANTUM == 0 && p > 0
    ensures Outs(w'.meta.blocks) == Outs(w.meta.blocks)[p := AlignSize(size)]
  {
    hide Metalloc, BucketIndex, AlignSize, BucketSize, AllApart, LocatedIn, OffsetsAligned, Outs, Packed, ListExact;
    var b := BucketIndex(AlignSize(size));
    SizeClass(size);
    ReusableBucket(w.meta, size);
    MetallocReuses(w, size, alignment, reserved);
    PopExact(w.meta, b);
    Restatus(w, w'.meta, p, InUse);
    OutsWrite(w.meta.blocks, p, Block(BucketSize(b), InUse));
    hide Inv;
  }

  lemma MetallocCarves(w: World, size: nat, alignment: nat, reserved: nat)
    requires |w.meta.free| == NUM_BUCKETS && |w.arena.chunks| > 0 && |w.space.segs| > 0 && alignment > 0
    requires AlignSize(size) <= SEGMENT_SIZE && w.arena.defaultSize <= SEGMENT_SIZE
    requires !Reusable(w.meta, size)
    ensures var (a, sp, p) := Alloc(w.arena, w.space, AlignSize(size), alignment, reserved);
      Metalloc(w, size, alignment, reserved) == (Carve(w, a, sp, p, AlignSize(size)), p)
  {
  }

  function Carve(w: World, a: Arena, sp: Space, p: nat, actual: nat): World {
    World(w.meta.(blocks := w.meta.blocks[p := Block(actual, InUse)]), a, sp)
  }

  /** A freshly carved block overlaps no other block and is 16-byte aligned, whatever alignment was asked for. */
  lemma CarveInv(w: World, size: nat, k: nat, reserved: nat, w': World, p: nat)
    requires Inv(w) && !Reusable(w.meta, size) && AlignSize(size) <= SEGMENT_SIZE && Reservable(w.space.segs, reserved)
    requires Metalloc(w, size, Pow2(k), reserved) == (w', p)
    ensures Inv(w') && (Packed(w) && k <= 4 ==> Packed(w'))
    ensures p !in w.meta.blocks && p % ALIGN_QUANTUM == 0 && p > 0
    ensures Outs(w'.meta.blocks) == Outs(w.meta.blocks)[p := AlignSize(size)]
  {
    hide Alloc, Metalloc, AlignSize, BucketSize, AllApart, LocatedIn, Outs, Packed, ListExact, Served, Pow2, Reservable, Reusable;
    var actual := AlignSize(size);
    AllocInv(w.arena, w.space, actual, k, reserved);
    MetallocCarves(w, size, Pow2(k), reserved);
    var (a, sp, _) := Alloc(w.arena, w.space, actual, Pow2(k), reserved);
    assert ArenaSpace.Inv(a, sp) && Served(w.arena, w.space, a, sp, p, actual, k);
    assert w' == Carve(w, a, sp, p, actual);
    hide PageSpace.Inv, Outstanding, Sized;
    CarvedPlace(w, a, sp, p, actual, k);
    CarvedFresh(w, a, sp, p, actual, k);
    CarvedInv(w, a, sp, p, actual);
    if Packed(w) && k <= 4 {
      CarvedOffset(w.arena, a, w.space, sp, p, actual, k);
      CarvedPacked(w, a, sp, p, actual, k);
    }
    OutsWrite(w.meta.blocks, p, Block(actual, InUse));
  }

  lemma CarvedPlace(w: World, a: Arena, sp: Space, p: nat, actual: nat, k: nat)
    requires ArenaSpace.Inv(w.arena, w.space) && OffsetsAligned(w.arena)
    requires ArenaSpace.Inv(a, sp) && Served(w.arena, w.space, a, sp, p, actual, k)
    requires actual >= ALIGN_QUANTUM && actual % ALIGN_QUANTUM == 0
    ensures p > 0 && p % ALIGN_QUANTUM == 0 && LocatedIn(a, p, actual) && OffsetsAligned(a)
    ensures forall q, size :: LocatedIn(w.arena, q, size) ==> LocatedIn(a, q, size)
  {
    hide ArenaSpace.Inv, Aligned, Pow2, OffsetsAligned, Extends;
    var n := |a.chunks| - 1;
    ChunkAddress(a, sp);
    CarvedOffset(w.arena, a, w.space, sp, p, actual, k);
    assert Inside(a.chunks, n, p, actual);
    Sixteens(a.chunks[n].data, p - a.chunks[n].data, actual);
    OffsetsKept(w.arena, a);
    LocationsKept(w.arena, a);
  }

  lemma Sixteens(data: nat, d: nat, size: nat)
    requires data % PAGE_SIZE == 0 && d % ALIGN_QUANTUM == 0 && size % ALIGN_QUANTUM == 0
    ensures (data + d) % ALIGN_QUANTUM == 0 && (d + size) % ALIGN_QUANTUM == 0
  {
  }

  lemma OffsetsKept(a: Arena, b: Arena)
    requires Extends(a, b) && |b.chunks| <= |a.chunks| + 1
    requires OffsetsAligned(a) && b.chunks[|b.chunks| - 1].offset % ALIGN_QUANTUM == 0
    requires |b.chunks| > |a.chunks| ==> b.chunks[..|b.chunks| - 1] == a.chunks
    ensures OffsetsAligned(b)
  {
    var m := |a.chunks| - 1;
    forall i | 0 <= i < |b.chunks|
      ensures b.chunks[i].offset % ALIGN_QUANTUM == 0
    {
      assert i < m ==> b.chunks[..m][i] == a.chunks[..m][i];
      assert |b.chunks| > |a.chunks| && i <= m ==> b.chunks[..|b.chunks| - 1][i] == a.chunks[i];
    }
  }

  lemma LocationsKept(a: Arena, b: Arena)
    requires Extends(a, b)
    ensures forall q, size :: LocatedIn(a, q, size) ==> LocatedIn(b, q, size)
  {
    forall q, size | LocatedIn(a, q, size)
      ensures LocatedIn(b, q, size)
    {
      var i :| 0 <= i < |a.chunks| && Inside(a.chunks, i, q, size);
      OldInside(a, b, i, q, size);
    }
  }

  lemma OldInside(a: Arena, b: Arena, i: nat, q: nat, size: nat)
    requires Extends(a, b) && i < |a.chunks| && Inside(a.chunks, i, q, size)
    ensures Inside(b.chunks, i, q, size) && a.chunks[i].data == b.chunks[i].data
  {
    var m := |a.chunks| - 1;
    assert i < m ==> a.chunks[..m][i] == b.chunks[..m][i];
  }

  /** No padding arises for alignments up to 16, and larger powers of two keep multiples of 16. */
  lemma CarvedOffset(a: Arena, b: Arena, sp: Space, sp': Space, p: nat, actual: nat, k: nat)
    requires Served(a, sp, b, sp', p, actual, k) && OffsetsAligned(a)
    ensures var n := |b.chunks| - 1;
      && (p - b.chunks[n].data) % ALIGN_QUANTUM == 0
      && (k <= 4 ==> Flush(a, b, p))
  {
    var n := |b.chunks| - 1;
    var d := p - b.chunks[n].data;
    AlignedQuantum(d);
    if k > 4 {
      AlignedDown(d, k, 4);
    } else if n < |a.chunks| {
      var x := a.chunks[n].offset;
      AlignedQuantum(x);
      AlignedDown(x, 4, k);
      if x < d {
        AlignedGap(x, d, k);
      }
    }
  }

  lemma ChunksFar(a: Arena, sp: Space, i: nat, j: nat)
    requires ArenaSpace.Inv(a, sp) && i < |a.chunks| && j < |a.chunks| && i != j
    ensures a.chunks[i].data + a.chunks[i].capacity <= a.chunks[j].data || a.chunks[j].data + a.chunks[j].capacity <= a.chunks[i].data
    ensures a.chunks[i].offset <= a.chunks[i].capacity && a.chunks[j].offset <= a.chunks[j].capacity
  {
    var c, d := a.chunks[i], a.chunks[j];
    assert c.data in sp.chunks && d.data in sp.chunks && c.data != d.data;
    assert ChunksApart(c.data, sp.chunks[c.data], d.data, sp.chunks[d.data]);
  }

  lemma CarvedFresh(w: World, a: Arena, sp: Space, p: nat, actual: nat, k: nat)
    requires Inv(w) && ArenaSpace.Inv(a, sp) && Served(w.arena, w.space, a, sp, p, actual, k)
    requires actual >= ALIGN_QUANTUM
    ensures p !in w.meta.blocks && forall q :: q in w.meta.blocks ==> p + actual <= q || q + w.meta.blocks[q].size <= p
  {
    forall q | q in w.meta.blocks
      ensures p != q && (p + actual <= q || q + w.meta.blocks[q].size <= p)
    {
      assert BlockOk(w.arena, q, w.meta.blocks[q]);
      var size := w.meta.blocks[q].size;
      var i :| 0 <= i < |w.arena.chunks| && Inside(w.arena.chunks, i, q, size);
      NewPlaceFar(w.arena, w.space, a, sp, p, actual, k, i, q, size);
    }
  }

  lemma NewPlaceFar(a: Arena, sp: Space, b: Arena, sp': Space, p: nat, actual: nat, k: nat, i: nat, q: nat, size: nat)
    requires ArenaSpace.Inv(b, sp') && Served(a, sp, b, sp', p, actual, k)
    requires i < |a.chunks| && Inside(a.chunks, i, q, size)
    ensures p + actual <= q || q + size <= p
  {
    hide ArenaSpace.Inv;
    var n := |b.chunks| - 1;
    OldInside(a, b, i, q, size);
    if i != n {
      ChunksFar(b, sp', i, n);
    }
  }

  lemma CarvedInv(w: World, a: Arena, sp: Space, p: nat, actual: nat)
    requires Inv(w) && ArenaSpace.Inv(a, sp) && OffsetsAligned(a)
    requires p > 0 && p % ALIGN_QUANTUM == 0 && LocatedIn(a, p, actual)
    requires actual >= ALIGN_QUANTUM && actual % ALIGN_QUANTUM == 0
    requires forall q, size :: LocatedIn(w.arena, q, size) ==> LocatedIn(a, q, size)
    requires p !in w.meta.blocks && forall q :: q in w.meta.blocks ==> p + actual <= q || q + w.meta.blocks[q].size <= p
    ensures Inv(Carve(w, a, sp, p, actual))
  {
    hide ArenaSpace.Inv, OffsetsAligned, LocatedIn, ListsExact;
    WriteExact(w.meta, p, Block(actual, InUse));
    var c := Carve(w, a, sp, p, actual).meta.blocks;
    forall x, y | x in c && y in c && x != y
      ensures Apart(c, x, y)
    {
      assert x != p && y != p ==> Apart(w.meta.blocks, x, y);
    }
    forall q | q in c
      ensures BlockOk(a, q, c[q])
    {
      assert q != p ==> BlockOk(w.arena, q, c[q]);
    }
  }

  /** The new block begins right behind what was in use: no padding. */
  predicate Flush(a: Arena, b: Arena, p: nat)
    requires |b.chunks| > 0
  {
    var n := |b.chunks| - 1;
    p == b.chunks[n].data + (if n < |a.chunks| then a.chunks[n].offset else 0)
  }

  lemma CarvedPacked(w: World, a: Arena, sp: Space, p: nat, actual: nat, k: nat)
    requires Inv(w) && ArenaSpace.Inv(a, sp) && Served(w.arena, w.space, a, sp, p, actual, k)
    requires Packed(w) && Flush(w.arena, a, p)
    requires p !in w.meta.blocks
    ensures Packed(Carve(w, a, sp, p, actual))
  {
    var c := Carve(w, a, sp, p, actual).meta.blocks;
    forall i, x | 0 <= i < |a.chunks| && Used(a, i, x)
      ensures Held(c, x)
    {
      CarvedHeld(w, a, sp, p, actual, k, i, x);
    }
  }

  lemma CarvedHeld(w: World, a: Arena, sp: Space, p: nat, actual: nat, k: nat, i: nat, x: nat)
    requires Served(w.arena, w.space, a, sp, p, actual, k)
    requires Packed(w) && Flush(w.arena, a, p) && p !in w.meta.blocks && i < |a.chunks| && Used(a, i, x)
    ensures Held(w.meta.blocks[p := Block(actual, InUse)], x)
  {
    var n := |a.chunks| - 1;
    var c := w.meta.blocks[p := Block(actual, InUse)];
    if i == n && p <= x {
      assert Holds(c, p, x);
    } else {
      assert i < |w.arena.chunks|;
      var m := |w.arena.chunks| - 1;
      assert i < m ==> a.chunks[..m][i] == w.arena.chunks[..m][i];
      assert Used(w.arena, i, x);
      var q :| Holds(w.meta.blocks, q, x);
      assert Holds(c, q, x);
    }
  }

  lemma SameSizes(b: map<nat, Block>, c: map<nat, Block>)
    requires b.Keys == c.Keys && forall p :: p in b ==> b[p].size == c[p].size
    ensures AllApart(b) ==> AllApart(c)
    ensures forall x :: Held(b, x) ==> Held(c, x)
  {
    if AllApart(b) {
      forall p, q | p in c && q in c && p != q
        ensures Apart(c, p, q)
      {
        assert Apart(b, p, q);
      }
    }
    forall x | Held(b, x)
      ensures Held(c, x)
    {
      var p :| Holds(b, p, x);
      assert Holds(c, p, x);
    }
  }

  /** Recycling a block in use with the size it was allocated with. */
  lemma RecycleInv(w: World, p: nat, size: nat)
    requires Inv(w) && p in w.meta.blocks && w.meta.blocks[p] == Block(AlignSize(size), InUse)
    ensures var w' := w.(meta := Metarecycle(w.meta, p, size));
      && Inv(w') && (Packed(w) ==> Packed(w'))
      && Outs(w'.meta.blocks) == Outs(w.meta.blocks) - {p}
  {
    hide AllApart, LocatedIn, Outs, Packed, ListExact, OffsetsAligned, AlignSize, BucketIndex;
    var b := BucketIndex(AlignSize(size));
    var m := Metarecycle(w.meta, p, size);
    SizeClass(size);
    PositiveBlock(w, p);
    if b >= NUM_BUCKETS {
      WriteExact(w.meta, p, Block(AlignSize(size), Abandoned));
      Restatus(w, m, p, Abandoned);
    } else {
      PushExact(w.meta, b, p);
      Restatus(w, m, p, Listed);
    }
    OutsWrite(w.meta.blocks, p, m.blocks[p]);
  }

  lemma PositiveBlock(w: World, p: nat)
    requires Inv(w) && p in w.meta.blocks
    ensures p > 0
  {
    assert BlockOk(w.arena, p, w.meta.blocks[p]);
  }

  /** Both ways of serving a request: the pointer was not in anybody's hands, is 16-byte aligned, and
      stands for exactly the rounded size. */
  lemma MetallocInv(w: World, size: nat, k: nat, reserved: nat, w': World, p: nat)
    requires Inv(w) && AlignSize(size) <= SEGMENT_SIZE && Reservable(w.space.segs, reserved)
    requires Metalloc(w, size, Pow2(k), reserved) == (w', p)
    ensures Inv(w') && (Packed(w) && k <= 4 ==> Packed(w'))
    ensures p !in Outs(w.meta.blocks) && p % ALIGN_QUANTUM == 0 && p > 0
    ensures Outs(w'.meta.blocks) == Outs(w.meta.blocks)[p := AlignSize(size)]
    ensures p in w'.meta.blocks && w'.meta.blocks[p] == Block(AlignSize(size), InUse)
  {
    hide Inv, Metalloc, AlignSize, Packed, Pow2, Reservable;
    BucketCount(w);
    if Reusable(w.meta, size) {
      ReuseInv(w, size, Pow2(k), reserved, w', p);
    } else {
      CarveInv(w, size, k, reserved, w', p);
    }
    assert p in Outs(w'.meta.blocks) && Outs(w'.meta.blocks)[p] == AlignSize(size);
  }

  /** Free lists are stacks: a recycled block is the next one handed out in its class. */
  lemma RecycledComesBack(w: World, p: nat, size: nat, alignment: nat, reserved: nat)
    requires |w.meta.free| == NUM_BUCKETS && |w.arena.chunks| > 0 && |w.space.segs| > 0 && alignment > 0
    requires AlignSize(size) <= SEGMENT_SIZE && w.arena.defaultSize <= SEGMENT_SIZE
    requires p != 0 && BucketIndex(AlignSize(size)) < NUM_BUCKETS
    ensures ListFor(Metarecycle(w.meta, p, size), size) == [p] + ListFor(w.meta, size)
    ensures var w' := w.(meta := Metarecycle(w.meta, p, size));
      |w'.meta.free| == NUM_BUCKETS && Metalloc(w', size, alignment, reserved).1 == p
  {
    hide AlignSize, BucketIndex;
  }

  /** A recycled block of up to 2048 bytes is the next one served in its class; a larger one is given up. */
  lemma ListedUpTo2048(w: World, p: nat, size: nat, alignment: nat, reserved: nat)
    requires |w.meta.free| == NUM_BUCKETS && |w.arena.chunks| > 0 && |w.space.segs| > 0 && alignment > 0
    requires AlignSize(size) <= SEGMENT_SIZE && w.arena.defaultSize <= SEGMENT_SIZE && p != 0
    ensures var w' := w.(meta := Metarecycle(w.meta, p, size));
      && |w'.meta.free| == NUM_BUCKETS
      && (size <= 2048 ==> Metalloc(w', size, alignment, reserved).1 == p)
      && (size > 2048 ==> w'.meta.free == w.meta.free && !Reusable(w'.meta, size))
  {
    ClassesTo2048(size);
    hide AlignSize, BucketIndex, Alloc;
    if size <= 2048 {
      RecycledComesBack(w, p, size, alignment, reserved);
    }
  }

  lemma ClassesTo2048(size: nat)
    ensures BucketIndex(AlignSize(size)) < NUM_BUCKETS <==> size <= 2048
  {
  }

  lemma ServedFromList(w: World, size: nat, alignment: nat, reserved: nat)
    requires |w.meta.free| == NUM_BUCKETS && |w.arena.chunks| > 0 && |w.space.segs| > 0 && alignment > 0
    requires AlignSize(size) <= SEGMENT_SIZE && w.arena.defaultSize <= SEGMENT_SIZE
    ensures ListFor(w.meta, size) != [] ==> Metalloc(w, size, alignment, reserved).1 == ListFor(w.meta, size)[0]
  {
    hide AlignSize, BucketIndex, Alloc;
  }

  lemma HeldInUse(b: map<nat, Block>, p: nat)
    ensures p in Outs(b) <==> p in b && b[p].status == InUse
    ensures p in Outs(b) ==> b[p] == Block(Outs(b)[p], InUse)
  {
  }

  lemma Ready(w: World)
    requires Inv(w)
    ensures |w.meta.free| == NUM_BUCKETS && |w.arena.chunks| > 0 && |w.space.segs| > 0
    ensures w.arena.defaultSize <= SEGMENT_SIZE
  {
  }

  lemma BucketCount(w: World)
    requires Inv(w)
    ensures |w.meta.free| == NUM_BUCKETS
  {
  }

  /** Blocks in anybody's hands or on a list never overlap, and nobody's block is on a list. */
  lemma Disjoint(w: World, p: nat, q: nat, b: nat)
    requires Inv(w) && p in Outs(w.meta.blocks) && b < NUM_BUCKETS && q in w.meta.free[b]
    ensures p != q && q !in Outs(w.meta.blocks)
    ensures p + Outs(w.meta.blocks)[p] <= q || q + BucketSize(b) <= p
  {
    assert ListExact(w.meta, b);
    assert Apart(w.meta.blocks, p, q);
  }
}
