/** The metadata arena as it runs: list heads, list links written into recycled blocks, and the bump arena. */
module MetaMachine {
  import opened Powers
  import opened PageSpace
  import opened ArenaSpace
  import opened MetaSpace
  import opened MetaPacking
  import opened Ledger
  import PageMachine
  import ArenaMachine

  /** `l` is the list of blocks threaded from `head`; address 0 is null. */
  ghost predicate Chained(links: map<nat, nat>, head: nat, l: seq<nat>)
    decreases l
  {
    if l == [] then head == 0
    else head == l[0] && head != 0 && head in links && Chained(links, links[head], l[1..])
  }

  lemma {:induction false} ChainedFrame(links: map<nat, nat>, more: map<nat, nat>, head: nat, l: seq<nat>)
    requires Chained(links, head, l)
    requires forall x :: x in l && x in links ==> x in more && more[x] == links[x]
    ensures Chained(more, head, l)
    decreases l
  {
    if l != [] {
      ChainedFrame(links, more, links[head], l[1..]);
    }
  }

  ghost predicate AllChained(links: map<nat, nat>, heads: seq<nat>, free: seq<seq<nat>>) {
    |heads| == |free| == NUM_BUCKETS && forall b :: 0 <= b < NUM_BUCKETS ==> Chained(links, heads[b], free[b])
  }

  lemma ChainedPop(links: map<nat, nat>, heads: seq<nat>, m: Meta, b: nat)
    requires AllChained(links, heads, m.free) && b < NUM_BUCKETS
    ensures heads[b] != 0 <==> m.free[b] != []
    ensures m.free[b] != [] ==> heads[b] == m.free[b][0] && heads[b] in links
    ensures m.free[b] != [] ==> AllChained(links, heads[b := links[heads[b]]], m.free[b := m.free[b][1..]])
  {
    assert Chained(links, heads[b], m.free[b]);
  }

  lemma ChainedPush(links: map<nat, nat>, heads: seq<nat>, m: Meta, b: nat, p: nat)
    requires AllChained(links, heads, m.free) && b < NUM_BUCKETS && p != 0
    requires forall c :: 0 <= c < NUM_BUCKETS ==> p !in m.free[c]
    ensures AllChained(links[p := heads[b]], heads[b := p], m.free[b := [p] + m.free[b]])
  {
    var more, free := links[p := heads[b]], m.free[b := [p] + m.free[b]];
    forall c | 0 <= c < NUM_BUCKETS
      ensures Chained(more, heads[b := p][c], free[c])
    {
      assert p !in m.free[c];
      ChainedFrame(links, more, heads[c], m.free[c]);
      assert c == b ==> free[c][1..] == m.free[c];
    }
  }

  lemma InUseUnlisted(w: World, p: nat)
    requires MetaSpace.Inv(w) && p in w.meta.blocks && w.meta.blocks[p].status == InUse
    ensures forall c :: 0 <= c < NUM_BUCKETS ==> p !in w.meta.free[c]
  {
    forall c | 0 <= c < NUM_BUCKETS
      ensures p !in w.meta.free[c]
    {
      assert ListExact(w.meta, c);
    }
  }

  lemma HeadCount(links: map<nat, nat>, heads: seq<nat>, m: Meta)
    requires AllChained(links, heads, m.free)
    ensures |heads| == |m.free| == NUM_BUCKETS
  {
  }

  lemma MetallocUnfold(w: World, size: nat, alignment: nat, reserved: nat)
    requires MetaSpace.Inv(w) && AlignSize(size) <= SEGMENT_SIZE && alignment > 0
    ensures |w.meta.free| == NUM_BUCKETS && |w.arena.chunks| > 0 && |w.space.segs| > 0
    ensures w.arena.defaultSize <= SEGMENT_SIZE
    ensures var b := BucketIndex(AlignSize(size));
      if b < NUM_BUCKETS && w.meta.free[b] != [] then
        MetaSpace.Metalloc(w, size, alignment, reserved) == (w.(meta := PopBucket(w.meta, b)), w.meta.free[b][0])
      else
        var (a, sp, p) := Alloc(w.arena, w.space, AlignSize(size), alignment, reserved);
        MetaSpace.Metalloc(w, size, alignment, reserved) == (Carve(w, a, sp, p, AlignSize(size)), p)
  {
    hide AlignSize, Alloc;
    ReusableBucket(w.meta, size);
    if Reusable(w.meta, size) {
      MetallocReuses(w, size, alignment, reserved);
    } else {
      MetallocCarves(w, size, alignment, reserved);
    }
  }

  lemma RecycleNull(m: Meta, size: nat)
    requires |m.free| == NUM_BUCKETS
    ensures MetaSpace.Metarecycle(m, 0, size) == m
  {
  }

  lemma RecycleUnfold(w: World, p: nat, size: nat)
    requires MetaSpace.Inv(w) && p != 0
    ensures |w.meta.free| == NUM_BUCKETS
    ensures var b := BucketIndex(AlignSize(size));
      MetaSpace.Metarecycle(w.meta, p, size) ==
        if b >= NUM_BUCKETS then w.meta.(blocks := w.meta.blocks[p := Block(AlignSize(size), Abandoned)])
        else PushBucket(w.meta, b, p)
  {
    SizeClass(size);
  }

  lemma MetallocKeeps(w: World, size: nat, k: nat, reserved: nat)
    requires MetaSpace.Inv(w) && AlignSize(size) <= SEGMENT_SIZE && Reservable(w.space.segs, reserved)
    ensures MetaSpace.Inv(MetaSpace.Metalloc(w, size, Pow2(k), reserved).0)
  {
    var (w', p) := MetaSpace.Metalloc(w, size, Pow2(k), reserved);
    MetallocInv(w, size, k, reserved, w', p);
  }

  class MetaArena {
    const arena: ArenaMachine.ArenaAllocator
    const freeListHead: array<nat>
    var lastAllocatedShape: nat
    var links: map<nat, nat>
    ghost var meta: Meta
    ghost var Repr: set<object>

    ghost function World(): World
      reads this, arena, arena.pm
    {
      MetaSpace.World(meta, arena.arena, arena.pm.space)
    }

    ghost predicate Valid()
      reads this, Repr
      ensures Valid() ==> this in Repr && arena in Repr && arena.pm in Repr && freeListHead in Repr && MetaSpace.Inv(World())
    {
      && this in Repr && arena in Repr && freeListHead in Repr && arena.Repr <= Repr
      && this !in arena.Repr && freeListHead !in arena.Repr
      && arena.Valid()
      && AllChained(links, freeListHead[..], meta.free)
      && MetaSpace.Inv(World())
    }

    constructor (size: nat, pm: PageMachine.PageManager, reserved: nat)
      requires pm.Valid() && size <= SEGMENT_SIZE && Reservable(pm.space.segs, reserved)
      modifies pm.Repr
      ensures Valid() && fresh(Repr - old(pm.Repr)) && lastAllocatedShape == 0
      ensures meta == Meta(map[], seq(NUM_BUCKETS, _ => [])) && Packed(World())
      ensures arena.defaultSize == size && arena.pm == pm
      ensures forall t :: old(Reservable(pm.space.segs, t)) && RangesApart(reserved, t) ==> Reservable(pm.space.segs, t)
    {
      hide RangesApart, Request, PagesFor;
      hide PageMachine.PageManager.Valid, PageSpace.Inv, Reservable, MetaSpace.Inv, Packed;
      ghost var sp := pm.space;
      arena := new ArenaMachine.ArenaAllocator(size, pm, reserved);
      forall t | Reservable(sp.segs, t) && RangesApart(reserved, t)
        ensures Reservable(pm.space.segs, t)
      {
        RequestBases(sp, PagesFor(size), reserved, t);
      }
      freeListHead := new nat[NUM_BUCKETS](_ => 0);
      lastAllocatedShape := 0;
      links := map[];
      meta := Meta(map[], seq(NUM_BUCKETS, _ => []));
      new;
      Repr := {this, freeListHead} + arena.Repr;
      EmptyInv(World());
    }

    method Metalloc(size: nat, alignment: nat, reserved: nat, ghost k: nat) returns (ptr: nat)
      requires Valid() && AlignSize(size) <= SEGMENT_SIZE && alignment == Pow2(k)
      requires Reservable(arena.pm.space.segs, reserved)
      modifies Repr
      ensures Valid() && fresh(Repr - old(Repr)) && lastAllocatedShape == old(lastAllocatedShape)
      ensures (World(), ptr) == MetaSpace.Metalloc(old(World()), size, alignment, reserved)
    {
      hide MetaSpace.Inv, ArenaMachine.ArenaAllocator.Valid, MetaSpace.Metalloc, AllChained, Pow2, Reservable, AlignSize, Packed;
      MetallocUnfold(World(), size, alignment, reserved);
      MetallocKeeps(World(), size, k, reserved);
      var actualSize := AlignSize(size);
      var bucketIdx := BucketIndex(actualSize);
      if bucketIdx < NUM_BUCKETS {
        ChainedPop(links, freeListHead[..], meta, bucketIdx);
      }
      HeadCount(links, freeListHead[..], meta);
      if bucketIdx < NUM_BUCKETS && freeListHead[bucketIdx] != 0 {
        ghost var heads := freeListHead[..];
        ptr := freeListHead[bucketIdx];
        freeListHead[bucketIdx] := links[ptr];
        assert freeListHead[..] == heads[bucketIdx := links[ptr]];
        meta := PopBucket(meta, bucketIdx);
      } else {
        ptr := arena.Alloc(actualSize, alignment, reserved, k);
        Repr := Repr + arena.Repr;
        meta := meta.(blocks := meta.blocks[ptr := Block(actualSize, InUse)]);
      }
    }

    method Metarecycle(ptr: nat, size: nat)
      requires Valid()
      requires ptr != 0 ==> ptr in meta.blocks && meta.blocks[ptr].status == InUse && AlignSize(size) <= meta.blocks[ptr].size
      modifies this, freeListHead
      ensures Valid() && Repr == old(Repr) && lastAllocatedShape == old(lastAllocatedShape)
      ensures World() == old(World()).(meta := MetaSpace.Metarecycle(old(meta), ptr, size))
    {
      hide MetaSpace.Inv, ArenaMachine.ArenaAllocator.Valid, AllChained, AlignSize, BucketSize, MetaSpace.Metarecycle, Outs, Packed;
      HeadCount(links, freeListHead[..], meta);
      if ptr == 0 {
        RecycleNull(meta, size);
        return;
      }
      RecycleShort(World(), ptr, size);
      RecycleUnfold(World(), ptr, size);
      InUseUnlisted(World(), ptr);
      SizeClass(size);
      var actualSize := AlignSize(size);
      var bucketIdx := BucketIndex(actualSize);
      if bucketIdx >= NUM_BUCKETS {
        meta := meta.(blocks := meta.blocks[ptr := Block(actualSize, Abandoned)]);
        return;
      }
      ChainedPush(links, freeListHead[..], meta, bucketIdx, ptr);
      ghost var heads := freeListHead[..];
      links := links[ptr := freeListHead[bucketIdx]];
      freeListHead[bucketIdx] := ptr;
      assert freeListHead[..] == heads[bucketIdx := ptr];
      meta := PushBucket(meta, bucketIdx, ptr);
    }

    method SetLastAllocatedShape(last: nat)
      requires Valid()
      modifies this
      ensures Valid() && lastAllocatedShape == last && Repr == old(Repr) && World() == old(World())
    {
      hide MetaSpace.Inv, ArenaMachine.ArenaAllocator.Valid, AllChained;
      lastAllocatedShape := last;
    }
  }
}
