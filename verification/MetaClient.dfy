/** The metadata arena as its clients see it: blocks that they hold, and nothing lost. */
module MetaClient {
  import opened Powers
  import PageSpace
  import MetaSpace
  import MetaPacking
  import MetaMachine
  import opened Ledger

  /** The blocks in use, with their sizes. */
  ghost function OutsOf(arena: MetaMachine.MetaArena): map<nat, nat>
    reads arena
  {
    MetaSpace.Outs(arena.meta.blocks)
  }

  ghost function SegsOf(arena: MetaMachine.MetaArena): seq<PageSpace.Segment>
    reads arena, arena.arena, arena.arena.pm
  {
    arena.arena.pm.space.segs
  }

  /** Every byte the arena has given out belongs to a block. */
  ghost predicate Whole(arena: MetaMachine.MetaArena)
    reads arena, arena.arena, arena.arena.pm
  {
    MetaSpace.Packed(arena.World())
  }

  /** A block that nobody holds: the head of its free list, if there is one. */
  method Acquire(arena: MetaMachine.MetaArena, size: nat, alignment: nat, reserved: nat, ghost k: nat) returns (ptr: nat)
    requires arena.Valid() && MetaSpace.AlignSize(size) <= PageSpace.SEGMENT_SIZE && alignment == Pow2(k) && k <= 4
    requires PageSpace.Reservable(SegsOf(arena), reserved)
    modifies arena.Repr
    ensures arena.Valid() && fresh(arena.Repr - old(arena.Repr)) && arena.lastAllocatedShape == old(arena.lastAllocatedShape)
    ensures ptr != 0 && ptr !in old(OutsOf(arena)) && OutsOf(arena) == old(OutsOf(arena))[ptr := MetaSpace.AlignSize(size)]
    ensures var l := old(MetaSpace.ListFor(arena.meta, size)); l != [] ==> ptr == l[0]
    ensures Whole(arena) == old(Whole(arena))
    ensures forall t :: old(PageSpace.Reservable(SegsOf(arena), t)) && RangesApart(reserved, t) ==> PageSpace.Reservable(SegsOf(arena), t)
  {
    hide MetaMachine.MetaArena.Valid, MetaSpace.Packed, MetaSpace.Inv, MetaSpace.Metalloc, MetaSpace.Outs, MetaSpace.AlignSize;
    hide PageSpace.Reservable, Pow2, RangesApart, MetaSpace.ListFor, MetaPacking.Pads;
    ghost var w := arena.World();
    MetaSpace.Ready(w);
    MetaSpace.ServedFromList(w, size, alignment, reserved);
    ptr := arena.Metalloc(size, alignment, reserved, k);
    MetaSpace.MetallocInv(w, size, k, reserved, arena.World(), ptr);
    MetaPacking.MetallocPacked(w, size, k, reserved, arena.World(), ptr);
    MetaPacking.SmallNeverPads(w, size, k);
    forall t | PageSpace.Reservable(w.space.segs, t) && RangesApart(reserved, t)
      ensures PageSpace.Reservable(arena.World().space.segs, t)
    {
      MetallocBases(w, size, alignment, reserved, t);
    }
  }

  /** A held block handed back with a size: nothing is lost iff it is the size it was allocated with. */
  method GiveBack(arena: MetaMachine.MetaArena, ptr: nat, size: nat)
    requires arena.Valid() && ptr in OutsOf(arena) && MetaSpace.AlignSize(size) <= OutsOf(arena)[ptr]
    modifies arena, arena.freeListHead
    ensures arena.Valid() && arena.Repr == old(arena.Repr) && arena.lastAllocatedShape == old(arena.lastAllocatedShape)
    ensures OutsOf(arena) == old(OutsOf(arena)) - {ptr} && SegsOf(arena) == old(SegsOf(arena))
    ensures Whole(arena) <==> old(Whole(arena)) && MetaSpace.AlignSize(size) == old(OutsOf(arena))[ptr]
    ensures MetaSpace.BucketIndex(MetaSpace.AlignSize(size)) < MetaSpace.NUM_BUCKETS ==>
      MetaSpace.ListFor(arena.meta, size) == [ptr] + old(MetaSpace.ListFor(arena.meta, size))
  {
    hide MetaMachine.MetaArena.Valid, MetaSpace.Packed, MetaSpace.Inv, MetaSpace.Metarecycle, MetaSpace.AlignSize;
    hide MetaSpace.ListFor, MetaSpace.BucketIndex;
    MetaSpace.HeldInUse(arena.meta.blocks, ptr);
    Returned(arena.World(), ptr, size);
    MetaPacking.RecycleShort(arena.World(), ptr, size);
    hide MetaSpace.Outs;
    arena.Metarecycle(ptr, size);
  }

  lemma Returned(w: MetaSpace.World, p: nat, size: nat)
    requires MetaSpace.Inv(w) && p in w.meta.blocks
    ensures |w.meta.free| == MetaSpace.NUM_BUCKETS
    ensures MetaSpace.BucketIndex(MetaSpace.AlignSize(size)) < MetaSpace.NUM_BUCKETS ==>
      MetaSpace.ListFor(MetaSpace.Metarecycle(w.meta, p, size), size) == [p] + MetaSpace.ListFor(w.meta, size)
  {
    MetaSpace.PositiveBlock(w, p);
    MetaSpace.BucketCount(w);
    hide MetaSpace.Inv, MetaSpace.AlignSize, MetaSpace.BucketIndex;
  }
}
