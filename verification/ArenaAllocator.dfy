/** The bump arena as it runs: a linked list of chunk objects over the page manager. */
module ArenaMachine {
  import opened Options
  import opened Powers
  import opened PageSpace
  import opened ArenaSpace
  import opened ArenaAlignment
  import PageMachine

  class ChunkNode {
    const data: nat
    const capacity: nat
    const pages: nat
    var offset: nat
    var next: ChunkNode?

    /** A chunk of `pages` pages whose address the page manager has just handed out. */
    constructor (data: nat, pages: nat)
      ensures this.data == data && this.pages == pages && capacity == pages * PAGE_SIZE
      ensures offset == 0 && next == null
    {
      this.data := data;
      this.pages := pages;
      capacity := pages * PAGE_SIZE;
      offset := 0;
      next := null;
    }

    function Value(): Chunk
      reads this
    {
      Chunk(data, capacity, offset, pages)
    }
  }

  lemma AllocUnfold(a: Arena, sp: Space, bytes: nat, k: nat, reserved: nat)
    requires ArenaSpace.Inv(a, sp) && bytes <= SEGMENT_SIZE && Reservable(sp.segs, reserved)
    ensures var want := ChunkBytes(a, bytes);
      PagesFor(want) <= CAGE_PAGES
      && var (sp', r) := Request(sp, PagesFor(want), reserved);
      var at := AlignForward(Current(a).offset, Pow2(k));
      r.Some? && AlignForward(0, Pow2(k)) == 0 && bytes <= Current(Grow(a, r.value, want)).capacity
      && Current(a).offset <= at
      && ArenaSpace.Alloc(a, sp, bytes, Pow2(k), reserved) ==
        if at + bytes > Current(a).capacity then (Bump(Grow(a, r.value, want), 0, bytes), sp', r.value)
        else (Bump(a, at, bytes), sp, Current(a).data + at)
  {
    hide PagesFor, Request, Pow2, Aligned, AlignForward, PageSpace.Inv, Reservable, ArenaSpace.Alloc;
    HasSegment(sp);
    var want := ChunkBytes(a, bytes);
    GrowInv(a, sp, want, reserved);
    PagesForBounds(want);
    ZeroAligned(k);
    AlignForwardLeast(0, k);
    AlignForwardLeast(Current(a).offset, k);
    if NeedsChunk(a, bytes, Pow2(k)) {
      AllocGrown(a, sp, bytes, k, reserved);
    } else {
      AllocInPlace(a, sp, bytes, k, reserved);
    }
  }

  lemma AllocInPlace(a: Arena, sp: Space, bytes: nat, k: nat, reserved: nat)
    requires |a.chunks| > 0 && |sp.segs| > 0 && bytes <= SEGMENT_SIZE && a.defaultSize <= SEGMENT_SIZE
    requires !NeedsChunk(a, bytes, Pow2(k))
    ensures var at := AlignForward(Current(a).offset, Pow2(k));
      ArenaSpace.Alloc(a, sp, bytes, Pow2(k), reserved) == (Bump(a, at, bytes), sp, Current(a).data + at)
  {
  }

  ghost predicate ChainAt(tail: seq<ChunkNode>, chunks: seq<Chunk>, j: nat)
    requires j < |tail| && |tail| == |chunks|
    reads tail
  {
    tail[j].Value() == chunks[j] && tail[j].next == (if j + 1 < |tail| then tail[j + 1] else null)
  }

  /** `tail` is a null-terminated list of the given chunks, away from the page manager's objects. */
  ghost predicate Chain(tail: seq<ChunkNode>, chunks: seq<Chunk>, apart: set<object>)
    reads tail
  {
    |tail| == |chunks| && forall j :: 0 <= j < |tail| ==> tail[j] !in apart && ChainAt(tail, chunks, j)
  }

  lemma ReleaseUnfold(sp: Space, chunks: seq<Chunk>)
    requires PageSpace.Inv(sp) && Outstanding(chunks, sp) && chunks != []
    ensures SegmentOf(sp.segs, chunks[0].data) < |sp.segs|
    ensures var r := Release(sp, chunks[0].data, chunks[0].pages);
      && PageSpace.Inv(r) && Outstanding(chunks[1..], r)
      && ReleaseAll(sp, chunks) == ReleaseAll(r, chunks[1..])
  {
    ReleaseFirst(sp, chunks);
  }

  /** Releasing pages does not move segments. */
  lemma {:induction false} ReleaseKeepsRange(sp: Space, chunks: seq<Chunk>, reserved: nat)
    requires PageSpace.Inv(sp) && Outstanding(chunks, sp) && Reservable(sp.segs, reserved)
    ensures Reservable(ReleaseAll(sp, chunks).segs, reserved)
    decreases chunks
  {
    if chunks != [] {
      ReleaseFirst(sp, chunks);
      var r := Release(sp, chunks[0].data, chunks[0].pages);
      assert Reservable(r.segs, reserved) by {
        forall i | 0 <= i < |r.segs|
          ensures SegmentsApart(r.segs[i], Segment(reserved, {}))
        {
          assert SegmentsApart(sp.segs[i], Segment(reserved, {}));
        }
      }
      ReleaseKeepsRange(r, chunks[1..], reserved);
    }
  }

  lemma ReleaseNone(sp: Space)
    requires PageSpace.Inv(sp)
    ensures Outstanding([], sp) && ReleaseAll(sp, []) == sp
  {
  }

  class ArenaAllocator {
    var head: ChunkNode
    var current: ChunkNode
    const defaultSize: nat
    const pm: PageMachine.PageManager
    ghost var nodes: seq<ChunkNode>
    ghost var arena: Arena
    ghost var Repr: set<object>

    ghost predicate NodeAt(i: nat)
      requires i < |nodes| && i < |arena.chunks|
      reads this, nodes
    {
      && nodes[i].Value() == arena.chunks[i]
      && nodes[i].next == (if i + 1 < |nodes| then nodes[i + 1] else null)
    }

    /** The list structure, apart from the page manager. */
    ghost predicate Listed()
      reads this, nodes
    {
      && |nodes| == |arena.chunks| > 0 && head == nodes[0] && current == nodes[|nodes| - 1]
      && (forall i, j :: 0 <= i < j < |nodes| ==> nodes[i] != nodes[j])
      && (forall i :: 0 <= i < |nodes| ==> NodeAt(i))
      && arena.defaultSize == defaultSize
    }

    ghost predicate Valid()
      reads this, Repr
    {
      && this in Repr && pm in Repr && pm.Repr <= Repr && this !in pm.Repr
      && (forall c :: c in nodes ==> c in Repr && c !in pm.Repr)
      && pm.Valid() && Listed()
      && ArenaSpace.Inv(arena, pm.space)
    }

    constructor (defaultChunkSize: nat, pm: PageMachine.PageManager, reserved: nat)
      requires pm.Valid() && defaultChunkSize <= SEGMENT_SIZE && Reservable(pm.space.segs, reserved)
      modifies pm.Repr
      ensures Valid() && this.pm == pm && fresh(Repr - old(pm.Repr)) && defaultSize == defaultChunkSize
      ensures Others(arena, pm.space) == old(pm.space.chunks)
      ensures PagesFor(defaultChunkSize) <= CAGE_PAGES && |old(pm.space.segs)| > 0
      ensures pm.space == Request(old(pm.space), PagesFor(defaultChunkSize), reserved).0
      ensures |arena.chunks| == 1 && Current(arena).offset == 0 && WholePages(Current(arena).capacity, defaultChunkSize)
    {
      hide PageMachine.PageManager.Valid, PageSpace.Inv, Request, PagesFor, Reservable, WholePages, Datas, ArenaSpace.Inv;
      PagesForBounds(defaultChunkSize);
      HasSegment(pm.space);
      RequestInv(pm.space, PagesFor(defaultChunkSize), reserved);
      ghost var sp := pm.space;
      var data := pm.RequestPageChunk(PagesFor(defaultChunkSize), reserved);
      OneChunk(sp, pm.space, defaultChunkSize, data.value);
      var chunk := new ChunkNode(data.value, PagesFor(defaultChunkSize));
      head := chunk;
      current := chunk;
      defaultSize := defaultChunkSize;
      this.pm := pm;
      nodes := [chunk];
      arena := Arena([Chunk(data.value, PagesFor(defaultChunkSize) * PAGE_SIZE, 0, PagesFor(defaultChunkSize))], defaultChunkSize);
      new;
      Repr := {this, chunk} + pm.Repr;
    }

    method Alloc(bytes: nat, alignment: nat, reserved: nat, ghost k: nat) returns (ptr: nat)
      requires Valid() && bytes <= SEGMENT_SIZE && alignment == Pow2(k) && Reservable(pm.space.segs, reserved)
      modifies Repr
      ensures Valid() && fresh(Repr - old(Repr))
      ensures (arena, pm.space, ptr) == ArenaSpace.Alloc(old(arena), old(pm.space), bytes, alignment, reserved)
      ensures |arena.chunks| > |old(arena).chunks| <==>
        (forall at: nat :: Current(old(arena)).offset <= at && Aligned(at, k) ==> at + bytes > Current(old(arena)).capacity)
      ensures |arena.chunks| > |old(arena).chunks| ==>
        WholePages(Current(arena).capacity, if defaultSize < bytes then bytes else defaultSize)
    {
      hide WholePages, Aligned;
      hide ArenaSpace.Inv, PageSpace.Inv, ArenaSpace.Alloc, AlignForward, Pow2, Reservable, Request;
      AllocUnfold(arena, pm.space, bytes, k, reserved);
      var chunk := current;
      assert NodeAt(|nodes| - 1);
      var alignedOffset := AlignForward(chunk.offset, alignment);
      if alignedOffset + bytes > chunk.capacity {
        var nextChunkSize := if bytes <= defaultSize then defaultSize else bytes;
        AppendChunk(nextChunkSize, reserved);
        chunk := current;
        assert NodeAt(|nodes| - 1);
        alignedOffset := AlignForward(chunk.offset, alignment);
      }
      ptr := chunk.data + alignedOffset;
      SetOffset(chunk, alignedOffset, bytes);
      AllocSizes(old(arena), old(pm.space), bytes, k, reserved, arena, pm.space, ptr);
    }

    method SetOffset(chunk: ChunkNode, alignedOffset: nat, bytes: nat)
      requires Valid() && chunk == current
      requires Current(arena).offset <= alignedOffset && alignedOffset + bytes <= Current(arena).capacity
      modifies chunk, this
      ensures Valid() && Repr == old(Repr) && arena == Bump(old(arena), alignedOffset, bytes)
    {
      BumpInv(arena, pm.space, alignedOffset, bytes);
      hide ArenaSpace.Inv;
      chunk.offset := alignedOffset + bytes;
      arena := Bump(arena, alignedOffset, bytes);
      forall i | 0 <= i < |nodes|
        ensures NodeAt(i)
      {
        assert old(NodeAt(i)) && old(NodeAt(|nodes| - 1));
      }
    }

    /** Put a new chunk of at least `size` bytes at the end of the list. */
    method AppendChunk(size: nat, reserved: nat)
      requires Valid() && size <= SEGMENT_SIZE && Reservable(pm.space.segs, reserved)
      modifies Repr
      ensures Valid() && fresh(Repr - old(Repr))
      ensures PagesFor(size) <= CAGE_PAGES
      ensures var (sp, r) := Request(old(pm.space), PagesFor(size), reserved);
        r.Some? && pm.space == sp && arena == Grow(old(arena), r.value, size)
    {
      hide PageMachine.PageManager.Valid, ArenaSpace.Inv, PageSpace.Inv, Request, PagesFor, Reservable, Grow;
      GrowInv(arena, pm.space, size, reserved);
      PagesForBounds(size);
      var data := pm.RequestPageChunk(PagesFor(size), reserved);
      var newchunk := new ChunkNode(data.value, PagesFor(size));
      Repr := Repr + pm.Repr + {newchunk};
      forall i | 0 <= i < |nodes|
        ensures NodeAt(i)
      {
        assert old(NodeAt(i));
      }
      LinkChunk(newchunk, size);
    }

    method LinkChunk(newchunk: ChunkNode, ghost size: nat)
      requires Listed() && newchunk !in nodes && newchunk.offset == 0 && newchunk.next == null
      requires newchunk.pages == PagesFor(size) && newchunk.capacity == PagesFor(size) * PAGE_SIZE
      modifies this, current
      ensures Listed() && nodes == old(nodes) + [newchunk] && arena == Grow(old(arena), newchunk.data, size)
      ensures Repr == old(Repr)
    {
      hide PagesFor;
      assert NodeAt(|nodes| - 1);
      current.next := newchunk;
      current := newchunk;
      nodes := nodes + [newchunk];
      arena := Grow(arena, newchunk.data, size);
      forall i | 0 <= i < |nodes|
        ensures NodeAt(i)
      {
        assert i < |nodes| - 1 ==> old(NodeAt(i));
      }
    }

    method GetMarker() returns (chunk: ChunkNode, offset: nat)
      requires Valid()
      ensures chunk == nodes[|nodes| - 1] && ArenaSpace.GetMarker(arena) == Marker(|nodes| - 1, offset)
    {
      assert NodeAt(|nodes| - 1);
      return current, current.offset;
    }

    /** The whole list is a chain. */
    lemma ListChain()
      requires Listed() && forall c :: c in nodes ==> c !in pm.Repr
      ensures Chain(nodes, arena.chunks, pm.Repr)
    {
      forall j | 0 <= j < |nodes|
        ensures ChainAt(nodes, arena.chunks, j)
      {
        assert NodeAt(j);
      }
    }

    /** `m` tells where in the list the marker's chunk stands; a null chunk is ignored. */
    method PopToMarker(chunk: ChunkNode?, offset: nat, ghost m: nat)
      requires Valid()
      requires chunk != null ==> ValidMarker(arena, Marker(m, offset)) && chunk == nodes[m]
      modifies Repr
      ensures Valid() && Repr == old(Repr)
      ensures chunk == null ==> arena == old(arena) && pm.space == old(pm.space)
      ensures chunk != null ==> (arena, pm.space) == old(Pop(arena, pm.space, Marker(m, offset)))
    {
      hide PageMachine.PageManager.Valid, ArenaSpace.Inv, PageSpace.Inv, ReleaseAll, Outstanding, Chain;
      if chunk == null {
        return;
      }
      PopInv(arena, pm.space, Marker(m, offset));
      TailOutstanding(arena, pm.space, m + 1);
      ghost var popped := Pop(arena, pm.space, Marker(m, offset));
      ghost var chunks := arena.chunks[m + 1..];
      assert popped == (Cut(arena, Marker(m, offset)), ReleaseAll(pm.space, chunks));
      assert ArenaSpace.Inv(popped.0, popped.1);
      hide Pop, Listed, Cut;
      var toDelete;
      ghost var tail;
      toDelete, tail := CutList(chunk, offset, m);
      Discard(toDelete, tail, chunks);
    }

    /** Delete a chain that has been cut loose; the list itself stays as it is. */
    method Discard(toDelete: ChunkNode?, ghost tail: seq<ChunkNode>, ghost chunks: seq<Chunk>)
      requires Listed() && pm.Valid() && this !in pm.Repr && forall c :: c in nodes ==> c !in pm.Repr
      requires Chain(tail, chunks, pm.Repr) && toDelete == (if tail == [] then null else tail[0])
      requires Outstanding(chunks, pm.space)
      modifies pm.Repr
      ensures Listed() && pm.Valid() && pm.Repr == old(pm.Repr) && unchanged(this)
      ensures pm.space == old(ReleaseAll(pm.space, chunks))
    {
      hide PageMachine.PageManager.Valid, PageSpace.Inv, ReleaseAll, Outstanding, Chain, Listed;
      ReleaseChunks(toDelete, tail, chunks);
    }

    /** Make the marker's chunk the last one, filled up to the marker's offset; the rest is cut loose. */
    method CutList(chunk: ChunkNode, offset: nat, ghost m: nat) returns (toDelete: ChunkNode?, ghost tail: seq<ChunkNode>)
      requires Listed() && ValidMarker(arena, Marker(m, offset)) && chunk == nodes[m]
      requires forall c :: c in nodes ==> c !in pm.Repr
      modifies this, chunk
      ensures Listed() && nodes == old(nodes)[..m + 1] && arena == Cut(old(arena), Marker(m, offset)) && Repr == old(Repr)
      ensures Chain(tail, old(arena).chunks[m + 1..], pm.Repr) && toDelete == (if tail == [] then null else tail[0])
    {
      tail := nodes[m + 1..];
      assert NodeAt(m);
      assert tail != [] ==> tail[0] == nodes[m + 1];
      toDelete := chunk.next;
      chunk.next := null;
      current := chunk;
      chunk.offset := offset;
      nodes := nodes[..m + 1];
      arena := Cut(arena, Marker(m, offset));
      forall i | 0 <= i < |nodes|
        ensures NodeAt(i)
      {
        assert old(NodeAt(i));
      }
      ghost var chunks := old(arena).chunks[m + 1..];
      forall j | 0 <= j < |tail|
        ensures ChainAt(tail, chunks, j)
      {
        assert old(NodeAt(m + 1 + j));
      }
    }

    /** Delete a chain of chunks: each gives its pages back. */
    method ReleaseChunks(first: ChunkNode?, ghost tail: seq<ChunkNode>, ghost chunks: seq<Chunk>)
      requires pm.Valid() && Chain(tail, chunks, pm.Repr) && first == (if tail == [] then null else tail[0])
      requires Outstanding(chunks, pm.space)
      modifies pm.Repr
      ensures pm.Valid() && pm.Repr == old(pm.Repr)
      ensures pm.space == old(ReleaseAll(pm.space, chunks))
    {
      hide PageMachine.PageManager.Valid, PageSpace.Inv, ReleaseAll, Release;
      ghost var j := 0;
      var toDelete := first;
      assert chunks[0..] == chunks;
      while toDelete != null
        invariant j <= |tail| && toDelete == (if j < |tail| then tail[j] else null)
        invariant pm.Valid() && pm.Repr == old(pm.Repr)
        invariant Chain(tail, chunks, pm.Repr)
        invariant Outstanding(chunks[j..], pm.space)
        invariant ReleaseAll(pm.space, chunks[j..]) == old(ReleaseAll(pm.space, chunks))
        decreases |tail| - j
      {
        assert ChainAt(tail, chunks, j);
        ReleaseUnfold(pm.space, chunks[j..]);
        assert chunks[j..][1..] == chunks[j + 1..];
        var next := toDelete.next;
        pm.ReleasePageChunk(toDelete.data, toDelete.pages);
        toDelete := next;
        j := j + 1;
      }
      assert chunks[j..] == [];
      ReleaseNone(pm.space);
    }

    /** Release everything and start over with one chunk of the default size. */
    method Clear(reserved: nat)
      requires Valid() && Reservable(pm.space.segs, reserved)
      modifies Repr
      ensures Valid() && fresh(Repr - old(Repr))
      ensures Others(arena, pm.space) == old(Others(arena, pm.space))
      ensures |arena.chunks| == 1 && Current(arena).offset == 0 && arena.defaultSize == old(arena).defaultSize
      ensures WholePages(Current(arena).capacity, defaultSize)
    {
      assert arena.chunks[0..] == arena.chunks;
      hide PageMachine.PageManager.Valid, PageSpace.Inv, ReleaseAll, Datas, Request, PagesFor, Reservable;
      TailOutstanding(arena, pm.space, 0);
      ListChain();
      ReleaseKeepsRange(pm.space, arena.chunks, reserved);
      ReleaseChunks(head, nodes, arena.chunks);
      StartOver(reserved);
    }

    method StartOver(reserved: nat)
      requires pm.Valid() && Reservable(pm.space.segs, reserved) && defaultSize <= SEGMENT_SIZE
      requires this in Repr && pm in Repr && this !in pm.Repr && pm.Repr <= Repr
      modifies Repr
      ensures Valid() && fresh(Repr - old(Repr))
      ensures Others(arena, pm.space) == old(pm.space).chunks
      ensures |arena.chunks| == 1 && Current(arena).offset == 0 && arena.defaultSize == defaultSize
      ensures WholePages(Current(arena).capacity, defaultSize)
    {
      hide PageMachine.PageManager.Valid, PageSpace.Inv, Request, PagesFor, Reservable, WholePages, Datas, ArenaSpace.Inv;
      PagesForBounds(defaultSize);
      RequestInv(pm.space, PagesFor(defaultSize), reserved);
      ghost var sp := pm.space;
      var data := pm.RequestPageChunk(PagesFor(defaultSize), reserved);
      OneChunk(sp, pm.space, defaultSize, data.value);
      var chunk := new ChunkNode(data.value, PagesFor(defaultSize));
      head := chunk;
      current := chunk;
      nodes := [chunk];
      arena := Arena([Chunk(data.value, PagesFor(defaultSize) * PAGE_SIZE, 0, PagesFor(defaultSize))], defaultSize);
      Repr := Repr + pm.Repr + {chunk};
    }
  }
}
