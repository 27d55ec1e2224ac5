/** Runs of the metadata arena with a client that returns what it got with the size it asked for. */
module MetaRuns {
  import opened Powers
  import opened PageSpace
  import opened ArenaSpace
  import opened MetaSpace
  import opened MetaPacking

  datatype Op = OpAlloc(size: nat, k: nat, reserved: nat) | OpRecycle(p: nat, size: nat)

  /** The arena, and the client's own record of the blocks it holds with their rounded sizes. */
  datatype State = State(w: MetaSpace.World, held: map<nat, nat>)

  ghost predicate Legal(s: State, op: Op) {
    match op
    case OpAlloc(size, k, reserved) => AlignSize(size) <= SEGMENT_SIZE && Reservable(s.w.space.segs, reserved)
    case OpRecycle(p, size) => p != 0 ==> p in s.held && s.held[p] == AlignSize(size)
  }

  ghost function Step(s: State, op: Op): State
    requires MetaSpace.Inv(s.w) && Legal(s, op)
  {
    BucketCount(s.w);
    match op
    case OpAlloc(size, k, reserved) =>
      var (w, p) := Metalloc(s.w, size, Pow2(k), reserved);
      State(w, s.held[p := AlignSize(size)])
    case OpRecycle(p, size) =>
      State(s.w.(meta := Metarecycle(s.w.meta, p, size)), s.held - {p})
  }

  ghost predicate Inv(s: State) {
    MetaSpace.Inv(s.w) && Outs(s.w.meta.blocks) == s.held
  }

  /** No block ever vanishes or changes size. */
  ghost predicate Lasts(b: map<nat, Block>, c: map<nat, Block>) {
    forall p :: p in b ==> p in c && c[p].size == b[p].size
  }

  ghost predicate SmallAlignment(op: Op) {
    op.OpAlloc? ==> op.k <= 4
  }

  lemma StepInv(s: State, op: Op)
    requires Inv(s) && Legal(s, op)
    ensures Inv(Step(s, op)) && Lasts(s.w.meta.blocks, Step(s, op).w.meta.blocks)
    ensures Packed(s.w) && SmallAlignment(op) ==> Packed(Step(s, op).w)
  {
    hide MetaSpace.Inv, Metalloc, Metarecycle, AlignSize, Packed, Pow2, Reservable, Outs;
    Ready(s.w);
    match op
    case OpAlloc(size, k, reserved) =>
      var (w, p) := Metalloc(s.w, size, Pow2(k), reserved);
      MetallocInv(s.w, size, k, reserved, w, p);
      AllocLasts(s.w, size, k, reserved, w, p);
    case OpRecycle(p, size) =>
      RecycleLasts(s.w, p, size);
      if p == 0 {
        NullIgnored(s.w, size);
      } else {
        HeldInUse(s.w.meta.blocks, p);
        RecycleInv(s.w, p, size);
      }
  }

  lemma AllocLasts(w: MetaSpace.World, size: nat, k: nat, reserved: nat, w': MetaSpace.World, p: nat)
    requires MetaSpace.Inv(w) && AlignSize(size) <= SEGMENT_SIZE && Reservable(w.space.segs, reserved)
    requires Metalloc(w, size, Pow2(k), reserved) == (w', p)
    ensures Lasts(w.meta.blocks, w'.meta.blocks)
  {
    hide MetaSpace.Inv, AlignSize, Pow2, Reservable, Alloc;
    Ready(w);
    if Reusable(w.meta, size) {
      ReuseInv(w, size, Pow2(k), reserved, w', p);
    } else {
      CarveInv(w, size, k, reserved, w', p);
    }
  }

  lemma NullIgnored(w: MetaSpace.World, size: nat)
    requires MetaSpace.Inv(w)
    ensures |w.meta.free| == NUM_BUCKETS && Metarecycle(w.meta, 0, size) == w.meta
    ensures Outs(w.meta.blocks) - {0} == Outs(w.meta.blocks)
  {
    forall p | p in w.meta.blocks
      ensures p > 0
    {
      PositiveBlock(w, p);
    }
  }

  lemma RecycleLasts(w: MetaSpace.World, p: nat, size: nat)
    requires MetaSpace.Inv(w) && (p != 0 ==> p in Outs(w.meta.blocks) && Outs(w.meta.blocks)[p] == AlignSize(size))
    ensures |w.meta.free| == NUM_BUCKETS && Lasts(w.meta.blocks, Metarecycle(w.meta, p, size).blocks)
  {
    hide AlignSize, BucketIndex, MetaSpace.Inv, Outs;
    BucketCount(w);
    HeldInUse(w.meta.blocks, p);
  }

  /** A run from one state to another, every step legal. */
  ghost predicate Run(s: State, ops: seq<Op>, s': State)
    decreases ops
  {
    if ops == [] then s == s'
    else MetaSpace.Inv(s.w) && Legal(s, ops[0]) && Run(Step(s, ops[0]), ops[1..], s')
  }

  /** The step leaves padding behind. */
  ghost predicate StepPads(s: State, op: Op)
    requires MetaSpace.Inv(s.w)
  {
    Ready(s.w);
    op.OpAlloc? && Pads(s.w, op.size, op.k)
  }

  lemma StepPacked(s: State, op: Op)
    requires Inv(s) && Legal(s, op)
    ensures Packed(Step(s, op).w) <==> Packed(s.w) && !StepPads(s, op)
  {
    hide MetaSpace.Inv, Metalloc, Metarecycle, AlignSize, Packed, Pow2, Reservable, Outs, Pads;
    Ready(s.w);
    match op
    case OpAlloc(size, k, reserved) =>
      var (w, p) := Metalloc(s.w, size, Pow2(k), reserved);
      MetallocPacked(s.w, size, k, reserved, w, p);
    case OpRecycle(p, size) =>
      if p == 0 {
        NullIgnored(s.w, size);
      } else {
        HeldInUse(s.w.meta.blocks, p);
        RecycleShort(s.w, p, size);
      }
  }

  /** Some step of the run leaves padding behind. */
  ghost predicate RunPads(s: State, ops: seq<Op>)
    decreases ops
  {
    ops != [] && MetaSpace.Inv(s.w) && Legal(s, ops[0]) && (StepPads(s, ops[0]) || RunPads(Step(s, ops[0]), ops[1..]))
  }

  /** Over every run: every byte the arena has given out belongs to a block iff that was so at the start
      and no step left padding.  What is lost stays lost. */
  lemma {:induction false} RunPacked(s: State, ops: seq<Op>, s': State)
    requires Inv(s) && Run(s, ops, s')
    ensures Packed(s'.w) <==> Packed(s.w) && !RunPads(s, ops)
    decreases ops
  {
    hide Step, Legal, Packed, StepPads, MetaSpace.Inv, Outs;
    if ops != [] {
      StepInv(s, ops[0]);
      StepPacked(s, ops[0]);
      RunPacked(Step(s, ops[0]), ops[1..], s');
    }
  }

  /** Conservation over every run: the arena's blocks in use are exactly what the client holds, blocks
      never vanish, move or change size, and as long as no alignment beyond 16 is asked for every byte
      the arena has given out belongs to a block. */
  lemma {:induction false} RunInv(s: State, ops: seq<Op>, s': State)
    requires Inv(s) && Run(s, ops, s')
    ensures Inv(s') && Lasts(s.w.meta.blocks, s'.w.meta.blocks)
    ensures Packed(s.w) && (forall i :: 0 <= i < |ops| ==> SmallAlignment(ops[i])) ==> Packed(s'.w)
    decreases ops
  {
    hide Step, Legal, Inv, Packed, MetaSpace.Inv;
    if ops != [] {
      StepInv(s, ops[0]);
      var rest := ops[1..];
      RunInv(Step(s, ops[0]), rest, s');
      assert forall i :: 0 <= i < |rest| ==> rest[i] == ops[i + 1];
      assert SmallAlignment(ops[0]) || !forall i :: 0 <= i < |ops| ==> SmallAlignment(ops[i]);
    }
  }

  /** Every block is in exactly one place: held by the client, on the one list of its size, or given up
      because no list takes its size. */
  lemma EveryBlockAccounted(s: State, p: nat)
    requires Inv(s) && p in s.w.meta.blocks
    ensures var size := s.w.meta.blocks[p].size; var b := BucketIndex(size);
      && |s.w.meta.free| == NUM_BUCKETS && AlignSize(size) == size
      && (forall c :: 0 <= c < NUM_BUCKETS && p in s.w.meta.free[c] ==> c == b && p !in s.held)
      && (b < NUM_BUCKETS ==> (p in s.held <==> p !in s.w.meta.free[b]))
  {
    hide ArenaSpace.Inv, LocatedIn, MetaSpace.AllApart;
    assert BlockOk(s.w.arena, p, s.w.meta.blocks[p]);
    HeldInUse(s.w.meta.blocks, p);
    var size := s.w.meta.blocks[p].size;
    var b := BucketIndex(size);
    forall c | 0 <= c < NUM_BUCKETS
      ensures p in s.w.meta.free[c] <==> s.w.meta.blocks[p] == Block(BucketSize(c), Listed)
    {
      assert ListExact(s.w.meta, c);
    }
    assert size == BucketSize(b);
    assert forall c :: 0 <= c < NUM_BUCKETS && BucketSize(c) == size ==> c == b;
  }
}
