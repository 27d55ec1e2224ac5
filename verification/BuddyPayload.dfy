/** What a client and the allocator may write: payloads behind headers, and headers inside blocks. */
module BuddyPayload {
  import opened Options
  import opened Powers
  import opened BuddyPool
  import opened BuddyTheorems

  // ---- The payload of a grant ----

  /** Header and size together outgrow the order that the size alone selects. */
  predicate Straddles(size: nat) {
    exists j :: MIN_ORDER <= j <= MAX_ORDER && Pow2(j) - HEADER_SIZE < size <= Pow2(j)
  }

  /** The payload behind the header of a granted block lies inside the block iff the size does not wrap
      and is not one of the sixteen just up to a power of two. */
  lemma PayloadFitsIff(p: Pool, size: nat, q: Pool, o: nat)
    requires Inv(p) && size < SIZE_T_RANGE && Alloc(p, size) == (q, Some(o + HEADER_SIZE))
    ensures o in Live(q.blocks)
    ensures o + HEADER_SIZE + size <= o + Pow2(Live(q.blocks)[o]) <==> size < SIZE_T_RANGE - HEADER_SIZE && !Straddles(size)
  {
    AllocGrants(p, size, q, o);
    GrantHoldsSize(p, size);
    Pow2Value();
    var k := SizeToOrder(size);
    hide Inv, Alloc, SizeToOrder, Pow2;
    if size < SIZE_T_RANGE - HEADER_SIZE {
      StraddlesOwnOrder(size);
    }
  }

  lemma StraddlesOwnOrder(size: nat)
    requires size <= Pow2(MAX_ORDER)
    ensures MIN_ORDER <= SizeToOrder(size) <= MAX_ORDER
    ensures Straddles(size) <==> size + HEADER_SIZE > Pow2(SizeToOrder(size))
  {
    OrderLeast(size);
    Pow2Value();
    var k := SizeToOrder(size);
    hide SizeToOrder, Pow2;
    Pow2Monotone(MIN_ORDER, k);
    forall j | k < j <= MAX_ORDER
      ensures Pow2(j) - HEADER_SIZE >= size
    {
      Pow2Monotone(k, j);
    }
  }

  /** Sixteen bytes from a new pool: the payload begins where its block ends. */
  lemma PayloadOutside()
    ensures Inv(Initial(MAX_ORDER, Pow2(MAX_ORDER)))
    ensures var (q, r) := Alloc(Initial(MAX_ORDER, Pow2(MAX_ORDER)), 16);
      && r == Some(HEADER_SIZE) && 0 in Live(q.blocks) && Live(q.blocks)[0] == MIN_ORDER
      && Pow2(MIN_ORDER) == HEADER_SIZE == 16
  {
    Pow2Value();
    NewPoolGrants(16);
  }

  /** A new pool of 4 MB serves its first request, whatever passes the size test, at offset 0. */
  lemma NewPoolGrants(size: nat)
    requires !Rejected(size)
    ensures var p := Initial(MAX_ORDER, Pow2(MAX_ORDER));
      && Inv(p) && Alloc(p, size).1 == Some(HEADER_SIZE)
      && Live(Alloc(p, size).0.blocks) == map[0 := SizeToOrder(size)]
  {
    hide Inv, Rejected, Pow2, Initial, Alloc, SizeToOrder;
    var p := Initial(MAX_ORDER, Pow2(MAX_ORDER));
    InitialInv(MAX_ORDER, Pow2(MAX_ORDER));
    OrderRange(size);
    NewPoolAnswer(size);
    AllocGrants(p, size, Alloc(p, size).0, 0);
  }

  lemma OrderRange(size: nat)
    ensures MIN_ORDER <= SizeToOrder(size) <= MAX_ORDER
  {
    Pow2Value();
    if size > 16 {
      var w := BitWidth(size - 1);
      if w < MIN_ORDER {
        Pow2Monotone(w, MIN_ORDER);
      }
    }
  }

  lemma NewPoolAnswer(size: nat)
    requires !Rejected(size)
    ensures var p := Initial(MAX_ORDER, Pow2(MAX_ORDER));
      |p.bins| == BIN_COUNT && Alloc(p, size).1 == Some(HEADER_SIZE)
  {
    OrderRange(size);
    hide Pow2, Rejected, SizeToOrder, Split, Remove;
    var p := Initial(MAX_ORDER, Pow2(MAX_ORDER));
    assert [0] + [] == [0];
    assert p.bins == seq(BIN_COUNT, _ => [])[BIN_COUNT - 1 := [0]];
    assert forall j :: 0 <= j < BIN_COUNT ==> p.bins[j] == if j == BIN_COUNT - 1 then [0] else [];
    var i := FirstBin(p.bins, SizeToOrder(size) - MIN_ORDER);
    assert p.bins[BIN_COUNT - 1] != [];
    assert i == BIN_COUNT - 1;
    assert p.bins[i][0] == 0;
  }

  /** A size that wraps in the test is granted the whole of a new 4 MB pool. */
  lemma WrappedGrant()
    ensures Inv(Initial(MAX_ORDER, Pow2(MAX_ORDER)))
    ensures var (q, r) := Alloc(Initial(MAX_ORDER, Pow2(MAX_ORDER)), SIZE_T_RANGE - 1);
      && r == Some(HEADER_SIZE) && Live(q.blocks) == map[0 := MAX_ORDER] && Pow2(MAX_ORDER) < SIZE_T_RANGE - 1
  {
    hide Inv, Pow2, Alloc, Initial, SizeToOrder, Rejected;
    WrappedOrder();
    NewPoolGrants(SIZE_T_RANGE - 1);
  }

  lemma WrappedOrder()
    ensures SizeToOrder(SIZE_T_RANGE - 1) == MAX_ORDER && Pow2(MAX_ORDER) < SIZE_T_RANGE - 1 && !Rejected(SIZE_T_RANGE - 1)
  {
    hide Pow2;
    Pow2Value();
    var w := BitWidth(SIZE_T_RANGE - 2);
    if w < MAX_ORDER {
      Pow2Monotone(w, MAX_ORDER);
    }
    hide BitWidth;
    assert (SIZE_T_RANGE - 1 + HEADER_SIZE) % SIZE_T_RANGE == HEADER_SIZE - 1;
  }

  /** Three pages make a start block of order 14: 16384 bytes over 12288. */
  lemma ThreePages()
    ensures var bytes := PagesFor(3 * PAGE_SIZE) * PAGE_SIZE;
      bytes == 12288 && SizeToOrder(bytes) == 14 && Pow2(14) == 16384
  {
    Pow2Value();
    var bytes := PagesFor(3 * PAGE_SIZE) * PAGE_SIZE;
    assert Pow2(13) == 2 * Pow2(12) && Pow2(14) == 2 * Pow2(13);
    hide Pow2;
    OrderLeast(bytes);
    var k := SizeToOrder(bytes);
    hide SizeToOrder;
    if k < 14 {
      Pow2Monotone(k, 13);
    }
  }

  // ---- Payloads over runs ----

  /** The sizes asked for, by block; none larger than its block. */
  ghost predicate SizesHold(p: Pool, sizes: map<nat, nat>) {
    sizes.Keys == Live(p.blocks).Keys && forall o :: o in sizes ==> sizes[o] <= Pow2(Live(p.blocks)[o])
  }

  ghost predicate NoWrap(op: Op) {
    op.OpAlloc? ==> op.size < SIZE_T_RANGE - HEADER_SIZE
  }

  ghost function StepSizes(p: Pool, sizes: map<nat, nat>, op: Op): map<nat, nat>
    requires Inv(p) && Legal(p, op)
  {
    match op
    case OpAlloc(size) =>
      var r := Alloc(p, size).1;
      if r.Some? && r.value >= HEADER_SIZE then sizes[r.value - HEADER_SIZE := size] else sizes
    case OpFree(ptr) => if ptr.Some? then sizes - {ptr.value - HEADER_SIZE} else sizes
  }

  /** A run that records what size each live block was asked for. */
  ghost predicate SizedRun(p: Pool, sizes: map<nat, nat>, ops: seq<Op>, q: Pool, sizes': map<nat, nat>)
    decreases ops
  {
    if ops == [] then p == q && sizes == sizes'
    else
      && Inv(p) && Legal(p, ops[0]) && NoWrap(ops[0])
      && SizedRun(Step(p, ops[0]), StepSizes(p, sizes, ops[0]), ops[1..], q, sizes')
  }

  lemma StepHolds(p: Pool, sizes: map<nat, nat>, op: Op)
    requires Inv(p) && Legal(p, op) && NoWrap(op) && SizesHold(p, sizes)
    ensures Inv(Step(p, op)) && SizesHold(Step(p, op), StepSizes(p, sizes, op))
  {
    hide Inv, Alloc, Free, SizesHold, Live;
    StepInv(p, op);
    match op
    case OpAlloc(size) =>
      AllocAnswer(p, size);
      if Alloc(p, size).1.Some? {
        AllocHolds(p, sizes, size, Alloc(p, size).0, Alloc(p, size).1.value - HEADER_SIZE);
      }
    case OpFree(ptr) =>
      if ptr.Some? {
        FreeHolds(p, sizes, ptr.value);
      } else {
        FreeNull(p);
      }
  }

  lemma AllocHolds(p: Pool, sizes: map<nat, nat>, size: nat, q: Pool, o: nat)
    requires Inv(p) && size < SIZE_T_RANGE - HEADER_SIZE && Alloc(p, size) == (q, Some(o + HEADER_SIZE))
    requires SizesHold(p, sizes)
    ensures SizesHold(q, sizes[o := size])
  {
    hide Inv, Alloc, Live, Pow2, SizeToOrder, Rejected;
    AllocGrants(p, size, q, o);
    GrantHoldsSize(p, size);
  }

  lemma FreeHolds(p: Pool, sizes: map<nat, nat>, ptr: nat)
    requires Inv(p) && ptr >= HEADER_SIZE && ptr - HEADER_SIZE in Live(p.blocks) && SizesHold(p, sizes)
    ensures |p.bins| == BIN_COUNT && MIN_ORDER <= p.blocks[ptr - HEADER_SIZE].order <= MAX_ORDER
    ensures SizesHold(Free(p, Some(ptr)), sizes - {ptr - HEADER_SIZE})
  {
    hide Inv, Free, Live, Pow2;
    FreedIsPlaced(p, ptr - HEADER_SIZE);
    FreeInv(p, ptr);
  }

  lemma AllocAnswer(p: Pool, size: nat)
    requires Inv(p)
    ensures |p.bins| == BIN_COUNT
    ensures Alloc(p, size).1.None? ==> Alloc(p, size).0 == p
    ensures Alloc(p, size).1.Some? ==> Alloc(p, size).1.value >= HEADER_SIZE
  {
  }

  lemma FreeNull(p: Pool)
    requires Inv(p)
    ensures |p.bins| == BIN_COUNT && Free(p, None) == p
  {
  }

  /** Over every run whose sizes do not wrap, no two payloads ever overlap, and a payload overruns its
      block by no more than the sixteen bytes of the header behind it. */
  lemma {:induction false} PayloadsApart(p: Pool, sizes: map<nat, nat>, ops: seq<Op>, q: Pool, sizes': map<nat, nat>)
    requires Inv(p) && SizesHold(p, sizes) && SizedRun(p, sizes, ops, q, sizes')
    ensures Inv(q) && SizesHold(q, sizes')
    ensures forall o, c :: o in sizes' && c in sizes' && o != c ==>
      o + HEADER_SIZE + sizes'[o] <= c + HEADER_SIZE || c + HEADER_SIZE + sizes'[c] <= o + HEADER_SIZE
    ensures forall o :: o in sizes' ==> o + HEADER_SIZE + sizes'[o] <= o + Pow2(Live(q.blocks)[o]) + HEADER_SIZE
    decreases ops
  {
    if ops != [] {
      StepHolds(p, sizes, ops[0]);
      hide Inv, Step, StepSizes, SizesHold, Live, Pow2;
      PayloadsApart(Step(p, ops[0]), StepSizes(p, sizes, ops[0]), ops[1..], q, sizes');
    } else {
      forall o, c | o in sizes' && c in sizes' && o != c
        ensures o + HEADER_SIZE + sizes'[o] <= c + HEADER_SIZE || c + HEADER_SIZE + sizes'[c] <= o + HEADER_SIZE
      {
        LiveDisjoint(q, o, c);
      }
    }
  }

  // ---- Headers ----

  /** A free block's header: sixteen bytes of block header and two 4-byte offsets. */
  const FREE_HEADER_SIZE: nat := HEADER_SIZE + 8

  ghost predicate NoSmallest(b: Blocks) {
    forall o :: o in b ==> b[o].order > MIN_ORDER
  }

  /** Every block has room for the header of a free block iff none has the smallest order. */
  lemma HeadersFitIff(p: Pool)
    requires Inv(p)
    ensures (forall o :: o in p.blocks ==> FREE_HEADER_SIZE <= Pow2(p.blocks[o].order)) <==> NoSmallest(p.blocks)
  {
    Pow2Value();
    assert Pow2(MIN_ORDER + 1) == 2 * Pow2(MIN_ORDER);
    hide Pow2, Aligned;
    forall o | o in p.blocks
      ensures FREE_HEADER_SIZE <= Pow2(p.blocks[o].order) <==> p.blocks[o].order > MIN_ORDER
    {
      assert Placed(p.top, o, p.blocks[o].order);
      if p.blocks[o].order > MIN_ORDER {
        Pow2Monotone(MIN_ORDER + 1, p.blocks[o].order);
      }
    }
  }

  ghost predicate Roomy(op: Op) {
    op.OpAlloc? ==> op.size > 16
  }

  lemma {:induction false} SplitNoSmallest(p: Pool, o: nat, k: nat, target: nat)
    requires |p.bins| == BIN_COUNT && MIN_ORDER < target <= k <= MAX_ORDER && NoSmallest(p.blocks)
    ensures NoSmallest(Split(p, o, k, target).blocks)
    decreases k
  {
    if k > target {
      SplitNoSmallest(Push(p.(blocks := p.blocks[o := Block(k - 1, false)]), BuddyOf(o, k - 1), k - 1), o, k - 1, target);
    }
  }

  lemma {:induction false} MergeNoSmallest(p: Pool, o: nat, k: nat)
    requires |p.bins| == BIN_COUNT && MIN_ORDER < k <= MAX_ORDER && NoSmallest(p.blocks)
    ensures NoSmallest(Merge(p, o, k).blocks)
    decreases MAX_ORDER - k
  {
    if Mergeable(p, o, k) {
      MergeNoSmallest(Fuse(p, o, k), Min(o, BuddyOf(o, k)), k + 1);
    }
  }

  lemma RoomyOrder(size: nat)
    requires size > 16
    ensures SizeToOrder(size) > MIN_ORDER
  {
    Pow2Value();
    var w := BitWidth(size - 1);
    if w <= MIN_ORDER {
      Pow2Monotone(w, MIN_ORDER);
    }
  }

  lemma StepNoSmallest(p: Pool, op: Op)
    requires Inv(p) && Legal(p, op) && Roomy(op) && NoSmallest(p.blocks)
    ensures NoSmallest(Step(p, op).blocks)
  {
    hide Inv, NoSmallest, Alloc, Live, Merge;
    AllocAnswer(p, 0);
    match op
    case OpAlloc(size) =>
      AllocNoSmallest(p, size);
    case OpFree(ptr) =>
      if ptr.Some? {
        FreedIsPlaced(p, ptr.value - HEADER_SIZE);
        FreedOrder(p, ptr.value - HEADER_SIZE);
        MergeNoSmallest(p, ptr.value - HEADER_SIZE, p.blocks[ptr.value - HEADER_SIZE].order);
      } else {
        FreeNull(p);
      }
  }

  lemma FreedOrder(p: Pool, o: nat)
    requires NoSmallest(p.blocks) && o in p.blocks
    ensures p.blocks[o].order > MIN_ORDER
  {
  }

  lemma AllocNoSmallest(p: Pool, size: nat)
    requires |p.bins| == BIN_COUNT && Inv(p) && size > 16 && NoSmallest(p.blocks)
    ensures NoSmallest(Alloc(p, size).0.blocks)
  {
    hide Inv, SizeToOrder, Alloc, Split;
    RoomyOrder(size);
    AllocAnswer(p, size);
    if Alloc(p, size).1.Some? {
      var q, o := Alloc(p, size).0, Alloc(p, size).1.value - HEADER_SIZE;
      var f := AllocShape(p, size, q, o);
      SplitNoSmallest(Remove(p, o, f), o, f, SizeToOrder(size));
    }
  }

  /** A run whose requests all exceed sixteen bytes never has a block too small for a free header. */
  lemma {:induction false} RoomyRun(p: Pool, ops: seq<Op>, q: Pool)
    requires Inv(p) && NoSmallest(p.blocks) && Run(p, ops, q) && forall i :: 0 <= i < |ops| ==> Roomy(ops[i])
    ensures Inv(q) && NoSmallest(q.blocks)
    decreases ops
  {
    if ops != [] {
      StepInv(p, ops[0]);
      StepNoSmallest(p, ops[0]);
      hide Inv, Step, NoSmallest;
      RoomyRun(Step(p, ops[0]), ops[1..], q);
    }
  }

  /** The constructor's pools start without such a block. */
  lemma StartRoomy(size: nat)
    requires Pow2(SizeToOrder(PagesFor(size) * PAGE_SIZE)) <= PagesFor(size) * PAGE_SIZE
    ensures var bytes := PagesFor(size) * PAGE_SIZE; var top := SizeToOrder(bytes);
      MIN_ORDER <= top <= MAX_ORDER && Inv(Initial(top, bytes)) && NoSmallest(Initial(top, bytes).blocks)
  {
    hide Inv, SizeToOrder, Pow2, Initial;
    ManagedRegionFits(size);
    var bytes := PagesFor(size) * PAGE_SIZE;
    RoomyOrder(bytes);
    InitialInv(SizeToOrder(bytes), bytes);
  }
}
