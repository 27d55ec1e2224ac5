/** When one header record per block tells the whole truth: nothing a client writes, and no free header,
    reaches into another block. */
module BuddyRecords {
  import opened Options
  import opened Powers
  import opened BuddyPool
  import opened BuddyTiling
  import opened BuddyTheorems
  import opened BuddyPayload

  /** Every live payload lies inside its block, and every block has room for a free header. */
  ghost predicate Fits(p: Pool, sizes: map<nat, nat>) {
    && sizes.Keys == Live(p.blocks).Keys && PayloadsInside(Live(p.blocks), sizes)
    && NoSmallest(p.blocks)
  }

  ghost predicate PayloadsInside(live: map<nat, nat>, sizes: map<nat, nat>) {
    forall o :: o in sizes && o in live ==> HEADER_SIZE + sizes[o] <= Pow2(live[o])
  }

  /** Then writing a payload touches no header, free or not, but for the record before it. */
  lemma HeadersUntouched(p: Pool, sizes: map<nat, nat>, o: nat, c: nat)
    requires Inv(p) && Fits(p, sizes) && o in sizes && c in p.blocks && c != o
    ensures o + HEADER_SIZE + sizes[o] <= c || c + FREE_HEADER_SIZE <= o + HEADER_SIZE
  {
    HeadersFitIff(p);
    assert o in Live(p.blocks) && Apart(p.blocks, o, c);
    hide Pow2;
  }

  // ---- One step ----

  /** Sizes are 64-bit numbers. */
  predicate SizeT(op: Op) {
    op.OpAlloc? ==> op.size < SIZE_T_RANGE
  }

  /** If the request is granted, its size neither wraps nor straddles. */
  ghost predicate GrantFits(p: Pool, op: Op)
    requires Inv(p)
  {
    op.OpAlloc? && Alloc(p, op.size).1.Some? ==> op.size < SIZE_T_RANGE - HEADER_SIZE && !Straddles(op.size)
  }

  lemma SmallStraddles(size: nat)
    requires 0 < size <= 16
    ensures Straddles(size)
  {
    Pow2Value();
    assert Pow2(MIN_ORDER) - HEADER_SIZE < size <= Pow2(MIN_ORDER);
  }

  lemma GrantedPositive(p: Pool, size: nat)
    requires Inv(p) && Alloc(p, size).1.Some?
    ensures size > 0
  {
  }

  lemma AllocFitsIff(p: Pool, sizes: map<nat, nat>, size: nat, q: Pool, o: nat)
    requires Inv(p) && size < SIZE_T_RANGE && Alloc(p, size) == (q, Some(o + HEADER_SIZE)) && Fits(p, sizes)
    ensures Fits(q, sizes[o := size]) <==> size < SIZE_T_RANGE - HEADER_SIZE && !Straddles(size)
  {
    hide Inv, Alloc, Live, Pow2, SizeToOrder, Rejected, Straddles, NoSmallest, PayloadsInside;
    GrantedPositive(p, size);
    AllocAnswer(p, size);
    AllocGrants(p, size, q, o);
    PayloadFitsIff(p, size, q, o);
    if size <= 16 {
      SmallStraddles(size);
    } else {
      AllocNoSmallest(p, size);
    }
    OneMoreInside(Live(p.blocks), sizes, o, SizeToOrder(size), size);
  }

  lemma OneMoreInside(live: map<nat, nat>, sizes: map<nat, nat>, o: nat, k: nat, size: nat)
    requires sizes.Keys == live.Keys && o !in live && PayloadsInside(live, sizes)
    ensures PayloadsInside(live[o := k], sizes[o := size]) <==> HEADER_SIZE + size <= Pow2(k)
  {
    hide Pow2;
    assert o in sizes[o := size];
  }

  lemma FreeFits(p: Pool, sizes: map<nat, nat>, ptr: nat)
    requires Inv(p) && ptr >= HEADER_SIZE && ptr - HEADER_SIZE in Live(p.blocks) && Fits(p, sizes)
    ensures |p.bins| == BIN_COUNT && MIN_ORDER <= p.blocks[ptr - HEADER_SIZE].order <= MAX_ORDER
    ensures Fits(Free(p, Some(ptr)), sizes - {ptr - HEADER_SIZE})
  {
    hide Inv, Live, Pow2, Merge, NoSmallest, PayloadsInside, Free;
    var o := ptr - HEADER_SIZE;
    FreedIsPlaced(p, o);
    FreedOrder(p, o);
    MergeNoSmallest(p, o, p.blocks[o].order);
    FreeIsMerge(p, ptr);
    FreeInv(p, ptr);
    OneLessInside(Live(p.blocks), sizes, o);
  }

  lemma FreeIsMerge(p: Pool, ptr: nat)
    requires |p.bins| == BIN_COUNT && ptr >= HEADER_SIZE && ptr - HEADER_SIZE in Live(p.blocks)
    requires MIN_ORDER <= p.blocks[ptr - HEADER_SIZE].order <= MAX_ORDER
    ensures Free(p, Some(ptr)) == Merge(p, ptr - HEADER_SIZE, p.blocks[ptr - HEADER_SIZE].order)
  {
    hide Merge, Live;
  }

  lemma OneLessInside(live: map<nat, nat>, sizes: map<nat, nat>, o: nat)
    requires PayloadsInside(live, sizes)
    ensures PayloadsInside(live - {o}, sizes - {o})
  {
  }

  /** From a state where all fits, a step keeps it so iff a granted size neither wraps nor straddles. */
  lemma StepFitsIff(p: Pool, sizes: map<nat, nat>, op: Op)
    requires Inv(p) && Legal(p, op) && SizeT(op) && Fits(p, sizes)
    ensures Inv(Step(p, op)) && (Fits(Step(p, op), StepSizes(p, sizes, op)) <==> GrantFits(p, op))
  {
    hide Inv, Alloc, Free, Fits, Live, Straddles;
    StepInv(p, op);
    match op
    case OpAlloc(size) =>
      AllocAnswer(p, size);
      if Alloc(p, size).1.Some? {
        AllocFitsIff(p, sizes, size, Alloc(p, size).0, Alloc(p, size).1.value - HEADER_SIZE);
      }
    case OpFree(ptr) =>
      if ptr.Some? {
        FreeFits(p, sizes, ptr.value);
      } else {
        FreeNull(p);
      }
  }

  // ---- Runs ----

  ghost predicate LegalRun(p: Pool, ops: seq<Op>)
    decreases ops
  {
    ops == [] || (Inv(p) && Legal(p, ops[0]) && SizeT(ops[0]) && LegalRun(Step(p, ops[0]), ops[1..]))
  }

  /** In every state of the run all fits. */
  ghost predicate FitsThroughout(p: Pool, sizes: map<nat, nat>, ops: seq<Op>)
    decreases ops
  {
    Fits(p, sizes) && (ops == [] ||
      (Inv(p) && Legal(p, ops[0]) && FitsThroughout(Step(p, ops[0]), StepSizes(p, sizes, ops[0]), ops[1..])))
  }

  /** No size granted in the run wraps or straddles. */
  ghost predicate GrantsFit(p: Pool, ops: seq<Op>)
    decreases ops
  {
    ops == [] || (Inv(p) && Legal(p, ops[0]) && GrantFits(p, ops[0]) && GrantsFit(Step(p, ops[0]), ops[1..]))
  }

  /** Over every run from a state where all fits: every live payload stays inside its block and every block
      keeps room for a free header iff no granted size wraps or straddles. */
  lemma {:induction false} RunFitsIff(p: Pool, sizes: map<nat, nat>, ops: seq<Op>)
    requires Inv(p) && Fits(p, sizes) && LegalRun(p, ops)
    ensures FitsThroughout(p, sizes, ops) <==> GrantsFit(p, ops)
    decreases ops
  {
    if ops != [] {
      StepFitsIff(p, sizes, ops[0]);
      hide Inv, Step, StepSizes, Fits, GrantFits, Legal;
      if GrantFits(p, ops[0]) {
        RunFitsIff(Step(p, ops[0]), StepSizes(p, sizes, ops[0]), ops[1..]);
      } else {
        NotThroughout(Step(p, ops[0]), StepSizes(p, sizes, ops[0]), ops[1..]);
      }
    }
  }

  lemma NotThroughout(p: Pool, sizes: map<nat, nat>, ops: seq<Op>)
    requires !Fits(p, sizes)
    ensures !FitsThroughout(p, sizes, ops)
  {
    hide Fits;
  }

  /** A constructed pool fits. */
  lemma StartFits(size: nat)
    requires Pow2(SizeToOrder(PagesFor(size) * PAGE_SIZE)) <= PagesFor(size) * PAGE_SIZE
    ensures var bytes := PagesFor(size) * PAGE_SIZE; var top := SizeToOrder(bytes);
      MIN_ORDER <= top <= MAX_ORDER && Inv(Initial(top, bytes)) && Fits(Initial(top, bytes), map[])
  {
    hide Inv, SizeToOrder, Pow2, Initial, NoSmallest, Live;
    StartRoomy(size);
    ManagedRegionFits(size);
    var bytes := PagesFor(size) * PAGE_SIZE;
    InitialInv(SizeToOrder(bytes), bytes);
  }

  // ---- Smallest blocks alone ----

  /** From a state without smallest blocks, a step makes one iff it grants sixteen bytes or fewer. */
  lemma StepSmallestIff(p: Pool, op: Op)
    requires Inv(p) && Legal(p, op) && NoSmallest(p.blocks)
    ensures NoSmallest(Step(p, op).blocks) <==> !(op.OpAlloc? && op.size <= 16 && Alloc(p, op.size).1.Some?)
  {
    if Roomy(op) {
      StepNoSmallest(p, op);
    } else {
      AllocAnswer(p, op.size);
      hide Inv, Alloc, NoSmallest;
      if Alloc(p, op.size).1.Some? {
        var o := Alloc(p, op.size).1.value - HEADER_SIZE;
        AllocGrants(p, op.size, Alloc(p, op.size).0, o);
        SmallestLive(Alloc(p, op.size).0, o);
      }
    }
  }

  lemma SmallestLive(p: Pool, o: nat)
    requires o in Live(p.blocks) && Live(p.blocks)[o] == MIN_ORDER
    ensures !NoSmallest(p.blocks)
  {
  }

  // ---- An input ----

  /** Thirty-two bytes from a new pool, more than sixteen: the payload covers the next block's header. */
  lemma ThirtyTwo()
    ensures Inv(Initial(MAX_ORDER, Pow2(MAX_ORDER))) && Roomy(OpAlloc(32))
    ensures var (q, r) := Alloc(Initial(MAX_ORDER, Pow2(MAX_ORDER)), 32);
      && r == Some(HEADER_SIZE) && Live(q.blocks) == map[0 := 5] && 32 in q.blocks
      && HEADER_SIZE < 32 < HEADER_SIZE + 32
  {
    hide Pow2, Inv, Alloc, Initial, SizeToOrder, Rejected;
    OrderOfThirtyTwo();
    var p := Initial(MAX_ORDER, Pow2(MAX_ORDER));
    InitialInv(MAX_ORDER, Pow2(MAX_ORDER));
    InitialTop();
    NotRejected(32);
    NewPoolGrants(32);
    AllocAnswer(p, 32);
    AllocGrants(p, 32, Alloc(p, 32).0, 0);
    SecondHalf(Alloc(p, 32).0);
  }

  lemma OrderOfThirtyTwo()
    ensures Pow2(5) == 32 && SizeToOrder(32) == 5
  {
    Pow2Value();
    assert Pow2(5) == 2 * Pow2(4);
    OrderIs(32, 5);
  }

  lemma OrderIs(size: nat, j: nat)
    requires MIN_ORDER < j <= MAX_ORDER && Pow2(j - 1) < size <= Pow2(j)
    ensures SizeToOrder(size) == j
  {
    hide Pow2, SizeToOrder;
    Pow2Monotone(j, MAX_ORDER);
    OrderLeast(size);
    if SizeToOrder(size) < j {
      Pow2Monotone(SizeToOrder(size), j - 1);
    }
  }

  lemma InitialTop()
    ensures Initial(MAX_ORDER, Pow2(MAX_ORDER)).top == MAX_ORDER
  {
  }

  lemma NotRejected(size: nat)
    requires 0 < size <= 4096
    ensures !Rejected(size)
  {
    Pow2Value();
  }

  lemma SecondHalf(q: Pool)
    requires Inv(q) && q.top == MAX_ORDER && 0 in Live(q.blocks) && Live(q.blocks)[0] == 5 && Pow2(5) == 32
    ensures 32 in q.blocks
  {
    hide Pow2, BuddyOf, Aligned;
    BuddyIsBlockStart(q.top, q.blocks, 0);
    ZeroAligned(5);
    BuddyPair(0, 5);
  }
}
