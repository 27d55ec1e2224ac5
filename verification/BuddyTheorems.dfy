/** What every run of the buddy allocator keeps, and what its answers mean. */
module BuddyTheorems {
  import opened Lists
  import opened Options
  import opened Powers
  import opened BuddyPool
  import opened BuddyTiling

  // ---- Free lists ----

  lemma {:induction false} WithoutExact(s: seq<nat>, x: nat)
    requires NoDup(s)
    ensures NoDup(Without(s, x))
    ensures forall y :: y in Without(s, x) <==> y in s && y != x
  {
    if s != [] && s[0] != x {
      var rest := s[1..];
      assert forall y :: y in s <==> y == s[0] || y in rest;
      WithoutExact(rest, x);
      assert s[0] !in Without(rest, x);
    } else if s != [] {
      assert forall y :: y in s <==> y == s[0] || y in s[1..];
    }
  }

  lemma PushBins(b: Blocks, bins: seq<seq<nat>>, o: nat, k: nat)
    requires BinsExact(b, bins) && MIN_ORDER <= k <= MAX_ORDER
    requires forall j :: !IsFree(b, o, j)
    ensures BinsExact(b[o := Block(k, true)], bins[k - MIN_ORDER := [o] + bins[k - MIN_ORDER]])
  {
    var i := k - MIN_ORDER;
    assert o !in bins[i];
  }

  lemma RemoveBins(b: Blocks, bins: seq<seq<nat>>, o: nat, k: nat)
    requires BinsExact(b, bins) && MIN_ORDER <= k <= MAX_ORDER && IsFree(b, o, k)
    ensures BinsExact(b[o := Block(k, false)], bins[k - MIN_ORDER := Without(bins[k - MIN_ORDER], o)])
  {
    WithoutExact(bins[k - MIN_ORDER], o);
  }

  // ---- Each operation keeps the invariant ----

  lemma PushInv(p: Pool, o: nat, k: nat)
    requires Inv(p) && o in p.blocks && p.blocks[o] == Block(k, false)
    requires !IsFree(p.blocks, BuddyOf(o, k), k)
    ensures MIN_ORDER <= k <= MAX_ORDER
    ensures Inv(Push(p, o, k))
    ensures Live(Push(p, o, k).blocks) == Live(p.blocks) - {o}
  {
    var q := Push(p, o, k);
    FlagTiled(p.top, p.blocks, o, true);
    PushBins(p.blocks, p.bins, o, k);
    BuddyPair(o, k);
    forall x, j | IsFree(q.blocks, x, j)
      ensures !IsFree(q.blocks, BuddyOf(x, j), j)
    {
      BuddyPair(x, j);
    }
  }

  lemma RemoveInv(p: Pool, o: nat, k: nat)
    requires Inv(p) && IsFree(p.blocks, o, k)
    ensures MIN_ORDER <= k <= MAX_ORDER
    ensures Inv(Remove(p, o, k))
    ensures Live(Remove(p, o, k).blocks) == Live(p.blocks)[o := k]
  {
    FlagTiled(p.top, p.blocks, o, false);
    RemoveBins(p.blocks, p.bins, o, k);
  }

  lemma SplitOnce(p: Pool, o: nat, k: nat)
    requires Inv(p) && o in p.blocks && p.blocks[o] == Block(k + 1, false) && k >= MIN_ORDER
    ensures k < MAX_ORDER
    ensures var q := Push(p.(blocks := p.blocks[o := Block(k, false)]), BuddyOf(o, k), k);
      Inv(q) && q.blocks[o] == Block(k, false) && Live(q.blocks) == Live(p.blocks)[o := k]
  {
    var d := BuddyOf(o, k);
    HalfStart(p.top, p.blocks, o, k);
    HalveTiled(p.top, p.blocks, o, k, true);
    var b := p.blocks[o := Block(k, false)];
    var q := Push(p.(blocks := b), d, k);
    assert q.blocks == Halve(p.blocks, o, k, true);
    PushBins(b, p.bins, d, k);
    BuddyPair(o, k);
    forall x, j | IsFree(q.blocks, x, j)
      ensures !IsFree(q.blocks, BuddyOf(x, j), j)
    {
      BuddyPair(x, j);
    }
  }

  lemma {:induction false} SplitInv(p: Pool, o: nat, k: nat, target: nat)
    requires Inv(p) && o in p.blocks && p.blocks[o] == Block(k, false)
    requires MIN_ORDER <= target <= k <= MAX_ORDER
    ensures var q := Split(p, o, k, target);
      Inv(q) && q.top == p.top && q.limit == p.limit && Live(q.blocks) == Live(p.blocks)[o := target]
    decreases k
  {
    hide Tiled, BinsExact, Coalesced, BuddyOf;
    if k == target {
      assert Live(p.blocks)[o := target] == Live(p.blocks);
    } else {
      SplitOnce(p, o, k - 1);
      SplitInv(Push(p.(blocks := p.blocks[o := Block(k - 1, false)]), BuddyOf(o, k - 1), k - 1), o, k - 1, target);
    }
  }

  lemma FuseInv(p: Pool, o: nat, k: nat)
    requires Inv(p) && o in p.blocks && p.blocks[o] == Block(k, false) && Mergeable(p, o, k)
    requires MIN_ORDER <= k
    ensures var m := Min(o, BuddyOf(o, k)); var q := Fuse(p, o, k);
      && Inv(q) && m in q.blocks && q.blocks[m] == Block(k + 1, false)
      && Live(q.blocks) - {m} == Live(p.blocks) - {o}
  {
    var d := BuddyOf(o, k);
    BuddyPair(o, k);
    var r := Remove(p, d, k);
    RemoveInv(p, d, k);
    JoinTiled(p.top, r.blocks, o, k);
    var q := Fuse(p, o, k);
    assert q.blocks == Join(r.blocks, o, k);
  }

  /** The two guards of a merge that look at addresses never refuse a free buddy of equal order. */
  lemma BuddyInside(p: Pool, o: nat, k: nat)
    requires Inv(p) && o in p.blocks && p.blocks[o].order == k
    ensures Mergeable(p, o, k) <==> IsFree(p.blocks, BuddyOf(o, k), k)
  {
    if IsFree(p.blocks, BuddyOf(o, k), k) {
      JoinPlaced(p.top, p.blocks, o, k);
    }
  }

  lemma {:induction false} MergeInv(p: Pool, o: nat, k: nat)
    requires Inv(p) && o in p.blocks && p.blocks[o] == Block(k, false)
    requires MIN_ORDER <= k <= MAX_ORDER
    ensures var q := Merge(p, o, k);
      Inv(q) && q.top == p.top && q.limit == p.limit && Live(q.blocks) == Live(p.blocks) - {o}
    decreases MAX_ORDER - k
  {
    hide BuddyOf, Live, Tiled, Coalesced;
    if Mergeable(p, o, k) {
      FuseInv(p, o, k);
      var q, m := Fuse(p, o, k), Min(o, BuddyOf(o, k));
      MergeInv(q, m, k + 1);
    } else {
      BuddyInside(p, o, k);
      PushInv(p, o, k);
    }
  }

  // ---- Windows ----

  /** An aligned window of 2^k bytes of the managed region, all of it in free blocks. */
  ghost predicate FreeWindow(top: nat, b: Blocks, w: nat, k: nat) {
    Placed(top, w, k) && forall x :: w <= x < w + Pow2(k) ==> FreeAt(b, x)
  }

  lemma {:induction false} NoSmallBlocks(p: Pool, w: nat, k: nat, m: nat)
    requires Inv(p) && FreeWindow(p.top, p.blocks, w, k) && MIN_ORDER <= m <= k
    ensures forall o :: o in p.blocks && w <= o < w + Pow2(k) ==> p.blocks[o].order >= m
  {
    if m > MIN_ORDER {
      NoSmallBlocks(p, w, k, m - 1);
      forall o | o in p.blocks && w <= o < w + Pow2(k)
        ensures p.blocks[o].order >= m
      {
        if p.blocks[o].order == m - 1 {
          WindowBlockFree(p, w, k, o);
          BuddyPair(o, m - 1);
          var d := BuddyOf(o, m - 1);
          Laminar(Min(o, d), m, w, k);
          BuddyIsBlockStart(p.top, p.blocks, o);
          WindowBlockFree(p, w, k, d);
          assert false;
        }
      }
    }
  }

  lemma WindowBlockFree(p: Pool, w: nat, k: nat, o: nat)
    requires Inv(p) && FreeWindow(p.top, p.blocks, w, k)
    requires o in p.blocks && w <= o < w + Pow2(k)
    ensures p.blocks[o].free
  {
    assert FreeAt(p.blocks, o);
    var c :| InBlock(p.blocks, c, o) && p.blocks[c].free;
    TileUnique(p.top, p.blocks, o, c, o);
  }

  /** Coalescing is complete: a wholly free window always lies inside one free block. */
  lemma FreeWindowInOneBlock(p: Pool, w: nat, k: nat) returns (o: nat)
    requires Inv(p) && FreeWindow(p.top, p.blocks, w, k)
    ensures o in p.blocks && p.blocks[o].free && p.blocks[o].order >= k
    ensures o <= w && w + Pow2(k) <= o + Pow2(p.blocks[o].order)
  {
    assert FreeAt(p.blocks, w);
    o :| InBlock(p.blocks, o, w) && p.blocks[o].free;
    var j := p.blocks[o].order;
    if j < k {
      Laminar(o, j, w, k);
      NoSmallBlocks(p, w, k, k);
      assert false;
    }
    Laminar(w, k, o, j);
  }

  // ---- alloc ----

  /** A granted request hands out the block that starts the smallest adequate free block, cut down
      to the order of the request; the rest of the ledger of live blocks is unchanged. */
  lemma AllocGrants(p: Pool, size: nat, q: Pool, o: nat)
    requires Inv(p) && Alloc(p, size) == (q, Some(o + HEADER_SIZE))
    ensures Inv(q) && q.top == p.top && q.limit == p.limit
    ensures o !in Live(p.blocks) && Live(q.blocks) == Live(p.blocks)[o := SizeToOrder(size)]
    ensures o in p.blocks && p.blocks[o].free && p.blocks[o].order >= SizeToOrder(size)
    ensures forall x, j: nat :: IsFree(p.blocks, x, j) && j >= SizeToOrder(size) ==> p.blocks[o].order <= j
  {
    hide Tiled, Coalesced, Alloc, Split, Live, SizeToOrder;
    var f := AllocShape(p, size, q, o);
    FirstBinLeast(p, SizeToOrder(size), f, o);
    RemoveInv(p, o, f);
    SplitInv(Remove(p, o, f), o, f, SizeToOrder(size));
  }

  lemma AllocShape(p: Pool, size: nat, q: Pool, o: nat) returns (f: nat)
    requires |p.bins| == BIN_COUNT && Alloc(p, size) == (q, Some(o + HEADER_SIZE))
    ensures MIN_ORDER <= SizeToOrder(size) <= f <= MAX_ORDER
    ensures f - MIN_ORDER == FirstBin(p.bins, SizeToOrder(size) - MIN_ORDER) && o == p.bins[f - MIN_ORDER][0]
    ensures q == Split(Remove(p, o, f), o, f, SizeToOrder(size))
  {
    f := FirstBin(p.bins, SizeToOrder(size) - MIN_ORDER) + MIN_ORDER;
  }

  lemma FirstBinLeast(p: Pool, k: nat, f: nat, o: nat)
    requires Inv(p) && MIN_ORDER <= k <= f <= MAX_ORDER
    requires f - MIN_ORDER == FirstBin(p.bins, k - MIN_ORDER) && o == p.bins[f - MIN_ORDER][0]
    ensures IsFree(p.blocks, o, f) && o !in Live(p.blocks)
    ensures o in p.blocks && p.blocks[o] == Block(f, true)
    ensures forall x, j: nat :: IsFree(p.blocks, x, j) && j >= k ==> f <= j
  {
    assert o in p.bins[f - MIN_ORDER];
    forall x, j: nat | IsFree(p.blocks, x, j) && j >= k
      ensures f <= j
    {
      assert x in p.bins[j - MIN_ORDER];
    }
  }

  lemma FreeIsBinned(p: Pool, o: nat)
    requires Inv(p) && o in p.blocks && p.blocks[o].free
    ensures MIN_ORDER <= p.blocks[o].order <= MAX_ORDER && o in p.bins[p.blocks[o].order - MIN_ORDER]
  {
    assert IsFree(p.blocks, o, p.blocks[o].order);
  }

  /** Refusal is exact: a size that passes the test is refused iff no aligned window of the
      request's order is wholly free, and a refusal changes nothing. */
  lemma RefusalExact(p: Pool, size: nat)
    requires Inv(p) && !Rejected(size)
    ensures Alloc(p, size).1 == None <==> forall w :: !FreeWindow(p.top, p.blocks, w, SizeToOrder(size))
    ensures Alloc(p, size).1 == None ==> Alloc(p, size).0 == p
  {
    var k := SizeToOrder(size);
    if Alloc(p, size).1 == None {
      forall w | FreeWindow(p.top, p.blocks, w, k)
        ensures false
      {
        var o := FreeWindowInOneBlock(p, w, k);
        FreeIsBinned(p, o);
      }
    } else {
      var (q, ptr) := Alloc(p, size);
      var o := ptr.value - HEADER_SIZE;
      AllocGrants(p, size, q, o);
      var j := p.blocks[o].order;
      AlignedDown(o, j, k);
      Pow2Monotone(k, j);
      forall x | o <= x < o + Pow2(k)
        ensures FreeAt(p.blocks, x)
      {
        assert InBlock(p.blocks, o, x);
      }
      assert FreeWindow(p.top, p.blocks, o, k);
    }
  }

  lemma Pow2Value()
    ensures Pow2(4) == 16 && Pow2(12) == 4096 && Pow2(22) == 4194304
  {
    assert Pow2(8) == 16 * Pow2(4);
    assert Pow2(12) == 16 * Pow2(8);
    assert Pow2(16) == 16 * Pow2(12);
    assert Pow2(20) == 16 * Pow2(16);
  }

  /** Order computation: the least order from 4 to 22 whose block holds `size` bytes. */
  lemma OrderLeast(size: nat)
    requires size <= Pow2(MAX_ORDER)
    ensures var k := SizeToOrder(size);
      && MIN_ORDER <= k <= MAX_ORDER && size <= Pow2(k)
      && (forall j :: MIN_ORDER <= j < k ==> Pow2(j) < size)
      && 4 <= k <= 22 && (size <= 16 ==> k == 4)
  {
    Pow2Value();
    var k := SizeToOrder(size);
    if size > 16 {
      var w := BitWidth(size - 1);
      if w > MAX_ORDER {
        Pow2Monotone(MAX_ORDER, w - 1);
        assert false;
      }
      if w < MIN_ORDER {
        Pow2Monotone(w, MIN_ORDER);
        assert false;
      }
      forall j | MIN_ORDER <= j < k
        ensures Pow2(j) < size
      {
        Pow2Monotone(j, w - 1);
      }
    }
  }

  /** The size test is a wrapping one: it rejects exactly the sizes above 4 MB less the header that
      do not wrap.  A granted block therefore holds `size` bytes iff the size does not wrap. */
  lemma GrantHoldsSize(p: Pool, size: nat)
    requires Inv(p) && size < SIZE_T_RANGE
    ensures size > 0 ==> (Rejected(size) <==> Pow2(MAX_ORDER) - HEADER_SIZE < size < SIZE_T_RANGE - HEADER_SIZE)
    ensures size > 0 ==> (Rejected(size) <==> 4194288 < size < 0xFFFF_FFFF_FFFF_FFF0)
    ensures size == 0 ==> Alloc(p, size) == (p, None)
    ensures Alloc(p, size).1.Some? ==>
      (size <= Pow2(SizeToOrder(size)) <==> size < SIZE_T_RANGE - HEADER_SIZE)
  {
    Pow2Value();
    if size >= SIZE_T_RANGE - HEADER_SIZE {
      assert (size + HEADER_SIZE) % SIZE_T_RANGE == size + HEADER_SIZE - SIZE_T_RANGE;
      var k := SizeToOrder(size);
      Pow2Monotone(k, MAX_ORDER);
    } else if !Rejected(size) {
      OrderLeast(size);
    }
  }

  // ---- free ----

  lemma FreedIsPlaced(p: Pool, o: nat)
    requires Inv(p) && o in Live(p.blocks)
    ensures o in p.blocks && !p.blocks[o].free && MIN_ORDER <= p.blocks[o].order <= MAX_ORDER
    ensures |p.bins| == BIN_COUNT
  {
  }

  lemma FreeInv(p: Pool, ptr: nat)
    requires Inv(p) && ptr >= HEADER_SIZE && ptr - HEADER_SIZE in Live(p.blocks)
    ensures MIN_ORDER <= p.blocks[ptr - HEADER_SIZE].order <= MAX_ORDER
    ensures var q := Free(p, Some(ptr));
      && Inv(q) && q.top == p.top && q.limit == p.limit
      && Live(q.blocks) == Live(p.blocks) - {ptr - HEADER_SIZE}
  {
    hide Tiled, BinsExact, Coalesced;
    var o := ptr - HEADER_SIZE;
    FreedIsPlaced(p, o);
    MergeInv(p, o, p.blocks[o].order);
  }

  // ---- Canonical form ----

  ghost predicate LiveAt(live: map<nat, nat>, x: nat) {
    exists o :: o in live && o <= x < o + Pow2(live[o])
  }

  lemma FreeIffNotLive(top: nat, b: Blocks, x: nat)
    requires Tiled(top, b) && x < Pow2(top)
    ensures FreeAt(b, x) <==> !LiveAt(Live(b), x)
  {
    var live := Live(b);
    var o := TileAt(top, b, x);
    hide Tiled;
    if !b[o].free {
      assert o in live && o <= x < o + Pow2(live[o]);
    }
    if FreeAt(b, x) && LiveAt(live, x) {
      var c :| InBlock(b, c, x) && b[c].free;
      var d :| d in live && d <= x < d + Pow2(live[d]);
      TileUnique(top, b, c, d, x);
      assert false;
    }
  }

  lemma FreeBlockAgrees(p: Pool, q: Pool, o: nat)
    requires Inv(p) && Inv(q) && p.top == q.top && Live(p.blocks) == Live(q.blocks)
    requires o in p.blocks && p.blocks[o].free
    ensures o in q.blocks && q.blocks[o] == p.blocks[o]
  {
    var c := CoveringFree(p, q, o);
    var d := CoveringFree(q, p, c);
    TileUnique(p.top, p.blocks, o, d, o);
    var j, k := p.blocks[o].order, q.blocks[c].order;
    if j < k {
      Pow2Monotone(j, k);
      assert false;
    }
  }

  lemma CoveringFree(p: Pool, q: Pool, o: nat) returns (c: nat)
    requires Inv(p) && Inv(q) && p.top == q.top && Live(p.blocks) == Live(q.blocks)
    requires o in p.blocks && p.blocks[o].free
    ensures c in q.blocks && q.blocks[c].free && q.blocks[c].order >= p.blocks[o].order
    ensures c <= o && o + Pow2(p.blocks[o].order) <= c + Pow2(q.blocks[c].order)
  {
    var k := p.blocks[o].order;
    forall x | o <= x < o + Pow2(k)
      ensures FreeAt(q.blocks, x)
    {
      assert InBlock(p.blocks, o, x);
      FreeIffNotLive(p.top, p.blocks, x);
      FreeIffNotLive(q.top, q.blocks, x);
    }
    c := FreeWindowInOneBlock(q, o, k);
  }

  /** The live blocks determine every block: the free part has exactly one coalesced tiling. */
  lemma CanonicalForm(p: Pool, q: Pool)
    requires Inv(p) && Inv(q) && p.top == q.top && Live(p.blocks) == Live(q.blocks)
    ensures p.blocks == q.blocks
    ensures forall i :: 0 <= i < BIN_COUNT ==> multiset(p.bins[i]) == multiset(q.bins[i])
  {
    forall o
      ensures o in p.blocks <==> o in q.blocks
      ensures o in p.blocks ==> p.blocks[o] == q.blocks[o]
    {
      BlockAgrees(p, q, o);
      BlockAgrees(q, p, o);
    }
    forall i | 0 <= i < BIN_COUNT
      ensures multiset(p.bins[i]) == multiset(q.bins[i])
    {
      assert forall o :: o in p.bins[i] <==> o in q.bins[i];
      SameMembers(p.bins[i], q.bins[i]);
    }
  }

  lemma BlockAgrees(p: Pool, q: Pool, o: nat)
    requires Inv(p) && Inv(q) && p.top == q.top && Live(p.blocks) == Live(q.blocks)
    ensures o in p.blocks ==> o in q.blocks && q.blocks[o] == p.blocks[o]
  {
    if o in p.blocks {
      if p.blocks[o].free {
        FreeBlockAgrees(p, q, o);
      } else {
        assert o in Live(p.blocks) && Live(p.blocks)[o] == p.blocks[o].order;
        assert o in Live(q.blocks) && Live(q.blocks)[o] == q.blocks[o].order;
      }
    }
  }

  lemma {:induction false} CountOnce(s: seq<nat>, x: nat)
    requires NoDup(s)
    ensures multiset(s)[x] == if x in s then 1 else 0
  {
    if s != [] {
      assert s == [s[0]] + s[1..];
      CountOnce(s[1..], x);
    }
  }

  lemma SameMembers(s: seq<nat>, t: seq<nat>)
    requires NoDup(s) && NoDup(t) && forall x :: x in s <==> x in t
    ensures multiset(s) == multiset(t)
  {
    forall x: nat
      ensures multiset(s)[x] == multiset(t)[x]
    {
      CountOnce(s, x);
      CountOnce(t, x);
    }
  }

  // ---- Consequences for whole runs ----

  datatype Op = OpAlloc(size: nat) | OpFree(ptr: Option<nat>)

  /** Only live pointers and null may be freed. */
  ghost predicate Legal(p: Pool, op: Op) {
    op.OpFree? && op.ptr.Some? ==> op.ptr.value >= HEADER_SIZE && op.ptr.value - HEADER_SIZE in Live(p.blocks)
  }

  ghost function Step(p: Pool, op: Op): Pool
    requires Inv(p) && Legal(p, op)
  {
    match op
    case OpAlloc(size) => Alloc(p, size).0
    case OpFree(ptr) => Free(p, ptr)
  }

  lemma StepInv(p: Pool, op: Op)
    requires Inv(p) && Legal(p, op)
    ensures Inv(Step(p, op)) && Step(p, op).top == p.top && Step(p, op).limit == p.limit
  {
    match op {
      case OpAlloc(size) =>
        var (q, ptr) := Alloc(p, size);
        if ptr.Some? {
          AllocGrants(p, size, q, ptr.value - HEADER_SIZE);
        }
      case OpFree(ptr) =>
        if ptr.Some? {
          FreeInv(p, ptr.value);
        }
    }
  }

  /** `q` is reached from `p` by the operations `ops`. */
  ghost predicate Run(p: Pool, ops: seq<Op>, q: Pool)
    decreases ops
  {
    if ops == [] then p == q
    else Inv(p) && Legal(p, ops[0]) && Run(Step(p, ops[0]), ops[1..], q)
  }

  lemma InitialTiled(top: nat)
    requires MIN_ORDER <= top
    ensures Tiled(top, map[0 := Block(top, true)])
  {
    ZeroAligned(top);
    hide Aligned, Pow2;
    forall x | 0 <= x < Pow2(top)
      ensures Covered(map[0 := Block(top, true)], x)
    {
      assert InBlock(map[0 := Block(top, true)], 0, x);
    }
  }

  lemma InitialInv(top: nat, limit: nat)
    requires MIN_ORDER <= top <= MAX_ORDER
    requires limit == Pow2(top) || (top == MAX_ORDER && limit > Pow2(top))
    ensures Inv(Initial(top, limit)) && Live(Initial(top, limit).blocks) == map[]
    ensures Initial(top, limit).blocks == map[0 := Block(top, true)]
  {
    InitialTiled(top);
    ZeroAligned(top);
    BuddyPair(0, top);
    InitialBins(top, limit);
    hide Aligned, Pow2, BuddyOf, Tiled, BinsExact;
  }

  lemma InitialBins(top: nat, limit: nat)
    requires MIN_ORDER <= top <= MAX_ORDER
    ensures BinsExact(Initial(top, limit).blocks, Initial(top, limit).bins)
  {
    hide Pow2;
  }

  /** Tiling, exact bins and full coalescing hold in every reachable state, and a reachable state
      with nothing live is the start state: one free block, one bin, the same lists. */
  lemma {:induction false} RunInv(p: Pool, ops: seq<Op>, q: Pool)
    requires Inv(p) && Run(p, ops, q)
    ensures Inv(q) && q.top == p.top && q.limit == p.limit
    ensures Live(q.blocks) == map[] ==> q == Initial(p.top, p.limit)
    decreases ops
  {
    if ops == [] {
      if Live(q.blocks) == map[] {
        EmptyIsInitial(q);
      }
    } else {
      StepInv(p, ops[0]);
      RunInv(Step(p, ops[0]), ops[1..], q);
    }
  }

  lemma EmptyIsInitial(p: Pool)
    requires Inv(p) && Live(p.blocks) == map[]
    ensures p == Initial(p.top, p.limit)
  {
    var i := Initial(p.top, p.limit);
    InitialInv(p.top, p.limit);
    CanonicalForm(p, i);
    forall j | 0 <= j < BIN_COUNT
      ensures p.bins[j] == i.bins[j]
    {
      var s, t := p.bins[j], i.bins[j];
      assert |s| == |multiset(s)| == |multiset(t)| == |t|;
      if |s| == 1 {
        assert t[0] in multiset(t);
        assert t[0] in s;
      }
    }
  }

  ghost predicate Drains(p: Pool, order: seq<nat>) {
    NoDup(order) && forall o :: o in order <==> o in Live(p.blocks)
  }

  /** Free the blocks at the given offsets, one after the other. */
  ghost function FreeEach(p: Pool, order: seq<nat>): Pool
    requires Inv(p) && NoDup(order) && forall o :: o in order ==> o in Live(p.blocks)
    decreases order
  {
    if order == [] then p
    else
      FreeInv(p, order[0] + HEADER_SIZE);
      FreeEach(Free(p, Some(order[0] + HEADER_SIZE)), order[1..])
  }

  /** Freeing all outstanding blocks, in any order, restores the constructed state. */
  lemma {:induction false} DrainRestores(p: Pool, order: seq<nat>)
    requires Inv(p) && Drains(p, order)
    ensures FreeEach(p, order) == Initial(p.top, p.limit)
    decreases order
  {
    hide Tiled, BinsExact, Coalesced, BuddyOf;
    if order == [] {
      assert Live(p.blocks) == map[];
      EmptyIsInitial(p);
    } else {
      FreeInv(p, order[0] + HEADER_SIZE);
      var q := Free(p, Some(order[0] + HEADER_SIZE));
      assert forall o :: o in order <==> o == order[0] || o in order[1..];
      DrainRestores(q, order[1..]);
    }
  }

  /** A free right after an alloc gives back every block as it was. */
  lemma AllocFreeRoundTrip(p: Pool, size: nat, q: Pool, o: nat)
    requires Inv(p) && Alloc(p, size) == (q, Some(o + HEADER_SIZE))
    ensures Inv(q) && o in Live(q.blocks)
    ensures Free(q, Some(o + HEADER_SIZE)).blocks == p.blocks
  {
    hide Tiled, BinsExact, Coalesced, BuddyOf;
    AllocGrants(p, size, q, o);
    FreeInv(q, o + HEADER_SIZE);
    assert Live(p.blocks)[o := SizeToOrder(size)] - {o} == Live(p.blocks);
    CanonicalForm(Free(q, Some(o + HEADER_SIZE)), p);
  }

  /** Two live blocks of any state occupy disjoint windows, each at a multiple of its size. */
  lemma LiveDisjoint(p: Pool, o: nat, c: nat)
    requires Inv(p) && o in Live(p.blocks) && c in Live(p.blocks) && o != c
    ensures var j, k := Live(p.blocks)[o], Live(p.blocks)[c];
      && Placed(p.top, o, j) && Placed(p.top, c, k)
      && (o + Pow2(j) <= c || c + Pow2(k) <= o)
  {
    assert Apart(p.blocks, o, c);
  }

  // ---- The constructor's rounding ----

  function PagesFor(size: nat): nat {
    var pages := (size + PAGE_SIZE - 1) / PAGE_SIZE;
    if pages == 0 then 1 else pages
  }

  /** The pages cover the size asked for, and one fewer would not. */
  lemma LeastPages(size: nat)
    ensures var n := PagesFor(size); n >= 1 && size <= n * 4096 && (n == 1 || (n - 1) * 4096 < size)
  {
  }

  /** The managed region lies inside the pages requested iff they span a power of two, or 4 MB and more. */
  lemma ManagedRegionFits(size: nat)
    ensures var bytes := PagesFor(size) * PAGE_SIZE; var top := SizeToOrder(bytes);
      && MIN_ORDER <= top <= MAX_ORDER
      && (Pow2(top) <= bytes <==> (exists k: nat :: bytes == Pow2(k)) || bytes >= Pow2(MAX_ORDER))
      && (Pow2(top) <= bytes ==> bytes == Pow2(top) || (top == MAX_ORDER && bytes > Pow2(top)))
  {
    Pow2Value();
    var bytes := PagesFor(size) * PAGE_SIZE;
    var top := SizeToOrder(bytes);
    if bytes >= Pow2(MAX_ORDER) {
      var w := BitWidth(bytes - 1);
      if w < MAX_ORDER {
        Pow2Monotone(w, MAX_ORDER);
      }
    } else {
      OrderLeast(bytes);
      if exists k: nat :: bytes == Pow2(k) {
        var k: nat :| bytes == Pow2(k);
        if k < top {
          if k < MIN_ORDER {
            Pow2Monotone(k, MIN_ORDER);
          }
          assert false;
        }
        Pow2Monotone(top, k);
      }
    }
  }
}
