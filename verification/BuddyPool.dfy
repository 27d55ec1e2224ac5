/** The buddy pool as a value: the tiling of the managed region into blocks, and the
    free lists.  Each function mirrors one member of the allocator in buddy.cpp. */
module BuddyPool {
  import opened Lists
  import opened Options
  import opened Powers

  const MIN_ORDER: nat := 4
  const MAX_ORDER: nat := 22
  const BIN_COUNT: nat := MAX_ORDER - MIN_ORDER + 1
  const NULL_OFFSET: nat := 0xFFFF_FFFF
  const PAGE_SIZE: nat := 4096
  const HEADER_SIZE: nat := 16
  const SIZE_T_RANGE: nat := 0x1_0000_0000_0000_0000

  datatype Block = Block(order: nat, free: bool)

  type Blocks = map<nat, Block>

  /** `top` is the order of the managed region, `limit` the number of bytes the pool's pages span. */
  datatype Pool = Pool(top: nat, limit: nat, blocks: Blocks, bins: seq<seq<nat>>)

  // ---- Orders and addresses ----

  function BitWidth(n: nat): (w: nat)
    ensures n < Pow2(w)
    ensures n > 0 ==> w > 0 && Pow2(w - 1) <= n
  {
    if n == 0 then 0 else 1 + BitWidth(n / 2)
  }

  function SizeToOrder(size: nat): nat {
    if size <= 16 then MIN_ORDER
    else if BitWidth(size - 1) < MAX_ORDER then BitWidth(size - 1) else MAX_ORDER
  }

  function BuddyOf(offset: nat, order: nat): nat {
    FlipBit(offset, order)
  }

  function Min(a: nat, b: nat): nat {
    if a < b then a else b
  }

  // ---- The invariant ----

  predicate InBlock(b: Blocks, o: nat, x: nat) {
    o in b && o <= x < o + Pow2(b[o].order)
  }

  ghost predicate Covered(b: Blocks, x: nat) {
    exists o :: InBlock(b, o, x)
  }

  /** A block of order k lies in the region at a multiple of 2^k. */
  predicate Placed(top: nat, o: nat, k: nat) {
    MIN_ORDER <= k <= top && Aligned(o, k) && o + Pow2(k) <= Pow2(top)
  }

  predicate Apart(b: Blocks, o: nat, p: nat)
    requires o in b && p in b
  {
    o + Pow2(b[o].order) <= p || p + Pow2(b[p].order) <= o
  }

  /** The blocks partition the managed region. */
  ghost predicate Tiled(top: nat, b: Blocks) {
    && (forall o :: o in b ==> Placed(top, o, b[o].order))
    && (forall o, p :: o in b && p in b && o != p ==> Apart(b, o, p))
    && (forall x :: 0 <= x < Pow2(top) ==> Covered(b, x))
  }

  predicate IsFree(b: Blocks, o: nat, k: nat) {
    o in b && b[o] == Block(k, true)
  }

  /** Every bin holds exactly the free blocks of its order, each once. */
  ghost predicate BinsExact(b: Blocks, bins: seq<seq<nat>>) {
    && |bins| == BIN_COUNT
    && (forall i :: 0 <= i < BIN_COUNT ==> NoDup(bins[i]))
    && (forall i, o :: 0 <= i < BIN_COUNT ==> (o in bins[i] <==> IsFree(b, o, i + MIN_ORDER)))
  }

  /** No two buddies of equal order are both free. */
  ghost predicate Coalesced(b: Blocks) {
    forall o, k :: IsFree(b, o, k) ==> !IsFree(b, BuddyOf(o, k), k)
  }

  ghost predicate Sized(p: Pool) {
    |p.bins| == BIN_COUNT && MIN_ORDER <= p.top <= MAX_ORDER
    && (p.limit == Pow2(p.top) || (p.top == MAX_ORDER && p.limit > Pow2(p.top)))
  }

  ghost predicate Inv(p: Pool) {
    Sized(p) && Tiled(p.top, p.blocks) && BinsExact(p.blocks, p.bins) && Coalesced(p.blocks)
  }

  /** The blocks handed out, with their orders. */
  function Live(b: Blocks): map<nat, nat> {
    map o | o in b && !b[o].free :: b[o].order
  }

  ghost predicate FreeAt(b: Blocks, x: nat) {
    exists o :: InBlock(b, o, x) && b[o].free
  }

  // ---- The operations ----

  function Without(s: seq<nat>, x: nat): (r: seq<nat>)
    ensures forall y :: y in r ==> y in s
  {
    if s == [] then [] else if s[0] == x then s[1..] else [s[0]] + Without(s[1..], x)
  }

  function Push(p: Pool, o: nat, k: nat): Pool
    requires |p.bins| == BIN_COUNT && MIN_ORDER <= k <= MAX_ORDER
  {
    var i := k - MIN_ORDER;
    p.(blocks := p.blocks[o := Block(k, true)], bins := p.bins[i := [o] + p.bins[i]])
  }

  function Remove(p: Pool, o: nat, k: nat): Pool
    requires |p.bins| == BIN_COUNT && MIN_ORDER <= k <= MAX_ORDER
  {
    var i := k - MIN_ORDER;
    p.(blocks := p.blocks[o := Block(k, false)], bins := p.bins[i := Without(p.bins[i], o)])
  }

  function Split(p: Pool, o: nat, k: nat, target: nat): (r: Pool)
    requires |p.bins| == BIN_COUNT && MIN_ORDER <= target <= k <= MAX_ORDER
    ensures |r.bins| == BIN_COUNT
    decreases k
  {
    if k == target then p
    else
      var q := p.(blocks := p.blocks[o := Block(k - 1, false)]);
      Split(Push(q, BuddyOf(o, k - 1), k - 1), o, k - 1, target)
  }

  /** Two buddies become the lower one, one order up, still in the hands of the merge. */
  function Fuse(p: Pool, o: nat, k: nat): Pool
    requires |p.bins| == BIN_COUNT && MIN_ORDER <= k < MAX_ORDER
  {
    var b := BuddyOf(o, k);
    var q := Remove(p, b, k);
    q.(blocks := (q.blocks - {o, b})[Min(o, b) := Block(k + 1, false)])
  }

  predicate Mergeable(p: Pool, o: nat, k: nat) {
    k < MAX_ORDER && BuddyOf(o, k) < p.limit && IsFree(p.blocks, BuddyOf(o, k), k)
  }

  function Merge(p: Pool, o: nat, k: nat): (r: Pool)
    requires |p.bins| == BIN_COUNT && MIN_ORDER <= k <= MAX_ORDER
    ensures |r.bins| == BIN_COUNT
    decreases MAX_ORDER - k
  {
    if Mergeable(p, o, k) then Merge(Fuse(p, o, k), Min(o, BuddyOf(o, k)), k + 1)
    else Push(p, o, k)
  }

  /** Index of the first non-empty bin at or above `i`. */
  function FirstBin(bins: seq<seq<nat>>, i: nat): (r: nat)
    requires i <= |bins|
    ensures i <= r <= |bins|
    ensures forall j :: i <= j < r ==> bins[j] == []
    ensures r < |bins| ==> bins[r] != []
    decreases |bins| - i
  {
    if i == |bins| || bins[i] != [] then i else FirstBin(bins, i + 1)
  }

  /** The size test of `alloc`; the sum is a 64-bit one. */
  predicate Rejected(size: nat) {
    size == 0 || (size + HEADER_SIZE) % SIZE_T_RANGE > Pow2(MAX_ORDER)
  }

  function Alloc(p: Pool, size: nat): (r: (Pool, Option<nat>))
    requires |p.bins| == BIN_COUNT
    ensures |r.0.bins| == BIN_COUNT
  {
    if Rejected(size) then (p, None)
    else
      var target := SizeToOrder(size);
      var i := FirstBin(p.bins, target - MIN_ORDER);
      if i == BIN_COUNT then (p, None)
      else
        var o := p.bins[i][0];
        (Split(Remove(p, o, i + MIN_ORDER), o, i + MIN_ORDER, target), Some(o + HEADER_SIZE))
  }

  /** Freeing null does nothing; otherwise the pointer's header gives the order. */
  function Free(p: Pool, ptr: Option<nat>): (r: Pool)
    requires |p.bins| == BIN_COUNT
    requires ptr.Some? ==> ptr.value >= HEADER_SIZE && ptr.value - HEADER_SIZE in Live(p.blocks)
    requires ptr.Some? ==> MIN_ORDER <= p.blocks[ptr.value - HEADER_SIZE].order <= MAX_ORDER
    ensures |r.bins| == BIN_COUNT
  {
    if ptr.None? then p else Merge(p, ptr.value - HEADER_SIZE, p.blocks[ptr.value - HEADER_SIZE].order)
  }

  function Initial(top: nat, limit: nat): Pool
    requires MIN_ORDER <= top <= MAX_ORDER
  {
    Push(Pool(top, limit, map[], seq(BIN_COUNT, _ => [])), 0, top)
  }
}
