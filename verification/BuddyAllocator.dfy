/** The buddy allocator as it runs: headers in memory, list links threaded through them,
    a table of list heads and a bitmap of the non-empty ones. */
module BuddyMachine {
  import opened Lists
  import opened Options
  import opened Powers
  import opened Words
  import opened BuddyPool
  import opened BuddyTiling
  import opened BuddyTheorems

  /** Header of a block; the links mean something only while the block is free. */
  datatype Header = Header(order: nat, isFree: bool, next: nat, prev: nat)

  type Memory = map<nat, Header>

  const WORD_BITS: nat := 32

  // ---- What the links, heads, bitmap and headers say about a pool ----

  function After(l: seq<nat>, j: int): nat
    requires -1 <= j < |l|
  {
    if j + 1 < |l| then l[j + 1] else NULL_OFFSET
  }

  function Before(l: seq<nat>, j: int): nat
    requires 0 <= j < |l|
  {
    if j > 0 then l[j - 1] else NULL_OFFSET
  }

  predicate LinkedAt(h: Memory, l: seq<nat>, j: nat)
    requires j < |l|
  {
    l[j] in h && h[l[j]].next == After(l, j) && h[l[j]].prev == Before(l, j)
  }

  /** `l` is the list that starts at `head`: next and prev are mutually inverse along it. */
  ghost predicate Threaded(h: Memory, head: nat, l: seq<nat>) {
    head == After(l, -1) && forall j :: 0 <= j < |l| ==> LinkedAt(h, l, j)
  }

  ghost predicate AllThreaded(h: Memory, heads: seq<nat>, bins: seq<seq<nat>>) {
    |heads| == |bins| == BIN_COUNT && forall i :: 0 <= i < BIN_COUNT ==> Threaded(h, heads[i], bins[i])
  }

  ghost predicate BitmapExact(w: Word, bins: seq<seq<nat>>) {
    |w| == WORD_BITS && |bins| == BIN_COUNT
    && forall i :: 0 <= i < WORD_BITS ==> (w[i] <==> i < BIN_COUNT && bins[i] != [])
  }

  /** Every block start outside `hole` has a header telling its order and whether it is free. */
  ghost predicate HeadersTell(h: Memory, b: Blocks, hole: set<nat>) {
    forall o :: o in b && o !in hole ==> o in h && h[o].order == b[o].order && h[o].isFree == b[o].free
  }

  ghost predicate Bounded(b: Blocks) {
    forall o :: o in b ==> o < NULL_OFFSET
  }

  lemma TiledBounded(top: nat, b: Blocks)
    requires Tiled(top, b) && top <= MAX_ORDER
    ensures Bounded(b)
  {
    Pow2Value();
    Pow2Monotone(top, MAX_ORDER);
    forall o | o in b
      ensures o < NULL_OFFSET
    {
      assert Placed(top, o, b[o].order);
    }
  }

  // ---- List surgery ----

  /** Memory after pushing `o` in front of the list headed by `head`. */
  function PushLinks(h: Memory, o: nat, k: nat, head: nat): Memory {
    var h1 := h[o := Header(k, true, head, NULL_OFFSET)];
    if head != NULL_OFFSET && head in h1 then h1[head := h1[head].(prev := o)] else h1
  }

  lemma ThreadedPush(h: Memory, head: nat, l: seq<nat>, o: nat, k: nat)
    requires Threaded(h, head, l) && NoDup(l) && o !in l
    requires forall x :: x in l ==> x < NULL_OFFSET
    ensures Threaded(PushLinks(h, o, k, head), o, [o] + l)
  {
    var m := [o] + l;
    var g := PushLinks(h, o, k, head);
    forall j | 0 <= j < |m|
      ensures LinkedAt(g, m, j)
    {
      if j > 0 {
        assert LinkedAt(h, l, j - 1);
        assert l[j - 1] in l;
      }
    }
  }

  lemma ThreadedOther(h: Memory, g: Memory, head: nat, l: seq<nat>)
    requires Threaded(h, head, l)
    requires forall x :: x in l ==> x in g && x in h && g[x].next == h[x].next && g[x].prev == h[x].prev
    ensures Threaded(g, head, l)
  {
    forall j | 0 <= j < |l|
      ensures LinkedAt(g, l, j)
    {
      assert LinkedAt(h, l, j) && l[j] in l;
    }
  }

  /** Memory after unlinking `o`, all but its own free flag. */
  function CutLinks(h: Memory, o: nat): Memory
    requires o in h
  {
    var n, p := h[o].next, h[o].prev;
    var h1 := if p != NULL_OFFSET && p in h then h[p := h[p].(next := n)] else h;
    if n != NULL_OFFSET && n in h1 then h1[n := h1[n].(prev := p)] else h1
  }

  lemma {:induction false} WithoutAt(s: seq<nat>, j: nat)
    requires NoDup(s) && j < |s|
    ensures Without(s, s[j]) == s[..j] + s[j + 1..]
  {
    if j > 0 {
      WithoutAt(s[1..], j - 1);
      assert s[1..][..j - 1] == s[1..j] && s[..j] == [s[0]] + s[1..j];
    }
  }

  /** What cutting `l[j]` out does to the links of another element of the same list. */
  lemma CutNeighbour(h: Memory, head: nat, l: seq<nat>, j: nat, i: nat)
    requires Threaded(h, head, l) && NoDup(l) && j < |l| && i < |l| && i != j
    requires forall x :: x in l ==> x < NULL_OFFSET
    ensures l[j] in h
    ensures var g := CutLinks(h, l[j]);
      && l[i] in g
      && g[l[i]].next == (if i + 1 == j then After(l, j) else After(l, i))
      && g[l[i]].prev == (if i == j + 1 then Before(l, j) else Before(l, i))
  {
    assert LinkedAt(h, l, i) && LinkedAt(h, l, j) && l[j] in l;
    assert j > 0 ==> LinkedAt(h, l, j - 1) && l[j - 1] in l;
    assert j + 1 < |l| ==> LinkedAt(h, l, j + 1) && l[j + 1] in l;
  }

  lemma CutIndex(l: seq<nat>, j: nat, i: nat)
    requires j < |l| && i < |l| - 1
    ensures var m := l[..j] + l[j + 1..]; var i' := if i < j then i else i + 1;
      && |m| == |l| - 1 && m[i] == l[i']
      && After(m, i) == (if i' + 1 == j then After(l, j) else After(l, i'))
      && Before(m, i) == (if i' == j + 1 then Before(l, j) else Before(l, i'))
  {
  }

  lemma CutEnds(h: Memory, head: nat, l: seq<nat>, j: nat)
    requires Threaded(h, head, l) && j < |l|
    requires forall x :: x in l ==> x < NULL_OFFSET
    ensures l[j] in h && h[l[j]].next == After(l, j) && h[l[j]].prev == Before(l, j)
    ensures (h[l[j]].prev == NULL_OFFSET <==> j == 0) && (h[l[j]].next == NULL_OFFSET <==> j == |l| - 1)
    ensures h[l[j]].prev == NULL_OFFSET || h[l[j]].prev in h
    ensures h[l[j]].next == NULL_OFFSET || h[l[j]].next in h
  {
    assert LinkedAt(h, l, j);
    assert j > 0 ==> LinkedAt(h, l, j - 1) && l[j - 1] in l;
    assert j + 1 < |l| ==> LinkedAt(h, l, j + 1) && l[j + 1] in l;
  }

  lemma ThreadedCut(h: Memory, head: nat, l: seq<nat>, j: nat)
    requires Threaded(h, head, l) && NoDup(l) && j < |l|
    requires forall x :: x in l ==> x < NULL_OFFSET
    ensures l[j] in h
    ensures Threaded(CutLinks(h, l[j]), if j == 0 then h[l[j]].next else head, Without(l, l[j]))
  {
    CutEnds(h, head, l, j);
    WithoutAt(l, j);
    hide CutLinks;
    var m := l[..j] + l[j + 1..];
    var g := CutLinks(h, l[j]);
    forall i | 0 <= i < |m|
      ensures LinkedAt(g, m, i)
    {
      CutIndex(l, j, i);
      CutNeighbour(h, head, l, j, if i < j then i else i + 1);
    }
  }

  /** Bits of the bitmap, masked from `t` upwards: the first set one is the first non-empty bin. */
  lemma FirstSetBit(w: Word, bins: seq<seq<nat>>, t: nat)
    requires BitmapExact(w, bins) && t <= BIN_COUNT
    ensures var mask := And(w, HighMask(WORD_BITS, t));
      && (IsZero(mask) <==> FirstBin(bins, t) == BIN_COUNT)
      && (!IsZero(mask) ==> CountrZero(mask) == FirstBin(bins, t))
  {
    var mask := And(w, HighMask(WORD_BITS, t));
    var r, i := CountrZero(mask), FirstBin(bins, t);
    if i < BIN_COUNT {
      assert mask[i];
      assert r <= i;
      assert mask[r];
      assert bins[r] != [];
    } else {
      forall j | 0 <= j < |mask|
        ensures !mask[j]
      {
      }
    }
  }

  /** Headers, heads and bitmap stand for the pool `p`; blocks in `hole` are in the hands of a
      split or a merge, so their headers are not consulted. */
  ghost predicate Represents(h: Memory, heads: seq<nat>, w: Word, p: Pool, hole: set<nat>) {
    && AllThreaded(h, heads, p.bins)
    && BitmapExact(w, p.bins)
    && HeadersTell(h, p.blocks, hole)
    && BinsExact(p.blocks, p.bins)
    && Bounded(p.blocks)
  }

  lemma RepresentsPush(h: Memory, heads: seq<nat>, w: Word, p: Pool, o: nat, k: nat)
    requires Represents(h, heads, w, p, {o}) && o < NULL_OFFSET && MIN_ORDER <= k <= MAX_ORDER
    requires forall j :: !IsFree(p.blocks, o, j)
    ensures var i := k - MIN_ORDER;
      && (heads[i] == NULL_OFFSET || heads[i] in h)
      && Represents(PushLinks(h, o, k, heads[i]), heads[i := o], SetBit(w, i), Push(p, o, k), {})
  {
    var i := k - MIN_ORDER;
    var g := PushLinks(h, o, k, heads[i]);
    PushBins(p.blocks, p.bins, o, k);
    assert Threaded(h, heads[i], p.bins[i]);
    assert p.bins[i] != [] ==> LinkedAt(h, p.bins[i], 0) && p.bins[i][0] in p.bins[i];
    forall j | 0 <= j < BIN_COUNT
      ensures Threaded(g, heads[i := o][j], Push(p, o, k).bins[j])
    {
      assert Threaded(h, heads[j], p.bins[j]);
      if j == i {
        ThreadedPush(h, heads[i], p.bins[i], o, k);
      } else {
        PushElsewhere(h, p, o, k, heads[i], j);
        ThreadedOther(h, g, heads[j], p.bins[j]);
      }
    }
  }

  lemma PushElsewhere(h: Memory, p: Pool, o: nat, k: nat, head: nat, j: nat)
    requires BinsExact(p.blocks, p.bins) && j < BIN_COUNT && MIN_ORDER <= k <= MAX_ORDER && j != k - MIN_ORDER
    requires forall i :: !IsFree(p.blocks, o, i)
    requires head == NULL_OFFSET || head in p.bins[k - MIN_ORDER]
    requires forall x :: x in p.bins[j] ==> x in h
    ensures var g := PushLinks(h, o, k, head);
      forall x :: x in p.bins[j] ==> x in g && g[x] == h[x]
  {
    forall x | x in p.bins[j]
      ensures x != o && (head == NULL_OFFSET || x != head)
    {
      assert IsFree(p.blocks, x, j + MIN_ORDER);
      assert head == NULL_OFFSET || IsFree(p.blocks, head, k);
    }
  }

  function RemoveLinks(h: Memory, o: nat): Memory
    requires o in h
  {
    var g := CutLinks(h, o);
    g[o := g[o].(isFree := false)]
  }

  lemma RemoveSameBin(h: Memory, heads: seq<nat>, p: Pool, o: nat, k: nat)
    requires AllThreaded(h, heads, p.bins) && BinsExact(p.blocks, p.bins) && Bounded(p.blocks)
    requires IsFree(p.blocks, o, k) && MIN_ORDER <= k <= MAX_ORDER
    ensures o in h && (h[o].prev == NULL_OFFSET || h[o].prev in h) && (h[o].next == NULL_OFFSET || h[o].next in h)
    ensures var l := p.bins[k - MIN_ORDER]; var head := heads[k - MIN_ORDER];
      && Threaded(RemoveLinks(h, o), if h[o].prev == NULL_OFFSET then h[o].next else head, Without(l, o))
      && (Without(l, o) == [] <==> h[o].prev == NULL_OFFSET && h[o].next == NULL_OFFSET)
  {
    var i := k - MIN_ORDER;
    var l, head := p.bins[i], heads[i];
    assert o in l;
    var j :| 0 <= j < |l| && l[j] == o;
    assert Threaded(h, head, l);
    forall x | x in l
      ensures x < NULL_OFFSET
    {
      assert IsFree(p.blocks, x, k);
    }
    CutEnds(h, head, l, j);
    ThreadedCut(h, head, l, j);
    WithoutAt(l, j);
    var r := if j == 0 then h[o].next else head;
    var g := CutLinks(h, o);
    forall x | x in Without(l, o)
      ensures x in g
    {
      var i :| 0 <= i < |Without(l, o)| && Without(l, o)[i] == x;
      assert LinkedAt(g, Without(l, o), i);
    }
    ThreadedOther(g, RemoveLinks(h, o), r, Without(l, o));
  }

  lemma RepresentsRemove(h: Memory, heads: seq<nat>, w: Word, p: Pool, o: nat, k: nat, hole: set<nat>)
    requires Represents(h, heads, w, p, hole) && IsFree(p.blocks, o, k) && MIN_ORDER <= k <= MAX_ORDER
    ensures o in h && (h[o].prev == NULL_OFFSET || h[o].prev in h) && (h[o].next == NULL_OFFSET || h[o].next in h)
    ensures var i := k - MIN_ORDER;
      var heads' := if h[o].prev == NULL_OFFSET then heads[i := h[o].next] else heads;
      var w' := if h[o].prev == NULL_OFFSET && h[o].next == NULL_OFFSET then ClearBit(w, i) else w;
      Represents(RemoveLinks(h, o), heads', w', Remove(p, o, k), hole)
  {
    var i := k - MIN_ORDER;
    RemoveSameBin(h, heads, p, o, k);
    RemoveBins(p.blocks, p.bins, o, k);
    assert o in p.bins[i];
    var g := RemoveLinks(h, o);
    forall j | 0 <= j < BIN_COUNT && j != i
      ensures Threaded(g, heads[j], p.bins[j])
    {
      assert Threaded(h, heads[j], p.bins[j]);
      CutElsewhere(h, heads, p, o, k, j);
      ThreadedOther(h, g, heads[j], p.bins[j]);
    }
    HeadersAfterCut(h, p, o, k, hole);
    hide RemoveLinks, Threaded, HeadersTell, NoDup;
  }

  lemma HeadersAfterCut(h: Memory, p: Pool, o: nat, k: nat, hole: set<nat>)
    requires HeadersTell(h, p.blocks, hole) && o in h && IsFree(p.blocks, o, k)
    requires |p.bins| == BIN_COUNT && MIN_ORDER <= k <= MAX_ORDER
    ensures HeadersTell(RemoveLinks(h, o), Remove(p, o, k).blocks, hole)
  {
  }

  lemma CutElsewhere(h: Memory, heads: seq<nat>, p: Pool, o: nat, k: nat, j: nat)
    requires AllThreaded(h, heads, p.bins) && BinsExact(p.blocks, p.bins) && Bounded(p.blocks)
    requires j < BIN_COUNT && MIN_ORDER <= k <= MAX_ORDER && j != k - MIN_ORDER && IsFree(p.blocks, o, k)
    requires o in h
    ensures forall x :: x in p.bins[j] ==>
      x in RemoveLinks(h, o) && x in h && RemoveLinks(h, o)[x].next == h[x].next && RemoveLinks(h, o)[x].prev == h[x].prev
  {
    var l := p.bins[k - MIN_ORDER];
    assert o in l;
    var i :| 0 <= i < |l| && l[i] == o;
    assert Threaded(h, heads[k - MIN_ORDER], l) && Threaded(h, heads[j], p.bins[j]);
    assert LinkedAt(h, l, i);
    assert h[o].next != NULL_OFFSET ==> h[o].next in l;
    assert h[o].prev != NULL_OFFSET ==> h[o].prev in l;
    forall x | x in p.bins[j]
      ensures x != o && x in h && (h[o].next != NULL_OFFSET ==> x != h[o].next) && (h[o].prev != NULL_OFFSET ==> x != h[o].prev)
    {
      assert IsFree(p.blocks, x, j + MIN_ORDER);
      var i' :| 0 <= i' < |p.bins[j]| && p.bins[j][i'] == x;
      assert LinkedAt(h, p.bins[j], i');
      assert h[o].next != NULL_OFFSET ==> IsFree(p.blocks, h[o].next, k);
      assert h[o].prev != NULL_OFFSET ==> IsFree(p.blocks, h[o].prev, k);
    }
  }

  /** A split rewrites the order in the header of the block it holds. */
  lemma RepresentsReorder(h: Memory, heads: seq<nat>, w: Word, p: Pool, o: nat, k: nat)
    requires Represents(h, heads, w, p, {}) && o in p.blocks && !p.blocks[o].free
    ensures o in h
    ensures Represents(h[o := h[o].(order := k)], heads, w, p.(blocks := p.blocks[o := Block(k, false)]), {})
    ensures forall x :: x !in p.blocks ==>
      Represents(h[o := h[o].(order := k)], heads, w, p.(blocks := p.blocks[o := Block(k, false)]), {x})
  {
    var g := h[o := h[o].(order := k)];
    forall i | 0 <= i < BIN_COUNT
      ensures Threaded(g, heads[i], p.bins[i])
    {
      assert Threaded(h, heads[i], p.bins[i]);
      ThreadedIn(h, heads[i], p.bins[i]);
      ThreadedOther(h, g, heads[i], p.bins[i]);
    }
  }

  lemma ThreadedIn(h: Memory, head: nat, l: seq<nat>)
    requires Threaded(h, head, l)
    ensures forall x :: x in l ==> x in h
  {
    forall x | x in l
      ensures x in h
    {
      var i :| 0 <= i < |l| && l[i] == x;
      assert LinkedAt(h, l, i);
    }
  }

  lemma NewHalfBounded(p: Pool, o: nat, k: nat)
    requires Inv(p) && o in p.blocks && p.blocks[o] == Block(k + 1, false) && k >= MIN_ORDER
    ensures BuddyOf(o, k) < NULL_OFFSET && BuddyOf(o, k) !in p.blocks && BuddyOf(o, k) != o
  {
    HalfStart(p.top, p.blocks, o, k);
    SplitOnce(p, o, k);
    var q := Push(p.(blocks := p.blocks[o := Block(k, false)]), BuddyOf(o, k), k);
    TiledBounded(q.top, q.blocks);
    assert BuddyOf(o, k) in q.blocks;
  }

  lemma BinsCount(p: Pool)
    requires Inv(p)
    ensures |p.bins| == BIN_COUNT
  {
  }

  lemma SplitSame(p: Pool, o: nat, k: nat)
    requires |p.bins| == BIN_COUNT && MIN_ORDER <= k <= MAX_ORDER
    ensures Split(p, o, k, k) == p
  {
  }

  lemma SplitUnfold(p: Pool, o: nat, k: nat, target: nat)
    requires |p.bins| == BIN_COUNT && MIN_ORDER <= target < k <= MAX_ORDER
    ensures Split(p, o, k, target)
      == Split(Push(p.(blocks := p.blocks[o := Block(k - 1, false)]), BuddyOf(o, k - 1), k - 1), o, k - 1, target)
  {
  }

  /** What `alloc` finds behind the lowest bit of its mask. */
  lemma MaskReads(h: Memory, heads: seq<nat>, w: Word, p: Pool, t: nat)
    requires Represents(h, heads, w, p, {}) && t < BIN_COUNT
    ensures |heads| == |p.bins| == BIN_COUNT && |w| == WORD_BITS
    ensures var mask := And(w, HighMask(WORD_BITS, t)); var i := FirstBin(p.bins, t);
      && (IsZero(mask) <==> i == BIN_COUNT)
      && (!IsZero(mask) ==> CountrZero(mask) == i && heads[i] == p.bins[i][0] && IsFree(p.blocks, heads[i], i + MIN_ORDER))
  {
    FirstSetBit(w, p.bins, t);
    var i := FirstBin(p.bins, t);
    if i < BIN_COUNT {
      assert Threaded(h, heads[i], p.bins[i]);
      assert heads[i] in p.bins[i];
    }
  }

  lemma AllocUnfold(p: Pool, size: nat)
    requires |p.bins| == BIN_COUNT
    ensures Rejected(size) ==> BuddyPool.Alloc(p, size) == (p, None)
    ensures var k := SizeToOrder(size); var i := FirstBin(p.bins, k - MIN_ORDER);
      && MIN_ORDER <= k <= MAX_ORDER
      && (!Rejected(size) && i == BIN_COUNT ==> BuddyPool.Alloc(p, size) == (p, None))
      && (!Rejected(size) && i < BIN_COUNT ==>
        var o := p.bins[i][0];
        BuddyPool.Alloc(p, size) == (Split(Remove(p, o, i + MIN_ORDER), o, i + MIN_ORDER, k), Some(o + HEADER_SIZE)))
  {
  }

  lemma LiveHeader(h: Memory, heads: seq<nat>, w: Word, p: Pool, o: nat)
    requires Represents(h, heads, w, p, {}) && o in Live(p.blocks)
    ensures o in h && h[o := h[o].(isFree := false)] == h && h[o].order == p.blocks[o].order
  {
  }

  lemma ForgetHeader(h: Memory, heads: seq<nat>, w: Word, p: Pool, o: nat)
    requires Represents(h, heads, w, p, {})
    ensures Represents(h, heads, w, p, {o})
  {
  }

  /** What a merge reads at the buddy's address is a header, and it tells the truth. */
  lemma MergeReads(h: Memory, heads: seq<nat>, w: Word, p: Pool, o: nat, k: nat)
    requires Represents(h, heads, w, p, {o}) && Inv(p) && o in p.blocks && p.blocks[o] == Block(k, false)
    ensures o < NULL_OFFSET
    ensures k < MAX_ORDER && BuddyOf(o, k) < p.limit ==>
      BuddyOf(o, k) in h && (IsFree(p.blocks, BuddyOf(o, k), k) <==> h[BuddyOf(o, k)].isFree && h[BuddyOf(o, k)].order == k)
  {
    var d := BuddyOf(o, k);
    if k < MAX_ORDER && d < p.limit {
      BuddyPair(o, k);
      if k == p.top {
        assert false;
      }
      BuddyIsBlockStart(p.top, p.blocks, o);
    }
  }

  lemma RepresentsFuse(h: Memory, heads: seq<nat>, w: Word, p: Pool, o: nat, k: nat)
    requires |p.bins| == BIN_COUNT && MIN_ORDER <= k < MAX_ORDER
    requires Represents(h, heads, w, Remove(p, BuddyOf(o, k), k), {o})
    requires o in p.blocks && BuddyOf(o, k) in p.blocks && !p.blocks[o].free
    ensures Represents(h, heads, w, Fuse(p, o, k), {Min(o, BuddyOf(o, k))}) && Fuse(p, o, k).limit == p.limit
  {
    hide BuddyOf;
    RepresentsJoin(h, heads, w, Remove(p, BuddyOf(o, k), k), o, BuddyOf(o, k), k);
  }

  lemma RepresentsJoin(h: Memory, heads: seq<nat>, w: Word, p: Pool, o: nat, d: nat, k: nat)
    requires Represents(h, heads, w, p, {o}) && o in p.blocks && d in p.blocks && !p.blocks[o].free && !p.blocks[d].free
    ensures Represents(h, heads, w, p.(blocks := (p.blocks - {o, d})[Min(o, d) := Block(k + 1, false)]), {Min(o, d)})
  {
  }

  lemma MergeUnfold(p: Pool, o: nat, k: nat)
    requires |p.bins| == BIN_COUNT && MIN_ORDER <= k <= MAX_ORDER
    ensures Merge(p, o, k) == if Mergeable(p, o, k) then Merge(Fuse(p, o, k), Min(o, BuddyOf(o, k)), k + 1) else Push(p, o, k)
  {
  }

  lemma RepresentsEmpty(heads: seq<nat>, p: Pool)
    requires |heads| == BIN_COUNT && forall j :: 0 <= j < BIN_COUNT ==> heads[j] == NULL_OFFSET
    requires p.blocks == map[] && p.bins == seq(BIN_COUNT, _ => [])
    ensures Represents(map[], heads, Zero(WORD_BITS), p, {0})
  {
    forall i | 0 <= i < BIN_COUNT
      ensures Threaded(map[], heads[i], p.bins[i])
    {
      assert p.bins[i] == [];
    }
  }

  class BuddyAllocator {
    const pages: nat
    const bins: array<nat>
    var activeBinsBitmap: Word
    var headers: Memory
    ghost var pool: Pool

    ghost predicate Rep(hole: set<nat>)
      reads this, bins
    {
      Represents(headers, bins[..], activeBinsBitmap, pool, hole) && pool.limit == pages * PAGE_SIZE
    }

    ghost predicate Valid()
      reads this, bins
    {
      Rep({}) && Inv(pool)
    }

    constructor (size: nat)
      requires Pow2(SizeToOrder(PagesFor(size) * PAGE_SIZE)) <= PagesFor(size) * PAGE_SIZE
      ensures Valid() && fresh(bins)
      ensures pages == PagesFor(size)
      ensures pages >= 1 && size <= pages * 4096 && (pages == 1 || (pages - 1) * 4096 < size)
      ensures pool == Initial(SizeToOrder(pages * PAGE_SIZE), pages * PAGE_SIZE)
    {
      hide SizeToOrder, Pow2, Represents, Inv;
      LeastPages(size);
      var n := (size + PAGE_SIZE - 1) / PAGE_SIZE;
      if n == 0 {
        n := 1;
      }
      pages := n;
      bins := new nat[BIN_COUNT];
      activeBinsBitmap := Zero(WORD_BITS);
      headers := map[];
      var startOrder := SizeToOrder(n * PAGE_SIZE);
      pool := Pool(startOrder, n * PAGE_SIZE, map[], seq(BIN_COUNT, _ => []));
      new;
      for i := 0 to BIN_COUNT
        invariant forall j :: 0 <= j < i ==> bins[j] == NULL_OFFSET
        modifies bins
      {
        bins[i] := NULL_OFFSET;
      }
      ManagedRegionFits(size);
      RepresentsEmpty(bins[..], pool);
      PushFreeBlock(0, startOrder);
      InitialInv(startOrder, n * PAGE_SIZE);
    }

    method PushFreeBlock(offset: nat, order: nat)
      requires Rep({offset}) && offset < NULL_OFFSET
      requires MIN_ORDER <= order <= MAX_ORDER
      requires forall j :: !IsFree(pool.blocks, offset, j)
      modifies this, bins
      ensures pool == Push(old(pool), offset, order) && Rep({})
    {
      var idx := order - MIN_ORDER;
      var oldHeadOffset := bins[idx];
      RepresentsPush(headers, bins[..], activeBinsBitmap, pool, offset, order);
      hide Represents;
      ghost var heads := bins[..];
      headers := headers[offset := Header(order, true, oldHeadOffset, NULL_OFFSET)];
      if oldHeadOffset != NULL_OFFSET {
        headers := headers[oldHeadOffset := headers[oldHeadOffset].(prev := offset)];
      }
      bins[idx] := offset;
      activeBinsBitmap := SetBit(activeBinsBitmap, idx);
      pool := Push(pool, offset, order);
      assert bins[..] == heads[idx := offset];
    }

    method RemoveFreeBlock(offset: nat, order: nat, ghost hole: set<nat>)
      requires Rep(hole) && IsFree(pool.blocks, offset, order)
      requires MIN_ORDER <= order <= MAX_ORDER
      modifies this, bins
      ensures pool == Remove(old(pool), offset, order) && Rep(hole)
    {
      RepresentsRemove(headers, bins[..], activeBinsBitmap, pool, offset, order, hole);
      ghost var heads, was := bins[..], headers;
      var idx := order - MIN_ORDER;
      assert |activeBinsBitmap| == WORD_BITS;
      hide Represents;
      var block := headers[offset];
      if block.prev != NULL_OFFSET {
        headers := headers[block.prev := headers[block.prev].(next := block.next)];
      } else {
        bins[idx] := block.next;
        if bins[idx] == NULL_OFFSET {
          activeBinsBitmap := ClearBit(activeBinsBitmap, idx);
        }
      }
      if block.next != NULL_OFFSET {
        headers := headers[block.next := headers[block.next].(prev := block.prev)];
      }
      headers := headers[offset := headers[offset].(isFree := false)];
      pool := Remove(pool, offset, order);
      assert headers == RemoveLinks(was, offset);
      assert bins[..] == if block.prev == NULL_OFFSET then heads[idx := block.next] else heads;
    }

    method SplitBlock(offset: nat, initialOrder: nat, targetOrder: nat) returns (r: nat)
      requires Valid() && offset in pool.blocks && pool.blocks[offset] == Block(initialOrder, false)
      requires MIN_ORDER <= targetOrder < initialOrder <= MAX_ORDER
      modifies this, bins
      ensures r == offset && pool == Split(old(pool), offset, initialOrder, targetOrder) && Valid()
    {
      hide Inv, Represents, BuddyOf, Split;
      BinsCount(pool);
      var order := initialOrder - 1;
      while order >= targetOrder
        invariant targetOrder - 1 <= order < initialOrder
        invariant Rep({}) && Inv(pool) && offset in pool.blocks && pool.blocks[offset] == Block(order + 1, false)
        invariant |pool.bins| == |old(pool).bins| == BIN_COUNT
        invariant Split(pool, offset, order + 1, targetOrder) == Split(old(pool), offset, initialOrder, targetOrder)
      {
        SplitOnce(pool, offset, order);
        RepresentsReorder(headers, bins[..], activeBinsBitmap, pool, offset, order);
        NewHalfBounded(pool, offset, order);
        BinsCount(pool);
        SplitUnfold(pool, offset, order + 1, targetOrder);
        headers := headers[offset := headers[offset].(order := order)];
        pool := pool.(blocks := pool.blocks[offset := Block(order, false)]);
        var buddyOffset := BuddyOf(offset, order);
        PushFreeBlock(buddyOffset, order);
        order := order - 1;
      }
      SplitSame(pool, offset, targetOrder);
      r := offset;
    }

    method MergeBlock(offset: nat, order: nat)
      requires Rep({offset}) && Inv(pool) && offset in pool.blocks && pool.blocks[offset] == Block(order, false)
      requires MIN_ORDER <= order <= MAX_ORDER
      modifies this, bins
      ensures pool == Merge(old(pool), offset, order) && Valid()
      decreases MAX_ORDER - order
    {
      hide Inv, Represents, BuddyOf, Merge, Fuse;
      MergeInv(pool, offset, order);
      BuddyInside(pool, offset, order);
      BinsCount(pool);
      MergeUnfold(pool, offset, order);
      MergeReads(headers, bins[..], activeBinsBitmap, pool, offset, order);
      if order >= MAX_ORDER {
        PushFreeBlock(offset, order);
        return;
      }
      var buddyOffset := BuddyOf(offset, order);
      var isBuddyInArena := buddyOffset < pages * PAGE_SIZE;
      if isBuddyInArena {
        var buddy := headers[buddyOffset];
        var isBuddyFree := buddy.isFree;
        var hasBuddySameOrder := buddy.order == order;
        if isBuddyFree && hasBuddySameOrder {
          FuseInv(pool, offset, order);
          RemoveFreeBlock(buddyOffset, order, {offset});
          var newOffset := Min(offset, buddyOffset);
          RepresentsFuse(headers, bins[..], activeBinsBitmap, old(pool), offset, order);
          pool := Fuse(old(pool), offset, order);
          MergeBlock(newOffset, order + 1);
          return;
        }
      }
      PushFreeBlock(offset, order);
    }

    method Alloc(size: nat) returns (r: Option<nat>)
      requires Valid() && size < SIZE_T_RANGE
      modifies this, bins
      ensures Valid() && (pool, r) == BuddyPool.Alloc(old(pool), size)
    {
      hide Inv, Represents, SizeToOrder, BuddyPool.Alloc, Split, Pow2, FirstBin, And, IsZero, CountrZero;
      BinsCount(pool);
      AllocUnfold(pool, size);
      var weCantPutIt := (size + HEADER_SIZE) % SIZE_T_RANGE > Pow2(MAX_ORDER);
      if size == 0 || weCantPutIt {
        return None;
      }
      var targetOrder := SizeToOrder(size);
      MaskReads(headers, bins[..], activeBinsBitmap, pool, targetOrder - MIN_ORDER);
      var targetIdx := targetOrder - MIN_ORDER;
      var mask := And(activeBinsBitmap, HighMask(WORD_BITS, targetIdx));
      if IsZero(mask) {
        return None;
      }
      var foundIdx := CountrZero(mask);
      var foundOrder := foundIdx + MIN_ORDER;
      var offset := bins[foundIdx];
      RemoveInv(pool, offset, foundOrder);
      RemoveFreeBlock(offset, foundOrder, {});
      ghost var taken := pool;
      SplitSame(taken, offset, foundOrder);
      SplitInv(taken, offset, foundOrder, targetOrder);
      if foundOrder > targetOrder {
        var _ := SplitBlock(offset, foundOrder, targetOrder);
      }
      LiveHeader(headers, bins[..], activeBinsBitmap, pool, offset);
      headers := headers[offset := headers[offset].(isFree := false)];
      return Some(offset + HEADER_SIZE);
    }

    method Free(ptr: Option<nat>)
      requires Valid()
      requires ptr.Some? ==> ptr.value >= HEADER_SIZE && ptr.value - HEADER_SIZE in Live(pool.blocks)
      modifies this, bins
      ensures Valid() && old(Legal(pool, OpFree(ptr))) && pool == Step(old(pool), OpFree(ptr))
    {
      hide Inv, Represents, Merge, BuddyPool.Alloc;
      if ptr.None? {
        return;
      }
      var offset := ptr.value - HEADER_SIZE;
      FreedIsPlaced(pool, offset);
      LiveHeader(headers, bins[..], activeBinsBitmap, pool, offset);
      ForgetHeader(headers, bins[..], activeBinsBitmap, pool, offset);
      MergeBlock(offset, headers[offset].order);
    }
  }
}
