/** Page ownership as a value: segments of reserved address space, the pages of each that are
    in use, and the chunks handed out. */
module PageSpace {
  import opened Options

  const PAGE_SIZE: nat := 4096
  const CAGE_PAGES: nat := 2097152
  const SEGMENT_SIZE: nat := 8589934592

  datatype Segment = Segment(base: nat, used: set<nat>)

  /** `chunks` maps the address of every outstanding chunk to its page count. */
  datatype Space = Space(segs: seq<Segment>, chunks: map<nat, nat>)

  // ---- First fit, one start index after the other ----

  predicate RunFree(used: set<nat>, s: nat, n: nat) {
    forall i :: s <= i < s + n ==> i !in used
  }

  predicate Fits(used: set<nat>, s: nat, n: nat) {
    s + n <= CAGE_PAGES && RunFree(used, s, n)
  }

  function FirstFitFrom(used: set<nat>, n: nat, s: nat): (r: Option<nat>)
    ensures r.Some? ==> s <= r.value && r.value + n <= CAGE_PAGES && RunFree(used, r.value, n)
    ensures forall t :: s <= t && t + n <= CAGE_PAGES && (r.Some? ==> t < r.value) ==> !RunFree(used, t, n)
    decreases CAGE_PAGES - s
  {
    if s + n > CAGE_PAGES then None
    else if RunFree(used, s, n) then Some(s)
    else if s == CAGE_PAGES then None
    else FirstFitFrom(used, n, s + 1)
  }

  function FirstFit(used: set<nat>, n: nat): (r: Option<nat>)
    ensures r.Some? ==> Fits(used, r.value, n)
    ensures forall t: nat :: Fits(used, t, n) ==> r.Some? && r.value <= t
  {
    FirstFitFrom(used, n, 0)
  }

  /** An all-clear segment satisfies a request iff the request is no longer than the segment. */
  lemma FreshSegmentFits(n: nat)
    ensures FirstFit({}, n) == if n <= 2097152 then Some(0) else None
  {
    if n <= CAGE_PAGES {
      assert RunFree({}, 0, n);
    }
  }

  // ---- Operations ----

  function PagesOf(s: nat, n: nat): (r: set<nat>)
    ensures forall i :: i in r <==> s <= i < s + n
    decreases n
  {
    if n == 0 then {} else {s} + PagesOf(s + 1, n - 1)
  }

  /** Take `n` pages from index `s` of the last segment. */
  function Take(sp: Space, s: nat, n: nat): Space
    requires |sp.segs| > 0
  {
    var last := |sp.segs| - 1;
    var g := sp.segs[last];
    Space(sp.segs[last := g.(used := g.used + PagesOf(s, n))], sp.chunks[g.base + s * PAGE_SIZE := n])
  }

  /** The search starts at the last segment; when it has no run, one new segment is appended at the
      reserved address `reserved` and the search is repeated there. */
  function Request(sp: Space, n: nat, reserved: nat): (Space, Option<nat>)
    requires |sp.segs| > 0 && n <= CAGE_PAGES
  {
    if n == 0 then (sp, None)
    else
      var g := sp.segs[|sp.segs| - 1];
      match FirstFit(g.used, n)
      case Some(s) => (Take(sp, s, n), Some(g.base + s * PAGE_SIZE))
      case None =>
        var wider := sp.(segs := sp.segs + [Segment(reserved, {})]);
        FreshSegmentFits(n);
        (Take(wider, 0, n), Some(reserved))
  }

  /** Index of the first segment whose address range holds `a`. */
  function SegmentOf(segs: seq<Segment>, a: nat): (i: nat)
    ensures i <= |segs|
    ensures i < |segs| ==> segs[i].base <= a < segs[i].base + SEGMENT_SIZE
    ensures forall j :: 0 <= j < i ==> !(segs[j].base <= a < segs[j].base + SEGMENT_SIZE)
  {
    if |segs| == 0 then 0
    else if segs[0].base <= a < segs[0].base + SEGMENT_SIZE then 0
    else 1 + SegmentOf(segs[1..], a)
  }

  function Release(sp: Space, a: nat, n: nat): Space
    requires SegmentOf(sp.segs, a) < |sp.segs|
  {
    var i := SegmentOf(sp.segs, a);
    var g := sp.segs[i];
    var s := (a - g.base) / PAGE_SIZE;
    Space(sp.segs[i := g.(used := g.used - PagesOf(s, n))], sp.chunks - {a})
  }

  // ---- The invariant ----

  predicate SegmentsApart(g: Segment, h: Segment) {
    g.base + SEGMENT_SIZE <= h.base || h.base + SEGMENT_SIZE <= g.base
  }

  predicate ChunksApart(a: nat, n: nat, b: nat, m: nat) {
    a + n * PAGE_SIZE <= b || b + m * PAGE_SIZE <= a
  }

  function PageAddress(g: Segment, i: nat): nat {
    g.base + i * PAGE_SIZE
  }

  predicate Covers(chunks: map<nat, nat>, a: nat, x: nat) {
    a in chunks && a <= x < a + chunks[a] * PAGE_SIZE
  }

  ghost predicate Owned(chunks: map<nat, nat>, x: nat) {
    exists a :: Covers(chunks, a, x)
  }

  /** Chunk (a, n) starts at page `s` of segment `g` and ends inside it. */
  predicate PlacedAt(g: Segment, a: nat, n: nat, s: nat) {
    n >= 1 && a == PageAddress(g, s) && s + n <= CAGE_PAGES
  }

  ghost predicate Placed(segs: seq<Segment>, a: nat, n: nat) {
    exists i, s :: 0 <= i < |segs| && PlacedAt(segs[i], a, n, s)
  }

  ghost predicate SegmentsWell(segs: seq<Segment>) {
    && |segs| > 0
    && (forall i :: 0 <= i < |segs| ==> segs[i].base > 0 && segs[i].base % PAGE_SIZE == 0)
    && (forall i :: 0 <= i < |segs| ==> forall p :: p in segs[i].used ==> p < CAGE_PAGES)
    && (forall i, j :: 0 <= i < j < |segs| ==> SegmentsApart(segs[i], segs[j]))
  }

  ghost predicate PageRight(segs: seq<Segment>, chunks: map<nat, nat>, i: nat, p: nat)
    requires i < |segs|
  {
    p in segs[i].used <==> Owned(chunks, PageAddress(segs[i], p))
  }

  /** A page is in use iff an outstanding chunk covers it. */
  ghost predicate UsedIffOwned(segs: seq<Segment>, chunks: map<nat, nat>) {
    forall i, p :: 0 <= i < |segs| && 0 <= p < CAGE_PAGES ==> PageRight(segs, chunks, i, p)
  }

  ghost predicate AllPlaced(segs: seq<Segment>, chunks: map<nat, nat>) {
    forall a :: a in chunks ==> Placed(segs, a, chunks[a])
  }

  ghost predicate AllApart(chunks: map<nat, nat>) {
    forall a, b :: a in chunks && b in chunks && a != b ==> ChunksApart(a, chunks[a], b, chunks[b])
  }

  ghost predicate Inv(sp: Space) {
    SegmentsWell(sp.segs) && AllPlaced(sp.segs, sp.chunks) && AllApart(sp.chunks) && UsedIffOwned(sp.segs, sp.chunks)
  }

  /** A reserved range that the operating system may hand out next. */
  ghost predicate Reservable(segs: seq<Segment>, reserved: nat) {
    reserved > 0 && reserved % PAGE_SIZE == 0 && forall i :: 0 <= i < |segs| ==> SegmentsApart(segs[i], Segment(reserved, {}))
  }

  // ---- Theorems ----

  /** Pages of 4096 bytes, segments of 8 GB. */
  lemma Geometry(g: Segment, h: Segment, i: nat)
    ensures PageAddress(g, i) == g.base + 4096 * i
    ensures SegmentsApart(g, h) <==> g.base + 8589934592 <= h.base || h.base + 8589934592 <= g.base
  {
  }

  lemma AddressInSegment(sp: Space, a: nat) returns (i: nat, s: nat)
    requires Inv(sp) && a in sp.chunks
    ensures i == SegmentOf(sp.segs, a) < |sp.segs| && PlacedAt(sp.segs[i], a, sp.chunks[a], s)
    ensures s == (a - sp.segs[i].base) / PAGE_SIZE
  {
    assert Placed(sp.segs, a, sp.chunks[a]);
    i, s :| 0 <= i < |sp.segs| && PlacedAt(sp.segs[i], a, sp.chunks[a], s);
    var j := SegmentOf(sp.segs, a);
    assert j < i ==> SegmentsApart(sp.segs[j], sp.segs[i]);
  }

  /** Which pages of which segment a chunk covers. */
  lemma CoverIndex(sp: Space, a: nat, i: nat, s: nat, j: nat, p: nat)
    requires SegmentsWell(sp.segs) && i < |sp.segs| && j < |sp.segs| && p < CAGE_PAGES
    requires a in sp.chunks && PlacedAt(sp.segs[i], a, sp.chunks[a], s)
    ensures Covers(sp.chunks, a, PageAddress(sp.segs[j], p)) <==> i == j && s <= p < s + sp.chunks[a]
  {
    assert i < j ==> SegmentsApart(sp.segs[i], sp.segs[j]);
    assert j < i ==> SegmentsApart(sp.segs[j], sp.segs[i]);
  }

  /** No outstanding chunk touches a run of clear pages. */
  lemma NewChunkApart(sp: Space, s: nat, n: nat, b: nat)
    requires Inv(sp) && n >= 1 && s + n <= CAGE_PAGES && b in sp.chunks
    requires RunFree(sp.segs[|sp.segs| - 1].used, s, n)
    ensures var a := PageAddress(sp.segs[|sp.segs| - 1], s); b != a && ChunksApart(a, n, b, sp.chunks[b])
  {
    var last := |sp.segs| - 1;
    var i, t := AddressInSegment(sp, b);
    var p := if s < t then t else s;
    assert p < CAGE_PAGES ==> PageRight(sp.segs, sp.chunks, last, p);
    if i == last && t < s + n && s < t + sp.chunks[b] {
      CoverIndex(sp, b, i, t, i, p);
      assert false;
    }
    assert i != last ==> SegmentsApart(sp.segs[i], sp.segs[last]);
  }

  lemma TakePage(sp: Space, s: nat, n: nat, i: nat, p: nat)
    requires Inv(sp) && n >= 1 && s + n <= CAGE_PAGES && i < |sp.segs| && p < CAGE_PAGES
    requires PageAddress(sp.segs[|sp.segs| - 1], s) !in sp.chunks
    ensures PageRight(Take(sp, s, n).segs, Take(sp, s, n).chunks, i, p)
  {
    var last := |sp.segs| - 1;
    var q := Take(sp, s, n);
    var a, x := PageAddress(sp.segs[last], s), PageAddress(sp.segs[i], p);
    assert PageRight(sp.segs, sp.chunks, i, p);
    assert SegmentsWell(q.segs);
    CoverIndex(q, a, last, s, i, p);
    hide Inv, SegmentsWell;
    if Owned(sp.chunks, x) {
      var b :| Covers(sp.chunks, b, x);
      assert Covers(q.chunks, b, x);
    }
    if Owned(q.chunks, x) {
      var b :| Covers(q.chunks, b, x);
      assert b != a ==> Covers(sp.chunks, b, x);
    }
  }

  lemma TakePlaced(sp: Space, s: nat, n: nat)
    requires Inv(sp) && n >= 1 && s + n <= CAGE_PAGES
    ensures AllPlaced(Take(sp, s, n).segs, Take(sp, s, n).chunks)
  {
    var last := |sp.segs| - 1;
    var q := Take(sp, s, n);
    forall b | b in q.chunks
      ensures Placed(q.segs, b, q.chunks[b])
    {
      if b == PageAddress(sp.segs[last], s) {
        assert PlacedAt(q.segs[last], b, n, s);
      } else {
        var i, t := AddressInSegment(sp, b);
        assert PlacedAt(q.segs[i], b, q.chunks[b], t);
      }
    }
  }

  lemma TakeInv(sp: Space, s: nat, n: nat)
    requires Inv(sp) && n >= 1 && s + n <= CAGE_PAGES
    requires RunFree(sp.segs[|sp.segs| - 1].used, s, n)
    ensures Inv(Take(sp, s, n))
    ensures PageAddress(sp.segs[|sp.segs| - 1], s) !in sp.chunks
  {
    var q := Take(sp, s, n);
    var a := PageAddress(sp.segs[|sp.segs| - 1], s);
    forall b | b in sp.chunks
      ensures b != a && ChunksApart(a, n, b, sp.chunks[b])
    {
      NewChunkApart(sp, s, n, b);
    }
    TakePlaced(sp, s, n);
    forall i, p | 0 <= i < |q.segs| && 0 <= p < CAGE_PAGES
      ensures PageRight(q.segs, q.chunks, i, p)
    {
      TakePage(sp, s, n, i, p);
    }
    hide UsedIffOwned, AllPlaced, RunFree;
  }

  lemma NothingOwnsFresh(sp: Space, reserved: nat, p: nat)
    requires Inv(sp) && Reservable(sp.segs, reserved) && p < CAGE_PAGES
    ensures !Owned(sp.chunks, PageAddress(Segment(reserved, {}), p))
  {
    var x := PageAddress(Segment(reserved, {}), p);
    forall b | b in sp.chunks
      ensures !Covers(sp.chunks, b, x)
    {
      var j, t := AddressInSegment(sp, b);
      assert SegmentsApart(sp.segs[j], Segment(reserved, {}));
    }
  }

  lemma AppendInv(sp: Space, reserved: nat)
    requires Inv(sp) && Reservable(sp.segs, reserved)
    ensures Inv(sp.(segs := sp.segs + [Segment(reserved, {})]))
  {
    var q := sp.(segs := sp.segs + [Segment(reserved, {})]);
    forall b | b in sp.chunks
      ensures Placed(q.segs, b, q.chunks[b])
    {
      var i, t := AddressInSegment(sp, b);
      assert PlacedAt(q.segs[i], b, q.chunks[b], t);
    }
    forall i, p | 0 <= i < |q.segs| && 0 <= p < CAGE_PAGES
      ensures PageRight(q.segs, q.chunks, i, p)
    {
      if i == |sp.segs| {
        NothingOwnsFresh(sp, reserved, p);
      } else {
        assert PageRight(sp.segs, sp.chunks, i, p);
      }
    }
  }

  ghost predicate HasFit(used: set<nat>, n: nat) {
    exists s: nat :: Fits(used, s, n)
  }

  /** A request of 1 to 2097152 pages ends with at most one new segment, hands out a chunk that no
      outstanding chunk touches, and leaves every other chunk outstanding. */
  lemma RequestInv(sp: Space, n: nat, reserved: nat)
    requires Inv(sp) && 1 <= n <= CAGE_PAGES && Reservable(sp.segs, reserved)
    ensures Inv(Request(sp, n, reserved).0)
    ensures var (q, r) := Request(sp, n, reserved);
      && r.Some? && r.value > 0 && r.value % PAGE_SIZE == 0
      && r.value !in sp.chunks && q.chunks == sp.chunks[r.value := n]
      && |sp.segs| <= |q.segs| <= |sp.segs| + 1
    ensures |Request(sp, n, reserved).0.segs| == |sp.segs| <==> HasFit(sp.segs[|sp.segs| - 1].used, n)
  {
    hide AllPlaced, AllApart, UsedIffOwned, FirstFit, PagesOf;
    var g := sp.segs[|sp.segs| - 1];
    match FirstFit(g.used, n) {
      case Some(s) =>
        TakeInv(sp, s, n);
        assert Fits(g.used, s, n);
      case None =>
        AppendInv(sp, reserved);
        FreshSegmentFits(n);
        NotAChunk(sp, reserved);
        TakeInv(sp.(segs := sp.segs + [Segment(reserved, {})]), 0, n);
    }
  }

  lemma NotAChunk(sp: Space, reserved: nat)
    requires Inv(sp) && Reservable(sp.segs, reserved)
    ensures reserved !in sp.chunks
  {
    if reserved in sp.chunks {
      var j, t := AddressInSegment(sp, reserved);
    }
  }

  function Drop(sp: Space, a: nat, n: nat, i: nat, s: nat): Space
    requires i < |sp.segs|
  {
    Space(sp.segs[i := sp.segs[i].(used := sp.segs[i].used - PagesOf(s, n))], sp.chunks - {a})
  }

  lemma DropPage(sp: Space, a: nat, i: nat, s: nat, j: nat, p: nat)
    requires SegmentsWell(sp.segs) && AllApart(sp.chunks)
    requires a in sp.chunks && i < |sp.segs| && j < |sp.segs| && p < CAGE_PAGES
    requires PlacedAt(sp.segs[i], a, sp.chunks[a], s) && PageRight(sp.segs, sp.chunks, j, p)
    ensures var q := Drop(sp, a, sp.chunks[a], i, s);
      && (p in q.segs[j].used <==> p in sp.segs[j].used && !Covers(sp.chunks, a, PageAddress(sp.segs[j], p)))
      && PageRight(q.segs, q.chunks, j, p)
  {
    hide SegmentsWell, AllApart, PlacedAt, Covers, Owned;
    CoverIndex(sp, a, i, s, j, p);
    OwnersLeft(sp.chunks, a, PageAddress(sp.segs[j], p));
  }

  /** Taking a chunk out of the table takes away its pages and no others. */
  lemma OwnersLeft(chunks: map<nat, nat>, a: nat, x: nat)
    requires AllApart(chunks) && a in chunks
    ensures Owned(chunks - {a}, x) <==> Owned(chunks, x) && !Covers(chunks, a, x)
  {
    if Owned(chunks - {a}, x) {
      var b :| Covers(chunks - {a}, b, x);
      assert Covers(chunks, b, x);
      assert ChunksApart(a, chunks[a], b, chunks[b]);
    }
    if Owned(chunks, x) && !Covers(chunks, a, x) {
      var b :| Covers(chunks, b, x);
      assert Covers(chunks - {a}, b, x);
    }
  }

  lemma ReleaseIsDrop(sp: Space, a: nat) returns (i: nat, s: nat)
    requires Inv(sp) && a in sp.chunks
    ensures i < |sp.segs| && PlacedAt(sp.segs[i], a, sp.chunks[a], s) && SegmentOf(sp.segs, a) < |sp.segs|
    ensures Release(sp, a, sp.chunks[a]) == Drop(sp, a, sp.chunks[a], i, s)
  {
    i, s := AddressInSegment(sp, a);
  }

  lemma DropInv(sp: Space, a: nat, i: nat, s: nat)
    requires Inv(sp) && a in sp.chunks && i < |sp.segs| && PlacedAt(sp.segs[i], a, sp.chunks[a], s)
    ensures Inv(Drop(sp, a, sp.chunks[a], i, s))
  {
    var q := Drop(sp, a, sp.chunks[a], i, s);
    DropPlaced(sp, a, i, s);
    forall j, p | 0 <= j < |q.segs| && 0 <= p < CAGE_PAGES
      ensures PageRight(q.segs, q.chunks, j, p)
    {
      assert PageRight(sp.segs, sp.chunks, j, p);
      DropPage(sp, a, i, s, j, p);
    }
  }

  /** Releasing a chunk clears exactly its own pages and leaves every other chunk outstanding. */
  lemma ReleaseInv(sp: Space, a: nat)
    requires Inv(sp) && a in sp.chunks
    ensures SegmentOf(sp.segs, a) < |sp.segs|
    ensures Inv(Release(sp, a, sp.chunks[a]))
    ensures var q := Release(sp, a, sp.chunks[a]);
      && q.chunks == sp.chunks - {a} && |q.segs| == |sp.segs|
      && (forall j, p :: 0 <= j < |q.segs| && 0 <= p < CAGE_PAGES ==>
        (p in q.segs[j].used <==> p in sp.segs[j].used && !Covers(sp.chunks, a, PageAddress(sp.segs[j], p))))
  {
    var i, s := ReleaseIsDrop(sp, a);
    DropInv(sp, a, i, s);
    var q := Drop(sp, a, sp.chunks[a], i, s);
    forall j, p | 0 <= j < |q.segs| && 0 <= p < CAGE_PAGES
      ensures p in q.segs[j].used <==> p in sp.segs[j].used && !Covers(sp.chunks, a, PageAddress(sp.segs[j], p))
    {
      assert PageRight(sp.segs, sp.chunks, j, p);
      DropPage(sp, a, i, s, j, p);
    }
    hide Release, PlacedAt, Covers, Inv;
  }

  lemma DropPlaced(sp: Space, a: nat, i: nat, s: nat)
    requires Inv(sp) && a in sp.chunks && i < |sp.segs|
    ensures var q := Drop(sp, a, sp.chunks[a], i, s); AllPlaced(q.segs, q.chunks)
  {
    var q := Drop(sp, a, sp.chunks[a], i, s);
    forall b | b in q.chunks
      ensures Placed(q.segs, b, q.chunks[b])
    {
      var j, t := AddressInSegment(sp, b);
      assert PlacedAt(q.segs[j], b, q.chunks[b], t);
    }
  }

  lemma CoversOnce(chunks: map<nat, nat>, a: nat, b: nat, x: nat)
    requires AllApart(chunks) && a != b && Covers(chunks, a, x)
    ensures !Covers(chunks, b, x)
  {
    assert b in chunks ==> ChunksApart(a, chunks[a], b, chunks[b]);
  }

  /** Ownership is exclusive: a page in use belongs to exactly one outstanding chunk. */
  lemma OneOwner(sp: Space, i: nat, p: nat) returns (a: nat)
    requires Inv(sp) && i < |sp.segs| && p in sp.segs[i].used
    ensures Covers(sp.chunks, a, PageAddress(sp.segs[i], p))
    ensures forall b :: Covers(sp.chunks, b, PageAddress(sp.segs[i], p)) ==> b == a
  {
    var x := PageAddress(sp.segs[i], p);
    assert PageRight(sp.segs, sp.chunks, i, p);
    a :| Covers(sp.chunks, a, x);
    forall b | Covers(sp.chunks, b, x)
      ensures b == a
    {
      if b != a {
        CoversOnce(sp.chunks, a, b, x);
      }
    }
  }

  // ---- Runs ----

  datatype Op = OpRequest(n: nat, reserved: nat) | OpRelease(a: nat, n: nat)

  ghost predicate Legal(sp: Space, op: Op) {
    match op
    case OpRequest(n, reserved) => n <= CAGE_PAGES && Reservable(sp.segs, reserved)
    case OpRelease(a, n) => a in sp.chunks && sp.chunks[a] == n
  }

  ghost function Step(sp: Space, op: Op): Space
    requires Inv(sp) && Legal(sp, op)
  {
    match op
    case OpRequest(n, reserved) => Request(sp, n, reserved).0
    case OpRelease(a, n) =>
      ReleaseInv(sp, a);
      Release(sp, a, n)
  }

  ghost predicate Run(sp: Space, ops: seq<Op>, q: Space)
    decreases ops
  {
    if ops == [] then sp == q
    else Inv(sp) && Legal(sp, ops[0]) && Run(Step(sp, ops[0]), ops[1..], q)
  }

  /** Matched requests and releases keep the ownership invariant from a first all-clear segment on. */
  lemma {:induction false} RunInv(sp: Space, ops: seq<Op>, q: Space)
    requires Inv(sp) && Run(sp, ops, q)
    ensures Inv(q)
    ensures q.chunks == map[] ==> forall i :: 0 <= i < |q.segs| ==> q.segs[i].used == {}
    decreases ops
  {
    if ops == [] {
      if q.chunks == map[] {
        forall i | 0 <= i < |q.segs|
          ensures q.segs[i].used == {}
        {
          AllClear(q, i);
        }
      }
    } else {
      if ops[0].OpRelease? {
        ReleaseInv(sp, ops[0].a);
      } else if ops[0].n > 0 {
        RequestInv(sp, ops[0].n, ops[0].reserved);
      }
      RunInv(Step(sp, ops[0]), ops[1..], q);
    }
  }

  lemma AllClear(sp: Space, i: nat)
    requires Inv(sp) && sp.chunks == map[] && i < |sp.segs|
    ensures sp.segs[i].used == {}
  {
    forall p | 0 <= p < CAGE_PAGES
      ensures p !in sp.segs[i].used
    {
      assert PageRight(sp.segs, sp.chunks, i, p);
    }
  }

  lemma FirstSpaceInv(base: nat)
    requires base > 0 && base % PAGE_SIZE == 0
    ensures Inv(Space([Segment(base, {})], map[]))
  {
  }
}
