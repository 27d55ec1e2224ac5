/** The bump arena as a value: a list of chunks over the page space, and markers that pop it back. */
module ArenaSpace {
  import opened Options
  import opened Powers
  import opened PageSpace

  /** `offset` bytes of the chunk are in use. */
  datatype Chunk = Chunk(data: nat, capacity: nat, offset: nat, pages: nat)

  /** The last chunk is the current one. */
  datatype Arena = Arena(chunks: seq<Chunk>, defaultSize: nat)

  datatype Marker = Marker(chunk: nat, offset: nat)

  function AlignForward(x: nat, alignment: nat): nat
    requires alignment > 0
  {
    (x + alignment - 1) / alignment * alignment
  }

  function PagesFor(bytes: nat): nat {
    var pages := (bytes + PAGE_SIZE - 1) / PAGE_SIZE;
    if pages == 0 then 1 else pages
  }

  function Current(a: Arena): Chunk
    requires |a.chunks| > 0
  {
    a.chunks[|a.chunks| - 1]
  }

  /** A chunk of at least `bytes` bytes, appended at the end. */
  function Grow(a: Arena, data: nat, bytes: nat): Arena {
    a.(chunks := a.chunks + [Chunk(data, PagesFor(bytes) * PAGE_SIZE, 0, PagesFor(bytes))])
  }

  function Bump(a: Arena, at: nat, bytes: nat): Arena
    requires |a.chunks| > 0
  {
    a.(chunks := a.chunks[|a.chunks| - 1 := Current(a).(offset := at + bytes)])
  }

  predicate NeedsChunk(a: Arena, bytes: nat, alignment: nat)
    requires |a.chunks| > 0 && alignment > 0
  {
    AlignForward(Current(a).offset, alignment) + bytes > Current(a).capacity
  }

  function ChunkBytes(a: Arena, bytes: nat): nat {
    if bytes <= a.defaultSize then a.defaultSize else bytes
  }

  /** Serve a request from the current chunk, or from a new one when it does not fit. */
  function Alloc(a: Arena, sp: Space, bytes: nat, alignment: nat, reserved: nat): (Arena, Space, nat)
    requires |a.chunks| > 0 && |sp.segs| > 0 && alignment > 0
    requires bytes <= SEGMENT_SIZE && a.defaultSize <= SEGMENT_SIZE
  {
    if NeedsChunk(a, bytes, alignment) then
      var (sp', data) := Request(sp, PagesFor(ChunkBytes(a, bytes)), reserved);
      var base := if data.Some? then data.value else 0;
      var a' := Grow(a, base, ChunkBytes(a, bytes));
      var at := AlignForward(0, alignment);
      (Bump(a', at, bytes), sp', base + at)
    else
      var at := AlignForward(Current(a).offset, alignment);
      (Bump(a, at, bytes), sp, Current(a).data + at)
  }

  function GetMarker(a: Arena): Marker
    requires |a.chunks| > 0
  {
    Marker(|a.chunks| - 1, Current(a).offset)
  }

  /** Every chunk of the list is an outstanding chunk of the page space. */
  ghost predicate Outstanding(chunks: seq<Chunk>, sp: Space) {
    && (forall i :: 0 <= i < |chunks| ==> chunks[i].data in sp.chunks && sp.chunks[chunks[i].data] == chunks[i].pages)
    && (forall i, j :: 0 <= i < j < |chunks| ==> chunks[i].data != chunks[j].data)
  }

  function Datas(chunks: seq<Chunk>): set<nat> {
    set i | 0 <= i < |chunks| :: chunks[i].data
  }

  /** Release the pages of the given chunks, first to last; each must be outstanding when its turn comes. */
  ghost function ReleaseAll(sp: Space, chunks: seq<Chunk>): (r: Space)
    requires PageSpace.Inv(sp) && Outstanding(chunks, sp)
    ensures PageSpace.Inv(r) && r.chunks == sp.chunks - Datas(chunks)
    decreases chunks
  {
    if chunks == [] then sp
    else
      ReleaseFirst(sp, chunks);
      ReleaseAll(Release(sp, chunks[0].data, chunks[0].pages), chunks[1..])
  }

  lemma ReleaseFirst(sp: Space, chunks: seq<Chunk>)
    requires PageSpace.Inv(sp) && Outstanding(chunks, sp) && chunks != []
    ensures SegmentOf(sp.segs, chunks[0].data) < |sp.segs|
    ensures var r := Release(sp, chunks[0].data, chunks[0].pages);
      && PageSpace.Inv(r) && Outstanding(chunks[1..], r)
      && r.chunks - Datas(chunks[1..]) == sp.chunks - Datas(chunks)
  {
    hide PageSpace.Inv, Release, SegmentOf, Datas;
    ReleaseInv(sp, chunks[0].data);
    DatasCons(chunks);
    RestOutstanding(chunks, sp, Release(sp, chunks[0].data, chunks[0].pages));
  }

  lemma RestOutstanding(chunks: seq<Chunk>, sp: Space, r: Space)
    requires Outstanding(chunks, sp) && chunks != [] && r.chunks == sp.chunks - {chunks[0].data}
    ensures Outstanding(chunks[1..], r)
  {
  }

  lemma DatasCons(chunks: seq<Chunk>)
    requires chunks != []
    ensures Datas(chunks) == {chunks[0].data} + Datas(chunks[1..])
  {
    var rest := chunks[1..];
    forall x | x in Datas(chunks)
      ensures x in {chunks[0].data} + Datas(rest)
    {
      var i :| 0 <= i < |chunks| && chunks[i].data == x;
      assert i > 0 ==> rest[i - 1].data == x;
    }
    forall x | x in Datas(rest)
      ensures x in Datas(chunks)
    {
      var i :| 0 <= i < |rest| && rest[i].data == x;
      assert chunks[i + 1].data == x;
    }
  }

  /** Drop every chunk after the marker's and set the marker's offset back. */
  function Cut(a: Arena, m: Marker): Arena
    requires m.chunk < |a.chunks|
  {
    a.(chunks := a.chunks[..m.chunk] + [a.chunks[m.chunk].(offset := m.offset)])
  }

  ghost predicate Inv(a: Arena, sp: Space) {
    PageSpace.Inv(sp) && Outstanding(a.chunks, sp) && Sized(a)
  }

  ghost predicate Sized(a: Arena) {
    && |a.chunks| > 0 && a.defaultSize <= SEGMENT_SIZE
    && forall i :: 0 <= i < |a.chunks| ==>
      a.chunks[i].capacity == a.chunks[i].pages * PAGE_SIZE && a.chunks[i].offset <= a.chunks[i].capacity
  }

  // ---- alloc ----

  /** Rounding up: the least multiple of the alignment that is not below `x`. */
  lemma AlignForwardLeast(x: nat, k: nat)
    ensures var r := AlignForward(x, Pow2(k)); x <= r < x + Pow2(k) && Aligned(r, k)
    ensures Aligned(x, k) ==> AlignForward(x, Pow2(k)) == x
  {
    var p := Pow2(k);
    var y := x + p - 1;
    assert y / p * p == y - y % p;
    MultipleIsAligned(y / p, k);
    var r := AlignForward(x, p);
    if Aligned(x, k) && x < r {
      AlignedGap(x, r, k);
    }
  }

  /** Memory between two addresses of one chunk that the arena has handed out or passed over. */
  predicate Inside(chunks: seq<Chunk>, i: nat, addr: nat, bytes: nat)
    requires i < |chunks|
  {
    chunks[i].data <= addr && addr + bytes <= chunks[i].data + chunks[i].offset
  }

  /** `b` is `a` after some allocations: same chunks, the last of them possibly fuller, then new ones. */
  ghost predicate Extends(a: Arena, b: Arena) {
    && 0 < |a.chunks| <= |b.chunks| && a.defaultSize == b.defaultSize
    && a.chunks[..|a.chunks| - 1] == b.chunks[..|a.chunks| - 1]
    && var n := |a.chunks| - 1;
      b.chunks[n] == a.chunks[n].(offset := b.chunks[n].offset) && a.chunks[n].offset <= b.chunks[n].offset
  }

  lemma PagesForBounds(bytes: nat)
    requires bytes <= SEGMENT_SIZE
    ensures 1 <= PagesFor(bytes) <= CAGE_PAGES && bytes <= PagesFor(bytes) * PAGE_SIZE
  {
  }

  /** The least whole number of pages, at least one, that holds `want` bytes. */
  predicate WholePages(capacity: nat, want: nat) {
    capacity % 4096 == 0 && capacity >= 4096 && want <= capacity && (capacity > 4096 ==> capacity - 4096 < want)
  }

  lemma PagesForLeast(bytes: nat)
    ensures WholePages(PagesFor(bytes) * PAGE_SIZE, bytes)
  {
  }

  lemma GrowInv(a: Arena, sp: Space, bytes: nat, reserved: nat)
    requires Inv(a, sp) && bytes <= SEGMENT_SIZE && Reservable(sp.segs, reserved)
    ensures var (sp', r) := Request(sp, PagesFor(bytes), reserved);
      && r.Some? && r.value > 0 && r.value % PAGE_SIZE == 0 && r.value !in sp.chunks
      && sp'.chunks == sp.chunks[r.value := PagesFor(bytes)]
      && Inv(Grow(a, r.value, bytes), sp') && bytes <= Current(Grow(a, r.value, bytes)).capacity
  {
    hide Request, PageSpace.Inv, PagesFor, Reservable;
    PagesForBounds(bytes);
    HasSegment(sp);
    RequestInv(sp, PagesFor(bytes), reserved);
    GrownOutstanding(a, sp, Request(sp, PagesFor(bytes), reserved).0, bytes, Request(sp, PagesFor(bytes), reserved).1.value);
  }

  /** An arena of one empty chunk over a space that has just handed out its pages. */
  lemma OneChunk(sp: Space, sp': Space, bytes: nat, data: nat)
    requires PageSpace.Inv(sp') && bytes <= SEGMENT_SIZE && data !in sp.chunks && sp'.chunks == sp.chunks[data := PagesFor(bytes)]
    ensures var a := Arena([Chunk(data, PagesFor(bytes) * PAGE_SIZE, 0, PagesFor(bytes))], bytes);
      && Inv(a, sp') && sp'.chunks - Datas(a.chunks) == sp.chunks
      && Current(a).offset == 0 && WholePages(Current(a).capacity, bytes)
  {
    hide PageSpace.Inv, PagesFor, WholePages;
    PagesForLeast(bytes);
    var a := Arena([Chunk(data, PagesFor(bytes) * PAGE_SIZE, 0, PagesFor(bytes))], bytes);
    DatasCons(a.chunks);
    assert Datas(a.chunks) == {data};
  }

  lemma HasSegment(sp: Space)
    requires PageSpace.Inv(sp)
    ensures |sp.segs| > 0
  {
  }

  lemma GrownOutstanding(a: Arena, sp: Space, sp': Space, bytes: nat, data: nat)
    requires Outstanding(a.chunks, sp) && data !in sp.chunks && sp'.chunks == sp.chunks[data := PagesFor(bytes)]
    ensures Outstanding(Grow(a, data, bytes).chunks, sp')
  {
    hide PagesFor;
  }

  lemma BumpInv(a: Arena, sp: Space, at: nat, bytes: nat)
    requires Inv(a, sp) && Current(a).offset <= at && at + bytes <= Current(a).capacity
    ensures Inv(Bump(a, at, bytes), sp) && Extends(a, Bump(a, at, bytes))
  {
    hide PageSpace.Inv;
    var n := |a.chunks| - 1;
    assert a.chunks[..n] == Bump(a, at, bytes).chunks[..n];
  }

  /** What one call of `alloc` does: `n` is the chunk that serves it. */
  ghost predicate Served(a: Arena, sp: Space, a': Arena, sp': Space, ptr: nat, bytes: nat, k: nat) {
    && Extends(a, a')
    && var n := |a'.chunks| - 1;
      && Inside(a'.chunks, n, ptr, bytes) && ptr + bytes == a'.chunks[n].data + a'.chunks[n].offset
      && a'.chunks[n].data > 0 && Aligned(ptr - a'.chunks[n].data, k)
      && (if |a'.chunks| == |a.chunks| then
            && sp' == sp && a.chunks[n].data + a.chunks[n].offset <= ptr
            && ptr < a.chunks[n].data + a.chunks[n].offset + Pow2(k)
          else
            && |a'.chunks| == |a.chunks| + 1 && a'.chunks[..n] == a.chunks && ptr == a'.chunks[n].data
            && a'.chunks[n].data !in sp.chunks && a'.chunks[n].data % PAGE_SIZE == 0
            && sp'.chunks == sp.chunks[a'.chunks[n].data := a'.chunks[n].pages])
  }

  /** An allocation only adds: the arena is extended, the new bytes lie in the current chunk above
      everything handed out before, and are aligned as asked relative to the chunk. */
  lemma AllocInv(a: Arena, sp: Space, bytes: nat, k: nat, reserved: nat)
    requires Inv(a, sp) && bytes <= SEGMENT_SIZE && Reservable(sp.segs, reserved)
    ensures var (a', sp', ptr) := Alloc(a, sp, bytes, Pow2(k), reserved);
      Inv(a', sp') && Served(a, sp, a', sp', ptr, bytes, k)
  {
    if NeedsChunk(a, bytes, Pow2(k)) {
      var want := ChunkBytes(a, bytes);
      GrowInv(a, sp, want, reserved);
      AllocGrown(a, sp, bytes, k, reserved);
      var (sp', r) := Request(sp, PagesFor(want), reserved);
      hide Request, PageSpace.Inv, PagesFor, Pow2, Served, NeedsChunk, Alloc;
      BumpInv(Grow(a, r.value, want), sp', 0, bytes);
      ServedGrown(a, sp, sp', r.value, want, bytes, k);
    } else {
      var at := AlignForward(Current(a).offset, Pow2(k));
      AlignForwardLeast(Current(a).offset, k);
      BumpInv(a, sp, at, bytes);
      ChunkAddress(a, sp);
    }
  }

  lemma AllocGrown(a: Arena, sp: Space, bytes: nat, k: nat, reserved: nat)
    requires |a.chunks| > 0 && |sp.segs| > 0 && bytes <= SEGMENT_SIZE && a.defaultSize <= SEGMENT_SIZE
    requires NeedsChunk(a, bytes, Pow2(k))
    ensures var want := ChunkBytes(a, bytes);
      PagesFor(want) <= CAGE_PAGES
      && var (sp', r) := Request(sp, PagesFor(want), reserved);
      r.Some? ==> Alloc(a, sp, bytes, Pow2(k), reserved) == (Bump(Grow(a, r.value, want), 0, bytes), sp', r.value)
  {
    PagesForBounds(ChunkBytes(a, bytes));
    ZeroAligned(k);
    AlignForwardLeast(0, k);
    hide PagesFor, Request, Pow2, Aligned;
  }

  lemma ServedGrown(a: Arena, sp: Space, sp': Space, data: nat, want: nat, bytes: nat, k: nat)
    requires |a.chunks| > 0 && data > 0 && data % PAGE_SIZE == 0 && data !in sp.chunks
    requires sp'.chunks == sp.chunks[data := PagesFor(want)]
    ensures Served(a, sp, Bump(Grow(a, data, want), 0, bytes), sp', data, bytes, k)
  {
    ZeroAligned(k);
    var n := |a.chunks|;
    var g := Grow(a, data, want);
    var a' := Bump(g, 0, bytes);
    assert a'.chunks == a.chunks + [Chunk(data, PagesFor(want) * PAGE_SIZE, bytes, PagesFor(want))];
    assert a'.chunks[..n] == a.chunks;
    assert a'.chunks[..n - 1] == a.chunks[..n - 1];
  }

  lemma SegmentBase(sp: Space, g: nat)
    requires PageSpace.Inv(sp) && g < |sp.segs|
    ensures sp.segs[g].base > 0 && sp.segs[g].base % PAGE_SIZE == 0
  {
  }

  lemma ChunkAddress(a: Arena, sp: Space)
    requires Inv(a, sp)
    ensures forall i :: 0 <= i < |a.chunks| ==> a.chunks[i].data > 0 && a.chunks[i].data % PAGE_SIZE == 0
  {
    hide PageSpace.Inv;
    forall i | 0 <= i < |a.chunks|
      ensures a.chunks[i].data > 0 && a.chunks[i].data % PAGE_SIZE == 0
    {
      var g, s := AddressInSegment(sp, a.chunks[i].data);
      SegmentBase(sp, g);
    }
  }

  // ---- popToMarker ----

  predicate ValidMarker(a: Arena, m: Marker) {
    m.chunk < |a.chunks| && m.offset <= a.chunks[m.chunk].offset
  }

  ghost function Pop(a: Arena, sp: Space, m: Marker): (Arena, Space)
    requires Inv(a, sp) && ValidMarker(a, m)
  {
    TailOutstanding(a, sp, m.chunk + 1);
    (Cut(a, m), ReleaseAll(sp, a.chunks[m.chunk + 1..]))
  }

  lemma TailOutstanding(a: Arena, sp: Space, i: nat)
    requires Inv(a, sp) && i <= |a.chunks|
    ensures Outstanding(a.chunks[i..], sp)
  {
    hide PageSpace.Inv;
    var rest := a.chunks[i..];
    assert forall j :: 0 <= j < |rest| ==> rest[j] == a.chunks[i + j];
  }

  /** Pages of the space that belong to somebody else than the arena. */
  ghost function Others(a: Arena, sp: Space): map<nat, nat> {
    sp.chunks - Datas(a.chunks)
  }

  lemma {:induction false} DatasSplit(chunks: seq<Chunk>, i: nat)
    requires i <= |chunks|
    ensures Datas(chunks) == Datas(chunks[..i]) + Datas(chunks[i..])
  {
    forall x | x in Datas(chunks)
      ensures x in Datas(chunks[..i]) + Datas(chunks[i..])
    {
      var j :| 0 <= j < |chunks| && chunks[j].data == x;
      if j < i {
        assert chunks[..i][j].data == x;
      } else {
        assert chunks[i..][j - i].data == x;
      }
    }
    forall x | x in Datas(chunks[i..])
      ensures x in Datas(chunks)
    {
      var j :| 0 <= j < |chunks[i..]| && chunks[i..][j].data == x;
      assert chunks[i + j].data == x;
    }
  }

  /** A pop keeps the invariant and releases exactly the pages of the chunks behind the marker. */
  lemma PopInv(a: Arena, sp: Space, m: Marker)
    requires Inv(a, sp) && ValidMarker(a, m)
    ensures var (a', sp') := Pop(a, sp, m);
      && Inv(a', sp') && sp'.chunks == sp.chunks - Datas(a.chunks[m.chunk + 1..])
      && Others(a', sp') == Others(a, sp)
  {
    hide ReleaseAll, PageSpace.Inv, Datas, Outstanding, Sized, Cut;
    TailOutstanding(a, sp, m.chunk + 1);
    var sp' := ReleaseAll(sp, a.chunks[m.chunk + 1..]);
    CutOutstanding(a, sp, m, sp');
    CutSized(a, m);
    CutOthers(a, sp, m, sp');
  }

  lemma CutOthers(a: Arena, sp: Space, m: Marker, sp': Space)
    requires ValidMarker(a, m) && sp'.chunks == sp.chunks - Datas(a.chunks[m.chunk + 1..])
    ensures Others(Cut(a, m), sp') == Others(a, sp)
  {
    DatasSplit(a.chunks, m.chunk + 1);
    SameDatas(a.chunks[..m.chunk + 1], Cut(a, m).chunks);
    hide Datas, Cut;
    MinusTwice(sp.chunks, Datas(a.chunks[m.chunk + 1..]), Datas(Cut(a, m).chunks));
  }

  lemma MinusTwice(c: map<nat, nat>, x: set<nat>, y: set<nat>)
    ensures c - x - y == c - (y + x)
  {
  }

  lemma CutSized(a: Arena, m: Marker)
    requires Sized(a) && ValidMarker(a, m)
    ensures Sized(Cut(a, m))
  {
  }

  lemma CutOutstanding(a: Arena, sp: Space, m: Marker, sp': Space)
    requires Outstanding(a.chunks, sp) && ValidMarker(a, m)
    requires sp'.chunks == sp.chunks - Datas(a.chunks[m.chunk + 1..])
    ensures Outstanding(Cut(a, m).chunks, sp')
  {
    var rest := a.chunks[m.chunk + 1..];
    forall i | 0 <= i < m.chunk + 1
      ensures a.chunks[i].data !in Datas(rest)
    {
      assert forall j :: 0 <= j < |rest| ==> rest[j] == a.chunks[m.chunk + 1 + j];
    }
  }

  lemma SameDatas(c: seq<Chunk>, d: seq<Chunk>)
    requires |c| == |d| && forall i :: 0 <= i < |c| ==> c[i].data == d[i].data
    ensures Datas(c) == Datas(d)
  {
    forall x
      ensures x in Datas(c) <==> x in Datas(d)
    {
      if x in Datas(c) {
        var i :| 0 <= i < |c| && c[i].data == x;
        assert d[i].data == x;
      }
      if x in Datas(d) {
        var i :| 0 <= i < |d| && d[i].data == x;
        assert c[i].data == x;
      }
    }
  }

  /** Popping an extension back to the marker taken before it restores the arena exactly. */
  lemma PopRestores(before: Arena, a: Arena, sp: Space)
    requires Inv(a, sp) && Extends(before, a)
    ensures ValidMarker(a, GetMarker(before)) && Pop(a, sp, GetMarker(before)).0 == before
  {
    var n := |before.chunks| - 1;
    assert before.chunks == before.chunks[..n] + [before.chunks[n]];
    hide PageSpace.Inv;
  }

  lemma ExtendsTrans(a: Arena, b: Arena, c: Arena)
    requires Extends(a, b) && Extends(b, c)
    ensures Extends(a, c)
  {
    var n := |a.chunks| - 1;
    assert a.chunks[..n] == b.chunks[..|b.chunks| - 1][..n];
    assert c.chunks[..|b.chunks| - 1][..n] == c.chunks[..n];
    if |b.chunks| > |a.chunks| {
      assert c.chunks[..|b.chunks| - 1][n] == c.chunks[n];
    }
  }
}
