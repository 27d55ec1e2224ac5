/** The page manager as it runs: a linked list of segments with bitmaps, scanned word by word. */
module PageMachine {
  import opened Options
  import opened Words
  import opened PageSpace

  const WORD_BITS: nat := 64
  const BITMAP_WORDS: nat := 32768

  type Bitmap = seq<Word>

  ghost predicate WellFormed(bm: Bitmap) {
    |bm| == BITMAP_WORDS && forall i :: 0 <= i < |bm| ==> |bm[i]| == WORD_BITS
  }

  predicate Bit(bm: Bitmap, p: nat)
    requires WellFormed(bm) && p < CAGE_PAGES
  {
    bm[p / WORD_BITS][p % WORD_BITS]
  }

  /** The pages whose bits are set. */
  ghost function Used(bm: Bitmap): set<nat>
    requires WellFormed(bm)
  {
    set p | 0 <= p < CAGE_PAGES && Bit(bm, p)
  }

  lemma WordBit(bm: Bitmap, i: nat, b: nat)
    requires WellFormed(bm) && i < BITMAP_WORDS && b < WORD_BITS
    ensures i * WORD_BITS + b < CAGE_PAGES && (i * WORD_BITS + b in Used(bm) <==> bm[i][b])
  {
    assert Bit(bm, i * WORD_BITS + b) == bm[i][b];
  }

  // ---- The state of a scan at page `pos` ----

  /** The last `runLength` pages before `pos` are clear, the run cannot be extended downwards,
      and no start below it fits `n` pages. */
  ghost predicate Scanned(used: set<nat>, n: nat, pos: nat, runStart: nat, runLength: nat) {
    && runLength < n && runLength <= pos <= CAGE_PAGES
    && (runLength > 0 ==> runStart + runLength == pos)
    && RunFree(used, pos - runLength, runLength)
    && forall t :: 0 <= t < pos - runLength ==> !Fits(used, t, n)
  }

  lemma ScanZeros(used: set<nat>, n: nat, pos: nat, runStart: nat, runLength: nat, z: nat)
    requires Scanned(used, n, pos, runStart, runLength) && RunFree(used, pos, z) && z >= 1 && pos + z <= CAGE_PAGES
    ensures var start := if runLength == 0 then pos else runStart;
      && (runLength + z < n ==> Scanned(used, n, pos + z, start, runLength + z))
      && (runLength + z >= n ==> FirstFit(used, n) == Some(start))
  {
    var start := if runLength == 0 then pos else runStart;
    assert RunFree(used, start, runLength + z);
    if runLength + z >= n {
      assert Fits(used, start, n);
    }
  }

  lemma ScanOnes(used: set<nat>, n: nat, pos: nat, runStart: nat, runLength: nat, k: nat)
    requires Scanned(used, n, pos, runStart, runLength) && k >= 1 && pos + k <= CAGE_PAGES
    requires forall p :: pos <= p < pos + k ==> p in used
    ensures Scanned(used, n, pos + k, runStart, 0)
  {
    forall t | 0 <= t < pos + k
      ensures !Fits(used, t, n)
    {
      assert pos in used;
      assert t >= pos ==> t in used;
    }
  }

  lemma ScanEnd(used: set<nat>, n: nat, runStart: nat, runLength: nat)
    requires Scanned(used, n, CAGE_PAGES, runStart, runLength)
    ensures FirstFit(used, n) == None
  {
  }

  /** The runs inside word `i`, jumped over by counting trailing zeros. */
  method ScanWord(word: Word, i: nat, pageCount: nat, start: nat, length: nat, ghost bm: Bitmap)
    returns (runStart: nat, runLength: nat, found: bool)
    requires WellFormed(bm) && i < BITMAP_WORDS && word == bm[i]
    requires Scanned(Used(bm), pageCount, i * WORD_BITS, start, length)
    ensures found ==> FirstFit(Used(bm), pageCount) == Some(runStart)
    ensures !found ==> Scanned(Used(bm), pageCount, (i + 1) * WORD_BITS, runStart, runLength)
  {
    hide Scanned, FirstFit, RunFree, Used, WellFormed;
    ghost var used := Used(bm);
    WordWidth(bm, i);
    runStart, runLength := start, length;
    var b: nat := 0;
    while b < WORD_BITS
      invariant b <= WORD_BITS
      invariant Scanned(used, pageCount, i * WORD_BITS + b, runStart, runLength)
    {
      if !word[b] {
        var count := CountrZero(Shr(word, b));
        var zeros := if count > WORD_BITS - b then WORD_BITS - b else count;
        ZerosFrom(word, b);
        WordZeros(bm, i, b, zeros);
        ScanZeros(used, pageCount, i * WORD_BITS + b, runStart, runLength, zeros);
        if runLength == 0 {
          runStart := i * WORD_BITS + b;
        }
        runLength := runLength + zeros;
        b := b + zeros;
        if runLength >= pageCount {
          return runStart, runLength, true;
        }
      } else {
        var count := CountrZero(Not(Shr(word, b)));
        var ones := if count > WORD_BITS - b then WORD_BITS - b else count;
        OnesFrom(word, b);
        WordOnes(bm, i, b, ones);
        ScanOnes(used, pageCount, i * WORD_BITS + b, runStart, runLength, ones);
        runLength := 0;
        b := b + ones;
      }
    }
    found := false;
  }

  lemma WordWidth(bm: Bitmap, i: nat)
    requires WellFormed(bm) && i < BITMAP_WORDS
    ensures |bm| == BITMAP_WORDS && |bm[i]| == WORD_BITS
  {
  }

  /** The word-skipping scan finds exactly the first fit of a page-by-page search. */
  method FindRun(bitmap: array<Word>, pageCount: nat) returns (r: Option<nat>)
    requires WellFormed(bitmap[..]) && pageCount >= 1
    ensures r == FirstFit(Used(bitmap[..]), pageCount)
  {
    ghost var bm := bitmap[..];
    ghost var used := Used(bm);
    var runLength: nat, runStart: nat := 0, 0;
    hide Scanned, FirstFit, RunFree, Used;
    ScanStart(used, pageCount);
    for i := 0 to BITMAP_WORDS
      invariant Scanned(used, pageCount, i * WORD_BITS, runStart, runLength)
    {
      var word := bitmap[i];
      assert word == bm[i] && |word| == WORD_BITS;
      if IsAllOnes(word) {
        WordOnes(bm, i, 0, WORD_BITS);
        ScanOnes(used, pageCount, i * WORD_BITS, runStart, runLength, WORD_BITS);
        runLength := 0;
        continue;
      }
      if IsZero(word) {
        WordZeros(bm, i, 0, WORD_BITS);
        ScanZeros(used, pageCount, i * WORD_BITS, runStart, runLength, WORD_BITS);
        if runLength == 0 {
          runStart := i * WORD_BITS;
        }
        runLength := runLength + WORD_BITS;
        if runLength >= pageCount {
          return Some(runStart);
        }
        continue;
      }
      var found;
      runStart, runLength, found := ScanWord(word, i, pageCount, runStart, runLength, bm);
      if found {
        return Some(runStart);
      }
    }
    ScanEnd(used, pageCount, runStart, runLength);
    return None;
  }

  lemma ScanStart(used: set<nat>, n: nat)
    requires n >= 1
    ensures Scanned(used, n, 0, 0, 0)
  {
  }

  /** The clear bits counted from bit `b` upwards. */
  lemma ZerosFrom(w: Word, b: nat)
    requires b < |w| && !w[b]
    ensures var c := CountrZero(Shr(w, b)); var z := if c > |w| - b then |w| - b else c;
      z >= 1 && b + z <= |w| && forall j :: b <= j < b + z ==> !w[j]
  {
    var s := Shr(w, b);
    assert !s[0];
    forall j | b <= j < b + CountrZero(s) && j < |w|
      ensures !w[j]
    {
      assert !s[j - b];
    }
  }

  /** The set bits counted from bit `b` upwards. */
  lemma OnesFrom(w: Word, b: nat)
    requires b < |w| && w[b]
    ensures var c := CountrZero(Not(Shr(w, b))); var z := if c > |w| - b then |w| - b else c;
      z >= 1 && b + z <= |w| && forall j :: b <= j < b + z ==> w[j]
  {
    var s := Not(Shr(w, b));
    assert !s[0];
    forall j | b <= j < b + CountrZero(s) && j < |w|
      ensures w[j]
    {
      assert !s[j - b];
    }
  }

  lemma WordZeros(bm: Bitmap, i: nat, b: nat, z: nat)
    requires WellFormed(bm) && i < BITMAP_WORDS && b + z <= WORD_BITS
    requires forall j :: b <= j < b + z ==> !bm[i][j]
    ensures i * WORD_BITS + b + z <= CAGE_PAGES && RunFree(Used(bm), i * WORD_BITS + b, z)
  {
    forall p | i * WORD_BITS + b <= p < i * WORD_BITS + b + z
      ensures p !in Used(bm)
    {
      WordBit(bm, i, p - i * WORD_BITS);
    }
  }

  lemma WordOnes(bm: Bitmap, i: nat, b: nat, z: nat)
    requires WellFormed(bm) && i < BITMAP_WORDS && b + z <= WORD_BITS
    requires forall j :: b <= j < b + z ==> bm[i][j]
    ensures i * WORD_BITS + b + z <= CAGE_PAGES
    ensures forall p :: i * WORD_BITS + b <= p < i * WORD_BITS + b + z ==> p in Used(bm)
  {
    forall p | i * WORD_BITS + b <= p < i * WORD_BITS + b + z
      ensures p in Used(bm)
    {
      WordBit(bm, i, p - i * WORD_BITS);
    }
  }

  // ---- Setting and clearing a run of bits ----

  /** The set of pages after bit `p` is written. */
  lemma WriteBit(bm: Bitmap, p: nat, v: bool)
    requires WellFormed(bm) && p < CAGE_PAGES
    ensures var bm' := bm[p / WORD_BITS := bm[p / WORD_BITS][p % WORD_BITS := v]];
      WellFormed(bm') && Used(bm') == if v then Used(bm) + {p} else Used(bm) - {p}
  {
    var i, b := p / WORD_BITS, p % WORD_BITS;
    var bm' := bm[i := bm[i][b := v]];
    forall q | 0 <= q < CAGE_PAGES
      ensures Bit(bm', q) == if q == p then v else Bit(bm, q)
    {
      assert q == q / WORD_BITS * WORD_BITS + q % WORD_BITS;
    }
  }

  method SetRun(bitmap: array<Word>, startIdx: nat, pageCount: nat)
    requires WellFormed(bitmap[..]) && startIdx + pageCount <= CAGE_PAGES
    modifies bitmap
    ensures WellFormed(bitmap[..]) && Used(bitmap[..]) == old(Used(bitmap[..])) + PagesOf(startIdx, pageCount)
  {
    for j := 0 to pageCount
      invariant WellFormed(bitmap[..]) && Used(bitmap[..]) == old(Used(bitmap[..])) + PagesOf(startIdx, j)
    {
      var idx := startIdx + j;
      ghost var bm := bitmap[..];
      WriteBit(bm, idx, true);
      bitmap[idx / WORD_BITS] := SetBit(bitmap[idx / WORD_BITS], idx % WORD_BITS);
      assert bitmap[..] == bm[idx / WORD_BITS := bm[idx / WORD_BITS][idx % WORD_BITS := true]];
    }
  }

  method ClearRun(bitmap: array<Word>, startIndex: nat, pageCount: nat)
    requires WellFormed(bitmap[..]) && startIndex + pageCount <= CAGE_PAGES
    modifies bitmap
    ensures WellFormed(bitmap[..]) && Used(bitmap[..]) == old(Used(bitmap[..])) - PagesOf(startIndex, pageCount)
  {
    for i := 0 to pageCount
      invariant WellFormed(bitmap[..]) && Used(bitmap[..]) == old(Used(bitmap[..])) - PagesOf(startIndex, i)
    {
      var idx := startIndex + i;
      ghost var bm := bitmap[..];
      WriteBit(bm, idx, false);
      bitmap[idx / WORD_BITS] := ClearBit(bitmap[idx / WORD_BITS], idx % WORD_BITS);
      assert bitmap[..] == bm[idx / WORD_BITS := bm[idx / WORD_BITS][idx % WORD_BITS := false]];
    }
  }

  lemma RequestUnfold(sp: Space, n: nat, reserved: nat)
    requires |sp.segs| > 0 && n <= CAGE_PAGES
    ensures n == 0 ==> Request(sp, n, reserved) == (sp, None)
    ensures var g := sp.segs[|sp.segs| - 1]; n > 0 && FirstFit(g.used, n).Some? ==>
      var s := FirstFit(g.used, n).value;
      Fits(g.used, s, n) && Request(sp, n, reserved) == (Take(sp, s, n), Some(g.base + s * PAGE_SIZE))
  {
  }

  /** Without a fit, the request is the one asked of the space with a new segment. */
  lemma RequestGrows(sp: Space, n: nat, reserved: nat)
    requires |sp.segs| > 0 && 1 <= n <= CAGE_PAGES && FirstFit(sp.segs[|sp.segs| - 1].used, n) == None
    ensures var wider := sp.(segs := sp.segs + [Segment(reserved, {})]);
      && FirstFit(wider.segs[|wider.segs| - 1].used, n) == Some(0)
      && Request(wider, n, reserved) == Request(sp, n, reserved)
  {
    hide FirstFit;
    FreshSegmentFits(n);
  }

  class CageSegment {
    const baseAddress: nat
    const bitmap: array<Word>
    var next: CageSegment?

    /** A new segment has an all-clear bitmap. */
    constructor (base: nat)
      ensures baseAddress == base && next == null && fresh(bitmap)
      ensures WellFormed(bitmap[..]) && Used(bitmap[..]) == {}
    {
      baseAddress := base;
      bitmap := new Word[BITMAP_WORDS](_ => Zero(WORD_BITS));
      next := null;
    }
  }

  class PageManager {
    var head: CageSegment
    var current: CageSegment
    ghost var segs: seq<CageSegment>
    ghost var space: Space
    ghost var Repr: set<object>

    ghost predicate NextAt(i: nat)
      requires i < |segs|
      reads this, segs
    {
      segs[i].next == if i + 1 < |segs| then segs[i + 1] else null
    }

    ghost predicate Matches(i: nat)
      requires i < |segs| && i < |space.segs|
      reads this, segs, set c | c in segs :: c.bitmap
    {
      && WellFormed(segs[i].bitmap[..])
      && space.segs[i] == Segment(segs[i].baseAddress, Used(segs[i].bitmap[..]))
    }

    ghost predicate Valid()
      reads this, Repr
      ensures Valid() ==> this in Repr && |space.segs| > 0 && Inv(space)
    {
      && this in Repr
      && (forall c :: c in segs ==> c in Repr && c.bitmap in Repr)
      && |segs| > 0 && head == segs[0] && current == segs[|segs| - 1]
      && (forall i, j :: 0 <= i < j < |segs| ==> segs[i] != segs[j] && segs[i].bitmap != segs[j].bitmap)
      && (forall i :: 0 <= i < |segs| ==> NextAt(i))
      && |space.segs| == |segs|
      && (forall i :: 0 <= i < |segs| ==> Matches(i))
      && Inv(space)
    }

    /** `base` is the address of the first reserved segment. */
    constructor (base: nat)
      requires base > 0 && base % PAGE_SIZE == 0
      ensures Valid() && fresh(Repr) && space == Space([Segment(base, {})], map[])
    {
      var segment := new CageSegment(base);
      head := segment;
      current := segment;
      segs := [segment];
      space := Space([Segment(base, {})], map[]);
      Repr := {this, segment, segment.bitmap};
      FirstSpaceInv(base);
    }

    /** `reserved` is the address range the operating system hands out if a new segment is needed. */
    method RequestPageChunk(pageCount: nat, reserved: nat) returns (r: Option<nat>)
      requires Valid() && pageCount <= CAGE_PAGES
      requires FirstFit(space.segs[|space.segs| - 1].used, pageCount) == None ==> Reservable(space.segs, reserved)
      modifies Repr
      ensures Valid() && fresh(Repr - old(Repr))
      ensures (space, r) == Request(old(space), pageCount, reserved)
      decreases if FirstFit(space.segs[|space.segs| - 1].used, pageCount) == None then 1 else 0, 1
    {
      hide Inv, Used, FirstFit, Request, Take, Reservable, Fits;
      RequestUnfold(space, pageCount, reserved);
      if pageCount == 0 {
        return None;
      }
      var startIdx: Option<nat> := None;
      var segment: CageSegment? := current;
      while segment != null
        invariant segment == null || segment == current
        invariant startIdx == None
        invariant segment == null ==> FirstFit(space.segs[|space.segs| - 1].used, pageCount) == None
        modifies {}
        decreases segment == current
      {
        assert Matches(|segs| - 1) && NextAt(|segs| - 1);
        startIdx := FindRun(segment.bitmap, pageCount);
        if startIdx.Some? {
          break;
        }
        segment := segment.next;
      }
      if startIdx.Some? {
        assert Matches(|segs| - 1);
        r := CommitAndReturn(startIdx.value, pageCount);
      } else {
        r := CreateNewSegmentAndAllocate(pageCount, reserved);
      }
    }

    /** Fix the pages found in the current segment. */
    method CommitAndReturn(startIdx: nat, pageCount: nat) returns (r: Option<nat>)
      requires Valid() && pageCount >= 1 && Fits(space.segs[|space.segs| - 1].used, startIdx, pageCount)
      modifies Repr
      ensures Valid() && Repr == old(Repr)
      ensures space == Take(old(space), startIdx, pageCount)
      ensures r == Some(current.baseAddress + startIdx * PAGE_SIZE) && current == old(current)
    {
      ghost var last := |segs| - 1;
      assert Matches(last);
      TakeInv(space, startIdx, pageCount);
      hide Inv, Used;
      SetRun(current.bitmap, startIdx, pageCount);
      space := Take(space, startIdx, pageCount);
      forall i | 0 <= i < |segs|
        ensures Matches(i) && NextAt(i)
      {
        assert old(Matches(i)) && old(NextAt(i));
      }
      r := Some(current.baseAddress + startIdx * PAGE_SIZE);
    }

    method CreateNewSegmentAndAllocate(pageCount: nat, reserved: nat) returns (r: Option<nat>)
      requires Valid() && 1 <= pageCount <= CAGE_PAGES && Reservable(space.segs, reserved)
      requires FirstFit(space.segs[|space.segs| - 1].used, pageCount) == None
      modifies Repr
      ensures Valid() && fresh(Repr - old(Repr))
      ensures (space, r) == Request(old(space), pageCount, reserved)
      decreases 1, 0
    {
      hide PageManager.Valid, Inv, FirstFit, Request, Reservable;
      RequestGrows(space, pageCount, reserved);
      AppendSegment(reserved);
      r := RequestPageChunk(pageCount, reserved);
    }

    method AppendSegment(reserved: nat)
      requires Valid() && Reservable(space.segs, reserved)
      modifies Repr
      ensures Valid() && fresh(Repr - old(Repr))
      ensures space == old(space).(segs := old(space).segs + [Segment(reserved, {})])
    {
      AppendInv(space, reserved);
      hide Inv, Used, WellFormed;
      var segment := new CageSegment(reserved);
      current.next := segment;
      current := segment;
      segs := segs + [segment];
      space := space.(segs := space.segs + [Segment(reserved, {})]);
      Repr := Repr + {segment, segment.bitmap};
      forall i | 0 <= i < |segs|
        ensures Matches(i) && NextAt(i)
      {
        assert i < |segs| - 1 ==> old(Matches(i)) && old(NextAt(i));
      }
    }

    /** Give back a chunk with the page count it was requested with. */
    method ReleasePageChunk(ptr: nat, pageCount: nat)
      requires Valid() && ptr in space.chunks && space.chunks[ptr] == pageCount
      modifies Repr
      ensures Valid() && Repr == old(Repr)
      ensures SegmentOf(old(space).segs, ptr) < |old(space).segs| && space == Release(old(space), ptr, pageCount)
    {
      var segment := SegmentHolding(ptr);
      ghost var at, s := AddressInSegment(space, ptr);
      DropInv(space, ptr, at, s);
      assert Release(space, ptr, pageCount) == Drop(space, ptr, pageCount, at, s);
      assert Matches(at);
      var startIndex := (ptr - segment.baseAddress) / PAGE_SIZE;
      ClearChunk(segment, ptr, startIndex, pageCount, at);
    }

    method ClearChunk(segment: CageSegment, ghost ptr: nat, startIndex: nat, pageCount: nat, ghost at: nat)
      requires Valid() && at < |segs| && segment == segs[at] && startIndex + pageCount <= CAGE_PAGES
      requires Inv(Drop(space, ptr, pageCount, at, startIndex))
      modifies Repr
      ensures Valid() && Repr == old(Repr) && space == Drop(old(space), ptr, pageCount, at, startIndex)
    {
      hide Inv, Used, WellFormed;
      assert Matches(at);
      ClearRun(segment.bitmap, startIndex, pageCount);
      space := Drop(space, ptr, pageCount, at, startIndex);
      forall i | 0 <= i < |segs|
        ensures Matches(i) && NextAt(i)
      {
        assert old(Matches(i)) && old(NextAt(i));
      }
    }

    /** The first segment from the head whose range holds the address of an outstanding chunk. */
    method SegmentHolding(ptr: nat) returns (segment: CageSegment)
      requires Valid() && ptr in space.chunks
      ensures SegmentOf(space.segs, ptr) < |space.segs| && segment == segs[SegmentOf(space.segs, ptr)]
    {
      ghost var at, s := AddressInSegment(space, ptr);
      hide Inv, Used, WellFormed;
      ghost var i := 0;
      segment := head;
      while !(segment.baseAddress <= ptr < segment.baseAddress + SEGMENT_SIZE)
        invariant i <= at && segment == segs[i]
        decreases |segs| - i
      {
        assert Matches(i) && NextAt(i) && Matches(at);
        i := i + 1;
        segment := segment.next;
      }
      assert Matches(i);
    }
  }
}
