/** Runs of the arena with nested markers. */
module ArenaRuns {
  import opened Powers
  import opened PageSpace
  import opened ArenaSpace

  /** Bytes handed out. */
  datatype Region = Region(addr: nat, bytes: nat)

  /** A marker on the stack, with the arena and the ledger of handed-out regions it was taken in. */
  datatype Frame = Frame(marker: Marker, saved: Arena, ledger: seq<Region>)

  datatype World = World(arena: Arena, space: Space, ledger: seq<Region>, stack: seq<Frame>)

  datatype Op = OpAlloc(bytes: nat, k: nat, reserved: nat) | OpMark | OpPop

  ghost predicate Located(a: Arena, r: Region) {
    exists i :: 0 <= i < |a.chunks| && Inside(a.chunks, i, r.addr, r.bytes)
  }

  predicate RegionsApart(r: Region, s: Region) {
    r.addr + r.bytes <= s.addr || s.addr + s.bytes <= r.addr
  }

  ghost predicate LedgerOk(a: Arena, ledger: seq<Region>) {
    && (forall i :: 0 <= i < |ledger| ==> Located(a, ledger[i]))
    && (forall i, j :: 0 <= i < j < |ledger| ==> RegionsApart(ledger[i], ledger[j]))
  }

  ghost predicate FrameOk(f: Frame, arena: Arena, ledger: seq<Region>) {
    && Extends(f.saved, arena) && f.marker == GetMarker(f.saved)
    && f.ledger <= ledger && LedgerOk(f.saved, f.ledger)
  }

  ghost predicate StackOk(stack: seq<Frame>, arena: Arena, ledger: seq<Region>) {
    if stack == [] then true
    else
      var top := stack[|stack| - 1];
      FrameOk(top, arena, ledger) && StackOk(stack[..|stack| - 1], top.saved, top.ledger)
  }

  ghost predicate Inv(w: World) {
    ArenaSpace.Inv(w.arena, w.space) && LedgerOk(w.arena, w.ledger) && StackOk(w.stack, w.arena, w.ledger)
  }

  ghost predicate Legal(w: World, op: Op) {
    match op
    case OpAlloc(bytes, k, reserved) => bytes <= SEGMENT_SIZE && Reservable(w.space.segs, reserved)
    case OpMark => true
    case OpPop => w.stack != []
  }

  ghost function Step(w: World, op: Op): World
    requires Inv(w) && Legal(w, op)
  {
    match op
    case OpAlloc(bytes, k, reserved) =>
      var (a, sp, ptr) := Alloc(w.arena, w.space, bytes, Pow2(k), reserved);
      World(a, sp, w.ledger + [Region(ptr, bytes)], w.stack)
    case OpMark =>
      w.(stack := w.stack + [Frame(GetMarker(w.arena), w.arena, w.ledger)])
    case OpPop =>
      var top := w.stack[|w.stack| - 1];
      PopRestores(top.saved, w.arena, w.space);
      var (a, sp) := Pop(w.arena, w.space, top.marker);
      World(a, sp, top.ledger, w.stack[..|w.stack| - 1])
  }

  lemma InsideExtended(a: Arena, b: Arena, r: Region)
    requires Extends(a, b) && Located(a, r)
    ensures Located(b, r)
  {
    var i :| 0 <= i < |a.chunks| && Inside(a.chunks, i, r.addr, r.bytes);
    var n := |a.chunks| - 1;
    assert i < n ==> a.chunks[..n][i] == b.chunks[..n][i];
    assert Inside(b.chunks, i, r.addr, r.bytes);
  }

  /** New bytes never overlap bytes handed out before. */
  lemma NewBytesApart(a: Arena, sp: Space, a': Arena, sp': Space, r: Region, ptr: nat, bytes: nat, k: nat)
    requires ArenaSpace.Inv(a, sp) && ArenaSpace.Inv(a', sp') && Served(a, sp, a', sp', ptr, bytes, k) && Located(a, r)
    ensures RegionsApart(r, Region(ptr, bytes))
  {
    var i :| 0 <= i < |a.chunks| && Inside(a.chunks, i, r.addr, r.bytes);
    var n := |a'.chunks| - 1;
    var m := |a.chunks| - 1;
    assert i < m ==> a.chunks[..m][i] == a'.chunks[..m][i];
    if i != n {
      var c, d := a'.chunks[i], a'.chunks[n];
      assert c.data in sp'.chunks && d.data in sp'.chunks && c.data != d.data;
      assert ChunksApart(c.data, sp'.chunks[c.data], d.data, sp'.chunks[d.data]);
    }
  }

  lemma {:induction false} StackExtends(stack: seq<Frame>, a: Arena, l: seq<Region>, b: Arena, m: seq<Region>)
    requires StackOk(stack, a, l) && Extends(a, b) && l <= m
    ensures StackOk(stack, b, m)
  {
    if stack != [] {
      var top := stack[|stack| - 1];
      ExtendsTrans(top.saved, a, b);
    }
  }

  lemma LedgerGrows(a: Arena, sp: Space, a': Arena, sp': Space, ledger: seq<Region>, ptr: nat, bytes: nat, k: nat)
    requires ArenaSpace.Inv(a, sp) && ArenaSpace.Inv(a', sp') && Served(a, sp, a', sp', ptr, bytes, k)
    requires LedgerOk(a, ledger)
    ensures LedgerOk(a', ledger + [Region(ptr, bytes)])
  {
    hide ArenaSpace.Inv, RegionsApart;
    var r := Region(ptr, bytes);
    forall i | 0 <= i < |ledger|
      ensures Located(a', ledger[i]) && RegionsApart(ledger[i], r)
    {
      InsideExtended(a, a', ledger[i]);
      NewBytesApart(a, sp, a', sp', ledger[i], ptr, bytes, k);
    }
    assert Inside(a'.chunks, |a'.chunks| - 1, ptr, bytes);
    hide Extends, Served, Inside;
  }

  lemma StepAlloc(w: World, bytes: nat, k: nat, reserved: nat)
    requires Inv(w) && Legal(w, OpAlloc(bytes, k, reserved))
    ensures var w' := Step(w, OpAlloc(bytes, k, reserved));
      Inv(w') && Others(w'.arena, w'.space) == Others(w.arena, w.space)
  {
    AllocInv(w.arena, w.space, bytes, k, reserved);
    var (a, sp, ptr) := Alloc(w.arena, w.space, bytes, Pow2(k), reserved);
    hide Alloc, LedgerOk, StackOk, PageSpace.Inv, Pow2;
    assert Extends(w.arena, a);
    ServedOthers(w.arena, w.space, a, sp, ptr, bytes, k);
    LedgerGrows(w.arena, w.space, a, sp, w.ledger, ptr, bytes, k);
    StackExtends(w.stack, w.arena, w.ledger, a, w.ledger + [Region(ptr, bytes)]);
  }

  /** Serving an allocation takes pages for the arena only. */
  lemma ServedOthers(a: Arena, sp: Space, a': Arena, sp': Space, ptr: nat, bytes: nat, k: nat)
    requires Outstanding(a.chunks, sp) && Served(a, sp, a', sp', ptr, bytes, k)
    ensures Others(a', sp') == Others(a, sp)
  {
    var n := |a.chunks|;
    if |a'.chunks| == n {
      forall i | 0 <= i < n
        ensures a.chunks[i].data == a'.chunks[i].data
      {
        assert i < n - 1 ==> a'.chunks[..n - 1][i] == a.chunks[..n - 1][i];
      }
      SameDatas(a.chunks, a'.chunks);
    } else {
      var c := a'.chunks[n];
      DatasSplit(a'.chunks, n);
      assert a'.chunks[n..] == [c];
      DatasCons([c]);
      assert Datas(a'.chunks) == Datas(a.chunks) + {c.data};
    }
  }

  lemma StepMark(w: World)
    requires Inv(w)
    ensures Inv(Step(w, OpMark)) && Others(w.arena, w.space) == Others(Step(w, OpMark).arena, Step(w, OpMark).space)
  {
    var w' := Step(w, OpMark);
    assert w'.stack[..|w'.stack| - 1] == w.stack;
    assert Extends(w.arena, w.arena);
  }

  /** In any state with a marker outstanding, popping to the newest one restores the chunk list and
      offset it was taken at, and gives back only pages the arena took since. */
  lemma StepPop(w: World)
    requires Inv(w) && w.stack != []
    ensures var w' := Step(w, OpPop); var top := w.stack[|w.stack| - 1];
      && Inv(w') && w'.arena == top.saved && w'.ledger == top.ledger
      && Others(w'.arena, w'.space) == Others(w.arena, w.space)
      && w'.space.chunks == w.space.chunks - Datas(w.arena.chunks[|top.saved.chunks|..])
  {
    var top := w.stack[|w.stack| - 1];
    PopRestores(top.saved, w.arena, w.space);
    PopInv(w.arena, w.space, top.marker);
  }

  ghost predicate Run(w: World, ops: seq<Op>, w': World)
    decreases ops
  {
    if ops == [] then w == w'
    else Inv(w) && Legal(w, ops[0]) && Run(Step(w, ops[0]), ops[1..], w')
  }

  /** Over every run of allocations, marks and pops: regions in the ledger stay disjoint and inside the
      arena, every outstanding marker can be restored, and nobody else's pages are touched. */
  lemma {:induction false} RunInv(w: World, ops: seq<Op>, w': World)
    requires Inv(w) && Run(w, ops, w')
    ensures Inv(w') && Others(w'.arena, w'.space) == Others(w.arena, w.space)
    decreases ops
  {
    if ops != [] {
      match ops[0] {
        case OpAlloc(bytes, k, reserved) => StepAlloc(w, bytes, k, reserved);
        case OpMark => StepMark(w);
        case OpPop => StepPop(w);
      }
      RunInv(Step(w, ops[0]), ops[1..], w');
    }
  }
}
