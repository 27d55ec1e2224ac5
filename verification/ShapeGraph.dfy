/** The shape graph as it runs: shape records in memory, edited link by link, over the metadata arena. */
module ShapeMachine {
  import opened Options
  import opened Powers
  import PageSpace
  import opened ShapeSpace
  import opened ShapeGrowth
  import opened ShapeTheorems
  import opened ShapeSweep
  import opened ShapeMemory
  import opened Ledger
  import opened ShapeRequests
  import opened ShapeRuns
  import MetaSpace
  import MetaMachine
  import MetaClient

  // ---- Lookups, as loops ----

  /** The position of the first descriptor of that name. */
  method GetProperty(props: seq<Desc>, atom: nat) returns (i: nat)
    ensures i == PropertyIndex(props, atom)
  {
    i := 0;
    while i < |props| && props[i].name != atom
      invariant i <= |props|
      invariant forall j :: 0 <= j < i ==> props[j].name != atom
    {
      i := i + 1;
    }
  }

  /** The position of the first transition with that name and those attributes. */
  method FindTransitionIndex(sh: Shapes, shape: nat, atom: nat, attrs: bv16) returns (i: nat)
    requires shape in sh
    ensures i == FindTransition(sh, sh[shape].table, atom, attrs)
  {
    var table := sh[shape].table;
    i := 0;
    while i < |table|
      invariant i <= |table|
      invariant forall j :: 0 <= j < i ==> !Matches(sh, table[j], atom, attrs)
    {
      var t := table[i];
      if t.target in sh && t.atom == atom {
        var props := sh[t.target].props;
        if |props| > 0 && Last(props).attrs == attrs {
          return;
        }
      }
      i := i + 1;
    }
  }

  /** Steps from a shape to the root; none from null. */
  method GetShapeChainDepth(g: Graph, shape: nat) returns (depth: nat)
    requires Inv(g) && (shape != NULL ==> shape in g.shapes)
    ensures shape == NULL ==> depth == 0
    ensures shape != NULL ==> DepthIs(g.shapes, shape, depth) && depth == |g.shapes[shape].props|
  {
    hide Inv;
    depth := 0;
    if shape == NULL {
      return;
    }
    var s := shape;
    ParentOf(g, s);
    while g.shapes[s].parent != NULL
      invariant s in g.shapes && depth + |g.shapes[s].props| == |g.shapes[shape].props|
      decreases |g.shapes[s].props|
    {
      ParentOf(g, s);
      s := g.shapes[s].parent;
      depth := depth + 1;
    }
    ParentOf(g, s);
    CountIsDepth(g, shape, depth);
  }

  /** The filled part of an array, copied one by one. */
  method Copied<T>(source: seq<T>) returns (copy: seq<T>)
    ensures copy == source
  {
    copy := [];
    for i := 0 to |source|
      invariant copy == source[..i]
    {
      copy := copy + [source[i]];
    }
  }

  /** Link the neighbours of `c` to each other, then overwrite its entry in the parent's table with the
      last one. */
  method DetachLinks(shapes: Shapes, c: nat) returns (sh: Shapes)
    requires c in shapes
    requires var s := shapes[c];
      && s.prev in shapes && (s.next != NULL <==> s.next in shapes)
      && s.parent in shapes && IndexOf(shapes[s.parent].table, c) < |shapes[s.parent].table|
    ensures sh == Detach(shapes, c)
  {
    var s := shapes[c];
    sh := shapes;
    if s.next != NULL {
      sh := sh[s.next := sh[s.next].(prev := s.prev)];
    }
    sh := sh[s.prev := sh[s.prev].(next := s.next)];
    var table := sh[s.parent].table;
    assert table == shapes[s.parent].table;
    var e := 0;
    while table[e].target != c
      invariant e <= IndexOf(table, c)
      decreases |table| - e
    {
      e := e + 1;
    }
    var count := |table|;
    table := table[e := table[count - 1]];
    sh := sh[s.parent := sh[s.parent].(table := table[..count - 1])];
  }

  // ---- Creating on a grown table ----

  lemma LiveEnd(g: Graph)
    requires Inv(g)
    ensures g.last in g.shapes && g.last != NULL && NULL !in g.shapes
  {
    LastInList(g);
    NoNull(g);
  }

  /** The graph after making a child and before its parent's table knows it. */
  function Made(g: Graph, parent: nat, attrs: bv16, child: nat, propArray: nat): Graph
    requires parent in g.shapes && g.last in g.shapes
  {
    var p := g.shapes[parent];
    var linked := g.shapes[g.last := g.shapes[g.last].(next := child)];
    Graph(linked[child := Shape(parent, NULL, g.last, ChildFlags(p.flags, attrs), p.props + [Desc(0, 0, 0)], propArray, [], 0, NULL)],
          g.order + [child], child)
  }

  function Finished(m: Shapes, cur: nat, atom: nat, child: nat, d: Desc): Shapes
    requires child in m && cur in m && |m[child].props| > 0 && cur != child
  {
    var sh1 := m[child := m[child].(props := m[child].props[|m[child].props| - 1 := d])];
    sh1[cur := sh1[cur].(table := sh1[cur].table + [Entry(child, atom)])]
  }

  /** Filling the last slot and recording the transition completes a creation on a table with room. */
  lemma FinishedCreate(g: Graph, cur: nat, atom: nat, offset: nat, attrs: bv16, child: nat, propArray: nat, unused: nat)
    requires cur in g.shapes && g.last in g.shapes && child !in g.shapes && !NeedsTable(g.shapes[cur])
    ensures var d := MakeProperty(atom, offset, attrs);
      var m := Made(g, cur, d.attrs, child, propArray).shapes;
      && child in m && cur in m && |m[child].props| > 0 && cur != child
      && Create(g, cur, atom, offset, attrs, child, propArray, unused) == Graph(Finished(m, cur, atom, child, d), g.order + [child], child)
  {
    hide ChildFlags, MakeProperty;
    var p := g.shapes[cur].props;
    var d := MakeProperty(atom, offset, attrs);
    assert (p + [Desc(0, 0, 0)])[|p| := d] == p + [d];
    assert GrowTable(g.shapes[cur], unused) == g.shapes[cur];
  }

  lemma FinishedSame(m: Shapes, cur: nat, atom: nat, child: nat, d: Desc)
    requires child in m && cur in m && |m[child].props| > 0 && cur != child
    ensures forall x :: SameBlocks(m, Finished(m, cur, atom, child, d), x)
  {
  }

  /** The ledger with the child's two blocks. */
  lemma MadeLedger(foot: Foot, g: Graph, g': Graph, outs: map<nat, nat>, parent: nat, attrs: bv16, child: nat, propArray: nat)
    requires parent in g.shapes && g.last in g.shapes && child !in outs && propArray != child && propArray !in outs
    requires g' == Made(g, parent, attrs, child, propArray) && FootOk(foot, g.shapes) && Tally(foot, outs)
    ensures child !in g.shapes
    ensures var size := MetaSpace.AlignSize(DESCRIPTOR_SIZE * (|g.shapes[parent].props| + 1));
      var f := foot[OfShape(child) := Piece(child, MetaSpace.AlignSize(SHAPE_SIZE))][OfProps(child) := Piece(propArray, size)];
      FootOk(f, g'.shapes) && Tally(f, outs[child := MetaSpace.AlignSize(SHAPE_SIZE)][propArray := size])
  {
    var size := MetaSpace.AlignSize(DESCRIPTOR_SIZE * (|g.shapes[parent].props| + 1));
    var unit := MetaSpace.AlignSize(SHAPE_SIZE);
    hide MetaSpace.AlignSize, ChildFlags;
    NewPointer(foot, g.shapes, outs, child);
    TallyAdd(foot, outs, OfShape(child), child, unit);
    TallyAdd(foot[OfShape(child) := Piece(child, unit)], outs[child := unit], OfProps(child), propArray, size);
    FootChild(foot, g.shapes, g'.shapes, child, size);
  }

  lemma GrownInv(g: Graph, cur: nat, newTable: nat)
    requires Inv(g) && cur in g.shapes && NeedsTable(g.shapes[cur]) && !TableOverflows(g.shapes[cur]) && newTable != NULL
    ensures Inv(g.(shapes := g.shapes[cur := GrowTable(g.shapes[cur], newTable)]))
  {
    assert LocalOk(g.shapes[cur]);
    BlockChange(g, cur, GrowTable(g.shapes[cur], newTable).capacity, newTable);
  }

  lemma TableRoom(g: Graph, cur: nat)
    requires Inv(g) && cur in g.shapes
    ensures var s := g.shapes[cur]; (NeedsTable(s) ==> (|s.table| > 0 <==> s.capacity > 0)) && LocalOk(s)
    ensures var s := g.shapes[cur]; s.capacity > 0 ==> s.tablePtr != NULL
  {
    assert LocalOk(g.shapes[cur]);
  }

  /** Capacity and address of a table concern nothing but the shape itself. */
  lemma BlockChange(g: Graph, s: nat, capacity: nat, tablePtr: nat)
    requires Inv(g) && s in g.shapes && |g.shapes[s].table| <= capacity <= UINT16_MAX && capacity > 0 && tablePtr != NULL
    ensures Inv(g.(shapes := g.shapes[s := g.shapes[s].(capacity := capacity, tablePtr := tablePtr)]))
  {
    var g' := g.(shapes := g.shapes[s := g.shapes[s].(capacity := capacity, tablePtr := tablePtr)]);
    forall j | 0 <= j < |g'.order|
      ensures LinkedAt(g', j) && TreeAt(g', j) && (j > 0 ==> ParentLive(g', j))
    {
      assert LinkedAt(g, j) && TreeAt(g, j) && (j > 0 ==> ParentLive(g, j));
    }
    forall q | q in g'.shapes
      ensures TableOk(g'.shapes, q) && LocalOk(g'.shapes[q])
    {
      BlockTable(g, g', s, capacity, tablePtr, q);
    }
    hide LinkedAt, TreeAt, TableOk, LocalOk, ParentLive;
  }

  lemma BlockTable(g: Graph, g': Graph, s: nat, capacity: nat, tablePtr: nat, q: nat)
    requires Inv(g) && s in g.shapes && |g.shapes[s].table| <= capacity <= UINT16_MAX && capacity > 0 && tablePtr != NULL
    requires g' == g.(shapes := g.shapes[s := g.shapes[s].(capacity := capacity, tablePtr := tablePtr)]) && q in g.shapes
    ensures TableOk(g'.shapes, q) && LocalOk(g'.shapes[q])
  {
    assert TableOk(g.shapes, q) && LocalOk(g.shapes[q]);
    hide Inv;
    var t := g.shapes[q].table;
    forall e | 0 <= e < |t|
      ensures EntryOk(g'.shapes, q, t[e])
    {
      assert EntryOk(g.shapes, q, t[e]);
    }
  }

  /** The ledger when a table's block is exchanged: the new block in, the old one, if any, out. */
  lemma TableExchange(foot: Foot, sh: Shapes, outs: map<nat, nat>, cur: nat, piece: Piece)
    requires FootOk(foot, sh) && Tally(foot, outs) && cur in sh && piece.addr !in outs && LocalOk(sh[cur])
    ensures var s := sh[cur]; var more := outs[piece.addr := piece.size];
      if s.capacity > 0 then
        && s.tablePtr in outs && outs[s.tablePtr] == MetaSpace.AlignSize(ENTRY_SIZE * s.capacity) && s.tablePtr != piece.addr
        && Tally(foot[OfTable(cur) := piece], more - {s.tablePtr})
      else Tally(foot[OfTable(cur) := piece], more)
  {
    var o := OfTable(cur);
    assert FootAt(foot, sh, o);
    var s := sh[cur];
    if s.capacity > 0 {
      assert PieceOut(foot, outs, o);
      TallyRemove(foot, outs, o);
      TallyAdd(foot - {o}, outs - {s.tablePtr}, o, piece.addr, piece.size);
      assert (foot - {o})[o := piece] == foot[o := piece];
      assert (outs - {s.tablePtr})[piece.addr := piece.size] == outs[piece.addr := piece.size] - {s.tablePtr};
    } else {
      TallyAdd(foot, outs, o, piece.addr, piece.size);
    }
  }

  /** Growing the table first and then creating is creating. */
  lemma CreateAfterGrow(g: Graph, cur: nat, atom: nat, offset: nat, attrs: bv16, child: nat, propArray: nat, newTable: nat, unused: nat)
    requires cur in g.shapes && g.last in g.shapes && !Overflows(g.shapes[cur]) && child !in g.shapes
    requires LocalOk(g.shapes[cur])
    ensures Create(g.(shapes := g.shapes[cur := GrowTable(g.shapes[cur], newTable)]), cur, atom, offset, attrs, child, propArray, unused)
      == Create(g, cur, atom, offset, attrs, child, propArray, newTable)
  {
    hide ChildFlags, MakeProperty;
    assert !NeedsTable(GrowTable(g.shapes[cur], newTable));
  }

  /** The blocks of a live shape are held, each with its recorded size. */
  lemma OwnedBlocks(foot: Foot, sh: Shapes, outs: map<nat, nat>, c: nat)
    requires FootOk(foot, sh) && Tally(foot, outs) && c in sh
    ensures var s := sh[c];
      && OfShape(c) in foot && foot[OfShape(c)] == Piece(c, MetaSpace.AlignSize(SHAPE_SIZE))
      && c in outs && outs[c] == MetaSpace.AlignSize(SHAPE_SIZE)
      && (OfProps(c) in foot <==> |s.props| > 0) && (OfTable(c) in foot <==> s.capacity > 0)
      && (|s.props| > 0 ==> foot[OfProps(c)] == Piece(s.propArray, MetaSpace.AlignSize(DESCRIPTOR_SIZE * |s.props|)))
      && (|s.props| > 0 ==> s.propArray in outs && outs[s.propArray] == MetaSpace.AlignSize(DESCRIPTOR_SIZE * |s.props|))
      && (s.capacity > 0 ==> foot[OfTable(c)] == Piece(s.tablePtr, MetaSpace.AlignSize(ENTRY_SIZE * s.capacity)))
  {
    assert FootAt(foot, sh, OfShape(c)) && FootAt(foot, sh, OfProps(c)) && FootAt(foot, sh, OfTable(c));
    assert PieceOut(foot, outs, OfShape(c));
    assert OfProps(c) in foot ==> forall o :: o in foot ==> PieceOut(foot, outs, o);
  }

  lemma OwnedStill(foot: Foot, outs: map<nat, nat>, o: Owner)
    requires Tally(foot, outs)
    ensures o in foot ==> foot[o].addr in outs && outs[foot[o].addr] == foot[o].size
  {
    assert forall q :: q in foot ==> PieceOut(foot, outs, q);
  }

  lemma SweepStart(g: Graph)
    requires Inv(g)
    ensures |g.order| > 0 && Weak(g) && ParentsLive(g, |g.order| - 1) && g.last == g.order[|g.order| - 1] && g.last in g.shapes
  {
    LastInList(g);
  }

  lemma WalkAt(g: Graph, i: nat)
    requires Weak(g) && ParentsLive(g, i) && i < |g.order|
    ensures g.order[i] in g.shapes && (g.shapes[g.order[i]].prev == NULL <==> i == 0)
    ensures i > 0 ==> g.shapes[g.order[i]].prev == g.order[i - 1] && Removable(g, i)
  {
    assert LinkedAt(g, i);
    if i > 0 {
      assert LinkedAt(g, i - 1);
    }
  }

  lemma PrevLive(g: Graph, i: nat)
    requires Weak(g) && 0 < i < |g.order|
    ensures g.order[i - 1] in g.shapes
  {
    assert LinkedAt(g, i - 1);
  }

  lemma RemovedStill(g: Graph, i: nat)
    requires Removable(g, i)
    ensures g.order[i] in g.shapes && 0 < |Remove(g, i).order| == |g.order| - 1
    ensures Remove(g, i).order[i - 1] == g.order[i - 1] && g.order[i - 1] in Remove(g, i).shapes
    ensures Remove(g, i).shapes.Keys == g.shapes.Keys - {g.order[i]}
  {
    RemoveWeak(g, i);
    assert LinkedAt(Remove(g, i), i - 1);
  }

  lemma NotNull(g: Graph, i: nat)
    requires Removable(g, i)
    ensures g.order[i] in g.shapes && g.order[i] != NULL
  {
    assert LinkedAt(g, i);
  }

  /** What `forgetShape` finds: live neighbours, a live parent, and itself in the parent's table. */
  lemma ForgetReads(g: Graph, i: nat)
    requires Removable(g, i)
    ensures var c := g.order[i];
      && c in g.shapes && var s := g.shapes[c];
      && s.prev in g.shapes && s.prev != NULL && s.prev != c && s.next != c && s.parent != c
      && (s.next != NULL <==> s.next in g.shapes)
      && s.parent in g.shapes && IndexOf(g.shapes[s.parent].table, c) < |g.shapes[s.parent].table|
  {
    Neighbours(g, i);
    assert LinkedAt(g, i) && TreeAt(g, i);
    var c := g.order[i];
    var p := g.shapes[c].parent;
    NotBefore(g.order, i, i);
    HasEntryIndex(g.shapes[p].table, c);
    if g.shapes[c].next != NULL {
      assert g.order[i + 1] in g.shapes;
    }
  }

  lemma DetachSame(sh: Shapes, c: nat)
    requires c in sh
    ensures forall x :: SameBlocks(sh, Detach(sh, c), x)
  {
  }

  /** Shape records have a size class of their own. */
  lemma ShapeClass()
    ensures MetaSpace.BucketIndex(MetaSpace.AlignSize(SHAPE_SIZE)) == 3
  {
  }

  lemma Eight()
    ensures Pow2(2) == 4 && Pow2(3) == 8
  {
    assert Pow2(0) == 1 && Pow2(1) == 2;
  }

  lemma SizesFit(properties: nat, transitions: nat)
    requires properties <= UINT16_MAX && transitions <= UINT16_MAX
    ensures MetaSpace.AlignSize(SHAPE_SIZE) <= PageSpace.SEGMENT_SIZE
    ensures MetaSpace.AlignSize(DESCRIPTOR_SIZE * properties) <= PageSpace.SEGMENT_SIZE
    ensures MetaSpace.AlignSize(ENTRY_SIZE * transitions) <= PageSpace.SEGMENT_SIZE
  {
  }

  lemma ForeignTally(outs: map<nat, nat>, foot: Foot)
    requires foot == map p | p in outs :: Foreign(p) := Piece(p, outs[p])
    ensures Tally(foot, outs) && forall o :: o in foot ==> o.Foreign?
  {
    forall p | p in outs
      ensures Owned(foot, p)
    {
      assert Owns(foot, Foreign(p), p);
    }
  }

  lemma RootFoot(foot: Foot, sh: Shapes, r: nat)
    requires sh.Keys == {r} && sh[r].props == [] && sh[r].capacity == 0
    requires OfShape(r) in foot && foot[OfShape(r)] == Piece(r, MetaSpace.AlignSize(SHAPE_SIZE))
    requires forall o :: o in foot && o != OfShape(r) ==> o.Foreign?
    ensures FootOk(foot, sh)
  {
    forall o
      ensures FootAt(foot, sh, o)
    {
    }
  }

  class ShapeArena {
    const arena: MetaMachine.MetaArena
    var shapes: Shapes
    ghost var order: seq<nat>
    ghost var foot: Foot
    ghost var Repr: set<object>

    ghost function Value(): Graph
      reads this, arena
    {
      Graph(shapes, order, arena.lastAllocatedShape)
    }

    ghost function Outs(): map<nat, nat>
      reads this, arena
    {
      MetaSpace.Outs(arena.meta.blocks)
    }

    /** The free list from which the next shape record is taken. */
    ghost function FreeShapes(): seq<nat>
      reads this, arena
    {
      MetaSpace.ListFor(arena.meta, SHAPE_SIZE)
    }

    ghost function Segs(): seq<PageSpace.Segment>
      reads this, arena, arena.arena, arena.arena.pm
    {
      arena.arena.pm.space.segs
    }

    /** The arena below, whole and packed. */
    ghost predicate Base()
      reads this, Repr
      ensures Base() ==> this in Repr && arena in Repr
    {
      && this in Repr && arena in Repr && arena.Repr <= Repr && this !in arena.Repr
      && arena.Valid() && MetaSpace.Packed(arena.World())
    }

    /** Every block of the arena in use has one owner, and the shapes own exactly theirs. */
    ghost predicate Memory()
      reads this, Repr
    {
      Base() && FootOk(foot, shapes) && Tally(foot, Outs())
    }

    ghost predicate Valid()
      reads this, Repr
    {
      Memory() && Inv(Value())
    }

    /** The root shape of a new graph; blocks of other clients stay theirs, among them those of shapes made
        from an earlier root, which the arena no longer knows of. */
    constructor (arena: MetaMachine.MetaArena, reserved: nat)
      requires arena.Valid() && MetaSpace.Packed(arena.World())
      requires PageSpace.Reservable(arena.arena.pm.space.segs, reserved)
      modifies arena.Repr
      ensures Valid() && this.arena == arena && fresh(Repr - old(arena.Repr))
      ensures |order| == 1 && shapes.Keys == {order[0]} && Marked(shapes[order[0]].flags) && Canonical(Value())
      ensures shapes[order[0]].flags == 0x01 && shapes[order[0]].props == [] && shapes[order[0]].table == []
    {
      hide MetaMachine.MetaArena.Valid, MetaSpace.Packed, MetaSpace.Inv, MetaSpace.Metalloc, MetaSpace.Outs, MetaSpace.AlignSize;
      hide Tally, FootOk, ShapeSpace.Inv, Canonical, PageSpace.Reservable, Pow2;
      ghost var w := arena.World();
      Eight();
      SizesFit(0, 0);
      var ptr := arena.Metalloc(SHAPE_SIZE, 8, reserved, 3);
      MetaSpace.MetallocInv(w, SHAPE_SIZE, 3, reserved, arena.World(), ptr);
      ghost var outs, size := MetaSpace.Outs(w.meta.blocks), MetaSpace.AlignSize(SHAPE_SIZE);
      ghost var others: Foot := map p | p in outs :: Foreign(p) := Piece(p, outs[p]);
      ForeignTally(outs, others);
      TallyAdd(others, outs, OfShape(ptr), ptr, size);
      RootFoot(others[OfShape(ptr) := Piece(ptr, size)], map[ptr := Root()], ptr);
      RootInv(Graph(map[ptr := Root()], [ptr], ptr), ptr);
      arena.SetLastAllocatedShape(ptr);
      this.arena := arena;
      shapes := map[ptr := Root()];
      order := [ptr];
      foot := others[OfShape(ptr) := Piece(ptr, size)];
      Repr := {this} + arena.Repr;
    }

    /** Shape records written; the arena is not involved. */
    method Write(sh: Shapes, ghost o: seq<nat>, ghost f: Foot)
      requires Base()
      modifies this
      ensures Base() && shapes == sh && order == o && foot == f && Repr == old(Repr)
      ensures Value() == Graph(sh, o, old(Value()).last) && Outs() == old(Outs()) && Segs() == old(Segs())
      ensures arena.meta == old(arena.meta)
    {
      hide MetaMachine.MetaArena.Valid, MetaSpace.Packed;
      shapes := sh;
      order := o;
      foot := f;
    }

    /** A block of the arena that nobody holds. */
    method Acquire(size: nat, alignment: nat, reserved: nat, ghost k: nat) returns (ptr: nat)
      requires Base() && MetaSpace.AlignSize(size) <= PageSpace.SEGMENT_SIZE && alignment == Pow2(k) && k <= 4
      requires PageSpace.Reservable(Segs(), reserved)
      modifies Repr
      ensures Base() && fresh(Repr - old(Repr))
      ensures shapes == old(shapes) && order == old(order) && foot == old(foot) && Value() == old(Value())
      ensures ptr != NULL && ptr !in old(Outs()) && Outs() == old(Outs())[ptr := MetaSpace.AlignSize(size)]
      ensures var l := old(MetaSpace.ListFor(arena.meta, size)); l != [] ==> ptr == l[0]
      ensures forall t :: old(PageSpace.Reservable(Segs(), t)) && RangesApart(reserved, t) ==> PageSpace.Reservable(Segs(), t)
    {
      hide MetaMachine.MetaArena.Valid, MetaSpace.Packed, MetaSpace.Outs, MetaSpace.AlignSize, MetaSpace.Inv;
      hide PageSpace.Reservable, Pow2, RangesApart, MetaSpace.ListFor;
      ptr := MetaClient.Acquire(arena, size, alignment, reserved, k);
      Repr := Repr + arena.Repr;
    }

    /** Give a held block back with the size it was asked for. */
    method Return(ptr: nat, size: nat)
      requires Base() && ptr in Outs() && Outs()[ptr] == MetaSpace.AlignSize(size)
      modifies Repr
      ensures Base() && Repr == old(Repr)
      ensures shapes == old(shapes) && order == old(order) && foot == old(foot) && Value() == old(Value())
      ensures Outs() == old(Outs()) - {ptr} && Segs() == old(Segs())
      ensures MetaSpace.BucketIndex(MetaSpace.AlignSize(size)) < MetaSpace.NUM_BUCKETS ==>
        MetaSpace.ListFor(arena.meta, size) == [ptr] + old(MetaSpace.ListFor(arena.meta, size))
    {
      hide MetaMachine.MetaArena.Valid, MetaSpace.Packed, MetaSpace.Outs, MetaSpace.AlignSize, MetaSpace.ListFor, MetaSpace.BucketIndex;
      MetaClient.GiveBack(arena, ptr, size);
    }

    /** Make room for one more transition: a first table of two entries, or a larger copy of the old
        one, whose block goes back with the size it was allocated with. */
    method GrowTransitionTable(cur: nat, reserved: nat) returns (newTable: nat)
      requires Valid() && cur in shapes && NeedsTable(shapes[cur]) && !TableOverflows(shapes[cur])
      requires PageSpace.Reservable(Segs(), reserved)
      modifies Repr
      ensures Valid() && fresh(Repr - old(Repr)) && newTable != NULL
      ensures Value() == old(Value()).(shapes := old(shapes)[cur := GrowTable(old(shapes)[cur], newTable)])
      ensures forall t :: old(PageSpace.Reservable(Segs(), t)) && RangesApart(reserved, t) ==> PageSpace.Reservable(Segs(), t)
    {
      hide PageSpace.Reservable, RangesApart, MetaSpace.AlignSize, Tally, FootOk, Inv;
      hide Base, MetaSpace.Outs;
      ghost var g := Value();
      TableRoom(g, cur);
      Eight();
      var s := shapes[cur];
      var newCapacity := if |s.table| == 0 then 2 else NextCapacity(s.capacity);
      SizesFit(0, newCapacity);
      newTable := Acquire(ENTRY_SIZE * newCapacity, 8, reserved, 3);
      var table := Copied(s.table);
      ghost var piece := Piece(newTable, MetaSpace.AlignSize(ENTRY_SIZE * newCapacity));
      TableExchange(foot, shapes, old(Outs()), cur, piece);
      if |s.table| > 0 {
        Return(s.tablePtr, ENTRY_SIZE * s.capacity);
      }
      FootGrow(foot, shapes, cur, newTable, newCapacity);
      GrownInv(g, cur, newTable);
      Write(shapes[cur := s.(table := table, capacity := newCapacity, tablePtr := newTable)], order, foot[OfTable(cur) := piece]);
    }

    method SetLast(last: nat)
      requires Base()
      modifies arena
      ensures Base() && Value() == old(Value()).(last := last)
      ensures shapes == old(shapes) && order == old(order) && foot == old(foot) && Repr == old(Repr)
      ensures Outs() == old(Outs()) && Segs() == old(Segs())
    {
      hide MetaMachine.MetaArena.Valid, MetaSpace.Packed, MetaSpace.Outs;
      ghost var w := arena.World();
      arena.SetLastAllocatedShape(last);
      assert arena.World() == w;
    }

    /** A child at the end of the creation list, with its parent's descriptors and one empty slot; its
        parent's table does not know it yet. */
    method MakeShape(parent: nat, attrs: bv16, reserved1: nat, reserved2: nat) returns (child: nat, propArray: nat)
      requires Valid() && parent in shapes && |shapes[parent].props| < UINT16_MAX
      requires PageSpace.Reservable(Segs(), reserved1) && PageSpace.Reservable(Segs(), reserved2) && RangesApart(reserved1, reserved2)
      modifies Repr
      ensures Memory() && fresh(Repr - old(Repr))
      ensures child != NULL && propArray != NULL && child !in old(shapes) && old(Value()).last in old(shapes)
      ensures Value() == Made(old(Value()), parent, attrs, child, propArray)
      ensures old(FreeShapes()) != [] ==> child == old(FreeShapes())[0]
    {
      hide MetaSpace.ListFor;
      hide PageSpace.Reservable, RangesApart, MetaSpace.AlignSize, Tally, FootOk, Base, Inv, MetaSpace.Outs, ChildFlags;
      ghost var g, outs := Value(), Outs();
      LiveEnd(g);
      Eight();
      var p := shapes[parent];
      var count := |p.props| + 1;
      SizesFit(count, 0);
      child := Acquire(SHAPE_SIZE, 8, reserved1, 3);
      ghost var outs1 := Outs();
      var last := arena.lastAllocatedShape;
      propArray := Acquire(DESCRIPTOR_SIZE * count, 4, reserved2, 2);
      var copied := Copied(p.props);
      ghost var g' := Made(g, parent, attrs, child, propArray);
      ghost var size := MetaSpace.AlignSize(DESCRIPTOR_SIZE * count);
      ghost var f := foot[OfShape(child) := Piece(child, MetaSpace.AlignSize(SHAPE_SIZE))][OfProps(child) := Piece(propArray, size)];
      MadeLedger(foot, g, g', outs, parent, attrs, child, propArray);
      var linked := shapes[last := shapes[last].(next := child)];
      Write(linked[child := Shape(parent, NULL, last, ChildFlags(p.flags, attrs), copied + [Desc(0, 0, 0)], propArray, [], 0, NULL)],
            order + [child], f);
      SetLast(child);
    }

    /** Grow the table if it is full, make the child, fill its last descriptor and record the transition.
        No shape is returned where the program panics, and null for null. */
    method CreateTransition(cur: nat, atom: nat, offset: nat, attrs: bv16, r1: nat, r2: nat, r3: nat)
      returns (r: Option<nat>, ghost propArray: nat, ghost newTable: nat)
      requires Valid() && (cur != NULL ==> cur in shapes)
      requires PageSpace.Reservable(Segs(), r1) && PageSpace.Reservable(Segs(), r2) && PageSpace.Reservable(Segs(), r3)
      requires RangesApart(r1, r2) && RangesApart(r1, r3) && RangesApart(r2, r3)
      modifies Repr
      ensures fresh(Repr - old(Repr))
      ensures cur == NULL ==> r == Some(NULL) && Valid() && Value() == old(Value())
      ensures cur != NULL ==> (r == None <==> Overflows(old(shapes)[cur]))
      ensures cur != NULL && r.Some? ==> Valid() && CanCreate(old(Value()), cur, r.value, propArray, newTable)
      ensures cur != NULL && r.Some? ==> old(Value()).last in old(shapes)
      ensures cur != NULL && r.Some? ==> Value() == Create(old(Value()), cur, atom, offset, attrs, r.value, propArray, newTable)
      ensures cur != NULL ==> (r == None <==> AtTheLimit(old(shapes)[cur]))
      ensures cur != NULL && r.Some? ==> r.value in shapes && StoresRequest(old(shapes)[cur].props, shapes[r.value].props, atom, offset, attrs)
      ensures cur != NULL && r.Some? && !NeedsTable(old(shapes)[cur]) && old(FreeShapes()) != [] ==> r.value == old(FreeShapes())[0]
    {
      hide PageSpace.Reservable, RangesApart, MetaSpace.AlignSize, Tally, FootOk, Base, Inv, MetaSpace.Outs, ChildFlags, Create;
      hide MetaSpace.ListFor, StoresRequest;
      ghost var g := Value();
      if cur != NULL {
        OverflowsIff(g, cur);
      }
      newTable := 1;
      propArray := NULL;
      if cur == NULL {
        return Some(NULL), propArray, newTable;
      }
      LiveEnd(g);
      TableRoom(g, cur);
      if NeedsTable(shapes[cur]) {
        if |shapes[cur].table| > 0 && NextCapacity(shapes[cur].capacity) > UINT16_MAX {
          return None, propArray, newTable;
        }
        newTable := GrowTransitionTable(cur, r1);
      }
      if |shapes[cur].props| == UINT16_MAX {
        return None, propArray, newTable;
      }
      ghost var g1 := Value();
      var property := MakeProperty(atom, offset, attrs);
      var child, array_ := MakeShape(cur, property.attrs, r2, r3);
      propArray := array_;
      ghost var g2 := Value();
      FinishedCreate(g1, cur, atom, offset, attrs, child, propArray, newTable);
      FinishedSame(shapes, cur, atom, child, property);
      var sh1 := shapes[child := shapes[child].(props := shapes[child].props[|shapes[child].props| - 1 := property])];
      var sh2 := sh1[cur := sh1[cur].(table := sh1[cur].table + [Entry(child, atom)])];
      FootSame(foot, shapes, sh2);
      CreateAfterGrow(g, cur, atom, offset, attrs, child, propArray, newTable, newTable);
      CreateInv(g, cur, atom, offset, attrs, child, propArray, newTable);
      CreatedDescriptor(g, cur, atom, offset, attrs, child, propArray, newTable);
      Write(sh2, order, foot);
      r := Some(child);
    }

    /** Reuse the transition with that name and those attributes, or create it.  Either way the shape's last
        descriptor has the name and exactly the attribute bits asked for; a new one has the slot as well. */
    method TransitionShape(cur: nat, atom: nat, offset: nat, isReadonly: bool, isHidden: bool, isGetter: bool, isSetter: bool,
                           r1: nat, r2: nat, r3: nat)
      returns (r: Option<nat>, ghost propArray: nat, ghost newTable: nat)
      requires Valid() && (cur != NULL ==> cur in shapes)
      requires PageSpace.Reservable(Segs(), r1) && PageSpace.Reservable(Segs(), r2) && PageSpace.Reservable(Segs(), r3)
      requires RangesApart(r1, r2) && RangesApart(r1, r3) && RangesApart(r2, r3)
      modifies Repr
      ensures fresh(Repr - old(Repr))
      ensures cur == NULL ==> r == Some(NULL) && Valid() && Value() == old(Value())
      ensures cur != NULL ==>
        var attrs := Attributes(isReadonly, isHidden, isGetter, isSetter);
        var g := old(Value());
        var i := FindTransition(g.shapes, g.shapes[cur].table, atom, attrs);
        g.last in g.shapes &&
        if i < |g.shapes[cur].table| then
          r == Some(g.shapes[cur].table[i].target) && Valid() && Value() == g
        else if Overflows(g.shapes[cur]) then
          r == None
        else
          && r.Some? && Valid() && CanCreate(g, cur, r.value, propArray, newTable)
          && Value() == Create(g, cur, atom, offset, attrs, r.value, propArray, newTable)
          && (!NeedsTable(g.shapes[cur]) && old(FreeShapes()) != [] ==> r.value == old(FreeShapes())[0])
      ensures cur != NULL && r.Some? && atom != 0 ==>
        && r.value in shapes
        && Answered(old(shapes)[cur].props, shapes[r.value].props, r.value !in old(shapes), atom, offset,
                    isReadonly, isHidden, isGetter, isSetter)
    {
      hide RequestBits, StoresRequest, Answered;
      hide MetaSpace.ListFor;
      hide PageSpace.Reservable, RangesApart, Tally, FootOk, Base, Inv, MetaSpace.Outs, Create, CanCreate, Overflows;
      propArray, newTable := NULL, NULL;
      if cur == NULL {
        return Some(NULL), propArray, newTable;
      }
      LiveEnd(Value());
      TableRoom(Value(), cur);
      var attributes: bv16 := 0;
      if isReadonly { attributes := attributes | READONLY; }
      if isHidden { attributes := attributes | HIDDEN; }
      if isGetter { attributes := attributes | IS_GETTER; }
      if isSetter { attributes := attributes | IS_SETTER; }
      assert attributes == Attributes(isReadonly, isHidden, isGetter, isSetter);
      AttributeBits(isReadonly, isHidden, isGetter, isSetter);
      hide Attributes;
      if shapes[cur].tablePtr != NULL {
        var i := FindTransitionIndex(shapes, cur, atom, attributes);
        if i < |shapes[cur].table| {
          FoundAnswers(Value(), cur, i, atom, attributes, offset, isReadonly, isHidden, isGetter, isSetter);
          return Some(shapes[cur].table[i].target), propArray, newTable;
        }
      }
      ghost var p := shapes[cur].props;
      r, propArray, newTable := CreateTransition(cur, atom, offset, attributes, r1, r2, r3);
      if r.Some? && atom != 0 {
        IsNew(old(Value()), cur, r.value, propArray, newTable);
        StoredAnswers(p, shapes[r.value].props, atom, offset, attributes, isReadonly, isHidden, isGetter, isSetter);
      }
    }

    method MarkShapeAlive(s: nat)
      requires Valid() && (s != NULL ==> s in shapes)
      modifies this
      ensures Valid() && Repr == old(Repr) && Value() == Mark(old(Value()), s)
    {
      hide Tally, FootOk, Base, Inv, MetaSpace.Outs, SetMark;
      LiveEnd(Value());
      if s == NULL {
        return;
      }
      MarkInv(Value(), s);
      var sh := shapes[s := shapes[s].(flags := SetMark(shapes[s].flags))];
      FootSame(foot, shapes, sh);
      Write(sh, order, foot);
    }

    predicate IsRoot(c: nat)
      reads this
    {
      c in shapes && shapes[c].prev == NULL && shapes[c].parent == NULL
    }

    /** Take shape `c`, at position `i` of the creation list, out of the list and out of its parent's
        table: the last entry takes its place.  Null and the root are left alone. */
    method ForgetShape(c: nat, ghost i: nat)
      requires Memory() && (c == NULL || IsRoot(c) || (Removable(Value(), i) && c == order[i]))
      modifies Repr
      ensures Memory() && Repr == old(Repr) && Segs() == old(Segs())
      ensures old(c == NULL || IsRoot(c)) ==> Value() == old(Value())
      ensures !old(c == NULL || IsRoot(c)) ==>
        && c in old(shapes) && c in shapes && Value().last == Remove(old(Value()), i).last
        && shapes - {c} == Remove(old(Value()), i).shapes && order == Remove(old(Value()), i).order
    {
      hide Tally, FootOk, Base, MetaSpace.Outs, Weak, Detach, ParentLive;
      ghost var g := Value();
      if c == NULL || (c in shapes && shapes[c].prev == NULL && shapes[c].parent == NULL) {
        return;
      }
      ForgetReads(g, i);
      var s := shapes[c];
      if c == arena.lastAllocatedShape {
        SetLast(s.prev);
      }
      var sh := DetachLinks(shapes, c);
      DetachSame(shapes, c);
      assert SameBlocks(shapes, sh, c);
      FootSame(foot, shapes, sh);
      Write(sh, Cut(order, i), foot);
    }

    /** Give the blocks of a forgotten shape back: property array, table, and the shape itself; null is
        ignored. */
    method KillShape(c: nat)
      requires Memory() && (c != NULL ==> c in shapes)
      modifies Repr
      ensures Memory() && Repr == old(Repr) && Segs() == old(Segs())
      ensures c == NULL ==> Value() == old(Value())
      ensures c != NULL ==> Value() == old(Value()).(shapes := old(shapes) - {c})
      ensures c != NULL ==> FreeShapes() != [] && FreeShapes()[0] == c
    {
      hide Tally, FootOk, Base, MetaSpace.Outs, MetaSpace.AlignSize, MetaSpace.ListFor, MetaSpace.BucketIndex;
      if c == NULL {
        return;
      }
      ShapeClass();
      var s := shapes[c];
      OwnedBlocks(foot, shapes, Outs(), c);
      ghost var f := foot;
      if |s.props| != 0 {
        TallyRemove(f, Outs(), OfProps(c));
        f := f - {OfProps(c)};
        Return(s.propArray, DESCRIPTOR_SIZE * |s.props|);
      }
      OwnedStill(f, Outs(), OfTable(c));
      if s.capacity != 0 {
        TallyRemove(f, Outs(), OfTable(c));
        f := f - {OfTable(c)};
        Return(s.tablePtr, ENTRY_SIZE * s.capacity);
      }
      OwnedStill(f, Outs(), OfShape(c));
      TallyRemove(f, Outs(), OfShape(c));
      f := f - {OfShape(c)};
      Return(c, SHAPE_SIZE);
      assert f == foot - {OfShape(c), OfProps(c), OfTable(c)};
      FootDrop(foot, shapes, shapes - {c}, c);
      Write(shapes - {c}, order, f);
    }

    method Forget(c: nat, ghost i: nat)
      requires Memory() && Removable(Value(), i) && c == order[i]
      modifies Repr
      ensures Memory() && Repr == old(Repr) && c in old(shapes) && Value() == Remove(old(Value()), i)
      ensures FreeShapes() != [] && FreeShapes()[0] == c && Segs() == old(Segs())
    {
      hide MetaSpace.ListFor, Memory, Weak, ParentLive, Remove;
      ForgetReads(Value(), i);
      NotNull(Value(), i);
      ForgetShape(c, i);
      KillShape(c);
    }

    method Unmark(c: nat)
      requires Memory() && c in shapes
      modifies Repr
      ensures Memory() && Repr == old(Repr) && Value() == ClearMark(old(Value()), c)
      ensures arena.meta == old(arena.meta) && Segs() == old(Segs())
    {
      hide Tally, FootOk, Base, MetaSpace.Outs, DropMark;
      var sh := shapes[c := shapes[c].(flags := DropMark(shapes[c].flags))];
      FootSame(foot, shapes, sh);
      Write(sh, order, foot);
    }

    /** The reverse walk: unmarked shapes are forgotten and killed, the others lose their mark. */
    method SweepOrphanedShapes() returns (killed: nat)
      requires Valid()
      modifies Repr
      ensures Memory() && Repr == old(Repr)
      ensures |old(order)| > 0 && (Value(), killed) == SweepFrom(old(Value()), |old(order)| - 1)
      ensures Valid() <==> MarksClosed(old(Value()))
      ensures killed > 0 ==> FreeShapes() != [] && FreeShapes()[0] in Dead(old(Value()))
      ensures Segs() == old(Segs())
    {
      hide MetaSpace.ListFor, Dead;
      hide Memory, Inv, Weak, ParentsLive, SweepFrom, Remove, ClearMark, Marked, DropMark, MarksClosed;
      ghost var g := Value();
      SweepStart(g);
      killed := 0;
      var current := arena.lastAllocatedShape;
      ghost var i: nat := |order| - 1;
      while shapes[current].prev != NULL
        invariant Memory() && Repr == old(Repr) && Segs() == old(Segs())
        invariant Weak(Value()) && ParentsLive(Value(), i) && i < |order| && current == order[i] && current in shapes
        invariant SweepFrom(g, |g.order| - 1) == (SweepFrom(Value(), i).0, SweepFrom(Value(), i).1 + killed)
        invariant shapes.Keys <= g.shapes.Keys
        invariant killed > 0 ==> FreeShapes() != [] && FreeShapes()[0] in g.shapes && FreeShapes()[0] !in shapes
        decreases i
      {
        WalkAt(Value(), i);
        WalkUnfold(Value(), i);
        var prev := shapes[current].prev;
        if !Marked(shapes[current].flags) {
          RemovedStill(Value(), i);
          Forget(current, i);
          killed := killed + 1;
        } else {
          ClearOrder(Value(), current);
          PrevLive(Value(), i);
          Unmark(current);
        }
        current := prev;
        i := i - 1;
      }
      WalkAt(Value(), i);
      WalkBase(Value());
      SweepWellFormedIff(g, Value(), killed);
      SweepCorrect(g, Value(), killed);
    }
  }
}
