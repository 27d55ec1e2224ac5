/** Which memory blocks the shapes own, and how the ledger of blocks follows the graph. */
module ShapeMemory {
  import opened Options
  import opened MetaSpace
  import opened ShapeSpace
  import opened Ledger

  const SHAPE_SIZE: nat := 64
  const DESCRIPTOR_SIZE: nat := 8
  const ENTRY_SIZE: nat := 16

  datatype Owner = OfShape(s: nat) | OfProps(s: nat) | OfTable(s: nat) | Foreign(p: nat)

  /** The block behind each part of a shape, with its size as the arena rounds it. */
  function PieceOf(sh: Shapes, o: Owner): Option<Piece> {
    if o.Foreign? || o.s !in sh then None
    else
      var s := sh[o.s];
      match o
      case OfShape(a) => Some(Piece(a, AlignSize(SHAPE_SIZE)))
      case OfProps(_) => if |s.props| > 0 then Some(Piece(s.propArray, AlignSize(DESCRIPTOR_SIZE * |s.props|))) else None
      case OfTable(_) => if s.capacity > 0 then Some(Piece(s.tablePtr, AlignSize(ENTRY_SIZE * s.capacity))) else None
  }

  type Foot = map<Owner, Piece>

  ghost predicate FootAt(foot: Foot, sh: Shapes, o: Owner) {
    !o.Foreign? ==> (o in foot <==> PieceOf(sh, o).Some?) && (o in foot ==> PieceOf(sh, o) == Some(foot[o]))
  }

  /** `foot` lists exactly the blocks of the shapes, besides those of other clients of the arena. */
  ghost predicate FootOk(foot: Foot, sh: Shapes) {
    forall o :: FootAt(foot, sh, o)
  }

  /** A pointer the arena has just handed out is no shape's address. */
  lemma NewPointer(foot: Foot, sh: Shapes, outs: map<nat, nat>, p: nat)
    requires FootOk(foot, sh) && Tally(foot, outs) && p !in outs
    ensures p !in sh && OfShape(p) !in foot && OfProps(p) !in foot && OfTable(p) !in foot
  {
    assert FootAt(foot, sh, OfShape(p)) && FootAt(foot, sh, OfProps(p)) && FootAt(foot, sh, OfTable(p));
    assert forall o :: o in foot ==> PieceOut(foot, outs, o);
  }

  // ---- How the footprint follows the graph ----

  /** Growing a table exchanges one block. */
  lemma FootGrow(foot: Foot, sh: Shapes, cur: nat, newTable: nat, capacity: nat)
    requires FootOk(foot, sh) && cur in sh && capacity > 0
    ensures FootOk(foot[OfTable(cur) := Piece(newTable, AlignSize(ENTRY_SIZE * capacity))],
                   sh[cur := sh[cur].(capacity := capacity, tablePtr := newTable)])
  {
    var f := foot[OfTable(cur) := Piece(newTable, AlignSize(ENTRY_SIZE * capacity))];
    var g := sh[cur := sh[cur].(capacity := capacity, tablePtr := newTable)];
    hide AlignSize;
    forall o
      ensures FootAt(f, g, o)
    {
      assert FootAt(foot, sh, o);
    }
  }

  /** Two graphs whose shapes own the same blocks. */
  predicate SameBlocks(sh: Shapes, g: Shapes, x: nat) {
    (x in sh <==> x in g) && (x in sh ==>
      |g[x].props| == |sh[x].props| && g[x].propArray == sh[x].propArray
      && g[x].capacity == sh[x].capacity && g[x].tablePtr == sh[x].tablePtr)
  }

  lemma FootSame(foot: Foot, sh: Shapes, g: Shapes)
    requires FootOk(foot, sh) && forall x :: SameBlocks(sh, g, x)
    ensures FootOk(foot, g)
  {
    hide AlignSize;
    forall o
      ensures FootAt(foot, g, o)
    {
      assert FootAt(foot, sh, o);
      if !o.Foreign? {
        assert SameBlocks(sh, g, o.s);
      }
    }
  }

  /** A new shape brings its own block and its property array. */
  lemma FootChild(foot: Foot, sh: Shapes, g: Shapes, child: nat, size: nat)
    requires FootOk(foot, sh) && child !in sh && child in g && g[child].capacity == 0 && |g[child].props| > 0
    requires size == AlignSize(DESCRIPTOR_SIZE * |g[child].props|)
    requires forall x :: x != child ==> SameBlocks(sh, g, x)
    ensures FootOk(foot[OfShape(child) := Piece(child, AlignSize(SHAPE_SIZE))][OfProps(child) := Piece(g[child].propArray, size)], g)
  {
    var f := foot[OfShape(child) := Piece(child, AlignSize(SHAPE_SIZE))][OfProps(child) := Piece(g[child].propArray, size)];
    hide AlignSize;
    forall o
      ensures FootAt(f, g, o)
    {
      assert FootAt(foot, sh, o);
      if !o.Foreign? && o.s != child {
        assert SameBlocks(sh, g, o.s);
      }
    }
  }

  /** A removed shape takes its three blocks along. */
  lemma FootDrop(foot: Foot, sh: Shapes, g: Shapes, c: nat)
    requires FootOk(foot, sh) && c in sh && c !in g
    requires forall x :: x != c ==> SameBlocks(sh, g, x)
    ensures FootOk(foot - {OfShape(c), OfProps(c), OfTable(c)}, g)
  {
    var f := foot - {OfShape(c), OfProps(c), OfTable(c)};
    hide AlignSize;
    forall o
      ensures FootAt(f, g, o)
    {
      assert FootAt(foot, sh, o);
      if !o.Foreign? && o.s != c {
        assert SameBlocks(sh, g, o.s);
      }
    }
  }
}
