/** Ledgers of memory blocks: who holds which block of a metadata arena. */
module Ledger {
  import opened PageSpace
  import opened ArenaSpace
  import opened MetaSpace

  /** A block, and its size as the arena rounds it. */
  datatype Piece = Piece(addr: nat, size: nat)

  predicate Owns<O(!new)>(foot: map<O, Piece>, o: O, p: nat) {
    o in foot && foot[o].addr == p
  }

  ghost predicate Owned<O(!new)>(foot: map<O, Piece>, p: nat) {
    exists o :: Owns(foot, o, p)
  }

  predicate PieceOut<O(!new)>(foot: map<O, Piece>, outs: map<nat, nat>, o: O)
    requires o in foot
  {
    foot[o].addr in outs && outs[foot[o].addr] == foot[o].size
  }

  /** Every block in use has exactly one owner, and every piece is a block in use of its size. */
  ghost predicate Tally<O(!new)>(foot: map<O, Piece>, outs: map<nat, nat>) {
    && (forall o :: o in foot ==> PieceOut(foot, outs, o))
    && (forall o, q, p :: Owns(foot, o, p) && Owns(foot, q, p) ==> o == q)
    && (forall p :: p in outs ==> Owned(foot, p))
  }

  lemma TallyAdd<O(!new)>(foot: map<O, Piece>, outs: map<nat, nat>, o: O, p: nat, size: nat)
    requires Tally(foot, outs) && o !in foot && p !in outs
    ensures Tally(foot[o := Piece(p, size)], outs[p := size])
  {
    var f, u := foot[o := Piece(p, size)], outs[p := size];
    forall q | q in f
      ensures PieceOut(f, u, q)
    {
      assert q != o ==> PieceOut(foot, outs, q);
    }
    forall a, b, x | Owns(f, a, x) && Owns(f, b, x)
      ensures a == b
    {
      assert a != o ==> PieceOut(foot, outs, a) && Owns(foot, a, x);
      assert b != o ==> PieceOut(foot, outs, b) && Owns(foot, b, x);
    }
    forall x | x in u
      ensures Owned(f, x)
    {
      if x == p {
        assert Owns(f, o, x);
      } else {
        var q :| Owns(foot, q, x);
        assert Owns(f, q, x);
      }
    }
  }

  lemma TallyRemove<O(!new)>(foot: map<O, Piece>, outs: map<nat, nat>, o: O)
    requires Tally(foot, outs) && o in foot
    ensures Tally(foot - {o}, outs - {foot[o].addr})
  {
    var f, u := foot - {o}, outs - {foot[o].addr};
    assert Owns(foot, o, foot[o].addr);
    forall q | q in f
      ensures PieceOut(f, u, q)
    {
      assert PieceOut(foot, outs, q) && Owns(foot, q, foot[q].addr);
    }
    forall a, b, x | Owns(f, a, x) && Owns(f, b, x)
      ensures a == b
    {
      assert Owns(foot, a, x) && Owns(foot, b, x);
    }
    forall x | x in u
      ensures Owned(f, x)
    {
      assert Owned(foot, x);
      var q :| Owns(foot, q, x);
      assert Owns(f, q, x);
    }
  }

  // ---- Reserved ranges for several requests in a row ----

  predicate RangesApart(r: nat, t: nat) {
    SegmentsApart(Segment(r, {}), Segment(t, {}))
  }

  lemma RequestBases(sp: Space, n: nat, reserved: nat, t: nat)
    requires |sp.segs| > 0 && n <= CAGE_PAGES && Reservable(sp.segs, t) && RangesApart(reserved, t)
    ensures Reservable(Request(sp, n, reserved).0.segs, t)
  {
    var q := Request(sp, n, reserved).0;
    if n > 0 {
      var g := sp.segs[|sp.segs| - 1];
      hide FirstFit, PagesOf;
      forall i | 0 <= i < |q.segs|
        ensures SegmentsApart(q.segs[i], Segment(t, {}))
      {
        if i < |sp.segs| {
          assert SegmentsApart(sp.segs[i], Segment(t, {}));
        }
      }
    }
  }

  lemma MetallocBases(w: World, size: nat, alignment: nat, reserved: nat, t: nat)
    requires MetaSpace.Inv(w) && AlignSize(size) <= SEGMENT_SIZE && alignment > 0
    requires Reservable(w.space.segs, t) && RangesApart(reserved, t)
    ensures Reservable(Metalloc(w, size, alignment, reserved).0.space.segs, t)
  {
    var actual := AlignSize(size);
    hide AlignSize, Request, AlignForward, Reservable, RangesApart;
    if !Reusable(w.meta, size) && NeedsChunk(w.arena, actual, alignment) {
      PagesForBounds(ChunkBytes(w.arena, actual));
      RequestBases(w.space, PagesFor(ChunkBytes(w.arena, actual)), reserved, t);
    }
  }
}
