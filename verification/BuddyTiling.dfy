/** Geometry of the tiling: where a buddy is, and what splitting and fusing do. */
module BuddyTiling {
  import opened Powers
  import opened BuddyPool

  /** Buddies are each other's buddy, and fill the aligned window one order up. */
  lemma BuddyPair(o: nat, k: nat)
    requires Aligned(o, k)
    ensures var b := BuddyOf(o, k);
      && Aligned(b, k) && BuddyOf(b, k) == o && Aligned(Min(o, b), k + 1)
      && (b == o + Pow2(k) || o == b + Pow2(k))
  {
    FlipPair(o, k);
  }

  /** The address that a merge inspects is the start of a block of no larger order. */
  lemma BuddyIsBlockStart(top: nat, b: Blocks, o: nat)
    requires Tiled(top, b) && o in b && b[o].order < top
    ensures BuddyOf(o, b[o].order) in b
    ensures b[BuddyOf(o, b[o].order)].order <= b[o].order
  {
    var k := b[o].order;
    var d := BuddyOf(o, k);
    var m := Min(o, d);
    BuddyPair(o, k);
    AlignedPow(k + 1, top);
    AlignedGap(m, Pow2(top), k + 1);
    assert Covered(b, d);
    var c :| InBlock(b, c, d);
    var j := b[c].order;
    assert c != o ==> Apart(b, o, c);
    if j > k {
      Laminar(m, k + 1, c, j);
      assert false;
    }
    Laminar(c, j, d, k);
  }

  lemma TileAt(top: nat, b: Blocks, x: nat) returns (o: nat)
    requires Tiled(top, b) && x < Pow2(top)
    ensures InBlock(b, o, x)
  {
    assert Covered(b, x);
    o :| InBlock(b, o, x);
  }

  lemma TileUnique(top: nat, b: Blocks, o: nat, p: nat, x: nat)
    requires Tiled(top, b) && InBlock(b, o, x) && InBlock(b, p, x)
    ensures o == p
  {
    assert o != p ==> Apart(b, o, p);
  }

  function Halve(b: Blocks, o: nat, k: nat, free: bool): Blocks {
    b[o := Block(k, false)][BuddyOf(o, k) := Block(k, free)]
  }

  /** The upper half of a block starts at no block. */
  lemma HalfStart(top: nat, b: Blocks, o: nat, k: nat)
    requires Tiled(top, b) && o in b && b[o].order == k + 1
    ensures BuddyOf(o, k) == o + Pow2(k) && BuddyOf(o, k) !in b && Aligned(o, k) && Aligned(o + Pow2(k), k)
  {
    AlignedDown(o, k + 1, k);
    BuddyPair(o, k);
    var d := BuddyOf(o, k);
    if o == d + Pow2(k) {
      AlignedGap(d, o, k + 1);
      assert false;
    }
    assert d in b ==> Apart(b, o, d);
  }

  lemma HalveCovers(b: Blocks, o: nat, d: nat, k: nat, free: bool, y: nat, x: nat)
    requires o in b && b[o].order == k + 1 && d == o + Pow2(k) && d !in b && InBlock(b, y, x)
    ensures Covered(b[o := Block(k, false)][d := Block(k, free)], x)
  {
    var c := b[o := Block(k, false)][d := Block(k, free)];
    if y != o {
      assert InBlock(c, y, x);
    } else if x < d {
      assert InBlock(c, o, x);
    } else {
      assert InBlock(c, d, x);
    }
  }

  lemma HalveApart(b: Blocks, o: nat, k: nat, free: bool, x: nat, y: nat)
    requires forall u, v :: u in b && v in b && u != v ==> Apart(b, u, v)
    requires o in b && b[o].order == k + 1 && BuddyOf(o, k) == o + Pow2(k) && BuddyOf(o, k) !in b
    requires var c := Halve(b, o, k, free); x in c && y in c && x != y
    ensures Apart(Halve(b, o, k, free), x, y)
  {
    hide BuddyOf;
    var d := o + Pow2(k);
    assert Pow2(k + 1) == 2 * Pow2(k);
    hide Pow2;
    if x != o && x != d {
      assert Apart(b, x, o);
      if y != o && y != d {
        assert Apart(b, x, y);
      }
    } else if y != o && y != d {
      assert Apart(b, y, o);
    }
  }

  /** Halving a block keeps the tiling. */
  lemma HalveTiled(top: nat, b: Blocks, o: nat, k: nat, free: bool)
    requires Tiled(top, b) && o in b && b[o].order == k + 1 && k >= MIN_ORDER
    ensures Tiled(top, Halve(b, o, k, free))
  {
    HalfStart(top, b, o, k);
    hide BuddyOf, Aligned;
    var d := o + Pow2(k);
    var c := Halve(b, o, k, free);
    forall x | x in c
      ensures Placed(top, x, c[x].order)
    {
      if x != o && x != d {
        assert x in b;
      }
    }
    forall x, y | x in c && y in c && x != y
      ensures Apart(c, x, y)
    {
      HalveApart(b, o, k, free, x, y);
    }
    forall x | 0 <= x < Pow2(top)
      ensures Covered(c, x)
    {
      var y := TileAt(top, b, x);
      HalveCovers(b, o, d, k, free, y, x);
    }
  }

  function Join(b: Blocks, o: nat, k: nat): Blocks {
    (b - {o, BuddyOf(o, k)})[Min(o, BuddyOf(o, k)) := Block(k + 1, false)]
  }

  ghost predicate Pair(top: nat, b: Blocks, o: nat, k: nat) {
    && Tiled(top, b) && o in b && b[o].order == k
    && BuddyOf(o, k) in b && b[BuddyOf(o, k)].order == k
  }

  lemma JoinPlaced(top: nat, b: Blocks, o: nat, k: nat)
    requires Pair(top, b, o, k)
    ensures k < top && Placed(top, Min(o, BuddyOf(o, k)), k + 1)
  {
    BuddyPair(o, k);
    if k == top {
      assert false;
    }
  }

  lemma JoinApart(top: nat, b: Blocks, o: nat, k: nat, x: nat)
    requires Pair(top, b, o, k) && x in b && x != o && x != BuddyOf(o, k)
    ensures var m := Min(o, BuddyOf(o, k));
      m + Pow2(k + 1) <= x || x + Pow2(b[x].order) <= m
  {
    var d := BuddyOf(o, k);
    BuddyPair(o, k);
    assert Apart(b, x, o) && Apart(b, x, d);
  }

  lemma JoinCovers(b: Blocks, o: nat, d: nat, k: nat, y: nat, x: nat)
    requires o in b && b[o].order == k && d in b && b[d].order == k
    requires d == o + Pow2(k) || o == d + Pow2(k)
    requires InBlock(b, y, x)
    ensures Covered((b - {o, d})[Min(o, d) := Block(k + 1, false)], x)
  {
    var c, m := (b - {o, d})[Min(o, d) := Block(k + 1, false)], Min(o, d);
    if y == o || y == d {
      assert InBlock(c, m, x);
    } else {
      assert InBlock(c, y, x);
    }
  }

  lemma JoinCovered(top: nat, b: Blocks, o: nat, k: nat, x: nat)
    requires Pair(top, b, o, k) && x < Pow2(top)
    ensures Covered(Join(b, o, k), x)
  {
    BuddyPair(o, k);
    var y := TileAt(top, b, x);
    hide Aligned, BuddyOf, Tiled, Covered, InBlock;
    JoinCovers(b, o, BuddyOf(o, k), k, y, x);
  }

  /** Joining two buddies keeps the tiling. */
  lemma JoinTiled(top: nat, b: Blocks, o: nat, k: nat)
    requires Pair(top, b, o, k)
    ensures Tiled(top, Join(b, o, k)) && k < top
  {
    var c := Join(b, o, k);
    var m := Min(o, BuddyOf(o, k));
    JoinPlaced(top, b, o, k);
    forall x, y | x in c && y in c && x != y
      ensures Apart(c, x, y)
    {
      if x == m {
        JoinApart(top, b, o, k, y);
      } else if y == m {
        JoinApart(top, b, o, k, x);
      } else {
        assert Apart(b, x, y);
      }
    }
    forall x | 0 <= x < Pow2(top)
      ensures Covered(c, x)
    {
      JoinCovered(top, b, o, k, x);
    }
  }

  /** Setting the free flag of a block does not touch the tiling. */
  lemma FlagTiled(top: nat, b: Blocks, o: nat, free: bool)
    requires Tiled(top, b) && o in b
    ensures Tiled(top, b[o := Block(b[o].order, free)])
  {
    var c := b[o := Block(b[o].order, free)];
    forall x, y | x in c && y in c && x != y
      ensures Apart(c, x, y)
    {
      assert Apart(b, x, y);
    }
    forall x | 0 <= x < Pow2(top)
      ensures Covered(c, x)
    {
      assert Covered(b, x);
      var y :| InBlock(b, y, x);
      assert InBlock(c, y, x);
    }
  }
}
