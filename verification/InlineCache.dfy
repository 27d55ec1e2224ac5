/** The inline cache of a field access: one record per call site. */
module InlineCache {
  import opened ShapeSpace
  import opened ShapeGrowth
  import opened ShapeTheorems
  import opened ShapeSweep
  import opened ShapeRuns
  import opened ShapeMachine
  import opened Ledger
  import PageSpace
  import MetaSpace

  /** A hit on a live shape returns what a lookup in the shape would. */
  ghost predicate Coherent(g: Graph, cachedShape: nat, offset: nat, fieldName: nat) {
    cachedShape in g.shapes ==> offset == FindPropertyOffset(g.shapes[cachedShape].props, fieldName)
  }

  class FieldCache {
    var cachedShape: nat
    var expectedVersion: bv16
    var offset: nat

    constructor ()
      ensures cachedShape == NULL && expectedVersion == 0 && offset == 0
    {
      cachedShape := NULL;
      expectedVersion := 0;
      offset := 0;
    }

    predicate Hits(g: Graph, s: nat)
      requires s in g.shapes
      reads this
    {
      s == cachedShape && Epoch(g.shapes[s].flags) == expectedVersion
    }

    /** The slot of `fieldName` in an object of shape `s`: a hit answers from the record, a miss looks the
        field up and keeps the answer.  From a coherent record it is the shape's own answer, and the
        record stays coherent. */
    method GetField(g: Graph, s: nat, fieldName: nat) returns (r: nat)
      requires s in g.shapes
      modifies this
      ensures r == if old(Hits(g, s)) then old(offset) else FindPropertyOffset(g.shapes[s].props, fieldName)
      ensures cachedShape == s && expectedVersion == Epoch(g.shapes[s].flags) && offset == r
      ensures old(Coherent(g, cachedShape, offset, fieldName)) ==>
        r == FindPropertyOffset(g.shapes[s].props, fieldName) && Coherent(g, cachedShape, offset, fieldName)
    {
      var currentVersion := Epoch(g.shapes[s].flags);
      if s == cachedShape && currentVersion == expectedVersion {
        return offset;
      }
      cachedShape := s;
      expectedVersion := currentVersion;
      offset := FindPropertyOffset(g.shapes[s].props, fieldName);
      return offset;
    }
  }

  /** Over any run in which the cached shape stays live, whatever else grows or is swept, a hit stays a
      hit and keeps returning the shape's own answer: neither version nor descriptors ever change. */
  lemma CoherentAcrossRun(g: Graph, ops: seq<Op>, g': Graph, cachedShape: nat, offset: nat, fieldName: nat)
    requires Inv(g) && Run(g, ops, g') && LiveThroughout(g, ops, cachedShape)
    requires Coherent(g, cachedShape, offset, fieldName)
    ensures cachedShape in g.shapes && cachedShape in g'.shapes
    ensures Epoch(g'.shapes[cachedShape].flags) == Epoch(g.shapes[cachedShape].flags)
    ensures Coherent(g', cachedShape, offset, fieldName)
  {
    RunKeepsBodies(g, ops, g', cachedShape);
  }

  // ---- A swept shape's address ----

  /** What a shape with properties `p` and one more, `d`, answers for a field. */
  function ChildAnswer(p: seq<Desc>, d: Desc, fieldName: nat): nat {
    if PropertyIndex(p, fieldName) < |p| then FindPropertyOffset(p, fieldName)
    else if d.name == fieldName then d.offset
    else UINT16_MAX
  }

  /** If the cached shape's address is used for a new shape, that shape starts at version 0, so an entry of
      version 0 hits; it answers for the field iff the old offset happens to be the new shape's answer:
      its parent's, if the parent has one, else the new property's or none. */
  lemma RecycledAddressHits(g: Graph, cur: nat, atom: nat, slot: nat, attrs: bv16, cachedShape: nat, propArray: nat, newTable: nat,
                            offset: nat, fieldName: nat)
    requires CanCreate(g, cur, cachedShape, propArray, newTable)
    ensures g.last in g.shapes
    ensures var g' := Create(g, cur, atom, slot, attrs, cachedShape, propArray, newTable);
      && cachedShape in g'.shapes && Epoch(g'.shapes[cachedShape].flags) == 0
      && (Coherent(g', cachedShape, offset, fieldName) <==>
          offset == ChildAnswer(g.shapes[cur].props, MakeProperty(atom, slot, attrs), fieldName))
  {
    LastInList(g);
    CreateShapes(g, cur, atom, slot, attrs, cachedShape, propArray, newTable);
    hide Create, CanCreate;
    NewEpoch(g.shapes[cur].flags, MakeProperty(atom, slot, attrs).attrs);
    AppendedLookup(g.shapes[cur].props, MakeProperty(atom, slot, attrs), fieldName);
  }

  lemma NewEpoch(flags: bv16, attrs: bv16)
    ensures Epoch(ChildFlags(flags, attrs)) == 0
  {
  }

  lemma AppendedLookup(p: seq<Desc>, d: Desc, name: nat)
    ensures FindPropertyOffset(p + [d], name) == ChildAnswer(p, d, name)
  {
    var q := p + [d];
    assert q[|p|] == d;
    assert forall j :: 0 <= j < |p| ==> q[j] == p[j];
  }

  /** After a sweep that took a child of `cur`, `cur` has room in its table and no match it had not before. */
  lemma RoomAfterSweep(g: Graph, r: Graph, n: nat, cur: nat, c: nat, atom: nat, attrs: bv16)
    requires Inv(g) && |g.order| > 0 && SweepFrom(g, |g.order| - 1) == (r, n) && MarksClosed(g)
    requires c in Dead(g) && cur in g.shapes && cur == g.shapes[c].parent && cur !in Dead(g)
    requires FindTransition(g.shapes, g.shapes[cur].table, atom, attrs) == |g.shapes[cur].table|
    ensures n > 0 && cur in r.shapes && r.shapes[cur].props == g.shapes[cur].props
    ensures !NeedsTable(r.shapes[cur])
    ensures FindTransition(r.shapes, r.shapes[cur].table, atom, attrs) == |r.shapes[cur].table|
  {
    hide SweepFrom, ParentsLive, ListOk, TreeAt, Accessors, Before, DropMark, MarksClosed;
    SweepCorrect(g, r, n);
    ChildEntry(g, c);
    hide Inv;
    assert Survivor(g, r, 0, cur);
    hide Dead;
    SurvivorRoom(g, r, cur, c);
    SurvivorMatches(g, r, cur, atom, attrs);
  }

  lemma ChildEntry(g: Graph, c: nat)
    requires Inv(g) && c in g.shapes && c != g.order[0]
    ensures var p := g.shapes[c].parent;
      p in g.shapes && HasEntry(g.shapes[p].table, c) && TableOk(g.shapes, p) && LocalOk(g.shapes[p])
  {
    ParentOf(g, c);
  }

  lemma SurvivorRoom(g: Graph, r: Graph, cur: nat, c: nat)
    requires cur in g.shapes && cur in r.shapes && Survivor(g, r, 0, cur) && c !in r.shapes
    requires HasEntry(g.shapes[cur].table, c) && TableOk(g.shapes, cur) && LocalOk(g.shapes[cur]) && Weak(r)
    ensures !NeedsTable(r.shapes[cur])
  {
    var t, t' := g.shapes[cur].table, r.shapes[cur].table;
    assert TableOk(r.shapes, cur);
    var e :| 0 <= e < |t| && t[e].target == c;
    hide LocalOk, Weak, TableOk, Before;
    assert t[e] !in t';
    FewerEntries(t, t', t[e]);
    assert |t'| < |t| <= g.shapes[cur].capacity by { TableFits(g.shapes[cur]); }
  }

  lemma TableFits(s: Shape)
    requires LocalOk(s)
    ensures |s.table| <= s.capacity
  {
  }

  lemma FewerEntries(t: seq<Entry>, t': seq<Entry>, e: Entry)
    requires e in t && e !in t' && forall x :: x in t' ==> x in t
    requires forall i, j :: 0 <= i < j < |t'| ==> Targets(t', i, j)
    ensures |t'| < |t|
  {
    DistinctCount(t');
    SeqCount(t);
    var a, b := set x | x in t', set x | x in t;
    assert a <= b - {e};
    CardinalityMonotone(a, b - {e});
  }

  lemma CardinalityMonotone(a: set<Entry>, b: set<Entry>)
    requires a <= b
    ensures |a| <= |b|
  {
    assert b == a + (b - a);
  }

  lemma {:induction false} DistinctCount(t: seq<Entry>)
    requires forall i, j :: 0 <= i < j < |t| ==> Targets(t, i, j)
    ensures |set x | x in t| == |t|
  {
    if t != [] {
      var n := |t| - 1;
      forall i, j | 0 <= i < j < n
        ensures Targets(t[..n], i, j)
      {
        assert Targets(t, i, j);
      }
      DistinctCount(t[..n]);
      assert forall i :: 0 <= i < n ==> Targets(t, i, n) && t[i] == t[..n][i];
      assert (set x | x in t) == (set x | x in t[..n]) + {t[n]};
    } else {
      assert (set x | x in t) == {};
    }
  }

  lemma {:induction false} SeqCount(t: seq<Entry>)
    ensures |set x | x in t| <= |t|
  {
    if t != [] {
      var n := |t| - 1;
      SeqCount(t[..n]);
      assert (set x | x in t) == (set x | x in t[..n]) + {t[n]};
    } else {
      assert (set x | x in t) == {};
    }
  }

  lemma SurvivorMatches(g: Graph, r: Graph, cur: nat, atom: nat, attrs: bv16)
    requires cur in g.shapes && cur in r.shapes && Survivor(g, r, 0, cur)
    requires forall s :: s in r.shapes ==> s in g.shapes && Survivor(g, r, 0, s)
    requires FindTransition(g.shapes, g.shapes[cur].table, atom, attrs) == |g.shapes[cur].table|
    ensures FindTransition(r.shapes, r.shapes[cur].table, atom, attrs) == |r.shapes[cur].table|
  {
    hide Before, DropMark;
    var t, t' := g.shapes[cur].table, r.shapes[cur].table;
    forall i | 0 <= i < |t'|
      ensures !Matches(r.shapes, t'[i], atom, attrs)
    {
      assert t'[i] in t' && t'[i] in t;
      var j :| 0 <= j < |t| && t[j] == t'[i];
      assert !Matches(g.shapes, t[j], atom, attrs);
    }
  }

  /** A sweep takes a child of `cur`; the next transition from `cur` is made at a swept shape's address.
      There any cache entry of version 0 left over from the swept shape hits, rightly or not. */
  method SweptAddressReturns(sa: ShapeArena, cur: nat, ghost c: nat, atom: nat, offset: nat, r1: nat, r2: nat, r3: nat)
    returns (child: nat)
    requires sa.Valid()
    requires var g := sa.Value();
      && |g.order| > 0 && MarksClosed(g) && c in Dead(g) && cur in g.shapes && cur == g.shapes[c].parent && cur !in Dead(g)
      && FindTransition(g.shapes, g.shapes[cur].table, atom, 0) == |g.shapes[cur].table|
      && |g.shapes[cur].props| < UINT16_MAX
    requires PageSpace.Reservable(sa.Segs(), r1) && PageSpace.Reservable(sa.Segs(), r2) && PageSpace.Reservable(sa.Segs(), r3)
    requires RangesApart(r1, r2) && RangesApart(r1, r3) && RangesApart(r2, r3)
    modifies sa.Repr
    ensures sa.Valid() && |old(sa.order)| > 0 && child in old(Dead(sa.Value())) && child in sa.shapes
    ensures Epoch(sa.shapes[child].flags) == 0
    ensures forall o, f :: Coherent(sa.Value(), child, o, f) <==>
      o == ChildAnswer(old(sa.shapes[cur].props), MakeProperty(atom, offset, 0), f)
  {
    hide ShapeArena.Memory, Inv, MarksClosed, Dead, SweepFrom, FindTransition, Create, CanCreate, Coherent, ChildAnswer;
    hide PageSpace.Reservable, RangesApart, MetaSpace.ListFor;
    ghost var g := sa.Value();
    var killed := sa.SweepOrphanedShapes();
    ghost var r := sa.Value();
    NoNull(g);
    RoomAfterSweep(g, r, killed, cur, c, atom, 0);
    NoAttributes();
    var made, propArray, newTable := sa.TransitionShape(cur, atom, offset, false, false, false, false, r1, r2, r3);
    child := made.value;
    forall o, f
      ensures Coherent(sa.Value(), child, o, f) <==> o == ChildAnswer(g.shapes[cur].props, MakeProperty(atom, offset, 0), f)
    {
      RecycledAddressHits(r, cur, atom, offset, 0, child, propArray, newTable, o, f);
    }
    RecycledAddressHits(r, cur, atom, offset, 0, child, propArray, newTable, 0, 0);
  }

  lemma NoAttributes()
    ensures Attributes(false, false, false, false) == 0
  {
  }
}
