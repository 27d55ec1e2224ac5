/** Creating a transition keeps the graph well-formed, and canonical exactly when it should be. */
module ShapeGrowth {
  import opened Lists
  import opened ShapeSpace

  /** What a creation needs from its caller and from the three blocks it obtained. */
  ghost predicate CanCreate(g: Graph, cur: nat, child: nat, propArray: nat, newTable: nat) {
    && Inv(g) && cur in g.shapes && !Overflows(g.shapes[cur])
    && child != NULL && child !in g.shapes && propArray != NULL && newTable != NULL
  }

  function CreatedShape(g: Graph, cur: nat, atom: nat, child: nat, newTable: nat, x: nat): Shape
    requires x in g.shapes
  {
    var s := g.shapes[x];
    var t := if x == cur then GrowTable(s, newTable).(table := s.table + [Entry(child, atom)]) else s;
    if x == g.last then t.(next := child) else t
  }

  /** The new graph shape by shape: only the current shape's table and the last shape's link change. */
  lemma CreateShapes(g: Graph, cur: nat, atom: nat, offset: nat, attrs: bv16, child: nat, propArray: nat, newTable: nat)
    requires cur in g.shapes && g.last in g.shapes && child !in g.shapes
    ensures var g' := Create(g, cur, atom, offset, attrs, child, propArray, newTable);
      && g'.shapes.Keys == g.shapes.Keys + {child} && g'.order == g.order + [child] && g'.last == child
      && g'.shapes[child] == NewShape(cur, g.shapes[cur], g.last, MakeProperty(atom, offset, attrs), propArray)
      && forall x :: x in g.shapes ==> g'.shapes[x] == CreatedShape(g, cur, atom, child, newTable, x)
  {
  }

  lemma LastInList(g: Graph)
    requires ListOk(g)
    ensures g.last in g.shapes && g.shapes[g.last].next == NULL && forall x :: x in g.order <==> x in g.shapes
  {
    assert LinkedAt(g, |g.order| - 1);
    forall x | x in g.order
      ensures x in g.shapes
    {
      var i :| 0 <= i < |g.order| && g.order[i] == x;
      assert LinkedAt(g, i);
    }
  }

  lemma CreateList(g: Graph, cur: nat, atom: nat, offset: nat, attrs: bv16, child: nat, propArray: nat, newTable: nat)
    requires CanCreate(g, cur, child, propArray, newTable)
    ensures g.last in g.shapes && ListOk(Create(g, cur, atom, offset, attrs, child, propArray, newTable))
  {
    LastInList(g);
    CreateShapes(g, cur, atom, offset, attrs, child, propArray, newTable);
    var g' := Create(g, cur, atom, offset, attrs, child, propArray, newTable);
    hide Create, CanCreate, Inv;
    forall i | 0 <= i < |g'.order|
      ensures LinkedAt(g', i)
    {
      if i < |g.order| {
        assert LinkedAt(g, i);
        OldLink(g, g', cur, atom, child, newTable, i);
      } else {
        NewLink(g, g', cur, child, MakeProperty(atom, offset, attrs), propArray);
      }
    }
    hide LinkedAt;
  }

  lemma OldLink(g: Graph, g': Graph, cur: nat, atom: nat, child: nat, newTable: nat, i: nat)
    requires ListOk(g) && i < |g.order| && LinkedAt(g, i)
    requires g'.order == g.order + [child] && g'.shapes.Keys == g.shapes.Keys + {child} && child !in g.shapes
    requires g'.shapes[g.order[i]] == CreatedShape(g, cur, atom, child, newTable, g.order[i])
    ensures LinkedAt(g', i)
  {
    hide LinkedAt;
    LastOnly(g, i);
    LinkUnfold(g, i);
    LinkFold(g', i);
  }

  lemma LinkUnfold(g: Graph, i: nat)
    requires i < |g.order| && LinkedAt(g, i)
    ensures g.order[i] in g.shapes && g.order[i] != NULL
    ensures g.shapes[g.order[i]].prev == (if i > 0 then g.order[i - 1] else NULL)
    ensures g.shapes[g.order[i]].next == (if i + 1 < |g.order| then g.order[i + 1] else NULL)
  {
  }

  lemma LinkFold(g: Graph, i: nat)
    requires i < |g.order| && g.order[i] in g.shapes && g.order[i] != NULL
    requires g.shapes[g.order[i]].prev == (if i > 0 then g.order[i - 1] else NULL)
    requires g.shapes[g.order[i]].next == (if i + 1 < |g.order| then g.order[i + 1] else NULL)
    ensures LinkedAt(g, i)
  {
  }

  lemma LastOnly(g: Graph, i: nat)
    requires NoDup(g.order) && |g.order| > 0 && g.last == Last(g.order) && i < |g.order|
    ensures g.order[i] == g.last <==> i == |g.order| - 1
  {
  }

  lemma NewLink(g: Graph, g': Graph, cur: nat, child: nat, d: Desc, propArray: nat)
    requires ListOk(g) && cur in g.shapes && child != NULL && g'.order == g.order + [child]
    requires child in g'.shapes && g'.shapes[child] == NewShape(cur, g.shapes[cur], g.last, d, propArray)
    ensures LinkedAt(g', |g.order|)
  {
  }

  lemma CreateTree(g: Graph, cur: nat, atom: nat, offset: nat, attrs: bv16, child: nat, propArray: nat, newTable: nat)
    requires CanCreate(g, cur, child, propArray, newTable)
    ensures g.last in g.shapes
    ensures var g' := Create(g, cur, atom, offset, attrs, child, propArray, newTable);
      (forall i :: 0 <= i < |g'.order| ==> TreeAt(g', i)) && ParentsLive(g', |g'.order|)
  {
    LastInList(g);
    CreateShapes(g, cur, atom, offset, attrs, child, propArray, newTable);
    var g' := Create(g, cur, atom, offset, attrs, child, propArray, newTable);
    hide Create;
    var n := |g.order|;
    forall i | 0 <= i < n + 1
      ensures TreeAt(g', i) && (i > 0 ==> ParentLive(g', i))
    {
      if i < n {
        assert TreeAt(g, i) && (i > 0 ==> ParentLive(g, i));
        OldTree(g, g', cur, atom, child, newTable, i);
      } else {
        NewTree(g, g', cur, atom, offset, attrs, child, propArray, newTable);
      }
    }
  }

  lemma OldTree(g: Graph, g': Graph, cur: nat, atom: nat, child: nat, newTable: nat, i: nat)
    requires i < |g.order| && TreeAt(g, i) && (i > 0 ==> ParentLive(g, i))
    requires g'.order == g.order + [child] && child !in g.shapes
    requires g'.shapes.Keys == g.shapes.Keys + {child}
    requires forall x :: x in g.shapes ==> g'.shapes[x] == CreatedShape(g, cur, atom, child, newTable, x)
    ensures TreeAt(g', i) && (i > 0 ==> ParentLive(g', i))
  {
    if i > 0 {
      var c := g.order[i];
      var p := g.shapes[c].parent;
      var j :| 0 <= j < i && g.order[j] == p;
      assert g'.order[j] == p;
      var e :| 0 <= e < |g.shapes[p].table| && g.shapes[p].table[e].target == c;
      assert g'.shapes[p].table[e].target == c;
    }
  }

  lemma NewTree(g: Graph, g': Graph, cur: nat, atom: nat, offset: nat, attrs: bv16, child: nat, propArray: nat, newTable: nat)
    requires CanCreate(g, cur, child, propArray, newTable) && g'.order == g.order + [child]
    requires g'.shapes.Keys == g.shapes.Keys + {child}
    requires g'.shapes[child] == NewShape(cur, g.shapes[cur], g.last, MakeProperty(atom, offset, attrs), propArray)
    requires forall x :: x in g.shapes ==> g'.shapes[x] == CreatedShape(g, cur, atom, child, newTable, x)
    ensures TreeAt(g', |g.order|) && ParentLive(g', |g.order|)
  {
    LastInList(g);
    var j :| 0 <= j < |g.order| && g.order[j] == cur;
    assert LinkedAt(g, j);
    assert g'.order[j] == cur;
    var t := g'.shapes[cur].table;
    assert t[|g.shapes[cur].table|].target == child;
  }

  lemma CreateTables(g: Graph, cur: nat, atom: nat, offset: nat, attrs: bv16, child: nat, propArray: nat, newTable: nat)
    requires CanCreate(g, cur, child, propArray, newTable)
    ensures g.last in g.shapes
    ensures var g' := Create(g, cur, atom, offset, attrs, child, propArray, newTable);
      forall p :: p in g'.shapes ==> TableOk(g'.shapes, p) && LocalOk(g'.shapes[p])
  {
    LastInList(g);
    CreateShapes(g, cur, atom, offset, attrs, child, propArray, newTable);
    var g' := Create(g, cur, atom, offset, attrs, child, propArray, newTable);
    hide Create;
    forall p | p in g'.shapes
      ensures TableOk(g'.shapes, p) && LocalOk(g'.shapes[p])
    {
      if p == child {
        NewLocal(g.shapes[cur], cur, g.last, atom, offset, attrs, propArray);
      } else {
        assert TableOk(g.shapes, p) && LocalOk(g.shapes[p]);
        OldTable(g, g', cur, atom, offset, attrs, child, propArray, newTable, p);
        OldLocal(g, cur, atom, child, newTable, p);
      }
    }
  }

  lemma NewLocal(s: Shape, cur: nat, prev: nat, atom: nat, offset: nat, attrs: bv16, propArray: nat)
    requires LocalOk(s) && !Overflows(s) && propArray != NULL
    ensures LocalOk(NewShape(cur, s, prev, MakeProperty(atom, offset, attrs), propArray))
  {
    var d := MakeProperty(atom, offset, attrs);
    var t := s.props + [d];
    assert t[|s.props|] == d;
    if Accessors(s.flags) {
      var i :| 0 <= i < |s.props| && IsAccessor(s.props[i].attrs);
      assert t[i] == s.props[i];
    }
    FlagBits();
  }

  lemma FlagBits()
    ensures Accessors(HAS_ACCESSORS) && !Accessors(0)
  {
  }

  lemma OldLocal(g: Graph, cur: nat, atom: nat, child: nat, newTable: nat, p: nat)
    requires p in g.shapes && LocalOk(g.shapes[p]) && newTable != NULL && (p == cur ==> !Overflows(g.shapes[p]))
    ensures LocalOk(CreatedShape(g, cur, atom, child, newTable, p))
  {
    var s := CreatedShape(g, cur, atom, child, newTable, p);
    assert s.props == g.shapes[p].props && s.flags == g.shapes[p].flags;
  }

  lemma OldEntry(g: Graph, g': Graph, cur: nat, atom: nat, child: nat, newTable: nat, p: nat, e: Entry)
    requires EntryOk(g.shapes, p, e) && e.target in g'.shapes
    requires g'.shapes[e.target] == CreatedShape(g, cur, atom, child, newTable, e.target)
    ensures EntryOk(g'.shapes, p, e)
  {
  }

  lemma CreatedTable(g: Graph, cur: nat, atom: nat, child: nat, newTable: nat, p: nat)
    requires p in g.shapes
    ensures CreatedShape(g, cur, atom, child, newTable, p).table
      == if p == cur then g.shapes[p].table + [Entry(child, atom)] else g.shapes[p].table
  {
  }

  lemma NewChild(cur: nat, s: Shape, prev: nat, atom: nat, offset: nat, attrs: bv16, propArray: nat)
    ensures var c := NewShape(cur, s, prev, MakeProperty(atom, offset, attrs), propArray);
      c.parent == cur && |c.props| > 0 && Last(c.props).name == atom
  {
  }

  lemma OldTable(g: Graph, g': Graph, cur: nat, atom: nat, offset: nat, attrs: bv16, child: nat, propArray: nat, newTable: nat, p: nat)
    requires cur in g.shapes && child !in g.shapes && p in g.shapes && TableOk(g.shapes, p)
    requires g'.shapes.Keys == g.shapes.Keys + {child}
    requires g'.shapes[child] == NewShape(cur, g.shapes[cur], g.last, MakeProperty(atom, offset, attrs), propArray)
    requires forall x :: x in g.shapes ==> g'.shapes[x] == CreatedShape(g, cur, atom, child, newTable, x)
    ensures TableOk(g'.shapes, p)
  {
    hide CreatedShape, NewShape, MakeProperty;
    var t, t' := g.shapes[p].table, g'.shapes[p].table;
    CreatedTable(g, cur, atom, child, newTable, p);
    NewChild(cur, g.shapes[cur], g.last, atom, offset, attrs, propArray);
    forall e | 0 <= e < |t'|
      ensures EntryOk(g'.shapes, p, t'[e]) && (e < |t| ==> t'[e].target in g.shapes)
    {
      if e < |t| {
        assert EntryOk(g.shapes, p, t[e]);
        OldEntry(g, g', cur, atom, child, newTable, p, t[e]);
      }
    }
    forall e, f | 0 <= e < f < |t'|
      ensures Targets(t', e, f)
    {
      assert f < |t| ==> Targets(t, e, f);
    }
  }

  /** A creation that does not overflow keeps the graph well-formed. */
  lemma CreateInv(g: Graph, cur: nat, atom: nat, offset: nat, attrs: bv16, child: nat, propArray: nat, newTable: nat)
    requires CanCreate(g, cur, child, propArray, newTable)
    ensures g.last in g.shapes && Inv(Create(g, cur, atom, offset, attrs, child, propArray, newTable))
  {
    CreateList(g, cur, atom, offset, attrs, child, propArray, newTable);
    CreateTree(g, cur, atom, offset, attrs, child, propArray, newTable);
    CreateTables(g, cur, atom, offset, attrs, child, propArray, newTable);
    hide ListOk, ParentsLive, Create, CanCreate;
  }

  // ---- Canonical tables ----

  lemma KeysKept(g: Graph, g': Graph, e: Entry, f: Entry)
    requires e.target in g.shapes && f.target in g.shapes && e.target in g'.shapes && f.target in g'.shapes
    requires g'.shapes[e.target].props == g.shapes[e.target].props && g'.shapes[f.target].props == g.shapes[f.target].props
    ensures KeysDiffer(g'.shapes, e, f) <==> KeysDiffer(g.shapes, e, f)
  {
  }

  /** The table the child enters stays free of duplicate keys iff it had no entry with the child's key. */
  lemma CreateCanonicalAt(g: Graph, g': Graph, cur: nat, atom: nat, offset: nat, attrs: bv16, child: nat, propArray: nat, newTable: nat)
    requires CanCreate(g, cur, child, propArray, newTable) && CanonicalAt(g.shapes, cur)
    requires g'.shapes.Keys == g.shapes.Keys + {child}
    requires g'.shapes[child] == NewShape(cur, g.shapes[cur], g.last, MakeProperty(atom, offset, attrs), propArray)
    requires forall x :: x in g.shapes ==> g'.shapes[x] == CreatedShape(g, cur, atom, child, newTable, x)
    ensures CanonicalAt(g'.shapes, cur) <==>
      FindTransition(g.shapes, g.shapes[cur].table, atom, MakeProperty(atom, offset, attrs).attrs) == |g.shapes[cur].table|
  {
    var t, t' := g.shapes[cur].table, g'.shapes[cur].table;
    var d := MakeProperty(atom, offset, attrs);
    assert TableOk(g.shapes, cur);
    assert t' == t + [Entry(child, atom)];
    hide Inv, Weak, MakeProperty, Overflows;
    var n := |t|;
    forall e | 0 <= e < n
      ensures KeysDiffer(g'.shapes, t'[e], t'[n]) <==> !Matches(g.shapes, t[e], atom, d.attrs)
    {
      assert EntryOk(g.shapes, cur, t[e]);
      assert g'.shapes[t[e].target].props == g.shapes[t[e].target].props;
      assert Last(g'.shapes[child].props) == d;
    }
    forall e, f | 0 <= e < f < n
      ensures KeysDiffer(g'.shapes, t'[e], t'[f])
    {
      assert EntryOk(g.shapes, cur, t[e]) && EntryOk(g.shapes, cur, t[f]);
      assert KeysDiffer(g.shapes, t[e], t[f]);
      KeysKept(g, g', t[e], t[f]);
    }
    var i := FindTransition(g.shapes, t, atom, d.attrs);
    if i < n {
      assert !KeysDiffer(g'.shapes, t'[i], t'[n]);
    }
  }

  /** Creation keeps the graph canonical iff no sibling already carries the child's name and attributes. */
  lemma CreateCanonical(g: Graph, cur: nat, atom: nat, offset: nat, attrs: bv16, child: nat, propArray: nat, newTable: nat)
    requires CanCreate(g, cur, child, propArray, newTable) && Canonical(g)
    ensures g.last in g.shapes
    ensures Canonical(Create(g, cur, atom, offset, attrs, child, propArray, newTable)) <==>
      FindTransition(g.shapes, g.shapes[cur].table, atom, MakeProperty(atom, offset, attrs).attrs) == |g.shapes[cur].table|
  {
    LastInList(g);
    CreateShapes(g, cur, atom, offset, attrs, child, propArray, newTable);
    var g' := Create(g, cur, atom, offset, attrs, child, propArray, newTable);
    hide Create;
    CreateCanonicalAt(g, g', cur, atom, offset, attrs, child, propArray, newTable);
    forall p | p in g'.shapes && p != cur
      ensures CanonicalAt(g'.shapes, p)
    {
      if p != child {
        CanonicalElsewhere(g, g', cur, atom, child, newTable, p);
      }
    }
    hide CanonicalAt, Inv;
  }

  lemma CanonicalElsewhere(g: Graph, g': Graph, cur: nat, atom: nat, child: nat, newTable: nat, p: nat)
    requires Weak(g) && Canonical(g) && p in g.shapes && p != cur && child !in g.shapes
    requires g'.shapes.Keys == g.shapes.Keys + {child}
    requires forall x :: x in g.shapes ==> g'.shapes[x] == CreatedShape(g, cur, atom, child, newTable, x)
    ensures CanonicalAt(g'.shapes, p)
  {
    hide ListOk, TreeAt, ParentsLive, LocalOk;
    var t := g.shapes[p].table;
    assert CanonicalAt(g.shapes, p) && TableOk(g.shapes, p) && g'.shapes[p].table == t;
    hide Weak, Canonical;
    forall e, f | 0 <= e < f < |t|
      ensures KeysDiffer(g'.shapes, t[e], t[f])
    {
      assert EntryOk(g.shapes, p, t[e]) && EntryOk(g.shapes, p, t[f]);
      assert KeysDiffer(g.shapes, t[e], t[f]);
      KeysKept(g, g', t[e], t[f]);
    }
  }
}
