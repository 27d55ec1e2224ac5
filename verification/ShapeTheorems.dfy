/** What the shape graph means: shapes and key paths correspond, and descriptors follow the path. */
module ShapeTheorems {
  import opened Options
  import opened ShapeSpace
  import opened ShapeGrowth

  /** The name and attributes by which a transition is looked up. */
  datatype Key = Key(name: nat, attrs: bv16)

  function KeyOf(d: Desc): Key {
    Key(d.name, d.attrs)
  }

  /** The keys on the path from the root. */
  function Path(props: seq<Desc>): (r: seq<Key>)
    ensures |r| == |props|
  {
    seq(|props|, i requires 0 <= i < |props| => KeyOf(props[i]))
  }

  // ---- Parents ----

  lemma RootInv(g: Graph, r: nat)
    requires r != NULL && g == Graph(map[r := Root()], [r], r)
    ensures Inv(g) && Canonical(g) && Marked(g.shapes[r].flags)
  {
    assert LinkedAt(g, 0) && TreeAt(g, 0);
  }

  lemma InOrder(g: Graph, s: nat) returns (i: nat)
    requires Inv(g) && s in g.shapes
    ensures i < |g.order| && g.order[i] == s && LinkedAt(g, i) && TreeAt(g, i) && (i > 0 ==> ParentLive(g, i))
  {
    i :| 0 <= i < |g.order| && g.order[i] == s;
  }

  /** A shape without properties is the root; any other one has a live parent one descriptor shorter. */
  lemma ParentOf(g: Graph, s: nat)
    requires Inv(g) && s in g.shapes
    ensures g.shapes[s].props == [] <==> s == g.order[0]
    ensures g.shapes[s].props == [] <==> g.shapes[s].parent == NULL
    ensures g.shapes[s].props != [] ==> g.shapes[s].parent in g.shapes && ChildOf(g.shapes, g.shapes[s].parent, s)
  {
    var i := InOrder(g, s);
  }

  lemma PathSnoc(g: Graph, s: nat)
    requires Inv(g) && s in g.shapes && g.shapes[s].props != []
    ensures g.shapes[s].parent in g.shapes
    ensures var p := g.shapes[s].parent;
      && Path(g.shapes[s].props) == Path(g.shapes[p].props) + [KeyOf(Last(g.shapes[s].props))]
      && |g.shapes[p].props| == |g.shapes[s].props| - 1
  {
    ParentOf(g, s);
  }

  lemma CanonicalPair(sh: Shapes, p: nat, e: nat, f: nat)
    requires p in sh && CanonicalAt(sh, p) && e < |sh[p].table| && f < |sh[p].table|
    ensures e < f ==> KeysDiffer(sh, sh[p].table[e], sh[p].table[f])
  {
  }

  /** Two children of one shape with the same key are one shape. */
  lemma SameKeySibling(g: Graph, s: nat, t: nat)
    requires Inv(g) && Canonical(g) && s in g.shapes && t in g.shapes
    requires g.shapes[s].props != [] && g.shapes[t].props != [] && g.shapes[s].parent == g.shapes[t].parent
    requires KeyOf(Last(g.shapes[s].props)) == KeyOf(Last(g.shapes[t].props))
    ensures s == t
  {
    ParentOf(g, s);
    ParentOf(g, t);
    var p := g.shapes[s].parent;
    var table := g.shapes[p].table;
    var e :| 0 <= e < |table| && table[e].target == s;
    var f :| 0 <= f < |table| && table[f].target == t;
    assert TableOk(g.shapes, p) && CanonicalAt(g.shapes, p);
    assert EntryOk(g.shapes, p, table[e]) && EntryOk(g.shapes, p, table[f]);
    CanonicalPair(g.shapes, p, e, f);
    CanonicalPair(g.shapes, p, f, e);
  }

  /** Canonicity: two live shapes are the same object iff their descriptors agree in name and attributes. */
  lemma {:induction false} SamePathSameShape(g: Graph, s: nat, t: nat)
    requires Inv(g) && Canonical(g) && s in g.shapes && t in g.shapes
    ensures s == t <==> Path(g.shapes[s].props) == Path(g.shapes[t].props)
    decreases |g.shapes[s].props|
  {
    hide Inv, Canonical;
    if Path(g.shapes[s].props) == Path(g.shapes[t].props) {
      assert |g.shapes[s].props| == |g.shapes[t].props|;
      ParentOf(g, s);
      ParentOf(g, t);
      if g.shapes[s].props != [] {
        PathSnoc(g, s);
        PathSnoc(g, t);
        var p, q := g.shapes[s].parent, g.shapes[t].parent;
        var a, b := Path(g.shapes[p].props), Path(g.shapes[q].props);
        var k, l := KeyOf(Last(g.shapes[s].props)), KeyOf(Last(g.shapes[t].props));
        assert a == (a + [k])[..|a|] && b == (b + [l])[..|b|];
        assert k == (a + [k])[|a|] && l == (b + [l])[|b|];
        SamePathSameShape(g, p, q);
        SameKeySibling(g, s, t);
      }
    }
  }

  // ---- Replay ----

  /** Follow transitions with the given keys from the root. */
  function Follow(g: Graph, keys: seq<Key>): Option<nat>
    requires |g.order| > 0
    decreases keys
  {
    if keys == [] then Some(g.order[0])
    else
      var n := |keys| - 1;
      match Follow(g, keys[..n])
      case None => None
      case Some(p) =>
        if p !in g.shapes then None
        else
          var i := FindTransition(g.shapes, g.shapes[p].table, keys[n].name, keys[n].attrs);
          if i < |g.shapes[p].table| then Some(g.shapes[p].table[i].target) else None
  }

  lemma LookupFindsChild(g: Graph, s: nat)
    requires Inv(g) && Canonical(g) && s in g.shapes && g.shapes[s].props != []
    ensures g.shapes[s].parent in g.shapes
    ensures var table := g.shapes[g.shapes[s].parent].table; var d := Last(g.shapes[s].props);
      var i := FindTransition(g.shapes, table, d.name, d.attrs);
      i < |table| && table[i].target == s
  {
    ParentOf(g, s);
    var p := g.shapes[s].parent;
    var table := g.shapes[p].table;
    var d := Last(g.shapes[s].props);
    var e :| 0 <= e < |table| && table[e].target == s;
    assert TableOk(g.shapes, p);
    assert EntryOk(g.shapes, p, table[e]);
    assert Matches(g.shapes, table[e], d.name, d.attrs);
    var i := FindTransition(g.shapes, table, d.name, d.attrs);
    assert EntryOk(g.shapes, p, table[i]);
    SameKeySibling(g, table[i].target, s);
  }

  /** Replaying the keys of a live shape from the root leads back to that shape, whatever else the graph
      holds. */
  lemma {:induction false} ReplayReturns(g: Graph, s: nat)
    requires Inv(g) && Canonical(g) && s in g.shapes
    ensures |g.order| > 0 && Follow(g, Path(g.shapes[s].props)) == Some(s)
    decreases |g.shapes[s].props|
  {
    var keys := Path(g.shapes[s].props);
    ParentOf(g, s);
    if keys != [] {
      hide Inv, Canonical;
      PathSnoc(g, s);
      var p := g.shapes[s].parent;
      ReplayReturns(g, p);
      LookupFindsChild(g, s);
      assert keys[..|keys| - 1] == Path(g.shapes[p].props);
    }
  }

  // ---- Contents follow the path ----

  /** Steps to the root. */
  ghost predicate DepthIs(sh: Shapes, s: nat, n: nat)
    decreases n
  {
    s in sh && if n == 0 then sh[s].parent == NULL else sh[s].parent != NULL && DepthIs(sh, sh[s].parent, n - 1)
  }

  /** The property count is the depth in the tree. */
  lemma {:induction false} CountIsDepth(g: Graph, s: nat, n: nat)
    requires Inv(g) && s in g.shapes
    ensures DepthIs(g.shapes, s, n) <==> n == |g.shapes[s].props|
    decreases n
  {
    hide Inv;
    ParentOf(g, s);
    if g.shapes[s].props != [] && n > 0 {
      PathSnoc(g, s);
      CountIsDepth(g, g.shapes[s].parent, n - 1);
    }
  }

  /** The accessor flag is set iff some descriptor on the path is a getter or a setter. */
  lemma FlagTellsAccessors(g: Graph, s: nat)
    requires Inv(g) && s in g.shapes
    ensures Accessors(g.shapes[s].flags) <==> exists i :: 0 <= i < |g.shapes[s].props| && IsAccessor(g.shapes[s].props[i].attrs)
  {
    assert LocalOk(g.shapes[s]);
  }

  /** `d` is reached from `a` by transitions. */
  ghost predicate Descends(sh: Shapes, a: nat, d: nat, n: nat)
    decreases n
  {
    a in sh && d in sh && if n == 0 then a == d else Descends(sh, a, sh[d].parent, n - 1)
  }

  lemma {:induction false} DescendantExtends(g: Graph, a: nat, d: nat, n: nat)
    requires Inv(g) && Descends(g.shapes, a, d, n)
    ensures g.shapes[a].props <= g.shapes[d].props
    decreases n
  {
    hide Inv;
    if n > 0 {
      var p := g.shapes[d].parent;
      DescendantExtends(g, a, p, n - 1);
      ParentOf(g, d);
      NoNull(g);
    }
  }

  lemma NoNull(g: Graph)
    requires Inv(g)
    ensures NULL !in g.shapes
  {
    if NULL in g.shapes {
      var i := InOrder(g, NULL);
    }
  }

  lemma {:induction false} PrefixLookup(p: seq<Desc>, q: seq<Desc>, name: nat)
    requires p <= q && PropertyIndex(p, name) < |p|
    ensures PropertyIndex(q, name) == PropertyIndex(p, name)
  {
    if p[0].name != name {
      PrefixLookup(p[1..], q[1..], name);
    }
  }

  /** A name that resolves in a shape resolves to the same descriptor in every descendant. */
  lemma ResolutionInherited(g: Graph, a: nat, d: nat, n: nat, name: nat)
    requires Inv(g) && Descends(g.shapes, a, d, n)
    requires PropertyIndex(g.shapes[a].props, name) < |g.shapes[a].props|
    ensures var i := PropertyIndex(g.shapes[a].props, name);
      && PropertyIndex(g.shapes[d].props, name) == i && i < |g.shapes[d].props|
      && g.shapes[d].props[i] == g.shapes[a].props[i]
  {
    DescendantExtends(g, a, d, n);
    PrefixLookup(g.shapes[a].props, g.shapes[d].props, name);
  }

  // ---- transitionShape ----

  /** Lookup of the requested key, creation when it fails; a creation that overflows is no transition. */
  function Transition(g: Graph, cur: nat, atom: nat, offset: nat, attrs: bv16, child: nat, propArray: nat, newTable: nat): (Graph, nat)
    requires cur in g.shapes && g.last in g.shapes
  {
    var table := g.shapes[cur].table;
    var i := FindTransition(g.shapes, table, atom, attrs);
    if i < |table| then (g, table[i].target)
    else (Create(g, cur, atom, offset, attrs, child, propArray, newTable), child)
  }

  /** Right after a creation the same request finds the new shape iff the requested key is the one that
      was stored: not for a zero atom with attributes. */
  lemma SecondRequestFinds(g: Graph, cur: nat, atom: nat, offset: nat, attrs: bv16, child: nat, propArray: nat, newTable: nat)
    requires CanCreate(g, cur, child, propArray, newTable)
    requires FindTransition(g.shapes, g.shapes[cur].table, atom, attrs) == |g.shapes[cur].table|
    ensures g.last in g.shapes
    ensures var g' := Create(g, cur, atom, offset, attrs, child, propArray, newTable);
      && cur in g'.shapes
      && var t := g'.shapes[cur].table;
      var i := FindTransition(g'.shapes, t, atom, attrs);
      (i < |t| && t[i].target == child) <==> (atom != 0 || attrs == 0)
  {
    LastInList(g);
    CreateShapes(g, cur, atom, offset, attrs, child, propArray, newTable);
    var g' := Create(g, cur, atom, offset, attrs, child, propArray, newTable);
    assert TableOk(g.shapes, cur);
    hide Create, Inv, MakeProperty, Overflows, ChildFlags;
    var t, n := g.shapes[cur].table, Entry(child, atom);
    assert g'.shapes[cur].table == t + [n];
    assert Last(g'.shapes[child].props) == MakeProperty(atom, offset, attrs);
    forall x | x in g.shapes
      ensures g'.shapes[x].props == g.shapes[x].props
    {
    }
    CreatedMatches(g'.shapes, n, atom, offset, attrs);
    LookupAppended(g.shapes, g'.shapes, cur, t, n, atom, attrs);
  }

  lemma LookupAppended(sh: Shapes, sh': Shapes, cur: nat, t: seq<Entry>, n: Entry, atom: nat, attrs: bv16)
    requires forall e :: 0 <= e < |t| ==> EntryOk(sh, cur, t[e])
    requires forall x :: x in sh ==> x in sh' && sh'[x].props == sh[x].props
    requires n.target !in sh && FindTransition(sh, t, atom, attrs) == |t|
    ensures FindTransition(sh', t + [n], atom, attrs) == if Matches(sh', n, atom, attrs) then |t| else |t| + 1
    ensures forall e :: 0 <= e < |t| ==> t[e].target != n.target
  {
    forall e | 0 <= e < |t|
      ensures t[e].target != n.target && !Matches(sh', (t + [n])[e], atom, attrs)
    {
      assert EntryOk(sh, cur, t[e]);
      assert !Matches(sh, t[e], atom, attrs);
    }
    assert (t + [n])[|t|] == n;
  }

  lemma CreatedMatches(sh: Shapes, e: Entry, atom: nat, offset: nat, attrs: bv16)
    requires e.target in sh && e.atom == atom
    requires |sh[e.target].props| > 0 && Last(sh[e.target].props) == MakeProperty(atom, offset, attrs)
    ensures Matches(sh, e, atom, attrs) <==> (atom != 0 || attrs == 0)
  {
  }
}
