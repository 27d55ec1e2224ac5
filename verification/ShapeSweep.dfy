/** The sweep: a reverse walk over the creation list that unlinks every unmarked shape. */
module ShapeSweep {
  import opened Lists
  import opened ShapeSpace
  import opened ShapeGrowth

  // ---- Tables under swap-removal ----

  ghost predicate Distinct(t: seq<Entry>) {
    forall e, f :: 0 <= e < f < |t| ==> Targets(t, e, f)
  }

  /** Swap-removal of an entry keeps all others, once each. */
  lemma SwapRemoveKeeps(t: seq<Entry>, c: nat)
    requires Distinct(t) && IndexOf(t, c) < |t|
    ensures var r := SwapRemove(t, IndexOf(t, c));
      && Distinct(r) && |r| == |t| - 1
      && forall x :: x in r <==> x in t && x.target != c
  {
    var i := IndexOf(t, c);
    var r := SwapRemove(t, i);
    forall e, f | 0 <= e < f < |r|
      ensures Targets(r, e, f)
    {
      assert Targets(t, e, f) && Targets(t, f, |t| - 1) && Targets(t, e, |t| - 1);
    }
    forall x
      ensures x in r <==> x in t && x.target != c
    {
      if x in r {
        var e :| 0 <= e < |r| && r[e] == x;
        var e' := if e == i then |t| - 1 else e;
        assert t[e'] == x;
        assert e' < i ==> Targets(t, e', i);
        assert i < e' ==> Targets(t, i, e');
      }
      if x in t && x.target != c {
        var e :| 0 <= e < |t| && t[e] == x;
        assert r[if e == |t| - 1 then i else e] == x;
      }
    }
  }

  lemma HasEntryIndex(t: seq<Entry>, c: nat)
    ensures HasEntry(t, c) <==> IndexOf(t, c) < |t|
  {
  }

  // ---- Removing one shape ----

  /** `c` stands at position `i` behind the root and its parent is live. */
  ghost predicate Removable(g: Graph, i: nat) {
    Weak(g) && 0 < i < |g.order| && ParentLive(g, i)
  }

  function UnlinkedShape(sh: Shapes, c: nat, x: nat): Shape
    requires c in sh && x in sh
  {
    var s := sh[x];
    var t := if x == sh[c].parent && IndexOf(s.table, c) < |s.table| then SwapRemove(s.table, IndexOf(s.table, c)) else s.table;
    s.(prev := if x == sh[c].next then sh[c].prev else s.prev, next := if x == sh[c].prev then sh[c].next else s.next, table := t)
  }

  lemma UnlinkShapes(g: Graph, i: nat)
    requires i < |g.order| && g.order[i] in g.shapes
    requires g.shapes[g.order[i]].prev != g.order[i] && g.shapes[g.order[i]].next != g.order[i]
    ensures var c := g.order[i]; var sh := Remove(g, i).shapes;
      && sh.Keys == g.shapes.Keys - {c}
      && forall x :: x in sh ==> sh[x] == UnlinkedShape(g.shapes, c, x)
  {
    var c := g.order[i];
    hide UnlinkedShape, IndexOf;
    forall x | x in g.shapes && x != c
      ensures x in Detach(g.shapes, c) && Detach(g.shapes, c)[x] == UnlinkedShape(g.shapes, c, x)
    {
      UnlinkedAt(g.shapes, c, x);
    }
    DetachKeys(g.shapes, c);
    hide Detach;
  }

  lemma DetachKeys(sh: Shapes, c: nat)
    requires c in sh
    ensures Detach(sh, c).Keys == sh.Keys
  {
  }

  lemma UnlinkedAt(sh: Shapes, c: nat, x: nat)
    requires c in sh && x in sh && x != c && sh[c].prev != c && sh[c].next != c
    ensures x in Detach(sh, c) && Detach(sh, c)[x] == UnlinkedShape(sh, c, x)
  {
    hide IndexOf, SwapRemove;
  }

  lemma Neighbours(g: Graph, i: nat)
    requires ListOk(g) && 0 < i < |g.order|
    ensures var c := g.order[i];
      && c in g.shapes && c != NULL && NULL !in g.shapes
      && g.shapes[c].prev == g.order[i - 1] != c && g.shapes[c].next != c
      && (forall j :: 0 <= j < |g.order| ==> g.order[j] in g.shapes)
      && (forall j :: 0 <= j < |g.order| ==> (g.order[j] == g.shapes[c].next <==> j == i + 1))
      && (forall j :: 0 <= j < |g.order| ==> (g.order[j] == g.shapes[c].prev <==> j == i - 1))
  {
    assert LinkedAt(g, i);
    forall j | 0 <= j < |g.order|
      ensures g.order[j] in g.shapes && g.order[j] != NULL
    {
      assert LinkedAt(g, j);
    }
    assert NULL in g.shapes ==> NULL in g.order;
  }

  function Cut(order: seq<nat>, i: nat): seq<nat>
    requires i < |order|
  {
    order[..i] + order[i + 1..]
  }

  lemma CutOrder(order: seq<nat>, i: nat)
    requires NoDup(order) && i < |order|
    ensures NoDup(Cut(order, i)) && forall x :: x in Cut(order, i) <==> x in order && x != order[i]
  {
    forall x
      ensures x in Cut(order, i) <==> x in order && x != order[i]
    {
      if x in order && x != order[i] {
        var j :| 0 <= j < |order| && order[j] == x;
        assert Cut(order, i)[if j < i then j else j - 1] == x;
      }
    }
  }

  lemma RemoveList(g: Graph, i: nat)
    requires ListOk(g) && 0 < i < |g.order|
    ensures g.order[i] in g.shapes && ListOk(Remove(g, i))
  {
    Neighbours(g, i);
    UnlinkShapes(g, i);
    CutOrder(g.order, i);
    var g' := Remove(g, i);
    assert g'.order == Cut(g.order, i);
    hide Unlink, IndexOf;
    forall j | 0 <= j < |g'.order|
      ensures LinkedAt(g', j)
    {
      RemoveLinked(g, g', i, j);
    }
    hide LinkedAt;
    LastKept(g, i);
  }

  lemma LastKept(g: Graph, i: nat)
    requires ListOk(g) && 0 < i < |g.order| && g.order[i] in g.shapes
    ensures |Cut(g.order, i)| > 0 && Remove(g, i).last == Last(Cut(g.order, i))
  {
    assert LinkedAt(g, i);
    hide Unlink;
  }

  lemma RemoveLinked(g: Graph, g': Graph, i: nat, j: nat)
    requires ListOk(g) && 0 < i < |g.order| && g'.order == Cut(g.order, i) && j < |g'.order|
    requires g.order[i] in g.shapes && g'.shapes.Keys == g.shapes.Keys - {g.order[i]}
    requires forall x :: x in g'.shapes ==> g'.shapes[x] == UnlinkedShape(g.shapes, g.order[i], x)
    ensures LinkedAt(g', j)
  {
    hide UnlinkedShape, ListOk, LinkedAt;
    Neighbours(g, i);
    var c, k := g.order[i], if j < i then j else j + 1;
    LinkOf(g, k);
    LinkOf(g, i);
    LinkUnfold(g, k);
    LinkUnfold(g, i);
    assert g'.order[j] == g.order[k] && g.order[k] != c;
    UnlinkedLinks(g.shapes, c, g.order[k]);
    assert j > 0 ==> g'.order[j - 1] == g.order[if k == i + 1 then i - 1 else k - 1];
    assert j + 1 < |g'.order| ==> g'.order[j + 1] == g.order[if k + 1 == i then i + 1 else k + 1];
    LinkFold(g', j);
  }

  lemma LinkOf(g: Graph, i: nat)
    requires ListOk(g) && i < |g.order|
    ensures LinkedAt(g, i)
  {
  }

  lemma UnlinkedLinks(sh: Shapes, c: nat, x: nat)
    requires c in sh && x in sh
    ensures UnlinkedShape(sh, c, x).prev == if x == sh[c].next then sh[c].prev else sh[x].prev
    ensures UnlinkedShape(sh, c, x).next == if x == sh[c].prev then sh[c].next else sh[x].next
  {
  }

  lemma RemoveTree(g: Graph, g': Graph, i: nat, j: nat)
    requires Weak(g) && 0 < i < |g.order| && ParentLive(g, i) && g'.order == Cut(g.order, i) && j < |g'.order|
    requires g'.shapes.Keys == g.shapes.Keys - {g.order[i]}
    requires forall x :: x in g'.shapes ==> g'.shapes[x] == UnlinkedShape(g.shapes, g.order[i], x)
    ensures TreeAt(g', j) && (0 < j < i && ParentLive(g, j) ==> ParentLive(g', j))
  {
    var k := if j < i then j else j + 1;
    assert TreeAt(g, k) && g.order[k] != g.order[i];
    assert forall p :: p in g.shapes ==> TableOk(g.shapes, p);
    assert ListOk(g);
    hide Weak;
    if k <= i {
      NotBefore(g.order, i, k);
    }
    TreeKept(g, g', i, k, j);
  }

  lemma NotBefore(order: seq<nat>, i: nat, k: nat)
    requires NoDup(order) && i < |order| && k <= i
    ensures !Before(order, order[i], k)
  {
  }

  lemma BeforeCut(order: seq<nat>, i: nat, p: nat, k: nat, j: nat)
    requires i < |order| && Before(order, p, k) && p != order[i] && j == (if k <= i then k else k - 1)
    ensures Before(Cut(order, i), p, j)
  {
    var b :| 0 <= b < k && b < |order| && order[b] == p;
    assert Cut(order, i)[if b < i then b else b - 1] == p;
  }

  lemma TreeKept(g: Graph, g': Graph, i: nat, k: nat, j: nat)
    requires i < |g.order| && k < |g.order| && k != i && j == (if k < i then k else k - 1)
    requires TreeAt(g, k) && g.order[i] in g.shapes && g.order[k] != g.order[i]
    requires forall p :: p in g.shapes ==> TableOk(g.shapes, p)
    requires k <= i ==> !Before(g.order, g.order[i], k)
    requires g'.order == Cut(g.order, i) && g'.shapes.Keys == g.shapes.Keys - {g.order[i]} && i > 0
    requires forall x :: x in g'.shapes ==> g'.shapes[x] == UnlinkedShape(g.shapes, g.order[i], x)
    ensures TreeAt(g', j) && (0 < j < i && ParentLive(g, j) ==> ParentLive(g', j))
  {
    var c, x := g.order[i], g.order[k];
    var p := g.shapes[x].parent;
    assert g'.order[j] == x;
    if k > 0 && p in g.shapes && p != c {
      BeforeCut(g.order, i, p, k, j);
      KeepsEntry(g.shapes, c, p, x);
    }
    hide TableOk, Before;
  }

  lemma KeepsEntry(sh: Shapes, c: nat, p: nat, x: nat)
    requires c in sh && p in sh && TableOk(sh, p) && HasEntry(sh[p].table, x) && x != c
    ensures HasEntry(UnlinkedShape(sh, c, p).table, x)
  {
    var t := sh[p].table;
    var e :| 0 <= e < |t| && t[e].target == x;
    if IndexOf(t, c) < |t| {
      SwapRemoveKeeps(t, c);
      assert t[e] in t;
    }
    var t' := UnlinkedShape(sh, c, p).table;
    assert t[e] in t';
  }

  lemma RemoveTable(g: Graph, g': Graph, i: nat, q: nat)
    requires Weak(g) && 0 < i < |g.order| && ParentLive(g, i)
    requires g'.shapes.Keys == g.shapes.Keys - {g.order[i]} && q in g'.shapes
    requires forall x :: x in g'.shapes ==> g'.shapes[x] == UnlinkedShape(g.shapes, g.order[i], x)
    ensures TableOk(g'.shapes, q) && LocalOk(g'.shapes[q])
    ensures forall x :: x in g'.shapes[q].table <==> x in g.shapes[q].table && x.target != g.order[i]
  {
    var c := g.order[i];
    var t, t' := g.shapes[q].table, g'.shapes[q].table;
    assert TableOk(g.shapes, q) && LocalOk(g.shapes[q]) && TreeAt(g, i);
    hide Weak, TreeAt;
    assert c in g.shapes && HasEntry(g.shapes[g.shapes[c].parent].table, c) by { ParentHasEntry(g, i); }
    UnlinkedEntries(g.shapes, c, q);
    UnlinkedLocal(g.shapes, c, q);
    hide UnlinkedShape, LocalOk;
    forall e | 0 <= e < |t'|
      ensures EntryOk(g'.shapes, q, t'[e])
    {
      assert t'[e] in t;
      KeptEntry(g, g', c, q, t'[e]);
    }
  }

  lemma ParentHasEntry(g: Graph, i: nat)
    requires Weak(g) && 0 < i < |g.order| && ParentLive(g, i)
    ensures g.order[i] in g.shapes && g.shapes[g.order[i]].parent in g.shapes
    ensures HasEntry(g.shapes[g.shapes[g.order[i]].parent].table, g.order[i])
  {
    assert TreeAt(g, i);
  }

  /** The unlinked table of `q`: all its entries but the one for `c`, each once. */
  lemma UnlinkedEntries(sh: Shapes, c: nat, q: nat)
    requires c in sh && q in sh && TableOk(sh, q) && sh[c].parent in sh && HasEntry(sh[sh[c].parent].table, c)
    ensures var t, t' := sh[q].table, UnlinkedShape(sh, c, q).table;
      && |t'| <= |t| && (forall e, f :: 0 <= e < f < |t'| ==> Targets(t', e, f))
      && forall x :: x in t' <==> x in t && x.target != c
  {
    var t := sh[q].table;
    if q == sh[c].parent {
      HasEntryIndex(t, c);
      SwapRemoveKeeps(t, c);
    } else {
      forall e | 0 <= e < |t|
        ensures t[e].target != c
      {
        assert EntryOk(sh, q, t[e]);
      }
    }
  }

  lemma UnlinkedLocal(sh: Shapes, c: nat, q: nat)
    requires c in sh && q in sh && LocalOk(sh[q]) && |UnlinkedShape(sh, c, q).table| <= |sh[q].table|
    ensures LocalOk(UnlinkedShape(sh, c, q))
  {
    var s, u := sh[q], UnlinkedShape(sh, c, q);
    assert u.props == s.props && u.flags == s.flags;
  }

  lemma KeptEntry(g: Graph, g': Graph, c: nat, q: nat, x: Entry)
    requires q in g.shapes && TableOk(g.shapes, q) && x in g.shapes[q].table && x.target != c && c in g.shapes
    requires g'.shapes.Keys == g.shapes.Keys - {c}
    requires forall x :: x in g'.shapes ==> g'.shapes[x] == UnlinkedShape(g.shapes, c, x)
    ensures EntryOk(g'.shapes, q, x)
  {
    var t := g.shapes[q].table;
    var e :| 0 <= e < |t| && t[e] == x;
    assert EntryOk(g.shapes, q, t[e]);
  }

  lemma RemoveShapes(g: Graph, i: nat)
    requires Removable(g, i)
    ensures g.order[i] in g.shapes && g.order[i] != NULL
    ensures var g' := Remove(g, i); var c := g.order[i];
      && g'.order == Cut(g.order, i) && g'.shapes.Keys == g.shapes.Keys - {c} && ListOk(g')
      && forall x :: x in g'.shapes ==> g'.shapes[x] == UnlinkedShape(g.shapes, c, x)
  {
    Neighbours(g, i);
    UnlinkShapes(g, i);
    RemoveList(g, i);
  }

  /** Removing an unmarked shape whose parent is live keeps the list, the tables and the trees of the
      rest; only the removed shape's own children, if any, lose their parent. */
  lemma RemoveWeak(g: Graph, i: nat)
    requires Removable(g, i)
    ensures g.order[i] in g.shapes
    ensures var g' := Remove(g, i); var c := g.order[i];
      && Weak(g') && g'.order == Cut(g.order, i) && g'.shapes.Keys == g.shapes.Keys - {c}
      && (forall k :: 0 < k < i && ParentLive(g, k) ==> ParentLive(g', k))
      && (forall x :: x in g'.shapes ==> Unlinked(g, g', c, x))
  {
    hide Remove, UnlinkedShape, ListOk, TreeAt, TableOk, LocalOk, ParentLive, Unlinked;
    RemoveShapes(g, i);
    var g' := Remove(g, i);
    forall j | 0 <= j < |g'.order|
      ensures TreeAt(g', j) && (0 < j < i && ParentLive(g, j) ==> ParentLive(g', j))
    {
      RemoveTree(g, g', i, j);
    }
    forall q | q in g'.shapes
      ensures TableOk(g'.shapes, q) && LocalOk(g'.shapes[q]) && Unlinked(g, g', g.order[i], q)
    {
      RemoveTable(g, g', i, q);
      RemoveBody(g, g', g.order[i], q);
    }
  }

  lemma RemoveBody(g: Graph, g': Graph, c: nat, q: nat)
    requires c in g.shapes && q in g'.shapes && q in g.shapes && g'.shapes[q] == UnlinkedShape(g.shapes, c, q)
    requires forall e :: e in g'.shapes[q].table <==> e in g.shapes[q].table && e.target != c
    ensures Unlinked(g, g', c, q)
  {
    UnlinkedFields(g.shapes, c, q);
    hide UnlinkedShape;
  }

  /** A survivor of one removal: everything but list links is as before, and its table has lost
      exactly the removed shape. */
  ghost predicate Unlinked(g: Graph, g': Graph, c: nat, x: nat)
    requires x in g.shapes && x in g'.shapes
  {
    && SameBody(g.shapes[x], g'.shapes[x]) && g'.shapes[x].flags == g.shapes[x].flags
    && forall e :: e in g'.shapes[x].table <==> e in g.shapes[x].table && e.target != c
  }

  /** Equal but for list links, flags and transitions. */
  predicate SameBody(s: Shape, t: Shape) {
    && t.parent == s.parent && t.props == s.props && t.propArray == s.propArray
    && t.capacity == s.capacity && t.tablePtr == s.tablePtr
  }

  lemma UnlinkedFields(sh: Shapes, c: nat, x: nat)
    requires c in sh && x in sh
    ensures SameBody(sh[x], UnlinkedShape(sh, c, x)) && UnlinkedShape(sh, c, x).flags == sh[x].flags
  {
  }

  // ---- Clearing a mark ----

  lemma MarkBits(flags: bv16)
    ensures Accessors(DropMark(flags)) == Accessors(flags) && !Marked(DropMark(flags))
    ensures Accessors(SetMark(flags)) == Accessors(flags) && Marked(SetMark(flags))
  {
  }

  lemma EpochBits(flags: bv16)
    ensures Epoch(DropMark(flags)) == Epoch(flags) && Epoch(SetMark(flags)) == Epoch(flags)
  {
  }

  /** Setting or clearing mark bits concerns nothing else. */
  lemma FlagsWeak(g: Graph, s: nat, flags: bv16)
    requires Weak(g) && s in g.shapes && Accessors(flags) == Accessors(g.shapes[s].flags)
    ensures var g' := g.(shapes := g.shapes[s := g.shapes[s].(flags := flags)]);
      && Weak(g') && forall k :: 0 <= k < |g.order| && ParentLive(g, k) ==> ParentLive(g', k)
  {
    var g' := g.(shapes := g.shapes[s := g.shapes[s].(flags := flags)]);
    forall j | 0 <= j < |g'.order|
      ensures LinkedAt(g', j) && TreeAt(g', j)
    {
      assert LinkedAt(g, j) && TreeAt(g, j);
    }
    forall q | q in g'.shapes
      ensures TableOk(g'.shapes, q) && LocalOk(g'.shapes[q])
    {
      FlagsTable(g, g', s, flags, q);
    }
    hide LinkedAt, TreeAt, TableOk, LocalOk;
  }

  lemma FlagsTable(g: Graph, g': Graph, s: nat, flags: bv16, q: nat)
    requires Weak(g) && s in g.shapes && Accessors(flags) == Accessors(g.shapes[s].flags) && q in g.shapes
    requires g' == g.(shapes := g.shapes[s := g.shapes[s].(flags := flags)])
    ensures TableOk(g'.shapes, q) && LocalOk(g'.shapes[q])
  {
    assert TableOk(g.shapes, q) && LocalOk(g.shapes[q]);
    hide Weak;
    var t := g.shapes[q].table;
    forall e | 0 <= e < |t|
      ensures EntryOk(g'.shapes, q, t[e])
    {
      assert EntryOk(g.shapes, q, t[e]);
    }
  }

  // ---- The walk ----

  /** The reverse walk from position `i` down to, but not including, the root; with the number removed. */
  ghost function SweepFrom(g: Graph, i: nat): (Graph, nat)
    requires Weak(g) && ParentsLive(g, i) && i < |g.order|
    decreases i
  {
    if i == 0 then (g, 0)
    else
      WalkStep(g, i);
      var c := g.order[i];
      if Marked(g.shapes[c].flags) then SweepFrom(ClearMark(g, c), i - 1)
      else
        var (r, n) := SweepFrom(Remove(g, i), i - 1);
        (r, n + 1)
  }

  lemma ClearWeak(g: Graph, c: nat)
    requires Weak(g) && c in g.shapes
    ensures Weak(ClearMark(g, c))
    ensures forall k :: 0 <= k < |g.order| && ParentLive(g, k) ==> ParentLive(ClearMark(g, c), k)
  {
    hide Weak, Marked, Accessors, ParentLive, DropMark;
    MarkBits(g.shapes[c].flags);
    FlagsWeak(g, c, DropMark(g.shapes[c].flags));
  }

  lemma WalkStep(g: Graph, i: nat)
    requires Weak(g) && ParentsLive(g, i) && 0 < i < |g.order|
    ensures g.order[i] in g.shapes
    ensures Weak(ClearMark(g, g.order[i])) && ParentsLive(ClearMark(g, g.order[i]), i - 1)
    ensures Weak(Remove(g, i)) && ParentsLive(Remove(g, i), i - 1) && i - 1 < |Remove(g, i).order|
  {
    hide Weak, Remove, Unlinked;
    assert ParentLive(g, i);
    hide ParentLive;
    ClearWeak(g, g.order[i]);
    RemoveWeak(g, i);
  }

  /** A survivor once the walk stands at `i`: behind the walk its mark is cleared, and everywhere its
      table has lost exactly the entries that lead to removed shapes. */
  ghost predicate Survivor(g0: Graph, g: Graph, i: nat, s: nat)
    requires s in g0.shapes && s in g.shapes
  {
    && SameBody(g0.shapes[s], g.shapes[s])
    && g.shapes[s].flags == (if Before(g0.order, s, i + 1) then g0.shapes[s].flags else DropMark(g0.shapes[s].flags))
    && forall e :: e in g.shapes[s].table <==> e in g0.shapes[s].table && e.target in g.shapes
  }

  /** What the walk has done to `g0` when it stands at position `i` of `g`. */
  ghost predicate Swept(g0: Graph, g: Graph, i: nat) {
    && i < |g.order| && i < |g0.order| && g.order[..i + 1] == g0.order[..i + 1]
    && Weak(g) && ParentsLive(g, i)
    && (forall s :: s in g.shapes ==> s in g0.shapes && Survivor(g0, g, i, s))
    && (forall s :: s in g0.shapes ==> (s in g.shapes <==> Before(g0.order, s, i + 1) || Marked(g0.shapes[s].flags)))
  }

  lemma BeforeStep(order: seq<nat>, s: nat, i: nat)
    requires NoDup(order) && 0 < i < |order|
    ensures Before(order, s, i + 1) <==> Before(order, s, i) || s == order[i]
    ensures !Before(order, order[i], i)
  {
    if Before(order, s, i + 1) && s != order[i] {
      var j :| 0 <= j < i + 1 && order[j] == s;
      assert j < i;
    }
  }

  lemma SweptHere(g0: Graph, g: Graph, i: nat)
    requires Weak(g0) && Swept(g0, g, i) && i > 0
    ensures var c := g0.order[i];
      c == g.order[i] && c in g.shapes && c in g0.shapes && g.shapes[c].flags == g0.shapes[c].flags
  {
    assert g.order[..i + 1][i] == g0.order[..i + 1][i];
    assert LinkedAt(g, i) && LinkedAt(g0, i);
    BeforeStep(g0.order, g0.order[i], i);
  }

  lemma SweptParts(g0: Graph, g: Graph, i: nat)
    requires Swept(g0, g, i)
    ensures Weak(g) && ParentsLive(g, i) && i < |g.order| && i < |g0.order| && g.order[..i + 1] == g0.order[..i + 1]
    ensures i > 0 ==> ParentLive(g, i)
  {
    hide Weak;
  }

  lemma SurvivorClear(g0: Graph, g: Graph, i: nat, c: nat, s: nat)
    requires s in g0.shapes && s in g.shapes && c in g.shapes && Survivor(g0, g, i, s) && i > 0
    requires Before(g0.order, s, i + 1) <==> Before(g0.order, s, i) || s == c
    requires s == c ==> !Before(g0.order, s, i) && g.shapes[c].flags == g0.shapes[c].flags
    ensures Survivor(g0, ClearMark(g, c), i - 1, s)
  {
    hide Before, DropMark;
  }

  lemma SweptClear(g0: Graph, g: Graph, i: nat)
    requires Weak(g0) && Swept(g0, g, i) && i > 0
    requires g.order[i] in g.shapes && Marked(g.shapes[g.order[i]].flags)
    ensures Swept(g0, ClearMark(g, g.order[i]), i - 1)
  {
    hide Weak, ParentsLive, Marked, DropMark, Before, Survivor;
    SweptHere(g0, g, i);
    WalkStep(g, i);
    WeakNoDup(g0);
    var c := g.order[i];
    var g' := ClearMark(g, c);
    PrefixShorter(g.order, g0.order, i);
    forall s | s in g0.shapes
      ensures s in g.shapes ==> Survivor(g0, g', i - 1, s)
      ensures s in g.shapes <==> Before(g0.order, s, i) || Marked(g0.shapes[s].flags)
    {
      BeforeStep(g0.order, s, i);
      if s in g.shapes {
        SurvivorClear(g0, g, i, c, s);
      }
    }
  }

  lemma WeakNoDup(g: Graph)
    requires Weak(g)
    ensures NoDup(g.order)
  {
  }

  lemma PrefixShorter(a: seq<nat>, b: seq<nat>, i: nat)
    requires i < |a| && i < |b| && a[..i + 1] == b[..i + 1]
    ensures a[..i] == b[..i]
  {
    assert a[..i] == a[..i + 1][..i] && b[..i] == b[..i + 1][..i];
  }

  lemma SurvivorRemove(g0: Graph, g: Graph, g': Graph, i: nat, c: nat, s: nat)
    requires s in g0.shapes && s in g.shapes && s in g'.shapes && Survivor(g0, g, i, s) && Unlinked(g, g', c, s) && i > 0
    requires g'.shapes.Keys == g.shapes.Keys - {c}
    requires Before(g0.order, s, i + 1) <==> Before(g0.order, s, i) || s == c
    ensures Survivor(g0, g', i - 1, s)
  {
    hide Before, DropMark;
  }

  lemma SweptRemove(g0: Graph, g: Graph, i: nat)
    requires Weak(g0) && Swept(g0, g, i) && i > 0
    requires g.order[i] in g.shapes && !Marked(g.shapes[g.order[i]].flags)
    ensures Swept(g0, Remove(g, i), i - 1)
  {
    hide Weak, ParentsLive, Marked, DropMark, Remove, Before, Survivor, Unlinked, ParentLive;
    SweptParts(g0, g, i);
    SweptHere(g0, g, i);
    WalkStep(g, i);
    RemoveWeak(g, i);
    WeakNoDup(g0);
    var c := g.order[i];
    var g' := Remove(g, i);
    PrefixShorter(g.order, g0.order, i);
    assert g'.order[..i] == g.order[..i];
    forall s | s in g0.shapes
      ensures s in g'.shapes ==> Survivor(g0, g', i - 1, s)
      ensures s in g'.shapes <==> Before(g0.order, s, i) || Marked(g0.shapes[s].flags)
    {
      BeforeStep(g0.order, s, i);
      if s in g'.shapes {
        SurvivorRemove(g0, g, g', i, c, s);
      }
    }
    assert forall s :: s in g'.shapes ==> s in g0.shapes;
  }

  lemma WalkUnfold(g: Graph, i: nat)
    requires Weak(g) && ParentsLive(g, i) && 0 < i < |g.order|
    ensures g.order[i] in g.shapes
    ensures Weak(ClearMark(g, g.order[i])) && ParentsLive(ClearMark(g, g.order[i]), i - 1)
    ensures Weak(Remove(g, i)) && ParentsLive(Remove(g, i), i - 1) && |Remove(g, i).order| == |g.order| - 1
    ensures SweepFrom(g, i) ==
      if Marked(g.shapes[g.order[i]].flags) then SweepFrom(ClearMark(g, g.order[i]), i - 1)
      else (SweepFrom(Remove(g, i), i - 1).0, SweepFrom(Remove(g, i), i - 1).1 + 1)
  {
    hide Weak, ParentsLive, Marked;
    WalkStep(g, i);
    RemovedOne(g, i);
  }

  lemma WalkBase(g: Graph)
    requires Weak(g) && ParentsLive(g, 0)
    ensures |g.order| > 0 && SweepFrom(g, 0) == (g, 0)
  {
  }

  lemma {:induction false} WalkCorrect(g0: Graph, g: Graph, i: nat)
    requires Weak(g0) && Swept(g0, g, i) && Weak(g) && ParentsLive(g, i) && i < |g.order|
    ensures Swept(g0, SweepFrom(g, i).0, 0) && SweepFrom(g, i).1 == |g.order| - |SweepFrom(g, i).0.order|
    decreases i
  {
    hide Swept, Weak, ParentsLive, SweepFrom, Remove, Marked, ClearMark;
    if i == 0 {
      WalkBase(g);
    } else {
      WalkUnfold(g, i);
      ClearOrder(g, g.order[i]);
      if Marked(g.shapes[g.order[i]].flags) {
        SweptClear(g0, g, i);
        WalkCorrect(g0, ClearMark(g, g.order[i]), i - 1);
      } else {
        SweptRemove(g0, g, i);
        WalkCorrect(g0, Remove(g, i), i - 1);
      }
    }
  }

  lemma ClearOrder(g: Graph, c: nat)
    requires c in g.shapes
    ensures ClearMark(g, c).order == g.order && ClearMark(g, c).shapes.Keys == g.shapes.Keys
  {
  }

  lemma RemovedOne(g: Graph, i: nat)
    requires i < |g.order| && g.order[i] in g.shapes
    ensures |Remove(g, i).order| == |g.order| - 1
  {
  }

  // ---- What a sweep achieves ----

  /** The shapes a sweep is to remove: every unmarked one but the root. */
  function Dead(g: Graph): set<nat>
    requires |g.order| > 0
  {
    set s | s in g.shapes && s != g.order[0] && !Marked(g.shapes[s].flags)
  }

  /** The marker has marked the parent of every marked shape. */
  ghost predicate MarksClosed(g: Graph)
    requires |g.order| > 0
  {
    forall s :: s in g.shapes && s != g.order[0] && Marked(g.shapes[s].flags) ==>
      g.shapes[s].parent in g.shapes && g.shapes[s].parent !in Dead(g)
  }

  function Members(s: seq<nat>): set<nat> {
    set x | x in s
  }

  lemma {:induction false} CountDistinct(s: seq<nat>)
    requires NoDup(s)
    ensures |Members(s)| == |s|
  {
    if s != [] {
      var t := s[1..];
      CountDistinct(t);
      assert s[0] !in Members(t);
      assert Members(s) == {s[0]} + Members(t);
    }
  }

  lemma SweptInit(g: Graph)
    requires Inv(g)
    ensures |g.order| > 0 && Swept(g, g, |g.order| - 1)
  {
    forall s | s in g.shapes
      ensures Survivor(g, g, |g.order| - 1, s) && Before(g.order, s, |g.order|)
    {
      var j :| 0 <= j < |g.order| && g.order[j] == s;
      assert TableOk(g.shapes, s);
      forall e | e in g.shapes[s].table
        ensures e.target in g.shapes
      {
        var k :| 0 <= k < |g.shapes[s].table| && g.shapes[s].table[k] == e;
        assert EntryOk(g.shapes, s, g.shapes[s].table[k]);
      }
    }
  }

  /** A sweep removes exactly the unmarked non-root shapes, returns their number, clears the mark of every
      other shape but the root, and leaves list, tables and last-allocated pointer without any removed
      shape; no transition between survivors is lost. */
  lemma SweepCorrect(g: Graph, r: Graph, n: nat)
    requires Inv(g) && |g.order| > 0 && SweepFrom(g, |g.order| - 1) == (r, n)
    ensures Weak(r) && r.order[0] == g.order[0]
    ensures r.shapes.Keys == g.shapes.Keys - Dead(g) && n == |Dead(g)|
    ensures forall s :: s in r.shapes ==> Survivor(g, r, 0, s) && (Before(g.order, s, 1) <==> s == g.order[0])
  {
    hide Weak, ParentsLive, Survivor, SweepFrom, Inv, Swept, Dead, Before;
    SweptInit(g);
    SweptParts(g, g, |g.order| - 1);
    WellWeak(g);
    WalkCorrect(g, g, |g.order| - 1);
    SweptParts(g, r, 0);
    assert r.order[..1][0] == g.order[..1][0];
    SweptKeys(g, r);
    ListSize(g);
    ListSize(r);
    DeadCount(g);
  }

  lemma WellWeak(g: Graph)
    requires Inv(g)
    ensures Weak(g)
  {
  }

  lemma DeadCount(g: Graph)
    requires |g.order| > 0
    ensures |g.shapes.Keys - Dead(g)| == |g.shapes.Keys| - |Dead(g)|
  {
    assert Dead(g) <= g.shapes.Keys;
    assert g.shapes.Keys == (g.shapes.Keys - Dead(g)) + Dead(g);
  }

  lemma SweptKeys(g: Graph, r: Graph)
    requires Swept(g, r, 0)
    ensures r.shapes.Keys == g.shapes.Keys - Dead(g)
    ensures forall s :: s in r.shapes ==> s in g.shapes && Survivor(g, r, 0, s) && (Before(g.order, s, 1) <==> s == g.order[0])
  {
    hide Weak, ParentsLive, Survivor;
    forall s
      ensures Before(g.order, s, 1) <==> s == g.order[0]
    {
    }
  }

  lemma ListSize(g: Graph)
    requires Weak(g)
    ensures |g.shapes.Keys| == |g.order|
  {
    CountDistinct(g.order);
    forall x | x in g.order
      ensures x in g.shapes
    {
      var j :| 0 <= j < |g.order| && g.order[j] == x;
      assert LinkedAt(g, j);
    }
    assert g.shapes.Keys == Members(g.order);
  }

  /** After a sweep every parent pointer leads to a live shape, so the graph is well-formed again, iff the
      marks were closed under parents. */
  lemma SweepWellFormedIff(g: Graph, r: Graph, n: nat)
    requires Inv(g) && |g.order| > 0 && SweepFrom(g, |g.order| - 1) == (r, n)
    ensures Inv(r) <==> MarksClosed(g)
  {
    SweepCorrect(g, r, n);
    hide Weak;
    if MarksClosed(g) {
      forall i | 0 < i < |r.order|
        ensures ParentLive(r, i)
      {
        NonRoot(r, i);
        var s := r.order[i];
        assert Survivor(g, r, 0, s);
        assert s !in Dead(g);
      }
    }
    if Inv(r) {
      forall s | s in g.shapes && s != g.order[0] && Marked(g.shapes[s].flags)
        ensures g.shapes[s].parent in g.shapes && g.shapes[s].parent !in Dead(g)
      {
        assert s in r.shapes;
        assert Survivor(g, r, 0, s);
        var i := Position(r, s);
        assert ParentLive(r, i);
      }
    }
  }

  lemma NonRoot(g: Graph, i: nat)
    requires Weak(g) && 0 < i < |g.order|
    ensures g.order[i] in g.shapes && g.order[i] != g.order[0]
  {
    assert LinkedAt(g, i);
  }

  lemma Position(g: Graph, s: nat) returns (i: nat)
    requires Weak(g) && s in g.shapes
    ensures i < |g.order| && g.order[i] == s
  {
    i :| 0 <= i < |g.order| && g.order[i] == s;
  }

  /** Sweeping never breaks canonicity. */
  lemma SweepCanonical(g: Graph, r: Graph, n: nat)
    requires Inv(g) && |g.order| > 0 && SweepFrom(g, |g.order| - 1) == (r, n) && Canonical(g)
    ensures Canonical(r)
  {
    SweepCorrect(g, r, n);
    forall p | p in r.shapes
      ensures CanonicalAt(r.shapes, p)
    {
      assert Survivor(g, r, 0, p) && TableOk(r.shapes, p) && CanonicalAt(g.shapes, p);
      assert forall s :: s in r.shapes ==> s in g.shapes && SameBody(g.shapes[s], r.shapes[s]) by {
        forall s | s in r.shapes
          ensures s in g.shapes && SameBody(g.shapes[s], r.shapes[s])
        {
          assert Survivor(g, r, 0, s);
        }
      }
      SubTableCanonical(g.shapes, r.shapes, p);
    }
  }

  lemma SubTableCanonical(sh: Shapes, sh': Shapes, p: nat)
    requires p in sh && p in sh' && CanonicalAt(sh, p) && TableOk(sh', p)
    requires forall e :: e in sh'[p].table ==> e in sh[p].table
    requires forall s :: s in sh' ==> s in sh && SameBody(sh[s], sh'[s])
    ensures CanonicalAt(sh', p)
  {
    var t, t' := sh[p].table, sh'[p].table;
    forall e, f | 0 <= e < f < |t'|
      ensures KeysDiffer(sh', t'[e], t'[f])
    {
      assert Targets(t', e, f) && EntryOk(sh', p, t'[e]) && EntryOk(sh', p, t'[f]);
      assert t'[e] in t && t'[f] in t;
      var i :| 0 <= i < |t| && t[i] == t'[e];
      var j :| 0 <= j < |t| && t[j] == t'[f];
      assert i < j ==> KeysDiffer(sh, t[i], t[j]);
      assert j < i ==> KeysDiffer(sh, t[j], t[i]);
    }
  }
}
