/** The shape graph as a value: shapes by address, the creation list, and the operations on both. */
module ShapeSpace {
  import opened Lists

  const READONLY: bv16 := 0x01
  const HIDDEN: bv16 := 0x02
  const IS_GETTER: bv16 := 0x04
  const IS_SETTER: bv16 := 0x08

  const IS_MARKED_ALIVE: bv16 := 0x01
  const HAS_ACCESSORS: bv16 := 0x02

  const UINT16_MAX: nat := 65535
  const NULL: nat := 0

  datatype Desc = Desc(name: nat, offset: nat, attrs: bv16)

  datatype Entry = Entry(target: nat, atom: nat)

  /** `props` and `table` are the filled parts of the property array and of the transition table;
      `propArray` and `tablePtr` are the addresses of their blocks. */
  datatype Shape = Shape(parent: nat, next: nat, prev: nat, flags: bv16,
                         props: seq<Desc>, propArray: nat,
                         table: seq<Entry>, capacity: nat, tablePtr: nat)

  type Shapes = map<nat, Shape>

  /** `order` is the creation list from the root on; `last` the arena's last-allocated pointer. */
  datatype Graph = Graph(shapes: Shapes, order: seq<nat>, last: nat)

  function Last<T>(s: seq<T>): T
    requires |s| > 0
  {
    s[|s| - 1]
  }

  // ---- Flags ----

  predicate Marked(flags: bv16) {
    flags & IS_MARKED_ALIVE != 0
  }

  function SetMark(flags: bv16): bv16 {
    flags | IS_MARKED_ALIVE
  }

  function DropMark(flags: bv16): bv16 {
    flags & !IS_MARKED_ALIVE
  }

  predicate Accessors(flags: bv16) {
    flags & HAS_ACCESSORS != 0
  }

  predicate IsAccessor(attrs: bv16) {
    attrs & IS_GETTER != 0 || attrs & IS_SETTER != 0
  }

  function Attributes(isReadonly: bool, isHidden: bool, isGetter: bool, isSetter: bool): bv16 {
    var a0: bv16 := 0;
    var a1 := if isReadonly then a0 | READONLY else a0;
    var a2 := if isHidden then a1 | HIDDEN else a1;
    var a3 := if isGetter then a2 | IS_GETTER else a2;
    if isSetter then a3 | IS_SETTER else a3
  }

  function ChildFlags(parentFlags: bv16, attrs: bv16): bv16 {
    if IsAccessor(attrs) || Accessors(parentFlags) then HAS_ACCESSORS else 0
  }

  /** Version bits, as the inline cache reads them. */
  function Epoch(flags: bv16): bv16 {
    flags >> 4
  }

  // ---- Lookups ----

  /** First descriptor of that name; the number of descriptors when there is none. */
  function PropertyIndex(props: seq<Desc>, name: nat): (i: nat)
    ensures i <= |props|
    ensures forall j :: 0 <= j < i ==> props[j].name != name
    ensures i < |props| ==> props[i].name == name
  {
    if props == [] || props[0].name == name then 0 else 1 + PropertyIndex(props[1..], name)
  }

  function FindPropertyOffset(props: seq<Desc>, name: nat): nat {
    var i := PropertyIndex(props, name);
    if i < |props| then props[i].offset else UINT16_MAX
  }

  /** Does this entry lead to a shape whose last descriptor has that name and those attributes? */
  predicate Matches(sh: Shapes, e: Entry, atom: nat, attrs: bv16) {
    e.target in sh && e.atom == atom && |sh[e.target].props| > 0 && Last(sh[e.target].props).attrs == attrs
  }

  /** First matching entry of the table; its length when there is none. */
  function FindTransition(sh: Shapes, table: seq<Entry>, atom: nat, attrs: bv16): (i: nat)
    ensures i <= |table|
    ensures forall j :: 0 <= j < i ==> !Matches(sh, table[j], atom, attrs)
    ensures i < |table| ==> Matches(sh, table[i], atom, attrs)
  {
    if table == [] || Matches(sh, table[0], atom, attrs) then 0
    else 1 + FindTransition(sh, table[1..], atom, attrs)
  }

  /** First entry with that target. */
  function IndexOf(table: seq<Entry>, target: nat): (i: nat)
    ensures i <= |table|
    ensures forall j :: 0 <= j < i ==> table[j].target != target
    ensures i < |table| ==> table[i].target == target
  {
    if table == [] || table[0].target == target then 0 else 1 + IndexOf(table[1..], target)
  }

  // ---- Growth ----

  function NextCapacity(capacity: nat): nat {
    if capacity == 0 then 2 else if capacity < 32 then capacity * 2 else capacity + 4
  }

  predicate NeedsTable(s: Shape) {
    |s.table| + 1 > s.capacity
  }

  predicate TableOverflows(s: Shape) {
    NeedsTable(s) && |s.table| > 0 && NextCapacity(s.capacity) > UINT16_MAX
  }

  /** Creation ends in a panic: the table or the property count would outgrow 16 bits. */
  predicate Overflows(s: Shape) {
    TableOverflows(s) || |s.props| == UINT16_MAX
  }

  /** A zero atom yields the empty descriptor, whatever else was asked for. */
  function MakeProperty(atom: nat, offset: nat, attrs: bv16): Desc {
    if atom == 0 then Desc(0, 0, 0) else Desc(atom, offset, attrs)
  }

  function GrowTable(s: Shape, newTable: nat): Shape {
    if NeedsTable(s) then s.(capacity := if |s.table| == 0 then 2 else NextCapacity(s.capacity), tablePtr := newTable) else s
  }

  /** The shape without properties, marked. */
  function Root(): Shape {
    Shape(NULL, NULL, NULL, IS_MARKED_ALIVE, [], NULL, [], 0, NULL)
  }

  function NewShape(cur: nat, s: Shape, prev: nat, d: Desc, propArray: nat): Shape {
    Shape(cur, NULL, prev, ChildFlags(s.flags, d.attrs), s.props + [d], propArray, [], 0, NULL)
  }

  /** The three addresses are those of the blocks obtained for the child, its property array and,
      if the table must grow, the new table. */
  function Create(g: Graph, cur: nat, atom: nat, offset: nat, attrs: bv16, child: nat, propArray: nat, newTable: nat): Graph
    requires cur in g.shapes && g.last in g.shapes
  {
    var s := g.shapes[cur];
    var d := MakeProperty(atom, offset, attrs);
    var sh1 := g.shapes[cur := GrowTable(s, newTable)];
    var sh2 := sh1[g.last := sh1[g.last].(next := child)];
    var sh3 := sh2[child := NewShape(cur, s, g.last, d, propArray)];
    var sh4 := if cur in sh3 then sh3[cur := sh3[cur].(table := sh3[cur].table + [Entry(child, atom)])] else sh3;
    Graph(sh4, g.order + [child], child)
  }

  function Mark(g: Graph, s: nat): Graph {
    if s in g.shapes then g.(shapes := g.shapes[s := g.shapes[s].(flags := SetMark(g.shapes[s].flags))]) else g
  }

  // ---- Removal and sweep ----

  function SwapRemove(table: seq<Entry>, i: nat): seq<Entry>
    requires i < |table|
  {
    table[i := Last(table)][..|table| - 1]
  }

  /** The neighbours in the creation list are linked to each other, and the parent's table loses `c`. */
  function Detach(sh: Shapes, c: nat): Shapes
    requires c in sh
  {
    var s := sh[c];
    var sh1 := if s.next in sh then sh[s.next := sh[s.next].(prev := s.prev)] else sh;
    var sh2 := if s.prev in sh1 then sh1[s.prev := sh1[s.prev].(next := s.next)] else sh1;
    if s.parent in sh2 && IndexOf(sh2[s.parent].table, c) < |sh2[s.parent].table| then
      sh2[s.parent := sh2[s.parent].(table := SwapRemove(sh2[s.parent].table, IndexOf(sh2[s.parent].table, c)))]
    else sh2
  }

  function Unlink(sh: Shapes, c: nat): Shapes
    requires c in sh
  {
    Detach(sh, c) - {c}
  }

  function Remove(g: Graph, i: nat): Graph
    requires i < |g.order| && g.order[i] in g.shapes
  {
    var c := g.order[i];
    Graph(Unlink(g.shapes, c), g.order[..i] + g.order[i + 1..], if g.last == c then g.shapes[c].prev else g.last)
  }

  function ClearMark(g: Graph, s: nat): Graph
    requires s in g.shapes
  {
    g.(shapes := g.shapes[s := g.shapes[s].(flags := DropMark(g.shapes[s].flags))])
  }

  // ---- The invariant ----

  predicate LinkedAt(g: Graph, i: nat)
    requires i < |g.order|
  {
    && g.order[i] in g.shapes && g.order[i] != NULL
    && g.shapes[g.order[i]].prev == (if i > 0 then g.order[i - 1] else NULL)
    && g.shapes[g.order[i]].next == (if i + 1 < |g.order| then g.order[i + 1] else NULL)
  }

  /** The creation list is a doubly linked list of exactly the live shapes, each once. */
  ghost predicate ListOk(g: Graph) {
    && |g.order| > 0 && NoDup(g.order) && g.last == Last(g.order)
    && (forall i :: 0 <= i < |g.order| ==> LinkedAt(g, i))
    && (forall s :: s in g.shapes ==> s in g.order)
  }

  ghost predicate Before(order: seq<nat>, p: nat, i: nat) {
    exists j :: 0 <= j < i && j < |order| && order[j] == p
  }

  predicate HasEntry(table: seq<Entry>, c: nat) {
    exists e :: 0 <= e < |table| && table[e].target == c
  }

  /** `c` extends its parent by one descriptor and is in the parent's table. */
  ghost predicate ChildOf(sh: Shapes, p: nat, c: nat)
    requires p in sh && c in sh
  {
    && |sh[c].props| > 0 && sh[c].props == sh[p].props + [Last(sh[c].props)]
    && HasEntry(sh[p].table, c)
  }

  /** The root has no parent and no properties; a live parent stands earlier in the list. */
  ghost predicate TreeAt(g: Graph, i: nat)
    requires i < |g.order|
  {
    g.order[i] in g.shapes &&
    var c := g.order[i];
    var p := g.shapes[c].parent;
    if i == 0 then p == NULL && g.shapes[c].props == []
    else p != NULL && |g.shapes[c].props| > 0 && (p in g.shapes ==> ChildOf(g.shapes, p, c) && Before(g.order, p, i))
  }

  predicate EntryOk(sh: Shapes, p: nat, e: Entry) {
    e.target in sh && sh[e.target].parent == p && |sh[e.target].props| > 0 && Last(sh[e.target].props).name == e.atom
  }

  predicate Targets(table: seq<Entry>, e: nat, f: nat)
    requires e < |table| && f < |table|
  {
    table[e].target != table[f].target
  }

  ghost predicate TableOk(sh: Shapes, p: nat)
    requires p in sh
  {
    && (forall e :: 0 <= e < |sh[p].table| ==> EntryOk(sh, p, sh[p].table[e]))
    && (forall e, f :: 0 <= e < f < |sh[p].table| ==> Targets(sh[p].table, e, f))
  }

  /** What holds of a shape by itself. */
  ghost predicate LocalOk(s: Shape) {
    && |s.table| <= s.capacity <= UINT16_MAX && |s.props| <= UINT16_MAX
    && (s.capacity == 0 <==> s.tablePtr == NULL) && (|s.props| == 0 <==> s.propArray == NULL)
    && (Accessors(s.flags) <==> exists i :: 0 <= i < |s.props| && IsAccessor(s.props[i].attrs))
  }

  /** Everything but the liveness of parents. */
  ghost predicate Weak(g: Graph) {
    && ListOk(g)
    && (forall i :: 0 <= i < |g.order| ==> TreeAt(g, i))
    && (forall p :: p in g.shapes ==> TableOk(g.shapes, p) && LocalOk(g.shapes[p]))
  }

  predicate ParentLive(g: Graph, i: nat)
    requires i < |g.order|
  {
    g.order[i] in g.shapes && g.shapes[g.order[i]].parent in g.shapes
  }

  ghost predicate ParentsLive(g: Graph, k: nat) {
    forall i :: 0 < i <= k && i < |g.order| ==> ParentLive(g, i)
  }

  ghost predicate Inv(g: Graph) {
    Weak(g) && ParentsLive(g, |g.order|)
  }

  /** No two transitions of a shape agree on name and attributes. */
  predicate KeysDiffer(sh: Shapes, e: Entry, f: Entry) {
    e.target in sh && f.target in sh && |sh[e.target].props| > 0 && |sh[f.target].props| > 0 ==>
      e.atom != f.atom || Last(sh[e.target].props).attrs != Last(sh[f.target].props).attrs
  }

  ghost predicate CanonicalAt(sh: Shapes, p: nat)
    requires p in sh
  {
    forall e, f :: 0 <= e < f < |sh[p].table| ==> KeysDiffer(sh, sh[p].table[e], sh[p].table[f])
  }

  ghost predicate Canonical(g: Graph) {
    forall p :: p in g.shapes ==> CanonicalAt(g.shapes, p)
  }
}
