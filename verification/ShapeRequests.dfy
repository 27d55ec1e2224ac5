/** What a request for a transition means in numbers: attribute bits, stored slots, capacities, sizes. */
module ShapeRequests {
  import opened ShapeSpace
  import opened ShapeGrowth
  import opened ShapeTheorems
  import opened ShapeMemory
  import opened Ledger
  import MetaSpace

  // ---- Attribute bits ----

  /** Bit 0 for read-only, bit 1 for hidden, bit 2 for a getter, bit 3 for a setter, and no other bit. */
  predicate RequestBits(attrs: bv16, isReadonly: bool, isHidden: bool, isGetter: bool, isSetter: bool) {
    && (attrs & 0x01 != 0 <==> isReadonly) && (attrs & 0x02 != 0 <==> isHidden)
    && (attrs & 0x04 != 0 <==> isGetter) && (attrs & 0x08 != 0 <==> isSetter)
    && attrs & 0xFFF0 == 0
  }

  lemma AttributeBits(isReadonly: bool, isHidden: bool, isGetter: bool, isSetter: bool)
    ensures RequestBits(Attributes(isReadonly, isHidden, isGetter, isSetter), isReadonly, isHidden, isGetter, isSetter)
  {
    if isReadonly {
      AttributeBitsFrom(0x01, isHidden, isGetter, isSetter);
    } else {
      AttributeBitsFrom(0x00, isHidden, isGetter, isSetter);
    }
  }

  lemma AttributeBitsFrom(a1: bv16, isHidden: bool, isGetter: bool, isSetter: bool)
    requires a1 <= 0x01
    ensures var a2 := if isHidden then a1 | HIDDEN else a1;
      var a3 := if isGetter then a2 | IS_GETTER else a2;
      var a4 := if isSetter then a3 | IS_SETTER else a3;
      RequestBits(a4, a1 == 0x01, isHidden, isGetter, isSetter)
  {
    if isHidden {
      if isGetter {
        if isSetter {} else {}
      } else {
        if isSetter {} else {}
      }
    } else {
      if isGetter {
        if isSetter {} else {}
      } else {
        if isSetter {} else {}
      }
    }
  }

  /** Requests that differ in a flag ask for different attributes. */
  lemma FlagsTellAttributes(r: bool, h: bool, g: bool, s: bool, r': bool, h': bool, g': bool, s': bool)
    ensures Attributes(r, h, g, s) == Attributes(r', h', g', s') <==> r == r' && h == h' && g == g' && s == s'
  {
    hide Attributes;
    AttributeBits(r, h, g, s);
    AttributeBits(r', h', g', s');
  }

  lemma MarkLiteral(flags: bv16)
    ensures Marked(flags) <==> flags & 0x01 != 0
    ensures SetMark(flags) == flags | 0x01
  {
  }

  lemma DropMarkLiteral(flags: bv16)
    ensures DropMark(flags) == flags & 0xFFFE
  {
  }

  lemma AccessorsLiteral(flags: bv16)
    ensures Accessors(flags) <==> flags & 0x02 != 0
  {
  }

  /** The mark is bit 0, and marking and unmarking touch it alone; the accessor flag is bit 1. */
  lemma ShapeBits(flags: bv16)
    ensures Marked(flags) <==> flags & 0x01 != 0
    ensures SetMark(flags) == flags | 0x01 && DropMark(flags) == flags & 0xFFFE
    ensures Accessors(flags) <==> flags & 0x02 != 0
  {
    hide Marked, SetMark, DropMark, Accessors;
    MarkLiteral(flags);
    DropMarkLiteral(flags);
    AccessorsLiteral(flags);
  }

  /** The version stands above four flag bits. */
  lemma EpochLiteral(version: bv16, low: bv16)
    requires version < 4096 && low < 16
    ensures Epoch((version << 4) | low) == version
  {
  }

  // ---- What a creation stores ----

  /** The last descriptor has that name and exactly those attribute bits. */
  predicate AnswersRequest(props: seq<Desc>, atom: nat, isReadonly: bool, isHidden: bool, isGetter: bool, isSetter: bool) {
    && |props| > 0 && props[|props| - 1].name == atom
    && RequestBits(props[|props| - 1].attrs, isReadonly, isHidden, isGetter, isSetter)
  }

  /** `c` is `p` and one more descriptor with the name, slot and attributes asked for, or nothing but zeros
      for a zero atom; and the slot is what a lookup of a new name answers. */
  ghost predicate StoresRequest(p: seq<Desc>, c: seq<Desc>, atom: nat, offset: nat, attrs: bv16) {
    && |c| == |p| + 1 && c[..|p|] == p && c[|p|].name == atom
    && (atom != 0 ==> c[|p|].offset == offset && c[|p|].attrs == attrs)
    && (atom == 0 ==> c[|p|].offset == 0 && c[|p|].attrs == 0)
    && (atom != 0 && (forall i :: 0 <= i < |p| ==> p[i].name != atom) ==> FindPropertyOffset(c, atom) == offset)
  }

  /** The shape with properties `c` answers a request made at one with properties `p`; a new one also stores
      the slot. */
  ghost predicate Answered(p: seq<Desc>, c: seq<Desc>, isNew: bool, atom: nat, offset: nat, r: bool, h: bool, g: bool, s: bool) {
    AnswersRequest(c, atom, r, h, g, s) && (isNew ==> StoresRequest(p, c, atom, offset, c[|c| - 1].attrs))
  }

  lemma StoredAnswers(p: seq<Desc>, c: seq<Desc>, atom: nat, offset: nat, attrs: bv16, r: bool, h: bool, g: bool, s: bool)
    requires atom != 0 && StoresRequest(p, c, atom, offset, attrs) && RequestBits(attrs, r, h, g, s)
    ensures Answered(p, c, true, atom, offset, r, h, g, s)
  {
    hide RequestBits, FindPropertyOffset;
  }

  lemma IsNew(g: Graph, cur: nat, child: nat, propArray: nat, newTable: nat)
    requires CanCreate(g, cur, child, propArray, newTable)
    ensures child !in g.shapes
  {
  }

  lemma FoundAnswers(g: Graph, cur: nat, i: nat, atom: nat, attrs: bv16, offset: nat, r: bool, h: bool, ge: bool, s: bool)
    requires Inv(g) && cur in g.shapes && i < |g.shapes[cur].table| && Matches(g.shapes, g.shapes[cur].table[i], atom, attrs)
    requires RequestBits(attrs, r, h, ge, s)
    ensures g.shapes[cur].table[i].target in g.shapes
    ensures Answered(g.shapes[cur].props, g.shapes[g.shapes[cur].table[i].target].props, false, atom, offset, r, h, ge, s)
  {
    assert EntryOk(g.shapes, cur, g.shapes[cur].table[i]);
    hide RequestBits;
  }

  lemma CreatedDescriptor(g: Graph, cur: nat, atom: nat, offset: nat, attrs: bv16, child: nat, propArray: nat, newTable: nat)
    requires CanCreate(g, cur, child, propArray, newTable)
    ensures g.last in g.shapes && cur in g.shapes
    ensures var g' := Create(g, cur, atom, offset, attrs, child, propArray, newTable);
      child in g'.shapes && StoresRequest(g.shapes[cur].props, g'.shapes[child].props, atom, offset, attrs)
  {
    LastInList(g);
    CreateShapes(g, cur, atom, offset, attrs, child, propArray, newTable);
    hide Create, Overflows;
    var p := g.shapes[cur].props;
    var d := MakeProperty(atom, offset, attrs);
    var c := p + [d];
    hide CanCreate;
    assert c[|p|] == d && c[..|p|] == p;
    if atom != 0 && forall i :: 0 <= i < |p| ==> p[i].name != atom {
      assert forall i :: 0 <= i < |p| ==> c[i].name != atom;
    }
  }

  /** The child's flags are the accessor flag or nothing. */
  lemma CreatedFlags(g: Graph, cur: nat, atom: nat, offset: nat, attrs: bv16, child: nat, propArray: nat, newTable: nat)
    requires CanCreate(g, cur, child, propArray, newTable)
    ensures g.last in g.shapes && cur in g.shapes
    ensures var g' := Create(g, cur, atom, offset, attrs, child, propArray, newTable);
      && child in g'.shapes
      && var s := g'.shapes[child];
        s.flags == if (exists i :: 0 <= i < |s.props| && HasAccessor(s.props[i].attrs)) then 0x02 else 0x00
  {
    LastInList(g);
    CreateInv(g, cur, atom, offset, attrs, child, propArray, newTable);
    CreateShapes(g, cur, atom, offset, attrs, child, propArray, newTable);
    var g' := Create(g, cur, atom, offset, attrs, child, propArray, newTable);
    FlagTellsAccessors(g', child);
    hide Create, CanCreate, Inv, MakeProperty;
    ChildFlagValues(g.shapes[cur].flags, MakeProperty(atom, offset, attrs).attrs);
    var s := g'.shapes[child];
    forall i | 0 <= i < |s.props|
      ensures IsAccessor(s.props[i].attrs) <==> HasAccessor(s.props[i].attrs)
    {
      AccessorLiteral(s.props[i].attrs);
    }
  }

  /** A getter or a setter: bit 2 or bit 3. */
  predicate HasAccessor(attrs: bv16) {
    attrs & 0x0C != 0
  }

  lemma AccessorLiteral(attrs: bv16)
    ensures IsAccessor(attrs) <==> HasAccessor(attrs)
  {
  }

  lemma ChildFlagValues(flags: bv16, attrs: bv16)
    ensures ChildFlags(flags, attrs) == 0x00 || ChildFlags(flags, attrs) == 0x02
    ensures Accessors(ChildFlags(flags, attrs)) <==> ChildFlags(flags, attrs) == 0x02
  {
  }

  // ---- Capacities and sizes ----

  /** A table grows to 2, doubles up to 32 entries and gains four from there on. */
  lemma Capacities()
    ensures NextCapacity(0) == 2 && NextCapacity(2) == 4 && NextCapacity(4) == 8 && NextCapacity(8) == 16
    ensures NextCapacity(16) == 32 && NextCapacity(32) == 36
    ensures forall c: nat :: c >= 32 ==> NextCapacity(c) == c + 4
  {
  }

  /** 65535 properties, or a full table of 65532 entries or more. */
  predicate AtTheLimit(s: Shape) {
    |s.props| == 65535 || (|s.table| == s.capacity && s.capacity >= 65532)
  }

  /** The panic in numbers. */
  lemma OverflowsIff(g: Graph, cur: nat)
    requires Inv(g) && cur in g.shapes
    ensures Overflows(g.shapes[cur]) <==> AtTheLimit(g.shapes[cur])
  {
    assert LocalOk(g.shapes[cur]);
    hide Inv;
  }

  /** A live shape holds 64 bytes for itself, eight for every descriptor, rounded up to sixteens, and
      sixteen for every entry its table has room for. */
  lemma BlockSizes(foot: Foot, sh: Shapes, outs: map<nat, nat>, c: nat)
    requires FootOk(foot, sh) && Tally(foot, outs) && c in sh
    ensures var s := sh[c];
      && c in outs && outs[c] == 64
      && (|s.props| > 0 ==> s.propArray in outs && outs[s.propArray] % 16 == 0
                            && 8 * |s.props| <= outs[s.propArray] < 8 * |s.props| + 16)
      && (s.capacity > 0 ==> s.tablePtr in outs && outs[s.tablePtr] == 16 * s.capacity)
  {
    assert FootAt(foot, sh, OfShape(c)) && FootAt(foot, sh, OfProps(c)) && FootAt(foot, sh, OfTable(c));
    assert OfShape(c) in foot;
    assert forall o :: o in foot ==> PieceOut(foot, outs, o);
    hide FootOk, Tally;
    RoundedSizes(|sh[c].props|, sh[c].capacity);
    hide MetaSpace.AlignSize;
  }

  lemma RoundedSizes(properties: nat, capacity: nat)
    ensures MetaSpace.AlignSize(SHAPE_SIZE) == 64
    ensures properties > 0 ==> var r := MetaSpace.AlignSize(DESCRIPTOR_SIZE * properties);
      r % 16 == 0 && 8 * properties <= r < 8 * properties + 16
    ensures capacity > 0 ==> MetaSpace.AlignSize(ENTRY_SIZE * capacity) == 16 * capacity
  {
  }
}
