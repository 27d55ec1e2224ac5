/** Interning is a bijection between live slots and live texts, over every run. */
module RegistryTheorems {
  import opened Options
  import opened AtomText
  import opened AtomIds
  import opened RegistrySpace

  // ---- The hash ----

  /** One character more is one step more: the hash is taken over the text from first to last. */
  lemma {:induction false} HashSnoc(hash: bv64, s: seq<Byte>, c: Byte)
    ensures HashFrom(hash, s + [c]) == Mix(HashFrom(hash, s), c)
    decreases s
  {
    hide Mix;
    if s == [] {
      assert ([] + [c])[1..] == [];
    } else {
      assert (s + [c])[0] == s[0] && (s + [c])[1..] == s[1..] + [c];
      HashSnoc(Mix(hash, s[0]), s[1..], c);
    }
  }

  /** Known values: FNV-1a of the empty text, of "a" and of "ab", and of one byte with its top bit set,
      which widens to a negative number. */
  lemma HashSamples()
    ensures HashString([]) == 0xcbf2_9ce4_8422_2325
    ensures HashString([97]) == 0xaf63_dc4c_8601_ec8c
    ensures HashString([97, 98]) == 0x089c_4407_b545_986a
    ensures HashString([128]) == 0x509c_0cb3_79fd_ec5f
  {
    assert [97][1..] == [] && [128][1..] == [] && [97, 98][1..] == [98] && [98][1..] == [];
  }

  // ---- Lookup ----

  /** The search answers exactly the slot that holds the text: equal hashes never merge two texts. */
  lemma FindExact(r: Registry, text: seq<Byte>, i: nat)
    requires Inv(r)
    ensures Find(r, text) == Some(i) <==> Holds(r, i, text)
  {
    hide HashString;
    if Holds(r, i, text) {
      assert i < r.count && Matches(r.slots[i], text);
      var f := Find(r, text);
      assert f.Some? && r.slots[f.value].text == text;
    }
  }

  lemma FindNone(r: Registry, text: seq<Byte>)
    requires Inv(r)
    ensures Find(r, text).None? <==> forall i :: 0 <= i < |r.slots| ==> !Holds(r, i, text)
  {
    hide HashString, Find;
    forall i | 0 <= i < |r.slots|
      ensures Find(r, text) == Some(i) <==> Holds(r, i, text)
    {
      FindExact(r, text, i);
    }
    if Find(r, text).Some? {
      FindBound(r, text);
    }
  }

  lemma FindBound(r: Registry, text: seq<Byte>)
    requires Fresh(r) && Find(r, text).Some?
    ensures Find(r, text).value < |r.slots|
  {
  }

  // ---- Interning ----

  lemma EmptyInv(max: nat)
    ensures Inv(Empty(max)) && Table(Empty(max)) == map[]
  {
  }

  /** A length was given, or there is nothing to give a length of. */
  predicate Measured(raw: seq<Byte>, length: nat) {
    length > 0 || Terminated(raw) == []
  }

  lemma MeasuredSought(raw: seq<Byte>, length: nat)
    requires length <= |raw|
    ensures Sought(raw, length) == raw[..length] <==> Measured(raw, length)
  {
  }

  lemma StaridizeInv(r: Registry, raw: seq<Byte>, length: nat, r': Registry, i: nat)
    requires Inv(r) && length <= |raw| && Measured(raw, length)
    requires Staridize(r, raw, length) == Some((r', i))
    ensures Inv(r') && |r'.slots| == |r.slots|
    ensures Holds(r', i, raw[..length])
    ensures Table(r') == Table(r)[i := raw[..length]]
    ensures i in Table(r) <==> exists j :: 0 <= j < |r.slots| && Holds(r, j, raw[..length])
    ensures forall j :: 0 <= j < |r.slots| && j != i ==> r'.slots[j] == r.slots[j]
    ensures i !in Table(r) ==> (forall j :: 0 <= j < i ==> r.slots[j].used) && !r'.slots[i].mark
    ensures r'.count == if i in Table(r) || i < r.count then r.count else i + 1
  {
    hide HashString, Find;
    MeasuredSought(raw, length);
    FindNone(r, raw[..length]);
    if Find(r, raw[..length]).Some? {
      FindBound(r, raw[..length]);
      FindExact(r, raw[..length], i);
    } else {
      assert forall j :: 0 <= j < |r.slots| ==> !Holds(r, j, raw[..length]);
      FillInv(r, i, raw[..length]);
    }
  }

  lemma FillInv(r: Registry, i: nat, text: seq<Byte>)
    requires Inv(r) && i < |r.slots| && !r.slots[i].used
    requires forall j :: 0 <= j < |r.slots| ==> !Holds(r, j, text)
    ensures Inv(Fill(r, i, text)) && Table(Fill(r, i, text)) == Table(r)[i := text]
  {
    hide HashString;
    var r' := Fill(r, i, text);
    forall j, k | 0 <= j < k < |r'.slots| && r'.slots[j].used && r'.slots[k].used
      ensures r'.slots[j].text != r'.slots[k].text
    {
      assert !Holds(r, j, text) && !Holds(r, k, text);
    }
  }

  /** The slot answered holds the text looked up iff it was found or its length was given. */
  lemma StaridizeHoldsIff(r: Registry, raw: seq<Byte>, length: nat, r': Registry, i: nat)
    requires Inv(r) && length <= |raw|
    requires Staridize(r, raw, length) == Some((r', i))
    ensures Holds(r', i, Sought(raw, length)) <==> Measured(raw, length) || Find(r, Sought(raw, length)).Some?
  {
    hide HashString, Find;
    MeasuredSought(raw, length);
    if Find(r, Sought(raw, length)).Some? {
      FindExact(r, Sought(raw, length), i);
    }
  }

  /** One character without a length, into an empty table: the empty text is stored, and the character
      is not found. */
  lemma UnmeasuredStoresEmpty(c: Byte, max: nat)
    requires c != 0 && max > 0
    ensures Staridize(Empty(max), [c], 0).Some?
    ensures var (r, i) := Staridize(Empty(max), [c], 0).value;
      Inv(r) && Holds(r, i, []) && Sought([c], 0) == [c] && Find(r, [c]).None?
  {
    hide HashString;
    assert Terminated([c]) == [c] by { assert [c][1..] == []; }
    var r0 := Empty(max);
    assert Find(r0, [c]).None? && FirstFree(r0, 0) == 0;
    assert [c][..0] == [];
    var r := Fill(r0, 0, []);
    assert FindFrom(r, [c], 1).None?;
  }

  /** Interning keeps the registry intact iff a length was given, or the text was found, or the empty text
      that is stored instead is not there yet. */
  lemma StaridizeInvIff(r: Registry, raw: seq<Byte>, length: nat, r': Registry, i: nat)
    requires Inv(r) && length <= |raw|
    requires Staridize(r, raw, length) == Some((r', i))
    ensures Inv(r') <==> Measured(raw, length) || Find(r, Sought(raw, length)).Some? || Find(r, []).None?
  {
    hide HashString, Find;
    if Measured(raw, length) {
      StaridizeInv(r, raw, length, r', i);
    } else if Find(r, Sought(raw, length)).None? {
      FindNone(r, []);
      assert raw[..length] == [];
      if Find(r, []).None? {
        FillInv(r, i, []);
      } else {
        var j :| 0 <= j < |r.slots| && Holds(r, j, []);
        assert j != i && r'.slots[j] == r.slots[j] && r'.slots[i].text == [];
      }
    }
  }

  /** An interned text's id leads to the slot whose number it carries: to the text's own slot, and so back
      to the text and its length, iff that number is the slot's or, for the empty text, lies behind the
      filled part. */
  lemma IdResolves(r: Registry, raw: seq<Byte>, length: nat, r': Registry, i: nat, junk: seq<Byte>)
    requires Inv(r) && |r.slots| < USHORT_RANGE && length <= |raw| && Measured(raw, length) && CString(junk)
    requires Staridize(r, raw, length) == Some((r', i)) && r'.count <= |r'.slots|
    ensures var id := NumToStarId(i, junk); var k := Low(i * Pow36(|junk|) + Horner(0, junk));
      && StarIdToNum(id) == k
      && (k == i ==> LenOf(r', id) == Read(length))
      && (RawOf(r', id) == Read(raw[..length]) <==> k == i || (k >= r'.count && length == 0))
  {
    hide HashString, Find, NumToStarId, Low, Horner;
    StaridizeInv(r, raw, length, r', i);
    IdNumber(i, junk);
    IdNotBroken(i, junk);
    var k := StarIdToNum(NumToStarId(i, junk));
    if k < r'.count && r'.slots[k].used && r'.slots[k].text == raw[..length] {
      OneSlot(r', k, i, raw[..length]);
    }
  }

  lemma IdNotBroken(i: nat, junk: seq<Byte>)
    requires i < USHORT_RANGE && CString(junk)
    ensures NumToStarId(i, junk) != BROKEN_ATOM
  {
    IdOf(i, junk);
    hide NumToStarId, Horner;
  }

  /** Behind the filled part an id has the empty text and no length. */
  lemma NothingBehind(r: Registry, id: nat)
    requires id != BROKEN_ATOM && StarIdToNum(id) >= r.count
    ensures RawOf(r, id) == Read([]) && LenOf(r, id) == Read(0)
  {
  }

  /** Only the low sixteen bits of an id matter: star or not, the same place is read. */
  lemma LowBitsDecide(r: Registry, id: nat)
    requires id != BROKEN_ATOM
    ensures RawOf(r, id) == RawOf(r, id % 65536) && LenOf(r, id) == LenOf(r, id % 65536)
  {
  }

  /** A read by id leaves the table iff the id is the broken atom. */
  lemma OutsideIffBroken(r: Registry, id: nat)
    requires |r.slots| < USHORT_RANGE && r.count <= |r.slots|
    ensures RawOf(r, id) == Outside <==> id == BROKEN_ATOM
    ensures LenOf(r, id) == Outside <==> id == BROKEN_ATOM
  {
    assert StarIdToNum(BROKEN_ATOM) == USHORT_RANGE - 1;
    hide StarIdToNum;
  }

  /** A read by id meets memory that was given back iff the id leads to a filled place whose text has died. */
  lemma RecycledIffDead(r: Registry, id: nat)
    requires |r.slots| < USHORT_RANGE && r.count <= |r.slots| && id != BROKEN_ATOM
    ensures RawOf(r, id) == Recycled <==> StarIdToNum(id) < r.count && !r.slots[StarIdToNum(id)].used
  {
  }

  /** The panic: exactly when the text is new and every slot is in use. */
  lemma FullIff(r: Registry, raw: seq<Byte>, length: nat)
    requires Inv(r) && length <= |raw|
    ensures Staridize(r, raw, length).None? <==>
      (forall i :: 0 <= i < |r.slots| ==> r.slots[i].used && r.slots[i].text != Sought(raw, length))
  {
    hide HashString, Find;
    FindNone(r, Sought(raw, length));
    if Staridize(r, raw, length).None? {
      forall i | 0 <= i < |r.slots|
        ensures r.slots[i].used && r.slots[i].text != Sought(raw, length)
      {
        assert !Holds(r, i, Sought(raw, length));
      }
    } else if Find(r, Sought(raw, length)).Some? {
      var i :| 0 <= i < |r.slots| && Holds(r, i, Sought(raw, length));
    } else {
      assert !r.slots[FirstFree(r, 0)].used;
    }
  }

  // ---- Sweep ----

  /** Slot `j` once the walk has passed it: survivors lose their mark, the dead their flag, and slot 0
      also its length when anything died. */
  ghost function Swept(r: Registry, j: nat): Slot
    requires j < |r.slots|
  {
    var s := r.slots[j];
    if j == 0 && Deaths(r) then s.(used := s.used && s.mark, len := 0, mark := false)
    else if s.used then s.(used := s.mark, mark := false)
    else s
  }

  ghost predicate Deaths(r: Registry) {
    exists i :: 0 <= i < |r.slots| && Doomed(r, i)
  }

  ghost predicate DeathsBefore(r: Registry, i: nat) {
    exists k :: 0 <= k < i && Doomed(r, k)
  }

  /** The table when the walk stands at slot `i`. */
  ghost predicate Between(r: Registry, m: Registry, i: nat) {
    && m.count == r.count <= |r.slots| == |m.slots|
    && (forall j :: 1 <= j < |r.slots| ==> m.slots[j] == if j < i && r.slots[j].used then r.slots[j].(used := r.slots[j].mark, mark := false) else r.slots[j])
    && (|r.slots| > 0 ==> m.slots[0] == ZeroSlot(r, i))
  }

  ghost function ZeroSlot(r: Registry, i: nat): Slot
    requires |r.slots| > 0
  {
    var s := r.slots[0];
    if i == 0 then s
    else if DeathsBefore(r, i) then s.(used := s.used && s.mark, len := 0, mark := false)
    else if s.used then s.(used := s.mark, mark := false)
    else s
  }

  lemma BetweenStep(r: Registry, m: Registry, i: nat)
    requires Between(r, m, i) && i < r.count
    ensures Between(r, SweepStep(m, i), i + 1) && (Doomed(m, i) <==> Doomed(r, i))
  {
    assert DeathsBefore(r, i + 1) <==> DeathsBefore(r, i) || Doomed(r, i) by {
      if Doomed(r, i) {
        assert DeathsBefore(r, i + 1);
      }
    }
    if i == 0 {
      assert !DeathsBefore(r, 0);
    }
  }

  ghost function DoomedSet(r: Registry, i: nat): set<nat> {
    set j: nat | i <= j < |r.slots| && Doomed(r, j)
  }

  lemma {:induction false} BetweenSweep(r: Registry, m: Registry, i: nat)
    requires Fresh(r) && Between(r, m, i) && i <= r.count
    ensures Between(r, SweepFrom(m, i).0, r.count)
    ensures SweepFrom(m, i).1 == |DoomedSet(r, i)|
    decreases r.count - i
  {
    hide SweepStep, Between, DoomedSet, Doomed;
    BetweenBounds(r, m, i);
    if i < r.count {
      BetweenStep(r, m, i);
      BetweenSweep(r, SweepStep(m, i), i + 1);
      DoomedStep(r, i);
    } else {
      DoomedEnd(r);
    }
  }

  lemma DoomedEnd(r: Registry)
    requires Fresh(r)
    ensures DoomedSet(r, r.count) == {}
  {
  }

  lemma DoomedStep(r: Registry, i: nat)
    ensures |DoomedSet(r, i)| == |DoomedSet(r, i + 1)| + if Doomed(r, i) then 1 else 0
  {
    assert DoomedSet(r, i) == DoomedSet(r, i + 1) + if Doomed(r, i) then {i} else {};
  }

  lemma BetweenBounds(r: Registry, m: Registry, i: nat)
    requires Between(r, m, i)
    ensures m.count == r.count <= |m.slots| == |r.slots|
  {
  }

  /** What the walk leaves, slot by slot, and how many it reports. */
  lemma SweepSlots(r: Registry)
    requires Fresh(r)
    ensures forall j :: 0 <= j < |r.slots| ==> Sweep(r).0.slots[j] == Swept(r, j)
    ensures Sweep(r).1 == |DoomedSet(r, 0)|
  {
    BetweenSweep(r, r, 0);
    assert Deaths(r) <==> DeathsBefore(r, r.count);
    if |r.slots| > 0 && r.count == 0 {
      assert !r.slots[0].used;
    }
  }

  /** Slot 0 survives the walk with its length intact. */
  predicate ZeroSafe(r: Registry) {
    |r.slots| == 0 || !r.slots[0].used || !r.slots[0].mark || r.slots[0].text == []
    || forall i :: 0 <= i < |r.slots| ==> !Doomed(r, i)
  }

  /** Exactly the unmarked texts go, and the walk reports their number. */
  lemma SweepTable(r: Registry)
    requires Fresh(r)
    ensures Table(Sweep(r).0) == map i | i in Table(r) && r.slots[i].mark :: Table(r)[i]
    ensures Sweep(r).1 == |Table(r)| - |Table(Sweep(r).0)|
    ensures forall j :: 0 <= j < |r.slots| && Sweep(r).0.slots[j].used ==> !Sweep(r).0.slots[j].mark
  {
    SweepSlots(r);
    hide Sweep;
    SweptTable(r, Sweep(r).0);
  }

  lemma SweptTable(r: Registry, after: Registry)
    requires |after.slots| == |r.slots| && forall j :: 0 <= j < |r.slots| ==> after.slots[j] == Swept(r, j)
    ensures Table(after) == map i | i in Table(r) && r.slots[i].mark :: Table(r)[i]
    ensures |DoomedSet(r, 0)| == |Table(r)| - |Table(after)|
    ensures forall j :: 0 <= j < |r.slots| && after.slots[j].used ==> !after.slots[j].mark
  {
    hide Deaths, DoomedSet, Table;
    forall j | 0 <= j < |r.slots|
      ensures Survives(r, after, j)
    {
      assert after.slots[j] == Swept(r, j);
    }
    hide Swept;
    SurvivorTable(r, after);
    SurvivorCount(r, after);
  }

  ghost predicate Survives(r: Registry, after: Registry, j: nat)
    requires |after.slots| == |r.slots| && j < |r.slots|
  {
    && after.slots[j].used == (r.slots[j].used && r.slots[j].mark)
    && after.slots[j].text == r.slots[j].text
    && (after.slots[j].used ==> !after.slots[j].mark)
  }

  lemma SurvivorTable(r: Registry, after: Registry)
    requires |after.slots| == |r.slots| && forall j :: 0 <= j < |r.slots| ==> Survives(r, after, j)
    ensures Table(after) == map i | i in Table(r) && r.slots[i].mark :: Table(r)[i]
  {
    var kept := map i | i in Table(r) && r.slots[i].mark :: Table(r)[i];
    forall j: nat
      ensures j in Table(after) <==> j in kept
      ensures j in kept ==> Table(after)[j] == kept[j]
    {
      assert j < |r.slots| ==> Survives(r, after, j);
    }
  }

  lemma SurvivorCount(r: Registry, after: Registry)
    requires |after.slots| == |r.slots| && forall j :: 0 <= j < |r.slots| ==> Survives(r, after, j)
    ensures |DoomedSet(r, 0)| == |Table(r)| - |Table(after)|
  {
    var all, live, gone := Table(r).Keys, Table(after).Keys, DoomedSet(r, 0);
    assert |Table(r)| == |all| && |Table(after)| == |live|;
    forall j
      ensures j in all <==> j in live || j in gone
      ensures !(j in live && j in gone)
    {
      assert 0 <= j < |r.slots| ==> Survives(r, after, j);
    }
    hide Table, DoomedSet, Survives;
    assert all == live + gone && live !! gone;
  }

  /** The registry is intact after a sweep iff slot 0 was safe: a marked, non-empty first text loses its
      length as soon as any other slot dies. */
  lemma SweepInvIff(r: Registry)
    requires Inv(r)
    ensures Inv(Sweep(r).0) <==> ZeroSafe(r)
  {
    SweepSlots(r);
    var after := Sweep(r).0;
    hide Sweep, HashString;
    assert Fresh(after) && Distinct(after);
    if !ZeroSafe(r) {
      assert after.slots[0].used && after.slots[0].len == 0 && after.slots[0].text != [];
    }
  }

  /** The damage, seen by a client: the text still occupies slot 0 but can no longer be found there. */
  lemma UnsafeSweepLoses(r: Registry)
    requires Inv(r) && !ZeroSafe(r)
    ensures Holds(Sweep(r).0, 0, r.slots[0].text)
    ensures Find(Sweep(r).0, r.slots[0].text).None?
  {
    SweepSlots(r);
    var after := Sweep(r).0;
    hide Sweep, HashString;
    var text := r.slots[0].text;
    var f := Find(after, text);
    assert f.Some? && f.value > 0 ==> r.slots[f.value].text == text;
  }

  // ---- Runs ----

  datatype Op =
    | Intern(raw: seq<Byte>, length: nat)
    | Touch(slot: nat)
    | Collect

  predicate Allowed(r: Registry, op: Op) {
    match op
    case Intern(raw, length) => length <= |raw| && Measured(raw, length)
    case Touch(_) => true
    case Collect => ZeroSafe(r)
  }

  /** `None` once the table has overflowed. */
  ghost function Step(r: Registry, op: Op): (n: Option<Registry>)
    requires r.count <= |r.slots| && Allowed(r, op)
    ensures n.Some? ==> n.value.count <= |n.value.slots|
  {
    match op
    case Intern(raw, length) =>
      var res := Staridize(r, raw, length);
      if res.Some? then Some(res.value.0) else None
    case Touch(slot) => Some(Mark(r, slot))
    case Collect => Some(Sweep(r).0)
  }

  lemma StepInv(r: Registry, op: Op, r': Registry)
    requires Inv(r) && Allowed(r, op) && Step(r, op) == Some(r')
    ensures Inv(r') && |r'.slots| == |r.slots|
  {
    match op
    case Intern(raw, length) =>
      StaridizeInv(r, raw, length, r', Staridize(r, raw, length).value.1);
    case Touch(slot) =>
    case Collect =>
      SweepInvIff(r);
  }

  /** The states a run passes through, each reached from the one before by an allowed step. */
  ghost predicate RunsTo(r: Registry, ops: seq<Op>, end: Registry)
    requires r.count <= |r.slots|
    decreases ops
  {
    if ops == [] then r == end
    else Allowed(r, ops[0]) && Step(r, ops[0]).Some? && RunsTo(Step(r, ops[0]).value, ops[1..], end)
  }

  /** Slot `i` is marked whenever a sweep comes. */
  ghost predicate Kept(r: Registry, ops: seq<Op>, i: nat)
    requires r.count <= |r.slots|
    decreases ops
  {
    ops != [] && Allowed(r, ops[0]) && Step(r, ops[0]).Some? ==>
      (ops[0].Collect? ==> i < |r.slots| && r.slots[i].mark) && Kept(Step(r, ops[0]).value, ops[1..], i)
  }

  /** Two texts interned and the first one marked: the run ends where a sweep does the damage. */
  lemma UnsafeRun(t: seq<Byte>, u: seq<Byte>) returns (r: Registry)
    requires t != [] && u != [] && t != u
    ensures RunsTo(Empty(2), [Intern(t, |t|), Intern(u, |u|), Touch(0)], r) && !ZeroSafe(r)
    ensures |r.slots| == 2 && r.slots[0].text == t
  {
    hide HashString;
    var r0 := Empty(2);
    var r1, r2 := Fill(r0, 0, t), Fill(Fill(r0, 0, t), 1, u);
    r := Mark(r2, 0);
    var op1, op2, op3 := Intern(t, |t|), Intern(u, |u|), Touch(0);
    assert t[..|t|] == t && u[..|u|] == u;
    assert FirstFree(r0, 0) == 0 && Find(r0, t).None?;
    assert Step(r0, op1) == Some(r1);
    assert !Matches(r1.slots[0], u);
    assert Find(r1, u).None? && FirstFree(r1, 0) == FirstFree(r1, 1) == 1;
    assert Step(r1, op2) == Some(r2);
    var ops := [op1, op2, op3];
    assert ops[1..] == [op2, op3] && ops[1..][1..] == [op3] && ops[1..][1..][1..] == [];
    assert RunsTo(r, [], r);
    assert RunsTo(r2, [op3], r);
    assert RunsTo(r1, [op2, op3], r);
    assert Doomed(r, 1);
  }

  /** The setter that marks a place is private to the places and never called with true; a client that
      could call it reaches the damage. */
  lemma UnsafeSweepReachable(t: seq<Byte>, u: seq<Byte>)
    requires t != [] && u != [] && t != u
    ensures exists r :: RunsTo(Empty(2), [Intern(t, |t|), Intern(u, |u|), Touch(0)], r) && !ZeroSafe(r)
  {
    var r := UnsafeRun(t, u);
  }

  ghost predicate NoMarks(r: Registry) {
    forall i :: 0 <= i < |r.slots| ==> !r.slots[i].mark
  }

  /** Nothing marked: the sweep is safe and empties the table. */
  lemma NoMarksSweep(r: Registry)
    requires Inv(r) && NoMarks(r)
    ensures ZeroSafe(r) && Table(Sweep(r).0) == map[] && Sweep(r).1 == |Table(r)| && NoMarks(Sweep(r).0)
  {
    hide Sweep, Recorded, Distinct, DoomedSet;
    var after := Sweep(r).0;
    SweepSlots(r);
    assert NoMarks(after) by {
      hide Table;
      forall j | 0 <= j < |after.slots|
        ensures !after.slots[j].mark
      {
        assert after.slots[j] == Swept(r, j);
      }
    }
    SweepTable(r);
    hide Swept;
    assert forall i :: i in Table(r) ==> !r.slots[i].mark;
    hide Table;
    assert Table(after) == map[];
  }

  lemma UntouchedStep(r: Registry, op: Op, r': Registry)
    requires Inv(r) && NoMarks(r) && !op.Touch? && Allowed(r, op) && Step(r, op) == Some(r')
    ensures NoMarks(r')
  {
    if op.Collect? {
      NoMarksSweep(r);
    }
  }

  /** As the code stands, where nobody marks, every run keeps the table unmarked: every sweep it could make
      is safe and empties the table. */
  lemma {:induction false} UntouchedRun(r: Registry, ops: seq<Op>, end: Registry)
    requires Inv(r) && NoMarks(r) && RunsTo(r, ops, end) && forall i :: 0 <= i < |ops| ==> !ops[i].Touch?
    ensures Inv(end) && NoMarks(end) && ZeroSafe(end) && Table(Sweep(end).0) == map[]
    decreases ops
  {
    if ops == [] {
      NoMarksSweep(end);
    } else {
      hide Step, Allowed, NoMarks, Recorded, Distinct, ZeroSafe, Table, Sweep;
      StepInv(r, ops[0], Step(r, ops[0]).value);
      UntouchedStep(r, ops[0], Step(r, ops[0]).value);
      var rest := ops[1..];
      assert forall i :: 0 <= i < |rest| ==> rest[i] == ops[i + 1];
      UntouchedRun(Step(r, ops[0]).value, rest, end);
    }
  }

  /** No allowed run leaves the invariant: only an overflow ends it early. */
  lemma {:induction false} RunInv(r: Registry, ops: seq<Op>, end: Registry)
    requires Inv(r) && RunsTo(r, ops, end)
    ensures Inv(end) && |end.slots| == |r.slots|
    decreases ops
  {
    hide Step, Allowed, Recorded, Distinct;
    if ops != [] {
      StepInv(r, ops[0], Step(r, ops[0]).value);
      RunInv(Step(r, ops[0]).value, ops[1..], end);
    }
  }

  lemma StepHolds(r: Registry, op: Op, r': Registry, i: nat, text: seq<Byte>)
    requires Inv(r) && Allowed(r, op) && Step(r, op) == Some(r') && Holds(r, i, text)
    requires op.Collect? ==> r.slots[i].mark
    ensures Holds(r', i, text)
  {
    match op
    case Intern(raw, length) =>
      StaridizeInv(r, raw, length, r', Staridize(r, raw, length).value.1);
      var j := Staridize(r, raw, length).value.1;
      if j == i {
        assert i in Table(r);
        StaridizeKeepsText(r, raw, length, r', i);
      }
    case Touch(slot) =>
    case Collect =>
      SweepSlots(r);
  }

  lemma StaridizeKeepsText(r: Registry, raw: seq<Byte>, length: nat, r': Registry, i: nat)
    requires Inv(r) && length <= |raw| && i < |r.slots| && r.slots[i].used
    requires Staridize(r, raw, length) == Some((r', i))
    ensures r' == r
  {
  }

  /** A text kept alive keeps its slot. */
  lemma {:induction false} RunHolds(r: Registry, ops: seq<Op>, end: Registry, i: nat, text: seq<Byte>)
    requires Inv(r) && RunsTo(r, ops, end) && Kept(r, ops, i) && Holds(r, i, text)
    ensures Holds(end, i, text)
    decreases ops
  {
    hide Step, Allowed, Holds, Recorded, Distinct;
    if ops != [] {
      StepInv(r, ops[0], Step(r, ops[0]).value);
      StepHolds(r, ops[0], Step(r, ops[0]).value, i, text);
      RunHolds(Step(r, ops[0]).value, ops[1..], end, i, text);
    }
  }

  /** Interning is a bijection between texts and slots: intern one text, run on while its slot is kept,
      intern a second; the slots agree iff the texts do.  The ids are printed over whatever bytes `a` and
      `b` follow the digits, and agree iff the numbers they carry do; over the same bytes, iff the slots'
      distance times 4^|a| is a multiple of 65536; and so, in a table narrow enough for those bytes, iff
      the texts agree. */
  lemma SameIdIffSameText(r: Registry, t: seq<Byte>, u: seq<Byte>, r1: Registry, i: nat, ops: seq<Op>,
                          r2: Registry, r3: Registry, j: nat, a: seq<Byte>, b: seq<Byte>)
    requires Inv(r) && |r.slots| < USHORT_RANGE && t != [] && u != [] && CString(a) && CString(b)
    requires Staridize(r, t, |t|) == Some((r1, i))
    requires r1.count <= |r1.slots| && RunsTo(r1, ops, r2) && Kept(r1, ops, i)
    requires r2.count <= |r2.slots| && Staridize(r2, u, |u|) == Some((r3, j))
    ensures Holds(r3, i, t) && Holds(r3, j, u) && (i == j <==> t == u)
    ensures NumToStarId(i, a) == NumToStarId(j, b) <==>
      Low(i * Pow36(|a|) + Horner(0, a)) == Low(j * Pow36(|b|) + Horner(0, b))
    ensures NumToStarId(i, a) == NumToStarId(j, a) <==> Low((i - j) * Pow4(|a|)) == 0
    ensures Narrow(|r.slots|, a) ==> (NumToStarId(i, a) == NumToStarId(j, a) <==> t == u)
  {
    hide Staridize, RunsTo, Kept, Inv, NumToStarId, Table, Low, Horner, Pow36, Pow4, Narrow;
    StaridizeInv(r, t, |t|, r1, i);
    assert t[..|t|] == t && u[..|u|] == u;
    RunInv(r1, ops, r2);
    RunHolds(r1, ops, r2, i, t);
    StaridizeInv(r2, u, |u|, r3, j);
    SlotOf(r2, r3, i, j, t, u);
    IdsAgreeApartIff(i, a, j, b);
    IdsAgreeIff(i, j, a);
    if Narrow(|r.slots|, a) && i != j {
      NarrowApart(|r.slots|, a, if i < j then i else j, if i < j then j else i);
    }
  }

  lemma SlotOf(r: Registry, r': Registry, i: nat, j: nat, t: seq<Byte>, u: seq<Byte>)
    requires Inv(r') && |r'.slots| == |r.slots| && Holds(r, i, t) && Holds(r', j, u)
    requires Table(r') == Table(r)[j := u]
    requires j in Table(r) <==> exists k :: 0 <= k < |r.slots| && Holds(r, k, u)
    ensures Holds(r', i, t) && (i == j <==> t == u)
  {
    hide Holds, Table, Inv;
    InTable(r, i, t);
    InTable(r', i, if i == j then u else t);
    if i == j {
      var k :| 0 <= k < |r.slots| && Holds(r, k, u);
      InTable(r, k, u);
      InTable(r', k, u);
      OneSlot(r', k, j, u);
    } else if t == u {
      OneSlot(r', i, j, u);
    }
  }

  lemma InTable(r: Registry, i: nat, text: seq<Byte>)
    ensures Holds(r, i, text) <==> i in Table(r) && Table(r)[i] == text
  {
  }

  lemma OneSlot(r: Registry, i: nat, j: nat, text: seq<Byte>)
    requires Inv(r) && Holds(r, i, text) && Holds(r, j, text)
    ensures i == j
  {
  }
}
