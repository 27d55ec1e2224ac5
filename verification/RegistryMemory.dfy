/** Which blocks of its metadata arena the registry holds. */
module RegistryMemory {
  import opened AtomText
  import opened RegistrySpace
  import opened RegistryTheorems
  import opened Ledger
  import MetaSpace

  const CELL_SIZE: nat := 8

  const ARRAYS: nat := 3

  /** A used slot's text, a pointer cell by the order of filling, or one of the registry's own arrays. */
  datatype Owner = OfText(slot: nat) | OfCell(serial: nat) | OfArray(n: nat)

  type Foot = map<Owner, Piece>

  /** Used slots hold the blocks of their texts, whose recorded length is not longer; every cell ever taken
      is still held, and so are the arrays. */
  ghost predicate FootAt(foot: Foot, r: Registry, addrs: seq<nat>, filled: nat, o: Owner)
    requires |addrs| == |r.slots|
  {
    match o
    case OfText(i) =>
      (o in foot <==> i < |r.slots| && r.slots[i].used)
      && (i < |r.slots| && r.slots[i].used ==> o in foot && foot[o] == Piece(addrs[i], MetaSpace.AlignSize(|r.slots[i].text|))
                                                   && r.slots[i].len <= |r.slots[i].text|)
    case OfCell(n) => (o in foot <==> n < filled) && (o in foot ==> foot[o].size == 16)
    case OfArray(n) => o in foot <==> n < ARRAYS
  }

  ghost predicate FootOk(foot: Foot, r: Registry, addrs: seq<nat>, filled: nat) {
    |addrs| == |r.slots| && forall o :: FootAt(foot, r, addrs, filled, o)
  }

  predicate SameText(s: Slot, t: Slot) {
    t.used == s.used && t.text == s.text && t.len == s.len
  }

  /** Slots with the same use, texts and lengths hold the same blocks. */
  lemma FootSame(foot: Foot, r: Registry, r': Registry, addrs: seq<nat>, filled: nat)
    requires FootOk(foot, r, addrs, filled) && |r'.slots| == |r.slots|
    requires forall i :: 0 <= i < |r.slots| ==> SameText(r.slots[i], r'.slots[i])
    ensures FootOk(foot, r', addrs, filled)
  {
    hide MetaSpace.AlignSize;
    forall o
      ensures FootAt(foot, r', addrs, filled, o)
    {
      assert FootAt(foot, r, addrs, filled, o);
    }
  }

  /** Filling a slot brings two blocks. */
  lemma FootFill(foot: Foot, r: Registry, addrs: seq<nat>, filled: nat, i: nat, text: seq<Byte>, p: nat, cell: nat)
    requires FootOk(foot, r, addrs, filled) && i < |r.slots|
    ensures FootOk(foot[OfText(i) := Piece(p, MetaSpace.AlignSize(|text|))][OfCell(filled) := Piece(cell, MetaSpace.AlignSize(CELL_SIZE))],
                   Fill(r, i, text), addrs[i := p], filled + 1)
  {
    CellBlock();
    hide MetaSpace.AlignSize, HashString;
    var f := foot[OfText(i) := Piece(p, MetaSpace.AlignSize(|text|))][OfCell(filled) := Piece(cell, MetaSpace.AlignSize(CELL_SIZE))];
    var r', addrs', filled' := Fill(r, i, text), addrs[i := p], filled + 1;
    forall o
      ensures FootAt(f, r', addrs', filled', o)
    {
      assert FootAt(foot, r, addrs, filled, o);
    }
  }

  lemma CellBlock()
    ensures MetaSpace.AlignSize(CELL_SIZE) == 16
  {
  }

  lemma FillLedger(foot: Foot, r: Registry, addrs: seq<nat>, filled: nat, outs: map<nat, nat>, i: nat, size: nat, p: nat, cell: nat)
    requires FootOk(foot, r, addrs, filled) && Tally(foot, outs) && i < |r.slots| && !r.slots[i].used
    requires p !in outs && cell !in outs && p != cell
    ensures OfText(i) !in foot && OfCell(filled) !in foot
    ensures Tally(foot[OfText(i) := Piece(p, MetaSpace.AlignSize(size))][OfCell(filled) := Piece(cell, MetaSpace.AlignSize(CELL_SIZE))],
                  outs[p := MetaSpace.AlignSize(size)][cell := MetaSpace.AlignSize(CELL_SIZE)])
  {
    assert FootAt(foot, r, addrs, filled, OfText(i)) && FootAt(foot, r, addrs, filled, OfCell(filled));
    hide MetaSpace.AlignSize, Tally;
    TallyAdd(foot, outs, OfText(i), p, MetaSpace.AlignSize(size));
    TallyAdd(foot[OfText(i) := Piece(p, MetaSpace.AlignSize(size))], outs[p := MetaSpace.AlignSize(size)],
             OfCell(filled), cell, MetaSpace.AlignSize(CELL_SIZE));
  }

  /** A dying slot gives up its text's block, and nothing else. */
  lemma FootKill(foot: Foot, r: Registry, addrs: seq<nat>, filled: nat, i: nat)
    requires FootOk(foot, r, addrs, filled) && i < |r.slots|
    ensures FootOk(foot - {OfText(i)}, Kill(r, i), addrs, filled)
  {
    hide MetaSpace.AlignSize;
    var f, r' := foot - {OfText(i)}, Kill(r, i);
    forall o
      ensures FootAt(f, r', addrs, filled, o)
    {
      assert FootAt(foot, r, addrs, filled, o);
    }
  }

  /** The block of a used slot is held with the size of its text. */
  lemma TextHeld(foot: Foot, r: Registry, addrs: seq<nat>, filled: nat, outs: map<nat, nat>, i: nat)
    requires FootOk(foot, r, addrs, filled) && Tally(foot, outs) && i < |r.slots| && r.slots[i].used
    ensures OfText(i) in foot && foot[OfText(i)] == Piece(addrs[i], MetaSpace.AlignSize(|r.slots[i].text|))
    ensures addrs[i] in outs && outs[addrs[i]] == MetaSpace.AlignSize(|r.slots[i].text|)
    ensures r.slots[i].len <= |r.slots[i].text|
  {
    hide MetaSpace.AlignSize;
    assert FootAt(foot, r, addrs, filled, OfText(i));
    assert PieceOut(foot, outs, OfText(i));
  }

  /** Two live texts never share memory: their blocks are different blocks of the arena. */
  lemma TextsApart(foot: Foot, r: Registry, addrs: seq<nat>, filled: nat, outs: map<nat, nat>, i: nat, j: nat)
    requires FootOk(foot, r, addrs, filled) && Tally(foot, outs)
    requires i < |r.slots| && r.slots[i].used && j < |r.slots| && r.slots[j].used && i != j
    ensures addrs[i] != addrs[j]
  {
    TextHeld(foot, r, addrs, filled, outs, i);
    TextHeld(foot, r, addrs, filled, outs, j);
    assert Owns(foot, OfText(i), addrs[i]) && Owns(foot, OfText(j), addrs[j]);
  }

  /** The text's block goes back whole: its recorded length rounds to the block's size. */
  predicate GoesBackWhole(s: Slot) {
    MetaSpace.AlignSize(s.len) == MetaSpace.AlignSize(|s.text|)
  }

  ghost predicate FitBefore(r: Registry, i: nat) {
    forall j :: 0 <= j < i && Doomed(r, j) ==> GoesBackWhole(r.slots[j])
  }

  /** A sweep gives every dying text's block back whole. */
  ghost predicate LengthsFit(r: Registry) {
    FitBefore(r, r.count)
  }

  lemma RecordedFits(r: Registry)
    requires Inv(r)
    ensures LengthsFit(r)
  {
    hide MetaSpace.AlignSize, HashString;
  }

  lemma ShortFits(text: seq<Byte>)
    ensures MetaSpace.AlignSize(0) == MetaSpace.AlignSize(|text|) <==> |text| <= 16
  {
  }

  lemma Monotone(a: nat, b: nat)
    requires a <= b
    ensures MetaSpace.AlignSize(a) <= MetaSpace.AlignSize(b)
  {
  }

  /** After a sweep of an intact registry the next one gives every dying text's block back whole iff slot 0
      was safe, or its text, whose length is gone, is at most sixteen bytes long. */
  lemma NextSweepFitsIff(r: Registry)
    requires Inv(r)
    ensures LengthsFit(Sweep(r).0) <==> ZeroSafe(r) || |r.slots[0].text| <= 16
  {
    hide MetaSpace.AlignSize, HashString, Recorded, Distinct, ZeroSafe, Sweep, LengthsFit;
    SweepInvIff(r);
    if ZeroSafe(r) {
      RecordedFits(Sweep(r).0);
    } else {
      SweptFits(r, Sweep(r).0);
    }
  }

  lemma SweptFits(r: Registry, after: Registry)
    requires Inv(r) && !ZeroSafe(r) && Sweep(r).0 == after
    ensures LengthsFit(after) <==> |r.slots[0].text| <= 16
  {
    hide MetaSpace.AlignSize, HashString, Sweep;
    SweepSlots(r);
    ShortFits(r.slots[0].text);
    assert after.slots[0] == Swept(r, 0) && Doomed(after, 0);
    forall j | 1 <= j < after.count && Doomed(after, j)
      ensures GoesBackWhole(after.slots[j])
    {
      assert after.slots[j] == Swept(r, j);
    }
  }

  /** Two texts interned, the first of them seventeen bytes or longer and marked: the sweep damages slot 0,
      and the next one recycles a part of the text's block only. */
  lemma ShortRecycleReachable(t: seq<Byte>, u: seq<Byte>)
    requires |t| > 16 && u != [] && t != u
    ensures exists r :: RunsTo(Empty(2), [Intern(t, |t|), Intern(u, |u|), Touch(0)], r) && Inv(r) && !LengthsFit(Sweep(r).0)
  {
    var r := UnsafeRun(t, u);
    EmptyInv(2);
    RunInv(Empty(2), [Intern(t, |t|), Intern(u, |u|), Touch(0)], r);
    NextSweepFitsIff(r);
    hide RunsTo, Inv, LengthsFit;
  }

  /** The terminator behind a copied text stands inside the text's block iff the length is no multiple of
      sixteen, or nothing was copied. */
  lemma TerminatorInsideIff(length: nat)
    ensures length < MetaSpace.AlignSize(length) <==> length == 0 || length % 16 != 0
  {
  }

  /** The texts that die before the walk reaches slot `i`. */
  ghost function DeadTexts(r: Registry, i: nat): set<Owner> {
    set j: nat | j < i && Doomed(r, j) :: OfText(j)
  }

  lemma DeadTextsStep(r: Registry, i: nat)
    ensures DeadTexts(r, i + 1) == DeadTexts(r, i) + if Doomed(r, i) then {OfText(i)} else {}
  {
  }

  lemma FitStep(r: Registry, i: nat)
    ensures FitBefore(r, i + 1) <==> FitBefore(r, i) && (Doomed(r, i) ==> GoesBackWhole(r.slots[i]))
  {
  }
}
