/** The registry in place: a list of places, a hash cache and a use map side by side. */
module RegistryMachine {
  import opened Options
  import opened AtomText
  import opened RegistrySpace
  import opened RegistryMemory
  import opened Ledger
  import opened Powers
  import PageSpace
  import MetaSpace
  import MetaMachine
  import MetaClient
  import PageMachine

  /** The string hash's loop. */
  method HashOf(str: seq<Byte>) returns (hash: bv64)
    ensures hash == HashString(str)
  {
    hide Mix;
    hash := HASH_BASIS;
    for i := 0 to |str|
      invariant HashFrom(hash, str[i..]) == HashString(str)
    {
      assert str[i..][0] == str[i] && str[i..][1..] == str[i + 1..];
      hash := Mix(hash, str[i]);
    }
    assert str[|str|..] == [];
  }

  const PLACE_SIZE: nat := 16

  /** A place: the address of the text its pointer cell leads to, that text, and the length with its mark
      bit. */
  datatype StarPlace = StarPlace(addr: nat, text: seq<Byte>, len: nat, mark: bool)

  lemma IdsAreWhole(junk: seq<Byte>)
    requires CString(junk)
    ensures forall n: nat :: NumToStarId(n, junk) != BROKEN_ATOM
  {
    hide Horner, Digits;
    forall n: nat
      ensures NumToStarId(n, junk) != BROKEN_ATOM
    {
      var text := [STAR] + Digits(n, 6) + junk;
      assert text[0] == STAR;
    }
  }

  lemma SweepStepSlots(r: Registry, i: nat)
    requires i < |r.slots|
    ensures forall j :: i < j < |r.slots| ==> SweepStep(r, i).slots[j] == r.slots[j]
    ensures !Doomed(r, i) ==> forall j :: 0 <= j < |r.slots| ==>
      SweepStep(r, i).slots[j].used == r.slots[j].used && SweepStep(r, i).slots[j].text == r.slots[j].text
  {
  }

  lemma SweepCases(r: Registry, i: nat)
    requires i < |r.slots|
    ensures SweepStep(r, i) == if Doomed(r, i) then Kill(r, i) else if r.slots[i].used then Unmark(r, i) else r
  {
  }

  lemma NoneDead(r: Registry)
    ensures DeadTexts(r, 0) == {}
  {
  }

  lemma FreeSlot(r: Registry)
    ensures FirstFree(r, 0) < |r.slots| ==> !r.slots[FirstFree(r, 0)].used
  {
  }

  lemma SweepUnfold(r: Registry, i: nat)
    requires i < r.count <= |r.slots|
    ensures var rest := SweepFrom(SweepStep(r, i), i + 1);
      SweepFrom(r, i) == (rest.0, rest.1 + if Doomed(r, i) then 1 else 0)
  {
  }

  lemma SweepEnd(r: Registry, i: nat)
    requires r.count <= i && r.count <= |r.slots|
    ensures SweepFrom(r, i) == (r, 0)
  {
  }

  lemma NothingYet(r: Registry)
    ensures FitBefore(r, 0)
  {
  }

  lemma SmallCell()
    ensures MetaSpace.AlignSize(CELL_SIZE) <= PageSpace.SEGMENT_SIZE && Pow2(0) == 1 && Pow2(3) == 8
  {
    assert Pow2(1) == 2 && Pow2(2) == 4;
  }

  /** The three arrays and nothing else. */
  ghost function ArrayFoot(p1: nat, p2: nat, p3: nat, max: nat): Foot {
    map[OfArray(0) := Piece(p1, MetaSpace.AlignSize(PLACE_SIZE * max))]
       [OfArray(1) := Piece(p2, MetaSpace.AlignSize(8 * max))]
       [OfArray(2) := Piece(p3, MetaSpace.AlignSize(max))]
  }

  lemma ArraysOnly(p1: nat, p2: nat, p3: nat, max: nat, outs: map<nat, nat>, r: Registry, addrs: seq<nat>)
    requires p1 != p2 && p1 != p3 && p2 != p3
    requires outs == map[p1 := MetaSpace.AlignSize(PLACE_SIZE * max)][p2 := MetaSpace.AlignSize(8 * max)][p3 := MetaSpace.AlignSize(max)]
    requires |addrs| == |r.slots| && forall i :: 0 <= i < |r.slots| ==> !r.slots[i].used
    ensures FootOk(ArrayFoot(p1, p2, p3, max), r, addrs, 0) && Tally(ArrayFoot(p1, p2, p3, max), outs)
    ensures var f := ArrayFoot(p1, p2, p3, max);
      && (forall o :: o in f ==> o.OfArray?)
      && OfArray(0) in f && f[OfArray(0)].size == MetaSpace.AlignSize(16 * max)
      && OfArray(1) in f && f[OfArray(1)].size == MetaSpace.AlignSize(8 * max)
      && OfArray(2) in f && f[OfArray(2)].size == MetaSpace.AlignSize(max)
  {
    hide MetaSpace.AlignSize;
    var f := ArrayFoot(p1, p2, p3, max);
    assert Owns(f, OfArray(0), p1) && Owns(f, OfArray(1), p2) && Owns(f, OfArray(2), p3);
    forall p | p in outs
      ensures Ledger.Owned(f, p)
    {
      assert Owns(f, if p == p1 then OfArray(0) else if p == p2 then OfArray(1) else OfArray(2), p);
    }
    forall o
      ensures FootAt(f, r, addrs, 0, o)
    {
    }
  }

  lemma ArraySizes(max: nat)
    requires max < USHORT_RANGE
    ensures PLACE_SIZE * max * 4 <= PageSpace.SEGMENT_SIZE
    ensures MetaSpace.AlignSize(PLACE_SIZE * max) <= PageSpace.SEGMENT_SIZE
    ensures MetaSpace.AlignSize(8 * max) <= PageSpace.SEGMENT_SIZE && MetaSpace.AlignSize(max) <= PageSpace.SEGMENT_SIZE
  {
  }

  lemma NothingHeld(m: MetaSpace.Meta)
    requires m.blocks == map[]
    ensures MetaSpace.Outs(m.blocks) == map[]
  {
  }

  /** A metadata arena with the blocks of the three arrays and no others in use. */
  method OwnArena(pm: PageMachine.PageManager, max: nat, r0: nat, r1: nat, r2: nat, r3: nat)
    returns (own: MetaMachine.MetaArena, p1: nat, p2: nat, p3: nat)
    requires pm.Valid() && max < USHORT_RANGE
    requires PageSpace.Reservable(pm.space.segs, r0) && PageSpace.Reservable(pm.space.segs, r1)
    requires PageSpace.Reservable(pm.space.segs, r2) && PageSpace.Reservable(pm.space.segs, r3)
    requires RangesApart(r0, r1) && RangesApart(r0, r2) && RangesApart(r0, r3)
    requires RangesApart(r1, r2) && RangesApart(r1, r3) && RangesApart(r2, r3)
    modifies pm.Repr
    ensures own.Valid() && fresh(own.Repr - old(pm.Repr)) && MetaClient.Whole(own) && own.arena.defaultSize == 64 * max
    ensures p1 != p2 && p1 != p3 && p2 != p3
    ensures MetaClient.OutsOf(own)
      == map[p1 := MetaSpace.AlignSize(PLACE_SIZE * max)][p2 := MetaSpace.AlignSize(8 * max)][p3 := MetaSpace.AlignSize(max)]
  {
    hide MetaMachine.MetaArena.Valid, MetaSpace.Outs, MetaSpace.Inv, MetaSpace.AlignSize, PageSpace.Reservable, RangesApart;
    hide MetaSpace.Packed, PageMachine.PageManager.Valid, Pow2, MetaSpace.ListFor;
    ArraySizes(max);
    SmallCell();
    own := new MetaMachine.MetaArena(PLACE_SIZE * max * 4, pm, r0);
    NothingHeld(own.meta);
    p1 := MetaClient.Acquire(own, PLACE_SIZE * max, 8, r1, 3);
    p2 := MetaClient.Acquire(own, 8 * max, 8, r2, 3);
    p3 := MetaClient.Acquire(own, max, 1, r3, 0);
  }

  class ALAR {
    const arena: MetaMachine.MetaArena
    const starIDMaxCount: nat
    var createdPlacesCount: nat
    const placelist: array<StarPlace>
    const hashCache: array<bv64>
    const idmap: array<Byte>
    ghost var foot: Foot
    ghost var filled: nat
    ghost var Repr: set<object>

    /** The three arrays, apart from the arena. */
    ghost predicate Tabled()
      reads this
    {
      && createdPlacesCount <= starIDMaxCount < USHORT_RANGE
      && placelist.Length == hashCache.Length == idmap.Length == starIDMaxCount
      && placelist as object != hashCache as object && hashCache as object != idmap as object
    }

    function SlotAt(i: nat): Slot
      requires i < placelist.Length == hashCache.Length == idmap.Length
      reads placelist, hashCache, idmap
    {
      Slot(idmap[i] != 0, placelist[i].text, placelist[i].len, placelist[i].mark, hashCache[i])
    }

    ghost function State(): (r: Registry)
      requires Tabled()
      reads this, placelist, hashCache, idmap
      ensures |r.slots| == starIDMaxCount && r.count == createdPlacesCount
      ensures forall i :: 0 <= i < starIDMaxCount ==> r.slots[i] == SlotAt(i)
    {
      Registry(seq(starIDMaxCount, i requires 0 <= i < starIDMaxCount reads placelist, hashCache, idmap => SlotAt(i)),
               createdPlacesCount)
    }

    ghost function Addrs(): (a: seq<nat>)
      requires Tabled()
      reads this, placelist
      ensures |a| == starIDMaxCount && forall i :: 0 <= i < starIDMaxCount ==> a[i] == placelist[i].addr
    {
      seq(starIDMaxCount, i requires 0 <= i < starIDMaxCount reads placelist => placelist[i].addr)
    }

    ghost function Outs(): map<nat, nat>
      reads this, arena
    {
      MetaSpace.Outs(arena.meta.blocks)
    }

    ghost function Segs(): seq<PageSpace.Segment>
      reads this, arena, arena.arena, arena.arena.pm
    {
      arena.arena.pm.space.segs
    }

    ghost predicate Base()
      reads this, Repr
      ensures Base() ==> this in Repr && arena in Repr && placelist in Repr && hashCache in Repr && idmap in Repr
      ensures Base() ==> Tabled() && arena.Repr <= Repr
    {
      && this in Repr && arena in Repr && placelist in Repr && hashCache in Repr && idmap in Repr
      && arena.Repr <= Repr
      && this !in arena.Repr && placelist !in arena.Repr && hashCache !in arena.Repr && idmap !in arena.Repr
      && arena.Valid() && Tabled()
    }

    /** The used slots and the cells taken own exactly their blocks of the arena. */
    ghost predicate Valid()
      reads this, Repr
      ensures Valid() ==> Base()
    {
      Base() && FootOk(foot, State(), Addrs(), filled) && Tally(foot, Outs())
    }

    /** Nothing is lost of the arena's bytes. */
    ghost predicate Whole()
      reads this, arena, arena.arena, arena.arena.pm
    {
      MetaClient.Whole(arena)
    }

    /** A metadata arena of its own, with the three arrays in it. */
    constructor (pm: PageMachine.PageManager, starIDMaxCount: nat, r0: nat, r1: nat, r2: nat, r3: nat)
      requires pm.Valid() && starIDMaxCount < USHORT_RANGE
      requires PageSpace.Reservable(pm.space.segs, r0) && PageSpace.Reservable(pm.space.segs, r1)
      requires PageSpace.Reservable(pm.space.segs, r2) && PageSpace.Reservable(pm.space.segs, r3)
      requires RangesApart(r0, r1) && RangesApart(r0, r2) && RangesApart(r0, r3)
      requires RangesApart(r1, r2) && RangesApart(r1, r3) && RangesApart(r2, r3)
      modifies pm.Repr
      ensures Valid() && Whole() && this.starIDMaxCount == starIDMaxCount && fresh(Repr - old(pm.Repr))
      ensures State() == Empty(starIDMaxCount)
      ensures filled == 0 && forall o :: o in foot ==> o.OfArray?
      ensures arena.arena.defaultSize == 64 * starIDMaxCount
      ensures OfArray(0) in foot && foot[OfArray(0)].size == MetaSpace.AlignSize(16 * starIDMaxCount)
      ensures OfArray(1) in foot && foot[OfArray(1)].size == MetaSpace.AlignSize(8 * starIDMaxCount)
      ensures OfArray(2) in foot && foot[OfArray(2)].size == MetaSpace.AlignSize(starIDMaxCount)
    {
      hide MetaMachine.MetaArena.Valid, MetaSpace.Outs, FootOk, Tally, MetaSpace.Inv, MetaSpace.AlignSize, PageSpace.Reservable, RangesApart;
      hide MetaSpace.Packed, PageMachine.PageManager.Valid, ArrayFoot;
      var own, placeListPtr, hashCachePtr, idmapPtr := OwnArena(pm, starIDMaxCount, r0, r1, r2, r3);
      this.arena := own;
      this.starIDMaxCount := starIDMaxCount;
      createdPlacesCount := 0;
      placelist := new StarPlace[starIDMaxCount](_ => StarPlace(0, [], 0, false));
      hashCache := new bv64[starIDMaxCount](_ => 0);
      idmap := new Byte[starIDMaxCount](_ => 0);
      filled := 0;
      foot := ArrayFoot(placeListPtr, hashCachePtr, idmapPtr, starIDMaxCount);
      new;
      Repr := {this, placelist, hashCache, idmap} + arena.Repr;
      assert State().slots == Empty(starIDMaxCount).slots;
      hide State, Addrs;
      ArraysOnly(placeListPtr, hashCachePtr, idmapPtr, starIDMaxCount, Outs(), State(), Addrs());
    }

    /** The ledger rewritten; nothing real is involved. */
    method Record(ghost f: Foot, ghost n: nat)
      requires Base()
      modifies this`foot, this`filled
      ensures Base() && foot == f && filled == n
      ensures State() == old(State()) && Addrs() == old(Addrs()) && Outs() == old(Outs()) && Whole() == old(Whole())
    {
      hide MetaMachine.MetaArena.Valid, MetaSpace.Outs, MetaSpace.Packed;
      foot := f;
      filled := n;
    }

    /** A block of the arena that nobody holds. */
    method TakeBlock(size: nat, alignment: nat, reserved: nat, ghost k: nat) returns (ptr: nat)
      requires Base() && MetaSpace.AlignSize(size) <= PageSpace.SEGMENT_SIZE && alignment == Pow2(k) && k <= 4
      requires PageSpace.Reservable(Segs(), reserved)
      modifies Repr
      ensures Base() && fresh(Repr - old(Repr)) && Whole() == old(Whole())
      ensures State() == old(State()) && Addrs() == old(Addrs()) && foot == old(foot) && filled == old(filled)
      ensures ptr != 0 && ptr !in old(Outs()) && Outs() == old(Outs())[ptr := MetaSpace.AlignSize(size)]
      ensures forall t :: old(PageSpace.Reservable(Segs(), t)) && RangesApart(reserved, t) ==> PageSpace.Reservable(Segs(), t)
    {
      hide MetaMachine.MetaArena.Valid, MetaSpace.Packed, MetaSpace.Inv, MetaSpace.Outs, MetaSpace.AlignSize, MetaSpace.ListFor;
      hide PageSpace.Reservable, Pow2, RangesApart;
      ptr := MetaClient.Acquire(arena, size, alignment, reserved, k);
      Repr := Repr + arena.Repr;
    }

    /** Give a held block back with a size: nothing is lost iff it is the size it was allocated with. */
    method ReturnBlock(ptr: nat, size: nat)
      requires Base() && ptr in Outs() && MetaSpace.AlignSize(size) <= Outs()[ptr]
      modifies Repr
      ensures Base() && Outs() == old(Outs()) - {ptr}
      ensures Whole() <==> old(Whole()) && MetaSpace.AlignSize(size) == old(Outs())[ptr]
      ensures State() == old(State()) && Addrs() == old(Addrs()) && foot == old(foot) && filled == old(filled) && Repr == old(Repr)
    {
      hide MetaMachine.MetaArena.Valid, MetaSpace.Packed, MetaSpace.Inv, MetaSpace.Outs, MetaSpace.AlignSize, MetaSpace.ListFor;
      MetaClient.GiveBack(arena, ptr, size);
    }

    /** The slot the lookup stops at. */
    method FindPlace(text: seq<Byte>) returns (found: Option<nat>)
      requires Tabled()
      ensures found == Find(State(), text)
    {
      hide HashString;
      var targetHash := HashOf(text);
      ghost var r := State();
      var i := 0;
      while i < createdPlacesCount
        invariant i <= createdPlacesCount
        invariant Find(r, text) == FindFrom(r, text, i)
      {
        assert r.slots[i] == SlotAt(i);
        if idmap[i] != 0 && hashCache[i] == targetHash {
          var place := placelist[i];
          if place.len == |text| && text <= place.text {
            return Some(i);
          }
        }
        i := i + 1;
      }
      return None;
    }

    /** `junk` is what follows the digits in the printer's buffer, up to the next zero. */
    method GetStarIdOf(raw: seq<Byte>, length: nat, junk: seq<Byte>) returns (id: nat)
      requires Tabled() && length <= |raw| && CString(junk)
      ensures var f := Find(State(), Sought(raw, length));
        id == if f.Some? then NumToStarId(f.value, junk) else BROKEN_ATOM
    {
      hide Find, NumToStarId, Terminated;
      var found := FindPlace(Sought(raw, length));
      if found.Some? {
        return NumToStarId(found.value, junk);
      }
      return BROKEN_ATOM;
    }

    /** The first place not in use, or the size of the table. */
    method FreePlace() returns (i: nat)
      requires Tabled()
      ensures i == FirstFree(State(), 0)
    {
      ghost var r := State();
      i := 0;
      while i < starIDMaxCount && idmap[i] != 0
        invariant i <= starIDMaxCount
        invariant FirstFree(r, 0) == FirstFree(r, i)
      {
        assert r.slots[i] == SlotAt(i);
        i := i + 1;
      }
      assert i < starIDMaxCount ==> r.slots[i] == SlotAt(i);
    }

    /** `None` is the panic of a full table.  A new text takes a block for its copy and one for the cell
        that points to it. */
    method Staridize(raw: seq<Byte>, length: nat, junk: seq<Byte>, r1: nat, r2: nat) returns (id: Option<nat>)
      requires Valid() && length <= |raw| && CString(junk) && MetaSpace.AlignSize(length) <= PageSpace.SEGMENT_SIZE
      requires PageSpace.Reservable(Segs(), r1) && PageSpace.Reservable(Segs(), r2) && RangesApart(r1, r2)
      modifies Repr
      ensures Valid() && fresh(Repr - old(Repr)) && Whole() == old(Whole())
      ensures var res := RegistrySpace.Staridize(old(State()), raw, length);
        if res.Some? then State() == res.value.0 && id == Some(NumToStarId(res.value.1, junk))
        else State() == old(State()) && id == None
      ensures var res := RegistrySpace.Staridize(old(State()), raw, length);
        if res.Some? && Find(old(State()), Sought(raw, length)).None? then
          filled == old(filled) + 1 && foot.Keys == old(foot).Keys + {OfText(res.value.1), OfCell(old(filled))}
        else foot == old(foot) && filled == old(filled) && Outs() == old(Outs())
    {
      hide Find, NumToStarId, HashString, Terminated, FirstFree, Fill, FootOk, Tally, Base, State, Addrs, Outs, Segs, Whole;
      hide PageSpace.Reservable, RangesApart, MetaSpace.AlignSize, Sought;
      ghost var r := State();
      var forFound := GetStarIdOf(raw, length, junk);
      IdsAreWhole(junk);
      if forFound != BROKEN_ATOM {
        return Some(forFound);
      }
      var i := FreePlace();
      FreeSlot(r);
      if i >= starIDMaxCount {
        return None;
      }
      SmallCell();
      var refText := TakeBlock(length, 1, r1, 0);
      var ptrToRef := TakeBlock(CELL_SIZE, 8, r2, 3);
      FillLedger(foot, r, Addrs(), filled, old(Outs()), i, length, refText, ptrToRef);
      FootFill(foot, r, Addrs(), filled, i, raw[..length], refText, ptrToRef);
      FillPlace(i, raw[..length], refText);
      Record(foot[OfText(i) := Piece(refText, MetaSpace.AlignSize(length))][OfCell(filled) := Piece(ptrToRef, MetaSpace.AlignSize(CELL_SIZE))],
             filled + 1);
      return Some(NumToStarId(i, junk));
    }

    /** Writes the copied text, its length and its hash into a free place. */
    method FillPlace(i: nat, refText: seq<Byte>, addr: nat)
      requires Base() && i < starIDMaxCount
      modifies this`createdPlacesCount, placelist, hashCache, idmap
      ensures Base() && State() == Fill(old(State()), i, refText) && Addrs() == old(Addrs())[i := addr]
      ensures Outs() == old(Outs()) && Whole() == old(Whole())
    {
      hide HashString, MetaMachine.MetaArena.Valid, MetaSpace.Outs, MetaSpace.Inv, MetaSpace.Packed;
      ghost var r := State();
      placelist[i] := StarPlace(addr, refText, |refText|, false);
      var hash := HashOf(refText);
      hashCache[i] := hash;
      idmap[i] := 1;
      if i >= createdPlacesCount {
        createdPlacesCount := i + 1;
      }
      forall j | 0 <= j < starIDMaxCount
        ensures State().slots[j] == Fill(r, i, refText).slots[j]
      {
        assert r.slots[j] == old(SlotAt(j));
        assert State().slots[j] == SlotAt(j);
      }
      assert State() == Fill(r, i, refText);
    }

    /** Text and length behind an id, for ids the table covers and for others. */
    method GetRaw(starId: nat) returns (text: Reading<seq<Byte>>)
      requires Tabled()
      ensures text == RawOf(State(), starId)
    {
      var idx := StarIdToNum(starId);
      if starId == BROKEN_ATOM || idx < createdPlacesCount {
        if idx >= starIDMaxCount {
          return Outside;
        }
        return if idmap[idx] != 0 then Read(placelist[idx].text) else Recycled;
      }
      return Read([]);
    }

    method LenOf(starId: nat) returns (len: Reading<nat>)
      requires Tabled()
      ensures len == RegistrySpace.LenOf(State(), starId)
    {
      var idx := StarIdToNum(starId);
      if starId == BROKEN_ATOM || idx < createdPlacesCount {
        return if idx < starIDMaxCount then Read(placelist[idx].len) else Outside;
      }
      return Read(0);
    }

    method SetMarkedAlive(i: nat)
      requires Valid() && i < starIDMaxCount
      modifies placelist
      ensures Valid() && State() == Mark(old(State()), i) && Repr == old(Repr) && foot == old(foot) && Whole() == old(Whole())
    {
      hide MetaMachine.MetaArena.Valid, FootOk, Tally;
      ghost var r := State();
      placelist[i] := placelist[i].(mark := true);
      forall j | 0 <= j < starIDMaxCount
        ensures State().slots[j] == Mark(r, i).slots[j]
      {
        assert r.slots[j] == old(SlotAt(j));
        assert State().slots[j] == SlotAt(j);
      }
      assert State() == Mark(r, i);
      assert Addrs() == old(Addrs());
      FootSame(foot, r, State(), Addrs(), filled);
    }

    /** The walk gives back the blocks of the texts that die, and no cell; the arena loses nothing iff every
        dying text's recorded length was its own. */
    method SweepPlaces() returns (killed: nat)
      requires Valid()
      modifies Repr
      ensures Valid() && Repr == old(Repr) && (State(), killed) == Sweep(old(State()))
      ensures foot == old(foot) - DeadTexts(old(State()), old(createdPlacesCount)) && filled == old(filled)
      ensures Whole() <==> old(Whole()) && LengthsFit(old(State()))
    {
      hide Valid, Base, State, Whole, SweepStep, SweepFrom, DeadTexts, FitBefore, GoesBackWhole, MetaSpace.AlignSize, Kill;
      hide RegistrySpace.Unmark;
      ghost var r := State();
      killed := 0;
      var i := 0;
      NothingYet(r);
      NoneDead(r);
      while i < createdPlacesCount
        invariant Valid() && Repr == old(Repr) && i <= createdPlacesCount == r.count
        invariant |State().slots| == |r.slots|
        invariant var rest := SweepFrom(State(), i); Sweep(r) == (rest.0, killed + rest.1)
        invariant forall j :: i <= j < |r.slots| ==> State().slots[j] == r.slots[j]
        invariant foot == old(foot) - DeadTexts(r, i) && filled == old(filled)
        invariant Whole() <==> old(Whole()) && FitBefore(r, i)
      {
        ghost var before := State();
        assert before.slots[i] == SlotAt(i) == r.slots[i];
        SweepStepSlots(before, i);
        DeadTextsStep(r, i);
        FitStep(r, i);
        SweepUnfold(before, i);
        if idmap[i] != 0 && !placelist[i].mark {
          KillText(i);
          killed := killed + 1;
        } else if idmap[i] != 0 {
          UnmarkText(i);
        }
        assert State() == SweepStep(before, i) by { SweepCases(before, i); }
        i := i + 1;
      }
      SweepEnd(State(), i);
    }

    /** Recycle the text of place `i` with its recorded length, then kill the place: if the length was lost,
        so is the rest of the block. */
    method KillText(i: nat)
      requires Valid() && i < starIDMaxCount && Doomed(State(), i)
      modifies Repr
      ensures Valid() && Repr == old(Repr) && createdPlacesCount == old(createdPlacesCount)
      ensures State() == Kill(old(State()), i) && foot == old(foot) - {OfText(i)} && filled == old(filled)
      ensures Whole() <==> old(Whole()) && GoesBackWhole(old(State()).slots[i])
    {
      hide Base, State, Addrs, Outs, FootOk, Tally, MetaSpace.AlignSize, Kill, Whole;
      ghost var r := State();
      assert r.slots[i] == SlotAt(i);
      TextHeld(foot, r, Addrs(), filled, Outs(), i);
      Monotone(r.slots[i].len, |r.slots[i].text|);
      TallyRemove(foot, Outs(), OfText(i));
      FootKill(foot, r, Addrs(), filled, i);
      ReturnBlock(placelist[i].addr, placelist[i].len);
      KillPlace(i);
      Record(foot - {OfText(i)}, filled);
    }

    method UnmarkText(i: nat)
      requires Valid() && i < starIDMaxCount
      modifies placelist
      ensures Valid() && Repr == old(Repr) && createdPlacesCount == old(createdPlacesCount)
      ensures State() == RegistrySpace.Unmark(old(State()), i) && foot == old(foot) && filled == old(filled)
      ensures Whole() == old(Whole())
    {
      hide Base, State, Addrs, Outs, FootOk, Tally, Whole;
      ghost var r := State();
      Unmark(i);
      FootSame(foot, r, State(), Addrs(), filled);
    }

    /** The kill: the place whose length is cleared is the first of the list, not place `i`. */
    method KillPlace(i: nat)
      requires Base() && i < starIDMaxCount
      modifies placelist, idmap
      ensures Base() && State() == Kill(old(State()), i) && Addrs() == old(Addrs()) && Outs() == old(Outs())
      ensures Whole() == old(Whole())
    {
      hide MetaMachine.MetaArena.Valid, MetaSpace.Outs, MetaSpace.Packed, MetaSpace.Inv;
      ghost var r := State();
      placelist[0] := placelist[0].(len := 0, mark := false);
      idmap[i] := 0;
      forall j | 0 <= j < starIDMaxCount
        ensures State().slots[j] == Kill(r, i).slots[j]
      {
        assert r.slots[j] == old(SlotAt(j));
        assert State().slots[j] == SlotAt(j);
      }
      assert State() == Kill(r, i);
    }

    method Unmark(i: nat)
      requires Base() && i < starIDMaxCount
      modifies placelist
      ensures Base() && State() == RegistrySpace.Unmark(old(State()), i) && Addrs() == old(Addrs()) && Outs() == old(Outs())
      ensures Whole() == old(Whole())
    {
      hide MetaMachine.MetaArena.Valid, MetaSpace.Outs, MetaSpace.Packed, MetaSpace.Inv;
      ghost var r := State();
      placelist[i] := placelist[i].(mark := false);
      forall j | 0 <= j < starIDMaxCount
        ensures State().slots[j] == RegistrySpace.Unmark(r, i).slots[j]
      {
        assert r.slots[j] == old(SlotAt(j));
        assert State().slots[j] == SlotAt(j);
      }
      assert State() == RegistrySpace.Unmark(r, i);
    }
  }
}
