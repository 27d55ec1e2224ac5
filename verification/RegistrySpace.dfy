/** The atom registry: a table of interned texts, searched by cached hash and then by content. */
module RegistrySpace {
  import opened Options
  import opened AtomText

  const HASH_BASIS: bv64 := 14695981039346656037
  const HASH_PRIME: bv64 := 1099511628211

  /** `static_cast<uint64_t>` of a signed char. */
  function Widen(c: Byte): bv64 {
    if c < 128 then c as bv64 else 0xFFFF_FFFF_FFFF_FF00 | c as bv64
  }

  function Mix(hash: bv64, c: Byte): bv64 {
    (hash ^ Widen(c)) * HASH_PRIME
  }

  function HashFrom(hash: bv64, s: seq<Byte>): bv64
    decreases s
  {
    if s == [] then hash else HashFrom(Mix(hash, s[0]), s[1..])
  }

  function HashString(s: seq<Byte>): bv64 {
    HashFrom(HASH_BASIS, s)
  }

  /** One place of the table: its `idmap` flag, the text behind its pointer, the recorded length, the
      mark bit and the cached hash. */
  datatype Slot = Slot(used: bool, text: seq<Byte>, len: nat, mark: bool, hash: bv64)

  /** `count` is one more than the highest slot ever filled. */
  datatype Registry = Registry(slots: seq<Slot>, count: nat)

  function Empty(max: nat): Registry {
    Registry(seq(max, _ => Slot(false, [], 0, false, 0)), 0)
  }

  // ---- Operations ----

  predicate Matches(s: Slot, text: seq<Byte>) {
    s.used && s.hash == HashString(text) && s.len == |text| && text <= s.text
  }

  /** First matching slot from `i` on. */
  function FindFrom(r: Registry, text: seq<Byte>, i: nat): (f: Option<nat>)
    requires r.count <= |r.slots|
    ensures f.Some? ==> i <= f.value < r.count && Matches(r.slots[f.value], text)
    ensures f.None? ==> forall j :: i <= j < r.count ==> !Matches(r.slots[j], text)
    decreases r.count - i
  {
    if i >= r.count then None
    else if Matches(r.slots[i], text) then Some(i)
    else FindFrom(r, text, i + 1)
  }

  function Find(r: Registry, text: seq<Byte>): Option<nat>
    requires r.count <= |r.slots|
  {
    FindFrom(r, text, 0)
  }

  /** First unused slot from `i` on, or the table's size. */
  function FirstFree(r: Registry, i: nat): (f: nat)
    requires i <= |r.slots|
    ensures i <= f <= |r.slots|
    ensures f < |r.slots| ==> !r.slots[f].used
    ensures forall j :: i <= j < f ==> r.slots[j].used
    decreases |r.slots| - i
  {
    if i == |r.slots| || !r.slots[i].used then i else FirstFree(r, i + 1)
  }

  /** The text a lookup compares: up to the terminator when no length is given. */
  function Sought(raw: seq<Byte>, length: nat): seq<Byte>
    requires length <= |raw|
  {
    if length == 0 then Terminated(raw) else raw[..length]
  }

  function Fill(r: Registry, i: nat, text: seq<Byte>): Registry
    requires i < |r.slots|
  {
    Registry(r.slots[i := Slot(true, text, |text|, false, HashString(text))],
             if i >= r.count then i + 1 else r.count)
  }

  /** Interning answers a slot; `None` is the panic of a full table. The copy stored has the length that
      was passed, not the one the lookup worked out. */
  function Staridize(r: Registry, raw: seq<Byte>, length: nat): Option<(Registry, nat)>
    requires r.count <= |r.slots| && length <= |raw|
  {
    var found := Find(r, Sought(raw, length));
    if found.Some? then Some((r, found.value))
    else
      var i := FirstFree(r, 0);
      if i == |r.slots| then None else Some((Fill(r, i, raw[..length]), i))
  }

  function Mark(r: Registry, i: nat): Registry {
    if i < |r.slots| then r.(slots := r.slots[i := r.slots[i].(mark := true)]) else r
  }

  function Unmark(r: Registry, i: nat): Registry
    requires i < |r.slots|
  {
    r.(slots := r.slots[i := r.slots[i].(mark := false)])
  }

  /** Killing slot `i` clears the length and mark of slot 0, whichever slot `i` is. */
  function Kill(r: Registry, i: nat): (k: Registry)
    requires i < |r.slots|
    ensures |k.slots| == |r.slots| && k.count == r.count
  {
    var cleared := r.slots[0 := r.slots[0].(len := 0, mark := false)];
    r.(slots := cleared[i := cleared[i].(used := false)])
  }

  function SweepStep(r: Registry, i: nat): (k: Registry)
    requires i < |r.slots|
    ensures |k.slots| == |r.slots| && k.count == r.count
  {
    if r.slots[i].used && !r.slots[i].mark then Kill(r, i)
    else if r.slots[i].used then Unmark(r, i)
    else r
  }

  function SweepFrom(r: Registry, i: nat): (res: (Registry, nat))
    requires r.count <= |r.slots|
    ensures |res.0.slots| == |r.slots| && res.0.count == r.count
    decreases r.count - i
  {
    if i >= r.count then (r, 0)
    else
      var rest := SweepFrom(SweepStep(r, i), i + 1);
      (rest.0, rest.1 + if Doomed(r, i) then 1 else 0)
  }

  predicate Doomed(r: Registry, i: nat) {
    i < |r.slots| && r.slots[i].used && !r.slots[i].mark
  }

  function Sweep(r: Registry): (res: (Registry, nat))
    requires r.count <= |r.slots|
    ensures |res.0.slots| == |r.slots| && res.0.count == r.count
  {
    SweepFrom(r, 0)
  }

  /** What a read by id meets: a value, memory that was given back, or an address outside the table. */
  datatype Reading<T> = Read(value: T) | Recycled | Outside

  /** Text behind an id: the broken atom and ids inside the filled part index the table; other ids have the
      empty text. */
  function RawOf(r: Registry, id: nat): Reading<seq<Byte>> {
    var i := StarIdToNum(id);
    if id != BROKEN_ATOM && i >= r.count then Read([])
    else if i >= |r.slots| then Outside
    else if r.slots[i].used then Read(r.slots[i].text)
    else Recycled
  }

  /** The length stays in the place, used or not. */
  function LenOf(r: Registry, id: nat): Reading<nat> {
    var i := StarIdToNum(id);
    if id != BROKEN_ATOM && i >= r.count then Read(0)
    else if i < |r.slots| then Read(r.slots[i].len)
    else Outside
  }

  // ---- Invariants ----

  ghost predicate Fresh(r: Registry) {
    r.count <= |r.slots| && forall i :: r.count <= i < |r.slots| ==> !r.slots[i].used
  }

  /** The length is the text's own and the hash cache agrees with the stored text. */
  ghost predicate Recorded(r: Registry) {
    forall i :: 0 <= i < |r.slots| && r.slots[i].used ==>
      r.slots[i].len == |r.slots[i].text| && r.slots[i].hash == HashString(r.slots[i].text)
  }

  ghost predicate Distinct(r: Registry) {
    forall i, j :: 0 <= i < j < |r.slots| && r.slots[i].used && r.slots[j].used ==> r.slots[i].text != r.slots[j].text
  }

  ghost predicate Inv(r: Registry) {
    Fresh(r) && Recorded(r) && Distinct(r)
  }

  /** Slot number to live text. */
  ghost function Table(r: Registry): map<nat, seq<Byte>> {
    map i: nat | i < |r.slots| && r.slots[i].used :: r.slots[i].text
  }

  ghost predicate Holds(r: Registry, i: nat, text: seq<Byte>) {
    i < |r.slots| && r.slots[i].used && r.slots[i].text == text
  }
}
