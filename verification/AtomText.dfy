/** Atoms and their text: base-36 ids behind a star, or up to four bytes packed into a word. */
module AtomText {
  import opened Options

  type Byte = b: int | 0 <= b < 256

  /** A C string as the bytes before its terminator. */
  ghost predicate CString(s: seq<Byte>) {
    forall i :: 0 <= i < |s| ==> s[i] != 0
  }

  const STAR: Byte := 42
  const STAR_MASK: nat := 0x8000_0000
  const USHORT_RANGE: nat := 0x1_0000
  const BROKEN_ATOM: nat := 0xFFFF_FFFF

  // ---- Base 36 ----

  /** Value added for a character; other characters add nothing. */
  function Digit(c: Byte): nat {
    if 48 <= c <= 57 then c - 48 else if 97 <= c <= 122 then c - 97 + 10 else if 65 <= c <= 90 then c - 65 + 10 else 0
  }

  function Charset(d: nat): Byte
    requires d < 36
  {
    if d < 10 then 48 + d else 97 + d - 10
  }

  /** The parser's loop: a 16-bit Horner step per character. */
  function Horner(num: nat, s: seq<Byte>): (r: nat)
    requires num < USHORT_RANGE
    ensures r < USHORT_RANGE
    decreases s
  {
    if s == [] then num else Horner((num * 36 % USHORT_RANGE + Digit(s[0])) % USHORT_RANGE, s[1..])
  }

  /** `k` base-36 digits of `n`, most significant first. */
  function Digits(n: nat, k: nat): (r: seq<Byte>)
    ensures |r| == k
  {
    if k == 0 then [] else Digits(n / 36, k - 1) + [Charset(n % 36)]
  }

  // ---- Packed text ----

  function ByteAt(s: seq<Byte>, i: nat): Byte {
    if i < |s| then s[i] else 0
  }

  /** The first four bytes, little endian, zero padded. */
  function Pack(s: seq<Byte>): nat {
    Sum(ByteAt(s, 0), ByteAt(s, 1), ByteAt(s, 2), ByteAt(s, 3))
  }

  /** Byte `i` of an atom, least significant first. */
  function AtomByte(a: nat, i: nat): Byte {
    if i == 0 then a % 0x100 else AtomByte(a / 0x100, i - 1)
  }

  function Unpack(a: nat): seq<Byte> {
    [AtomByte(a, 0), AtomByte(a, 1), AtomByte(a, 2), AtomByte(a, 3)]
  }

  predicate HasStar(a: nat) {
    a / STAR_MASK % 2 == 1
  }

  function DropStar(a: nat): nat {
    a % STAR_MASK
  }

  /** What a reader of the buffer sees: everything before the first zero byte. */
  function Terminated(s: seq<Byte>): seq<Byte> {
    if s == [] || s[0] == 0 then [] else [s[0]] + Terminated(s[1..])
  }

  // ---- Parse and print ----

  function CharToAtom(text: seq<Byte>): nat {
    if text != [] && text[0] == STAR then STAR_MASK + Horner(0, text[1..]) else DropStar(Pack(text))
  }

  /** The broken atom leaves the buffer untouched. */
  function AtomToText(a: nat): Option<seq<Byte>> {
    if a == BROKEN_ATOM then None
    else if HasStar(a) then Some([STAR] + Digits(a % USHORT_RANGE, 6))
    else Some(Terminated(Unpack(a)))
  }

  function StarIdToNum(a: nat): nat {
    a % USHORT_RANGE
  }

  /** The id of slot `num` as the registry computes it: the buffer's last byte is never written, so the
      parse runs on over whatever bytes `junk` stand there before the next zero. */
  function NumToStarId(num: nat, junk: seq<Byte>): nat
    requires CString(junk)
  {
    CharToAtom([STAR] + Digits(num, 6) + junk)
  }

  // ---- Theorems ----

  lemma CharsetZero()
    ensures Charset(0) == 48
  {
  }

  lemma DigitOfCharset(d: nat)
    requires d < 36
    ensures Digit(Charset(d)) == d && Charset(d) != 0
  {
  }

  lemma {:induction false} HornerAppend(num: nat, s: seq<Byte>, t: seq<Byte>)
    requires num < USHORT_RANGE
    ensures Horner(num, s + t) == Horner(Horner(num, s), t)
    decreases s
  {
    if s == [] {
      assert s + t == t;
    } else {
      assert (s + t)[0] == s[0] && (s + t)[1..] == s[1..] + t;
      HornerAppend((num * 36 % USHORT_RANGE + Digit(s[0])) % USHORT_RANGE, s[1..], t);
    }
  }

  /** 36^k. */
  function Pow36(k: nat): (r: nat)
    ensures r > 0
  {
    if k == 0 then 1 else 36 * Pow36(k - 1)
  }

  /** Parsing printed digits gives the number back, and no step of the 16-bit loop wraps: after the
      first j digits the loop holds the leading part of the number itself. */
  lemma {:induction false} HornerDigits(n: nat, k: nat)
    requires n < USHORT_RANGE && n < Pow36(k)
    ensures Horner(0, Digits(n, k)) == n
    ensures forall j :: 0 <= j < k ==> Horner(0, Digits(n, k)[..j]) * 36 + Digit(Digits(n, k)[j]) < USHORT_RANGE
  {
    hide Charset, Digit, Horner;
    if k == 0 {
      HornerNone();
    } else {
      var s := Digits(n, k);
      HornerDigits(n / 36, k - 1);
      DigitOfCharset(n % 36);
      var lead := Digits(n / 36, k - 1);
      assert s == lead + [Charset(n % 36)];
      HornerAppend(0, lead, [Charset(n % 36)]);
      HornerOne(n / 36, Charset(n % 36));
      NoWrap(n);
      forall j | 0 <= j < k
        ensures Horner(0, s[..j]) * 36 + Digit(s[j]) < USHORT_RANGE
      {
        if j < k - 1 {
          assert s[..j] == lead[..j] && s[j] == lead[j];
        } else {
          assert s[..j] == lead;
        }
      }
    }
  }

  lemma NoWrap(n: nat)
    requires n < USHORT_RANGE
    ensures n / 36 * 36 + n % 36 == n && (n / 36 * 36 % USHORT_RANGE + n % 36) % USHORT_RANGE == n
  {
  }

  lemma HornerNone()
    ensures Horner(0, []) == 0
  {
  }

  lemma HornerOne(num: nat, c: Byte)
    requires num < USHORT_RANGE
    ensures Horner(num, [c]) == (num * 36 % USHORT_RANGE + Digit(c)) % USHORT_RANGE
  {
    assert [c][1..] == [];
  }

  lemma SixDigits(n: nat)
    requires n < USHORT_RANGE
    ensures Horner(0, Digits(n, 6)) == n && CString(Digits(n, 6))
    ensures forall j :: 0 <= j < 6 ==> Horner(0, Digits(n, 6)[..j]) * 36 + Digit(Digits(n, 6)[j]) < USHORT_RANGE
  {
    assert Pow36(2) == 1296;
    assert Pow36(4) == 1679616;
    assert Pow36(6) > 1679616;
    HornerDigits(n, 6);
    DigitsNonZero(n, 6);
  }

  lemma {:induction false} DigitsNonZero(n: nat, k: nat)
    ensures CString(Digits(n, k))
  {
    if k > 0 {
      DigitsNonZero(n / 36, k - 1);
      DigitOfCharset(n % 36);
    }
  }

  /** The atoms parsing can yield: a star with a 16-bit number, or four bytes below the star bit whose
      zeros stand at the end and which do not begin with the star's own character. */
  predicate Canonical(a: nat) {
    if HasStar(a) then a - STAR_MASK < USHORT_RANGE
    else ZerosLast(AtomByte(a, 0), AtomByte(a, 1), AtomByte(a, 2), AtomByte(a, 3)) && AtomByte(a, 0) != STAR
  }

  predicate ZerosLast(b0: Byte, b1: Byte, b2: Byte, b3: Byte) {
    (b0 == 0 ==> b1 == 0) && (b1 == 0 ==> b2 == 0) && (b2 == 0 ==> b3 == 0)
  }

  lemma ParsedIsCanonical(t: seq<Byte>)
    requires CString(t)
    ensures Canonical(CharToAtom(t)) && CharToAtom(t) < BROKEN_ATOM
  {
    hide Horner, DropStar, HasStar, AtomByte, Sum;
    if t != [] && t[0] == STAR {
      StarNumber(Horner(0, t[1..]));
    } else {
      var b0, b1, b2, b3 := ByteAt(t, 0), ByteAt(t, 1), ByteAt(t, 2), ByteAt(t, 3);
      assert ZerosLast(b0, b1, b2, b3) && b0 != STAR;
      TopBitGone(b0, b1, b2, b3);
      BytesOf(b0, b1, b2, b3 % 128);
    }
  }

  /** Printing an atom and parsing the text returns the atom iff the atom is canonical. */
  lemma PrintParseIff(a: nat)
    requires a < BROKEN_ATOM
    ensures AtomToText(a).Some? && CString(AtomToText(a).value)
    ensures CharToAtom(AtomToText(a).value) == a <==> Canonical(a)
  {
    hide Horner, Digits, Terminated, Sum, AtomByte, DropStar, HasStar, CharToAtom;
    if HasStar(a) {
      HighWord(a);
      NumToStarIdClean(a % USHORT_RANGE);
      assert [STAR] + Digits(a % USHORT_RANGE, 6) + [] == [STAR] + Digits(a % USHORT_RANGE, 6);
      DigitsNonZero(a % USHORT_RANGE, 6);
    } else {
      UnpackSum(a);
      PackedText(AtomByte(a, 0), AtomByte(a, 1), AtomByte(a, 2), AtomByte(a, 3));
    }
  }

  lemma HighWord(a: nat)
    requires a < BROKEN_ATOM && HasStar(a)
    ensures STAR_MASK + a % USHORT_RANGE == a <==> a - STAR_MASK < USHORT_RANGE
  {
    var rest := a - STAR_MASK;
    assert a % USHORT_RANGE == rest % USHORT_RANGE;
  }

  lemma UnpackSum(a: nat)
    requires a < BROKEN_ATOM && !HasStar(a)
    ensures Sum(AtomByte(a, 0), AtomByte(a, 1), AtomByte(a, 2), AtomByte(a, 3)) == a < STAR_MASK
  {
    NoStarSmall(a);
    ByteStep(a);
    ByteStep(a / 0x100);
    ByteStep(a / 0x100 / 0x100);
    ByteStep(a / 0x100 / 0x100 / 0x100);
    hide HasStar;
  }

  lemma NoStarSmall(a: nat)
    requires a < BROKEN_ATOM && !HasStar(a)
    ensures a < STAR_MASK
  {
  }

  lemma ByteStep(a: nat)
    ensures a == AtomByte(a, 0) + 0x100 * (a / 0x100)
    ensures AtomByte(a, 1) == AtomByte(a / 0x100, 0) && AtomByte(a, 2) == AtomByte(a / 0x100, 1)
    ensures AtomByte(a, 3) == AtomByte(a / 0x100, 2)
    ensures a < 0x100 ==> a / 0x100 == 0
  {
  }

  lemma PackedText(b0: Byte, b1: Byte, b2: Byte, b3: Byte)
    requires Sum(b0, b1, b2, b3) < STAR_MASK
    ensures CString(Terminated([b0, b1, b2, b3]))
    ensures CharToAtom(Terminated([b0, b1, b2, b3])) == Sum(b0, b1, b2, b3) <==> ZerosLast(b0, b1, b2, b3) && b0 != STAR
  {
    hide Horner, Pack, Terminated, Sum, DropStar;
    var s := [b0, b1, b2, b3];
    var u := Terminated(s);
    TerminatedPack(b0, b1, b2, b3);
    TerminatedIsCString(s);
    if b0 == STAR {
      assert u != [] && u[0] == STAR;
    } else {
      assert u == [] || u[0] != STAR;
      NothingToDrop(Pack(u));
    }
  }

  lemma NothingToDrop(a: nat)
    requires a < STAR_MASK
    ensures DropStar(a) == a
  {
  }

  /** A parsed atom, printed and parsed again, is the same atom. */
  lemma ParsePrintParse(t: seq<Byte>)
    requires CString(t)
    ensures AtomToText(CharToAtom(t)).Some?
    ensures CharToAtom(AtomToText(CharToAtom(t)).value) == CharToAtom(t)
  {
    ParsedIsCanonical(t);
    PrintParseIff(CharToAtom(t));
  }

  /** Four bytes as one number, little endian. */
  function Sum(b0: Byte, b1: Byte, b2: Byte, b3: Byte): nat {
    b0 + 0x100 * b1 + 0x1_0000 * b2 + 0x100_0000 * b3
  }

  lemma TopBitGone(b0: Byte, b1: Byte, b2: Byte, b3: Byte)
    ensures DropStar(Sum(b0, b1, b2, b3)) == Sum(b0, b1, b2, b3 % 128) < STAR_MASK
    ensures !HasStar(DropStar(Sum(b0, b1, b2, b3)))
  {
    var high: int := b3 / 128;
    assert Sum(b0, b1, b2, b3) == Sum(b0, b1, b2, b3 % 128) + STAR_MASK * high;
  }

  lemma BytesOf(b0: Byte, b1: Byte, b2: Byte, b3: Byte)
    ensures var a := Sum(b0, b1, b2, b3);
      AtomByte(a, 0) == b0 && AtomByte(a, 1) == b1 && AtomByte(a, 2) == b2 && AtomByte(a, 3) == b3
  {
    var a := Sum(b0, b1, b2, b3);
    var q1, q2 := b1 + 0x100 * b2 + 0x1_0000 * b3, b2 + 0x100 * b3;
    assert a / 0x100 == q1 && q1 / 0x100 == q2 && q2 / 0x100 == b3;
    assert AtomByte(a, 1) == AtomByte(q1, 0);
    assert AtomByte(a, 2) == AtomByte(q1, 1) == AtomByte(q2, 0);
    assert AtomByte(a, 3) == AtomByte(q1, 2) == AtomByte(q2, 1) == AtomByte(b3, 0);
  }

  lemma {:induction false} TerminatedIsCString(s: seq<Byte>)
    ensures CString(Terminated(s))
    ensures s != [] && s[0] != 0 ==> Terminated(s) != []
    ensures Terminated(s) != [] ==> s != [] && Terminated(s)[0] == s[0]
  {
    if s != [] && s[0] != 0 {
      TerminatedIsCString(s[1..]);
    }
  }

  /** Cutting a text at its first zero loses nothing iff only zeros follow. */
  lemma TerminatedPack(b0: Byte, b1: Byte, b2: Byte, b3: Byte)
    ensures Pack(Terminated([b0, b1, b2, b3])) <= Sum(b0, b1, b2, b3)
    ensures Pack(Terminated([b0, b1, b2, b3])) == Sum(b0, b1, b2, b3) <==> ZerosLast(b0, b1, b2, b3)
  {
    var s := [b0, b1, b2, b3];
    assert s[1..] == [b1, b2, b3] && s[1..][1..] == [b2, b3] && s[1..][1..][1..] == [b3] && s[1..][1..][1..][1..] == [];
    assert Terminated([b3]) == if b3 == 0 then [] else [b3];
    assert Terminated([b2, b3]) == if b2 == 0 then [] else [b2] + Terminated([b3]);
    assert Terminated([b1, b2, b3]) == if b1 == 0 then [] else [b1] + Terminated([b2, b3]);
  }

  /** Slot number to id when the byte behind the digits is zero. */
  lemma NumToStarIdClean(n: nat)
    requires n < USHORT_RANGE
    ensures NumToStarId(n, []) == STAR_MASK + n
  {
    hide Horner, Digits;
    SixDigits(n);
    assert ([STAR] + Digits(n, 6) + [])[1..] == Digits(n, 6);
  }

  /** Slot number, id, slot number: the round trip holds for every 16-bit number iff the byte behind the
      digits happens to be zero. */
  lemma SlotIdRoundTripIff(junk: seq<Byte>)
    requires CString(junk)
    ensures (forall n :: 0 <= n < USHORT_RANGE ==> StarIdToNum(NumToStarId(n, junk)) == n) <==> junk == []
  {
    hide NumToStarId, Digit;
    if junk == [] {
      forall n | 0 <= n < USHORT_RANGE
        ensures StarIdToNum(NumToStarId(n, junk)) == n
      {
        NumToStarIdClean(n);
        StarNumber(n);
      }
    } else {
      JunkParity(0, junk);
      JunkParity(1, junk);
      assert StarIdToNum(NumToStarId(0, junk)) != 0 || StarIdToNum(NumToStarId(1, junk)) != 1;
    }
  }

  /** After any further character the parity of the number depends on that character alone. */
  lemma JunkParity(n: nat, junk: seq<Byte>)
    requires n < USHORT_RANGE && junk != [] && CString(junk)
    ensures StarIdToNum(NumToStarId(n, junk)) % 2 == Digit(junk[|junk| - 1]) % 2
  {
    var all := [STAR] + Digits(n, 6) + junk;
    var lead, last := all[1..|all| - 1], junk[|junk| - 1];
    assert all[1..] == lead + [last];
    HornerAppend(0, lead, [last]);
    HornerOne(Horner(0, lead), last);
    Even36(Horner(0, lead), Digit(last));
    StarNumber(Horner(0, all[1..]));
  }

  lemma Even36(x: nat, d: nat)
    ensures (x * 36 % USHORT_RANGE + d) % USHORT_RANGE % 2 == d % 2
  {
  }

  lemma StarNumber(num: nat)
    requires num < USHORT_RANGE
    ensures (STAR_MASK + num) % USHORT_RANGE == num && HasStar(STAR_MASK + num)
  {
  }
}
