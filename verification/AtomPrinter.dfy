/** The loops of the atom's parser and printer. */
module AtomPrinter {
  import opened Options
  import opened AtomText
  import opened AtomLiterals

  /** The parser's loop over the characters behind the star. */
  method ParseDigits(text: seq<Byte>) returns (num: nat)
    ensures num == Horner(0, text)
  {
    num := 0;
    for i := 0 to |text|
      invariant num < USHORT_RANGE && Horner(num, text[i..]) == Horner(0, text)
    {
      assert text[i..][0] == text[i] && text[i..][1..] == text[i + 1..];
      num := num * 36 % USHORT_RANGE;
      num := (num + Digit(text[i])) % USHORT_RANGE;
    }
  }

  lemma DigitsShift(n: nat, k: nat, tail: seq<Byte>)
    requires k > 0
    ensures Digits(n, k) + tail == Digits(n / 36, k - 1) + ([Charset(n % 36)] + tail)
  {
  }

  /** The printer's loops: digits from the right until the number is used up, then zeros. The byte behind
      the digits is not written. */
  method PrintDigits(buffer: array<Byte>, num: nat)
    requires buffer.Length >= 8 && num < USHORT_RANGE
    modifies buffer
    ensures buffer[..7] == [STAR] + Digits(num, 6) && buffer[7..] == old(buffer[7..])
    ensures buffer[0] == 42 && Numeral(buffer[1..7], num)
  {
    hide Charset, Digits, Numeral;
    buffer[0] := STAR;
    var idx := 6;
    var n := num;
    buffer[idx] := Charset(n % 36);
    n := n / 36;
    idx := idx - 1;
    DigitsShift(num, 6, []);
    assert Digits(num, 6) + [] == Digits(num, 6);
    assert buffer[6..7] == [Charset(num % 36)] + [];
    while n > 0 && idx > 0
      invariant 0 <= idx <= 5 && buffer[0] == STAR && buffer[7..] == old(buffer[7..])
      invariant Digits(n, idx) + buffer[idx + 1..7] == Digits(num, 6)
    {
      ghost var tail := buffer[idx + 1..7];
      buffer[idx] := Charset(n % 36);
      assert buffer[idx..7] == [Charset(n % 36)] + tail;
      DigitsShift(n, idx, tail);
      n := n / 36;
      idx := idx - 1;
    }
    while idx > 0
      invariant 0 <= idx <= 5 && buffer[0] == STAR && buffer[7..] == old(buffer[7..])
      invariant idx > 0 ==> n == 0
      invariant Digits(n, idx) + buffer[idx + 1..7] == Digits(num, 6)
    {
      ghost var tail := buffer[idx + 1..7];
      buffer[idx] := 48;
      assert buffer[idx..7] == [48] + tail;
      CharsetZero();
      DigitsShift(0, idx, tail);
      idx := idx - 1;
    }
    assert Digits(n, 0) == [];
    DigitsNumeral(num);
    assert buffer[1..7] == Digits(num, 6);
    assert buffer[..7] == [buffer[0]] + buffer[1..7];
  }

  lemma {:induction false} TerminatedCut(s: seq<Byte>, rest: seq<Byte>)
    ensures Terminated(s + [0] + rest) == Terminated(s)
    ensures CString(s) ==> Terminated(s) == s
  {
    var all := s + [0] + rest;
    if s != [] {
      assert all[0] == s[0] && all[1..] == s[1..] + [0] + rest;
      TerminatedCut(s[1..], rest);
      assert CString(s) ==> CString(s[1..]);
    }
  }

  /** How many bytes of a packed atom are copied; a size of zero wraps. */
  function Copied(bufferSize: nat): nat {
    if bufferSize == 0 || bufferSize > 4 then 4 else bufferSize - 1
  }

  lemma StarBit(a: nat)
    ensures HasStar(a) <==> a / 0x8000_0000 % 2 == 1
    ensures a == BROKEN_ATOM ==> HasStar(a)
  {
  }

  lemma FourBytes(a: nat)
    ensures Unpack(a) == [a % 256, a / 256 % 256, a / 256 / 256 % 256, a / 256 / 256 / 256 % 256]
  {
    assert AtomByte(a, 1) == AtomByte(a / 256, 0);
    assert AtomByte(a, 2) == AtomByte(a / 256, 1) == AtomByte(a / 256 / 256, 0);
    assert AtomByte(a, 3) == AtomByte(a / 256, 2) == AtomByte(a / 256 / 256, 1) == AtomByte(a / 256 / 256 / 256, 0);
  }

  /** The first `n` of four bytes, and a zero behind the four. */
  method CopyBytes(bytes: seq<Byte>, buffer: array<Byte>, n: nat)
    requires |bytes| == 4 && buffer.Length >= 5 && n <= 4
    modifies buffer
    ensures buffer[..] == bytes[..n] + old(buffer[n..4]) + [0] + old(buffer[5..])
  {
    ghost var was := buffer[..];
    for i := 0 to n
      invariant buffer[..i] == bytes[..i] && buffer[i..] == was[i..]
    {
      buffer[i] := bytes[i];
      assert buffer[..i + 1] == buffer[..i] + [bytes[i]];
      assert buffer[i + 1..] == was[i..][1..];
    }
    assert buffer[n..4] == was[n..][..4 - n] && buffer[5..] == was[n..][5 - n..];
    buffer[4] := 0;
    assert buffer[..] == buffer[..n] + buffer[n..4] + [buffer[4]] + buffer[5..];
  }

  lemma CutAfterFour(a: nat, was: seq<Byte>, n: nat)
    requires |was| >= 5 && n <= 4
    ensures n == 4 ==> Terminated(Unpack(a)[..n] + was[n..4] + [0] + was[5..]) == Terminated(Unpack(a))
  {
    if n == 4 {
      assert Unpack(a)[..n] + was[n..4] == Unpack(a);
      TerminatedCut(Unpack(a), was[5..]);
    }
  }

  /** Printing into a buffer: the broken atom writes nothing; an id leaves its text, properly terminated
      this time, whatever size is given; a packed atom leaves as many bytes as the size admits and a zero
      in fifth place, and so its text when the size is five or more. */
  method AtomToBuffer(a: nat, buffer: array<Byte>, bufferSize: nat)
    requires a != BROKEN_ATOM ==> buffer.Length >= if HasStar(a) then 8 else 5
    modifies buffer
    ensures AtomToText(a).None? ==> buffer[..] == old(buffer[..])
    ensures AtomToText(a).Some? && (HasStar(a) || bufferSize == 0 || bufferSize > 4) ==> Terminated(buffer[..]) == AtomToText(a).value
    ensures AtomToText(a).Some? && !HasStar(a) ==> var n := if 1 <= bufferSize <= 4 then bufferSize - 1 else 4;
      buffer[..] == Unpack(a)[..n] + old(buffer[n..4]) + [0] + old(buffer[5..])
    ensures a != 0xFFFF_FFFF && a / 0x8000_0000 % 2 == 1 ==>
      buffer.Length > 7 && buffer[0] == 42 && Numeral(buffer[1..7], a % 65536) && buffer[7] == 0
    ensures a / 0x8000_0000 % 2 == 0 ==> AtomToText(a) == Some(Terminated([a % 256, a / 256 % 256, a / 256 / 256 % 256, a / 256 / 256 / 256 % 256]))
  {
    StarBit(a);
    FourBytes(a);
    hide Digits, Terminated, AtomByte, HasStar, Numeral;
    if a == BROKEN_ATOM {
      return;
    }
    if HasStar(a) {
      buffer[7] := 0;
      PrintDigits(buffer, a % USHORT_RANGE);
      DigitsNonZero(a % USHORT_RANGE, 6);
      assert buffer[..] == buffer[..7] + [buffer[7]] + buffer[8..];
      TerminatedCut([STAR] + Digits(a % USHORT_RANGE, 6), buffer[8..]);
    } else {
      var n := Copied(bufferSize);
      ghost var was := buffer[..];
      assert was[n..4] == buffer[n..4] && was[5..] == buffer[5..];
      CopyBytes(Unpack(a), buffer, n);
      hide Unpack;
      CutAfterFour(a, was, n);
    }
  }
}
