/** Atoms and numerals in numbers: the printed alphabet, the place values, the bits of an atom. */
module AtomLiterals {
  import opened AtomText

  /** The value of a printed character: '0' to '9', then 'a' to 'z'. */
  function Value(c: Byte): int {
    if c <= 57 then c - 48 else c - 87
  }

  /** Six characters of that alphabet that read as `n` in base 36. */
  predicate Numeral(s: seq<Byte>, n: nat) {
    && |s| == 6 && (forall i :: 0 <= i < 6 ==> 48 <= s[i] <= 57 || 97 <= s[i] <= 122)
    && Value(s[0]) * 60466176 + Value(s[1]) * 1679616 + Value(s[2]) * 46656 + Value(s[3]) * 1296 + Value(s[4]) * 36 + Value(s[5]) == n
  }

  lemma CharsetValue(d: nat)
    requires d < 36
    ensures var c := Charset(d); (48 <= c <= 57 || 97 <= c <= 122) && Value(c) == d
  {
  }

  lemma DigitsLast(n: nat, k: nat)
    requires k > 0
    ensures |Digits(n / 36, k - 1)| == k - 1 && Digits(n, k) == Digits(n / 36, k - 1) + [Charset(n % 36)]
  {
  }

  /** The six digits printed for a 16-bit number are its numeral. */
  lemma DigitsNumeral(n: nat)
    requires n < 65536
    ensures Numeral(Digits(n, 6), n)
  {
    hide Digits, Charset, Value;
    var q1 := n / 36;
    var q2 := q1 / 36;
    var q3 := q2 / 36;
    var q4 := q3 / 36;
    var q5 := q4 / 36;
    assert q5 / 36 == 0;
    DigitsLast(n, 6);
    DigitsLast(q1, 5);
    DigitsLast(q2, 4);
    DigitsLast(q3, 3);
    DigitsLast(q4, 2);
    DigitsLast(q5, 1);
    CharsetValue(n % 36);
    CharsetValue(q1 % 36);
    CharsetValue(q2 % 36);
    CharsetValue(q3 % 36);
    CharsetValue(q4 % 36);
    CharsetValue(q5 % 36);
  }

  /** The parser reads both cases alike and takes any other character for zero. */
  lemma DigitCases(c: Byte)
    ensures 65 <= c <= 90 ==> Digit(c) == Digit(c + 32) == c - 55
    ensures 48 <= c <= 57 ==> Digit(c) == c - 48
    ensures !(48 <= c <= 57) && !(65 <= c <= 90) && !(97 <= c <= 122) ==> Digit(c) == 0
  {
  }

  /** Parsed ids lie from 0x80000000 on. */
  lemma ParsedIds(t: seq<Byte>)
    requires t != [] && t[0] == 42
    ensures 0x8000_0000 <= CharToAtom(t) < 0x8001_0000
  {
    hide Pack, Horner;
  }

  /** A byte of the text, zero behind its end. */
  function At(t: seq<Byte>, i: nat): int {
    if i < |t| then t[i] else 0
  }

  /** Other texts are their first four bytes, the first one lowest, without the top bit. */
  lemma ParsedBytes(t: seq<Byte>)
    requires t == [] || t[0] != 42
    ensures CharToAtom(t) == At(t, 0) + 256 * At(t, 1) + 65536 * At(t, 2) + 16777216 * (At(t, 3) % 128)
  {
    var b0, b1, b2, b3 := ByteAt(t, 0), ByteAt(t, 1), ByteAt(t, 2), ByteAt(t, 3);
    TopBitGone(b0, b1, b2, b3);
    hide Horner, DropStar, HasStar;
  }
}
