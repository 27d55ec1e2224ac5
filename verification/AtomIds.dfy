/** Ids of registry slots: what the unwritten byte behind the digits does to them. */
module AtomIds {
  import opened AtomText

  /** The low sixteen bits. */
  function Low(x: int): (r: nat)
    ensures r < USHORT_RANGE
  {
    x % USHORT_RANGE
  }

  /** 4^k. */
  function Pow4(k: nat): (r: nat)
    ensures r > 0
  {
    if k == 0 then 1 else 4 * Pow4(k - 1)
  }

  // ---- Arithmetic on the low bits ----

  lemma LowShift(x: int, q: int)
    ensures Low(USHORT_RANGE * q + x) == Low(x)
  {
  }

  lemma LowSplit(x: int) returns (q: int)
    ensures x == USHORT_RANGE * q + Low(x)
  {
    q := x / USHORT_RANGE;
  }

  lemma LowSmall(x: nat)
    requires x < USHORT_RANGE
    ensures Low(x) == x && (Low(0 - x) == 0 <==> x == 0)
  {
  }

  /** Sums and products may be cut down to their low bits at any point. */
  lemma LowLinear(x: int, y: int, p: int)
    ensures Low(Low(x) * p + y) == Low(x * p + y) == Low(x * p + Low(y))
  {
    hide Low;
    var u := LowSplit(x);
    var v := LowSplit(y);
    assert x * p + y == USHORT_RANGE * (u * p) + (Low(x) * p + y);
    LowShift(Low(x) * p + y, u * p);
    assert x * p + y == USHORT_RANGE * v + (x * p + Low(y));
    LowShift(x * p + Low(y), v);
  }

  lemma LowDifference(x: int, y: int, p: int)
    ensures Low((Low(x) - Low(y)) * p) == Low((x - y) * p)
  {
    hide Low;
    var u := LowSplit(x);
    var v := LowSplit(y);
    var r, s := Low(x), Low(y);
    assert x - y == USHORT_RANGE * (u - v) + (r - s);
    assert (x - y) * p == USHORT_RANGE * ((u - v) * p) + (r - s) * p;
    LowShift((r - s) * p, (u - v) * p);
  }

  /** Nine is odd, so it loses nothing: its inverse is 36409. */
  lemma NineInvertible(z: int)
    ensures Low(9 * z) == 0 <==> Low(z) == 0
  {
    hide Low;
    var q := LowSplit(9 * z);
    var t := LowSplit(z);
    if Low(9 * z) == 0 {
      assert z == USHORT_RANGE * (36409 * q - 5 * z) + (36409 * 9 * z - 36409 * (USHORT_RANGE * q));
      LowShift(0, 36409 * q - 5 * z);
      LowSmall(0);
    } else if Low(z) == 0 {
      assert 9 * z == USHORT_RANGE * (9 * t) + 0;
      LowShift(0, 9 * t);
      LowSmall(0);
    }
  }

  // ---- The number an id carries ----

  lemma HornerStep(n: nat, s: seq<Byte>)
    requires n < USHORT_RANGE && s != []
    ensures Horner(n, s) == Horner(Low(n * 36 + Digit(s[0])), s[1..])
  {
    LowSplitSum(n * 36, Digit(s[0]));
  }

  lemma LowSplitSum(x: nat, d: nat)
    ensures (x % USHORT_RANGE + d) % USHORT_RANGE == Low(x + d)
  {
  }

  /** The parse of further characters is linear in the number it starts from. */
  lemma {:induction false} HornerLinear(n: nat, s: seq<Byte>)
    requires n < USHORT_RANGE
    ensures Horner(n, s) == Low(n * Pow36(|s|) + Horner(0, s))
    decreases s
  {
    hide Horner, Digit, Low;
    if s == [] {
      HornerEmpty(n);
      HornerEmpty(0);
      LowSmall(n);
      assert Pow36(0) == 1;
    } else {
      var d, rest, p := Digit(s[0]), s[1..], Pow36(|s| - 1);
      var h := Horner(0, rest);
      HornerStep(n, s);
      HornerStep(0, s);
      HornerLinear(Low(n * 36 + d), rest);
      HornerLinear(Low(d), rest);
      assert Pow36(|s|) == 36 * p;
      hide Pow36;
      LinearStep(n, d, p, h);
    }
  }

  lemma HornerEmpty(n: nat)
    requires n < USHORT_RANGE
    ensures Horner(n, []) == n
  {
  }

  lemma LinearStep(n: int, d: int, p: int, h: int)
    ensures Low(Low(n * 36 + d) * p + h) == Low(n * (36 * p) + Low(Low(d) * p + h))
  {
    hide Low;
    LowLinear(n * 36 + d, h, p);
    LowLinear(d, h, p);
    LowLinear(n, d * p + h, 36 * p);
    assert (n * 36 + d) * p + h == n * (36 * p) + (d * p + h);
  }

  lemma IdOf(n: nat, junk: seq<Byte>)
    requires n < USHORT_RANGE && CString(junk)
    ensures NumToStarId(n, junk) == STAR_MASK + Horner(n, junk)
    ensures StarIdToNum(NumToStarId(n, junk)) == Horner(n, junk)
  {
    hide Horner, Digits;
    SixDigits(n);
    var text := [STAR] + Digits(n, 6) + junk;
    assert text[1..] == Digits(n, 6) + junk;
    HornerAppend(0, Digits(n, 6), junk);
    StarNumber(Horner(n, junk));
  }

  /** The number an id carries, for any bytes behind the digits. */
  lemma IdNumber(n: nat, junk: seq<Byte>)
    requires n < USHORT_RANGE && CString(junk)
    ensures StarIdToNum(NumToStarId(n, junk)) == Low(n * Pow36(|junk|) + Horner(0, junk))
  {
    IdOf(n, junk);
    HornerLinear(n, junk);
  }

  // ---- When two ids agree ----

  lemma {:induction false} HornerAgreeIff(x: nat, y: nat, s: seq<Byte>)
    requires x < USHORT_RANGE && y < USHORT_RANGE
    ensures Horner(x, s) == Horner(y, s) <==> Low((x - y) * Pow4(|s|)) == 0
    decreases s
  {
    hide Horner, Digit, Low;
    if s == [] {
      HornerEmpty(x);
      HornerEmpty(y);
      assert Pow4(0) == 1;
      LowDistance(x, y);
    } else {
      var d, p := Digit(s[0]), Pow4(|s| - 1);
      HornerStep(x, s);
      HornerStep(y, s);
      HornerAgreeIff(Low(x * 36 + d), Low(y * 36 + d), s[1..]);
      assert Pow4(|s|) == 4 * p;
      hide Pow4;
      LowDifference(x * 36 + d, y * 36 + d, p);
      assert (x * 36 + d - (y * 36 + d)) * p == 9 * ((x - y) * (4 * p));
      NineInvertible((x - y) * (4 * p));
    }
  }

  lemma LowDistance(x: nat, y: nat)
    requires x < USHORT_RANGE && y < USHORT_RANGE
    ensures Low((x - y) * 1) == 0 <==> x == y
  {
    hide Low;
    if x >= y {
      LowSmall(x - y);
    } else {
      LowSmall(y - x);
    }
  }

  /** Two slots printed over the same bytes get the same id iff their distance times 4^|junk| is a
      multiple of 65536. */
  lemma IdsAgreeIff(i: nat, j: nat, junk: seq<Byte>)
    requires i < USHORT_RANGE && j < USHORT_RANGE && CString(junk)
    ensures NumToStarId(i, junk) == NumToStarId(j, junk) <==> Low((i - j) * Pow4(|junk|)) == 0
  {
    hide NumToStarId, Low;
    IdOf(i, junk);
    IdOf(j, junk);
    HornerAgreeIff(i, j, junk);
  }

  /** Over different bytes the carried numbers decide. */
  lemma IdsAgreeApartIff(i: nat, a: seq<Byte>, j: nat, b: seq<Byte>)
    requires i < USHORT_RANGE && j < USHORT_RANGE && CString(a) && CString(b)
    ensures NumToStarId(i, a) == NumToStarId(j, b) <==>
      Low(i * Pow36(|a|) + Horner(0, a)) == Low(j * Pow36(|b|) + Horner(0, b))
  {
    hide NumToStarId, Low;
    IdOf(i, a);
    IdOf(j, b);
    HornerLinear(i, a);
    HornerLinear(j, b);
  }

  /** Few enough slots, or few enough bytes behind the digits. */
  predicate Narrow(slots: nat, junk: seq<Byte>) {
    slots <= 1 || slots * Pow4(|junk|) <= USHORT_RANGE
  }

  /** Ids tell the slots of a table apart iff the table is narrow enough for the bytes behind the digits:
      a table of 256 slots for up to four such bytes. */
  lemma IdsInjectiveIff(slots: nat, junk: seq<Byte>)
    requires slots <= USHORT_RANGE && CString(junk)
    ensures (forall i, j :: 0 <= i < j < slots ==> NumToStarId(i, junk) != NumToStarId(j, junk)) <==> Narrow(slots, junk)
  {
    hide NumToStarId, Pow4, Low;
    if Narrow(slots, junk) {
      forall i, j | 0 <= i < j < slots
        ensures NumToStarId(i, junk) != NumToStarId(j, junk)
      {
        NarrowApart(slots, junk, i, j);
      }
    } else {
      var d := Collision(slots, |junk|);
      IdsAgreeIff(0, d, junk);
    }
  }

  lemma NarrowApart(slots: nat, junk: seq<Byte>, i: nat, j: nat)
    requires slots <= USHORT_RANGE && CString(junk) && Narrow(slots, junk) && i < j < slots
    ensures NumToStarId(i, junk) != NumToStarId(j, junk)
  {
    hide NumToStarId, Pow4, Low;
    IdsAgreeIff(i, j, junk);
    var p := Pow4(|junk|);
    MoreIsMore(1, j - i, p);
    MoreIsMore(j - i + 1, slots, p);
    assert (j - i + 1) * p == (j - i) * p + p;
    assert (i - j) * p == 0 - (j - i) * p;
    LowSmall((j - i) * p);
  }

  /** A distance inside the table at which ids collide. */
  lemma Collision(slots: nat, m: nat) returns (d: nat)
    requires slots > 1 && slots * Pow4(m) > USHORT_RANGE
    ensures 0 < d < slots && Low((0 - d) * Pow4(m)) == 0
  {
    hide Low;
    Pow4Eight();
    hide Pow4;
    LowSmall(0);
    if m >= 8 {
      d := 1;
      Pow4Sum(8, m - 8);
      assert (0 - d) * Pow4(m) == USHORT_RANGE * (0 - Pow4(m - 8)) + 0;
      LowShift(0, 0 - Pow4(m - 8));
    } else {
      d := Pow4(8 - m);
      Pow4Sum(8 - m, m);
      if d >= slots {
        MoreIsMore(slots, d, Pow4(m));
      }
      assert (0 - d) * Pow4(m) == 0 - d * Pow4(m) == USHORT_RANGE * (-1) + 0;
      LowShift(0, -1);
    }
  }

  lemma MoreIsMore(a: nat, b: nat, p: nat)
    requires a <= b
    ensures a * p <= b * p
  {
  }

  lemma Pow4Eight()
    ensures Pow4(8) == USHORT_RANGE
  {
    assert Pow4(4) == 256;
    Pow4Sum(4, 4);
  }

  lemma {:induction false} Pow4Sum(a: nat, b: nat)
    ensures Pow4(a) * Pow4(b) == Pow4(a + b)
  {
    if a > 0 {
      Pow4Sum(a - 1, b);
      assert Pow4(a) * Pow4(b) == 4 * (Pow4(a - 1) * Pow4(b));
    }
  }

  /** Five characters behind the digits: slots 0 and 64 get one id. */
  lemma FiveBytesCollide(junk: seq<Byte>)
    requires CString(junk) && |junk| == 5
    ensures NumToStarId(0, junk) == NumToStarId(64, junk)
  {
    hide NumToStarId;
    IdsAgreeIff(0, 64, junk);
    assert Pow4(5) == 1024;
  }

  /** One slot, printed over two different bytes, gets two ids unless the bytes are the same digit. */
  lemma ChangingByteSplits(i: nat, a: Byte, b: Byte)
    requires i < USHORT_RANGE && a != 0 && b != 0
    ensures NumToStarId(i, [a]) == NumToStarId(i, [b]) <==> Digit(a) == Digit(b)
  {
    hide Horner, NumToStarId;
    IdOf(i, [a]);
    IdOf(i, [b]);
    HornerOne(i, a);
    HornerOne(i, b);
    DigitsApart(i * 36 % USHORT_RANGE, Digit(a), Digit(b));
  }

  lemma DigitsApart(x: nat, a: nat, b: nat)
    requires a < USHORT_RANGE && b < USHORT_RANGE && x < USHORT_RANGE
    ensures (x + a) % USHORT_RANGE == (x + b) % USHORT_RANGE <==> a == b
  {
  }
}
