/** Machine words as their bits, least significant bit first. */
module Words {
  type Word = seq<bool>

  function Zero(n: nat): (w: Word)
    ensures |w| == n
  {
    seq(n, _ => false)
  }

  /** `1 << k`, or-ed into a word. */
  function SetBit(w: Word, k: nat): Word
    requires k < |w|
  {
    w[k := true]
  }

  /** `~(1 << k)`, and-ed into a word. */
  function ClearBit(w: Word, k: nat): Word
    requires k < |w|
  {
    w[k := false]
  }

  function Not(w: Word): Word {
    seq(|w|, i requires 0 <= i < |w| => !w[i])
  }

  function And(v: Word, w: Word): Word
    requires |v| == |w|
  {
    seq(|v|, i requires 0 <= i < |v| => v[i] && w[i])
  }

  /** Logical shift right: zeros enter at the top. */
  function Shr(w: Word, b: nat): (r: Word)
    requires b <= |w|
    ensures |r| == |w|
    ensures forall j :: 0 <= j < |w| ==> r[j] == (j + b < |w| && w[j + b])
  {
    w[b..] + Zero(b)
  }

  /** `~0 << t`: the bits from `t` upwards. */
  function HighMask(n: nat, t: nat): Word {
    seq(n, i => i >= t)
  }

  predicate IsZero(w: Word) {
    forall i :: 0 <= i < |w| ==> !w[i]
  }

  predicate IsAllOnes(w: Word) {
    forall i :: 0 <= i < |w| ==> w[i]
  }

  /** Count of trailing zeros; the whole width when no bit is set. */
  function CountrZero(w: Word): (r: nat)
    ensures r <= |w|
    ensures forall j :: 0 <= j < r ==> !w[j]
    ensures r < |w| ==> w[r]
  {
    if |w| == 0 || w[0] then 0 else 1 + CountrZero(w[1..])
  }
}
