/** Powers of two, and addresses whose low bits are clear. */
module Powers {
  function Pow2(k: nat): (r: nat)
    ensures r > 0
  {
    if k == 0 then 1 else 2 * Pow2(k - 1)
  }

  /** The low `k` bits of `x` are clear; see AlignedIsMultiple. */
  predicate Aligned(x: nat, k: nat) {
    k == 0 || (x % 2 == 0 && Aligned(x / 2, k - 1))
  }

  /** `x ^ (1 << k)`, bit by bit. */
  function FlipBit(x: nat, k: nat): nat {
    if k == 0 then (if x % 2 == 0 then x + 1 else x - 1)
    else 2 * FlipBit(x / 2, k - 1) + x % 2
  }

  lemma {:induction false} AlignedIsMultiple(x: nat, k: nat) returns (q: nat)
    requires Aligned(x, k)
    ensures x == q * Pow2(k)
  {
    if k == 0 {
      q := x;
    } else {
      q := AlignedIsMultiple(x / 2, k - 1);
      assert x == 2 * (q * Pow2(k - 1)) == q * (2 * Pow2(k - 1));
    }
  }

  lemma {:induction false} MultipleIsAligned(q: nat, k: nat)
    ensures Aligned(q * Pow2(k), k)
  {
    if k > 0 {
      assert q * Pow2(k) == 2 * (q * Pow2(k - 1));
      MultipleIsAligned(q, k - 1);
    }
  }

  lemma {:induction false} Pow2Monotone(j: nat, k: nat)
    requires j <= k
    ensures Pow2(j) <= Pow2(k)
    ensures j < k ==> 2 * Pow2(j) <= Pow2(k)
  {
    if j < k {
      Pow2Monotone(j, k - 1);
    }
  }

  /** Alignment to a power is alignment to every smaller one. */
  lemma {:induction false} AlignedDown(x: nat, k: nat, j: nat)
    requires j <= k && Aligned(x, k)
    ensures Aligned(x, j)
  {
    if j > 0 {
      AlignedDown(x / 2, k - 1, j - 1);
    }
  }

  lemma {:induction false} AlignedSum(x: nat, y: nat, k: nat)
    requires Aligned(x, k) && Aligned(y, k)
    ensures Aligned(x + y, k)
  {
    if k > 0 {
      AlignedSum(x / 2, y / 2, k - 1);
      assert (x + y) / 2 == x / 2 + y / 2;
    }
  }

  lemma {:induction false} AlignedDifference(x: nat, y: nat, k: nat)
    requires Aligned(x, k) && Aligned(y, k) && x >= y
    ensures Aligned(x - y, k)
  {
    if k > 0 {
      AlignedDifference(x / 2, y / 2, k - 1);
      assert (x - y) / 2 == x / 2 - y / 2;
    }
  }

  lemma {:induction false} ZeroAligned(k: nat)
    ensures Aligned(0, k)
  {
    if k > 0 {
      ZeroAligned(k - 1);
    }
  }

  /** Distinct aligned addresses are at least 2^k apart. */
  lemma {:induction false} AlignedGap(x: nat, y: nat, k: nat)
    requires Aligned(x, k) && Aligned(y, k) && x < y
    ensures x + Pow2(k) <= y
  {
    if k > 0 {
      AlignedGap(x / 2, y / 2, k - 1);
    }
  }

  lemma {:induction false} AlignedPow(j: nat, k: nat)
    requires j <= k
    ensures Aligned(Pow2(k), j)
  {
    if j > 0 {
      AlignedPow(j - 1, k - 1);
    }
  }

  /** Two aligned windows are nested or disjoint. */
  lemma Laminar(x: nat, j: nat, y: nat, k: nat)
    requires j <= k && Aligned(x, j) && Aligned(y, k)
    ensures x + Pow2(j) <= y || y + Pow2(k) <= x || (y <= x && x + Pow2(j) <= y + Pow2(k))
  {
    hide *;
    AlignedDown(y, k, j);
    AlignedPow(j, k);
    AlignedSum(y, Pow2(k), j);
    if x < y {
      AlignedGap(x, y, j);
    } else if x < y + Pow2(k) {
      AlignedGap(x, y + Pow2(k), j);
    }
  }

  /** Flipping bit k of an aligned address: an involution that moves by exactly 2^k inside the
      aligned window of twice the size. */
  lemma {:induction false} FlipPair(x: nat, k: nat)
    requires Aligned(x, k)
    ensures var y := FlipBit(x, k);
      && Aligned(y, k) && FlipBit(y, k) == x
      && (x < y ==> y == x + Pow2(k) && Aligned(x, k + 1))
      && (x > y ==> x == y + Pow2(k) && Aligned(y, k + 1))
      && x != y
  {
    if k > 0 {
      FlipPair(x / 2, k - 1);
    }
  }
}
