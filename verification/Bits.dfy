/** Shifts, set bits and powers of two, as the Merkle code uses them on its node counts.

    The source halves an index once a layer, sometimes rounding down (`index >> 1`) and sometimes
    up (`(index + 1) >> 1`).  `Shr` and `CeilShr` iterate these two steps; the lemmas relate them
    to each other and to the intervals of leaves they stand for. */
module Bits {

  // The values of a C++ uint32_t.
  type uint32 = n: int | 0 <= n < 0x1_0000_0000

  // Above this count the `1 << diff` of the cover search would shift a 32-bit int out of range.
  const COUNT_LIMIT := 0x8000_0000

  function Pow2(k: nat): (r: nat)
    ensures r >= 1
  {
    if k == 0 then 1 else 2 * Pow2(k - 1)
  }

  /** `n >> k` */
  function Shr(n: nat, k: nat): nat {
    if k == 0 then n else Shr(n / 2, k - 1)
  }

  /** `n` after `k` steps of `n = (n + 1) >> 1` */
  function CeilShr(n: nat, k: nat): nat {
    if k == 0 then n else CeilShr((n + 1) / 2, k - 1)
  }

  /** `n << k` on a uint32_t: the bits shifted out are lost. */
  function Shl32(n: nat, k: nat): uint32 {
    (n * Pow2(k)) % 0x1_0000_0000
  }

  /** How many bits of `n` are set. */
  function Ones(n: nat): nat {
    if n == 0 then 0 else n % 2 + Ones(n / 2)
  }

  /** The least `d` with `n <= 2^d`. */
  function CeilLog2(n: nat): nat {
    if n <= 1 then 0 else 1 + CeilLog2((n + 1) / 2)
  }

  lemma {:induction false} Pow2Step(k: nat)
    ensures Pow2(0) == 1 && Pow2(k + 1) == 2 * Pow2(k)
  {
  }

  lemma {:induction false} CeilLog2Step(half: nat)
    ensures half >= 1 ==> CeilLog2(2 * half + 1) == 1 + CeilLog2(half + 1)
    ensures CeilLog2(2 * half + 2) == 1 + CeilLog2(half + 1)
  {
    assert (2 * half + 2) / 2 == half + 1;
    assert (2 * half + 3) / 2 == half + 1;
  }

  /** The library's `calcluate_max_depth`: the number of layers of a tree over `n` leaves. */
  function MaxDepth(n: nat): nat {
    if n == 0 then 0 else CeilLog2(n) + 1
  }

  lemma {:induction false} ShrStep(n: nat, k: nat)
    ensures Shr(n, k + 1) == Shr(n, k) / 2
  {
    if k > 0 {
      ShrStep(n / 2, k - 1);
    }
  }

  lemma {:induction false} CeilShrStep(n: nat, k: nat)
    ensures CeilShr(n, k + 1) == (CeilShr(n, k) + 1) / 2
  {
    if k > 0 {
      CeilShrStep((n + 1) / 2, k - 1);
    }
  }

  lemma {:induction false} CeilShrUnfold(n: nat, k: nat)
    ensures CeilShr(n, k) == if k == 0 then n else CeilShr((n + 1) / 2, k - 1)
  {
  }

  /** Rounding up is rounding down for the predecessor: `ceil(n / 2^k) == (n - 1) >> k, plus one`. */
  lemma {:induction false} CeilIsFloorOfPredecessor(n: nat, k: nat)
    requires n >= 1
    ensures CeilShr(n, k) == Shr(n - 1, k) + 1
  {
    if k > 0 {
      assert (n + 1) / 2 - 1 == (n - 1) / 2;
      CeilIsFloorOfPredecessor((n + 1) / 2, k - 1);
    }
  }

  lemma {:induction false} MulMonotone(a: nat, b: nat, p: nat)
    requires a <= b
    ensures a * p <= b * p
  {
  }

  lemma {:induction false} MulDouble(s: int, p: int)
    ensures s * (2 * p) == 2 * (s * p)
  {
  }

  lemma {:induction false} ShrBounds(n: nat, k: nat)
    ensures Shr(n, k) * Pow2(k) <= n < (Shr(n, k) + 1) * Pow2(k)
  {
    if k > 0 {
      ShrBounds(n / 2, k - 1);
      MulDouble(Shr(n, k), Pow2(k - 1));
      MulDouble(Shr(n, k) + 1, Pow2(k - 1));
    }
  }

  /** `CeilShr(n, k)` is the one index whose block of `2^k` leaves contains leaf `n`. */
  lemma {:induction false} CeilShrIsCover(n: nat, k: nat, index: nat)
    requires index >= 1
    ensures (index - 1) * Pow2(k) < n <= index * Pow2(k) <==> CeilShr(n, k) == index
  {
    if k > 0 {
      CeilShrIsCover((n + 1) / 2, k - 1, index);
      MulDouble(index - 1, Pow2(k - 1));
      MulDouble(index, Pow2(k - 1));
    }
  }

  lemma {:induction false} CeilShrUpper(n: nat, k: nat)
    ensures n <= CeilShr(n, k) * Pow2(k)
  {
    if n == 0 {
    } else {
      CeilIsFloorOfPredecessor(n, k);
      ShrBounds(n - 1, k);
    }
  }

  lemma {:induction false} CeilShrPositive(n: nat, k: nat)
    requires n >= 1
    ensures CeilShr(n, k) >= 1
  {
    CeilIsFloorOfPredecessor(n, k);
  }

  lemma {:induction false} CeilShrOfOne(k: nat)
    ensures CeilShr(1, k) == 1
  {
    if k > 0 {
      CeilShrOfOne(k - 1);
    }
  }

  /** `CeilLog2` brings a count down to one: the tree over `n` leaves has a single node on top. */
  lemma {:induction false} CeilLog2Top(n: nat)
    requires n >= 1
    ensures CeilShr(n, CeilLog2(n)) == 1
  {
    if n > 1 {
      CeilLog2Top((n + 1) / 2);
    }
  }

  /** Past the top layer no bit of the count is left. */
  lemma {:induction false} ShrPastTop(n: nat)
    ensures Shr(n, MaxDepth(n)) == 0
  {
    if n > 0 {
      var d := CeilLog2(n);
      CeilLog2Top(n);
      CeilIsFloorOfPredecessor(n, d);
      ShrBounds(n - 1, d);
      ShrBounds(n, d + 1);
      MulAtLeast(Shr(n, d + 1), Pow2(d + 1));
    }
  }

  lemma {:induction false} MulAtLeast(q: nat, p: nat)
    ensures q >= 1 ==> q * p >= p
  {
  }

  /** `CeilLog2` is the logarithm its name says: `2^(d-1) < n <= 2^d`. */
  lemma {:induction false} CeilLog2Bounds(n: nat)
    requires n >= 1
    ensures n <= Pow2(CeilLog2(n))
    ensures n > 1 ==> CeilLog2(n) >= 1 && Pow2(CeilLog2(n) - 1) < n
  {
    var half := (n + 1) / 2;
    if n > 2 {
      CeilLog2Bounds(half);
      hide Pow2;
      assert CeilLog2(n) == 1 + CeilLog2(half);
      Pow2Step(CeilLog2(half));
      Pow2Step(CeilLog2(half) - 1);
    }
  }

  lemma {:induction false} Pow2Add(i: nat, j: nat)
    ensures Pow2(i + j) == Pow2(i) * Pow2(j)
  {
    if i > 0 {
      Pow2Add(i - 1, j);
      assert 2 * (Pow2(i - 1) * Pow2(j)) == (2 * Pow2(i - 1)) * Pow2(j);
    }
  }

  lemma {:induction false} OnesDouble(n: nat)
    ensures Ones(2 * n) == Ones(n) && Ones(2 * n + 1) == Ones(n) + 1
  {
    assert (2 * n + 1) / 2 == n;
  }

  lemma {:induction false} OnesPow2(k: nat)
    ensures Ones(Pow2(k)) == 1
  {
    hide *;
    if k == 0 {
      OnesOne();
    } else {
      OnesPow2(k - 1);
      Pow2Step(k - 1);
      OnesDouble(Pow2(k - 1));
    }
  }

  lemma {:induction false} OnesOne()
    ensures Pow2(0) == 1 && Ones(1) == 1
  {
  }

  lemma {:induction false} OnesZero(n: nat)
    ensures Ones(n) == 0 <==> n == 0
  {
    if n > 0 {
      OnesZero(n / 2);
    }
  }

  lemma {:induction false} ShrNotMore(n: nat, k: nat)
    ensures Shr(n, k) <= n
  {
    if k > 0 {
      ShrNotMore(n / 2, k - 1);
    }
  }

  /** Shifting never adds set bits. */
  lemma {:induction false} OnesShr(n: nat, k: nat)
    ensures Ones(Shr(n, k)) <= Ones(n)
  {
    if k > 0 {
      OnesShr(n / 2, k - 1);
    }
  }
}
