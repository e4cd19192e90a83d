// Power-of-two arithmetic behind the buddy allocator: block sizes, the index
// of a buddy (`index ^ (1 << order)`), and the nesting of aligned blocks.
// Indices are taken apart bit by bit, which keeps every proof linear.
module Dyadic {

  function Pow2(k: nat): (r: nat)
    ensures r >= 1
  {
    if k == 0 then 1 else 2 * Pow2(k - 1)
  }

  lemma {:induction false} Pow2Monotone(j: nat, k: nat)
    requires j <= k
    ensures Pow2(j) <= Pow2(k)
    ensures j < k ==> 2 * Pow2(j) <= Pow2(k)
    decreases k
  {
    if j < k {
      Pow2Monotone(j, k - 1);
    }
  }

  lemma {:induction false} Pow2Exceeds(k: nat)
    ensures k < Pow2(k)
  {
    if k > 0 {
      Pow2Exceeds(k - 1);
    }
  }

  /** The smallest order whose block holds `n` pages. */
  function OrderFor(n: nat): (k: nat)
    ensures n <= Pow2(k)
    ensures k > 0 ==> Pow2(k - 1) < n
  {
    if n <= 1 then 0 else OrderFor((n + 1) / 2) + 1
  }

  lemma OrderForUnique(n: nat, k: nat)
    requires n <= Pow2(k) && (k > 0 ==> Pow2(k - 1) < n)
    ensures OrderFor(n) == k
  {
    if OrderFor(n) < k {
      Pow2Monotone(OrderFor(n), k - 1);
    } else if OrderFor(n) > k {
      Pow2Monotone(k, OrderFor(n) - 1);
    }
  }

  /** The low `k` bits of `index` are zero: `index` can start a block of order `k`. */
  predicate Aligned(index: nat, k: nat)
    decreases k
  {
    k == 0 || (index % 2 == 0 && Aligned(index / 2, k - 1))
  }

  /** The exclusive or of `index` with `1 << k`. */
  function FlipBit(index: nat, k: nat): nat
    decreases k
  {
    if k == 0 then
      if index % 2 == 0 then index + 1 else index - 1
    else
      2 * FlipBit(index / 2, k - 1) + index % 2
  }

  lemma {:induction false} FlipBitInvolutive(index: nat, k: nat)
    ensures FlipBit(FlipBit(index, k), k) == index
    decreases k
  {
    if k > 0 {
      FlipBitInvolutive(index / 2, k - 1);
    }
  }

  lemma {:induction false} FlipBitMoves(index: nat, k: nat)
    ensures FlipBit(index, k) != index
    decreases k
  {
    if k > 0 {
      FlipBitMoves(index / 2, k - 1);
    }
  }

  /** An aligned block is the left or the right half of an aligned block one order up. */
  lemma {:induction false} AlignedHalves(index: nat, k: nat)
    requires Aligned(index, k)
    ensures Aligned(FlipBit(index, k), k)
    ensures if Aligned(index, k + 1) then FlipBit(index, k) == index + Pow2(k)
            else FlipBit(index, k) == index - Pow2(k) && Aligned(FlipBit(index, k), k + 1)
    decreases k
  {
    if k > 0 {
      AlignedHalves(index / 2, k - 1);
    }
  }

  /** The two halves of an aligned block of order k + 1. */
  lemma {:induction false} SplitAligned(index: nat, k: nat)
    requires Aligned(index, k + 1)
    ensures Aligned(index, k) && Aligned(index + Pow2(k), k)
    ensures FlipBit(index, k) == index + Pow2(k)
    ensures FlipBit(index + Pow2(k), k) == index
    decreases k
  {
    if k > 0 {
      SplitAligned(index / 2, k - 1);
    }
  }

  lemma {:induction false} NextAligned(i: nat, k: nat)
    requires Aligned(i, k)
    ensures Aligned(i + Pow2(k), k)
  {
    if k > 0 {
      NextAligned(i / 2, k - 1);
    }
  }

  lemma {:induction false} AlignedBelow(i: nat, j: nat, k: nat)
    requires Aligned(i, k) && j <= k
    ensures Aligned(i, j)
  {
    if j > 0 {
      AlignedBelow(i / 2, j - 1, k - 1);
    }
  }

  /** Aligned means divisible by the block size. */
  lemma {:induction false} AlignedIsMultiple(index: nat, k: nat) returns (q: nat)
    requires Aligned(index, k)
    ensures index == q * Pow2(k)
    decreases k
  {
    if k == 0 {
      q := index;
    } else {
      q := AlignedIsMultiple(index / 2, k - 1);
      assert index == 2 * (q * Pow2(k - 1));
    }
  }

  /** Two aligned blocks are disjoint, or the one of the smaller order lies inside the other. */
  lemma {:induction false} NestedOrDisjoint(i: nat, j: nat, b: nat, k: nat)
    requires j <= k && Aligned(i, j) && Aligned(b, k)
    ensures || i + Pow2(j) <= b
            || b + Pow2(k) <= i
            || (b <= i && i + Pow2(j) <= b + Pow2(k))
    decreases j
  {
    if j > 0 {
      NestedOrDisjoint(i / 2, j - 1, b / 2, k - 1);
    }
  }

  /** Two aligned blocks of one order with a page in common are the same block. */
  lemma SameOrderOverlap(i: nat, b: nat, k: nat)
    requires Aligned(i, k) && Aligned(b, k)
    requires i < b + Pow2(k) && b < i + Pow2(k)
    ensures i == b
  {
    NestedOrDisjoint(i, k, b, k);
    NestedOrDisjoint(b, k, i, k);
  }
}
