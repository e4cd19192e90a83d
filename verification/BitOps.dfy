// The bit tricks that block orders rest on: rounding up to a power of two by smearing
// the highest bit, and counting leading zeroes by halving the word.
//
// Words are bit vectors. What they say about the orders of the pools, which are
// numbers, goes through the number that a word stands for.
module BitOps {
  import opened Dyadic

  /** Every bit below the highest set one is set too. */
  function Smear(x: bv32): bv32 {
    var a := x | (x >> 1);
    var b := a | (a >> 2);
    var c := b | (b >> 4);
    var d := c | (c >> 8);
    d | (d >> 16)
  }

  /** next_power_of_two */
  function NextPowerOfTwo(x: bv32): bv32 {
    if x <= 1 then 1 else Smear(x - 1) + 1
  }

  lemma {:induction false} NextIsPower(x: bv32)
    ensures var p := NextPowerOfTwo(x);
            && p & (p - 1) == 0
            && (x <= 0x8000_0000 ==> x <= p && (x > 1 ==> p >> 1 < x))
            && (x > 0x8000_0000 <==> p == 0)
  {
  }

  /** `n` leading zeroes: shifted down by 31 - n the word is 1. */
  predicate LeadingZeroes(x: bv32, n: bv32) {
    if x == 0 then n == 32 else n <= 31 && x >> (31 - n) == 1
  }

  /** clz32, the software form. */
  method Clz32(word: bv32) returns (n: bv32)
    ensures LeadingZeroes(word, n)
  {
    if word == 0 {
      return 32;
    }
    var x := word;
    n := 0;
    if x <= 0x0000_FFFF {
      n, x := n + 16, x << 16;
    }
    if x <= 0x00FF_FFFF {
      n, x := n + 8, x << 8;
    }
    if x <= 0x0FFF_FFFF {
      n, x := n + 4, x << 4;
    }
    if x <= 0x3FFF_FFFF {
      n, x := n + 2, x << 2;
    }
    if x <= 0x7FFF_FFFF {
      n := n + 1;
    }
  }

  /** The order whose block holds `x` pages is `k`, and no smaller order's does. */
  predicate LeastOrder(x: bv32, k: bv32) {
    k <= 31 && x <= 1 << k && (k > 0 ==> 1 << (k - 1) < x)
  }

  lemma {:induction false} OrderOfPower(size: bv32, p: bv32, k: bv32)
    requires size <= p && (size > 1 ==> p >> 1 < size) && (size <= 1 ==> p == 1) && k <= 31
    requires p == 1 << k && (k > 0 ==> p >> 1 == 1 << (k - 1))
    ensures LeastOrder(size, k)
  {
  }

  /** A power of two that is 1 when shifted down by `k` is 1 shifted up by `k`. */
  lemma {:induction false} PowerOf(p: bv32, k: bv32)
    requires k <= 31 && p >> k == 1 && p & (p - 1) == 0
    ensures p == 1 << k && (k > 0 ==> p >> 1 == 1 << (k - 1))
  {
  }

  // ---- Words as numbers ----

  function Half(x: bv32): bv32 { x >> 1 }
  predicate Odd(x: bv32) { x & 1 == 1 }

  /** The number that a word stands for. */
  function Value(x: bv32): nat
    decreases x
  {
    if x == 0 then 0 else 2 * Value(Half(x)) + if Odd(x) then 1 else 0
  }

  lemma {:induction false} Halves(x: bv32, y: bv32)
    requires x < y
    ensures Half(y) < y && Half(x) <= Half(y)
    ensures Half(x) == Half(y) ==> !Odd(x) && Odd(y)
  {}

  lemma {:induction false} OrderStep(x: bv32, y: bv32, h: nat, k: nat)
    requires y != 0 && h == Value(Half(x)) && k == Value(Half(y))
    requires h < k || (h == k && !Odd(x) && Odd(y))
    ensures Value(x) < Value(y)
  {
  }

  /** The larger word is the larger number. */
  lemma {:induction false} ValueOrdered(x: bv32, y: bv32)
    requires x < y
    ensures Value(x) < Value(y)
    decreases y
  {
    Halves(x, y);
    if Half(x) != Half(y) {
      ValueOrdered(Half(x), Half(y));
    }
    OrderStep(x, y, Value(Half(x)), Value(Half(y)));
  }

  predicate Next(x: bv32, y: bv32) { x < 31 && y == x + 1 }

  lemma {:induction false} AfterEven(x: bv32, y: bv32)
    requires Next(x, y) && !Odd(x)
    ensures y != 0 && Half(x) == Half(y) && Odd(y)
  {}

  lemma {:induction false} AfterOdd(x: bv32, y: bv32)
    requires Next(x, y) && Odd(x)
    ensures !Odd(y) && Next(Half(x), Half(y)) && Half(x) < x && y != 0
  {}

  lemma {:induction false} NextStep(x: bv32, y: bv32, h: nat, k: nat)
    requires y != 0 && h == Value(Half(x)) && k == Value(Half(y))
    requires if Odd(x) then k == h + 1 && !Odd(y) else k == h && Odd(y)
    ensures Value(y) == Value(x) + 1
  {
  }

  lemma {:induction false} ValueNext(x: bv32, y: bv32)
    requires Next(x, y)
    ensures Value(y) == Value(x) + 1
    decreases x
  {
    if Odd(x) {
      AfterOdd(x, y);
      ValueNext(Half(x), Half(y));
    } else {
      AfterEven(x, y);
    }
    NextStep(x, y, Value(Half(x)), Value(Half(y)));
  }

  lemma {:induction false} ValueDoubled(x: bv32, y: bv32)
    requires Half(y) == x && !Odd(y)
    ensures Value(y) == 2 * Value(x)
  {
  }

  lemma {:induction false} Shifted(k: bv32)
    requires 0 < k <= 31
    ensures Next(k - 1, k)
    ensures Half(1 << k) == 1 << (k - 1) && !Odd(1 << k)
  {
  }

  lemma {:induction false} ValueOfPower(k: bv32)
    requires k <= 31
    ensures Value(1 << k) == Pow2(Value(k))
    decreases k
  {
    if k == 0 {
      assert (1 as bv32) << 0 == 1;
      assert Half(1) == 0;
    } else {
      Shifted(k);
      ValueOfPower(k - 1);
      ValueNext(k - 1, k);
      ValueDoubled(1 << (k - 1), 1 << k);
    }
  }

  lemma {:induction false} NoLarger(x: bv32, k: bv32)
    requires k <= 31 && x <= 1 << k
    ensures Value(x) <= Pow2(Value(k))
  {
    ValueOfPower(k);
    if x != 1 << k {
      ValueOrdered(x, 1 << k);
    }
  }

  lemma {:induction false} Larger(x: bv32, k: bv32)
    requires 0 < k <= 31 && 1 << (k - 1) < x
    ensures Value(k) > 0 && Pow2(Value(k) - 1) < Value(x)
  {
    ValueOfPower(k - 1);
    ValueOrdered(1 << (k - 1), x);
    Shifted(k);
    ValueNext(k - 1, k);
  }

  /** The least order of a word is the order of its number. */
  lemma {:induction false} LeastOrderIsOrder(x: bv32, k: bv32)
    requires LeastOrder(x, k)
    ensures Value(k) == OrderFor(Value(x))
  {
    NoLarger(x, k);
    if k > 0 {
      Larger(x, k);
    }
    OrderForUnique(Value(x), Value(k));
  }

  /**
   * get_order, for 32-bit sizes: the order that the pools work with up to 2^31; above
   * that rounding up gives 0, and the order is 0.
   */
  method GetOrder(size: bv32) returns (k: bv32)
    ensures size <= 0x8000_0000 ==> Value(k) == OrderFor(Value(size))
    ensures size > 0x8000_0000 ==> k == 0
  {
    var p := NextPowerOfTwo(size);
    NextIsPower(size);
    if p > 0 {
      var n := Clz32(p);
      PowerOf(p, 31 - n);
      OrderOfPower(size, p, 31 - n);
      LeastOrderIsOrder(size, 31 - n);
      k := 31 - n;
    } else {
      k := 0;
    }
  }
}
