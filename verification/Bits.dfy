/** Powers of two, the highest bit of a number, and capacities rounded to a power of two. */
module Bits {
  function Pow2(n: nat): (p: nat)
    ensures p > 0
  {
    if n == 0 then 1 else 2 * Pow2(n - 1)
  }

  lemma Pow2Step(n: nat)
    requires n > 0
    ensures Pow2(n) == 2 * Pow2(n - 1)
  {
  }

  lemma Pow2Zero()
    ensures Pow2(0) == 1
  {
  }

  /** The number of the highest bit of `n`, counted from 1; 0 for 0. */
  function HighestBit(n: nat): (b: nat)
    ensures n < Pow2(b)
    ensures n > 0 ==> b > 0 && Pow2(b - 1) <= n
  {
    if n == 0 then 0 else 1 + HighestBit(n / 2)
  }

  lemma {:induction false} Pow2Grows(a: nat, b: nat)
    requires a <= b
    ensures Pow2(a) <= Pow2(b)
  {
    if a < b {
      Pow2Grows(a, b - 1);
    }
  }

  /** The largest power of two that a shift of a 32-bit 1 reaches. */
  const MAX_CAPACITY: nat := 0x4000_0000

  lemma PowerOf30()
    ensures Pow2(30) == MAX_CAPACITY
  {
    assert Pow2(10) == 1024;
    assert Pow2(20) == 1024 * Pow2(10);
    assert Pow2(30) == 1024 * Pow2(20);
  }

  /** The rounded capacity of a store for `capacity` values. */
  function RoundUpCapacity(capacity: nat): (c: nat) {
    if capacity < 4 then 4 else Pow2(HighestBit(capacity))
  }

  /** The least power of two above the capacity asked for, and no less than 4; a shift of a
      32-bit 1 reaches it when the capacity is below 2^30. */
  lemma RoundUpCapacityIs(capacity: nat)
    requires capacity < MAX_CAPACITY
    ensures var c := RoundUpCapacity(capacity);
      && capacity < c <= MAX_CAPACITY && 4 <= c && (4 <= capacity ==> c <= 2 * capacity)
      && exists n: nat :: c == Pow2(n) && n <= 30 && forall m: nat :: capacity < Pow2(m) && 4 <= Pow2(m) ==> n <= m
  {
    var n := if capacity < 4 then 2 else HighestBit(capacity);
    assert Pow2(2) == 4 && Pow2(1) == 2;
    PowerOf30();
    if 30 < n { Pow2Grows(30, n - 1); }
    Pow2Grows(n, 30);
    forall m: nat | capacity < Pow2(m) && 4 <= Pow2(m)
      ensures n <= m
    {
      if m < n { Pow2Grows(m, n - 1); }
    }
    assert RoundUpCapacity(capacity) == Pow2(n);
  }
}
