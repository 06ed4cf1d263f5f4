/** Powers of two, and the bits of natural numbers. */
module Bits {

  type bit = b: nat | b < 2

  function Pow2(n: nat): (p: nat)
    ensures p >= 1
  {
    if n == 0 then 1 else 2 * Pow2(n - 1)
  }

  /** Bit i of x, counting from the least significant one. */
  function Bit(x: nat, i: nat): bit
    decreases i
  {
    if i == 0 then x % 2 else Bit(x / 2, i - 1)
  }

  function Zeros(n: nat): seq<bit> {
    seq(n, _ => 0)
  }

  lemma {:induction false} BitOfZero(i: nat)
    ensures Bit(0, i) == 0
  {
    if i > 0 { BitOfZero(i - 1); }
  }

  /** Writing b above the k lowest bits changes bit k only. */
  lemma {:induction false} BitAbove(x: nat, b: bit, k: nat, i: nat)
    requires x < Pow2(k)
    ensures Bit(x + b * Pow2(k), i) == if i == k then b else Bit(x, i)
  {
    if k == 0 {
      if i > 0 { assert (x + b) / 2 == 0; }
    } else if i > 0 {
      assert (x + b * Pow2(k)) / 2 == x / 2 + b * Pow2(k - 1);
      BitAbove(x / 2, b, k - 1, i - 1);
    }
  }

  /** A number below 2^k that is not zero has a lowest set bit below k. */
  lemma {:induction false} LowestSetBit(x: nat, k: nat) returns (d: nat)
    requires 0 < x < Pow2(k)
    ensures d < k && Bit(x, d) == 1
    ensures forall i :: 0 <= i < d ==> Bit(x, i) == 0
  {
    if x % 2 == 1 {
      d := 0;
    } else {
      var d' := LowestSetBit(x / 2, k - 1);
      d := d' + 1;
      forall i | 0 <= i < d ensures Bit(x, i) == 0 {}
    }
  }

  function Or(a: nat, b: nat): nat {
    if a == 0 && b == 0 then 0 else 2 * Or(a / 2, b / 2) + (if a % 2 == 1 || b % 2 == 1 then 1 else 0)
  }

  lemma {:induction false} OrAbove(a: nat, b: bit, k: nat)
    requires a < Pow2(k)
    ensures Or(a, b * Pow2(k)) == a + b * Pow2(k)
  {
    if b == 0 {
      OrZero(a);
    } else if k == 0 {
      assert Or(0, 1) == 2 * Or(0, 0) + 1;
    } else {
      OrAbove(a / 2, 1, k - 1);
      assert Pow2(k) / 2 == Pow2(k - 1) && Pow2(k) % 2 == 0;
    }
  }

  lemma {:induction false} OrZero(a: nat)
    ensures Or(a, 0) == a
  {
    if a != 0 { OrZero(a / 2); }
  }
}
