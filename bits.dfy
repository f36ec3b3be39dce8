/** Powers of two and binary digits: the arithmetic behind `1 << n` and
    `s & (1 << i)` in the minimiser. */
module Bits {

  function Pow2(n: nat): (r: nat)
    ensures r >= 1
  {
    if n == 0 then 1 else 2 * Pow2(n - 1)
  }

  /** Bit i of s, that is `(s & (1 << i)) != 0` read as 0 or 1. */
  function Bit(s: nat, i: nat): (b: nat)
    ensures b <= 1
  {
    if i == 0 then s % 2 else Bit(s / 2, i - 1)
  }

  lemma {:induction false} Pow2Monotone(a: nat, b: nat)
    requires a <= b
    ensures Pow2(a) <= Pow2(b)
  {
    if a < b {
      Pow2Monotone(a, b - 1);
    }
  }

  lemma {:induction false} Pow2StrictlyMonotone(a: nat, b: nat)
    requires a < b
    ensures Pow2(a) < Pow2(b)
  {
    Pow2Monotone(a, b - 1);
  }

  lemma {:induction false} Pow2Add(a: nat, b: nat)
    ensures Pow2(a + b) == Pow2(a) * Pow2(b)
  {
    if a > 0 {
      Pow2Add(a - 1, b);
    }
  }

  /** 2^30, the largest table the minimiser's int counters can index. */
  lemma Pow2Of30()
    ensures Pow2(30) == 0x4000_0000
  {
    assert Pow2(5) == 32;
    Pow2Add(5, 5);
    Pow2Add(10, 10);
    Pow2Add(20, 10);
  }

  /** A number below 2^n is determined by its n low bits. */
  lemma {:induction false} BitsDetermine(s: nat, t: nat, n: nat)
    requires s < Pow2(n) && t < Pow2(n)
    requires forall i :: 0 <= i < n ==> Bit(s, i) == Bit(t, i)
    ensures s == t
  {
    if n > 0 {
      forall i | 0 <= i < n - 1
        ensures Bit(s / 2, i) == Bit(t / 2, i)
      {
        assert Bit(s, i + 1) == Bit(t, i + 1);
      }
      BitsDetermine(s / 2, t / 2, n - 1);
      assert Bit(s, 0) == Bit(t, 0);
    }
  }
}
