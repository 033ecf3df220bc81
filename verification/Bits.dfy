/** Powers of two, bit lengths and bitwise or on natural numbers. */
module Bits {

  function Pow2(n: nat): (p: int)
    ensures p >= 1
  {
    if n == 0 then 1 else 2 * Pow2(n - 1)
  }

  /** The number of binary digits; 0 has none. */
  function BitLength(v: nat): nat {
    if v == 0 then 0 else 1 + BitLength(v / 2)
  }

  lemma {:induction false} BitLengthAtMost(v: nat, k: nat)
    ensures BitLength(v) <= k <==> v < Pow2(k)
    decreases k
  {
    if k > 0 && v > 0 {
      BitLengthAtMost(v / 2, k - 1);
    }
  }

  lemma {:induction false} BitLengthIs(v: nat, k: nat)
    requires k > 0 && Pow2(k - 1) <= v < Pow2(k)
    ensures BitLength(v) == k
  {
    BitLengthAtMost(v, k);
    BitLengthAtMost(v, k - 1);
  }

  /** Shifting left by k bits adds k binary digits. */
  lemma {:induction false} BitLengthShift(v: nat, k: nat)
    requires v > 0
    ensures v * Pow2(k) > 0 && BitLength(v * Pow2(k)) == BitLength(v) + k
  {
    if k == 0 {
      assert v * Pow2(0) == v;
    } else {
      BitLengthShift(v, k - 1);
      DoubleProduct(v, k);
      DoubleLength(v * Pow2(k - 1));
    }
  }

  lemma DoubleProduct(v: nat, k: nat)
    requires k > 0
    ensures v * Pow2(k) == 2 * (v * Pow2(k - 1))
  {
  }

  lemma DoubleLength(m: nat)
    requires m > 0
    ensures BitLength(2 * m) == BitLength(m) + 1
  {
  }

  lemma {:induction false} Pow2Monotone(m: nat, n: nat)
    requires m <= n
    ensures Pow2(m) <= Pow2(n)
  {
    if m < n {
      Pow2Monotone(m, n - 1);
    }
  }

  /** Bitwise or. */
  function Or(a: nat, b: nat): nat
    decreases a + b
  {
    if a == 0 then b else if b == 0 then a
    else 2 * Or(a / 2, b / 2) + (if a % 2 == 1 || b % 2 == 1 then 1 else 0)
  }

  /** Numbers without a common bit are joined by adding them. */
  lemma {:induction false} OrDisjoint(a: nat, c: nat, k: nat)
    requires a < Pow2(k)
    ensures c * Pow2(k) >= 0 && Or(a, c * Pow2(k)) == a + c * Pow2(k)
    decreases k
  {
    if k > 0 && a != 0 && c != 0 {
      OrDisjoint(a / 2, c, k - 1);
      DoubleProduct(c, k);
    } else {
      NonNegativeProduct(c, Pow2(k));
    }
  }

  lemma NonNegativeProduct(c: nat, p: nat)
    ensures c * p >= 0 && (c == 0 ==> c * p == 0)
  {
  }
}
