/** Powers and decimal digit counts. */
module Numerals {

  function Pow(b: nat, e: nat): nat {
    if e == 0 then 1 else b * Pow(b, e - 1)
  }

  lemma {:induction false} PowPositive(b: nat, e: nat)
    requires b > 0
    ensures Pow(b, e) > 0
  {
    if e == 0 {
    } else {
      PowPositive(b, e - 1);
    }
  }

  lemma {:induction false} PowAdd(b: nat, m: nat, n: nat)
    ensures Pow(b, m + n) == Pow(b, m) * Pow(b, n)
  {
    if m == 0 {
    } else {
      PowAdd(b, m - 1, n);
      assert Pow(b, m + n) == b * Pow(b, m - 1 + n);
      MulAssoc(b, Pow(b, m - 1), Pow(b, n));
    }
  }

  lemma MulAssoc(x: int, y: int, z: int)
    ensures x * (y * z) == (x * y) * z
  {}

  lemma PowMonotone(b: nat, m: nat, n: nat)
    requires b > 0 && m <= n
    ensures Pow(b, m) <= Pow(b, n)
  {
    PowAdd(b, m, n - m);
    PowPositive(b, m);
    PowPositive(b, n - m);
    MulMonotone(Pow(b, m), 1, Pow(b, n - m));
  }

  lemma MulMonotone(k: nat, x: int, y: int)
    requires x <= y
    ensures k * x <= k * y
  {}

  lemma MulStrictMonotone(k: nat, x: int, y: int)
    requires k > 0 && x < y
    ensures k * x < k * y
  {}

  /** The number of decimal digits Python stores for a coefficient; zero has one. */
  function DigitCount(n: nat): (c: nat)
    ensures c > 0
    ensures n > 0 ==> Pow(10, c - 1) <= n
    ensures n < Pow(10, c)
  {
    if n < 10 then
      assert Pow(10, 1) == 10 * Pow(10, 0);
      1
    else
      1 + DigitCount(n / 10)
  }
}
