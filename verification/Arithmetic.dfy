/** Powers of two, products and quotients by name, so that proofs can use their laws one at a time. */
module Arithmetic {

  function Pow2(n: nat): (p: nat)
    ensures p > 0
  {
    if n == 0 then 1 else 2 * Pow2(n - 1)
  }

  function Mul(a: nat, b: nat): nat { a * b }

  function Quotient(n: nat, d: nat): nat
    requires d > 0
  {
    n / d
  }

  function Remainder(n: nat, d: nat): (r: nat)
    requires d > 0
    ensures r < d
  {
    n % d
  }

  lemma MulDouble(a: nat, b: nat)
    ensures Mul(2 * a, b) == 2 * Mul(a, b)
  {
  }

  lemma MulAdd(a: nat, b: nat, c: nat)
    ensures Mul(a, b + c) == Mul(a, b) + Mul(a, c)
  {
  }

  lemma MulAtLeast(a: nat, b: nat)
    requires b > 0
    ensures Mul(a, b) >= a
  {
  }

  lemma MulUnit(a: nat)
    ensures Mul(1, a) == a == Mul(a, 1) && Mul(a, 0) == Mul(0, a) == 0
  {
  }

  lemma QuotRem(n: nat, d: nat)
    requires d > 0
    ensures n == Mul(d, Quotient(n, d)) + Remainder(n, d)
  {
  }

  lemma QuotientIs(n: nat, d: nat, q: nat, r: nat)
    requires d > 0 && r < d && n == Mul(d, q) + r
    ensures Quotient(n, d) == q && Remainder(n, d) == r
  {
    hide Mul, Quotient, Remainder;
    QuotRem(n, d);
    var q' := Quotient(n, d);
    if q < q' {
      MulAdd(d, q, q' - q);
      MulAtLeast(d, q' - q);
    } else if q' < q {
      MulAdd(d, q', q - q');
      MulAtLeast(d, q - q');
    }
  }

  /** Doubling the divisor is halving the number first. */
  lemma HalveFirst(n: nat, d: nat)
    requires d > 0
    ensures Quotient(n, 2 * d) == Quotient(n / 2, d)
    ensures Remainder(n, 2 * d) == n % 2 + 2 * Remainder(n / 2, d)
  {
    hide Mul, Quotient, Remainder;
    var q := Quotient(n / 2, d);
    QuotRem(n / 2, d);
    MulDouble(d, q);
    QuotientIs(n, 2 * d, q, n % 2 + 2 * Remainder(n / 2, d));
  }

  lemma DivideByOne(n: nat)
    ensures Quotient(n, 1) == n && Remainder(n, 1) == 0
  {
  }

  lemma {:induction false} Pow2Grows(a: nat, b: nat)
    requires a <= b
    ensures Pow2(a) <= Pow2(b)
    decreases b
  {
    if a < b {
      Pow2Grows(a, b - 1);
    }
  }
}
