/** Multiplication and division that the solver needs to be led through. */
module Arith {
  /** One more than the largest 32-bit number. */
  const WIDE := 0x1_0000_0000

  function Least(a: nat, b: nat): nat {
    if a < b then a else b
  }

  lemma MulSplit(a: nat, b: nat, m: nat)
    ensures (a + b) * m == a * m + b * m
  {
  }

  lemma MulMono(a: nat, b: nat, m: nat)
    requires a <= b
    ensures a * m <= b * m
  {
    MulSplit(a, b - a, m);
  }

  lemma DivUnique(k: nat, q: nat, r: nat, m: nat)
    requires k == q * m + r && r < m
    ensures k / m == q && k % m == r
  {
    var q', r' := k / m, k % m;
    assert k == q' * m + r' && r' < m;
    if q < q' {
      MulMono(q + 1, q', m);
      MulSplit(q, 1, m);
    } else if q' < q {
      MulMono(q' + 1, q, m);
      MulSplit(q', 1, m);
    }
  }

  lemma DivParts(k: nat, m: nat)
    requires m >= 1
    ensures k == k / m * m + k % m && k % m < m
  {
  }

  /** The largest multiple of m up to x. */
  function RoundDown(x: nat, m: nat): (r: nat)
    requires m > 0
    ensures r <= x
  {
    DivParts(x, m);
    MulMono(0, x / m, m);
    x / m * m
  }

  lemma RoundedEven(x: nat, m: nat)
    requires m > 0
    ensures RoundDown(x, m) % m == 0
  {
    DivUnique(x / m * m, x / m, 0, m);
  }

  lemma QuotBound(k: nat, n: nat, m: nat)
    requires m >= 1 && k < n * m
    ensures k / m < n
  {
    DivParts(k, m);
    if n <= k / m {
      MulMono(n, k / m, m);
    }
  }

  function Pow2(k: nat): (p: nat)
    ensures p > 0
  {
    if k == 0 then 1 else 2 * Pow2(k - 1)
  }

  /**
   * Product, quotient and remainder by counting. Contracts that only carry such a value along use these, so that the
   * solver is not drawn into nonlinear arithmetic; the lemmas below lead back to the operators.
   */
  function Times(a: nat, b: nat): nat {
    if a == 0 then 0 else Times(a - 1, b) + b
  }

  function Quotient(x: nat, m: nat): nat
    requires m >= 1
  {
    if x < m then 0 else Quotient(x - m, m) + 1
  }

  function Remainder(x: nat, m: nat): (r: nat)
    requires m >= 1
    ensures r < m
  {
    if x < m then x else Remainder(x - m, m)
  }

  lemma {:induction false} TimesIs(a: nat, b: nat)
    ensures Times(a, b) == a * b
  {
    if a > 0 {
      TimesIs(a - 1, b);
      MulSplit(a - 1, 1, b);
    }
  }

  lemma {:induction false} QuotientIs(x: nat, m: nat)
    requires m >= 1
    ensures Quotient(x, m) == x / m && Remainder(x, m) == x % m
  {
    if x < m {
      DivUnique(x, 0, x, m);
    } else {
      QuotientIs(x - m, m);
      DivParts(x - m, m);
      MulSplit((x - m) / m, 1, m);
      DivUnique(x, (x - m) / m + 1, (x - m) % m, m);
    }
  }
}
