/** Facts about multiplication and division of naturals that the solver
    does not find by itself. */
module Arith {

  lemma MulStrictCancel(q: nat, a: nat, b: nat)
    requires q > 0 && q * a < q * b
    ensures a < b
  {
    if a >= b {
      MulMono(q, b, a);
    }
  }

  lemma MulMono(q: nat, a: nat, b: nat)
    requires a <= b
    ensures q * a <= q * b
  {
    assert q * b == q * a + q * (b - a);
  }

  lemma MulCancel(q: nat, k: nat, d: nat, m: nat)
    requires q > 0 && m < q && q * k == q * d + m
    ensures d == k
  {
    if d < k {
      MulMono(q, d + 1, k);
    } else if d > k {
      MulMono(q, k + 1, d);
    }
  }

  /** Dividing a multiple of a positive number by it gives the factor back. */
  lemma DivOfMultiple(n: nat, h: nat)
    requires n > 0
    ensures (n * h) / n == h
  {
    var q, r := (n * h) / n, (n * h) % n;
    MulCancel(n, h, q, r);
  }
}
