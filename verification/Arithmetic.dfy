/** Products and quotients of naturals, for the offsets and counts of the other modules. */
module Arithmetic {

  lemma MulMono(a: int, b: int, m: nat)
    ensures a <= b ==> a * m <= b * m
  {
  }

  lemma DivUnique(n: nat, d: nat, q: nat, r: nat)
    requires n == q * d + r && r < d
    ensures n / d == q
  {
    var q' := n / d;
    assert n == q' * d + n % d;
    MulMono(q + 1, q', d);
    MulMono(q' + 1, q, d);
  }

  lemma DivMod(n: nat, p: nat)
    requires p > 0
    ensures n == n / p * p + n % p && n % p < p
  {
  }

  lemma ModUnique(n: nat, d: nat, q: nat, r: nat)
    requires n == q * d + r && r < d
    ensures n / d == q && n % d == r
  {
    DivUnique(n, d, q, r);
    DivMod(n, d);
  }

  /** A multiple leaves no remainder. */
  lemma MultipleOf(q: nat, d: nat, n: nat)
    requires d > 0 && n == q * d
    ensures n % d == 0
  {
    ModUnique(n, d, q, 0);
  }
}
