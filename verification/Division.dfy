/** Quotients and remainders by a variable divisor. */
module Division {

  /** The quotient and the remainder are the only numbers that fit. */
  lemma ModUnique(n: int, d: nat, q: int, r: nat)
    requires r < d && n == q * d + r
    ensures n / d == q && n % d == r
  {
    var q', r' := n / d, n % d;
    assert n == d * q' + r';
    assert q' + 1 <= q ==> d * (q' + 1) <= d * q;
    assert q + 1 <= q' ==> d * (q + 1) <= d * q';
  }

  lemma DivisionUnique(d: nat, q: nat, r: nat)
    requires r < d
    ensures (d * q + r) / d == q && (d * q + r) % d == r
  {
    ModUnique(d * q + r, d, q, r);
  }

  lemma ModOfProduct(d: nat, k: nat)
    requires d > 0
    ensures d * k % d == 0 && d * k / d == k
  {
    DivisionUnique(d, k, 0);
  }
}
