/**
 Divisibility and primes: prime divisors exist, a number without a divisor up to its square root is
 prime, and there is a prime above every number.
 */
module Primes {
  import opened Division

  ghost predicate Divides(d: nat, n: nat)
  {
    exists k: nat :: MulEq(d, k, n)
  }

  ghost predicate MulEq(d: nat, k: nat, n: nat) {
    d * k == n
  }

  ghost predicate IsPrime(p: nat) {
    2 <= p && forall d | 2 <= d < p :: !Divides(d, p)
  }

  lemma DividesBy(d: nat, k: nat)
    ensures Divides(d, d * k)
  {
    assert MulEq(d, k, d * k);
  }

  lemma FactorBound(d: nat, k: nat)
    requires d * k > 0
    ensures 0 < d <= d * k && 0 < k <= d * k
  {
  }

  lemma DividesTransitive(a: nat, b: nat, n: nat)
    requires Divides(a, b) && Divides(b, n)
    ensures Divides(a, n)
  {
    var k: nat :| MulEq(a, k, b);
    var l: nat :| MulEq(b, l, n);
    MulAssociates(a, k, l);
    DividesBy(a, k * l);
  }

  lemma MulAssociates(a: nat, k: nat, l: nat)
    ensures (a * k) * l == a * (k * l)
  {
  }

  lemma DividesMod(d: nat, n: nat)
    requires d > 0
    ensures Divides(d, n) <==> n % d == 0
    ensures Divides(d, n) <==> n == n / d * d
  {
    if n % d == 0 {
      assert n == d * (n / d);
      DividesBy(d, n / d);
    }
    if Divides(d, n) {
      var k: nat :| MulEq(d, k, n);
      ModOfProduct(d, k);
    }
  }

  /** Every number from 2 on has a prime divisor. */
  lemma {:induction false} PrimeDivisor(n: nat) returns (p: nat)
    requires n >= 2
    ensures IsPrime(p) && Divides(p, n) && p <= n
    decreases n
  {
    if IsPrime(n) {
      p := n;
      DividesBy(n, 1);
    } else {
      var d: nat :| 2 <= d < n && Divides(d, n);
      p := PrimeDivisor(d);
      DividesTransitive(p, d, n);
    }
  }

  /** No prime below b divides n. */
  ghost predicate NoPrimeBelow(n: nat, b: nat) {
    forall p: nat | IsPrime(p) && p < b :: !Divides(p, n)
  }

  /** A number below b * b that no prime below b divides is prime. */
  lemma SquareRootBound(n: nat, b: nat)
    requires 2 <= n < b * b && NoPrimeBelow(n, b)
    ensures IsPrime(n)
  {
    if !IsPrime(n) {
      var d: nat :| 2 <= d < n && Divides(d, n);
      var k: nat :| MulEq(d, k, n);
      assert Divides(k, n) by {
        assert MulEq(k, d, n);
      }
      FactorBound(d, k);
      assert d * 1 == d;
      SmallFactor(d, k, b);
      var e := if d < b then d else k;
      var p := PrimeDivisor(e);
      DividesTransitive(p, e, n);
    }
  }

  lemma SmallFactor(d: nat, k: nat, b: nat)
    requires d * k < b * b
    ensures d < b || k < b
  {
    if d >= b {
      assert b * k <= d * k < b * b;
    }
  }

  // ----- primes do not end

  ghost function Factorial(n: nat): (f: nat)
    ensures f >= 1
  {
    if n == 0 then 1 else n * Factorial(n - 1)
  }

  lemma {:induction false} FactorialMultiple(d: nat, n: nat)
    requires 1 <= d <= n
    ensures Divides(d, Factorial(n))
  {
    if d == n {
      DividesBy(n, Factorial(n - 1));
    } else {
      FactorialMultiple(d, n - 1);
      DividesBy(Factorial(n - 1), n);
      DividesTransitive(d, Factorial(n - 1), Factorial(n));
    }
  }

  /** Euclid: there is a prime from n on. */
  lemma PrimeFrom(n: nat) returns (p: nat)
    ensures IsPrime(p) && n <= p
  {
    var f := Factorial(n);
    p := PrimeDivisor(f + 1);
    if p < n {
      FactorialMultiple(p, n);
      DividesMod(p, f);
      DividesMod(p, f + 1);
      NoCommonDivisor(p, f);
    }
  }

  lemma NoCommonDivisor(p: nat, f: nat)
    requires p >= 2 && f % p == 0
    ensures (f + 1) % p != 0
  {
    DivisionUnique(p, f / p, 1);
    assert f + 1 == p * (f / p) + 1;
  }
}
