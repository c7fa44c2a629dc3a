/**
 Primality by the order of an element: a number is prime when some base has an order modulo each of its prime
 divisors that already reaches the square root. With it the largest numbers that hash.cpp lets pass are primes.
 */
module PrimeCertificates {
  import opened Division
  import opened Primes

  // ----- powers and remainders

  function Pow(b: nat, e: nat): nat {
    if e == 0 then 1 else b * Pow(b, e - 1)
  }

  lemma {:induction false} PowAdd(b: nat, i: nat, j: nat)
    ensures Pow(b, i + j) == Pow(b, i) * Pow(b, j)
  {
    hide Pow;
    if i == 0 {
      PowZero(b);
    } else {
      PowAdd(b, i - 1, j);
      PowStep(b, i);
      PowStep(b, i + j);
      MulAssociates(b, Pow(b, i - 1), Pow(b, j));
    }
  }

  lemma PowZero(b: nat)
    ensures Pow(b, 0) == 1
  {
  }

  lemma PowStep(b: nat, e: nat)
    requires e > 0
    ensures Pow(b, e) == b * Pow(b, e - 1)
  {
  }

  function Rem(x: nat, n: nat): nat
    requires n > 0
  {
    x % n
  }

  lemma RemBelow(x: nat, n: nat)
    requires n > 0
    ensures Rem(x, n) < n
  {
  }

  /** Two numbers have the same remainder. */
  predicate Cong(x: nat, y: nat, n: nat)
    requires n > 0
  {
    Rem(x, n) == Rem(y, n)
  }

  lemma CongMul(x: nat, y: nat, z: nat, n: nat)
    requires n > 0 && Cong(x, y, n)
    ensures Cong(x * z, y * z, n) && Cong(z * x, z * y, n)
  {
    hide Rem;
    CongScale(x, z, n);
    CongScale(y, z, n);
    Commute(x, z);
    Commute(y, z);
  }

  lemma Commute(x: nat, z: nat)
    ensures x * z == z * x
  {
  }

  lemma CongScale(x: nat, z: nat, n: nat)
    requires n > 0
    ensures Cong(x * z, Rem(x, n) * z, n)
  {
    CongLinear(n, x / n, Rem(x, n), z);
    assert x == n * (x / n) + Rem(x, n);
  }

  lemma CongLinear(n: nat, q: nat, r: nat, z: nat)
    requires n > 0
    ensures Cong((n * q + r) * z, r * z, n)
  {
    hide Cong;
    DistributeRight(n * q, r, z);
    MulAssociates(n, q, z);
    AddMultiple(r * z, n, q * z);
  }

  lemma DistributeRight(a: nat, b: nat, z: nat)
    ensures (a + b) * z == a * z + b * z
  {
  }

  lemma {:induction false} PowOfOne(b: nat, i: nat, k: nat, n: nat)
    requires n > 1 && Cong(Pow(b, i), 1, n)
    ensures Cong(Pow(b, i * k), 1, n)
  {
    if k > 0 {
      PowOfOne(b, i, k - 1, n);
      assert i * k == i * (k - 1) + i;
      PowAdd(b, i * (k - 1), i);
      CongMul(Pow(b, i), 1, Pow(b, i * (k - 1)), n);
    }
  }

  // ----- orders

  /** The exponents that give 1 are closed under the greatest common divisor. */
  lemma {:induction false} CommonExponent(b: nat, n: nat, i: nat, m: nat) returns (g: nat)
    requires n > 1 && i > 0 && Cong(Pow(b, i), 1, n) && Cong(Pow(b, m), 1, n)
    ensures 0 < g <= i && Divides(g, i) && Divides(g, m) && Cong(Pow(b, g), 1, n)
    decreases i
  {
    hide Pow, Cong;
    var k, r := m / i, m % i;
    assert m == i * k + r;
    PowOfOne(b, i, k, n);
    PowAdd(b, i * k, r);
    CongMul(Pow(b, i * k), 1, Pow(b, r), n);
    CongChain(Pow(b, m), Pow(b, r), n);
    if r == 0 {
      g := i;
      DividesBy(i, 1);
      DividesBy(i, k);
    } else {
      g := CommonExponent(b, n, r, i);
      DividesSum(g, i, k, r);
    }
  }

  lemma CongChain(x: nat, y: nat, n: nat)
    requires n > 0 && Cong(x, 1 * y, n) && Cong(x, 1, n)
    ensures Cong(y, 1, n)
  {
  }

  lemma DividesSum(g: nat, i: nat, k: nat, r: nat)
    requires Divides(g, i) && Divides(g, r)
    ensures Divides(g, i * k + r)
  {
    var a: nat :| MulEq(g, a, i);
    var c: nat :| MulEq(g, c, r);
    assert MulEq(g, a * k + c, i * k + r);
  }

  /** No exponent below m but 0 gives 1. */
  ghost predicate NoSmaller(b: nat, m: nat, n: nat)
    requires n > 0
  {
    forall i: nat | 0 < i < m :: !Cong(Pow(b, i), 1, n)
  }

  ghost predicate HasOrder(b: nat, m: nat, n: nat)
    requires n > 0
  {
    Cong(Pow(b, m), 1, n) && NoSmaller(b, m, n)
  }

  lemma PowersApart(b: nat, m: nat, n: nat, i: nat, j: nat)
    requires n > 1 && HasOrder(b, m, n) && i < j < m
    ensures !Cong(Pow(b, i), Pow(b, j), n)
  {
    hide Pow, Rem;
    PowAdd(b, i, m - j);
    PowAdd(b, j, m - j);
    var e := i + (m - j);
    assert !Cong(Pow(b, e), 1, n);
    if Cong(Pow(b, i), Pow(b, j), n) {
      CongMul(Pow(b, i), Pow(b, j), Pow(b, m - j), n);
    }
  }

  lemma PowerNonzero(b: nat, m: nat, n: nat, i: nat)
    requires n > 1 && HasOrder(b, m, n) && i < m
    ensures Rem(Pow(b, i), n) != 0
  {
    hide Pow;
    PowAdd(b, i, m - i);
    if Cong(Pow(b, i), 0, n) {
      CongMul(Pow(b, i), 0, Pow(b, m - i), n);
    }
  }

  /** The remainders of the first k powers. */
  ghost function Powers(b: nat, n: nat, k: nat): set<nat>
    requires n > 0
  {
    set i: nat | i < k :: Rem(Pow(b, i), n)
  }

  lemma {:induction false} PowersCount(b: nat, m: nat, n: nat, k: nat)
    requires n > 1 && HasOrder(b, m, n) && k <= m
    ensures |Powers(b, n, k)| == k && forall x | x in Powers(b, n, k) :: 0 < x < n
  {
    hide Pow, HasOrder, Rem;
    if k == 0 {
      assert Powers(b, n, k) == {};
    } else {
      PowersCount(b, m, n, k - 1);
      var x := Rem(Pow(b, k - 1), n);
      PowerNonzero(b, m, n, k - 1);
      RemBelow(Pow(b, k - 1), n);
      forall i: nat | i < k - 1
        ensures Rem(Pow(b, i), n) != x
      {
        PowersApart(b, m, n, i, k - 1);
      }
      assert Powers(b, n, k) == Powers(b, n, k - 1) + {x};
    }
  }

  lemma {:induction false} Below(s: set<nat>, n: nat)
    requires n > 0 && forall x | x in s :: 0 < x < n
    ensures |s| < n
  {
    if n == 1 {
      assert s == {};
    } else {
      Below(s - {n - 1}, n - 1);
      assert |s| <= |s - {n - 1}| + 1;
    }
  }

  /** An order is below the modulus: the powers are so many different remainders. */
  lemma OrderBelow(b: nat, m: nat, n: nat)
    requires n > 1 && HasOrder(b, m, n)
    ensures m < n
  {
    hide Pow, HasOrder;
    PowersCount(b, m, n, m);
    Below(Powers(b, n, m), n);
  }

  // ----- Euclid's lemma and products

  lemma {:induction false} Descend(p: nat, k: nat, b: nat)
    requires IsPrime(p) && 0 < k < p && Divides(p, k * b)
    ensures Divides(p, b)
    decreases k
  {
    if k > 1 {
      var q, r := p / k, p % k;
      DividesMod(k, p);
      assert p == k * q + r;
      var t: nat :| MulEq(p, t, k * b);
      RestDivides(p, k, q, r, b, t);
      Descend(p, r, b);
    }
  }

  lemma RestDivides(p: nat, k: nat, q: nat, r: nat, b: nat, t: nat)
    requires p == k * q + r && p * t == k * b
    ensures Divides(p, r * b)
  {
    assert r * b == p * b - k * q * b;
    assert k * q * b == q * (k * b) == q * (p * t) == p * (q * t);
    assert r * b == p * (b - q * t);
    if b < q * t {
      assert p * (b - q * t) <= 0;
      assert MulEq(p, 0, r * b);
    } else {
      assert MulEq(p, b - q * t, r * b);
    }
  }

  lemma EuclidLemma(p: nat, a: nat, b: nat)
    requires IsPrime(p) && Divides(p, a * b)
    ensures Divides(p, a) || Divides(p, b)
  {
    var q, r := a / p, a % p;
    DividesMod(p, a);
    if r != 0 {
      var t: nat :| MulEq(p, t, a * b);
      assert a == p * q + r;
      assert r * b == p * (t - q * b) by {
        assert p * t == (p * q + r) * b == p * (q * b) + r * b;
      }
      assert MulEq(p, t - q * b, r * b) by {
        assert t < q * b ==> p * (t - q * b) < 0;
      }
      Descend(p, r, b);
    }
  }

  function Product(rs: seq<nat>): nat {
    if rs == [] then 1 else Product(rs[..|rs| - 1]) * rs[|rs| - 1]
  }

  /** A prime divisor of a product of primes is one of them. */
  lemma {:induction false} PrimeFactor(p: nat, rs: seq<nat>)
    requires IsPrime(p) && Divides(p, Product(rs)) && forall i | 0 <= i < |rs| :: IsPrime(rs[i])
    ensures p in rs
  {
    if rs == [] {
      var k: nat :| MulEq(p, k, 1);
      FactorBound(p, k);
    } else {
      var n := |rs| - 1;
      EuclidLemma(p, Product(rs[..n]), rs[n]);
      if Divides(p, rs[n]) {
        var k: nat :| MulEq(p, k, rs[n]);
        FactorBound(p, k);
      } else {
        PrimeFactor(p, rs[..n]);
      }
    }
  }

  // ----- the certificate

  /** c inverts b^e - 1 modulo n. */
  ghost predicate Inverts(n: nat, b: nat, e: nat, c: nat)
    requires n > 1
  {
    Pow(b, e) > 0 && Cong(c * (Pow(b, e) - 1), 1, n)
  }

  /** Then no divisor of n sees 1 there. */
  lemma InvertsApart(n: nat, b: nat, e: nat, c: nat, p: nat)
    requires n > 1 && p > 1 && Divides(p, n) && Inverts(n, b, e, c)
    ensures !Cong(Pow(b, e), 1, p)
  {
    hide Pow, Rem;
    var x := Pow(b, e);
    if Cong(x, 1, p) {
      OneMore(x, p);
      CongMul(x - 1, 0, c, p);
      CongThrough(c * (x - 1), 1, n, p);
      OneIsNotZero(p);
    }
  }

  lemma CongThrough(x: nat, y: nat, n: nat, p: nat)
    requires n > 0 && p > 0 && Divides(p, n) && Cong(x, y, n)
    ensures Cong(x, y, p)
  {
    hide Rem;
    RemThrough(x, n, p);
    RemThrough(y, n, p);
  }

  lemma OneMore(x: nat, p: nat)
    requires p > 1 && x > 0 && Cong(x, 1, p)
    ensures Cong(x - 1, 0, p)
  {
    hide Rem;
    RemQuotient(x, p);
    SmallRem(1, p);
    AddMultiple(0, p, x / p);
  }

  lemma SmallRem(x: nat, p: nat)
    requires x < p
    ensures Rem(x, p) == x
  {
  }

  lemma OneIsNotZero(p: nat)
    requires p > 1
    ensures !Cong(1, 0, p)
  {
  }

  /** Remainders by a multiple of p keep the remainder by p. */
  lemma RemThrough(x: nat, n: nat, p: nat)
    requires n > 0 && p > 0 && Divides(p, n)
    ensures Cong(Rem(x, n), x, p)
  {
    hide Rem;
    var k: nat :| MulEq(p, k, n);
    RemQuotient(x, n);
    MulAssociates(p, k, x / n);
    AddMultiple(Rem(x, n), p, k * (x / n));
  }

  lemma RemQuotient(x: nat, n: nat)
    requires n > 0
    ensures x == n * (x / n) + Rem(x, n)
  {
  }

  lemma DistributeLeft(p: nat, a: nat, b: nat)
    ensures p * (a + b) == p * a + p * b
  {
  }

  lemma AddMultiple(r: nat, p: nat, t: nat)
    requires p > 0
    ensures Cong(p * t + r, r, p)
  {
    DistributeLeft(p, t, r / p);
    DivisionUnique(p, t + r / p, r % p);
  }

  lemma ProperDivisor(g: nat, m: nat) returns (r: nat)
    requires 0 < g < m && Divides(g, m)
    ensures IsPrime(r) && Divides(r, m) && Divides(g, m / r)
  {
    var k: nat :| MulEq(g, k, m);
    assert k > 1 by {
      assert k == 0 ==> g * k == 0;
      assert k == 1 ==> g * k == g;
    }
    r := PrimeDivisor(k);
    var t: nat :| MulEq(r, t, k);
    assert m == r * (g * t);
    DividesBy(r, g * t);
    ModOfProduct(r, g * t);
    DividesBy(g, t);
  }

  /** b^m is 1 modulo n, and for every prime r of m some number inverts b^(m / r) - 1. */
  ghost predicate Certificate(n: nat, b: nat, rs: seq<nat>, cs: seq<nat>) {
    && n > 1 && |cs| == |rs| && Cong(Pow(b, Product(rs)), 1, n)
    && forall i | 0 <= i < |rs| :: IsPrime(rs[i]) && Inverts(n, b, Product(rs) / rs[i], cs[i])
  }

  /** The order of b is the product of the primes, modulo every divisor of n. */
  lemma CertificateOrder(n: nat, b: nat, rs: seq<nat>, cs: seq<nat>, p: nat)
    requires Certificate(n, b, rs, cs) && p > 1 && Divides(p, n)
    ensures HasOrder(b, Product(rs), p)
  {
    hide Pow, Inverts, Product, Rem;
    var m := Product(rs);
    CongThrough(Pow(b, m), 1, n, p);
    forall i: nat | 0 < i < m
      ensures !Cong(Pow(b, i), 1, p)
    {
      if Cong(Pow(b, i), 1, p) {
        var g := CommonExponent(b, p, i, m);
        var r := ProperDivisor(g, m);
        PrimeFactor(r, rs);
        var j :| 0 <= j < |rs| && rs[j] == r;
        var k: nat :| MulEq(g, k, m / r);
        PowOfOne(b, g, k, p);
        InvertsApart(n, b, m / r, cs[j], p);
      }
    }
  }

  /** A certificate whose primes multiply to the square root makes a prime. */
  lemma Certified(n: nat, b: nat, rs: seq<nat>, cs: seq<nat>)
    requires Certificate(n, b, rs, cs) && n < (Product(rs) + 1) * (Product(rs) + 1)
    ensures IsPrime(n)
  {
    hide Certificate, Product, HasOrder;
    var m := Product(rs);
    forall p: nat | IsPrime(p) && p < m + 1
      ensures !Divides(p, n)
    {
      if Divides(p, n) {
        CertificateModulus(n, b, rs, cs);
        CertificateOrder(n, b, rs, cs, p);
        OrderBelow(b, m, p);
      }
    }
    CertificateModulus(n, b, rs, cs);
    SquareRootBound(n, m + 1);
  }

  lemma CertificateModulus(n: nat, b: nat, rs: seq<nat>, cs: seq<nat>)
    requires Certificate(n, b, rs, cs)
    ensures n > 1
  {
  }

  // ----- the bounds of __check_for_overflow

  /** No number from lo up to hi divides n. */
  predicate NoDivisor(n: nat, lo: nat, hi: nat)
    requires lo > 0
    decreases hi - lo
  {
    lo >= hi || (n % lo != 0 && NoDivisor(n, lo + 1, hi))
  }

  lemma {:induction false} NoDivisorMeans(n: nat, lo: nat, hi: nat, d: nat)
    requires lo > 0 && NoDivisor(n, lo, hi) && lo <= d < hi
    ensures !Divides(d, n)
    decreases hi - lo
  {
    if d == lo {
      DividesMod(d, n);
    } else {
      NoDivisorMeans(n, lo + 1, hi, d);
    }
  }

  lemma TrialDivision(n: nat, b: nat)
    requires 2 <= n < b * b && NoDivisor(n, 2, b)
    ensures IsPrime(n)
  {
    forall p: nat | IsPrime(p) && p < b
      ensures !Divides(p, n)
    {
      NoDivisorMeans(n, 2, b, p);
    }
    SquareRootBound(n, b);
  }

  // ----- certificates with numbers

  lemma RemOfRem(x: nat, n: nat)
    requires n > 0
    ensures Cong(x % n, x, n)
  {
  }

  /** The power with twice the exponent. */
  lemma Double(n: nat, b: nat, e: nat, v: nat, v': nat)
    requires n > 0 && Cong(Pow(b, e), v, n) && v * v % n == v'
    ensures Cong(Pow(b, 2 * e), v', n)
  {
    hide Pow, Rem;
    PowAdd(b, e, e);
    CongMul(Pow(b, e), v, Pow(b, e), n);
    CongMul(Pow(b, e), v, v, n);
    RemOfRem(v * v, n);
  }

  /** The power with the next exponent. */
  lemma Next(n: nat, b: nat, e: nat, v: nat, v': nat)
    requires n > 0 && Cong(Pow(b, e), v, n) && v * b % n == v'
    ensures Cong(Pow(b, e + 1), v', n)
  {
    hide Pow, Rem;
    PowAdd(b, e, 1);
    PowSmall(b);
    CongMul(Pow(b, e), v, b, n);
    RemOfRem(v * b, n);
  }

  lemma PowSmall(b: nat)
    ensures Pow(b, 0) == 1 && Pow(b, 1) == b
  {
  }

  lemma Start(n: nat, b: nat)
    requires n > 0
    ensures Cong(Pow(b, 1), b, n)
  {
    PowSmall(b);
  }

  lemma InvertedBy(n: nat, b: nat, e: nat, v: nat, c: nat)
    requires n > 1 && b > 0 && Cong(Pow(b, e), v, n) && v > 0 && c * (v - 1) % n == 1
    ensures Inverts(n, b, e, c)
  {
    hide Pow, Rem;
    PowPositive(b, e);
    CongLess(Pow(b, e), v, n);
    CongMul(Pow(b, e) - 1, v - 1, c, n);
    RemOfRem(c * (v - 1), n);
  }

  lemma PowPositive(b: nat, e: nat)
    requires b > 0
    ensures Pow(b, e) > 0
  {
    if e > 0 {
      PowPositive(b, e - 1);
    }
  }

  lemma CongLess(x: nat, y: nat, n: nat)
    requires n > 0 && x > 0 && y > 0 && Cong(x, y, n)
    ensures Cong(x - 1, y - 1, n)
  {
    hide Rem;
    RemQuotient(x, n);
    RemQuotient(y, n);
    RemBelow(x, n);
    if Rem(x, n) > 0 {
      AddMultiple(Rem(x, n) - 1, n, x / n);
      AddMultiple(Rem(x, n) - 1, n, y / n);
    } else {
      LastRem(n, x, x / n);
      LastRem(n, y, y / n);
    }
  }

  lemma LastRem(n: nat, x: nat, q: nat)
    requires n > 0 && x > 0 && x == n * q
    ensures Cong(x - 1, n - 1, n)
  {
    hide Rem;
    assert q > 0;
    assert x - 1 == n * (q - 1) + (n - 1);
    AddMultiple(n - 1, n, q - 1);
  }
}
