/**
 __next_prime of hash.cpp: trial division over a wheel of 210, started from a table of small
 primes, proved to return the least prime that is not below its argument.
 */
module NextPrime {
  import opened Division
  import opened Primes

  // ----- the tables

  /** small_primes */
  function SmallPrime(j: nat): nat
    requires j < 48
  {
    match j
    case 0 => 0 case 1 => 2 case 2 => 3 case 3 => 5 case 4 => 7 case 5 => 11
    case 6 => 13 case 7 => 17 case 8 => 19 case 9 => 23 case 10 => 29 case 11 => 31
    case 12 => 37 case 13 => 41 case 14 => 43 case 15 => 47 case 16 => 53 case 17 => 59
    case 18 => 61 case 19 => 67 case 20 => 71 case 21 => 73 case 22 => 79 case 23 => 83
    case 24 => 89 case 25 => 97 case 26 => 101 case 27 => 103 case 28 => 107 case 29 => 109
    case 30 => 113 case 31 => 127 case 32 => 131 case 33 => 137 case 34 => 139 case 35 => 149
    case 36 => 151 case 37 => 157 case 38 => 163 case 39 => 167 case 40 => 173 case 41 => 179
    case 42 => 181 case 43 => 191 case 44 => 193 case 45 => 197 case 46 => 199 case _ => 211
  }

  /** indices: the residues modulo 210 of the potential primes */
  function Index(j: nat): nat
    requires j < 48
  {
    match j
    case 0 => 1 case 1 => 11 case 2 => 13 case 3 => 17 case 4 => 19 case 5 => 23
    case 6 => 29 case 7 => 31 case 8 => 37 case 9 => 41 case 10 => 43 case 11 => 47
    case 12 => 53 case 13 => 59 case 14 => 61 case 15 => 67 case 16 => 71 case 17 => 73
    case 18 => 79 case 19 => 83 case 20 => 89 case 21 => 97 case 22 => 101 case 23 => 103
    case 24 => 107 case 25 => 109 case 26 => 113 case 27 => 121 case 28 => 127 case 29 => 131
    case 30 => 137 case 31 => 139 case 32 => 143 case 33 => 149 case 34 => 151 case 35 => 157
    case 36 => 163 case 37 => 167 case 38 => 169 case 39 => 173 case 40 => 179 case 41 => 181
    case 42 => 187 case 43 => 191 case 44 => 193 case 45 => 197 case 46 => 199 case _ => 209
  }

  /** the increments of i in the unrolled loop, one plane of 210 in all */
  function Increment(j: nat): nat
    requires j < 48
  {
    match j
    case 0 => 10 case 1 => 2 case 2 => 4 case 3 => 2 case 4 => 4 case 5 => 6
    case 6 => 2 case 7 => 6 case 8 => 4 case 9 => 2 case 10 => 4 case 11 => 6
    case 12 => 6 case 13 => 2 case 14 => 6 case 15 => 4 case 16 => 2 case 17 => 6
    case 18 => 4 case 19 => 6 case 20 => 8 case 21 => 4 case 22 => 2 case 23 => 4
    case 24 => 2 case 25 => 4 case 26 => 8 case 27 => 6 case 28 => 4 case 29 => 6
    case 30 => 2 case 31 => 4 case 32 => 6 case 33 => 2 case 34 => 6 case 35 => 6
    case 36 => 4 case 37 => 2 case 38 => 4 case 39 => 6 case 40 => 2 case 41 => 6
    case 42 => 4 case 43 => 2 case 44 => 4 case 45 => 2 case 46 => 10 case _ => 2
  }

  /** Not divisible by 2, 3, 5 or 7. */
  predicate OnWheel(m: nat) {
    m % 2 != 0 && m % 3 != 0 && m % 5 != 0 && m % 7 != 0
  }

  predicate HasSmallFactor(m: nat) {
    m % 2 == 0 || m % 3 == 0 || m % 5 == 0 || m % 7 == 0 || m % 11 == 0 || m % 13 == 0
  }

  predicate OffWheel(lo: nat, hi: nat)
    decreases hi - lo
  {
    lo >= hi || (!OnWheel(lo) && OffWheel(lo + 1, hi))
  }

  predicate AllComposite(lo: nat, hi: nat)
    decreases hi - lo
  {
    lo >= hi || (HasSmallFactor(lo) && AllComposite(lo + 1, hi))
  }

  // The tables hold what they are meant to hold; a few entries at a time.

  lemma Wheel0(j: nat)
    requires 0 <= j < 12
    ensures OnWheel(Index(j)) && Index(j + 1) == Index(j) + Increment(j) && OffWheel(Index(j) + 1, Index(j + 1))
  {
    match j
    case 0 => assert OffWheel(2, 11); case 1 => assert OffWheel(12, 13); case 2 => assert OffWheel(14, 17);
    case 3 => assert OffWheel(18, 19); case 4 => assert OffWheel(20, 23); case 5 => assert OffWheel(24, 29);
    case 6 => assert OffWheel(30, 31); case 7 => assert OffWheel(32, 37); case 8 => assert OffWheel(38, 41);
    case 9 => assert OffWheel(42, 43); case 10 => assert OffWheel(44, 47); case 11 => assert OffWheel(48, 53);
  }

  lemma Wheel1(j: nat)
    requires 12 <= j < 24
    ensures OnWheel(Index(j)) && Index(j + 1) == Index(j) + Increment(j) && OffWheel(Index(j) + 1, Index(j + 1))
  {
    match j
    case 12 => assert OffWheel(54, 59); case 13 => assert OffWheel(60, 61); case 14 => assert OffWheel(62, 67);
    case 15 => assert OffWheel(68, 71); case 16 => assert OffWheel(72, 73); case 17 => assert OffWheel(74, 79);
    case 18 => assert OffWheel(80, 83); case 19 => assert OffWheel(84, 89); case 20 => assert OffWheel(90, 97);
    case 21 => assert OffWheel(98, 101); case 22 => assert OffWheel(102, 103); case 23 => assert OffWheel(104, 107);
  }

  lemma Wheel2(j: nat)
    requires 24 <= j < 36
    ensures OnWheel(Index(j)) && Index(j + 1) == Index(j) + Increment(j) && OffWheel(Index(j) + 1, Index(j + 1))
  {
    match j
    case 24 => assert OffWheel(108, 109); case 25 => assert OffWheel(110, 113); case 26 => assert OffWheel(114, 121);
    case 27 => assert OffWheel(122, 127); case 28 => assert OffWheel(128, 131); case 29 => assert OffWheel(132, 137);
    case 30 => assert OffWheel(138, 139); case 31 => assert OffWheel(140, 143); case 32 => assert OffWheel(144, 149);
    case 33 => assert OffWheel(150, 151); case 34 => assert OffWheel(152, 157); case 35 => assert OffWheel(158, 163);
  }

  lemma Wheel3(j: nat)
    requires 36 <= j < 47
    ensures OnWheel(Index(j)) && Index(j + 1) == Index(j) + Increment(j) && OffWheel(Index(j) + 1, Index(j + 1))
  {
    match j
    case 36 => assert OffWheel(164, 167); case 37 => assert OffWheel(168, 169); case 38 => assert OffWheel(170, 173);
    case 39 => assert OffWheel(174, 179); case 40 => assert OffWheel(180, 181); case 41 => assert OffWheel(182, 187);
    case 42 => assert OffWheel(188, 191); case 43 => assert OffWheel(192, 193); case 44 => assert OffWheel(194, 197);
    case 45 => assert OffWheel(198, 199); case 46 => assert OffWheel(200, 209);
  }

  lemma Small0(j: nat)
    requires 6 <= j < 17
    ensures SmallPrime(j) < SmallPrime(j + 1) && !HasSmallFactor(SmallPrime(j + 1))
    ensures AllComposite(SmallPrime(j) + 1, SmallPrime(j + 1))
  {
    match j
    case 6 => assert AllComposite(14, 17);
    case 7 => assert AllComposite(18, 19);
    case 8 => assert AllComposite(20, 23);
    case 9 => assert AllComposite(24, 29);
    case 10 => assert AllComposite(30, 31);
    case 11 => assert AllComposite(32, 37);
    case 12 => assert AllComposite(38, 41);
    case 13 => assert AllComposite(42, 43);
    case 14 => assert AllComposite(44, 47);
    case 15 => assert AllComposite(48, 53);
    case 16 => assert AllComposite(54, 59);
  }

  lemma Small1(j: nat)
    requires 17 <= j < 28
    ensures SmallPrime(j) < SmallPrime(j + 1) && !HasSmallFactor(SmallPrime(j + 1))
    ensures AllComposite(SmallPrime(j) + 1, SmallPrime(j + 1))
  {
    match j
    case 17 => assert AllComposite(60, 61);
    case 18 => assert AllComposite(62, 67);
    case 19 => assert AllComposite(68, 71);
    case 20 => assert AllComposite(72, 73);
    case 21 => assert AllComposite(74, 79);
    case 22 => assert AllComposite(80, 83);
    case 23 => assert AllComposite(84, 89);
    case 24 => assert AllComposite(90, 97);
    case 25 => assert AllComposite(98, 101);
    case 26 => assert AllComposite(102, 103);
    case 27 => assert AllComposite(104, 107);
  }

  lemma Small2(j: nat)
    requires 28 <= j < 38
    ensures SmallPrime(j) < SmallPrime(j + 1) && !HasSmallFactor(SmallPrime(j + 1))
    ensures AllComposite(SmallPrime(j) + 1, SmallPrime(j + 1))
  {
    match j
    case 28 => assert AllComposite(108, 109);
    case 29 => assert AllComposite(110, 113);
    case 30 => assert AllComposite(114, 127);
    case 31 => assert AllComposite(128, 131);
    case 32 => assert AllComposite(132, 137);
    case 33 => assert AllComposite(138, 139);
    case 34 => assert AllComposite(140, 149);
    case 35 => assert AllComposite(150, 151);
    case 36 => assert AllComposite(152, 157);
    case 37 => assert AllComposite(158, 163);
  }

  lemma Small3(j: nat)
    requires 38 <= j < 47
    ensures SmallPrime(j) < SmallPrime(j + 1) && !HasSmallFactor(SmallPrime(j + 1))
    ensures AllComposite(SmallPrime(j) + 1, SmallPrime(j + 1))
  {
    match j
    case 38 => assert AllComposite(164, 167);
    case 39 => assert AllComposite(168, 173);
    case 40 => assert AllComposite(174, 179);
    case 41 => assert AllComposite(180, 181);
    case 42 => assert AllComposite(182, 191);
    case 43 => assert AllComposite(192, 193);
    case 44 => assert AllComposite(194, 197);
    case 45 => assert AllComposite(198, 199);
    case 46 => assert AllComposite(200, 211);
  }

  lemma WheelStep(j: nat)
    requires j < 47
    ensures OnWheel(Index(j)) && Index(j + 1) == Index(j) + Increment(j)
    ensures OffWheel(Index(j) + 1, Index(j + 1))
  {
    if j < 12 { Wheel0(j); } else if j < 24 { Wheel1(j); } else if j < 36 { Wheel2(j); } else { Wheel3(j); }
  }

  lemma SmallStep(j: nat)
    requires 6 <= j < 47
    ensures SmallPrime(j) < SmallPrime(j + 1) && !HasSmallFactor(SmallPrime(j + 1))
    ensures AllComposite(SmallPrime(j) + 1, SmallPrime(j + 1))
  {
    if j < 17 { Small0(j); } else if j < 28 { Small1(j); } else if j < 38 { Small2(j); } else { Small3(j); }
  }

  lemma {:induction false} OffWheelAt(lo: nat, hi: nat, m: nat)
    requires OffWheel(lo, hi) && lo <= m < hi
    ensures !OnWheel(m)
    decreases hi - lo
  {
    if m != lo {
      OffWheelAt(lo + 1, hi, m);
    }
  }

  lemma {:induction false} AllCompositeAt(lo: nat, hi: nat, m: nat)
    requires AllComposite(lo, hi) && lo <= m < hi
    ensures HasSmallFactor(m)
    decreases hi - lo
  {
    if m != lo {
      AllCompositeAt(lo + 1, hi, m);
    }
  }

  // ----- the wheel

  lemma OnWheelPeriodic(k: nat, r: nat)
    ensures OnWheel(210 * k + r) <==> OnWheel(r)
  {
    ModPeriodic(2, 105 * k, r);
    ModPeriodic(3, 70 * k, r);
    ModPeriodic(5, 42 * k, r);
    ModPeriodic(7, 30 * k, r);
  }

  lemma ModPeriodic(d: nat, c: nat, r: nat)
    requires d > 0
    ensures (d * c + r) % d == r % d
  {
    DivisionUnique(d, c + r / d, r % d);
    assert d * (c + r / d) + r % d == d * c + r;
  }

  /** The position after (k, j): the next entry, or the first entry of the next plane. */
  function NextPlane(k: nat, j: nat): nat
    requires j < 48
  {
    if j < 47 then k else k + 1
  }

  function NextEntry(j: nat): (r: nat)
    requires j < 48
    ensures r < 48
  {
    if j < 47 then j + 1 else 0
  }

  /** Stepping by the increment reaches the next number on the wheel and passes over none. */
  lemma WheelComplete(k: nat, j: nat, m: nat)
    requires j < 48
    ensures OnWheel(210 * k + Index(j))
    ensures 210 * k + Index(j) + Increment(j) == 210 * NextPlane(k, j) + Index(NextEntry(j))
    ensures Increment(j) <= 10
    ensures 210 * k + Index(j) < m < 210 * k + Index(j) + Increment(j) ==> !OnWheel(m)
  {
    hide OnWheel, OffWheel, Index;
    OnWheelPeriodic(k, Index(j));
    if j < 47 {
      WheelStep(j);
      if 210 * k + Index(j) < m < 210 * k + Index(j) + Increment(j) {
        OffWheelAt(Index(j) + 1, Index(j + 1), m - 210 * k);
        OnWheelPeriodic(k, m - 210 * k);
      }
    } else {
      LastSpoke(k);
    }
    IncrementSmall(j);
  }

  lemma LastSpoke(k: nat)
    ensures Index(47) == 209 && Increment(47) == 2 && Index(0) == 1 && OnWheel(209) && !OnWheel(210 * k + 210)
  {
    OnWheelPeriodic(k, 210);
  }

  lemma IncrementSmall(j: nat)
    requires j < 48
    ensures 2 <= Increment(j) <= 10
  {
  }

  lemma OffWheelComposite(m: nat)
    requires !OnWheel(m) && m > 7
    ensures !IsPrime(m)
  {
    var d := if m % 2 == 0 then 2 else if m % 3 == 0 then 3 else if m % 5 == 0 then 5 else 7;
    DividesMod(d, m);
  }

  // ----- the small primes

  lemma SmallFactorComposite(m: nat)
    requires HasSmallFactor(m) && m > 13
    ensures !IsPrime(m)
  {
    var d := if m % 2 == 0 then 2 else if m % 3 == 0 then 3 else if m % 5 == 0 then 5
             else if m % 7 == 0 then 7 else if m % 11 == 0 then 11 else 13;
    DividesMod(d, m);
  }

  lemma PrimesBelow17(p: nat)
    requires IsPrime(p) && p < 17
    ensures p == 2 || p == 3 || p == 5 || p == 7 || p == 11 || p == 13
  {
    DividesMod(2, p);
    DividesMod(3, p);
  }

  lemma NoSmallFactorPrime(m: nat)
    requires !HasSmallFactor(m) && 2 <= m < 289
    ensures IsPrime(m)
  {
    forall p: nat | IsPrime(p) && p < 17
      ensures !Divides(p, m)
    {
      PrimesBelow17(p);
      DividesMod(p, m);
    }
    SquareRootBound(m, 17);
  }

  lemma FirstPrimes()
    ensures IsPrime(2) && IsPrime(3) && IsPrime(5) && IsPrime(7) && IsPrime(11) && IsPrime(13)
  {
    forall p: nat | p == 2 || p == 3 || p == 5 || p == 7 || p == 11 || p == 13
      ensures IsPrime(p)
    {
      forall d | 2 <= d < p
        ensures !Divides(d, p)
      {
        DividesMod(d, p);
      }
    }
  }

  /** Entry j of the table is prime, and there is no prime between it and entry j + 1. */
  lemma TableExact(j: nat, m: nat)
    requires 1 <= j < 47
    ensures IsPrime(SmallPrime(j)) && IsPrime(SmallPrime(j + 1)) && SmallPrime(j) < SmallPrime(j + 1) <= 211
    ensures SmallPrime(j) < m < SmallPrime(j + 1) ==> !IsPrime(m)
  {
    FirstPrimes();
    if j >= 6 {
      SmallStep(j);
      NoSmallFactorPrime(SmallPrime(j + 1));
      if SmallPrime(j) < m < SmallPrime(j + 1) {
        AllCompositeAt(SmallPrime(j) + 1, SmallPrime(j + 1), m);
        SmallFactorComposite(m);
      }
      if j > 6 {
        SmallStep(j - 1);
        NoSmallFactorPrime(SmallPrime(j));
      }
    } else if SmallPrime(j) < m < SmallPrime(j + 1) && IsPrime(m) {
      PrimesBelow17(m);
    }
  }

  // ----- the test of one candidate

  lemma SmallQuotient(n: nat, i: nat)
    requires i > 0 && n / i < i
    ensures n < i * i
  {
    BelowSquare(i, n / i, n % i);
  }

  lemma BelowSquare(i: nat, q: nat, r: nat)
    requires q < i && r < i
    ensures i * q + r < i * i
  {
    var d := i - (q + 1);
    assert i * i == i * (q + 1 + d) == i * q + i + i * d;
  }

  lemma LargeQuotient(n: nat, i: nat)
    requires i > 0 && n / i >= i
    ensures i * i <= n
  {
    var q := n / i;
    assert n == i * q + n % i;
    assert i * q >= i * i;
  }

  lemma NoPrimeBelow11(n: nat)
    requires OnWheel(n)
    ensures NoPrimeBelow(n, 11)
  {
    forall p: nat | IsPrime(p) && p < 11
      ensures !Divides(p, n)
    {
      PrimesBelow17(p);
      DividesMod(p, n);
    }
  }

  /** Once i does not divide n and no number between i and i' is prime, the bound moves to i'. */
  lemma MoveBound(n: nat, i: nat, i': nat)
    requires NoPrimeBelow(n, i) && !Divides(i, n)
    requires forall m: nat | i < m < i' :: !IsPrime(m)
    ensures NoPrimeBelow(n, i')
  {
  }

  /** q < i: no divisor can be left to find, so n is prime. */
  lemma QuotientBelow(n: nat, i: nat)
    requires n >= 2 && i > 0 && n / i < i && NoPrimeBelow(n, i)
    ensures IsPrime(n)
  {
    SmallQuotient(n, i);
    SquareRootBound(n, i);
  }

  lemma ProperDivisor(n: nat, i: nat)
    requires 2 <= i < n && n == n / i * i
    ensures !IsPrime(n)
  {
    DividesMod(i, n);
  }

  /**
   The body of the outer loop for one candidate: divide by the table's primes from 11 on, then by the
   numbers of the wheel from 211 on.  size is one more than the largest size_t.
   */
  method CandidateIsPrime(n: nat, size: nat) returns (prime: bool)
    requires OnWheel(n) && 211 < n < size
    ensures prime <==> IsPrime(n)
  {
    hide *;
    FirstEntries();
    NoPrimeBelow11(n);
    for j := 5 to 47
      invariant NoPrimeBelow(n, SmallPrime(j)) && 2 <= SmallPrime(j) <= 211
    {
      var p := SmallPrime(j);
      var q := n / p;
      if q < p {
        QuotientBelow(n, p);
        return true;
      }
      TableEntry(j);
      ProductFits(n, p, size);
      if n == q * p % size {
        ProperDivisor(n, p);
        return false;
      }
      DividesMod(p, n);
      MoveBound(n, p, SmallPrime(j + 1));
    }
    prime := NoPotentialDivisor(n, size);
  }

  /** The inner while loop; the unrolled copies of its body are its turns here, j counting them round. */
  method NoPotentialDivisor(n: nat, size: nat) returns (prime: bool)
    requires 211 < n < size && NoPrimeBelow(n, 211)
    ensures prime <==> IsPrime(n)
  {
    hide *;
    FirstEntries();
    var i, j := 211, 0;
    ghost var k := 1;
    while true
      invariant j < 48 && k >= 1 && 211 <= i <= n && i == 210 * k + Index(j)
      invariant NoPrimeBelow(n, i)
      decreases n - i
    {
      var q := n / i;
      if q < i {
        QuotientBelow(n, i);
        return true;
      }
      LargeQuotient(n, i);
      ProductFits(n, i, size);
      if n == q * i % size {
        ProperDivisor(n, i);
        return false;
      }
      DividesMod(i, n);
      WheelPassesNoPrime(k, j);
      MoveBound(n, i, i + Increment(j));
      IncrementFits(n, i, Increment(j), size);
      i := (i + Increment(j)) % size;
      k, j := NextPlane(k, j), NextEntry(j);
    }
  }

  lemma IncrementFits(n: nat, i: nat, d: nat, size: nat)
    requires 211 <= i && i * i <= n < size && d <= 10
    ensures i + d <= n && (i + d) % size == i + d && i < n
  {
    assert 211 * i <= i * i;
  }

  lemma ProductFits(n: nat, i: nat, size: nat)
    requires i > 0 && n < size
    ensures n / i * i % size == n / i * i
  {
    assert n == i * (n / i) + n % i;
  }

  lemma FirstEntries()
    ensures SmallPrime(5) == 11 && SmallPrime(47) == 211 && Index(0) == 1
  {
  }

  lemma TableEntry(j: nat)
    requires 5 <= j < 47
    ensures 2 <= SmallPrime(j) < 211 && SmallPrime(j) < SmallPrime(j + 1) <= 211
    ensures forall m: nat | SmallPrime(j) < m < SmallPrime(j + 1) :: !IsPrime(m)
  {
    hide *;
    forall m: nat | SmallPrime(j) < m < SmallPrime(j + 1)
      ensures !IsPrime(m)
    {
      TableExact(j, m);
    }
    TableExact(j, 0);
    EntryRange(j);
  }

  lemma EntryRange(j: nat)
    requires 5 <= j < 47
    ensures 2 <= SmallPrime(j) < 211
  {
  }

  lemma WheelPassesNoPrime(k: nat, j: nat)
    requires k >= 1 && j < 48
    ensures 210 * k + Index(j) + Increment(j) == 210 * NextPlane(k, j) + Index(NextEntry(j))
    ensures NextPlane(k, j) >= k && 2 <= Increment(j) <= 10
    ensures forall m: nat | 210 * k + Index(j) < m < 210 * k + Index(j) + Increment(j) :: !IsPrime(m)
  {
    hide OnWheel, Index, Increment;
    WheelComplete(k, j, 0);
    IncrementSmall(j);
    forall m: nat | 210 * k + Index(j) < m < 210 * k + Index(j) + Increment(j)
      ensures !IsPrime(m)
    {
      WheelComplete(k, j, m);
      OffWheelComposite(m);
    }
  }

  // ----- the search

  datatype Result = Found(prime: nat) | Overflow

  /** lower_bound over small_primes. */
  function LowerBoundPrime(n: nat, j: nat): (r: nat)
    requires j < 48 && n <= 211
    ensures j <= r < 48 && SmallPrime(r) >= n
    ensures forall i: nat | j <= i < r :: SmallPrime(i) < n
    decreases 48 - j
  {
    if SmallPrime(j) >= n then j else LowerBoundPrime(n, j + 1)
  }

  /** lower_bound over indices. */
  function LowerBoundIndex(r: nat, j: nat): (i: nat)
    requires j < 48 && r < 210
    ensures j <= i < 48 && Index(i) >= r
    ensures forall l: nat | j <= l < i :: Index(l) < r
    decreases 48 - j
  {
    if Index(j) >= r then j else LowerBoundIndex(r, j + 1)
  }

  ghost predicate LeastPrimeFrom(n: nat, p: nat) {
    IsPrime(p) && n <= p && forall m: nat | n <= m < p :: !IsPrime(m)
  }

  lemma SmallCase(n: nat)
    requires 0 < n <= 211
    ensures LeastPrimeFrom(n, SmallPrime(LowerBoundPrime(n, 0)))
  {
    hide LowerBoundPrime;
    FirstPrimes();
    var r := LowerBoundPrime(n, 0);
    assert SmallPrime(0) < n;
    if r > 1 {
      TableExact(r - 1, 0);
      forall m: nat | n <= m < SmallPrime(r)
        ensures !IsPrime(m)
      {
        TableExact(r - 1, m);
      }
    }
  }

  /** The first candidate: the least number on the wheel from n on. */
  lemma FirstCandidate(n: nat, k: nat, j: nat)
    requires n > 211 && k == n / 210 && j == LowerBoundIndex(n - k * 210, 0)
    ensures k >= 1 && n <= 210 * k + Index(j)
    ensures forall m: nat | n <= m < 210 * k + Index(j) :: !IsPrime(m)
  {
    hide LowerBoundIndex, OnWheel;
    forall m: nat | n <= m < 210 * k + Index(j)
      ensures !IsPrime(m)
    {
      if j > 0 {
        WheelComplete(k, j - 1, m);
      } else {
        LastSpoke(k - 1);
      }
      OffWheelComposite(m);
    }
  }

  lemma OnlyOnWheel(k: nat, j: nat)
    requires j < 48
    ensures OnWheel(210 * k + Index(j))
  {
    hide *;
    WheelComplete(k, j, 0);
  }

  /**
   __next_prime.  limit is the bound of __check_for_overflow for this width of size_t, and bound is any
   prime from n on that size_t can hold: no candidate goes past it, so nothing wraps and the search ends.
   */
  method FindNextPrime(n: nat, limit: nat, size: nat, ghost bound: nat) returns (r: Result)
    requires n < size
    requires 211 < n <= limit ==> IsPrime(bound) && n <= bound < size
    ensures r == Overflow <==> n > 211 && n > limit
    ensures n == 0 ==> r == Found(0)
    ensures n > 0 && r.Found? ==> LeastPrimeFrom(n, r.prime)
    ensures 211 < n <= limit ==> r.Found? && r.prime <= bound
  {
    if n <= 211 {
      if n > 0 {
        SmallCase(n);
      }
      return Found(SmallPrime(LowerBoundPrime(n, 0)));
    }
    if n > limit {
      return Overflow;
    }
    r := SearchFrom(n, size, bound);
  }

  /** The outer loop of __next_prime. */
  method SearchFrom(n: nat, size: nat, ghost bound: nat) returns (r: Result)
    requires 211 < n <= bound < size && IsPrime(bound)
    ensures r.Found? && r.prime <= bound && LeastPrimeFrom(n, r.prime)
  {
    hide *;
    var k0 := n / 210;
    var i := LowerBoundIndex(n - k0 * 210, 0);
    FirstCandidate(n, k0, i);
    NotPast(n, 210 * k0 + Index(i), bound, size);
    var candidate := (210 * k0 + Index(i)) % size;
    while true
      invariant k0 >= 1 && i < 48 && n <= candidate <= bound && candidate == 210 * k0 + Index(i)
      invariant forall m: nat | n <= m < candidate :: !IsPrime(m)
      decreases bound - candidate
    {
      OnlyOnWheel(k0, i);
      var prime := CandidateIsPrime(candidate, size);
      if prime {
        IsLeast(n, candidate);
        return Found(candidate);
      }
      WheelPassesNoPrime(k0, i);
      NextCases(k0, i);
      NotPast(n, candidate + Increment(i), bound, size);
      i := i + 1;
      if i == 48 {
        k0 := k0 + 1;
        i := 0;
      }
      candidate := (210 * k0 + Index(i)) % size;
    }
  }

  lemma NextCases(k: nat, i: nat)
    requires i < 48
    ensures NextPlane(k, i) == if i + 1 == 48 then k + 1 else k
    ensures NextEntry(i) == if i + 1 == 48 then 0 else i + 1
  {
  }

  lemma IsLeast(n: nat, p: nat)
    requires IsPrime(p) && n <= p && forall m: nat | n <= m < p :: !IsPrime(m)
    ensures LeastPrimeFrom(n, p)
  {
  }

  /** A candidate with no prime behind it, from n on, has not passed the bound and does not wrap. */
  lemma NotPast(n: nat, candidate: nat, bound: nat, size: nat)
    requires n <= candidate && n <= bound < size && IsPrime(bound)
    requires forall m: nat | n <= m < candidate :: !IsPrime(m)
    ensures candidate <= bound && candidate % size == candidate
  {
  }
}
