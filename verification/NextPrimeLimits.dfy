/** __next_prime with the bounds of __check_for_overflow: what it answers for each width of size_t. */
module NextPrimeLimits {
  import opened Primes
  import opened NextPrime
  import PrimeLimits

  /** The widths of size_t that have an overload. */
  datatype Width = W16 | W24 | W32 | W64

  function Size(w: Width): nat {
    match w
    case W16 => 0x1_0000
    case W24 => 0x100_0000
    case W32 => 0x1_0000_0000
    case W64 => 0x1_0000_0000_0000_0000
  }

  function Limit(w: Width): nat {
    match w
    case W16 => 0xFFF1
    case W24 => 0xFFFFFD
    case W32 => 0xFFFFFFFB
    case W64 => 0xFFFF_FFFF_FFFF_FFC5
  }

  lemma LimitIsPrime(w: Width)
    ensures IsPrime(Limit(w)) && 211 < Limit(w) < Size(w)
  {
    hide IsPrime;
    match w
    case W16 => PrimeLimits.Limit16();
    case W24 => PrimeLimits.Limit24();
    case W32 => PrimeLimits.Limit32();
    case W64 => PrimeLimits.Limit64();
  }

  lemma Composite(m: nat, d: nat)
    requires 2 <= d < m && m % d == 0
    ensures !IsPrime(m)
  {
    DividesMod(d, m);
  }

  /** A number divisible by 2, 3, 5 or 7. */
  predicate OffWheel(m: nat) {
    m % 2 == 0 || m % 3 == 0 || m % 5 == 0 || m % 7 == 0
  }

  lemma OffWheelComposite(m: nat)
    requires OffWheel(m) && m > 7
    ensures !IsPrime(m)
  {
    hide IsPrime;
    if m % 2 == 0 {
      Composite(m, 2);
    } else if m % 3 == 0 {
      Composite(m, 3);
    } else if m % 5 == 0 {
      Composite(m, 5);
    } else {
      Composite(m, 7);
    }
  }

  lemma NoPrime16(k: nat)
    requires 0 < k < 15
    ensures !IsPrime(0xFFF1 + k)
  {
    hide IsPrime;
    var m := 0xFFF1 + k;
    if k == 10 {
      Composite(m, 19);
    } else if k == 12 {
      Composite(m, 13);
    } else {
      OffWheelComposite(m);
    }
  }

  lemma NoPrime24(k: nat)
    requires 0 < k < 3
    ensures !IsPrime(0xFFFFFD + k)
  {
    hide IsPrime;
    OffWheelComposite(0xFFFFFD + k);
  }

  lemma NoPrime32(k: nat)
    requires 0 < k < 5
    ensures !IsPrime(0xFFFFFFFB + k)
  {
    hide IsPrime;
    if k == 2 {
      Composite(0xFFFFFFFB + k, 9241);
    } else {
      OffWheelComposite(0xFFFFFFFB + k);
    }
  }

  lemma OddFactors64(k: nat)
    requires 0 < k < 59 && !OffWheel(0xFFFF_FFFF_FFFF_FFC5 + k)
    ensures k in {2, 6, 12, 14, 20, 24, 26, 30, 32, 42, 44, 54, 56}
  {
  }

  lemma NoPrime64(k: nat)
    requires 0 < k < 59
    ensures !IsPrime(0xFFFF_FFFF_FFFF_FFC5 + k)
  {
    hide IsPrime, OffWheel;
    var m := 0xFFFF_FFFF_FFFF_FFC5 + k;
    if OffWheel(m) {
      OffWheelComposite(m);
    } else {
      OddFactors64(k);
      match k
      case 2 => Composite(m, 41);
      case 6 => Composite(m, 29);
      case 12 => Composite(m, 31);
      case 14 => Composite(m, 11071);
      case 20 => Composite(m, 139646831);
      case 24 => Composite(m, 17);
      case 26 => Composite(m, 827);
      case 30 => Composite(m, 13);
      case 32 => Composite(m, 11);
      case 42 => Composite(m, 19);
      case 44 => Composite(m, 53);
      case 54 => Composite(m, 11);
      case _ => Composite(m, 13);
    }
  }

  /** The bound is the largest prime that size_t can hold. */
  lemma LimitIsLargest(w: Width, m: nat)
    requires Limit(w) < m < Size(w)
    ensures !IsPrime(m)
  {
    hide IsPrime;
    var k: nat := m - Limit(w);
    match w
    case W16 => NoPrime16(k);
    case W24 => NoPrime24(k);
    case W32 => NoPrime32(k);
    case W64 => NoPrime64(k);
  }

  ghost predicate NoPrimeFrom(n: nat, w: Width) {
    forall m: nat | n <= m < Size(w) :: !IsPrime(m)
  }

  /**
   __next_prime for a size_t of width w: the least prime from n on, or 0 for 0; and overflow_error exactly when
   there is no prime from n on that size_t can hold.
   */
  method NextPrimeOf(n: nat, w: Width) returns (r: Result)
    requires n < Size(w)
    ensures r == Overflow <==> NoPrimeFrom(n, w)
    ensures r.Found? ==> if n == 0 then r.prime == 0 else LeastPrimeFrom(n, r.prime) && r.prime < Size(w)
  {
    hide IsPrime;
    LimitIsPrime(w);
    if n > Limit(w) {
      forall m: nat | n <= m < Size(w)
        ensures !IsPrime(m)
      {
        LimitIsLargest(w, m);
      }
    }
    r := FindNextPrime(n, Limit(w), Size(w), Limit(w));
    if n <= Limit(w) {
      assert !NoPrimeFrom(n, w);
    }
  }
}
