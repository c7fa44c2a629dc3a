/**
 Polynomials over GF(2), and their residues modulo the GCM polynomial
 x^128 + x^7 + x^2 + x + 1 (section 6.3 of NIST SP 800-38D).

 A polynomial is the set of exponents whose coefficient is 1, so addition is symmetric
 difference and equality of polynomials is equality of sets.  Nothing here mentions the
 program: this module is the reference that the byte-level code is compared with.
 */
module Gf2Poly {

  type Poly = set<nat>

  const MODULUS: Poly := {0, 1, 2, 7, 128}

  function Add(a: Poly, b: Poly): (c: Poly)
    ensures forall k: nat :: k in c <==> (k in a) != (k in b)
  {
    (a - b) + (b - a)
  }

  /** x^k * a */
  function Shift(a: Poly, k: nat): (c: Poly)
    ensures forall j: nat :: j in c <==> j >= k && j - k in a
  {
    set i | i in a :: i + k
  }

  ghost predicate Below(a: Poly, n: nat) {
    forall i | i in a :: i < n
  }

  /** The terms of a of degree less than n. */
  function Low(a: Poly, n: nat): Poly {
    set i | i in a && i < n
  }

  /** One more than the degree; 0 for the zero polynomial. */
  ghost function Bound(a: Poly): (n: nat)
    ensures Below(a, n)
    ensures n == 0 <==> a == {}
    ensures n != 0 ==> n - 1 in a
  {
    if a == {} then 0
    else
      var i :| i in a;
      var n := Bound(a - {i});
      assert forall j | j in a :: j == i || j in a - {i};
      if n <= i then i + 1 else n
  }

  /** The sum of x^i * b over the exponents i of a that are less than n. */
  ghost function SumShifts(a: Poly, b: Poly, n: nat): Poly {
    if n == 0 then {}
    else Add(SumShifts(a, b, n - 1), if n - 1 in a then Shift(b, n - 1) else {})
  }

  ghost function Mul(a: Poly, b: Poly): Poly {
    SumShifts(a, b, Bound(a))
  }

  // ----- ring laws

  lemma AddLaws(a: Poly, b: Poly, c: Poly)
    ensures Add(a, b) == Add(b, a)
    ensures Add(Add(a, b), c) == Add(a, Add(b, c))
    ensures Add(a, a) == {} && Add(a, {}) == a && Add({}, a) == a
    ensures Add(Add(a, b), Add(b, c)) == Add(a, c)
    ensures Add(a, Add(a, b)) == b
  {
  }

  lemma AddSwap(a: Poly, b: Poly, c: Poly, d: Poly)
    ensures Add(Add(a, b), Add(c, d)) == Add(Add(a, c), Add(b, d))
  {
  }

  lemma ShiftAdd(a: Poly, b: Poly, k: nat)
    ensures Shift(Add(a, b), k) == Add(Shift(a, k), Shift(b, k))
    ensures Shift({}, k) == {}
  {
  }

  lemma ShiftShift(a: Poly, j: nat, k: nat)
    ensures Shift(Shift(a, j), k) == Shift(a, j + k) == Shift(Shift(a, k), j)
  {
  }

  lemma {:induction false} SumShiftsStable(a: Poly, b: Poly, n: nat, m: nat)
    requires Below(a, n) && n <= m
    ensures SumShifts(a, b, m) == SumShifts(a, b, n)
  {
    if n < m {
      SumShiftsStable(a, b, n, m - 1);
      AddLaws(SumShifts(a, b, m - 1), {}, {});
    }
  }

  lemma MulAt(a: Poly, b: Poly, n: nat)
    requires Below(a, n)
    ensures Mul(a, b) == SumShifts(a, b, n)
  {
    SumShiftsStable(a, b, Bound(a), n);
  }

  lemma {:induction false} SumShiftsAddLeft(a: Poly, a': Poly, b: Poly, n: nat)
    ensures SumShifts(Add(a, a'), b, n) == Add(SumShifts(a, b, n), SumShifts(a', b, n))
  {
    if n != 0 {
      SumShiftsAddLeft(a, a', b, n - 1);
      var s, s' := SumShifts(a, b, n - 1), SumShifts(a', b, n - 1);
      var t := if n - 1 in a then Shift(b, n - 1) else {};
      var t' := if n - 1 in a' then Shift(b, n - 1) else {};
      AddSwap(s, s', t, t');
      assert Add(t, t') == if n - 1 in Add(a, a') then Shift(b, n - 1) else {};
    }
  }

  lemma MulAddLeft(a: Poly, a': Poly, b: Poly)
    ensures Mul(Add(a, a'), b) == Add(Mul(a, b), Mul(a', b))
  {
    var n := Bound(a) + Bound(a');
    MulAt(a, b, n);
    MulAt(a', b, n);
    MulAt(Add(a, a'), b, n);
    SumShiftsAddLeft(a, a', b, n);
  }

  lemma {:induction false} SumShiftsAddRight(a: Poly, b: Poly, b': Poly, n: nat)
    ensures SumShifts(a, Add(b, b'), n) == Add(SumShifts(a, b, n), SumShifts(a, b', n))
  {
    if n != 0 {
      SumShiftsAddRight(a, b, b', n - 1);
      var s, s' := SumShifts(a, b, n - 1), SumShifts(a, b', n - 1);
      if n - 1 in a {
        ShiftAdd(b, b', n - 1);
        AddSwap(s, s', Shift(b, n - 1), Shift(b', n - 1));
      } else {
        AddSwap(s, s', {}, {});
      }
    }
  }

  lemma MulAddRight(a: Poly, b: Poly, b': Poly)
    ensures Mul(a, Add(b, b')) == Add(Mul(a, b), Mul(a, b'))
  {
    SumShiftsAddRight(a, b, b', Bound(a));
  }

  lemma {:induction false} SumShiftsShift(a: Poly, b: Poly, k: nat, n: nat)
    ensures SumShifts(a, Shift(b, k), n) == Shift(SumShifts(a, b, n), k)
  {
    hide Shift;
    if n != 0 {
      SumShiftsShift(a, b, k, n - 1);
      ShiftShift(b, n - 1, k);
      ShiftAdd(SumShifts(a, b, n - 1), if n - 1 in a then Shift(b, n - 1) else {}, k);
    }
  }

  lemma MulMonomialLeft(k: nat, b: Poly)
    ensures Mul({k}, b) == Shift(b, k)
  {
    MulAt({k}, b, k + 1);
    SumShiftsStable({}, b, 0, k);
    SumShiftsAgree({}, {k}, b, k);
  }

  lemma {:induction false} SumShiftsAgree(a: Poly, a': Poly, b: Poly, n: nat)
    requires forall i: nat | i < n :: i in a <==> i in a'
    ensures SumShifts(a, b, n) == SumShifts(a', b, n)
  {
    if n != 0 {
      SumShiftsAgree(a, a', b, n - 1);
    }
  }

  lemma {:induction false} SumShiftsMonomial(a: Poly, k: nat, n: nat)
    ensures SumShifts(a, {k}, n) == Shift(Low(a, n), k)
  {
    if n != 0 {
      SumShiftsMonomial(a, k, n - 1);
    }
  }

  lemma MulMonomialRight(a: Poly, k: nat)
    ensures Mul(a, {k}) == Shift(a, k)
  {
    SumShiftsMonomial(a, k, Bound(a));
    assert Low(a, Bound(a)) == a;
  }

  lemma {:induction false} SumShiftsIsMul(a: Poly, b: Poly, n: nat)
    ensures SumShifts(a, b, n) == Mul(b, Low(a, n))
  {
    hide Add, Shift, Mul;
    var low := Low(a, n);
    if n == 0 {
      assert low == {};
      MulZero(b);
    } else {
      var low' := Low(a, n - 1);
      SumShiftsIsMul(a, b, n - 1);
      if n - 1 in a {
        assert low == Add(low', {n - 1});
        MulAddRight(b, low', {n - 1});
        MulMonomialRight(b, n - 1);
      } else {
        assert low == low';
      }
    }
  }

  lemma MulZero(b: Poly)
    ensures Mul(b, {}) == {} && Mul({}, b) == {}
  {
    var s := SumShifts(b, {}, Bound(b));
    AddLaws({}, {}, {});
    AddLaws(s, s, s);
    SumShiftsAddRight(b, {}, {}, Bound(b));
  }

  lemma MulCommutative(a: Poly, b: Poly)
    ensures Mul(a, b) == Mul(b, a)
  {
    SumShiftsIsMul(a, b, Bound(a));
    assert Low(a, Bound(a)) == a;
  }

  lemma MulShiftLeft(a: Poly, b: Poly, k: nat)
    ensures Mul(Shift(a, k), b) == Shift(Mul(a, b), k)
  {
    MulCommutative(Shift(a, k), b);
    SumShiftsShift(b, a, k, Bound(b));
    MulCommutative(b, a);
  }

  lemma {:induction false} SumShiftsAssociative(a: Poly, b: Poly, c: Poly, n: nat)
    ensures Mul(SumShifts(a, b, n), c) == SumShifts(a, Mul(b, c), n)
  {
    hide Mul, Add, Shift;
    if n == 0 {
      MulZero(c);
    } else {
      SumShiftsAssociative(a, b, c, n - 1);
      var t := if n - 1 in a then Shift(b, n - 1) else {};
      MulAddLeft(SumShifts(a, b, n - 1), t, c);
      MulShiftLeft(b, c, n - 1);
      MulZero(c);
    }
  }

  lemma MulAssociative(a: Poly, b: Poly, c: Poly)
    ensures Mul(Mul(a, b), c) == Mul(a, Mul(b, c))
  {
    SumShiftsAssociative(a, b, c, Bound(a));
  }

  // ----- residues

  ghost predicate Congruent(a: Poly, b: Poly) {
    exists q: Poly :: Add(a, b) == Mul(q, MODULUS)
  }

  lemma CongruentReflexive(a: Poly)
    ensures Congruent(a, a)
  {
    MulZero(MODULUS);
    assert Add(a, a) == Mul({}, MODULUS);
  }

  lemma CongruentSymmetric(a: Poly, b: Poly)
    requires Congruent(a, b)
    ensures Congruent(b, a)
  {
    AddLaws(a, b, {});
  }

  lemma CongruentTransitive(a: Poly, b: Poly, c: Poly)
    requires Congruent(a, b) && Congruent(b, c)
    ensures Congruent(a, c)
  {
    var q: Poly :| Add(a, b) == Mul(q, MODULUS);
    var q': Poly :| Add(b, c) == Mul(q', MODULUS);
    MulAddLeft(q, q', MODULUS);
    AddLaws(a, b, c);
    assert Add(a, c) == Mul(Add(q, q'), MODULUS);
  }

  lemma CongruentAdd(a: Poly, a': Poly, b: Poly, b': Poly)
    requires Congruent(a, a') && Congruent(b, b')
    ensures Congruent(Add(a, b), Add(a', b'))
  {
    var q: Poly :| Add(a, a') == Mul(q, MODULUS);
    var q': Poly :| Add(b, b') == Mul(q', MODULUS);
    MulAddLeft(q, q', MODULUS);
    AddSwap(a, b, a', b');
    assert Add(Add(a, b), Add(a', b')) == Mul(Add(q, q'), MODULUS);
  }

  lemma CongruentMul(a: Poly, a': Poly, b: Poly)
    requires Congruent(a, a')
    ensures Congruent(Mul(a, b), Mul(a', b)) && Congruent(Mul(b, a), Mul(b, a'))
  {
    var q: Poly :| Add(a, a') == Mul(q, MODULUS);
    MulAddLeft(a, a', b);
    calc {
      Mul(Mul(q, MODULUS), b);
      { MulAssociative(q, MODULUS, b); MulCommutative(MODULUS, b); }
      Mul(q, Mul(b, MODULUS));
      { MulAssociative(q, b, MODULUS); }
      Mul(Mul(q, b), MODULUS);
    }
    MulCommutative(a, b);
    MulCommutative(a', b);
  }

  lemma MultipleCongruent(a: Poly, q: Poly)
    ensures Congruent(Add(a, Mul(q, MODULUS)), a)
  {
    AddLaws(a, Mul(q, MODULUS), {});
    AddLaws(Mul(q, MODULUS), a, a);
    assert Add(Add(a, Mul(q, MODULUS)), a) == Mul(q, MODULUS);
  }

  /** The top coefficient of q * MODULUS is that of q, moved up by 128. */
  lemma {:induction false} MultipleBound(q: Poly, n: nat)
    ensures Below(SumShifts(q, MODULUS, n), n + 128)
    ensures n > 0 && n - 1 in q ==> n + 127 in SumShifts(q, MODULUS, n)
  {
    if n > 0 {
      MultipleBound(q, n - 1);
      var s, t := SumShifts(q, MODULUS, n - 1), Shift(MODULUS, n - 1);
      assert Below(t, n + 128) && n + 127 in t by {
        assert n + 127 - (n - 1) == 128;
      }
      assert n + 127 !in s;
    }
  }

  /** Residues below x^128 are unique. */
  lemma ResidueUnique(r: Poly, r': Poly)
    requires Below(r, 128) && Below(r', 128) && Congruent(r, r')
    ensures r == r'
  {
    var q: Poly :| Add(r, r') == Mul(q, MODULUS);
    MultipleBound(q, Bound(q));
    assert q == {};
    MulZero(MODULUS);
    AddLaws(r, r', r');
  }

  /** The remainder of long division by MODULUS. */
  ghost function Reduce(a: Poly): Poly
    decreases Bound(a)
  {
    if Bound(a) <= 128 then a
    else
      var step := Add(a, Shift(MODULUS, Bound(a) - 129));
      CancelTop(a);
      Reduce(step)
  }

  lemma CancelTop(a: Poly)
    requires Bound(a) > 128
    ensures Bound(Add(a, Shift(MODULUS, Bound(a) - 129))) < Bound(a)
  {
    var n := Bound(a);
    var step := Add(a, Shift(MODULUS, n - 129));
    assert n - 1 in Shift(MODULUS, n - 129) by { assert n - 1 - (n - 129) == 128; }
    assert Below(step, n - 1);
  }

  lemma {:induction false} ReduceIsResidue(a: Poly)
    ensures Below(Reduce(a), 128) && Congruent(Reduce(a), a)
    decreases Bound(a)
  {
    hide Add, Shift, Mul, Congruent;
    if Bound(a) <= 128 {
      CongruentReflexive(a);
    } else {
      var k := Bound(a) - 129;
      var step := Add(a, Shift(MODULUS, k));
      CancelTop(a);
      ReduceIsResidue(step);
      MulMonomialLeft(k, MODULUS);
      MultipleCongruent(a, {k});
      CongruentTransitive(Reduce(a), step, a);
    }
  }

  lemma ReduceUnique(a: Poly, r: Poly)
    requires Below(r, 128) && Congruent(r, a)
    ensures r == Reduce(a)
  {
    ReduceIsResidue(a);
    CongruentSymmetric(Reduce(a), a);
    CongruentTransitive(r, a, Reduce(a));
    ResidueUnique(r, Reduce(a));
  }

  // ----- the product of GF(2^128)

  ghost function GfMul(a: Poly, b: Poly): Poly {
    Reduce(Mul(a, b))
  }

  lemma GfMulCommutative(a: Poly, b: Poly)
    ensures GfMul(a, b) == GfMul(b, a)
  {
    MulCommutative(a, b);
  }

  lemma GfMulAssociative(a: Poly, b: Poly, c: Poly)
    ensures GfMul(GfMul(a, b), c) == GfMul(a, GfMul(b, c))
  {
    ReduceIsResidue(Mul(a, b));
    ReduceIsResidue(Mul(b, c));
    ReduceIsResidue(Mul(GfMul(a, b), c));
    CongruentMul(GfMul(a, b), Mul(a, b), c);
    CongruentMul(GfMul(b, c), Mul(b, c), a);
    MulAssociative(a, b, c);
    var r := GfMul(GfMul(a, b), c);
    CongruentTransitive(r, Mul(GfMul(a, b), c), Mul(Mul(a, b), c));
    CongruentSymmetric(Mul(a, GfMul(b, c)), Mul(a, Mul(b, c)));
    CongruentTransitive(r, Mul(a, Mul(b, c)), Mul(a, GfMul(b, c)));
    ReduceUnique(Mul(a, GfMul(b, c)), r);
  }

  lemma GfMulDistributes(a: Poly, a': Poly, b: Poly)
    ensures GfMul(Add(a, a'), b) == Add(GfMul(a, b), GfMul(a', b))
  {
    MulAddLeft(a, a', b);
    ReduceIsResidue(Mul(a, b));
    ReduceIsResidue(Mul(a', b));
    CongruentAdd(GfMul(a, b), Mul(a, b), GfMul(a', b), Mul(a', b));
    ReduceUnique(Mul(Add(a, a'), b), Add(GfMul(a, b), GfMul(a', b)));
  }

  lemma GfMulOne(a: Poly)
    requires Below(a, 128)
    ensures GfMul({0}, a) == a
  {
    MulMonomialLeft(0, a);
    assert Shift(a, 0) == a;
    CongruentReflexive(a);
    ReduceUnique(a, a);
  }
}
