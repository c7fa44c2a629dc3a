/** The restoring division and the shift-and-add product of the trv32p3 runtime, for words of any width. */
module WordDivide {
  import opened Common
  import opened Division
  import opened Words

  // ----- one step of the restoring division

  /** After i of w steps: x is the rest of x0 above i quotient bits q, and r the remainder of the top i bits of x0. */
  ghost predicate DivState(w: nat, i: nat, x0: nat, d: nat, x: nat, rest: nat, q: nat, r: nat) {
    && i <= w && Word(rest, w - i) && Word(q, i) && x == rest * Pow2(i) + q
    && (exists top: nat :: x0 == top * Pow2(w - i) + rest && TopPart(d, i, top, q, r))
  }

  ghost predicate TopPart(d: nat, i: nat, top: nat, q: nat, r: nat) {
    Word(top, i) && if d == 0 then r == top && q == Pow2(i) - 1 else top == q * d + r && r < d
  }

  /** The most significant bit of a word. */
  function TopBit(x: nat, w: nat): nat
    requires w > 0
  {
    Shr(x, w - 1)
  }

  lemma TopBitOf(b: nat, low: nat, w: nat)
    requires w > 0 && b <= 1 && Word(low, w - 1)
    ensures TopBit(b * Pow2(w - 1) + low, w) == b
    ensures Shl(b * Pow2(w - 1) + low, 1, w) == 2 * low
  {
    hide Pow2;
    var p := Pow2(w - 1);
    Pow2Half(w);
    Pow2One();
    ModUnique(b * p + low, p, b, low);
    assert (b * p + low) * 2 == b * (p + p) + 2 * low by {
      Distribute2(b, p);
    }
    ModUnique((b * p + low) * 2, p + p, b, 2 * low);
  }

  lemma Pow2One()
    ensures Pow2(1) == 2 && Pow2(0) == 1
  {
    assert Pow2(1) == 2 * Pow2(0);
  }

  /** Every word of w bits is its top bit above the rest. */
  lemma SplitTop(x: nat, w: nat) returns (b: nat, low: nat)
    requires w > 0 && Word(x, w)
    ensures b <= 1 && Word(low, w - 1) && x == b * Pow2(w - 1) + low
  {
    hide Pow2;
    Pow2Half(w);
    b := if x < Pow2(w - 1) then 0 else 1;
    low := x - b * Pow2(w - 1);
  }

  /**
   With the top bit of d clear, shifting the next bit into the remainder loses nothing, and the step of the
   loop keeps the state.
   */
  lemma DivStep(w: nat, i: nat, x0: nat, d: nat, x: nat, rest: nat, q: nat, r: nat) returns (rest': nat)
    requires DivState(w, i, x0, d, x, rest, q, r) && i < w && Word(d, w - 1)
    ensures Word(r, w - 1) && TopBit(x, w) <= 1 && Word(2 * r + TopBit(x, w), w)
    ensures Shl(x, 1, w) == rest' * Pow2(i + 1) + 2 * q && Word(Shl(x, 1, w) + 1, w) && Shl(x, 1, w) % 2 == 0
    ensures
      var r1 := 2 * r + TopBit(x, w);
      if r1 >= d then DivState(w, i + 1, x0, d, Shl(x, 1, w) + 1, rest', 2 * q + 1, r1 - d)
      else DivState(w, i + 1, x0, d, Shl(x, 1, w), rest', 2 * q, r1)
  {
    hide Pow2, Shl, TopBit, TopPart;
    var b: nat;
    b, rest' := SplitTop(rest, w - i);
    var low := rest' * Pow2(i) + q;
    ShiftedState(w, i, b, rest', q);
    assert x == b * Pow2(w - 1) + low by {
      Distribute(b * Pow2(w - i - 1), rest', Pow2(i));
      MulAssoc(b, Pow2(w - i - 1), Pow2(i));
      Pow2Add(w - i - 1, i);
      assert w - i - 1 + i == w - 1;
    }
    TopBitOf(b, low, w);
    var top: nat :| x0 == top * Pow2(w - i) + rest && TopPart(d, i, top, q, r);
    TopStep(w, i, d, top, q, r, b);
    assert x0 == (2 * top + b) * Pow2(w - i - 1) + rest' by {
      Pow2Half(w - i);
      Distribute2(top, Pow2(w - i - 1));
      Distribute(2 * top, b, Pow2(w - i - 1));
      MulAssoc(2, top, Pow2(w - i - 1));
    }
    assert w - (i + 1) == w - i - 1;
  }

  lemma ShiftedState(w: nat, i: nat, b: nat, rest': nat, q: nat)
    requires i < w && Word(rest', w - i - 1) && Word(q, i)
    ensures Word(rest' * Pow2(i) + q, w - 1)
    ensures 2 * (rest' * Pow2(i) + q) == rest' * Pow2(i + 1) + 2 * q
    ensures Word(2 * (rest' * Pow2(i) + q) + 1, w)
    ensures Word(2 * q + 1, i + 1)
  {
    hide Pow2;
    ConcatWord(rest', q, w - i - 1, i);
    assert w - i - 1 + i == w - 1;
    Pow2Half(i + 1);
    Pow2Half(w);
    Distribute2(rest', Pow2(i));
  }

  /** One more bit of the dividend is divided. */
  lemma TopStep(w: nat, i: nat, d: nat, top: nat, q: nat, r: nat, b: nat)
    requires i < w && b <= 1 && Word(d, w - 1) && TopPart(d, i, top, q, r)
    ensures Word(r, w - 1) && Word(2 * r + b, w)
    ensures
      if 2 * r + b >= d then TopPart(d, i + 1, 2 * top + b, 2 * q + 1, 2 * r + b - d)
      else TopPart(d, i + 1, 2 * top + b, 2 * q, 2 * r + b)
  {
    hide Pow2;
    Pow2Half(i + 1);
    Pow2Half(w);
    Pow2Grows(i, w - 1);
    assert (2 * q + 1) * d == 2 * (q * d) + d;
    assert 2 * q * d == 2 * (q * d);
  }

  lemma {:induction false} Pow2Grows(i: nat, j: nat)
    requires i <= j
    ensures Pow2(i) <= Pow2(j)
  {
    if i < j {
      Pow2Grows(i, j - 1);
    }
  }

  // ----- div_pos

  /** The unsigned division of two words; division by zero gives all ones and leaves the dividend as remainder. */
  method DivPos(x0: nat, d: nat, w: nat) returns (q: nat, r: nat)
    requires w > 0 && Word(x0, w) && Word(d, w)
    ensures Word(q, w) && Word(r, w)
    ensures d != 0 ==> x0 == q * d + r && r < d
    ensures d == 0 ==> q == Pow2(w) - 1 && r == x0
  {
    hide Pow2, Shl, Bitwise, DivState;
    Pow2Half(w);
    if d >= Pow2(w - 1) {
      q, r := 0, x0;
      if r >= d {
        r := r - d;
        q := 1;
      }
      OneWord(w);
      return;
    }
    var x := x0;
    r := 0;
    var i := 0;
    ghost var rest: nat, bits: nat := x0, 0;
    DivStart(w, x0, d);
    while i < w
      invariant 0 <= i <= w && Word(x, w) && Word(r, w)
      invariant DivState(w, i, x0, d, x, rest, bits, r)
    {
      ghost var rest' := DivStep(w, i, x0, d, x, rest, bits, r);
      ShiftIn(r, TopBit(x, w), w);
      r := Bitwise(Or, Shl(r, 1, w), Shr(x, w - 1), w);
      x := Shl(x, 1, w);
      rest, bits := rest', 2 * bits;
      if r >= d {
        r := r - d;
        SetLow(x, w);
        x := Bitwise(Or, x, 1, w);
        bits := bits + 1;
      }
      i := i + 1;
    }
    q := x;
    DivEnd(w, x0, d, x, rest, bits, r);
  }

  lemma OneWord(w: nat)
    requires w > 0
    ensures Word(1, w)
  {
  }

  lemma DivStart(w: nat, x0: nat, d: nat)
    requires Word(x0, w)
    ensures DivState(w, 0, x0, d, x0, x0, 0, 0)
  {
    assert x0 == 0 * Pow2(w - 0) + x0 && TopPart(d, 0, 0, 0, 0);
  }

  lemma DivEnd(w: nat, x0: nat, d: nat, x: nat, rest: nat, q: nat, r: nat)
    requires DivState(w, w, x0, d, x, rest, q, r)
    ensures x == q && if d == 0 then q == Pow2(w) - 1 && r == x0 else x0 == q * d + r && r < d
  {
    Pow2Zero();
    assert rest == 0;
  }

  /** r << 1 | bit. */
  lemma ShiftIn(r: nat, b: nat, w: nat)
    requires w > 0 && b <= 1 && Word(r, w - 1) && Word(2 * r + b, w)
    ensures Bitwise(Or, Shl(r, 1, w), b, w) == 2 * r + b
  {
    hide Bitwise, Pow2;
    Pow2One();
    OrDisjoint(r, b, 1, w);
    WrapSmall(r * 2, w);
  }

  /** x | 1 for an even x. */
  lemma SetLow(x: nat, w: nat)
    requires w > 0 && x % 2 == 0 && Word(x, w)
    ensures Bitwise(Or, x, 1, w) == x + 1
  {
    hide Bitwise, Pow2;
    Pow2One();
    Pow2Half(w);
    OrDisjoint(x / 2, 1, 1, w);
  }

  // ----- signed division

  lemma Magnitude(x: int, w: nat)
    requires w > 0 && InRange(x, w)
    ensures x >= 0 ==> Wrap(x, w) == x
    ensures x < 0 ==> Wrap(0 - Wrap(x, w), w) == -x && Word(-x, w)
    ensures x < 0 <==> Wrap(x, w) >= Pow2(w - 1)
  {
    hide Wrap, Pow2;
    SignedWrap(x, w);
    Pow2Half(w);
    if x < 0 {
      WrapShift(-x, -1, w);
      WrapSmall(-x, w);
    }
  }

  /** Negating a word negates the signed number, except that the least number stays itself. */
  lemma Negated(n: int, w: nat)
    requires w > 0 && 0 <= n <= Pow2(w - 1)
    ensures Signed(Wrap(0 - n, w), w) == -n
  {
    hide Wrap, Pow2;
    SignedWrap(-n, w);
  }

  /** A quotient of magnitudes is smaller than the dividend unless the divisor is 1. */
  lemma QuotientBound(n: nat, d: nat, q: nat, r: nat)
    requires d > 0 && n == q * d + r
    ensures q <= n && (d > 1 && n > 0 ==> q < n) && (d == 1 && r == 0 ==> q == n)
  {
    assert q * d == q + q * (d - 1);
    assert d > 1 && q > 0 ==> q * (d - 1) >= q by {
      if d > 1 && q > 0 {
        MulMonotone(1, d - 1, q);
      }
    }
  }

  /**
   The signed division truncates toward zero and the remainder has the sign of the dividend; the least number
   by -1 wraps to itself; by zero the remainder is the dividend and the quotient 1 or -1.
   */
  method DivCalled(x: int, d: int, w: nat) returns (q: int, r: int)
    requires w > 1 && InRange(x, w) && InRange(d, w)
    ensures InRange(q, w) && InRange(r, w)
    ensures d != 0 && !(x == 0 - Pow2(w - 1) && d == -1) ==>
      x == q * d + r && Abs(r) < Abs(d) && (r == 0 || (r < 0 <==> x < 0))
    ensures x == 0 - Pow2(w - 1) && d == -1 ==> q == x && r == 0
    ensures d == 0 ==> r == x && q == if x < 0 then 1 else -1
  {
    hide Pow2, Wrap, Bitwise, Signed;
    Pow2Half(w);
    Magnitude(x, w);
    Magnitude(d, w);
    var xu: int, du: int := Wrap(x, w), Wrap(d, w);
    if x < 0 {
      xu := Wrap(0 - xu, w);
    }
    if d < 0 {
      du := Wrap(0 - du, w);
    }
    assert xu == Abs(x) && du == Abs(d);
    var qu: int, ru: int := DivPos(xu, du, w);
    r := Signed(ru, w);
    if x < 0 {
      r := Signed(Wrap(-r, w), w);
    }
    RemainderSign(ru, x < 0, w);
    XorSign(Wrap(x, w), Wrap(d, w), w);
    var negative := Bitwise(Xor, Wrap(x, w), Wrap(d, w), w) >= Pow2(w - 1);
    q := Signed(if negative then Wrap(0 - qu, w) else qu, w);
    if d != 0 {
      QuotientOf(x, d, qu, ru, w);
    } else {
      AllOnes(w);
    }
  }

  /** What the signs make of the quotient and the remainder of the magnitudes. */
  lemma QuotientOf(x: int, d: int, qu: int, ru: int, w: nat)
    requires w > 1 && InRange(x, w) && InRange(d, w) && d != 0 && 0 <= qu && 0 <= ru < Abs(d)
    requires Abs(x) == qu * Abs(d) + ru
    ensures
      var q := Signed(if (x < 0) != (d < 0) then Wrap(0 - qu, w) else qu, w);
      var r: int := if x < 0 then 0 - ru else ru;
      && InRange(q, w) && InRange(r, w)
      && (if x == 0 - Pow2(w - 1) && d == -1 then q == x && r == 0
          else x == q * d + r && Abs(r) < Abs(d) && (r == 0 || (r < 0 <==> x < 0)))
  {
    hide Pow2, Wrap, Signed;
    QuotientBound(Abs(x), Abs(d), qu, ru);
    QuotientSign(qu, (x < 0) != (d < 0), w);
    SignedDivision(x, d, qu, ru);
  }

  /** The remainder with the sign of the dividend: r is what the method computes from the magnitude ru. */
  lemma RemainderSign(ru: int, negative: bool, w: nat)
    requires w > 1 && 0 <= ru && (if negative then ru <= Pow2(w - 1) else ru < Pow2(w - 1))
    ensures Signed(ru, w) == if ru < Pow2(w - 1) then ru else -ru
    ensures negative ==> Signed(Wrap(-Signed(ru, w), w), w) == -ru
  {
    hide Pow2, Wrap;
    Pow2Half(w);
    Negated(ru, w);
    if ru == Pow2(w - 1) {
      WrapShift(ru, -1, w);
      WrapSmall(ru, w);
    }
  }

  lemma QuotientSign(qu: int, negative: bool, w: nat)
    requires w > 1 && 0 <= qu <= Pow2(w - 1)
    ensures negative ==> Signed(Wrap(0 - qu, w), w) == -qu
    ensures !negative ==> Signed(qu, w) == if qu < Pow2(w - 1) then qu else -qu
  {
    hide Pow2, Wrap;
    Pow2Half(w);
    Negated(qu, w);
  }

  lemma SignedDivision(x: int, d: int, q: int, r: int)
    requires d != 0 && 0 <= q && 0 <= r && Abs(x) == q * Abs(d) + r && r < Abs(d)
    ensures
      var sq: int := if (x < 0) != (d < 0) then -q else q;
      var sr: int := if x < 0 then -r else r;
      x == sq * d + sr && Abs(sr) < Abs(d) && (sr == 0 || (sr < 0 <==> x < 0))
  {
  }

  lemma AllOnes(w: nat)
    requires w > 1
    ensures Signed(Wrap(0 - (Pow2(w) - 1), w), w) == 1 && Signed(Pow2(w) - 1, w) == -1
  {
    hide Pow2, Wrap;
    Pow2Half(w);
    Pow2Half(w - 1);
    WrapShift(1, -1, w);
    WrapSmall(1, w);
  }

  // ----- the product

  /** The shift-and-add product of two words is their product modulo the word size. */
  method MulCalled(a0: nat, b0: nat, w: nat) returns (p: nat)
    requires w > 0 && Word(a0, w) && Word(b0, w)
    ensures p == Wrap(a0 * b0, w)
  {
    hide Pow2, Wrap, Shl, Shr;
    p := 0;
    var a, b := a0, b0;
    while true
      invariant Word(a, w) && Word(p, w) && Wrap(p + a * b, w) == Wrap(a0 * b0, w)
      decreases b
    {
      MulStep(p, a, b, w);
      if b % 2 == 1 {
        p := Wrap(p + a, w);
      }
      a := Shl(a, 1, w);
      b := Shr(b, 1);
      if b == 0 {
        WrapSmall(p, w);
        return;
      }
    }
  }

  lemma MulStep(p: nat, a: nat, b: nat, w: nat)
    requires Word(p, w)
    ensures Shr(b, 1) == b / 2
    ensures Wrap((if b % 2 == 1 then Wrap(p + a, w) else p) + Shl(a, 1, w) * Shr(b, 1), w) == Wrap(p + a * b, w)
  {
    hide Pow2, Wrap;
    Pow2One();
    assert Shr(b, 1) == b / 2;
    var c := b / 2;
    var more := if b % 2 == 1 then p + a else p;
    assert p + a * b == more + a * 2 * c by {
      assert b == 2 * c + b % 2;
      MulAssoc(a, 2, c);
      assert a * (2 * c + b % 2) == a * (2 * c) + a * (b % 2);
    }
    WrapProduct(a * 2, c, w);
    WrapSum(a * 2 * c, more, w);
    WrapSum(Wrap(a * 2, w) * c, more, w);
    WrapSum(more, Wrap(a * 2, w) * c, w);
  }

  /** On the words of two signed numbers it gives the word of their product. */
  lemma SignedProduct(x: int, y: int, w: nat)
    ensures Wrap(Wrap(x, w) * Wrap(y, w), w) == Wrap(x * y, w)
  {
    hide Pow2, Wrap;
    WrapProduct(x, Wrap(y, w), w);
    WrapProduct(y, x, w);
    assert Wrap(y, w) * x == x * Wrap(y, w) && y * x == x * y;
  }
}
