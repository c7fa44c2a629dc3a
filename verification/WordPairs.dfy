/** Double words of the trv32p3 runtime: pairs of words of any width w that stand for one word of twice the width. */
module WordPairs {
  import opened Division
  import opened Words

  datatype Dint = Dint(low: nat, high: nat)

  predicate Pair(a: Dint, w: nat) {
    Word(a.low, w) && Word(a.high, w)
  }

  function Value(a: Dint, w: nat): nat {
    a.high * Pow2(w) + a.low
  }

  lemma ValueWord(a: Dint, w: nat)
    requires Pair(a, w)
    ensures Word(Value(a, w), 2 * w)
  {
    hide Pow2;
    ConcatWord(a.high, a.low, w, w);
    assert w + w == 2 * w;
  }

  /** The signed double word takes its sign from the high word. */
  lemma SignedValue(a: Dint, w: nat)
    requires w > 0 && Pair(a, w)
    ensures Signed(Value(a, w), 2 * w) == Signed(a.high, w) * Pow2(w) + a.low
  {
    hide Pow2;
    Pow2Half(w);
    var h, m := Pow2(w - 1), Pow2(w);
    Pow2Add(w - 1, w);
    Pow2Add(w, w);
    assert 2 * w - 1 == w - 1 + w && 2 * w == w + w;
    if a.high < h {
      MulMonotone(a.high + 1, h, m);
      Distribute(a.high, 1, m);
    } else {
      MulMonotone(h, a.high, m);
      Distribute(a.high - m, m, m);
    }
  }

  // ----- addition and subtraction

  /** A sum of pairs with carry c out of the low words, modulo twice the width. */
  lemma Carried(r: Dint, high: int, low: int, w: nat)
    requires Pair(r, w) && r.high == Wrap(high, w) && r.low == low
    ensures Value(r, w) == Wrap(high * Pow2(w) + low, 2 * w)
  {
    hide Pow2, Wrap;
    var m := Pow2(w);
    var k := WrapGap(high, w);
    Pow2Add(w, w);
    assert w + w == 2 * w;
    assert high * m + low == Value(r, w) + k * (m * m) by {
      Distribute(r.high, k * m, m);
      assert k * m * m == k * (m * m);
    }
    WrapShift(Value(r, w), k, 2 * w);
    ValueWord(r, w);
    WrapSmall(Value(r, w), 2 * w);
  }

  /** The low word of a sum is smaller than a summand exactly when there was a carry. */
  lemma CarryRecovered(a: nat, b: nat, w: nat)
    requires Word(a, w) && Word(b, w)
    ensures a + b == Wrap(a + b, w) + if Wrap(a + b, w) < a then Pow2(w) else 0
  {
    hide Pow2, Wrap;
    if a + b < Pow2(w) {
      WrapSmall(a + b, w);
    } else {
      WrapShift(a + b, -1, w);
      WrapSmall(a + b - Pow2(w), w);
    }
  }

  lemma BorrowRecovered(a: nat, b: nat, w: nat)
    requires Word(a, w) && Word(b, w)
    ensures a - b == Wrap(a - b, w) - if a < b then Pow2(w) else 0
  {
    hide Pow2, Wrap;
    if a < b {
      WrapShift(a - b, 1, w);
      WrapSmall(a - b + Pow2(w), w);
    } else {
      WrapSmall(a - b, w);
    }
  }

  /** l_add; aKnown and bKnown say whether the compiler knows the low words to be zero. */
  method LAdd(a: Dint, b: Dint, w: nat, aKnown: bool, bKnown: bool) returns (r: Dint)
    requires Pair(a, w) && Pair(b, w)
    ensures Pair(r, w) && Value(r, w) == Wrap(Value(a, w) + Value(b, w), 2 * w)
  {
    hide Pow2, Wrap;
    Distribute(a.high, b.high, Pow2(w));
    if aKnown && a.low == 0 {
      r := Dint(b.low, Wrap(a.high + b.high, w));
      Carried(r, a.high + b.high, b.low, w);
    } else if bKnown && b.low == 0 {
      r := Dint(a.low, Wrap(a.high + b.high, w));
      Carried(r, a.high + b.high, a.low, w);
    } else {
      r := Dint(Wrap(a.low + b.low, w), Wrap(a.high + b.high, w));
      var carry := if r.low < a.low then 1 else 0;
      r := r.(high := Wrap(r.high + carry, w));
      CarryRecovered(a.low, b.low, w);
      WrapSum(a.high + b.high, carry, w);
      Carried(r, a.high + b.high + carry, r.low, w);
      Distribute(a.high + b.high, carry, Pow2(w));
    }
  }

  method LSub(a: Dint, b: Dint, w: nat, bKnown: bool) returns (r: Dint)
    requires Pair(a, w) && Pair(b, w)
    ensures Pair(r, w) && Value(r, w) == Wrap(Value(a, w) - Value(b, w), 2 * w)
  {
    hide Pow2, Wrap;
    Distribute(a.high - b.high, b.high, Pow2(w));
    if bKnown && b.low == 0 {
      r := Dint(a.low, Wrap(a.high - b.high, w));
      Carried(r, a.high - b.high, a.low, w);
    } else {
      r := Dint(Wrap(a.low - b.low, w), Wrap(a.high - b.high, w));
      var borrow := if a.low < b.low then 1 else 0;
      r := r.(high := Wrap(r.high - borrow, w));
      BorrowRecovered(a.low, b.low, w);
      WrapSum(a.high - b.high, -borrow, w);
      Carried(r, a.high - b.high - borrow, r.low, w);
      Distribute(a.high - b.high - borrow, borrow, Pow2(w));
    }
  }

  // ----- comparisons

  function LLts(a: Dint, b: Dint, w: nat): bool
    requires w > 0
  {
    if Signed(a.high, w) < Signed(b.high, w) then true
    else if a.high == b.high then a.low < b.low
    else false
  }

  function LLes(a: Dint, b: Dint, w: nat): bool
    requires w > 0
  {
    if Signed(a.high, w) < Signed(b.high, w) then true
    else if a.high == b.high then a.low <= b.low
    else false
  }

  function LLtu(a: Dint, b: Dint): bool {
    if a.high < b.high then true
    else if a.high == b.high then a.low < b.low
    else false
  }

  function LLeu(a: Dint, b: Dint): bool {
    if a.high < b.high then true
    else if a.high == b.high then a.low <= b.low
    else false
  }

  function LEq(a: Dint, b: Dint): bool {
    a.high == b.high && a.low == b.low
  }

  function LNe(a: Dint, b: Dint): bool {
    a.high != b.high || a.low != b.low
  }

  /** Numbers with their parts in two places are ordered by the higher place first. */
  lemma Lexicographic(ah: int, al: nat, bh: int, bl: nat, m: nat)
    requires al < m && bl < m
    ensures ah < bh ==> ah * m + al < bh * m + bl
    ensures ah == bh ==> (ah * m + al < bh * m + bl <==> al < bl)
    ensures ah * m + al == bh * m + bl <==> ah == bh && al == bl
  {
    if ah < bh {
      MulMonotone(ah + 1, bh, m);
      Distribute(ah, 1, m);
    } else if bh < ah {
      MulMonotone(bh + 1, ah, m);
      Distribute(bh, 1, m);
    }
  }

  lemma SignedInjective(x: nat, y: nat, w: nat)
    requires w > 0 && Word(x, w) && Word(y, w)
    ensures Signed(x, w) == Signed(y, w) <==> x == y
  {
    hide Pow2;
    Pow2Half(w);
  }

  /** The comparisons of pairs are the comparisons of the numbers they stand for. */
  lemma Comparisons(a: Dint, b: Dint, w: nat)
    requires w > 0 && Pair(a, w) && Pair(b, w)
    ensures LLts(a, b, w) <==> Signed(Value(a, w), 2 * w) < Signed(Value(b, w), 2 * w)
    ensures LLes(a, b, w) <==> Signed(Value(a, w), 2 * w) <= Signed(Value(b, w), 2 * w)
    ensures LLtu(a, b) <==> Value(a, w) < Value(b, w)
    ensures LLeu(a, b) <==> Value(a, w) <= Value(b, w)
    ensures LEq(a, b) <==> Value(a, w) == Value(b, w)
    ensures LNe(a, b) <==> Value(a, w) != Value(b, w)
  {
    hide Pow2, Signed;
    SignedValue(a, w);
    SignedValue(b, w);
    SignedInjective(a.high, b.high, w);
    Lexicographic(Signed(a.high, w), a.low, Signed(b.high, w), b.low, Pow2(w));
    Lexicographic(Signed(b.high, w), b.low, Signed(a.high, w), a.low, Pow2(w));
    Lexicographic(a.high, a.low, b.high, b.low, Pow2(w));
    Lexicographic(b.high, b.low, a.high, a.low, Pow2(w));
  }

  // ----- bitwise operators and conversions

  function LBitwise(op: Op, a: Dint, b: Dint, w: nat): Dint {
    Dint(Bitwise(op, a.low, b.low, w), Bitwise(op, a.high, b.high, w))
  }

  lemma BitwisePairs(op: Op, a: Dint, b: Dint, w: nat)
    requires Pair(a, w) && Pair(b, w)
    ensures Value(LBitwise(op, a, b, w), w) == Bitwise(op, Value(a, w), Value(b, w), 2 * w)
  {
    hide Pow2, Bitwise;
    BitwiseConcat(op, a.high, a.low, b.high, b.low, w, w);
    assert w + w == 2 * w;
  }

  /** ~x flips every bit of the word. */
  function Complement(x: nat, w: nat): nat {
    Bitwise(Xor, x, Pow2(w) - 1, w)
  }

  function LComplement(a: Dint, w: nat): Dint {
    Dint(Complement(a.low, w), Complement(a.high, w))
  }

  lemma {:induction false} ComplementValue(x: nat, w: nat)
    requires Word(x, w)
    ensures Complement(x, w) == Pow2(w) - 1 - x
  {
    if w > 0 {
      ComplementValue(x / 2, w - 1);
      assert (Pow2(w) - 1) / 2 == Pow2(w - 1) - 1;
    }
  }

  /** The complement of a pair is the complement of the double word: minus the number, minus one. */
  lemma ComplementPair(a: Dint, w: nat)
    requires w > 0 && Pair(a, w)
    ensures Pair(LComplement(a, w), w)
    ensures Value(LComplement(a, w), w) == Complement(Value(a, w), 2 * w) == Wrap(-1 - Value(a, w), 2 * w)
    ensures Signed(Value(LComplement(a, w), w), 2 * w) == -1 - Signed(Value(a, w), 2 * w)
  {
    hide Pow2, Complement, Wrap;
    ComplementValue(a.low, w);
    ComplementValue(a.high, w);
    ValueWord(a, w);
    ComplementValue(Value(a, w), 2 * w);
    var m := Pow2(w);
    Pow2Add(w, w);
    assert w + w == 2 * w;
    Distribute(m - 1, 0 - a.high, m);
    assert (0 - a.high) * m == 0 - a.high * m;
    WrapShift(-1 - Value(a, w), 1, 2 * w);
    WrapSmall(m * m - 1 - Value(a, w), 2 * w);
    Pow2Half(2 * w);
  }

  /** to_dint_se: i >> (w - 1) fills the high word with the sign. */
  function ToDintSe(i: nat, w: nat): Dint
    requires w > 0
  {
    Dint(i, Asr(i, w - 1, w))
  }

  lemma SignExtends(i: nat, w: nat)
    requires w > 0 && Word(i, w)
    ensures Pair(ToDintSe(i, w), w) && Signed(Value(ToDintSe(i, w), w), 2 * w) == Signed(i, w)
  {
    hide Pow2, Wrap;
    var p := Pow2(w - 1);
    Pow2Half(w);
    var fill: int := if i < p then 0 else -1;
    ModUnique(Signed(i, w), p, fill, if i < p then i else i - p);
    SignedWrapFill(fill, w);
    SignedValue(ToDintSe(i, w), w);
  }

  lemma SignedWrapFill(fill: int, w: nat)
    requires w > 0 && -1 <= fill <= 0
    ensures Signed(Wrap(fill, w), w) == fill
  {
    hide Pow2, Wrap;
    SignedWrap(fill, w);
  }

  // ----- shifts

  /** x << f loses the top f bits, which x >> (w - f) finds. */
  lemma ShlParts(x: nat, f: nat, w: nat)
    requires Word(x, w) && f <= w
    ensures Shl(x, f, w) == Mod(x, Pow2(w - f)) * Pow2(f)
    ensures x * Pow2(f) == Shr(x, w - f) * Pow2(w) + Shl(x, f, w)
    ensures Word(Shr(x, w - f), f) && Word(Mod(x, Pow2(w - f)), w - f)
  {
    hide Pow2;
    var hi, lo := Shr(x, w - f), Mod(x, Pow2(w - f));
    DivMod(x, Pow2(w - f));
    Pow2Add(w - f, f);
    assert w - f + f == w;
    assert x * Pow2(f) == hi * Pow2(w) + lo * Pow2(f) by {
      Distribute(hi * Pow2(w - f), lo, Pow2(f));
      MulAssoc(hi, Pow2(w - f), Pow2(f));
    }
    ConcatWord(lo, 0, w - f, f);
    ModUnique(x * Pow2(f), Pow2(w), hi, lo * Pow2(f));
    HighPart(hi, lo, w - f, f);
  }

  /** The part of a word above its low k bits has the other bits. */
  lemma HighPart(hi: nat, lo: nat, k: nat, f: nat)
    requires Word(hi * Pow2(k) + lo, f + k) && Word(lo, k)
    ensures Word(hi, f)
  {
    hide Pow2;
    Pow2Add(f, k);
    if hi >= Pow2(f) {
      MulMonotone(Pow2(f), hi, Pow2(k));
    }
  }

  /** l_lsl for every shift count the type allows. */
  method LLsl(a: Dint, f: nat, w: nat) returns (r: Dint)
    requires w > 0 && Pair(a, w) && f < 2 * w
    ensures Pair(r, w) && Value(r, w) == Wrap(Value(a, w) * Pow2(f), 2 * w)
  {
    hide Pow2, Wrap, Shl, Shr, Bitwise, Value;
    if f == 0 {
      r := a;
      ShiftByZero(a, w);
    } else if f < w {
      var carries := Shr(a.low, w - f);
      r := Dint(Shl(a.low, f, w), Bitwise(Or, Shl(a.high, f, w), carries, w));
      LslSmall(a, f, w);
    } else {
      var carries := Shl(a.low, f - w, w);
      r := Dint(0, carries);
      LslLarge(a, f, w);
    }
  }

  lemma ShiftByZero(a: Dint, w: nat)
    requires w > 0 && Pair(a, w)
    ensures Value(a, w) == Wrap(Value(a, w) * Pow2(0), 2 * w)
  {
    hide Wrap;
    Pow2Zero();
    ValueWord(a, w);
    WrapSmall(Value(a, w), 2 * w);
  }

  lemma LslSmall(a: Dint, f: nat, w: nat)
    requires Pair(a, w) && 0 < f < w
    ensures
      var high := Bitwise(Or, Shl(a.high, f, w), Shr(a.low, w - f), w);
      Value(Dint(Shl(a.low, f, w), high), w) == Wrap(Value(a, w) * Pow2(f), 2 * w)
  {
    hide Pow2, Wrap, Shl, Shr, Bitwise;
    ShlParts(a.low, f, w);
    ShlParts(a.high, f, w);
    var carries := Shr(a.low, w - f);
    OrDisjoint(Mod(a.high, Pow2(w - f)), carries, f, w);
    var high := Shl(a.high, f, w) + carries;
    WrapShift(high, Shr(a.high, w - f), w);
    WrapSmall(high, w);
    assert Wrap(a.high * Pow2(f) + carries, w) == high;
    Carried(Dint(Shl(a.low, f, w), high), a.high * Pow2(f) + carries, Shl(a.low, f, w), w);
    assert Value(a, w) * Pow2(f) == (a.high * Pow2(f) + carries) * Pow2(w) + Shl(a.low, f, w) by {
      Distribute(a.high * Pow2(w), a.low, Pow2(f));
      Swap(a.high, Pow2(w), Pow2(f));
      Distribute(a.high * Pow2(f), carries, Pow2(w));
    }
  }

  lemma LslLarge(a: Dint, f: nat, w: nat)
    requires Pair(a, w) && w <= f < 2 * w
    ensures Value(Dint(0, Shl(a.low, f - w, w)), w) == Wrap(Value(a, w) * Pow2(f), 2 * w)
  {
    hide Pow2, Wrap;
    var p, m := Pow2(f - w), Pow2(w);
    var high := Value(a, w) * p;
    Pow2Add(f - w, w);
    assert f - w + w == f;
    assert high == a.low * p + a.high * p * m by {
      Distribute(a.high * m, a.low, p);
      Swap(a.high, m, p);
    }
    WrapShift(a.low * p, a.high * p, w);
    PowPositive(w);
    Carried(Dint(0, Shl(a.low, f - w, w)), high, 0, w);
    MulAssoc(Value(a, w), p, m);
  }

  lemma PowPositive(w: nat)
    ensures Word(0, w)
  {
  }

  /** A number of a high part x and a low word, divided by 2^f. */
  lemma DownParts(x: int, low: nat, f: nat, w: nat)
    requires f <= w && Word(low, w)
    ensures (x * Pow2(w) + low) / Pow2(f) == x / Pow2(f) * Pow2(w) + (x % Pow2(f) * Pow2(w - f) + Shr(low, f))
  {
    hide Pow2;
    var p, m, n := Pow2(f), Pow2(w), Pow2(w - f);
    Pow2Add(w - f, f);
    assert w - f + f == w;
    DivMod(x, p);
    DivMod(low, p);
    var hi, h, l := x / p, x % p, low / p;
    assert x * m == hi * m * p + h * n * p by {
      Distribute(hi * p, h, m);
      Swap(hi, p, m);
      MulAssoc(h, n, p);
    }
    assert (hi * m + (h * n + l)) * p == hi * m * p + h * n * p + l * p by {
      Distribute(hi * m, h * n + l, p);
      Distribute(h * n, l, p);
    }
    ModUnique(x * m + low, p, hi * m + (h * n + l), low % p);
  }

  /** The low word of a right shift by less than a word. */
  lemma LowOfShift(a: Dint, f: nat, w: nat)
    requires Pair(a, w) && 0 < f < w
    ensures Bitwise(Or, Shr(a.low, f), Shl(a.high, w - f, w), w) == a.high % Pow2(f) * Pow2(w - f) + Shr(a.low, f)
    ensures Word(a.high % Pow2(f) * Pow2(w - f) + Shr(a.low, f), w)
  {
    hide Pow2, Shl, Bitwise;
    ShlParts(a.high, w - f, w);
    assert w - (w - f) == f;
    DivMod(a.low, Pow2(f));
    HighPart(Shr(a.low, f), a.low % Pow2(f), f, w - f);
    OrDisjoint(Mod(a.high, Pow2(f)), Shr(a.low, f), w - f, w);
    OrCommutes(Shr(a.low, f), Shl(a.high, w - f, w), w);
  }

  /** l_lsr. */
  method LLsr(a: Dint, f: nat, w: nat) returns (r: Dint)
    requires w > 0 && Pair(a, w) && f < 2 * w
    ensures Pair(r, w) && Value(r, w) == Value(a, w) / Pow2(f)
  {
    hide Pow2, Shl, Bitwise;
    if f == 0 {
      r := a;
      Pow2Zero();
    } else if f < w {
      var carries := Shl(a.high, w - f, w);
      r := Dint(Bitwise(Or, Shr(a.low, f), carries, w), Shr(a.high, f));
      LowOfShift(a, f, w);
      DownParts(a.high, a.low, f, w);
      ShrWord(a.high, f, w);
    } else {
      var carries := Shr(a.high, f - w);
      r := Dint(carries, 0);
      DownFar(a.high, a.low, f, w);
      ShrWord(a.high, f - w, w);
    }
  }

  lemma ShrWord(x: nat, f: nat, w: nat)
    requires Word(x, w)
    ensures Word(Shr(x, f), w)
  {
    hide Pow2;
    DivMod(x, Pow2(f));
    assert Shr(x, f) * Pow2(f) >= Shr(x, f) by {
      MulMonotone(1, Pow2(f), Shr(x, f));
    }
  }

  /** Shifting by a word or more drops the low word. */
  lemma DownFar(x: int, low: nat, f: nat, w: nat)
    requires w <= f && Word(low, w)
    ensures (x * Pow2(w) + low) / Pow2(f) == x / Pow2(f - w)
  {
    hide Pow2;
    var p, m := Pow2(f - w), Pow2(w);
    Pow2Add(f - w, w);
    assert f - w + w == f;
    DivMod(x, p);
    var hi, h := x / p, x % p;
    ConcatWord(h, low, f - w, w);
    assert x * m == hi * (p * m) + h * m by {
      Distribute(hi * p, h, m);
      MulAssoc(hi, p, m);
    }
    ModUnique(x * m + low, Pow2(f), hi, h * m + low);
  }

  /** l_asr: the signed number divided by a power of two, rounding down. */
  method LAsr(a: Dint, f: nat, w: nat) returns (r: Dint)
    requires w > 0 && Pair(a, w) && f < 2 * w
    ensures Pair(r, w) && Signed(Value(r, w), 2 * w) == Signed(Value(a, w), 2 * w) / Pow2(f)
  {
    hide Pow2, Shl, Shr, Bitwise, Asr, Signed, Value;
    SignedValue(a, w);
    var s := Signed(a.high, w);
    if f == 0 {
      r := a;
      Pow2Zero();
    } else if f < w {
      var carries := Shl(a.high, w - f, w);
      r := Dint(Bitwise(Or, Shr(a.low, f), carries, w), Asr(a.high, f, w));
      LowOfShift(a, f, w);
      DownParts(s, a.low, f, w);
      SameLowBits(a.high, f, w);
      AsrSigned(a.high, f, w);
      SignedValue(r, w);
    } else {
      var carries := Asr(a.high, f - w, w);
      r := Dint(carries, Asr(carries, w - 1, w));
      DownFar(s, a.low, f, w);
      AsrSigned(a.high, f - w, w);
      SignExtends(carries, w);
    }
  }

  lemma SameLowBits(x: nat, f: nat, w: nat)
    requires w > 0 && f <= w
    ensures Signed(x, w) % Pow2(f) == x % Pow2(f)
  {
    hide Pow2, Wrap;
    Pow2Add(w - f, f);
    assert w - f + f == w;
    var k: int := Pow2(w - f);
    WrapShift(x, -k, f);
    assert -k * Pow2(f) == -(k * Pow2(f)) by {
      NegateProduct(k, Pow2(f));
    }
    WrapIsMod(x, f);
    WrapIsMod(Signed(x, w), f);
  }

  lemma NegateProduct(a: int, b: int)
    ensures -a * b == -(a * b)
  {
  }

  lemma WrapIsMod(x: int, f: nat)
    ensures Wrap(x, f) == x % Pow2(f)
  {
  }

  lemma AsrSigned(x: nat, f: nat, w: nat)
    requires w > 0 && Word(x, w)
    ensures Signed(Asr(x, f, w), w) == Signed(x, w) / Pow2(f)
  {
    hide Pow2, Wrap;
    Pow2Half(w);
    var s := Signed(x, w);
    DivRange(s, Pow2(f));
    SignedWrap(s / Pow2(f), w);
  }

  lemma DivRange(s: int, d: nat)
    requires d > 0
    ensures s >= 0 ==> 0 <= s / d <= s
    ensures s < 0 ==> s <= s / d < 0
  {
    DivMod(s, d);
    QuotientRange(s, d, s / d, s % d);
  }

  lemma QuotientRange(s: int, d: nat, q: int, r: nat)
    requires d > 0 && s == q * d + r && r < d
    ensures s >= 0 ==> 0 <= q <= s
    ensures s < 0 ==> s <= q < 0
  {
    var t := q * d;
    assert s == t + r;
    if q >= 0 {
      TimesPositive(q, d);
    } else {
      TimesPositive(q + 1, d);
      Distribute(q, 1, d);
      assert t + d <= q + 1;
    }
  }

  lemma TimesPositive(q: int, d: nat)
    requires d > 0
    ensures q >= 0 ==> q * d >= q
    ensures q <= 0 ==> q * d <= q
  {
    assert q * d == q + q * (d - 1);
    if q >= 0 {
      assert q * (d - 1) >= 0;
    } else {
      assert q * (d - 1) <= 0;
    }
  }
}
