/** Unsigned words of any width as the C operators treat them, and the signed numbers they stand for. */
module Words {
  import opened Division

  function Pow2(n: nat): (p: nat)
    ensures p > 0
  {
    if n == 0 then 1 else 2 * Pow2(n - 1)
  }

  lemma {:induction false} Pow2Add(a: nat, b: nat)
    ensures Pow2(a + b) == Pow2(a) * Pow2(b)
  {
    if a > 0 {
      Pow2Add(a - 1, b);
    }
  }

  /** x is a word of w bits. */
  predicate Word(x: nat, w: nat) {
    x < Pow2(w)
  }

  /** Reduction to w bits, as every unsigned operator does. */
  function Wrap(x: int, w: nat): (r: nat)
    ensures Word(r, w)
  {
    Mod(x, Pow2(w))
  }

  function Mod(n: int, d: nat): (r: nat)
    requires d > 0
    ensures r < d
  {
    n % d
  }

  function Quotient(n: nat, d: nat): nat
    requires d > 0
  {
    n / d
  }

  /** High and low parts of a bits and b bits make a word of a + b bits. */
  lemma ConcatWord(high: nat, low: nat, a: nat, b: nat)
    requires Word(high, a) && Word(low, b)
    ensures Word(high * Pow2(b) + low, a + b)
  {
    hide Pow2;
    Pow2Add(a, b);
    Distribute(high, 1, Pow2(b));
    MulMonotone(high + 1, Pow2(a), Pow2(b));
  }

  lemma MulMonotone(x: int, y: int, m: nat)
    requires x <= y
    ensures x * m <= y * m
  {
  }

  /** The number a word stands for in two's complement. */
  function Signed(x: nat, w: nat): int
    requires w > 0
  {
    if x < Pow2(w - 1) then x else x - Pow2(w)
  }

  predicate InRange(x: int, w: nat)
    requires w > 0
  {
    0 <= x + Pow2(w - 1) && x < Pow2(w - 1)
  }

  /** Conversions to signed and back wrap. */
  lemma SignedWrap(x: int, w: nat)
    requires w > 0 && InRange(x, w)
    ensures Signed(Wrap(x, w), w) == x
    ensures Wrap(x, w) == if x < 0 then x + Pow2(w) else x
  {
    hide Wrap, Pow2;
    Pow2Half(w);
    if x < 0 {
      WrapShift(x, 1, w);
      WrapSmall(x + Pow2(w), w);
    } else {
      WrapSmall(x, w);
    }
  }

  lemma Pow2Half(w: nat)
    requires w > 0
    ensures Pow2(w) == Pow2(w - 1) + Pow2(w - 1)
  {
  }

  lemma WrapSmall(x: nat, w: nat)
    requires Word(x, w)
    ensures Wrap(x, w) == x
  {
    DivisionUnique(Pow2(w), 0, x);
  }

  lemma WrapShift(x: int, k: int, w: nat)
    ensures Wrap(x + k * Pow2(w), w) == Wrap(x, w)
  {
    hide Pow2;
    var m := Pow2(w);
    var q, r := x / m, x % m;
    DivMod(x, m);
    assert (q + k) * m == q * m + k * m by {
      Distribute(q, k, m);
    }
    ModUnique(x + k * m, m, q + k, r);
  }

  /** Wrapping early or late makes no difference to a sum or a product. */
  lemma WrapSum(x: int, y: int, w: nat)
    ensures Wrap(Wrap(x, w) + y, w) == Wrap(x + y, w)
  {
    hide Wrap, Pow2;
    var k := WrapGap(x, w);
    assert x + y == Wrap(x, w) + y + k * Pow2(w);
    WrapShift(Wrap(x, w) + y, k, w);
  }

  lemma WrapProduct(x: int, y: int, w: nat)
    ensures Wrap(Wrap(x, w) * y, w) == Wrap(x * y, w)
  {
    hide Wrap, Pow2;
    var k := WrapGap(x, w);
    assert x * y == Wrap(x, w) * y + k * y * Pow2(w) by {
      Distribute(Wrap(x, w), k * Pow2(w), y);
      Swap(k, Pow2(w), y);
    }
    WrapShift(Wrap(x, w) * y, k * y, w);
  }

  lemma MulAssoc(a: int, b: int, c: int)
    ensures a * b * c == a * (b * c)
  {
  }

  lemma WrapDifference(x: int, y: int, w: nat)
    ensures Wrap(x - Wrap(y, w), w) == Wrap(x - y, w)
  {
    hide Wrap, Pow2;
    var k := WrapGap(y, w);
    assert x - Wrap(y, w) == x - y + k * Pow2(w);
    WrapShift(x - y, k, w);
  }

  lemma Swap(a: int, b: int, c: int)
    ensures a * b * c == a * c * b
  {
  }

  lemma WrapGap(x: int, w: nat) returns (k: int)
    ensures x == Wrap(x, w) + k * Pow2(w)
  {
    hide Pow2;
    k := x / Pow2(w);
    DivMod(x, Pow2(w));
  }

  lemma Distribute(a: int, b: int, m: int)
    ensures (a + b) * m == a * m + b * m
  {
  }

  lemma DivMod(n: int, d: nat)
    requires d > 0
    ensures n == n / d * d + n % d && 0 <= n % d < d
  {
  }

  // ----- bitwise operators

  datatype Op = And | Or | Xor

  function Bit(op: Op, a: nat, b: nat): nat {
    match op
    case And => if a % 2 == 1 && b % 2 == 1 then 1 else 0
    case Or => if a % 2 == 1 || b % 2 == 1 then 1 else 0
    case Xor => if a % 2 != b % 2 then 1 else 0
  }

  /** The low w bits of a op b. */
  function Bitwise(op: Op, a: nat, b: nat, w: nat): (r: nat)
    ensures Word(r, w)
  {
    if w == 0 then 0 else 2 * Bitwise(op, a / 2, b / 2, w - 1) + Bit(op, a, b)
  }

  /** Bit k of a word. */
  predicate BitAt(x: nat, k: nat) {
    x / Pow2(k) % 2 == 1
  }

  /** Bit k of the result is the operation on the bits k. */
  lemma {:induction false} BitwiseBits(op: Op, a: nat, b: nat, w: nat, k: nat)
    requires k < w
    ensures
      var r := BitAt(Bitwise(op, a, b, w), k);
      match op
      case And => r <==> BitAt(a, k) && BitAt(b, k)
      case Or => r <==> BitAt(a, k) || BitAt(b, k)
      case Xor => r <==> BitAt(a, k) != BitAt(b, k)
  {
    var r := Bitwise(op, a, b, w);
    if k == 0 {
      assert Pow2(0) == 1;
    } else {
      BitwiseBits(op, a / 2, b / 2, w - 1, k - 1);
      assert r / 2 == Bitwise(op, a / 2, b / 2, w - 1);
      BitBelow(r, k);
      BitBelow(a, k);
      BitBelow(b, k);
    }
  }

  lemma BitBelow(x: nat, k: nat)
    requires k > 0
    ensures BitAt(x, k) <==> BitAt(x / 2, k - 1)
  {
    hide Pow2;
    Pow2Half(k);
    HalfQuotient(x, Pow2(k - 1));
  }

  lemma HalfQuotient(x: nat, m: nat)
    requires m > 0
    ensures x / (2 * m) == x / 2 / m
  {
    var h := x / 2;
    var q, r := h / m, h % m;
    assert x == 2 * m * q + (2 * r + x % 2);
    DivisionUnique(2 * m, q, 2 * r + x % 2);
  }

  /** Operating on the halves of a word is operating on the word. */
  lemma {:induction false} BitwiseConcat(op: Op, ah: nat, al: nat, bh: nat, bl: nat, h: nat, l: nat)
    requires Word(al, l) && Word(bl, l)
    decreases l, 1
    ensures Bitwise(op, ah * Pow2(l) + al, bh * Pow2(l) + bl, h + l) ==
            Bitwise(op, ah, bh, h) * Pow2(l) + Bitwise(op, al, bl, l)
  {
    hide Pow2, Bit;
    if l == 0 {
      Pow2Zero();
      assert Bitwise(op, al, bl, 0) == 0;
    } else {
      BitwiseConcatStep(op, ah, al, bh, bl, h, l);
    }
  }

  lemma Pow2Zero()
    ensures Pow2(0) == 1
  {
  }

  lemma BitwiseConcatStep(op: Op, ah: nat, al: nat, bh: nat, bl: nat, h: nat, l: nat)
    requires Word(al, l) && Word(bl, l) && l > 0
    decreases l, 0
    ensures Bitwise(op, ah * Pow2(l) + al, bh * Pow2(l) + bl, h + l) ==
            Bitwise(op, ah, bh, h) * Pow2(l) + Bitwise(op, al, bl, l)
  {
    hide Pow2, Bit, Bitwise;
    Pow2Half(l);
    var p := Pow2(l - 1);
    Distribute2(ah, p);
    Distribute2(bh, p);
    Distribute2(Bitwise(op, ah, bh, h), p);
    var x, y := ah * Pow2(l) + al, bh * Pow2(l) + bl;
    assert x == 2 * (ah * p) + al && y == 2 * (bh * p) + bl;
    assert x / 2 == ah * p + al / 2 && y / 2 == bh * p + bl / 2;
    Unfold(op, x, y, h + l);
    Unfold(op, al, bl, l);
    SameBit(op, x, al, y, bl);
    assert h + l - 1 == h + (l - 1);
    BitwiseConcat(op, ah, al / 2, bh, bl / 2, h, l - 1);
  }

  lemma Unfold(op: Op, a: nat, b: nat, w: nat)
    requires w > 0
    ensures Bitwise(op, a, b, w) == 2 * Bitwise(op, a / 2, b / 2, w - 1) + Bit(op, a, b)
  {
  }

  lemma Distribute2(a: int, p: int)
    ensures a * (p + p) == 2 * (a * p)
  {
  }

  lemma SameBit(op: Op, a: nat, a': nat, b: nat, b': nat)
    requires a % 2 == a' % 2 && b % 2 == b' % 2
    ensures Bit(op, a, b) == Bit(op, a', b')
  {
  }

  lemma {:induction false} OrZero(a: nat, w: nat)
    requires Word(a, w)
    ensures Bitwise(Or, a, 0, w) == a && Bitwise(Or, 0, a, w) == a
  {
    if w > 0 {
      OrZero(a / 2, w - 1);
    }
  }

  /** Or of numbers without a common bit position is their sum. */
  lemma OrDisjoint(high: nat, low: nat, k: nat, w: nat)
    requires k <= w && Word(low, k) && Word(high, w - k)
    ensures Bitwise(Or, high * Pow2(k), low, w) == high * Pow2(k) + low
    ensures Word(high * Pow2(k) + low, w)
  {
    hide Pow2, Bitwise;
    BitwiseConcat(Or, high, 0, 0, low, w - k, k);
    OrZero(high, w - k);
    OrZero(low, k);
    assert w - k + k == w;
    assert 0 * Pow2(k) + low == low && high * Pow2(k) + 0 == high * Pow2(k);
    ConcatWord(high, low, w - k, k);
  }

  lemma {:induction false} OrCommutes(a: nat, b: nat, w: nat)
    ensures Bitwise(Or, a, b, w) == Bitwise(Or, b, a, w)
  {
    if w > 0 {
      OrCommutes(a / 2, b / 2, w - 1);
    }
  }

  /** The exclusive or of two words is negative exactly when their signs differ. */
  lemma {:induction false} XorSign(a: nat, b: nat, w: nat)
    requires w > 0 && Word(a, w) && Word(b, w)
    ensures Bitwise(Xor, a, b, w) >= Pow2(w - 1) <==> (a >= Pow2(w - 1)) != (b >= Pow2(w - 1))
  {
    if w > 1 {
      XorSign(a / 2, b / 2, w - 1);
    } else {
      assert Pow2(1) == 2 * Pow2(0);
      assert Bitwise(Xor, a / 2, b / 2, 0) == 0;
    }
  }

  // ----- shifts

  function Shl(x: nat, k: nat, w: nat): (r: nat)
    ensures Word(r, w)
  {
    Wrap(x * Pow2(k), w)
  }

  function Shr(x: nat, k: nat): nat {
    Quotient(x, Pow2(k))
  }

  /** Right shift of the signed number x stands for, rounding down. */
  function Asr(x: nat, k: nat, w: nat): (r: nat)
    requires w > 0
    ensures Word(r, w)
  {
    Wrap(Signed(x, w) / Pow2(k), w)
  }
}
