/** The variable-length numbers of exception tables (section 7.6 of DWARF 4) as the personality routine reads them. */
module Leb128 {
  import opened Words

  /** Seven bits of each byte, least significant first. */
  function Value(b: seq<nat>): nat {
    if b == [] then 0 else Value(b[..|b| - 1]) + b[|b| - 1] % 128 * Pow2(7 * (|b| - 1))
  }

  predicate SignBit(byte: nat) {
    byte / 64 % 2 == 1
  }

  function SignedValue(b: seq<nat>): int
    requires b != []
  {
    Value(b) - if SignBit(b[|b| - 1]) then Pow2(7 * |b|) else 0
  }

  /** b is the bytes of one number: all but the last have the top bit set. */
  predicate Number(b: seq<nat>) {
    b != [] && (forall i | 0 <= i < |b| :: b[i] < 256) && forall i | 0 <= i < |b| :: b[i] >= 128 <==> i < |b| - 1
  }

  lemma {:induction false} ValueBound(b: seq<nat>)
    ensures Word(Value(b), 7 * |b|)
  {
    if b != [] {
      var n := |b| - 1;
      ValueBound(b[..n]);
      Pow2Seven();
      ConcatWord(b[n] % 128, Value(b[..n]), 7, 7 * n);
    }
  }

  lemma Pow2Seven()
    ensures Pow2(7) == 128
  {
    assert Pow2(0) == 1 && Pow2(1) == 2 && Pow2(2) == 4 && Pow2(3) == 8;
    assert Pow2(4) == 16 && Pow2(5) == 32 && Pow2(6) == 64;
  }

  // ----- the readers

  /** One more byte: or-ing its bits in at the shift adds them, as far as they fit. */
  lemma OrByte(b: seq<nat>, byte: nat, w: nat)
    requires 7 * |b| < w
    ensures Bitwise(Or, Wrap(Value(b), w), Shl(byte % 128, 7 * |b|, w), w) == Wrap(Value(b + [byte]), w)
  {
    hide Pow2, Bitwise, Wrap;
    var k := 7 * |b|;
    ValueBound(b);
    Pow2Smaller(Value(b), k, w);
    WrapSmall(Value(b), w);
    assert (b + [byte])[..|b|] == b;
    Fields(byte % 128, Value(b), k, w);
    OrCommutes(Value(b), Shl(byte % 128, k, w), w);
  }

  lemma Pow2Smaller(x: nat, k: nat, w: nat)
    requires Word(x, k) && k <= w
    ensures Word(x, w)
  {
    Pow2Add(w - k, k);
    MulMonotone(1, Pow2(w - k), Pow2(k));
  }

  /** A field shifted to bit k of a word that has nothing there. */
  lemma Fields(x: nat, low: nat, k: nat, w: nat)
    requires k <= w && Word(low, k)
    ensures Bitwise(Or, Shl(x, k, w), low, w) == Wrap(low + x * Pow2(k), w)
  {
    hide Pow2, Bitwise;
    var m := Pow2(w - k);
    var q, r := x / m, Mod(x, m);
    DivMod(x, m);
    Pow2Add(w - k, k);
    assert w - k + k == w;
    assert x * Pow2(k) == q * Pow2(w) + r * Pow2(k) by {
      Distribute(q * m, r, Pow2(k));
      MulAssoc(q, m, Pow2(k));
    }
    OrDisjoint(r, low, k, w);
    ConcatWord(r, 0, w - k, k);
    WrapShift(r * Pow2(k), q, w);
    WrapSmall(r * Pow2(k), w);
    WrapShift(low + r * Pow2(k), q, w);
    WrapSmall(low + r * Pow2(k), w);
  }

  /** readULEB128 of the number that begins at position at and has n bytes. */
  method ReadULEB128(data: seq<nat>, at: nat, ghost n: nat, w: nat) returns (result: nat, next: nat)
    requires at + n <= |data| && Number(data[at..at + n]) && 7 * (n - 1) < w
    ensures next == at + n && result == Wrap(Value(data[at..at + n]), w)
  {
    var shift;
    result, shift, next := ReadBits(data, at, n, w);
  }

  /** The loop of both readers. */
  method ReadBits(data: seq<nat>, at: nat, ghost n: nat, w: nat) returns (result: nat, shift: nat, next: nat)
    requires at + n <= |data| && Number(data[at..at + n]) && 7 * (n - 1) < w
    ensures next == at + n && shift == 7 * n && result == Wrap(Value(data[at..at + n]), w)
  {
    hide Pow2, Wrap, Bitwise, Shl, Value;
    result, shift := 0, 0;
    next := at;
    NoBits(w);
    assert data[at..at] == [];
    while true
      invariant at <= next < at + n && shift == 7 * (next - at) && result == Wrap(Value(data[at..next]), w)
      decreases at + n - next
    {
      var byte := data[next];
      assert byte == data[at..at + n][next - at];
      OrByte(data[at..next], byte, w);
      assert data[at..next] + [byte] == data[at..next + 1];
      result := Bitwise(Or, result, Shl(byte % 128, shift, w), w);
      next, shift := next + 1, shift + 7;
      if byte < 128 {
        return;
      }
    }
  }

  lemma NoBits(w: nat)
    ensures Wrap(Value([]), w) == 0
  {
    WrapSmall(0, w);
  }

  /** readSLEB128: the last byte's sign bit is copied to the bits above, unless there are none. */
  method ReadSLEB128(data: seq<nat>, at: nat, ghost n: nat, w: nat) returns (result: nat, next: nat)
    requires at + n <= |data| && Number(data[at..at + n]) && 7 * (n - 1) < w
    ensures next == at + n && result == Wrap(SignedValue(data[at..at + n]), w)
  {
    hide Pow2, Wrap, Bitwise, Shl, Value;
    var shift;
    result, shift, next := ReadBits(data, at, n, w);
    ghost var b := data[at..at + n];
    assert data[next - 1] == b[n - 1];
    SignExtension(b, w);
    if SignBit(data[next - 1]) && shift < w {
      result := Bitwise(Or, result, Shl(Pow2(w) - 1, shift, w), w);
    }
  }

  lemma SignExtension(b: seq<nat>, w: nat)
    requires b != []
    ensures 7 * |b| < w ==>
      Bitwise(Or, Wrap(Value(b), w), Shl(Pow2(w) - 1, 7 * |b|, w), w) == Wrap(Value(b) - Pow2(7 * |b|), w)
    ensures 7 * |b| >= w ==> Wrap(Value(b) - Pow2(7 * |b|), w) == Wrap(Value(b), w)
  {
    hide Pow2, Wrap, Bitwise, Value;
    var k := 7 * |b|;
    if k < w {
      ValueBound(b);
      Pow2Smaller(Value(b), k, w);
      WrapSmall(Value(b), w);
      Fields(Pow2(w) - 1, Value(b), k, w);
      OrCommutes(Value(b), Shl(Pow2(w) - 1, k, w), w);
      var p: int := Pow2(k);
      assert (Pow2(w) - 1) * Pow2(k) == p * Pow2(w) - p by {
        Distribute(Pow2(w), -1, Pow2(k));
      }
      WrapShift(Value(b) - p, p, w);
    } else {
      Pow2Add(k - w, w);
      assert k - w + w == k;
      var m: int := Pow2(k - w);
      WrapShift(Value(b) - Pow2(k), m, w);
    }
  }

  // ----- the encodings

  function Encode(n: nat): seq<nat> {
    if n < 128 then [n] else [n % 128 + 128] + Encode(n / 128)
  }

  lemma ValueSnoc(b: seq<nat>, x: nat)
    ensures Value(b + [x]) == Value(b) + x % 128 * Pow2(7 * |b|)
  {
    hide Pow2;
    assert (b + [x])[..|b|] == b;
  }

  lemma ValueEmpty()
    ensures Value([]) == 0
  {
  }

  lemma {:induction false} ValueFirst(x: nat, b: seq<nat>)
    ensures Value([x] + b) == x % 128 + 128 * Value(b)
  {
    hide Value, Pow2;
    ValueEmpty();
    if b == [] {
      ValueSnoc([], x);
      Pow2Zero();
      assert [x] + b == [] + [x];
    } else {
      var n := |b| - 1;
      var c, y := b[..n], b[n];
      ValueFirst(x, c);
      assert b == c + [y] && [x] + b == ([x] + c) + [y];
      ValueSnoc(c, y);
      ValueSnoc([x] + c, y);
      SevenMore(n);
      MulAssoc(y % 128, 128, Pow2(7 * n));
      assert y % 128 * (128 * Pow2(7 * n)) == 128 * (y % 128 * Pow2(7 * n));
    }
  }

  lemma SevenMore(n: nat)
    ensures Pow2(7 * (n + 1)) == 128 * Pow2(7 * n)
  {
    hide Pow2;
    Pow2Seven();
    Pow2Add(7, 7 * n);
    assert 7 + 7 * n == 7 * (n + 1);
  }

  lemma SignedFirst(x: nat, b: seq<nat>)
    requires b != []
    ensures SignedValue([x] + b) == x % 128 + 128 * SignedValue(b)
  {
    hide Value, Pow2;
    ValueFirst(x, b);
    SevenMore(|b|);
    assert ([x] + b)[|b|] == b[|b| - 1];
  }

  lemma SignedOne(x: nat)
    requires x < 128
    ensures SignedValue([x]) == if x < 64 then x else x - 128
  {
    hide Value, Pow2;
    ValueEmpty();
    ValueFirst(x, []);
    assert [x] + [] == [x];
    Pow2Seven();
    assert 7 * |[x]| == 7;
  }

  lemma NumberFirst(x: nat, b: seq<nat>)
    requires Number(b) && 128 <= x < 256
    ensures Number([x] + b)
  {
    var c := [x] + b;
    assert forall i | 0 < i < |c| :: c[i] == b[i - 1];
  }

  /** Reading what was encoded gives the number back. */
  lemma {:induction false} EncodeValue(n: nat)
    ensures Number(Encode(n)) && Value(Encode(n)) == n
  {
    hide Value;
    if n < 128 {
      ValueEmpty();
      ValueFirst(n, []);
      assert [n] + [] == [n];
    } else {
      EncodeValue(n / 128);
      ValueFirst(n % 128 + 128, Encode(n / 128));
      NumberFirst(n % 128 + 128, Encode(n / 128));
    }
  }

  /** The last byte is the first whose sign bit agrees with all that is left. */
  function EncodeSigned(n: int): (b: seq<nat>)
    ensures b != []
    decreases if n < 0 then -n else n
  {
    if -64 <= n < 64 then [n % 128] else [n % 128 + 128] + EncodeSigned(n / 128)
  }

  lemma {:induction false} EncodeSignedValue(n: int)
    ensures Number(EncodeSigned(n)) && SignedValue(EncodeSigned(n)) == n
    decreases if n < 0 then -n else n
  {
    hide SignedValue, Number;
    if -64 <= n < 64 {
      SignedOne(n % 128);
      OneByte(n % 128);
    } else {
      EncodeSignedValue(n / 128);
      SignedFirst(n % 128 + 128, EncodeSigned(n / 128));
      NumberFirst(n % 128 + 128, EncodeSigned(n / 128));
    }
  }

  lemma OneByte(x: nat)
    requires x < 128
    ensures Number([x])
  {
  }
}
