/**
 Bytes and big-endian 32-bit words as the GETU32 / PUTU32 macros of aes.h read and write
 them, with the bit-level facts the block cipher mode needs.
 */
module Bytes {

  type Byte = bv8

  type Block = b: seq<Byte> | |b| == 16 witness seq(16, _ => 0)

  function ZeroBlock(): Block { seq(16, _ => 0) }

  // ----- bits, most significant first: bit j of a byte is the one that BIT(7 - j) selects

  function Mask(j: nat): Byte
    requires j < 8
  {
    match j
    case 0 => 0x80
    case 1 => 0x40
    case 2 => 0x20
    case 3 => 0x10
    case 4 => 0x08
    case 5 => 0x04
    case 6 => 0x02
    case _ => 0x01
  }

  predicate Bit(b: Byte, j: nat)
    requires j < 8
  {
    b & Mask(j) != 0
  }

  function Xor(a: Byte, b: Byte): Byte { a ^ b }

  predicate LowBit(b: Byte) { b & 1 != 0 }

  /** The byte after a right shift that brings in the given bit at the top. */
  function ShiftIn(b: Byte, carry: bool): Byte {
    (b >> 1) | (if carry then 0x80 else 0)
  }

  lemma MaskOfXor(a: Byte, b: Byte, m: Byte)
    requires m in {0x80, 0x40, 0x20, 0x10, 0x08, 0x04, 0x02, 0x01}
    ensures (a ^ b) & m != 0 <==> (a & m != 0) != (b & m != 0)
  {
  }

  lemma BitOfXor(a: Byte, b: Byte, j: nat)
    requires j < 8
    ensures Bit(Xor(a, b), j) <==> Bit(a, j) != Bit(b, j)
  {
    MaskOfXor(a, b, Mask(j));
  }

  lemma BitOfShift(a: Byte, carry: bool, j: nat)
    requires j < 8
    ensures Bit(ShiftIn(a, carry), j) <==> if j == 0 then carry else Bit(a, j - 1)
  {
  }

  lemma LowBitIsLast(b: Byte)
    ensures LowBit(b) <==> Bit(b, 7)
  {
  }

  lemma ByteExtensional(a: Byte, b: Byte)
    requires forall j: nat | j < 8 :: Bit(a, j) == Bit(b, j)
    ensures a == b
  {
    assert Bit(a, 0) == Bit(b, 0) && Bit(a, 1) == Bit(b, 1) && Bit(a, 2) == Bit(b, 2) && Bit(a, 3) == Bit(b, 3);
    assert Bit(a, 4) == Bit(b, 4) && Bit(a, 5) == Bit(b, 5) && Bit(a, 6) == Bit(b, 6) && Bit(a, 7) == Bit(b, 7);
  }

  function ByteOfBits(c0: bool, c1: bool, c2: bool, c3: bool, c4: bool, c5: bool, c6: bool, c7: bool): Byte {
    (if c0 then 0x80 else 0) | (if c1 then 0x40 else 0) | (if c2 then 0x20 else 0) | (if c3 then 0x10 else 0)
    | (if c4 then 0x08 else 0) | (if c5 then 0x04 else 0) | (if c6 then 0x02 else 0) | (if c7 then 0x01 else 0)
  }

  lemma BitOfByteOfBits(c: seq<bool>, j: nat)
    requires |c| == 8 && j < 8
    ensures Bit(ByteOfBits(c[0], c[1], c[2], c[3], c[4], c[5], c[6], c[7]), j) == c[j]
  {
  }

  // ----- bytes and numbers

  function NatOfByte(b: Byte): nat { b as int }

  /** The cast (u8) n. */
  function ByteOfNat(n: nat): Byte {
    if n == 0 then 0 else ByteOfNat(n - 1) + 1
  }

  lemma NatOfByteBound(b: Byte)
    ensures NatOfByte(b) < 256
  {
  }

  lemma NatOfByteInjective(b: Byte, c: Byte)
    requires NatOfByte(b) == NatOfByte(c)
    ensures b == c
  {
  }

  lemma NatOfSuccessor(b: Byte)
    ensures NatOfByte(b + 1) == (if b == 0xFF then 0 else NatOfByte(b) + 1)
    ensures b == 0xFF <==> NatOfByte(b) == 255
  {
  }

  lemma {:induction false} NatOfByteOfNat(n: nat)
    ensures NatOfByte(ByteOfNat(n)) == n % 256
  {
    hide NatOfByte;
    if n == 0 {
      NatOfSuccessor(0xFF);
    } else {
      NatOfByteOfNat(n - 1);
      NatOfSuccessor(ByteOfNat(n - 1));
    }
  }

  // ----- 32-bit words

  function GetU32(b0: Byte, b1: Byte, b2: Byte, b3: Byte): bv32 {
    ((b0 as bv32) << 24) ^ ((b1 as bv32) << 16) ^ ((b2 as bv32) << 8) ^ (b3 as bv32)
  }

  /** The byte that PUTU32 stores at position k. */
  function ByteAt(v: bv32, k: nat): Byte
    requires k < 4
  {
    match k
    case 0 => ((v >> 24) & 0xFF) as bv8
    case 1 => ((v >> 16) & 0xFF) as bv8
    case 2 => ((v >> 8) & 0xFF) as bv8
    case _ => (v & 0xFF) as bv8
  }

  function XorU32(v: bv32, w: bv32): bv32 { v ^ w }

  /** val >>= 1, then val |= 0x80000000 when a bit is carried in. */
  function ShiftU32(v: bv32, carry: bool): bv32 {
    (v >> 1) | (if carry then 0x8000_0000 else 0)
  }

  lemma BytesOfShift(b0: Byte, b1: Byte, b2: Byte, b3: Byte, carry: bool)
    ensures
      var v := ShiftU32(GetU32(b0, b1, b2, b3), carry);
      && ByteAt(v, 0) == ShiftIn(b0, carry)
      && ByteAt(v, 1) == ShiftIn(b1, LowBit(b0))
      && ByteAt(v, 2) == ShiftIn(b2, LowBit(b1))
      && ByteAt(v, 3) == ShiftIn(b3, LowBit(b2))
  {
  }

  lemma ByteOfXor0(v: bv32, w: bv32)
    ensures ByteAt(XorU32(v, w), 0) == Xor(ByteAt(v, 0), ByteAt(w, 0))
  {
  }

  lemma ByteOfXor1(v: bv32, w: bv32)
    ensures ByteAt(XorU32(v, w), 1) == Xor(ByteAt(v, 1), ByteAt(w, 1))
  {
  }

  lemma ByteOfXor2(v: bv32, w: bv32)
    ensures ByteAt(XorU32(v, w), 2) == Xor(ByteAt(v, 2), ByteAt(w, 2))
  {
  }

  lemma ByteOfXor3(v: bv32, w: bv32)
    ensures ByteAt(XorU32(v, w), 3) == Xor(ByteAt(v, 3), ByteAt(w, 3))
  {
  }

  lemma BytesOfGet(b0: Byte, b1: Byte, b2: Byte, b3: Byte)
    ensures ByteAt(GetU32(b0, b1, b2, b3), 0) == b0 && ByteAt(GetU32(b0, b1, b2, b3), 1) == b1
    ensures ByteAt(GetU32(b0, b1, b2, b3), 2) == b2 && ByteAt(GetU32(b0, b1, b2, b3), 3) == b3
  {
  }

  /** Adding one to a word is adding one to its last byte and rippling the carry. */
  lemma BytesOfSuccessor(b0: Byte, b1: Byte, b2: Byte, b3: Byte)
    ensures
      var v := GetU32(b0, b1, b2, b3) + 1;
      && ByteAt(v, 3) == b3 + 1
      && ByteAt(v, 2) == (if b3 == 0xFF then b2 + 1 else b2)
      && ByteAt(v, 1) == (if b3 == 0xFF && b2 == 0xFF then b1 + 1 else b1)
      && ByteAt(v, 0) == (if b3 == 0xFF && b2 == 0xFF && b1 == 0xFF then b0 + 1 else b0)
  {
  }

  // ----- numbers as byte strings, most significant byte first

  function Be32(n: nat): (s: seq<Byte>)
    ensures |s| == 4
  {
    [ByteOfNat(n / 0x100_0000), ByteOfNat(n / 0x1_0000), ByteOfNat(n / 0x100), ByteOfNat(n)]
  }

  function NatOf32(s: seq<Byte>): nat
    requires |s| == 4
  {
    ((NatOfByte(s[0]) * 256 + NatOfByte(s[1])) * 256 + NatOfByte(s[2])) * 256 + NatOfByte(s[3])
  }

  lemma FourDigits(n: nat)
    ensures (((n / 0x100_0000 % 256) * 256 + n / 0x1_0000 % 256) * 256 + n / 0x100 % 256) * 256 + n % 256
         == n % 0x1_0000_0000
  {
    var a := n / 0x100;
    var b := a / 0x100;
    var c := b / 0x100;
    var d := c / 0x100;
    assert b == n / 0x1_0000 && c == n / 0x100_0000;
    assert n == 0x1_0000_0000 * d + (((c % 256) * 256 + b % 256) * 256 + a % 256) * 256 + n % 256;
  }

  lemma NatOfBe32(n: nat)
    ensures NatOf32(Be32(n)) == n % 0x1_0000_0000
  {
    hide ByteOfNat, NatOfByte;
    FourDigits(n);
    NatOfByteOfNat(n);
    NatOfByteOfNat(n / 0x100);
    NatOfByteOfNat(n / 0x1_0000);
    NatOfByteOfNat(n / 0x100_0000);
  }

  lemma SameDigits(a0: nat, a1: nat, a2: nat, a3: nat, b0: nat, b1: nat, b2: nat, b3: nat)
    requires a0 < 256 && a1 < 256 && a2 < 256 && a3 < 256 && b0 < 256 && b1 < 256 && b2 < 256 && b3 < 256
    requires ((a0 * 256 + a1) * 256 + a2) * 256 + a3 == ((b0 * 256 + b1) * 256 + b2) * 256 + b3
    ensures a0 == b0 && a1 == b1 && a2 == b2 && a3 == b3
  {
  }

  lemma Be32Injective(s: seq<Byte>, t: seq<Byte>)
    requires |s| == |t| == 4 && NatOf32(s) == NatOf32(t)
    ensures s == t
  {
    hide NatOfByte;
    assert s[0] == t[0] && s[1] == t[1] && s[2] == t[2] && s[3] == t[3] by {
      NatOfByteBound(s[0]);
      NatOfByteBound(s[1]);
      NatOfByteBound(s[2]);
      NatOfByteBound(s[3]);
      NatOfByteBound(t[0]);
      NatOfByteBound(t[1]);
      NatOfByteBound(t[2]);
      NatOfByteBound(t[3]);
      SameDigits(NatOfByte(s[0]), NatOfByte(s[1]), NatOfByte(s[2]), NatOfByte(s[3]),
                 NatOfByte(t[0]), NatOfByte(t[1]), NatOfByte(t[2]), NatOfByte(t[3]));
      NatOfByteInjective(s[0], t[0]);
      NatOfByteInjective(s[1], t[1]);
      NatOfByteInjective(s[2], t[2]);
      NatOfByteInjective(s[3], t[3]);
    }
  }

  /** The eight bytes that PUTU64 stores. */
  function Be64(n: nat): (s: seq<Byte>)
    ensures |s| == 8
  {
    Be32(n / 0x1_0000_0000) + Be32(n)
  }

  /** 256^k */
  function Pow256(k: nat): (p: nat)
    ensures p > 0
  {
    if k == 0 then 1 else 256 * Pow256(k - 1)
  }

  lemma Powers256()
    ensures Pow256(0) == 1 && Pow256(1) == 0x100 && Pow256(2) == 0x1_0000 && Pow256(3) == 0x100_0000
    ensures Pow256(4) == 0x1_0000_0000 && Pow256(5) == 0x100_0000_0000 && Pow256(6) == 0x1_0000_0000_0000
    ensures Pow256(7) == 0x100_0000_0000_0000
  {
    assert Pow256(1) == 256 * Pow256(0) && Pow256(2) == 256 * Pow256(1) && Pow256(3) == 256 * Pow256(2);
    assert Pow256(4) == 256 * Pow256(3) && Pow256(5) == 256 * Pow256(4) && Pow256(6) == 256 * Pow256(5);
    assert Pow256(7) == 256 * Pow256(6);
  }

  /** A shift to the right by 8 * k bits. */
  function ShiftBytes(n: nat, k: nat): nat {
    Over(n, Pow256(k))
  }

  function Over(n: nat, d: nat): nat
    requires d > 0
  {
    n / d
  }

  lemma DigitByte(n: nat, k: nat)
    ensures NatOfByte(ByteOfNat(ShiftBytes(n, k))) == n / Pow256(k) % 256
  {
    hide ByteOfNat, NatOfByte, Pow256;
    NatOfByteOfNat(ShiftBytes(n, k));
  }

  /** Byte k, counted from the left of eight, holds the digits of n at place 256^(7-k). */
  predicate Spells(s: seq<Byte>, n: nat) {
    |s| == 8 && forall k | 0 <= k < 8 :: NatOfByte(s[k]) == n / Pow256(7 - k) % 256
  }

  lemma EightShifts(n: nat)
    ensures
      var high := n / 0x1_0000_0000;
      && high / 0x100_0000 == ShiftBytes(n, 7) && high / 0x1_0000 == ShiftBytes(n, 6)
      && high / 0x100 == ShiftBytes(n, 5) && high == ShiftBytes(n, 4)
      && n / 0x100_0000 == ShiftBytes(n, 3) && n / 0x1_0000 == ShiftBytes(n, 2)
      && n / 0x100 == ShiftBytes(n, 1) && n == ShiftBytes(n, 0)
  {
    hide Pow256;
    Powers256();
  }

  lemma Be64Bytes(n: nat)
    ensures forall k | 0 <= k < 8 :: Be64(n)[k] == ByteOfNat(ShiftBytes(n, 7 - k))
  {
    hide ByteOfNat, Pow256, ShiftBytes;
    EightShifts(n);
  }

  lemma Be64Spells(n: nat)
    ensures Spells(Be64(n), n)
  {
    hide ByteOfNat, NatOfByte, Pow256, Be64, ShiftBytes;
    Be64Bytes(n);
    forall k | 0 <= k < 8
      ensures NatOfByte(Be64(n)[k]) == n / Pow256(7 - k) % 256
    {
      DigitByte(n, 7 - k);
    }
  }

  lemma SpellingUnique(s: seq<Byte>, t: seq<Byte>, n: nat)
    requires Spells(s, n) && Spells(t, n)
    ensures s == t
  {
    hide NatOfByte, Pow256;
    forall k | 0 <= k < 8
      ensures s[k] == t[k]
    {
      NatOfByteInjective(s[k], t[k]);
    }
  }

  lemma Be64Injective(m: nat, n: nat)
    requires m < 0x1_0000_0000_0000_0000 && n < 0x1_0000_0000_0000_0000
    requires Be64(m) == Be64(n)
    ensures m == n
  {
    hide Be32, NatOf32;
    assert Be64(m)[..4] == Be32(m / 0x1_0000_0000) && Be64(m)[4..] == Be32(m);
    assert Be64(n)[..4] == Be32(n / 0x1_0000_0000) && Be64(n)[4..] == Be32(n);
    NatOfBe32(m);
    NatOfBe32(n);
    NatOfBe32(m / 0x1_0000_0000);
    NatOfBe32(n / 0x1_0000_0000);
  }
}
