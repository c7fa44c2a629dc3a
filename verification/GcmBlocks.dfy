/**
 The block operations of aes-gcm.c, on 16-byte arrays that are updated in place, and what
 they mean for the polynomial whose coefficients are the block's bits (the first bit of the
 block is the coefficient of x^0, as in section 6.3 of NIST SP 800-38D).
 */
module GcmBlocks {
  import opened Bytes
  import opened Gf2Poly

  // ----- blocks as polynomials

  ghost function PolyOf(b: Block): (p: Poly)
    ensures Below(p, 128)
  {
    set k: nat | k < 128 && Bit(b[k / 8], k % 8)
  }

  lemma PolyOfInjective(a: Block, b: Block)
    requires PolyOf(a) == PolyOf(b)
    ensures a == b
  {
    forall q | 0 <= q < 16
      ensures a[q] == b[q]
    {
      forall j: nat | j < 8
        ensures Bit(a[q], j) == Bit(b[q], j)
      {
        var k := 8 * q + j;
        assert k / 8 == q && k % 8 == j;
        assert k in PolyOf(a) <==> Bit(a[q], j);
        assert k in PolyOf(b) <==> Bit(b[q], j);
      }
      ByteExtensional(a[q], b[q]);
    }
  }

  ghost function ByteOf(p: Poly, q: nat): Byte {
    ByteOfBits(8*q in p, 8*q+1 in p, 8*q+2 in p, 8*q+3 in p, 8*q+4 in p, 8*q+5 in p, 8*q+6 in p, 8*q+7 in p)
  }

  lemma BitOfByteOf(p: Poly, q: nat, j: nat)
    requires j < 8
    ensures Bit(ByteOf(p, q), j) <==> 8 * q + j in p
  {
    var c := [8*q in p, 8*q+1 in p, 8*q+2 in p, 8*q+3 in p, 8*q+4 in p, 8*q+5 in p, 8*q+6 in p, 8*q+7 in p];
    BitOfByteOfBits(c, j);
  }

  ghost function BlockOf(p: Poly): Block {
    seq(16, q requires q >= 0 => ByteOf(p, q))
  }

  lemma PolyOfBlockOf(p: Poly)
    requires Below(p, 128)
    ensures PolyOf(BlockOf(p)) == p
  {
    hide ByteOf, Bit;
    forall k: nat
      ensures k in PolyOf(BlockOf(p)) <==> k in p
    {
      if k < 128 {
        assert BlockOf(p)[k / 8] == ByteOf(p, k / 8);
        BitOfByteOf(p, k / 8, k % 8);
        assert 8 * (k / 8) + k % 8 == k;
      }
    }
  }

  function XorBlocks(a: Block, b: Block): Block {
    seq(16, q requires 0 <= q < 16 => Xor(a[q], b[q]))
  }

  lemma PolyOfXor(a: Block, b: Block)
    ensures PolyOf(XorBlocks(a, b)) == Add(PolyOf(a), PolyOf(b))
  {
    hide Bit, Xor;
    forall k: nat
      ensures k in PolyOf(XorBlocks(a, b)) <==> k in Add(PolyOf(a), PolyOf(b))
    {
      if k < 128 {
        BitOfXor(a[k / 8], b[k / 8], k % 8);
      }
    }
  }

  lemma PolyOfZeros(b: Block)
    requires forall q :: 0 <= q < 16 ==> b[q] == 0
    ensures PolyOf(b) == {} && b == ZeroBlock()
  {
    forall k: nat | k < 128
      ensures !Bit(b[k / 8], k % 8)
    {
    }
  }

  // ----- the four-word operations

  method PutU32(ct: array<Byte>, o: nat, st: bv32)
    requires o + 4 <= ct.Length
    modifies ct
    ensures ct[o] == ByteAt(st, 0) && ct[o + 1] == ByteAt(st, 1)
    ensures ct[o + 2] == ByteAt(st, 2) && ct[o + 3] == ByteAt(st, 3)
    ensures forall i: nat :: i < ct.Length && !(o <= i < o + 4) ==> ct[i] == old(ct[i])
  {
    ct[o] := ByteAt(st, 0);
    ct[o + 1] := ByteAt(st, 1);
    ct[o + 2] := ByteAt(st, 2);
    ct[o + 3] := ByteAt(st, 3);
  }

  /** One of the four word-sized xors of xor_block; the byte order inside the word is immaterial. */
  method XorWord(dst: array<Byte>, d: nat, src: array<Byte>, s: nat)
    requires d + 4 <= dst.Length && s + 4 <= src.Length
    modifies dst
    ensures dst[d] == Xor(old(dst[d]), old(src[s])) && dst[d + 1] == Xor(old(dst[d + 1]), old(src[s + 1]))
    ensures dst[d + 2] == Xor(old(dst[d + 2]), old(src[s + 2])) && dst[d + 3] == Xor(old(dst[d + 3]), old(src[s + 3]))
    ensures forall i: nat :: i < dst.Length && !(d <= i < d + 4) ==> dst[i] == old(dst[i])
  {
    hide *;
    var v := GetU32(dst[d], dst[d + 1], dst[d + 2], dst[d + 3]);
    var w := GetU32(src[s], src[s + 1], src[s + 2], src[s + 3]);
    BytesOfGet(dst[d], dst[d + 1], dst[d + 2], dst[d + 3]);
    BytesOfGet(src[s], src[s + 1], src[s + 2], src[s + 3]);
    ByteOfXor0(v, w);
    ByteOfXor1(v, w);
    ByteOfXor2(v, w);
    ByteOfXor3(v, w);
    PutU32(dst, d, XorU32(v, w));
  }

  method XorWords(dst: array<Byte>, d: nat, src: array<Byte>, s: nat)
    requires d + 8 <= dst.Length && s + 8 <= src.Length && (dst == src ==> d == s)
    modifies dst
    ensures forall i: nat :: d <= i < d + 8 ==> dst[i] == Xor(old(dst[i]), old(src[s + (i - d)]))
    ensures forall i: nat :: i < dst.Length && !(d <= i < d + 8) ==> dst[i] == old(dst[i])
  {
    hide Xor;
    XorWord(dst, d, src, s);
    XorWord(dst, d + 4, src, s + 4);
  }

  /** The two blocks may be the same one. */
  method XorBlock(dst: array<Byte>, d: nat, src: array<Byte>, s: nat)
    requires d + 16 <= dst.Length && s + 16 <= src.Length && (dst == src ==> d == s)
    modifies dst
    ensures dst[d..d + 16] == XorBlocks(old(dst[d..d + 16]), old(src[s..s + 16]))
    ensures forall i: nat :: i < dst.Length && !(d <= i < d + 16) ==> dst[i] == old(dst[i])
  {
    hide *;
    ghost var a: Block, b: Block := dst[d..d + 16], src[s..s + 16];
    XorWords(dst, d, src, s);
    ghost var half := dst[..];
    XorWords(dst, d + 8, src, s + 8);
    forall j: nat | j < 16
      ensures dst[d..d + 16][j] == Xor(a[j], b[j])
    {
      assert dst[d..d + 16][j] == dst[d + j];
      assert j < 8 ==> dst[d + j] == half[d + j];
    }
    XoredBytes(a, b, dst[d..d + 16]);
  }

  lemma XoredBytes(a: Block, b: Block, c: Block)
    requires forall j: nat :: j < 16 ==> c[j] == Xor(a[j], b[j])
    ensures c == XorBlocks(a, b)
  {
    hide Xor;
  }

  function ShiftedByte(b: Block, q: nat): Byte
    requires q < 16
  {
    ShiftIn(b[q], q > 0 && LowBit(b[q - 1]))
  }

  lemma PolyOfShifted(b: Block, b': Block)
    requires forall q: nat :: q < 16 ==> b'[q] == ShiftedByte(b, q)
    ensures PolyOf(b') == Low(Shift(PolyOf(b), 1), 128)
  {
    hide ShiftIn, Bit, LowBit;
    forall k: nat
      ensures k in PolyOf(b') <==> k in Low(Shift(PolyOf(b), 1), 128)
    {
      if k < 128 {
        var q, j := k / 8, k % 8;
        var carry := q > 0 && LowBit(b[q - 1]);
        BitOfShift(b[q], carry, j);
        assert Bit(b'[q], j) <==> if j == 0 then carry else Bit(b[q], j - 1);
        if j == 0 && q > 0 {
          assert (k - 1) / 8 == q - 1 && (k - 1) % 8 == 7;
          LowBitIsLast(b[q - 1]);
        } else if j > 0 {
          assert (k - 1) / 8 == q && (k - 1) % 8 == j - 1;
        }
      }
    }
  }

  /** The word at o is shifted right by one, with the given bit coming in; the rest stays. */
  ghost predicate WordShifted(b: seq<Byte>, b': seq<Byte>, o: nat, carry: bool) {
    |b'| == |b| && forall q {:trigger b'[q]} :: 0 <= q < |b| ==>
      b'[q] == if o <= q < o + 4 then ShiftIn(b[q], (q == o && carry) || (q != o && LowBit(b[q - 1]))) else b[q]
  }

  method ShiftRightWord(v: array<Byte>, o: nat, carry: bool)
    requires o + 4 <= v.Length
    modifies v
    ensures WordShifted(old(v[..]), v[..], o, carry)
  {
    hide GetU32, ByteAt, ShiftIn, LowBit, ShiftU32;
    BytesOfShift(v[o], v[o + 1], v[o + 2], v[o + 3], carry);
    var val := GetU32(v[o], v[o + 1], v[o + 2], v[o + 3]);
    PutU32(v, o, ShiftU32(val, carry));
  }

  lemma FourWordsShifted(b: Block, b3: Block, b2: Block, b1: Block, b0: Block)
    requires WordShifted(b, b3, 12, LowBit(b[11])) && WordShifted(b3, b2, 8, LowBit(b3[7]))
    requires WordShifted(b2, b1, 4, LowBit(b2[3])) && WordShifted(b1, b0, 0, false)
    ensures PolyOf(b0) == Low(Shift(PolyOf(b), 1), 128)
  {
    hide PolyOf, ShiftIn, LowBit;
    forall q: nat | q < 16
      ensures b0[q] == ShiftedByte(b, q)
    {
      // a word is shifted before the words to its left, so the carry comes from the original byte
      assert 0 < q < 13 ==> b3[q - 1] == b[q - 1];
      assert 0 < q < 9 ==> b2[q - 1] == b[q - 1];
      assert 0 < q < 5 ==> b1[q - 1] == b[q - 1];
    }
    PolyOfShifted(b, b0);
  }

  /** The block, read as one 128-bit string, moves one position to the right. */
  method ShiftRightBlock(v: array<Byte>)
    requires v.Length == 16
    modifies v
    ensures PolyOf(v[..]) == Low(Shift(old(PolyOf(v[..])), 1), 128)
  {
    hide *;
    ghost var b: Block := v[..];
    assert b[11] == v[11];
    ShiftRightWord(v, 12, LowBit(v[11]));
    ghost var b3: Block := v[..];
    assert b3[7] == v[7];
    ShiftRightWord(v, 8, LowBit(v[7]));
    ghost var b2: Block := v[..];
    assert b2[3] == v[3];
    ShiftRightWord(v, 4, LowBit(v[3]));
    ghost var b1: Block := v[..];
    ShiftRightWord(v, 0, false);
    FourWordsShifted(b, b3, b2, b1, v[..]);
  }

  // ----- multiplication in GF(2^128)

  /** The product of two blocks: the reference that gf_mult is proved against. */
  ghost function Dot(x: Block, y: Block): Block {
    BlockOf(GfMul(PolyOf(x), PolyOf(y)))
  }

  lemma PolyOfDot(x: Block, y: Block)
    ensures PolyOf(Dot(x, y)) == GfMul(PolyOf(x), PolyOf(y))
  {
    ReduceIsResidue(Mul(PolyOf(x), PolyOf(y)));
    PolyOfBlockOf(GfMul(PolyOf(x), PolyOf(y)));
  }

  const R: Poly := {0, 1, 2, 7}

  /** One round of gf_mult: z collects v when the next bit of x is set, and v becomes x * v. */
  lemma MultStep(x: Poly, y: Poly, n: nat, z: Poly, v: Poly, z': Poly, v': Poly)
    requires Below(v, 128)
    requires Congruent(z, SumShifts(x, y, n)) && Congruent(v, Shift(y, n))
    requires z' == if n in x then Add(z, v) else z
    requires v' == Add(Low(Shift(v, 1), 128), if 127 in v then R else {})
    ensures Congruent(z', SumShifts(x, y, n + 1)) && Congruent(v', Shift(y, n + 1))
  {
    if n in x {
      CongruentAdd(z, SumShifts(x, y, n), v, Shift(y, n));
    } else {
      AddLaws(SumShifts(x, y, n), {}, {});
    }
    MultByX(v, v');
    ShiftCongruent(v, Shift(y, n));
    ShiftShift(y, n, 1);
    CongruentTransitive(v', Shift(v, 1), Shift(y, n + 1));
  }

  lemma MultByX(v: Poly, v': Poly)
    requires Below(v, 128)
    requires v' == Add(Low(Shift(v, 1), 128), if 127 in v then R else {})
    ensures Congruent(v', Shift(v, 1))
  {
    hide Mul, Congruent;
    if 127 in v {
      MulMonomialLeft(0, MODULUS);
      ReducedTop(v);
      MultipleCongruent(Shift(v, 1), {0});
    } else {
      assert v' == Shift(v, 1);
      CongruentReflexive(v');
    }
  }

  lemma ReducedTop(v: Poly)
    requires Below(v, 128) && 127 in v
    ensures Shift(MODULUS, 0) == MODULUS
    ensures Add(Low(Shift(v, 1), 128), R) == Add(Shift(v, 1), MODULUS)
  {
    var s := Shift(v, 1);
    assert forall k: nat :: k in s && k >= 128 <==> k == 128;
    forall k: nat
      ensures k in Add(Low(s, 128), R) <==> k in Add(s, MODULUS)
    {
    }
  }

  lemma ShiftCongruent(a: Poly, b: Poly)
    requires Congruent(a, b)
    ensures Congruent(Shift(a, 1), Shift(b, 1))
  {
    CongruentMul(a, b, {1});
    MulMonomialLeft(1, a);
    MulMonomialLeft(1, b);
  }

  lemma MultInit(x: Poly, y: Poly)
    ensures Congruent({}, SumShifts(x, y, 0)) && Congruent(y, Shift(y, 0))
  {
    CongruentReflexive({});
    CongruentReflexive(y);
    assert Shift(y, 0) == y;
  }

  lemma MultDone(x: Poly, y: Poly, z: Poly)
    requires Below(x, 128) && Below(z, 128) && Congruent(z, SumShifts(x, y, 128))
    ensures z == GfMul(x, y)
  {
    MulAt(x, y, 128);
    ReduceUnique(Mul(x, y), z);
  }

  /** Flipping the bits of 0xe1 in the first byte adds R. */
  lemma PolyOfReduction(b: Block, b': Block)
    requires b' == b[0 := Xor(b[0], 0xe1)]
    ensures PolyOf(b') == Add(PolyOf(b), R)
  {
    forall k: nat
      ensures k in PolyOf(b') <==> k in Add(PolyOf(b), R)
    {
      if k < 8 {
        BitOfXor(b[0], 0xe1, k);
        assert Bit(0xe1, k) <==> k in R;
      }
    }
  }

  method GfMult(x: array<Byte>, y: array<Byte>, z: array<Byte>)
    requires x.Length == y.Length == z.Length == 16 && z != x && z != y
    modifies z
    ensures z[..] == Dot(x[..], y[..])
  {
    hide *;
    var v := new Byte[16];
    forall k | 0 <= k < 16 { z[k] := 0; }
    forall k | 0 <= k < 16 { v[k] := y[k]; }
    ghost var xp, yp := PolyOf(x[..]), PolyOf(y[..]);
    PolyOfZeros(z[..]);
    assert v[..] == y[..];
    MultInit(xp, yp);

    for i := 0 to 16
      invariant PolyOf(x[..]) == xp && PolyOf(y[..]) == yp
      invariant Congruent(PolyOf(z[..]), SumShifts(xp, yp, 8 * i))
      invariant Congruent(PolyOf(v[..]), Shift(yp, 8 * i))
    {
      for j := 0 to 8
        invariant PolyOf(x[..]) == xp && PolyOf(y[..]) == yp
        invariant Congruent(PolyOf(z[..]), SumShifts(xp, yp, 8 * i + j))
        invariant Congruent(PolyOf(v[..]), Shift(yp, 8 * i + j))
      {
        ghost var z0: Block, v0: Block := z[..], v[..];
        var chosen := Bit(x[i], j);
        BitTest(x[..], i, j);
        if chosen {
          XorBlock(z, 0, v, 0);
          assert z[..] == z[0..16] && z0 == z0[0..16] && v[..] == v[0..16];
          PolyOfXor(z0, v0);
        }
        ghost var z1: Block := z[..];
        assert v[..] == v0;
        var last := LowBit(v[15]);
        LowBitTest(v[..]);
        ShiftRightBlock(v);
        ghost var v1: Block := v[..];
        if last {
          v[0] := Xor(v[0], 0xe1);
          PolyOfReduction(v1, v[..]);
        } else {
          AddLaws(PolyOf(v1), {}, {});
        }
        assert z[..] == z1;
        MultStep(xp, yp, 8 * i + j, PolyOf(z0), PolyOf(v0), PolyOf(z[..]), PolyOf(v[..]));
      }
    }
    MultDone(xp, yp, PolyOf(z[..]));
    PolyOfDot(x[..], y[..]);
    PolyOfInjective(z[..], Dot(x[..], y[..]));
  }

  lemma BitTest(b: Block, i: nat, j: nat)
    requires i < 16 && j < 8
    ensures Bit(b[i], j) <==> 8 * i + j in PolyOf(b)
  {
    hide Bit;
    var k := 8 * i + j;
    assert k / 8 == i && k % 8 == j;
  }

  lemma LowBitTest(b: Block)
    ensures LowBit(b[15]) <==> 127 in PolyOf(b)
  {
    LowBitIsLast(b[15]);
    BitTest(b, 15, 7);
  }

  // ----- what the product of blocks obeys

  lemma DotCommutative(x: Block, y: Block)
    ensures Dot(x, y) == Dot(y, x)
  {
    GfMulCommutative(PolyOf(x), PolyOf(y));
  }

  lemma DotAssociative(x: Block, y: Block, z: Block)
    ensures Dot(Dot(x, y), z) == Dot(x, Dot(y, z))
  {
    PolyOfDot(x, y);
    PolyOfDot(y, z);
    GfMulAssociative(PolyOf(x), PolyOf(y), PolyOf(z));
  }

  lemma DotDistributes(x: Block, x': Block, y: Block)
    ensures Dot(XorBlocks(x, x'), y) == XorBlocks(Dot(x, y), Dot(x', y))
  {
    hide *;
    var l, r := Dot(XorBlocks(x, x'), y), XorBlocks(Dot(x, y), Dot(x', y));
    PolyOfDot(XorBlocks(x, x'), y);
    PolyOfDot(x, y);
    PolyOfDot(x', y);
    PolyOfXor(x, x');
    PolyOfXor(Dot(x, y), Dot(x', y));
    GfMulDistributes(PolyOf(x), PolyOf(x'), PolyOf(y));
    PolyOfInjective(l, r);
  }

  /** 1 || 0^127 is the unit. */
  lemma DotOne(x: Block)
    ensures Dot(BlockOf({0}), x) == x
  {
    PolyOfBlockOf({0});
    PolyOfDot(BlockOf({0}), x);
    GfMulOne(PolyOf(x));
    PolyOfInjective(Dot(BlockOf({0}), x), x);
  }
}
