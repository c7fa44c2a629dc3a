/**
 The GCM mode of aes-gcm.c: GHASH, the counter mode GCTR, the pre-counter block and
 authenticated encryption, each loop proved against the definitions of NIST SP 800-38D.
 The AES block cipher is a parameter: any function from blocks to blocks.
 */
module AesGcm {
  import opened Bytes
  import opened Common
  import opened Gf2Poly
  import opened GcmBlocks

  type Cipher = Block -> Block

  // ----- GHASH

  /** Block i of a byte string whose last block is padded with zero bytes. */
  function PaddedBlock(data: seq<Byte>, i: nat): Block {
    seq(16, k requires k >= 0 => if 16 * i + k < |data| then data[16 * i + k] else 0)
  }

  function Blocks(data: seq<Byte>): (bs: seq<Block>)
    ensures |bs| == (|data| + 15) / 16
  {
    seq((|data| + 15) / 16, i requires i >= 0 => PaddedBlock(data, i))
  }

  /** Y_i = (Y_{i-1} xor X_i) * H, from Y_0 = y (section 6.4 of SP 800-38D). */
  ghost function GHash(h: Block, xs: seq<Block>, y: Block): Block {
    if xs == [] then y
    else Dot(XorBlocks(GHash(h, xs[..|xs| - 1], y), xs[|xs| - 1]), h)
  }

  lemma {:induction false} GHashSplit(h: Block, xs: seq<Block>, ys: seq<Block>, y: Block)
    ensures GHash(h, xs + ys, y) == GHash(h, ys, GHash(h, xs, y))
  {
    if ys == [] {
      assert xs + ys == xs;
    } else {
      GHashSplit(h, xs, ys[..|ys| - 1], y);
      assert (xs + ys)[..|xs + ys| - 1] == xs + ys[..|ys| - 1];
    }
  }

  ghost function Power(h: Poly, n: nat): Poly {
    if n == 0 then {0} else GfMul(Power(h, n - 1), h)
  }

  /** X_1 * H^m + X_2 * H^(m-1) + ... + X_m * H */
  ghost function PowerSum(h: Poly, xs: seq<Block>): Poly {
    if xs == [] then {}
    else Add(GfMul(PolyOf(xs[0]), Power(h, |xs|)), PowerSum(h, xs[1..]))
  }

  lemma {:induction false} PowerSumSnoc(h: Poly, xs: seq<Block>, x: Block)
    ensures PowerSum(h, xs + [x]) == Add(GfMul(PowerSum(h, xs), h), GfMul(PolyOf(x), Power(h, 1)))
  {
    hide Add, GfMul, PolyOf;
    var last := GfMul(PolyOf(x), Power(h, 1));
    if xs == [] {
      assert xs + [x] == [x] && [x][1..] == [];
      MulZero(h);
      GfMulZero(h);
      AddLaws(last, {}, {});
    } else {
      var p := PolyOf(xs[0]);
      assert (xs + [x])[1..] == xs[1..] + [x];
      PowerSumSnoc(h, xs[1..], x);
      GfMulAssociative(p, Power(h, |xs|), h);
      GfMulDistributes(GfMul(p, Power(h, |xs|)), PowerSum(h, xs[1..]), h);
      AddLaws(GfMul(p, Power(h, |xs| + 1)), GfMul(PowerSum(h, xs[1..]), h), last);
    }
  }

  lemma GfMulZero(h: Poly)
    ensures GfMul({}, h) == {}
  {
    MulZero(h);
    CongruentReflexive({});
    ReduceUnique({}, {});
  }

  /** GHASH from the zero block is the polynomial in H with the data blocks as coefficients. */
  lemma {:induction false} GHashIsPolynomial(h: Block, xs: seq<Block>)
    ensures PolyOf(GHash(h, xs, ZeroBlock())) == PowerSum(PolyOf(h), xs)
  {
    hide PolyOf, Dot, GfMul, XorBlocks, Add;
    if xs == [] {
      PolyOfZeros(ZeroBlock());
    } else {
      var front, x := xs[..|xs| - 1], xs[|xs| - 1];
      var y := GHash(h, front, ZeroBlock());
      var hp := PolyOf(h);
      GHashIsPolynomial(h, front);
      PolyOfDot(XorBlocks(y, x), h);
      PolyOfXor(y, x);
      GfMulDistributes(PolyOf(y), PolyOf(x), hp);
      GfMulOne(hp);
      assert front + [x] == xs;
      PowerSumSnoc(hp, front, x);
    }
  }

  lemma BlocksOfAligned(a: seq<Byte>, b: seq<Byte>)
    requires |a| % 16 == 0
    ensures Blocks(a + b) == Blocks(a) + Blocks(b)
  {
    var m := |a| / 16;
    assert |a| == 16 * m;
    assert (|a + b| + 15) / 16 == m + (|b| + 15) / 16;
    forall i: nat | i < |Blocks(a + b)|
      ensures Blocks(a + b)[i] == (Blocks(a) + Blocks(b))[i]
    {
      if i < m {
        assert PaddedBlock(a + b, i) == PaddedBlock(a, i);
      } else {
        assert PaddedBlock(a + b, i) == PaddedBlock(b, i - m);
      }
    }
  }

  /** Cutting a ghash call at a block boundary changes nothing. */
  lemma GHashResume(h: Block, a: seq<Byte>, b: seq<Byte>, y: Block)
    requires |a| % 16 == 0
    ensures GHash(h, Blocks(a + b), y) == GHash(h, Blocks(b), GHash(h, Blocks(a), y))
  {
    BlocksOfAligned(a, b);
    GHashSplit(h, Blocks(a), Blocks(b), y);
  }

  lemma GHashStep(h: Block, xs: seq<Block>, i: nat, y: Block)
    requires i < |xs|
    ensures GHash(h, xs[..i + 1], y) == Dot(XorBlocks(GHash(h, xs[..i], y), xs[i]), h)
  {
    assert xs[..i + 1][..i] == xs[..i];
  }

  method GhashStart(y: array<Byte>)
    requires y.Length == 16
    modifies y
    ensures y[..] == ZeroBlock()
  {
    forall k | 0 <= k < 16 { y[k] := 0; }
  }

  method MulInto(y: array<Byte>, h: array<Byte>, tmp: array<Byte>)
    requires y.Length == h.Length == tmp.Length == 16 && y != h && tmp != y && tmp != h
    modifies y, tmp
    ensures y[..] == Dot(old(y[..]), h[..])
  {
    hide *;
    ghost var y0, h0 := y[..], h[..];
    GfMult(y, h, tmp);
    assert y[..] == y0 && h[..] == h0;
    forall k | 0 <= k < 16 { y[k] := tmp[k]; }
    assert y[..] == tmp[..] && h[..] == h0;
  }

  method Ghash(h: array<Byte>, x: array<Byte>, xlen: nat, y: array<Byte>)
    requires h.Length == y.Length == 16 && xlen <= x.Length && y != h && y != x
    modifies y
    ensures y[..] == GHash(h[..], Blocks(x[..xlen]), old(y[..]))
  {
    hide *;
    ghost var hb: Block, y0: Block, data, xs := h[..], y[..], x[..xlen], Blocks(x[..xlen]);
    var tmp := new Byte[16];
    var m := xlen / 16;
    assert xs[..0] == [];
    GHashOfNothing(hb, y0);
    for i := 0 to m
      invariant h[..] == hb && x[..xlen] == data
      invariant y[..] == GHash(hb, xs[..i], y0)
    {
      ghost var y1 := y[..];
      assert y1 == y1[0..16];
      XorBlock(y, 0, x, 16 * i);
      assert y[0..16] == y[..];
      WholeBlock(data, i);
      assert x[16 * i..16 * i + 16] == data[16 * i..16 * i + 16];
      assert h[..] == hb && x[..xlen] == data;
      MulInto(y, h, tmp);
      GHashStep(hb, xs, i, y0);
    }
    ghost var ym := y[..];
    if xlen > 16 * m {
      var last := xlen - 16 * m;
      forall k | 0 <= k < last { tmp[k] := x[16 * m + k]; }
      forall k | last <= k < 16 { tmp[k] := 0; }
      LastBlock(data, m, tmp[..]);
      assert y[..] == ym;
      assert tmp[0..16] == tmp[..] && ym == ym[0..16];
      XorBlock(y, 0, tmp, 0);
      assert y[0..16] == y[..];
      assert y[..] == XorBlocks(ym, xs[m]);
      assert h[..] == hb;
      MulInto(y, h, tmp);
      assert h[..] == hb;
      GHashStep(hb, xs, m, y0);
      assert xs[..m + 1] == xs;
      assert y[..] == GHash(hb, xs, y0);
    } else {
      assert |data| == 16 * m && |xs| == m;
      assert xs[..m] == xs;
      assert y[..] == GHash(hb, xs, y0);
    }
    assert h[..] == hb && x[..xlen] == data;
  }

  lemma GHashOfNothing(h: Block, y: Block)
    ensures GHash(h, [], y) == y
  {
  }

  lemma WholeBlock(data: seq<Byte>, i: nat)
    requires 16 * i + 16 <= |data|
    ensures i < |Blocks(data)| && Blocks(data)[i] == data[16 * i..16 * i + 16]
  {
  }

  lemma LastBlock(data: seq<Byte>, m: nat, b: Block)
    requires 16 * m < |data| < 16 * m + 16
    requires forall k: nat :: k < 16 ==> b[k] == if 16 * m + k < |data| then data[16 * m + k] else 0
    ensures |Blocks(data)| == m + 1 && Blocks(data)[m] == b
  {
  }

  // ----- the counter

  /** The block with k added to its last 32 bits, modulo 2^32: inc_32 applied k times. */
  function IncBy(b: Block, k: nat): Block {
    b[..12] + Be32(NatOf32(b[12..]) + k)
  }

  method Inc32(block: array<Byte>)
    requires block.Length == 16
    modifies block
    ensures block[..12] == old(block[..12])
    ensures NatOf32(block[12..]) == (NatOf32(old(block[12..])) + 1) % 0x1_0000_0000
    ensures block[..] == IncBy(old(block[..]), 1)
  {
    hide *;
    ghost var b: Block := block[..];
    var val := GetU32(block[12], block[13], block[14], block[15]);
    val := Successor(val);
    PutU32(block, 12, val);
    assert block[..12] == b[..12];
    assert b[12..] == [b[12], b[13], b[14], b[15]];
    assert block[12..] == [ByteAt(val, 0), ByteAt(val, 1), ByteAt(val, 2), ByteAt(val, 3)];
    IncrementedWord(b[12], b[13], b[14], b[15]);
    NatOfBe32(NatOf32(b[12..]) + 1);
    IncByAppends(b, 1, block[12..]);
    assert block[..] == block[..12] + block[12..];
  }

  function Successor(val: bv32): bv32 { val + 1 }

  lemma IncByAppends(b: Block, k: nat, low: seq<Byte>)
    requires low == Be32(NatOf32(b[12..]) + k)
    ensures b[..12] + low == IncBy(b, k)
  {
  }

  /** The four bytes of val + 1 spell the successor of the number they spelled before. */
  lemma IncrementedWord(b0: Byte, b1: Byte, b2: Byte, b3: Byte)
    ensures
      var v := Successor(GetU32(b0, b1, b2, b3));
      [ByteAt(v, 0), ByteAt(v, 1), ByteAt(v, 2), ByteAt(v, 3)] == Be32(NatOf32([b0, b1, b2, b3]) + 1)
  {
    var v := Successor(GetU32(b0, b1, b2, b3));
    var s := [ByteAt(v, 0), ByteAt(v, 1), ByteAt(v, 2), ByteAt(v, 3)];
    var n := NatOf32([b0, b1, b2, b3]) + 1;
    assert NatOf32(s) == n % 0x1_0000_0000 by {
      BytesOfSuccessor(b0, b1, b2, b3);
      RippledNat(b0, b1, b2, b3, s);
    }
    NatOfBe32(n);
    Be32Injective(s, Be32(n));
  }

  lemma RippledNat(b0: Byte, b1: Byte, b2: Byte, b3: Byte, s: seq<Byte>)
    requires |s| == 4 && s[3] == b3 + 1
    requires s[2] == if b3 == 0xFF then b2 + 1 else b2
    requires s[1] == if b3 == 0xFF && b2 == 0xFF then b1 + 1 else b1
    requires s[0] == if b3 == 0xFF && b2 == 0xFF && b1 == 0xFF then b0 + 1 else b0
    ensures NatOf32(s) == (NatOf32([b0, b1, b2, b3]) + 1) % 0x1_0000_0000
  {
    hide NatOfByte;
    NatOfSuccessor(b0);
    NatOfSuccessor(b1);
    NatOfSuccessor(b2);
    NatOfSuccessor(b3);
    NatOfByteBound(b0);
    NatOfByteBound(b1);
    NatOfByteBound(b2);
    NatOfByteBound(b3);
  }

  lemma IncByTwice(b: Block, j: nat, k: nat)
    ensures IncBy(IncBy(b, j), k) == IncBy(b, j + k)
  {
    hide Be32, NatOf32;
    var n := NatOf32(b[12..]);
    assert IncBy(b, j)[..12] == b[..12] && IncBy(b, j)[12..] == Be32(n + j);
    NatOfBe32(n + j);
    NatOfBe32((n + j) % 0x1_0000_0000 + k);
    NatOfBe32(n + j + k);
    Be32Injective(Be32((n + j) % 0x1_0000_0000 + k), Be32(n + j + k));
  }

  /** Two counter blocks of one stream are equal exactly when their numbers agree modulo 2^32. */
  lemma CountersDistinct(b: Block, j: nat, k: nat)
    ensures IncBy(b, j) == IncBy(b, k) <==> j % 0x1_0000_0000 == k % 0x1_0000_0000
  {
    hide Be32, NatOf32;
    var n := NatOf32(b[12..]);
    NatOfBe32(n + j);
    NatOfBe32(n + k);
    assert IncBy(b, j)[..12] == IncBy(b, k)[..12];
    assert IncBy(b, j)[12..] == Be32(n + j) && IncBy(b, k)[12..] == Be32(n + k);
    if j % 0x1_0000_0000 == k % 0x1_0000_0000 {
      Be32Injective(Be32(n + j), Be32(n + k));
    }
  }

  // ----- GCTR

  /** Byte k mod 16 of the encryption of counter block number k / 16. */
  function KeyByte(aes: Cipher, icb: Block, k: nat): Byte {
    aes(IncBy(icb, k / 16))[k % 16]
  }

  /** The text xored with the key stream. */
  function Gctr(aes: Cipher, icb: Block, x: seq<Byte>): (y: seq<Byte>)
    ensures |y| == |x|
  {
    seq(|x|, k requires 0 <= k < |x| => Xor(x[k], KeyByte(aes, icb, k)))
  }

  /** The same with zeros in the first z bytes. */
  function GctrFrom(aes: Cipher, icb: Block, x: seq<Byte>, z: nat): (y: seq<Byte>)
    ensures |y| == |x|
  {
    seq(|x|, k requires 0 <= k < |x| => if k < z then 0 else Xor(x[k], KeyByte(aes, icb, k)))
  }

  /** The bytes that an in-place call turns to zero: all full blocks. */
  function Lost(len: nat, inPlace: bool): nat {
    if inPlace then len / 16 * 16 else 0
  }

  /**
   What aes_gctr leaves in its output. A full block is encrypted into the output before the text is xored onto it,
   so when both are one buffer the block is xored onto itself; only the partial block at the end is right.
   */
  function GctrInto(aes: Cipher, icb: Block, x: seq<Byte>, inPlace: bool): (y: seq<Byte>)
    ensures |y| == |x|
  {
    GctrFrom(aes, icb, x, Lost(|x|, inPlace))
  }

  lemma GctrApart(aes: Cipher, icb: Block, x: seq<Byte>)
    ensures GctrInto(aes, icb, x, false) == Gctr(aes, icb, x)
  {
    hide KeyByte;
  }

  /** An in-place call encrypts exactly when every full block of the text is the key stream itself. */
  lemma InPlaceExact(aes: Cipher, icb: Block, x: seq<Byte>)
    ensures
      GctrInto(aes, icb, x, true) == Gctr(aes, icb, x)
      <==> forall k: nat | k < |x| / 16 * 16 :: x[k] == KeyByte(aes, icb, k)
  {
    hide KeyByte, Xor;
    var z := |x| / 16 * 16;
    if GctrInto(aes, icb, x, true) == Gctr(aes, icb, x) {
      forall k: nat | k < z
        ensures x[k] == KeyByte(aes, icb, k)
      {
        assert Gctr(aes, icb, x)[k] == GctrInto(aes, icb, x, true)[k];
        XorZero(x[k], KeyByte(aes, icb, k));
      }
    }
    if forall k: nat | k < z :: x[k] == KeyByte(aes, icb, k) {
      forall k: nat | k < |x|
        ensures GctrInto(aes, icb, x, true)[k] == Gctr(aes, icb, x)[k]
      {
        XorZero(x[k], KeyByte(aes, icb, k));
      }
    }
  }

  lemma XorZero(a: Byte, b: Byte)
    ensures Xor(a, b) == 0 <==> a == b
  {
  }

  /** Texts that differ in full blocks only are the same after an in-place call, which therefore no key undoes. */
  lemma InPlaceForgets(aes: Cipher, icb: Block, x: seq<Byte>, x': seq<Byte>)
    requires |x| == |x'| && x[|x| / 16 * 16..] == x'[|x| / 16 * 16..]
    ensures GctrInto(aes, icb, x, true) == GctrInto(aes, icb, x', true)
  {
    hide KeyByte, Xor;
    var z := |x| / 16 * 16;
    forall k: nat | k < |x|
      ensures GctrInto(aes, icb, x, true)[k] == GctrInto(aes, icb, x', true)[k]
    {
      assert k >= z ==> x[k] == x[z..][k - z] && x'[k] == x'[z..][k - z];
    }
  }

  lemma GctrTwice(aes: Cipher, icb: Block, x: seq<Byte>)
    ensures Gctr(aes, icb, Gctr(aes, icb, x)) == x
  {
    forall k | 0 <= k < |x|
      ensures Gctr(aes, icb, Gctr(aes, icb, x))[k] == x[k]
    {
      XorTwice(x[k], KeyByte(aes, icb, k));
    }
  }

  lemma XorTwice(a: Byte, b: Byte)
    ensures Xor(Xor(a, b), b) == a && Xor(b, a) == Xor(a, b)
  {
  }

  method AesEncrypt(aes: Cipher, plain: array<Byte>, crypt: array<Byte>, c: nat)
    requires plain.Length == 16 && c + 16 <= crypt.Length
    modifies crypt
    ensures crypt[c..c + 16] == aes(old(plain[..]))
    ensures forall i :: 0 <= i < crypt.Length && !(c <= i < c + 16) ==> crypt[i] == old(crypt[i])
  {
    var out := aes(plain[..]);
    forall k | 0 <= k < 16 { crypt[c + k] := out[k]; }
  }

  lemma KeyByteInBlock(aes: Cipher, icb: Block, i: nat, j: nat)
    requires j < 16
    ensures KeyByte(aes, icb, 16 * i + j) == aes(IncBy(icb, i))[j]
  {
    assert (16 * i + j) / 16 == i && (16 * i + j) % 16 == j;
  }

  lemma XoredBlock(a: Block, b: Block, j: nat)
    requires j < 16
    ensures XorBlocks(a, b)[j] == Xor(b[j], a[j])
  {
    XorTwice(a[j], b[j]);
  }

  /** What one turn leaves in the output block. */
  function BlockInto(aes: Cipher, icb: Block, i: nat, x: Block, inPlace: bool): Block {
    if inPlace then ZeroBlock() else XorBlocks(aes(IncBy(icb, i)), x)
  }

  /** Extending the output by one block. */
  lemma GctrBlock(aes: Cipher, icb: Block, text: seq<Byte>, i: nat, done: seq<Byte>, inPlace: bool)
    requires 16 * i + 16 <= |text| && done == GctrFrom(aes, icb, text[..16 * i], if inPlace then 16 * i else 0)
    ensures
      done + BlockInto(aes, icb, i, text[16 * i..16 * i + 16], inPlace)
      == GctrFrom(aes, icb, text[..16 * i + 16], if inPlace then 16 * i + 16 else 0)
  {
    hide KeyByte, XorBlocks;
    var next := BlockInto(aes, icb, i, text[16 * i..16 * i + 16], inPlace);
    forall k: nat | k < 16 * i + 16
      ensures (done + next)[k] == if inPlace then 0 else Xor(text[k], KeyByte(aes, icb, k))
    {
      if k >= 16 * i && !inPlace {
        KeyByteInBlock(aes, icb, i, k - 16 * i);
        XoredBlock(aes(IncBy(icb, i)), text[16 * i..16 * i + 16], k - 16 * i);
      }
    }
  }

  lemma GctrByte(aes: Cipher, icb: Block, text: seq<Byte>, n: nat, z: nat, done: seq<Byte>, next: Byte)
    requires z <= n < |text| && done == GctrFrom(aes, icb, text[..n], z)
    requires next == Xor(text[n], KeyByte(aes, icb, n))
    ensures done + [next] == GctrFrom(aes, icb, text[..n + 1], z)
  {
    hide KeyByte;
  }

  lemma XorSelf(a: Block)
    ensures XorBlocks(a, a) == ZeroBlock()
  {
    hide Xor;
    forall j | 0 <= j < 16
      ensures XorBlocks(a, a)[j] == 0
    {
      XorZero(a[j], a[j]);
    }
  }

  /** The encrypted counter goes to the output, and the text is xored onto it. */
  method XorCounterBlock(aes: Cipher, ghost icb: Block, ghost i: nat, cb: array<Byte>, x: array<Byte>, y: array<Byte>,
                         p: nat)
    requires cb.Length == 16 && p + 16 <= x.Length && p + 16 <= y.Length && y != cb && cb[..] == IncBy(icb, i)
    modifies y
    ensures y[p..p + 16] == BlockInto(aes, icb, i, old(x[p..p + 16]), y == x)
    ensures forall i: nat :: i < y.Length && !(p <= i < p + 16) ==> y[i] == old(y[i])
  {
    hide *;
    ghost var text := x[p..p + 16];
    AesEncrypt(aes, cb, y, p);
    ghost var key: Block := y[p..p + 16];
    assert y != x ==> x[p..p + 16] == text;
    XorBlock(y, p, x, p);
    XorSelf(key);
    BlockIntoCases(aes, icb, i, text, y == x);
  }

  lemma BlockIntoCases(aes: Cipher, icb: Block, i: nat, x: Block, inPlace: bool)
    ensures BlockInto(aes, icb, i, x, inPlace) == if inPlace then ZeroBlock() else XorBlocks(aes(IncBy(icb, i)), x)
  {
  }

  /** The full blocks: the counter in cb advances by one after each. */
  method GctrBlocks(aes: Cipher, ghost icb: Block, cb: array<Byte>, x: array<Byte>, n: nat, y: array<Byte>)
    requires cb.Length == 16 && 16 * n <= x.Length && 16 * n <= y.Length && cb != x && y != cb
    requires cb[..] == icb
    modifies y, cb
    ensures cb[..] == IncBy(icb, n)
    ensures y[..16 * n] == GctrFrom(aes, icb, old(x[..16 * n]), if y == x then 16 * n else 0)
    ensures y[16 * n..] == old(y[16 * n..])
  {
    hide *;
    ghost var text, rest := x[..16 * n], y[16 * n..];
    IncByZero(icb);
    GctrOfNothing(aes, icb, 0);
    assert text[..0] == [];
    for i := 0 to n
      invariant x[16 * i..16 * n] == text[16 * i..] && (y != x ==> x[..16 * n] == text) && y[16 * n..] == rest
      invariant cb[..] == IncBy(icb, i)
      invariant y[..16 * i] == GctrFrom(aes, icb, text[..16 * i], if y == x then 16 * i else 0)
    {
      ghost var done, before, block := y[..16 * i], y[..], text[16 * i..16 * i + 16];
      assert before[16 * n..] == rest && before[..16 * i] == done;
      assert x[16 * i..16 * i + 16] == x[16 * i..16 * n][..16] == block;
      XorCounterBlock(aes, icb, i, cb, x, y, 16 * i);
      assert forall k: nat | k < 16 * i || 16 * i + 16 <= k < y.Length :: y[k] == before[k];
      assert y[16 * n..] == before[16 * n..];
      assert y[..16 * i] == before[..16 * i];
      assert y == x ==> x[16 * i + 16..16 * n] == before[16 * i..16 * n][16..] == text[16 * i..][16..];
      assert y != x ==> x[..16 * n] == text;
      GctrBlock(aes, icb, text, i, done, y == x);
      assert y[..16 * i + 16] == done + y[16 * i..16 * i + 16];
      Inc32(cb);
      IncByTwice(icb, i, 1);
    }
    assert text[..16 * n] == text;
  }

  /** Each of icb and x may be the output buffer itself. */
  method AesGctr(aes: Cipher, icb: array<Byte>, x: array<Byte>, xlen: nat, y: array<Byte>)
    requires icb.Length == 16 && xlen <= x.Length && xlen <= y.Length
    modifies y
    ensures y[..xlen] == GctrInto(aes, old(icb[..]), old(x[..xlen]), y == x)
    ensures y != x ==> y[..xlen] == Gctr(aes, old(icb[..]), old(x[..xlen]))
    ensures y[xlen..] == old(y[xlen..])
  {
    hide *;
    ghost var icb0: Block, rest, text := icb[..], y[xlen..], x[..xlen];
    GctrApart(aes, icb0, text);
    if xlen == 0 {
      GctrOfNothing(aes, icb0, Lost(0, y == x));
      GctrIntoIs(aes, icb0, text, y == x);
      return;
    }
    var n := xlen / 16;
    var cb := new Byte[16];
    forall k | 0 <= k < 16 { cb[k] := icb[k]; }
    assert cb[..] == icb0;
    assert x[..xlen] == text && x[..16 * n] == text[..16 * n];
    ghost var after := y[16 * n..];
    GctrBlocks(aes, icb0, cb, x, n, y);
    assert y[16 * n..] == after;
    assert y[xlen..] == y[16 * n..][xlen - 16 * n..] == after[xlen - 16 * n..];
    assert x[16 * n..xlen] == text[16 * n..] by {
      assert y == x ==> x[16 * n..xlen] == after[..xlen - 16 * n];
    }
    if xlen - 16 * n != 0 {
      var tmp := new Byte[16];
      AesEncrypt(aes, cb, tmp, 0);
      assert tmp[..] == tmp[0..16];
      GctrTail(aes, icb0, n, tmp, text, x, xlen, y, if y == x then 16 * n else 0);
    } else {
      assert text[..16 * n] == text;
    }
    GctrIntoIs(aes, icb0, text, y == x);
  }

  lemma GctrIntoIs(aes: Cipher, icb: Block, x: seq<Byte>, inPlace: bool)
    ensures GctrInto(aes, icb, x, inPlace) == GctrFrom(aes, icb, x, if inPlace then 16 * (|x| / 16) else 0)
    ensures Lost(|x|, inPlace) == if inPlace then 16 * (|x| / 16) else 0
  {
  }

  /** The last, partial block, byte by byte. */
  method GctrTail(aes: Cipher, ghost icb: Block, n: nat, tmp: array<Byte>, ghost text: seq<Byte>, x: array<Byte>,
                  xlen: nat, y: array<Byte>, ghost z: nat)
    requires |text| == xlen <= x.Length && xlen <= y.Length && z <= 16 * n <= xlen < 16 * n + 16 && y != tmp
    requires tmp.Length == 16 && tmp[..] == aes(IncBy(icb, n)) && x[16 * n..xlen] == text[16 * n..]
    requires y[..16 * n] == GctrFrom(aes, icb, text[..16 * n], z)
    modifies y
    ensures y[..xlen] == GctrFrom(aes, icb, text, z)
    ensures y[xlen..] == old(y[xlen..])
  {
    hide *;
    ghost var rest := y[xlen..];
    for i := 0 to xlen - 16 * n
      invariant x[16 * n + i..xlen] == text[16 * n + i..] && y[xlen..] == rest
      invariant tmp[..] == aes(IncBy(icb, n))
      invariant y[..16 * n + i] == GctrFrom(aes, icb, text[..16 * n + i], z)
    {
      ghost var p, done := 16 * n + i, y[..16 * n + i];
      assert x[p] == x[p..xlen][0] == text[p..][0];
      ghost var left := x[p + 1..xlen];
      assert left == x[p..xlen][1..] == text[p + 1..];
      y[16 * n + i] := Xor(x[16 * n + i], tmp[i]);
      assert tmp[i] == tmp[..][i];
      KeyByteInBlock(aes, icb, n, i);
      GctrByte(aes, icb, text, p, z, done, y[p]);
      assert y[..p + 1] == done + [y[p]];
      assert x[p + 1..xlen] == left;
    }
    assert text[..xlen] == text;
  }

  lemma GctrOfNothing(aes: Cipher, icb: Block, z: nat)
    ensures GctrFrom(aes, icb, [], z) == []
  {
  }

  lemma IncByZero(b: Block)
    ensures IncBy(b, 0) == b
  {
    hide Be32, NatOf32;
    NatOfBe32(NatOf32(b[12..]));
    NatOf32Bound(b[12..]);
    Be32Injective(Be32(NatOf32(b[12..])), b[12..]);
  }

  lemma NatOf32Bound(s: seq<Byte>)
    requires |s| == 4
    ensures NatOf32(s) < 0x1_0000_0000
  {
    hide NatOfByte;
    NatOfByteBound(s[0]);
    NatOfByteBound(s[1]);
    NatOfByteBound(s[2]);
    NatOfByteBound(s[3]);
  }

  // ----- authenticated encryption

  /** The eight stores of PUTU64, the most significant byte first. */
  method PutU64(ct: array<Byte>, o: nat, st: nat)
    requires o + 8 <= ct.Length
    modifies ct
    ensures Spells(ct[o..o + 8], st)
    ensures ct[o..o + 8] == Be64(st)
    ensures ct[..o] == old(ct[..o]) && ct[o + 8..] == old(ct[o + 8..])
  {
    hide *;
    ghost var before, after := ct[..o], ct[o + 8..];
    ct[o] := ByteOfNat(ShiftBytes(st, 7));
    ct[o + 1] := ByteOfNat(ShiftBytes(st, 6));
    ct[o + 2] := ByteOfNat(ShiftBytes(st, 5));
    ct[o + 3] := ByteOfNat(ShiftBytes(st, 4));
    ct[o + 4] := ByteOfNat(ShiftBytes(st, 3));
    ct[o + 5] := ByteOfNat(ShiftBytes(st, 2));
    ct[o + 6] := ByteOfNat(ShiftBytes(st, 1));
    ct[o + 7] := ByteOfNat(ShiftBytes(st, 0));
    assert ct[..o] == before && ct[o + 8..] == after;
    Be64Bytes(st);
    assert ct[o..o + 8] == Be64(st);
    Be64Spells(st);
  }

  /**
   One more than the largest size_t of the target.  A length in bits is computed as len * 8 in
   size_t before PUTU64 widens it, so it wraps at this bound.
   */
  type SizeBound = size: nat | 0 < size <= 0x1_0000_0000_0000_0000 witness 1

  /** The final block of the standard: both bit lengths as 64-bit numbers. */
  function LengthBlock(aadBits: nat, textBits: nat): Block {
    Be64(aadBits) + Be64(textBits)
  }

  /** The bytes of the block are the big-endian digits of the two numbers. */
  predicate LengthBytes(b: Block, aadBits: nat, textBits: nat) {
    && (forall k | 0 <= k < 8 :: NatOfByte(b[k]) == aadBits / Pow256(7 - k) % 256)
    && (forall k | 8 <= k < 16 :: NatOfByte(b[k]) == textBits / Pow256(15 - k) % 256)
  }

  /** There is only one such block. */
  lemma LengthBlockBytes(aadBits: nat, textBits: nat, b: Block)
    ensures b == LengthBlock(aadBits, textBits) <==> LengthBytes(b, aadBits, textBits)
  {
    hide NatOfByte, Pow256, Be64;
    Be64Spells(aadBits);
    Be64Spells(textBits);
    var l := LengthBlock(aadBits, textBits);
    assert l[..8] == Be64(aadBits) && l[8..] == Be64(textBits);
    assert forall k | 8 <= k < 16 :: b[k] == b[8..][k - 8] && l[k] == l[8..][k - 8];
    if LengthBytes(b, aadBits, textBits) {
      assert Spells(b[8..], textBits) by {
        forall k | 0 <= k < 8
          ensures NatOfByte(b[8..][k]) == textBits / Pow256(7 - k) % 256
        {
          assert b[8..][k] == b[8 + k];
        }
      }
      SpellingUnique(b[..8], l[..8], aadBits);
      SpellingUnique(b[8..], l[8..], textBits);
      assert b == b[..8] + b[8..] && l == l[..8] + l[8..];
    }
  }

  /** data || 0^u, zero-padded to whole blocks. */
  function Padded(data: seq<Byte>): (p: seq<Byte>)
    ensures |p| == 16 * ((|data| + 15) / 16)
  {
    data + seq(16 * ((|data| + 15) / 16) - |data|, _ => 0)
  }

  lemma BlocksOfPadded(data: seq<Byte>)
    ensures Blocks(Padded(data)) == Blocks(data)
  {
    forall i: nat | i < |Blocks(data)|
      ensures Blocks(Padded(data))[i] == Blocks(data)[i]
    {
      assert PaddedBlock(Padded(data), i) == PaddedBlock(data, i);
    }
  }

  /** GHASH_H(A || 0^v || C || 0^u || lengths): step 5 of GCM-AE in section 7.1 of SP 800-38D. */
  ghost function AuthHash(h: Block, aad: seq<Byte>, crypt: seq<Byte>, lengths: Block): Block {
    GHash(h, Blocks(Padded(aad) + Padded(crypt) + lengths), ZeroBlock())
  }

  lemma AuthHashInParts(h: Block, aad: seq<Byte>, crypt: seq<Byte>, lengths: Block)
    ensures AuthHash(h, aad, crypt, lengths)
         == GHash(h, Blocks(lengths), GHash(h, Blocks(crypt), GHash(h, Blocks(aad), ZeroBlock())))
  {
    hide Padded, Blocks, GHash, ZeroBlock;
    assert |Padded(aad)| % 16 == 0 && |Padded(aad) + Padded(crypt)| % 16 == 0;
    GHashResume(h, Padded(aad) + Padded(crypt), lengths, ZeroBlock());
    GHashResume(h, Padded(aad), Padded(crypt), ZeroBlock());
    BlocksOfPadded(aad);
    BlocksOfPadded(crypt);
  }

  method AesGcmGhash(h: array<Byte>, aad: array<Byte>, aadLen: nat, crypt: array<Byte>, cryptLen: nat,
                     s: array<Byte>, size: SizeBound)
    requires h.Length == s.Length == 16 && s != h && s != aad && s != crypt
    requires aadLen <= aad.Length && cryptLen <= crypt.Length
    modifies s
    ensures s[..] == AuthHash(h[..], aad[..aadLen], crypt[..cryptLen],
                              LengthBlock(aadLen * 8 % size, cryptLen * 8 % size))
    ensures forall b: Block | LengthBytes(b, aadLen * 8 % size, cryptLen * 8 % size) ::
      s[..] == GHash(h[..], Blocks(Padded(aad[..aadLen]) + Padded(crypt[..cryptLen]) + b), ZeroBlock())
  {
    hide *;
    ghost var hb: Block, a, c := h[..], aad[..aadLen], crypt[..cryptLen];
    var lenBuf := new Byte[16];
    GhashStart(s);
    assert h[..] == hb && aad[..aadLen] == a && crypt[..cryptLen] == c;
    Ghash(h, aad, aadLen, s);
    assert h[..] == hb && aad[..aadLen] == a && crypt[..cryptLen] == c;
    Ghash(h, crypt, cryptLen, s);
    assert h[..] == hb && aad[..aadLen] == a && crypt[..cryptLen] == c;
    ghost var s2 := s[..];
    PutU64(lenBuf, 0, WrappedBits(aadLen, size));
    ghost var first := lenBuf[0..8];
    PutU64(lenBuf, 8, WrappedBits(cryptLen, size));
    assert lenBuf[..8] == first;
    assert lenBuf[..16] == lenBuf[..8] + lenBuf[8..16];
    LengthBlockParts(aadLen, cryptLen, size, lenBuf[..16]);
    assert s[..] == s2 && h[..] == hb;
    Ghash(h, lenBuf, 16, s);
    assert h[..] == hb && aad[..aadLen] == a && crypt[..cryptLen] == c;
    AuthHashInParts(hb, a, c, lenBuf[..16]);
    forall b: Block | LengthBytes(b, aadLen * 8 % size, cryptLen * 8 % size)
      ensures s[..] == GHash(hb, Blocks(Padded(a) + Padded(c) + b), ZeroBlock())
    {
      LengthBlockBytes(aadLen * 8 % size, cryptLen * 8 % size, b);
      AuthHashIs(hb, a, c, b);
    }
  }

  lemma AuthHashIs(h: Block, aad: seq<Byte>, crypt: seq<Byte>, lengths: Block)
    ensures AuthHash(h, aad, crypt, lengths) == GHash(h, Blocks(Padded(aad) + Padded(crypt) + lengths), ZeroBlock())
  {
  }

  function WrappedBits(len: nat, size: SizeBound): nat
  {
    len * 8 % size
  }

  lemma LengthBlockParts(m: nat, n: nat, size: SizeBound, b: Block)
    requires b == Be64(WrappedBits(m, size)) + Be64(WrappedBits(n, size))
    ensures b == LengthBlock(m * 8 % size, n * 8 % size)
  {
  }

  lemma WrapsAtBound(x: nat, size: SizeBound)
    ensures x % size == x <==> x < size
  {
  }

  /**
   The hashed length block is the standard's exactly when neither bit count reaches the size_t
   bound (8 * 2^29 = 2^32 on a 32-bit target).
   */
  lemma LengthBlockExact(m: nat, n: nat, size: SizeBound)
    requires m * 8 < 0x1_0000_0000_0000_0000 && n * 8 < 0x1_0000_0000_0000_0000
    ensures LengthBlock(m * 8 % size, n * 8 % size) == LengthBlock(m * 8, n * 8) <==> m * 8 < size && n * 8 < size
  {
    hide Be64;
    var m', n' := m * 8 % size, n * 8 % size;
    WrapsAtBound(m * 8, size);
    WrapsAtBound(n * 8, size);
    assert LengthBlock(m', n')[..8] == Be64(m') && LengthBlock(m', n')[8..] == Be64(n');
    assert LengthBlock(m * 8, n * 8)[..8] == Be64(m * 8) && LengthBlock(m * 8, n * 8)[8..] == Be64(n * 8);
    if LengthBlock(m', n') == LengthBlock(m * 8, n * 8) {
      Be64Injective(m', m * 8);
      Be64Injective(n', n * 8);
    }
  }

  /** J_0: step 2 of GCM-AE in section 7.1 of SP 800-38D. */
  ghost function PreCounter(h: Block, iv: seq<Byte>, ivBits: nat): Block {
    if |iv| == 12 then iv + [0, 0, 0, 1]
    else GHash(h, Blocks(Padded(iv) + LengthBlock(0, ivBits)), ZeroBlock())
  }

  method PrepareJ0(iv: array<Byte>, ivLen: nat, h: array<Byte>, j0: array<Byte>, size: SizeBound)
    requires h.Length == j0.Length == 16 && j0 != h && j0 != iv && ivLen <= iv.Length
    modifies j0
    ensures j0[..] == PreCounter(h[..], iv[..ivLen], WrappedBits(ivLen, size))
    ensures ivLen == 12 ==> j0[..] == iv[..12] + [0, 0, 0, 1]
    ensures ivLen != 12 ==> forall b: Block | LengthBytes(b, 0, ivLen * 8 % size) ::
      j0[..] == GHash(h[..], Blocks(Padded(iv[..ivLen]) + b), ZeroBlock())
  {
    hide *;
    ghost var hb: Block, ivs := h[..], iv[..ivLen];
    if ivLen == 12 {
      forall k | 0 <= k < 12 { j0[k] := iv[k]; }
      forall k | 12 <= k < 16 { j0[k] := 0; }
      j0[15] := 1;
      assert j0[..] == ivs + [0, 0, 0, 1];
    } else {
      var lenBuf := new Byte[16];
      GhashStart(j0);
      assert h[..] == hb && iv[..ivLen] == ivs;
      Ghash(h, iv, ivLen, j0);
      ghost var j1 := j0[..];
      PutU64(lenBuf, 0, 0);
      ghost var first := lenBuf[0..8];
      PutU64(lenBuf, 8, WrappedBits(ivLen, size));
      assert lenBuf[..8] == first;
      assert lenBuf[..16] == lenBuf[..8] + lenBuf[8..16];
      assert j0[..] == j1 && h[..] == hb;
      assert |Padded(ivs)| % 16 == 0;
      LengthBlockOf(0, WrappedBits(ivLen, size), lenBuf[..16]);
      ghost var lengths: Block := lenBuf[..16];
      Ghash(h, lenBuf, 16, j0);
      GHashResume(hb, Padded(ivs), lengths, ZeroBlock());
      BlocksOfPadded(ivs);
    }
    assert h[..] == hb && iv[..ivLen] == ivs;
    PreCounterCases(hb, ivs, WrappedBits(ivLen, size));
    forall b: Block | LengthBytes(b, 0, ivLen * 8 % size)
      ensures b == LengthBlock(0, WrappedBits(ivLen, size))
    {
      LengthBlockBytes(0, ivLen * 8 % size, b);
      WrappedBitsIs(ivLen, size);
    }
  }

  lemma WrappedBitsIs(len: nat, size: SizeBound)
    ensures WrappedBits(len, size) == len * 8 % size
  {
  }

  lemma LengthBlockOf(m: nat, n: nat, b: Block)
    requires b == Be64(m) + Be64(n)
    ensures b == LengthBlock(m, n)
  {
  }

  lemma PreCounterCases(h: Block, iv: seq<Byte>, ivBits: nat)
    ensures |iv| == 12 ==> PreCounter(h, iv, ivBits) == iv + [0, 0, 0, 1]
    ensures |iv| != 12 ==>
      PreCounter(h, iv, ivBits) == GHash(h, Blocks(Padded(iv) + LengthBlock(0, ivBits)), ZeroBlock())
  {
    hide GHash, Blocks, Padded, LengthBlock, ZeroBlock;
  }

  method AesGcmGctr(aes: Cipher, j0: array<Byte>, plain: array<Byte>, plainLen: nat, crypt: array<Byte>)
    requires j0.Length == 16 && plainLen <= plain.Length && plainLen <= crypt.Length
    modifies crypt
    ensures crypt[..plainLen] == GctrInto(aes, IncBy(old(j0[..]), 1), old(plain[..plainLen]), crypt == plain)
    ensures crypt != plain ==> crypt[..plainLen] == Gctr(aes, IncBy(old(j0[..]), 1), old(plain[..plainLen]))
    ensures crypt[plainLen..] == old(crypt[plainLen..])
  {
    hide *;
    ghost var j: Block, text := j0[..], plain[..plainLen];
    GctrApart(aes, IncBy(j, 1), text);
    if plainLen == 0 {
      GctrOfNothing(aes, IncBy(j, 1), Lost(0, crypt == plain));
      GctrIntoIs(aes, IncBy(j, 1), text, crypt == plain);
      return;
    }
    var j0inc := new Byte[16];
    forall k | 0 <= k < 16 { j0inc[k] := j0[k]; }
    assert j0inc[..] == j;
    Inc32(j0inc);
    assert plain[..plainLen] == text;
    AesGctr(aes, j0inc, plain, plainLen, crypt);
  }

  /** GCM-AE of section 7.1 of SP 800-38D, with the three bit lengths as the caller states them. */
  ghost function AuthEncrypt(aes: Cipher, iv: seq<Byte>, plain: seq<Byte>, aad: seq<Byte>,
                             ivBits: nat, plainBits: nat, aadBits: nat): (seq<Byte>, seq<Byte>)
  {
    var h := aes(ZeroBlock());
    var j0 := PreCounter(h, iv, ivBits);
    var crypt := Gctr(aes, IncBy(j0, 1), plain);
    (crypt, Gctr(aes, j0, AuthHash(h, aad, crypt, LengthBlock(aadBits, plainBits))))
  }

  /** H = AES_K(0^128) and J_0. */
  method Setup(aes: Cipher, iv: array<Byte>, ivLen: nat, h: array<Byte>, j0: array<Byte>, size: SizeBound)
    requires h.Length == j0.Length == 16 && j0 != h && j0 != iv && h != iv && ivLen <= iv.Length
    modifies h, j0
    ensures h[..] == aes(ZeroBlock())
    ensures j0[..] == PreCounter(aes(ZeroBlock()), iv[..ivLen], WrappedBits(ivLen, size))
  {
    hide *;
    ghost var ivs := iv[..ivLen];
    GhashStart(h);
    AesEncrypt(aes, h, h, 0);
    assert h[..] == h[0..16];
    assert iv[..ivLen] == ivs;
    ghost var hb := h[..];
    PrepareJ0(iv, ivLen, h, j0, size);
    assert h[..] == hb && iv[..ivLen] == ivs;
  }

  /** The tag: GCTR with J_0 over the hash of the associated data and the ciphertext. */
  method Tag(aes: Cipher, h: array<Byte>, j0: array<Byte>, aad: array<Byte>, aadLen: nat,
             crypt: array<Byte>, cryptLen: nat, tag: array<Byte>, size: SizeBound)
    requires h.Length == j0.Length == tag.Length == 16
    requires aadLen <= aad.Length && cryptLen <= crypt.Length
    modifies tag
    ensures tag[..] == Gctr(aes, old(j0[..]), AuthHash(old(h[..]), old(aad[..aadLen]), old(crypt[..cryptLen]),
                                                       LengthBlock(aadLen * 8 % size, cryptLen * 8 % size)))
  {
    hide *;
    ghost var hb: Block, jb: Block, a, c := h[..], j0[..], aad[..aadLen], crypt[..cryptLen];
    var s := new Byte[16];
    assert h[..] == hb && aad[..aadLen] == a && crypt[..cryptLen] == c;
    AesGcmGhash(h, aad, aadLen, crypt, cryptLen, s, size);
    assert j0[..] == jb;
    ghost var sb := s[..];
    assert s[..16] == sb;
    AesGctr(aes, j0, s, 16, tag);
    assert tag[..16] == tag[..];
  }

  /** What aes_gcm_gctr leaves: GctrInto from the counter block after J_0. */
  ghost function CryptInto(aes: Cipher, iv: seq<Byte>, plain: seq<Byte>, ivBits: nat, inPlace: bool): (c: seq<Byte>)
    ensures |c| == |plain|
  {
    GctrInto(aes, IncBy(PreCounter(aes(ZeroBlock()), iv, ivBits), 1), plain, inPlace)
  }

  /** The tag for whatever ciphertext and associated data the buffers hold by then. */
  ghost function TagOver(aes: Cipher, iv: seq<Byte>, crypt: seq<Byte>, aad: seq<Byte>,
                         ivBits: nat, cryptBits: nat, aadBits: nat): seq<Byte>
  {
    var h := aes(ZeroBlock());
    Gctr(aes, PreCounter(h, iv, ivBits), AuthHash(h, aad, crypt, LengthBlock(aadBits, cryptBits)))
  }

  /** The body of aes_gcm_ae once the key schedule exists. */
  method AesGcmAeWith(aes: Cipher, iv: array<Byte>, ivLen: nat, plain: array<Byte>, plainLen: nat,
                      aad: array<Byte>, aadLen: nat, crypt: array<Byte>, tag: array<Byte>, size: SizeBound)
    requires ivLen <= iv.Length && plainLen <= plain.Length && aadLen <= aad.Length && plainLen <= crypt.Length
    requires tag.Length == 16
    modifies crypt, tag
    ensures
      var c := CryptInto(aes, old(iv[..ivLen]), old(plain[..plainLen]), WrappedBits(ivLen, size), crypt == plain);
      var buffer := c + old(crypt[plainLen..]);
      var seen := if aad == crypt then buffer[..aadLen] else old(aad[..aadLen]);
      && tag[..] == TagOver(aes, old(iv[..ivLen]), c, seen, WrappedBits(ivLen, size), WrappedBits(plainLen, size),
                            WrappedBits(aadLen, size))
      && (tag != crypt ==> crypt[..] == buffer)
  {
    hide *;
    ghost var ivs, ps, as', rest := iv[..ivLen], plain[..plainLen], aad[..aadLen], crypt[plainLen..];
    var h, j0 := new Byte[16], new Byte[16];
    Setup(aes, iv, ivLen, h, j0, size);
    ghost var hb: Block, jb: Block := h[..], j0[..];
    assert iv[..ivLen] == ivs && plain[..plainLen] == ps && aad[..aadLen] == as' && crypt[plainLen..] == rest;
    AesGcmGctr(aes, j0, plain, plainLen, crypt);
    ghost var c, buffer := crypt[..plainLen], crypt[..];
    assert buffer == c + rest;
    assert h[..] == hb && j0[..] == jb;
    ghost var seen := if aad == crypt then buffer[..aadLen] else as';
    assert aad[..aadLen] == seen;
    Tag(aes, h, j0, aad, aadLen, crypt, plainLen, tag, size);
    assert tag != crypt ==> crypt[..] == buffer;
    TagOverParts(aes, ivs, ps, c, seen, ivLen, plainLen, aadLen, size, jb, crypt == plain);
  }

  lemma TagOverParts(aes: Cipher, iv: seq<Byte>, plain: seq<Byte>, crypt: seq<Byte>, aad: seq<Byte>,
                     ivLen: nat, plainLen: nat, aadLen: nat, size: SizeBound, j0: Block, inPlace: bool)
    requires j0 == PreCounter(aes(ZeroBlock()), iv, WrappedBits(ivLen, size))
    requires crypt == GctrInto(aes, IncBy(j0, 1), plain, inPlace)
    ensures crypt == CryptInto(aes, iv, plain, WrappedBits(ivLen, size), inPlace)
    ensures
      Gctr(aes, j0, AuthHash(aes(ZeroBlock()), aad, crypt, LengthBlock(aadLen * 8 % size, plainLen * 8 % size)))
      == TagOver(aes, iv, crypt, aad, WrappedBits(ivLen, size), WrappedBits(plainLen, size),
                 WrappedBits(aadLen, size))
  {
  }

  /** Over buffers that are not the output's, the two results together are GCM-AE. */
  lemma AuthEncryptApart(aes: Cipher, iv: seq<Byte>, plain: seq<Byte>, aad: seq<Byte>,
                         ivBits: nat, plainBits: nat, aadBits: nat)
    ensures
      var c := CryptInto(aes, iv, plain, ivBits, false);
      AuthEncrypt(aes, iv, plain, aad, ivBits, plainBits, aadBits)
      == (c, TagOver(aes, iv, c, aad, ivBits, plainBits, aadBits))
  {
    hide Gctr, GctrInto, AuthHash, PreCounter, IncBy, LengthBlock, ZeroBlock;
    GctrApart(aes, IncBy(PreCounter(aes(ZeroBlock()), iv, ivBits), 1), plain);
  }

  /**
   aes is None when aes_encrypt_init returns NULL. Any of the buffers may be one and the same: the first group of
   promises is for every call, the last for calls that keep the text and the associated data out of the output.
   */
  method AesGcmAe(aes: Option<Cipher>, iv: array<Byte>, ivLen: nat, plain: array<Byte>, plainLen: nat,
                  aad: array<Byte>, aadLen: nat, crypt: array<Byte>, tag: array<Byte>, size: SizeBound)
    returns (ret: int)
    requires ivLen <= iv.Length && plainLen <= plain.Length && aadLen <= aad.Length && plainLen <= crypt.Length
    requires tag.Length == 16
    modifies crypt, tag
    ensures ret == if aes == None then -1 else 0
    ensures aes == None ==> crypt[..] == old(crypt[..]) && tag[..] == old(tag[..])
    ensures aes.Some? ==>
      var c := CryptInto(aes.value, old(iv[..ivLen]), old(plain[..plainLen]), WrappedBits(ivLen, size), crypt == plain);
      var buffer := c + old(crypt[plainLen..]);
      var seen := if aad == crypt then buffer[..aadLen] else old(aad[..aadLen]);
      && tag[..] == TagOver(aes.value, old(iv[..ivLen]), c, seen, WrappedBits(ivLen, size),
                            WrappedBits(plainLen, size), WrappedBits(aadLen, size))
      && (tag != crypt ==> crypt[..] == buffer)
    ensures aes.Some? && crypt != plain && crypt != aad && crypt != tag ==>
      && crypt[plainLen..] == old(crypt[plainLen..])
      && (crypt[..plainLen], tag[..])
         == AuthEncrypt(aes.value, old(iv[..ivLen]), old(plain[..plainLen]), old(aad[..aadLen]),
                        WrappedBits(ivLen, size), WrappedBits(plainLen, size), WrappedBits(aadLen, size))
  {
    hide *;
    if aes == None {
      return -1;
    }
    ghost var ivs, ps, as', rest := iv[..ivLen], plain[..plainLen], aad[..aadLen], crypt[plainLen..];
    ghost var c := CryptInto(aes.value, ivs, ps, WrappedBits(ivLen, size), crypt == plain);
    assert (c + rest)[..plainLen] == c && (c + rest)[plainLen..] == rest;
    AesGcmAeWith(aes.value, iv, ivLen, plain, plainLen, aad, aadLen, crypt, tag, size);
    AuthEncryptApart(aes.value, ivs, ps, as', WrappedBits(ivLen, size), WrappedBits(plainLen, size),
                     WrappedBits(aadLen, size));
    return 0;
  }

  /**
   What a receiver with the key relies on: running the counter mode again over the ciphertext gives
   back the text, whatever its length, and the tag is the hash of that ciphertext under J_0.
   */
  lemma AuthEncryptDecrypts(aes: Cipher, iv: seq<Byte>, plain: seq<Byte>, aad: seq<Byte>,
                            ivBits: nat, plainBits: nat, aadBits: nat)
    ensures
      var (crypt, tag) := AuthEncrypt(aes, iv, plain, aad, ivBits, plainBits, aadBits);
      var h := aes(ZeroBlock());
      var j0 := PreCounter(h, iv, ivBits);
      && |crypt| == |plain| && |tag| == 16
      && Gctr(aes, IncBy(j0, 1), crypt) == plain
      && Gctr(aes, j0, tag) == AuthHash(h, aad, crypt, LengthBlock(aadBits, plainBits))
  {
    hide Gctr, PreCounter, AuthHash, IncBy, LengthBlock;
    var h := aes(ZeroBlock());
    var j0 := PreCounter(h, iv, ivBits);
    var crypt := Gctr(aes, IncBy(j0, 1), plain);
    GctrTwice(aes, IncBy(j0, 1), plain);
    GctrTwice(aes, j0, AuthHash(h, aad, crypt, LengthBlock(aadBits, plainBits)));
  }

  /**
   Counter blocks of one message never repeat, and none of them is the tag's, up to the standard's
   limit of 2^32 - 2 blocks of text.
   */
  lemma MessageCountersDistinct(j0: Block, j: nat, k: nat)
    requires j < k < 0xFFFF_FFFF
    ensures IncBy(IncBy(j0, 1), j) != IncBy(IncBy(j0, 1), k) && IncBy(IncBy(j0, 1), j) != j0
    ensures IncBy(IncBy(j0, 1), k) != j0
  {
    hide IncBy;
    IncByTwice(j0, 1, j);
    IncByTwice(j0, 1, k);
    IncByZero(j0);
    CountersDistinct(j0, 1 + j, 1 + k);
    CountersDistinct(j0, 0, 1 + j);
    CountersDistinct(j0, 0, 1 + k);
  }
}
