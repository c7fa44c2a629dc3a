/** The encoding forms: UTF-8 by section 4 of RFC 3629, UTF-16 by section 2 of RFC 2781, and code points. */
module Utf {

  /** A Unicode scalar value: a code point that is not a surrogate. */
  predicate Scalar(x: bv32) {
    x < 0x110000 && (x < 0xD800 || 0xE000 <= x)
  }

  function Byte(x: bv32): bv8 {
    (x & 0xFF) as bv8
  }

  function Wide(b: bv8): bv32 {
    b as bv32
  }

  // ----- UTF-8

  predicate Tail(b: bv8) {
    0x80 <= b <= 0xBF
  }

  /** UTF8-char of the syntax in section 4 of RFC 3629. */
  predicate WellFormedChar(s: seq<bv8>) {
    || (|s| == 1 && s[0] <= 0x7F)
    || (|s| == 2 && 0xC2 <= s[0] <= 0xDF && Tail(s[1]))
    || (|s| == 3 && Tail(s[2]) &&
        (|| (s[0] == 0xE0 && 0xA0 <= s[1] <= 0xBF)
         || (0xE1 <= s[0] <= 0xEC && Tail(s[1]))
         || (s[0] == 0xED && 0x80 <= s[1] <= 0x9F)
         || (0xEE <= s[0] <= 0xEF && Tail(s[1]))))
    || (|s| == 4 && Tail(s[2]) && Tail(s[3]) &&
        (|| (s[0] == 0xF0 && 0x90 <= s[1] <= 0xBF)
         || (0xF1 <= s[0] <= 0xF3 && Tail(s[1]))
         || (s[0] == 0xF4 && 0x80 <= s[1] <= 0x8F)))
  }

  function Two(a: bv8, b: bv8): bv32 {
    ((Wide(a) & 0x1F) << 6) | (Wide(b) & 0x3F)
  }

  function Three(a: bv8, b: bv8, c: bv8): bv32 {
    ((Wide(a) & 0x0F) << 12) | ((Wide(b) & 0x3F) << 6) | (Wide(c) & 0x3F)
  }

  function Four(a: bv8, b: bv8, c: bv8, d: bv8): bv32 {
    ((Wide(a) & 0x07) << 18) | ((Wide(b) & 0x3F) << 12) | ((Wide(c) & 0x3F) << 6) | (Wide(d) & 0x3F)
  }

  /** The code point of a character. */
  function CodeOf(s: seq<bv8>): bv32
    requires 1 <= |s| <= 4
  {
    if |s| == 1 then Wide(s[0])
    else if |s| == 2 then Two(s[0], s[1])
    else if |s| == 3 then Three(s[0], s[1], s[2])
    else Four(s[0], s[1], s[2], s[3])
  }

  // the bytes of the forms of two, three and four bytes
  function Lead2(x: bv32): bv8 { Byte(0xC0 | (x >> 6)) }
  function Lead3(x: bv32): bv8 { Byte(0xE0 | (x >> 12)) }
  function Lead4(x: bv32): bv8 { Byte(0xF0 | (x >> 18)) }
  function Tail18(x: bv32): bv8 { Byte(0x80 | ((x & 0x03F000) >> 12)) }
  function Tail12(x: bv32): bv8 { Byte(0x80 | ((x & 0x0FC0) >> 6)) }
  function Tail6(x: bv32): bv8 { Byte(0x80 | (x & 0x3F)) }

  /** The bytes that ucs4_to_utf8 writes for x. */
  function Encode8(x: bv32): (s: seq<bv8>)
    ensures 1 <= |s| <= 4
  {
    if x < 0x80 then [Byte(x)]
    else if x < 0x800 then [Lead2(x), Tail6(x)]
    else if x < 0x10000 then [Lead3(x), Tail12(x), Tail6(x)]
    else [Lead4(x), Tail18(x), Tail12(x), Tail6(x)]
  }

  lemma EncodeTwo(x: bv32)
    requires 0x80 <= x < 0x800
    ensures Two(Lead2(x), Tail6(x)) == x && 0xC2 <= Lead2(x) <= 0xDF && Tail(Tail6(x))
  {
  }

  lemma EncodeThree(x: bv32)
    requires 0x800 <= x < 0x10000
    ensures Three(Lead3(x), Tail12(x), Tail6(x)) == x && Tail(Tail12(x)) && Tail(Tail6(x))
    ensures 0xE0 <= Lead3(x) <= 0xEF
    ensures Lead3(x) == 0xE0 ==> 0xA0 <= Tail12(x)
    ensures Lead3(x) == 0xED ==> (Tail12(x) <= 0x9F <==> x < 0xD800 || 0xE000 <= x)
  {
  }

  lemma EncodeFour(x: bv32)
    requires 0x10000 <= x < 0x110000
    ensures Four(Lead4(x), Tail18(x), Tail12(x), Tail6(x)) == x
    ensures Tail(Tail18(x)) && Tail(Tail12(x)) && Tail(Tail6(x)) && 0xF0 <= Lead4(x) <= 0xF4
    ensures Lead4(x) == 0xF0 ==> 0x90 <= Tail18(x)
    ensures Lead4(x) == 0xF4 ==> Tail18(x) <= 0x8F
  {
  }

  lemma DecodeTwo(a: bv8, b: bv8)
    requires 0xC2 <= a <= 0xDF && Tail(b)
    ensures 0x80 <= Two(a, b) < 0x800 && Lead2(Two(a, b)) == a && Tail6(Two(a, b)) == b
  {
  }

  lemma DecodeThree(a: bv8, b: bv8, c: bv8)
    requires 0xE0 <= a <= 0xEF && Tail(b) && Tail(c) && (a == 0xE0 ==> 0xA0 <= b)
    ensures Lead3(Three(a, b, c)) == a && Tail12(Three(a, b, c)) == b && Tail6(Three(a, b, c)) == c
  {
  }

  lemma DecodeThreeRange(a: bv8, b: bv8, c: bv8)
    requires 0xE0 <= a <= 0xEF && Tail(b) && Tail(c) && (a == 0xE0 ==> 0xA0 <= b)
    ensures 0x800 <= Three(a, b, c) < 0x10000
  {
  }

  lemma DecodeSurrogate(a: bv8, b: bv8, c: bv8)
    requires 0xE0 <= a <= 0xEF && Tail(b) && Tail(c)
    ensures a == 0xED && b > 0x9F <==> 0xD800 <= Three(a, b, c) < 0xE000
  {
  }

  lemma DecodeFour(a: bv8, b: bv8, c: bv8, d: bv8)
    requires 0xF0 <= a <= 0xF4 && Tail(b) && Tail(c) && Tail(d)
    requires (a == 0xF0 ==> 0x90 <= b) && (a == 0xF4 ==> b <= 0x8F)
    ensures
      var x := Four(a, b, c, d);
      0x10000 <= x < 0x110000 && Lead4(x) == a && Tail18(x) == b && Tail12(x) == c && Tail6(x) == d
  {
  }

  /** The payload bits of the bytes, as digits to the base 64, section 3 of RFC 3629. */
  lemma CodeDigits(a: bv8, b: bv8, c: bv8, d: bv8)
    requires Tail(b)
    ensures CodeOf([a]) == Wide(a)
    ensures 0xC2 <= a <= 0xDF ==> CodeOf([a, b]) == (Wide(a) - 0xC0) * 64 + (Wide(b) - 0x80)
    ensures 0xE0 <= a <= 0xEF && Tail(c) ==>
      CodeOf([a, b, c]) == ((Wide(a) - 0xE0) * 64 + (Wide(b) - 0x80)) * 64 + (Wide(c) - 0x80)
    ensures 0xF0 <= a <= 0xF4 && Tail(c) && Tail(d) ==>
      CodeOf([a, b, c, d])
      == (((Wide(a) - 0xF0) * 64 + (Wide(b) - 0x80)) * 64 + (Wide(c) - 0x80)) * 64 + (Wide(d) - 0x80)
  {
    hide Two, Three, Four, Wide;
    DigitsTwo(a, b);
    DigitsThree(a, b, c);
    DigitsFour(a, b, c, d);
  }

  lemma DigitsTwo(a: bv8, b: bv8)
    requires Tail(b)
    ensures 0xC2 <= a <= 0xDF ==> Two(a, b) == (Wide(a) - 0xC0) * 64 + (Wide(b) - 0x80)
  {
  }

  lemma DigitsThree(a: bv8, b: bv8, c: bv8)
    requires Tail(b)
    ensures 0xE0 <= a <= 0xEF && Tail(c) ==>
      Three(a, b, c) == ((Wide(a) - 0xE0) * 64 + (Wide(b) - 0x80)) * 64 + (Wide(c) - 0x80)
  {
  }

  lemma DigitsFour(a: bv8, b: bv8, c: bv8, d: bv8)
    requires Tail(b)
    ensures 0xF0 <= a <= 0xF4 && Tail(c) && Tail(d) ==>
      Four(a, b, c, d)
      == (((Wide(a) - 0xF0) * 64 + (Wide(b) - 0x80)) * 64 + (Wide(c) - 0x80)) * 64 + (Wide(d) - 0x80)
  {
  }

  /** Encoding a scalar value gives a well-formed character that decodes to it. */
  lemma EncodeWellFormed(x: bv32)
    requires Scalar(x)
    ensures WellFormedChar(Encode8(x)) && CodeOf(Encode8(x)) == x
  {
    hide Lead2, Lead3, Lead4, Tail18, Tail12, Tail6, Two, Three, Four;
    if x < 0x80 {
      OneByte(x);
    } else if x < 0x800 {
      EncodeTwo(x);
    } else if x < 0x10000 {
      EncodeThree(x);
    } else {
      EncodeFour(x);
    }
  }

  lemma OneByte(x: bv32)
    requires x < 0x80
    ensures Wide(Byte(x)) == x && Byte(x) <= 0x7F
  {
  }

  lemma NarrowByte(b: bv8)
    ensures Byte(Wide(b)) == b && (b <= 0x7F <==> Wide(b) < 0x80)
  {
  }

  /** A well-formed character is the encoding of a scalar value: the shortest form, and no surrogate. */
  lemma DecodeWellFormed(s: seq<bv8>)
    requires WellFormedChar(s)
    ensures Scalar(CodeOf(s)) && Encode8(CodeOf(s)) == s
  {
    hide Lead2, Lead3, Lead4, Tail18, Tail12, Tail6, Two, Three, Four, Byte, Wide;
    if |s| == 1 {
      NarrowByte(s[0]);
    } else if |s| == 2 {
      DecodeTwo(s[0], s[1]);
    } else if |s| == 3 {
      DecodeThree(s[0], s[1], s[2]);
      DecodeThreeRange(s[0], s[1], s[2]);
      DecodeSurrogate(s[0], s[1], s[2]);
    } else {
      DecodeFour(s[0], s[1], s[2], s[3]);
    }
  }

  // ----- UTF-16

  predicate HighSurrogate(u: bv16) {
    0xD800 <= u < 0xDC00
  }

  predicate LowSurrogate(u: bv16) {
    0xDC00 <= u < 0xE000
  }

  /** The code point of a surrogate pair, section 2.2 of RFC 2781. */
  function PairCode(h: bv16, l: bv16): bv32 {
    ((((h as bv32) & 0x3FF) << 10) | ((l as bv32) & 0x3FF)) + 0x10000
  }

  /** The units of a pair as digits to the base 1024. */
  lemma PairDigits(h: bv16, l: bv16)
    requires HighSurrogate(h) && LowSurrogate(l)
    ensures PairCode(h, l) == 0x10000 + ((h as bv32) - 0xD800) * 1024 + ((l as bv32) - 0xDC00)
  {
  }

  /** Beyond the code points of one 16-bit unit. */
  predicate Supplementary(x: bv32) {
    x >= 0x10000
  }

  /** Encoding UTF-16, section 2.1 of RFC 2781. */
  function Encode16(x: bv32): (s: seq<bv16>)
    ensures 1 <= |s| <= 2
  {
    if Supplementary(x) then [High(x), Low(x)] else [Unit(x)]
  }

  function Unit(x: bv32): bv16 { (x & 0xFFFF) as bv16 }
  function High(x: bv32): bv16 { Unit(0xD800 | ((x - 0x10000) >> 10)) }
  function Low(x: bv32): bv16 { Unit(0xDC00 | ((x - 0x10000) & 0x3FF)) }

  lemma EncodePair(x: bv32)
    requires 0x10000 <= x < 0x110000
    ensures HighSurrogate(High(x)) && LowSurrogate(Low(x)) && PairCode(High(x), Low(x)) == x
  {
    OffsetPair(x - 0x10000);
    OffsetRange(x - 0x10000);
  }

  lemma OffsetPair(y: bv32)
    requires y < 0x100000
    ensures (((Unit(0xD800 | (y >> 10)) as bv32) & 0x3FF) << 10) | ((Unit(0xDC00 | (y & 0x3FF)) as bv32) & 0x3FF) == y
  {
  }

  lemma OffsetRange(y: bv32)
    requires y < 0x100000
    ensures HighSurrogate(Unit(0xD800 | (y >> 10))) && LowSurrogate(Unit(0xDC00 | (y & 0x3FF)))
  {
  }

  lemma DecodePair(h: bv16, l: bv16)
    requires HighSurrogate(h) && LowSurrogate(l)
    ensures 0x10000 <= PairCode(h, l) < 0x110000 && High(PairCode(h, l)) == h && Low(PairCode(h, l)) == l
  {
  }

  lemma SingleUnit(x: bv32)
    requires x < 0x10000
    ensures (Unit(x) as bv32) == x
  {
  }

  lemma UnitOf(u: bv16)
    ensures Unit(u as bv32) == u && (u as bv32) < 0x10000
  {
  }
}
