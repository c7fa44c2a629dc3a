/** What the converters of locale.cpp promise, and where a small Maxcode or a large one breaks it. */
module ConverterLaws {
  import opened Codecs
  import opened Utf
  import opened Converters

  // ----- well-formed UTF-8

  /** UTF8-octets of the syntax in section 4 of RFC 3629: any number of characters. */
  ghost predicate Octets(s: seq<bv8>)
    decreases |s|
  {
    s == [] || exists k :: 1 <= k <= 4 && k <= |s| && WellFormedChar(s[..k]) && Octets(s[k..])
  }

  ghost predicate Scalars(xs: seq<bv32>) {
    forall i | 0 <= i < |xs| :: Scalar(xs[i])
  }

  function EncodeAll(xs: seq<bv32>): seq<bv8> {
    if xs == [] then [] else Encode8(xs[0]) + EncodeAll(xs[1..])
  }

  lemma {:induction false} OctetsDecode(s: seq<bv8>) returns (xs: seq<bv32>)
    requires Octets(s)
    ensures Scalars(xs) && s == EncodeAll(xs) && |xs| <= |s|
    decreases |s|
  {
    hide Encode8, CodeOf, WellFormedChar, Scalar;
    xs := [];
    if s != [] {
      var k :| 1 <= k <= 4 && k <= |s| && WellFormedChar(s[..k]) && Octets(s[k..]);
      DecodeWellFormed(s[..k]);
      var rest := OctetsDecode(s[k..]);
      xs := [CodeOf(s[..k])] + rest;
      assert xs[1..] == rest;
      assert s == s[..k] + s[k..];
    }
  }

  lemma {:induction false} EncodeOctets(xs: seq<bv32>)
    requires Scalars(xs)
    ensures Octets(EncodeAll(xs))
  {
    hide Encode8, CodeOf, WellFormedChar, Scalar;
    if xs != [] {
      EncodeWellFormed(xs[0]);
      EncodeOctets(xs[1..]);
      var s, k := EncodeAll(xs), |Encode8(xs[0])|;
      assert s[..k] == Encode8(xs[0]) && s[k..] == EncodeAll(xs[1..]);
    }
  }

  lemma {:induction false} CodecEncodes(xs: seq<bv32>, max: bv32)
    ensures InAll(Utf8ToUcs4(max), xs) == EncodeAll(xs) && OutAll(Utf8ToUcs4(max), xs) == xs
  {
    hide Encode8;
    if xs != [] {
      CodecEncodes(xs[1..], max);
    }
  }

  lemma ScalarsValid(xs: seq<bv32>)
    ensures AllValid(Utf8ToUcs4(0x10FFFF), xs) <==> Scalars(xs)
  {
    hide Scalar, Above;
    forall x: bv32
      ensures Scalar(x) ==> !Above(x, 0x10FFFF)
    {
      ScalarBound(x);
    }
  }

  lemma ScalarBound(x: bv32)
    ensures Scalar(x) ==> !Above(x, 0x10FFFF)
  {
  }

  /** With the default Maxcode and enough room utf8_to_ucs4 accepts exactly the well-formed strings of RFC 3629. */
  lemma AcceptsUtf8(s: seq<bv8>, room: nat)
    requires room >= |s|
    ensures Convert(Utf8ToUcs4(0x10FFFF), s, room).result == Ok <==> Octets(s)
  {
    hide Convert, Faithful, Octets, Scalars;
    var c := Utf8ToUcs4(0x10FFFF);
    Utf8ToUcs4Faithful(0x10FFFF);
    Success(c, s, room);
    if xs :| AllValid(c, xs) && s == InAll(c, xs) && |OutAll(c, xs)| <= room {
      CodecEncodes(xs, 0x10FFFF);
      ScalarsValid(xs);
      EncodeOctets(xs);
    }
    if Octets(s) {
      var xs := OctetsDecode(s);
      CodecEncodes(xs, 0x10FFFF);
      ScalarsValid(xs);
    }
  }

  // ----- the converters undo each other

  lemma DecodeThenEncode(s: seq<bv8>, room: nat, larger: nat, max: bv32)
    requires larger >= Convert(Utf8ToUcs4(max), s, room).used
    ensures
      var o := Convert(Utf8ToUcs4(max), s, room);
      o.used <= |s| && Convert(Ucs4ToUtf8(max), o.out, larger) == Outcome(Ok, |o.out|, s[..o.used])
  {
    hide Convert, Faithful;
    Utf8ToUcs4Faithful(max);
    Ucs4ToUtf8Faithful(max);
    UcsInverse(max);
    RoundTrip(Utf8ToUcs4(max), Ucs4ToUtf8(max), s, room, larger);
  }

  lemma UcsInverse(max: bv32)
    ensures Inverse(Utf8ToUcs4(max), Ucs4ToUtf8(max))
    ensures max <= 0x10FFFF ==> Inverse(Ucs4ToUtf8(max), Utf8ToUcs4(max))
  {
    hide Encode8, Above, IsSurrogate, Scalar;
    forall x: bv32
      ensures InverseAt(Utf8ToUcs4(max), Ucs4ToUtf8(max), x)
      ensures max <= 0x10FFFF ==> InverseAt(Ucs4ToUtf8(max), Utf8ToUcs4(max), x)
    {
      NotSurrogate(x, max);
    }
  }

  lemma NotSurrogate(x: bv32, max: bv32)
    ensures Scalar(x) ==> !IsSurrogate(x)
    ensures max <= 0x10FFFF && !IsSurrogate(x) && !Above(x, max) ==> Scalar(x)
  {
  }

  /** Encoding and decoding again, for every Maxcode that Unicode allows. */
  lemma EncodeThenDecode(s: seq<bv32>, room: nat, larger: nat, max: bv32)
    requires max <= 0x10FFFF && larger >= Convert(Ucs4ToUtf8(max), s, room).used
    ensures
      var o := Convert(Ucs4ToUtf8(max), s, room);
      o.used <= |s| && Convert(Utf8ToUcs4(max), o.out, larger) == Outcome(Ok, |o.out|, s[..o.used])
  {
    hide Convert, Faithful;
    Utf8ToUcs4Faithful(max);
    Ucs4ToUtf8Faithful(max);
    UcsInverse(max);
    RoundTrip(Ucs4ToUtf8(max), Utf8ToUcs4(max), s, room, larger);
  }

  lemma Utf16ThenUtf8(s: seq<bv8>, room: nat, larger: nat, max: bv32)
    requires larger >= Convert(Utf8ToUtf16(max), s, room).used
    ensures
      var o := Convert(Utf8ToUtf16(max), s, room);
      o.used <= |s| && Convert(Utf16ToUtf8(max), o.out, larger) == Outcome(Ok, |o.out|, s[..o.used])
  {
    hide Convert, Faithful;
    Utf8ToUtf16Faithful(max);
    Utf16ToUtf8Faithful(max);
    Utf16Inverse(max);
    RoundTrip(Utf8ToUtf16(max), Utf16ToUtf8(max), s, room, larger);
  }

  lemma Utf16Inverse(max: bv32)
    ensures Inverse(Utf8ToUtf16(max), Utf16ToUtf8(max))
    ensures (max < 0x80 || max >= 0xC3) ==> Inverse(Utf16ToUtf8(max), Utf8ToUtf16(max))
  {
    hide Encode8, Encode16, Above, Scalar, Wide;
    forall x: bv32
      ensures InverseAt(Utf8ToUtf16(max), Utf16ToUtf8(max), x)
      ensures (max < 0x80 || max >= 0xC3) ==> InverseAt(Utf16ToUtf8(max), Utf8ToUtf16(max), x)
    {
      LeadBelow(x, max);
    }
  }

  lemma Utf8ThenUtf16(s: seq<bv16>, room: nat, larger: nat, max: bv32)
    requires (max < 0x80 || max >= 0xC3) && larger >= Convert(Utf16ToUtf8(max), s, room).used
    ensures
      var o := Convert(Utf16ToUtf8(max), s, room);
      o.used <= |s| && Convert(Utf8ToUtf16(max), o.out, larger) == Outcome(Ok, |o.out|, s[..o.used])
  {
    hide Convert, Faithful;
    Utf8ToUtf16Faithful(max);
    Utf16ToUtf8Faithful(max);
    Utf16Inverse(max);
    RoundTrip(Utf16ToUtf8(max), Utf8ToUtf16(max), s, room, larger);
  }

  // ----- Maxcode

  lemma LeadBelow(x: bv32, max: bv32)
    ensures Scalar(x) && !Above(x, max) && (max < 0x80 || max >= 0xC3) ==> !Above(Wide(Encode8(x)[0]), max)
  {
  }

  /**
   utf8_to_utf16 compares the lead byte with Maxcode, so it takes every code point up to Maxcode exactly when
   Maxcode is below 80 or at least C3 (hexadecimal).
   */
  lemma LeadByteTest(max: bv32)
    ensures (forall x :: Utf8ToUcs4(max).valid(x) ==> Utf8ToUtf16(max).valid(x)) <==> max < 0x80 || max >= 0xC3
  {
    if max < 0x80 || max >= 0xC3 {
      forall x: bv32
        ensures Utf8ToUcs4(max).valid(x) ==> Utf8ToUtf16(max).valid(x)
      {
        LeadBelow(x, max);
      }
    } else {
      SmallMax(max);
      var x: bv32 := if max == 0xC2 then 0xC0 else 0x80;
      assert Utf8ToUcs4(max).valid(x) && !Utf8ToUtf16(max).valid(x);
    }
  }

  lemma SmallMax(max: bv32)
    requires 0x80 <= max < 0xC3
    ensures
      var x: bv32 := if max == 0xC2 then 0xC0 else 0x80;
      Scalar(x) && !Above(x, max) && Above(Wide(Encode8(x)[0]), max)
  {
  }

  /** The bytes that ucs4_to_utf8 writes are a well-formed character for x exactly when x is a scalar value. */
  lemma EncodesScalars(x: bv32)
    ensures WellFormedChar(Encode8(x)) && CodeOf(Encode8(x)) == x <==> Scalar(x)
  {
    hide Encode8, CodeOf, WellFormedChar, Scalar;
    if Scalar(x) {
      EncodeWellFormed(x);
    }
    if WellFormedChar(Encode8(x)) {
      DecodeWellFormed(Encode8(x));
    }
  }
}
