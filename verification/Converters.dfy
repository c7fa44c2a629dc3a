/** The four converters of locale.cpp between UTF-8, UTF-16 in 16-bit units, and UCS-4. */
module Converters {
  import opened Codecs
  import opened Utf
  import opened Utf8Input

  // ----- what each does at the head of its input

  predicate IsSurrogate(x: bv32) {
    x & 0xFFFFF800 == 0xD800
  }

  predicate Above(x: bv32, max: bv32) {
    x > max
  }

  predicate SecondOfPair(u: bv16) {
    u & 0xFC00 == 0xDC00
  }

  /** A unit that stands for itself. */
  predicate Single(u: bv32) {
    u < 0xD800 || 0xE000 <= u
  }

  predicate FirstOfPair(u: bv32) {
    0xD800 <= u < 0xDC00
  }

  /** ucs4_to_utf8 */
  function Ucs4Out(s: seq<bv32>, max: bv32): Step<bv8> {
    if s == [] then Short
    else if IsSurrogate(s[0]) || Above(s[0], max) then Bad
    else Emit(Encode8(s[0]), 1)
  }

  /** utf8_to_ucs4 */
  function Ucs4In(s: seq<bv8>, max: bv32): Step<bv32> {
    if s == [] then Short
    else
      match Sequence(s)
      case Cut => Short
      case Malformed => Bad
      case Char(x, k) => if Above(x, max) then Bad else Emit([x], k)
  }

  /** The surrogates that utf8_to_utf16 makes straight from the bytes of a character of four. */
  function FirstUnit(c1: bv8, c2: bv8, c3: bv8): bv16 {
    Unit(0xD800 | (((((Wide(c1) & 0x07) << 2) | ((Wide(c2) & 0x30) >> 4)) - 1) << 6)
             | ((Wide(c2) & 0x0F) << 2) | ((Wide(c3) & 0x30) >> 4))
  }

  function SecondUnit(c3: bv8, c4: bv8): bv16 {
    Unit(0xDC00 | ((Wide(c3) & 0x0F) << 6) | (Wide(c4) & 0x3F))
  }

  /** utf8_to_utf16 */
  function Utf16In(s: seq<bv8>, max: bv32): Step<bv16> {
    if s == [] then Short
    else if Above(Wide(s[0]), max) then Bad
    else
      match Sequence(s)
      case Cut => Short
      case Malformed => Bad
      case Char(x, k) =>
        if k < 4 then
          if Above(x, max) then Bad else Emit([Unit(x)], k)
        else if Above(x, max) then Late(2)
        else Emit([FirstUnit(s[0], s[1], s[2]), SecondUnit(s[2], s[3])], k)
  }

  function Code(u: bv16): bv32 {
    u as bv32
  }

  /** The code point of a surrogate pair as utf16_to_utf8 adds it up. */
  function PairSum(h: bv16, l: bv16): bv32 {
    ((((Code(h) & 0x03C0) >> 6) + 1) << 16) + ((Code(h) & 0x003F) << 10) + (Code(l) & 0x03FF)
  }

  /** The bytes that it makes straight from the units of a pair. */
  function PairBytes(h: bv16, l: bv16): seq<bv8> {
    var z := ((Code(h) & 0x03C0) >> 6) + 1;
    [Byte(0xF0 | (z >> 2)), Byte(0x80 | ((z & 0x03) << 4) | ((Code(h) & 0x003C) >> 2)),
     Byte(0x80 | ((Code(h) & 0x0003) << 4) | ((Code(l) & 0x03C0) >> 6)), Byte(0x80 | (Code(l) & 0x003F))]
  }

  /** utf16_to_utf8 */
  function Utf16Out(s: seq<bv16>, max: bv32): Step<bv8> {
    if s == [] then Short
    else
      var wc1 := Code(s[0]);
      if Above(wc1, max) then Bad
      else if Single(wc1) then Emit(Encode8(wc1), 1)
      else if FirstOfPair(wc1) then
        if |s| < 2 then Short
        else if !SecondOfPair(s[1]) then Bad
        else if Above(PairSum(s[0], s[1]), max) then Late(4)
        else Emit(PairBytes(s[0], s[1]), 2)
      else Bad
  }

  function Ucs4ToUtf8(max: bv32): Codec<bv32, bv8> {
    Codec((s: seq<bv32>) => Ucs4Out(s, max), false, x => !IsSurrogate(x) && !Above(x, max), x => [x], x => Encode8(x))
  }

  function Utf8ToUcs4(max: bv32): Codec<bv8, bv32> {
    Codec((s: seq<bv8>) => Ucs4In(s, max), true, x => Scalar(x) && !Above(x, max), x => Encode8(x), x => [x])
  }

  /** A lead byte above max is refused, whatever the code point. */
  function Utf8ToUtf16(max: bv32): Codec<bv8, bv16> {
    Codec((s: seq<bv8>) => Utf16In(s, max), true,
          x => Scalar(x) && !Above(x, max) && !Above(Wide(Encode8(x)[0]), max), x => Encode8(x), x => Encode16(x))
  }

  function Utf16ToUtf8(max: bv32): Codec<bv16, bv8> {
    Codec((s: seq<bv16>) => Utf16Out(s, max), false, x => Scalar(x) && !Above(x, max), x => Encode16(x),
          x => Encode8(x))
  }

  // ----- each takes the encodings of its code points and nothing else

  lemma Ucs4ToUtf8Faithful(max: bv32)
    ensures Faithful(Ucs4ToUtf8(max))
  {
    hide Encode8, IsSurrogate, Above;
    var c := Ucs4ToUtf8(max);
    forall s | s != [] && c.step(s).Emit?
      ensures Known(c, s)
    {
      assert c.valid(s[0]) && c.inp(s[0]) <= s;
    }
    forall x, t | c.valid(x)
      ensures Takes(c, x, t)
    {
      assert ([x] + t)[0] == x;
    }
  }

  lemma Ucs4InFound(s: seq<bv8>, max: bv32) returns (x: bv32)
    requires s != [] && Ucs4In(s, max).Emit?
    ensures Scalar(x) && !Above(x, max) && Encode8(x) <= s && Ucs4In(s, max) == Emit([x], |Encode8(x)|)
  {
    hide Encode8, Scalar, Sequence, WellFormedChar, CodeOf, Above;
    SequenceFound(s);
    x := Sequence(s).code;
    DecodeWellFormed(s[..Sequence(s).used]);
  }

  lemma Ucs4InTakes(x: bv32, t: seq<bv8>, max: bv32)
    requires Scalar(x) && !Above(x, max)
    ensures Ucs4In(Encode8(x) + t, max) == Emit([x], |Encode8(x)|)
  {
    hide Encode8, Scalar, Sequence, WellFormedChar, CodeOf, Above;
    EncodeWellFormed(x);
    SequenceTakes(Encode8(x), t);
  }

  lemma Utf8ToUcs4Faithful(max: bv32)
    ensures Faithful(Utf8ToUcs4(max))
  {
    hide Encode8, Scalar, Ucs4In, Above;
    var c := Utf8ToUcs4(max);
    forall s | s != [] && c.step(s).Emit?
      ensures Known(c, s)
    {
      var x := Ucs4InFound(s, max);
      assert c.valid(x) && c.inp(x) <= s;
    }
    forall x, t | c.valid(x)
      ensures Takes(c, x, t)
    {
      Ucs4InTakes(x, t, max);
    }
  }

  /** The units made from the bytes are the surrogate pair of the code point. */
  lemma UnitsOf(s: seq<bv8>)
    requires |s| == 4 && WellFormedChar(s)
    ensures FirstUnit(s[0], s[1], s[2]) == High(CodeOf(s)) && SecondUnit(s[2], s[3]) == Low(CodeOf(s))
  {
    FirstUnitOf(s[0], s[1], s[2], s[3]);
    SecondUnitOf(s[0], s[1], s[2], s[3]);
  }

  lemma FirstUnitOf(a: bv8, b: bv8, c: bv8, d: bv8)
    requires 0xF0 <= a <= 0xF4 && Tail(b) && Tail(c) && Tail(d)
    requires (a == 0xF0 ==> 0x90 <= b) && (a == 0xF4 ==> b <= 0x8F)
    ensures FirstUnit(a, b, c) == High(Four(a, b, c, d))
  {
  }

  lemma SecondUnitOf(a: bv8, b: bv8, c: bv8, d: bv8)
    ensures SecondUnit(c, d) == Low(Four(a, b, c, d))
  {
  }

  lemma Utf16InFound(s: seq<bv8>, max: bv32) returns (x: bv32)
    requires s != [] && Utf16In(s, max).Emit?
    ensures Scalar(x) && !Above(x, max) && !Above(Wide(Encode8(x)[0]), max) && Encode8(x) <= s
    ensures Utf16In(s, max) == Emit(Encode16(x), |Encode8(x)|)
  {
    hide Encode8, Scalar, Sequence, WellFormedChar, CodeOf, Unit, High, Low, Wide, Above, Supplementary,
         FirstUnit, SecondUnit;
    SequenceFound(s);
    x := Sequence(s).code;
    DecodeWellFormed(s[..Sequence(s).used]);
    FourBytes(x);
    if Sequence(s).used == 4 {
      UnitsOf(s[..4]);
    }
  }

  lemma Utf16InTakes(x: bv32, t: seq<bv8>, max: bv32)
    requires Scalar(x) && !Above(x, max) && !Above(Wide(Encode8(x)[0]), max)
    ensures Utf16In(Encode8(x) + t, max) == Emit(Encode16(x), |Encode8(x)|)
  {
    hide Encode8, Scalar, Sequence, WellFormedChar, CodeOf, Unit, High, Low, Wide, Above, Supplementary,
         FirstUnit, SecondUnit;
    EncodeWellFormed(x);
    SequenceTakes(Encode8(x), t);
    FourBytes(x);
    var b := Encode8(x);
    assert forall i | 0 <= i < |b| :: (b + t)[i] == b[i];
    if |b| == 4 {
      UnitsOf(b);
    }
  }

  lemma Utf8ToUtf16Faithful(max: bv32)
    ensures Faithful(Utf8ToUtf16(max))
  {
    hide Encode8, Encode16, Scalar, Utf16In, Wide, Above;
    var c := Utf8ToUtf16(max);
    forall s | s != [] && c.step(s).Emit?
      ensures Known(c, s)
    {
      var x := Utf16InFound(s, max);
      assert c.valid(x) && c.inp(x) <= s;
    }
    forall x, t | c.valid(x)
      ensures Takes(c, x, t)
    {
      Utf16InTakes(x, t, max);
    }
  }

  lemma FourBytes(x: bv32)
    ensures |Encode8(x)| == 4 <==> Supplementary(x)
  {
  }

  lemma Utf16OutFound(s: seq<bv16>, max: bv32) returns (x: bv32)
    requires s != [] && Utf16Out(s, max).Emit?
    ensures Scalar(x) && !Above(x, max) && Encode16(x) <= s && Utf16Out(s, max) == Emit(Encode8(x), |Encode16(x)|)
  {
    hide Encode8, PairCode, Unit, High, Low, Above, SecondOfPair, Single, FirstOfPair, Code, Scalar, Supplementary,
         PairSum, PairBytes;
    if Single(Code(s[0])) {
      SingleFound(s[0]);
      x := Code(s[0]);
    } else {
      PairFound(s[0], s[1]);
      x := PairCode(s[0], s[1]);
    }
  }

  lemma SingleFound(u: bv16)
    requires Single(Code(u))
    ensures Scalar(Code(u)) && Encode16(Code(u)) == [u]
  {
    UnitOf(u);
  }

  lemma PairFound(h: bv16, l: bv16)
    requires FirstOfPair(Code(h)) && SecondOfPair(l)
    ensures Scalar(PairCode(h, l)) && Encode16(PairCode(h, l)) == [h, l]
    ensures PairSum(h, l) == PairCode(h, l) && PairBytes(h, l) == Encode8(PairCode(h, l))
  {
    hide PairCode, High, Low, PairSum, PairBytes;
    PairUnits(h, l);
    DecodePair(h, l);
    PairSumExact(h, l);
    PairBytesExact(h, l);
  }

  lemma PairSumExact(h: bv16, l: bv16)
    requires HighSurrogate(h) && LowSurrogate(l)
    ensures PairSum(h, l) == PairCode(h, l)
  {
  }

  lemma PairBytesExact(h: bv16, l: bv16)
    requires HighSurrogate(h) && LowSurrogate(l)
    ensures PairBytes(h, l) == Encode8(PairCode(h, l))
  {
    DecodePair(h, l);
  }

  /** The tests of the source say which unit of a pair it is. */
  lemma PairUnits(h: bv16, l: bv16)
    ensures FirstOfPair(Code(h)) <==> HighSurrogate(h)
    ensures SecondOfPair(l) <==> LowSurrogate(l)
    ensures FirstOfPair(Code(h)) ==> !Single(Code(h))
  {
  }

  lemma Utf16OutTakes(x: bv32, t: seq<bv16>, max: bv32)
    requires Scalar(x) && !Above(x, max)
    ensures Utf16Out(Encode16(x) + t, max) == Emit(Encode8(x), |Encode16(x)|)
  {
    hide Encode8, PairCode, Unit, High, Low, Above, SecondOfPair, Single, FirstOfPair, Code, Scalar, Supplementary,
         PairSum, PairBytes;
    var s := Encode16(x) + t;
    if Supplementary(x) {
      PairTaken(x, max);
      assert s[0] == High(x) && s[1] == Low(x);
    } else {
      SingleTaken(x);
      assert s[0] == Unit(x);
    }
  }

  lemma SingleTaken(x: bv32)
    requires Scalar(x) && !Supplementary(x)
    ensures Code(Unit(x)) == x && Single(x)
  {
    SingleUnit(x);
  }

  lemma PairTaken(x: bv32, max: bv32)
    requires Scalar(x) && Supplementary(x) && !Above(x, max)
    ensures !Above(Code(High(x)), max) && FirstOfPair(Code(High(x))) && !Single(Code(High(x)))
    ensures SecondOfPair(Low(x)) && PairSum(High(x), Low(x)) == x && PairBytes(High(x), Low(x)) == Encode8(x)
  {
    hide PairCode, High, Low, PairSum, PairBytes;
    EncodePair(x);
    PairUnits(High(x), Low(x));
    PairFound(High(x), Low(x));
  }

  lemma Utf16ToUtf8Faithful(max: bv32)
    ensures Faithful(Utf16ToUtf8(max))
  {
    hide Encode8, Encode16, Scalar, Utf16Out, Above;
    var c := Utf16ToUtf8(max);
    forall s | s != [] && c.step(s).Emit?
      ensures Known(c, s)
    {
      var x := Utf16OutFound(s, max);
      assert c.valid(x) && c.inp(x) <= s;
    }
    forall x, t | c.valid(x)
      ensures Takes(c, x, t)
    {
      Utf16OutTakes(x, t, max);
    }
  }

  // ----- why each stops

  /** The bytes of a code point. */
  function Width(x: bv32): nat {
    if x <= 0x7F then 1 else if x <= 0x7FF then 2 else if x <= 0xFFFF then 3 else 4
  }

  /**
   In front of the unread rest t, with so much room left: utf8_to_ucs4 asks for more exactly when there is no room
   or t ends inside a character, and refuses everything else.
   */
  predicate Ucs4InStops(t: seq<bv8>, left: nat, result: Result) {
    result == if t == [] then Ok else if left == 0 || CutOff(t) then Partial else Error
  }

  /** utf8_to_utf16 tests the lead byte against max first, and the room for a pair before the code point. */
  predicate Utf16InStops(t: seq<bv8>, left: nat, max: bv32, result: Result) {
    result ==
      if t == [] then Ok
      else if left == 0 || (t[0] as bv32 <= max
                            && (CutOff(t) || (left == 1 && |t| >= 4 && WellFormedChar(t[..4])))) then Partial
      else Error
  }

  /** ucs4_to_utf8 asks for room for an accepted code point, and refuses surrogates and what is above max. */
  predicate Ucs4OutStops(t: seq<bv32>, left: nat, max: bv32, result: Result) {
    result ==
      if t == [] then Ok
      else if t[0] <= max && !(0xD800 <= t[0] <= 0xDFFF) && left < Width(t[0]) then Partial
      else Error
  }

  /** utf16_to_utf8 asks for more after a first surrogate at the end of the input; other lone surrogates are refused. */
  predicate Utf16OutStops(t: seq<bv16>, left: nat, max: bv32, result: Result) {
    result ==
      if t == [] then Ok
      else if Above(Code(t[0]), max) then Error
      else if HighSurrogate(t[0]) then
        if |t| < 2 || (LowSurrogate(t[1]) && left < 4) then Partial else Error
      else if LowSurrogate(t[0]) || left >= Width(Code(t[0])) then Error
      else Partial
  }

  lemma Ucs4InStop(t: seq<bv8>, left: nat, max: bv32, result: Result)
    requires StopsWith(Utf8ToUcs4(max), t, left, result)
    ensures Ucs4InStops(t, left, result)
  {
    hide Sequence, CutOff, Above;
    if t != [] {
      SequenceCut(t);
    }
  }

  /** The same with the tests of the source. */
  lemma Utf16InTests(t: seq<bv8>, left: nat, max: bv32, result: Result)
    requires t != [] && StopsWith(Utf8ToUtf16(max), t, left, result)
    ensures
      var four := Sequence(t).Char? && Sequence(t).used >= 4;
      result == if left == 0 || (!Above(Wide(t[0]), max) && (Sequence(t) == Cut || (left == 1 && four)))
                then Partial else Error
  {
    hide Sequence, Above, Wide, FirstUnit, SecondUnit, Unit;
  }

  lemma Utf16InStop(t: seq<bv8>, left: nat, max: bv32, result: Result)
    requires StopsWith(Utf8ToUtf16(max), t, left, result)
    ensures Utf16InStops(t, left, max, result)
  {
    hide Sequence, CutOff, WellFormedChar, CodeOf, StopsWith, Above, Wide;
    if t == [] {
      NothingLeft(Utf8ToUtf16(max), t, left, result);
    } else {
      Utf16InTests(t, left, max, result);
      SequenceCut(t);
      AboveByte(t[0], max);
      if Sequence(t).Char? {
        SequenceFound(t);
      }
      if |t| >= 4 && WellFormedChar(t[..4]) {
        assert t == t[..4] + t[4..];
        SequenceTakes(t[..4], t[4..]);
      }
    }
  }

  lemma NothingLeft<A, B>(c: Codec<A, B>, t: seq<A>, left: nat, result: Result)
    requires t == [] && StopsWith(c, t, left, result)
    ensures result == Ok
  {
  }

  lemma AboveByte(b: bv8, max: bv32)
    ensures Above(Wide(b), max) <==> !(b as bv32 <= max)
  {
  }

  lemma SurrogateMask(x: bv32)
    ensures IsSurrogate(x) <==> 0xD800 <= x <= 0xDFFF
  {
  }

  lemma EncodeWidth(x: bv32)
    ensures |Encode8(x)| == Width(x)
  {
    hide Lead2, Lead3, Lead4, Tail18, Tail12, Tail6, Byte;
  }

  lemma Ucs4OutStop(t: seq<bv32>, left: nat, max: bv32, result: Result)
    requires StopsWith(Ucs4ToUtf8(max), t, left, result)
    ensures Ucs4OutStops(t, left, max, result)
  {
    hide Encode8, IsSurrogate, Width;
    if t != [] {
      SurrogateMask(t[0]);
      EncodeWidth(t[0]);
    }
  }

  lemma UnitKinds(u: bv16)
    ensures Single(Code(u)) <==> !HighSurrogate(u) && !LowSurrogate(u)
    ensures FirstOfPair(Code(u)) <==> HighSurrogate(u)
    ensures SecondOfPair(u) <==> LowSurrogate(u)
    ensures HighSurrogate(u) ==> !LowSurrogate(u)
  {
  }

  lemma Utf16OutTests(t: seq<bv16>, left: nat, max: bv32, result: Result)
    requires t != [] && StopsWith(Utf16ToUtf8(max), t, left, result)
    ensures
      result ==
        if Above(Code(t[0]), max) then Error
        else if Single(Code(t[0])) then if left < |Encode8(Code(t[0]))| then Partial else Error
        else if FirstOfPair(Code(t[0])) && (|t| < 2 || (SecondOfPair(t[1]) && left < 4)) then Partial
        else Error
  {
    hide Encode8, Single, FirstOfPair, SecondOfPair, PairSum, PairBytes, Above, Code;
    if |t| >= 2 {
      FourPairBytes(t[0], t[1]);
    }
  }

  lemma Utf16OutStop(t: seq<bv16>, left: nat, max: bv32, result: Result)
    requires StopsWith(Utf16ToUtf8(max), t, left, result)
    ensures Utf16OutStops(t, left, max, result)
  {
    hide Encode8, Single, FirstOfPair, SecondOfPair, StopsWith, Above, Width, HighSurrogate, LowSurrogate, Code;
    if t == [] {
      NothingLeft(Utf16ToUtf8(max), t, left, result);
    } else {
      Utf16OutTests(t, left, max, result);
      EncodeWidth(Code(t[0]));
      UnitKinds(t[0]);
      if |t| >= 2 {
        UnitKinds(t[1]);
      }
    }
  }

  lemma FourPairBytes(h: bv16, l: bv16)
    ensures |PairBytes(h, l)| == 4
  {
  }
}
