/** The head of a byte string as the UTF-8 decoders of locale.cpp take it apart. */
module Utf8Input {
  import opened Utf

  /** A character of used bytes, the beginning of one that the input cuts off, or neither. */
  datatype Char = Char(code: bv32, used: nat) | Cut | Malformed

  function Sequence(s: seq<bv8>): (c: Char)
    requires s != []
    ensures c.Char? ==> 1 <= c.used <= 4 && c.used <= |s|
  {
    var c1 := s[0];
    if c1 < 0x80 then Char(Wide(c1), 1)
    else if c1 < 0xC2 then Malformed
    else if c1 < 0xE0 then
      if |s| < 2 then Cut
      else if s[1] & 0xC0 != 0x80 then Malformed
      else Char(Two(c1, s[1]), 2)
    else if c1 < 0xF0 then
      if |s| < 3 then Cut
      else if (if c1 == 0xE0 then s[1] & 0xE0 != 0xA0
               else if c1 == 0xED then s[1] & 0xE0 != 0x80
               else s[1] & 0xC0 != 0x80)
      then Malformed
      else if s[2] & 0xC0 != 0x80 then Malformed
      else Char(Three(c1, s[1], s[2]), 3)
    else if c1 < 0xF5 then
      if |s| < 4 then Cut
      else if (if c1 == 0xF0 then !(0x90 <= s[1] <= 0xBF)
               else if c1 == 0xF4 then s[1] & 0xF0 != 0x80
               else s[1] & 0xC0 != 0x80)
      then Malformed
      else if s[2] & 0xC0 != 0x80 || s[3] & 0xC0 != 0x80 then Malformed
      else Char(Four(c1, s[1], s[2], s[3]), 4)
    else Malformed
  }

  lemma Masks(c: bv8)
    ensures c & 0xC0 == 0x80 <==> Tail(c)
    ensures c & 0xE0 == 0xA0 <==> 0xA0 <= c <= 0xBF
    ensures c & 0xE0 == 0x80 <==> 0x80 <= c <= 0x9F
    ensures c & 0xF0 == 0x80 <==> 0x80 <= c <= 0x8F
  {
  }

  /** A character is taken exactly when the input begins with a well-formed one, which is then the one taken. */
  lemma SequenceFound(s: seq<bv8>)
    requires s != [] && Sequence(s).Char?
    ensures
      var k := Sequence(s).used;
      1 <= k <= 4 && k <= |s| && WellFormedChar(s[..k]) && Sequence(s).code == CodeOf(s[..k])
  {
    hide Two, Three, Four, Wide;
    forall i | 0 <= i < |s|
      ensures s[i] & 0xC0 == 0x80 <==> Tail(s[i])
      ensures s[i] & 0xE0 == 0xA0 <==> 0xA0 <= s[i] <= 0xBF
      ensures s[i] & 0xE0 == 0x80 <==> 0x80 <= s[i] <= 0x9F
      ensures s[i] & 0xF0 == 0x80 <==> 0x80 <= s[i] <= 0x8F
    {
      Masks(s[i]);
    }
  }

  /** The input ends inside a character: its first byte calls for more bytes than there are. */
  predicate CutOff(s: seq<bv8>) {
    s != []
    && ((0xC2 <= s[0] <= 0xDF && |s| < 2) || (0xE0 <= s[0] <= 0xEF && |s| < 3) || (0xF0 <= s[0] <= 0xF4 && |s| < 4))
  }

  lemma SequenceCut(s: seq<bv8>)
    requires s != []
    ensures Sequence(s) == Cut <==> CutOff(s)
  {
    hide Two, Three, Four, Wide;
  }

  lemma SequenceTakes(ch: seq<bv8>, t: seq<bv8>)
    requires WellFormedChar(ch)
    ensures Sequence(ch + t) == Char(CodeOf(ch), |ch|)
  {
    hide Two, Three, Four, Wide;
    var s := ch + t;
    assert forall i | 0 <= i < |ch| :: s[i] == ch[i];
    forall i | 0 <= i < |ch|
      ensures ch[i] & 0xC0 == 0x80 <==> Tail(ch[i])
      ensures ch[i] & 0xE0 == 0xA0 <==> 0xA0 <= ch[i] <= 0xBF
      ensures ch[i] & 0xE0 == 0x80 <==> 0x80 <= ch[i] <= 0x9F
      ensures ch[i] & 0xF0 == 0x80 <==> 0x80 <= ch[i] <= 0x8F
    {
      Masks(ch[i]);
    }
  }
}
