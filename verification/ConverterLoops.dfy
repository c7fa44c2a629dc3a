/** The loops of the converters over buffers, and the length functions. */
module ConverterLoops {
  import opened Codecs
  import opened Utf
  import opened Utf8Input
  import opened Converters

  /** A step that the codec takes moves on within the input. */
  lemma StepInside<A(!new), B>(c: Codec<A, B>, s: seq<A>)
    requires Faithful(c) && s != [] && c.step(s).Emit?
    ensures 0 < c.step(s).used <= |s| && c.step(s).out != []
  {
    var x := Head(c, s);
    assert c.outp(x) != [];
  }

  /** The loop from frm[from] and to[start] on: characters are written until something stops it. */
  method Loop<A(!new), B>(c: Codec<A, B>, frm: seq<A>, from: nat, to: array<B>, start: nat)
    returns (result: Result, frmNxt: nat, toNxt: nat)
    requires Faithful(c) && from <= |frm| && start <= to.Length
    modifies to
    ensures from <= frmNxt <= |frm| && start <= toNxt <= to.Length
    ensures Outcome(result, frmNxt - from, to[start..toNxt]) == Convert(c, frm[from..], to.Length - start)
    ensures StopsWith(c, frm[frmNxt..], to.Length - toNxt, result)
    ensures to[..start] == old(to[..start]) && to[toNxt..] == old(to[toNxt..])
  {
    hide Faithful, Convert, Prepend, StopsWith;
    frmNxt, toNxt := from, start;
    LoopStops(c, frm, from, to.Length - start);
    ghost var written := [];
    LoopStart(c, frm[from..], to.Length - start);
    while frmNxt < |frm|
      invariant from <= frmNxt <= |frm| && start <= toNxt <= to.Length
      invariant to[..start] == old(to[..start]) && to[toNxt..] == old(to[toNxt..]) && to[start..toNxt] == written
      invariant Convert(c, frm[from..], to.Length - start) ==
                Prepend(frmNxt - from, written, Convert(c, frm[frmNxt..], to.Length - toNxt))
      decreases |frm| - frmNxt
    {
      LoopStep(c, frm, from, frmNxt, to.Length - start, to.Length - toNxt, written);
      if c.eager && toNxt == to.Length {
        return Partial, frmNxt, toNxt;
      }
      match c.step(frm[frmNxt..]) {
        case Short =>
          return Partial, frmNxt, toNxt;
        case Bad =>
          return Error, frmNxt, toNxt;
        case Late(n) =>
          return if to.Length - toNxt < n then Partial else Error, frmNxt, toNxt;
        case Emit(out, used) =>
          if to.Length - toNxt < |out| {
            return Partial, frmNxt, toNxt;
          }
          Write(to, toNxt, out, start);
          frmNxt, toNxt, written := frmNxt + used, toNxt + |out|, written + out;
      }
    }
    LoopEnd(c, frm, from, to.Length - start, to.Length - toNxt, written);
    return Ok, frmNxt, toNxt;
  }

  lemma LoopStops<A(!new), B>(c: Codec<A, B>, frm: seq<A>, from: nat, room: nat)
    requires Faithful(c) && from <= |frm|
    ensures
      var o := Convert(c, frm[from..], room);
      from + o.used <= |frm| && |o.out| <= room && StopsWith(c, frm[from + o.used..], room - |o.out|, o.result)
  {
    hide Faithful, Convert, StopsWith;
    Codecs.Stops(c, frm[from..], room);
    var o := Convert(c, frm[from..], room);
    assert frm[from..][o.used..] == frm[from + o.used..];
  }

  lemma LoopStart<A, B>(c: Codec<A, B>, s: seq<A>, room: nat)
    ensures Convert(c, s, room) == Prepend(0, [], Convert(c, s, room))
  {
    hide Convert;
    assert [] + Convert(c, s, room).out == Convert(c, s, room).out;
  }

  lemma LoopEnd<A, B>(c: Codec<A, B>, frm: seq<A>, from: nat, total: nat, room: nat, written: seq<B>)
    requires from <= |frm|
    ensures Prepend(|frm| - from, written, Convert(c, frm[|frm|..], room)) == Outcome(Ok, |frm| - from, written)
  {
  }

  /** What the conversion of the whole input is, seen from the head of the rest of it. */
  lemma LoopStep<A(!new), B>(c: Codec<A, B>, frm: seq<A>, from: nat, at: nat, total: nat, room: nat, written: seq<B>)
    requires Faithful(c) && from <= at < |frm|
    requires Convert(c, frm[from..], total) == Prepend(at - from, written, Convert(c, frm[at..], room))
    ensures
      var s := frm[at..];
      var stop := (result: Result) => Outcome(result, at - from, written);
      var all := Convert(c, frm[from..], total);
      if c.eager && room == 0 then all == stop(Partial)
      else match c.step(s)
           case Short => all == stop(Partial)
           case Bad => all == stop(Error)
           case Late(n) => all == stop(if room < n then Partial else Error)
           case Emit(out, used) =>
             at + used <= |frm| && used > 0 &&
             if room < |out| then all == stop(Partial)
             else all == Prepend(at + used - from, written + out, Convert(c, frm[at + used..], room - |out|))
  {
    hide Faithful;
    var s := frm[at..];
    if c.step(s).Emit? {
      StepInside(c, s);
      var used, out := c.step(s).used, c.step(s).out;
      assert s[used..] == frm[at + used..];
      assert room >= |out| ==>
          written + (out + Convert(c, s[used..], room - |out|).out)
          == (written + out) + Convert(c, s[used..], room - |out|).out;
    }
    assert written + [] == written;
  }

  /** The bytes of one character; everything before and after them stays. */
  method Write<B>(to: array<B>, at: nat, out: seq<B>, ghost start: nat)
    requires start <= at && at + |out| <= to.Length
    modifies to
    ensures to[..start] == old(to[..start]) && to[start..at + |out|] == old(to[start..at]) + out
    ensures to[at + |out|..] == old(to[at + |out|..])
  {
    var i := 0;
    while i < |out|
      invariant 0 <= i <= |out| && to[..start] == old(to[..start])
      invariant to[start..at + i] == old(to[start..at]) + out[..i] && to[at + |out|..] == old(to[at + |out|..])
    {
      to[at + i] := out[i];
      i := i + 1;
    }
  }

  // ----- the converters

  /** The length of the byte order mark that consume_header skips. */
  function Header(frm: seq<bv8>, consume: bool): (n: nat)
    ensures n <= |frm| && (n == 0 || n == 3)
    ensures n == 3 <==> consume && BYTE_ORDER_MARK <= frm
  {
    if consume && |frm| >= 3 && frm[0] == 0xEF && frm[1] == 0xBB && frm[2] == 0xBF then 3 else 0
  }

  method Utf8ToUcs4Into(frm: seq<bv8>, to: array<bv32>, max: bv32, consume: bool)
    returns (result: Result, frmNxt: nat, toNxt: nat)
    modifies to
    ensures Header(frm, consume) <= frmNxt <= |frm| && toNxt <= to.Length && to[toNxt..] == old(to[toNxt..])
    ensures
      var n := Header(frm, consume);
      Outcome(result, frmNxt - n, to[..toNxt]) == Convert(Utf8ToUcs4(max), frm[n..], to.Length)
    ensures Ucs4InStops(frm[frmNxt..], to.Length - toNxt, result)
  {
    hide Convert, Faithful, StopsWith, Ucs4InStops;
    Utf8ToUcs4Faithful(max);
    result, frmNxt, toNxt := Loop(Utf8ToUcs4(max), frm, Header(frm, consume), to, 0);
    Ucs4InStop(frm[frmNxt..], to.Length - toNxt, max, result);
    assert to[0..toNxt] == to[..toNxt];
  }

  method Utf8ToUtf16Into(frm: seq<bv8>, to: array<bv16>, max: bv32, consume: bool)
    returns (result: Result, frmNxt: nat, toNxt: nat)
    modifies to
    ensures Header(frm, consume) <= frmNxt <= |frm| && toNxt <= to.Length && to[toNxt..] == old(to[toNxt..])
    ensures
      var n := Header(frm, consume);
      Outcome(result, frmNxt - n, to[..toNxt]) == Convert(Utf8ToUtf16(max), frm[n..], to.Length)
    ensures Utf16InStops(frm[frmNxt..], to.Length - toNxt, max, result)
  {
    hide Convert, Faithful, StopsWith, Utf16InStops;
    Utf8ToUtf16Faithful(max);
    result, frmNxt, toNxt := Loop(Utf8ToUtf16(max), frm, Header(frm, consume), to, 0);
    Utf16InStop(frm[frmNxt..], to.Length - toNxt, max, result);
    assert to[0..toNxt] == to[..toNxt];
  }

  const BYTE_ORDER_MARK: seq<bv8> := [0xEF, 0xBB, 0xBF]

  method Ucs4ToUtf8Into(frm: seq<bv32>, to: array<bv8>, max: bv32, generate: bool)
    returns (result: Result, frmNxt: nat, toNxt: nat)
    modifies to
    ensures frmNxt <= |frm| && toNxt <= to.Length && to[toNxt..] == old(to[toNxt..])
    ensures generate && to.Length < 3 ==> result == Partial && frmNxt == toNxt == 0
    ensures generate && to.Length >= 3 ==> toNxt >= 3 && to[..3] == BYTE_ORDER_MARK
    ensures !(generate && to.Length < 3) ==>
      var n := if generate then 3 else 0;
      n <= toNxt && Outcome(result, frmNxt, to[n..toNxt]) == Convert(Ucs4ToUtf8(max), frm, to.Length - n)
    ensures !(generate && to.Length < 3) ==> Ucs4OutStops(frm[frmNxt..], to.Length - toNxt, max, result)
  {
    hide Convert, Faithful, StopsWith, Ucs4OutStops;
    Ucs4ToUtf8Faithful(max);
    assert frm[0..] == frm;
    if generate {
      if to.Length < 3 {
        return Partial, 0, 0;
      }
      Write(to, 0, BYTE_ORDER_MARK, 0);
      result, frmNxt, toNxt := Loop(Ucs4ToUtf8(max), frm, 0, to, 3);
    } else {
      result, frmNxt, toNxt := Loop(Ucs4ToUtf8(max), frm, 0, to, 0);
    }
    Ucs4OutStop(frm[frmNxt..], to.Length - toNxt, max, result);
  }

  method Utf16ToUtf8Into(frm: seq<bv16>, to: array<bv8>, max: bv32, generate: bool)
    returns (result: Result, frmNxt: nat, toNxt: nat)
    modifies to
    ensures frmNxt <= |frm| && toNxt <= to.Length && to[toNxt..] == old(to[toNxt..])
    ensures generate && to.Length < 3 ==> result == Partial && frmNxt == toNxt == 0
    ensures generate && to.Length >= 3 ==> toNxt >= 3 && to[..3] == BYTE_ORDER_MARK
    ensures !(generate && to.Length < 3) ==>
      var n := if generate then 3 else 0;
      n <= toNxt && Outcome(result, frmNxt, to[n..toNxt]) == Convert(Utf16ToUtf8(max), frm, to.Length - n)
    ensures !(generate && to.Length < 3) ==> Utf16OutStops(frm[frmNxt..], to.Length - toNxt, max, result)
  {
    hide Convert, Faithful, StopsWith, Utf16OutStops;
    Utf16ToUtf8Faithful(max);
    assert frm[0..] == frm;
    if generate {
      if to.Length < 3 {
        return Partial, 0, 0;
      }
      Write(to, 0, BYTE_ORDER_MARK, 0);
      result, frmNxt, toNxt := Loop(Utf16ToUtf8(max), frm, 0, to, 3);
    } else {
      result, frmNxt, toNxt := Loop(Utf16ToUtf8(max), frm, 0, to, 0);
    }
    Utf16OutStop(frm[frmNxt..], to.Length - toNxt, max, result);
  }

  // ----- the length functions

  /** utf8_to_ucs4_length: the bytes that utf8_to_ucs4 would consume with a buffer of mx characters. */
  method Utf8ToUcs4Length(frm: seq<bv8>, mx: nat, max: bv32, consume: bool) returns (length: nat)
    ensures
      var n := Header(frm, consume);
      length == n + Convert(Utf8ToUcs4(max), frm[n..], mx).used
  {
    hide Convert, Faithful, Prepend, Sequence, Above, Scalar, Encode8;
    ghost var c := Utf8ToUcs4(max);
    Utf8ToUcs4Faithful(max);
    length := Header(frm, consume);
    ghost var from := length;
    ghost var written := [];
    LoopStart(c, frm[from..], mx);
    var count := 0;
    while length < |frm| && count < mx
      invariant from <= length <= |frm| && count <= mx
      invariant Convert(c, frm[from..], mx) == Prepend(length - from, written, Convert(c, frm[length..], mx - count))
      decreases |frm| - length
    {
      LoopStep(c, frm, from, length, mx, mx - count, written);
      match Sequence(frm[length..]) {
        case Cut => return;
        case Malformed => return;
        case Char(x, k) =>
          if Above(x, max) {
            return;
          }
          length, count, written := length + k, count + 1, written + [x];
      }
    }
    LengthEnd(c, frm, from, length, mx, mx - count, written);
  }

  lemma LengthEnd<A, B>(c: Codec<A, B>, frm: seq<A>, from: nat, at: nat, total: nat, room: nat, written: seq<B>)
    requires c.eager && from <= at <= |frm| && (at == |frm| || room == 0)
    requires Convert(c, frm[from..], total) == Prepend(at - from, written, Convert(c, frm[at..], room))
    ensures Convert(c, frm[from..], total).used == at - from
  {
  }

  /** utf8_to_utf16_length: a character of two units is not begun when there is room for one. */
  method Utf8ToUtf16Length(frm: seq<bv8>, mx: nat, max: bv32, consume: bool) returns (length: nat)
    ensures
      var n := Header(frm, consume);
      length == n + Convert(Utf8ToUtf16(max), frm[n..], mx).used
  {
    hide Convert, Faithful, Prepend, Sequence, Above, Wide, Unit, FirstUnit, SecondUnit, Scalar, Encode8, Encode16;
    ghost var c := Utf8ToUtf16(max);
    Utf8ToUtf16Faithful(max);
    length := Header(frm, consume);
    ghost var from := length;
    ghost var written := [];
    LoopStart(c, frm[from..], mx);
    var count := 0;
    while length < |frm| && count < mx
      invariant from <= length <= |frm| && count <= mx
      invariant Convert(c, frm[from..], mx) == Prepend(length - from, written, Convert(c, frm[length..], mx - count))
      decreases |frm| - length
    {
      LoopStep(c, frm, from, length, mx, mx - count, written);
      if Above(Wide(frm[length]), max) {
        return;
      }
      match Sequence(frm[length..]) {
        case Cut => return;
        case Malformed => return;
        case Char(x, k) =>
          if (k == 4 && mx - count < 2) || Above(x, max) {
            return;
          }
          written := written + Utf16In(frm[length..], max).out;
          length, count := length + k, count + if k == 4 then 2 else 1;
      }
    }
    LengthEnd(c, frm, from, length, mx, mx - count, written);
  }
}
