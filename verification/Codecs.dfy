/**
 The loop that all the converters of locale.cpp share: characters are taken from the input one at a time,
 each written to the output if there is room, until the input ends or something stops the loop.
 */
module Codecs {

  datatype Result = Ok | Partial | Error

  /**
   What the head of the input is: a character that takes used units and writes out, the beginning of one,
   no character, or one that is refused only when room units of output are left.
   */
  datatype Step<B> = Emit(out: seq<B>, used: nat) | Short | Bad | Late(room: nat)

  /** How an exit leaves frm_nxt and to_nxt: units consumed and units written. */
  datatype Outcome<B> = Outcome(result: Result, used: nat, out: seq<B>)

  /**
   A converter: step looks at a non-empty input; eager converters ask for room before they look.  The code
   points it accepts are valid, and inp and outp are their forms in the two encodings.
   */
  datatype Codec<!A, !B> = Codec(step: seq<A> -> Step<B>, eager: bool,
                                 valid: bv32 -> bool, inp: bv32 -> seq<A>, outp: bv32 -> seq<B>)

  function Prepend<B>(used: nat, out: seq<B>, rest: Outcome<B>): Outcome<B> {
    Outcome(rest.result, used + rest.used, out + rest.out)
  }

  function Convert<A, B>(c: Codec<A, B>, s: seq<A>, room: nat): Outcome<B>
    decreases |s|
  {
    if s == [] then Outcome(Ok, 0, [])
    else if c.eager && room == 0 then Outcome(Partial, 0, [])
    else
      match c.step(s)
      case Short => Outcome(Partial, 0, [])
      case Bad => Outcome(Error, 0, [])
      case Late(n) => Outcome(if room < n then Partial else Error, 0, [])
      case Emit(out, used) =>
        if room < |out| then Outcome(Partial, 0, [])
        else if used == 0 || used > |s| then Outcome(Error, 0, [])
        else Prepend(used, out, Convert(c, s[used..], room - |out|))
  }

  /** Every character that the converter takes is the form of a valid code point, and every such form is taken. */
  ghost predicate Faithful<A(!new), B>(c: Codec<A, B>) {
    && (forall s | s != [] && c.step(s).Emit? :: Known(c, s))
    && (forall x, t | c.valid(x) :: Takes(c, x, t))
    && (forall x | c.valid(x) :: c.inp(x) != [] && c.outp(x) != [])
  }

  ghost predicate Known<A, B>(c: Codec<A, B>, s: seq<A>)
    requires c.step(s).Emit?
  {
    exists x :: c.valid(x) && c.inp(x) <= s && c.step(s) == Emit(c.outp(x), |c.inp(x)|)
  }

  ghost predicate Takes<A, B>(c: Codec<A, B>, x: bv32, t: seq<A>) {
    c.step(c.inp(x) + t) == Emit(c.outp(x), |c.inp(x)|)
  }

  function InAll<A, B>(c: Codec<A, B>, xs: seq<bv32>): seq<A> {
    if xs == [] then [] else c.inp(xs[0]) + InAll(c, xs[1..])
  }

  function OutAll<A, B>(c: Codec<A, B>, xs: seq<bv32>): seq<B> {
    if xs == [] then [] else c.outp(xs[0]) + OutAll(c, xs[1..])
  }

  ghost predicate AllValid<A, B>(c: Codec<A, B>, xs: seq<bv32>) {
    forall i | 0 <= i < |xs| :: c.valid(xs[i])
  }

  /** A valid character at the head of the input. */
  lemma TakeOne<A(!new), B>(c: Codec<A, B>, x: bv32, t: seq<A>, room: nat)
    requires Faithful(c) && c.valid(x) && room >= |c.outp(x)|
    ensures Convert(c, c.inp(x) + t, room) ==
            Prepend(|c.inp(x)|, c.outp(x), Convert(c, t, room - |c.outp(x)|))
  {
    assert Takes(c, x, t);
    assert (c.inp(x) + t)[|c.inp(x)|..] == t;
  }

  /** Input made of valid characters is converted to their other forms, whatever follows it. */
  lemma {:induction false} TakeAll<A(!new), B>(c: Codec<A, B>, xs: seq<bv32>, t: seq<A>, room: nat)
    requires Faithful(c) && AllValid(c, xs) && room >= |OutAll(c, xs)|
    ensures Convert(c, InAll(c, xs) + t, room) ==
            Prepend(|InAll(c, xs)|, OutAll(c, xs), Convert(c, t, room - |OutAll(c, xs)|))
  {
    hide Faithful, Convert;
    if xs == [] {
      assert InAll(c, xs) + t == t;
      assert OutAll(c, xs) + Convert(c, t, room).out == Convert(c, t, room).out;
    } else {
      var rest := InAll(c, xs[1..]) + t;
      assert InAll(c, xs) + t == c.inp(xs[0]) + rest;
      TakeOne(c, xs[0], rest, room);
      TakeAll(c, xs[1..], t, room - |c.outp(xs[0])|);
      var last := Convert(c, t, room - |OutAll(c, xs)|).out;
      assert c.outp(xs[0]) + (OutAll(c, xs[1..]) + last) == OutAll(c, xs) + last;
    }
  }

  /** On every exit the output is the conversion of exactly the input consumed. */
  lemma {:induction false} Consumed<A(!new), B>(c: Codec<A, B>, s: seq<A>, room: nat) returns (xs: seq<bv32>)
    requires Faithful(c)
    ensures AllValid(c, xs)
    ensures
      var o := Convert(c, s, room);
      && o.used <= |s| && |o.out| <= room && s[..o.used] == InAll(c, xs) && o.out == OutAll(c, xs)
      && (o.result == Ok <==> o.used == |s|)
    decreases |s|
  {
    hide Faithful, Convert;
    if Moves(c, s, room) {
      var x := Head(c, s);
      var t := s[|c.inp(x)|..];
      assert s == c.inp(x) + t;
      TakeOne(c, x, t, room);
      var rest := Consumed(c, t, room - |c.outp(x)|);
      xs := [x] + rest;
      assert xs[1..] == rest;
      var o, m := Convert(c, s, room), Convert(c, t, room - |c.outp(x)|).used;
      assert s[..o.used] == c.inp(x) + t[..m];
    } else {
      xs := [];
      Stuck(c, s, room);
    }
  }

  /** The loop writes a character. */
  ghost predicate Moves<A, B>(c: Codec<A, B>, s: seq<A>, room: nat) {
    s != [] && !(c.eager && room == 0) && c.step(s).Emit? && room >= |c.step(s).out|
  }

  lemma Head<A(!new), B>(c: Codec<A, B>, s: seq<A>) returns (x: bv32)
    requires Faithful(c) && s != [] && c.step(s).Emit?
    ensures c.valid(x) && c.inp(x) <= s && c.step(s) == Emit(c.outp(x), |c.inp(x)|) && c.inp(x) != []
  {
    assert Known(c, s);
    x :| c.valid(x) && c.inp(x) <= s && c.step(s) == Emit(c.outp(x), |c.inp(x)|);
  }

  lemma Stuck<A(!new), B>(c: Codec<A, B>, s: seq<A>, room: nat)
    requires !Moves(c, s, room)
    ensures
      var o := Convert(c, s, room);
      o.used == 0 && o.out == [] && (o.result == Ok <==> s == [])
  {
  }

  /** What ends the loop in front of the unread rest t with so much room left. */
  ghost predicate StopsWith<A, B>(c: Codec<A, B>, t: seq<A>, left: nat, result: Result) {
    if t == [] then result == Ok
    else if c.eager && left == 0 then result == Partial
    else
      match c.step(t)
      case Short => result == Partial
      case Bad => result == Error
      case Late(n) => result == if left < n then Partial else Error
      case Emit(out, _) => left < |out| && result == Partial
  }

  /** The result is decided by the unread rest and the room that is left. */
  lemma {:induction false} Stops<A(!new), B>(c: Codec<A, B>, s: seq<A>, room: nat)
    requires Faithful(c)
    ensures
      var o := Convert(c, s, room);
      o.used <= |s| && |o.out| <= room && StopsWith(c, s[o.used..], room - |o.out|, o.result)
    decreases |s|
  {
    hide Faithful, Convert;
    if Moves(c, s, room) {
      var x := Head(c, s);
      var t := s[|c.inp(x)|..];
      assert s == c.inp(x) + t;
      TakeOne(c, x, t, room);
      Stops(c, t, room - |c.outp(x)|);
      var o, m := Convert(c, s, room), Convert(c, t, room - |c.outp(x)|).used;
      assert s[o.used..] == t[m..];
    } else {
      Stuck(c, s, room);
      StuckResult(c, s, room);
      assert s[0..] == s;
    }
  }

  lemma StuckResult<A(!new), B>(c: Codec<A, B>, s: seq<A>, room: nat)
    requires Faithful(c) && !Moves(c, s, room)
    ensures StopsWith(c, s, room, Convert(c, s, room).result)
  {
  }

  /**
   Resuming: a call that stops after some input, followed by a call with what is left of the input, more
   input and the rest of a larger buffer, gives what one call with everything gives.
   */
  lemma Resume<A(!new), B>(c: Codec<A, B>, s: seq<A>, room: nat, t: seq<A>, larger: nat)
    requires Faithful(c) && larger >= |Convert(c, s, room).out|
    ensures
      var o := Convert(c, s, room);
      && o.used <= |s|
      && Convert(c, s + t, larger) ==
         Prepend(o.used, o.out, Convert(c, s[o.used..] + t, larger - |o.out|))
  {
    hide Faithful, Convert;
    var o := Convert(c, s, room);
    var xs := Consumed(c, s, room);
    TakeAll(c, xs, s[o.used..] + t, larger);
    assert s + t == InAll(c, xs) + (s[o.used..] + t);
  }

  /** The conversion succeeds on exactly the sequences of valid characters whose other form fits. */
  lemma Success<A(!new), B>(c: Codec<A, B>, s: seq<A>, room: nat)
    requires Faithful(c)
    ensures Convert(c, s, room).result == Ok <==>
      exists xs :: AllValid(c, xs) && s == InAll(c, xs) && |OutAll(c, xs)| <= room
  {
    hide Faithful, Convert;
    var ys := Consumed(c, s, room);
    if Convert(c, s, room).result == Ok {
      assert s[..|s|] == s;
      assert s == InAll(c, ys);
    }
    forall xs | AllValid(c, xs) && s == InAll(c, xs) && |OutAll(c, xs)| <= room
      ensures Convert(c, s, room).result == Ok
    {
      TakeAll(c, xs, [], room);
      assert InAll(c, xs) + [] == s;
      ConvertNothing(c, room - |OutAll(c, xs)|);
    }
  }

  lemma ConvertNothing<A(!new), B>(c: Codec<A, B>, room: nat)
    ensures Convert(c, [], room) == Outcome(Ok, 0, [])
  {
  }

  /** back undoes c: the forms are exchanged. */
  ghost predicate Inverse<A(!new), B(!new)>(c: Codec<A, B>, back: Codec<B, A>) {
    forall x :: InverseAt(c, back, x)
  }

  ghost predicate InverseAt<A, B>(c: Codec<A, B>, back: Codec<B, A>, x: bv32) {
    c.valid(x) ==> back.valid(x) && back.inp(x) == c.outp(x) && back.outp(x) == c.inp(x)
  }

  lemma {:induction false} InverseAll<A(!new), B(!new)>(c: Codec<A, B>, back: Codec<B, A>, xs: seq<bv32>)
    requires Inverse(c, back) && AllValid(c, xs)
    ensures AllValid(back, xs) && InAll(back, xs) == OutAll(c, xs) && OutAll(back, xs) == InAll(c, xs)
  {
    if xs != [] {
      InverseAll(c, back, xs[1..]);
      assert InverseAt(c, back, xs[0]);
      assert forall i | 0 < i < |xs| :: xs[i] == xs[1..][i - 1];
    }
  }

  /** Whatever one call consumed comes back from the inverse converter, given room for it. */
  lemma RoundTrip<A(!new), B(!new)>(c: Codec<A, B>, back: Codec<B, A>, s: seq<A>, room: nat, larger: nat)
    requires Faithful(c) && Faithful(back) && Inverse(c, back) && larger >= Convert(c, s, room).used
    ensures
      var o := Convert(c, s, room);
      o.used <= |s| && Convert(back, o.out, larger) == Outcome(Ok, |o.out|, s[..o.used])
  {
    hide Faithful, Convert, Inverse;
    var o := Convert(c, s, room);
    var xs := Consumed(c, s, room);
    InverseAll(c, back, xs);
    TakeAll(back, xs, [], larger);
    assert InAll(back, xs) + [] == o.out && OutAll(back, xs) + [] == s[..o.used];
    ConvertNothing(back, larger - o.used);
  }
}
