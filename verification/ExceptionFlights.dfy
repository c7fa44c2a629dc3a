/** How the exceptions in flight follow the program's nesting. */
module ExceptionFlights {
  import opened Common
  import opened ExceptionModel

  lemma FrameSnoc(c: seq<Frame>, f: Frame)
    ensures forall x :: x in c + [f] <==> x in c || x == f
    ensures forall h :: OpenHandlers(c + [f], h) == OpenHandlers(c, h) + AsCount(f == Handler(h))
  {
    assert (c + [f])[|c|] == f;
  }

  lemma FlightsSnoc(hs: Headers, c: seq<Frame>, f: Frame)
    ensures FlightsOk(hs, c + [f]) <==> FlightsOk(hs, c) && (f.Flight? ==> FlightOk(hs, c, f.h))
  {
    assert (c + [f])[..|c|] == c;
  }

  /** What matters of a header is that it exists and whether it is caught. */
  ghost predicate SameCaught(hs: Headers, hs': Headers, k: nat) {
    k in hs ==> k in hs' && (hs'[k].handlerCount == 0 <==> hs[k].handlerCount == 0)
  }

  lemma {:induction false} FlightsFrame(hs: Headers, hs': Headers, c: seq<Frame>)
    requires FlightsOk(hs, c) && forall k | Flight(k) in c :: SameCaught(hs, hs', k)
    ensures FlightsOk(hs', c)
  {
    if c != [] {
      var d, f := c[..|c| - 1], c[|c| - 1];
      assert c == d + [f];
      FrameSnoc(d, f);
      FlightsFrame(hs, hs', d);
      assert f.Flight? ==> SameCaught(hs, hs', f.h);
    }
  }

  lemma {:induction false} FlightsExist(hs: Headers, c: seq<Frame>, h: nat)
    requires FlightsOk(hs, c) && Flight(h) in c
    ensures h in hs
  {
    var d, f := c[..|c| - 1], c[|c| - 1];
    assert c == d + [f];
    if f != Flight(h) {
      FlightsExist(hs, d, h);
    }
  }

  lemma {:induction false} TopIsOpen(c: seq<Frame>)
    requires Groups(c) != []
    ensures OpenHandlers(c, Top(Groups(c))) > 0
  {
    var d, f := c[..|c| - 1], c[|c| - 1];
    assert c == d + [f];
    GroupsSnoc(d, f);
    FrameSnoc(d, f);
    if f.Flight? {
      TopIsOpen(d);
    }
  }

  /** An exception that is in flight and caught was caught by a clause below its flight. */
  lemma {:induction false} CaughtBelow(hs: Headers, c: seq<Frame>, h: nat)
    requires FlightsOk(hs, c) && Flight(h) in c && h in hs && hs[h].handlerCount != 0 && h != 0
    ensures OpenHandlers(c, h) > 0
  {
    hide Groups;
    var d, f := c[..|c| - 1], c[|c| - 1];
    assert c == d + [f];
    FrameSnoc(d, f);
    if f == Flight(h) {
      TopIsOpen(d);
    } else {
      CaughtBelow(hs, d, h);
    }
  }

  /** A flight takes off: of a new header, or of the exception of the innermost catch clause. */
  lemma TakeOff(hs: Headers, hs': Headers, uncaught: nat, c: seq<Frame>, h: nat)
    requires FlightInv(hs, uncaught, c) && h in hs'
    requires forall k | k in hs && k != h :: k in hs' && hs'[k].handlerCount == hs[k].handlerCount
    requires forall k | k in hs' && k != h :: k in hs
    requires SameCaught(hs, hs', h)
    requires if hs'[h].handlerCount != 0 then Top(Groups(c)) == h else Flight(h) !in c
    ensures FlightInv(hs', uncaught + 1, c + [Flight(h)])
  {
    hide Groups, Top, FlightCount, FlightsOk;
    GroupsSnoc(c, Flight(h));
    FrameSnoc(c, Flight(h));
    FlightsSnoc(hs', c, Flight(h));
    FlightsFrame(hs, hs', c);
  }

  /** The innermost flight ends in a catch clause. */
  lemma Land(hs: Headers, hs': Headers, uncaught: nat, c: seq<Frame>, h: nat)
    requires FlightInv(hs, uncaught, c + [Flight(h)]) && hs'.Keys == hs.Keys
    requires forall k | k in hs && k != h :: hs'[k] == hs[k]
    requires h in hs && hs'[h].handlerCount > 0
    ensures uncaught > 0 && FlightInv(hs', uncaught - 1, c + [Handler(h)])
  {
    hide Groups, Top, FlightCount, FlightsOk;
    GroupsSnoc(c, Flight(h));
    GroupsSnoc(c, Handler(h));
    FrameSnoc(c, Flight(h));
    FrameSnoc(c, Handler(h));
    FlightsSnoc(hs, c, Flight(h));
    FlightsSnoc(hs', c, Handler(h));
    FlightsFrame(hs, hs', c);
  }

  /** What leaving a catch clause of h does to the headers: the count of h goes one step nearer to zero. */
  ghost predicate OneLess(hs: Headers, hs': Headers, h: nat) {
    && h in hs && hs[h].handlerCount != 0 && hs'.Keys == hs.Keys
    && (forall k | k in hs && k != h :: hs'[k] == hs[k])
    && hs'[h].handlerCount == hs[h].handlerCount + (if hs[h].handlerCount < 0 then 1 else -1)
  }

  /** A catch clause with no exception leaving it ends: if it was the last of h, h is not in flight. */
  lemma LeaveTop(hs: Headers, hs': Headers, uncaught: nat, c: seq<Frame>, h: nat)
    requires FlightInv(hs, uncaught, c + [Handler(h)]) && OneLess(hs, hs', h) && h != 0
    requires Abs(hs[h].handlerCount) == OpenHandlers(c + [Handler(h)], h)
    ensures hs'[h].handlerCount == 0 ==> hs[h].handlerCount > 0 && Flight(h) !in c
    ensures FlightInv(hs', uncaught, c)
  {
    hide Groups, Top, FlightCount, FlightsOk;
    GroupsSnoc(c, Handler(h));
    FrameSnoc(c, Handler(h));
    FlightsSnoc(hs, c, Handler(h));
    if Flight(h) in c {
      CaughtBelow(hs, c, h);
    }
    FlightsFrame(hs, hs', c);
  }

  /** A catch clause ends because the exception f leaves it: if it was the last of h, h is in flight only as f. */
  lemma LeaveUnwinding(hs: Headers, hs': Headers, uncaught: nat, c: seq<Frame>, h: nat, f: nat)
    requires FlightInv(hs, uncaught, c + [Handler(h), Flight(f)]) && OneLess(hs, hs', h) && h != 0
    requires Abs(hs[h].handlerCount) == OpenHandlers(c + [Handler(h), Flight(f)], h)
    requires Abs(hs[h].handlerCount) > 1 ==> Top(Groups(c)) == h
    ensures hs'[h].handlerCount == 0 ==> Flight(h) !in c && (hs[h].handlerCount < 0 ==> f == h)
    ensures FlightInv(hs', uncaught, c + [Flight(f)])
  {
    hide Groups, FlightCount, FlightsOk;
    FlightsOfTwo(c, h, f);
    assert c + [Handler(h), Flight(f)] == (c + [Handler(h)]) + [Flight(f)];
    FrameSnoc(c, Handler(h));
    FrameSnoc(c + [Handler(h)], Flight(f));
    FrameSnoc(c, Flight(f));
    FlightsSnoc(hs, c, Handler(h));
    FlightsSnoc(hs, c + [Handler(h)], Flight(f));
    FlightsSnoc(hs', c, Flight(f));
    if Flight(h) in c {
      CaughtBelow(hs, c, h);
    }
    FlightsFrame(hs, hs', c);
    LastGroup(c, h);
  }

  lemma LastGroup(c: seq<Frame>, h: nat)
    ensures Top(Groups(c + [Handler(h)])) == h
  {
    hide Groups;
    GroupsSnoc(c, Handler(h));
  }

  lemma FlightsOfTwo(c: seq<Frame>, h: nat, f: nat)
    ensures FlightCount(c + [Handler(h), Flight(f)]) == FlightCount(c) + 1 == FlightCount(c + [Flight(f)])
    ensures Groups(c + [Handler(h), Flight(f)]) == Enter(Groups(c), h) && Groups(c + [Flight(f)]) == Groups(c)
  {
    hide Enter;
    GroupsSnoc(c, Flight(f));
    GroupsSnoc(c, Handler(h));
    assert c + [Handler(h), Flight(f)] == (c + [Handler(h)]) + [Flight(f)];
    GroupsSnoc(c + [Handler(h)], Flight(f));
  }

  /** Reference counts may change, and headers that are not caught and not in flight may go. */
  lemma FlightKeep(hs: Headers, hs': Headers, uncaught: nat, c: seq<Frame>)
    requires FlightInv(hs, uncaught, c)
    requires forall h | h in hs' :: h in hs && hs'[h].handlerCount == hs[h].handlerCount
    requires forall h | h in hs && Flight(h) in c :: h in hs'
    ensures FlightInv(hs', uncaught, c)
  {
    hide Groups, Top, FlightCount, FlightsOk;
    FlightsFrame(hs, hs', c);
  }
}
