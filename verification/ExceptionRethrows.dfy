/**
 Which rethrows lead to a doomed step.  A rethrow turns the sign of the handler count, and it is the sign that
 tells the end of a catch clause whether the exception lives on.  So a rethrow of an exception that is in flight
 already does harm exactly if that flight can leave every clause that has caught the exception.
 */
module ExceptionRethrows {
  import opened ExceptionModel
  import opened ExceptionFlights
  import opened ExceptionRuntime
  import opened ExceptionRuns

  /** All open clauses of the exception of flight i lie directly below the flight, with nothing in between. */
  predicate Clears(c: seq<Frame>, i: nat)
    requires i < |c|
  {
    var open := OpenHandlers(c[..i], c[i].h);
    c[i].Flight? && open <= i && forall j | i - open <= j < i :: c[j] == Handler(c[i].h)
  }

  /** h is in flight and can leave all its clauses. */
  ghost predicate Exposed(c: seq<Frame>, h: nat) {
    exists i: nat :: i < |c| && c[i] == Flight(h) && Clears(c, i)
  }

  /** A flight that can leave all its clauses is marked as a rethrow, and its exception is not in flight above it. */
  ghost predicate SafeAt(hs: Headers, c: seq<Frame>, i: nat)
    requires i < |c|
  {
    Clears(c, i) && c[i].h in hs && hs[c[i].h].handlerCount != 0 ==>
      hs[c[i].h].handlerCount < 0 && Flight(c[i].h) !in c[i + 1..]
  }

  ghost predicate Safe(hs: Headers, c: seq<Frame>) {
    forall i: nat | i < |c| :: SafeAt(hs, c, i)
  }

  lemma ClearsPrefix(d: seq<Frame>, x: seq<Frame>, i: nat)
    requires i < |d|
    ensures Clears(d + x, i) == Clears(d, i)
    ensures (d + x)[i] == d[i] && (d + x)[i + 1..] == d[i + 1..] + x
  {
    assert (d + x)[..i] == d[..i];
    assert forall j | 0 <= j <= i :: (d + x)[j] == d[j];
  }

  /** A flight in the part d of the nesting that stays, when what is above it changes from x to y. */
  lemma SafeBelow(hs: Headers, hs': Headers, d: seq<Frame>, x: seq<Frame>, y: seq<Frame>, i: nat)
    requires i < |d| && SafeAt(hs, d + x, i)
    requires d[i].Flight? && d[i].h in hs' && hs'[d[i].h].handlerCount != 0 ==>
      d[i].h in hs && hs[d[i].h].handlerCount != 0
    requires Flight(d[i].h) in x || !Clears(d, i)
      || (Flight(d[i].h) !in y && (d[i].h in hs && d[i].h in hs' ==> StaysMarked(hs[d[i].h], hs'[d[i].h])))
    ensures SafeAt(hs', d + y, i)
  {
    hide Clears;
    ClearsPrefix(d, x, i);
    ClearsPrefix(d, y, i);
    FlightClears(d, i);
  }

  /** A count may go to zero, but not change its sign. */
  predicate StaysMarked(x: Header, y: Header) {
    x.handlerCount < 0 ==> y.handlerCount <= 0
  }

  lemma FlightClears(c: seq<Frame>, i: nat)
    requires i < |c|
    ensures Clears(c, i) ==> c[i].Flight?
  {
  }

  /** The new top of the nesting. */
  lemma SafeTop(hs: Headers, d: seq<Frame>, f: Frame)
    requires forall i: nat | i < |d| :: SafeAt(hs, d + [f], i)
    requires f.Flight? && Clears(d + [f], |d|) && f.h in hs ==> hs[f.h].handlerCount <= 0
    ensures Safe(hs, d + [f])
  {
    hide Clears;
    var c := d + [f];
    FlightClears(c, |d|);
    assert c[|d|] == f && c[|d| + 1..] == [];
  }

  // ----- the steps

  /** The counts of the headers are what they were, and the nesting has a new exception in flight or none. */
  lemma SafeThrow(s: State, s': State, h: nat)
    requires Inv(s) && Safe(s.headers, s.control) && h !in s.headers
    requires h in s'.headers && s'.headers[h].handlerCount == 0 && s'.control == s.control + [Flight(h)]
    requires forall k | k in s'.headers && k != h ::
      k in s.headers && s'.headers[k].handlerCount == s.headers[k].handlerCount
    ensures Safe(s'.headers, s'.control)
  {
    hide Clears, Inv;
    FlightsThere(s);
    assert s.control + [] == s.control;
    forall i: nat | i < |s.control|
      ensures SafeAt(s'.headers, s.control + [Flight(h)], i)
    {
      FlightClears(s.control, i);
      if s.control[i].Flight? {
        assert SafeAt(s.headers, s.control, i);
        assert s.control[i] in s.control;
        SafeBelow(s.headers, s'.headers, s.control, [], [Flight(h)], i);
      } else {
        ClearsPrefix(s.control, [Flight(h)], i);
      }
    }
    SafeTop(s'.headers, s.control, Flight(h));
  }

  lemma FlightsThere(s: State)
    requires Inv(s)
    ensures forall k | Flight(k) in s.control :: k in s.headers
  {
    hide Inv, FlightsOk;
    JustFlights(s);
    forall k | Flight(k) in s.control
      ensures k in s.headers
    {
      FlightsExist(s.headers, s.control, k);
    }
  }

  lemma SafeKeep(s: State, s': State)
    requires Safe(s.headers, s.control) && s'.control == s.control
    requires forall k | k in s'.headers :: k in s.headers && s'.headers[k].handlerCount == s.headers[k].handlerCount
    ensures Safe(s'.headers, s'.control)
  {
    hide Clears;
    forall i: nat | i < |s.control|
      ensures SafeAt(s'.headers, s.control, i)
    {
      assert SafeAt(s.headers, s.control, i);
    }
  }

  lemma SafeBegin(s: State)
    requires Inv(s) && Safe(s.headers, s.control) && MayBeginCatch(s)
    ensures Safe(BeginCatch(s).headers, BeginCatch(s).control)
  {
    hide Clears, Inv;
    var n := |s.control| - 1;
    var d, h, s' := s.control[..n], s.control[n].h, BeginCatch(s);
    assert s.control == d + [Flight(h)] && s'.control == d + [Handler(h)];
    JustFlights(s);
    FlightsSnoc(s.headers, d, Flight(h));
    forall i: nat | i < n
      ensures SafeAt(s'.headers, d + [Handler(h)], i)
    {
      assert SafeAt(s.headers, d + [Flight(h)], i) && d[i] in d;
      SafeBelow(s.headers, s'.headers, d, [Flight(h)], [Handler(h)], i);
    }
    SafeTop(s'.headers, d, Handler(h));
  }

  /** If the top of the nesting can be left at once, no clause of h is below a flight of h. */
  lemma TopRun(c: seq<Frame>, h: nat, i: nat)
    requires Clears(c + [Flight(h)], |c|) && i < |c| && c[i] == Flight(h)
    ensures OpenHandlers(c[..i + 1], h) == 0
  {
    var b := c + [Flight(h)];
    assert b[..|c|] == c && forall j | 0 <= j < |c| :: b[j] == c[j];
    var open := OpenHandlers(c, h);
    assert i < |c| - open;
    RunCount(c[|c| - open..], h);
    assert c == c[..|c| - open] + c[|c| - open..];
    assert c[..|c| - open] == c[..i + 1] + c[i + 1..|c| - open];
  }

  lemma {:induction false} RunCount(x: seq<Frame>, h: nat)
    requires forall j | 0 <= j < |x| :: x[j] == Handler(h)
    ensures OpenHandlers(x, h) == |x|
  {
    if x != [] {
      assert x == x[..|x| - 1] + [x[|x| - 1]];
      RunCount(x[..|x| - 1], h);
    }
  }

  /** A rethrown exception that is not exposed: if its new flight can leave all clauses, it is its only flight. */
  lemma OnlyFlight(s: State)
    requires Inv(s) && s.caught != 0 && Clears(s.control + [Flight(s.caught)], |s.control|)
    ensures Flight(s.caught) !in s.control
  {
    hide Clears, Inv, FlightsOk;
    CaughtIsOpen(s);
    JustFlights(s);
    if Flight(s.caught) in s.control {
      var i: nat :| i < |s.control| && s.control[i] == Flight(s.caught);
      TopRun(s.control, s.caught, i);
      FlightsPrefix(s.headers, s.control, i + 1);
      assert s.control[..i + 1][i] == Flight(s.caught);
      CaughtBelow(s.headers, s.control[..i + 1], s.caught);
    }
  }

  lemma {:induction false} FlightsPrefix(hs: Headers, c: seq<Frame>, n: nat)
    requires FlightsOk(hs, c) && n <= |c|
    ensures FlightsOk(hs, c[..n])
  {
    if n < |c| {
      FlightsPrefix(hs, c[..|c| - 1], n);
      assert c[..|c| - 1][..n] == c[..n];
    } else {
      assert c[..n] == c;
    }
  }

  lemma SafeRethrow(s: State)
    requires Inv(s) && Safe(s.headers, s.control) && s.caught != 0 && !Exposed(s.control, s.caught)
    ensures s.caught in s.headers && Safe(Rethrow(s).headers, Rethrow(s).control)
  {
    hide Clears, Inv;
    CaughtIsOpen(s);
    var c, h, s' := s.control, s.caught, Rethrow(s);
    assert c + [] == c;
    forall i: nat | i < |c|
      ensures SafeAt(s'.headers, c + [Flight(h)], i)
    {
      assert SafeAt(s.headers, c, i);
      FlightClears(c, i);
      SafeBelow(s.headers, s'.headers, c, [], [Flight(h)], i);
    }
    if Clears(c + [Flight(h)], |c|) {
      OnlyFlight(s);
    }
    SafeTop(s'.headers, c, Flight(h));
  }

  // ----- the end of a handler

  /** What __cxa_end_catch does to the handler counts. */
  lemma EndedCounts(s: State)
    requires MayEndCatch(s) && s.caught != 0 && s.headers[s.caught].handlerCount != 0
    ensures
      var hs, hs' := s.headers, EndCatch(s).headers;
      && (forall k | k in hs' :: k in hs && (k != s.caught ==> hs'[k].handlerCount == hs[k].handlerCount))
      && (s.caught in hs' ==>
            hs'[s.caught].handlerCount == hs[s.caught].handlerCount + (if hs[s.caught].handlerCount < 0 then 1 else -1))
    ensures EndCatch(s).control == LeaveHandler(s.control)
  {
    hide LeaveHandler, LeavesHandler;
  }

  /** A flight that can leave all its clauses could do so one clause earlier. */
  lemma ClearsMore(d: seq<Frame>, h: nat)
    requires Clears(d + [Flight(h)], |d|)
    ensures Clears(d + [Handler(h), Flight(h)], |d| + 1)
  {
    var b, c := d + [Handler(h), Flight(h)], d + [Flight(h)];
    assert b[..|d| + 1] == d + [Handler(h)] && c[..|d|] == d;
    FrameSnoc(d, Handler(h));
    assert forall j | 0 <= j < |d| :: b[j] == d[j] == c[j];
  }

  lemma SafeEnd(s: State)
    requires Inv(s) && Safe(s.headers, s.control) && MayEndCatch(s)
    ensures Safe(EndCatch(s).headers, EndCatch(s).control)
  {
    hide Clears, Inv, EndCatch, LeaveHandler, Leaving;
    var d, h, unwinding, f := HowItLeaves(s.control);
    LeavingGroups(s, d, h, unwinding, f);
    CaughtIsOpen(s);
    EndedCounts(s);
    LeavingMeans(s.control, d, h, unwinding, f);
    if unwinding {
      SafeEndUnwinding(s, d, h, f);
    } else {
      var hs' := EndCatch(s).headers;
          forall i: nat | i < |d|
        ensures SafeAt(hs', d, i)
      {
        assert SafeAt(s.headers, d + [Handler(h)], i);
        SafeBelow(s.headers, hs', d, [Handler(h)], [], i);
        assert d + [] == d;
      }
    }
  }

  lemma LeavingMeans(c: seq<Frame>, d: seq<Frame>, h: nat, unwinding: bool, f: nat)
    requires Leaving(c, d, h, unwinding, f)
    ensures c == if unwinding then d + [Handler(h), Flight(f)] else d + [Handler(h)]
  {
  }

  lemma SafeEndUnwinding(s: State, d: seq<Frame>, h: nat, f: nat)
    requires Inv(s) && Safe(s.headers, s.control) && MayEndCatch(s) && s.caught == h != 0
    requires s.control == d + [Handler(h), Flight(f)] && LeaveHandler(s.control) == d + [Flight(f)]
    ensures Safe(EndCatch(s).headers, EndCatch(s).control)
  {
    hide Clears, Inv, EndCatch, LeaveHandler, FlightsOk;
    CaughtIsOpen(s);
    EndedCounts(s);
    var hs, hs' := s.headers, EndCatch(s).headers;
    var x, y := [Handler(h), Flight(f)], [Flight(f)];
    assert x == [Handler(h)] + [Flight(f)];
    forall i: nat | i < |d|
      ensures SafeAt(hs', d + y, i)
    {
      assert SafeAt(hs, d + x, i);
      SafeBelow(hs, hs', d, x, y, i);
    }
    JustFlights(s);
    assert s.control == (d + [Handler(h)]) + [Flight(f)];
    FlightsSnoc(hs, d + [Handler(h)], Flight(f));
    LastGroup(d, h);
    if f == h && Clears(d + y, |d|) {
      ClearsMore(d, h);
      assert SafeAt(hs, d + x, |d| + 1);
      assert (d + x)[|d| + 1] == Flight(h);
    }
    SafeTop(hs', d, Flight(f));
  }

  // ----- careful steps

  /** A rethrow in a careful step is of an exception that is not exposed. */
  ghost predicate CarefulStep(s: State, a: Action, s': State) {
    Step(s, a, s') && (a.Rethrows? ==> !Exposed(s.control, s.caught))
  }

  /** The flight of a doomed step is about to leave its last clause. */
  lemma DoomedClears(s: State)
    requires Inv(s) && Dooms(s)
    ensures Clears(s.control, |s.control| - 1)
  {
    hide Inv;
    var n := |s.control|;
    var c, h := s.control, s.caught;
    var d := c[..n - 2];
    assert c == d + [c[n - 2], Flight(h)];
    LeavingGroups(s, d, c[n - 2].h, true, h);
    JustStack(s);
    CountIsOpen(s.headers, h, c, h);
    assert c == c[..n - 1] + [Flight(h)] && c[..n - 1] == d + [Handler(h)];
    FrameSnoc(c[..n - 1], Flight(h));
    FrameSnoc(d, Handler(h));
  }

  lemma SafeNotDoomed(s: State)
    requires Inv(s) && Safe(s.headers, s.control)
    ensures !Dooms(s)
  {
    hide Inv, Clears;
    assert |s.control| > 0 ==> SafeAt(s.headers, s.control, |s.control| - 1);
    if Dooms(s) {
      DoomedClears(s);
    }
  }

  /** Careful steps are never doomed. */
  lemma CarefulKeeps(s: State, a: Action, s': State)
    requires Inv(s) && Safe(s.headers, s.control) && CarefulStep(s, a, s')
    ensures Inv(s') && Safe(s'.headers, s'.control)
  {
    hide Inv, Safe, Exposed, BeginCatch, EndCatch, Rethrow, Doomed;
    SafeNotDoomed(s);
    NotDoomed(s, a);
    StepExact(s, a, s');
    match a
    case Throws(h) => SafeThrow(s, s', h);
    case BeginsCatch => SafeBegin(s);
    case EndsCatch => SafeEnd(s);
    case Rethrows =>
      NoZero(s);
      SafeRethrow(s);
    case RethrowsPrimary(p, d) => SafeThrow(s, s', d);
    case _ => SafeKeep(s, s');
  }

  lemma NotDoomed(s: State, a: Action)
    requires !Dooms(s)
    ensures !Doomed(s, a)
  {
    hide Dooms;
  }

  ghost predicate Careful(path: seq<State>, acts: seq<Action>) {
    |path| == |acts| + 1 && forall i | 0 <= i < |acts| :: CarefulStep(path[i], acts[i], path[i + 1])
  }

  lemma {:induction false} CarefulAccounted(path: seq<State>, acts: seq<Action>, m: nat)
    requires Careful(path, acts) && Inv(path[0]) && Safe(path[0].headers, path[0].control) && m < |path|
    ensures Inv(path[m]) && Safe(path[m].headers, path[m].control) && Accounted(path[m])
  {
    hide Inv, Safe, CarefulStep, Accounted;
    if m > 0 {
      CarefulAccounted(path, acts, m - 1);
      CarefulKeeps(path[m - 1], acts[m - 1], path[m]);
    }
    Accounts(path[m]);
  }

  lemma StartSafe()
    ensures Inv(Start()) && Safe(Start().headers, Start().control)
  {
  }

  // ----- the way from a careless rethrow to the doomed step

  /** An exposed flight i of a caught exception h, which is or will be marked as handled once i is innermost. */
  ghost predicate Careless(s: State, i: nat, h: nat) {
    && Inv(s) && i < |s.control| && s.control[i] == Flight(h) && Clears(s.control, i)
    && h in s.headers && s.headers[h].handlerCount != 0
    && (s.headers[h].handlerCount > 0 || Flight(h) in s.control[i + 1..])
  }

  ghost predicate GoesWrong(s: State, path: seq<State>, acts: seq<Action>) {
    Careful(path, acts) && path[0] == s && !Accounted(path[|acts|])
  }

  lemma StepFirst(s: State, a: Action, s': State, path: seq<State>, acts: seq<Action>)
    requires CarefulStep(s, a, s') && GoesWrong(s', path, acts)
    ensures GoesWrong(s, [s] + path, [a] + acts)
  {
    hide CarefulStep, Accounted;
    var path', acts' := [s] + path, [a] + acts;
    forall i | 0 <= i < |acts'|
      ensures CarefulStep(path'[i], acts'[i], path'[i + 1])
    {
      if i > 0 {
        assert CarefulStep(path[i - 1], acts[i - 1], path[i]);
      }
    }
  }

  /** Whatever is above the exposed flight lands and ends; then the flight leaves its clauses, the last one doomed. */
  lemma {:induction false} GoWrong(s: State, i: nat, h: nat) returns (path: seq<State>, acts: seq<Action>)
    requires Careless(s, i, h)
    ensures GoesWrong(s, path, acts)
    decreases |s.control| + FlightCount(s.control)
  {
    hide Careless, GoesWrong, CarefulStep, Dooms;
    var a, i', s' := NextWrong(s, i, h);
    CarelessMeans(s, i, h);
    if Dooms(s) {
      DoomedStep(s);
      path, acts := [s, EndCatch(s)], [EndsCatch];
    } else {
      path, acts := GoWrong(s', i', h);
      StepFirst(s, a, s', path, acts);
      path, acts := [s] + path, [a] + acts;
    }
  }

  lemma DoomedStep(s: State)
    requires Inv(s) && Dooms(s)
    ensures MayEndCatch(s) && GoesWrong(s, [s, EndCatch(s)], [EndsCatch])
  {
    hide Inv, Accounted, EndCatch;
    EndCatchDooms(s);
  }

  /** Frames above flight i change: k lands, or its clause ends. */
  lemma AboveChanges(d: seq<Frame>, i: nat, h: nat, k: nat)
    requires i < |d|
    ensures
      var b, c, e := d + [Flight(k)], d + [Handler(k)], d;
      && Clears(b, i) == Clears(c, i) == Clears(e, i) && b[i] == c[i] == e[i]
      && (Flight(h) in b[i + 1..] <==> Flight(h) in e[i + 1..] || k == h)
      && (Flight(h) in c[i + 1..] <==> Flight(h) in e[i + 1..])
      && FlightCount(b) == FlightCount(e) + 1 && FlightCount(c) == FlightCount(e)
  {
    hide Clears, FlightCount;
    ClearsPrefix(d, [Flight(k)], i);
    ClearsPrefix(d, [Handler(k)], i);
    FrameSnoc(d[i + 1..], Flight(k));
    FrameSnoc(d[i + 1..], Handler(k));
    GroupsSnoc(d, Flight(k));
    GroupsSnoc(d, Handler(k));
  }

  /** A flight above the exposed one ends in a catch clause. */
  lemma LandTop(s: State, i: nat, h: nat) returns (s': State)
    requires Careless(s, i, h) && i + 1 < |s.control| && s.control[|s.control| - 1].Flight?
    ensures CarefulStep(s, BeginsCatch, s') && Careless(s', i, h)
    ensures |s'.control| == |s.control| && FlightCount(s'.control) < FlightCount(s.control)
  {
    hide Inv, Clears, FlightCount;
    BeginCatchKeeps(s);
    var n := |s.control| - 1;
    var d, k := s.control[..n], s.control[n].h;
    s' := BeginCatch(s);
    assert s.control == d + [Flight(k)] && s'.control == d + [Handler(k)];
    AboveChanges(d, i, h, k);
  }

  /** A catch clause above the exposed flight ends. */
  lemma EndTop(s: State, i: nat, h: nat) returns (s': State)
    requires Careless(s, i, h) && s.control[|s.control| - 1].Handler?
    ensures CarefulStep(s, EndsCatch, s') && Careless(s', i, h) && !Dooms(s)
    ensures |s'.control| < |s.control| && FlightCount(s'.control) == FlightCount(s.control)
  {
    hide Inv, Clears, FlightCount, EndCatch;
    EndCatchKeeps(s);
    var n := |s.control| - 1;
    var d, k := s.control[..n], s.control[n].h;
    s' := EndCatch(s);
    assert s.control == d + [Handler(k)];
    LeavingGroups(s, d, k, false, 0);
    CaughtIsOpen(s);
    EndedCounts(s);
    assert s'.control == d;
    AboveChanges(d, i, h, k);
    StillCaught(s, s', d, i, h, k);
  }

  /** The clauses below the flight keep its exception caught. */
  lemma StillCaught(s: State, s': State, d: seq<Frame>, i: nat, h: nat, k: nat)
    requires Inv(s) && Inv(s') && s.control == d + [Handler(k)] && s'.control == d && i < |d| && d[i] == Flight(h)
    requires h in s.headers && s.headers[h].handlerCount != 0
    ensures h in s'.headers && s'.headers[h].handlerCount != 0
  {
    hide Inv, FlightsOk;
    assert d[i] in d;
    FlightsThere(s');
    JustFlights(s);
    NoZero(s);
    FlightsSnoc(s.headers, d, Handler(k));
    CaughtBelow(s.headers, d, h);
    JustStack(s');
    CountIsOpen(s'.headers, s'.caught, d, h);
  }

  lemma ClearsLess(d: seq<Frame>, h: nat)
    requires Clears(d + [Handler(h), Flight(h)], |d| + 1)
    ensures Clears(d + [Flight(h)], |d|)
  {
    var b, c := d + [Handler(h), Flight(h)], d + [Flight(h)];
    assert b[..|d| + 1] == d + [Handler(h)] && c[..|d|] == d;
    FrameSnoc(d, Handler(h));
    assert forall j | 0 <= j < |d| :: b[j] == d[j] == c[j];
  }

  /** The exposed flight, innermost now, is right above a clause that has caught its exception. */
  lemma ClauseBelow(s: State, i: nat, h: nat)
    requires Careless(s, i, h) && i + 1 == |s.control|
    ensures i > 0 && s.control[i - 1] == Handler(h) && s.headers[h].handlerCount > 0
  {
    hide Inv, FlightsOk, Groups;
    var d := s.control[..i];
    assert s.control == d + [Flight(h)];
    JustFlights(s);
    FlightsSnoc(s.headers, d, Flight(h));
    NoZero(s);
    TopIsOpen(d);
  }

  /** It leaves that clause. */
  lemma LeaveOne(s: State, i: nat, h: nat) returns (s': State)
    requires Careless(s, i, h) && i + 1 == |s.control| && !Dooms(s)
    ensures i > 0 && CarefulStep(s, EndsCatch, s') && Careless(s', i - 1, h)
    ensures |s'.control| < |s.control| && FlightCount(s'.control) == FlightCount(s.control)
  {
    hide Inv, Clears, FlightCount, EndCatch;
    ClauseBelow(s, i, h);
    EndCatchKeeps(s);
    var c, d := s.control, s.control[..i - 1];
    s' := EndCatch(s);
    assert c == d + [Handler(h), Flight(h)];
    LeavingGroups(s, d, h, true, h);
    CaughtIsOpen(s);
    EndedCounts(s);
    assert s'.control == d + [Flight(h)];
    ClearsLess(d, h);
    FlightsOfTwo(d, h, h);
    assert s'.control[i - 1] == Flight(h);
    FlightsThere(s');
  }

  /** One step nearer to the doomed one. */
  lemma NextWrong(s: State, i: nat, h: nat) returns (a: Action, i': nat, s': State)
    requires Careless(s, i, h)
    ensures !Dooms(s) ==> CarefulStep(s, a, s') && Careless(s', i', h)
    ensures !Dooms(s) ==> |s'.control| + FlightCount(s'.control) < |s.control| + FlightCount(s.control)
  {
    hide Careless, CarefulStep, Dooms, BeginCatch, EndCatch;
    CarelessMeans(s, i, h);
    if s.control[|s.control| - 1].Handler? {
      a, i' := EndsCatch, i;
      s' := EndTop(s, i, h);
    } else if i + 1 < |s.control| {
      a, i' := BeginsCatch, i;
      s' := LandTop(s, i, h);
    } else {
      a, i', s' := EndsCatch, if i > 0 then i - 1 else 0, s;
      if !Dooms(s) {
        s' := LeaveOne(s, i, h);
      }
    }
  }

  lemma CarelessMeans(s: State, i: nat, h: nat)
    requires Careless(s, i, h)
    ensures i < |s.control| && Inv(s)
  {
  }

  // ----- what is exact

  /** The future of a state: after every careful continuation the bookkeeping is right. */
  ghost predicate GoesWell(s: State) {
    forall path, acts | Careful(path, acts) && path[0] == s :: Accounted(path[|acts|])
  }

  /** In a state of the invariant nothing goes wrong later exactly when the state is safe. */
  lemma SafeExact(s: State)
    requires Inv(s)
    ensures GoesWell(s) <==> Safe(s.headers, s.control)
  {
    hide Inv, Clears, Accounted, CarefulStep;
    if Safe(s.headers, s.control) {
      forall path, acts | Careful(path, acts) && path[0] == s
        ensures Accounted(path[|acts|])
      {
        CarefulAccounted(path, acts, |acts|);
      }
    } else {
      var i: nat :| i < |s.control| && !SafeAt(s.headers, s.control, i);
      FlightClears(s.control, i);
      var path, acts := GoWrong(s, i, s.control[i].h);
      assert Careful(path, acts) && path[0] == s && !Accounted(path[|acts|]);
    }
  }

  /** A safe state is left by throw; exactly when the caught exception is exposed. */
  lemma ExposedUnsafe(s: State)
    requires Inv(s) && Safe(s.headers, s.control) && s.caught != 0
    ensures s.caught in s.headers
    ensures Safe(Rethrow(s).headers, Rethrow(s).control) <==> !Exposed(s.control, s.caught)
  {
    hide Inv, Clears;
    CaughtIsOpen(s);
    var c, h := s.control, s.caught;
    if Exposed(c, h) {
      var i: nat :| i < |c| && c[i] == Flight(h) && Clears(c, i);
      ClearsPrefix(c, [Flight(h)], i);
      assert !SafeAt(Rethrow(s).headers, c + [Flight(h)], i);
    } else {
      SafeRethrow(s);
    }
  }

  /**
   After throw; every careful continuation keeps the bookkeeping right exactly when the caught exception was
   not exposed: not in flight with all its open catch clauses directly below that flight.
   */
  lemma RethrowExact(s: State)
    requires Inv(s) && Safe(s.headers, s.control) && s.caught != 0
    ensures s.caught in s.headers && (GoesWell(Rethrow(s)) <==> !Exposed(s.control, s.caught))
  {
    hide Inv, Safe, Exposed, Rethrow, GoesWell;
    ExposedUnsafe(s);
    RethrowKeeps(s);
    SafeExact(Rethrow(s));
  }

  /**
   A destructor that runs while 2 unwinds past a handler of 1, and rethrows 1: 1 cannot leave that handler
   before it has been caught again, so rethrowing it once more is harmless.  Directly above its handler it is not.
   */
  lemma ExposedOrNot()
    ensures !Exposed([Handler(1), Flight(2), Flight(1)], 1) && Exposed([Handler(1), Flight(1)], 1)
  {
    var c, b := [Handler(1), Flight(2), Flight(1)], [Handler(1), Flight(1)];
    assert c[..2] == [Handler(1), Flight(2)] && c[1] != Handler(1);
    assert b[..1] == [Handler(1)] && Clears(b, 1);
  }

  /** Careful runs: in every state the bookkeeping is right, the state is safe, and no step is doomed. */
  lemma CarefulRun(path: seq<State>, acts: seq<Action>, m: nat)
    requires Careful(path, acts) && path[0] == Start() && m < |path|
    ensures Inv(path[m]) && Safe(path[m].headers, path[m].control) && Accounted(path[m])
    ensures m < |acts| ==> !Doomed(path[m], acts[m])
  {
    hide Inv, Safe, CarefulStep, Accounted, Doomed;
    StartSafe();
    CarefulAccounted(path, acts, m);
    SafeNotDoomed(path[m]);
    if m < |acts| {
      NotDoomed(path[m], acts[m]);
    }
  }
}
