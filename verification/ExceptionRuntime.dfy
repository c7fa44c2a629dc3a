/** Every operation of the exception runtime keeps the invariant, over every well-nested run of one thread. */
module ExceptionRuntime {
  import opened Common
  import opened ExceptionModel
  import opened ExceptionCounts
  import opened ExceptionFlights
  import opened ExceptionOwners

  lemma StartInv()
    ensures Inv(Start())
  {
  }

  lemma ThrowKeeps(s: State, h: nat)
    requires Inv(s) && New(s, h)
    ensures Inv(Throw(s, h))
  {
    hide StackInv, FlightInv, CountInv, Groups, FlightCount;
    NotInFlight(s, h);
    GroupsSnoc(s.control, Flight(h));
    NoZero(s);
    StackKeep(s.headers, Throw(s, h).headers, s.caught, Groups(s.control));
    TakeOff(s.headers, Throw(s, h).headers, s.uncaught, s.control, h);
    AddPrimary(s.headers, s.control, s.handles, s.destroyed, h);
  }

  lemma NotInFlight(s: State, h: nat)
    requires FlightInv(s.headers, s.uncaught, s.control) && h !in s.headers
    ensures Flight(h) !in s.control
  {
    hide FlightsOk;
    if Flight(h) in s.control {
      FlightsExist(s.headers, s.control, h);
    }
  }

  /** The handler count of an exception is the number of its open catch clauses, also while it is negative. */
  lemma CountIsOpen(hs: Headers, caught: nat, c: seq<Frame>, h: nat)
    requires StackInv(hs, caught, Groups(c))
    ensures h in hs ==> Abs(hs[h].handlerCount) == OpenHandlers(c, h)
    ensures h !in hs ==> OpenHandlers(c, h) == 0
  {
    hide Groups;
    var g := Groups(c);
    GroupsCount(c, h);
    if Holds(g, h) {
      var i :| 0 <= i < |g| && g[i].h == h;
      assert GroupOk(hs, g, i);
    }
  }

  lemma NoZero(s: State)
    requires Inv(s)
    ensures 0 !in s.headers && s.caught == Top(Groups(s.control))
  {
  }

  /** The exception that a catch clause begins for is there; it is still caught exactly if it is the innermost one. */
  lemma Landing(s: State)
    requires Inv(s) && s.control != [] && s.control[|s.control| - 1].Flight?
    ensures MayBeginCatch(s)
    ensures
      var h := s.control[|s.control| - 1].h;
      h == s.caught <==> s.headers[h].handlerCount != 0
  {
    hide CountInv, Holds, DistinctGroups;
    var n := |s.control| - 1;
    var h := s.control[n].h;
    assert s.control == s.control[..n] + [Flight(h)];
    FlightsSnoc(s.headers, s.control[..n], Flight(h));
    GroupsSnoc(s.control[..n], Flight(h));
    var g := Groups(s.control);
    if h == s.caught {
      assert GroupOk(s.headers, g, |g| - 1);
    }
  }

  lemma BeginCatchKeeps(s: State)
    requires Inv(s) && s.control != [] && s.control[|s.control| - 1].Flight?
    ensures MayBeginCatch(s) && Inv(BeginCatch(s))
  {
    hide StackInv, FlightInv, CountInv, Groups, FlightCount, Owned;
    Landing(s);
    var n := |s.control| - 1;
    var c, h, s' := s.control[..n], s.control[n].h, BeginCatch(s);
    assert s.control == c + [Flight(h)];
    GroupsSnoc(c, Flight(h));
    GroupsSnoc(c, Handler(h));
    StackEnter(s.headers, s'.headers, s.caught, Groups(c), h);
    Land(s.headers, s'.headers, s.uncaught, c, h);
    FrameSnoc(c, Flight(h));
    FrameSnoc(c, Handler(h));
    forall k | k in s.headers
      ensures Owned(s.headers, s.control, k) == Owned(s'.headers, s'.control, k)
    {
      SameOwner(s.headers, s'.headers, s.control, s'.control, k);
    }
    CountKeep(s.headers, s'.headers, s.control, s'.control, s.handles, s.destroyed);
  }

  lemma SameOwner(hs: Headers, hs': Headers, c: seq<Frame>, c': seq<Frame>, k: nat)
    requires k in hs && k in hs'
    requires (Flight(k) in c || hs[k].handlerCount != 0) == (Flight(k) in c' || hs'[k].handlerCount != 0)
    ensures Owned(hs, c, k) == Owned(hs', c', k)
  {
  }

  /** The innermost caught exception has open catch clauses. */
  lemma CaughtIsOpen(s: State)
    requires Inv(s) && s.caught != 0
    ensures s.caught in s.headers && s.headers[s.caught].handlerCount != 0
    ensures s.headers[s.caught].handlerCount < 0 ==> Flight(s.caught) in s.control
    ensures Releasable(s.headers, s.caught)
  {
    hide FlightCount, Holds, DistinctGroups, FlightsOk, Groups;
    var g := Groups(s.control);
    assert GroupOk(s.headers, g, |g| - 1);
    assert HeaderOk(s.headers, s.control, s.handles, s.caught);
    if s.headers[s.caught].Dependent? {
      assert HeaderOk(s.headers, s.control, s.handles, s.headers[s.caught].primary);
    }
  }

  /** Also when the exception is in flight already. */
  lemma RethrowKeeps(s: State)
    requires Inv(s) && s.caught != 0
    ensures s.caught in s.headers && Inv(Rethrow(s))
  {
    hide StackInv, FlightInv, CountInv, Groups, FlightCount, Owned;
    CaughtIsOpen(s);
    NoZero(s);
    var h, s' := s.caught, Rethrow(s);
    GroupsSnoc(s.control, Flight(h));
    StackKeep(s.headers, s'.headers, s.caught, Groups(s.control));
    TakeOff(s.headers, s'.headers, s.uncaught, s.control, h);
    FrameSnoc(s.control, Flight(h));
    forall k | k in s.headers
      ensures Owned(s.headers, s.control, k) == Owned(s'.headers, s'.control, k)
    {
      SameOwner(s.headers, s'.headers, s.control, s'.control, k);
    }
    CountKeep(s.headers, s'.headers, s.control, s'.control, s.handles, s.destroyed);
  }

  // ----- releasing

  lemma DecrementKeeps(s: State, p: nat)
    requires StackInv(s.headers, s.caught, Groups(s.control)) && FlightInv(s.headers, s.uncaught, s.control)
    requires Spare(s.headers, s.control, s.handles, s.destroyed, p)
    ensures Inv(Decrement(s, p))
  {
    hide StackInv, FlightInv, CountInv, Groups, FlightCount;
    DecrementSpare(s, p);
    SpareZero(s);
    StackKeep(s.headers, Decrement(s, p).headers, s.caught, Groups(s.control));
    FlightKeep(s.headers, Decrement(s, p).headers, s.uncaught, s.control);
  }

  lemma SpareZero(s: State)
    requires StackInv(s.headers, s.caught, Groups(s.control))
    ensures 0 !in s.headers
  {
  }

  // ----- the end of a handler

  /** The nesting when a handler ends: the clauses around it, its exception, and the one that leaves it, if any. */
  ghost predicate Leaving(c: seq<Frame>, pre: seq<Frame>, h: nat, unwinding: bool, f: nat) {
    c == if unwinding then pre + [Handler(h), Flight(f)] else pre + [Handler(h)]
  }

  lemma HowItLeaves(c: seq<Frame>) returns (pre: seq<Frame>, h: nat, unwinding: bool, f: nat)
    requires LeavesHandler(c)
    ensures Leaving(c, pre, h, unwinding, f)
    ensures LeaveHandler(c) == if unwinding then pre + [Flight(f)] else pre
  {
    var n := |c|;
    if c[n - 1].Handler? {
      pre, h, unwinding, f := c[..n - 1], c[n - 1].h, false, 0;
    } else {
      pre, h, unwinding, f := c[..n - 2], c[n - 2].h, true, c[n - 1].h;
    }
  }

  /** The header of the handler's exception with its count one step nearer to zero. */
  function CountedDown(x: Header): Header {
    WithCount(x, if x.handlerCount < 0 then x.handlerCount + 1 else x.handlerCount - 1)
  }

  function DownOne(s: State): State
    requires s.caught in s.headers && LeavesHandler(s.control)
  {
    var x := s.headers[s.caught];
    s.(headers := s.headers[s.caught := CountedDown(x)], control := LeaveHandler(s.control),
       caught := if Abs(x.handlerCount) <= 1 then x.next else s.caught)
  }

  /** The stack, with what the flights need to know about it. */
  lemma DownOneStack(s: State, pre: seq<Frame>, h: nat, unwinding: bool, f: nat)
    requires Inv(s) && LeavesHandler(s.control) && Leaving(s.control, pre, h, unwinding, f)
    ensures h == s.caught != 0 && h in s.headers && s.headers[h].handlerCount != 0
    ensures OneLess(s.headers, s.headers[h := CountedDown(s.headers[h])], h)
    ensures StackInv(DownOne(s).headers, DownOne(s).caught, Groups(pre))
    ensures Abs(s.headers[h].handlerCount) == OpenHandlers(s.control, h)
    ensures Abs(s.headers[h].handlerCount) > 1 ==> Top(Groups(pre)) == h
    ensures s.headers[h].handlerCount < 0 ==> Flight(h) in s.control
  {
    hide StackInv, FlightInv, CountInv, Groups, FlightCount, LeaveHandler;
    LeavingGroups(s, pre, h, unwinding, f);
    NoZero(s);
    CaughtIsOpen(s);
    CountIsOpen(s.headers, s.caught, s.control, h);
    var hs' := DownOne(s).headers;
    StackLeave(s.headers, hs', Groups(pre), h);
    TopOfLeft(hs', s.headers[h].handlerCount, s.headers[h].next, h, Groups(pre));
  }

  /** The first half of __cxa_end_catch: the stack, the flights, and who owns what. */
  lemma DownOneKeeps(s: State)
    requires Inv(s) && LeavesHandler(s.control)
    ensures s.caught != 0 && s.caught in s.headers
    ensures
      var s' := DownOne(s);
      && StackInv(s'.headers, s'.caught, Groups(s'.control)) && FlightInv(s'.headers, s'.uncaught, s'.control)
    ensures forall k :: Flight(k) in LeaveHandler(s.control) <==> Flight(k) in s.control
    ensures s.headers[s.caught].handlerCount != 0
    ensures s.headers[s.caught].handlerCount == 1 ==> (Flight(s.caught) in s.control <==> Dooms(s))
  {
    hide Inv, StackInv, FlightInv, Groups, FlightCount, OneLess, LeavesHandler, LeaveHandler;
    var pre, h, unwinding, f := HowItLeaves(s.control);
    DownOneStack(s, pre, h, unwinding, f);
    JustFlights(s);
    if unwinding {
      LeaveUnwinding(s.headers, DownOne(s).headers, s.uncaught, pre, h, f);
      assert s.control == (pre + [Handler(h)]) + [Flight(f)];
      FrameSnoc(pre + [Handler(h)], Flight(f));
      FrameSnoc(pre, Handler(h));
      FrameSnoc(pre, Flight(f));
      GroupsSnoc(pre, Flight(f));
    } else {
      LeaveTop(s.headers, DownOne(s).headers, s.uncaught, pre, h);
      FrameSnoc(pre, Handler(h));
    }
  }

  lemma JustFlights(s: State)
    requires Inv(s)
    ensures FlightInv(s.headers, s.uncaught, s.control)
  {
  }

  lemma TopOfLeft(hs: Headers, count: int, next: nat, h: nat, g: seq<Group>)
    requires StackInv(hs, if Abs(count) > 1 then h else next, g)
    ensures Abs(count) > 1 ==> Top(g) == h
  {
  }

  lemma LeavingGroups(s: State, pre: seq<Frame>, h: nat, unwinding: bool, f: nat)
    requires Inv(s) && Leaving(s.control, pre, h, unwinding, f)
    ensures Groups(s.control) == Enter(Groups(pre), h) && s.caught == h != 0
  {
    hide CountInv, FlightInv, Groups, DistinctGroups, Holds;
    var c, g := s.control, Groups(s.control);
    GroupsSnoc(pre, Handler(h));
    if unwinding {
      assert c == (pre + [Handler(h)]) + [Flight(f)];
      GroupsSnoc(pre + [Handler(h)], Flight(f));
    }
    assert GroupOk(s.headers, g, |g| - 1);
  }

  /** The handler's exception stays: other clauses for it are open, or it is in flight again. */
  lemma EndCatchStays(s: State)
    requires Inv(s) && LeavesHandler(s.control) && s.caught in s.headers
    requires s.headers[s.caught].handlerCount < 0 || s.headers[s.caught].handlerCount > 1
    ensures Inv(DownOne(s))
  {
    hide StackInv, FlightInv, CountInv, Groups, FlightCount, Owned, LeaveHandler;
    DownOneKeeps(s);
    CaughtIsOpen(s);
    var s' := DownOne(s);
    forall k | k in s.headers
      ensures Owned(s.headers, s.control, k) == Owned(s'.headers, s'.control, k)
    {
      SameOwner(s.headers, s'.headers, s.control, s'.control, k);
    }
    CountKeep(s.headers, s'.headers, s.control, s'.control, s.handles, s.destroyed);
  }

  /** The last clause of an exception that was not rethrown: it loses an owner. */
  lemma EndCatchFinishes(s: State)
    requires Inv(s) && LeavesHandler(s.control) && s.caught in s.headers && s.headers[s.caught].handlerCount == 1
    requires !Dooms(s)
    ensures Releasable(s.headers, s.caught) && Inv(Finish(DownOne(s), s.caught))
  {
    hide StackInv, FlightInv, CountInv, Groups, FlightCount, Owned, LeaveHandler, Decrement, Dooms;
    DownOneKeeps(s);
    CaughtIsOpen(s);
    var h, s1 := s.caught, DownOne(s);
    NowFree(s1, s, h);
    forall k | k in s.headers && k != h
      ensures Owned(s.headers, s.control, k) == Owned(s1.headers, s1.control, k)
    {
      SameOwner(s.headers, s1.headers, s.control, s1.control, k);
    }
    match s.headers[h]
    case Primary(_, _, _) =>
      Disown(s.headers, s1.headers, s.control, s1.control, s.handles, s.destroyed, h);
      DecrementKeeps(s1, h);
    case Dependent(p, _, _) =>
      var s2 := s1.(headers := s1.headers - {h});
      assert s2.headers == s.headers - {h};
      forall k | k in s2.headers
        ensures Owned(s.headers, s.control, k) == Owned(s2.headers, s2.control, k)
      {
        SameOwner(s.headers, s2.headers, s.control, s2.control, k);
      }
      FreeDependent(s.headers, s2.headers, s.control, s2.control, s.handles, s.destroyed, h);
      SpareZero(s1);
      StackKeep(s1.headers, s2.headers, s1.caught, Groups(s1.control));
      FlightKeep(s1.headers, s2.headers, s1.uncaught, s1.control);
      DecrementKeeps(s2, p);
  }

  lemma NowFree(s1: State, s: State, h: nat)
    requires h in s.headers && h in s1.headers && s.headers[h].handlerCount != 0
    requires s1.headers[h].handlerCount == 0 && Flight(h) !in s1.control
    ensures Owned(s.headers, s.control, h) && !Owned(s1.headers, s1.control, h)
  {
  }

  /** The end of the last clause of an exception that is leaving it: an owner too many is taken away. */
  lemma EndCatchDooms(s: State)
    requires Inv(s) && LeavesHandler(s.control) && Dooms(s)
    ensures MayEndCatch(s) && !Accounted(EndCatch(s))
  {
    hide StackInv, FlightInv, FlightCount, LeaveHandler, LeavesHandler;
    DownOneKeeps(s);
    CaughtIsOpen(s);
    var h, s1, s' := s.caught, DownOne(s), EndCatch(s);
    assert s' == Finish(s1, h) && Flight(h) in s1.control;
    ReleasedInFlight(s, s1, h);
  }

  lemma ReleasedInFlight(s: State, s1: State, h: nat)
    requires CountInv(s.headers, s.control, s.handles, s.destroyed) && Releasable(s.headers, h)
    requires Flight(h) in s.control
    requires s1.headers == s.headers[h := CountedDown(s.headers[h])] && s1.handles == s.handles
    requires Flight(h) in s1.control && Releasable(s1.headers, h)
    ensures !Accounted(Finish(s1, h))
  {
    hide FlightCount, Distinct;
    var s' := Finish(s1, h);
    assert HeaderOk(s.headers, s.control, s.handles, h);
    if h in s'.headers {
      assert Dependents(s'.headers, h) == Dependents(s.headers, h);
      assert !Counted(s', h);
    } else {
      assert Flight(h) in s'.control;
    }
  }

  /** The end of a handler keeps the invariant unless it is the doomed one. */
  lemma EndCatchKeeps(s: State)
    requires Inv(s) && LeavesHandler(s.control) && !Dooms(s)
    ensures MayEndCatch(s) && Inv(EndCatch(s))
  {
    hide Inv, LeaveHandler, Finish, LeavesHandler, Dooms;
    DownOneKeeps(s);
    CaughtIsOpen(s);
    if s.headers[s.caught].handlerCount == 1 {
      EndCatchFinishes(s);
      assert EndCatch(s) == Finish(DownOne(s), s.caught);
    } else {
      EndCatchStays(s);
      assert EndCatch(s) == DownOne(s);
    }
  }

  // ----- exception_ptr

  lemma CopyHandleKeeps(s: State, p: nat)
    requires Inv(s) && p in s.headers && s.headers[p].Primary?
    ensures Inv(CopyHandle(s, p))
  {
    hide StackInv, FlightInv, CountInv, Groups, FlightCount;
    NoZero(s);
    IncrementSpare(s, p);
    GiveHandle(Increment(s, p).headers, s.control, s.handles, s.destroyed, p);
    StackKeep(s.headers, Increment(s, p).headers, s.caught, Groups(s.control));
    FlightKeep(s.headers, Increment(s, p).headers, s.uncaught, s.control);
  }

  lemma CaptureKeeps(s: State)
    requires Inv(s)
    ensures MayCapture(s) && Inv(Capture(s))
  {
    hide Inv;
    if s.caught != 0 {
      CaughtIsOpen(s);
      CopyHandleKeeps(s, PrimaryOf(s.headers, s.caught));
    }
  }

  lemma DropHandleKeeps(s: State, p: nat)
    requires Inv(s) && p in s.handles
    ensures p in s.headers && s.headers[p].Primary? && s.headers[p].referenceCount > 0 && Inv(DropHandle(s, p))
  {
    hide StackInv, FlightInv, CountInv, Groups, FlightCount;
    TakeHandle(s.headers, s.control, s.handles, s.destroyed, p);
    DecrementKeeps(s.(handles := s.handles - multiset{p}), p);
  }

  lemma RethrowPrimaryKeeps(s: State, p: nat, d: nat)
    requires Inv(s) && p in s.handles && New(s, d)
    ensures p in s.headers && s.headers[p].Primary? && Inv(RethrowPrimary(s, p, d))
  {
    hide StackInv, FlightInv, CountInv, Groups, FlightCount;
    HandleIsPrimary(s, p);
    NoZero(s);
    NotInFlight(s, d);
    IncrementSpare(s, p);
    var hs1, s' := Increment(s, p).headers, RethrowPrimary(s, p, d);
    AddDependent(hs1, s.control, s.handles, s.destroyed, p, d);
    GroupsSnoc(s.control, Flight(d));
    StackKeep(s.headers, s'.headers, s.caught, Groups(s.control));
    TakeOff(s.headers, s'.headers, s.uncaught, s.control, d);
  }

  lemma HandleIsPrimary(s: State, p: nat)
    requires Inv(s) && p in s.handles
    ensures p in s.headers && s.headers[p].Primary?
  {
  }
}
