/** What the runtime's counters mean in every run of one thread, and the only step after which they do not. */
module ExceptionRuns {
  import opened Common
  import opened ExceptionModel
  import opened ExceptionRuntime

  datatype Action =
    | Throws(h: nat)
    | BeginsCatch
    | EndsCatch
    | Rethrows
    | Captures
    | Copies(p: nat)
    | Drops(p: nat)
    | RethrowsPrimary(p: nat, d: nat)

  /** A well-nested step: handlers begin and end for the innermost flight and clause, handles are used while owned. */
  ghost predicate Step(s: State, a: Action, s': State) {
    match a
    case Throws(h) => New(s, h) && s' == Throw(s, h)
    case BeginsCatch => MayBeginCatch(s) && s' == BeginCatch(s)
    case EndsCatch => MayEndCatch(s) && s' == EndCatch(s)
    case Rethrows => s.caught in s.headers && s' == Rethrow(s)
    case Captures => MayCapture(s) && s' == Capture(s)
    case Copies(p) => p in s.handles && p in s.headers && s.headers[p].Primary? && s' == CopyHandle(s, p)
    case Drops(p) =>
      && p in s.handles && p in s.headers && s.headers[p].Primary? && s.headers[p].referenceCount > 0
      && s' == DropHandle(s, p)
    case RethrowsPrimary(p, d) =>
      p in s.handles && p in s.headers && s.headers[p].Primary? && New(s, d) && s' == RethrowPrimary(s, p, d)
  }

  /** Consecutive steps. */
  ghost predicate Steps(path: seq<State>, acts: seq<Action>) {
    |path| == |acts| + 1 && forall i | 0 <= i < |acts| :: Step(path[i], acts[i], path[i + 1])
  }

  ghost predicate Run(path: seq<State>, acts: seq<Action>) {
    Steps(path, acts) && path[0] == Start()
  }

  ghost predicate Doomed(s: State, a: Action) {
    a.EndsCatch? && Dooms(s)
  }

  /** Every step keeps the invariant but the doomed one, after which the bookkeeping is wrong. */
  lemma StepExact(s: State, a: Action, s': State)
    requires Inv(s) && Step(s, a, s')
    ensures !Doomed(s, a) ==> Inv(s')
    ensures Doomed(s, a) ==> !Accounted(s')
  {
    hide Inv, Throw, BeginCatch, EndCatch, Rethrow, Capture, CopyHandle, DropHandle, RethrowPrimary, Accounted, Dooms;
    match a
    case Throws(h) => ThrowKeeps(s, h);
    case BeginsCatch => BeginCatchKeeps(s);
    case EndsCatch =>
      if Dooms(s) {
        EndCatchDooms(s);
      } else {
        EndCatchKeeps(s);
      }
    case Rethrows =>
      NoZero(s);
      RethrowKeeps(s);
    case Captures => CaptureKeeps(s);
    case Copies(p) => CopyHandleKeeps(s, p);
    case Drops(p) => DropHandleKeeps(s, p);
    case RethrowsPrimary(p, d) => RethrowPrimaryKeeps(s, p, d);
  }

  /** In every state of the invariant the bookkeeping is right. */
  lemma Accounts(s: State)
    requires Inv(s)
    ensures Accounted(s)
  {
    hide FlightCount, Groups, FlightsOk;
    forall h | h in s.headers
      ensures Counted(s, h)
    {
      CountIsOpen(s.headers, s.caught, s.control, h);
      assert HeaderOk(s.headers, s.control, s.handles, h);
    }
    forall f | f in s.control
      ensures f.h in s.headers
    {
      if f.Flight? {
        if f.h !in s.headers {
          NotInFlight(s, f.h);
        }
      } else {
        CountIsOpen(s.headers, s.caught, s.control, f.h);
      }
    }
  }

  lemma EndCatchEither(s: State)
    requires Inv(s) && LeavesHandler(s.control)
    ensures MayEndCatch(s)
    ensures !Dooms(s) ==> Inv(EndCatch(s)) && Accounted(EndCatch(s))
    ensures Dooms(s) ==> !Inv(EndCatch(s)) && !Accounted(EndCatch(s))
  {
    hide Inv, LeavesHandler, EndCatch, Dooms, Accounted;
    if Dooms(s) {
      EndCatchDooms(s);
      if Inv(EndCatch(s)) {
        Accounts(EndCatch(s));
      }
    } else {
      EndCatchKeeps(s);
      Accounts(EndCatch(s));
    }
  }

  /** From a state of the invariant, steps that are not doomed keep it. */
  lemma {:induction false} StepsKeep(path: seq<State>, acts: seq<Action>, m: nat)
    requires Steps(path, acts) && Inv(path[0]) && m <= |acts|
    requires forall i | 0 <= i < m :: !Doomed(path[i], acts[i])
    ensures Inv(path[m])
  {
    hide Inv, Step, Doomed;
    if m > 0 {
      StepsKeep(path, acts, m - 1);
      StepExact(path[m - 1], acts[m - 1], path[m]);
    }
  }

  /** Over every run the bookkeeping is right up to the first doomed step, and wrong after that step. */
  lemma RunExact(path: seq<State>, acts: seq<Action>, m: nat)
    requires Run(path, acts) && m <= |acts|
    requires forall i | 0 <= i < m :: !Doomed(path[i], acts[i])
    ensures Inv(path[m]) && Accounted(path[m])
    ensures m < |acts| ==> (Accounted(path[m + 1]) <==> !Doomed(path[m], acts[m]))
  {
    hide Inv, Step, Doomed, Accounted;
    StartInv();
    StepsKeep(path, acts, m);
    Accounts(path[m]);
    if m < |acts| {
      StepExact(path[m], acts[m], path[m + 1]);
      if !Doomed(path[m], acts[m]) {
        Accounts(path[m + 1]);
      }
    }
  }

  // ----- an exception_ptr keeps its object

  /** What a step does to the handles. */
  function HandlesAfter(s: State, a: Action): multiset<nat> {
    match a
    case Captures =>
      if s.caught == 0 || s.caught !in s.headers then s.handles
      else s.handles + multiset{PrimaryOf(s.headers, s.caught)}
    case Copies(p) => s.handles + multiset{p}
    case Drops(p) => s.handles - multiset{p}
    case _ => s.handles
  }

  lemma StepHandles(s: State, a: Action, s': State)
    requires Step(s, a, s')
    ensures s'.handles == HandlesAfter(s, a)
  {
  }

  /**
   An object that an exception_ptr names before and after a step, or from the step on, is a live primary after it and
   has not been destroyed; not even the doomed step takes it away.
   */
  lemma HandleKeeps(s: State, a: Action, s': State, p: nat)
    requires Inv(s) && Step(s, a, s') && p in s'.handles
    ensures p in s'.headers && s'.headers[p].Primary? && s'.headers[p].referenceCount > 0 && p !in s'.destroyed
  {
    hide Step, StackInv, FlightInv;
    StepExact(s, a, s');
    if Doomed(s, a) {
      DoomedHandle(s, a, s', p);
    } else {
      HeldIsLive(s', p);
    }
  }

  lemma HeldIsLive(s: State, p: nat)
    requires Inv(s) && p in s.handles
    ensures p in s.headers && s.headers[p].Primary? && s.headers[p].referenceCount > 0 && p !in s.destroyed
  {
    hide StackInv, FlightInv, Owned;
    assert HeaderOk(s.headers, s.control, s.handles, p);
  }

  lemma DoomedHandle(s: State, a: Action, s': State, p: nat)
    requires Inv(s) && Step(s, a, s') && Doomed(s, a) && p in s'.handles
    ensures p in s'.headers && s'.headers[p].Primary? && s'.headers[p].referenceCount > 0 && p !in s'.destroyed
  {
    hide StackInv, FlightInv, LeaveHandler, LeavesHandler;
    HeldIsLive(s, p);
    assert HeaderOk(s.headers, s.control, s.handles, p);
    assert HeaderOk(s.headers, s.control, s.handles, s.caught);
    if s.headers[s.caught].Dependent? && s.headers[s.caught].primary == p {
      assert s.caught in Dependents(s.headers, p);
    }
  }

  // ----- no thrown object is lost

  /** Primaries that exist or have been destroyed. */
  function Known(s: State): set<nat> {
    (set p | p in s.headers && s.headers[p].Primary?) + (set p | p in s.destroyed)
  }

  lemma KnownDecrement(s: State, p: nat)
    requires p in s.headers && s.headers[p].Primary? && s.headers[p].referenceCount > 0
    ensures Known(Decrement(s, p)) == Known(s)
  {
    var s' := Decrement(s, p);
    assert forall k :: k in s'.destroyed ==> k in s.destroyed || k == p;
    assert forall k :: k in s.destroyed ==> k in s'.destroyed;
    assert p in Known(s');
  }

  lemma KnownFinish(s: State, h: nat)
    requires Releasable(s.headers, h)
    ensures Known(Finish(s, h)) == Known(s)
  {
    hide Known, Decrement;
    match s.headers[h]
    case Primary(_, _, _) =>
      assert Finish(s, h) == Decrement(s, h);
      KnownDecrement(s, h);
    case Dependent(p, _, _) =>
      assert Finish(s, h) == Decrement(s.(headers := s.headers - {h}), p);
      KnownFree(s, h);
      KnownDecrement(s.(headers := s.headers - {h}), p);
  }

  lemma KnownFree(s: State, d: nat)
    requires d in s.headers && s.headers[d].Dependent?
    ensures Known(s.(headers := s.headers - {d})) == Known(s)
  {
    var s' := s.(headers := s.headers - {d});
    assert forall p :: p in s'.headers && s'.headers[p].Primary? <==> p in s.headers && s.headers[p].Primary?;
  }

  /** Replacing a header by one of the same kind. */
  lemma KnownUpdate(s: State, h: nat, x: Header, s': State)
    requires h in s.headers && s.headers[h].Primary? == x.Primary?
    requires s'.headers == s.headers[h := x] && s'.destroyed == s.destroyed
    ensures Known(s') == Known(s)
  {
    assert forall p :: p in s'.headers && s'.headers[p].Primary? <==> p in s.headers && s.headers[p].Primary?;
  }

  lemma KnownSame(s: State, s': State)
    requires s'.headers == s.headers && s'.destroyed == s.destroyed
    ensures Known(s') == Known(s)
  {
  }

  lemma KnownEndCatch(s: State)
    requires MayEndCatch(s)
    ensures Known(EndCatch(s)) == Known(s)
  {
    hide Known, Finish, LeavesHandler, LeaveHandler;
    if s.caught == 0 {
      KnownSame(s, EndCatch(s));
    } else {
      var h := s.caught;
      var x := s.headers[h];
      var count := if x.handlerCount < 0 then x.handlerCount + 1 else x.handlerCount - 1;
      var s1 := s.(headers := s.headers[h := WithCount(x, count)], control := LeaveHandler(s.control));
      KnownUpdate(s, h, WithCount(x, count), s1);
      KnownUpdate(s, h, WithCount(x, count), s1.(caught := x.next));
      if x.handlerCount >= 0 && count == 0 {
        KnownFinish(s1.(caught := x.next), h);
      }
    }
  }

  /** No thrown object is lost: after each step it exists or has been destroyed. */
  lemma StepKnown(s: State, a: Action, s': State)
    requires Step(s, a, s')
    ensures Known(s') == Known(s) + if a.Throws? then {a.h} else {}
  {
    hide EndCatch, Decrement, MayEndCatch, Known;
    match a
    case Throws(h) => KnownThrow(s, h);
    case BeginsCatch =>
      var h := s.control[|s.control| - 1].h;
      KnownUpdate(s, h, s'.headers[h], s');
    case EndsCatch => KnownEndCatch(s);
    case Rethrows => KnownUpdate(s, s.caught, s'.headers[s.caught], s');
    case Captures =>
      if s.caught == 0 {
      } else {
        var p := PrimaryOf(s.headers, s.caught);
        KnownUpdate(s, p, s'.headers[p], s');
      }
    case Copies(p) => KnownUpdate(s, p, s'.headers[p], s');
    case Drops(p) =>
      KnownDecrement(s, p);
      KnownSame(Decrement(s, p), s');
    case RethrowsPrimary(p, d) => KnownDependent(s, p, d);
  }

  lemma KnownThrow(s: State, h: nat)
    requires New(s, h)
    ensures Known(Throw(s, h)) == Known(s) + {h}
  {
    var s' := Throw(s, h);
    assert forall p ::
      p in s'.headers && s'.headers[p].Primary? <==> p == h || (p in s.headers && s.headers[p].Primary?);
  }

  lemma KnownDependent(s: State, p: nat, d: nat)
    requires p in s.headers && s.headers[p].Primary? && New(s, d)
    ensures Known(RethrowPrimary(s, p, d)) == Known(s)
  {
    var s' := RethrowPrimary(s, p, d);
    assert forall k :: k in s'.headers && s'.headers[k].Primary? <==> k in s.headers && s.headers[k].Primary?;
  }

  function Thrown(acts: seq<Action>): set<nat> {
    if acts == [] then {}
    else Thrown(acts[..|acts| - 1]) + if acts[|acts| - 1].Throws? then {acts[|acts| - 1].h} else {}
  }

  lemma {:induction false} RunKnown(path: seq<State>, acts: seq<Action>)
    requires Run(path, acts)
    ensures Known(path[|acts|]) == Thrown(acts)
  {
    hide Step, Known;
    if |acts| == 0 {
      assert Known(Start()) == {} by {
        NothingKnown();
      }
    } else {
      var n := |acts|;
      RunKnown(path[..n], acts[..n - 1]);
      StepKnown(path[n - 1], acts[n - 1], path[n]);
    }
  }

  lemma NothingKnown()
    ensures Known(Start()) == {}
  {
  }

  /**
   When nothing is in flight or caught and no exception_ptr is left, every header is gone, and the objects
   thrown in the run have been destroyed, each exactly once.
   */
  lemma NothingLeaks(path: seq<State>, acts: seq<Action>)
    requires Run(path, acts) && forall i | 0 <= i < |acts| :: !Doomed(path[i], acts[i])
    ensures
      var s := path[|acts|];
      s.control == [] && s.handles == multiset{} ==>
        s.headers == map[] && s.uncaught == 0 && s.caught == 0 && Distinct(s.destroyed)
        && (set h | h in s.destroyed) == Thrown(acts)
  {
    hide Step, Inv, Thrown, Doomed, Accounted;
    RunExact(path, acts, |acts|);
    RunKnown(path, acts);
    var s := path[|acts|];
    if s.control == [] && s.handles == multiset{} {
      Quiet(s);
    }
  }

  lemma Quiet(s: State)
    requires Inv(s) && s.control == [] && s.handles == multiset{}
    ensures s.headers == map[] && s.uncaught == 0 && s.caught == 0 && Distinct(s.destroyed)
  {
    forall h | h in s.headers
      ensures s.headers[h].handlerCount == 0
      ensures s.headers[h].Primary? && Dependents(s.headers, h) != {}
    {
      CountIsOpen(s.headers, s.caught, s.control, h);
      SomebodyOwns(s, h);
    }
    assert forall h | h in s.headers :: Dependents(s.headers, h) == {};
    assert s.headers.Keys == {};
  }

  /** No header is kept without an owner. */
  lemma SomebodyOwns(s: State, h: nat)
    requires Inv(s) && h in s.headers
    ensures Flight(h) in s.control || OpenHandlers(s.control, h) > 0
      || (s.headers[h].Primary? && (h in s.handles || Dependents(s.headers, h) != {}))
  {
    hide StackInv, FlightInv;
    JustStack(s);
    CountIsOpen(s.headers, s.caught, s.control, h);
    assert HeaderOk(s.headers, s.control, s.handles, h);
  }

  lemma JustStack(s: State)
    requires Inv(s)
    ensures StackInv(s.headers, s.caught, Groups(s.control))
  {
  }

  // ----- the doomed step is reached

  /** The states of the run below: one primary at address 1. */
  function One(count: int, caught: nat, uncaught: nat, control: seq<Frame>): State {
    State(map[1 := Primary(1, count, 0)], caught, uncaught, control, multiset{}, [])
  }

  lemma OneBegins(count: int, caught: nat, uncaught: nat, c: seq<Frame>)
    requires caught <= 1 && uncaught > 0
    ensures
      var s := One(count, caught, uncaught, c + [Flight(1)]);
      && MayBeginCatch(s)
      && BeginCatch(s) == One((if count < 0 then -count else count) + 1, 1, uncaught - 1, c + [Handler(1)])
  {
    assert (c + [Flight(1)])[..|c|] == c;
  }

  lemma OneRethrows(count: int, uncaught: nat, c: seq<Frame>)
    ensures Rethrow(One(count, 1, uncaught, c)) == One(-count, 1, uncaught + 1, c + [Flight(1)])
  {
  }

  lemma OneEnds(count: int, uncaught: nat, c: seq<Frame>)
    requires count > 0 && LeavesHandler(c)
    ensures
      var s := One(count, 1, uncaught, c);
      MayEndCatch(s) && EndCatch(s) ==
        if count == 1 then State(map[], 0, uncaught, LeaveHandler(c), multiset{}, [1])
        else One(count - 1, 1, uncaught, LeaveHandler(c))
  {
    hide LeavesHandler, LeaveHandler;
  }

  /**
   A destructor that runs while a rethrown exception leaves its handler, and that says throw; inside a try
   block: the second rethrow turns handlerCount positive again, and the end of the outer handler destroys
   the exception while it is in flight.
   */
  lemma RethrowInFlight()
    ensures
      var caught := BeginCatch(One(0, 0, 1, [Flight(1)]));
      var twice := Rethrow(Rethrow(caught));
      var inner := BeginCatch(twice);
      && One(0, 0, 1, [Flight(1)]) == Throw(Start(), 1)
      && MayEndCatch(inner) && MayEndCatch(EndCatch(inner))
      && var last := EndCatch(EndCatch(inner));
         last.control == [Flight(1)] && last.headers == map[] && last.destroyed == [1]
  {
    hide BeginCatch, EndCatch, Rethrow, MayEndCatch, MayBeginCatch;
    var f, h := Flight(1), Handler(1);
    assert [] + [f] == [f] && [] + [h] == [h] && [h] + [f] == [h, f];
    assert [h, f] + [f] == [h, f, f] && [h, f] + [h] == [h, f, h];
    OneBegins(0, 0, 1, []);
    OneRethrows(1, 0, [h]);
    OneRethrows(-1, 1, [h, f]);
    OneBegins(1, 1, 2, [h, f]);
    OneEnds(2, 1, [h, f, h]);
    OneEnds(1, 1, [h, f]);
  }
}
