/**
 The exception headers of one thread as cxa_exception.cpp keeps them: reference counts, handler counts,
 the stack of caught exceptions and the uncaught counter, next to what the program is doing with them.
 Native exceptions only: a header is a primary exception or a dependent one that stands for a primary.
 Addresses are positive numbers; 0 is NULL.
 */
module ExceptionModel {
  import opened Common

  datatype Header =
    | Primary(referenceCount: nat, handlerCount: int, next: nat)
    | Dependent(primary: nat, handlerCount: int, next: nat)

  type Headers = map<nat, Header>

  /** What the program is in the middle of: an exception that propagates, or a catch clause. */
  datatype Frame = Flight(h: nat) | Handler(h: nat)

  /** One caught exception with the number of its open catch clauses. */
  datatype Group = Group(h: nat, handlers: nat)

  /**
   headers, caught and uncaught are the runtime's memory.  control is the program's dynamic nesting,
   outermost first, handles the exception_ptr owners of each primary, and destroyed the primaries whose
   objects have been destroyed, in order.
   */
  datatype State = State(headers: Headers, caught: nat, uncaught: nat,
                         control: seq<Frame>, handles: multiset<nat>, destroyed: seq<nat>)

  function AsCount(b: bool): nat { if b then 1 else 0 }

  // ----- the caught exceptions that the program's nesting calls for

  function Enter(g: seq<Group>, h: nat): seq<Group> {
    if g != [] && g[|g| - 1].h == h then g[..|g| - 1] + [Group(h, g[|g| - 1].handlers + 1)]
    else g + [Group(h, 1)]
  }

  ghost predicate Positive(g: seq<Group>) {
    forall i | 0 <= i < |g| :: g[i].handlers > 0
  }

  /** The open catch clauses, consecutive ones for the same exception counted together. */
  function Groups(c: seq<Frame>): (g: seq<Group>)
    ensures Positive(g)
  {
    if c == [] then []
    else
      var before := Groups(c[..|c| - 1]);
      if c[|c| - 1].Handler? then Enter(before, c[|c| - 1].h) else before
  }

  function FlightCount(c: seq<Frame>): nat {
    if c == [] then 0 else FlightCount(c[..|c| - 1]) + AsCount(c[|c| - 1].Flight?)
  }

  lemma GroupsSnoc(c: seq<Frame>, f: Frame)
    ensures Groups(c + [f]) == if f.Handler? then Enter(Groups(c), f.h) else Groups(c)
    ensures FlightCount(c + [f]) == FlightCount(c) + AsCount(f.Flight?)
  {
    assert (c + [f])[..|c|] == c;
  }

  function Top(g: seq<Group>): nat {
    if g == [] then 0 else g[|g| - 1].h
  }

  ghost predicate Holds(g: seq<Group>, h: nat) {
    exists i :: 0 <= i < |g| && g[i].h == h
  }

  ghost predicate DistinctGroups(g: seq<Group>) {
    forall i, j | 0 <= i < j < |g| :: g[i].h != g[j].h
  }

  /** How many catch clauses are open for h. */
  function OpenHandlers(c: seq<Frame>, h: nat): nat {
    multiset(c)[Handler(h)]
  }

  /** The groups of h are one group of n catch clauses, or none if n is 0. */
  ghost predicate Sized(g: seq<Group>, h: nat, n: nat) {
    && (Holds(g, h) <==> n > 0)
    && forall i | 0 <= i < |g| && g[i].h == h :: g[i].handlers == n
  }

  /** When no exception has two groups, a group counts every open catch clause of its exception. */
  lemma {:induction false} GroupsCount(c: seq<Frame>, h: nat)
    requires DistinctGroups(Groups(c))
    ensures Sized(Groups(c), h, OpenHandlers(c, h))
  {
    hide Sized, DistinctGroups, Enter;
    if c == [] {
      NoneSized(h);
    } else {
      var pre, f := c[..|c| - 1], c[|c| - 1];
      assert c == pre + [f];
      GroupsSnoc(pre, f);
      EnterDistinct(Groups(pre), f.h);
      GroupsCount(pre, h);
      if f.Handler? {
        EnterSized(Groups(pre), f.h, h, OpenHandlers(pre, h));
      }
    }
  }

  lemma NoneSized(h: nat)
    ensures Sized([], h, 0)
  {
  }

  lemma EnterSized(g: seq<Group>, h: nat, k: nat, n: nat)
    requires Sized(g, k, n) && DistinctGroups(Enter(g, h)) && Positive(g)
    ensures Sized(Enter(g, h), k, n + AsCount(k == h))
  {
    hide Sized, DistinctGroups;
    if g != [] && g[|g| - 1].h == h {
      assert g == g[..|g| - 1] + [Group(h, g[|g| - 1].handlers)];
      SizedGrow(g[..|g| - 1], h, g[|g| - 1].handlers, k, n);
    } else {
      SizedPush(g, h, k, n);
    }
  }

  lemma SizedPush(g: seq<Group>, h: nat, k: nat, n: nat)
    requires Sized(g, k, n) && DistinctGroups(g + [Group(h, 1)])
    ensures Sized(g + [Group(h, 1)], k, n + AsCount(k == h))
  {
    hide Holds, DistinctGroups;
    NotBelow(g, h, 1);
    NotHeld(g, h);
    HoldsBelow(g, h, 1, k);
  }

  lemma SizedGrow(low: seq<Group>, h: nat, m: nat, k: nat, n: nat)
    requires Sized(low + [Group(h, m)], k, n) && DistinctGroups(low + [Group(h, m + 1)])
    ensures Sized(low + [Group(h, m + 1)], k, n + AsCount(k == h))
  {
    hide Holds, DistinctGroups;
    NotBelow(low, h, m + 1);
    NotHeld(low, h);
    HoldsBelow(low, h, m, k);
    HoldsBelow(low, h, m + 1, k);
    assert (low + [Group(h, m)])[|low|] == Group(h, m);
    assert forall i | 0 <= i < |low| :: (low + [Group(h, m)])[i] == low[i];
  }

  lemma HoldsBelow(g: seq<Group>, h: nat, n: nat, k: nat)
    ensures Holds(g + [Group(h, n)], k) <==> Holds(g, k) || k == h
  {
    var e := g + [Group(h, n)];
    assert forall i | 0 <= i < |g| :: e[i].h == g[i].h;
    assert e[|g|].h == h;
  }

  lemma NotHeld(g: seq<Group>, h: nat)
    ensures (forall i | 0 <= i < |g| :: g[i].h != h) ==> !Holds(g, h)
  {
  }

  lemma NotBelow(g: seq<Group>, h: nat, n: nat)
    requires DistinctGroups(g + [Group(h, n)])
    ensures forall i | 0 <= i < |g| :: g[i].h != h
  {
    var e := g + [Group(h, n)];
    assert e[|g|].h == h;
    assert forall i | 0 <= i < |g| :: e[i] == g[i];
  }

  lemma EnterDistinct(g: seq<Group>, h: nat)
    ensures DistinctGroups(Enter(g, h)) ==> DistinctGroups(g)
    ensures DistinctGroups(g) && !Holds(g, h) ==> DistinctGroups(Enter(g, h))
    ensures DistinctGroups(g) && Top(g) == h && h != 0 ==> DistinctGroups(Enter(g, h))
  {
    var e := Enter(g, h);
    assert forall i | 0 <= i < |g| :: e[i].h == g[i].h;
  }

  lemma EnterHolds(g: seq<Group>, h: nat, k: nat)
    ensures Holds(Enter(g, h), k) <==> Holds(g, k) || k == h
  {
    var e := Enter(g, h);
    assert forall i | 0 <= i < |g| :: e[i].h == g[i].h;
    assert e[|e| - 1].h == h;
  }

  // ----- the invariant

  ghost predicate GroupOk(hs: Headers, g: seq<Group>, i: nat)
    requires i < |g|
  {
    && g[i].h in hs && g[i].handlers > 0 && Abs(hs[g[i].h].handlerCount) == g[i].handlers
    && hs[g[i].h].next == Top(g[..i])
  }

  /** caught and the next links spell the groups, and the handler counts are their sizes. */
  ghost predicate StackInv(hs: Headers, caught: nat, g: seq<Group>) {
    && 0 !in hs && caught == Top(g) && DistinctGroups(g)
    && (forall i: nat | i < |g| :: GroupOk(hs, g, i))
    && (forall h | h in hs && hs[h].handlerCount != 0 :: Holds(g, h))
  }

  /**
   The flight f on top of the nesting d: its exception exists; if it is caught, the innermost catch clause is
   one of its own; and if it is in flight further down as well, it is caught.
   */
  ghost predicate FlightOk(hs: Headers, d: seq<Frame>, f: nat) {
    && f in hs
    && (hs[f].handlerCount != 0 ==> Top(Groups(d)) == f)
    && (Flight(f) in d ==> hs[f].handlerCount != 0)
  }

  ghost predicate FlightsOk(hs: Headers, c: seq<Frame>) {
    c != [] ==>
      var d, f := c[..|c| - 1], c[|c| - 1];
      FlightsOk(hs, d) && (f.Flight? ==> FlightOk(hs, d, f.h))
  }

  /** Only an exception in flight is marked as rethrown by a negative handler count. */
  ghost predicate FlightInv(hs: Headers, uncaught: nat, c: seq<Frame>) {
    && uncaught == FlightCount(c) && FlightsOk(hs, c)
    && (forall h | h in hs && hs[h].handlerCount < 0 :: Flight(h) in c)
  }

  /** A header is owned while its exception is in flight or caught. */
  ghost predicate Owned(hs: Headers, c: seq<Frame>, h: nat)
    requires h in hs
  {
    Flight(h) in c || hs[h].handlerCount != 0
  }

  function Dependents(hs: Headers, p: nat): set<nat> {
    set d | d in hs && hs[d].Dependent? && hs[d].primary == p
  }

  /** The live owners of a primary: itself while thrown or caught, its dependents, and exception_ptr handles. */
  ghost function Owners(hs: Headers, c: seq<Frame>, handles: multiset<nat>, p: nat): nat
    requires p in hs
  {
    AsCount(Owned(hs, c, p)) + |Dependents(hs, p)| + handles[p]
  }

  ghost predicate HeaderOk(hs: Headers, c: seq<Frame>, handles: multiset<nat>, h: nat)
    requires h in hs
  {
    match hs[h]
    case Primary(count, _, _) => count > 0 && count == Owners(hs, c, handles, h)
    case Dependent(p, _, _) => Owned(hs, c, h) && p in hs && hs[p].Primary?
  }

  ghost predicate CountInv(hs: Headers, c: seq<Frame>, handles: multiset<nat>, destroyed: seq<nat>) {
    && (forall h | h in hs :: HeaderOk(hs, c, handles, h))
    && HandlesOk(hs, handles)
    && DestroyedOk(hs, destroyed)
  }

  ghost predicate HandlesOk(hs: Headers, handles: multiset<nat>) {
    forall p | p in handles :: p in hs && hs[p].Primary?
  }

  /** What has been destroyed was destroyed once and is gone. */
  ghost predicate DestroyedOk(hs: Headers, destroyed: seq<nat>) {
    Distinct(destroyed) && forall h | h in destroyed :: h !in hs
  }

  ghost predicate Inv(s: State) {
    && StackInv(s.headers, s.caught, Groups(s.control))
    && FlightInv(s.headers, s.uncaught, s.control)
    && CountInv(s.headers, s.control, s.handles, s.destroyed)
  }

  /**
   What the runtime's bookkeeping is for: the counters count what they are documented to count, nothing in
   flight or caught has been destroyed, and nothing was destroyed twice.
   */
  ghost predicate Accounted(s: State) {
    && s.uncaught == FlightCount(s.control)
    && (forall h | h in s.headers :: Counted(s, h))
    && (forall f | f in s.control :: f.h in s.headers)
    && DestroyedOk(s.headers, s.destroyed)
  }

  ghost predicate Counted(s: State, h: nat)
    requires h in s.headers
  {
    && Abs(s.headers[h].handlerCount) == OpenHandlers(s.control, h)
    && (s.headers[h].Primary? ==>
          s.headers[h].referenceCount == Owners(s.headers, s.control, s.handles, h) > 0)
  }

  // ----- the operations, as the source performs them

  /** Nothing has been thrown yet. */
  function Start(): State {
    State(map[], 0, 0, [], multiset{}, [])
  }

  /** The address is new. An address stands for one allocation: it does not come back after the object is destroyed. */
  predicate New(s: State, h: nat) {
    h != 0 && h !in s.headers && h !in s.destroyed
  }

  /** __cxa_throw of a newly allocated exception. */
  function Throw(s: State, h: nat): State {
    s.(headers := s.headers[h := Primary(1, 0, 0)], uncaught := s.uncaught + 1, control := s.control + [Flight(h)])
  }

  function WithCount(x: Header, count: int): Header {
    x.(handlerCount := count)
  }

  /** A handler begins for the exception whose flight is innermost. */
  predicate MayBeginCatch(s: State) {
    s.control != [] && s.control[|s.control| - 1].Flight? && s.control[|s.control| - 1].h in s.headers && s.uncaught > 0
  }

  function Caught(x: Header): Header {
    WithCount(x, if x.handlerCount < 0 then -x.handlerCount + 1 else x.handlerCount + 1)
  }

  /** __cxa_begin_catch on a native exception. */
  function BeginCatch(s: State): State
    requires MayBeginCatch(s)
  {
    var n := |s.control| - 1;
    var h := s.control[n].h;
    var x := Caught(s.headers[h]);
    var x' := if h != s.caught then x.(next := s.caught) else x;
    s.(headers := s.headers[h := x'], caught := h, uncaught := s.uncaught - 1,
       control := s.control[..n] + [Handler(h)])
  }

  /** __cxa_rethrow inside a handler, of the exception caught last, which may be in flight already. */
  function Rethrow(s: State): State
    requires s.caught in s.headers
  {
    var x := s.headers[s.caught];
    s.(headers := s.headers[s.caught := WithCount(x, -x.handlerCount)], uncaught := s.uncaught + 1,
       control := s.control + [Flight(s.caught)])
  }

  /** __cxa_increment_exception_refcount and its opposite, which destroys and frees the object at zero. */
  function Increment(s: State, p: nat): State
    requires p in s.headers && s.headers[p].Primary?
  {
    s.(headers := s.headers[p := s.headers[p].(referenceCount := s.headers[p].referenceCount + 1)])
  }

  function Decrement(s: State, p: nat): State
    requires p in s.headers && s.headers[p].Primary? && s.headers[p].referenceCount > 0
  {
    var count := s.headers[p].referenceCount - 1;
    if count == 0 then s.(headers := s.headers - {p}, destroyed := s.destroyed + [p])
    else s.(headers := s.headers[p := s.headers[p].(referenceCount := count)])
  }

  /** A handler ends by reaching its end, or by an exception that leaves it. */
  predicate LeavesHandler(c: seq<Frame>) {
    var n := |c|;
    (n > 0 && c[n - 1].Handler?) || (n > 1 && c[n - 1].Flight? && c[n - 2].Handler?)
  }

  function LeaveHandler(c: seq<Frame>): seq<Frame>
    requires LeavesHandler(c)
  {
    if c[|c| - 1].Handler? then c[..|c| - 1] else c[..|c| - 2] + [c[|c| - 1]]
  }

  /** The memory that the end of a handler touches is there. */
  predicate Releasable(hs: Headers, h: nat) {
    h in hs &&
    match hs[h]
    case Primary(count, _, _) => count > 0
    case Dependent(p, _, _) => p in hs && hs[p].Primary? && hs[p].referenceCount > 0
  }

  predicate MayEndCatch(s: State) {
    LeavesHandler(s.control) && (s.caught != 0 ==> Releasable(s.headers, s.caught))
  }

  /** The last handler of an exception that was not rethrown: a dependent is freed, its primary released. */
  function Finish(s: State, h: nat): State
    requires Releasable(s.headers, h)
  {
    match s.headers[h]
    case Primary(_, _, _) => Decrement(s, h)
    case Dependent(p, _, _) => Decrement(s.(headers := s.headers - {h}), p)
  }

  /** __cxa_end_catch. */
  function EndCatch(s: State): State
    requires MayEndCatch(s)
  {
    var left := s.(control := LeaveHandler(s.control));
    if s.caught == 0 then left
    else
      var h := s.caught;
      var x := s.headers[h];
      if x.handlerCount < 0 then
        var s1 := left.(headers := s.headers[h := WithCount(x, x.handlerCount + 1)]);
        if x.handlerCount + 1 == 0 then s1.(caught := x.next) else s1
      else
        var s1 := left.(headers := s.headers[h := WithCount(x, x.handlerCount - 1)]);
        if x.handlerCount - 1 == 0 then Finish(s1.(caught := x.next), h) else s1
  }

  /**
   The exception that leaves its last catch clause counts as handled there, not as rethrown: the end of the
   clause releases it although it is in flight.
   */
  predicate Dooms(s: State) {
    var n := |s.control|;
    && n > 1 && s.control[n - 1] == Flight(s.caught) && s.control[n - 2].Handler?
    && s.caught in s.headers && s.headers[s.caught].handlerCount == 1
  }

  /** The primary exception of a header. */
  function PrimaryOf(hs: Headers, h: nat): nat
    requires h in hs
  {
    if hs[h].Dependent? then hs[h].primary else h
  }

  /** __cxa_current_primary_exception: 0 outside any handler, else the primary with a new owner. */
  predicate MayCapture(s: State) {
    s.caught != 0 ==> Releasable(s.headers, s.caught)
  }

  function Capture(s: State): State
    requires MayCapture(s)
  {
    if s.caught == 0 then s
    else
      var p := PrimaryOf(s.headers, s.caught);
      Increment(s, p).(handles := s.handles + multiset{p})
  }

  /** Copying and dropping an exception_ptr. */
  function CopyHandle(s: State, p: nat): State
    requires p in s.headers && s.headers[p].Primary?
  {
    Increment(s, p).(handles := s.handles + multiset{p})
  }

  function DropHandle(s: State, p: nat): State
    requires p in s.headers && s.headers[p].Primary? && s.headers[p].referenceCount > 0
  {
    Decrement(s, p).(handles := s.handles - multiset{p})
  }

  /** __cxa_rethrow_primary_exception with a newly allocated dependent header d. */
  function RethrowPrimary(s: State, p: nat, d: nat): State
    requires p in s.headers && s.headers[p].Primary?
  {
    var s1 := Increment(s, p);
    s1.(headers := s1.headers[d := Dependent(p, 0, 0)], uncaught := s.uncaught + 1, control := s.control + [Flight(d)])
  }
}
