/**
 The global-mutex guard of cxa_guard_impl.h (GuardObject and InitByteGlobalMutex) for any number of
 threads.  What runs under the mutex is one step; waiting gives the mutex up and may end for no reason.
 */
module MutexGuard {
  import OnceSpec

  const UNSET: nat := 0
  const COMPLETE: nat := 1
  const PENDING: nat := 2
  const WAITING: nat := 6   // PENDING_BIT | WAITING_BIT

  datatype Pc =
    | Outside
    | LoadGuard          // cxa_guard_acquire
    | Enter              // the critical section of acquire, from its start
    | Waiting            // asleep on the condition variable
    | Recheck            // the critical section again, from the loop condition
    | StoreGuard         // cxa_guard_release
    | ReleaseSection
    | AbortSection       // cxa_guard_abort
    | Broadcast
    | Terminated         // abort_message: recursive initialization

  datatype Event = Silent | GotDone | GotPending | Recursion

  /** owner is the thread that was told to initialize and has not given the guard back; 0 for none. */
  datatype State = State(guard: nat, init: nat, id: nat, owner: nat, pcs: map<nat, Pc>)

  function At(s: State, t: nat, pc: Pc): State {
    s.(pcs := s.pcs[t := pc])
  }

  function Awake(pcs: map<nat, Pc>): map<nat, Pc> {
    map t | t in pcs :: if pcs[t] == Waiting then Recheck else pcs[t]
  }

  predicate IsPending(init: nat) {
    init == PENDING || init == WAITING
  }

  /** The rest of acquire_init_byte from its while loop on. */
  ghost predicate Settle(hasId: bool, s: State, t: nat, e: Event, s': State) {
    if IsPending(s.init) then
      e == Silent && s' == At(s, t, Waiting).(init := WAITING)
    else if s.init == COMPLETE then
      e == GotDone && s' == At(s, t, Outside)
    else
      e == GotPending && s' == At(s, t, Outside).(init := PENDING, owner := t, id := if hasId then t else s.id)
  }

  ghost predicate Step(hasId: bool, s: State, t: nat, e: Event, s': State) {
    t in s.pcs &&
    match s.pcs[t]
    case Outside =>
      && e == Silent
      && (s' == At(s, t, LoadGuard) || (s.owner == t && (s' == At(s, t, StoreGuard) || s' == At(s, t, AbortSection))))
    case LoadGuard =>
      if s.guard == COMPLETE then e == GotDone && s' == At(s, t, Outside)
      else e == Silent && s' == At(s, t, Enter)
    case Enter =>
      if hasId && IsPending(s.init) && s.id == t then e == Recursion && s' == At(s, t, Terminated)
      else Settle(hasId, s, t, e, s')
    case Waiting =>
      e == Silent && s' == At(s, t, Recheck)
    case Recheck =>
      Settle(hasId, s, t, e, s')
    case StoreGuard =>
      e == Silent && s' == At(s, t, ReleaseSection).(guard := COMPLETE)
    case ReleaseSection =>
      e == Silent && s' == At(s, t, if s.init == WAITING then Broadcast else Outside).(init := COMPLETE, owner := 0)
    case AbortSection =>
      e == Silent
      && s' == At(s, t, if s.init == WAITING then Broadcast else Outside)
               .(init := UNSET, owner := 0, id := if hasId then 0 else s.id)
    case Broadcast =>
      e == Silent && s' == s.(pcs := Awake(s.pcs[t := Outside]))
    case Terminated => false
  }

  ghost predicate Init(s: State) {
    s.guard == 0 && s.init == UNSET && s.id == 0 && s.owner == 0
    && 0 !in s.pcs && forall t | t in s.pcs :: s.pcs[t] == Outside
  }

  ghost predicate OwesBroadcast(s: State) {
    exists u :: u in s.pcs && s.pcs[u] == Broadcast
  }

  predicate OwnerOnly(pc: Pc) {
    pc.StoreGuard? || pc.ReleaseSection? || pc.AbortSection?
  }

  ghost predicate BytesInv(hasId: bool, s: State) {
    && s.guard in {0, COMPLETE} && s.init in {UNSET, COMPLETE, PENDING, WAITING} && 0 !in s.pcs
    && (s.owner != 0 <==> IsPending(s.init))
    && (s.owner != 0 ==> s.owner in s.pcs && !s.pcs[s.owner].Broadcast?)
    && (s.init == COMPLETE ==> s.guard == COMPLETE)
    && (s.guard == COMPLETE && s.owner != 0 ==> s.pcs[s.owner] == ReleaseSection)
    && (s.guard == COMPLETE && s.owner == 0 ==> s.init == COMPLETE)
    && (s.owner != 0 && s.pcs[s.owner] == ReleaseSection ==> s.guard == COMPLETE)
    && (hasId && s.owner != 0 ==> s.id == s.owner && !s.pcs[s.owner].Waiting? && !s.pcs[s.owner].Recheck?)
  }

  ghost predicate ThreadsInv(s: State) {
    forall t | t in s.pcs && OwnerOnly(s.pcs[t]) :: t == s.owner
  }

  ghost predicate SleepInv(s: State) {
    forall t | t in s.pcs && s.pcs[t] == Waiting :: s.init == WAITING || OwesBroadcast(s)
  }

  ghost predicate Inv(hasId: bool, s: State) {
    BytesInv(hasId, s) && ThreadsInv(s) && SleepInv(s)
  }

  ghost function Abstract(s: State): OnceSpec.Once {
    if s.guard == COMPLETE then OnceSpec.Done
    else if s.owner != 0 then OnceSpec.Running(s.owner)
    else OnceSpec.Fresh
  }

  lemma InitInv(hasId: bool, s: State)
    requires Init(s)
    ensures Inv(hasId, s) && Abstract(s) == OnceSpec.Fresh
  {
  }

  lemma StepBytes(hasId: bool, s: State, t: nat, e: Event, s': State)
    requires Inv(hasId, s) && Step(hasId, s, t, e, s')
    ensures BytesInv(hasId, s')
  {
  }

  lemma StepThreads(hasId: bool, s: State, t: nat, e: Event, s': State)
    requires Inv(hasId, s) && Step(hasId, s, t, e, s')
    ensures ThreadsInv(s')
  {
  }

  lemma StepSleep(hasId: bool, s: State, t: nat, e: Event, s': State)
    requires Inv(hasId, s) && Step(hasId, s, t, e, s')
    ensures SleepInv(s')
  {
    if OwesBroadcast(s) {
      var u :| u in s.pcs && s.pcs[u] == Broadcast;
      if u != t {
        assert u in s'.pcs && s'.pcs[u] == Broadcast;
      }
    }
    if s.pcs[t] == ReleaseSection || s.pcs[t] == AbortSection {
      assert t in s'.pcs;
    }
  }

  /** Every step keeps the invariant and is a step of the once-protocol, or leaves it unchanged. */
  lemma StepRefines(hasId: bool, s: State, t: nat, e: Event, s': State)
    requires Inv(hasId, s) && Step(hasId, s, t, e, s')
    ensures Inv(hasId, s') && OnceSpec.Next(Abstract(s), t, Abstract(s'))
  {
    StepBytes(hasId, s, t, e, s');
    StepThreads(hasId, s, t, e, s');
    StepSleep(hasId, s, t, e, s');
  }

  /** The answers of acquire tell the truth, and the recursion abort hits exactly the running initializer. */
  lemma AnswersTrue(hasId: bool, s: State, t: nat, e: Event, s': State)
    requires Inv(hasId, s) && Step(hasId, s, t, e, s')
    ensures e == GotDone ==> Abstract(s) == OnceSpec.Done
    ensures e == GotPending ==> Abstract(s) == OnceSpec.Fresh && Abstract(s') == OnceSpec.Running(t)
    ensures s.pcs[t] == Enter ==> (e == Recursion <==> hasId && t == s.owner)
  {
  }

  /** A waiter is never stranded. */
  lemma WaiterWillWake(hasId: bool, s: State, t: nat)
    requires Inv(hasId, s) && t in s.pcs && s.pcs[t] == Waiting
    ensures OwesBroadcast(s) || (s.owner != 0 && s.init == WAITING)
    ensures forall u, e, s' | u in s.pcs && s.pcs[u] == Broadcast && Step(hasId, s, u, e, s') ::
              t in s'.pcs && s'.pcs[t] == Recheck
    ensures s.init == WAITING ==>
      forall e, s' | s.owner in s.pcs && (s.pcs[s.owner] == ReleaseSection || s.pcs[s.owner] == AbortSection)
        && Step(hasId, s, s.owner, e, s') :: s'.pcs[s.owner] == Broadcast
  {
  }

  /** A thread that calls acquire while no one owns the guard can have its answer by its own steps. */
  lemma SoloAcquire(hasId: bool, s: State, t: nat) returns (s1: State, s2: State, s3: State)
    requires Inv(hasId, s) && t in s.pcs && s.pcs[t] == Outside && s.owner == 0
    ensures Step(hasId, s, t, Silent, s1)
    ensures Abstract(s) == OnceSpec.Done ==> Step(hasId, s1, t, GotDone, s2) && s2.pcs[t] == Outside
    ensures Abstract(s) != OnceSpec.Done ==>
      Step(hasId, s1, t, Silent, s2) && Step(hasId, s2, t, GotPending, s3)
      && Abstract(s3) == OnceSpec.Running(t) && s3.pcs[t] == Outside
  {
    s1 := At(s, t, LoadGuard);
    s2 := At(s1, t, if s.guard == COMPLETE then Outside else Enter);
    s3 := At(s2, t, Outside).(init := PENDING, owner := t, id := if hasId then t else s.id);
  }

  /** The owner can finish by its own steps, and afterwards no thread that waited is still asleep. */
  lemma SoloFinish(hasId: bool, s: State, t: nat, releases: bool) returns (s1: State, s2: State, s3: State, s4: State)
    requires Inv(hasId, s) && t in s.pcs && s.pcs[t] == Outside && s.owner == t
    ensures Step(hasId, s, t, Silent, s1)
    ensures if releases then Step(hasId, s1, t, Silent, s2) && Step(hasId, s2, t, Silent, s3)
            else Step(hasId, s1, t, Silent, s3)
    ensures Abstract(s3) == if releases then OnceSpec.Done else OnceSpec.Fresh
    ensures s3.pcs[t] == Broadcast <==> s.init == WAITING
    ensures s3.pcs[t] == Broadcast ==> Step(hasId, s3, t, Silent, s4) && forall u | u in s4.pcs :: s4.pcs[u] != Waiting
    ensures s3.pcs[t] != Broadcast ==> s3.pcs[t] == Outside
  {
    var next := if s.init == WAITING then Broadcast else Outside;
    if releases {
      s1 := At(s, t, StoreGuard);
      s2 := At(s1, t, ReleaseSection).(guard := COMPLETE);
      s3 := At(s2, t, next).(init := COMPLETE, owner := 0);
    } else {
      s1 := At(s, t, AbortSection);
      s2 := s1;
      s3 := At(s1, t, next).(init := UNSET, owner := 0, id := if hasId then 0 else s.id);
    }
    s4 := s3.(pcs := Awake(s3.pcs[t := Outside]));
  }

  ghost predicate Run(hasId: bool, ss: seq<State>, who: seq<nat>, es: seq<Event>) {
    && |ss| == |who| + 1 == |es| + 1 && Init(ss[0])
    && forall i | 0 <= i < |who| :: Step(hasId, ss[i], who[i], es[i], ss[i + 1])
  }

  ghost function Path(ss: seq<State>): (path: seq<OnceSpec.Once>)
    ensures |path| == |ss| && forall i | 0 <= i < |ss| :: path[i] == Abstract(ss[i])
  {
    seq(|ss|, i requires 0 <= i < |ss| => Abstract(ss[i]))
  }

  lemma {:induction false} RunInv(hasId: bool, ss: seq<State>, who: seq<nat>, es: seq<Event>, i: nat)
    requires Run(hasId, ss, who, es) && i < |ss|
    ensures Inv(hasId, ss[i])
  {
    if i == 0 {
      InitInv(hasId, ss[0]);
    } else {
      RunInv(hasId, ss, who, es, i - 1);
      StepRefines(hasId, ss[i - 1], who[i - 1], es[i - 1], ss[i]);
    }
  }

  /** Every run of the guard is a run of the protocol. */
  lemma RunRefines(hasId: bool, ss: seq<State>, who: seq<nat>, es: seq<Event>)
    requires Run(hasId, ss, who, es)
    ensures OnceSpec.Run(Path(ss), who)
    ensures forall i | 0 <= i < |ss| :: Inv(hasId, ss[i])
  {
    hide Inv, Step, Abstract, Init;
    forall i | 0 <= i < |ss|
      ensures Inv(hasId, ss[i])
      ensures i < |who| ==> OnceSpec.Next(Abstract(ss[i]), who[i], Abstract(ss[i + 1]))
    {
      RunInv(hasId, ss, who, es, i);
      if i < |who| {
        StepRefines(hasId, ss[i], who[i], es[i], ss[i + 1]);
      }
    }
    InitInv(hasId, ss[0]);
  }
}
