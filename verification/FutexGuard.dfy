/**
 The futex guard of cxa_guard_impl.h (GuardObject and InitByteFutex) for any number of threads, as
 steps that are one atomic access each.  The compare-exchanges are weak, as atomic_support.h makes
 them, and a sleeping thread may wake for no reason.
 */
module FutexGuard {
  import OnceSpec

  const UNSET: nat := 0
  const COMPLETE: nat := 1
  const PENDING: nat := 2
  const WAITING: nat := 6   // PENDING_BIT | WAITING_BIT

  /** Where a thread stands; a thread that owns the guard runs its initializer at Outside. */
  datatype Pc =
    | Outside
    | LoadGuard                // cxa_guard_acquire
    | Claim                    // the compare-exchange UNSET -> PENDING
    | StoreId
    | CheckId(last: nat)
    | MarkWaiting              // the compare-exchange PENDING -> PENDING | WAITING
    | FutexWait
    | Asleep
    | StoreGuard               // cxa_guard_release
    | ReleaseExchange
    | ClearId                  // cxa_guard_abort
    | AbortExchange
    | WakeAll
    | Terminated               // abort_message: recursive initialization

  datatype Event = Silent | GotDone | GotPending | Recursion

  /** owner is the thread whose claim succeeded and has not been given back; 0 for none. */
  datatype State = State(guard: nat, init: nat, id: nat, owner: nat, pcs: map<nat, Pc>)

  function At(s: State, t: nat, pc: Pc): State {
    s.(pcs := s.pcs[t := pc])
  }

  function Awake(pcs: map<nat, Pc>): map<nat, Pc> {
    map t | t in pcs :: if pcs[t] == Asleep then Claim else pcs[t]
  }

  /** What follows a failed first compare-exchange that read last. */
  function AfterClaim(last: nat): Pc {
    if last == COMPLETE then Outside else if last == PENDING || last == WAITING then CheckId(last) else Claim
  }

  ghost predicate Step(hasId: bool, s: State, t: nat, e: Event, s': State) {
    t in s.pcs &&
    match s.pcs[t]
    case Outside =>
      && e == Silent
      && (s' == At(s, t, LoadGuard) || (s.owner == t && (s' == At(s, t, StoreGuard) || s' == At(s, t, ClearId))))
    case LoadGuard =>
      if s.guard == COMPLETE then e == GotDone && s' == At(s, t, Outside)
      else e == Silent && s' == At(s, t, Claim)
    case Claim =>
      || (s.init == UNSET && e == Silent && s' == At(s, t, StoreId).(init := PENDING, owner := t))
      || (e == (if s.init == COMPLETE then GotDone else Silent) && s' == At(s, t, AfterClaim(s.init)))
    case StoreId =>
      e == GotPending && s' == At(s, t, Outside).(id := if hasId then t else s.id)
    case CheckId(last) =>
      if hasId && s.id == t then e == Recursion && s' == At(s, t, Terminated)
      else e == Silent && s' == At(s, t, if last == PENDING then MarkWaiting else FutexWait)
    case MarkWaiting =>
      || (s.init == PENDING && e == Silent && s' == At(s, t, FutexWait).(init := WAITING))
      || (s.init == COMPLETE && e == GotDone && s' == At(s, t, Outside))
      || (s.init == UNSET && e == Silent && s' == At(s, t, Claim))
      || (s.init != COMPLETE && s.init != UNSET && e == Silent && s' == At(s, t, FutexWait))
    case FutexWait =>
      e == Silent && s' == At(s, t, if s.guard == 0 && s.init == WAITING then Asleep else Claim)
    case Asleep =>
      e == Silent && s' == At(s, t, Claim)
    case StoreGuard =>
      e == Silent && s' == At(s, t, ReleaseExchange).(guard := COMPLETE)
    case ReleaseExchange =>
      e == Silent && s' == At(s, t, if s.init == WAITING then WakeAll else Outside).(init := COMPLETE, owner := 0)
    case ClearId =>
      e == Silent && s' == At(s, t, AbortExchange).(id := if hasId then 0 else s.id)
    case AbortExchange =>
      e == Silent && s' == At(s, t, if s.init == WAITING then WakeAll else Outside).(init := UNSET, owner := 0)
    case WakeAll =>
      e == Silent && s' == s.(pcs := Awake(s.pcs[t := Outside]))
    case Terminated => false
  }

  ghost predicate Init(s: State) {
    s.guard == 0 && s.init == UNSET && s.id == 0 && s.owner == 0
    && 0 !in s.pcs && forall t | t in s.pcs :: s.pcs[t] == Outside
  }

  // ----- the invariant

  predicate OwnerOnly(pc: Pc) {
    pc.StoreId? || pc.StoreGuard? || pc.ReleaseExchange? || pc.ClearId? || pc.AbortExchange?
  }

  predicate PastIdCheck(pc: Pc) {
    pc.MarkWaiting? || pc.FutexWait? || pc.Asleep?
  }

  predicate FinishedPc(pc: Pc) {
    pc.Outside? || pc.LoadGuard? || pc.WakeAll?
  }

  ghost predicate OwesWake(s: State) {
    exists u :: u in s.pcs && s.pcs[u] == WakeAll
  }

  /** The init byte is pending exactly while a thread owns it; the guard byte runs ahead of it in release only. */
  ghost predicate BytesInv(s: State) {
    && s.guard in {0, COMPLETE} && s.init in {UNSET, COMPLETE, PENDING, WAITING}
    && (s.owner != 0 <==> s.init == PENDING || s.init == WAITING)
    && (s.owner != 0 ==> s.owner in s.pcs && !s.pcs[s.owner].WakeAll?)
    && (s.init == COMPLETE ==> s.guard == COMPLETE)
    && (s.guard == COMPLETE && s.owner != 0 ==> s.pcs[s.owner] == ReleaseExchange)
    && (s.guard == COMPLETE && s.owner == 0 ==> s.init == COMPLETE)
    && (s.owner != 0 && s.pcs[s.owner] == ReleaseExchange ==> s.guard == COMPLETE)
  }

  ghost predicate ThreadsInv(s: State) {
    && 0 !in s.pcs
    && (forall t | t in s.pcs && OwnerOnly(s.pcs[t]) :: t == s.owner)
    && (forall t | t in s.pcs && s.pcs[t].CheckId? :: s.pcs[t].last == PENDING || s.pcs[t].last == WAITING)
  }

  /** The stored thread id is the owner's, or is left over from the initializer that completed. */
  ghost predicate IdInv(hasId: bool, s: State) {
    hasId ==>
      && (s.id != 0 && s.id != s.owner ==> s.init == COMPLETE && s.id in s.pcs && FinishedPc(s.pcs[s.id]))
      && (s.owner != 0 && s.owner in s.pcs && s.pcs[s.owner].AbortExchange? ==> s.id == 0)
      && (s.owner != 0 && s.owner in s.pcs && !s.pcs[s.owner].StoreId? && !s.pcs[s.owner].AbortExchange? ==>
            s.id == s.owner)
      && (s.owner != 0 && s.owner in s.pcs ==> !PastIdCheck(s.pcs[s.owner]))
  }

  /** A sleeper can still be woken: the waiting bit is set, or a wake-up is on its way. */
  ghost predicate SleepInv(s: State) {
    forall t | t in s.pcs && s.pcs[t] == Asleep :: s.init == WAITING || OwesWake(s)
  }

  ghost predicate Inv(hasId: bool, s: State) {
    BytesInv(s) && ThreadsInv(s) && IdInv(hasId, s) && SleepInv(s)
  }

  lemma InitInv(hasId: bool, s: State)
    requires Init(s)
    ensures Inv(hasId, s) && Abstract(s) == OnceSpec.Fresh
  {
  }

  lemma StepBytes(hasId: bool, s: State, t: nat, e: Event, s': State)
    requires Inv(hasId, s) && Step(hasId, s, t, e, s')
    ensures BytesInv(s')
  {
    hide IdInv, SleepInv;
  }

  /** A step other than the wake-up moves thread t only, and hands the guard over only to and from it. */
  lemma StepShape(hasId: bool, s: State, t: nat, e: Event, s': State)
    requires BytesInv(s) && ThreadsInv(s) && Step(hasId, s, t, e, s') && s.pcs[t] != WakeAll
    ensures t != 0 && t in s'.pcs && s'.pcs == s.pcs[t := s'.pcs[t]]
    ensures s'.owner == s.owner || (s.owner == 0 && s'.owner == t) || (s.owner == t && s'.owner == 0)
    ensures OwnerOnly(s'.pcs[t]) ==> s'.owner == t
    ensures s'.pcs[t].CheckId? ==> s'.pcs[t].last == PENDING || s'.pcs[t].last == WAITING
  {
  }

  lemma StepThreads(hasId: bool, s: State, t: nat, e: Event, s': State)
    requires BytesInv(s) && ThreadsInv(s) && Step(hasId, s, t, e, s')
    ensures ThreadsInv(s')
  {
    if s.pcs[t] == WakeAll {
      assert forall u | u in s'.pcs :: s'.pcs[u] == Claim || s'.pcs[u] == Outside || s'.pcs[u] == s.pcs[u];
    } else {
      ThreadsMoved(hasId, s, t, e, s');
    }
  }

  lemma ThreadsMoved(hasId: bool, s: State, t: nat, e: Event, s': State)
    requires BytesInv(s) && ThreadsInv(s) && Step(hasId, s, t, e, s') && s.pcs[t] != WakeAll
    ensures ThreadsInv(s')
  {
    hide Step, BytesInv;
    StepShape(hasId, s, t, e, s');
    assert 0 !in s.pcs;
  }

  lemma StepId(hasId: bool, s: State, t: nat, e: Event, s': State)
    requires Inv(hasId, s) && Step(hasId, s, t, e, s')
    ensures IdInv(hasId, s')
  {
    hide SleepInv;
  }

  lemma StepSleep(hasId: bool, s: State, t: nat, e: Event, s': State)
    requires Inv(hasId, s) && Step(hasId, s, t, e, s')
    ensures SleepInv(s')
  {
    hide IdInv;
    if OwesWake(s) {
      var u :| u in s.pcs && s.pcs[u] == WakeAll;
      if u != t {
        assert u in s'.pcs && s'.pcs[u] == WakeAll;
      }
    }
    if s.pcs[t] == ReleaseExchange || s.pcs[t] == AbortExchange {
      assert t in s'.pcs;
    }
  }

  // ----- refinement

  ghost function Abstract(s: State): OnceSpec.Once {
    if s.guard == COMPLETE then OnceSpec.Done
    else if s.owner != 0 then OnceSpec.Running(s.owner)
    else OnceSpec.Fresh
  }

  lemma StepRefines(hasId: bool, s: State, t: nat, e: Event, s': State)
    requires Inv(hasId, s) && Step(hasId, s, t, e, s')
    ensures Inv(hasId, s') && OnceSpec.Next(Abstract(s), t, Abstract(s'))
  {
    hide IdInv, SleepInv;
    StepBytes(hasId, s, t, e, s');
    StepThreads(hasId, s, t, e, s');
    StepId(hasId, s, t, e, s');
    StepSleep(hasId, s, t, e, s');
  }

  // ----- what callers rely on

  /** acquire answers INIT_IS_DONE only after an initializer has completed. */
  lemma DoneIsDone(hasId: bool, s: State, t: nat, e: Event, s': State)
    requires Inv(hasId, s) && Step(hasId, s, t, e, s') && e == GotDone
    ensures Abstract(s) == Abstract(s') == OnceSpec.Done
  {
  }

  /** acquire answers INIT_IS_PENDING to the one thread that is running the initializer from then on. */
  lemma PendingIsRunning(hasId: bool, s: State, t: nat, e: Event, s': State)
    requires Inv(hasId, s) && Step(hasId, s, t, e, s') && e == GotPending
    ensures Abstract(s) == Abstract(s') == OnceSpec.Running(t)
  {
  }

  /** The recursion abort hits the running initializer, and it alone: an owner that gets to the check is caught. */
  lemma RecursionExact(hasId: bool, s: State, t: nat, e: Event, s': State)
    requires Inv(hasId, s) && Step(hasId, s, t, e, s') && s.pcs[t].CheckId?
    ensures e == Recursion <==> hasId && t == s.owner
  {
  }

  /** A sleeping thread is never stranded: the owner will see the waiting bit, or the wake-up is pending. */
  lemma SleeperWillWake(hasId: bool, s: State, t: nat)
    requires Inv(hasId, s) && t in s.pcs && s.pcs[t] == Asleep
    ensures OwesWake(s) || (s.owner != 0 && s.init == WAITING)
    ensures forall u, e, s' | OwesWake(s) && u in s.pcs && s.pcs[u] == WakeAll && Step(hasId, s, u, e, s') ::
              t in s'.pcs && s'.pcs[t] == Claim
    ensures s.init == WAITING ==>
      forall e, s' | s.owner in s.pcs && (s.pcs[s.owner] == ReleaseExchange || s.pcs[s.owner] == AbortExchange)
        && Step(hasId, s, s.owner, e, s') :: s'.pcs[s.owner] == WakeAll
  {
  }

  /**
   A thread that calls acquire while no one owns the guard can have its answer by its own steps: done if an
   initializer has completed, and otherwise pending with the guard its own.
   */
  lemma SoloAcquire(hasId: bool, s: State, t: nat) returns (s1: State, s2: State, s3: State, s4: State)
    requires Inv(hasId, s) && t in s.pcs && s.pcs[t] == Outside && s.owner == 0
    ensures Step(hasId, s, t, Silent, s1)
    ensures Abstract(s) == OnceSpec.Done ==> Step(hasId, s1, t, GotDone, s2) && s2.pcs[t] == Outside
    ensures Abstract(s) != OnceSpec.Done ==>
      Step(hasId, s1, t, Silent, s2) && Step(hasId, s2, t, Silent, s3) && Step(hasId, s3, t, GotPending, s4)
      && Abstract(s4) == OnceSpec.Running(t) && s4.pcs[t] == Outside
  {
    s1 := At(s, t, LoadGuard);
    s2 := At(s1, t, if s.guard == COMPLETE then Outside else Claim);
    s3 := At(s2, t, StoreId).(init := PENDING, owner := t);
    s4 := At(s3, t, Outside).(id := if hasId then t else s.id);
  }

  /**
   The owner can finish by its own steps: release leaves the guard done, abort leaves it free, and afterwards no
   thread that slept is still asleep.
   */
  lemma SoloFinish(hasId: bool, s: State, t: nat, releases: bool) returns (s1: State, s2: State, s3: State, s4: State)
    requires Inv(hasId, s) && t in s.pcs && s.pcs[t] == Outside && s.owner == t
    ensures Step(hasId, s, t, Silent, s1) && Step(hasId, s1, t, Silent, s2) && Step(hasId, s2, t, Silent, s3)
    ensures Abstract(s3) == if releases then OnceSpec.Done else OnceSpec.Fresh
    ensures s3.pcs[t] == WakeAll <==> s.init == WAITING
    ensures s3.pcs[t] == WakeAll ==> Step(hasId, s3, t, Silent, s4) && forall u | u in s4.pcs :: s4.pcs[u] != Asleep
    ensures s3.pcs[t] != WakeAll ==> s3.pcs[t] == Outside
  {
    if releases {
      s1 := At(s, t, StoreGuard);
      s2 := At(s1, t, ReleaseExchange).(guard := COMPLETE);
      s3 := At(s2, t, if s.init == WAITING then WakeAll else Outside).(init := COMPLETE, owner := 0);
    } else {
      s1 := At(s, t, ClearId);
      s2 := At(s1, t, AbortExchange).(id := if hasId then 0 else s.id);
      s3 := At(s2, t, if s.init == WAITING then WakeAll else Outside).(init := UNSET, owner := 0);
    }
    s4 := s3.(pcs := Awake(s3.pcs[t := Outside]));
  }

  ghost predicate Run(hasId: bool, ss: seq<State>, who: seq<nat>, es: seq<Event>) {
    && |ss| == |who| + 1 == |es| + 1 && Init(ss[0])
    && forall i | 0 <= i < |who| :: Step(hasId, ss[i], who[i], es[i], ss[i + 1])
  }

  ghost function Path(ss: seq<State>): (path: seq<OnceSpec.Once>)
    ensures |path| == |ss| && forall i | 0 <= i < |ss| :: path[i] == Abstract(ss[i])
  {
    seq(|ss|, i requires 0 <= i < |ss| => Abstract(ss[i]))
  }

  lemma {:induction false} RunInv(hasId: bool, ss: seq<State>, who: seq<nat>, es: seq<Event>, i: nat)
    requires Run(hasId, ss, who, es) && i < |ss|
    ensures Inv(hasId, ss[i])
  {
    if i == 0 {
      InitInv(hasId, ss[0]);
    } else {
      RunInv(hasId, ss, who, es, i - 1);
      StepRefines(hasId, ss[i - 1], who[i - 1], es[i - 1], ss[i]);
    }
  }

  /** Every run of the guard is a run of the protocol. */
  lemma RunRefines(hasId: bool, ss: seq<State>, who: seq<nat>, es: seq<Event>)
    requires Run(hasId, ss, who, es)
    ensures OnceSpec.Run(Path(ss), who)
    ensures forall i | 0 <= i < |ss| :: Inv(hasId, ss[i])
  {
    hide Inv, Step, Abstract, Init;
    forall i | 0 <= i < |ss|
      ensures Inv(hasId, ss[i])
      ensures i < |who| ==> OnceSpec.Next(Abstract(ss[i]), who[i], Abstract(ss[i + 1]))
    {
      RunInv(hasId, ss, who, es, i);
      if i < |who| {
        StepRefines(hasId, ss[i], who[i], es[i], ss[i + 1]);
      }
    }
    InitInv(hasId, ss[0]);
  }
}
