/**
 __call_once of mutex.cpp for any number of threads whose callables may throw.  What runs under the
 mutex is one step; the callable runs and the broadcast happens outside it.
 */
module CallOnce {
  import OnceSpec

  const IDLE: nat := 0
  const RUNNING: nat := 1
  const COMPLETE: nat := 2   // ~once_flag::_State_type(0)

  datatype Pc =
    | Outside
    | Check            // the mutex is about to be taken: test the flag
    | Waiting          // asleep on the condition variable
    | InFunc           // running func(arg)
    | StoreComplete    // func returned
    | StoreIdle        // func threw
    | Notify(threw: bool)

  datatype Event = Silent | Begins | Completes | Throws | Returns | Rethrows

  /** runner is the thread between its two stores to the flag; 0 for none. */
  datatype State = State(flag: nat, runner: nat, pcs: map<nat, Pc>)

  function At(s: State, t: nat, pc: Pc): State {
    s.(pcs := s.pcs[t := pc])
  }

  function Awake(pcs: map<nat, Pc>): map<nat, Pc> {
    map t | t in pcs :: if pcs[t] == Waiting then Check else pcs[t]
  }

  ghost predicate Step(s: State, t: nat, e: Event, s': State) {
    t in s.pcs &&
    match s.pcs[t]
    case Outside =>
      e == Silent && s' == At(s, t, Check)
    case Check =>
      if s.flag == RUNNING then e == Silent && s' == At(s, t, Waiting)
      else if s.flag == IDLE then e == Begins && s' == At(s, t, InFunc).(flag := RUNNING, runner := t)
      else e == Returns && s' == At(s, t, Outside)
    case Waiting =>
      e == Silent && s' == At(s, t, Check)
    case InFunc =>
      (e == Completes && s' == At(s, t, StoreComplete)) || (e == Throws && s' == At(s, t, StoreIdle))
    case StoreComplete =>
      e == Silent && s' == At(s, t, Notify(false)).(flag := COMPLETE, runner := 0)
    case StoreIdle =>
      e == Silent && s' == At(s, t, Notify(true)).(flag := IDLE, runner := 0)
    case Notify(threw) =>
      e == (if threw then Rethrows else Returns) && s' == s.(pcs := Awake(s.pcs[t := Outside]))
  }

  ghost predicate Init(s: State) {
    s.flag == IDLE && s.runner == 0 && 0 !in s.pcs && forall t | t in s.pcs :: s.pcs[t] == Outside
  }

  ghost predicate OwesBroadcast(s: State) {
    exists u :: u in s.pcs && s.pcs[u].Notify?
  }

  predicate RunnerPc(pc: Pc) {
    pc.InFunc? || pc.StoreComplete? || pc.StoreIdle?
  }

  ghost predicate Inv(s: State) {
    && s.flag in {IDLE, RUNNING, COMPLETE} && 0 !in s.pcs
    && (s.runner != 0 <==> s.flag == RUNNING)
    && (s.runner != 0 ==> s.runner in s.pcs && RunnerPc(s.pcs[s.runner]))
    && (forall t | t in s.pcs && RunnerPc(s.pcs[t]) :: t == s.runner)
    && (forall t | t in s.pcs && s.pcs[t] == Waiting :: s.flag == RUNNING || OwesBroadcast(s))
    && (forall t | t in s.pcs && s.pcs[t] == Notify(false) :: s.flag == COMPLETE)
  }

  /** The protocol's completion is func's return: the store to the flag follows it. */
  ghost function Abstract(s: State): OnceSpec.Once {
    if s.flag == COMPLETE then OnceSpec.Done
    else if s.runner == 0 then OnceSpec.Fresh
    else if s.runner in s.pcs && s.pcs[s.runner] == StoreComplete then OnceSpec.Done
    else OnceSpec.Running(s.runner)
  }

  lemma InitInv(s: State)
    requires Init(s)
    ensures Inv(s) && Abstract(s) == OnceSpec.Fresh
  {
  }

  /** Every step keeps the invariant and is a step of the once-protocol, or leaves it unchanged. */
  lemma StepRefines(s: State, t: nat, e: Event, s': State)
    requires Inv(s) && Step(s, t, e, s')
    ensures Inv(s') && OnceSpec.Next(Abstract(s), t, Abstract(s'))
  {
    if OwesBroadcast(s) {
      var u :| u in s.pcs && s.pcs[u].Notify?;
      if u != t {
        assert u in s'.pcs && s'.pcs[u].Notify?;
      }
    }
    if s.pcs[t] == StoreComplete || s.pcs[t] == StoreIdle {
      assert t in s'.pcs;
    }
  }

  /**
   Two threads are never inside func together; func begins only when no run is going on or completed;
   and a call returns normally only after a run of func that did not throw.
   */
  lemma CallsSafe(s: State, t: nat, e: Event, s': State)
    requires Inv(s) && Step(s, t, e, s')
    ensures forall u | u in s.pcs && s.pcs[u] == InFunc && s.pcs[t] == InFunc :: u == t
    ensures e == Begins ==> Abstract(s) == OnceSpec.Fresh && Abstract(s') == OnceSpec.Running(t)
    ensures e == Completes ==> Abstract(s) == OnceSpec.Running(t) && Abstract(s') == OnceSpec.Done
    ensures Abstract(s') == OnceSpec.Done && Abstract(s) != OnceSpec.Done ==> e == Completes
    ensures e == Returns ==> Abstract(s) == OnceSpec.Done
  {
  }

  /** A waiter is never stranded: func is still running, or a broadcast is on its way. */
  lemma WaiterWillWake(s: State, t: nat)
    requires Inv(s) && t in s.pcs && s.pcs[t] == Waiting
    ensures OwesBroadcast(s) || (s.runner in s.pcs && RunnerPc(s.pcs[s.runner]))
    ensures forall u, e, s' | u in s.pcs && s.pcs[u].Notify? && Step(s, u, e, s') ::
              t in s'.pcs && s'.pcs[t] == Check
  {
  }

  /**
   A call that meets no other comes to its end by its own steps: it runs func if func has not completed, and func's
   return or exception becomes the call's.
   */
  lemma SoloCall(s: State, t: nat, throws: bool) returns (ss: seq<State>)
    requires Inv(s) && t in s.pcs && s.pcs[t] == Outside && s.runner == 0
    ensures |ss| == 6 && ss[0] == s && Step(s, t, Silent, ss[1])
    ensures s.flag == COMPLETE ==> Step(ss[1], t, Returns, ss[2]) && ss[2].pcs[t] == Outside
    ensures s.flag != COMPLETE ==>
      && Step(ss[1], t, Begins, ss[2]) && Step(ss[2], t, if throws then Throws else Completes, ss[3])
      && Step(ss[3], t, Silent, ss[4]) && Step(ss[4], t, if throws then Rethrows else Returns, ss[5])
      && Abstract(ss[5]) == (if throws then OnceSpec.Fresh else OnceSpec.Done) && ss[5].pcs[t] == Outside
      && forall u | u in ss[5].pcs :: ss[5].pcs[u] != Waiting
  {
    var s1 := At(s, t, Check);
    if s.flag == COMPLETE {
      var s2 := At(s1, t, Outside);
      ss := [s, s1, s2, s2, s2, s2];
    } else {
      var s2 := At(s1, t, InFunc).(flag := RUNNING, runner := t);
      var s3 := At(s2, t, if throws then StoreIdle else StoreComplete);
      var s4 := At(s3, t, Notify(throws)).(flag := if throws then IDLE else COMPLETE, runner := 0);
      ss := [s, s1, s2, s3, s4, s4.(pcs := Awake(s4.pcs[t := Outside]))];
    }
  }

  ghost predicate Run(ss: seq<State>, who: seq<nat>, es: seq<Event>) {
    && |ss| == |who| + 1 == |es| + 1 && Init(ss[0])
    && forall i | 0 <= i < |who| :: Step(ss[i], who[i], es[i], ss[i + 1])
  }

  ghost function Path(ss: seq<State>): (path: seq<OnceSpec.Once>)
    ensures |path| == |ss| && forall i | 0 <= i < |ss| :: path[i] == Abstract(ss[i])
  {
    seq(|ss|, i requires 0 <= i < |ss| => Abstract(ss[i]))
  }

  lemma {:induction false} RunInv(ss: seq<State>, who: seq<nat>, es: seq<Event>, i: nat)
    requires Run(ss, who, es) && i < |ss|
    ensures Inv(ss[i])
  {
    if i == 0 {
      InitInv(ss[0]);
    } else {
      RunInv(ss, who, es, i - 1);
      StepRefines(ss[i - 1], who[i - 1], es[i - 1], ss[i]);
    }
  }

  lemma RunRefines(ss: seq<State>, who: seq<nat>, es: seq<Event>)
    requires Run(ss, who, es)
    ensures OnceSpec.Run(Path(ss), who)
    ensures forall i | 0 <= i < |ss| :: Inv(ss[i])
  {
    hide Inv, Step, Abstract, Init;
    forall i | 0 <= i < |ss|
      ensures Inv(ss[i])
      ensures i < |who| ==> OnceSpec.Next(Abstract(ss[i]), who[i], Abstract(ss[i + 1]))
    {
      RunInv(ss, who, es, i);
      if i < |who| {
        StepRefines(ss[i], who[i], es[i], ss[i + 1]);
      }
    }
    InitInv(ss[0]);
  }

  /** How many of the first i steps are completed runs of func. */
  ghost function Completed(es: seq<Event>): nat {
    if es == [] then 0 else Completed(es[..|es| - 1]) + if es[|es| - 1] == Completes then 1 else 0
  }

  /** In any run at most one call of func completes without throwing. */
  lemma {:induction false} AtMostOneCompletes(ss: seq<State>, who: seq<nat>, es: seq<Event>, i: nat)
    requires Run(ss, who, es) && i <= |es|
    ensures Completed(es[..i]) == if Abstract(ss[i]) == OnceSpec.Done then 1 else 0
  {
    if i == 0 {
      InitInv(ss[0]);
    } else {
      AtMostOneCompletes(ss, who, es, i - 1);
      RunInv(ss, who, es, i - 1);
      assert es[..i][..i - 1] == es[..i - 1];
      StepRefines(ss[i - 1], who[i - 1], es[i - 1], ss[i]);
      CallsSafe(ss[i - 1], who[i - 1], es[i - 1], ss[i]);
    }
  }
}
