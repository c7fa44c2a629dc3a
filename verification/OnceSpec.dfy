/**
 The protocol that the two static-local guards and call_once all implement: at most one thread runs
 the initializer at a time, it may give up, and once it has completed it never runs again.
 */
module OnceSpec {

  datatype Once = Fresh | Running(t: nat) | Done

  /** One step of the protocol by thread t; a step of an implementation may also leave it unchanged. */
  ghost predicate Next(a: Once, t: nat, a': Once) {
    || a' == a
    || (a == Fresh && a' == Running(t))
    || (a == Running(t) && (a' == Fresh || a' == Done))
  }

  ghost predicate Run(path: seq<Once>, who: seq<nat>) {
    |path| == |who| + 1 && path[0] == Fresh && forall i | 0 <= i < |who| :: Next(path[i], who[i], path[i + 1])
  }

  /** How many steps of the run complete an execution of the initializer. */
  ghost function Completions(path: seq<Once>): nat {
    if |path| < 2 then 0
    else Completions(path[..|path| - 1]) + if path[|path| - 2].Running? && path[|path| - 1] == Done then 1 else 0
  }

  lemma RunPrefix(path: seq<Once>, who: seq<nat>)
    requires Run(path, who) && |who| > 0
    ensures Run(path[..|who|], who[..|who| - 1])
  {
  }

  /** The initializer completes once if the protocol is done, and has not completed otherwise. */
  lemma {:induction false} CompletesOnce(path: seq<Once>, who: seq<nat>)
    requires Run(path, who)
    ensures Completions(path) == if path[|path| - 1] == Done then 1 else 0
  {
    if |who| > 0 {
      RunPrefix(path, who);
      CompletesOnce(path[..|who|], who[..|who| - 1]);
      assert Next(path[|who| - 1], who[|who| - 1], path[|who|]);
    }
  }

  /** Done is never left. */
  lemma {:induction false} DoneStays(path: seq<Once>, who: seq<nat>, i: nat, j: nat)
    requires Run(path, who) && i <= j < |path| && path[i] == Done
    ensures path[j] == Done
  {
    if i < j {
      DoneStays(path, who, i, j - 1);
      assert Next(path[j - 1], who[j - 1], path[j]);
    }
  }

  /** Between its begin and its end nobody but the running thread changes the protocol state. */
  lemma RunnersExclude(a: Once, t: nat, a': Once)
    requires Next(a, t, a') && a.Running? && a' != a
    ensures t == a.t
  {
  }
}
