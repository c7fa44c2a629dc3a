/** How the scans of the two phases of unwinding agree with each other. */
module TwoPhases {
  import opened EhTable

  /** Phase 1, phase 2 in the frame of the handler, phase 2 below it, and forced unwinding. */
  function Search(): Actions { Actions(true, false, false, false) }
  function HandlerFrame(): Actions { Actions(false, true, true, false) }
  function CleanupPhase(): Actions { Actions(false, true, false, false) }
  function Forced(): Actions { Actions(false, true, false, true) }

  // ----- a chain scan stops at the first record it does not pass over

  ghost predicate Passes(a: Actions, e: Exception, f: Frame, chain: seq<Record>)
    requires f.Table?
  {
    forall i | 0 <= i < |chain| :: Act(a, e, f.types, chain[i]) == Next
  }

  ghost predicate FirstStop(a: Actions, e: Exception, f: Frame, chain: seq<Record>, k: nat)
    requires f.Table?
  {
    k < |chain| && Act(a, e, f.types, chain[k]) != Next && Passes(a, e, f, chain[..k])
  }

  lemma {:induction false} Decided(a: Actions, e: Exception, f: Frame, chain: seq<Record>) returns (k: nat)
    requires f.Table? && !Passes(a, e, f, chain)
    ensures FirstStop(a, e, f, chain, k)
  {
    hide Act;
    assert chain[..|chain|] == chain;
    k := 0;
    while Act(a, e, f.types, chain[k]) == Next
      invariant k < |chain| && Passes(a, e, f, chain[..k])
      decreases |chain| - k
    {
      assert Passes(a, e, f, chain[..k + 1]);
      k := k + 1;
    }
  }

  lemma {:induction false} ScanPasses(a: Actions, e: Exception, f: Frame, chain: seq<Record>, pad: nat)
    requires f.Table? && Passes(a, e, f, chain)
    ensures ScanChain(a, e, f, chain, pad) == Nothing(f.lsda, ContinueUnwind)
  {
    hide Act;
    if chain != [] {
      ScanPasses(a, e, f, chain[1..], pad);
    }
  }

  lemma {:induction false} ScanStops(a: Actions, e: Exception, f: Frame, chain: seq<Record>, pad: nat, k: nat)
    requires f.Table? && FirstStop(a, e, f, chain, k)
    ensures ScanChain(a, e, f, chain, pad) ==
      match Act(a, e, f.types, chain[k])
      case Stop(ptr) => Returns(Results(chain[k].ttypeIndex, chain[k].address, f.lsda, pad, ptr, HandlerFound))
      case _ => Terminates
  {
    hide Act;
    if k > 0 {
      assert chain[..k][0] == chain[0];
      assert chain[1..][..k - 1] == chain[..k][1..];
      ScanStops(a, e, f, chain[1..], pad, k - 1);
    }
  }

  // ----- what each scan finds, in terms of what the records mean

  /** Phase 1 finds the first record that handles e, if no corrupt one precedes it. */
  lemma SearchFindsHandler(e: Exception, f: Frame, chain: seq<Record>, pad: nat, k: nat)
    requires f.Table? && k < |chain| && Judge(e, f.types, chain[k]).Handles?
    requires forall i | 0 <= i < k :: Judge(e, f.types, chain[i]) in {Cleanup, Skips}
    ensures ScanChain(Search(), e, f, chain, pad) ==
      Returns(Results(chain[k].ttypeIndex, chain[k].address, f.lsda, pad, Judge(e, f.types, chain[k]).ptr,
                      HandlerFound))
  {
    ScanStops(Search(), e, f, chain, pad, k);
  }

  /** Forced unwinding passes over every handler to the first cleanup. */
  lemma ForcedFindsCleanup(e: Exception, f: Frame, chain: seq<Record>, pad: nat, k: nat)
    requires f.Table? && k < |chain| && chain[k].ttypeIndex == 0
    requires forall i | 0 <= i < k :: chain[i].ttypeIndex != 0 && Judge(e, f.types, chain[i]) != Corrupt
    ensures ScanChain(Forced(), e, f, chain, pad) ==
      Returns(Results(0, chain[k].address, f.lsda, pad, e.thrown, HandlerFound))
  {
    ScanStops(Forced(), e, f, chain, pad, k);
  }

  /** ... and finds nothing exactly when there is none. */
  lemma ForcedFindsNothing(e: Exception, f: Frame, chain: seq<Record>, pad: nat)
    requires f.Table? && forall r | r in chain :: Judge(e, f.types, r) != Corrupt
    ensures ScanChain(Forced(), e, f, chain, pad) == Nothing(f.lsda, ContinueUnwind) <==>
            forall r | r in chain :: r.ttypeIndex != 0
  {
    hide Judge;
    if Passes(Forced(), e, f, chain) {
      ScanPasses(Forced(), e, f, chain, pad);
      forall r | r in chain
        ensures r.ttypeIndex != 0
      {
        ForcedAct(e, f, r);
      }
    } else {
      var k := Decided(Forced(), e, f, chain);
      ScanStops(Forced(), e, f, chain, pad, k);
      ForcedAct(e, f, chain[k]);
    }
  }

  lemma ForcedAct(e: Exception, f: Frame, r: Record)
    requires f.Table?
    ensures Act(Forced(), e, f.types, r) ==
            if Judge(e, f.types, r) == Corrupt then Die else if r.ttypeIndex == 0 then Stop(e.thrown) else Next
  {
  }

  // ----- the phases agree

  /** A record that phase 1 passes over does not make the cleanup scan terminate. */
  lemma PassedOver(e: Exception, f: Frame, r: Record)
    requires f.Table? && Act(Search(), e, f.types, r) == Next
    ensures Act(CleanupPhase(), e, f.types, r) == if r.ttypeIndex == 0 then Stop(e.thrown) else Next
  {
  }

  /**
   When phase 1 finds no handler in a frame, the cleanup scan of phase 2 installs a cleanup or goes on, and never
   terminates.
   */
  lemma NoHandlerNoTermination(e: Exception, f: Frame)
    requires WellFormed(f) && Scan(Search(), e, f).Returns? && Scan(Search(), e, f).results.reason == ContinueUnwind
    ensures Scan(CleanupPhase(), e, f).Returns?
    ensures
      var r := Scan(CleanupPhase(), e, f).results;
      r.reason == ContinueUnwind || (r.reason == HandlerFound && r.ttypeIndex == 0)
  {
    hide Act;
    if f.Table? && SiteAt(f, f.sites).Some? && SiteAt(f, f.sites).value.actions.Some? {
      var site := SiteAt(f, f.sites).value;
      var chain, pad := site.actions.value, (f.lpStart + site.landingPad) % f.word;
      if !Passes(CleanupPhase(), e, f, chain) {
        var k := Decided(CleanupPhase(), e, f, chain);
        ScanStops(CleanupPhase(), e, f, chain, pad, k);
        if site.landingPad != 0 {
          SearchPassed(e, f, chain, pad, k);
          PassedOver(e, f, chain[k]);
        }
      } else {
        ScanPasses(CleanupPhase(), e, f, chain, pad);
      }
    }
  }

  lemma SearchPassed(e: Exception, f: Frame, chain: seq<Record>, pad: nat, k: nat)
    requires f.Table? && k < |chain|
    requires ScanChain(Search(), e, f, chain, pad).Returns?
    requires ScanChain(Search(), e, f, chain, pad).results.reason == ContinueUnwind
    ensures Act(Search(), e, f.types, chain[k]) == Next
  {
    hide Act;
    if !Passes(Search(), e, f, chain) {
      var j := Decided(Search(), e, f, chain);
      ScanStops(Search(), e, f, chain, pad, j);
    }
  }

  /** For a foreign exception the scan of the handler's frame treats every record as phase 1 did. */
  lemma ForeignAct(e: Exception, f: Frame, r: Record)
    requires f.Table? && e.Foreign?
    ensures Act(HandlerFrame(), e, f.types, r) == Act(Search(), e, f.types, r)
  {
  }

  lemma {:induction false} ForeignChain(e: Exception, f: Frame, chain: seq<Record>, pad: nat)
    requires f.Table? && e.Foreign?
    ensures ScanChain(HandlerFrame(), e, f, chain, pad) == ScanChain(Search(), e, f, chain, pad)
  {
    hide Act;
    if chain != [] {
      ForeignAct(e, f, chain[0]);
      ForeignChain(e, f, chain[1..], pad);
    }
  }

  /** The second scan for a foreign exception gives what the first gave: index, landing pad, pointer and verdict. */
  lemma ForeignRescan(e: Exception, f: Frame)
    requires WellFormed(f) && e.Foreign?
    ensures Scan(HandlerFrame(), e, f) == Scan(Search(), e, f)
  {
    hide Act;
    if f.Table? && SiteAt(f, f.sites).Some? && SiteAt(f, f.sites).value.actions.Some? {
      var site := SiteAt(f, f.sites).value;
      ForeignChain(e, f, site.actions.value, (f.lpStart + site.landingPad) % f.word);
    }
  }

  /**
   The cleanup scan of a chain terminates exactly when the first record that is not a catch clause or
   specification for other exceptions is a handler for this one, or corrupt.
   */
  lemma CleanupTerminates(e: Exception, f: Frame, chain: seq<Record>, pad: nat)
    requires f.Table?
    ensures ScanChain(CleanupPhase(), e, f, chain, pad) == Terminates <==>
      exists k :: 0 <= k < |chain| && Judge(e, f.types, chain[k]) !in {Cleanup, Skips}
        && forall i | 0 <= i < k :: Judge(e, f.types, chain[i]) == Skips
  {
    hide Judge;
    var a := CleanupPhase();
    forall i | 0 <= i < |chain|
      ensures Act(a, e, f.types, chain[i]) == Next <==> Judge(e, f.types, chain[i]) == Skips
      ensures Act(a, e, f.types, chain[i]) == Die <==> Judge(e, f.types, chain[i]) !in {Cleanup, Skips}
    {
      CleanupAct(e, f, chain[i]);
    }
    if Passes(a, e, f, chain) {
      ScanPasses(a, e, f, chain, pad);
    } else {
      var k := Decided(a, e, f, chain);
      ScanStops(a, e, f, chain, pad, k);
      assert forall i | 0 <= i < k :: chain[..k][i] == chain[i];
    }
  }

  lemma CleanupAct(e: Exception, f: Frame, r: Record)
    requires f.Table?
    ensures Act(CleanupPhase(), e, f.types, r) ==
      match Judge(e, f.types, r)
      case Skips => Next
      case Cleanup => Stop(e.thrown)
      case _ => Die
  {
  }
}
