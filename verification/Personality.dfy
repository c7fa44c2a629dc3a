/** The table scan as its loops run, the personality routine, and a whole two-phase unwind of a stack of frames. */
module Personality {
  import opened Common
  import opened EhTable
  import opened TwoPhases

  // ----- scan_eh_tab

  /** exception_spec_can_catch: None when the list is corrupt. */
  method ExceptionSpecCanCatch(types: Option<map<nat, CatchType>>, list: seq<nat>, catches: nat -> Option<nat>)
    returns (r: Option<bool>)
    ensures r == match SpecLets(types, list, catches)
                 case None => None
                 case Some(lets) => Some(!lets)
    ensures r == Some(true) ==> forall i | 0 <= i < |list| ::
      exists id :: TypeAt(types, list[i]) == Some(Catch(id)) && catches(id) == None
    ensures r == Some(false) ==>
      exists i, id :: 0 <= i < |list| && TypeAt(types, list[i]) == Some(Catch(id)) && catches(id).Some?
  {
    var i := 0;
    while i < |list|
      invariant 0 <= i <= |list|
      invariant SpecLets(types, list, catches) == SpecLets(types, list[i..], catches)
      invariant forall k | 0 <= k < i :: exists id :: TypeAt(types, list[k]) == Some(Catch(id)) && catches(id) == None
    {
      var t := TypeAt(types, list[i]);
      if t.None? || t.value.CatchAll? {
        return None;
      }
      assert TypeAt(types, list[i]) == Some(Catch(t.value.id));
      if catches(t.value.id).Some? {
        return Some(false);
      }
      i := i + 1;
    }
    return Some(true);
  }

  /** One turn of the loop over action records; None to go on to the next record. */
  method ScanRecord(a: Actions, e: Exception, f: Frame, r: Record, landingPad: nat) returns (out: Option<Outcome>)
    requires f.Table?
    ensures out == match Act(a, e, f.types, r)
                   case Die => Some(Terminates)
                   case Next => None
                   case Stop(ptr) =>
                     Some(Returns(Results(r.ttypeIndex, r.address, f.lsda, landingPad, ptr, HandlerFound)))
  {
    if r.ttypeIndex > 0 {
      var catchType := TypeAt(f.types, r.ttypeIndex);
      if catchType.None? {
        return Some(Terminates);
      }
      if catchType.value.CatchAll? {
        if a.search || a.handlerFrame {
          return Some(Returns(Results(r.ttypeIndex, r.address, f.lsda, landingPad, e.thrown, HandlerFound)));
        } else if !a.force {
          return Some(Terminates);
        }
      } else if e.Native? {
        if e.thrown == 0 || e.excpType == 0 {
          return Some(Terminates);
        }
        var adjusted := e.catches(catchType.value.id);
        if adjusted.Some? {
          if a.search {
            return Some(Returns(Results(r.ttypeIndex, r.address, f.lsda, landingPad, adjusted.value, HandlerFound)));
          } else if !a.force {
            return Some(Terminates);
          }
        }
      }
    } else if r.ttypeIndex < 0 {
      if e.Native? {
        if e.thrown == 0 || e.excpType == 0 || f.types.None? {
          return Some(Terminates);
        }
        var canCatch := ExceptionSpecCanCatch(f.types, r.types, e.catches);
        if canCatch.None? {
          return Some(Terminates);
        }
        if canCatch.value {
          if a.search {
            return Some(Returns(Results(r.ttypeIndex, r.address, f.lsda, landingPad, e.thrown, HandlerFound)));
          } else if !a.force {
            return Some(Terminates);
          }
        }
      } else {
        if a.search || a.handlerFrame {
          return Some(Returns(Results(r.ttypeIndex, r.address, f.lsda, landingPad, e.thrown, HandlerFound)));
        } else if !a.force {
          return Some(Terminates);
        }
      }
    } else {
      if a.cleanup && !a.handlerFrame {
        return Some(Returns(Results(r.ttypeIndex, r.address, f.lsda, landingPad, e.thrown, HandlerFound)));
      }
    }
    return None;
  }

  method ScanActions(a: Actions, e: Exception, f: Frame, chain: seq<Record>, landingPad: nat) returns (out: Outcome)
    requires f.Table?
    ensures out == ScanChain(a, e, f, chain, landingPad)
  {
    hide Act;
    var i := 0;
    while i < |chain|
      invariant 0 <= i <= |chain|
      invariant ScanChain(a, e, f, chain, landingPad) == ScanChain(a, e, f, chain[i..], landingPad)
    {
      var found := ScanRecord(a, e, f, chain[i], landingPad);
      if found.Some? {
        return found.value;
      }
      i := i + 1;
    }
    return Nothing(f.lsda, ContinueUnwind);
  }

  method ScanEhTab(a: Actions, e: Exception, f: Frame) returns (out: Outcome)
    requires WellFormed(f)
    ensures out == Scan(a, e, f)
  {
    hide ScanChain;
    if a.search {
      if a.cleanup || a.handlerFrame || a.force {
        return Nothing(0, FatalPhase1);
      }
    } else if a.cleanup {
      if a.handlerFrame && a.force {
        return Nothing(0, FatalPhase2);
      }
    } else {
      return Nothing(0, FatalPhase1);
    }
    if f.NoTable? {
      return Nothing(0, ContinueUnwind);
    }
    var j := 0;
    while j < |f.sites|
      invariant 0 <= j <= |f.sites|
      invariant SiteAt(f, f.sites) == SiteAt(f, f.sites[j..])
    {
      var site := f.sites[j];
      if site.start <= f.ipOffset < (site.start + site.length) % f.word {
        if site.landingPad == 0 {
          return Nothing(f.lsda, ContinueUnwind);
        }
        var landingPad := (f.lpStart + site.landingPad) % f.word;
        if site.actions.None? {
          if a.cleanup && !a.handlerFrame {
            return Returns(Results(0, 0, f.lsda, landingPad, 0, HandlerFound));
          }
          return Nothing(f.lsda, ContinueUnwind);
        }
        out := ScanActions(a, e, f, site.actions.value, landingPad);
        return;
      } else if f.ipOffset < site.start {
        return Terminates;
      }
      j := j + 1;
    }
    return Terminates;
  }

  // ----- __gxx_personality_v0

  /** What phase 1 leaves in the header of a native exception. */
  datatype Cache = Cache(handlerSwitchValue: int, actionRecord: nat, lsda: nat, catchTemp: nat, adjustedPtr: nat)

  /** A reply to the unwinder, a transfer to a landing pad with a switch value, or std::terminate. */
  datatype Reply = Replies(reason: Reason) | Installs(switchValue: int, landingPad: nat) | Aborts

  /** static_cast<int> of a 64-bit value. */
  function ToInt(x: int): int {
    var low := x % 0x1_0000_0000;
    if low >= 0x8000_0000 then low - 0x1_0000_0000 else low
  }

  lemma ToIntExact(x: int)
    ensures ToInt(x) == x <==> -0x8000_0000 <= x < 0x8000_0000
  {
  }

  function Save(r: Results): Cache {
    Cache(ToInt(r.ttypeIndex), r.actionRecord, r.lsda, r.landingPad, r.adjustedPtr)
  }

  function Reload(a: Actions, e: Exception, f: Frame, cache: Cache): Reply
    requires WellFormed(f)
  {
    if e.Native? then Installs(cache.handlerSwitchValue, cache.catchTemp)
    else
      match Scan(a, e, f)
      case Terminates => Aborts
      case Returns(r) => if r.reason == HandlerFound then Installs(r.ttypeIndex, r.landingPad) else Aborts
  }

  function Answer(version: int, a: Actions, e: Exception, f: Frame, cache: Cache): (Reply, Cache)
    requires WellFormed(f)
  {
    if version != 1 then (Replies(FatalPhase1), cache)
    else if a.search then
      match Scan(a, e, f)
      case Terminates => (Aborts, cache)
      case Returns(r) => (Replies(r.reason), if r.reason == HandlerFound && e.Native? then Save(r) else cache)
    else if a.cleanup && a.handlerFrame then (Reload(a, e, f, cache), cache)
    else if a.cleanup then
      match Scan(a, e, f)
      case Terminates => (Aborts, cache)
      case Returns(r) =>
        (if r.reason == HandlerFound then Installs(r.ttypeIndex, r.landingPad) else Replies(r.reason), cache)
    else (Replies(FatalPhase1), cache)
  }

  /** The exception header of a native exception. */
  class Header {
    var handlerSwitchValue: int
    var actionRecord: nat
    var languageSpecificData: nat
    var catchTemp: nat
    var adjustedPtr: nat

    constructor ()
      ensures Cached() == Cache(0, 0, 0, 0, 0)
    {
      handlerSwitchValue, actionRecord, languageSpecificData, catchTemp, adjustedPtr := 0, 0, 0, 0, 0;
    }

    function Cached(): Cache
      reads this
    {
      Cache(handlerSwitchValue, actionRecord, languageSpecificData, catchTemp, adjustedPtr)
    }

    /** __gxx_personality_v0 for the exception with this header. */
    method GxxPersonality(version: int, a: Actions, e: Exception, f: Frame) returns (reply: Reply)
      requires WellFormed(f)
      modifies this
      ensures (reply, Cached()) == Answer(version, a, e, f, old(Cached()))
      // the search saves what it found for a native exception, field by field
      ensures version == 1 && a.search && Scan(a, e, f).Returns? ==>
        var found := Scan(a, e, f).results;
        && reply == Replies(found.reason)
        && (found.reason == HandlerFound && e.Native? ==>
              && handlerSwitchValue == ToInt(found.ttypeIndex) && actionRecord == found.actionRecord
              && languageSpecificData == found.lsda && catchTemp == found.landingPad
              && adjustedPtr == found.adjustedPtr)
      // the handler's frame takes switch value and landing pad from there, or from a second scan
      ensures version == 1 && !a.search && a.cleanup && a.handlerFrame && e.Native? ==>
        reply == Installs(old(handlerSwitchValue), old(catchTemp))
      ensures version == 1 && !a.search && a.cleanup && !(a.handlerFrame && e.Native?) && Scan(a, e, f).Returns? ==>
        var found := Scan(a, e, f).results;
        reply == if found.reason == HandlerFound then Installs(found.ttypeIndex, found.landingPad)
                 else if a.handlerFrame then Aborts else Replies(found.reason)
      ensures
        (version == 1 && (a.search || (a.cleanup && !(a.handlerFrame && e.Native?))) && Scan(a, e, f) == Terminates)
        ==> reply == Aborts
      ensures version != 1 || (!a.search && !a.cleanup) ==> reply == Replies(FatalPhase1)
      // nothing else writes to the header
      ensures
        (version == 1 && a.search && e.Native? && Scan(a, e, f).Returns?
         && Scan(a, e, f).results.reason == HandlerFound)
        || (handlerSwitchValue == old(handlerSwitchValue) && actionRecord == old(actionRecord)
            && languageSpecificData == old(languageSpecificData) && catchTemp == old(catchTemp)
            && adjustedPtr == old(adjustedPtr))
    {
      hide Scan;
      if version != 1 {
        return Replies(FatalPhase1);
      }
      if a.search {
        var out := ScanEhTab(a, e, f);
        if out.Terminates? {
          return Aborts;
        }
        var results := out.results;
        if results.reason == HandlerFound {
          if e.Native? {
            handlerSwitchValue := ToInt(results.ttypeIndex);
            actionRecord := results.actionRecord;
            languageSpecificData := results.lsda;
            catchTemp := results.landingPad;
            adjustedPtr := results.adjustedPtr;
          }
          return Replies(HandlerFound);
        }
        return Replies(results.reason);
      }
      if a.cleanup {
        if a.handlerFrame {
          if e.Native? {
            return Installs(handlerSwitchValue, catchTemp);
          }
          var out := ScanEhTab(a, e, f);
          if out.Terminates? || out.results.reason != HandlerFound {
            return Aborts;
          }
          return Installs(out.results.ttypeIndex, out.results.landingPad);
        }
        var out := ScanEhTab(a, e, f);
        if out.Terminates? {
          return Aborts;
        }
        if out.results.reason == HandlerFound {
          return Installs(out.results.ttypeIndex, out.results.landingPad);
        }
        return Replies(out.results.reason);
      }
      return Replies(FatalPhase1);
    }
  }

  // ----- both phases over a stack of frames

  /** The frames as phase 1 meets them, innermost first: k is the first whose personality finds a handler. */
  ghost predicate PhaseOneFinds(frames: seq<Frame>, e: Exception, cache: Cache, k: nat) {
    && k < |frames| && (forall i | 0 <= i < |frames| :: WellFormed(frames[i]))
    && (forall i | 0 <= i < k :: Answer(1, Search(), e, frames[i], cache).0 == Replies(ContinueUnwind))
    && Answer(1, Search(), e, frames[k], cache).0 == Replies(HandlerFound)
  }

  /**
   Once phase 1 has found a handler, phase 2 runs through: below the handler's frame every call goes on or
   installs a cleanup, and in the frame itself the landing pad that phase 1 found is installed.  The switch
   value is the one phase 1 found exactly when the exception is foreign or the value fits an int.
   */
  lemma TwoPhaseUnwind(frames: seq<Frame>, e: Exception, before: Cache, k: nat)
    requires PhaseOneFinds(frames, e, before, k)
    ensures
      var found := Scan(Search(), e, frames[k]).results;
      var cache := Answer(1, Search(), e, frames[k], before).1;
      && (forall i | 0 <= i < k ::
            Answer(1, Search(), e, frames[i], before).1 == before
            && var reply := Answer(1, CleanupPhase(), e, frames[i], cache).0;
               reply == Replies(ContinueUnwind) || (reply.Installs? && reply.switchValue == 0))
      && (e.Native? ==> cache.adjustedPtr == found.adjustedPtr && cache.lsda == found.lsda)
      && var reply := Answer(1, HandlerFrame(), e, frames[k], cache).0;
         && reply.Installs? && reply.landingPad == found.landingPad
         && (reply.switchValue == found.ttypeIndex <==>
             e.Foreign? || -0x8000_0000 <= found.ttypeIndex < 0x8000_0000)
  {
    hide Scan, ToInt;
    var found := Scan(Search(), e, frames[k]).results;
    ToIntExact(found.ttypeIndex);
    if e.Foreign? {
      ForeignRescan(e, frames[k]);
    }
    forall i | 0 <= i < k
      ensures Scan(CleanupPhase(), e, frames[i]).Returns?
      ensures
        var r := Scan(CleanupPhase(), e, frames[i]).results;
        r.reason == ContinueUnwind || (r.reason == HandlerFound && r.ttypeIndex == 0)
    {
      NoHandlerNoTermination(e, frames[i]);
    }
  }
}
