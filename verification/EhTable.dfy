/**
 One frame's exception table as the personality routine reads it (non-ARM, non-SjLj), and what each of
 the three kinds of scan makes of it.  The tables are parsed: call sites, action chains and type lists
 are sequences, in the order in which the source meets them.
 */
module EhTable {
  import opened Common

  /** An entry of the type table: null stands for catch (...). */
  datatype CatchType = CatchAll | Catch(id: nat)

  /** One action record.  types is the list behind a negative index, an exception specification. */
  datatype Record = Record(address: nat, ttypeIndex: int, types: seq<nat>)

  /** A call site; actions is None for actionEntry 0, and the action chain otherwise. */
  datatype Site = Site(start: nat, length: nat, landingPad: nat, actions: Option<seq<Record>>)

  /**
   What _Unwind_Context knows of the frame.  types is None for a table without class info, and maps the
   indices whose encoding is valid.  Addresses are taken modulo word.
   */
  datatype Frame =
    | NoTable
    | Table(lsda: nat, ipOffset: nat, lpStart: nat, sites: seq<Site>, types: Option<map<nat, CatchType>>, word: nat)

  /**
   The exception.  thrown is what get_thrown_object_ptr returns, excpType its type_info (0 for null), and
   catches the answer of can_catch for each catch type, with the adjusted pointer.
   */
  datatype Exception =
    | Native(thrown: nat, excpType: nat, catches: nat -> Option<nat>)
    | Foreign(thrown: nat)

  datatype Actions = Actions(search: bool, cleanup: bool, handlerFrame: bool, force: bool)

  datatype Reason = FatalPhase1 | FatalPhase2 | ContinueUnwind | HandlerFound | InstallContext

  datatype Results =
    Results(ttypeIndex: int, actionRecord: nat, lsda: nat, landingPad: nat, adjustedPtr: nat, reason: Reason)

  /** scan_eh_tab returns its results or calls terminate. */
  datatype Outcome = Returns(results: Results) | Terminates

  function Nothing(lsda: nat, reason: Reason): Outcome {
    Returns(Results(0, 0, lsda, 0, 0, reason))
  }

  // ----- what one record means for the exception

  datatype Verdict = Cleanup | Handles(ptr: nat) | Skips | Corrupt

  function TypeAt(types: Option<map<nat, CatchType>>, index: nat): Option<CatchType> {
    if types.Some? && index in types.value then Some(types.value[index]) else None
  }

  /** An exception specification lets e through when one of its types catches e; None for a corrupt list. */
  function SpecLets(types: Option<map<nat, CatchType>>, list: seq<nat>, catches: nat -> Option<nat>): Option<bool> {
    if list == [] then Some(false)
    else
      var t := TypeAt(types, list[0]);
      if t.None? || t.value.CatchAll? then None
      else if catches(t.value.id).Some? then Some(true)
      else SpecLets(types, list[1..], catches)
  }

  function Judge(e: Exception, types: Option<map<nat, CatchType>>, r: Record): Verdict {
    if r.ttypeIndex > 0 then
      var t := TypeAt(types, r.ttypeIndex);
      if t.None? then Corrupt
      else if t.value.CatchAll? then Handles(e.thrown)
      else if e.Foreign? then Skips
      else if e.thrown == 0 || e.excpType == 0 then Corrupt
      else
        var p := e.catches(t.value.id);
        if p.Some? then Handles(p.value) else Skips
    else if r.ttypeIndex < 0 then
      if e.Foreign? then Handles(e.thrown)
      else if e.thrown == 0 || e.excpType == 0 || types.None? then Corrupt
      else
        var lets := SpecLets(types, r.types, e.catches);
        if lets.None? then Corrupt else if lets.value then Skips else Handles(e.thrown)
    else Cleanup
  }

  /** Handlers that a second-phase scan of a handler frame can find again without a cache. */
  predicate Unconditional(e: Exception, types: Option<map<nat, CatchType>>, r: Record) {
    if r.ttypeIndex > 0 then TypeAt(types, r.ttypeIndex) == Some(CatchAll) else r.ttypeIndex < 0 && e.Foreign?
  }

  datatype Move = Stop(ptr: nat) | Die | Next

  /** What the scan does at a record. */
  function Act(a: Actions, e: Exception, types: Option<map<nat, CatchType>>, r: Record): Move {
    match Judge(e, types, r)
    case Corrupt => Die
    case Skips => Next
    case Cleanup => if a.cleanup && !a.handlerFrame then Stop(e.thrown) else Next
    case Handles(ptr) =>
      if a.search || (a.handlerFrame && Unconditional(e, types, r)) then Stop(ptr)
      else if !a.force then Die
      else Next
  }

  function ScanChain(a: Actions, e: Exception, f: Frame, chain: seq<Record>, landingPad: nat): Outcome
    requires f.Table?
  {
    if chain == [] then Nothing(f.lsda, ContinueUnwind)
    else
      match Act(a, e, f.types, chain[0])
      case Die => Terminates
      case Next => ScanChain(a, e, f, chain[1..], landingPad)
      case Stop(ptr) =>
        Returns(Results(chain[0].ttypeIndex, chain[0].address, f.lsda, landingPad, ptr, HandlerFound))
  }

  predicate Inside(f: Frame, s: Site)
    requires f.Table? && f.word > 0
  {
    s.start <= f.ipOffset < (s.start + s.length) % f.word
  }

  function ScanSite(a: Actions, e: Exception, f: Frame, s: Site): Outcome
    requires f.Table? && f.word > 0
  {
    if s.landingPad == 0 then Nothing(f.lsda, ContinueUnwind)
    else
      var pad := (f.lpStart + s.landingPad) % f.word;
      match s.actions
      case Some(chain) => ScanChain(a, e, f, chain, pad)
      case None =>
        if a.cleanup && !a.handlerFrame then Returns(Results(0, 0, f.lsda, pad, 0, HandlerFound))
        else Nothing(f.lsda, ContinueUnwind)
  }

  /** The site that decides: the first that contains ip, unless one that starts after ip comes before it. */
  function SiteAt(f: Frame, sites: seq<Site>): Option<Site>
    requires f.Table? && f.word > 0
  {
    if sites == [] then None
    else if Inside(f, sites[0]) then Some(sites[0])
    else if f.ipOffset < sites[0].start then None
    else SiteAt(f, sites[1..])
  }

  ghost predicate WellFormed(f: Frame) {
    f.Table? ==> f.word > 0
  }

  /** The flags that scan_eh_tab accepts, and the error for the others. */
  function Complaint(a: Actions): Option<Reason> {
    if a.search then
      if a.cleanup || a.handlerFrame || a.force then Some(FatalPhase1) else None
    else if a.cleanup then
      if a.handlerFrame && a.force then Some(FatalPhase2) else None
    else Some(FatalPhase1)
  }

  function Scan(a: Actions, e: Exception, f: Frame): Outcome
    requires f.Table? ==> f.word > 0
  {
    match Complaint(a)
    case Some(reason) => Nothing(0, reason)
    case None =>
      if f.NoTable? then Nothing(0, ContinueUnwind)
      else
        match SiteAt(f, f.sites)
        case None => Terminates
        case Some(site) => ScanSite(a, e, f, site)
  }
}
