/**
 What scan_eh_tab answers, read off the fields of the table and of the exception: which call site decides, when a
 record catches and with which pointer, when the table counts as corrupt, and what the flags make of that.
 */
module ScanMeaning {
  import opened Common
  import opened EhTable
  import opened TwoPhases

  // ----- records

  /** The type table has an entry of that index. */
  predicate HasType(types: Option<map<nat, CatchType>>, index: int, t: CatchType) {
    types.Some? && index > 0 && index in types.value && types.value[index] == t
  }

  /** A native exception whose object and type are known. */
  predicate Known(e: Exception) {
    e.Native? && e.thrown != 0 && e.excpType != 0
  }

  /** Entry i of an exception specification names a type that catches e. */
  predicate Admits(types: Option<map<nat, CatchType>>, e: Exception, index: nat)
    requires e.Native?
  {
    && types.Some? && index in types.value && types.value[index].Catch?
    && e.catches(types.value[index].id).Some?
  }

  /** ... or one that does not. */
  predicate Rejects(types: Option<map<nat, CatchType>>, e: Exception, index: nat)
    requires e.Native?
  {
    && types.Some? && index in types.value && types.value[index].Catch?
    && e.catches(types.value[index].id).None?
  }

  /** The record catches e, and its handler sees the object at ptr. */
  ghost predicate Catches(e: Exception, types: Option<map<nat, CatchType>>, r: Record, ptr: nat) {
    || (HasType(types, r.ttypeIndex, CatchAll) && ptr == e.thrown)
    || (exists id :: HasType(types, r.ttypeIndex, Catch(id)) && Known(e) && e.catches(id) == Some(ptr))
    || (r.ttypeIndex < 0 && e.Foreign? && ptr == e.thrown)
    || (r.ttypeIndex < 0 && Known(e) && types.Some? && ptr == e.thrown
        && forall i | 0 <= i < |r.types| :: Rejects(types, e, r.types[i]))
  }

  /** Reading the record for e ends in terminate. */
  ghost predicate Broken(e: Exception, types: Option<map<nat, CatchType>>, r: Record) {
    || (r.ttypeIndex > 0 && forall t :: !HasType(types, r.ttypeIndex, t))
    || (exists id :: HasType(types, r.ttypeIndex, Catch(id)) && e.Native? && !Known(e))
    || (r.ttypeIndex < 0 && e.Native? && (!Known(e) || types.None?))
    || (r.ttypeIndex < 0 && e.Native? && exists i: nat :: BrokenAt(e, types, r.types, i))
  }

  /** Entry i of the list is no type, and none before it catches e. */
  ghost predicate BrokenAt(e: Exception, types: Option<map<nat, CatchType>>, list: seq<nat>, i: nat)
    requires e.Native?
  {
    && i < |list| && !Admits(types, e, list[i]) && !Rejects(types, e, list[i])
    && forall j | 0 <= j < i :: Rejects(types, e, list[j])
  }

  /** A handler that is found again in the second phase without the header's help. */
  predicate NeedsNoCache(e: Exception, types: Option<map<nat, CatchType>>, r: Record) {
    HasType(types, r.ttypeIndex, CatchAll) || (r.ttypeIndex < 0 && e.Foreign?)
  }

  /** The scan ends at the record and answers with ptr. */
  ghost predicate Stops(a: Actions, e: Exception, types: Option<map<nat, CatchType>>, r: Record, ptr: nat) {
    || (Catches(e, types, r, ptr) && (a.search || (a.handlerFrame && NeedsNoCache(e, types, r))))
    || (r.ttypeIndex == 0 && a.cleanup && !a.handlerFrame && ptr == e.thrown)
  }

  /** The scan ends at the record and terminates. */
  ghost predicate Ends(a: Actions, e: Exception, types: Option<map<nat, CatchType>>, r: Record) {
    || Broken(e, types, r)
    || ((exists ptr :: Catches(e, types, r, ptr))
        && !a.search && !a.force && !(a.handlerFrame && NeedsNoCache(e, types, r)))
  }

  lemma {:induction false} SpecMeans(e: Exception, types: Option<map<nat, CatchType>>, list: seq<nat>)
    requires e.Native?
    ensures
      SpecLets(types, list, e.catches) == Some(false) <==> forall i | 0 <= i < |list| :: Rejects(types, e, list[i])
    ensures SpecLets(types, list, e.catches) == None <==> exists i: nat :: BrokenAt(e, types, list, i)
  {
    if list != [] {
      var rest := list[1..];
      SpecMeans(e, types, rest);
      assert forall i | 0 < i < |list| :: list[i] == rest[i - 1];
      if Rejects(types, e, list[0]) {
        if i: nat :| BrokenAt(e, types, rest, i) {
          assert BrokenAt(e, types, list, i + 1);
        }
        if i: nat :| BrokenAt(e, types, list, i) {
          assert i > 0;
          assert BrokenAt(e, types, rest, i - 1);
        }
      } else if !Admits(types, e, list[0]) {
        assert BrokenAt(e, types, list, 0);
      }
    }
  }

  lemma JudgeMeans(e: Exception, types: Option<map<nat, CatchType>>, r: Record)
    ensures Judge(e, types, r) == Corrupt <==> Broken(e, types, r)
    ensures forall ptr :: Catches(e, types, r, ptr) <==> Judge(e, types, r) == Handles(ptr)
    ensures Judge(e, types, r) == Cleanup <==> r.ttypeIndex == 0
  {
    hide SpecLets, Rejects, Admits, BrokenAt;
    if e.Native? {
      SpecMeans(e, types, r.types);
    }
    if r.ttypeIndex > 0 && TypeAt(types, r.ttypeIndex).Some? {
      assert HasType(types, r.ttypeIndex, TypeAt(types, r.ttypeIndex).value);
    }
  }

  /** The scan's move at a record is the one that its fields and the flags call for. */
  lemma RecordExact(a: Actions, e: Exception, types: Option<map<nat, CatchType>>, r: Record)
    ensures forall ptr :: Act(a, e, types, r) == Stop(ptr) <==> Stops(a, e, types, r, ptr)
    ensures Act(a, e, types, r) == Die <==> Ends(a, e, types, r)
  {
    hide Judge, Catches, Broken;
    JudgeMeans(e, types, r);
    if Judge(e, types, r).Handles? {
      assert Catches(e, types, r, Judge(e, types, r).ptr);
    }
  }

  // ----- the whole scan

  predicate Covers(f: Frame, s: Site)
    requires f.Table? && f.word > 0
  {
    s.start <= f.ipOffset && f.ipOffset < (s.start + s.length) % f.word
  }

  /** Call site j is the first that covers ip, and those before it do not start after ip. */
  ghost predicate Decides(f: Frame, j: nat)
    requires f.Table? && f.word > 0
  {
    && j < |f.sites| && Covers(f, f.sites[j])
    && forall i | 0 <= i < j :: !Covers(f, f.sites[i]) && f.sites[i].start <= f.ipOffset
  }

  /** The scan goes past the first k records. */
  ghost predicate Reaches(a: Actions, e: Exception, types: Option<map<nat, CatchType>>, chain: seq<Record>, k: nat) {
    k <= |chain| && forall i | 0 <= i < k :: Goes(a, e, types, chain[i])
  }

  ghost predicate Goes(a: Actions, e: Exception, types: Option<map<nat, CatchType>>, r: Record) {
    !Ends(a, e, types, r) && forall ptr :: !Stops(a, e, types, r, ptr)
  }

  ghost predicate ChainMeans(a: Actions, e: Exception, f: Frame, chain: seq<Record>, pad: nat, out: Outcome)
    requires f.Table?
  {
    if Reaches(a, e, f.types, chain, |chain|) then out == Returns(Results(0, 0, f.lsda, 0, 0, ContinueUnwind))
    else
      exists k {:trigger chain[k]} :: 0 <= k < |chain| && Reaches(a, e, f.types, chain, k)
        && if Ends(a, e, f.types, chain[k]) then out == Terminates
           else
             && out.Returns? && Stops(a, e, f.types, chain[k], out.results.adjustedPtr)
             && out.results == Results(chain[k].ttypeIndex, chain[k].address, f.lsda, pad,
                                       out.results.adjustedPtr, HandlerFound)
  }

  ghost predicate SiteMeans(a: Actions, e: Exception, f: Frame, s: Site, out: Outcome)
    requires f.Table? && f.word > 0
  {
    if s.landingPad == 0 then out == Returns(Results(0, 0, f.lsda, 0, 0, ContinueUnwind))
    else if s.actions.Some? then ChainMeans(a, e, f, s.actions.value, (f.lpStart + s.landingPad) % f.word, out)
    else if a.cleanup && !a.handlerFrame then
      out == Returns(Results(0, 0, f.lsda, (f.lpStart + s.landingPad) % f.word, 0, HandlerFound))
    else out == Returns(Results(0, 0, f.lsda, 0, 0, ContinueUnwind))
  }

  /** out is what scan_eh_tab answers. */
  ghost predicate ScanMeans(a: Actions, e: Exception, f: Frame, out: Outcome)
    requires f.Table? ==> f.word > 0
  {
    if a.search && (a.cleanup || a.handlerFrame || a.force) then out == Returns(Results(0, 0, 0, 0, 0, FatalPhase1))
    else if !a.search && !a.cleanup then out == Returns(Results(0, 0, 0, 0, 0, FatalPhase1))
    else if a.handlerFrame && a.force then out == Returns(Results(0, 0, 0, 0, 0, FatalPhase2))
    else if f.NoTable? then out == Returns(Results(0, 0, 0, 0, 0, ContinueUnwind))
    else if forall j: nat :: !Decides(f, j) then out == Terminates
    else exists j: nat :: Decides(f, j) && SiteMeans(a, e, f, f.sites[j], out)
  }

  lemma ChainExact(a: Actions, e: Exception, f: Frame, chain: seq<Record>, pad: nat, out: Outcome)
    requires f.Table?
    ensures ChainMeans(a, e, f, chain, pad, out) <==> out == ScanChain(a, e, f, chain, pad)
  {
    hide Act, Stops, Ends;
    forall i | 0 <= i < |chain|
      ensures Goes(a, e, f.types, chain[i]) <==> Act(a, e, f.types, chain[i]) == Next
      ensures Ends(a, e, f.types, chain[i]) <==> Act(a, e, f.types, chain[i]) == Die
      ensures forall ptr :: Stops(a, e, f.types, chain[i], ptr) <==> Act(a, e, f.types, chain[i]) == Stop(ptr)
    {
      RecordExact(a, e, f.types, chain[i]);
    }
    if Passes(a, e, f, chain) {
      ScanPasses(a, e, f, chain, pad);
    } else {
      var k := Decided(a, e, f, chain);
      assert forall i | 0 <= i < k :: chain[..k][i] == chain[i];
      ScanStops(a, e, f, chain, pad, k);
      assert Reaches(a, e, f.types, chain, k);
      forall i: nat | i < |chain| && Reaches(a, e, f.types, chain, i) && !Goes(a, e, f.types, chain[i])
        ensures i == k
      {
      }
    }
  }

  lemma {:induction false} SiteFound(f: Frame, sites: seq<Site>, j: nat)
    requires f.Table? && f.word > 0 && j < |sites| && Covers(f, sites[j])
    requires forall i | 0 <= i < j :: !Covers(f, sites[i]) && sites[i].start <= f.ipOffset
    ensures SiteAt(f, sites) == Some(sites[j])
  {
    if j > 0 {
      SiteFound(f, sites[1..], j - 1);
    }
  }

  lemma {:induction false} SiteSearch(f: Frame, sites: seq<Site>) returns (j: nat)
    requires f.Table? && f.word > 0 && SiteAt(f, sites).Some?
    ensures j < |sites| && Covers(f, sites[j])
    ensures forall i | 0 <= i < j :: !Covers(f, sites[i]) && sites[i].start <= f.ipOffset
  {
    if Inside(f, sites[0]) {
      j := 0;
    } else {
      var k := SiteSearch(f, sites[1..]);
      j := k + 1;
      forall i | 0 <= i < j
        ensures !Covers(f, sites[i]) && sites[i].start <= f.ipOffset
      {
        assert i > 0 ==> sites[i] == sites[1..][i - 1];
      }
    }
  }

  /** The scan gives this answer and no other. */
  lemma ScanExact(a: Actions, e: Exception, f: Frame, out: Outcome)
    requires WellFormed(f)
    ensures ScanMeans(a, e, f, out) <==> out == Scan(a, e, f)
  {
    hide ChainMeans, ScanChain, Covers, SiteAt;
    if f.Table? {
      if SiteAt(f, f.sites).Some? {
        var j := SiteSearch(f, f.sites);
        assert Decides(f, j);
      }
      forall j: nat | Decides(f, j)
        ensures SiteAt(f, f.sites) == Some(f.sites[j])
      {
        SiteFound(f, f.sites, j);
      }
      forall s: Site | s.actions.Some?
        ensures ChainMeans(a, e, f, s.actions.value, (f.lpStart + s.landingPad) % f.word, out)
                <==> out == ScanChain(a, e, f, s.actions.value, (f.lpStart + s.landingPad) % f.word)
      {
        ChainExact(a, e, f, s.actions.value, (f.lpStart + s.landingPad) % f.word, out);
      }
    }
  }

  // ----- phase 1, by kind of record

  /** The search of phase 1 comes to record k of the chain of call site j. */
  ghost predicate Meets(e: Exception, f: Frame, j: nat, k: nat) {
    && f.Table? && f.word > 0 && Decides(f, j) && f.sites[j].landingPad != 0 && f.sites[j].actions.Some?
    && k < |f.sites[j].actions.value| && Reaches(Search(), e, f.types, f.sites[j].actions.value, k)
  }

  /** It answers with record k, call site j's landing pad and the pointer. */
  ghost predicate Finds(e: Exception, f: Frame, j: nat, k: nat, ptr: nat)
    requires f.Table? && f.word > 0 && j < |f.sites| && f.sites[j].actions.Some?
    requires k < |f.sites[j].actions.value|
  {
    var r := f.sites[j].actions.value[k];
    Scan(Search(), e, f) ==
    Returns(Results(r.ttypeIndex, r.address, f.lsda, (f.lpStart + f.sites[j].landingPad) % f.word, ptr, HandlerFound))
  }

  lemma SearchAt(e: Exception, f: Frame, j: nat, k: nat)
    requires Meets(e, f, j, k)
    ensures
      var r := f.sites[j].actions.value[k];
      && (forall ptr | Catches(e, f.types, r, ptr) :: Finds(e, f, j, k, ptr))
      && (Broken(e, f.types, r) ==> Scan(Search(), e, f) == Terminates)
  {
    hide Scan, Catches, Broken, Covers;
    var chain := f.sites[j].actions.value;
    var r, pad := chain[k], (f.lpStart + f.sites[j].landingPad) % f.word;
    forall ptr | Catches(e, f.types, r, ptr)
      ensures Finds(e, f, j, k, ptr)
    {
      var out := Returns(Results(r.ttypeIndex, r.address, f.lsda, pad, ptr, HandlerFound));
      RecordExact(Search(), e, f.types, r);
      assert Stops(Search(), e, f.types, r, ptr) && !Ends(Search(), e, f.types, r);
      assert !Goes(Search(), e, f.types, r);
      assert ChainMeans(Search(), e, f, chain, pad, out);
      ScanExact(Search(), e, f, out);
    }
    if Broken(e, f.types, r) {
      assert Ends(Search(), e, f.types, r) && !Goes(Search(), e, f.types, r);
      assert ChainMeans(Search(), e, f, chain, pad, Terminates);
      ScanExact(Search(), e, f, Terminates);
    }
  }

  /** A catch clause for a type finds a native exception exactly when can_catch does, with the pointer it adjusted. */
  lemma TypedCatch(e: Exception, f: Frame, j: nat, k: nat, id: nat)
    requires Meets(e, f, j, k) && HasType(f.types, f.sites[j].actions.value[k].ttypeIndex, Catch(id))
    requires e.Native? && e.thrown != 0 && e.excpType != 0
    ensures forall ptr | e.catches(id) == Some(ptr) :: Finds(e, f, j, k, ptr)
    ensures e.catches(id) == None ==> Reaches(Search(), e, f.types, f.sites[j].actions.value, k + 1)
  {
    hide Scan, Covers;
    SearchAt(e, f, j, k);
  }

  /** catch (...) finds every exception. */
  lemma CatchesAll(e: Exception, f: Frame, j: nat, k: nat)
    requires Meets(e, f, j, k) && HasType(f.types, f.sites[j].actions.value[k].ttypeIndex, CatchAll)
    ensures Finds(e, f, j, k, e.thrown)
  {
    hide Scan, Covers;
    SearchAt(e, f, j, k);
  }

  /** A catch clause for a type lets a foreign exception pass. */
  lemma TypedCatchForeign(e: Exception, f: Frame, j: nat, k: nat, id: nat)
    requires Meets(e, f, j, k) && HasType(f.types, f.sites[j].actions.value[k].ttypeIndex, Catch(id)) && e.Foreign?
    ensures Reaches(Search(), e, f.types, f.sites[j].actions.value, k + 1)
  {
    hide Covers;
  }

  /** An exception specification of types stops a native exception exactly when none of them catches it. */
  lemma Specification(e: Exception, f: Frame, j: nat, k: nat)
    requires Meets(e, f, j, k) && f.sites[j].actions.value[k].ttypeIndex < 0 && f.types.Some?
    requires e.Native? && e.thrown != 0 && e.excpType != 0
    requires forall t | t in f.sites[j].actions.value[k].types :: exists id :: HasType(f.types, t, Catch(id))
    ensures
      var list := f.sites[j].actions.value[k].types;
      if exists t, id :: t in list && HasType(f.types, t, Catch(id)) && e.catches(id).Some? then
        Reaches(Search(), e, f.types, f.sites[j].actions.value, k + 1)
      else Finds(e, f, j, k, e.thrown)
  {
    hide Scan, Covers;
    SearchAt(e, f, j, k);
    var r := f.sites[j].actions.value[k];
    forall i | 0 <= i < |r.types|
      ensures Admits(f.types, e, r.types[i]) || Rejects(f.types, e, r.types[i])
      ensures Admits(f.types, e, r.types[i])
              <==> exists id :: HasType(f.types, r.types[i], Catch(id)) && e.catches(id).Some?
    {
      assert r.types[i] in r.types;
      assert HasType(f.types, r.types[i], f.types.value[r.types[i]]);
    }
    if i :| 0 <= i < |r.types| && Admits(f.types, e, r.types[i]) {
      assert r.types[i] in r.types && HasType(f.types, r.types[i], Catch(f.types.value[r.types[i]].id));
    } else {
      assert Catches(e, f.types, r, e.thrown);
    }
  }

  /** It stops every foreign exception. */
  lemma SpecificationForeign(e: Exception, f: Frame, j: nat, k: nat)
    requires Meets(e, f, j, k) && f.sites[j].actions.value[k].ttypeIndex < 0 && e.Foreign?
    ensures Finds(e, f, j, k, e.thrown)
  {
    hide Scan, Covers;
    SearchAt(e, f, j, k);
  }

  /** An index without an entry, or a native exception without object or type at a typed clause, terminates. */
  lemma CorruptCatch(e: Exception, f: Frame, j: nat, k: nat)
    requires Meets(e, f, j, k) && f.sites[j].actions.value[k].ttypeIndex > 0
    ensures
      var index := f.sites[j].actions.value[k].ttypeIndex;
      f.types == None || index !in f.types.value
      || (f.types.value[index] != CatchAll && e.Native? && (e.thrown == 0 || e.excpType == 0))
      ==> Scan(Search(), e, f) == Terminates
  {
    hide Scan, Covers;
    SearchAt(e, f, j, k);
    var index := f.sites[j].actions.value[k].ttypeIndex;
    if f.types.Some? && index in f.types.value {
      assert HasType(f.types, index, f.types.value[index]);
    }
  }

  /** So does a specification for a native exception without object or type, without a type table, or with an entry
      that is no type and that the search reads. */
  lemma CorruptSpecification(e: Exception, f: Frame, j: nat, k: nat)
    requires Meets(e, f, j, k) && f.sites[j].actions.value[k].ttypeIndex < 0 && e.Native?
    ensures
      e.thrown == 0 || e.excpType == 0 || f.types == None
      || (exists i: nat :: BrokenAt(e, f.types, f.sites[j].actions.value[k].types, i))
      ==> Scan(Search(), e, f) == Terminates
  {
    hide Scan, Covers;
    SearchAt(e, f, j, k);
  }

  /** A cleanup is not what phase 1 looks for. */
  lemma SearchSkipsCleanup(e: Exception, f: Frame, j: nat, k: nat)
    requires Meets(e, f, j, k) && f.sites[j].actions.value[k].ttypeIndex == 0
    ensures Reaches(Search(), e, f.types, f.sites[j].actions.value, k + 1)
  {
    hide Covers;
  }

  /** Past the last record nothing is found. */
  lemma SearchEnds(e: Exception, f: Frame, j: nat)
    requires f.Table? && f.word > 0 && Decides(f, j) && f.sites[j].landingPad != 0 && f.sites[j].actions.Some?
    requires Reaches(Search(), e, f.types, f.sites[j].actions.value, |f.sites[j].actions.value|)
    ensures Scan(Search(), e, f) == Returns(Results(0, 0, f.lsda, 0, 0, ContinueUnwind))
  {
    hide Scan, Reaches, Covers;
    ScanExact(Search(), e, f, Returns(Results(0, 0, f.lsda, 0, 0, ContinueUnwind)));
  }

  /** A class D with bases A and B thrown at 0x1000, and a handler for B& that is to see the B inside it. */
  lemma SecondBase(f: Frame, e: Exception)
    requires f == Table(0x500, 4, 0x2000, [Site(0, 8, 0x30, Some([Record(0x600, 1, [])]))], Some(map[1 := Catch(7)]),
                        0x1_0000_0000)
    requires e.Native? && e.thrown == 0x1000 && e.excpType == 9 && e.catches(7) == Some(0x1008)
    ensures Scan(Search(), e, f) == Returns(Results(1, 0x600, 0x500, 0x2030, 0x1008, HandlerFound))
  {
    assert Covers(f, f.sites[0]);
    TypedCatch(e, f, 0, 0, 7);
  }
}
