/** The runtime's functions as they update the headers and the globals of a thread in place. */
module ExceptionGlobals {
  import opened Common
  import opened ExceptionModel
  import opened ExceptionRuntime
  import opened ExceptionRuns

  /** No header changes but h's. */
  ghost predicate SameBut(hs: Headers, hs': Headers, h: nat) {
    forall k | k != h :: (k in hs' <==> k in hs) && (k in hs ==> hs'[k] == hs[k])
  }

  /** p has an owner less, and is gone and destroyed if that was the last one. */
  ghost predicate OneOwnerLess(hs: Headers, hs': Headers, destroyed: seq<nat>, destroyed': seq<nat>, p: nat) {
    && p in hs && hs[p].Primary? && hs[p].referenceCount > 0 && SameBut(hs, hs', p)
    && if hs[p].referenceCount == 1 then p !in hs' && destroyed' == destroyed + [p]
       else p in hs' && hs'[p] == hs[p].(referenceCount := hs[p].referenceCount - 1) && destroyed' == destroyed
  }

  /** p has an owner more. */
  ghost predicate OneOwnerMore(hs: Headers, hs': Headers, p: nat) {
    && p in hs && hs[p].Primary? && SameBut(hs, hs', p)
    && p in hs' && hs'[p] == hs[p].(referenceCount := hs[p].referenceCount + 1)
  }

  /**
   The innermost clause of h ends: its count goes towards zero; with the last clause h leaves the stack, and unless
   the count was negative h gives its object up, a dependent header by going away itself.
   */
  ghost predicate ClauseEnds(hs: Headers, hs': Headers, destroyed: seq<nat>, destroyed': seq<nat>, h: nat) {
    && h in hs
    && var x := hs[h];
       if x.handlerCount < 0 then
         h in hs' && hs'[h] == x.(handlerCount := x.handlerCount + 1) && SameBut(hs, hs', h) && destroyed' == destroyed
       else if x.handlerCount != 1 then
         h in hs' && hs'[h] == x.(handlerCount := x.handlerCount - 1) && SameBut(hs, hs', h) && destroyed' == destroyed
       else
         match x
         case Primary(_, _, _) => OneOwnerLess(hs[h := x.(handlerCount := 0)], hs', destroyed, destroyed', h)
         case Dependent(p, _, _) => h !in hs' && OneOwnerLess(hs - {h}, hs', destroyed, destroyed', p)
  }

  lemma LeftControl(c: seq<Frame>)
    requires LeavesHandler(c)
    ensures
      var n := |c|;
      n > 0 && LeaveHandler(c) == if c[n - 1].Handler? then c[..n - 1] else c[..n - 2] + [c[n - 1]]
  {
  }

  /** The header memory with __cxa_eh_globals.  The ghost fields follow the program that calls in. */
  class Globals {
    var headers: Headers
    var caughtExceptions: nat
    var uncaughtExceptions: nat
    ghost var control: seq<Frame>
    ghost var handles: multiset<nat>
    ghost var destroyed: seq<nat>

    ghost function Now(): State
      reads this
    {
      State(headers, caughtExceptions, uncaughtExceptions, control, handles, destroyed)
    }

    ghost predicate Valid()
      reads this
    {
      Inv(Now())
    }

    constructor ()
      ensures Valid() && Now() == Start()
    {
      headers, caughtExceptions, uncaughtExceptions := map[], 0, 0;
      control, handles, destroyed := [], multiset{}, [];
      new;
      StartInv();
    }

    /** __cxa_throw of the exception newly allocated at h. */
    method CxaThrow(h: nat)
      requires Valid() && New(Now(), h)
      modifies this
      ensures Valid() && Now() == Throw(old(Now()), h)
      ensures h in headers && headers[h] == Primary(1, 0, 0) && SameBut(old(headers), headers, h)
      ensures uncaughtExceptions == old(uncaughtExceptions) + 1 && caughtExceptions == old(caughtExceptions)
      ensures control == old(control) + [Flight(h)] && handles == old(handles) && destroyed == old(destroyed)
    {
      hide Inv;
      ThrowKeeps(Now(), h);
      headers := headers[h := Primary(1, 0, 0)];
      uncaughtExceptions := uncaughtExceptions + 1;
      control := control + [Flight(h)];
    }

    /** __cxa_begin_catch of the exception in flight h. */
    method CxaBeginCatch(h: nat)
      requires Valid() && control != [] && control[|control| - 1] == Flight(h)
      modifies this
      ensures Valid() && MayBeginCatch(old(Now())) && Now() == BeginCatch(old(Now()))
      ensures h in old(headers) && h in headers && SameBut(old(headers), headers, h)
      ensures headers[h].handlerCount == Abs(old(headers)[h].handlerCount) + 1
      ensures headers[h].next == if old(caughtExceptions) == h then old(headers)[h].next else old(caughtExceptions)
      ensures headers[h] == old(headers)[h].(handlerCount := headers[h].handlerCount, next := headers[h].next)
      ensures caughtExceptions == h && uncaughtExceptions == old(uncaughtExceptions) - 1
      ensures control == old(control)[..|old(control)| - 1] + [Handler(h)]
      ensures handles == old(handles) && destroyed == old(destroyed)
    {
      hide Inv;
      BeginCatchKeeps(Now());
      var count := headers[h].handlerCount;
      headers := headers[h := WithCount(headers[h], if count < 0 then -count + 1 else count + 1)];
      if h != caughtExceptions {
        headers := headers[h := headers[h].(next := caughtExceptions)];
        caughtExceptions := h;
      }
      uncaughtExceptions := uncaughtExceptions - 1;
      control := control[..|control| - 1] + [Handler(h)];
      assert headers == BeginCatch(old(Now())).headers;
    }

    /** __cxa_decrement_exception_refcount, given that p exists. */
    method Release(p: nat)
      requires p in headers && headers[p].Primary? && headers[p].referenceCount > 0
      modifies this
      ensures Now() == Decrement(old(Now()), p)
      ensures OneOwnerLess(old(headers), headers, old(destroyed), destroyed, p)
      ensures caughtExceptions == old(caughtExceptions) && uncaughtExceptions == old(uncaughtExceptions)
      ensures control == old(control) && handles == old(handles)
    {
      headers := headers[p := headers[p].(referenceCount := headers[p].referenceCount - 1)];
      if headers[p].referenceCount == 0 {
        destroyed := destroyed + [p];
        headers := headers - {p};
      }
    }

    /**
     __cxa_end_catch at the end of the innermost catch clause; in the doomed case the bookkeeping is wrong after it.
     */
    method CxaEndCatch()
      requires Valid() && LeavesHandler(control)
      modifies this
      ensures MayEndCatch(old(Now())) && Now() == EndCatch(old(Now()))
      ensures old(caughtExceptions) == 0 ==>
        headers == old(headers) && destroyed == old(destroyed) && caughtExceptions == 0
      ensures old(caughtExceptions) != 0 ==>
        ClauseEnds(old(headers), headers, old(destroyed), destroyed, old(caughtExceptions))
      ensures old(caughtExceptions) != 0 ==>
        var x := old(headers)[old(caughtExceptions)];
        caughtExceptions == if Abs(x.handlerCount) == 1 then x.next else old(caughtExceptions)
      ensures uncaughtExceptions == old(uncaughtExceptions) && handles == old(handles)
      ensures
        var n := |old(control)|;
        control == if old(control)[n - 1].Handler? then old(control)[..n - 1]
                   else old(control)[..n - 2] + [old(control)[n - 1]]
      ensures Valid() <==> !old(Dooms(Now()))
      ensures Accounted(Now()) <==> !old(Dooms(Now()))
    {
      hide Inv, LeavesHandler, LeaveHandler, Dooms, Accounted;
      EndCatchEither(Now());
      LeftControl(control);
      var h := caughtExceptions;
      control := LeaveHandler(control);
      if h != 0 {
        var count := headers[h].handlerCount;
        if count < 0 {
          headers := headers[h := WithCount(headers[h], count + 1)];
          if count + 1 == 0 {
            caughtExceptions := headers[h].next;
          }
        } else {
          headers := headers[h := WithCount(headers[h], count - 1)];
          if count - 1 == 0 {
            caughtExceptions := headers[h].next;
            var primary := h;
            if headers[h].Dependent? {
              primary := headers[h].primary;
              headers := headers - {h};
            }
            Release(primary);
          }
        }
      }
    }

    /** __cxa_rethrow: terminate outside every handler, and otherwise the caught exception is in flight again. */
    method CxaRethrow() returns (terminates: bool)
      requires Valid()
      modifies this
      ensures Valid() && (terminates <==> old(caughtExceptions) == 0)
      ensures terminates ==> Now() == old(Now())
      ensures !terminates ==> old(caughtExceptions in headers) && Now() == Rethrow(old(Now()))
      ensures !terminates ==>
        var h := old(caughtExceptions);
        && h in headers && headers[h] == old(headers)[h].(handlerCount := 0 - old(headers)[h].handlerCount)
        && SameBut(old(headers), headers, h)
        && uncaughtExceptions == old(uncaughtExceptions) + 1 && caughtExceptions == h
        && control == old(control) + [Flight(h)] && handles == old(handles) && destroyed == old(destroyed)
    {
      hide Inv;
      var h := caughtExceptions;
      if h == 0 {
        return true;
      }
      RethrowKeeps(Now());
      headers := headers[h := WithCount(headers[h], -headers[h].handlerCount)];
      uncaughtExceptions := uncaughtExceptions + 1;
      control := control + [Flight(h)];
      return false;
    }

    /** __cxa_current_primary_exception: the caller becomes an owner of the result. */
    method CurrentPrimaryException() returns (p: nat)
      requires Valid()
      modifies this
      ensures Valid() && MayCapture(old(Now())) && Now() == Capture(old(Now()))
      ensures p == if old(caughtExceptions) == 0 then 0 else old(PrimaryOf(headers, caughtExceptions))
      ensures p == 0 <==> old(caughtExceptions) == 0
      ensures p == 0 ==> headers == old(headers) && handles == old(handles)
      ensures p != 0 ==>
        && old(caughtExceptions) in old(headers)
        && (match old(headers)[old(caughtExceptions)]
            case Primary(_, _, _) => p == old(caughtExceptions)
            case Dependent(primary, _, _) => p == primary)
        && OneOwnerMore(old(headers), headers, p) && handles == old(handles) + multiset{p}
      ensures caughtExceptions == old(caughtExceptions) && uncaughtExceptions == old(uncaughtExceptions)
      ensures control == old(control) && destroyed == old(destroyed)
    {
      hide Inv;
      CaptureKeeps(Now());
      NoZero(Now());
      if caughtExceptions == 0 {
        return 0;
      }
      p := caughtExceptions;
      if headers[p].Dependent? {
        p := headers[p].primary;
      }
      headers := headers[p := headers[p].(referenceCount := headers[p].referenceCount + 1)];
      handles := handles + multiset{p};
    }

    /** __cxa_increment_exception_refcount by a new exception_ptr. */
    method IncrementRefcount(p: nat)
      requires Valid() && (p != 0 ==> p in handles)
      modifies this
      ensures Valid()
      ensures p == 0 ==> Now() == old(Now())
      ensures p != 0 ==> old(p in headers && headers[p].Primary?) && Now() == CopyHandle(old(Now()), p)
      ensures p != 0 ==> OneOwnerMore(old(headers), headers, p) && handles == old(handles) + multiset{p}
      ensures caughtExceptions == old(caughtExceptions) && uncaughtExceptions == old(uncaughtExceptions)
      ensures control == old(control) && destroyed == old(destroyed)
    {
      hide Inv;
      if p != 0 {
        HandleIsPrimary(Now(), p);
        CopyHandleKeeps(Now(), p);
        headers := headers[p := headers[p].(referenceCount := headers[p].referenceCount + 1)];
        handles := handles + multiset{p};
      }
    }

    /** __cxa_decrement_exception_refcount by an exception_ptr that goes away. */
    method DecrementRefcount(p: nat)
      requires Valid() && (p != 0 ==> p in handles)
      modifies this
      ensures Valid()
      ensures p == 0 ==> Now() == old(Now())
      ensures p != 0 ==> old(p in headers && headers[p].Primary? && headers[p].referenceCount > 0)
      ensures p != 0 ==> Now() == DropHandle(old(Now()), p)
      ensures p != 0 ==> OneOwnerLess(old(headers), headers, old(destroyed), destroyed, p)
      ensures p != 0 ==> handles == old(handles) - multiset{p}
      ensures caughtExceptions == old(caughtExceptions) && uncaughtExceptions == old(uncaughtExceptions)
      ensures control == old(control)
    {
      hide Inv;
      if p != 0 {
        DropHandleKeeps(Now(), p);
        Release(p);
        handles := handles - multiset{p};
      }
    }

    /** __cxa_rethrow_primary_exception; d is the newly allocated dependent exception.  Null does nothing. */
    method RethrowPrimaryException(p: nat, d: nat)
      requires Valid() && (p != 0 ==> p in handles && New(Now(), d))
      modifies this
      ensures Valid()
      ensures p == 0 ==> Now() == old(Now())
      ensures p != 0 ==> old(p in headers && headers[p].Primary?) && Now() == RethrowPrimary(old(Now()), p, d)
      ensures p != 0 ==>
        && d in headers && headers[d] == Dependent(p, 0, 0) && OneOwnerMore(old(headers), headers - {d}, p)
        && uncaughtExceptions == old(uncaughtExceptions) + 1 && control == old(control) + [Flight(d)]
      ensures caughtExceptions == old(caughtExceptions) && handles == old(handles) && destroyed == old(destroyed)
    {
      hide Inv;
      if p != 0 {
        RethrowPrimaryKeeps(Now(), p, d);
        headers := headers[p := headers[p].(referenceCount := headers[p].referenceCount + 1)];
        ghost var owned := headers;
        headers := headers[d := Dependent(p, 0, 0)];
        assert headers - {d} == owned;
        uncaughtExceptions := uncaughtExceptions + 1;
        control := control + [Flight(d)];
      }
    }
  }
}
