/** What every operation of the exception runtime keeps: the three parts of the invariant, one at a time. */
module ExceptionCounts {
  import opened Common
  import opened ExceptionModel

  // ----- the stack of caught exceptions

  ghost predicate SameLinks(x: Header, y: Header) {
    Abs(x.handlerCount) == Abs(y.handlerCount) && x.next == y.next
  }

  /** Headers that are not caught may come, go and change their counts. */
  lemma StackKeep(hs: Headers, hs': Headers, caught: nat, g: seq<Group>)
    requires StackInv(hs, caught, g) && 0 !in hs'
    requires forall h | h in hs' :: if h in hs then SameLinks(hs[h], hs'[h]) else hs'[h].handlerCount == 0
    requires forall h | h in hs && hs[h].handlerCount != 0 :: h in hs'
    ensures StackInv(hs', caught, g)
  {
    hide Holds, DistinctGroups, Top;
    forall i: nat | i < |g|
      ensures GroupOk(hs', g, i)
    {
      assert GroupOk(hs, g, i);
    }
  }

  lemma StackEnter(hs: Headers, hs': Headers, caught: nat, g: seq<Group>, h: nat)
    requires StackInv(hs, caught, g) && h in hs && hs'.Keys == hs.Keys
    requires forall k | k in hs && k != h :: hs'[k] == hs[k]
    requires h == caught ==> Abs(hs'[h].handlerCount) == Abs(hs[h].handlerCount) + 1 && hs'[h].next == hs[h].next
    requires h != caught ==> hs[h].handlerCount == 0 && Abs(hs'[h].handlerCount) == 1 && hs'[h].next == caught
    ensures StackInv(hs', h, Enter(g, h))
  {
    hide Holds, DistinctGroups;
    var e := Enter(g, h);
    assert h != 0;
    assert h != caught ==> !Holds(g, h) by {
      if h != caught && Holds(g, h) {
        HoldsAt(hs, g, h);
      }
    }
    EnterDistinct(g, h);
    forall i: nat | i < |e|
      ensures GroupOk(hs', e, i)
    {
      if i < |g| {
        assert GroupOk(hs, g, i);
        assert e[..i] == g[..i];
        HoldsIntro(g, i);
        OnlyTop(g, i);
      } else {
        assert e[..i] == g;
      }
    }
    forall k | k in hs' && hs'[k].handlerCount != 0
      ensures Holds(e, k)
    {
      EnterHolds(g, h, k);
    }
  }

  lemma HoldsIntro(g: seq<Group>, i: nat)
    requires i < |g|
    ensures Holds(g, g[i].h)
  {
  }

  lemma HoldsAt(hs: Headers, g: seq<Group>, h: nat)
    requires Holds(g, h) && forall i: nat | i < |g| :: GroupOk(hs, g, i)
    ensures h in hs && hs[h].handlerCount != 0
  {
    var i :| 0 <= i < |g| && g[i].h == h;
    assert GroupOk(hs, g, i);
  }

  lemma OnlyTop(g: seq<Group>, i: nat)
    requires DistinctGroups(g) && i < |g|
    ensures i < |g| - 1 ==> g[i].h != g[|g| - 1].h
  {
  }

  /** Leaving the innermost catch clause, one of h: what becomes of the header of h. */
  ghost predicate LeavesLinks(hs: Headers, hs': Headers, h: nat)
    requires h in hs
  {
    && 0 !in hs' && (forall k | k in hs' :: k in hs)
    && (forall k | k in hs && k != h :: k in hs' && hs'[k] == hs[k])
    && (if Abs(hs[h].handlerCount) > 1 then
          h in hs' && Abs(hs'[h].handlerCount) == Abs(hs[h].handlerCount) - 1 && hs'[h].next == hs[h].next
        else h in hs' ==> hs'[h].handlerCount == 0)
  }

  lemma LeaveLast(hs: Headers, hs': Headers, g: seq<Group>, h: nat)
    requires StackInv(hs, h, g + [Group(h, 1)]) && h in hs && LeavesLinks(hs, hs', h)
    ensures Abs(hs[h].handlerCount) == 1 && StackInv(hs', hs[h].next, g)
  {
    hide Holds;
    var e := g + [Group(h, 1)];
    assert e[..|g|] == g;
    assert GroupOk(hs, e, |g|);
    forall i: nat | i < |g|
      ensures GroupOk(hs', g, i)
    {
      assert GroupOk(hs, e, i);
      assert e[..i] == g[..i] && e[i] == g[i];
      OnlyTop(e, i);
    }
    forall k | k in hs' && hs'[k].handlerCount != 0
      ensures Holds(g, k)
    {
      HoldsBelow(g, h, 1, k);
    }
    assert forall i | 0 <= i < |g| :: e[i].h == g[i].h;
  }

  lemma LeaveOne(hs: Headers, hs': Headers, low: seq<Group>, h: nat, n: nat)
    requires n > 0 && StackInv(hs, h, low + [Group(h, n + 1)]) && h in hs && LeavesLinks(hs, hs', h)
    ensures Abs(hs[h].handlerCount) == n + 1 && StackInv(hs', h, low + [Group(h, n)])
  {
    hide Holds;
    var e, g := low + [Group(h, n + 1)], low + [Group(h, n)];
    assert forall i: nat | i <= |low| :: e[..i] == low[..i] == g[..i];
    assert GroupOk(hs, e, |low|);
    forall i: nat | i < |g|
      ensures GroupOk(hs', g, i)
    {
      assert GroupOk(hs, e, i);
      OnlyTop(e, i);
    }
    forall k | k in hs' && hs'[k].handlerCount != 0
      ensures Holds(g, k)
    {
      HoldsBelow(low, h, n, k);
      HoldsBelow(low, h, n + 1, k);
    }
    assert forall i | 0 <= i < |g| :: e[i].h == g[i].h;
  }

  /** The handler count goes down, and with the last catch clause the link is followed. */
  lemma StackLeave(hs: Headers, hs': Headers, g: seq<Group>, h: nat)
    requires Positive(g) && StackInv(hs, h, Enter(g, h)) && h in hs && LeavesLinks(hs, hs', h)
    ensures StackInv(hs', if Abs(hs[h].handlerCount) > 1 then h else hs[h].next, g)
  {
    hide StackInv, LeavesLinks;
    if g != [] && g[|g| - 1].h == h {
      assert g == g[..|g| - 1] + [Group(h, g[|g| - 1].handlers)];
      LeaveOne(hs, hs', g[..|g| - 1], h, g[|g| - 1].handlers);
    } else {
      LeaveLast(hs, hs', g, h);
    }
  }
}
