/**
 Reference counts: an operation first leaves one count one above the owners, or takes one owner away,
 and then makes it right again.
 */
module ExceptionOwners {
  import opened Common
  import opened ExceptionModel

  /** CountInv except that p's reference count is one more than its owners. */
  ghost predicate Spare(hs: Headers, c: seq<Frame>, handles: multiset<nat>, destroyed: seq<nat>, p: nat) {
    && p in hs && hs[p].Primary? && hs[p].referenceCount == Owners(hs, c, handles, p) + 1
    && (forall h | h in hs && h != p :: HeaderOk(hs, c, handles, h))
    && HandlesOk(hs, handles)
    && DestroyedOk(hs, destroyed)
  }

  /** Only handler counts and links change. */
  ghost predicate SameCounts(hs: Headers, hs': Headers) {
    && hs'.Keys == hs.Keys
    && forall h | h in hs :: SameCount(hs[h], hs'[h])
  }

  ghost predicate SameCount(x: Header, y: Header) {
    match x
    case Primary(n, _, _) => y.Primary? && y.referenceCount == n
    case Dependent(p, _, _) => y.Dependent? && y.primary == p
  }

  lemma CountKeep(hs: Headers, hs': Headers, c: seq<Frame>, c': seq<Frame>, handles: multiset<nat>, destroyed: seq<nat>)
    requires CountInv(hs, c, handles, destroyed) && SameCounts(hs, hs')
    requires forall h | h in hs :: Owned(hs, c, h) == Owned(hs', c', h)
    ensures CountInv(hs', c', handles, destroyed)
  {
    hide Owned, Distinct;
    forall h | h in hs'
      ensures HeaderOk(hs', c', handles, h)
    {
      assert HeaderOk(hs, c, handles, h) && SameCount(hs[h], hs'[h]);
      assert Dependents(hs', h) == Dependents(hs, h);
    }
  }

  /** The primary h is neither in flight nor caught any more. */
  lemma Disown(hs: Headers, hs': Headers, c: seq<Frame>, c': seq<Frame>, handles: multiset<nat>,
               destroyed: seq<nat>, h: nat)
    requires CountInv(hs, c, handles, destroyed) && SameCounts(hs, hs')
    requires h in hs && hs[h].Primary? && Owned(hs, c, h) && !Owned(hs', c', h)
    requires forall k | k in hs && k != h :: Owned(hs, c, k) == Owned(hs', c', k)
    ensures Spare(hs', c', handles, destroyed, h)
  {
    hide Owned, Distinct;
    forall k | k in hs'
      ensures Dependents(hs', k) == Dependents(hs, k) && HeaderOk(hs, c, handles, k) && SameCount(hs[k], hs'[k])
    {
    }
  }

  /** A dependent exception is freed when it is neither in flight nor caught. */
  lemma FreeDependent(hs: Headers, hs': Headers, c: seq<Frame>, c': seq<Frame>, handles: multiset<nat>,
                      destroyed: seq<nat>, d: nat)
    requires CountInv(hs, c, handles, destroyed) && d in hs && hs[d].Dependent?
    requires hs' == hs - {d}
    requires forall k | k in hs' :: Owned(hs, c, k) == Owned(hs', c', k)
    ensures hs[d].primary in hs' && Spare(hs', c', handles, destroyed, hs[d].primary)
  {
    hide Owned, Distinct;
    var p := hs[d].primary;
    assert HeaderOk(hs, c, handles, d);
    assert HeaderOk(hs, c, handles, p);
    assert Dependents(hs, p) == Dependents(hs', p) + {d};
    forall k | k in hs' && k != p
      ensures HeaderOk(hs', c', handles, k)
    {
      assert HeaderOk(hs, c, handles, k);
      assert Dependents(hs', k) == Dependents(hs, k);
    }
  }

  lemma IncrementSpare(s: State, p: nat)
    requires CountInv(s.headers, s.control, s.handles, s.destroyed) && p in s.headers && s.headers[p].Primary?
    ensures Spare(Increment(s, p).headers, s.control, s.handles, s.destroyed, p)
  {
    hide Distinct;
    var hs, hs' := s.headers, Increment(s, p).headers;
    forall k | k in hs'
      ensures Dependents(hs', k) == Dependents(hs, k) && HeaderOk(hs, s.control, s.handles, k)
    {
    }
  }

  /** The decrement: exactly when no owner is left is the object destroyed. */
  lemma DecrementSpare(s: State, p: nat)
    requires Spare(s.headers, s.control, s.handles, s.destroyed, p)
    ensures CountInv(Decrement(s, p).headers, s.control, s.handles, Decrement(s, p).destroyed)
    ensures p !in Decrement(s, p).headers <==> Owners(s.headers, s.control, s.handles, p) == 0
  {
    hide Owned;
    var hs, hs' := s.headers, Decrement(s, p).headers;
    if Owners(hs, s.control, s.handles, p) == 0 {
      NoOwners(hs, s.control, s.handles, p);
    }
    forall k | k in hs'
      ensures HeaderOk(hs', s.control, s.handles, k)
    {
      assert k != p ==> HeaderOk(hs, s.control, s.handles, k);
      assert Owned(hs', s.control, k) == Owned(hs, s.control, k) by {
        SameOwned(hs, hs', s.control, k);
      }
      assert Dependents(hs', k) == Dependents(hs, k);
    }
  }

  lemma SameOwned(hs: Headers, hs': Headers, c: seq<Frame>, k: nat)
    requires k in hs && k in hs' && hs[k].handlerCount == hs'[k].handlerCount
    ensures Owned(hs', c, k) == Owned(hs, c, k)
  {
  }

  lemma NoOwners(hs: Headers, c: seq<Frame>, handles: multiset<nat>, p: nat)
    requires p in hs && Owners(hs, c, handles, p) == 0
    ensures p !in handles && forall d | d in hs && hs[d].Dependent? :: hs[d].primary != p
  {
    assert Dependents(hs, p) == {};
    assert forall d | d in hs && hs[d].Dependent? && hs[d].primary == p :: d in Dependents(hs, p);
  }

  lemma GiveHandle(hs: Headers, c: seq<Frame>, handles: multiset<nat>, destroyed: seq<nat>, p: nat)
    requires Spare(hs, c, handles, destroyed, p)
    ensures CountInv(hs, c, handles + multiset{p}, destroyed)
  {
    hide Owned, Distinct;
    forall k | k in hs
      ensures HeaderOk(hs, c, handles + multiset{p}, k)
    {
      assert k != p ==> HeaderOk(hs, c, handles, k);
    }
  }

  lemma TakeHandle(hs: Headers, c: seq<Frame>, handles: multiset<nat>, destroyed: seq<nat>, p: nat)
    requires CountInv(hs, c, handles, destroyed) && p in handles
    ensures Spare(hs, c, handles - multiset{p}, destroyed, p)
  {
    hide Owned, Distinct;
    forall k | k in hs
      ensures HeaderOk(hs, c, handles, k)
      ensures k != p ==> HeaderOk(hs, c, handles - multiset{p}, k)
    {
    }
  }

  /** A new dependent of p takes off. */
  lemma AddDependent(hs: Headers, c: seq<Frame>, handles: multiset<nat>, destroyed: seq<nat>, p: nat, d: nat)
    requires Spare(hs, c, handles, destroyed, p) && d !in hs && d !in destroyed
    ensures CountInv(hs[d := Dependent(p, 0, 0)], c + [Flight(d)], handles, destroyed)
  {
    hide Distinct;
    var hs' := hs[d := Dependent(p, 0, 0)];
    assert Dependents(hs', p) == Dependents(hs, p) + {d};
    forall k | k in hs'
      ensures HeaderOk(hs', c + [Flight(d)], handles, k)
    {
      if k != p && k != d {
        assert HeaderOk(hs, c, handles, k);
        assert Dependents(hs', k) == Dependents(hs, k);
      }
    }
  }

  /** A new primary takes off. */
  lemma AddPrimary(hs: Headers, c: seq<Frame>, handles: multiset<nat>, destroyed: seq<nat>, h: nat)
    requires CountInv(hs, c, handles, destroyed) && h !in hs && h !in destroyed
    ensures CountInv(hs[h := Primary(1, 0, 0)], c + [Flight(h)], handles, destroyed)
  {
    hide Distinct;
    var hs' := hs[h := Primary(1, 0, 0)];
    forall k | k in hs'
      ensures HeaderOk(hs', c + [Flight(h)], handles, k)
    {
      if k != h {
        assert HeaderOk(hs, c, handles, k);
        assert Dependents(hs', k) == Dependents(hs, k);
      } else {
        assert forall d | d in hs :: HeaderOk(hs, c, handles, d);
        assert Dependents(hs', h) == {};
      }
    }
  }
}
