/**
 The iterator debug database of debug.cpp: which iterators there are, which container each points at (0 for
 none), and for every container the array of the iterators that point at it.
 */
module DebugDb {
  import opened HashTable

  /** A container's array of iterators with its capacity. */
  datatype Array = Array(items: seq<nat>, cap: nat)

  type Owners = map<nat, nat>
  type Arrays = map<nat, Array>

  /** Iterators in a container's array are there once and point at the container. */
  ghost predicate ArrayOk(owner: Owners, c: nat, a: Array) {
    && |a.items| <= a.cap
    && forall i | i in a.items :: i in owner && owner[i] == c && multiset(a.items)[i] == 1
  }

  ghost predicate PointsOk(owner: Owners, arrays: Arrays, i: nat)
    requires i in owner
  {
    owner[i] != 0 ==> owner[i] in arrays && i in arrays[owner[i]].items
  }

  ghost predicate Linked(owner: Owners, arrays: Arrays) {
    && 0 !in arrays
    && (forall i | i in owner :: PointsOk(owner, arrays, i))
    && (forall c | c in arrays :: ArrayOk(owner, c, arrays[c]))
  }

  /** An iterator points at a container exactly when it occurs once in the container's array. */
  lemma PointsExactly(owner: Owners, arrays: Arrays, i: nat, c: nat)
    requires Linked(owner, arrays) && c in arrays
    ensures i in owner && owner[i] == c <==> multiset(arrays[c].items)[i] == 1
    ensures multiset(arrays[c].items)[i] <= 1
  {
    assert ArrayOk(owner, c, arrays[c]);
    if i in owner {
      assert PointsOk(owner, arrays, i);
    }
    assert i in arrays[c].items <==> multiset(arrays[c].items)[i] > 0;
  }

  /** The iterators of c become singular. */
  function Orphaned(owner: Owners, c: nat): (r: Owners)
    ensures r.Keys == owner.Keys
    ensures forall i | i in owner :: if owner[i] == c then r[i] == 0 else r[i] == owner[i]
  {
    map i | i in owner :: if owner[i] == c then 0 else owner[i]
  }

  /** The iterators of c1 are c2's and the other way round. */
  function Exchanged(owner: Owners, c1: nat, c2: nat): (r: Owners)
    ensures r.Keys == owner.Keys
    ensures forall i | i in owner && owner[i] == c1 :: r[i] == c2
    ensures forall i | i in owner && owner[i] == c2 :: r[i] == c1
    ensures forall i | i in owner && owner[i] != c1 && owner[i] != c2 :: r[i] == owner[i]
  {
    map i | i in owner :: if owner[i] == c1 then c2 else if owner[i] == c2 then c1 else owner[i]
  }

  // ----- what the invariant keeps

  lemma LinkAdd(owner: Owners, arrays: Arrays, i: nat, c: nat, a: Array)
    requires Linked(owner, arrays) && c in arrays && (i in owner ==> owner[i] == 0)
    requires a.items == arrays[c].items + [i] && |a.items| <= a.cap
    ensures Linked(owner[i := c], arrays[c := a])
  {
    var owner', arrays' := owner[i := c], arrays[c := a];
    forall d | d in arrays'
      ensures ArrayOk(owner', d, arrays'[d])
    {
      assert ArrayOk(owner, d, arrays[d]);
      if d == c {
        Appended(owner, arrays[c], i, c, a);
      }
    }
    forall k | k in owner'
      ensures PointsOk(owner', arrays', k)
    {
      assert k != i ==> PointsOk(owner, arrays, k);
    }
  }

  lemma Appended(owner: Owners, before: Array, i: nat, c: nat, a: Array)
    requires ArrayOk(owner, c, before) && (i in owner ==> owner[i] == 0) && c != 0
    requires a.items == before.items + [i] && |a.items| <= a.cap
    ensures ArrayOk(owner[i := c], c, a)
  {
    assert i !in before.items;
    assert multiset(a.items) == multiset(before.items) + multiset{i};
  }

  lemma LinkNew(owner: Owners, arrays: Arrays, i: nat)
    requires Linked(owner, arrays) && i !in owner
    ensures Linked(owner[i := 0], arrays)
  {
    forall k | k in owner
      ensures PointsOk(owner[i := 0], arrays, k)
    {
      assert PointsOk(owner, arrays, k);
    }
    forall c | c in arrays
      ensures ArrayOk(owner[i := 0], c, arrays[c])
    {
      assert ArrayOk(owner, c, arrays[c]);
    }
  }

  /** i is dropped from the array of its container and points nowhere. */
  lemma LinkDrop(owner: Owners, arrays: Arrays, i: nat, a: Array)
    requires Linked(owner, arrays) && i in owner && owner[i] != 0
    requires owner[i] in arrays && |a.items| <= a.cap
    requires multiset(a.items) == multiset(arrays[owner[i]].items) - multiset{i}
    ensures Linked(owner[i := 0], arrays[owner[i] := a])
  {
    var c := owner[i];
    var owner', arrays' := owner[i := 0], arrays[c := a];
    assert ArrayOk(owner, c, arrays[c]) && PointsOk(owner, arrays, i);
    forall d | d in arrays'
      ensures ArrayOk(owner', d, arrays'[d])
    {
      assert ArrayOk(owner, d, arrays[d]);
      if d == c {
        forall k | k in a.items
          ensures k in owner' && owner'[k] == c && multiset(a.items)[k] == 1
        {
          assert multiset(a.items)[k] > 0;
          assert k in arrays[c].items;
        }
      }
    }
    forall k | k in owner'
      ensures PointsOk(owner', arrays', k)
    {
      if k != i {
        assert PointsOk(owner, arrays, k);
        if owner[k] == c {
          assert multiset(arrays[c].items)[k] > 0;
          assert k in multiset(a.items);
        }
      }
    }
  }

  /** A singular iterator is forgotten. */
  lemma LinkForget(owner: Owners, arrays: Arrays, i: nat)
    requires Linked(owner, arrays) && i in owner && owner[i] == 0
    ensures Linked(owner - {i}, arrays)
  {
    forall k | k in owner - {i}
      ensures PointsOk(owner - {i}, arrays, k)
    {
      assert PointsOk(owner, arrays, k);
    }
    forall c | c in arrays
      ensures ArrayOk(owner - {i}, c, arrays[c])
    {
      assert ArrayOk(owner, c, arrays[c]);
    }
  }

  lemma LinkOrphan(owner: Owners, arrays: Arrays, c: nat)
    requires Linked(owner, arrays) && c in arrays
    ensures Linked(Orphaned(owner, c), arrays[c := arrays[c].(items := [])])
    ensures Linked(Orphaned(owner, c), arrays - {c})
  {
    var owner' := Orphaned(owner, c);
    forall d | d in arrays && d != c
      ensures ArrayOk(owner', d, arrays[d])
    {
      assert ArrayOk(owner, d, arrays[d]);
    }
    forall k | k in owner'
      ensures PointsOk(owner', arrays[c := arrays[c].(items := [])], k) && PointsOk(owner', arrays - {c}, k)
    {
      assert PointsOk(owner, arrays, k);
    }
  }

  lemma LinkSwap(owner: Owners, arrays: Arrays, c1: nat, c2: nat)
    requires Linked(owner, arrays) && c1 in arrays && c2 in arrays
    ensures Linked(Exchanged(owner, c1, c2), arrays[c1 := arrays[c2]][c2 := arrays[c1]])
  {
    var owner', arrays' := Exchanged(owner, c1, c2), arrays[c1 := arrays[c2]][c2 := arrays[c1]];
    forall d | d in arrays'
      ensures ArrayOk(owner', d, arrays'[d])
    {
      var from := if d == c2 then c1 else if d == c1 then c2 else d;
      assert ArrayOk(owner, from, arrays[from]) && arrays'[d] == arrays[from];
    }
    forall k | k in owner'
      ensures PointsOk(owner', arrays', k)
    {
      assert PointsOk(owner, arrays, k);
    }
  }

  lemma LinkContainer(owner: Owners, arrays: Arrays, c: nat)
    requires Linked(owner, arrays) && c !in arrays && c != 0
    ensures Linked(owner, arrays[c := Array([], 0)])
  {
    var arrays' := arrays[c := Array([], 0)];
    forall k | k in owner
      ensures PointsOk(owner, arrays', k)
    {
      assert PointsOk(owner, arrays, k);
    }
    forall d | d in arrays'
      ensures ArrayOk(owner, d, arrays'[d])
    {
      assert d != c ==> ArrayOk(owner, d, arrays[d]);
    }
  }

  // ----- the arrays

  /** __c_node::__add: a full array is doubled first. */
  method Add(a: Array, i: nat) returns (a': Array)
    requires |a.items| <= a.cap
    ensures a'.items == a.items + [i] && |a'.items| <= a'.cap
    ensures a'.cap == if |a.items| < a.cap then a.cap else if a.cap == 0 then 1 else 2 * a.cap
  {
    a' := a;
    if |a.items| == a.cap {
      var nc := 2 * a.cap;
      if nc == 0 {
        nc := 1;
      }
      a' := Array(if nc > 1 then a.items[..nc / 2] else [], nc);
    }
    a' := a'.(items := a'.items + [i]);
  }

  /** __c_node::__remove: the iterators after p move down. */
  method Remove(a: Array, p: nat) returns (a': Array)
    requires p in a.items && |a.items| <= a.cap
    ensures multiset(a'.items) == multiset(a.items) - multiset{p} && |a'.items| <= a'.cap
    ensures exists r :: 0 <= r < |a.items| && a.items[r] == p && a'.items == a.items[..r] + a.items[r + 1..]
  {
    var r := 0;
    while a.items[r] != p
      invariant 0 <= r < |a.items| && p !in a.items[..r]
      decreases |a.items| - r
    {
      assert a.items[..r + 1] == a.items[..r] + [a.items[r]];
      assert a.items[..|a.items|] == a.items;
      r := r + 1;
    }
    a' := a.(items := a.items[..r] + a.items[r + 1..]);
    Without(a.items, r);
  }

  // ----- the database

  /** The nodes of the table are those of the keys, one each. */
  ghost predicate Lists(t: Buckets, keys: set<nat>) {
    Contents(t) == multiset(keys)
  }

  lemma ListsKey(t: Buckets, keys: set<nat>, k: nat)
    requires Lists(t, keys)
    ensures k in Contents(t) <==> k in keys
  {
    hide Contents;
  }

  lemma ListsNew(t: Buckets, t': Buckets, keys: set<nat>, k: nat)
    requires Lists(t, keys) && k !in keys && Contents(t') == Contents(t) + multiset{k}
    ensures Lists(t', keys + {k})
  {
    hide Contents;
  }

  lemma ListsOld(t: Buckets, t': Buckets, keys: set<nat>, k: nat)
    requires Lists(t, keys) && k in keys && Contents(t') == Contents(t) - multiset{k}
    ensures Lists(t', keys - {k})
  {
    hide Contents;
  }

  class Database {
    const hash: nat -> nat
    const nextPrime: nat -> nat
    var containers: Buckets
    var csz: nat
    var iterators: Buckets
    var isz: nat
    var owner: Owners      // __c_ of each iterator node
    var arrays: Arrays     // beg_, end_ and cap_ of each container node

    ghost predicate Valid()
      reads this
    {
      && Growing(nextPrime)
      && TableOk(containers, hash, csz) && Lists(containers, arrays.Keys)
      && TableOk(iterators, hash, isz) && Lists(iterators, owner.Keys)
      && Linked(owner, arrays)
    }

    constructor (hash: nat -> nat, nextPrime: nat -> nat)
      requires Growing(nextPrime)
      ensures Valid() && owner == map[] && arrays == map[]
    {
      this.hash, this.nextPrime := hash, nextPrime;
      containers, csz, iterators, isz, owner, arrays := [], 0, [], 0, map[], map[];
    }

    /** __insert_i of a new iterator. */
    method InsertI(i: nat)
      requires Valid() && i !in owner
      modifies this
      ensures Valid() && owner == old(owner)[i := 0] && arrays == old(arrays)
    {
      hide Linked, TableOk, Contents, Growing, Lists, Orphaned, Exchanged;
      LinkNew(owner, arrays, i);
      ghost var was := iterators;
      iterators, isz := Insert(iterators, isz, hash, nextPrime, i);
      ListsNew(was, iterators, owner.Keys, i);
      assert owner[i := 0].Keys == owner.Keys + {i};
      owner := owner[i := 0];
    }

    /** __insert_c of a new container. */
    method InsertC(c: nat)
      requires Valid() && c !in arrays && c != 0
      modifies this
      ensures Valid() && owner == old(owner) && arrays == old(arrays)[c := Array([], 0)]
    {
      hide Linked, TableOk, Contents, Growing, Lists, Orphaned, Exchanged;
      LinkContainer(owner, arrays, c);
      ghost var was := containers;
      containers, csz := Insert(containers, csz, hash, nextPrime, c);
      ListsNew(was, containers, arrays.Keys, c);
      assert arrays[c := Array([], 0)].Keys == arrays.Keys + {c};
      arrays := arrays[c := Array([], 0)];
    }

    /** __insert_ic: a new iterator that points at c; nothing happens for an unknown container. */
    method InsertIc(i: nat, c: nat)
      requires Valid() && i !in owner
      modifies this
      ensures Valid() && arrays.Keys == old(arrays.Keys)
      ensures owner == if c in old(arrays) then old(owner)[i := c] else old(owner)
    {
      hide Linked, TableOk, Contents, Growing, Lists, Orphaned, Exchanged;
      Tables(containers, hash, csz);
      ListsKey(containers, arrays.Keys, c);
      var found, b, at := Find(containers, hash, c);
      if !found {
        return;
      }
      InsertI(i);
      Attach(i, c);
    }

    /** Adding an iterator without a container to the array of c. */
    method Attach(i: nat, c: nat)
      requires Valid() && i in owner && owner[i] == 0 && c in arrays
      modifies this`owner, this`arrays
      ensures Valid() && owner == old(owner)[i := c] && arrays.Keys == old(arrays.Keys)
      ensures arrays[c].items == old(arrays[c].items) + [i]
      ensures forall d | d in arrays && d != c :: arrays[d] == old(arrays)[d]
    {
      hide Linked, TableOk, Contents, Growing, Lists, Orphaned, Exchanged;
      CapOf(owner, arrays, c);
      var a := Add(arrays[c], i);
      LinkAdd(owner, arrays, i, c, a);
      arrays := arrays[c := a];
      owner := owner[i := c];
      assert arrays.Keys == old(arrays.Keys) && owner.Keys == old(owner.Keys);
    }

    /** Taking an iterator out of the array of its container. */
    method Detach(i: nat)
      requires Valid() && i in owner && owner[i] != 0
      modifies this`owner, this`arrays
      ensures Valid() && owner == old(owner)[i := 0] && arrays.Keys == old(arrays.Keys)
      ensures forall d | d in arrays && d != old(owner[i]) :: arrays[d] == old(arrays)[d]
    {
      hide Linked, TableOk, Contents, Growing, Lists, Orphaned, Exchanged;
      InArray(owner, arrays, i);
      var c := owner[i];
      CapOf(owner, arrays, c);
      var a := Remove(arrays[c], i);
      LinkDrop(owner, arrays, i, a);
      arrays := arrays[c := a];
      owner := owner[i := 0];
      assert arrays.Keys == old(arrays.Keys) && owner.Keys == old(owner.Keys);
    }

    /** __erase_i. */
    method EraseI(i: nat)
      requires Valid()
      modifies this
      ensures Valid() && owner == old(owner) - {i} && arrays.Keys == old(arrays.Keys)
    {
      hide Linked, TableOk, Contents, Growing, Lists, Orphaned, Exchanged;
      Tables(iterators, hash, isz);
      ListsKey(iterators, owner.Keys, i);
      var found, b, at := Find(iterators, hash, i);
      if !found {
        assert owner - {i} == owner;
        return;
      }
      if owner[i] != 0 {
        Detach(i);
      }
      LinkForget(owner, arrays, i);
      ghost var was := iterators;
      iterators, isz := Unlink(iterators, isz, hash, b, at);
      ListsOld(was, iterators, owner.Keys, i);
      assert (owner - {i}).Keys == owner.Keys - {i};
      assert owner - {i} == old(owner) - {i};
      owner := owner - {i};
    }

    /** The loop that empties the array of c. */
    method EmptyArray(c: nat)
      requires Valid() && c in arrays
      modifies this`owner, this`arrays
      ensures Valid() && owner == Orphaned(old(owner), c)
      ensures arrays == old(arrays)[c := old(arrays[c]).(items := [])]
      ensures Linked(owner, old(arrays) - {c})
    {
      hide Linked, TableOk, Contents, Growing, Lists, Orphaned, Exchanged;
      ghost var all := arrays[c].items;
      ItemsOf(owner, arrays, c);
      LinkOrphan(owner, arrays, c);
      var n: nat := |arrays[c].items|;
      assert all[..n] == all;
      while n > 0
        invariant n <= |all| && owner.Keys == old(owner.Keys) && arrays.Keys == old(arrays.Keys)
        invariant arrays[c] == old(arrays[c]).(items := all[..n])
        invariant forall d | d in arrays && d != c :: arrays[d] == old(arrays)[d]
        invariant forall i | i in owner :: owner[i] == if i in all[n..] then 0 else old(owner)[i]
      {
        n := n - 1;
        var i := arrays[c].items[n];
        assert i == all[n] && i in all && all[n..] == [i] + all[n + 1..];
        owner := owner[i := 0];
        arrays := arrays[c := arrays[c].(items := arrays[c].items[..n])];
      }
      assert all[0..] == all;
      OrphanedIs(old(owner), owner, c);
      assert arrays == old(arrays)[c := old(arrays[c]).(items := [])];
    }

    /** __invalidate_all. */
    method InvalidateAll(c: nat)
      requires Valid()
      modifies this
      ensures Valid() && arrays.Keys == old(arrays.Keys)
      ensures owner == if c in old(arrays) then Orphaned(old(owner), c) else old(owner)
    {
      hide Linked, TableOk, Contents, Growing, Lists, Orphaned, Exchanged;
      Tables(containers, hash, csz);
      ListsKey(containers, arrays.Keys, c);
      var found, b, at := Find(containers, hash, c);
      if found {
        EmptyArray(c);
        assert arrays.Keys == old(arrays.Keys);
      }
    }

    /** __erase_c. */
    method EraseC(c: nat)
      requires Valid()
      modifies this
      ensures Valid() && arrays.Keys == old(arrays.Keys) - {c}
      ensures owner == if c in old(arrays) then Orphaned(old(owner), c) else old(owner)
    {
      hide Linked, TableOk, Contents, Growing, Lists, Orphaned, Exchanged;
      Tables(containers, hash, csz);
      ListsKey(containers, arrays.Keys, c);
      var found, b, at := Find(containers, hash, c);
      if found {
        EmptyArray(c);
        assert arrays.Keys == old(arrays.Keys);
        assert arrays - {c} == old(arrays) - {c};
        ghost var was := containers;
        containers, csz := Unlink(containers, csz, hash, b, at);
        ListsOld(was, containers, arrays.Keys, c);
        assert (arrays - {c}).Keys == arrays.Keys - {c};
        arrays := arrays - {c};
      }
    }

    /** __iterator_copy: i becomes a copy of i0. */
    method IteratorCopy(i: nat, i0: nat)
      requires Valid()
      modifies this
      ensures Valid() && arrays.Keys == old(arrays.Keys)
      ensures owner == if i0 in old(owner) then old(owner)[i := old(owner)[i0]]
                       else if i in old(owner) then old(owner)[i := 0]
                       else old(owner)
    {
      hide Linked, TableOk, Contents, Growing, Lists, Orphaned, Exchanged;
      Tables(iterators, hash, isz);
      ListsKey(iterators, owner.Keys, i);
      var found, b, at := Find(iterators, hash, i);
      ListsKey(iterators, owner.Keys, i0);
      var found0, b0, at0 := Find(iterators, hash, i0);
      var c0 := if found0 then owner[i0] else 0;
      if found0 {
        PointsSome(owner, arrays, i0);
      }
      if !found && found0 {
        InsertI(i);
        found := true;
      }
      var c := if found then owner[i] else 0;
      if c != c0 {
        if c != 0 {
          Detach(i);
        }
        if found && c0 != 0 {
          Attach(i, c0);
        }
      }
    }

    /** swap of two known containers. */
    method Swap(c1: nat, c2: nat)
      requires Valid() && c1 in arrays && c2 in arrays
      modifies this
      ensures Valid() && owner == Exchanged(old(owner), c1, c2) && arrays.Keys == old(arrays.Keys)
      ensures arrays == old(arrays)[c1 := old(arrays[c2])][c2 := old(arrays[c1])]
    {
      hide Linked, TableOk, Contents, Growing, Lists, Orphaned, Exchanged;
      LinkSwap(owner, arrays, c1, c2);
      ItemsOf(owner, arrays, c1);
      ItemsOf(owner, arrays, c2);
      ghost var was := owner;
      arrays := arrays[c1 := arrays[c2]][c2 := arrays[c1]];
      assert arrays.Keys == old(arrays.Keys);
      PointAt(arrays[c1].items, c1);
      PointAt(arrays[c2].items, c2);
      ExchangedIs(was, owner, c1, c2);
    }

    /** The loop of swap that redirects the iterators of an array. */
    method PointAt(items: seq<nat>, c: nat)
      requires forall i | i in items :: i in owner
      modifies this`owner
      ensures owner.Keys == old(owner.Keys)
      ensures forall i | i in owner :: owner[i] == if i in items then c else old(owner)[i]
    {
      var p := 0;
      while p < |items|
        invariant 0 <= p <= |items| && owner.Keys == old(owner.Keys)
        invariant forall i | i in owner :: owner[i] == if i in items[..p] then c else old(owner)[i]
      {
        assert items[p] in items;
        owner := owner[items[p] := c];
        assert items[..p + 1] == items[..p] + [items[p]];
        p := p + 1;
      }
      assert items[..|items|] == items;
    }

    /** __find_c_from_i: 0 for an iterator that points nowhere. */
    method FindCFromI(i: nat) returns (known: bool, c: nat)
      requires Valid()
      ensures known <==> i in owner
      ensures known ==> c == owner[i]
      ensures known && c != 0 ==> c in arrays
    {
      hide Linked, TableOk, Contents, Growing, Lists, Orphaned, Exchanged;
      Tables(iterators, hash, isz);
      ListsKey(iterators, owner.Keys, i);
      var found, b, at := Find(iterators, hash, i);
      if !found {
        return false, 0;
      }
      PointsSome(owner, arrays, i);
      return true, owner[i];
    }
  }

  // ----- facts that the methods use

  lemma Tables(t: Buckets, hash: nat -> nat, size: nat)
    requires TableOk(t, hash, size)
    ensures Placed(t, hash)
  {
  }

  lemma OrphanedIs(owner: Owners, owner': Owners, c: nat)
    requires owner'.Keys == owner.Keys
    requires forall i | i in owner :: owner'[i] == if owner[i] == c then 0 else owner[i]
    ensures owner' == Orphaned(owner, c)
  {
  }

  lemma ExchangedIs(owner: Owners, owner': Owners, c1: nat, c2: nat)
    requires owner'.Keys == owner.Keys
    requires forall i | i in owner ::
               owner'[i] == if owner[i] == c1 then c2 else if owner[i] == c2 then c1 else owner[i]
    ensures owner' == Exchanged(owner, c1, c2)
  {
  }

  lemma CapOf(owner: Owners, arrays: Arrays, c: nat)
    requires Linked(owner, arrays) && c in arrays
    ensures c != 0 && |arrays[c].items| <= arrays[c].cap
  {
    assert ArrayOk(owner, c, arrays[c]);
  }

  lemma InArray(owner: Owners, arrays: Arrays, i: nat)
    requires Linked(owner, arrays) && i in owner && owner[i] != 0
    ensures owner[i] in arrays && i in arrays[owner[i]].items
  {
    assert PointsOk(owner, arrays, i);
  }

  lemma PointsSome(owner: Owners, arrays: Arrays, i: nat)
    requires Linked(owner, arrays) && i in owner
    ensures owner[i] != 0 ==> owner[i] in arrays
  {
    assert PointsOk(owner, arrays, i);
  }

  /** The array of c lists exactly the iterators that point at it. */
  lemma ItemsOf(owner: Owners, arrays: Arrays, c: nat)
    requires Linked(owner, arrays) && c in arrays
    ensures forall i | i in arrays[c].items :: i in owner && owner[i] == c
    ensures forall i | i in owner && owner[i] == c :: i in arrays[c].items
  {
    assert ArrayOk(owner, c, arrays[c]);
    forall i | i in owner && owner[i] == c
      ensures i in arrays[c].items
    {
      assert PointsOk(owner, arrays, i);
    }
  }
}
