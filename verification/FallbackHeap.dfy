/**
 fallback_malloc.cpp itself: the emergency heap as an object whose cells are rewritten in place,
 proved against HeapModel, and whole runs of it.
 */
module FallbackHeap {
  import opened Common
  import opened HeapModel

  // ----- request sizes

  /** alloc_size: the cells for len bytes and one header, in size_t arithmetic below the given bound. */
  function AllocSize(len: nat, size: nat): (cells: nat)
    requires size > 0
    ensures cells > 0
  {
    (len + 3) % size / 4 + 1
  }

  /** Whether so many cells hold the header and len bytes; a request that wraps asks for the header alone. */
  predicate Holds(cells: nat, len: nat, size: nat) {
    if len + 3 < size then 4 * cells >= len + 4 else cells >= 1
  }

  /** The result is the least number of cells that is enough. */
  lemma AllocSizeLeast(len: nat, size: nat)
    requires len < size && size >= 8
    ensures forall c: nat :: Holds(c, len, size) <==> c >= AllocSize(len, size)
  {
    if len + 3 >= size {
      assert (len + 3) % size == len + 3 - size;
    }
  }

  /** The computed chunk has room for the request exactly when rounding up does not wrap, and is one cell otherwise. */
  lemma AllocSizeExact(len: nat, size: nat)
    requires len < size && size >= 8
    ensures 4 * AllocSize(len, size) >= len + 4 <==> len + 3 < size
    ensures len + 3 < size ==> 4 * AllocSize(len, size) < len + 8
    ensures len + 3 >= size ==> AllocSize(len, size) == 1
  {
    if len + 3 >= size {
      assert (len + 3) % size == len + 3 - size;
    }
  }

  /** is_fallback_ptr, for the address of cell ptr of a heap of n cells. */
  predicate IsFallbackPtr(n: nat, ptr: int) {
    0 <= ptr < n
  }

  /** A chunk of more than the header goes with every request but those for nothing and those that wrap. */
  lemma AllocSizeMany(len: nat, size: nat)
    requires len < size && size >= 8
    ensures AllocSize(len, size) > 1 <==> 0 < len && len + 3 < size
  {
    AllocSizeExact(len, size);
  }

  /**
   The pointer that an allocation from chunk p returns is recognised when it comes back, exactly when the request
   gets more than a header or p does not reach to the end of the heap.
   */
  lemma RecognisedExact(s: Heap, free: seq<nat>, used: set<nat>, bytes: nat, size: nat)
    requires Shape(s) && WellFormedWith(s, free, used) && Walk(s, free) && bytes < size && size >= 8
    requires FirstFit(s.len, free, AllocSize(bytes, size), 0) < |free|
    ensures
      var nelems := AllocSize(bytes, size);
      var p, q := free[FirstFit(s.len, free, nelems, 0)], Allocate(s, free, nelems).1;
      IsFallbackPtr(s.n, q + 1) <==> (0 < bytes && bytes + 3 < size) || p + s.len[p] < s.n
  {
    hide WellFormedWith, Chain, AllocSize, FirstFit;
    AllocSizeMany(bytes, size);
    AllocateCases(s, free, AllocSize(bytes, size));
  }

  /** The first request for nothing takes the last cell, and its pointer is not recognised. */
  lemma NothingAtTheEnd(n: nat, next: seq<nat>, len: seq<nat>)
    requires |next| == |len| == n > 1
    ensures
      var s := InitHeap(n, next, len);
      && WellFormedWith(s, [0], {}) && Walk(s, [0])
      && FirstFit(s.len, [0], AllocSize(0, 8), 0) == 0
      && Allocate(s, [0], AllocSize(0, 8)).1 == n - 1
      && !IsFallbackPtr(n, (n - 1) + 1)
  {
    InitWellFormed(n, next, len);
  }

  // ----- runs

  /** What the program does with the heap: allocate, release, or write into a chunk it owns. */
  datatype Op = Allocates(nelems: nat) | Releases(cp: nat) | Writes(cell: nat, next: nat, len: nat)

  datatype Config = Config(heap: Heap, used: set<nat>)

  /** free is the list that a walk from freelist visits, and its chunks lie inside the heap. */
  ghost predicate Walk(s: Heap, free: seq<nat>) {
    && Shape(s) && Chain(s, free)
    && forall i | 0 <= i < |free| :: free[i] + s.len[free[i]] <= s.n
  }

  ghost predicate Inside(s: Heap, used: set<nat>, cell: nat) {
    |s.len| == s.n && exists u :: u in used && u < s.n && u < cell < u + s.len[u] <= s.n
  }

  ghost predicate Step(c: Config, op: Op, c': Config, free: seq<nat>) {
    && Walk(c.heap, free)
    && match op
       case Allocates(nelems) =>
         nelems > 0 &&
         if FirstFit(c.heap.len, free, nelems, 0) == |free| then c' == c
         else
           var (s', q) := Allocate(c.heap, free, nelems);
           c' == Config(s', c.used + {q})
       case Releases(cp) =>
         cp in c.used && cp < c.heap.n && c' == Config(Release(c.heap, free, cp), c.used - {cp})
       case Writes(cell, next, len) =>
         Inside(c.heap, c.used, cell)
         && c' == Config(c.heap.(next := c.heap.next[cell := next], len := c.heap.len[cell := len]), c.used)
  }

  ghost predicate Loses(c: Config, op: Op, free: seq<nat>) {
    Walk(c.heap, free) && op.Releases? && op.cp < c.heap.n && LosesTail(c.heap, free, op.cp)
  }

  lemma WriteKeeps(s: Heap, free: seq<nat>, used: set<nat>, u: nat, cell: nat, next: nat, len: nat)
    requires Shape(s) && WellFormedWith(s, free, used)
    requires u in used && u < s.n && u < cell < u + s.len[u] && cell < s.n
    ensures WellFormedWith(s.(next := s.next[cell := next], len := s.len[cell := len]), free, used)
  {
    var chunks := Nodes(free) + used;
    assert cell !in chunks by {
      assert u in chunks && forall c | c in chunks && u < c :: u + s.len[u] <= c;
    }
    var s' := s.(next := s.next[cell := next], len := s.len[cell := len]);
    assert Tiles(s.n, s'.len, chunks) by {
      TilesIgnore(s.n, s.len, chunks, cell, len);
    }
    hide Tiles;
    forall k | 0 <= k < |free|
      ensures s'.next[free[k]] == NodeAt(s.n, free, k + 1)
    {
      NodesMember(free, k);
      assert s.next[free[k]] == NodeAt(s.n, free, k + 1);
    }
  }

  lemma TilesIgnore(n: nat, len: seq<nat>, chunks: set<nat>, cell: nat, x: nat)
    requires |len| == n && Tiles(n, len, chunks) && cell < n && cell !in chunks
    ensures Tiles(n, len[cell := x], chunks)
  {
    forall c, d | c in chunks && d in chunks && c < d
      ensures c + len[cell := x][c] <= d
    {
      assert c + len[c] <= d;
    }
  }

  lemma WellFormedBy(s: Heap, free: seq<nat>, used: set<nat>)
    requires Shape(s) && WellFormedWith(s, free, used)
    ensures WellFormed(s, used)
  {
  }

  /** The list that a walk visits is the one that makes the heap well formed. */
  lemma WalkedList(s: Heap, used: set<nat>, free: seq<nat>)
    requires WellFormed(s, used) && Walk(s, free)
    ensures WellFormedWith(s, free, used)
  {
    var free' :| WellFormedWith(s, free', used);
    ChainUnique(s, free, free');
  }

  /** A step from a well-formed heap keeps it well formed exactly when it is not the losing release. */
  lemma StepExact(c: Config, op: Op, c': Config, free: seq<nat>)
    requires WellFormed(c.heap, c.used) && Step(c, op, c', free)
    ensures WellFormed(c'.heap, c'.used) <==> !Loses(c, op, free)
  {
    WalkedList(c.heap, c.used, free);
    hide WellFormed, WellFormedWith, Chain, Tiles, Distinct;
    match op
    case Allocates(nelems) =>
      if FirstFit(c.heap.len, free, nelems, 0) < |free| {
        AllocateKeeps(c.heap, free, c.used, nelems);
      }
    case Releases(cp) =>
      ReleaseExact(c.heap, free, c.used, cp);
    case Writes(cell, next, len) =>
      var u :| u in c.used && u < c.heap.n && u < cell < u + c.heap.len[u] <= c.heap.n;
      WriteKeeps(c.heap, free, c.used, u, cell, next, len);
      WellFormedBy(c'.heap, free, c'.used);
  }

  /** A run that starts from a fresh heap; frees[i] is the free list before step i. */
  ghost predicate Run(n: nat, cs: seq<Config>, ops: seq<Op>, frees: seq<seq<nat>>) {
    && |cs| == |ops| + 1 == |frees| + 1
    && Fresh(n, cs[0])
    && forall i | 0 <= i < |ops| :: Step(cs[i], ops[i], cs[i + 1], frees[i])
  }

  ghost predicate Fresh(n: nat, c: Config) {
    exists next: seq<nat>, len: seq<nat> :: |next| == |len| == n > 0 && c == Config(InitHeap(n, next, len), {})
  }

  lemma FreshWellFormed(n: nat, c: Config)
    requires Fresh(n, c)
    ensures WellFormed(c.heap, c.used)
  {
    var next: seq<nat>, len: seq<nat> :| |next| == |len| == n > 0 && c == Config(InitHeap(n, next, len), {});
    InitWellFormed(n, next, len);
    WellFormedBy(c.heap, [0], {});
  }

  /** Until its first losing release a run keeps the heap well formed, and that release breaks it. */
  lemma {:induction false} RunExact(n: nat, cs: seq<Config>, ops: seq<Op>, frees: seq<seq<nat>>, m: nat)
    requires Run(n, cs, ops, frees) && m <= |ops|
    requires forall i | 0 <= i < m :: !Loses(cs[i], ops[i], frees[i])
    ensures WellFormed(cs[m].heap, cs[m].used)
    ensures m < |ops| && Loses(cs[m], ops[m], frees[m]) ==> !WellFormed(cs[m + 1].heap, cs[m + 1].used)
  {
    if m == 0 {
      FreshWellFormed(n, cs[0]);
    } else {
      RunExact(n, cs, ops, frees, m - 1);
      StepExact(cs[m - 1], ops[m - 1], cs[m], frees[m - 1]);
    }
    if m < |ops| {
      StepExact(cs[m], ops[m], cs[m + 1], frees[m]);
    }
  }

  /**
   What serving a request leaves: the first chunk p of the list that is large enough has lost its last cells, which
   are the chunk q, or has left the list and is q itself; q has one cell for the header and as few as hold the bytes.
   */
  ghost predicate Served(s: Heap, list: seq<nat>, s': Heap, list': seq<nat>, q: nat, bytes: nat, size: nat) {
    && |s.len| == |s'.len| == s.n == s'.n && q < s.n && (forall i | 0 <= i < |list| :: list[i] < s.n)
    && (if bytes + 3 < size then bytes + 4 <= 4 * s'.len[q] < bytes + 8 else s'.len[q] == 1)
    && exists k {:trigger list[k]} :: 0 <= k < |list|
         && Holds(s.len[list[k]], bytes, size) && (forall i | 0 <= i < k :: !Holds(s.len[list[i]], bytes, size))
         && q + s'.len[q] == list[k] + s.len[list[k]]
         && (if q == list[k] then list' == list[..k] + list[k + 1..]
             else list' == list && list[k] + s'.len[list[k]] == q)
         && forall c | 0 <= c < s.n && c != q && c != list[k] :: s'.len[c] == s.len[c]
  }

  /** Allocation serves the request, and finds nothing exactly when no chunk of the list holds it. */
  lemma AllocateServes(s: Heap, list: seq<nat>, bytes: nat, size: nat)
    requires Walk(s, list) && bytes < size && size >= 8
    ensures forall i | 0 <= i < |list| :: list[i] < s.n && list[i] + s.len[list[i]] <= s.n
    ensures
      var nelems := AllocSize(bytes, size);
      var k := FirstFit(s.len, list, nelems, 0);
      && (k == |list| <==> forall i | 0 <= i < |list| :: !Holds(s.len[list[i]], bytes, size))
      && (k < |list| ==>
           var (s', q) := Allocate(s, list, nelems);
           Served(s, list, s', if s.len[list[k]] > nelems then list else Without(list, k), q, bytes, size))
  {
    hide AllocSize, Chain, Allocate, Without, Served;
    var nelems := AllocSize(bytes, size);
    AllocSizeLeast(bytes, size);
    AllocSizeExact(bytes, size);
    AllocateCases(s, list, nelems);
    var k := FirstFit(s.len, list, nelems, 0);
    if k < |list| {
      var (s', q) := Allocate(s, list, nelems);
      ServedBy(s, list, s', if s.len[list[k]] > nelems then list else Without(list, k), q, bytes, size, k, nelems);
    }
  }

  /** One of the two chunks begins where the other ends. */
  predicate Touch(len: seq<nat>, p: nat, cp: nat) {
    p < |len| && cp < |len| && (p + len[p] == cp || cp + len[cp] == p)
  }

  predicate AllBut(a: seq<nat>, b: seq<nat>, c: nat) {
    |a| == |b| && forall i | 0 <= i < |a| && i != c :: a[i] == b[i]
  }

  /** Node k is the first of the list that touches cp, or there is none. */
  ghost predicate FirstTouch(len: seq<nat>, list: seq<nat>, cp: nat, k: nat) {
    k <= |list| && (k < |list| ==> Touch(len, list[k], cp)) && forall i | 0 <= i < k :: !Touch(len, list[i], cp)
  }

  /** The chunk in front of cp grows, or cp grows by the chunk behind it and takes its place, or cp comes first. */
  ghost predicate FreedAt(s: Heap, list: seq<nat>, s': Heap, cp: nat, k: nat)
    requires cp < s.n == |s.next| == |s.len| && k <= |list| && forall i | 0 <= i < |list| :: list[i] < s.n
  {
    && s'.n == s.n && |s'.next| == |s'.len| == s.n
    && if k == |list| then
         s'.len == s.len && s'.head == cp && s'.next[cp] == s.head && AllBut(s'.next, s.next, cp)
       else if list[k] + s.len[list[k]] == cp then
         && s'.len[list[k]] == s.len[list[k]] + s.len[cp] && AllBut(s'.len, s.len, list[k])
         && s'.head == s.head && s'.next == s.next
       else
         && s'.len[cp] == s.len[cp] + s.len[list[k]] && AllBut(s'.len, s.len, cp)
         && if k == 0 then s'.head == cp && s'.next[cp] == s.next[list[k]] && AllBut(s'.next, s.next, cp)
            else s'.head == s.head && s'.next[list[k - 1]] == cp && AllBut(s'.next, s.next, list[k - 1])
  }

  ghost predicate Freed(s: Heap, list: seq<nat>, s': Heap, cp: nat)
    requires cp < s.n == |s.next| == |s.len| && forall i | 0 <= i < |list| :: list[i] < s.n
  {
    exists k :: FirstTouch(s.len, list, cp, k) && FreedAt(s, list, s', cp, k)
  }

  lemma ReleaseFrees(s: Heap, list: seq<nat>, cp: nat)
    requires Shape(s) && cp < s.n && forall i | 0 <= i < |list| :: list[i] < s.n
    ensures Freed(s, list, Release(s, list, cp), cp)
  {
    var k := FirstNeighbour(s.len, list, cp, 0);
    assert FirstTouch(s.len, list, cp, k);
    assert FreedAt(s, list, Release(s, list, cp), cp, k);
  }

  // ----- the object

  /** The cells a node field can hold: heap_offset and heap_size are 16 bits wide. */
  const U16: nat := 0x1_0000

  /**
   The emergency heap.  next and len are the two header fields of every cell; freelist is None while
   the C++ pointer is still NULL.  free and used are the list and the chunks handed out.
   */
  class EmergencyHeap {
    const n: nat
    const next: array<nat>
    const len: array<nat>
    var freelist: Option<nat>
    ghost var free: seq<nat>
    ghost var used: set<nat>

    constructor (n: nat)
      requires 0 < n < U16
      ensures Valid() && this.n == n && used == {} && fresh(next) && fresh(len)
    {
      this.n := n;
      next, len := new nat[n], new nat[n];
      freelist := None;
      free, used := [], {};
    }

    ghost predicate Owned() {
      next != len && next.Length == len.Length == n && 0 < n < U16
    }

    /** The cells with freelist set, as init_heap would leave it if it is still NULL. */
    ghost function State(): Heap
      requires Owned()
      reads this`freelist, next, len
    {
      if freelist == None then InitHeap(n, next[..], len[..]) else Heap(n, freelist.value, next[..], len[..])
    }

    ghost function List(): seq<nat>
      reads this
    {
      if freelist == None then [0] else free
    }

    ghost predicate Valid()
      reads this, next, len
    {
      && Owned() && (freelist == None ==> used == {})
      && WellFormedWith(State(), List(), used)
    }

    method Initialise()
      requires Valid() && freelist == None
      modifies this, next, len
      ensures Valid() && freelist.Some? && used == old(used)
      ensures State() == old(State()) && free == old(List())
    {
      freelist := Some(0);
      next[0] := n;
      len[0] := n;
      free := [0];
      assert State() == old(State());
    }

    lemma WalkFacts()
      requires Valid() && freelist.Some?
      ensures Owned() && n == next.Length == len.Length
      ensures
        var s := State();
        && s == Heap(n, freelist.value, next[..], len[..]) && Shape(s)
        && Walk(s, free) && Chain(s, free) && s.head == NodeAt(n, free, 0)
      ensures forall i | 0 <= i < |free| :: free[i] < n
      ensures forall c | c in used :: c < n
    {
      WellFormedWalk(State(), free, used);
    }

    /** The walk of fallback_malloc: the first chunk of the list that is large enough, and its predecessor. */
    method FindFit(nelems: nat) returns (p: nat, prev: Option<nat>, ghost k: nat)
      requires Valid() && freelist.Some?
      ensures Walk(State(), free) && k == FirstFit(State().len, free, nelems, 0)
      ensures p == NodeAt(n, free, k) && prev == if k == 0 then None else Some(free[k - 1])
    {
      hide *;
      WalkFacts();
      ghost var s := State();
      p, prev, k := freelist.value, None, 0;
      NodeCases(n, free, 0);
      while p != n && len[p] < nelems
        invariant k <= |free| && p == NodeAt(n, free, k) && (p == n <==> k == |free|) && (k < |free| ==> p == free[k])
        invariant prev == if k == 0 then None else Some(free[k - 1])
        invariant FirstFit(s.len, free, nelems, 0) == FirstFit(s.len, free, nelems, k)
        decreases |free| - k
      {
        NextNode(s, free, k);
        NodeCases(n, free, k + 1);
        FirstFitStep(s.len, free, nelems, k);
        prev, p := Some(p), next[p];
        k := k + 1;
      }
      FirstFitStop(s.len, free, nelems, k);
    }

    /** The chunk is larger: shorten it and hand out the tail. */
    method TakeTail(p: nat, nelems: nat, ghost k: nat) returns (q: nat)
      requires Valid() && freelist.Some? && k < |free| && p == free[k] < n && 0 < nelems < len[p] && p + len[p] <= n
      modifies this`used, next, len
      ensures Valid() && q == p + (old(len[p]) - nelems) < n && q !in old(used) && used == old(used) + {q}
      ensures
        var s := old(State());
        State() == s.(len := s.len[p := s.len[p] - nelems][q := nelems], next := s.next[q := 0])
    {
      hide WellFormedWith, Chain, NodeAt;
      ghost var s := State();
      SplitKeeps(s, free, used, k, nelems);
      len[p] := (len[p] - nelems) % U16;
      q := p + len[p];
      next[q] := 0;
      len[q] := nelems % U16;
      used := used + {q};
      assert len[..] == s.len[p := s.len[p] - nelems][q := nelems];
      assert next[..] == s.next[q := 0];
    }

    /** The chunk fits exactly: unlink it. */
    method TakeWhole(p: nat, prev: Option<nat>, ghost k: nat)
      requires Valid() && freelist.Some? && k < |free| && p == free[k] < n
      requires forall i | 0 <= i < |free| :: free[i] < n
      requires prev == if k == 0 then None else Some(free[k - 1])
      modifies this, next
      ensures Valid() && freelist.Some? && p !in old(used) && used == old(used) + {p}
      ensures State() == Unlink(old(State()), old(free), k) && free == Without(old(free), k)
    {
      hide WellFormedWith, Chain, NodeAt;
      ghost var s := State();
      UnlinkKeeps(s, free, used, k);
      if prev == None {
        freelist := Some(next[p]);
      } else {
        next[prev.value] := next[p];
      }
      next[p] := 0;
      used := used + {p};
      assert next[..] == Unlink(s, free, k).next;
      assert len[..] == s.len;
      free := Without(free, k);
    }

    /** fallback_malloc: the result is the cell after the chunk's header, or None for NULL. */
    method Malloc(bytes: nat, size: nat) returns (r: Option<nat>)
      requires Valid() && size > 0
      modifies this, next, len
      ensures Valid() && freelist.Some? && Walk(old(State()), old(List()))
      ensures
        var nelems := AllocSize(bytes, size);
        var s, list := old(State()), old(List());
        if FirstFit(s.len, list, nelems, 0) == |list| then
          r == None && State() == s && used == old(used)
        else
          var (s', q) := Allocate(s, list, nelems);
          r == Some(q + 1) && State() == s' && used == old(used) + {q} && q !in old(used)
      ensures bytes < size && size >= 8 ==>
        var s, list := old(State()), old(List());
        && (r == None <==> forall i | 0 <= i < |list| :: !Holds(s.len[list[i]], bytes, size))
        && (r == None ==> State() == s && free == list && used == old(used))
        && (r.Some? ==> r.value > 0 && Served(s, list, State(), free, r.value - 1, bytes, size)
                        && r.value - 1 !in old(used) && used == old(used) + {r.value - 1})
    {
      hide *;
      var nelems := AllocSize(bytes, size);
      if freelist == None {
        Initialise();
      }
      ListFacts();
      WalkFacts();
      ghost var s, list, used0 := State(), free, used;
      var p, prev, k := FindFit(nelems);
      NodeCases(n, list, k);
      AllocateCases(s, list, nelems);
      if bytes < size && size >= 8 {
        AllocateServes(s, list, bytes, size);
      }
      if p == n {
        return None;
      }
      if len[p] > nelems {
        var q := TakeTail(p, nelems, k);
        return Some(q + 1);
      }
      TakeWhole(p, prev, k);
      return Some(p + 1);
    }

    lemma ListFacts()
      requires Valid() && freelist.Some?
      ensures List() == free && Owned()
    {
    }

    /** The walk of fallback_free: the first list node that touches cp, and its predecessor. */
    method FindNeighbour(cp: nat) returns (p: nat, prev: Option<nat>, ghost k: nat)
      requires Valid() && freelist.Some? && cp in used
      ensures cp < n && Walk(State(), free) && k == FirstNeighbour(State().len, free, cp, 0)
      ensures p == NodeAt(n, free, k) && prev == if k == 0 then None else Some(free[k - 1])
    {
      hide *;
      WalkFacts();
      ghost var s := State();
      p, prev, k := freelist.value, None, 0;
      NodeCases(n, free, 0);
      while p != n && p + len[p] != cp && cp + len[cp] != p
        invariant k <= |free| && p == NodeAt(n, free, k) && (p == n <==> k == |free|) && (k < |free| ==> p == free[k])
        invariant prev == if k == 0 then None else Some(free[k - 1])
        invariant FirstNeighbour(s.len, free, cp, 0) == FirstNeighbour(s.len, free, cp, k)
        decreases |free| - k
      {
        NextNode(s, free, k);
        NodeCases(n, free, k + 1);
        FirstNeighbourStep(s.len, free, cp, k);
        prev, p := Some(p), next[p];
        k := k + 1;
      }
      FirstNeighbourStop(s.len, free, cp, k);
    }

    /** Nothing to merge with: cp becomes the first list node. */
    method Push(cp: nat)
      requires Owned() && freelist.Some? && cp < n
      modifies this`freelist, next
      ensures Owned() && freelist.Some?
      ensures State() == old(State()).(next := old(State()).next[cp := old(State()).head], head := cp)
    {
      ghost var s := State();
      next[cp] := freelist.value;
      freelist := Some(cp);
      assert next[..] == s.next[cp := s.head] && len[..] == s.len;
    }

    /** a grows by the length of b. */
    method Absorb(a: nat, b: nat)
      requires Owned() && freelist.Some? && a < n && b < n && len[a] + len[b] < U16
      modifies len
      ensures Owned() && freelist.Some?
      ensures State() == old(State()).(len := old(State()).len[a := old(State()).len[a] + old(State()).len[b]])
    {
      ghost var s := State();
      len[a] := (len[a] + len[b]) % U16;
      assert next[..] == s.next && len[..] == s.len[a := s.len[a] + s.len[b]];
    }

    /** cp takes the place of p behind prev; only the first-node case copies p's link. */
    method TakePlace(cp: nat, p: nat, prev: Option<nat>)
      requires Owned() && freelist.Some? && cp < n && p < n && (prev.Some? ==> prev.value < n)
      modifies this`freelist, next
      ensures Owned() && freelist.Some?
      ensures
        var s := old(State());
        State() == if prev == None then s.(head := cp, next := s.next[cp := s.next[p]])
                   else s.(next := s.next[prev.value := cp])
    {
      ghost var s := State();
      if prev == None {
        freelist := Some(cp);
        next[cp] := next[p];
        assert next[..] == s.next[cp := s.next[p]] && len[..] == s.len;
        assert State() == s.(head := cp, next := s.next[cp := s.next[p]]);
      } else {
        next[prev.value] := cp;
        assert next[..] == s.next[prev.value := cp] && len[..] == s.len;
        assert State() == s.(next := s.next[prev.value := cp]);
      }
    }

    /** fallback_free on a pointer that Malloc returned and that was not freed since. */
    method Free(ptr: nat)
      requires Valid() && freelist.Some? && ptr > 0 && ptr - 1 in used
      modifies this, next, len
      ensures Owned() && freelist.Some? && used == old(used) - {ptr - 1} && ptr - 1 < n
      ensures Walk(old(State()), old(free)) && State() == Release(old(State()), old(free), ptr - 1)
      ensures Freed(old(State()), old(free), State(), ptr - 1)
      ensures Valid() <==> !LosesTail(old(State()), old(free), ptr - 1)
    {
      hide *;
      var cp := ptr - 1;
      WalkFacts();
      ReleaseFacts(cp);
      ghost var s, list, used0 := State(), free, used;
      var p, prev, k := FindNeighbour(cp);
      NodeCases(n, list, k);
      if p == n {
        Push(cp);
      } else if p + len[p] == cp {
        Absorb(p, cp);
      } else {
        Absorb(cp, p);
        TakePlace(cp, p, prev);
      }
      used := used - {cp};
      assert State() == Release(s, list, cp) by {
        ReleaseCases(s, list, cp);
      }
      OldShape(s, list);
      ReleaseFrees(s, list, cp);
      OwnedShape();
      free := Witness(State(), used, free);
      ValidMeans();
    }

    /** __free_with_fallback: an unrecognised pointer goes to the system's free and leaves this heap alone. */
    method FreeWithFallback(ptr: nat) returns (mine: bool)
      requires Valid() && freelist.Some? && ptr > 0 && (IsFallbackPtr(n, ptr) ==> ptr - 1 in used)
      modifies this, next, len
      ensures mine <==> IsFallbackPtr(n, ptr)
      ensures Owned() && freelist.Some?
      ensures !mine ==> Valid() && State() == old(State()) && used == old(used)
      ensures mine ==> used == old(used) - {ptr - 1} && ptr - 1 < n && Walk(old(State()), old(free))
      ensures mine ==> State() == Release(old(State()), old(free), ptr - 1)
      ensures mine ==> (Valid() <==> !LosesTail(old(State()), old(free), ptr - 1))
    {
      hide *;
      ListFacts();
      mine := IsFallbackPtr(n, ptr);
      if mine {
        Free(ptr);
      }
    }

    lemma OwnedShape()
      requires Owned() && freelist.Some?
      ensures Shape(State())
    {
    }

    lemma ValidMeans()
      requires Owned() && freelist.Some?
      ensures Shape(State()) && (Valid() <==> WellFormedWith(State(), free, used))
    {
    }

    lemma ReleaseFacts(cp: nat)
      requires Valid() && freelist.Some? && cp in used
      ensures Walk(State(), free) && cp < n
      ensures WellFormed(Release(State(), free, cp), used - {cp}) <==> !LosesTail(State(), free, cp)
      ensures forall i | 0 <= i < |free| :: free[i] < n && len[free[i]] + len[cp] < U16
    {
      hide WellFormedWith, WellFormed, Chain, Release, LosesTail, FirstNeighbour;
      WellFormedWalk(State(), free, used);
      MergedFits(State(), free, used, cp);
      ReleaseExact(State(), free, used, cp);
    }
  }

  lemma OldShape(s: Heap, list: seq<nat>)
    requires Walk(s, list)
    ensures Shape(s) && forall i | 0 <= i < |list| :: list[i] < s.n
  {
  }

  lemma MergedFits(s: Heap, free: seq<nat>, used: set<nat>, cp: nat)
    requires Shape(s) && WellFormedWith(s, free, used) && cp in used
    ensures cp < s.n && forall i | 0 <= i < |free| :: free[i] < s.n && s.len[free[i]] + s.len[cp] <= s.n
  {
    ChainBounds(s, free, used);
    var chunks := Nodes(free) + used;
    forall i | 0 <= i < |free|
      ensures s.len[free[i]] + s.len[cp] <= s.n
    {
      NodesMember(free, i);
      assert free[i] in chunks && cp in chunks;
      assert free[i] < cp ==> free[i] + s.len[free[i]] <= cp;
      assert cp < free[i] ==> cp + s.len[cp] <= free[i];
    }
  }

  lemma AllocateCases(s: Heap, free: seq<nat>, nelems: nat)
    requires Walk(s, free) && nelems > 0
    ensures forall i | 0 <= i < |free| :: free[i] < s.n && free[i] + s.len[free[i]] <= s.n
    ensures
      var k := FirstFit(s.len, free, nelems, 0);
      k < |free| ==>
        var p := free[k];
        && s.len[p] >= nelems
        && Allocate(s, free, nelems) ==
           if s.len[p] > nelems then
             var q := p + (s.len[p] - nelems);
             (s.(len := s.len[p := s.len[p] - nelems][q := nelems], next := s.next[q := 0]), q)
           else (Unlink(s, free, k), p)
  {
  }

  lemma ServedBy(s: Heap, list: seq<nat>, s': Heap, list': seq<nat>, q: nat, bytes: nat, size: nat, k: nat, cells: nat)
    requires |s.len| == |s.next| == s.n && k < |list|
    requires forall i | 0 <= i < |list| :: list[i] < s.n && list[i] + s.len[list[i]] <= s.n
    requires cells > 0 && if bytes + 3 < size then bytes + 4 <= 4 * cells < bytes + 8 else cells == 1
    requires Holds(s.len[list[k]], bytes, size) && forall i | 0 <= i < k :: !Holds(s.len[list[i]], bytes, size)
    requires s.len[list[k]] >= cells && q == list[k] + (s.len[list[k]] - cells)
    requires
      if s.len[list[k]] > cells then
        list' == list
        && s' == s.(len := s.len[list[k] := s.len[list[k]] - cells][q := cells], next := s.next[q := 0])
      else list' == Without(list, k) && s' == Unlink(s, list, k)
    ensures Served(s, list, s', list', q, bytes, size)
  {
    hide Holds;
  }

  lemma ReleaseCases(s: Heap, free: seq<nat>, cp: nat)
    requires Walk(s, free) && cp < s.n
    ensures
      var k := FirstNeighbour(s.len, free, cp, 0);
      && (k == |free| ==> Release(s, free, cp) == s.(next := s.next[cp := s.head], head := cp))
      && (k < |free| ==>
           var p := free[k];
           var merged := s.(len := s.len[cp := s.len[cp] + s.len[p]]);
           Release(s, free, cp) ==
             if p + s.len[p] == cp then s.(len := s.len[p := s.len[p] + s.len[cp]])
             else if k == 0 then merged.(head := cp, next := merged.next[cp := merged.next[p]])
             else merged.(next := merged.next[free[k - 1] := cp]))
  {
  }

  lemma FirstFitStep(len: seq<nat>, free: seq<nat>, nelems: nat, k: nat)
    requires forall i | 0 <= i < |free| :: free[i] < |len|
    requires k < |free| && len[free[k]] < nelems
    ensures FirstFit(len, free, nelems, k) == FirstFit(len, free, nelems, k + 1)
  {
  }

  lemma FirstNeighbourStep(len: seq<nat>, free: seq<nat>, cp: nat, k: nat)
    requires cp < |len| && forall i | 0 <= i < |free| :: free[i] < |len|
    requires k < |free| && free[k] + len[free[k]] != cp && cp + len[cp] != free[k]
    ensures FirstNeighbour(len, free, cp, k) == FirstNeighbour(len, free, cp, k + 1)
  {
  }

  lemma WellFormedWalk(s: Heap, free: seq<nat>, used: set<nat>)
    requires Shape(s) && WellFormedWith(s, free, used)
    ensures Walk(s, free) && Chain(s, free) && s.head == NodeAt(s.n, free, 0)
    ensures forall i | 0 <= i < |free| :: free[i] < s.n
    ensures forall c | c in used :: c < s.n
  {
    ChainBounds(s, free, used);
  }

  lemma FirstFitStop(len: seq<nat>, free: seq<nat>, nelems: nat, k: nat)
    requires forall i | 0 <= i < |free| :: free[i] < |len|
    requires k <= |free| && (k < |free| ==> len[free[k]] >= nelems)
    ensures FirstFit(len, free, nelems, k) == k
  {
  }

  lemma FirstNeighbourStop(len: seq<nat>, free: seq<nat>, cp: nat, k: nat)
    requires cp < |len| && forall i | 0 <= i < |free| :: free[i] < |len|
    requires k <= |free| && (k < |free| ==> free[k] + len[free[k]] == cp || cp + len[cp] == free[k])
    ensures FirstNeighbour(len, free, cp, k) == k
  {
  }

  /** The free list of a well-formed heap. */
  ghost function Witness(s: Heap, used: set<nat>, free: seq<nat>): (free': seq<nat>)
    requires Shape(s)
    ensures WellFormed(s, used) <==> WellFormedWith(s, free', used)
  {
    if WellFormed(s, used) then
      var free' :| WellFormedWith(s, free', used);
      free'
    else free
  }

  lemma NodeCases(n: nat, free: seq<nat>, k: nat)
    requires k <= |free| && forall i | 0 <= i < |free| :: free[i] < n
    ensures NodeAt(n, free, k) == n <==> k == |free|
    ensures k < |free| ==> NodeAt(n, free, k) == free[k]
  {
  }

  lemma NextNode(s: Heap, free: seq<nat>, k: nat)
    requires Shape(s) && Chain(s, free) && k < |free| && free[k] < s.n
    ensures s.next[free[k]] == NodeAt(s.n, free, k + 1)
  {
  }

  // ----- a run that reaches the losing release

  /** The links of the free list, of which cells 8 and 14 change. */
  function Links(of8: nat, of14: nat): (next: seq<nat>) {
    seq(16, i => if i == 0 then 16 else if i == 8 then of8 else if i == 14 then of14 else 0)
  }

  /** The lengths after r requests, and after the release of cell 12 gave it the length of12. */
  function Lengths(r: nat, of12: nat): (len: seq<nat>)
    requires r <= 7
  {
    seq(16, i => if i == 0 then 16 - 2 * r else if i < 16 - 2 * r || i % 2 == 1 then 0 else if i == 12 then of12 else 2)
  }

  function Handed(r: nat): set<nat>
    requires r <= 7
  {
    if r == 0 then {} else Handed(r - 1) + {16 - 2 * r}
  }

  /** Sixteen cells after r two-cell requests: each came off the end of the first chunk. */
  function AfterRequests(r: nat): Config
    requires r <= 7
  {
    Config(Heap(16, 0, Links(0, 0), Lengths(r, 2)), Handed(r))
  }

  lemma RequestStep(r: nat)
    requires r < 7
    ensures Step(AfterRequests(r), Allocates(2), AfterRequests(r + 1), [0])
  {
    var c, c' := AfterRequests(r), AfterRequests(r + 1);
    assert FirstFit(c.heap.len, [0], 2, 0) == 0;
    var (s', q) := Allocate(c.heap, [0], 2);
    assert q == 14 - 2 * r;
    assert s'.len == c'.heap.len;
    assert s'.next == c'.heap.next;
    assert c.used + {q} == c'.used;
  }

  /** The same heap with a free list of two-cell chunks. */
  function AfterReleases(head: nat, of8: nat, of14: nat, used: set<nat>): Config {
    Config(Heap(16, head, Links(of8, of14), Lengths(7, 2)), used)
  }

  ghost predicate Apart(len: seq<nat>, p: nat, cp: nat) {
    p < |len| && cp < |len| && p + len[p] != cp && cp + len[cp] != p
  }

  lemma PushStep(c: Config, free: seq<nat>, cp: nat)
    requires Walk(c.heap, free) && cp in c.used && cp < c.heap.n
    requires forall i {:trigger free[i]} | 0 <= i < |free| :: Apart(c.heap.len, free[i], cp)
    ensures !Loses(c, Releases(cp), free)
    ensures
      var pushed := c.heap.(next := c.heap.next[cp := c.heap.head], head := cp);
      Step(c, Releases(cp), Config(pushed, c.used - {cp}), free)
  {
  }

  lemma MergeStep(c: Config, free: seq<nat>, cp: nat, k: nat)
    requires Walk(c.heap, free) && cp in c.used && cp < c.heap.n
    requires 0 < k < |free| && FirstNeighbour(c.heap.len, free, cp, 0) == k
    requires free[k] + c.heap.len[free[k]] != cp && c.heap.next[free[k]] != 0
    ensures Loses(c, Releases(cp), free)
    ensures
      var s := c.heap;
      var s' := s.(len := s.len[cp := s.len[cp] + s.len[free[k]]], next := s.next[free[k - 1] := cp]);
      Step(c, Releases(cp), Config(s', c.used - {cp}), free)
  {
  }

  function ConfigAt(i: nat): Config {
    if i <= 7 then AfterRequests(i)
    else if i == 8 then AfterReleases(4, 0, 0, {2, 6, 8, 10, 12, 14})
    else if i == 9 then AfterReleases(14, 0, 4, {2, 6, 8, 10, 12})
    else if i == 10 then AfterReleases(8, 14, 4, {2, 6, 10, 12})
    else Config(Heap(16, 8, Links(12, 4), Lengths(7, 4)), {2, 6, 10})
  }

  function OpAt(i: nat): Op {
    if i < 7 then Allocates(2) else if i == 7 then Releases(4) else if i == 8 then Releases(14)
    else if i == 9 then Releases(8) else Releases(12)
  }

  function ListAt(i: nat): seq<nat> {
    if i <= 7 then [0] else if i == 8 then [4, 0] else if i == 9 then [14, 4, 0] else [8, 14, 4, 0]
  }

  function Configs(): (cs: seq<Config>)
    ensures |cs| == 12 && forall i | 0 <= i < 12 :: cs[i] == ConfigAt(i)
  {
    seq(12, i requires i >= 0 => ConfigAt(i))
  }

  function Ops(): (ops: seq<Op>)
    ensures |ops| == 11 && forall i | 0 <= i < 11 :: ops[i] == OpAt(i)
  {
    seq(11, i requires i >= 0 => OpAt(i))
  }

  function Lists(): (frees: seq<seq<nat>>)
    ensures |frees| == 11 && forall i | 0 <= i < 11 :: frees[i] == ListAt(i)
  {
    seq(11, i requires i >= 0 => ListAt(i))
  }

  lemma PushAt7()
    ensures Step(ConfigAt(7), OpAt(7), ConfigAt(8), ListAt(7)) && !Loses(ConfigAt(7), OpAt(7), ListAt(7))
  {
    assert Handed(3) == {14, 12, 10} && Handed(5) == {14, 12, 10, 8, 6};
    assert ConfigAt(7) == AfterReleases(0, 0, 0, {2, 4, 6, 8, 10, 12, 14});
    PushStep(ConfigAt(7), [0], 4);
  }

  lemma PushAt8()
    ensures Step(ConfigAt(8), OpAt(8), ConfigAt(9), ListAt(8)) && !Loses(ConfigAt(8), OpAt(8), ListAt(8))
  {
    PushStep(ConfigAt(8), [4, 0], 14);
  }

  lemma PushAt9()
    ensures Step(ConfigAt(9), OpAt(9), ConfigAt(10), ListAt(9)) && !Loses(ConfigAt(9), OpAt(9), ListAt(9))
  {
    PushStep(ConfigAt(9), [14, 4, 0], 8);
  }

  lemma MergeAt10()
    ensures Step(ConfigAt(10), OpAt(10), ConfigAt(11), ListAt(10)) && Loses(ConfigAt(10), OpAt(10), ListAt(10))
  {
    var c := ConfigAt(10);
    assert FirstNeighbour(c.heap.len, [8, 14, 4, 0], 12, 0) == 1;
    MergeStep(c, [8, 14, 4, 0], 12, 1);
    assert c.heap.next[8 := 12] == Links(12, 4);
    assert c.heap.len[12 := 4] == Lengths(7, 4);
  }

  /** What the program does in the run: requests for one to four bytes, and releases of recognised pointers. */
  ghost predicate Ordinary(op: Op) {
    match op
    case Allocates(nelems) => forall bytes, size | 1 <= bytes <= 4 && size >= 8 :: nelems == AllocSize(bytes, size)
    case Releases(cp) => IsFallbackPtr(16, cp + 1)
    case Writes(_, _, _) => false
  }

  lemma SmallRequest(bytes: nat, size: nat)
    requires 1 <= bytes <= 4 && size >= 8
    ensures AllocSize(bytes, size) == 2
  {
  }

  lemma AllOrdinary()
    ensures forall i | 0 <= i < 11 :: Ordinary(Ops()[i])
  {
    hide AllocSize;
    forall bytes, size | 1 <= bytes <= 4 && size >= 8
      ensures AllocSize(bytes, size) == 2
    {
      SmallRequest(bytes, size);
    }
  }

  /**
   Seven requests for one to four bytes fill the heap; cells 4, 14 and 8 are freed, which makes the list 8, 14, 4, 0;
   freeing cell 12 then absorbs cell 14 from the middle of the list, and cell 4 is lost.
   */
  lemma BrokenRun()
    ensures
      var cs, ops, frees := Configs(), Ops(), Lists();
      && Run(16, cs, ops, frees) && (forall i | 0 <= i < |ops| :: Ordinary(ops[i]))
      && WellFormed(cs[10].heap, cs[10].used) && !WellFormed(cs[11].heap, cs[11].used)
  {
    hide Step, Loses, ConfigAt, OpAt, ListAt, WellFormed, Fresh, Configs, Ops, Lists, Ordinary;
    var cs, ops, frees := Configs(), Ops(), Lists();
    forall i | 0 <= i < 11
      ensures Step(cs[i], ops[i], cs[i + 1], frees[i])
      ensures i < 10 ==> !Loses(cs[i], ops[i], frees[i])
    {
      if i < 7 {
        RequestAt(i);
      } else if i == 7 {
        PushAt7();
      } else if i == 8 {
        PushAt8();
      } else if i == 9 {
        PushAt9();
      } else {
        MergeAt10();
      }
    }
    FreshAt0();
    MergeAt10();
    AllOrdinary();
    RunExact(16, cs, ops, frees, 10);
  }

  lemma RequestAt(i: nat)
    requires i < 7
    ensures Step(ConfigAt(i), OpAt(i), ConfigAt(i + 1), ListAt(i)) && !Loses(ConfigAt(i), OpAt(i), ListAt(i))
  {
    RequestStep(i);
  }

  lemma FreshAt0()
    ensures Fresh(16, ConfigAt(0))
  {
    assert ConfigAt(0) == Config(InitHeap(16, Links(0, 0), seq(16, i => 0)), {});
  }
}
