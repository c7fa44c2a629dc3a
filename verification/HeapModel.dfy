/**
 The emergency heap of fallback_malloc.cpp as a value: what a well-formed heap is, what each
 allocation and release does to the node cells, and which of those steps keep it well formed.

 The heap is n cells.  A cell that starts a chunk holds the chunk's length and, for a free chunk,
 the offset of the next free chunk; n stands for list_end.
 */
module HeapModel {
  import opened Common

  datatype Heap = Heap(n: nat, head: nat, next: seq<nat>, len: seq<nat>)

  ghost predicate Shape(s: Heap) {
    |s.next| == |s.len| == s.n && 0 < s.n
  }

  // ----- well-formed heaps

  /** Node k of the free list, or list_end past its last node. */
  function NodeAt(n: nat, free: seq<nat>, k: nat): nat {
    if k < |free| then free[k] else n
  }

  /** Following next_node from freelist visits exactly these nodes and stops at list_end. */
  ghost predicate Chain(s: Heap, free: seq<nat>)
    requires Shape(s)
  {
    && (forall k | 0 <= k < |free| :: free[k] < s.n)
    && s.head == NodeAt(s.n, free, 0)
    && (forall k {:trigger s.next[free[k]]} | 0 <= k < |free| :: s.next[free[k]] == NodeAt(s.n, free, k + 1))
  }

  /** The chunks lie one after another from cell 0 to the end of the heap. */
  ghost predicate Tiles(n: nat, len: seq<nat>, chunks: set<nat>)
    requires |len| == n
  {
    && 0 in chunks
    && (forall c | c in chunks :: c < n)
    && (forall c {:trigger len[c]} | c in chunks :: 0 < len[c] && (c + len[c] == n || c + len[c] in chunks))
    && (forall c, d {:trigger len[c], d in chunks} | c in chunks && d in chunks && c < d :: c + len[c] <= d)
  }

  function Nodes(free: seq<nat>): set<nat> {
    set c | c in free
  }

  /** free is the free list, used the set of chunks that are handed out, and together they tile the heap. */
  ghost predicate WellFormedWith(s: Heap, free: seq<nat>, used: set<nat>)
    requires Shape(s)
  {
    && Chain(s, free) && Distinct(free)
    && Nodes(free) !! used
    && Tiles(s.n, s.len, Nodes(free) + used)
    && (forall c | c in used :: c < s.n && s.next[c] == 0)
  }

  ghost predicate WellFormed(s: Heap, used: set<nat>) {
    Shape(s) && exists free :: WellFormedWith(s, free, used)
  }

  // ----- what tiling means

  /** Every cell belongs to a chunk, and to one only. */
  lemma TilesCover(n: nat, len: seq<nat>, chunks: set<nat>, u: nat)
    requires |len| == n && Tiles(n, len, chunks) && u < n
    ensures exists c :: c in chunks && c <= u < c + len[c]
    ensures forall c, d :: c in chunks && d in chunks && c <= u < c + len[c] && d <= u < d + len[d] ==> c == d
  {
    var c := 0;
    while c + len[c] <= u
      invariant c in chunks && c <= u
      decreases u - c
    {
      c := c + len[c];
    }
  }

  /** The total length of the chunks that start before cell m. */
  ghost function Total(len: seq<nat>, chunks: set<nat>, m: nat): nat
    requires m <= |len|
  {
    if m == 0 then 0 else Total(len, chunks, m - 1) + if m - 1 in chunks then len[m - 1] else 0
  }

  /** Chunk lengths add up to the size of the heap. */
  lemma TotalLength(n: nat, len: seq<nat>, chunks: set<nat>)
    requires |len| == n && Tiles(n, len, chunks)
    ensures Total(len, chunks, n) == n
  {
    var c := 0;
    while c < n
      invariant c == n || c in chunks
      invariant Total(len, chunks, c) == c <= n
      decreases n - c
    {
      assert 0 < len[c] && c + len[c] <= n;
      TotalSkip(n, len, chunks, c, c + len[c]);
      c := c + len[c];
    }
  }

  lemma {:induction false} TotalSkip(n: nat, len: seq<nat>, chunks: set<nat>, c: nat, m: nat)
    requires |len| == n && Tiles(n, len, chunks) && c in chunks && c < m <= c + len[c] && c + len[c] <= n
    ensures Total(len, chunks, m) == Total(len, chunks, c) + len[c]
  {
    if m > c + 1 {
      TotalSkip(n, len, chunks, c, m - 1);
      assert m - 1 !in chunks;
    }
  }

  lemma TilesMerge(n: nat, len: seq<nat>, len': seq<nat>, chunks: set<nat>, a: nat, b: nat)
    requires |len| == n && Tiles(n, len, chunks)
    requires a in chunks && b in chunks && a + len[a] == b
    requires len' == len[a := len[a] + len[b]]
    ensures Tiles(n, len', chunks - {b})
  {
    forall c | c in chunks - {b}
      ensures c < n && 0 < len'[c] && (c + len'[c] == n || c + len'[c] in chunks - {b})
    {
      assert c < a ==> c + len[c] <= a;
      assert c > a ==> b <= c;
      assert b < n && 0 < len[b];
    }
    forall c, d | c in chunks - {b} && d in chunks - {b} && c < d
      ensures c + len'[c] <= d
    {
      assert c + len[c] <= d;
      assert c == a ==> b < d && b + len[b] <= d;
    }
  }

  lemma TilesSplit(n: nat, len: seq<nat>, len': seq<nat>, chunks: set<nat>, a: nat, b: nat)
    requires |len| == n && Tiles(n, len, chunks)
    requires a in chunks && a < b < a + len[a]
    requires a + len[a] <= n && len' == len[a := b - a][b := a + len[a] - b]
    ensures b < n && b !in chunks && Tiles(n, len', chunks + {b})
  {
    assert a + len[a] <= n;
    forall c | c in chunks + {b}
      ensures c < n && 0 < len'[c] && (c + len'[c] == n || c + len'[c] in chunks + {b})
    {
      assert c != b ==> c + len[c] == n || c + len[c] in chunks;
    }
    forall c, d | c in chunks + {b} && d in chunks + {b} && c < d
      ensures c + len'[c] <= d
    {
      assert c in chunks && c > a ==> a + len[a] <= c;
      assert c in chunks && c < a ==> c + len[c] <= a;
      if c == b {
        assert d != b && a + len[a] <= d;
      } else if d != b {
        assert c + len[c] <= d;
      }
    }
  }

  lemma ChunkEnds(n: nat, len: seq<nat>, chunks: set<nat>, c: nat)
    requires |len| == n && Tiles(n, len, chunks) && c in chunks
    ensures c + len[c] <= n
  {
  }

  // ----- the state after init_heap

  function InitHeap(n: nat, next: seq<nat>, len: seq<nat>): Heap
    requires |next| == |len| == n > 0
  {
    Heap(n, 0, next[0 := n], len[0 := n])
  }

  lemma InitWellFormed(n: nat, next: seq<nat>, len: seq<nat>)
    requires |next| == |len| == n > 0
    ensures WellFormedWith(InitHeap(n, next, len), [0], {})
  {
    var s := InitHeap(n, next, len);
    assert Nodes([0]) + {} == {0};
  }

  // ----- allocation

  /** The first node of the list, from node k on, whose chunk is large enough; |free| if there is none. */
  function FirstFit(len: seq<nat>, free: seq<nat>, nelems: nat, k: nat): (r: nat)
    requires forall i | 0 <= i < |free| :: free[i] < |len|
    requires k <= |free|
    ensures k <= r <= |free|
    ensures r < |free| ==> len[free[r]] >= nelems
    ensures forall i | k <= i < r :: len[free[i]] < nelems
    decreases |free| - k
  {
    if k == |free| || len[free[k]] >= nelems then k else FirstFit(len, free, nelems, k + 1)
  }

  /** The list without its node k: the predecessor, or freelist, takes over its link. */
  function Unlink(s: Heap, free: seq<nat>, k: nat): Heap
    requires |s.next| == s.n && k < |free| && forall i | 0 <= i < |free| :: free[i] < s.n
  {
    var p := free[k];
    if k == 0 then s.(head := s.next[p], next := s.next[p := 0])
    else s.(next := s.next[free[k - 1] := s.next[p]][p := 0])
  }

  /** A larger chunk is shortened and its tail handed out; a chunk that fits exactly is unlinked. */
  function Allocate(s: Heap, free: seq<nat>, nelems: nat): (Heap, nat)
    requires |s.next| == |s.len| == s.n && forall i | 0 <= i < |free| :: free[i] < s.n
    requires nelems > 0 && FirstFit(s.len, free, nelems, 0) < |free|
    requires forall i | 0 <= i < |free| :: free[i] + s.len[free[i]] <= s.n
  {
    var k := FirstFit(s.len, free, nelems, 0);
    var p := free[k];
    if s.len[p] > nelems then
      var q := p + (s.len[p] - nelems);
      (s.(len := s.len[p := s.len[p] - nelems][q := nelems], next := s.next[q := 0]), q)
    else
      (Unlink(s, free, k), p)
  }

  lemma ChainBounds(s: Heap, free: seq<nat>, used: set<nat>)
    requires Shape(s) && WellFormedWith(s, free, used)
    ensures forall i | 0 <= i < |free| :: free[i] < s.n && free[i] + s.len[free[i]] <= s.n && 0 < s.len[free[i]]
    ensures forall c | c in used :: c < s.n && c + s.len[c] <= s.n && 0 < s.len[c]
    ensures s.head <= s.n
  {
    forall i | 0 <= i < |free|
      ensures free[i] < s.n && free[i] + s.len[free[i]] <= s.n && 0 < s.len[free[i]]
    {
      assert free[i] in Nodes(free);
      ChunkEnds(s.n, s.len, Nodes(free) + used, free[i]);
    }
    forall c | c in used
      ensures c < s.n && c + s.len[c] <= s.n && 0 < s.len[c]
    {
      ChunkEnds(s.n, s.len, Nodes(free) + used, c);
    }
  }

  lemma SplitKeeps(s: Heap, free: seq<nat>, used: set<nat>, k: nat, nelems: nat)
    requires Shape(s) && WellFormedWith(s, free, used)
    requires k < |free| && free[k] < s.n && 0 < nelems < s.len[free[k]] && free[k] + s.len[free[k]] <= s.n
    ensures
      var p := free[k];
      var q := p + (s.len[p] - nelems);
      && q < s.n && q !in used && q !in free
      && WellFormedWith(s.(len := s.len[p := s.len[p] - nelems][q := nelems], next := s.next[q := 0]), free, used + {q})
  {
    hide Tiles;
    var p := free[k];
    var q := p + (s.len[p] - nelems);
    assert p in Nodes(free);
    var s' := s.(len := s.len[p := s.len[p] - nelems][q := nelems], next := s.next[q := 0]);
    TilesSplit(s.n, s.len, s'.len, Nodes(free) + used, p, q);
    assert Nodes(free) + used + {q} == Nodes(free) + (used + {q});
    assert q !in Nodes(free);
    assert Chain(s', free);
  }

  function Without(free: seq<nat>, k: nat): (r: seq<nat>)
    requires k < |free|
    ensures |r| == |free| - 1
    ensures forall i {:trigger r[i]} | 0 <= i < |r| :: r[i] == if i < k then free[i] else free[i + 1]
  {
    free[..k] + free[k + 1..]
  }

  lemma WithoutNodes(free: seq<nat>, k: nat)
    requires Distinct(free) && k < |free|
    ensures Distinct(Without(free, k))
    ensures Nodes(Without(free, k)) == Nodes(free) - {free[k]}
  {
    var free' := Without(free, k);
    forall c | c in free && c != free[k]
      ensures c in free'
    {
      var i :| 0 <= i < |free| && free[i] == c;
      assert free'[if i < k then i else i - 1] == c;
    }
  }

  lemma UnlinkChain(s: Heap, free: seq<nat>, k: nat)
    requires Shape(s) && Chain(s, free) && Distinct(free) && k < |free|
    ensures Chain(Unlink(s, free, k), Without(free, k))
  {
    var free' := Without(free, k);
    var s' := Unlink(s, free, k);
    assert s.next[free[k]] == NodeAt(s.n, free, k + 1);
    forall i | 0 <= i < |free'|
      ensures s'.next[free'[i]] == NodeAt(s.n, free', i + 1)
    {
      var j := if i < k then i else i + 1;
      assert free'[i] == free[j] && free[j] != free[k];
      assert s.next[free[j]] == NodeAt(s.n, free, j + 1);
      if k > 0 && j != k - 1 {
        assert free[j] != free[k - 1];
      }
    }
  }

  lemma UnlinkKeeps(s: Heap, free: seq<nat>, used: set<nat>, k: nat)
    requires Shape(s) && WellFormedWith(s, free, used) && k < |free|
    requires forall i | 0 <= i < |free| :: free[i] < s.n
    ensures free[k] !in used
    ensures WellFormedWith(Unlink(s, free, k), Without(free, k), used + {free[k]})
  {
    hide Tiles;
    UnlinkChain(s, free, k);
    WithoutNodes(free, k);
    hide Chain, Distinct, Nodes;
    var free' := Without(free, k);
    assert free[k] in Nodes(free) by { NodesMember(free, k); }
    assert Nodes(free') + (used + {free[k]}) == Nodes(free) + used;
    if k > 0 {
      NodesMember(free, k - 1);
    }
  }

  lemma NodesMember(free: seq<nat>, k: nat)
    requires k < |free|
    ensures free[k] in Nodes(free)
  {
  }

  /** A request is served exactly when some free chunk is large enough, from the first such chunk of the list. */
  lemma AllocateKeeps(s: Heap, free: seq<nat>, used: set<nat>, nelems: nat)
    requires Shape(s) && WellFormedWith(s, free, used) && nelems > 0
    requires FirstFit(s.len, free, nelems, 0) < |free|
    ensures forall i | 0 <= i < |free| :: free[i] + s.len[free[i]] <= s.n
    ensures
      var (s', q) := Allocate(s, free, nelems);
      && q !in used && q < s.n && s'.len[q] == nelems
      && WellFormed(s', used + {q})
      && forall c | c in used :: s'.len[c] == s.len[c]
  {
    hide Tiles, Chain, Distinct;
    ChainBounds(s, free, used);
    var k := FirstFit(s.len, free, nelems, 0);
    var (s', q) := Allocate(s, free, nelems);
    assert free[k] in Nodes(free);
    if s.len[free[k]] > nelems {
      SplitKeeps(s, free, used, k, nelems);
    } else {
      UnlinkKeeps(s, free, used, k);
    }
  }

  // ----- release

  /** The first node of the list, from node k on, that ends where cp starts or starts where cp ends. */
  function FirstNeighbour(len: seq<nat>, free: seq<nat>, cp: nat, k: nat): (r: nat)
    requires cp < |len| && forall i | 0 <= i < |free| :: free[i] < |len|
    requires k <= |free|
    ensures k <= r <= |free|
    ensures r < |free| ==> free[r] + len[free[r]] == cp || cp + len[cp] == free[r]
    ensures forall i | k <= i < r :: free[i] + len[free[i]] != cp && cp + len[cp] != free[i]
    decreases |free| - k
  {
    if k == |free| || free[k] + len[free[k]] == cp || cp + len[cp] == free[k] then k
    else FirstNeighbour(len, free, cp, k + 1)
  }

  /** cp absorbs list node k, which is not the first, and takes its place behind its predecessor. */
  function MergeMidList(s: Heap, free: seq<nat>, cp: nat, k: nat): Heap
    requires |s.next| == |s.len| == s.n && cp < s.n && forall i | 0 <= i < |free| :: free[i] < s.n
    requires 0 < k < |free|
  {
    s.(len := s.len[cp := s.len[cp] + s.len[free[k]]], next := s.next[free[k - 1] := cp])
  }

  /** fallback_free as written: the mid-list merge leaves cp->next_node alone. */
  function Release(s: Heap, free: seq<nat>, cp: nat): Heap
    requires |s.next| == |s.len| == s.n && cp < s.n && forall i | 0 <= i < |free| :: free[i] < s.n
  {
    var k := FirstNeighbour(s.len, free, cp, 0);
    if k == |free| then
      s.(next := s.next[cp := s.head], head := cp)
    else
      var p := free[k];
      if p + s.len[p] == cp then
        s.(len := s.len[p := s.len[p] + s.len[cp]])
      else if k == 0 then
        s.(len := s.len[cp := s.len[cp] + s.len[p]], head := cp, next := s.next[cp := s.next[p]])
      else
        MergeMidList(s, free, cp, k)
  }

  /** The same with the missing assignment: the mid-list merge also copies the absorbed node's link. */
  function ReleaseRepaired(s: Heap, free: seq<nat>, cp: nat): Heap
    requires |s.next| == |s.len| == s.n && cp < s.n && forall i | 0 <= i < |free| :: free[i] < s.n
  {
    var k := FirstNeighbour(s.len, free, cp, 0);
    if 0 < k < |free| && free[k] + s.len[free[k]] != cp then
      s.(len := s.len[cp := s.len[cp] + s.len[free[k]]], next := s.next[free[k - 1] := cp][cp := s.next[free[k]]])
    else
      Release(s, free, cp)
  }

  /** cp is merged in front of a list node that is not the first and whose link is not 0. */
  ghost predicate LosesTail(s: Heap, free: seq<nat>, cp: nat)
    requires |s.next| == |s.len| == s.n && cp < s.n && forall i | 0 <= i < |free| :: free[i] < s.n
  {
    var k := FirstNeighbour(s.len, free, cp, 0);
    0 < k < |free| && free[k] + s.len[free[k]] != cp && s.next[free[k]] != 0
  }

  lemma PushKeeps(s: Heap, free: seq<nat>, used: set<nat>, cp: nat)
    requires Shape(s) && WellFormedWith(s, free, used) && cp in used
    ensures WellFormedWith(s.(next := s.next[cp := s.head], head := cp), [cp] + free, used - {cp})
  {
    hide Tiles;
    var free' := [cp] + free;
    forall k | 0 <= k < |free'|
      ensures free'[k] == if k == 0 then cp else free[k - 1]
    {
    }
    assert forall k | 0 <= k < |free| :: free[k] in Nodes(free);
    assert Nodes(free') == Nodes(free) + {cp};
    assert Nodes(free') + (used - {cp}) == Nodes(free) + used;
  }

  lemma AppendKeeps(s: Heap, free: seq<nat>, used: set<nat>, cp: nat, k: nat)
    requires Shape(s) && WellFormedWith(s, free, used) && cp in used
    requires k < |free| && free[k] + s.len[free[k]] == cp
    ensures WellFormedWith(s.(len := s.len[free[k] := s.len[free[k]] + s.len[cp]]), free, used - {cp})
  {
    hide Tiles;
    assert free[k] in Nodes(free);
    TilesMerge(s.n, s.len, s.len[free[k] := s.len[free[k]] + s.len[cp]], Nodes(free) + used, free[k], cp);
    assert Nodes(free) + used - {cp} == Nodes(free) + (used - {cp});
  }

  lemma ReplaceNodes(free: seq<nat>, cp: nat, k: nat)
    requires Distinct(free) && k < |free| && cp !in free
    ensures Distinct(free[k := cp])
    ensures Nodes(free[k := cp]) == Nodes(free) - {free[k]} + {cp}
  {
    var free' := free[k := cp];
    forall c | c in free && c != free[k]
      ensures c in free'
    {
      var i :| 0 <= i < |free| && free[i] == c;
      assert free'[i] == c;
    }
    assert free'[k] == cp;
  }

  lemma ReplaceChain(s: Heap, free: seq<nat>, cp: nat, k: nat, s': Heap)
    requires Shape(s) && Shape(s') && Chain(s, free) && Distinct(free) && k < |free| && cp < s.n && cp !in free
    requires s'.n == s.n && s'.head == (if k == 0 then cp else s.head)
    requires forall i | 0 <= i < |free| :: free[i] < s.n
    requires s'.next == if k == 0 then s.next[cp := s.next[free[k]]]
                        else s.next[free[k - 1] := cp][cp := s.next[free[k]]]
    ensures Chain(s', free[k := cp])
  {
    var free' := free[k := cp];
    assert s.next[free[k]] == NodeAt(s.n, free, k + 1);
    forall i | 0 <= i < |free'|
      ensures s'.next[free'[i]] == NodeAt(s.n, free', i + 1)
    {
      assert s.next[free[i]] == NodeAt(s.n, free, i + 1);
      if k > 0 && i != k - 1 {
        assert free[i] != free[k - 1];
      }
    }
  }

  /** The list with cp in the place of its node k, linked as that node was. */
  lemma ReplaceKeeps(s: Heap, free: seq<nat>, used: set<nat>, cp: nat, k: nat, s': Heap)
    requires Shape(s) && Shape(s') && WellFormedWith(s, free, used) && cp in used && cp < s.n
    requires forall i | 0 <= i < |free| :: free[i] < s.n
    requires k < |free| && cp + s.len[cp] == free[k]
    requires s'.n == s.n && s'.len == s.len[cp := s.len[cp] + s.len[free[k]]]
    requires s'.head == if k == 0 then cp else s.head
    requires s'.next == if k == 0 then s.next[cp := s.next[free[k]]]
                        else s.next[free[k - 1] := cp][cp := s.next[free[k]]]
    ensures WellFormedWith(s', free[k := cp], used - {cp})
  {
    hide Tiles;
    var p := free[k];
    NodesMember(free, k);
    assert cp !in free by {
      assert cp !in Nodes(free);
    }
    ReplaceChain(s, free, cp, k, s');
    ReplaceNodes(free, cp, k);
    TilesMerge(s.n, s.len, s'.len, Nodes(free) + used, cp, p);
    if k > 0 {
      NodesMember(free, k - 1);
    }
    hide Chain, Distinct, Nodes;
    assert Nodes(free[k := cp]) + (used - {cp}) == Nodes(free) + used - {p};
  }

  /** Every path of fallback_free except the losing one keeps the heap well formed. */
  lemma ReleaseKeeps(s: Heap, free: seq<nat>, used: set<nat>, cp: nat)
    requires Shape(s) && WellFormedWith(s, free, used) && cp in used && cp < s.n
    requires forall i | 0 <= i < |free| :: free[i] < s.n
    requires !LosesTail(s, free, cp)
    ensures WellFormed(Release(s, free, cp), used - {cp})
  {
    hide Tiles, Chain, Distinct, NodeAt;
    var k := FirstNeighbour(s.len, free, cp, 0);
    var s' := Release(s, free, cp);
    if k == |free| {
      PushKeeps(s, free, used, cp);
    } else if free[k] + s.len[free[k]] == cp {
      AppendKeeps(s, free, used, cp, k);
    } else {
      if k > 0 {
        NodesMember(free, k - 1);
        assert s.next[cp] == 0 && free[k - 1] != cp;
        assert s'.next == s.next[free[k - 1] := cp][cp := s.next[free[k]]];
      }
      ReplaceKeeps(s, free, used, cp, k, s');
    }
  }

  /** With the link copied, every path keeps the heap well formed. */
  lemma ReleaseRepairedKeeps(s: Heap, free: seq<nat>, used: set<nat>, cp: nat)
    requires Shape(s) && WellFormedWith(s, free, used) && cp in used && cp < s.n
    requires forall i | 0 <= i < |free| :: free[i] < s.n
    ensures WellFormed(ReleaseRepaired(s, free, cp), used - {cp})
  {
    hide Tiles, Chain, Distinct, NodeAt;
    var k := FirstNeighbour(s.len, free, cp, 0);
    if 0 < k < |free| && free[k] + s.len[free[k]] != cp {
      ReplaceKeeps(s, free, used, cp, k, ReleaseRepaired(s, free, cp));
    } else {
      ReleaseKeeps(s, free, used, cp);
    }
  }

  /** Two lists that follow the same links agree. */
  lemma {:induction false} ChainAgree(s: Heap, free: seq<nat>, s': Heap, free': seq<nat>, i: nat)
    requires Shape(s) && Shape(s') && s'.n == s.n && Chain(s, free) && Chain(s', free')
    requires i <= |free| && s'.head == s.head
    requires forall j | 0 <= j < i :: s'.next[free[j]] == s.next[free[j]]
    ensures i <= |free'| && NodeAt(s.n, free', i) == NodeAt(s.n, free, i)
    ensures forall j | 0 <= j < i :: free'[j] == free[j]
  {
    if i > 0 {
      ChainAgree(s, free, s', free', i - 1);
      assert free[i - 1] < s.n;
      assert free'[i - 1] == free[i - 1];
      assert s'.next[free'[i - 1]] == NodeAt(s.n, free', i);
      assert s.next[free[i - 1]] == NodeAt(s.n, free, i);
    }
  }

  /** A heap has one free list only. */
  lemma ChainUnique(s: Heap, free: seq<nat>, free': seq<nat>)
    requires Shape(s) && Chain(s, free) && Chain(s, free')
    ensures free == free'
  {
    ChainAgree(s, free, s, free', |free|);
  }

  lemma SameTails(free: seq<nat>, free': seq<nat>, a: nat, b: nat)
    requires a < |free'| && b < |free| && free'[a] == free[b] && free'[a + 1..] == free[b + 1..]
    ensures free'[a..] == free[b..]
  {
    assert free'[a..] == [free'[a]] + free'[a + 1..];
    assert free[b..] == [free[b]] + free[b + 1..];
  }

  lemma {:induction false} TailAgree(s: Heap, free: seq<nat>, s': Heap, free': seq<nat>, a: nat, b: nat)
    requires Shape(s) && Shape(s') && s'.n == s.n && Chain(s, free) && Chain(s', free')
    requires a <= |free'| && b <= |free| && NodeAt(s.n, free', a) == NodeAt(s.n, free, b)
    requires forall j | b <= j < |free| :: s'.next[free[j]] == s.next[free[j]]
    ensures free'[a..] == free[b..]
    decreases |free| - b
  {
    if b < |free| {
      assert a < |free'| && free'[a] == free[b];
      assert s.next[free[b]] == NodeAt(s.n, free, b + 1);
      assert s'.next[free'[a]] == NodeAt(s.n, free', a + 1);
      TailAgree(s, free, s', free', a + 1, b + 1);
      SameTails(free, free', a, b);
    }
  }

  /** cp is in use, list node k starts where cp ends, and that node's link is not 0. */
  ghost predicate Losing(s: Heap, free: seq<nat>, used: set<nat>, cp: nat, k: nat) {
    && Shape(s) && Chain(s, free) && Distinct(free) && Nodes(free) !! used && cp in used && cp < s.n
    && (forall i | 0 <= i < |free| :: free[i] < s.n)
    && 0 < k < |free| && cp + s.len[cp] == free[k] && s.next[free[k]] != 0 && s.next[cp] == 0
  }

  /** The free list after the losing merge: the nodes before p, then cp, then cell 0. */
  lemma LosingChain(s: Heap, free: seq<nat>, used: set<nat>, cp: nat, k: nat, free': seq<nat>)
    requires Losing(s, free, used, cp, k) && Chain(MergeMidList(s, free, cp, k), free')
    ensures k + 1 < |free'| && free'[k] == cp && free'[k + 1] == 0
    ensures forall i | 0 <= i < k :: free'[i] == free[i]
  {
    var s' := MergeMidList(s, free, cp, k);
    forall j | 0 <= j < k - 1
      ensures s'.next[free[j]] == s.next[free[j]]
    {
      assert free[j] != free[k - 1];
    }
    NodesMember(free, k - 1);
    ChainAgree(s, free, s', free', k - 1);
    assert free'[k - 1] == free[k - 1];
    assert s'.next[free'[k - 1]] == NodeAt(s.n, free', k);
    assert s'.next[free'[k]] == NodeAt(s.n, free', k + 1);
  }

  /** When cell 0 is on the list behind p, the list goes on from there and p's successor is skipped. */
  lemma LostChunks(s: Heap, free: seq<nat>, used: set<nat>, cp: nat, k: nat, free': seq<nat>, j: nat)
    requires Losing(s, free, used, cp, k) && Chain(MergeMidList(s, free, cp, k), free')
    requires k + 1 < j < |free| && free[j] == 0
    ensures free[k + 1] !in free' && free[k + 1] !in used
    ensures forall c | c in free' :: c in Nodes(free) + used
  {
    var s' := MergeMidList(s, free, cp, k);
    LosingChain(s, free, used, cp, k, free');
    forall i | j <= i < |free|
      ensures s'.next[free[i]] == s.next[free[i]]
    {
      assert free[i] != free[k - 1];
    }
    TailAgree(s, free, s', free', k + 1, j);
    NodesMember(free, k + 1);
    SplicedNodes(free, k, cp, free', j);
  }

  lemma SplicedNodes(free: seq<nat>, k: nat, cp: nat, free': seq<nat>, j: nat)
    requires Distinct(free) && cp !in free && k + 1 < j < |free| && k < |free'|
    requires free'[..k] == free[..k] && free'[k] == cp && free'[k + 1..] == free[j..]
    ensures free[k + 1] !in free'
    ensures forall c | c in free' :: c in free || c == cp
  {
    forall i | 0 <= i < |free'|
      ensures free'[i] != free[k + 1] && (free'[i] in free || free'[i] == cp)
    {
      if i < k {
        assert free'[i] == free'[..k][i] == free[i];
      } else if i > k {
        assert free'[i] == free'[k + 1..][i - (k + 1)] == free[j + (i - (k + 1))];
      }
    }
  }

  /** The successor of the absorbed node is in no chunk any more. */
  lemma LostNode(s: Heap, free: seq<nat>, used: set<nat>, cp: nat, k: nat, free': seq<nat>, j: nat)
    requires Losing(s, free, used, cp, k) && Chain(MergeMidList(s, free, cp, k), free')
    requires Tiles(s.n, s.len, Nodes(free) + used)
    requires k + 1 < j < |free| && free[j] == 0
    ensures !Tiles(s.n, MergeMidList(s, free, cp, k).len, Nodes(free') + (used - {cp}))
  {
    var len' := MergeMidList(s, free, cp, k).len;
    var p, y := free[k], free[k + 1];
    var chunks' := Nodes(free') + (used - {cp});
    LostChunks(s, free, used, cp, k, free', j);
    NodesMember(free, k);
    NodesMember(free, k + 1);
    forall c | c in chunks'
      ensures !(c <= y < c + len'[c])
    {
      assert c in Nodes(free) + used && c != y;
      assert c < y ==> c + s.len[c] <= y;
      assert y > cp ==> y >= p && y != p;
      assert p < y ==> p + s.len[p] <= y;
    }
    if Tiles(s.n, len', chunks') {
      TilesCover(s.n, len', chunks', y);
      assert false;
    }
  }

  /** After the losing merge no free list tiles the heap together with the chunks still in use. */
  lemma ReleaseBreaks(s: Heap, free: seq<nat>, used: set<nat>, cp: nat, k: nat, free': seq<nat>)
    requires Losing(s, free, used, cp, k) && Tiles(s.n, s.len, Nodes(free) + used)
    ensures !WellFormedWith(MergeMidList(s, free, cp, k), free', used - {cp})
  {
    var s' := MergeMidList(s, free, cp, k);
    if Chain(s', free') && Distinct(free') && Nodes(free') !! used - {cp} {
      LosingChain(s, free, used, cp, k, free');
      NodesMember(free', k + 1);
      assert cp == free'[k] != free'[k + 1] == 0;
      assert 0 in Nodes(free) + used;
      var j :| 0 <= j < |free| && free[j] == 0;
      assert s.next[free[k]] == NodeAt(s.n, free, k + 1);
      assert forall i | 0 <= i < k :: free'[i] != free'[k + 1];
      LostNode(s, free, used, cp, k, free', j);
    }
  }

  /**
   fallback_free on a chunk that is in use keeps the heap well formed exactly when it does not merge
   the chunk in front of a later list node whose own link is not 0.
   */
  lemma ReleaseExact(s: Heap, free: seq<nat>, used: set<nat>, cp: nat)
    requires Shape(s) && WellFormedWith(s, free, used) && cp in used
    ensures cp < s.n && forall i | 0 <= i < |free| :: free[i] < s.n
    ensures WellFormed(Release(s, free, cp), used - {cp}) <==> !LosesTail(s, free, cp)
  {
    ChainBounds(s, free, used);
    if LosesTail(s, free, cp) {
      var k := FirstNeighbour(s.len, free, cp, 0);
      forall free'
        ensures !WellFormedWith(Release(s, free, cp), free', used - {cp})
      {
        ReleaseBreaks(s, free, used, cp, k, free');
      }
    } else {
      ReleaseKeeps(s, free, used, cp);
    }
  }
}
