/**
 The chained hash tables of debug.cpp, one for containers and one for iterators: buckets of nodes, newest
 first, each node standing for the address that is its key.
 */
module HashTable {

  type Buckets = seq<seq<nat>>

  /** The keys of all nodes. */
  function Contents(t: Buckets): multiset<nat> {
    if t == [] then multiset{} else Contents(t[..|t| - 1]) + multiset(t[|t| - 1])
  }

  /** Every node sits in the bucket of its hash. */
  ghost predicate Placed(t: Buckets, hash: nat -> nat) {
    forall b | 0 <= b < |t| :: InBucket(t, hash, b)
  }

  ghost predicate InBucket(t: Buckets, hash: nat -> nat, b: nat)
    requires b < |t|
  {
    forall k | k in t[b] :: hash(k) % |t| == b
  }

  /** The table with its node count. */
  ghost predicate TableOk(t: Buckets, hash: nat -> nat, size: nat) {
    Placed(t, hash) && size == |Contents(t)| <= |t|
  }

  lemma ContentsSnoc(t: Buckets, chain: seq<nat>)
    ensures Contents(t + [chain]) == Contents(t) + multiset(chain)
  {
    assert (t + [chain])[..|t|] == t;
  }

  /** Taking the same nodes away. */
  lemma Cancel(a: multiset<nat>, b: multiset<nat>, m: multiset<nat>)
    requires a + m == b + m
    ensures a == b
  {
    forall k: nat
      ensures a[k] == b[k]
    {
      assert (a + m)[k] == (b + m)[k];
    }
  }

  lemma {:induction false} ContentsUpdate(t: Buckets, b: nat, chain: seq<nat>)
    requires b < |t|
    ensures Contents(t[b := chain]) + multiset(t[b]) == Contents(t) + multiset(chain)
  {
    hide Contents;
    var n := |t| - 1;
    ContentsSnoc(t[..n], t[n]);
    assert t == t[..n] + [t[n]];
    if b == n {
      ContentsSnoc(t[..n], chain);
      assert t[b := chain] == t[..n] + [chain];
      assert Contents(t[..n]) + multiset(chain) + multiset(t[n]) == Contents(t[..n]) + multiset(t[n]) + multiset(chain);
    } else {
      ContentsUpdate(t[..n], b, chain);
      ContentsSnoc(t[..n][b := chain], t[n]);
      assert t[b := chain] == t[..n][b := chain] + [t[n]];
      var x, y, z := Contents(t[..n][b := chain]), multiset(t[n]), multiset(t[b]);
      assert x + y + z == (x + z) + y;
      assert Contents(t[..n]) + multiset(chain) + y == (Contents(t[..n]) + y) + multiset(chain);
    }
  }

  lemma {:induction false} ContentsMember(t: Buckets, k: nat)
    ensures k in Contents(t) <==> exists b :: 0 <= b < |t| && k in t[b]
  {
    if t != [] {
      ContentsMember(t[..|t| - 1], k);
      assert forall b | 0 <= b < |t| - 1 :: t[..|t| - 1][b] == t[b];
    }
  }

  /** In a well-placed table a key is looked for in one bucket only. */
  lemma FoundInBucket(t: Buckets, hash: nat -> nat, k: nat)
    requires Placed(t, hash) && t != []
    ensures k in Contents(t) <==> k in t[hash(k) % |t|]
  {
    ContentsMember(t, k);
    if b :| 0 <= b < |t| && k in t[b] {
      assert InBucket(t, hash, b);
    }
  }

  lemma PlacedUpdate(t: Buckets, hash: nat -> nat, b: nat, chain: seq<nat>)
    requires Placed(t, hash) && b < |t| && forall k | k in chain :: hash(k) % |t| == b
    ensures Placed(t[b := chain], hash)
  {
    var t' := t[b := chain];
    forall a: nat | a < |t'|
      ensures InBucket(t', hash, a)
    {
      assert InBucket(t, hash, a);
    }
  }

  /** calloc of nc buckets. */
  function Calloc(nc: nat): (t: Buckets)
    ensures |t| == nc
  {
    seq(nc, _ => [])
  }

  lemma {:induction false} Empty(nc: nat, hash: nat -> nat)
    ensures Contents(Calloc(nc)) == multiset{} && Placed(Calloc(nc), hash)
  {
    var t := Calloc(nc);
    if nc > 0 {
      Empty(nc - 1, hash);
      assert t[..nc - 1] == Calloc(nc - 1);
      assert multiset(t[nc - 1]) == multiset{};
    }
    forall b: nat | b < nc
      ensures InBucket(t, hash, b)
    {
    }
  }

  /** A node at the front of its bucket. */
  function Push(t: Buckets, hash: nat -> nat, k: nat): Buckets
    requires t != []
  {
    var h := hash(k) % |t|;
    t[h := [k] + t[h]]
  }

  lemma PushKeeps(t: Buckets, hash: nat -> nat, k: nat)
    requires t != [] && Placed(t, hash)
    ensures Placed(Push(t, hash, k), hash) && Contents(Push(t, hash, k)) == Contents(t) + multiset{k}
  {
    hide Contents, Placed;
    var h := hash(k) % |t|;
    BucketKeys(t, hash, h);
    PlacedUpdate(t, hash, h, [k] + t[h]);
    ContentsUpdate(t, h, [k] + t[h]);
    assert multiset([k] + t[h]) == multiset{k} + multiset(t[h]);
    assert Contents(t) + (multiset{k} + multiset(t[h])) == (Contents(t) + multiset{k}) + multiset(t[h]);
    Cancel(Contents(Push(t, hash, k)), Contents(t) + multiset{k}, multiset(t[h]));
  }

  /** The loops that move every node to a larger table; the order within a bucket is reversed. */
  method Rehash(t: Buckets, hash: nat -> nat, nc: nat) returns (r: Buckets)
    requires nc > 0
    ensures |r| == nc && Placed(r, hash) && Contents(r) == Contents(t)
  {
    hide Contents, Placed, Push;
    r := Calloc(nc);
    Empty(nc, hash);
    NoBuckets();
    var p := 0;
    while p < |t|
      invariant 0 <= p <= |t| && |r| == nc && Placed(r, hash) && Contents(r) == Contents(t[..p])
    {
      var q := t[p];
      BucketEnd(t, p);
      while q != []
        invariant |r| == nc && Placed(r, hash) && Contents(r) + multiset(q) == Contents(t[..p + 1])
        decreases |q|
      {
        PushKeeps(r, hash, q[0]);
        assert q == [q[0]] + q[1..];
        PushSize(r, hash, q[0]);
        r := Push(r, hash, q[0]);
        q := q[1..];
      }
      p := p + 1;
    }
    assert t[..|t|] == t;
  }

  lemma PushSize(t: Buckets, hash: nat -> nat, k: nat)
    requires t != []
    ensures |Push(t, hash, k)| == |t|
  {
  }

  lemma NoBuckets()
    ensures Contents([]) == multiset{}
  {
  }

  lemma BucketEnd(t: Buckets, p: nat)
    requires p < |t|
    ensures Contents(t[..p + 1]) == Contents(t[..p]) + multiset(t[p])
  {
    assert t[..p + 1][..p] == t[..p];
  }

  /** What is needed of __next_prime. */
  ghost predicate Growing(nextPrime: nat -> nat) {
    forall n :: nextPrime(n) >= n
  }

  lemma GrowingAt(nextPrime: nat -> nat, n: nat)
    requires Growing(nextPrime)
    ensures nextPrime(n) >= n
  {
  }

  /** Adding a node, after growing the table to the next prime if it is full. */
  method Insert(t: Buckets, size: nat, hash: nat -> nat, nextPrime: nat -> nat, k: nat)
    returns (t': Buckets, size': nat)
    requires TableOk(t, hash, size) && Growing(nextPrime)
    ensures TableOk(t', hash, size') && t' != [] && Contents(t') == Contents(t) + multiset{k}
    ensures size' == size + 1 && |t'| == if size + 1 > |t| then nextPrime(2 * |t| + 1) else |t|
  {
    hide Contents, Placed, Push, Growing;
    t' := t;
    GrowingAt(nextPrime, 2 * |t| + 1);
    if size + 1 > |t| {
      t' := Rehash(t, hash, nextPrime(2 * |t| + 1));
    }
    PushKeeps(t', hash, k);
    PushSize(t', hash, k);
    t' := Push(t', hash, k);
    size' := size + 1;
  }

  /** Walking the chain of the bucket of k: the node's position, if it is there. */
  method Find(t: Buckets, hash: nat -> nat, k: nat) returns (found: bool, b: nat, at: nat)
    requires Placed(t, hash)
    ensures found <==> k in Contents(t)
    ensures found ==> b < |t| && b == hash(k) % |t| && at < |t[b]| && t[b][at] == k && k !in t[b][..at]
  {
    hide Contents, Placed;
    NoBuckets();
    if t == [] {
      return false, 0, 0;
    }
    FoundInBucket(t, hash, k);
    b, at := hash(k) % |t|, 0;
    while at < |t[b]| && t[b][at] != k
      invariant 0 <= at <= |t[b]| && k !in t[b][..at]
    {
      at := at + 1;
    }
    found := at < |t[b]|;
    assert !found ==> t[b][..at] == t[b];
  }

  /** Unlinking the node of k, which is there. */
  method Unlink(t: Buckets, size: nat, hash: nat -> nat, b: nat, at: nat) returns (t': Buckets, size': nat)
    requires TableOk(t, hash, size) && b < |t| && at < |t[b]|
    ensures TableOk(t', hash, size') && |t'| == |t| && Contents(t') == Contents(t) - multiset{t[b][at]}
    ensures size' == size - 1
  {
    hide Contents, Placed;
    var k, chain := t[b][at], t[b][..at] + t[b][at + 1..];
    t' := t[b := chain];
    Without(t[b], at);
    ContentsUpdate(t, b, chain);
    BucketKeys(t, hash, b);
    PlacedUpdate(t, hash, b, chain);
    assert Contents(t') + (multiset(chain) + multiset{k}) == (Contents(t') + multiset{k}) + multiset(chain);
    Cancel(Contents(t), Contents(t') + multiset{k}, multiset(chain));
    size' := size - 1;
  }

  lemma Without(s: seq<nat>, at: nat)
    requires at < |s|
    ensures multiset(s) == multiset(s[..at] + s[at + 1..]) + multiset{s[at]}
  {
    assert s == s[..at] + [s[at]] + s[at + 1..];
  }

  lemma BucketKeys(t: Buckets, hash: nat -> nat, b: nat)
    requires Placed(t, hash) && b < |t|
    ensures forall k | k in t[b] :: hash(k) % |t| == b
  {
    assert InBucket(t, hash, b);
  }
}
