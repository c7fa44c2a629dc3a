/** gslice::__init of valarray.cpp: the odometer that lists the elements of a generalised slice. */
module Gslice {
  import opened Division
  import opened Words

  // ----- mixed-radix numbers, most significant digit first

  predicate Digits(d: seq<nat>, size: seq<nat>) {
    |d| == |size| && forall j | 0 <= j < |d| :: d[j] < size[j]
  }

  /** The number with digits d in row-major order. */
  function Value(d: seq<nat>, size: seq<nat>): nat
    requires |d| == |size|
  {
    if d == [] then 0
    else
      var n := |d| - 1;
      Value(d[..n], size[..n]) * size[n] + d[n]
  }

  function Product(size: seq<nat>): nat {
    if size == [] then 1 else Product(size[..|size| - 1]) * size[|size| - 1]
  }

  /** The sum of d[j] * stride[j]. */
  function Dot(d: seq<nat>, stride: seq<nat>): nat
    requires |d| == |stride|
  {
    if d == [] then 0
    else
      var n := |d| - 1;
      Dot(d[..n], stride[..n]) + d[n] * stride[n]
  }

  predicate Positive(size: seq<nat>) {
    forall j | 0 <= j < |size| :: size[j] > 0
  }

  /** The digits of k; the leading one takes what is left over. */
  function DigitsOf(k: nat, size: seq<nat>): (d: seq<nat>)
    requires Positive(size)
    ensures |d| == |size|
    decreases |size|
  {
    if size == [] then []
    else
      var n := |size| - 1;
      DigitsOf(Quotient(k, size[n]), size[..n]) + [Mod(k, size[n])]
  }

  /** Every number below the product has exactly one row of digits. */
  lemma {:induction false} DigitsExact(k: nat, size: seq<nat>, d: seq<nat>)
    requires Positive(size)
    requires k < Product(size) && |d| == |size|
    ensures Digits(d, size) && Value(d, size) == k <==> d == DigitsOf(k, size)
    decreases |size|
  {
    hide Mod, Quotient, Digits, Value, DigitsOf, Product;
    if size == [] {
      NoDigits(k, d);
    } else {
      var n := |size| - 1;
      Unroll(k, size, d);
      var q, r := Quotient(k, size[n]), Mod(k, size[n]);
      QuotientMod(k, size[n], q, r);
      QuotientBelow(q, Product(size[..n]), size[n], r);
      DigitsExact(q, size[..n], d[..n]);
      DigitsSplit(d, size);
      if d[n] < size[n] {
        QuotientMod(k, size[n], Value(d[..n], size[..n]), d[n]);
      }
      assert d == d[..n] + [d[n]];
    }
  }

  lemma NoDigits(k: nat, d: seq<nat>)
    requires k < Product([]) && |d| == 0
    ensures Digits(d, []) && Value(d, []) == k && d == DigitsOf(k, [])
  {
  }

  lemma Unroll(k: nat, size: seq<nat>, d: seq<nat>)
    requires Positive(size) && |d| == |size| > 0
    ensures
      var n := |size| - 1;
      && Value(d, size) == Value(d[..n], size[..n]) * size[n] + d[n]
      && Product(size) == Product(size[..n]) * size[n]
      && DigitsOf(k, size) == DigitsOf(Quotient(k, size[n]), size[..n]) + [Mod(k, size[n])]
  {
  }

  lemma DigitsSplit(d: seq<nat>, size: seq<nat>)
    requires |d| == |size| > 0
    ensures Digits(d, size) <==> Digits(d[..|d| - 1], size[..|d| - 1]) && d[|d| - 1] < size[|d| - 1]
  {
  }

  lemma QuotientMod(k: nat, m: nat, q: nat, r: nat)
    requires m > 0 && r < m
    ensures k == q * m + r <==> q == Quotient(k, m) && r == Mod(k, m)
  {
    DivMod(k, m);
    if k == q * m + r {
      ModUnique(k, m, q, r);
    }
  }

  lemma QuotientBelow(q: nat, p: nat, m: nat, r: nat)
    requires q * m + r < p * m
    ensures q < p
  {
    if q >= p {
      MulMonotone(p, q, m);
    }
  }

  lemma {:induction false} ValueBelow(d: seq<nat>, size: seq<nat>)
    requires Digits(d, size)
    ensures Value(d, size) < Product(size)
  {
    if d != [] {
      var n := |d| - 1;
      ValueBelow(d[..n], size[..n]);
      MulMonotone(Value(d[..n], size[..n]) + 1, Product(size[..n]), size[n]);
      Distribute(Value(d[..n], size[..n]), 1, size[n]);
    }
  }

  // ----- the carry

  /** d with digit i one higher and zeros after it. */
  function Carry(d: seq<nat>, i: nat): seq<nat>
    requires i < |d|
  {
    d[..i] + [d[i] + 1] + seq(|d| - i - 1, _ => 0)
  }

  /** What the strides of the digits between i and n lose when these go from their last value to zero. */
  function Lost(size: seq<nat>, stride: seq<nat>, i: nat, n: nat): int
    requires i < n <= |size| == |stride|
  {
    if n == i + 1 then 0 else Lost(size, stride, i, n - 1) + stride[n - 1] * (size[n - 1] as int - 1)
  }

  /** The digits after i are at their last values. */
  predicate Full(d: seq<nat>, size: seq<nat>, i: nat)
    requires |d| == |size|
  {
    forall j | i < j < |d| :: d[j] + 1 == size[j]
  }

  lemma CarryPrefix(d: seq<nat>, i: nat)
    requires i < |d| - 1
    ensures Carry(d, i)[..|d| - 1] == Carry(d[..|d| - 1], i) && Carry(d, i)[|d| - 1] == 0
  {
  }

  /** The carry adds one to the number. */
  lemma {:induction false} CarryValue(d: seq<nat>, size: seq<nat>, i: nat)
    requires |d| == |size| && i < |d| && Full(d, size, i)
    ensures Value(Carry(d, i), size) == Value(d, size) + 1
  {
    var n := |d| - 1;
    if n == i {
      assert Carry(d, i)[..n] == d[..n];
    } else {
      CarryValue(d[..n], size[..n], i);
      CarryPrefix(d, i);
      Distribute(Value(d[..n], size[..n]), 1, size[n]);
    }
  }

  /** The carry changes the sum of strides by stride[i] less what is lost. */
  lemma {:induction false} CarryDot(d: seq<nat>, size: seq<nat>, stride: seq<nat>, i: nat)
    requires |d| == |size| == |stride| && i < |d| && Full(d, size, i)
    ensures Dot(Carry(d, i), stride) == Dot(d, stride) + stride[i] - Lost(size, stride, i, |d|)
  {
    var n := |d| - 1;
    if n == i {
      assert Carry(d, i)[..n] == d[..n];
      Distribute(d[i], 1, stride[i]);
    } else {
      CarryDot(d[..n], size[..n], stride[..n], i);
      CarryPrefix(d, i);
      LostPrefix(size, stride, i, n);
      assert d[n] * stride[n] == stride[n] * (size[n] as int - 1);
    }
  }

  lemma {:induction false} LostPrefix(size: seq<nat>, stride: seq<nat>, i: nat, n: nat)
    requires i < n <= |size| == |stride|
    ensures Lost(size[..n], stride[..n], i, n) == Lost(size, stride, i, n)
    decreases n
  {
    if n > i + 1 {
      LostPrefix(size, stride, i, n - 1);
      LostPrefix(size[..n], stride[..n], i, n - 1);
      assert size[..n][..n - 1] == size[..n - 1] && stride[..n][..n - 1] == stride[..n - 1];
    }
  }

  /** When every digit is at its last value the number is the last one. */
  lemma {:induction false} AllFull(d: seq<nat>, size: seq<nat>)
    requires |d| == |size| && forall j | 0 <= j < |d| :: d[j] + 1 == size[j]
    ensures Value(d, size) + 1 == Product(size)
  {
    if d != [] {
      var n := |d| - 1;
      AllFull(d[..n], size[..n]);
      Distribute(Value(d[..n], size[..n]), 1, size[n]);
    }
  }

  lemma {:induction false} AllZero(size: seq<nat>, stride: seq<nat>)
    requires |size| == |stride|
    ensures Value(seq(|size|, _ => 0), size) == 0 && Dot(seq(|size|, _ => 0), stride) == 0
  {
    if size != [] {
      var n := |size| - 1;
      var z: seq<nat> := seq(|size|, _ => 0);
      assert z[..n] == seq(n, _ => 0);
      AllZero(size[..n], stride[..n]);
    }
  }

  // ----- __init

  /** Entry k of the slice, as the size_t of w bits. */
  function Entry(start: nat, k: nat, size: seq<nat>, stride: seq<nat>, w: nat): nat
    requires |size| == |stride| && Positive(size)
  {
    Wrap(start + Dot(DigitsOf(k, size), stride), w)
  }

  lemma {:induction false} ProductZero(size: seq<nat>)
    ensures Product(size) > 0 <==> Positive(size)
  {
    if size != [] {
      var n := |size| - 1;
      ProductZero(size[..n]);
      assert forall j | 0 <= j < n :: size[..n][j] == size[j];
      assert Product(size) > 0 <==> Product(size[..n]) > 0 && size[n] > 0;
    }
  }

  lemma ProductSnoc(size: seq<nat>, i: nat)
    requires i < |size|
    ensures Product(size[..i + 1]) == Product(size[..i]) * size[i]
  {
    assert size[..i + 1][..i] == size[..i];
  }

  /** The number of entries, multiplied up in a size_t. */
  method Count(size: seq<nat>, w: nat) returns (k: nat)
    requires w > 0
    ensures k == if size == [] then 0 else Wrap(Product(size), w)
  {
    hide Pow2, Wrap, Product;
    k := if |size| != 0 then 1 else 0;
    OneWord(w);
    for i := 0 to |size|
      invariant k == if size == [] then 0 else Wrap(Product(size[..i]), w)
    {
      ProductSnoc(size, i);
      WrapProduct(Product(size[..i]), size[i], w);
      k := Wrap(k * size[i], w);
    }
    assert size[..|size|] == size;
  }

  lemma OneWord(w: nat)
    requires w > 0
    ensures Wrap(Product([]), w) == 1
  {
    hide Pow2, Wrap;
    Pow2Half(w);
    WrapSmall(1, w);
  }

  /** The entry after previous, when digit i goes up and those after it go back to zero. */
  method NextEntry(previous: nat, size: seq<nat>, stride: seq<nat>, i: nat, w: nat) returns (e: nat)
    requires |size| == |stride| && i < |size| && Positive(size)
    ensures e == Wrap(previous + stride[i] - Lost(size, stride, i, |size|), w)
  {
    hide Pow2, Wrap;
    e := Wrap(previous + stride[i], w);
    for j := i + 1 to |size|
      invariant e == Wrap(previous + stride[i] - Lost(size, stride, i, j), w)
    {
      var back := stride[j] * (size[j] - 1);
      var drop: int := Wrap(back, w);
      var sum: int := previous + stride[i] - Lost(size, stride, i, j);
      WrapSum(sum, -drop, w);
      WrapDifference(sum, back, w);
      e := Wrap(e - drop, w);
    }
  }

  /** The writes of __init stay inside the table: there is nothing to write, or the product did not wrap. */
  predicate StaysInside(size: seq<nat>, w: nat) {
    size == [] || Wrap(Product(size), w) == 0 || Word(Product(size), w)
  }

  /**
   The table has as many entries as the sizes multiply to in a size_t, and entry k is start plus, for every
   dimension, the stride times the digit of k there. The loop runs to the last row of digits whatever the table's
   length: it wants to write past the end, which is where this model stops it, exactly for a product that wraps to
   something other than zero. The entries that exist are right even then.
   */
  method Init(start: nat, size: seq<nat>, stride: seq<nat>, w: nat) returns (table: array<nat>, inside: bool)
    requires w > 0 && |size| == |stride| && Word(start, w)
    ensures fresh(table) && table.Length == if size == [] then 0 else Wrap(Product(size), w)
    ensures table.Length > 0 ==> Positive(size)
    ensures forall k | 0 <= k < table.Length :: table[k] == Entry(start, k, size, stride, w)
    ensures inside <==> StaysInside(size, w)
  {
    hide Pow2, Wrap, Product, Value, Dot, DigitsOf, Entry;
    var k := Count(size, w);
    table := new nat[k](_ => 0);
    inside := true;
    if table.Length != 0 {
      WrapRange(Product(size), w);
      ProductZero(size);
      inside := Fill(table, start, size, stride, w);
    }
  }

  lemma WrapRange(p: nat, w: nat)
    ensures Wrap(p, w) <= p
    ensures Wrap(p, w) == p <==> Word(p, w)
  {
    var m := Pow2(w);
    if p < m {
      ModUnique(p, m, 0, p);
    }
  }

  /** A product that wraps to zero leaves an empty table and no write; one that wraps to 2 has four rows too many. */
  lemma WrappedProducts()
    ensures Product([2, 2]) == 4 && Wrap(4, 2) == 0 && StaysInside([2, 2], 2)
    ensures Product([3, 2]) == 6 && Wrap(6, 2) == 2 && !StaysInside([3, 2], 2)
  {
  }

  /** The loop over the entries; inside is false when it comes to write past the table. */
  method Fill(table: array<nat>, start: nat, size: seq<nat>, stride: seq<nat>, w: nat) returns (inside: bool)
    requires |size| == |stride| > 0 && Positive(size) && Word(start, w) && 0 < table.Length <= Product(size)
    modifies table
    ensures forall k | 0 <= k < table.Length :: table[k] == Entry(start, k, size, stride, w)
    ensures inside <==> table.Length == Product(size)
  {
    hide *;
    var indices := new nat[|size|](_ => 0);
    assert indices[..] == seq(|size|, _ => 0);
    FirstEntry(start, size, stride, w);
    var k := 0;
    table[k] := start;
    while true
      invariant k < table.Length
      invariant Digits(indices[..], size) && Value(indices[..], size) == k
      invariant forall j | 0 <= j <= k :: table[j] == Entry(start, j, size, stride, w)
      decreases table.Length - k
    {
      ghost var d := indices[..];
      var i, last := Advance(indices, size);
      if last {
        return true;
      }
      NextValue(d, size, i);
      NextEntryOf(start, d, size, stride, i, w);
      k := k + 1;
      if k == table.Length {
        return false;
      }
      var e := NextEntry(table[k - 1], size, stride, i, w);
      table[k] := e;
    }
  }

  /** The inner loop: the digits go to their successor, i being the one that goes up, or the last number is reached. */
  method Advance(indices: array<nat>, size: seq<nat>) returns (i: nat, last: bool)
    requires |size| > 0 && Digits(indices[..], size)
    modifies indices
    ensures last ==> Value(old(indices[..]), size) + 1 == Product(size)
    ensures !last ==> i < |size| && Full(old(indices[..]), size, i) && old(indices[i]) + 1 < size[i]
    ensures !last ==> indices[..] == Carry(old(indices[..]), i)
  {
    hide Product, Value;
    ghost var d := indices[..];
    i := |size| - 1;
    while true
      invariant i < |size| && Full(d, size, i)
      invariant indices[..] == d[..i + 1] + seq(|size| - i - 1, _ => 0)
      decreases i
    {
      assert indices[i] == d[i];
      indices[i] := indices[i] + 1;
      if indices[i] < size[i] {
        assert indices[..] == Carry(d, i);
        return i, false;
      }
      if i == 0 {
        AllFull(d, size);
        return i, true;
      }
      indices[i] := 0;
      i := i - 1;
    }
  }

  lemma FirstEntry(start: nat, size: seq<nat>, stride: seq<nat>, w: nat)
    requires |size| == |stride| && Positive(size) && Word(start, w) && Product(size) > 0
    ensures Digits(seq(|size|, _ => 0), size) && Value(seq(|size|, _ => 0), size) == 0
    ensures Entry(start, 0, size, stride, w) == start
  {
    hide Pow2, Wrap, Product, Value, Dot, DigitsOf;
    var z: seq<nat> := seq(|size|, _ => 0);
    AllZero(size, stride);
    DigitsExact(0, size, z);
    WrapSmall(start, w);
  }

  lemma NextValue(d: seq<nat>, size: seq<nat>, i: nat)
    requires Digits(d, size) && i < |d| && Full(d, size, i) && d[i] + 1 < size[i] && Positive(size)
    ensures Digits(Carry(d, i), size) && Value(Carry(d, i), size) == Value(d, size) + 1 < Product(size)
  {
    hide Product, Value;
    CarryValue(d, size, i);
    ValueBelow(Carry(d, i), size);
  }

  lemma DigitsLength(d: seq<nat>, size: seq<nat>)
    requires Digits(d, size)
    ensures |d| == |size|
  {
  }

  /** The entry of a row of digits. */
  lemma EntryAt(start: nat, d: seq<nat>, size: seq<nat>, stride: seq<nat>, w: nat)
    requires |size| == |stride| && Positive(size) && Digits(d, size)
    ensures Entry(start, Value(d, size), size, stride, w) == Wrap(start + Dot(d, stride), w)
  {
    hide Pow2, Wrap, Product, Value, Dot, DigitsOf;
    ValueBelow(d, size);
    DigitsExact(Value(d, size), size, d);
  }

  /** A matrix of m rows and n columns: row i, column j. */
  lemma RowAndColumn(start: nat, i: nat, j: nat, m: nat, n: nat, s0: nat, s1: nat, w: nat)
    requires i < m && j < n
    ensures Positive([m, n]) && Entry(start, i * n + j, [m, n], [s0, s1], w) == Wrap(start + i * s0 + j * s1, w)
  {
    hide Pow2, Wrap, Entry, DigitsOf;
    var d: seq<nat> := [i, j];
    assert d[..1] == [i] && [m, n][..1] == [m] && [s0, s1][..1] == [s0];
    assert [i][..0] == [] && [m][..0] == [] && [s0][..0] == [];
    assert Value([i], [m]) == i && Dot([i], [s0]) == i * s0;
    EntryAt(start, d, [m, n], [s0, s1], w);
  }

  lemma NextEntryOf(start: nat, d: seq<nat>, size: seq<nat>, stride: seq<nat>, i: nat, w: nat)
    requires |size| == |stride| && Positive(size) && Digits(d, size)
    requires i < |d| && Full(d, size, i) && d[i] + 1 < size[i]
    ensures
      var k := Value(d, size);
      Entry(start, k + 1, size, stride, w) ==
        Wrap(Entry(start, k, size, stride, w) + stride[i] - Lost(size, stride, i, |size|), w)
  {
    hide Pow2, Wrap, Product, Value, Dot, Lost, Carry, Entry, Digits, Full;
    DigitsLength(d, size);
    NextValue(d, size, i);
    CarryDot(d, size, stride, i);
    EntryAt(start, d, size, stride, w);
    EntryAt(start, Carry(d, i), size, stride, w);
    WrapSum(start + Dot(d, stride), stride[i] - Lost(size, stride, i, |size|), w);
  }
}
