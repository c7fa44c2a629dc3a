/**
 Array construction and destruction of cxa_vector.cpp.  A run is the log of what it calls; user functions are
 given by the addresses at which they throw, and a NULL function is None.
 */
module CxaVector {
  import opened Common
  import opened Division
  import opened Words

  datatype Event =
    | Alloc(size: nat)
    | Free(block: nat, size: nat)
    | SetCount(array_: nat, count: nat)
    | Construct(at: nat)
    | Destroy(at: nat)

  datatype Exit = Returned | Threw | Terminated

  /** Whether the user's function throws at an address. */
  type Throws = nat -> bool

  function At(base: nat, size: nat, i: nat): nat {
    base + i * size
  }

  /** The function does not throw for the first n elements. */
  ghost predicate Quiet(f: Throws, base: nat, size: nat, n: nat) {
    forall i: nat | i < n :: !f(At(base, size, i))
  }

  /** Constructor calls for the elements from lo up to hi. */
  function Up(base: nat, size: nat, n: nat): seq<Event> {
    if n == 0 then [] else Up(base, size, n - 1) + [Construct(At(base, size, n - 1))]
  }

  /** Destructor calls for the first n elements, last first. */
  function Down(base: nat, size: nat, n: nat): seq<Event> {
    if n == 0 then [] else [Destroy(At(base, size, n - 1))] + Down(base, size, n - 1)
  }

  lemma DownStep(base: nat, size: nat, n: nat)
    requires n > 0
    ensures Down(base, size, n) == [Destroy(At(base, size, n - 1))] + Down(base, size, n - 1)
  {
  }

  lemma DownZero(base: nat, size: nat)
    ensures Down(base, size, 0) == []
  {
  }

  /** Each of the n elements is destroyed once, in the reverse of the order of construction. */
  lemma {:induction false} DownEach(base: nat, size: nat, n: nat, i: nat)
    requires i < n
    ensures |Down(base, size, n)| == n == |Up(base, size, n)|
    ensures Down(base, size, n)[i] == Destroy(base + (n - 1 - i) * size)
    ensures Up(base, size, n)[n - 1 - i] == Construct(base + (n - 1 - i) * size)
  {
    if n > 1 {
      DownEach(base, size, n - 1, if i == 0 then 0 else i - 1);
    }
  }

  // ----- sizes

  /** mul_overflow and add_overflow without the compiler builtins: the wrapped result and whether it is wrong. */
  function MulOverflow(x: nat, y: nat, w: nat): (nat, bool) {
    var res := Wrap(x * y, w);
    (res, x != 0 && res / x != y)
  }

  function AddOverflow(x: nat, y: nat, w: nat): (nat, bool) {
    var res := Wrap(x + y, w);
    (res, res < y)
  }

  lemma MulOverflowExact(x: nat, y: nat, w: nat)
    requires Word(y, w)
    ensures MulOverflow(x, y, w).1 <==> !Word(x * y, w)
    ensures Word(x * y, w) ==> MulOverflow(x, y, w).0 == x * y
  {
    hide Pow2, Wrap;
    var res := Wrap(x * y, w);
    if Word(x * y, w) {
      WrapSmall(x * y, w);
      if x != 0 {
        ModUnique(x * y, x, y, 0);
      }
    } else {
      assert x != 0;
      DivMod(res, x);
      assert y * x == x * y;
    }
  }

  lemma AddOverflowExact(x: nat, y: nat, w: nat)
    requires Word(x, w) && Word(y, w)
    ensures AddOverflow(x, y, w).1 <==> !Word(x + y, w)
    ensures Word(x + y, w) ==> AddOverflow(x, y, w).0 == x + y
  {
    hide Pow2, Wrap;
    if Word(x + y, w) {
      WrapSmall(x + y, w);
    } else {
      WrapShift(x + y, -1, w);
      WrapSmall(x + y - Pow2(w), w);
    }
  }

  /** calculate_allocation_size_or_throw; None when it throws bad_array_new_length. */
  function AllocationSize(count: nat, size: nat, padding: nat, w: nat): Option<nat> {
    var (elements, over) := MulOverflow(count, size, w);
    if over then None
    else
      var (total, tooLarge) := AddOverflow(elements, padding, w);
      if tooLarge then None else Some(total)
  }

  /** The size is refused exactly when the exact size does not fit. */
  lemma AllocationSizeExact(count: nat, size: nat, padding: nat, w: nat)
    requires Word(count, w) && Word(size, w) && Word(padding, w)
    ensures AllocationSize(count, size, padding, w) ==
            if Word(count * size + padding, w) then Some(count * size + padding) else None
  {
    hide Pow2, Wrap, MulOverflow, AddOverflow;
    MulOverflowExact(count, size, w);
    if Word(count * size, w) {
      AddOverflowExact(count * size, padding, w);
    }
  }

  // ----- the loops

  /** __cxa_vec_cleanup: a destructor that throws terminates the program. */
  method VecCleanup(base: nat, count: nat, size: nat, dtor: Option<Throws>) returns (exit: Exit, log: seq<Event>)
    ensures exit == if dtor.Some? && !Quiet(dtor.value, base, size, count) then Terminated else Returned
    ensures exit == Returned ==> log == if dtor.Some? then Down(base, size, count) else []
  {
    hide Down;
    log := [];
    DownZero(base, size);
    if dtor.None? {
      return Returned, log;
    }
    var idx: nat, ptr: nat := count, base + count * size;
    while idx > 0
      invariant idx <= count && ptr == At(base, size, idx)
      invariant forall j: nat | idx <= j < count :: !dtor.value(At(base, size, j))
      invariant log + Down(base, size, idx) == Down(base, size, count)
    {
      DownStep(base, size, idx);
      idx := idx - 1;
      Distribute(idx, 1, size);
      assert log + ([Destroy(At(base, size, idx))] + Down(base, size, idx))
          == (log + [Destroy(At(base, size, idx))]) + Down(base, size, idx);
      ptr := ptr - size;
      log := log + [Destroy(ptr)];
      if dtor.value(ptr) {
        return Terminated, log;
      }
    }
    assert log + [] == log;
    return Returned, log;
  }

  /** What a construction leaves: everything built, or what was built destroyed again and the exception passed on. */
  ghost predicate Constructed(base: nat, count: nat, size: nat, ctor: Throws, dtor: Option<Throws>, exit: Exit,
                              log: seq<Event>)
  {
    if Quiet(ctor, base, size, count) then exit == Returned && log == Up(base, size, count)
    else
      exists k: nat :: FailsAt(ctor, base, size, count, k) &&
        (if dtor.Some? && !Quiet(dtor.value, base, size, k) then exit == Terminated
         else exit == Threw && log == Up(base, size, k + 1) + if dtor.Some? then Down(base, size, k) else [])
  }

  /** Element k is the first whose constructor throws. */
  ghost predicate FailsAt(ctor: Throws, base: nat, size: nat, count: nat, k: nat) {
    k < count && ctor(At(base, size, k)) && Quiet(ctor, base, size, k)
  }

  /** __cxa_vec_ctor. */
  method VecCtor(base: nat, count: nat, size: nat, ctor: Option<Throws>, dtor: Option<Throws>)
    returns (exit: Exit, log: seq<Event>)
    ensures if ctor.None? then exit == Returned && log == []
            else Constructed(base, count, size, ctor.value, dtor, exit, log)
  {
    log := [];
    if ctor.None? {
      return Returned, log;
    }
    var idx: nat, ptr: nat := 0, base;
    while idx < count
      invariant idx <= count && ptr == At(base, size, idx) && Quiet(ctor.value, base, size, idx)
      invariant log == Up(base, size, idx)
    {
      log := log + [Construct(ptr)];
      if ctor.value(ptr) {
        assert FailsAt(ctor.value, base, size, count, idx);
        var undo;
        exit, undo := VecCleanup(base, idx, size, dtor);
        if exit == Returned {
          exit, log := Threw, log + undo;
        }
        return;
      }
      Distribute(idx, 1, size);
      idx, ptr := idx + 1, ptr + size;
    }
    return Returned, log;
  }

  /** Only element j's destructor throws. */
  ghost predicate OnlyAt(dtor: Throws, base: nat, size: nat, count: nat, j: nat) {
    j < count && dtor(At(base, size, j)) && forall i: nat | i < count && i != j :: !dtor(At(base, size, i))
  }

  /**
   __cxa_vec_dtor.  Every element's destructor runs once, in reverse order, even when one of them throws; a
   throw during another exception, or a second one, terminates.
   */
  method VecDtor(base: nat, count: nat, size: nat, dtor: Option<Throws>, uncaught: bool)
    returns (exit: Exit, log: seq<Event>)
    ensures exit != Terminated ==> log == if dtor.Some? then Down(base, size, count) else []
    ensures exit == Returned <==> dtor.None? || Quiet(dtor.value, base, size, count)
    ensures exit == Threw <==> dtor.Some? && !uncaught && exists j: nat :: OnlyAt(dtor.value, base, size, count, j)
  {
    hide Down;
    log := [];
    DownZero(base, size);
    if dtor.None? {
      return Returned, log;
    }
    var idx: nat, ptr: nat := count, base + count * size;
    while idx > 0
      invariant idx <= count && ptr == At(base, size, idx)
      invariant forall j: nat | idx <= j < count :: !dtor.value(At(base, size, j))
      invariant log + Down(base, size, idx) == Down(base, size, count)
    {
      DownStep(base, size, idx);
      idx := idx - 1;
      Distribute(idx, 1, size);
      assert log + ([Destroy(At(base, size, idx))] + Down(base, size, idx))
          == (log + [Destroy(At(base, size, idx))]) + Down(base, size, idx);
      ptr := ptr - size;
      log := log + [Destroy(ptr)];
      if dtor.value(ptr) {
        if uncaught {
          return Terminated, log;
        }
        var rest;
        exit, rest := VecCleanup(base, idx, size, dtor);
        if exit == Returned {
          assert OnlyAt(dtor.value, base, size, count, idx);
          exit, log := Threw, log + rest;
        } else {
          assert forall j: nat | OnlyAt(dtor.value, base, size, count, j) :: j == idx;
        }
        return;
      }
    }
    assert log + [] == log;
    return Returned, log;
  }

  // ----- new[] and delete[]

  /** What alloc does with a size. */
  datatype Allocation = AllocThrows | Null | Block(at: nat)

  /** The cookie before the elements. */
  function Cookie(base: nat, count: nat, padding: nat): seq<Event> {
    if padding != 0 then [SetCount(base, count)] else []
  }

  /** The calls of a new[] whose allocation succeeded, built being those of the construction. */
  ghost predicate NewLog(p: nat, heap: nat, count: nat, size: nat, padding: nat, ctor: Option<Throws>,
                         dtor: Option<Throws>, exit: Exit, log: seq<Event>, built: seq<Event>)
  {
    && (if ctor.None? then exit == Returned && built == []
        else Constructed(p + padding, count, size, ctor.value, dtor, exit, built))
    && (exit != Terminated ==>
          log == [Alloc(heap)] + Cookie(p + padding, count, padding) + built
                 + if exit == Threw then [Free(p, heap)] else [])
  }

  /**
   __cxa_vec_new3 (and new2, whose dealloc ignores the size): the address of the elements, 0 for NULL.  If a
   constructor throws, the elements built are destroyed, the block is freed once, and the exception goes on.
   */
  method VecNew3(count: nat, size: nat, padding: nat, ctor: Option<Throws>, dtor: Option<Throws>,
                 alloc: nat -> Allocation, w: nat) returns (exit: Exit, array_: nat, log: seq<Event>)
    requires Word(count, w) && Word(size, w) && Word(padding, w)
    ensures !Word(count * size + padding, w) ==> exit == Threw && log == []
    ensures Word(count * size + padding, w) ==>
      var heap := count * size + padding;
      match alloc(heap)
      case AllocThrows => exit == Threw && log == [Alloc(heap)]
      case Null => exit == Returned && array_ == 0 && log == [Alloc(heap)]
      case Block(p) =>
        && (exit == Returned ==> array_ == p + padding)
        && exists built :: NewLog(p, heap, count, size, padding, ctor, dtor, exit, log, built)
  {
    hide AllocationSize, Constructed, Pow2;
    array_ := 0;
    AllocationSizeExact(count, size, padding, w);
    var heapSize := AllocationSize(count, size, padding, w);
    if heapSize.None? {
      return Threw, 0, [];
    }
    log := [Alloc(heapSize.value)];
    match alloc(heapSize.value) {
      case AllocThrows => return Threw, 0, log;
      case Null => return Returned, 0, log;
      case Block(p) =>
        var base := p;
        if padding != 0 {
          base := base + padding;
          log := log + [SetCount(base, count)];
        }
        assert log == [Alloc(heapSize.value)] + Cookie(p + padding, count, padding);
        var built;
        exit, built := VecCtor(base, count, size, ctor, dtor);
        log := log + built;
        if exit == Threw {
          log := log + [Free(p, heapSize.value)];
        }
        assert NewLog(p, heapSize.value, count, size, padding, ctor, dtor, exit, log, built);
        array_ := base;
    }
  }

  /** What __get_element_count reads before the elements: the count that was written there last. */
  function CookieOf(log: seq<Event>, array_: nat): Option<nat> {
    if log == [] then None
    else
      var last := log[|log| - 1];
      if last.SetCount? && last.array_ == array_ then Some(last.count) else CookieOf(log[..|log| - 1], array_)
  }

  /** The size that __cxa_vec_delete3 passes to dealloc; count is what the cookie says. */
  function FreedSize(count: nat, size: nat, padding: nat, w: nat): nat {
    Wrap(size * (if padding != 0 then count else 0) + padding, w)
  }

  /** The calls of a delete[]: the destructors run if there is a cookie, and then the block is freed. */
  ghost predicate DeleteLog(array_: nat, count: nat, size: nat, padding: nat, dtor: Option<Throws>, uncaught: bool,
                            w: nat, exit: Exit, log: seq<Event>)
    requires array_ >= padding
  {
    && (exit != Terminated ==>
          log == (if padding != 0 && dtor.Some? then Down(array_, size, count) else [])
                 + [Free(array_ - padding, FreedSize(count, size, padding, w))])
    && (exit == Returned <==> padding == 0 || dtor.None? || Quiet(dtor.value, array_, size, count))
    && (exit == Threw <==>
          padding != 0 && dtor.Some? && !uncaught && exists j: nat :: OnlyAt(dtor.value, array_, size, count, j))
  }

  /**
   __cxa_vec_delete3 after the given calls: nothing for NULL; otherwise the block is freed, also when a destructor
   has thrown. The number of elements comes from the cookie, which is read if there is padding for it.
   */
  method VecDelete3(before: seq<Event>, array_: nat, size: nat, padding: nat, dtor: Option<Throws>, uncaught: bool,
                    w: nat)
    returns (exit: Exit, log: seq<Event>)
    requires array_ != 0 ==> array_ >= padding && (padding != 0 ==> CookieOf(before, array_).Some?)
    ensures array_ == 0 ==> exit == Returned && log == []
    ensures array_ != 0 ==>
      var count := if padding != 0 then CookieOf(before, array_).value else 0;
      DeleteLog(array_, count, size, padding, dtor, uncaught, w, exit, log)
  {
    hide Wrap, Quiet, OnlyAt, Down;
    if array_ == 0 {
      return Returned, [];
    }
    var heapBlock := array_ - padding;
    var elements := if padding != 0 then CookieOf(before, array_).value else 0;
    var heapSize := Wrap(size * elements + padding, w);
    exit, log := Returned, [];
    if padding != 0 && dtor.Some? {
      exit, log := VecDtor(array_, elements, size, dtor, uncaught);
    }
    if exit != Terminated {
      log := log + [Free(heapBlock, heapSize)];
    }
  }

  // ----- new[] and delete[] together

  /** The sizes with which block p was freed. */
  function FreesOf(log: seq<Event>, p: nat): seq<nat> {
    if log == [] then []
    else
      var last := log[|log| - 1];
      FreesOf(log[..|log| - 1], p) + if last.Free? && last.block == p then [last.size] else []
  }

  lemma {:induction false} FreesOfSum(log: seq<Event>, log': seq<Event>, p: nat)
    ensures FreesOf(log + log', p) == FreesOf(log, p) + FreesOf(log', p)
  {
    if log' == [] {
      assert log + log' == log;
    } else {
      FreesOfSum(log, log'[..|log'| - 1], p);
      assert (log + log')[..|log + log'| - 1] == log + log'[..|log'| - 1];
    }
  }

  lemma {:induction false} CookieOfSum(log: seq<Event>, log': seq<Event>, array_: nat)
    ensures CookieOf(log + log', array_) == if CookieOf(log', array_) == None then CookieOf(log, array_)
                                            else CookieOf(log', array_)
  {
    if log' == [] {
      assert log + log' == log;
    } else {
      CookieOfSum(log, log'[..|log'| - 1], array_);
      assert (log + log')[..|log + log'| - 1] == log + log'[..|log'| - 1];
    }
  }

  /** Neither writes a cookie nor frees a block. */
  ghost predicate Plain(log: seq<Event>) {
    forall i | 0 <= i < |log| :: log[i].Construct? || log[i].Destroy?
  }

  lemma {:induction false} PlainIsPlain(log: seq<Event>, p: nat)
    requires Plain(log)
    ensures FreesOf(log, p) == [] && CookieOf(log, p) == None
  {
    if log != [] {
      PlainIsPlain(log[..|log| - 1], p);
    }
  }

  lemma {:induction false} ElementsPlain(base: nat, size: nat, n: nat)
    ensures Plain(Up(base, size, n)) && Plain(Down(base, size, n))
  {
    if n > 0 {
      ElementsPlain(base, size, n - 1);
    }
  }

  lemma NewBuilt(p: nat, heap: nat, count: nat, size: nat, padding: nat, ctor: Option<Throws>, dtor: Option<Throws>,
                 log: seq<Event>, built: seq<Event>)
    requires NewLog(p, heap, count, size, padding, ctor, dtor, Returned, log, built)
    ensures built == if ctor.Some? then Up(p + padding, size, count) else []
    ensures log == [Alloc(heap)] + Cookie(p + padding, count, padding) + built
  {
    hide Up, Down, Quiet, FailsAt, Cookie;
    var head := [Alloc(heap)] + Cookie(p + padding, count, padding);
    assert head + built + [] == head + built;
  }

  /** A new[] that returned has freed nothing, and left its cookie. */
  lemma NewKeeps(p: nat, heap: nat, count: nat, size: nat, padding: nat, ctor: Option<Throws>, dtor: Option<Throws>,
                 log: seq<Event>, built: seq<Event>)
    requires NewLog(p, heap, count, size, padding, ctor, dtor, Returned, log, built)
    ensures built == if ctor.Some? then Up(p + padding, size, count) else []
    ensures FreesOf(log, p) == [] && CookieOf(log, p + padding) == if padding != 0 then Some(count) else None
  {
    hide *;
    NewBuilt(p, heap, count, size, padding, ctor, dtor, log, built);
    ElementsPlain(p + padding, size, count);
    NothingPlain();
    HeadOnly(p, heap, count, padding);
    PlainIsPlain(built, p);
    PlainIsPlain(built, p + padding);
    var head := [Alloc(heap)] + Cookie(p + padding, count, padding);
    FreesOfSum(head, built, p);
    CookieOfSum(head, built, p + padding);
  }

  lemma NothingPlain()
    ensures Plain([])
  {
  }

  lemma HeadOnly(p: nat, heap: nat, count: nat, padding: nat)
    ensures
      var head := [Alloc(heap)] + Cookie(p + padding, count, padding);
      FreesOf(head, p) == [] && CookieOf(head, p + padding) == if padding != 0 then Some(count) else None
  {
    var a, c := [Alloc(heap)], Cookie(p + padding, count, padding);
    FreesOfSum(a, c, p);
    CookieOfSum(a, c, p + padding);
  }

  /** A new[] that threw after its allocation has freed the block once, with the size it asked for. */
  lemma NewFrees(p: nat, heap: nat, count: nat, size: nat, padding: nat, ctor: Option<Throws>, dtor: Option<Throws>,
                 log: seq<Event>, built: seq<Event>)
    requires NewLog(p, heap, count, size, padding, ctor, dtor, Threw, log, built)
    ensures FreesOf(log, p) == [heap]
  {
    hide Up, Quiet, FailsAt, Down;
    var base := p + padding;
    var k: nat :| FailsAt(ctor.value, base, size, count, k)
      && built == Up(base, size, k + 1) + if dtor.Some? then Down(base, size, k) else [];
    ElementsPlain(base, size, k + 1);
    ElementsPlain(base, size, k);
    HeadOnly(p, heap, count, padding);
    PlainIsPlain(built, p);
    var head := [Alloc(heap)] + Cookie(base, count, padding);
    FreesOfSum(head, built, p);
    FreesOfSum(head + built, [Free(p, heap)], p);
    assert log == head + built + [Free(p, heap)];
  }

  /**
   A new[] that returned, whatever calls do not touch its cookie or its block, and a delete[] of the array: the
   elements are destroyed in the reverse of their construction if there is a cookie, the block is freed exactly
   once, and the size freed is the size allocated exactly when there is a cookie or the elements take no space.
   */
  lemma NewThenDelete(p: nat, count: nat, size: nat, padding: nat, ctor: Option<Throws>, dtor: Option<Throws>,
                      uncaught: bool, w: nat, log: seq<Event>, built: seq<Event>, between: seq<Event>, exit: Exit,
                      log': seq<Event>)
    requires p > 0 && Word(count * size + padding, w)
    requires NewLog(p, count * size + padding, count, size, padding, ctor, dtor, Returned, log, built)
    requires FreesOf(between, p) == [] && CookieOf(between, p + padding) == None
    ensures padding != 0 ==> CookieOf(log + between, p + padding) == Some(count)
    ensures
      var read := if padding != 0 then count else 0;
      DeleteLog(p + padding, read, size, padding, dtor, uncaught, w, exit, log') && exit != Terminated ==>
        && FreesOf(log + between + log', p) == [FreedSize(count, size, padding, w)]
        && (FreedSize(count, size, padding, w) == count * size + padding <==> padding != 0 || count * size == 0)
        && (ctor.Some? ==> built == Up(p + padding, size, count))
        && (padding != 0 && dtor.Some? ==>
              log' == Down(p + padding, size, count) + [Free(p, count * size + padding)])
  {
    hide NewLog, Up, Down, Quiet, OnlyAt, FreedSize, Word;
    var base, freed := p + padding, FreedSize(count, size, padding, w);
    NewKeeps(p, count * size + padding, count, size, padding, ctor, dtor, log, built);
    CookieOfSum(log, between, base);
    DeleteMatchesNew(count, size, padding, w);
    FreesOfSum(log, between, p);
    FreesOfSum(log + between, log', p);
    ElementsPlain(base, size, count);
    PlainIsPlain(Down(base, size, count), p);
    FreedNoCookie(count, size, padding, w);
    FreesOfSum(if padding != 0 && dtor.Some? then Down(base, size, count) else [], [Free(p, freed)], p);
    assert FreesOf([Free(p, freed)], p) == [freed];
  }

  lemma FreedNoCookie(count: nat, size: nat, padding: nat, w: nat)
    ensures FreedSize(if padding != 0 then count else 0, size, padding, w) == FreedSize(count, size, padding, w)
  {
  }

  /**
   delete3 frees the block with the size that new3 asked for exactly when there is a cookie or the elements
   take no space: without a cookie it does not know how many there are.
   */
  lemma DeleteMatchesNew(count: nat, size: nat, padding: nat, w: nat)
    requires Word(count * size + padding, w)
    ensures FreedSize(count, size, padding, w) == count * size + padding <==> padding != 0 || count * size == 0
    ensures padding == 0 ==> FreedSize(count, size, padding, w) == 0
  {
    hide Pow2, Wrap;
    WrapSmall(count * size + padding, w);
    assert size * count == count * size && size * 0 == 0;
    WrapSmall(padding, w);
  }
}
