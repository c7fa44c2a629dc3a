/**
 The two-gate reader/writer lock __shared_mutex_base of shared_mutex.cpp for any number of threads, with the timed
 forms of shared_timed_mutex; any wait may be one that times out.
 Every method runs under __mut_, so what it does between taking the mutex and giving it up or going to
 sleep is one step; a notified thread tests its condition again when it next runs, and a sleeping
 thread may wake for no reason.
 */
module SharedMutex {
  import opened Division

  /** __state_ is one word: the top bit is __write_entered_, worth limit; the bits below count readers. */
  function WriteEntered(state: nat, limit: nat): bool
    requires limit > 0
  {
    state / limit % 2 == 1
  }

  function Readers(state: nat, limit: nat): nat
    requires limit > 0
  {
    state % limit
  }

  function Word(write: bool, readers: nat, limit: nat): nat {
    (if write then limit else 0) + readers
  }

  lemma WordFields(write: bool, readers: nat, limit: nat)
    requires readers < limit
    ensures WriteEntered(Word(write, readers, limit), limit) == write
    ensures Readers(Word(write, readers, limit), limit) == readers
  {
    DivisionUnique(limit, if write then 1 else 0, readers);
  }

  datatype Pc =
    | Outside
    | WriterGate1       // asleep in the first loop of lock
    | WriterRetry1      // about to test it again
    | WriterGate2       // asleep in the second loop of lock
    | WriterRetry2
    | Exclusive
    | ReaderGate1       // asleep in the loop of lock_shared
    | ReaderRetry
    | Shared

  /** holders are the threads that have shared ownership, writer the one that set __write_entered_ (0 for none). */
  datatype State = State(state: nat, holders: set<nat>, writer: nat, pcs: map<nat, Pc>)

  function At(s: State, t: nat, pc: Pc): State {
    s.(pcs := s.pcs[t := pc])
  }

  /** notify_all on gate 1. */
  function AwakeGate1(pcs: map<nat, Pc>): map<nat, Pc> {
    map t | t in pcs ::
      if pcs[t] == WriterGate1 then WriterRetry1 else if pcs[t] == ReaderGate1 then ReaderRetry else pcs[t]
  }

  /** notify_one on gate 2: some sleeper there wakes, if there is one. */
  ghost predicate NotifyOneGate2(pcs: map<nat, Pc>, pcs': map<nat, Pc>) {
    || (pcs' == pcs && forall u | u in pcs :: pcs[u] != WriterGate2)
    || (exists u :: u in pcs && pcs[u] == WriterGate2 && pcs' == pcs[u := WriterRetry2])
  }

  /** notify_one on gate 1. */
  ghost predicate NotifyOneGate1(pcs: map<nat, Pc>, pcs': map<nat, Pc>) {
    || (pcs' == pcs && forall u | u in pcs :: pcs[u] != WriterGate1 && pcs[u] != ReaderGate1)
    || (exists u :: u in pcs && pcs[u] == WriterGate1 && pcs' == pcs[u := WriterRetry1])
    || (exists u :: u in pcs && pcs[u] == ReaderGate1 && pcs' == pcs[u := ReaderRetry])
  }

  /** lock from its first loop on. */
  ghost predicate LockFromGate1(s: State, t: nat, s': State, limit: nat)
    requires limit > 0
  {
    if WriteEntered(s.state, limit) then s' == At(s, t, WriterGate1)
    else
      var s1 := s.(state := Word(true, Readers(s.state, limit), limit), writer := t);
      LockFromGate2(s1, t, s', limit)
  }

  /** lock from its second loop on. */
  ghost predicate LockFromGate2(s: State, t: nat, s': State, limit: nat)
    requires limit > 0
  {
    s' == At(s, t, if Readers(s.state, limit) != 0 then WriterGate2 else Exclusive)
  }

  ghost predicate LockShared(s: State, t: nat, s': State, limit: nat)
    requires limit > 0
  {
    if WriteEntered(s.state, limit) || Readers(s.state, limit) == limit - 1 then s' == At(s, t, ReaderGate1)
    else TakeShared(s, t, s', limit)
  }

  ghost predicate TakeShared(s: State, t: nat, s': State, limit: nat)
    requires limit > 0
  {
    s' == At(s, t, Shared).(state := Word(WriteEntered(s.state, limit), Readers(s.state, limit) + 1, limit),
                            holders := s.holders + {t})
  }

  ghost predicate TryLock(s: State, t: nat, s': State, limit: nat) {
    if s.state == 0 then s' == At(s, t, Exclusive).(state := Word(true, 0, limit), writer := t)
    else s' == s
  }

  ghost predicate TryLockShared(s: State, t: nat, s': State, limit: nat)
    requires limit > 0
  {
    if !WriteEntered(s.state, limit) && Readers(s.state, limit) != limit - 1 then TakeShared(s, t, s', limit)
    else s' == s
  }

  ghost predicate Unlock(s: State, t: nat, s': State) {
    s' == s.(state := 0, writer := 0, pcs := AwakeGate1(s.pcs[t := Outside]))
  }

  ghost predicate UnlockShared(s: State, t: nat, s': State, limit: nat)
    requires limit > 0
  {
    var write, readers := WriteEntered(s.state, limit), Readers(s.state, limit) - 1;
    var pcs := s.pcs[t := Outside];
    && readers >= 0
    && s'.state == Word(write, readers, limit) && s'.holders == s.holders - {t} && s'.writer == s.writer
    && if write then
         (if readers == 0 then NotifyOneGate2(pcs, s'.pcs) else s'.pcs == pcs)
       else
         (if readers == limit - 2 then NotifyOneGate1(pcs, s'.pcs) else s'.pcs == pcs)
  }

  // The timed forms wait like the others, test their condition once more when the time is up, and give up.

  ghost predicate GiveUpGate1(s: State, t: nat, s': State, limit: nat)
    requires limit > 0
  {
    WriteEntered(s.state, limit) && s' == At(s, t, Outside)
  }

  /** try_lock_until has set write_entered by then: it takes the bit back and lets the waiters of gate 1 in. */
  ghost predicate GiveUpGate2(s: State, t: nat, s': State, limit: nat)
    requires limit > 0
  {
    && Readers(s.state, limit) != 0
    && s' == s.(state := Word(false, Readers(s.state, limit), limit), writer := 0,
                pcs := AwakeGate1(s.pcs[t := Outside]))
  }

  ghost predicate GiveUpShared(s: State, t: nat, s': State, limit: nat)
    requires limit > 0
  {
    (WriteEntered(s.state, limit) || Readers(s.state, limit) == limit - 1) && s' == At(s, t, Outside)
  }

  ghost predicate Step(s: State, t: nat, s': State, limit: nat)
    requires limit > 0
  {
    t in s.pcs &&
    match s.pcs[t]
    case Outside =>
      || LockFromGate1(s, t, s', limit) || TryLock(s, t, s', limit)
      || LockShared(s, t, s', limit) || TryLockShared(s, t, s', limit)
    case WriterGate1 => s' == At(s, t, WriterRetry1)
    case WriterRetry1 => LockFromGate1(s, t, s', limit) || GiveUpGate1(s, t, s', limit)
    case WriterGate2 => s' == At(s, t, WriterRetry2)
    case WriterRetry2 => LockFromGate2(s, t, s', limit) || GiveUpGate2(s, t, s', limit)
    case Exclusive => Unlock(s, t, s')
    case ReaderGate1 => s' == At(s, t, ReaderRetry)
    case ReaderRetry => LockShared(s, t, s', limit) || GiveUpShared(s, t, s', limit)
    case Shared => UnlockShared(s, t, s', limit)
  }

  ghost predicate Init(s: State) {
    s.state == 0 && s.holders == {} && s.writer == 0 && 0 !in s.pcs && forall t | t in s.pcs :: s.pcs[t] == Outside
  }

  predicate PastGate1(pc: Pc) {
    pc == WriterGate2 || pc == WriterRetry2 || pc == Exclusive
  }

  /** The word says who holds what. */
  ghost predicate WordInv(s: State, limit: nat) {
    && limit > 1 && 0 !in s.pcs
    && |s.holders| < limit && s.state == Word(s.writer != 0, |s.holders|, limit)
    && (forall t :: t in s.holders <==> t in s.pcs && s.pcs[t] == Shared)
    && (s.writer != 0 ==> s.writer in s.pcs && PastGate1(s.pcs[s.writer]))
    && (forall t | t in s.pcs && PastGate1(s.pcs[t]) :: t == s.writer)
  }

  /** An exclusive holder excludes readers, and whoever sleeps for a writer or for readers has reason to. */
  ghost predicate GateInv(s: State) {
    && (forall t | t in s.pcs && s.pcs[t] == Exclusive :: s.holders == {})
    && (forall t | t in s.pcs && s.pcs[t] == WriterGate2 :: s.holders != {})
    && (forall t | t in s.pcs && s.pcs[t] == WriterGate1 :: s.writer != 0)
  }

  ghost predicate Inv(s: State, limit: nat) {
    WordInv(s, limit) && GateInv(s)
  }

  lemma InitInv(s: State, limit: nat)
    requires Init(s) && limit > 1
    ensures Inv(s, limit)
  {
  }

  /** Going to sleep, waking up or failing to lock changes nothing but the thread's own place. */
  lemma MoveKeeps(s: State, t: nat, pc: Pc, limit: nat)
    requires Inv(s, limit) && t in s.pcs && s.pcs[t] != Shared && pc != Shared
    requires PastGate1(pc) <==> PastGate1(s.pcs[t])
    requires pc == Exclusive || pc == WriterRetry2 ==> s.pcs[t] != Exclusive
    requires pc == Exclusive ==> s.holders == {}
    requires pc == WriterGate2 ==> s.holders != {}
    requires pc == WriterGate1 ==> s.writer != 0
    ensures Inv(At(s, t, pc), limit)
  {
  }

  lemma EnterKeeps(s: State, t: nat, limit: nat)
    requires Inv(s, limit) && t in s.pcs && s.pcs[t] != Shared && s.writer == 0
    ensures
      var pc := if s.holders == {} then Exclusive else WriterGate2;
      Inv(At(s, t, pc).(state := Word(true, |s.holders|, limit), writer := t), limit)
  {
  }

  lemma TakeSharedKeeps(s: State, t: nat, limit: nat)
    requires Inv(s, limit) && t in s.pcs && s.pcs[t] != Shared && s.writer == 0 && |s.holders| + 1 < limit
    ensures Inv(At(s, t, Shared).(state := Word(false, |s.holders| + 1, limit), holders := s.holders + {t}), limit)
  {
    assert t !in s.holders;
    assert |s.holders + {t}| == |s.holders| + 1;
  }

  lemma UnlockKeeps(s: State, t: nat, s': State, limit: nat)
    requires Inv(s, limit) && t in s.pcs && s.pcs[t] == Exclusive && Unlock(s, t, s')
    ensures Inv(s', limit)
  {
    assert s.writer == t && s.holders == {};
  }

  /** A writer that gives up at gate 2 leaves no one asleep behind a write_entered that is gone. */
  lemma GiveUpKeeps(s: State, t: nat, s': State, limit: nat)
    requires Inv(s, limit) && t in s.pcs && s.pcs[t] == WriterRetry2 && GiveUpGate2(s, t, s', limit)
    ensures Inv(s', limit) && s'.writer == 0 && s'.holders == s.holders
    ensures forall u | u in s'.pcs :: s'.pcs[u] != WriterGate1 && s'.pcs[u] != ReaderGate1
  {
    WordFields(s.writer != 0, |s.holders|, limit);
    assert s.writer == t;
  }

  predicate Wakes(pc: Pc, pc': Pc) {
    match pc
    case WriterGate2 => pc' == WriterRetry2
    case WriterGate1 => pc' == WriterRetry1
    case ReaderGate1 => pc' == ReaderRetry
    case _ => false
  }

  lemma LeaveKeeps(s: State, t: nat, s': State, limit: nat)
    requires Inv(s, limit) && t in s.pcs && s.pcs[t] == Shared
    requires s'.state == Word(s.writer != 0, |s.holders| - 1, limit)
    requires s'.holders == s.holders - {t} && s'.writer == s.writer && s'.pcs.Keys == s.pcs.Keys
    requires forall u | u in s.pcs && u != t :: s'.pcs[u] == s.pcs[u] || Wakes(s.pcs[u], s'.pcs[u])
    requires s'.pcs[t] == Outside
    requires |s.holders| == 1 && s.writer != 0 ==> s'.pcs[s.writer] != WriterGate2
    ensures Inv(s', limit)
  {
    assert t in s.holders && |s.holders - {t}| == |s.holders| - 1;
    forall u | u in s'.pcs && s'.pcs[u] == WriterGate2
      ensures s'.holders != {}
    {
      assert u == s.writer;
      assert |s'.holders| > 0;
    }
  }

  lemma UnlockSharedKeeps(s: State, t: nat, s': State, limit: nat)
    requires Inv(s, limit) && t in s.pcs && s.pcs[t] == Shared && UnlockShared(s, t, s', limit)
    ensures Inv(s', limit)
  {
    WordFields(s.writer != 0, |s.holders|, limit);
    LeaveKeeps(s, t, s', limit);
  }

  lemma WriterStepKeeps(s: State, t: nat, s': State, limit: nat)
    requires Inv(s, limit) && t in s.pcs && s.pcs[t] != Shared && !PastGate1(s.pcs[t])
    requires LockFromGate1(s, t, s', limit) || TryLock(s, t, s', limit)
    ensures Inv(s', limit)
  {
    hide WriteEntered, Readers, GateInv;
    StepFacts(s, t, limit);
    if s'.writer != s.writer {
      EnterKeeps(s, t, limit);
    } else if s' != s {
      MoveKeeps(s, t, s'.pcs[t], limit);
    }
  }

  lemma ReaderStepKeeps(s: State, t: nat, s': State, limit: nat)
    requires Inv(s, limit) && t in s.pcs && s.pcs[t] != Shared && !PastGate1(s.pcs[t])
    requires LockShared(s, t, s', limit) || TryLockShared(s, t, s', limit)
    ensures Inv(s', limit)
  {
    hide WriteEntered, Readers, GateInv;
    StepFacts(s, t, limit);
    if s'.holders != s.holders {
      TakeSharedKeeps(s, t, limit);
    } else if s' != s {
      MoveKeeps(s, t, s'.pcs[t], limit);
    }
  }

  lemma StepInv(s: State, t: nat, s': State, limit: nat)
    requires Inv(s, limit) && Step(s, t, s', limit)
    ensures Inv(s', limit)
  {
    hide WriteEntered, Readers, GateInv, LockFromGate1, TryLock, LockShared, TryLockShared, Unlock, UnlockShared,
         GiveUpGate2;
    StepFacts(s, t, limit);
    match s.pcs[t]
    case Outside =>
      if LockFromGate1(s, t, s', limit) || TryLock(s, t, s', limit) {
        WriterStepKeeps(s, t, s', limit);
      } else {
        ReaderStepKeeps(s, t, s', limit);
      }
    case WriterRetry1 =>
      if LockFromGate1(s, t, s', limit) {
        WriterStepKeeps(s, t, s', limit);
      } else {
        MoveKeeps(s, t, Outside, limit);
      }
    case WriterRetry2 =>
      if LockFromGate2(s, t, s', limit) {
        MoveKeeps(s, t, s'.pcs[t], limit);
      } else {
        GiveUpKeeps(s, t, s', limit);
      }
    case ReaderRetry =>
      if LockShared(s, t, s', limit) {
        ReaderStepKeeps(s, t, s', limit);
      } else {
        MoveKeeps(s, t, Outside, limit);
      }
    case Exclusive => UnlockKeeps(s, t, s', limit);
    case Shared => UnlockSharedKeeps(s, t, s', limit);
    case _ => MoveKeeps(s, t, s'.pcs[t], limit);
  }

  lemma StepFacts(s: State, t: nat, limit: nat)
    requires Inv(s, limit)
    ensures WriteEntered(s.state, limit) == (s.writer != 0) && Readers(s.state, limit) == |s.holders|
    ensures Readers(Word(true, |s.holders|, limit), limit) == |s.holders|
    ensures |s.holders| == 0 <==> s.holders == {}
    ensures t in s.pcs && s.pcs[t] != Shared ==> t !in s.holders
    ensures s.state == 0 ==> s.writer == 0 && s.holders == {}
  {
    WordFields(s.writer != 0, |s.holders|, limit);
    WordFields(true, |s.holders|, limit);
  }

  ghost predicate Run(ss: seq<State>, who: seq<nat>, limit: nat)
    requires limit > 0
  {
    |ss| == |who| + 1 && Init(ss[0]) && forall i | 0 <= i < |who| :: Step(ss[i], who[i], ss[i + 1], limit)
  }

  lemma {:induction false} RunInv(ss: seq<State>, who: seq<nat>, limit: nat, i: nat)
    requires limit > 1 && Run(ss, who, limit) && i < |ss|
    ensures Inv(ss[i], limit)
  {
    if i == 0 {
      InitInv(ss[0], limit);
    } else {
      RunInv(ss, who, limit, i - 1);
      StepInv(ss[i - 1], who[i - 1], ss[i], limit);
    }
  }

  /**
   In every reachable state the reader bits count the shared holders, write_entered has one owner, exclusive
   ownership excludes every other ownership, and a writer asleep at gate 2 is owed a notification by a reader that
   still holds.
   */
  lemma LockSafe(ss: seq<State>, who: seq<nat>, limit: nat, i: nat)
    requires limit > 1 && Run(ss, who, limit) && i < |ss|
    ensures
      var s := ss[i];
      && Readers(s.state, limit) == |set t | t in s.pcs && s.pcs[t] == Shared|
      && (WriteEntered(s.state, limit) <==> exists t :: t in s.pcs && PastGate1(s.pcs[t]))
      && (forall t, u | t in s.pcs && u in s.pcs && PastGate1(s.pcs[t]) && PastGate1(s.pcs[u]) :: t == u)
      && (forall t, u | t in s.pcs && u in s.pcs && s.pcs[t] == Exclusive && u != t ::
            s.pcs[u] != Exclusive && s.pcs[u] != Shared)
      && (forall t | t in s.pcs && s.pcs[t] == WriterGate2 ::
            WriteEntered(s.state, limit) && Readers(s.state, limit) > 0)
  {
    RunInv(ss, who, limit, i);
    var s := ss[i];
    WordFields(s.writer != 0, |s.holders|, limit);
    assert s.holders == set t | t in s.pcs && s.pcs[t] == Shared;
  }

  predicate Free(s: State) {
    forall u | u in s.pcs :: s.pcs[u] != Shared && !PastGate1(s.pcs[u])
  }

  /** try_lock locks exactly if no thread holds the lock in any way, and changes nothing otherwise. */
  lemma TryLockExact(s: State, t: nat, s': State, limit: nat)
    requires Inv(s, limit) && t in s.pcs && s.pcs[t] == Outside && TryLock(s, t, s', limit)
    ensures if Free(s) then s'.pcs == s.pcs[t := Exclusive] && WriteEntered(s'.state, limit) else s' == s
  {
    WordFields(s.writer != 0, |s.holders|, limit);
    WordFields(true, 0, limit);
    if s.holders != {} {
      var u :| u in s.holders;
      assert s.pcs[u] == Shared;
    }
  }

  /** try_lock_shared exactly if no writer is past gate 1 and the holders are fewer than the word can count. */
  lemma TryLockSharedExact(s: State, t: nat, s': State, limit: nat)
    requires Inv(s, limit) && t in s.pcs && s.pcs[t] == Outside && TryLockShared(s, t, s', limit)
    ensures
      if (forall u | u in s.pcs :: !PastGate1(s.pcs[u])) && |set u | u in s.pcs && s.pcs[u] == Shared| < limit - 1 then
        s'.pcs == s.pcs[t := Shared] && Readers(s'.state, limit) == Readers(s.state, limit) + 1
      else s' == s
  {
    WordFields(s.writer != 0, |s.holders|, limit);
    assert s.holders == set u | u in s.pcs && s.pcs[u] == Shared;
    if s.writer == 0 && |s.holders| < limit - 1 {
      WordFields(false, |s.holders| + 1, limit);
    }
  }

  /** lock takes a free lock, waits at gate 2 for the readers alone, and at gate 1 for another writer. */
  lemma LockExact(s: State, t: nat, s': State, limit: nat)
    requires Inv(s, limit) && t in s.pcs && s.pcs[t] in {Outside, WriterRetry1} && LockFromGate1(s, t, s', limit)
    ensures
      s'.pcs == s.pcs[t := if Free(s) then Exclusive
                           else if forall u | u in s.pcs :: !PastGate1(s.pcs[u]) then WriterGate2
                           else WriterGate1]
  {
    WordFields(s.writer != 0, |s.holders|, limit);
    WordFields(true, |s.holders|, limit);
    if s.holders != {} {
      var u :| u in s.holders;
      assert s.pcs[u] == Shared;
    }
  }

  predicate AtGate1(pc: Pc) {
    pc == WriterGate1 || pc == ReaderGate1
  }

  /** A writer's unlock leaves no one asleep at gate 1, and no one is woken elsewhere. */
  lemma UnlockWakes(s: State, t: nat, s': State, limit: nat)
    requires Inv(s, limit) && Step(s, t, s', limit) && s.pcs[t] == Exclusive
    ensures s'.state == 0 && s'.holders == {} && s'.writer == 0 && s'.pcs.Keys == s.pcs.Keys && s'.pcs[t] == Outside
    ensures forall u | u in s.pcs && u != t ::
      s'.pcs[u] == if s.pcs[u] == WriterGate1 then WriterRetry1
                   else if s.pcs[u] == ReaderGate1 then ReaderRetry
                   else s.pcs[u]
  {
  }

  /** A reader that leaves a full lock without a writer wakes one of the sleepers of gate 1. */
  lemma FullReaderWakes(s: State, t: nat, s': State, limit: nat, u: nat)
    requires Inv(s, limit) && Step(s, t, s', limit) && s.pcs[t] == Shared
    requires s.writer == 0 && |s.holders| == limit - 1 && u in s.pcs && AtGate1(s.pcs[u])
    ensures
      exists v ::
        && v in s.pcs && AtGate1(s.pcs[v]) && v != t && v in s'.pcs && !AtGate1(s'.pcs[v])
        && (forall w | w in s.pcs && w != v && w != t :: w in s'.pcs && s'.pcs[w] == s.pcs[w])
  {
    WordFields(s.writer != 0, |s.holders|, limit);
    WordFields(s.writer != 0, |s.holders| - 1, limit);
  }

  /** The last reader to leave while a writer waits at gate 2 wakes that writer. */
  lemma LastReaderWakes(s: State, t: nat, s': State, w: nat, limit: nat)
    requires Inv(s, limit) && Step(s, t, s', limit)
    requires s.pcs[t] == Shared && s.holders == {t} && w in s.pcs && s.pcs[w] == WriterGate2
    ensures w in s'.pcs && s'.pcs[w] == WriterRetry2
  {
    WordFields(s.writer != 0, |s.holders|, limit);
  }
}
