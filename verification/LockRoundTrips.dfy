/**
 What one thread does and undoes, from any state in which the records are right:
 locking and unlocking, a successful try and unlocking, a wait, and moving lock objects.
 */
module LockRoundTrips {
  import opened Wrappers
  import opened LockOwnership

  /** The thread is between operations, and the raw mutex is to be had, directly or through an object that owns nothing. */
  predicate CanLock(s: System, t: Tid, m: MutexId, via: Option<LockId>) {
    && s.reports == [] && t in s.threads && s.threads[t].pc == Idle && m in s.mutexes
    && (s.mutexes[m].holder == 0 || (s.mutexes[m].kind == Recursive && s.mutexes[m].holder == t))
    && (via.Some? ==> via.value in s.locks && s.locks[via.value] == UniqueLock(Some(m), Some(m), false, s.locks[via.value].movedFrom))
  }

  /** The state with the mutex taken once more, owned by the object, and the thread somewhere. */
  function Taken(s: System, t: Tid, m: MutexId, via: Option<LockId>, owner: Tid, count: nat, pc: Pc): System
    requires t in s.threads && m in s.mutexes
  {
    var x := s.mutexes[m];
    System(s.mutexes[m := Mutex(x.kind, t, x.depth + 1, owner, count)],
           if via.Some? && via.value in s.locks then s.locks[via.value := s.locks[via.value].(owns := true)] else s.locks,
           s.threads[t := s.threads[t].(pc := pc)],
           [])
  }

  /** What is recorded when the mutex is taken once more. */
  function CountThen(s: System, m: MutexId): nat
    requires m in s.mutexes
  {
    if s.mutexes[m].kind == Recursive then s.mutexes[m].depth + 1 else 0
  }

  lemma HeldBefore(s: System, t: Tid, m: MutexId, via: Option<LockId>)
    requires Inv(s) && CanLock(s, t, m, via)
    ensures t != 0 && m !in s.threads[t].waits
    ensures var x := s.mutexes[m];
      && x.owner == x.holder && x.count == (if x.kind == Recursive then x.depth else 0)
      && (x.holder == 0 ==> x.depth == 0) && (x.holder != 0 ==> x.depth >= 1 && x.kind == Recursive && x.holder == t)
  {
    assert Agrees(s, m) && Consistent(s, t);
  }

  lemma BeginsToLock(s: System, t: Tid, m: MutexId, via: Option<LockId>)
    requires Inv(s) && CanLock(s, t, m, via)
    ensures Enabled(s, BeginLock(t, m, via))
    ensures Step(s, BeginLock(t, m, via)) == s.(threads := s.threads[t := s.threads[t].(pc := Locking(m, via))])
  {
    HeldBefore(s, t, m, via);
  }

  lemma TakesTheMutex(s: System, t: Tid, m: MutexId, via: Option<LockId>)
    requires Inv(s) && CanLock(s, t, m, via)
    ensures var s1 := s.(threads := s.threads[t := s.threads[t].(pc := Locking(m, via))]);
      && Enabled(s1, RawLock(t))
      && Step(s1, RawLock(t)) == Taken(s, t, m, via, s.mutexes[m].owner, s.mutexes[m].count, Acquired(m, via))
  {
    HeldBefore(s, t, m, via);
  }

  lemma TriesTheMutex(s: System, t: Tid, m: MutexId, via: Option<LockId>)
    requires Inv(s) && CanLock(s, t, m, via)
    ensures Enabled(s, TryLock(t, m, via))
    ensures Step(s, TryLock(t, m, via)) == Taken(s, t, m, via, s.mutexes[m].owner, s.mutexes[m].count, Acquired(m, via))
  {
    HeldBefore(s, t, m, via);
  }

  lemma RecordsTheOwner(s: System, t: Tid, m: MutexId, via: Option<LockId>)
    requires Inv(s) && CanLock(s, t, m, via)
    ensures var s2 := Taken(s, t, m, via, s.mutexes[m].owner, s.mutexes[m].count, Acquired(m, via));
      Enabled(s2, FinishLock(t)) && Step(s2, FinishLock(t)) == Taken(s, t, m, via, t, CountThen(s, m), Idle)
  {
    HeldBefore(s, t, m, via);
  }

  lemma ClearsTheOwner(s: System, t: Tid, m: MutexId, via: Option<LockId>)
    requires Inv(s) && CanLock(s, t, m, via)
    ensures var s3 := Taken(s, t, m, via, t, CountThen(s, m), Idle);
      && Enabled(s3, BeginUnlock(t, m, via))
      && Step(s3, BeginUnlock(t, m, via)) == Taken(s, t, m, via, s.mutexes[m].owner, s.mutexes[m].count, Releasing(m, via))
  {
    HeldBefore(s, t, m, via);
  }

  lemma GivesUpTheMutex(s: System, t: Tid, m: MutexId, via: Option<LockId>)
    requires Inv(s) && CanLock(s, t, m, via)
    ensures var s4 := Taken(s, t, m, via, s.mutexes[m].owner, s.mutexes[m].count, Releasing(m, via));
      Enabled(s4, RawUnlock(t)) && Step(s4, RawUnlock(t)) == s
  {
    HeldBefore(s, t, m, via);
  }

  /**
   `lock()` on a mutex that is to be had, directly or through a lock object, gets it with
   the record of its owner and of the count, and unlocking restores everything.
   */
  lemma LockThenUnlock(s: System, t: Tid, m: MutexId, via: Option<LockId>)
    requires Inv(s) && CanLock(s, t, m, via)
    ensures var locking := [] + [BeginLock(t, m, via)] + [RawLock(t)] + [FinishLock(t)];
      && Runs(s, locking) && After(s, locking) == Taken(s, t, m, via, t, CountThen(s, m), Idle)
      && var all := locking + [BeginUnlock(t, m, via)] + [RawUnlock(t)];
      Runs(s, all) && After(s, all) == s
  {
    BeginsToLock(s, t, m, via);
    TakesTheMutex(s, t, m, via);
    RecordsTheOwner(s, t, m, via);
    hide Enabled, Step, Taken, CanLock, Inv, CountThen;
    var p: seq<Action> := [];
    OneStep(s, p, BeginLock(t, m, via));
    p := p + [BeginLock(t, m, via)];
    OneStep(s, p, RawLock(t));
    p := p + [RawLock(t)];
    OneStep(s, p, FinishLock(t));
    ThenUnlock(s, t, m, via, p + [FinishLock(t)]);
  }

  lemma ThenUnlock(s: System, t: Tid, m: MutexId, via: Option<LockId>, p: seq<Action>)
    requires Inv(s) && CanLock(s, t, m, via)
    requires Runs(s, p) && After(s, p) == Taken(s, t, m, via, t, CountThen(s, m), Idle)
    ensures var all := p + [BeginUnlock(t, m, via)] + [RawUnlock(t)];
      Runs(s, all) && After(s, all) == s
  {
    ClearsTheOwner(s, t, m, via);
    GivesUpTheMutex(s, t, m, via);
    hide Enabled, Step, Taken, CanLock, Inv, CountThen;
    OneStep(s, p, BeginUnlock(t, m, via));
    OneStep(s, p + [BeginUnlock(t, m, via)], RawUnlock(t));
  }

  /** The same for `try_lock()`, which never reports a mutex that is to be had. */
  lemma TryThenUnlock(s: System, t: Tid, m: MutexId, via: Option<LockId>)
    requires Inv(s) && CanLock(s, t, m, via)
    ensures var trying := [] + [TryLock(t, m, via)] + [FinishLock(t)];
      && Runs(s, trying) && After(s, trying) == Taken(s, t, m, via, t, CountThen(s, m), Idle)
      && var all := trying + [BeginUnlock(t, m, via)] + [RawUnlock(t)];
      Runs(s, all) && After(s, all) == s
  {
    TriesTheMutex(s, t, m, via);
    RecordsTheOwner(s, t, m, via);
    hide Enabled, Step, Taken, CanLock, Inv, CountThen;
    var p: seq<Action> := [];
    OneStep(s, p, TryLock(t, m, via));
    p := p + [TryLock(t, m, via)];
    OneStep(s, p, FinishLock(t));
    ThenUnlock(s, t, m, via, p + [FinishLock(t)]);
  }

  /** What somebody else has is not given out: no lock ends, and a try changes neither the mutex nor its lock object. */
  lemma HeldIsRefused(s: System, t: Tid, m: MutexId, via: Option<LockId>)
    requires m in s.mutexes && s.mutexes[m].holder != 0
    requires s.mutexes[m].holder != t || s.mutexes[m].kind == Plain
    ensures t in s.threads && s.threads[t].pc == Locking(m, via) ==> !Enabled(s, RawLock(t))
    ensures Enabled(s, TryLock(t, m, via)) ==>
      && Step(s, TryLock(t, m, via)).mutexes == s.mutexes && Step(s, TryLock(t, m, via)).locks == s.locks
      && Step(s, TryLock(t, m, via)).reports == []
      && Step(s, TryLock(t, m, via)).threads
         == if via == None && s.mutexes[m].kind == Recursive
            then s.threads[t := s.threads[t].(pc := Missed(m))] else s.threads
  {
  }

  // ----- waiting

  /** The thread can wait with the lock object, which owns its plain mutex and is not waited with already. */
  predicate CanWait(s: System, t: Tid, m: MutexId, l: LockId) {
    && s.reports == [] && t in s.threads && s.threads[t].pc == Idle && m in s.mutexes && m !in s.threads[t].waits
    && s.mutexes[m].kind == Plain && s.mutexes[m].holder == t
    && l in s.locks && s.locks[l].owns && s.locks[l].device == Some(m) && s.locks[l].logged == Some(m)
  }

  /** The thread is inside of the wait, asleep without the mutex or evaluating its predicate with it. */
  function Waiting(s: System, t: Tid, m: MutexId, l: LockId, asleep: bool): System
    requires t in s.threads && l in s.locks
  {
    var th := s.threads[t];
    System(s.mutexes[m := if asleep then Mutex(Plain, 0, 0, 0, 0) else Mutex(Plain, t, 1, 0, 0)],
           s.locks[l := s.locks[l].(owns := !asleep)],
           s.threads[t := Thread(if asleep then Sleeping else Idle, th.waits + [m], th.through + [l])],
           [])
  }

  lemma OwnedForWait(s: System, t: Tid, m: MutexId, l: LockId)
    requires Inv(s) && CanWait(s, t, m, l)
    ensures t != 0 && s.mutexes[m] == Mutex(Plain, t, 1, t, 0) && |s.threads[t].waits| == |s.threads[t].through|
  {
    assert Agrees(s, m) && Consistent(s, t);
  }

  lemma WaitStarts(s: System, t: Tid, m: MutexId, l: LockId)
    requires Inv(s) && CanWait(s, t, m, l)
    ensures Enabled(s, BeginWait(t, l)) && Step(s, BeginWait(t, l)) == Waiting(s, t, m, l, false)
  {
    OwnedForWait(s, t, m, l);
    assert s.locks[l := s.locks[l].(owns := true)] == s.locks;
  }

  lemma WaitSleeps(s: System, t: Tid, m: MutexId, l: LockId)
    requires Inv(s) && CanWait(s, t, m, l)
    ensures var s1, s2 := Waiting(s, t, m, l, false), Waiting(s, t, m, l, true);
      Enabled(s1, Sleep(t)) && Step(s1, Sleep(t)) == s2
  {
    OwnedForWait(s, t, m, l);
  }

  lemma WaitWakes(s: System, t: Tid, m: MutexId, l: LockId)
    requires Inv(s) && CanWait(s, t, m, l)
    ensures var s1, s2 := Waiting(s, t, m, l, false), Waiting(s, t, m, l, true);
      Enabled(s2, Wake(t)) && Step(s2, Wake(t)) == s1
  {
    OwnedForWait(s, t, m, l);
  }

  lemma WaitLeaves(s: System, t: Tid, m: MutexId, l: LockId)
    requires Inv(s) && CanWait(s, t, m, l)
    ensures var s1 := Waiting(s, t, m, l, false);
      Enabled(s1, EndWait(t)) && Step(s1, EndWait(t)) == s
  {
    OwnedForWait(s, t, m, l);
    var th := s.threads[t];
    assert (th.waits + [m])[..|th.waits|] == th.waits && (th.through + [l])[..|th.through|] == th.through;
  }

  lemma {:induction false} NapsLeadBack(s: System, t: Tid, m: MutexId, l: LockId, times: nat)
    requires Inv(s) && CanWait(s, t, m, l)
    ensures Runs(s, Naps(t, l, times)) && After(s, Naps(t, l, times)) == Waiting(s, t, m, l, false)
  {
    if times == 0 {
      WaitStarts(s, t, m, l);
      hide Enabled, Step, Waiting, CanWait, Inv;
      OneStep(s, [], BeginWait(t, l));
    } else {
      hide Enabled, Step, Waiting, CanWait, Inv, Runs, After;
      NapsLeadBack(s, t, m, l, times - 1);
      OneMoreNap(s, t, m, l, Naps(t, l, times - 1));
    }
  }

  lemma OneMoreNap(s: System, t: Tid, m: MutexId, l: LockId, p: seq<Action>)
    requires Inv(s) && CanWait(s, t, m, l) && Runs(s, p) && After(s, p) == Waiting(s, t, m, l, false)
    ensures Runs(s, p + [Sleep(t)] + [Wake(t)])
    ensures After(s, p + [Sleep(t)] + [Wake(t)]) == Waiting(s, t, m, l, false)
  {
    WaitSleeps(s, t, m, l);
    WaitWakes(s, t, m, l);
    hide Enabled, Step, Waiting, CanWait, Inv, Runs, After;
    OneStep(s, p, Sleep(t));
    OneStep(s, p + [Sleep(t)], Wake(t));
  }

  /** A wait that sleeps any number of times gives up the mutex and the ownership of its object, and restores both. */
  lemma WaitAndReturn(s: System, t: Tid, m: MutexId, l: LockId, times: nat)
    requires Inv(s) && CanWait(s, t, m, l)
    ensures Runs(s, Naps(t, l, times) + [Sleep(t)])
    ensures After(s, Naps(t, l, times) + [Sleep(t)]) == Waiting(s, t, m, l, true)
    ensures Runs(s, Naps(t, l, times) + [EndWait(t)]) && After(s, Naps(t, l, times) + [EndWait(t)]) == s
  {
    NapsLeadBack(s, t, m, l, times);
    WaitSleeps(s, t, m, l);
    WaitLeaves(s, t, m, l);
    hide Enabled, Step, Waiting, CanWait, Inv, Naps;
    OneStep(s, Naps(t, l, times), Sleep(t));
    OneStep(s, Naps(t, l, times), EndWait(t));
  }

  /** Entering a wait, and falling asleep and waking up in it. */
  function Naps(t: Tid, l: LockId, times: nat): seq<Action> {
    if times == 0 then [] + [BeginWait(t, l)] else Naps(t, l, times - 1) + [Sleep(t)] + [Wake(t)]
  }

  // ----- lock objects

  /** A move is always possible onto another object that owns nothing, and is felt by the two objects only. */
  lemma MoveStep(s: System, a: Action)
    requires s.reports == [] && a.t in s.threads && s.threads[a.t].pc == Idle
    requires a.MoveConstruct? || a.MoveAssign?
    requires a.from in s.locks && a.from != a.to
    requires if a.MoveConstruct? then a.to !in s.locks else a.to in s.locks && !s.locks[a.to].owns
    ensures Enabled(s, a)
    ensures var s' := Step(s, a);
      && s'.mutexes == s.mutexes && s'.threads == s.threads && s'.reports == []
      && s'.locks.Keys == s.locks.Keys + {a.to}
      && s'.locks[a.to] == s.locks[a.from]
      && s'.locks[a.from] == UniqueLock(s.locks[a.from].logged, None, false, true)
      && forall l :: l in s.locks && l != a.to && l != a.from ==> s'.locks[l] == s.locks[l]
  {
  }

  /** An object is made without ownership, and goes without a trace. */
  lemma MakeAndDestroy(s: System, t: Tid, l: LockId, on: Option<MutexId>)
    requires s.reports == [] && t in s.threads && s.threads[t].pc == Idle && l !in s.locks
    requires on.Some? ==> on.value in s.mutexes
    ensures var make, destroy := NewLock(t, l, on), Destroy(t, l);
      && Enabled(s, make) && Step(s, make) == s.(locks := s.locks[l := UniqueLock(on, on, false, false)])
      && Enabled(Step(s, make), destroy) && Step(Step(s, make), destroy) == s
  {
    assert s.locks[l := UniqueLock(on, on, false, false)] - {l} == s.locks;
  }
}
