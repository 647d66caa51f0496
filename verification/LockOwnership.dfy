/**
 Ownership tracking of logged locks as a state machine.  `owner_` and
 `lock_count_` shadow a raw mutex and are written in steps of their own, so
 other threads can see the two out of step.  A run is any interleaving of the
 micro-steps below by threads that unlock only what they hold.
 */
module LockOwnership {
  import opened Wrappers

  /** Thread identifiers; 0 stands for "nobody", as in `owner_`. */
  type Tid = nat
  type MutexId = nat
  type LockId = nat

  datatype Kind = Plain | Recursive

  /** The raw mutex (`holder`, `depth`) and what the wrapper records about it. */
  datatype Mutex = Mutex(kind: Kind, holder: Tid, depth: nat, owner: Tid, count: nat)

  /** A `UniqueLock`: its logged mutex, and the raw mutex that its `std::unique_lock` manages. */
  datatype UniqueLock = UniqueLock(logged: Option<MutexId>, device: Option<MutexId>, owns: bool, movedFrom: bool)

  /** Where a thread is inside an operation; `via` is the lock object it goes through, if any. */
  datatype Pc =
    | Idle
    | Locking(m: MutexId, via: Option<LockId>)     // checked, waiting for the raw mutex
    | Acquired(m: MutexId, via: Option<LockId>)    // has the raw mutex, owner not set yet
    | Releasing(m: MutexId, via: Option<LockId>)   // owner cleared, still has the raw mutex
    | Missed(m: MutexId)                           // recursive try failed, count not read yet
    | MissedCounted(m: MutexId)                    // the same with the count read, but not the owner
    | Sleeping                                     // in the innermost wait, raw mutex given up

  /**
   A thread, and the mutexes of the condition waits that it is inside of, innermost
   last: for each the owner is cleared while the caller's predicate is evaluated,
   which may lock, unlock and wait itself.  `through` are the lock objects waited with.
   */
  datatype Thread = Thread(pc: Pc, waits: seq<MutexId>, through: seq<LockId>) {
    function WaitMutex(): MutexId
      requires waits != []
    {
      waits[|waits| - 1]
    }

    /** The lock object of the innermost wait. */
    function WaitLock(): Option<LockId> {
      if through == [] then None else Some(through[|through| - 1])
    }

    /** The mutex that the thread is in the middle of an operation on. */
    function Target(): Option<MutexId> {
      match pc
      case Idle => None
      case Sleeping => if waits == [] then None else Some(WaitMutex())
      case Locking(m, _) => Some(m)
      case Acquired(m, _) => Some(m)
      case Releasing(m, _) => Some(m)
      case Missed(m) => Some(m)
      case MissedCounted(m) => Some(m)
    }
  }

  datatype Report =
    | Deadlock(t: Tid, m: MutexId)
    | ReplaceOwner(t: Tid, m: MutexId)
    | ClearUnowned(t: Tid, m: MutexId)
    | StealOwner(t: Tid, m: MutexId)
    | CountTooSmall(t: Tid, m: MutexId)
    | UnrefAtZero(t: Tid, m: MutexId)
    | TrySucceeded(t: Tid, m: MutexId)
    | TryFailed(t: Tid, m: MutexId)
    | WaitForeign(t: Tid, m: MutexId)

  datatype System = System(
    mutexes: map<MutexId, Mutex>,
    locks: map<LockId, UniqueLock>,
    threads: map<Tid, Thread>,
    reports: seq<Report>)

  datatype Action =
    | BeginLock(t: Tid, m: MutexId, via: Option<LockId>)
    | RawLock(t: Tid)
    | FinishLock(t: Tid)
    | TryLock(t: Tid, m: MutexId, via: Option<LockId>)
    | ReadCount(t: Tid)
    | ReadOwner(t: Tid)
    | BeginUnlock(t: Tid, m: MutexId, via: Option<LockId>)
    | RawUnlock(t: Tid)
    | BeginWait(t: Tid, l: LockId)
    | Sleep(t: Tid)
    | Wake(t: Tid)
    | EndWait(t: Tid)
    | NewLock(t: Tid, l: LockId, on: Option<MutexId>)
    | MoveConstruct(t: Tid, to: LockId, from: LockId)
    | MoveAssign(t: Tid, to: LockId, from: LockId)
    | Destroy(t: Tid, l: LockId)

  // ----- the bookkeeping of the wrappers

  /** `about_to_lock`: only a plain mutex reports. */
  function AboutToLock(x: Mutex, t: Tid, m: MutexId): seq<Report> {
    if x.kind == Plain && x.owner == t then [Deadlock(t, m)] else []
  }

  /** `set_owner` and `ref_owner`. */
  function SetOwner(x: Mutex, t: Tid, m: MutexId): (Mutex, seq<Report>) {
    match x.kind
    case Plain => (x.(owner := t), if x.owner != 0 then [ReplaceOwner(t, m)] else [])
    case Recursive =>
      if x.owner == t then
        (x.(count := x.count + 1), if x.count + 1 <= 1 then [CountTooSmall(t, m)] else [])
      else
        (x.(count := x.count + 1, owner := t), if x.owner != 0 then [ReplaceOwner(t, m)] else [])
  }

  /** `lock_count_` is a `size_t`. */
  const COUNT_LIMIT: nat := 0x1_0000_0000_0000_0000

  /** `clear_owner` and `unref_owner`. */
  function ClearOwner(x: Mutex, t: Tid, m: MutexId): (Mutex, seq<Report>) {
    var r :=
      if x.owner == 0 then [ClearUnowned(t, m)]
      else if x.owner != t then [StealOwner(t, m)]
      else if x.kind == Recursive && x.count == 0 then [UnrefAtZero(t, m)]
      else [];
    match x.kind
    case Plain => (x.(owner := 0), r)
    case Recursive =>
      var count := if x.count == 0 then COUNT_LIMIT - 1 else x.count - 1;
      (x.(count := count, owner := if count == 0 then 0 else x.owner), r)
  }

  // ----- the raw mutex

  predicate Available(x: Mutex, t: Tid) {
    x.holder == 0 || (x.kind == Recursive && x.holder == t)
  }

  function Take(x: Mutex, t: Tid): Mutex {
    x.(holder := t, depth := x.depth + 1)
  }

  function Release(x: Mutex): Mutex {
    if x.depth <= 1 then x.(holder := 0, depth := 0) else x.(depth := x.depth - 1)
  }

  // ----- steps

  predicate IsIdle(s: System, t: Tid) {
    t in s.threads && s.threads[t].pc == Idle
  }

  /** The thread is between operations and the mutex exists. */
  predicate Ready(s: System, t: Tid, m: MutexId) {
    IsIdle(s, t) && m in s.mutexes
  }

  /** The lock object manages this very mutex. */
  predicate Manages(s: System, via: Option<LockId>, m: MutexId) {
    via.Some? ==>
      via.value in s.locks && s.locks[via.value].device == Some(m) && s.locks[via.value].logged == Some(m)
  }

  predicate Owns(s: System, via: Option<LockId>, owns: bool) {
    via.Some? && via.value in s.locks ==> s.locks[via.value].owns == owns
  }

  /** The mutex that a thread in the middle of an operation works on exists. */
  predicate Busy(s: System, t: Tid) {
    t in s.threads && s.threads[t].Target().Some? && s.threads[t].Target().value in s.mutexes
  }

  /** The thread evaluates the predicate of its innermost wait. */
  predicate InPredicate(s: System, t: Tid) {
    IsIdle(s, t) && s.threads[t].waits != [] && s.threads[t].WaitMutex() in s.mutexes
  }

  /**
   What the environment may do; nothing happens any more after a report.  A lock
   object that owns its mutex throws instead of locking again, so such a `lock()`
   ends behind its check.
   */
  predicate Enabled(s: System, a: Action) {
    s.reports == [] &&
    match a
    case BeginLock(t, m, via) =>
      Ready(s, t, m) && Manages(s, via, m)
    case RawLock(t) =>
      Busy(s, t) && s.threads[t].pc.Locking? && Available(s.mutexes[s.threads[t].pc.m], t)
      && Owns(s, s.threads[t].pc.via, false)
    case FinishLock(t) => Busy(s, t) && s.threads[t].pc.Acquired?
    case TryLock(t, m, via) => Ready(s, t, m) && Manages(s, via, m) && Owns(s, via, false)
    case ReadCount(t) => Busy(s, t) && s.threads[t].pc.Missed?
    case ReadOwner(t) => Busy(s, t) && s.threads[t].pc.MissedCounted?
    case BeginUnlock(t, m, via) =>
      Ready(s, t, m) && Manages(s, via, m) && Owns(s, via, true) && s.mutexes[m].holder == t
    case RawUnlock(t) => Busy(s, t) && s.threads[t].pc.Releasing?
    case BeginWait(t, l) =>
      l in s.locks && s.locks[l].device.Some? && Ready(s, t, s.locks[l].device.value)
      && Manages(s, Some(l), s.locks[l].device.value) && s.locks[l].owns
      && s.mutexes[s.locks[l].device.value].kind == Plain && s.mutexes[s.locks[l].device.value].holder == t
    case Sleep(t) => InPredicate(s, t)
    case Wake(t) => Busy(s, t) && s.threads[t].pc.Sleeping? && s.mutexes[s.threads[t].WaitMutex()].holder == 0
    case EndWait(t) => InPredicate(s, t)
    case NewLock(t, l, on) => IsIdle(s, t) && l !in s.locks && (on.Some? ==> on.value in s.mutexes)
    case MoveConstruct(t, to, from) => IsIdle(s, t) && to !in s.locks && from in s.locks
    case MoveAssign(t, to, from) => IsIdle(s, t) && to in s.locks && from in s.locks && to != from && !s.locks[to].owns
    case Destroy(t, l) => IsIdle(s, t) && l in s.locks && !s.locks[l].owns
  }

  function WithOwns(locks: map<LockId, UniqueLock>, via: Option<LockId>, owns: bool): map<LockId, UniqueLock> {
    if via.Some? && via.value in locks then locks[via.value := locks[via.value].(owns := owns)] else locks
  }

  /** A mutex, a thread and the reports after one step of `t`. */
  function Moved(s: System, t: Tid, m: MutexId, x: Mutex, th: Thread, reports: seq<Report>): System {
    s.(mutexes := s.mutexes[m := x], threads := s.threads[t := th], reports := s.reports + reports)
  }

  function Step(s: System, a: Action): System
    requires Enabled(s, a)
  {
    match a
    case BeginLock(t, m, via) =>
      Moved(s, t, m, s.mutexes[m], s.threads[t].(pc := Locking(m, via)), AboutToLock(s.mutexes[m], t, m))
    case RawLock(t) =>
      var m, via := s.threads[t].pc.m, s.threads[t].pc.via;
      Moved(s, t, m, Take(s.mutexes[m], t), s.threads[t].(pc := Acquired(m, via)), [])
        .(locks := WithOwns(s.locks, via, true))
    case FinishLock(t) =>
      var m := s.threads[t].pc.m;
      var r := SetOwner(s.mutexes[m], t, m);
      Moved(s, t, m, r.0, s.threads[t].(pc := Idle), r.1)
    case TryLock(t, m, via) =>
      var x := s.mutexes[m];
      if Available(x, t) then
        Moved(s, t, m, Take(x, t), s.threads[t].(pc := Acquired(m, via)),
              if x.kind == Recursive && via == None && x.count > 0 && x.owner != t then [TrySucceeded(t, m)] else [])
          .(locks := WithOwns(s.locks, via, true))
      else if x.kind == Recursive && via == None then
        Moved(s, t, m, x, s.threads[t].(pc := Missed(m)), [])
      else s
    case ReadCount(t) =>
      var m := s.threads[t].pc.m;
      var suspicious := s.mutexes[m].count == 0;
      Moved(s, t, m, s.mutexes[m], s.threads[t].(pc := if suspicious then Idle else MissedCounted(m)),
            if suspicious then [TryFailed(t, m)] else [])
    case ReadOwner(t) =>
      var m := s.threads[t].pc.m;
      Moved(s, t, m, s.mutexes[m], s.threads[t].(pc := Idle), if s.mutexes[m].owner == t then [TryFailed(t, m)] else [])
    case BeginUnlock(t, m, via) =>
      var r := ClearOwner(s.mutexes[m], t, m);
      Moved(s, t, m, r.0, s.threads[t].(pc := Releasing(m, via)), r.1)
    case RawUnlock(t) =>
      var m, via := s.threads[t].pc.m, s.threads[t].pc.via;
      Moved(s, t, m, Release(s.mutexes[m]), s.threads[t].(pc := Idle), []).(locks := WithOwns(s.locks, via, false))
    case BeginWait(t, l) =>
      var m := s.locks[l].device.value;
      var r := ClearOwner(s.mutexes[m], t, m);
      Moved(s, t, m, r.0, s.threads[t].(waits := s.threads[t].waits + [m], through := s.threads[t].through + [l]),
            (if s.mutexes[m].owner != t then [WaitForeign(t, m)] else []) + r.1)
    case Sleep(t) =>
      var m := s.threads[t].WaitMutex();
      Moved(s, t, m, Release(s.mutexes[m]), s.threads[t].(pc := Sleeping), [])
        .(locks := WithOwns(s.locks, s.threads[t].WaitLock(), false))
    case Wake(t) =>
      var m := s.threads[t].WaitMutex();
      Moved(s, t, m, Take(s.mutexes[m], t), s.threads[t].(pc := Idle), [])
        .(locks := WithOwns(s.locks, s.threads[t].WaitLock(), true))
    case EndWait(t) =>
      var m := s.threads[t].WaitMutex();
      var r := SetOwner(s.mutexes[m], t, m);
      Moved(s, t, m, r.0, LeftWait(s.threads[t]), r.1)
    case NewLock(t, l, on) => s.(locks := s.locks[l := UniqueLock(on, on, false, false)])
    case MoveConstruct(t, to, from) => s.(locks := MoveInto(s.locks, to, from))
    case MoveAssign(t, to, from) => s.(locks := MoveInto(s.locks, to, from))
    case Destroy(t, l) => s.(locks := s.locks - {l})
  }

  function LeftWait(th: Thread): Thread
    requires th.waits != []
  {
    th.(waits := th.waits[..|th.waits| - 1],
        through := if th.through == [] then [] else th.through[..|th.through| - 1])
  }

  /** The target becomes what the source was; the source keeps its logged mutex but manages nothing. */
  function MoveInto(locks: map<LockId, UniqueLock>, to: LockId, from: LockId): map<LockId, UniqueLock>
    requires from in locks
  {
    locks[to := locks[from]][from := locks[from].(device := None, owns := false, movedFrom := true)]
  }

  // ----- what holds in every reachable state

  /** Between taking the raw mutex and recording it, between clearing the record and giving it up, or in a wait. */
  predicate MidStep(th: Thread, m: MutexId) {
    || ((th.pc.Acquired? || th.pc.Releasing?) && th.pc.m == m)
    || (m in th.waits && !(th.pc.Sleeping? && m == th.WaitMutex()))
  }

  /** The record agrees with the raw mutex, up to the step its holder is in the middle of. */
  predicate Agrees(s: System, m: MutexId)
    requires m in s.mutexes
  {
    var x := s.mutexes[m];
    if x.holder == 0 then x.depth == 0 && x.owner == 0 && x.count == 0
    else
      && x.holder in s.threads
      && x.depth >= 1
      && var mid := MidStep(s.threads[x.holder], m);
      match x.kind
      case Plain => x.depth == 1 && x.count == 0 && x.owner == (if mid then 0 else x.holder)
      case Recursive =>
        && x.count == (if mid then x.depth - 1 else x.depth)
        && x.owner == (if x.count == 0 then 0 else x.holder)
  }

  /** The waits of a thread are on different plain mutexes, and it has all that it does not sleep on. */
  predicate WaitsConsistent(s: System, t: Tid)
    requires t in s.threads
  {
    var th := s.threads[t];
    && |th.through| == |th.waits|
    && (forall m :: m in th.waits ==> m in s.mutexes && s.mutexes[m].kind == Plain)
    && (forall m :: m in th.waits && !(th.pc.Sleeping? && m == th.WaitMutex()) ==> s.mutexes[m].holder == t)
    && (forall i, j :: 0 <= i < j < |th.waits| ==> th.waits[i] != th.waits[j])
  }

  /** A thread in the middle of a step has the mutex, one that waits for a plain mutex has it in a predicate only. */
  predicate Consistent(s: System, t: Tid)
    requires t in s.threads
  {
    var th := s.threads[t];
    && t != 0
    && WaitsConsistent(s, t)
    && (th.pc != Idle ==> th.Target().Some? && th.Target().value in s.mutexes)
    && match th.pc
       case Idle => true
       case Locking(m, _) => s.mutexes[m].kind == Plain && s.mutexes[m].holder == t ==> m in th.waits
       case Acquired(m, _) => s.mutexes[m].holder == t && m !in th.waits
       case Releasing(m, _) => s.mutexes[m].holder == t && m !in th.waits
       case Missed(m) => s.mutexes[m].kind == Recursive && s.mutexes[m].holder != t
       case MissedCounted(m) => s.mutexes[m].kind == Recursive && s.mutexes[m].holder != t
       case Sleeping => s.mutexes[th.WaitMutex()].holder != t
  }

  ghost predicate Inv(s: System) {
    && (forall m :: m in s.mutexes ==> Agrees(s, m))
    && (forall t :: t in s.threads ==> Consistent(s, t))
  }

  /** All mutexes free, all threads idle. */
  ghost predicate Init(s: System) {
    && (forall m :: m in s.mutexes ==> s.mutexes[m] == Mutex(s.mutexes[m].kind, 0, 0, 0, 0))
    && (forall t :: t in s.threads ==> s.threads[t] == Thread(Idle, [], []) && t != 0)
    && s.locks == map[] && s.reports == []
  }

  /** What one step of `t` on `m` has to leave behind for everything else to be as it should be. */
  lemma MovedKeepsInv(s: System, t: Tid, m: MutexId, x: Mutex, th: Thread, locks: map<LockId, UniqueLock>)
    requires Inv(s) && t in s.threads && m in s.mutexes
    requires forall m' :: m' != m ==> (MidStep(s.threads[t], m') <==> MidStep(th, m'))
    requires x.kind == s.mutexes[m].kind
    requires x == s.mutexes[m] || (s.mutexes[m].holder in {0, t} && x.holder in {0, t})
    requires var s' := Moved(s, t, m, x, th, []).(locks := locks); Agrees(s', m) && Consistent(s', t)
    ensures Inv(Moved(s, t, m, x, th, []).(locks := locks))
  {
    var s' := Moved(s, t, m, x, th, []).(locks := locks);
    forall m' | m' in s'.mutexes ensures Agrees(s', m') {
      if m' != m {
        assert Agrees(s, m');
        assert s'.mutexes[m'] == s.mutexes[m'];
      }
    }
    forall t' | t' in s'.threads ensures Consistent(s', t') {
      if t' != t {
        OthersKeep(s, t, m, x, th, locks, t');
      }
    }
  }

  lemma OthersKeep(s: System, t: Tid, m: MutexId, x: Mutex, th: Thread, locks: map<LockId, UniqueLock>, t': Tid)
    requires t' in s.threads && Consistent(s, t') && t' != t && m in s.mutexes && x.kind == s.mutexes[m].kind
    requires x == s.mutexes[m] || (s.mutexes[m].holder in {0, t} && x.holder in {0, t})
    ensures Consistent(Moved(s, t, m, x, th, []).(locks := locks), t')
  {
    var s' := Moved(s, t, m, x, th, []).(locks := locks);
    assert s'.threads[t'] == s.threads[t'];
  }

  /** Nobody has the mutex, or its holder has it once and is in the middle of a step: the record says nothing. */
  predicate Unrecorded(s: System, m: MutexId)
    requires m in s.mutexes
  {
    var x := s.mutexes[m];
    x.holder == 0 || (x.holder in s.threads && MidStep(s.threads[x.holder], m) && x.depth == 1)
  }

  /** All the reports there can be, in terms of the raw mutexes and of what threads are doing. */
  function Expected(s: System, a: Action): seq<Report>
    requires Enabled(s, a)
  {
    match a
    case BeginLock(t, m, _) =>
      if s.mutexes[m].kind == Plain && s.mutexes[m].holder == t && m !in s.threads[t].waits then [Deadlock(t, m)] else []
    case BeginUnlock(t, m, _) => if m in s.threads[t].waits then [ClearUnowned(t, m)] else []
    case BeginWait(t, l) =>
      var m := s.locks[l].device.value;
      if m in s.threads[t].waits then [WaitForeign(t, m), ClearUnowned(t, m)] else []
    case ReadCount(t) =>
      var m := s.threads[t].pc.m;
      if Unrecorded(s, m) then [TryFailed(t, m)] else []
    case _ => []
  }

  /** A step that changes nothing but the mutex it works on, its thread, and perhaps lock objects. */
  predicate WorksOn(s: System, a: Action, m: MutexId)
    requires Enabled(s, a) && a.t in s.threads && m in s.mutexes
  {
    var s' := Step(s, a);
    && m in s'.mutexes && a.t in s'.threads
    && s' == Moved(s, a.t, m, s'.mutexes[m], s'.threads[a.t], Expected(s, a)).(locks := s'.locks)
  }

  lemma BeginLockStep(s: System, a: Action)
    requires Inv(s) && Enabled(s, a) && a.BeginLock?
    ensures Step(s, a).reports == Expected(s, a)
    ensures Step(s, a).reports == [] ==> Inv(Step(s, a))
  {
    var t := a.t;
    assert Consistent(s, t);
    var m := a.m;
    assert Agrees(s, m);
    var s' := Step(s, a);
    if s'.reports == [] {
      assert WorksOn(s, a, m);
      MovedKeepsInv(s, t, m, s'.mutexes[m], s'.threads[t], s'.locks);
    }
  }

  lemma RawLockStep(s: System, a: Action)
    requires Inv(s) && Enabled(s, a) && a.RawLock?
    ensures Step(s, a).reports == Expected(s, a)
    ensures Step(s, a).reports == [] ==> Inv(Step(s, a))
  {
    var t := a.t;
    assert Consistent(s, t);
    var m := s.threads[t].pc.m;
    assert Agrees(s, m);
    var s' := Step(s, a);
    if s'.reports == [] {
      assert WorksOn(s, a, m);
      MovedKeepsInv(s, t, m, s'.mutexes[m], s'.threads[t], s'.locks);
    }
  }

  lemma FinishLockStep(s: System, a: Action)
    requires Inv(s) && Enabled(s, a) && a.FinishLock?
    ensures Step(s, a).reports == Expected(s, a)
    ensures Step(s, a).reports == [] ==> Inv(Step(s, a))
  {
    var t := a.t;
    assert Consistent(s, t);
    var m := s.threads[t].pc.m;
    assert Agrees(s, m);
    var s' := Step(s, a);
    if s'.reports == [] {
      assert WorksOn(s, a, m);
      MovedKeepsInv(s, t, m, s'.mutexes[m], s'.threads[t], s'.locks);
    }
  }

  lemma TakenTryStep(s: System, a: Action)
    requires Inv(s) && Enabled(s, a) && a.TryLock? && Available(s.mutexes[a.m], a.t)
    ensures Step(s, a).reports == Expected(s, a)
    ensures Step(s, a).reports == [] ==> Inv(Step(s, a))
  {
    var t := a.t;
    assert Consistent(s, t);
    var m := a.m;
    assert Agrees(s, m);
    var s' := Step(s, a);
    if s'.reports == [] {
      assert WorksOn(s, a, m);
      MovedKeepsInv(s, t, m, s'.mutexes[m], s'.threads[t], s'.locks);
    }
  }

  lemma MissedTryStep(s: System, a: Action)
    requires Inv(s) && Enabled(s, a) && a.TryLock? && !Available(s.mutexes[a.m], a.t)
    ensures Step(s, a).reports == Expected(s, a)
    ensures Step(s, a).reports == [] ==> Inv(Step(s, a))
  {
    var t := a.t;
    assert Consistent(s, t);
    var m := a.m;
    assert Agrees(s, m);
    var s' := Step(s, a);
    if s'.reports == [] && s' != s {
      assert WorksOn(s, a, m);
      MovedKeepsInv(s, t, m, s'.mutexes[m], s'.threads[t], s'.locks);
    }
  }

  lemma ReadCountStep(s: System, a: Action)
    requires Inv(s) && Enabled(s, a) && a.ReadCount?
    ensures Step(s, a).reports == Expected(s, a)
    ensures Step(s, a).reports == [] ==> Inv(Step(s, a))
  {
    var t := a.t;
    assert Consistent(s, t);
    var m := s.threads[t].pc.m;
    assert Agrees(s, m);
    var s' := Step(s, a);
    if s'.reports == [] {
      assert WorksOn(s, a, m);
      MovedKeepsInv(s, t, m, s'.mutexes[m], s'.threads[t], s'.locks);
    }
  }

  lemma ReadOwnerStep(s: System, a: Action)
    requires Inv(s) && Enabled(s, a) && a.ReadOwner?
    ensures Step(s, a).reports == Expected(s, a)
    ensures Step(s, a).reports == [] ==> Inv(Step(s, a))
  {
    var t := a.t;
    assert Consistent(s, t);
    var m := s.threads[t].pc.m;
    assert Agrees(s, m);
    var s' := Step(s, a);
    if s'.reports == [] {
      assert WorksOn(s, a, m);
      MovedKeepsInv(s, t, m, s'.mutexes[m], s'.threads[t], s'.locks);
    }
  }

  lemma BeginUnlockStep(s: System, a: Action)
    requires Inv(s) && Enabled(s, a) && a.BeginUnlock?
    ensures Step(s, a).reports == Expected(s, a)
    ensures Step(s, a).reports == [] ==> Inv(Step(s, a))
  {
    var t := a.t;
    assert Consistent(s, t);
    var m := a.m;
    assert Agrees(s, m);
    var s' := Step(s, a);
    if s'.reports == [] {
      assert WorksOn(s, a, m);
      MovedKeepsInv(s, t, m, s'.mutexes[m], s'.threads[t], s'.locks);
    }
  }

  lemma RawUnlockStep(s: System, a: Action)
    requires Inv(s) && Enabled(s, a) && a.RawUnlock?
    ensures Step(s, a).reports == Expected(s, a)
    ensures Step(s, a).reports == [] ==> Inv(Step(s, a))
  {
    var t := a.t;
    assert Consistent(s, t);
    var m := s.threads[t].pc.m;
    assert Agrees(s, m);
    var s' := Step(s, a);
    if s'.reports == [] {
      assert WorksOn(s, a, m);
      MovedKeepsInv(s, t, m, s'.mutexes[m], s'.threads[t], s'.locks);
    }
  }

  lemma BeginWaitStep(s: System, a: Action)
    requires Inv(s) && Enabled(s, a) && a.BeginWait?
    ensures Step(s, a).reports == Expected(s, a)
    ensures Step(s, a).reports == [] ==> Inv(Step(s, a))
  {
    WaitReports(s, a);
    hide Inv;
    if Step(s, a).reports == [] {
      WaitBegun(s, a);
    }
  }

  lemma WaitReports(s: System, a: Action)
    requires Inv(s) && Enabled(s, a) && a.BeginWait?
    ensures Step(s, a).reports == Expected(s, a)
    ensures a.t in s.threads && a.l in s.locks && s.locks[a.l].device.Some?
    ensures Expected(s, a) == [] ==> s.locks[a.l].device.value !in s.threads[a.t].waits
  {
    assert Consistent(s, a.t);
    assert Agrees(s, s.locks[a.l].device.value);
  }

  lemma WaitBegun(s: System, a: Action)
    requires Inv(s) && Enabled(s, a) && a.BeginWait? && Step(s, a).reports == [] && Expected(s, a) == []
    requires a.t in s.threads && a.l in s.locks && s.locks[a.l].device.Some?
    requires s.locks[a.l].device.value !in s.threads[a.t].waits
    ensures Inv(Step(s, a))
  {
    var t, m := a.t, s.locks[a.l].device.value;
    assert Consistent(s, t);
    assert Agrees(s, m);
    var s' := Step(s, a);
    assert WorksOn(s, a, m);
    MovedKeepsInv(s, t, m, s'.mutexes[m], s'.threads[t], s'.locks);
  }

  lemma SleepStep(s: System, a: Action)
    requires Inv(s) && Enabled(s, a) && a.Sleep?
    ensures Step(s, a).reports == Expected(s, a)
    ensures Step(s, a).reports == [] ==> Inv(Step(s, a))
  {
    var t := a.t;
    assert Consistent(s, t);
    var m := s.threads[t].WaitMutex();
    assert Agrees(s, m);
    var s' := Step(s, a);
    if s'.reports == [] {
      assert WorksOn(s, a, m);
      MovedKeepsInv(s, t, m, s'.mutexes[m], s'.threads[t], s'.locks);
    }
  }

  lemma WakeStep(s: System, a: Action)
    requires Inv(s) && Enabled(s, a) && a.Wake?
    ensures Step(s, a).reports == Expected(s, a)
    ensures Step(s, a).reports == [] ==> Inv(Step(s, a))
  {
    var t := a.t;
    assert Consistent(s, t);
    var m := s.threads[t].WaitMutex();
    assert Agrees(s, m);
    var s' := Step(s, a);
    if s'.reports == [] {
      assert WorksOn(s, a, m);
      MovedKeepsInv(s, t, m, s'.mutexes[m], s'.threads[t], s'.locks);
    }
  }

  lemma EndWaitStep(s: System, a: Action)
    requires Inv(s) && Enabled(s, a) && a.EndWait?
    ensures Step(s, a).reports == Expected(s, a)
    ensures Step(s, a).reports == [] ==> Inv(Step(s, a))
  {
    var t := a.t;
    assert Consistent(s, t);
    var m := s.threads[t].WaitMutex();
    assert Agrees(s, m);
    var s' := Step(s, a);
    if s'.reports == [] {
      assert WorksOn(s, a, m);
      MovedKeepsInv(s, t, m, s'.mutexes[m], s'.threads[t], s'.locks);
    }
  }

  lemma ObjectSteps(s: System, a: Action)
    requires Inv(s) && Enabled(s, a)
    requires a.NewLock? || a.MoveConstruct? || a.MoveAssign? || a.Destroy?
    ensures Step(s, a).reports == [] && Inv(Step(s, a))
  {
    SameMutexes(s, Step(s, a));
  }

  lemma SameMutexes(s: System, s': System)
    requires Inv(s) && s'.mutexes == s.mutexes && s'.threads == s.threads
    ensures Inv(s')
  {
    forall m | m in s'.mutexes ensures Agrees(s', m) {
      assert Agrees(s, m);
    }
    forall t | t in s'.threads ensures Consistent(s', t) {
      assert Consistent(s, t);
    }
  }

  /** Every step keeps the invariant, and reports exactly what is to be expected. */
  lemma StepKeepsInv(s: System, a: Action)
    requires Inv(s) && Enabled(s, a)
    ensures Step(s, a).reports == Expected(s, a)
    ensures Step(s, a).reports == [] ==> Inv(Step(s, a))
  {
    hide Inv, Step;
    match a
    case BeginLock(_, _, _) => BeginLockStep(s, a);
    case RawLock(_) => RawLockStep(s, a);
    case FinishLock(_) => FinishLockStep(s, a);
    case TryLock(t, m, _) =>
      if Available(s.mutexes[m], t) {
        TakenTryStep(s, a);
      } else {
        MissedTryStep(s, a);
      }
    case ReadCount(_) => ReadCountStep(s, a);
    case ReadOwner(_) => ReadOwnerStep(s, a);
    case BeginUnlock(_, _, _) => BeginUnlockStep(s, a);
    case RawUnlock(_) => RawUnlockStep(s, a);
    case BeginWait(_, _) => BeginWaitStep(s, a);
    case Sleep(_) => SleepStep(s, a);
    case Wake(_) => WakeStep(s, a);
    case EndWait(_) => EndWaitStep(s, a);
    case NewLock(_, _, _) => ObjectSteps(s, a);
    case MoveConstruct(_, _, _) => ObjectSteps(s, a);
    case MoveAssign(_, _, _) => ObjectSteps(s, a);
    case Destroy(_, _) => ObjectSteps(s, a);
  }

  // ----- runs

  /** Every action is allowed in the state it happens in. */
  ghost predicate Runs(s: System, actions: seq<Action>)
    decreases |actions|
  {
    actions != [] ==> Enabled(s, actions[0]) && Runs(Step(s, actions[0]), actions[1..])
  }

  function After(s: System, actions: seq<Action>): System
    requires Runs(s, actions)
    decreases |actions|
  {
    if actions == [] then s else After(Step(s, actions[0]), actions[1..])
  }

  lemma InitIsInv(s: System)
    requires Init(s)
    ensures Inv(s)
  {
    forall m | m in s.mutexes ensures Agrees(s, m) {
      assert s.mutexes[m] == Mutex(s.mutexes[m].kind, 0, 0, 0, 0);
    }
  }

  lemma {:induction false} RunKeepsInv(s: System, actions: seq<Action>)
    requires Inv(s) && s.reports == [] && Runs(s, actions)
    ensures var after := After(s, actions);
      if after.reports == [] then Inv(after)
      else
        var n := |actions| - 1;
        && n >= 0 && Runs(s, actions[..n])
        && Inv(After(s, actions[..n])) && Enabled(After(s, actions[..n]), actions[n])
        && after.reports == Expected(After(s, actions[..n]), actions[n])
    decreases |actions|
  {
    hide Inv, Step, Expected;
    if actions != [] {
      var a, rest := actions[0], actions[1..];
      var next := Step(s, a);
      StepKeepsInv(s, a);
      if next.reports == [] {
        RunKeepsInv(next, rest);
        if After(next, rest).reports != [] {
          var n := |actions| - 1;
          assert actions[..n][0] == a && actions[..n][1..] == rest[..n - 1];
        }
      } else {
        assert rest == [] by { NothingAfterReport(next, rest); }
        assert actions[..0] == [];
      }
    }
  }

  lemma NothingAfterReport(s: System, actions: seq<Action>)
    requires s.reports != [] && Runs(s, actions)
    ensures actions == []
  {
  }

  /**
   Whatever the interleaving, and whatever wait predicates do: as long as nothing was
   reported the records agree with the raw mutexes.  A report that ends a run is one
   of four: a deadlock of a thread that has the plain mutex it asks for, an unlock of
   or a wait on the very mutex whose wait predicate the thread is in, or a failed
   recursive try that found no record.
   */
  lemma RunIsSafe(s: System, actions: seq<Action>)
    requires Init(s) && Runs(s, actions)
    ensures var after := After(s, actions);
      if after.reports == [] then Inv(after)
      else
        && |actions| > 0 && Runs(s, actions[..|actions| - 1])
        && var before, last := After(s, actions[..|actions| - 1]), actions[|actions| - 1];
        && last.t in before.threads
        && var waits := before.threads[last.t].waits;
        || (last.BeginLock? && after.reports == [Deadlock(last.t, last.m)] && last.m in before.mutexes
            && before.mutexes[last.m].kind == Plain && before.mutexes[last.m].holder == last.t && last.m !in waits)
        || (last.BeginUnlock? && after.reports == [ClearUnowned(last.t, last.m)] && last.m in waits)
        || (last.BeginWait? && last.l in before.locks && before.locks[last.l].device.Some?
            && var m := before.locks[last.l].device.value;
            after.reports == [WaitForeign(last.t, m), ClearUnowned(last.t, m)] && m in waits)
        || (last.ReadCount? && before.threads[last.t].pc.Missed?
            && var m := before.threads[last.t].pc.m;
            m in before.mutexes && Unrecorded(before, m) && after.reports == [TryFailed(last.t, m)])
  {
    hide Inv, Step, Unrecorded;
    InitIsInv(s);
    RunKeepsInv(s, actions);
  }

  /** A reachable state without a report, and what it reports next. */
  lemma NextReport(s: System, actions: seq<Action>, a: Action)
    requires Init(s) && Runs(s, actions) && After(s, actions).reports == [] && Enabled(After(s, actions), a)
    ensures Inv(After(s, actions))
    ensures Step(After(s, actions), a).reports == Expected(After(s, actions), a)
    ensures Step(After(s, actions), a).reports == [] ==> Inv(Step(After(s, actions), a))
  {
    hide Inv, Step, Expected;
    InitIsInv(s);
    RunKeepsInv(s, actions);
    StepKeepsInv(After(s, actions), a);
  }

  /**
   Asking for a plain mutex, directly or through any lock object, reports a deadlock
   exactly if the caller has it and is not in a predicate of a wait on it.
   */
  lemma DeadlockExactly(s: System, actions: seq<Action>, t: Tid, m: MutexId, via: Option<LockId>)
    requires Init(s) && Runs(s, actions) && After(s, actions).reports == []
    requires Enabled(After(s, actions), BeginLock(t, m, via))
    ensures var now := After(s, actions);
      Step(now, BeginLock(t, m, via)).reports != [] <==>
      now.mutexes[m].kind == Plain && now.mutexes[m].holder == t && m !in now.threads[t].waits
  {
    hide Inv, Step;
    NextReport(s, actions, BeginLock(t, m, via));
  }

  /** Unlocking, and starting a wait, are reported exactly within the predicate of a wait on the same mutex. */
  lemma MisuseInPredicateExactly(s: System, actions: seq<Action>, t: Tid, m: MutexId, via: Option<LockId>, l: LockId)
    requires Init(s) && Runs(s, actions) && After(s, actions).reports == []
    ensures var now := After(s, actions);
      && (Enabled(now, BeginUnlock(t, m, via)) ==>
            Step(now, BeginUnlock(t, m, via)).reports == if m in now.threads[t].waits then [ClearUnowned(t, m)] else [])
      && (Enabled(now, BeginWait(t, l)) && now.locks[l].device == Some(m) ==>
            Step(now, BeginWait(t, l)).reports
            == if m in now.threads[t].waits then [WaitForeign(t, m), ClearUnowned(t, m)] else [])
  {
    hide Inv, Step;
    var now := After(s, actions);
    if Enabled(now, BeginUnlock(t, m, via)) {
      NextReport(s, actions, BeginUnlock(t, m, via));
    }
    if Enabled(now, BeginWait(t, l)) {
      NextReport(s, actions, BeginWait(t, l));
    }
  }

  /** For whatever is recorded: the owner is set and cleared without a report exactly in these cases. */
  lemma BookkeepingReportsExactly(x: Mutex, t: Tid, m: MutexId)
    requires t != 0
    ensures SetOwner(x, t, m).0.owner == t && SetOwner(x, t, m).0.holder == x.holder && SetOwner(x, t, m).0.depth == x.depth
    ensures SetOwner(x, t, m).1 == [] <==> x.owner == 0 || (x.kind == Recursive && x.owner == t && x.count >= 1)
    ensures ClearOwner(x, t, m).0.holder == x.holder && ClearOwner(x, t, m).0.depth == x.depth
    ensures ClearOwner(x, t, m).1 == [] <==> x.owner == t && (x.kind == Recursive ==> x.count >= 1)
    ensures x.owner == t && (x.kind == Recursive ==> x.count >= 1) ==>
      (ClearOwner(x, t, m).0.owner == if x.kind == Recursive && x.count > 1 then t else 0)
      && (x.kind == Recursive ==> ClearOwner(x, t, m).0.count == x.count - 1)
  {
  }

  // ----- the deadlock that nobody is told about

  /** The thread waits for a plain mutex that it has itself. */
  predicate Stuck(s: System, t: Tid, m: MutexId) {
    && m in s.mutexes && s.mutexes[m].kind == Plain && s.mutexes[m].holder == t
    && t in s.threads && s.threads[t].pc.Locking? && s.threads[t].pc.m == m
  }

  lemma StuckStep(s: System, a: Action, t: Tid, m: MutexId)
    requires Inv(s) && Enabled(s, a) && Stuck(s, t, m) && t != 0
    ensures Stuck(Step(s, a), t, m)
  {
    assert a.t in s.threads && Consistent(s, a.t);
    assert a.t != t;
  }

  lemma {:induction false} StuckForever(s: System, actions: seq<Action>, t: Tid, m: MutexId)
    requires Inv(s) && s.reports == [] && Runs(s, actions) && Stuck(s, t, m) && t != 0
    ensures Stuck(After(s, actions), t, m)
    decreases |actions|
  {
    hide Inv, Step, Stuck, Expected;
    if actions != [] {
      var next := Step(s, actions[0]);
      StuckStep(s, actions[0], t, m);
      StepKeepsInv(s, actions[0]);
      if next.reports == [] {
        StuckForever(next, actions[1..], t, m);
      } else {
        NothingAfterReport(next, actions[1..]);
      }
    }
  }

  /** A wait predicate that asks for the mutex of its own wait is not warned, and the thread never gets any further. */
  lemma SilentDeadlock(s: System, actions: seq<Action>, t: Tid, m: MutexId, via: Option<LockId>, more: seq<Action>)
    requires Init(s) && Runs(s, actions) && After(s, actions).reports == []
    requires Enabled(After(s, actions), BeginLock(t, m, via)) && m in After(s, actions).threads[t].waits
    requires Runs(Step(After(s, actions), BeginLock(t, m, via)), more)
    ensures var next := Step(After(s, actions), BeginLock(t, m, via));
      next.reports == [] && Stuck(next, t, m) && Stuck(After(next, more), t, m)
  {
    var now := After(s, actions);
    NextReport(s, actions, BeginLock(t, m, via));
    assert Consistent(now, t);
    StuckForever(Step(now, BeginLock(t, m, via)), more, t, m);
  }

  /** What the records are worth: who they name, how deep, and how exclusive. */
  lemma RecordsAreTrue(s: System, actions: seq<Action>, m: MutexId)
    requires Init(s) && Runs(s, actions) && After(s, actions).reports == []
    requires m in After(s, actions).mutexes
    ensures var now := After(s, actions);
      var x := now.mutexes[m];
      && (x.owner != 0 ==> x.owner == x.holder)
      && (x.holder == 0 ==> x.owner == 0 && x.count == 0)
      && (x.holder != 0 ==> x.holder in now.threads)
      && (x.holder != 0 && !MidStep(now.threads[x.holder], m) ==>
            x.owner == x.holder && (x.kind == Recursive ==> x.count == x.depth))
      && (x.holder != 0 && MidStep(now.threads[x.holder], m) && x.kind == Recursive ==> x.count == x.depth - 1)
      && (forall t, u :: t in now.threads && u in now.threads && MidStep(now.threads[t], m) && MidStep(now.threads[u], m)
            ==> t == u)
  {
    hide MidStep;
    var now := After(s, actions);
    InitIsInv(s);
    RunKeepsInv(s, actions);
    assert Agrees(now, m);
    forall t | t in now.threads && MidStep(now.threads[t], m) ensures now.mutexes[m].holder == t {
      MidStepHolds(now, t, m);
    }
  }

  lemma MidStepHolds(s: System, t: Tid, m: MutexId)
    requires m in s.mutexes && t in s.threads && Consistent(s, t) && MidStep(s.threads[t], m)
    ensures s.mutexes[m].holder == t
  {
  }

  // ----- condition waits

  /** In all of the run, the thread is inside of the wait at depth `k`, or of one that its predicate started. */
  ghost predicate Inside(s: System, actions: seq<Action>, t: Tid, k: nat)
    requires Runs(s, actions)
    decreases |actions|
  {
    && t in s.threads && k < |s.threads[t].waits|
    && (actions != [] ==> Inside(Step(s, actions[0]), actions[1..], t, k))
  }

  lemma WaitsBelow(s: System, a: Action, t: Tid, k: nat)
    requires Enabled(s, a) && t in s.threads && k < |s.threads[t].waits| == |s.threads[t].through|
    requires t in Step(s, a).threads && k < |Step(s, a).threads[t].waits|
    ensures |Step(s, a).threads[t].waits| == |Step(s, a).threads[t].through|
    ensures Step(s, a).threads[t].waits[..k + 1] == s.threads[t].waits[..k + 1]
    ensures Step(s, a).threads[t].through[..k + 1] == s.threads[t].through[..k + 1]
  {
    if a.EndWait? && a.t == t {
      var th := s.threads[t];
      assert th.waits[..|th.waits| - 1][..k + 1] == th.waits[..k + 1];
      assert th.through[..|th.through| - 1][..k + 1] == th.through[..k + 1];
    }
  }

  lemma {:induction false} InsideKeeps(s: System, actions: seq<Action>, t: Tid, k: nat)
    requires Runs(s, actions) && Inside(s, actions, t, k) && |s.threads[t].waits| == |s.threads[t].through|
    ensures t in After(s, actions).threads
    ensures k < |After(s, actions).threads[t].waits| == |After(s, actions).threads[t].through|
    ensures After(s, actions).threads[t].waits[..k + 1] == s.threads[t].waits[..k + 1]
    ensures After(s, actions).threads[t].through[..k + 1] == s.threads[t].through[..k + 1]
    decreases |actions|
  {
    hide Step, Enabled;
    if actions != [] {
      WaitsBelow(s, actions[0], t, k);
      InsideKeeps(Step(s, actions[0]), actions[1..], t, k);
    }
  }

  /**
   A wait that comes back has its mutex again and is recorded as its owner, whatever
   other threads did meanwhile, and whatever its predicate did.
   */
  lemma WaitRestoresOwner(s: System, t: Tid, l: LockId, actions: seq<Action>)
    requires Inv(s) && Enabled(s, BeginWait(t, l)) && Step(s, BeginWait(t, l)).reports == []
    requires Runs(Step(s, BeginWait(t, l)), actions)
    requires Inside(Step(s, BeginWait(t, l)), actions, t, |s.threads[t].waits|)
    requires var end := After(Step(s, BeginWait(t, l)), actions);
      Enabled(end, EndWait(t)) && |end.threads[t].waits| == |s.threads[t].waits| + 1
    ensures var m := s.locks[l].device.value;
      var back := Step(After(Step(s, BeginWait(t, l)), actions), EndWait(t));
      && m in back.mutexes && back.mutexes[m].holder == t && back.mutexes[m].owner == t
      && back.threads[t] == s.threads[t] && back.reports == []
  {
    hide Inv, Step, Enabled, Runs, After, Inside, Expected;
    BegunWait(s, t, l);
    var begun := Step(s, BeginWait(t, l));
    var end := After(begun, actions);
    var th, m, k := s.threads[t], s.locks[l].device.value, |s.threads[t].waits|;
    StepKeepsInv(s, BeginWait(t, l));
    NoReportYet(end, EndWait(t));
    RunKeepsInv(begun, actions);
    InsideKeeps(begun, actions, t, k);
    assert end.threads[t].waits == end.threads[t].waits[..k + 1] == begun.threads[t].waits[..k + 1] == th.waits + [m];
    assert end.threads[t].through == end.threads[t].through[..k + 1] == begun.threads[t].through[..k + 1]
                                  == th.through + [l];
    EndedWait(end, t, th, m, l);
  }

  lemma NoReportYet(s: System, a: Action)
    requires Enabled(s, a)
    ensures s.reports == []
  {
  }

  lemma BegunWait(s: System, t: Tid, l: LockId)
    requires Inv(s) && Enabled(s, BeginWait(t, l))
    ensures t in s.threads && s.threads[t].pc == Idle && l in s.locks && s.locks[l].device.Some?
    ensures |s.threads[t].waits| == |s.threads[t].through|
    ensures t in Step(s, BeginWait(t, l)).threads
    ensures Step(s, BeginWait(t, l)).threads[t] ==
            Thread(Idle, s.threads[t].waits + [s.locks[l].device.value], s.threads[t].through + [l])
  {
    assert Consistent(s, t);
  }

  lemma EndedWait(s: System, t: Tid, th: Thread, m: MutexId, l: LockId)
    requires Inv(s) && Enabled(s, EndWait(t)) && th.pc == Idle
    requires s.threads[t].waits == th.waits + [m] && s.threads[t].through == th.through + [l]
    ensures var back := Step(s, EndWait(t));
      && m in back.mutexes && back.mutexes[m].holder == t && back.mutexes[m].owner == t
      && back.threads[t] == th && back.reports == []
  {
    var now := s.threads[t];
    assert Consistent(s, t);
    assert now.WaitMutex() == m && now.waits[..|now.waits| - 1] == th.waits;
    assert now.through[..|now.through| - 1] == th.through;
    assert m in now.waits && Agrees(s, m);
  }

  // ----- what the environment must not do

  /** Move assignment as it is written: the raw mutex of the target is unlocked, its owner is not cleared. */
  function MoveAssigned(s: System, t: Tid, to: LockId, from: LockId): System
    requires to in s.locks && from in s.locks
    requires s.locks[to].owns ==> s.locks[to].device.Some? && s.locks[to].device.value in s.mutexes
  {
    var target := s.locks[to];
    var mutexes :=
      if target.owns then s.mutexes[target.device.value := Release(s.mutexes[target.device.value])] else s.mutexes;
    s.(mutexes := mutexes, locks := MoveInto(s.locks, to, from))
  }

  /** Move assignment keeps the records true exactly if the target does not own its mutex. */
  lemma MoveAssignExactly(s: System, t: Tid, to: LockId, from: LockId)
    requires Inv(s) && IsIdle(s, t) && to in s.locks && from in s.locks && to != from
    requires s.locks[to].owns ==>
      s.locks[to].device.Some? && s.locks[to].device.value in s.mutexes && s.mutexes[s.locks[to].device.value].holder == t
    ensures Inv(MoveAssigned(s, t, to, from)) <==> !s.locks[to].owns
  {
    var s' := MoveAssigned(s, t, to, from);
    if s.locks[to].owns {
      var m := s.locks[to].device.value;
      assert Agrees(s, m) && Consistent(s, t);
      if m in s.threads[t].waits {
        assert !WaitsConsistent(s', t);
        assert !Consistent(s', t);
      } else {
        assert !Agrees(s', m);
      }
    } else {
      SameMutexes(s, s');
    }
  }

  /** Outside of waits, the stale owner is then held against the next thread that takes the mutex. */
  lemma MoveAssignMisleads(s: System, t: Tid, to: LockId, from: LockId, u: Tid)
    requires Inv(s) && s.reports == [] && IsIdle(s, t)
    requires to in s.locks && from in s.locks && to != from && s.locks[to].owns
    requires s.locks[to].device.Some? && s.locks[to].device.value in s.mutexes
    requires s.mutexes[s.locks[to].device.value].kind == Plain && s.mutexes[s.locks[to].device.value].holder == t
    requires s.locks[to].device.value !in s.threads[t].waits
    requires IsIdle(s, u) && u != t
    ensures var m := s.locks[to].device.value;
      var actions := [BeginLock(u, m, None), RawLock(u), FinishLock(u)];
      var s' := MoveAssigned(s, t, to, from);
      Runs(s', actions) && After(s', actions).reports == [ReplaceOwner(u, m)]
  {
    var m := s.locks[to].device.value;
    assert Agrees(s, m) && Consistent(s, u);
    var s0 := MoveAssigned(s, t, to, from);
    var a0, a1, a2 := BeginLock(u, m, None), RawLock(u), FinishLock(u);
    var s1 := Step(s0, a0);
    var s2 := Step(s1, a1);
    var s3 := Step(s2, a2);
    OneStep(s0, [], a0);
    OneStep(s0, [a0], a1);
    OneStep(s0, [a0, a1], a2);
    assert [] + [a0] == [a0] && [a0] + [a1] == [a0, a1] && [a0, a1] + [a2] == [a0, a1, a2];
  }

  /** A run can be continued with whatever is allowed in its last state. */
  lemma {:induction false} OneStep(s: System, actions: seq<Action>, a: Action)
    requires Runs(s, actions) && Enabled(After(s, actions), a)
    ensures Runs(s, actions + [a]) && After(s, actions + [a]) == Step(After(s, actions), a)
    decreases |actions|
  {
    hide Enabled, Step;
    var all := actions + [a];
    if actions == [] {
      assert all[0] == a && all[1..] == [];
    } else {
      OneStep(Step(s, actions[0]), actions[1..], a);
      assert all[0] == actions[0] && all[1..] == actions[1..] + [a];
    }
  }

  // ----- what a failed recursive `try_lock` concludes

  /**
   The raw mutex was not to be had, and the records are read some time later: the
   report is issued exactly if at that time the mutex is free, or its holder has it
   once and is in the middle of a step.  The owner is read in vain.
   */
  lemma TryMisfiresExactly(s: System, actions: seq<Action>, t: Tid)
    requires Init(s) && Runs(s, actions) && After(s, actions).reports == []
    ensures var now := After(s, actions);
      && (Enabled(now, ReadCount(t)) ==>
            (Step(now, ReadCount(t)).reports != [] <==> Unrecorded(now, now.threads[t].pc.m)))
      && (Enabled(now, ReadOwner(t)) ==> Step(now, ReadOwner(t)).reports == [])
  {
    hide Inv, Step, Unrecorded;
    var now := After(s, actions);
    if Enabled(now, ReadCount(t)) {
      NextReport(s, actions, ReadCount(t));
    }
    if Enabled(now, ReadOwner(t)) {
      NextReport(s, actions, ReadOwner(t));
    }
  }

  /** Nobody else does anything with the mutex during the run. */
  ghost predicate Undisturbed(s: System, actions: seq<Action>, t: Tid, m: MutexId)
    requires Runs(s, actions)
    decreases |actions|
  {
    actions != [] ==>
      (actions[0].t != t ==> Touches(s, actions[0]) != Some(m)) && Undisturbed(Step(s, actions[0]), actions[1..], t, m)
  }

  /** The mutex that an action works on. */
  function Touches(s: System, a: Action): Option<MutexId>
    requires Enabled(s, a)
  {
    match a
    case BeginLock(_, m, _) => Some(m)
    case TryLock(_, m, _) => Some(m)
    case BeginUnlock(_, m, _) => Some(m)
    case BeginWait(_, l) => s.locks[l].device
    case Sleep(t) => Some(s.threads[t].WaitMutex())
    case EndWait(t) => Some(s.threads[t].WaitMutex())
    case NewLock(_, _, _) => None
    case MoveConstruct(_, _, _) => None
    case MoveAssign(_, _, _) => None
    case Destroy(_, _) => None
    case _ => if a.t in s.threads then s.threads[a.t].Target() else None
  }

  predicate MissedOn(s: System, t: Tid, m: MutexId) {
    t in s.threads && s.threads[t].pc in {Missed(m), MissedCounted(m)}
  }

  lemma UndisturbedStep(s: System, a: Action, t: Tid, m: MutexId)
    requires Enabled(s, a) && MissedOn(s, t, m) && m in s.mutexes
    requires a.t != t ==> Touches(s, a) != Some(m)
    requires MissedOn(Step(s, a), t, m)
    ensures m in Step(s, a).mutexes && Step(s, a).mutexes[m] == s.mutexes[m]
  {
  }

  /** As long as nobody else touches the mutex and the call is not finished, its record stays. */
  lemma {:induction false} UndisturbedKeeps(s: System, actions: seq<Action>, t: Tid, m: MutexId)
    requires Runs(s, actions) && Undisturbed(s, actions, t, m) && MissedOn(s, t, m) && m in s.mutexes
    requires StillTrying(s, actions, t, m)
    ensures m in After(s, actions).mutexes && After(s, actions).mutexes[m] == s.mutexes[m]
    decreases |actions|
  {
    hide Step, Enabled, Touches, MissedOn;
    if actions != [] {
      UndisturbedStep(s, actions[0], t, m);
      UndisturbedKeeps(Step(s, actions[0]), actions[1..], t, m);
    }
  }

  ghost predicate StillTrying(s: System, actions: seq<Action>, t: Tid, m: MutexId)
    requires Runs(s, actions)
    decreases |actions|
  {
    MissedOn(s, t, m) && (actions != [] ==> StillTrying(Step(s, actions[0]), actions[1..], t, m))
  }

  /**
   A caller is safe if no other thread locks or unlocks the mutex during its call,
   neither starting so nor being in the middle of it.
   */
  lemma QuietTryIsFine(s: System, t: Tid, m: MutexId, actions: seq<Action>)
    requires Inv(s) && Enabled(s, TryLock(t, m, None)) && s.mutexes[m].kind == Recursive
    requires !Available(s.mutexes[m], t) && !MidStep(s.threads[s.mutexes[m].holder], m)
    requires Runs(Step(s, TryLock(t, m, None)), actions)
    requires Undisturbed(Step(s, TryLock(t, m, None)), actions, t, m)
    requires StillTrying(Step(s, TryLock(t, m, None)), actions, t, m)
    requires Enabled(After(Step(s, TryLock(t, m, None)), actions), ReadCount(t))
    ensures Step(After(Step(s, TryLock(t, m, None)), actions), ReadCount(t)).reports == []
  {
    var missed := Step(s, TryLock(t, m, None));
    assert Agrees(s, m);
    UndisturbedKeeps(missed, actions, t, m);
    StillMissed(missed, actions, t, m);
  }

  lemma {:induction false} StillMissed(s: System, actions: seq<Action>, t: Tid, m: MutexId)
    requires Runs(s, actions) && StillTrying(s, actions, t, m)
    ensures MissedOn(After(s, actions), t, m)
    decreases |actions|
  {
    hide Step, Enabled, MissedOn;
    if actions != [] {
      StillMissed(Step(s, actions[0]), actions[1..], t, m);
    }
  }

  // ----- two runs in which the conclusion is wrong

  /** Two threads and one recursive mutex. */
  function Scene(x: Mutex, first: Pc, second: Pc): System {
    System(map[0 := x], map[], map[1 := Thread(first, [], []), 2 := Thread(second, [], [])], [])
  }

  const FREE := Mutex(Recursive, 0, 0, 0, 0)

  lemma FirstLocks()
    ensures var s, actions := Scene(FREE, Idle, Idle), [BeginLock(1, 0, None), RawLock(1)];
      && Init(s) && Runs(s, actions)
      && After(s, actions) == Scene(Mutex(Recursive, 1, 1, 0, 0), Acquired(0, None), Idle)
  {
    var s := Scene(FREE, Idle, Idle);
    var a0, a1 := BeginLock(1, 0, None), RawLock(1);
    OneStep(s, [], a0);
    assert [] + [a0] == [a0] && [a0] + [a1] == [a0, a1];
    assert Step(s, a0) == Scene(FREE, Locking(0, None), Idle);
    OneStep(s, [a0], a1);
    assert Step(Step(s, a0), a1) == Scene(Mutex(Recursive, 1, 1, 0, 0), Acquired(0, None), Idle);
  }

  /** The holder has the raw mutex, and its record is yet to be made. */
  lemma HolderNotRecorded()
    ensures var s, actions := Scene(FREE, Idle, Idle),
                              [BeginLock(1, 0, None), RawLock(1)] + [TryLock(2, 0, None)] + [ReadCount(2)];
      Init(s) && Runs(s, actions) && After(s, actions).reports == [TryFailed(2, 0)]
  {
    var s, locked := Scene(FREE, Idle, Idle), [BeginLock(1, 0, None), RawLock(1)];
    FirstLocks();
    OneStep(s, locked, TryLock(2, 0, None));
    assert After(s, locked + [TryLock(2, 0, None)]) == Scene(Mutex(Recursive, 1, 1, 0, 0), Acquired(0, None), Missed(0));
    OneStep(s, locked + [TryLock(2, 0, None)], ReadCount(2));
  }

  lemma HolderIsRecorded()
    ensures var s0 := Scene(Mutex(Recursive, 1, 1, 0, 0), Acquired(0, None), Idle);
      var s1 := Scene(Mutex(Recursive, 1, 1, 1, 1), Idle, Idle);
      Enabled(s0, FinishLock(1)) && Step(s0, FinishLock(1)) == s1
  {
  }

  lemma TryIsMissed()
    ensures var s1 := Scene(Mutex(Recursive, 1, 1, 1, 1), Idle, Idle);
      var s2 := Scene(Mutex(Recursive, 1, 1, 1, 1), Idle, Missed(0));
      && Enabled(s1, TryLock(2, 0, None)) && Step(s1, TryLock(2, 0, None)) == s2
      && 0 in s2.mutexes && !Unrecorded(s2, 0)
  {
  }

  lemma HolderLeaves()
    ensures var s2 := Scene(Mutex(Recursive, 1, 1, 1, 1), Idle, Missed(0));
      var s3 := Scene(Mutex(Recursive, 1, 1, 0, 0), Releasing(0, None), Missed(0));
      && Enabled(s2, BeginUnlock(1, 0, None)) && Step(s2, BeginUnlock(1, 0, None)) == s3
      && Enabled(s3, RawUnlock(1)) && Step(s3, RawUnlock(1)) == Scene(FREE, Idle, Missed(0))
  {
  }

  lemma NothingIsRead()
    ensures var s4 := Scene(FREE, Idle, Missed(0));
      Enabled(s4, ReadCount(2)) && Step(s4, ReadCount(2)).reports == [TryFailed(2, 0)]
  {
  }

  function Tried(): seq<Action> {
    [BeginLock(1, 0, None), RawLock(1)] + [FinishLock(1)] + [TryLock(2, 0, None)]
  }

  /** The holder was recorded when the try failed, but has left before the record was read. */
  lemma HolderHasLeft()
    ensures var s, actions := Scene(FREE, Idle, Idle),
                              Tried() + [BeginUnlock(1, 0, None)] + [RawUnlock(1)] + [ReadCount(2)];
      && Init(s) && Runs(s, Tried()) && 0 in After(s, Tried()).mutexes && !Unrecorded(After(s, Tried()), 0)
      && Runs(s, actions) && After(s, actions).reports == [TryFailed(2, 0)]
  {
    FirstLocks();
    HolderIsRecorded();
    TryIsMissed();
    HolderLeaves();
    NothingIsRead();
    hide Runs, After, Enabled, Step, Scene, Unrecorded, Init;
    var s, p := Scene(FREE, Idle, Idle), [BeginLock(1, 0, None), RawLock(1)];
    OneStep(s, p, FinishLock(1));
    p := p + [FinishLock(1)];
    OneStep(s, p, TryLock(2, 0, None));
    p := p + [TryLock(2, 0, None)];
    OneStep(s, p, BeginUnlock(1, 0, None));
    p := p + [BeginUnlock(1, 0, None)];
    OneStep(s, p, RawUnlock(1));
    p := p + [RawUnlock(1)];
    OneStep(s, p, ReadCount(2));
  }
}
