/**
 What lock objects own.  They are not made to be used by two threads at once, so a run
 is careful if no thread touches a lock object that another one is using, none moves or
 destroys the one it waits with, and nobody unlocks behind the back of a lock object.
 */
module LockObjects {
  import opened Wrappers
  import opened LockOwnership

  // ----- careful runs

  /** The lock objects that an action goes through or changes. */
  function Touched(a: Action): set<LockId> {
    match a
    case BeginLock(_, _, via) => One(via)
    case TryLock(_, _, via) => One(via)
    case BeginUnlock(_, _, via) => One(via)
    case BeginWait(_, l) => {l}
    case NewLock(_, l, _) => {l}
    case MoveConstruct(_, to, from) => {to, from}
    case MoveAssign(_, to, from) => {to, from}
    case Destroy(_, l) => {l}
    case _ => {}
  }

  function One(via: Option<LockId>): set<LockId> {
    match via case None => {} case Some(l) => {l}
  }

  /** The lock object of the operation that a thread is in the middle of. */
  function Via(th: Thread): Option<LockId> {
    match th.pc
    case Locking(_, via) => via
    case Acquired(_, via) => via
    case Releasing(_, via) => via
    case _ => None
  }

  predicate Uses(th: Thread, l: LockId) {
    Via(th) == Some(l) || l in th.through
  }

  /** The lock objects that own a mutex. */
  function Owners(s: System, m: MutexId): set<LockId> {
    set l | l in s.locks && s.locks[l].owns && s.locks[l].device == Some(m)
  }

  ghost predicate Careful(s: System, a: Action)
    requires Enabled(s, a)
  {
    && (forall u, l :: u in s.threads && u != a.t && l in Touched(a) ==> !Uses(s.threads[u], l))
    && (a.MoveConstruct? || a.MoveAssign? || a.Destroy? ==>
          forall l :: l in Touched(a) && a.t in s.threads ==> !Uses(s.threads[a.t], l))
    && (a.BeginUnlock? && a.via == None && a.m in s.mutexes ==> |Owners(s, a.m)| < s.mutexes[a.m].depth)
  }

  ghost predicate CarefulRun(s: System, actions: seq<Action>)
    requires Runs(s, actions)
    decreases |actions|
  {
    actions != [] ==> Careful(s, actions[0]) && CarefulRun(Step(s, actions[0]), actions[1..])
  }

  // ----- what holds in every careful run

  /** A lock object manages the mutex it is logged for, or none. */
  predicate LockFits(s: System, l: LockId)
    requires l in s.locks
  {
    var k := s.locks[l];
    && (k.device.Some? ==> k.logged == k.device && k.device.value in s.mutexes)
    && (k.owns ==> k.device.Some?)
  }

  /** What a thread goes through manages the mutex in question, and owns it when it should. */
  predicate ThreadFits(s: System, t: Tid)
    requires t in s.threads
  {
    var th := s.threads[t];
    && (Via(th).Some? ==>
          && Via(th).value in s.locks && th.Target().Some?
          && s.locks[Via(th).value].device == th.Target()
          && (th.pc.Acquired? || th.pc.Releasing? ==> s.locks[Via(th).value].owns))
    && |th.through| == |th.waits|
    && (forall i :: 0 <= i < |th.through| ==>
          && th.through[i] in s.locks && s.locks[th.through[i]].device == Some(th.waits[i])
          && s.locks[th.through[i]].owns == !(th.pc.Sleeping? && i == |th.through| - 1))
  }

  /** No more lock objects own a mutex than it is locked times, and one less while it is unlocked directly. */
  predicate OwnersFit(s: System, m: MutexId)
    requires m in s.mutexes
  {
    var x := s.mutexes[m];
    && |Owners(s, m)| <= x.depth
    && (x.holder in s.threads && s.threads[x.holder].pc == Releasing(m, None) ==> |Owners(s, m)| < x.depth)
  }

  /** No lock object is used by two threads. */
  ghost predicate NotShared(s: System) {
    forall t, u, l :: t in s.threads && u in s.threads && Uses(s.threads[t], l) && Uses(s.threads[u], l) ==> t == u
  }

  ghost predicate LockInv(s: System) {
    && (forall l :: l in s.locks ==> LockFits(s, l))
    && (forall t :: t in s.threads ==> ThreadFits(s, t))
    && (forall m :: m in s.mutexes ==> OwnersFit(s, m))
    && NotShared(s)
  }

  // ----- how ownership changes

  lemma OwnersChange(s: System, s': System, l: LockId, m: MutexId)
    requires l in s.locks && l in s'.locks && s'.locks == s.locks[l := s'.locks[l]]
    ensures |Owners(s', m)| == |Owners(s, m)| - (if l in Owners(s, m) then 1 else 0) + (if l in Owners(s', m) then 1 else 0)
  {
    if l in Owners(s', m) {
      assert Owners(s', m) == Owners(s, m) - {l} + {l};
    } else {
      assert Owners(s', m) == Owners(s, m) - {l};
    }
  }

  /** One thread, one mutex, and perhaps one lock object that manages it and that nobody else uses. */
  lemma StepFits(s: System, s': System, t: Tid, m: MutexId, l: Option<LockId>)
    requires LockInv(s) && t in s.threads && t in s'.threads && m in s.mutexes && m in s'.mutexes
    requires s'.threads == s.threads[t := s'.threads[t]] && s'.mutexes == s.mutexes[m := s'.mutexes[m]]
    requires l == None ==> s'.locks == s.locks
    requires l.Some? ==>
      && l.value in s.locks && s.locks[l.value].device == Some(m)
      && s'.locks == s.locks[l.value := s.locks[l.value].(owns := !s.locks[l.value].owns)]
      && forall u :: u in s.threads && u != t ==> !Uses(s.threads[u], l.value)
    requires forall k, u :: Uses(s'.threads[t], k) && u in s.threads && u != t ==> !Uses(s.threads[u], k)
    requires ThreadFits(s', t) && OwnersFit(s', m)
    requires forall m' :: s'.threads[t].pc == Releasing(m', None) ==> m' == m
    ensures LockInv(s')
  {
    forall u | u in s'.threads ensures ThreadFits(s', u) {
      if u != t {
        assert ThreadFits(s, u);
        OtherThreadFits(s, s', u, l);
      }
    }
    forall m' | m' in s'.mutexes ensures OwnersFit(s', m') {
      if m' != m {
        assert OwnersFit(s, m');
        assert Owners(s', m') == Owners(s, m');
      }
    }
    forall k | k in s'.locks ensures LockFits(s', k) {
      assert LockFits(s, k);
    }
  }

  lemma OtherThreadFits(s: System, s': System, u: Tid, l: Option<LockId>)
    requires u in s.threads && u in s'.threads && ThreadFits(s, u) && s'.threads[u] == s.threads[u]
    requires s'.locks == s.locks || (l.Some? && l.value in s'.locks && s'.locks == s.locks[l.value := s'.locks[l.value]])
    requires l.Some? ==> !Uses(s.threads[u], l.value)
    ensures ThreadFits(s', u)
  {
    var th := s.threads[u];
    forall i | 0 <= i < |th.through|
      ensures th.through[i] in s'.locks && s'.locks[th.through[i]] == s.locks[th.through[i]]
    {
      assert th.through[i] in th.through;
    }
  }

  lemma NobodyElse(s: System, t: Tid, l: LockId)
    requires NotShared(s) && t in s.threads && Uses(s.threads[t], l)
    ensures forall u :: u in s.threads && u != t ==> !Uses(s.threads[u], l)
  {
  }

  /** A thread goes on with the lock objects that it was using, and those of the action. */
  lemma UsedAfter(s: System, a: Action, k: LockId)
    requires Enabled(s, a) && a.t in s.threads && a.t in Step(s, a).threads && Uses(Step(s, a).threads[a.t], k)
    ensures Uses(s.threads[a.t], k) || k in Touched(a)
  {
  }

  lemma NewUsesAreAlone(s: System, a: Action)
    requires NotShared(s) && Enabled(s, a) && Careful(s, a) && a.t in s.threads && a.t in Step(s, a).threads
    ensures forall k, u :: Uses(Step(s, a).threads[a.t], k) && u in s.threads && u != a.t ==> !Uses(s.threads[u], k)
  {
    hide Step, Enabled, Uses;
    forall k, u | Uses(Step(s, a).threads[a.t], k) && u in s.threads && u != a.t ensures !Uses(s.threads[u], k) {
      UsedAfter(s, a, k);
    }
  }

  /** A step that begins or ends something without changing what lock objects own. */
  lemma FinishLockFits(s: System, a: Action)
    requires Inv(s) && LockInv(s) && Enabled(s, a) && Careful(s, a) && Step(s, a).reports == []
    requires a.FinishLock?
    ensures LockInv(Step(s, a))
  {
    var t, s' := a.t, Step(s, a);
    assert Consistent(s, t) && ThreadFits(s, t);
    var m := s.threads[t].pc.m;
    assert OwnersFit(s, m) && Agrees(s, m);
    assert Owners(s', m) == Owners(s, m);
    NewUsesAreAlone(s, a);
    StepFits(s, s', t, m, None);
  }

  lemma ReadFits(s: System, a: Action)
    requires Inv(s) && LockInv(s) && Enabled(s, a) && Careful(s, a) && Step(s, a).reports == []
    requires a.ReadCount? || a.ReadOwner?
    ensures LockInv(Step(s, a))
  {
    var t, s' := a.t, Step(s, a);
    assert Consistent(s, t) && ThreadFits(s, t);
    var m := s.threads[t].pc.m;
    assert OwnersFit(s, m) && Agrees(s, m);
    assert Owners(s', m) == Owners(s, m);
    NewUsesAreAlone(s, a);
    StepFits(s, s', t, m, None);
  }

  lemma BeginLockFits(s: System, a: Action)
    requires Inv(s) && LockInv(s) && Enabled(s, a) && Careful(s, a) && Step(s, a).reports == []
    requires a.BeginLock?
    ensures LockInv(Step(s, a))
  {
    var t, s' := a.t, Step(s, a);
    assert Consistent(s, t) && ThreadFits(s, t);
    assert OwnersFit(s, a.m) && Agrees(s, a.m);
    assert Owners(s', a.m) == Owners(s, a.m);
    NewUsesAreAlone(s, a);
    StepFits(s, s', t, a.m, None);
  }

  lemma BeginUnlockFits(s: System, a: Action)
    requires Inv(s) && LockInv(s) && Enabled(s, a) && Careful(s, a) && Step(s, a).reports == []
    requires a.BeginUnlock?
    ensures LockInv(Step(s, a))
  {
    var t, s' := a.t, Step(s, a);
    assert Consistent(s, t) && ThreadFits(s, t);
    assert OwnersFit(s, a.m) && Agrees(s, a.m);
    assert Owners(s', a.m) == Owners(s, a.m);
    NewUsesAreAlone(s, a);
    StepFits(s, s', t, a.m, None);
  }

  /** The raw mutex is taken, by itself or through a lock object. */
  lemma RawLockFits(s: System, a: Action)
    requires Inv(s) && LockInv(s) && Enabled(s, a) && Careful(s, a) && Step(s, a).reports == []
    requires a.RawLock?
    ensures LockInv(Step(s, a))
  {
    var t, s' := a.t, Step(s, a);
    assert Consistent(s, t) && ThreadFits(s, t);
    var m, via := s.threads[t].pc.m, s.threads[t].pc.via;
    assert OwnersFit(s, m) && Agrees(s, m);
    NewUsesAreAlone(s, a);
    if via.Some? {
      assert LockFits(s, via.value);
      OwnersChange(s, s', via.value, m);
      assert Uses(s'.threads[t], via.value);
    } else {
      assert Owners(s', m) == Owners(s, m);
    }
    StepFits(s, s', t, m, via);
  }

  lemma TryLockFits(s: System, a: Action)
    requires Inv(s) && LockInv(s) && Enabled(s, a) && Careful(s, a) && Step(s, a).reports == []
    requires a.TryLock? && Available(s.mutexes[a.m], a.t)
    ensures LockInv(Step(s, a))
  {
    var t, s' := a.t, Step(s, a);
    assert Consistent(s, t) && ThreadFits(s, t);
    var m, via := a.m, a.via;
    assert OwnersFit(s, m) && Agrees(s, m);
    NewUsesAreAlone(s, a);
    if via.Some? {
      assert LockFits(s, via.value);
      OwnersChange(s, s', via.value, m);
      assert Uses(s'.threads[t], via.value);
    } else {
      assert Owners(s', m) == Owners(s, m);
    }
    StepFits(s, s', t, m, via);
  }

  /** A recursive try without the mutex, or one that has no consequences. */
  lemma MissFits(s: System, a: Action)
    requires Inv(s) && LockInv(s) && Enabled(s, a) && Careful(s, a)
    requires a.TryLock? && !Available(s.mutexes[a.m], a.t)
    ensures LockInv(Step(s, a))
  {
    var t, s' := a.t, Step(s, a);
    assert Consistent(s, t) && ThreadFits(s, t) && OwnersFit(s, a.m) && Agrees(s, a.m);
    if s' != s {
      assert Owners(s', a.m) == Owners(s, a.m);
      NewUsesAreAlone(s, a);
      StepFits(s, s', t, a.m, None);
    }
  }

  lemma ReleaseFits(s: System, a: Action)
    requires Inv(s) && LockInv(s) && Enabled(s, a) && Careful(s, a) && a.RawUnlock?
    ensures LockInv(Step(s, a))
  {
    var t, s' := a.t, Step(s, a);
    assert Consistent(s, t) && ThreadFits(s, t);
    var m, via := s.threads[t].pc.m, s.threads[t].pc.via;
    assert OwnersFit(s, m) && Agrees(s, m);
    NewUsesAreAlone(s, a);
    if via.Some? {
      assert LockFits(s, via.value);
      OwnersChange(s, s', via.value, m);
      NobodyElse(s, t, via.value);
    } else {
      assert Owners(s', m) == Owners(s, m);
    }
    StepFits(s, s', t, m, via);
  }

  /** The innermost wait is through a lock object of its own. */
  lemma WaitingWith(s: System, t: Tid)
    requires Inv(s) && LockInv(s) && t in s.threads && s.threads[t].waits != []
    ensures var th := s.threads[t];
      && Consistent(s, t) && ThreadFits(s, t)
      && th.WaitLock().Some? && th.WaitLock().value in s.locks && Uses(th, th.WaitLock().value)
      && th.WaitMutex() in s.mutexes && s.locks[th.WaitLock().value].device == Some(th.WaitMutex())
      && s.locks[th.WaitLock().value].owns == !th.pc.Sleeping?
      && th.WaitLock().value !in th.through[..|th.through| - 1]
  {
    assert Consistent(s, t) && ThreadFits(s, t);
    var th := s.threads[t];
    assert th.through[|th.through| - 1] in th.through && th.WaitMutex() in th.waits;
  }

  lemma SleepFits(s: System, a: Action)
    requires Inv(s) && LockInv(s) && Enabled(s, a) && Careful(s, a) && a.Sleep?
    ensures LockInv(Step(s, a))
  {
    var t, s' := a.t, Step(s, a);
    WaitingWith(s, t);
    var m, l := s.threads[t].WaitMutex(), s.threads[t].WaitLock().value;
    assert OwnersFit(s, m) && Agrees(s, m);
    OwnersChange(s, s', l, m);
    NewUsesAreAlone(s, a);
    NobodyElse(s, t, l);
    assert ThreadFits(s', t);
    StepFits(s, s', t, m, Some(l));
  }

  lemma WakeFits(s: System, a: Action)
    requires Inv(s) && LockInv(s) && Enabled(s, a) && Careful(s, a) && a.Wake?
    ensures LockInv(Step(s, a))
  {
    var t, s' := a.t, Step(s, a);
    WaitingWith(s, t);
    var m, l := s.threads[t].WaitMutex(), s.threads[t].WaitLock().value;
    assert OwnersFit(s, m) && Agrees(s, m);
    OwnersChange(s, s', l, m);
    NewUsesAreAlone(s, a);
    NobodyElse(s, t, l);
    assert ThreadFits(s', t);
    StepFits(s, s', t, m, Some(l));
  }

  lemma WaitFits(s: System, a: Action)
    requires Inv(s) && LockInv(s) && Enabled(s, a) && Careful(s, a) && Step(s, a).reports == []
    requires a.BeginWait? || a.EndWait?
    ensures LockInv(Step(s, a))
  {
    var t, s' := a.t, Step(s, a);
    assert Consistent(s, t) && ThreadFits(s, t);
    var m := if a.BeginWait? then s.locks[a.l].device.value else s.threads[t].WaitMutex();
    assert OwnersFit(s, m) && Agrees(s, m);
    assert Owners(s', m) == Owners(s, m);
    NewUsesAreAlone(s, a);
    StepFits(s, s', t, m, None);
  }

  /** Objects come, go, and hand over what they own, while nobody else uses them. */
  lemma ObjectsFit(s: System, a: Action)
    requires LockInv(s) && Enabled(s, a) && Careful(s, a)
    requires a.NewLock? || a.MoveConstruct? || a.MoveAssign? || a.Destroy?
    ensures LockInv(Step(s, a))
  {
    var s' := Step(s, a);
    forall u | u in s'.threads ensures ThreadFits(s', u) {
      assert ThreadFits(s, u);
      ObjectsLeaveThread(s, a, u);
    }
    forall m | m in s'.mutexes ensures OwnersFit(s', m) {
      assert OwnersFit(s, m);
      ObjectsKeepOwners(s, a, m);
    }
    forall l | l in s'.locks ensures LockFits(s', l) {
      if l in s.locks {
        assert LockFits(s, l);
      }
      if a.MoveConstruct? || a.MoveAssign? {
        assert LockFits(s, a.from);
      }
    }
  }

  lemma ObjectsLeaveThread(s: System, a: Action, u: Tid)
    requires Enabled(s, a) && Careful(s, a) && u in s.threads && ThreadFits(s, u)
    requires a.NewLock? || a.MoveConstruct? || a.MoveAssign? || a.Destroy?
    ensures u in Step(s, a).threads && ThreadFits(Step(s, a), u)
  {
    var th := s.threads[u];
    forall l | Uses(th, l) && l in s.locks ensures l in Step(s, a).locks && Step(s, a).locks[l] == s.locks[l] {
      assert l in Touched(a) ==> a.NewLock?;
      OthersStay(s, a, l);
    }
    forall i | 0 <= i < |th.through| ensures Uses(th, th.through[i]) {
      assert th.through[i] in th.through;
    }
  }

  lemma OthersStay(s: System, a: Action, l: LockId)
    requires Enabled(s, a) && (a.NewLock? || a.MoveConstruct? || a.MoveAssign? || a.Destroy?)
    requires l in s.locks && (l in Touched(a) ==> a.NewLock?)
    ensures l in Step(s, a).locks && Step(s, a).locks[l] == s.locks[l]
  {
  }

  lemma ObjectsKeepOwners(s: System, a: Action, m: MutexId)
    requires Enabled(s, a) && (a.NewLock? || a.MoveConstruct? || a.MoveAssign? || a.Destroy?)
    ensures |Owners(Step(s, a), m)| == |Owners(s, m)|
  {
    if a.MoveConstruct? || a.MoveAssign? {
      MoveKeepsOwners(s, Step(s, a), a.to, a.from, m);
    } else {
      assert Owners(Step(s, a), m) == Owners(s, m);
    }
  }

  /** Exactly two objects change in a move: the one that gets everything, and the one that is left with nothing. */
  lemma MoveIs(locks: map<LockId, UniqueLock>, to: LockId, from: LockId)
    requires from in locks && to != from
    ensures var moved := MoveInto(locks, to, from);
      && moved.Keys == locks.Keys + {to}
      && moved[to] == locks[from]
      && moved[from] == UniqueLock(locks[from].logged, None, false, true)
      && forall l :: l in locks && l != to && l != from ==> moved[l] == locks[l]
  {
  }

  /** Ownership is handed on from one object and to one object, and nothing else is owned differently. */
  lemma MoveKeepsOwners(s: System, s': System, to: LockId, from: LockId, m: MutexId)
    requires from in s.locks && to != from && (to in s.locks ==> !s.locks[to].owns)
    requires s' == s.(locks := MoveInto(s.locks, to, from))
    ensures Owners(s', m) == if from in Owners(s, m) then Owners(s, m) - {from} + {to} else Owners(s, m)
    ensures |Owners(s', m)| == |Owners(s, m)|
  {
    hide MoveInto;
    MoveIs(s.locks, to, from);
    assert to !in Owners(s, m);
    forall l ensures l in Owners(s', m) <==>
                     (l in Owners(s, m) && l != from) || (l == to && from in Owners(s, m))
    {
    }
  }

  /** Every careful step leaves the lock objects in order. */
  lemma StepKeepsLockInv(s: System, a: Action)
    requires Inv(s) && LockInv(s) && Enabled(s, a) && Careful(s, a) && Step(s, a).reports == []
    ensures LockInv(Step(s, a))
  {
    hide Inv, LockInv, Step, Careful;
    match a
    case BeginLock(_, _, _) => BeginLockFits(s, a);
    case RawLock(_) => RawLockFits(s, a);
    case FinishLock(_) => FinishLockFits(s, a);
    case TryLock(t, m, _) =>
      if Available(s.mutexes[m], t) {
        TryLockFits(s, a);
      } else {
        MissFits(s, a);
      }
    case ReadCount(_) => ReadFits(s, a);
    case ReadOwner(_) => ReadFits(s, a);
    case BeginUnlock(_, _, _) => BeginUnlockFits(s, a);
    case RawUnlock(_) => ReleaseFits(s, a);
    case BeginWait(_, _) => WaitFits(s, a);
    case Sleep(_) => SleepFits(s, a);
    case Wake(_) => WakeFits(s, a);
    case EndWait(_) => WaitFits(s, a);
    case NewLock(_, _, _) => ObjectsFit(s, a);
    case MoveConstruct(_, _, _) => ObjectsFit(s, a);
    case MoveAssign(_, _, _) => ObjectsFit(s, a);
    case Destroy(_, _) => ObjectsFit(s, a);
  }

  lemma {:induction false} CarefulRunKeeps(s: System, actions: seq<Action>)
    requires Inv(s) && LockInv(s) && Runs(s, actions) && CarefulRun(s, actions) && After(s, actions).reports == []
    ensures Inv(After(s, actions)) && LockInv(After(s, actions))
    decreases |actions|
  {
    hide Inv, LockInv, Step, Careful, Expected;
    if actions != [] {
      var next := Step(s, actions[0]);
      if next.reports != [] {
        NothingAfterReport(next, actions[1..]);
      }
      StepKeepsInv(s, actions[0]);
      StepKeepsLockInv(s, actions[0]);
      CarefulRunKeeps(next, actions[1..]);
    }
  }

  lemma InitFits(s: System)
    requires Init(s)
    ensures LockInv(s)
  {
    forall m | m in s.mutexes ensures OwnersFit(s, m) {
      assert s.mutexes[m] == Mutex(s.mutexes[m].kind, 0, 0, 0, 0);
      assert Owners(s, m) == {};
    }
  }

  // ----- what lock objects own

  /**
   In every state that careful threads can reach, the mutex of a lock object that owns is
   locked, no more objects own a mutex than it is locked times, and a plain mutex is
   owned by one object at most.
   */
  lemma OwnersAreRight(s: System, actions: seq<Action>, l: LockId)
    requires Init(s) && Runs(s, actions) && CarefulRun(s, actions) && After(s, actions).reports == []
    requires l in After(s, actions).locks && After(s, actions).locks[l].owns
    ensures var now := After(s, actions);
      && now.locks[l].device.Some? && now.locks[l].device.value in now.mutexes
      && var m := now.locks[l].device.value;
      && now.mutexes[m].holder != 0 && now.mutexes[m].holder in now.threads
      && l in Owners(now, m) && |Owners(now, m)| <= now.mutexes[m].depth
      && (now.mutexes[m].kind == Plain ==>
            forall k :: k in now.locks && now.locks[k].owns && now.locks[k].device == Some(m) ==> k == l)
  {
    hide Inv, LockInv, Step, Runs, CarefulRun, Owners;
    InitIsInv(s);
    InitFits(s);
    CarefulRunKeeps(s, actions);
    OwnerIsRight(After(s, actions), l);
  }

  lemma OwnerIsRight(now: System, l: LockId)
    requires Inv(now) && LockInv(now) && l in now.locks && now.locks[l].owns
    ensures now.locks[l].device.Some? && now.locks[l].device.value in now.mutexes
    ensures var m := now.locks[l].device.value;
      && now.mutexes[m].holder != 0 && now.mutexes[m].holder in now.threads
      && l in Owners(now, m) && |Owners(now, m)| <= now.mutexes[m].depth
      && (now.mutexes[m].kind == Plain ==>
            forall k :: k in now.locks && now.locks[k].owns && now.locks[k].device == Some(m) ==> k == l)
  {
    assert LockFits(now, l);
    var m := now.locks[l].device.value;
    assert Agrees(now, m) && OwnersFit(now, m) && l in Owners(now, m);
    SubsetSize({l}, Owners(now, m));
    if now.mutexes[m].kind == Plain {
      forall k | k in now.locks && now.locks[k].owns && now.locks[k].device == Some(m) ensures k == l {
        assert k in Owners(now, m);
        SubsetSize({l, k}, Owners(now, m));
      }
    }
  }

  lemma {:induction false} SubsetSize(small: set<LockId>, large: set<LockId>)
    requires small <= large
    ensures |small| <= |large|
  {
    if small != {} {
      var x :| x in small;
      SubsetSize(small - {x}, large - {x});
    }
  }

  /** Everything that a state reached by careful threads promises. */
  lemma CarefulStateFits(s: System, actions: seq<Action>)
    requires Init(s) && Runs(s, actions) && CarefulRun(s, actions) && After(s, actions).reports == []
    ensures Inv(After(s, actions)) && LockInv(After(s, actions))
  {
    hide Inv, LockInv;
    InitIsInv(s);
    InitFits(s);
    CarefulRunKeeps(s, actions);
  }

  /** Locked through an object: it owns the mutex, its thread is recorded, and can unlock it and wait with it. */
  lemma LockedThrough(s: System, actions: seq<Action>, t: Tid, m: MutexId, l: LockId)
    requires Init(s) && Runs(s, actions) && CarefulRun(s, actions)
    requires Enabled(After(s, actions), FinishLock(t)) && After(s, actions).threads[t].pc == Acquired(m, Some(l))
    ensures var now, next := After(s, actions), Step(After(s, actions), FinishLock(t));
      && next.reports == [] && next.locks == now.locks
      && l in next.locks && next.locks[l].owns && next.locks[l].device == Some(m)
      && m in next.mutexes && next.mutexes[m].holder == t && next.mutexes[m].owner == t
      && Enabled(next, BeginUnlock(t, m, Some(l)))
      && (next.mutexes[m].kind == Plain ==> Enabled(next, BeginWait(t, l)))
  {
    hide Runs, CarefulRun, Init;
    NoReportYet(After(s, actions), FinishLock(t));
    CarefulStateFits(s, actions);
    LockFinished(After(s, actions), t, m, l);
  }

  lemma LockFinished(now: System, t: Tid, m: MutexId, l: LockId)
    requires Inv(now) && LockInv(now) && Enabled(now, FinishLock(t)) && now.threads[t].pc == Acquired(m, Some(l))
    ensures var next := Step(now, FinishLock(t));
      && next.reports == [] && next.locks == now.locks
      && l in next.locks && next.locks[l].owns && next.locks[l].device == Some(m)
      && m in next.mutexes && next.mutexes[m].holder == t && next.mutexes[m].owner == t
      && Enabled(next, BeginUnlock(t, m, Some(l)))
      && (next.mutexes[m].kind == Plain ==> Enabled(next, BeginWait(t, l)))
  {
    assert Consistent(now, t) && ThreadFits(now, t) && Agrees(now, m) && LockFits(now, l);
  }

  /** Unlocked through an object: it owned the mutex and does not own it any more, which is given up once. */
  lemma UnlockedThrough(s: System, actions: seq<Action>, t: Tid, m: MutexId, l: LockId)
    requires Init(s) && Runs(s, actions) && CarefulRun(s, actions)
    requires Enabled(After(s, actions), RawUnlock(t)) && After(s, actions).threads[t].pc == Releasing(m, Some(l))
    ensures var now, next := After(s, actions), Step(After(s, actions), RawUnlock(t));
      && l in now.locks && now.locks[l].owns && now.locks[l].device == Some(m)
      && next.locks == now.locks[l := now.locks[l].(owns := false)]
      && m in now.mutexes && m in next.mutexes && now.mutexes[m].holder == t
      && next.mutexes[m].depth == now.mutexes[m].depth - 1
      && (next.mutexes[m].holder == if now.mutexes[m].depth == 1 then 0 else t)
      && (next.mutexes[m].kind == Plain ==> next.mutexes[m].holder == 0)
  {
    hide Runs, CarefulRun, Init;
    NoReportYet(After(s, actions), RawUnlock(t));
    CarefulStateFits(s, actions);
    UnlockFinished(After(s, actions), t, m, l);
  }

  lemma UnlockFinished(now: System, t: Tid, m: MutexId, l: LockId)
    requires Inv(now) && LockInv(now) && Enabled(now, RawUnlock(t)) && now.threads[t].pc == Releasing(m, Some(l))
    ensures var next := Step(now, RawUnlock(t));
      && l in now.locks && now.locks[l].owns && now.locks[l].device == Some(m)
      && next.locks == now.locks[l := now.locks[l].(owns := false)]
      && m in now.mutexes && m in next.mutexes && now.mutexes[m].holder == t
      && next.mutexes[m].depth == now.mutexes[m].depth - 1
      && (next.mutexes[m].holder == if now.mutexes[m].depth == 1 then 0 else t)
      && (next.mutexes[m].kind == Plain ==> next.mutexes[m].holder == 0)
  {
    assert Consistent(now, t) && ThreadFits(now, t) && Agrees(now, m);
  }

  /** A wait that comes back finds its lock object owning the mutex again, and it can be unlocked. */
  lemma WaitedWith(s: System, actions: seq<Action>, t: Tid)
    requires Init(s) && Runs(s, actions) && CarefulRun(s, actions)
    requires Enabled(After(s, actions), EndWait(t))
    ensures var now, next := After(s, actions), Step(After(s, actions), EndWait(t));
      && now.threads[t].WaitLock().Some?
      && var l, m := now.threads[t].WaitLock().value, now.threads[t].WaitMutex();
      && next.reports == [] && next.locks == now.locks
      && l in next.locks && next.locks[l].owns && next.locks[l].device == Some(m)
      && m in next.mutexes && next.mutexes[m].holder == t && next.mutexes[m].owner == t
      && Enabled(next, BeginUnlock(t, m, Some(l)))
  {
    hide Runs, CarefulRun, Init;
    NoReportYet(After(s, actions), EndWait(t));
    CarefulStateFits(s, actions);
    WaitFinished(After(s, actions), t);
  }

  lemma WaitFinished(now: System, t: Tid)
    requires Inv(now) && LockInv(now) && Enabled(now, EndWait(t))
    ensures var next := Step(now, EndWait(t));
      && now.threads[t].WaitLock().Some?
      && var l, m := now.threads[t].WaitLock().value, now.threads[t].WaitMutex();
      && next.reports == [] && next.locks == now.locks
      && l in next.locks && next.locks[l].owns && next.locks[l].device == Some(m)
      && m in next.mutexes && next.mutexes[m].holder == t && next.mutexes[m].owner == t
      && Enabled(next, BeginUnlock(t, m, Some(l)))
  {
    WaitingWith(now, t);
    var l, m := now.threads[t].WaitLock().value, now.threads[t].WaitMutex();
    assert m in now.threads[t].waits && Agrees(now, m) && LockFits(now, l);
  }

  predicate Harmless(a: Action) {
    !a.MoveConstruct? && !a.MoveAssign? && !a.Destroy? && (a.BeginUnlock? ==> a.via.Some?)
  }

  predicate AllHarmless(actions: seq<Action>) {
    forall i :: 0 <= i < |actions| ==> Harmless(actions[i])
  }

  /** A thread on its own is careful unless it moves or destroys objects, or unlocks directly. */
  lemma {:induction false} OneThreadIsCareful(s: System, actions: seq<Action>, t: Tid)
    requires s.threads.Keys <= {t} && Runs(s, actions)
    requires AllHarmless(actions)
    ensures CarefulRun(s, actions)
    decreases |actions|
  {
    if actions != [] {
      assert Careful(s, actions[0]) by { ActsOnItsOwn(s, actions[0]); }
      ThreadsStay(s, actions[0]);
      OneThreadIsCareful(Step(s, actions[0]), actions[1..], t);
    }
  }

  lemma ActsOnItsOwn(s: System, a: Action)
    requires Enabled(s, a)
    ensures a.t in s.threads
  {
  }

  lemma ThreadsStay(s: System, a: Action)
    requires Enabled(s, a)
    ensures Step(s, a).threads.Keys == s.threads.Keys && Step(s, a).mutexes.Keys == s.mutexes.Keys
  {
  }

  // ----- one run through everything

  /** One plain mutex, one lock object for it, one thread. */
  function Alone(x: Mutex, owns: bool, th: Thread): System {
    System(map[0 := x], map[7 := UniqueLock(Some(0), Some(0), owns, false)], map[1 := th], [])
  }

  const START := System(map[0 := FREE_PLAIN], map[], map[1 := Thread(Idle, [], [])], [])
  const FREE_PLAIN := Mutex(Plain, 0, 0, 0, 0)
  const TAKEN := Mutex(Plain, 1, 1, 0, 0)
  const OWNED := Mutex(Plain, 1, 1, 1, 0)

  lemma ObjectComes()
    ensures Enabled(START, NewLock(1, 7, Some(0)))
    ensures Step(START, NewLock(1, 7, Some(0))) == Alone(FREE_PLAIN, false, Thread(Idle, [], []))
  {
  }

  lemma LockBegins()
    ensures Enabled(Alone(FREE_PLAIN, false, Thread(Idle, [], [])), BeginLock(1, 0, Some(7)))
    ensures Step(Alone(FREE_PLAIN, false, Thread(Idle, [], [])), BeginLock(1, 0, Some(7))) ==
            Alone(FREE_PLAIN, false, Thread(Locking(0, Some(7)), [], []))
  {
  }

  lemma LockIsTaken()
    ensures Enabled(Alone(FREE_PLAIN, false, Thread(Locking(0, Some(7)), [], [])), RawLock(1))
    ensures Step(Alone(FREE_PLAIN, false, Thread(Locking(0, Some(7)), [], [])), RawLock(1)) ==
            Alone(TAKEN, true, Thread(Acquired(0, Some(7)), [], []))
  {
  }

  lemma LockIsOwned()
    ensures Enabled(Alone(TAKEN, true, Thread(Acquired(0, Some(7)), [], [])), FinishLock(1))
    ensures Step(Alone(TAKEN, true, Thread(Acquired(0, Some(7)), [], [])), FinishLock(1)) ==
            Alone(OWNED, true, Thread(Idle, [], []))
  {
  }

  lemma WaitBegins()
    ensures Enabled(Alone(OWNED, true, Thread(Idle, [], [])), BeginWait(1, 7))
    ensures Step(Alone(OWNED, true, Thread(Idle, [], [])), BeginWait(1, 7)) ==
            Alone(TAKEN, true, Thread(Idle, [0], [7]))
  {
    var owned := Alone(OWNED, true, Thread(Idle, [], []));
    assert owned.threads[1].waits + [0] == [0] && owned.threads[1].through + [7] == [7];
    assert owned.mutexes[0] == OWNED && owned.locks[7].device == Some(0);
  }

  lemma FallsAsleep()
    ensures Enabled(Alone(TAKEN, true, Thread(Idle, [0], [7])), Sleep(1))
    ensures Step(Alone(TAKEN, true, Thread(Idle, [0], [7])), Sleep(1)) ==
            Alone(FREE_PLAIN, false, Thread(Sleeping, [0], [7]))
  {
  }

  lemma WakesUp()
    ensures Enabled(Alone(FREE_PLAIN, false, Thread(Sleeping, [0], [7])), Wake(1))
    ensures Step(Alone(FREE_PLAIN, false, Thread(Sleeping, [0], [7])), Wake(1)) ==
            Alone(TAKEN, true, Thread(Idle, [0], [7]))
  {
  }

  lemma WaitEnds()
    ensures Enabled(Alone(TAKEN, true, Thread(Idle, [0], [7])), EndWait(1))
    ensures Step(Alone(TAKEN, true, Thread(Idle, [0], [7])), EndWait(1)) == Alone(OWNED, true, Thread(Idle, [], []))
  {
  }

  lemma UnlockBegins()
    ensures Enabled(Alone(OWNED, true, Thread(Idle, [], [])), BeginUnlock(1, 0, Some(7)))
    ensures Step(Alone(OWNED, true, Thread(Idle, [], [])), BeginUnlock(1, 0, Some(7))) ==
            Alone(TAKEN, true, Thread(Releasing(0, Some(7)), [], []))
  {
  }

  lemma LockIsFree()
    ensures Enabled(Alone(TAKEN, true, Thread(Releasing(0, Some(7)), [], [])), RawUnlock(1))
    ensures Step(Alone(TAKEN, true, Thread(Releasing(0, Some(7)), [], [])), RawUnlock(1)) ==
            Alone(FREE_PLAIN, false, Thread(Idle, [], []))
  {
  }

  /** Locking through a new object. */
  function LockingRun(): seq<Action> {
    [] + [NewLock(1, 7, Some(0))] + [BeginLock(1, 0, Some(7))] + [RawLock(1)] + [FinishLock(1)]
  }

  /** From there into a wait, to sleep, back, and out of it, and unlocking. */
  function Whole(): seq<Action> {
    LockingRun() + [BeginWait(1, 7)] + [Sleep(1)] + [Wake(1)] + [EndWait(1)] + [BeginUnlock(1, 0, Some(7))] + [RawUnlock(1)]
  }

  lemma ObjectOwns()
    ensures Runs(START, LockingRun()) && After(START, LockingRun()) == Alone(OWNED, true, Thread(Idle, [], []))
  {
    ObjectComes();
    LockBegins();
    LockIsTaken();
    LockIsOwned();
    hide Enabled, Step, Alone;
    var p: seq<Action> := [];
    OneStep(START, p, NewLock(1, 7, Some(0)));
    p := p + [NewLock(1, 7, Some(0))];
    OneStep(START, p, BeginLock(1, 0, Some(7)));
    p := p + [BeginLock(1, 0, Some(7))];
    OneStep(START, p, RawLock(1));
    p := p + [RawLock(1)];
    OneStep(START, p, FinishLock(1));
  }

  /** A run that locks through an object, waits with it, sleeps, wakes up, and unlocks. */
  lemma ThereAndBack()
    ensures var asleep := LockingRun() + [BeginWait(1, 7)] + [Sleep(1)];
      && Init(START)
      && Runs(START, LockingRun()) && After(START, LockingRun()) == Alone(OWNED, true, Thread(Idle, [], []))
      && Runs(START, asleep) && After(START, asleep) == Alone(FREE_PLAIN, false, Thread(Sleeping, [0], [7]))
      && Runs(START, Whole()) && After(START, Whole()) == Alone(FREE_PLAIN, false, Thread(Idle, [], []))
  {
    ObjectOwns();
    WaitBegins();
    FallsAsleep();
    WakesUp();
    WaitEnds();
    UnlockBegins();
    LockIsFree();
    hide Enabled, Step, Alone, LockingRun;
    var p := LockingRun();
    OneStep(START, p, BeginWait(1, 7));
    p := p + [BeginWait(1, 7)];
    OneStep(START, p, Sleep(1));
    p := p + [Sleep(1)];
    OneStep(START, p, Wake(1));
    p := p + [Wake(1)];
    OneStep(START, p, EndWait(1));
    p := p + [EndWait(1)];
    OneStep(START, p, BeginUnlock(1, 0, Some(7)));
    p := p + [BeginUnlock(1, 0, Some(7))];
    OneStep(START, p, RawUnlock(1));
  }

  lemma WholeIsHarmless()
    ensures AllHarmless(Whole())
  {
  }

  /** That run is a careful one. */
  lemma ThereAndBackIsCareful()
    ensures Runs(START, Whole()) && CarefulRun(START, Whole())
  {
    assert START.threads.Keys <= {1};
    hide *;
    ThereAndBack();
    WholeIsHarmless();
    OneThreadIsCareful(START, Whole(), 1);
  }
}
