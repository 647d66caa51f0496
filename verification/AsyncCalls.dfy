/**
 Bookkeeping of asynchronous method calls.  A call object lives in the table of
 pending calls under its own address; a small record with that address and the
 call's cookie travels through the I/O library and comes back with the
 completion.  Completion handlers may start new calls, throw, or let further
 completions in before they return.
 */
module AsyncCalls {
  import opened Wrappers

  type Address = nat
  type RecordId = nat

  /** `AsyncCall`: its cookie, and the record that was handed out for it. */
  datatype Call = Call(cookie: nat, userData: Option<RecordId>)

  /** What the I/O library hands back. */
  datatype Record = Record(address: Address, cookie: nat)

  datatype Bug =
    | BadUserData            // the call's record is not the one that came back
    | LeakedUserData         // a call object was destroyed while it had a record
    | DoubleDelete           // a record was deleted that does not exist any more
    | DanglingCall           // a call object was used that does not exist any more

  datatype State = State(
    connected: bool,
    pending: map<Address, Call>,
    records: map<RecordId, Record>,    // allocated and not deleted
    inFlight: set<RecordId>,           // handed to the I/O library, callback not made yet
    running: seq<RecordId>,            // completions whose handler has not returned, innermost last
    nextCookie: nat,
    nextRecord: RecordId,
    handled: seq<nat>,                 // cookies of the calls whose handler was run
    deleted: seq<RecordId>,
    bugs: seq<Bug>)

  datatype Action =
    | StartCall(at: Address)           // `call`; the allocator picks the address
    | Complete(r: RecordId)            // `method_done` up to the handler
    | HandlerReturns(threw: bool)      // the rest of `method_done` for the innermost handler

  /** Delete a record, once. */
  function Delete(s: State, r: RecordId): State {
    if r in s.records then s.(records := s.records - {r}, deleted := s.deleted + [r])
    else s.(bugs := s.bugs + [DoubleDelete])
  }

  /** `take_user_data_for_invoke`: the record leaves the call object. */
  function TakeUserData(s: State, at: Address): State
    requires at in s.pending
  {
    s.(pending := s.pending[at := s.pending[at].(userData := None)])
  }

  /** Erasing a call destroys it, together with the record it still has. */
  function Erase(s: State, at: Address): State
    requires at in s.pending
  {
    var erased := s.(pending := s.pending - {at});
    match s.pending[at].userData
    case None => erased
    case Some(r) => Delete(erased.(bugs := erased.bugs + [LeakedUserData]), r)
  }

  /** The pending call that a record is for, if it is still there. */
  predicate Matches(s: State, record: Record) {
    record.address in s.pending && s.pending[record.address].cookie == record.cookie
  }

  predicate Enabled(s: State, a: Action) {
    match a
    case StartCall(at) => at !in s.pending
    case Complete(r) => r in s.inFlight && r in s.records
    case HandlerReturns(_) => s.running != [] && s.running[|s.running| - 1] in s.records
  }

  function Start(s: State, at: Address): State
    requires at !in s.pending
  {
    if !s.connected then s
    else
      s.(pending := s.pending[at := Call(s.nextCookie, Some(s.nextRecord))],
         records := s.records[s.nextRecord := Record(at, s.nextCookie)],
         inFlight := s.inFlight + {s.nextRecord},
         nextCookie := s.nextCookie + 1,
         nextRecord := s.nextRecord + 1)
  }

  function Arrive(s: State, r: RecordId): State
    requires r in s.inFlight && r in s.records
  {
    var s1 := s.(inFlight := s.inFlight - {r});
    if Matches(s1, s1.records[r]) then
      s1.(handled := s1.handled + [s1.records[r].cookie], running := s1.running + [r])
    else Delete(s1, r)
  }

  function Return(s: State): State
    requires s.running != [] && s.running[|s.running| - 1] in s.records
  {
    var r := s.running[|s.running| - 1];
    var at := s.records[r].address;
    var s1 := s.(running := s.running[..|s.running| - 1]);
    if at !in s1.pending then s1.(bugs := s1.bugs + [DanglingCall])
    else
      var taken := s1.pending[at].userData;
      var s2 := TakeUserData(s1, at);
      var s3 := if taken != Some(r) then s2.(bugs := s2.bugs + [BadUserData]) else s2;
      Delete(Erase(s3, at), r)
  }

  function Step(s: State, a: Action): State
    requires Enabled(s, a)
  {
    match a
    case StartCall(at) => Start(s, at)
    case Complete(r) => Arrive(s, r)
    case HandlerReturns(_) => Return(s)
  }

  // ----- what holds in every reachable state

  /** The records that are still out: on their way, or with a handler running. */
  function Out(s: State): set<RecordId> {
    s.inFlight + set r | r in s.running
  }

  /** Record `r` and the call it names belong to each other. */
  predicate Paired(s: State, r: RecordId) {
    && r in s.records
    && s.records[r].address in s.pending
    && s.pending[s.records[r].address] == Call(s.records[r].cookie, Some(r))
  }

  /** Records that are out and pending calls are in bijection. */
  ghost predicate Bijective(s: State) {
    && s.records.Keys == Out(s)
    && (forall r :: r in s.records ==> Paired(s, r))
    && (forall at :: at in s.pending ==>
          s.pending[at].userData.Some? && s.pending[at].userData.value in s.records
          && s.records[s.pending[at].userData.value].address == at)
  }

  /** No completion is in two places. */
  ghost predicate OnePlace(s: State) {
    && (forall i, j :: 0 <= i < j < |s.running| ==> s.running[i] != s.running[j])
    && (forall i :: 0 <= i < |s.running| ==> s.running[i] !in s.inFlight)
  }

  /** Cookies and records are not reused. */
  ghost predicate NotReused(s: State) {
    && (forall r :: r in s.records ==> r < s.nextRecord && s.records[r].cookie < s.nextCookie)
    && (forall r, q :: r in s.records && q in s.records && r != q ==> s.records[r].cookie != s.records[q].cookie)
  }

  ghost predicate Inv(s: State) {
    Bijective(s) && OnePlace(s) && NotReused(s) && s.bugs == []
  }

  /** A record is deleted once, when it is not out any more, and never before. */
  ghost predicate DeletedOnce(s: State) {
    forall r: RecordId :: multiset(s.deleted)[r] == if r < s.nextRecord && r !in s.records then 1 else 0
  }

  /** The handler of an accepted call runs once, when its completion arrives, and never before. */
  ghost predicate HandledOnce(s: State) {
    forall c: nat :: multiset(s.handled)[c] == if c < s.nextCookie && !AwaitsCompletion(s, c) then 1 else 0
  }

  ghost predicate AwaitsCompletion(s: State, cookie: nat) {
    exists r :: r in s.inFlight && r in s.records && s.records[r].cookie == cookie
  }

  ghost predicate Init(s: State) {
    s == State(s.connected, map[], map[], {}, [], s.nextCookie, 0, s.handled, [], []) && s.nextCookie == 0 && s.handled == []
  }

  lemma StartKeepsInv(s: State, at: Address)
    requires Inv(s) && at !in s.pending
    ensures Inv(Start(s, at))
  {
    var s' := Start(s, at);
    if s.connected {
      assert Out(s') == Out(s) + {s.nextRecord};
      forall r | r in s'.records ensures Paired(s', r) {
        if r != s.nextRecord {
          assert Paired(s, r);
        }
      }
    }
  }

  /** Under the invariant a completion always finds its call. */
  lemma ArriveFindsCall(s: State, r: RecordId)
    requires Inv(s) && r in s.inFlight
    ensures r in s.records && Matches(s, s.records[r])
  {
    assert Paired(s, r);
  }

  lemma ArriveKeepsInv(s: State, r: RecordId)
    requires Inv(s) && r in s.inFlight
    ensures r in s.records && Inv(Arrive(s, r))
  {
    ArriveFindsCall(s, r);
    var s' := Arrive(s, r);
    assert Out(s') == Out(s);
    forall q | q in s'.records ensures Paired(s', q) {
      assert Paired(s, q);
    }
  }

  /** Returning takes the record and the call away, and nothing else. */
  lemma ReturnIs(s: State)
    requires Inv(s) && s.running != []
    ensures var n := |s.running| - 1;
      var r := s.running[n];
      && r in s.records && s.records[r].address in s.pending
      && Return(s) == s.(running := s.running[..n], pending := s.pending - {s.records[r].address},
                         records := s.records - {r}, deleted := s.deleted + [r])
  {
    var r := s.running[|s.running| - 1];
    assert Paired(s, r);
    var at := s.records[r].address;
    assert s.pending[at := s.pending[at].(userData := None)] - {at} == s.pending - {at};
  }

  /** A record is deleted or the deletion is noticed; a call is destroyed, and it is noticed if it had a record. */
  lemma MisuseIsNoticed(s: State, r: RecordId, at: Address)
    ensures Delete(s, r).records == s.records - {r}
    ensures Delete(s, r).bugs == if r in s.records then s.bugs else s.bugs + [DoubleDelete]
    ensures at in s.pending ==>
      && Erase(s, at).pending == s.pending - {at}
      && (Erase(s, at).bugs == s.bugs <==> s.pending[at].userData == None)
  {
    assert r !in s.records ==> s.records - {r} == s.records;
  }

  /** A handler comes back without any report exactly if its call is still there with the very record. */
  lemma ReturnIsCleanExactly(s: State)
    requires s.running != [] && s.running[|s.running| - 1] in s.records
    ensures var r := s.running[|s.running| - 1];
      var at := s.records[r].address;
      Return(s).bugs == s.bugs <==> at in s.pending && s.pending[at].userData == Some(r)
  {
  }

  lemma OutAfterReturn(s: State)
    requires OnePlace(s) && s.running != []
    ensures var n := |s.running| - 1;
      Out(s.(running := s.running[..n])) == Out(s) - {s.running[n]}
  {
    var n := |s.running| - 1;
    assert s.running == s.running[..n] + [s.running[n]];
  }

  lemma ReturnKeepsInv(s: State)
    requires Inv(s) && s.running != []
    ensures s.running[|s.running| - 1] in s.records && Inv(Return(s))
  {
    hide Return, Out;
    ReturnIs(s);
    OutAfterReturn(s);
    var n := |s.running| - 1;
    var r, s' := s.running[n], Return(s);
    OutIs(s', s.(running := s.running[..n]));
    forall q | q in s'.records ensures Paired(s', q) {
      assert Paired(s, q) && Paired(s, r);
    }
  }

  lemma OutIs(s: State, s': State)
    requires s.running == s'.running && s.inFlight == s'.inFlight
    ensures Out(s) == Out(s')
  {
  }

  // ----- each record is deleted once, each handler is run once

  lemma StartKeepsOnce(s: State, at: Address)
    requires Inv(s) && at !in s.pending && DeletedOnce(s) && HandledOnce(s)
    ensures DeletedOnce(Start(s, at)) && HandledOnce(Start(s, at))
  {
    var s' := Start(s, at);
    if s.connected {
      forall c: nat ensures multiset(s'.handled)[c] == if c < s'.nextCookie && !AwaitsCompletion(s', c) then 1 else 0 {
        if c == s.nextCookie {
          assert s.nextRecord in s'.inFlight && s'.records[s.nextRecord].cookie == c;
        } else {
          SameAwaiting(s, at, c);
        }
      }
    }
  }

  lemma SameAwaiting(s: State, at: Address, c: nat)
    requires Inv(s) && s.connected && at !in s.pending && c != s.nextCookie
    ensures AwaitsCompletion(Start(s, at), c) <==> AwaitsCompletion(s, c)
  {
    var s' := Start(s, at);
    if AwaitsCompletion(s, c) {
      var r :| r in s.inFlight && r in s.records && s.records[r].cookie == c;
      assert r in s'.inFlight && r in s'.records && s'.records[r].cookie == c;
    }
    if AwaitsCompletion(s', c) {
      var r :| r in s'.inFlight && r in s'.records && s'.records[r].cookie == c;
      assert r in s.inFlight && r in s.records;
    }
  }

  lemma ArriveKeepsOnce(s: State, r: RecordId)
    requires Inv(s) && r in s.inFlight && DeletedOnce(s) && HandledOnce(s)
    ensures r in s.records && DeletedOnce(Arrive(s, r)) && HandledOnce(Arrive(s, r))
  {
    ArriveFindsCall(s, r);
    var s' := Arrive(s, r);
    var cookie := s.records[r].cookie;
    forall c: nat ensures multiset(s'.handled)[c] == if c < s'.nextCookie && !AwaitsCompletion(s', c) then 1 else 0 {
      if c == cookie {
        assert r in s.inFlight && r in s.records && s.records[r].cookie == c;
        assert !AwaitsCompletion(s', c);
      } else if AwaitsCompletion(s, c) {
        var q :| q in s.inFlight && q in s.records && s.records[q].cookie == c;
        assert q in s'.inFlight && q in s'.records && s'.records[q].cookie == c;
      }
    }
  }

  lemma ReturnKeepsOnce(s: State)
    requires Inv(s) && s.running != [] && DeletedOnce(s) && HandledOnce(s)
    ensures s.running[|s.running| - 1] in s.records && DeletedOnce(Return(s)) && HandledOnce(Return(s))
  {
    ReturnIs(s);
    var r, s' := s.running[|s.running| - 1], Return(s);
    forall c: nat ensures AwaitsCompletion(s', c) <==> AwaitsCompletion(s, c) {
      if AwaitsCompletion(s, c) {
        var q :| q in s.inFlight && q in s.records && s.records[q].cookie == c;
        assert q in s'.inFlight && q in s'.records && s'.records[q].cookie == c;
      }
    }
  }

  lemma StepKeeps(s: State, a: Action)
    requires Inv(s) && DeletedOnce(s) && HandledOnce(s) && Enabled(s, a)
    ensures Inv(Step(s, a)) && DeletedOnce(Step(s, a)) && HandledOnce(Step(s, a))
  {
    hide Inv, DeletedOnce, HandledOnce, Start, Arrive, Return;
    match a
    case StartCall(at) =>
      StartKeepsInv(s, at);
      StartKeepsOnce(s, at);
    case Complete(r) =>
      ArriveKeepsInv(s, r);
      ArriveKeepsOnce(s, r);
    case HandlerReturns(_) =>
      ReturnKeepsInv(s);
      ReturnKeepsOnce(s);
  }

  // ----- runs

  ghost predicate Runs(s: State, actions: seq<Action>)
    decreases |actions|
  {
    actions != [] ==> Enabled(s, actions[0]) && Runs(Step(s, actions[0]), actions[1..])
  }

  function After(s: State, actions: seq<Action>): State
    requires Runs(s, actions)
    decreases |actions|
  {
    if actions == [] then s else After(Step(s, actions[0]), actions[1..])
  }

  lemma {:induction false} RunKeeps(s: State, actions: seq<Action>)
    requires Inv(s) && DeletedOnce(s) && HandledOnce(s) && Runs(s, actions)
    ensures Inv(After(s, actions)) && DeletedOnce(After(s, actions)) && HandledOnce(After(s, actions))
    decreases |actions|
  {
    hide Inv, DeletedOnce, HandledOnce, Step;
    if actions != [] {
      StepKeeps(s, actions[0]);
      RunKeeps(Step(s, actions[0]), actions[1..]);
    }
  }

  /**
   Every run: calls and records that are out are in bijection, no bug is
   reported, every handler is run at most once, and as soon as no completion is
   awaited and no handler is running, every accepted call has been handled once,
   every record has been deleted once, and nothing is left over.
   */
  lemma EveryRun(s: State, actions: seq<Action>)
    requires Init(s) && Runs(s, actions)
    ensures var end := After(s, actions);
      && Inv(end) && DeletedOnce(end) && HandledOnce(end)
      && (end.inFlight == {} && end.running == [] ==>
            && end.pending == map[] && end.records == map[]
            && (forall c: nat :: multiset(end.handled)[c] == if c < end.nextCookie then 1 else 0)
            && (forall r: RecordId :: multiset(end.deleted)[r] == if r < end.nextRecord then 1 else 0))
  {
    RunKeeps(s, actions);
    var end := After(s, actions);
    if end.inFlight == {} && end.running == [] {
      assert end.records.Keys == {};
      assert end.pending.Keys == {};
    }
  }

  /**
   In every run, no completion is ever stray: whenever one can arrive, the call at
   its address is the one that it is for, and its handler is run for the first time.
   */
  lemma NoneIsStray(s: State, actions: seq<Action>, r: RecordId)
    requires Init(s) && Runs(s, actions) && Enabled(After(s, actions), Complete(r))
    ensures var now := After(s, actions);
      var record := now.records[r];
      && record.address in now.pending
      && now.pending[record.address] == Call(record.cookie, Some(r))
      && record.cookie !in now.handled
      && Step(now, Complete(r)).handled == now.handled + [record.cookie]
  {
    RunKeeps(s, actions);
    var now := After(s, actions);
    ArriveFindsCall(now, r);
    assert Paired(now, r);
    assert AwaitsCompletion(now, now.records[r].cookie);
    assert multiset(now.handled)[now.records[r].cookie] == 0;
  }

  // ----- how many calls there were

  function Starts(actions: seq<Action>): nat {
    if actions == [] then 0 else (if actions[0].StartCall? then 1 else 0) + Starts(actions[1..])
  }

  lemma {:induction false} CookiesAreCounted(s: State, actions: seq<Action>)
    requires Runs(s, actions)
    ensures var end := After(s, actions);
      && end.connected == s.connected
      && end.nextCookie == s.nextCookie + (if s.connected then Starts(actions) else 0)
      && end.nextRecord == s.nextRecord + (if s.connected then Starts(actions) else 0)
    decreases |actions|
  {
    hide Enabled, Step;
    if actions != [] {
      CookieStep(s, actions[0]);
      CookiesAreCounted(Step(s, actions[0]), actions[1..]);
    }
  }

  lemma CookieStep(s: State, a: Action)
    requires Enabled(s, a)
    ensures var next := Step(s, a);
      && next.connected == s.connected
      && next.nextCookie == s.nextCookie + (if s.connected && a.StartCall? then 1 else 0)
      && next.nextRecord == s.nextRecord + (if s.connected && a.StartCall? then 1 else 0)
  {
  }

  /**
   The calls that are accepted in a run are numbered from 0 in their order; when
   everything has come back, each of them was handled once, and nothing else was.
   */
  lemma EveryCallIsHandled(s: State, actions: seq<Action>)
    requires Init(s) && Runs(s, actions)
    ensures var end, calls := After(s, actions), if s.connected then Starts(actions) else 0;
      && end.nextCookie == calls
      && (forall c: nat :: multiset(end.handled)[c] <= if c < calls then 1 else 0)
      && (end.inFlight == {} && end.running == [] ==>
            && end.pending == map[]
            && (forall c: nat :: multiset(end.handled)[c] == if c < calls then 1 else 0)
            && (forall r: RecordId :: multiset(end.deleted)[r] == if r < calls then 1 else 0))
  {
    hide Inv, Bijective, OnePlace, NotReused;
    EveryRun(s, actions);
    CookiesAreCounted(s, actions);
  }

  // ----- a call goes out and comes back

  lemma {:induction false} OneStep(s: State, actions: seq<Action>, a: Action)
    requires Runs(s, actions) && Enabled(After(s, actions), a)
    ensures Runs(s, actions + [a]) && After(s, actions + [a]) == Step(After(s, actions), a)
    decreases |actions|
  {
    hide Enabled, Step;
    var all := actions + [a];
    if actions == [] {
      assert all[0] == a && all[1..] == [];
    } else {
      OneStep(Step(s, actions[0]), actions[1..], a);
      assert all[0] == actions[0] && all[1..] == actions[1..] + [a];
    }
  }

  /** In every state, all that is on its way can arrive, the innermost handler can return, and calls can be started. */
  lemma AlwaysEnabled(s: State)
    requires Inv(s)
    ensures forall r :: Enabled(s, Complete(r)) <==> r in s.inFlight
    ensures forall threw :: Enabled(s, HandlerReturns(threw)) <==> s.running != []
    ensures forall at :: Enabled(s, StartCall(at)) <==> at !in s.pending
  {
    if s.running != [] {
      ReturnIs(s);
    }
    forall r | r in s.inFlight ensures r in s.records {
      ArriveFindsCall(s, r);
    }
  }

  /** The call has been started, and either its completion is awaited or its handler is running. */
  function Called(s: State, at: Address, arrived: bool): State {
    s.(pending := s.pending[at := Call(s.nextCookie, Some(s.nextRecord))],
       records := s.records[s.nextRecord := Record(at, s.nextCookie)],
       inFlight := if arrived then s.inFlight else s.inFlight + {s.nextRecord},
       running := if arrived then s.running + [s.nextRecord] else s.running,
       handled := if arrived then s.handled + [s.nextCookie] else s.handled,
       nextCookie := s.nextCookie + 1,
       nextRecord := s.nextRecord + 1)
  }

  lemma CallGoesOut(s: State, at: Address)
    requires s.connected && at !in s.pending
    ensures Enabled(s, StartCall(at)) && Step(s, StartCall(at)) == Called(s, at, false)
  {
  }

  lemma CallArrives(s: State, at: Address)
    requires Inv(s) && at !in s.pending
    ensures Enabled(Called(s, at, false), Complete(s.nextRecord))
    ensures Step(Called(s, at, false), Complete(s.nextRecord)) == Called(s, at, true)
  {
    NextRecordIsNew(s);
  }

  lemma CallReturns(s: State, at: Address, threw: bool)
    requires Inv(s) && at !in s.pending
    ensures Enabled(Called(s, at, true), HandlerReturns(threw))
    ensures Step(Called(s, at, true), HandlerReturns(threw)) ==
            s.(nextCookie := s.nextCookie + 1, nextRecord := s.nextRecord + 1,
               handled := s.handled + [s.nextCookie], deleted := s.deleted + [s.nextRecord])
  {
    NextRecordIsNew(s);
    assert s.pending[at := Call(s.nextCookie, None)] - {at} == s.pending;
    assert s.records[s.nextRecord := Record(at, s.nextCookie)] - {s.nextRecord} == s.records;
    assert (s.running + [s.nextRecord])[..|s.running|] == s.running;
  }

  lemma NextRecordIsNew(s: State)
    requires Inv(s)
    ensures s.nextRecord !in s.records && s.nextRecord !in s.inFlight
  {
    assert forall r :: r in s.inFlight ==> r in Out(s);
  }

  /**
   Whatever else is going on, other calls and running handlers included: a call that is
   started, completed and handled leaves nothing but its number behind.
   */
  lemma CallComesBack(s: State, at: Address, threw: bool)
    requires Inv(s) && s.connected && at !in s.pending
    ensures var actions := [] + [StartCall(at)] + [Complete(s.nextRecord)] + [HandlerReturns(threw)];
      && Runs(s, actions)
      && After(s, actions) ==
         s.(nextCookie := s.nextCookie + 1, nextRecord := s.nextRecord + 1,
            handled := s.handled + [s.nextCookie], deleted := s.deleted + [s.nextRecord])
  {
    CallGoesOut(s, at);
    CallArrives(s, at);
    CallReturns(s, at, threw);
    hide Enabled, Step, Inv, Called;
    var p: seq<Action> := [];
    OneStep(s, p, StartCall(at));
    p := p + [StartCall(at)];
    OneStep(s, p, Complete(s.nextRecord));
    p := p + [Complete(s.nextRecord)];
    OneStep(s, p, HandlerReturns(threw));
  }

  function StillToDo(s: State): nat {
    2 * |s.inFlight| + |s.running|
  }

  lemma ReturningProgresses(s: State)
    requires Inv(s) && s.running != []
    ensures Enabled(s, HandlerReturns(false))
    ensures var next := Step(s, HandlerReturns(false));
      Inv(next) && next.nextCookie == s.nextCookie && StillToDo(next) < StillToDo(s)
  {
    ReturnKeepsInv(s);
    ReturnIs(s);
  }

  lemma ArrivingProgresses(s: State, r: RecordId)
    requires Inv(s) && r in s.inFlight
    ensures Enabled(s, Complete(r))
    ensures var next := Step(s, Complete(r));
      Inv(next) && next.nextCookie == s.nextCookie && StillToDo(next) < StillToDo(s)
  {
    ArriveKeepsInv(s, r);
    ArriveFindsCall(s, r);
  }

  /** From every state, everything can still come back: handlers return, then the next completion arrives. */
  lemma {:induction false} EverythingCanComeBack(s: State)
    requires Inv(s)
    ensures exists actions: seq<Action> ::
      Runs(s, actions) && After(s, actions).inFlight == {} && After(s, actions).running == []
      && After(s, actions).nextCookie == s.nextCookie
    decreases StillToDo(s), 0
  {
    hide Inv, Step, Enabled;
    if s.running != [] {
      ReturningProgresses(s);
      ThenOn(s, HandlerReturns(false));
    } else if s.inFlight != {} {
      var r :| r in s.inFlight;
      ArrivingProgresses(s, r);
      ThenOn(s, Complete(r));
    } else {
      assert Runs(s, []) && After(s, []) == s;
    }
  }

  lemma {:induction false} ThenOn(s: State, a: Action)
    requires Enabled(s, a) && Inv(Step(s, a)) && Step(s, a).nextCookie == s.nextCookie
    requires StillToDo(Step(s, a)) < StillToDo(s)
    ensures exists actions: seq<Action> ::
      Runs(s, actions) && After(s, actions).inFlight == {} && After(s, actions).running == []
      && After(s, actions).nextCookie == s.nextCookie
    decreases StillToDo(Step(s, a)), 1
  {
    hide Step, Enabled, Inv, StillToDo;
    EverythingCanComeBack(Step(s, a));
    var rest: seq<Action> :| Runs(Step(s, a), rest) && After(Step(s, a), rest).inFlight == {}
      && After(Step(s, a), rest).running == [] && After(Step(s, a), rest).nextCookie == s.nextCookie;
    var all := [a] + rest;
    assert all[0] == a && all[1..] == rest;
    assert Runs(s, all) && After(s, all) == After(Step(s, a), rest);
  }

  /** A handler that calls back in sees its own call still pending, and it stays so until the handler returns. */
  lemma RunningCallsStay(s: State, a: Action, i: nat)
    requires Inv(s) && Enabled(s, a) && i < |s.running| && !(a.HandlerReturns? && i == |s.running| - 1)
    ensures i < |Step(s, a).running| && Step(s, a).running[i] == s.running[i]
    ensures Paired(s, s.running[i]) && Paired(Step(s, a), s.running[i])
    ensures Step(s, a).pending[s.records[s.running[i]].address] == s.pending[s.records[s.running[i]].address]
  {
    assert Paired(s, s.running[i]);
    match a
    case StartCall(at) => StartKeepsInv(s, at);
    case Complete(r) => ArriveFindsCall(s, r);
    case HandlerReturns(_) =>
      ReturnIs(s);
      assert Paired(s, s.running[|s.running| - 1]);
  }

  lemma NoBugs(s: State)
    requires Inv(s)
    ensures s.bugs == []
  {
  }

  // ----- the proxy as it is written

  /** The proxy, its call objects, and what it shares with the I/O library. */
  class Proxy {
    var connected: bool
    var pendingCalls: map<Address, Call>
    var nextFreeCookie: nat
    var records: map<RecordId, Record>
    var inFlight: set<RecordId>
    var running: seq<RecordId>
    var nextRecord: RecordId
    var handled: seq<nat>
    var deleted: seq<RecordId>
    var bugs: seq<Bug>

    ghost function Current(): State
      reads this
    {
      State(connected, pendingCalls, records, inFlight, running, nextFreeCookie, nextRecord, handled, deleted, bugs)
    }

    constructor (connected: bool)
      ensures Init(Current()) && this.connected == connected
    {
      this.connected := connected;
      pendingCalls, nextFreeCookie, records, inFlight, running := map[], 0, map[], {}, [];
      nextRecord, handled, deleted, bugs := 0, [], [], [];
    }

    /** `call`, for an address at which no call object lives; the cookie is the handle. */
    method StartCall(at: Address) returns (handle: Option<nat>)
      requires at !in pendingCalls
      modifies this
      ensures Current() == Start(old(Current()), at)
      ensures handle == if connected then Some(old(nextFreeCookie)) else None
      ensures connected ==>
        && pendingCalls == old(pendingCalls)[at := Call(handle.value, Some(old(nextRecord)))]
        && records == old(records)[old(nextRecord) := Record(at, handle.value)]
        && inFlight == old(inFlight) + {old(nextRecord)}
        && nextFreeCookie == old(nextFreeCookie) + 1 && nextRecord == old(nextRecord) + 1
      ensures !connected ==>
        && pendingCalls == old(pendingCalls) && records == old(records) && inFlight == old(inFlight)
        && nextFreeCookie == old(nextFreeCookie) && nextRecord == old(nextRecord)
      ensures running == old(running) && handled == old(handled) && deleted == old(deleted) && bugs == old(bugs)
    {
      if !connected {
        return None;
      }
      var c := Call(nextFreeCookie, None);
      nextFreeCookie := nextFreeCookie + 1;
      var data := nextRecord;
      nextRecord := nextRecord + 1;
      records := records[data := Record(at, c.cookie)];
      c := c.(userData := Some(data));
      inFlight := inFlight + {data};
      pendingCalls := pendingCalls[at := c];
      return Some(c.cookie);
    }

    method DeleteRecord(data: RecordId)
      modifies this`records, this`deleted, this`bugs
      ensures Current() == Delete(old(Current()), data)
    {
      if data in records {
        records := records - {data};
        deleted := deleted + [data];
      } else {
        bugs := bugs + [DoubleDelete];
      }
    }

    /** `method_done` up to the call of the handler. */
    method CompletionArrives(data: RecordId) returns (runsHandler: bool)
      requires data in inFlight && data in records
      modifies this
      ensures Current() == Arrive(old(Current()), data)
      ensures runsHandler <==> Matches(old(Current()), old(records)[data])
      ensures inFlight == old(inFlight) - {data} && pendingCalls == old(pendingCalls)
      ensures runsHandler ==>
        && records == old(records) && deleted == old(deleted)
        && handled == old(handled) + [records[data].cookie] && running == old(running) + [data]
      ensures !runsHandler ==>
        && records == old(records) - {data} && deleted == old(deleted) + [data]
        && handled == old(handled) && running == old(running)
    {
      inFlight := inFlight - {data};
      var record := records[data];
      runsHandler := record.address in pendingCalls && pendingCalls[record.address].cookie == record.cookie;
      if runsHandler {
        handled := handled + [record.cookie];
        running := running + [data];
      } else {
        DeleteRecord(data);
      }
    }

    /** The rest of `method_done`, whether the handler returned or threw. */
    method HandlerReturned(threw: bool)
      requires running != [] && running[|running| - 1] in records
      modifies this
      ensures Current() == Return(old(Current()))
      ensures old(Inv(Current())) ==>
        var data := old(running[|running| - 1]);
        && records == old(records) - {data} && deleted == old(deleted) + [data] && bugs == []
        && pendingCalls == old(pendingCalls) - {old(records)[data].address}
        && running == old(running)[..|old(running)| - 1] && inFlight == old(inFlight) && handled == old(handled)
    {
      hide Inv;
      if Inv(Current()) {
        ReturnIs(Current());
        NoBugs(Current());
      }
      var data := running[|running| - 1];
      running := running[..|running| - 1];
      var acall := records[data].address;
      if acall !in pendingCalls {
        bugs := bugs + [DanglingCall];
        return;
      }
      var taken := pendingCalls[acall].userData;
      pendingCalls := pendingCalls[acall := pendingCalls[acall].(userData := None)];
      if taken != Some(data) {
        bugs := bugs + [BadUserData];
      }
      pendingCalls := pendingCalls - {acall};
      DeleteRecord(data);
    }

    /**
     `kill_unfinished_calls`: every record on its way is deleted once, all calls
     are gone, and the result is how many there were.
     */
    method KillUnfinishedCalls() returns (count: nat)
      requires Inv(Current()) && running == []
      modifies this`pendingCalls, this`records, this`deleted
      ensures count == |old(inFlight)| == |old(pendingCalls)|
      ensures pendingCalls == map[] && records == map[]
      ensures multiset(deleted) == multiset(old(deleted)) + multiset(old(inFlight))
    {
      hide Inv, Killing;
      ghost var s := Current();
      KillingStart(s);
      var todo := pendingCalls.Keys;
      while todo != {}
        invariant Killing(s, todo, pendingCalls, records, deleted)
        decreases todo
      {
        var at :| at in todo;
        KillingStep(s, todo, pendingCalls, records, deleted, at);
        var taken := pendingCalls[at].userData;
        pendingCalls := pendingCalls[at := pendingCalls[at].(userData := None)];
        if taken.Some? {
          records := records - {taken.value};
          deleted := deleted + [taken.value];
        }
        todo := todo - {at};
      }
      KillingEnd(s, pendingCalls, records, deleted);
      count := |pendingCalls|;
      pendingCalls := map[];
    }
  }

  /** The calls at the addresses in `todo` still have their records; those of all others are deleted. */
  ghost predicate Killing(s: State, todo: set<Address>, pending: map<Address, Call>,
                          records: map<RecordId, Record>, deleted: seq<RecordId>) {
    && Inv(s) && s.records.Keys == s.inFlight
    && todo <= s.pending.Keys == pending.Keys
    && (forall at :: at in todo ==> pending[at] == s.pending[at])
    && (forall r :: r in records <==> r in s.records && s.records[r].address in todo)
    && multiset(deleted) + multiset(records.Keys) == multiset(s.deleted) + multiset(s.inFlight)
    && |records.Keys| + |s.pending.Keys| == |todo| + |s.inFlight|
  }

  lemma KillingStart(s: State)
    requires Inv(s) && s.running == []
    ensures Killing(s, s.pending.Keys, s.pending, s.records, s.deleted)
  {
    AllInFlight(s);
    forall r | r in s.records ensures s.records[r].address in s.pending {
      assert Paired(s, r);
    }
  }

  lemma KillingStep(s: State, todo: set<Address>, pending: map<Address, Call>,
                    records: map<RecordId, Record>, deleted: seq<RecordId>, at: Address)
    requires Killing(s, todo, pending, records, deleted) && at in todo
    ensures at in pending && pending[at].userData.Some?
    ensures var r := pending[at].userData.value;
      Killing(s, todo - {at}, pending[at := pending[at].(userData := None)], records - {r}, deleted + [r])
  {
    hide Inv;
    OnlyRecordAt(s, at);
    var r := pending[at].userData.value;
    assert r in s.records && r in records;
    assert records.Keys == (records - {r}).Keys + {r};
    assert |records.Keys| == |(records - {r}).Keys| + 1;
    assert multiset(records.Keys) == multiset((records - {r}).Keys) + multiset{r};
  }

  lemma KillingEnd(s: State, pending: map<Address, Call>, records: map<RecordId, Record>, deleted: seq<RecordId>)
    requires Killing(s, {}, pending, records, deleted)
    ensures records == map[] && |pending| == |s.inFlight| == |s.pending|
    ensures multiset(deleted) == multiset(s.deleted) + multiset(s.inFlight)
  {
    hide Inv;
    assert records.Keys == {};
    assert multiset(records.Keys) == multiset{};
  }

  lemma AllInFlight(s: State)
    requires Inv(s) && s.running == []
    ensures s.records.Keys == s.inFlight
  {
    assert Out(s) == s.inFlight;
  }

  lemma OnlyRecordAt(s: State, at: Address)
    requires Inv(s) && at in s.pending
    ensures s.pending[at].userData.Some?
    ensures forall r :: r in s.records && s.records[r].address == at <==> r == s.pending[at].userData.value
  {
    forall r | r in s.records && s.records[r].address == at ensures r == s.pending[at].userData.value {
      assert Paired(s, r);
    }
  }
}
