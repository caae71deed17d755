/** The HTTP server's registry of handler threads: every interleaving of listener, handlers and shutdown. */
module Registry {

  /** A handler: serving, waiting for the mutex, holding it before and after deregistering, ended. */
  datatype Handler = Working | Wanting | Holding | Leaving | Ended

  /** The listener: in accept, with a connection, holding the mutex in three steps around thread start and listing, ended. */
  datatype Listener = Accepting | Connected | Locked | Spawned | Listed | Stopped

  /** main: reading the keyboard, joining the listener, around its locked block, joining entry k, returned. */
  datatype Main = Reading | JoiningListener | WantingLock | InBlock | Cleared | Joining(k: nat) | Returned

  datatype Holder = Free | ByMain | ByListener | ByHandler(id: nat)

  /** Thread ids are indices into `handlers`; `listed` is the list of thread objects, `joined` the threads main joined. */
  datatype State = State(
    handlers: seq<Handler>,
    listed: seq<nat>,
    removeOnCompletion: bool,
    shutdown: bool,
    mutex: Holder,
    listener: Listener,
    main: Main,
    joined: seq<nat>)

  const START := State([], [], true, false, Free, Accepting, Reading, [])

  datatype Action =
    | Accept | ListenerLock | Spawn | List | ListenerUnlock | ListenerStop
    | Fail(h: nat) | Finish(h: nat) | HandlerLock(h: nat) | Deregister(h: nat) | HandlerUnlock(h: nat)
    | Quit | JoinListener | MainLock | Clear | MainUnlock | Join | Return

  /** remove_handler_thread: the first entry with the id is detached and erased; an absent id changes nothing. */
  function Without(listed: seq<nat>, id: nat): (rest: seq<nat>)
    ensures id !in listed ==> rest == listed
    ensures forall x | x != id :: x in rest <==> x in listed
  {
    if listed == [] then []
    else if listed[0] == id then listed[1..]
    else [listed[0]] + Without(listed[1..], id)
  }

  lemma {:induction false} WithoutAt(listed: seq<nat>, i: nat)
    requires i < |listed| && listed[i] !in listed[..i]
    ensures Without(listed, listed[i]) == listed[..i] + listed[i + 1..]
  {
    if i > 0 {
      assert listed[1..][..i - 1] == listed[..i][1..] && listed[0] in listed[..i];
      WithoutAt(listed[1..], i - 1);
    }
  }

  /** The search and erase, in place. */
  class ThreadList {
    var ids: seq<nat>
    var detached: seq<nat>

    method RemoveHandlerThread(id: nat)
      modifies this
      ensures ids == Without(old(ids), id)
      ensures detached == old(detached) + if id in old(ids) then [id] else []
    {
      var i := 0;
      while i < |ids| && ids[i] != id
        invariant i <= |ids| && id !in ids[..i]
      {
        i := i + 1;
      }
      if i != |ids| {
        WithoutAt(ids, i);
        detached := detached + [ids[i]];
        ids := ids[..i] + ids[i + 1..];
      }
    }
  }

  predicate At(s: State, h: nat, pc: Handler) {
    h < |s.handlers| && s.handlers[h] == pc
  }

  predicate Enabled(s: State, a: Action) {
    match a
    case Accept => s.listener == Accepting && !s.shutdown
    case ListenerLock => s.listener == Connected && s.mutex == Free
    case Spawn => s.listener == Locked
    case List => s.listener == Spawned && s.handlers != []
    case ListenerUnlock => s.listener == Listed
    case ListenerStop => s.listener == Accepting && s.shutdown
    case Fail(h) => At(s, h, Working)
    case Finish(h) => At(s, h, Working)
    case HandlerLock(h) => At(s, h, Wanting) && s.mutex == Free
    case Deregister(h) => At(s, h, Holding)
    case HandlerUnlock(h) => At(s, h, Leaving)
    case Quit => s.main == Reading
    case JoinListener => s.main == JoiningListener && s.listener == Stopped
    case MainLock => s.main == WantingLock && s.mutex == Free
    case Clear => s.main == InBlock
    case MainUnlock => s.main == Cleared
    case Join => s.main.Joining? && s.main.k < |s.listed| && At(s, s.listed[s.main.k], Ended)
    case Return => s.main.Joining? && s.main.k == |s.listed|
  }

  /** The id of the thread started last. */
  function Newest(s: State): nat
    requires s.handlers != []
  {
    |s.handlers| - 1
  }

  function SetHandler(s: State, h: nat, pc: Handler): State
    requires h < |s.handlers|
  {
    s.(handlers := s.handlers[h := pc])
  }

  function Do(s: State, a: Action): State
    requires Enabled(s, a)
  {
    match a
    case Accept => s.(listener := Connected)
    case ListenerLock => s.(listener := Locked, mutex := ByListener)
    case Spawn => s.(listener := Spawned, handlers := s.handlers + [Working])
    case List => s.(listener := Listed, listed := s.listed + [Newest(s)])
    case ListenerUnlock => s.(listener := Accepting, mutex := Free)
    case ListenerStop => s.(listener := Stopped)
    case Fail(h) => SetHandler(s, h, Ended)
    case Finish(h) => SetHandler(s, h, Wanting)
    case HandlerLock(h) => SetHandler(s, h, Holding).(mutex := ByHandler(h))
    case Deregister(h) =>
      var listed := if s.removeOnCompletion then Without(s.listed, h) else s.listed;
      SetHandler(s, h, Leaving).(listed := listed)
    case HandlerUnlock(h) => SetHandler(s, h, Ended).(mutex := Free)
    case Quit => s.(main := JoiningListener, shutdown := true)
    case JoinListener => s.(main := WantingLock)
    case MainLock => s.(main := InBlock, mutex := ByMain)
    case Clear => s.(main := Cleared, removeOnCompletion := false)
    case MainUnlock => s.(main := Joining(0), mutex := Free)
    case Join => s.(main := Joining(s.main.k + 1), joined := s.joined + [s.listed[s.main.k]])
    case Return => s.(main := Returned)
  }

  // ----- The invariant

  predicate Distinct(q: seq<nat>) {
    forall i, j | 0 <= i < j < |q| :: q[i] != q[j]
  }

  lemma ConsDistinct(x: nat, q: seq<nat>)
    ensures Distinct([x] + q) <==> x !in q && Distinct(q)
  {
    var xq := [x] + q;
    assert forall i | 0 <= i < |q| :: q[i] == xq[i + 1];
    if Distinct(xq) {
      forall i, j | 0 <= i < j < |q| ensures q[i] != q[j] {
        assert q[i] == xq[i + 1] && q[j] == xq[j + 1];
      }
      assert xq[0] == x;
    }
  }

  lemma {:induction false} WithoutDistinct(q: seq<nat>, id: nat)
    requires Distinct(q)
    ensures Distinct(Without(q, id)) && id !in Without(q, id)
  {
    if q != [] {
      assert q == [q[0]] + q[1..];
      ConsDistinct(q[0], q[1..]);
      WithoutDistinct(q[1..], id);
      ConsDistinct(q[0], Without(q[1..], id));
    }
  }

  lemma AppendDistinct(q: seq<nat>, x: nat)
    requires Distinct(q) && x !in q
    ensures Distinct(q + [x])
  {
  }

  predicate InMainBlock(m: Main) {
    m == InBlock || m == Cleared
  }

  /** main has not yet cleared the flag. */
  predicate BeforeClear(m: Main) {
    m == Reading || m == JoiningListener || m == WantingLock || m == InBlock
  }

  predicate InListenerBlock(l: Listener) {
    l == Locked || l == Spawned || l == Listed
  }

  predicate InHandlerBlock(h: Handler) {
    h == Holding || h == Leaving
  }

  ghost predicate MutexHeld(s: State) {
    && (s.mutex == ByMain <==> InMainBlock(s.main))
    && (s.mutex == ByListener <==> InListenerBlock(s.listener))
    && (forall h | 0 <= h < |s.handlers| :: InHandlerBlock(s.handlers[h]) <==> s.mutex == ByHandler(h))
    && (s.mutex.ByHandler? ==> s.mutex.id < |s.handlers|)
  }

  /** The thread was started, and the listener, still holding the mutex, is about to list it. */
  predicate Unlisted(s: State, h: nat) {
    s.listener == Spawned && h + 1 == |s.handlers|
  }

  /** A thread that is not in the list has deregistered, or is the one the listener is about to list. */
  ghost predicate ListHeld(s: State) {
    && Distinct(s.listed)
    && (forall h | h in s.listed :: h < |s.handlers| && !Unlisted(s, h))
    && (forall h | 0 <= h < |s.handlers| && h !in s.listed ::
          s.handlers[h] == Leaving || s.handlers[h] == Ended || Unlisted(s, h))
    && (s.listener == Spawned ==> s.handlers != [])
    && (s.removeOnCompletion ==> forall h | 0 <= h < |s.handlers| && s.handlers[h] == Leaving :: h !in s.listed)
  }

  ghost predicate MainHeld(s: State) {
    && (s.removeOnCompletion <==> BeforeClear(s.main))
    && (s.main == Reading || s.main == JoiningListener || s.listener == Stopped)
    && (s.main == Reading <==> !s.shutdown)
    && (s.listener == Stopped ==> s.shutdown)
  }

  ghost predicate Inv(s: State) {
    MutexHeld(s) && ListHeld(s) && MainHeld(s) && JoinedHeld(s)
  }

  lemma MutexKept(s: State, a: Action)
    requires Inv(s) && Enabled(s, a)
    ensures MutexHeld(Do(s, a))
  {
  }

  lemma ListKept(s: State, a: Action)
    requires Inv(s) && Enabled(s, a)
    ensures ListHeld(Do(s, a))
  {
    match a
    case Deregister(h) => DeregisterKeepsList(s, h);
    case List => AppendDistinct(s.listed, Newest(s));
    case _ =>
  }

  lemma DeregisterKeepsList(s: State, h: nat)
    requires Inv(s) && Enabled(s, Deregister(h))
    ensures ListHeld(Do(s, Deregister(h)))
  {
    WithoutDistinct(s.listed, h);
  }

  ghost predicate JoinedHeld(s: State) {
    && (if s.main.Joining? then s.main.k <= |s.listed| && s.joined == s.listed[..s.main.k]
        else if s.main == Returned then s.joined == s.listed
        else s.joined == [])
    && (forall h | h in s.joined :: At(s, h, Ended))
  }

  lemma MainKept(s: State, a: Action)
    requires Inv(s) && Enabled(s, a)
    ensures MainHeld(Do(s, a))
  {
  }

  lemma JoinedKept(s: State, a: Action)
    requires JoinedHeld(s) && MainHeld(s) && Enabled(s, a)
    ensures JoinedHeld(Do(s, a))
  {
    match a
    case Join => assert s.listed[..s.main.k + 1] == s.listed[..s.main.k] + [s.listed[s.main.k]];
    case Return => assert s.listed[..|s.listed|] == s.listed;
    case _ =>
  }

  lemma StepKeepsInv(s: State, a: Action)
    requires Inv(s) && Enabled(s, a)
    ensures Inv(Do(s, a))
  {
    MutexKept(s, a);
    ListKept(s, a);
    MainKept(s, a);
    JoinedKept(s, a);
  }

  // ----- Runs

  /** A schedule of actions each possible when its turn comes. */
  ghost predicate Possible(s: State, schedule: seq<Action>)
    decreases |schedule|
  {
    schedule != [] ==> Enabled(s, schedule[0]) && Possible(Do(s, schedule[0]), schedule[1..])
  }

  function Run(s: State, schedule: seq<Action>): State
    decreases |schedule|
  {
    if schedule == [] || !Enabled(s, schedule[0]) then s else Run(Do(s, schedule[0]), schedule[1..])
  }

  lemma {:induction false} RunKeepsInv(s: State, schedule: seq<Action>)
    requires Inv(s)
    ensures Inv(Run(s, schedule))
    decreases |schedule|
  {
    if schedule != [] && Enabled(s, schedule[0]) {
      StepKeepsInv(s, schedule[0]);
      RunKeepsInv(Do(s, schedule[0]), schedule[1..]);
    }
  }

  lemma StartInv()
    ensures Inv(START)
  {
  }

  // ----- Results

  /** In every run: a handler about to deregister finds its own entry, and no two entries are the same thread. */
  lemma DeregisteringFindsItself(schedule: seq<Action>, h: nat)
    requires var s := Run(START, schedule); At(s, h, Holding) && s.removeOnCompletion
    ensures h in Run(START, schedule).listed && Distinct(Run(START, schedule).listed)
  {
    StartInv();
    RunKeepsInv(START, schedule);
  }

  /** A thread that serves, or has not yet deregistered. */
  predicate Serving(h: Handler) {
    h == Working || h == Wanting || h == Holding
  }

  /** While handlers still remove themselves, the list holds the serving threads and those that failed, and no other. */
  ghost predicate ListsExactly(s: State, failed: set<nat>) {
    && (forall h | h in failed :: At(s, h, Ended))
    && (s.listener == Spawned && s.handlers != [] ==> Serving(s.handlers[Newest(s)]) || Newest(s) in failed)
    && (s.removeOnCompletion ==>
          forall h | 0 <= h < |s.handlers| ::
            h in s.listed <==> !Unlisted(s, h) && (Serving(s.handlers[h]) || h in failed))
  }

  function FailedBy(a: Action): set<nat> {
    if a.Fail? then {a.h} else {}
  }

  /** The threads that end by an exception in the run of a schedule. */
  function FailedIn(s: State, schedule: seq<Action>): (failed: set<nat>)
    ensures forall h | h in failed :: Fail(h) in schedule
    decreases |schedule|
  {
    if schedule == [] || !Enabled(s, schedule[0]) then {}
    else FailedBy(schedule[0]) + FailedIn(Do(s, schedule[0]), schedule[1..])
  }

  lemma StepListsExactly(s: State, a: Action, failed: set<nat>)
    requires Inv(s) && Enabled(s, a) && ListsExactly(s, failed)
    ensures ListsExactly(Do(s, a), failed + FailedBy(a))
  {
    assert failed + {} == failed;
    match a
    case Deregister(h) => DeregisterListsExactly(s, h, failed);
    case Spawn => SpawnListsExactly(s, failed);
    case List => ListListsExactly(s, failed);
    case _ =>
  }

  lemma DeregisterListsExactly(s: State, h: nat, failed: set<nat>)
    requires Inv(s) && At(s, h, Holding) && ListsExactly(s, failed)
    ensures ListsExactly(Do(s, Deregister(h)), failed)
  {
    WithoutDistinct(s.listed, h);
  }

  lemma SpawnListsExactly(s: State, failed: set<nat>)
    requires Inv(s) && s.listener == Locked && ListsExactly(s, failed)
    ensures ListsExactly(Do(s, Spawn), failed)
  {
  }

  lemma ListListsExactly(s: State, failed: set<nat>)
    requires Inv(s) && Enabled(s, List) && ListsExactly(s, failed)
    ensures ListsExactly(Do(s, List), failed)
  {
  }

  lemma {:induction false} RunListsExactly(s: State, schedule: seq<Action>, failed: set<nat>)
    requires Inv(s) && ListsExactly(s, failed)
    ensures ListsExactly(Run(s, schedule), failed + FailedIn(s, schedule))
    decreases |schedule|
  {
    if schedule == [] || !Enabled(s, schedule[0]) {
      assert failed + {} == failed;
    } else {
      var s', now := Do(s, schedule[0]), FailedBy(schedule[0]);
      StepListsExactly(s, schedule[0], failed);
      StepKeepsInv(s, schedule[0]);
      RunListsExactly(s', schedule[1..], failed + now);
      assert failed + now + FailedIn(s', schedule[1..]) == failed + FailedIn(s, schedule);
    }
  }

  /**
   In every run, as long as the flag is set: the list holds exactly the started threads that still serve and
   those that ended by an exception, apart from the one about to be listed; who deregistered is not in it.
   */
  lemma ListedExactly(schedule: seq<Action>, h: nat)
    requires var s := Run(START, schedule); s.removeOnCompletion && h < |s.handlers|
    ensures var s := Run(START, schedule);
            && (h in s.listed <==> !Unlisted(s, h) && (Serving(s.handlers[h]) || h in FailedIn(START, schedule)))
            && (At(s, h, Leaving) ==> h !in s.listed)
            && ((forall x :: Fail(x) !in schedule) ==> (h in s.listed <==> !Unlisted(s, h) && Serving(s.handlers[h])))
  {
    StartInv();
    RunKeepsInv(START, schedule);
    RunListsExactly(START, schedule, {});
    assert {} + FailedIn(START, schedule) == FailedIn(START, schedule);
  }

  predicate Deciding(m: Main) {
    m == Cleared || m.Joining? || m == Returned
  }

  /** Once main has cleared the flag, whatever the handlers still do, no later run changes the list. */
  lemma {:induction false} ListIsFrozen(s: State, later: seq<Action>)
    requires Inv(s) && Deciding(s.main)
    ensures Run(s, later).listed == s.listed && Deciding(Run(s, later).main)
    decreases |later|
  {
    if later != [] && Enabled(s, later[0]) {
      StepKeepsInv(s, later[0]);
      ListIsFrozen(Do(s, later[0]), later[1..]);
    }
  }

  /** When main has returned, it has joined every remaining entry exactly once, and each of those threads had ended. */
  lemma JoinedExactlyOnce(schedule: seq<Action>)
    requires Run(START, schedule).main == Returned
    ensures var s := Run(START, schedule);
            && s.joined == s.listed && Distinct(s.joined)
            && (forall h | h in s.listed :: At(s, h, Ended))
            && (forall h | 0 <= h < |s.handlers| && h !in s.listed :: s.handlers[h] == Leaving || s.handlers[h] == Ended)
  {
    StartInv();
    RunKeepsInv(START, schedule);
  }

  /** No deadlock: as long as main has not returned, some step is possible, in every run. */
  lemma NoDeadlock(schedule: seq<Action>)
    requires Run(START, schedule).main != Returned
    ensures exists a :: Enabled(Run(START, schedule), a)
  {
    StartInv();
    RunKeepsInv(START, schedule);
    var a := PossibleStep(Run(START, schedule));
  }

  lemma HandlerStep(s: State, h: nat) returns (a: Action)
    requires Inv(s) && h < |s.handlers| && s.handlers[h] != Ended
    requires s.mutex == Free || s.mutex == ByHandler(h)
    ensures Enabled(s, a)
  {
    match s.handlers[h]
    case Working => a := Finish(h);
    case Wanting => a := HandlerLock(h);
    case Holding => a := Deregister(h);
    case Leaving => a := HandlerUnlock(h);
  }

  lemma PossibleStep(s: State) returns (a: Action)
    requires Inv(s) && s.main != Returned
    ensures Enabled(s, a)
  {
    if s.mutex.ByHandler? {
      a := HandlerStep(s, s.mutex.id);
    } else if s.mutex == ByListener {
      a := if s.listener == Locked then Spawn else if s.listener == Spawned then List else ListenerUnlock;
    } else {
      match s.main
      case Reading => a := Quit;
      case JoiningListener =>
        a := if s.listener == Accepting then ListenerStop else if s.listener == Connected then ListenerLock else JoinListener;
      case WantingLock => a := MainLock;
      case InBlock => a := Clear;
      case Cleared => a := MainUnlock;
      case Joining(k) =>
        if k == |s.listed| {
          a := Return;
        } else {
          assert s.listed[k] in s.listed;
          if s.handlers[s.listed[k]] == Ended {
            a := Join;
          } else {
            a := HandlerStep(s, s.listed[k]);
          }
        }
    }
  }

  // ----- Shutdown ends

  function Remaining(h: Handler): nat {
    match h
    case Working => 4
    case Wanting => 3
    case Holding => 2
    case Leaving => 1
    case Ended => 0
  }

  function RemainingAll(hs: seq<Handler>): nat {
    if hs == [] then 0 else Remaining(hs[0]) + RemainingAll(hs[1..])
  }

  function ListenerRemaining(l: Listener): nat {
    match l
    case Connected => 10
    case Locked => 9
    case Spawned => 3
    case Listed => 2
    case Accepting => 1
    case Stopped => 0
  }

  function MainRemaining(s: State): int {
    var threads := |s.handlers| + if s.listener == Connected || s.listener == Locked then 1 else 0;
    match s.main
    case Reading => threads + 6
    case JoiningListener => threads + 5
    case WantingLock => threads + 4
    case InBlock => threads + 3
    case Cleared => threads + 2
    case Joining(k) => threads + 1 - k
    case Returned => 0
  }

  /** A bound on the number of steps left after shutdown was requested. */
  function Bound(s: State): int {
    RemainingAll(s.handlers) + ListenerRemaining(s.listener) + MainRemaining(s)
  }

  lemma {:induction false} RemainingUpdate(hs: seq<Handler>, h: nat, pc: Handler)
    requires h < |hs|
    ensures RemainingAll(hs[h := pc]) == RemainingAll(hs) - Remaining(hs[h]) + Remaining(pc)
  {
    if h == 0 {
      assert hs[0 := pc][1..] == hs[1..];
    } else {
      assert hs[h := pc][1..] == hs[1..][h - 1 := pc];
      RemainingUpdate(hs[1..], h - 1, pc);
    }
  }

  lemma {:induction false} RemainingAppend(hs: seq<Handler>, pc: Handler)
    ensures RemainingAll(hs + [pc]) == RemainingAll(hs) + Remaining(pc)
  {
    if hs == [] {
      assert [pc][1..] == [] && hs + [pc] == [pc];
    } else {
      assert (hs + [pc])[1..] == hs[1..] + [pc];
      RemainingAppend(hs[1..], pc);
    }
  }

  lemma {:induction false} ListedAtMost(listed: seq<nat>, n: nat)
    requires Distinct(listed)
    requires forall h | h in listed :: h < n
    ensures |listed| <= n
    decreases n
  {
    if listed != [] {
      assert listed[0] in listed;
      var last := n - 1;
      WithoutDistinct(listed, last);
      WithoutLength(listed, last);
      ListedAtMost(Without(listed, last), last);
    }
  }

  lemma {:induction false} WithoutLength(listed: seq<nat>, id: nat)
    ensures |listed| <= |Without(listed, id)| + 1
  {
    if listed != [] {
      WithoutLength(listed[1..], id);
    }
  }

  predicate IsHandlerStep(a: Action) {
    a.Fail? || a.Finish? || a.HandlerLock? || a.Deregister? || a.HandlerUnlock?
  }

  lemma HandlerStepCounts(s: State, a: Action)
    requires Enabled(s, a) && IsHandlerStep(a)
    ensures RemainingAll(Do(s, a).handlers) < RemainingAll(s.handlers) && |Do(s, a).handlers| == |s.handlers|
    ensures Do(s, a).listener == s.listener && Do(s, a).main == s.main && Do(s, a).shutdown == s.shutdown
  {
    match a
    case Fail(h) => RemainingUpdate(s.handlers, h, Ended);
    case Finish(h) => RemainingUpdate(s.handlers, h, Wanting);
    case HandlerLock(h) => RemainingUpdate(s.handlers, h, Holding);
    case Deregister(h) => RemainingUpdate(s.handlers, h, Leaving);
    case HandlerUnlock(h) => RemainingUpdate(s.handlers, h, Ended);
  }

  lemma EveryStepCounts(s: State, a: Action)
    requires Inv(s) && s.shutdown && Enabled(s, a)
    ensures Bound(Do(s, a)) < Bound(s) && Do(s, a).shutdown
  {
    if IsHandlerStep(a) {
      HandlerStepCounts(s, a);
    } else if a == Spawn {
      RemainingAppend(s.handlers, Working);
    } else if a == Return {
      ListedAtMost(s.listed, |s.handlers|);
    }
  }

  lemma BoundIsNat(s: State)
    requires Inv(s)
    ensures Bound(s) >= 0
  {
    ListedAtMost(s.listed, |s.handlers|);
  }

  /**
   After a shutdown request every schedule is short, and one that can go no further has brought main to
   its end: neither the mutex nor a join can block it.
   */
  lemma {:induction false} ShutdownEnds(s: State, schedule: seq<Action>)
    requires Inv(s) && s.shutdown && Possible(s, schedule)
    ensures |schedule| <= Bound(s)
    ensures (forall a :: !Enabled(Run(s, schedule), a)) ==> Run(s, schedule).main == Returned
    decreases |schedule|
  {
    if schedule == [] {
      BoundIsNat(s);
      if s.main != Returned {
        var a := PossibleStep(s);
      }
    } else {
      var s' := Do(s, schedule[0]);
      EveryStepCounts(s, schedule[0]);
      StepKeepsInv(s, schedule[0]);
      ShutdownEnds(s', schedule[1..]);
    }
  }
}
