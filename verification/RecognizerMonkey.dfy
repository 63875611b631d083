/**
 The status machine of demo/Linux/speechRecognizerMonkeyTest.cpp.  A worker and the callbacks of its
 request write one `status` without a lock; every comparison reads it anew.  What the SDK promises
 about the order of events is a contract of ten clauses.
 */
module RecognizerMonkey {
  import opened Basics
  import opened RequestStatus

  // ---- States ----

  datatype Event = Started | ResultChanged | TaskFailed | ChannelClosed

  /** The k-th status that the callback compares with, from 0; `None` after the last comparison. */
  function Expected(e: Event, k: nat): Option<Status> {
    match (e, k)
    case (Started, 0) => Some(RequestStart)
    case (Started, 1) => Some(RequestStop)
    case (ResultChanged, 0) => Some(RequestStarted)
    case (ResultChanged, 1) => Some(RequestRunning)
    case (ResultChanged, 2) => Some(RequestStop)
    case (TaskFailed, 0) => Some(RequestStarted)
    case (TaskFailed, 1) => Some(RequestRunning)
    case (TaskFailed, 2) => Some(RequestStop)
    case (ChannelClosed, 0) => Some(RequestFailed)
    case (ChannelClosed, 1) => Some(RequestRunning)
    case (ChannelClosed, 2) => Some(RequestStop)
    case _ => None
  }

  /** `Testing` is the test in front of the assignment of ResultChanged. */
  datatype Callback =
    | Idle
    | Checking(event: Event, next: nat)
    | Testing
    | Writing(event: Event)

  datatype Pc =
    | WhileTest
    | ReadHead(next: nat)
    | Creating
    | WritingCreated
    | Created
    | WritingStart
    | Sending
    | WritingStop
    | Releasing
    | WritingReleased
    | Exited

  /** What has happened to the latest request. */
  datatype Round = Round(
    startCalled: bool, startWritten: bool, stopWritten: bool, started: bool, failed: bool, closed: bool)

  const NEW_ROUND: Round := Round(false, false, false, false, false, false)

  datatype State = State(
    pc: Pc, status: Status, callback: Callback, round: Round, live: bool,
    creates: nat, releases: nat, workerMessages: nat, callbackMessages: nat)

  const INITIAL: State := State(WhileTest, RequestInvalid, Idle, NEW_ROUND, false, 0, 0, 0, 0)

  // ---- The contract of the SDK ----

  /**
   `startedAfterStart`: Started comes only after the worker has written RequestStart.
   `startedOnce`: Started comes at most once.
   `startedBeforeStop`: Started is over before the worker writes RequestStop.
   `resultsAfterStarted`, `failedAfterStarted`: ResultChanged and TaskFailed come only after Started.
   `noResultsAfterFailed`, `failedOnce`: neither comes again after TaskFailed.
   `closedAfterEnd`: ChannelClosed comes only after RequestStop is written or after TaskFailed.
   `closedLast`: nothing comes after ChannelClosed.
   `nothingAfterRelease`: no callback runs any more when the request is released.
   */
  datatype Contract = Contract(
    startedAfterStart: bool, startedOnce: bool, startedBeforeStop: bool,
    resultsAfterStarted: bool, failedAfterStarted: bool,
    noResultsAfterFailed: bool, failedOnce: bool,
    closedAfterEnd: bool, closedLast: bool, nothingAfterRelease: bool)

  const FULL: Contract := Contract(true, true, true, true, true, true, true, true, true, true)

  /** Callbacks of one request come one at a time and not before `start()` is called. */
  predicate MayBegin(c: Contract, s: State, e: Event) {
    var r := s.round;
    && s.callback.Idle? && r.startCalled
    && (c.closedLast ==> !r.closed)
    && (c.nothingAfterRelease ==> s.live)
    && match e
       case Started =>
         && (c.startedAfterStart ==> r.startWritten)
         && (c.startedOnce ==> !r.started)
         && (c.startedBeforeStop ==> !r.stopWritten)
       case ResultChanged => (c.resultsAfterStarted ==> r.started) && (c.noResultsAfterFailed ==> !r.failed)
       case TaskFailed => (c.failedAfterStarted ==> r.started) && (c.failedOnce ==> !r.failed)
       case ChannelClosed => c.closedAfterEnd ==> r.stopWritten || r.failed
  }

  function Note(r: Round, e: Event): Round {
    match e
    case Started => r.(started := true)
    case ResultChanged => r
    case TaskFailed => r.(failed := true)
    case ChannelClosed => r.(closed := true)
  }

  // ---- Steps ----

  datatype Action =
    | Test(go: bool)
    | Read
    | CreateNull
    | CreateRequest
    | Write
    | StartCall(ok: bool)
    | StopCall(ok: bool)
    | ReleaseCall
    | Begin(event: Event)
    | CallbackRead
    | CallbackWrite

  function WorkerStep(c: Contract, s: State, a: Action): Option<State> {
    match (s.pc, a)
    case (WhileTest, Test(go)) => Some(s.(pc := if go then ReadHead(0) else Exited))
    case (ReadHead(k), Read) =>
      if s.status == (if k == 0 then RequestReleased else RequestInvalid) then Some(s.(pc := Creating))
      else if k == 0 then Some(s.(pc := ReadHead(1)))
      else Some(s.(pc := Creating, workerMessages := s.workerMessages + 1))
    case (Creating, CreateNull) => Some(s.(pc := Exited))
    case (Creating, CreateRequest) =>
      Some(s.(pc := WritingCreated, live := true, creates := s.creates + 1, round := NEW_ROUND))
    case (WritingCreated, Write) => Some(s.(pc := Created, status := RequestCreated))
    case (Created, ReleaseCall) => Release(c, s)
    case (Created, StartCall(ok)) =>
      Some(s.(pc := if ok then WritingStart else Releasing, round := s.round.(startCalled := true)))
    case (WritingStart, Write) =>
      Some(s.(pc := Sending, status := RequestStart, round := s.round.(startWritten := true)))
    case (Sending, StopCall(ok)) => Some(s.(pc := if ok then WritingStop else Releasing))
    case (WritingStop, Write) =>
      if c.startedBeforeStop && InStarted(s.callback) then None
      else Some(s.(pc := Releasing, status := RequestStop, round := s.round.(stopWritten := true)))
    case (Releasing, ReleaseCall) => Release(c, s)
    case (WritingReleased, Write) => Some(s.(pc := WhileTest, status := RequestReleased))
    case _ => None
  }

  function Release(c: Contract, s: State): Option<State> {
    if c.nothingAfterRelease && !s.callback.Idle? then None
    else Some(s.(pc := WritingReleased, live := false, releases := s.releases + 1))
  }

  predicate InStarted(cb: Callback) {
    (cb.Checking? || cb.Writing?) && cb.event == Started
  }

  /** What follows the comparisons of a callback. */
  function Checked(e: Event): Callback {
    if e == ResultChanged then Testing else Writing(e)
  }

  function Written(e: Event): Status {
    match e
    case Started => RequestStarted
    case ResultChanged => RequestRunning
    case TaskFailed => RequestFailed
    case ChannelClosed => RequestClosed
  }

  function CallbackStep(c: Contract, s: State, a: Action): Option<State> {
    match (s.callback, a)
    case (Idle, Begin(e)) =>
      if MayBegin(c, s, e) then Some(s.(callback := Checking(e, 0), round := Note(s.round, e))) else None
    case (Checking(e, k), CallbackRead) =>
      if Expected(e, k) == Some(s.status) then Some(s.(callback := Checked(e)))
      else if Expected(e, k + 1).Some? then Some(s.(callback := Checking(e, k + 1)))
      else Some(s.(callback := Checked(e), callbackMessages := s.callbackMessages + 1))
    case (Testing, CallbackRead) =>
      Some(s.(callback := if s.status == RequestStarted then Writing(ResultChanged) else Idle))
    case (Writing(e), CallbackWrite) => Some(s.(callback := Idle, status := Written(e)))
    case _ => None
  }

  function Step(c: Contract, s: State, a: Action): Option<State> {
    if a.Begin? || a.CallbackRead? || a.CallbackWrite? then CallbackStep(c, s, a) else WorkerStep(c, s, a)
  }

  function Run(c: Contract, schedule: seq<Action>): Option<State> {
    if schedule == [] then Some(INITIAL)
    else
      match Run(c, schedule[..|schedule| - 1])
      case None => None
      case Some(s) => Step(c, s, schedule[|schedule| - 1])
  }

  // ---- Creates and releases ----

  ghost predicate BalanceInv(s: State) {
    && s.creates == s.releases + (if s.live then 1 else 0)
    && (s.live <==> s.pc.WritingCreated? || s.pc.Created? || s.pc.WritingStart? || s.pc.Sending? ||
                    s.pc.WritingStop? || s.pc.Releasing?)
  }

  lemma BalanceStep(c: Contract, s: State, a: Action)
    requires BalanceInv(s) && Step(c, s, a).Some?
    ensures BalanceInv(Step(c, s, a).value)
  {
    hide MayBegin, Expected;
  }

  /** Every request that a round creates is released in that round, under any order of events. */
  lemma {:induction false} Balanced(c: Contract, schedule: seq<Action>)
    requires Run(c, schedule).Some?
    ensures BalanceInv(Run(c, schedule).value)
  {
    hide Step;
    if schedule == [] {
    } else {
      var n := |schedule| - 1;
      Balanced(c, schedule[..n]);
      BalanceStep(c, Run(c, schedule[..n]).value, schedule[n]);
    }
  }

  lemma LoopHeadBalanced(c: Contract, schedule: seq<Action>, s: State)
    requires Run(c, schedule) == Some(s)
    requires s.pc.WhileTest? || s.pc.ReadHead? || s.pc.Exited?
    ensures s.creates == s.releases
  {
    Balanced(c, schedule);
  }

  // ---- The diagnostic of the worker ----

  ghost predicate HeadInv(s: State) {
    && BalanceInv(s)
    && s.workerMessages == 0
    && (!s.live ==> s.callback.Idle?)
    && (s.pc.WhileTest? || s.pc.ReadHead? || s.pc.Creating? ==>
         s.status == RequestReleased || s.status == RequestInvalid)
    && (s.pc.ReadHead? && s.pc.next > 0 ==> s.status == RequestInvalid)
  }

  lemma HeadStep(c: Contract, s: State, a: Action)
    requires c.nothingAfterRelease && HeadInv(s) && Step(c, s, a).Some?
    ensures HeadInv(Step(c, s, a).value)
  {
    hide Expected;
  }

  lemma {:induction false} HeadSilent(c: Contract, schedule: seq<Action>)
    requires c.nothingAfterRelease && Run(c, schedule).Some?
    ensures HeadInv(Run(c, schedule).value)
  {
    hide Step;
    if schedule == [] {
    } else {
      var n := |schedule| - 1;
      HeadSilent(c, schedule[..n]);
      HeadStep(c, Run(c, schedule[..n]).value, schedule[n]);
    }
  }

  // ---- The diagnostics of the callbacks ----

  /** The statuses that can be seen between callbacks. */
  predicate Settled(r: Round, st: Status) {
    if r.closed then true
    else if r.failed then st == RequestFailed || (r.stopWritten && st == RequestStop)
    else if r.started then st == RequestRunning || st == if r.stopWritten then RequestStop else RequestStarted
    else st == if r.stopWritten then RequestStop else RequestStart
  }

  /** The round before the running callback began. */
  function Before(r: Round, e: Event): Round {
    match e
    case Started => r.(started := false)
    case ResultChanged => r
    case TaskFailed => r.(failed := false)
    case ChannelClosed => r.(closed := false)
  }

  /** The status is one of those that the callback still compares with. */
  predicate WillMatch(e: Event, k: nat, st: Status) {
    Expected(e, k) == Some(st) || Expected(e, k + 1) == Some(st) || Expected(e, k + 2) == Some(st)
  }

  ghost predicate CallbackInv(r: Round, cb: Callback, st: Status) {
    match cb
    case Idle => Settled(r, st)
    case Testing => Settled(r, st) && r.started && !r.failed && !r.closed
    case Checking(e, k) => InEvent(r, e, st) && WillMatch(e, k, st)
    case Writing(e) => InEvent(r, e, st)
  }

  /** While the callback of `e` runs, before its assignment. */
  ghost predicate InEvent(r: Round, e: Event, st: Status) {
    && Settled(Before(r, e), st)
    && (e.ChannelClosed? || !r.closed)
    && match e
       case Started => r.started && !r.failed && !r.stopWritten
       case ResultChanged => r.started && !r.failed
       case TaskFailed => r.started && r.failed
       case ChannelClosed => r.closed && (r.stopWritten || r.failed)
  }

  ghost predicate RoundInv(s: State) {
    var r := s.round;
    && (r.started || r.stopWritten ==> r.startWritten)
    && (r.failed ==> r.started)
    && (r.closed ==> r.stopWritten || r.failed)
    && (s.pc.WritingCreated? || s.pc.Created? || s.pc.WritingStart? ==> !r.startWritten)
    && (s.pc.WritingCreated? || s.pc.Created? ==> !r.startCalled)
    && (s.pc.Sending? || s.pc.WritingStop? ==> r.startWritten && !r.stopWritten)
    && (!r.startWritten ==> s.callback.Idle?)
    && (!s.live ==> s.callback.Idle?)
    && (s.live && r.startWritten ==> CallbackInv(r, s.callback, s.status))
    && s.callbackMessages == 0
  }

  lemma RoundWorkerStep(s: State, a: Action)
    requires BalanceInv(s) && RoundInv(s) && WorkerStep(FULL, s, a).Some?
    ensures RoundInv(WorkerStep(FULL, s, a).value)
  {}

  lemma RoundBegin(s: State, a: Action)
    requires BalanceInv(s) && RoundInv(s) && CallbackStep(FULL, s, a).Some? && a.Begin?
    ensures RoundInv(CallbackStep(FULL, s, a).value)
  {}

  lemma RoundContinue(s: State, a: Action)
    requires BalanceInv(s) && RoundInv(s) && CallbackStep(FULL, s, a).Some? && !a.Begin?
    ensures RoundInv(CallbackStep(FULL, s, a).value)
  {
    hide MayBegin;
  }

  lemma RoundCallbackStep(s: State, a: Action)
    requires BalanceInv(s) && RoundInv(s) && CallbackStep(FULL, s, a).Some?
    ensures RoundInv(CallbackStep(FULL, s, a).value)
  {
    hide CallbackStep, RoundInv, BalanceInv;
    if a.Begin? { RoundBegin(s, a); } else { RoundContinue(s, a); }
  }

  /** Under the full contract no status is ever out of place. */
  lemma {:induction false} CallbacksSilent(schedule: seq<Action>)
    requires Run(FULL, schedule).Some?
    ensures RoundInv(Run(FULL, schedule).value)
  {
    hide WorkerStep, CallbackStep, RoundInv;
    if schedule == [] {
      InitialRound();
    } else {
      var n := |schedule| - 1;
      CallbacksSilent(schedule[..n]);
      Balanced(FULL, schedule[..n]);
      var s := Run(FULL, schedule[..n]).value;
      if CallbackStep(FULL, s, schedule[n]).Some? { RoundCallbackStep(s, schedule[n]); }
      if WorkerStep(FULL, s, schedule[n]).Some? { RoundWorkerStep(s, schedule[n]); }
    }
  }

  lemma InitialRound()
    ensures RoundInv(INITIAL)
  {}

  // ---- Every clause is needed ----

  ghost predicate Reaches(c: Contract, schedule: seq<Action>, s: State) {
    Run(c, schedule) == Some(s)
  }

  lemma Go(c: Contract, schedule: seq<Action>, s: State, a: Action) returns (schedule': seq<Action>, s': State)
    requires Reaches(c, schedule, s) && Step(c, s, a).Some?
    ensures Reaches(c, schedule', s') && Step(c, s, a) == Some(s')
  {
    hide Step;
    schedule', s' := schedule + [a], Step(c, s, a).value;
    assert schedule'[..|schedule|] == schedule;
  }

  /** The first request, before `start()`. */
  const CREATED: State := State(Created, RequestCreated, Idle, NEW_ROUND, true, 1, 0, 0, 0)

  const ACCEPTED: State := CREATED.(pc := WritingStart, round := NEW_ROUND.(startCalled := true))

  const SENDING: State :=
    ACCEPTED.(pc := Sending, status := RequestStart, round := ACCEPTED.round.(startWritten := true))

  const STOPPED: State :=
    SENDING.(pc := Releasing, status := RequestStop, round := SENDING.round.(stopWritten := true))

  const STARTED: State := SENDING.(status := RequestStarted, round := SENDING.round.(started := true))

  const FAILED: State := STARTED.(status := RequestFailed, round := STARTED.round.(failed := true))

  lemma ToHead(c: Contract) returns (schedule: seq<Action>)
    ensures Reaches(c, schedule, INITIAL.(pc := ReadHead(0)))
  {
    schedule := [Test(true)];
    assert schedule[..0] == [];
  }

  lemma ToCreating(c: Contract) returns (schedule: seq<Action>)
    ensures Reaches(c, schedule, INITIAL.(pc := Creating))
  {
    hide Reaches, MayBegin;
    var s := INITIAL.(pc := ReadHead(0));
    schedule := ToHead(c);
    schedule, s := Go(c, schedule, s, Read);
    schedule, s := Go(c, schedule, s, Read);
  }

  lemma ToCreated(c: Contract) returns (schedule: seq<Action>)
    ensures Reaches(c, schedule, CREATED)
  {
    hide Reaches, MayBegin, CallbackStep;
    var s := INITIAL.(pc := Creating);
    schedule := ToCreating(c);
    schedule, s := Go(c, schedule, s, CreateRequest);
    schedule, s := Go(c, schedule, s, Write);
  }

  lemma ToAccepted(c: Contract) returns (schedule: seq<Action>)
    ensures Reaches(c, schedule, ACCEPTED)
  {
    hide Reaches, MayBegin, CallbackStep;
    var s;
    schedule := ToCreated(c);
    schedule, s := Go(c, schedule, CREATED, StartCall(true));
  }

  lemma ToSending(c: Contract) returns (schedule: seq<Action>)
    ensures Reaches(c, schedule, SENDING)
  {
    hide Reaches, MayBegin, CallbackStep;
    var s;
    schedule := ToAccepted(c);
    schedule, s := Go(c, schedule, ACCEPTED, Write);
  }

  lemma ToStarted(c: Contract) returns (schedule: seq<Action>)
    ensures Reaches(c, schedule, STARTED)
  {
    schedule := ToSending(c);
    schedule := Delivers(c, schedule, SENDING, Started);
  }

  lemma ToFailed(c: Contract) returns (schedule: seq<Action>)
    ensures Reaches(c, schedule, FAILED)
  {
    schedule := ToStarted(c);
    schedule := Delivers(c, schedule, STARTED, TaskFailed);
  }

  /** A callback that finds one of the right statuses goes on to its assignment. */
  lemma {:induction false} Accepts(c: Contract, schedule: seq<Action>, s: State) returns (schedule': seq<Action>)
    requires Reaches(c, schedule, s) && s.callback.Checking? && !s.callback.event.ResultChanged?
    requires WillMatch(s.callback.event, s.callback.next, s.status)
    ensures Reaches(c, schedule', s.(callback := Writing(s.callback.event)))
    decreases 3 - s.callback.next
  {
    hide Reaches, MayBegin;
    var s';
    schedule', s' := Go(c, schedule, s, CallbackRead);
    if s'.callback.Checking? {
      schedule' := Accepts(c, schedule', s');
    }
  }

  /** A whole callback, at its place. */
  lemma Delivers(c: Contract, schedule: seq<Action>, s: State, e: Event) returns (schedule': seq<Action>)
    requires Reaches(c, schedule, s) && s.callback.Idle? && MayBegin(c, s, e)
    requires !e.ResultChanged? && WillMatch(e, 0, s.status)
    ensures Reaches(c, schedule', s.(status := Written(e), round := Note(s.round, e)))
  {
    hide Reaches, MayBegin, WillMatch;
    var t;
    schedule', t := Go(c, schedule, s, Begin(e));
    schedule' := Accepts(c, schedule', t);
    schedule', t := Go(c, schedule', t.(callback := Writing(e)), CallbackWrite);
  }

  /** A callback that compares with none of the right statuses prints its message. */
  lemma {:induction false} Complains(c: Contract, schedule: seq<Action>, s: State)
    returns (schedule': seq<Action>, s': State)
    requires Reaches(c, schedule, s) && s.callback.Checking? && !WillMatch(s.callback.event, s.callback.next, s.status)
    requires Expected(s.callback.event, s.callback.next).Some?
    ensures Reaches(c, schedule', s') && s'.callbackMessages > 0
    decreases 3 - s.callback.next
  {
    hide Reaches, MayBegin;
    schedule', s' := Go(c, schedule, s, CallbackRead);
    if s'.callback.Checking? {
      schedule', s' := Complains(c, schedule', s');
    }
  }

  /** From a reachable state, an event out of place. */
  lemma OutOfPlace(c: Contract, schedule: seq<Action>, s: State, e: Event)
    returns (schedule': seq<Action>, s': State)
    requires Reaches(c, schedule, s) && s.callback.Idle? && MayBegin(c, s, e) && !WillMatch(e, 0, s.status)
    ensures Reaches(c, schedule', s') && s'.callbackMessages > 0
  {
    hide Reaches, MayBegin;
    schedule', s' := Go(c, schedule, s, Begin(e));
    schedule', s' := Complains(c, schedule', s');
  }

  /** Started between the return of `start()` and the assignment of RequestStart. */
  lemma EarlyStarted(c: Contract) returns (schedule: seq<Action>, s: State)
    requires !c.startedAfterStart
    ensures Reaches(c, schedule, s) && s.callbackMessages > 0
  {
    hide Reaches;
    schedule := ToCreated(c);
    schedule, s := Go(c, schedule, CREATED, StartCall(true));
    schedule, s := OutOfPlace(c, schedule, s, Started);
  }

  lemma ToStopped(c: Contract) returns (schedule: seq<Action>)
    ensures Reaches(c, schedule, STOPPED)
  {
    hide Reaches, MayBegin;
    var s := SENDING;
    schedule := ToSending(c);
    schedule, s := Go(c, schedule, s, StopCall(true));
    schedule, s := Go(c, schedule, s, Write);
  }

  /** Started after RequestStop passes its own check and leaves a status that ChannelClosed refuses. */
  lemma StartedAfterStop(c: Contract) returns (schedule: seq<Action>, s: State)
    requires !c.startedBeforeStop
    ensures Reaches(c, schedule, s) && s.callbackMessages > 0
  {
    schedule := ToStopped(c);
    schedule := Delivers(c, schedule, STOPPED, Started);
    s := STOPPED.(status := RequestStarted, round := Note(STOPPED.round, Started));
    schedule, s := OutOfPlace(c, schedule, s, ChannelClosed);
  }

  lemma ClosedTwice(c: Contract) returns (schedule: seq<Action>, s: State)
    requires !c.closedLast
    ensures Reaches(c, schedule, s) && s.callbackMessages > 0
  {
    schedule := ToFailed(c);
    schedule := Delivers(c, schedule, FAILED, ChannelClosed);
    s := FAILED.(status := RequestClosed, round := Note(FAILED.round, ChannelClosed));
    schedule, s := OutOfPlace(c, schedule, s, ChannelClosed);
  }

  /** `stop()` fails and the request is released under a running callback. */
  lemma ReleasedUnder(c: Contract, schedule: seq<Action>, s: State) returns (schedule': seq<Action>, s': State)
    requires !c.nothingAfterRelease && Reaches(c, schedule, s) && s.pc.Sending?
    ensures Reaches(c, schedule', s') && s'.pc.WhileTest? && s'.status == RequestReleased
    ensures s'.callback == s.callback
  {
    hide Reaches, MayBegin;
    schedule', s' := Go(c, schedule, s, StopCall(false));
    schedule', s' := Go(c, schedule', s', ReleaseCall);
    schedule', s' := Go(c, schedule', s', Write);
  }

  lemma CallbackComplains(c: Contract) returns (schedule: seq<Action>, s: State)
    requires !c.nothingAfterRelease
    ensures Reaches(c, schedule, s) && s.callbackMessages > 0
  {
    hide Reaches;
    schedule := ToSending(c);
    schedule, s := Go(c, schedule, SENDING, Begin(Started));
    schedule, s := ReleasedUnder(c, schedule, s);
    schedule, s := Complains(c, schedule, s);
  }

  /** The assignment of a Started callback that has passed its check comes after RequestReleased. */
  lemma Overwritten(c: Contract) returns (schedule: seq<Action>, s: State)
    requires !c.nothingAfterRelease
    ensures Reaches(c, schedule, s) && s.pc.WhileTest? && s.status == RequestStarted
  {
    hide Reaches;
    schedule := ToSending(c);
    schedule, s := Go(c, schedule, SENDING, Begin(Started));
    schedule, s := Go(c, schedule, s, CallbackRead);
    schedule, s := ReleasedUnder(c, schedule, s);
    schedule, s := Go(c, schedule, s, CallbackWrite);
  }

  lemma HeadComplains(c: Contract) returns (schedule: seq<Action>, s: State)
    requires !c.nothingAfterRelease
    ensures Reaches(c, schedule, s) && s.workerMessages > 0
  {
    hide Reaches, MayBegin;
    schedule, s := Overwritten(c);
    schedule, s := Go(c, schedule, s, Test(true));
    schedule, s := Go(c, schedule, s, Read);
    schedule, s := Go(c, schedule, s, Read);
  }

  lemma Breaks(c: Contract) returns (schedule: seq<Action>, s: State)
    requires c != FULL
    ensures Reaches(c, schedule, s) && s.callbackMessages > 0
  {
    hide Reaches;
    if !c.startedAfterStart {
      schedule, s := EarlyStarted(c);
    } else if !c.startedOnce {
      schedule := ToStarted(c);
      schedule, s := OutOfPlace(c, schedule, STARTED, Started);
    } else if !c.startedBeforeStop {
      schedule, s := StartedAfterStop(c);
    } else if !c.resultsAfterStarted {
      schedule := ToSending(c);
      schedule, s := OutOfPlace(c, schedule, SENDING, ResultChanged);
    } else if !c.failedAfterStarted {
      schedule := ToSending(c);
      schedule, s := OutOfPlace(c, schedule, SENDING, TaskFailed);
    } else if !c.noResultsAfterFailed {
      schedule := ToFailed(c);
      schedule, s := OutOfPlace(c, schedule, FAILED, ResultChanged);
    } else if !c.failedOnce {
      schedule := ToFailed(c);
      schedule, s := OutOfPlace(c, schedule, FAILED, TaskFailed);
    } else if !c.closedAfterEnd {
      schedule := ToStarted(c);
      schedule, s := OutOfPlace(c, schedule, STARTED, ChannelClosed);
    } else if !c.closedLast {
      schedule, s := ClosedTwice(c);
    } else {
      schedule, s := CallbackComplains(c);
    }
  }

  // ---- Whole callbacks ----

  /** The status after a callback that nobody disturbs. */
  lemma WholeCallback(c: Contract, schedule: seq<Action>, s: State, e: Event)
    returns (schedule': seq<Action>, s': State)
    requires Reaches(c, schedule, s) && s.callback.Idle? && MayBegin(c, s, e)
    ensures Reaches(c, schedule', s') && s'.callback.Idle? && s'.pc == s.pc && s'.live == s.live
    ensures s'.creates == s.creates && s'.releases == s.releases && s'.workerMessages == s.workerMessages
    ensures e.Started? ==> s'.status == RequestStarted
    ensures e.ResultChanged? ==> s'.status == if s.status == RequestStarted then RequestRunning else s.status
    ensures e.TaskFailed? ==> s'.status == RequestFailed
    ensures e.ChannelClosed? ==> s'.status == RequestClosed
    ensures s'.callbackMessages == s.callbackMessages + if InPlace(e, s.status) then 0 else 1
  {
    hide Reaches, MayBegin;
    schedule', s' := Go(c, schedule, s, Begin(e));
    schedule', s' := AllCompared(c, schedule', s');
    InPlaceExactly(e, s.status);
    hide WillMatch, InPlace, WorkerStep;
    if s'.callback.Testing? {
      schedule', s' := Go(c, schedule', s', CallbackRead);
    }
    if s'.callback.Writing? {
      schedule', s' := Go(c, schedule', s', CallbackWrite);
    }
  }

  /** The statuses at which a callback is silent. */
  predicate InPlace(e: Event, st: Status) {
    match e
    case Started => st.RequestStart? || st.RequestStop?
    case ResultChanged => st.RequestStarted? || st.RequestRunning? || st.RequestStop?
    case TaskFailed => st.RequestStarted? || st.RequestRunning? || st.RequestStop?
    case ChannelClosed => st.RequestFailed? || st.RequestRunning? || st.RequestStop?
  }

  lemma InPlaceExactly(e: Event, st: Status)
    ensures WillMatch(e, 0, st) <==> InPlace(e, st)
  {}

  /** All comparisons of a callback. */
  lemma {:induction false} AllCompared(c: Contract, schedule: seq<Action>, s: State)
    returns (schedule': seq<Action>, s': State)
    requires Reaches(c, schedule, s) && s.callback.Checking? && Expected(s.callback.event, s.callback.next).Some?
    ensures Reaches(c, schedule', s')
    ensures var e := s.callback.event;
            s' == s.(callback := if e.ResultChanged? then Testing else Writing(e),
                     callbackMessages := s.callbackMessages + if WillMatch(e, s.callback.next, s.status) then 0 else 1)
    decreases 3 - s.callback.next
  {
    hide Reaches, MayBegin, WorkerStep;
    schedule', s' := Go(c, schedule, s, CallbackRead);
    if s'.callback.Checking? {
      schedule', s' := AllCompared(c, schedule', s');
    }
  }

  /** The check at the head of a round: one message for any status but Invalid and Released. */
  lemma HeadCheck(c: Contract, schedule: seq<Action>, s: State) returns (schedule': seq<Action>, s': State)
    requires Reaches(c, schedule, s) && s.pc.WhileTest?
    ensures Reaches(c, schedule', s')
    ensures s' == s.(pc := Creating,
                     workerMessages := s.workerMessages +
                       if s.status.RequestInvalid? || s.status.RequestReleased? then 0 else 1)
  {
    hide Reaches, CallbackStep;
    schedule', s' := Go(c, schedule, s, Test(true));
    schedule', s' := Go(c, schedule', s', Read);
    if !s.status.RequestReleased? {
      schedule', s' := Go(c, schedule', s', Read);
    }
  }

  /** No callback before `start()` is called. */
  ghost predicate Quiet(s: State) {
    && (s.pc.WritingCreated? || s.pc.Created? ==> !s.round.startCalled)
    && (s.creates == 0 ==> !s.round.startCalled)
  }

  lemma QuietStep(c: Contract, s: State, a: Action)
    requires BalanceInv(s) && Quiet(s) && Step(c, s, a).Some?
    ensures Quiet(Step(c, s, a).value)
  {
    hide MayBegin;
  }

  lemma {:induction false} QuietBeforeStart(c: Contract, schedule: seq<Action>)
    requires Run(c, schedule).Some?
    ensures Quiet(Run(c, schedule).value)
  {
    hide Step;
    if schedule == [] {
    } else {
      var n := |schedule| - 1;
      QuietBeforeStart(c, schedule[..n]);
      Balanced(c, schedule[..n]);
      QuietStep(c, Run(c, schedule[..n]).value, schedule[n]);
    }
  }

  // ---- The worker's rounds ----

  /** What a worker does in a round, call by call and assignment by assignment. */
  datatype Mark =
    | Asked(got: bool)
    | CalledStart(ok: bool)
    | CalledStop(ok: bool)
    | CalledRelease
    | Wrote(status: Status)

  /** The mark of an action that leads to the status `st`. */
  function MarkOf(a: Action, st: Status): seq<Mark> {
    match a
    case CreateNull => [Asked(false)]
    case CreateRequest => [Asked(true)]
    case StartCall(ok) => [CalledStart(ok)]
    case StopCall(ok) => [CalledStop(ok)]
    case ReleaseCall => [CalledRelease]
    case Write => [Wrote(st)]
    case _ => []
  }

  /** The marks since the last test of `global_run`. */
  function Marks(c: Contract, schedule: seq<Action>): seq<Mark> {
    if schedule == [] then []
    else
      var init, a := schedule[..|schedule| - 1], schedule[|schedule| - 1];
      if a.Test? then []
      else match Run(c, schedule)
        case None => []
        case Some(s) => Marks(c, init) + MarkOf(a, s.status)
  }

  /** The ways through a round; `Left` stands for a test that ends the loop. */
  datatype Exit = Left | NoRequest | ReleasedAtOnce | StartFailed | StopFailed | Stopped

  function Course(x: Exit): seq<Mark> {
    match x
    case Left => []
    case NoRequest => [Asked(false)]
    case ReleasedAtOnce => [Asked(true), Wrote(RequestCreated), CalledRelease, Wrote(RequestReleased)]
    case StartFailed =>
      [Asked(true), Wrote(RequestCreated), CalledStart(false), CalledRelease, Wrote(RequestReleased)]
    case StopFailed =>
      [Asked(true), Wrote(RequestCreated), CalledStart(true), Wrote(RequestStart), CalledStop(false),
       CalledRelease, Wrote(RequestReleased)]
    case Stopped =>
      [Asked(true), Wrote(RequestCreated), CalledStart(true), Wrote(RequestStart), CalledStop(true),
       Wrote(RequestStop), CalledRelease, Wrote(RequestReleased)]
  }

  /** How far a round has come. */
  ghost predicate OnCourse(pc: Pc, marks: seq<Mark>) {
    match pc
    case WhileTest => marks == [] || exists x :: marks == Course(x)
    case ReadHead(_) => marks == []
    case Creating => marks == []
    case WritingCreated => marks == Course(Stopped)[..1]
    case Created => marks == Course(Stopped)[..2]
    case WritingStart => marks == Course(Stopped)[..3]
    case Sending => marks == Course(Stopped)[..4]
    case WritingStop => marks == Course(Stopped)[..5]
    case Releasing =>
      marks == Course(Stopped)[..6] || marks == Course(StopFailed)[..5] || marks == Course(StartFailed)[..3]
    case WritingReleased =>
      || marks == Course(Stopped)[..7] || marks == Course(StopFailed)[..6]
      || marks == Course(StartFailed)[..4] || marks == Course(ReleasedAtOnce)[..3]
    case Exited => marks == Course(Left) || marks == Course(NoRequest)
  }

  lemma CourseStep(c: Contract, s: State, a: Action, marks: seq<Mark>)
    requires OnCourse(s.pc, marks) && WorkerStep(c, s, a).Some? && !a.Begin? && !a.CallbackRead? && !a.CallbackWrite?
    ensures var t := WorkerStep(c, s, a).value;
            OnCourse(t.pc, if a.Test? then [] else marks + MarkOf(a, t.status))
  {}

  /** Under any contract a worker that is between two rounds, or has left, has taken one of these courses. */
  lemma {:induction false} RoundsOnCourse(c: Contract, schedule: seq<Action>)
    requires Run(c, schedule).Some?
    ensures OnCourse(Run(c, schedule).value.pc, Marks(c, schedule))
  {
    hide WorkerStep, CallbackStep, OnCourse, MarkOf;
    if schedule == [] {
      AtStart();
    } else {
      var n := |schedule| - 1;
      var s, a := Run(c, schedule[..n]).value, schedule[n];
      RoundsOnCourse(c, schedule[..n]);
      if a.Begin? || a.CallbackRead? || a.CallbackWrite? {
        CallbackLeavesCourse(c, s, a);
        assert Marks(c, schedule[..n]) + [] == Marks(c, schedule[..n]);
      } else {
        CourseStep(c, s, a, Marks(c, schedule[..n]));
      }
    }
  }

  lemma AtStart()
    ensures OnCourse(INITIAL.pc, [])
  {}

  lemma CallbackLeavesCourse(c: Contract, s: State, a: Action)
    requires CallbackStep(c, s, a).Some?
    ensures var t := CallbackStep(c, s, a).value; t.pc == s.pc && MarkOf(a, t.status) == []
  {
    hide MayBegin, Expected;
  }

  lemma GoOn(c: Contract, schedule: seq<Action>, s: State, a: Action) returns (schedule': seq<Action>, s': State)
    requires Reaches(c, schedule, s) && Step(c, s, a).Some?
    ensures Reaches(c, schedule', s') && Step(c, s, a) == Some(s')
    ensures Marks(c, schedule') == if a.Test? then [] else Marks(c, schedule) + MarkOf(a, s'.status)
  {
    hide Step, MarkOf;
    schedule', s' := schedule + [a], Step(c, s, a).value;
    assert schedule'[..|schedule|] == schedule;
  }

  /** The release of an undisturbed request. */
  lemma LetGo(c: Contract, schedule: seq<Action>, s: State) returns (schedule': seq<Action>, s': State)
    requires Reaches(c, schedule, s) && s.callback.Idle? && (s.pc.Releasing? || s.pc.Created?)
    ensures Reaches(c, schedule', s') && s'.pc.WhileTest? && s'.status.RequestReleased?
    ensures Marks(c, schedule') == Marks(c, schedule) + [CalledRelease, Wrote(RequestReleased)]
  {
    hide Reaches, Marks, CallbackStep;
    schedule', s' := GoOn(c, schedule, s, ReleaseCall);
    schedule', s' := GoOn(c, schedule', s', Write);
  }

  lemma NullTaken(c: Contract, go: bool) returns (schedule: seq<Action>, s: State)
    ensures Reaches(c, schedule, s) && s.pc.Exited?
    ensures Marks(c, schedule) == Course(if go then NoRequest else Left)
  {
    if go {
      schedule := ToCreating(c);
      RoundsOnCourse(c, schedule);
      hide Reaches, Marks, CallbackStep;
      schedule, s := GoOn(c, schedule, INITIAL.(pc := Creating), CreateNull);
    } else {
      schedule := [];
      hide Marks, CallbackStep;
      schedule, s := GoOn(c, schedule, INITIAL, Test(false));
    }
  }

  /** The end of every course that has a request. */
  lemma CourseEnds()
    ensures var end := [CalledRelease, Wrote(RequestReleased)];
            && Course(ReleasedAtOnce) == Course(Stopped)[..2] + end
            && Course(StartFailed) == Course(Stopped)[..2] + [CalledStart(false)] + end
            && Course(StopFailed) == Course(Stopped)[..4] + [CalledStop(false)] + end
            && Course(Stopped) == Course(Stopped)[..4] + [CalledStop(true)] + [Wrote(RequestStop)] + end
  {}

  lemma MarksAtCreated(c: Contract) returns (schedule: seq<Action>)
    ensures Reaches(c, schedule, CREATED) && Marks(c, schedule) == Course(Stopped)[..2]
  {
    schedule := ToCreated(c);
    RoundsOnCourse(c, schedule);
  }

  lemma MarksAtSending(c: Contract) returns (schedule: seq<Action>)
    ensures Reaches(c, schedule, SENDING) && Marks(c, schedule) == Course(Stopped)[..4]
  {
    schedule := ToSending(c);
    RoundsOnCourse(c, schedule);
  }

  lemma UnstartedTaken(c: Contract, tried: bool) returns (schedule: seq<Action>, s: State)
    ensures Reaches(c, schedule, s) && s.pc.WhileTest?
    ensures Marks(c, schedule) == Course(if tried then StartFailed else ReleasedAtOnce)
  {
    hide Reaches, Marks, CallbackStep, Course;
    schedule := MarksAtCreated(c);
    s := CREATED;
    if tried {
      schedule, s := GoOn(c, schedule, CREATED, StartCall(false));
    }
    hide WorkerStep;
    schedule, s := LetGo(c, schedule, s);
    CourseEnds();
  }

  lemma StoppingTaken(c: Contract, ok: bool) returns (schedule: seq<Action>, s: State)
    ensures Reaches(c, schedule, s) && s.pc.Releasing? && s.callback.Idle?
    ensures Marks(c, schedule) == Course(Stopped)[..4] + [CalledStop(ok)] + if ok then [Wrote(RequestStop)] else []
  {
    hide Reaches, Marks, CallbackStep, Course;
    schedule := MarksAtSending(c);
    schedule, s := GoOn(c, schedule, SENDING, StopCall(ok));
    if ok {
      schedule, s := GoOn(c, schedule, s, Write);
    }
  }

  lemma StartedTaken(c: Contract, ok: bool) returns (schedule: seq<Action>, s: State)
    ensures Reaches(c, schedule, s) && s.pc.WhileTest?
    ensures Marks(c, schedule) == Course(if ok then Stopped else StopFailed)
  {
    hide Reaches, Marks, CallbackStep, WorkerStep, Course;
    schedule, s := StoppingTaken(c, ok);
    schedule, s := LetGo(c, schedule, s);
    CourseEnds();
  }

  /** Each course can be taken, and between rounds a worker has taken one of them, under any contract. */
  lemma CoursesExactly(c: Contract, marks: seq<Mark>)
    ensures (exists schedule, s ::
               Reaches(c, schedule, s) && (s.pc.WhileTest? || s.pc.Exited?) && Marks(c, schedule) == marks)
            <==> exists x :: marks == Course(x)
  {
    if schedule, s :| Reaches(c, schedule, s) && (s.pc.WhileTest? || s.pc.Exited?) && Marks(c, schedule) == marks {
      RoundsOnCourse(c, schedule);
      assert marks == [] ==> marks == Course(Left);
    }
    hide Reaches, Marks, OnCourse;
    if x :| marks == Course(x) {
      match x {
        case Left => var schedule, s := NullTaken(c, false);
        case NoRequest => var schedule, s := NullTaken(c, true);
        case ReleasedAtOnce => var schedule, s := UnstartedTaken(c, false);
        case StartFailed => var schedule, s := UnstartedTaken(c, true);
        case StopFailed => var schedule, s := StartedTaken(c, false);
        case Stopped => var schedule, s := StartedTaken(c, true);
      }
    }
  }

  // ---- The exact contracts ----

  /** No callback finds its status out of place, in any interleaving. */
  ghost predicate Legal(c: Contract) {
    forall schedule: seq<Action>, s: State | Reaches(c, schedule, s) :: s.callbackMessages == 0
  }

  /** No round begins on a status that is neither Invalid nor Released. */
  ghost predicate LegalHead(c: Contract) {
    forall schedule: seq<Action>, s: State | Reaches(c, schedule, s) :: s.workerMessages == 0
  }

  /** All ten clauses are needed, and together they are enough. */
  lemma LegalExactly(c: Contract)
    ensures Legal(c) <==> c == FULL
  {
    if c == FULL {
      forall schedule: seq<Action>, s: State | Reaches(c, schedule, s) ensures s.callbackMessages == 0 {
        CallbacksSilent(schedule);
      }
    } else {
      var schedule, s := Breaks(c);
    }
  }

  /** For the worker's own check one clause decides. */
  lemma LegalHeadExactly(c: Contract)
    ensures LegalHead(c) <==> c.nothingAfterRelease
  {
    if c.nothingAfterRelease {
      forall schedule: seq<Action>, s: State | Reaches(c, schedule, s) ensures s.workerMessages == 0 {
        HeadSilent(c, schedule);
      }
    } else {
      var schedule, s := HeadComplains(c);
    }
  }
}
