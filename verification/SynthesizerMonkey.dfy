/**
 The status machine of demo/Linux/flowingSynthesizerMonkeyTest.cpp, where a round may also end in
 `cancel()` or in a failing `sendText()`, and where the callbacks list the statuses that are wrong.
 */
module SynthesizerMonkey {
  import opened Basics
  import opened RequestStatus

  // ---- States ----

  datatype Event = TaskFailed | ChannelClosed | BinaryDataRecved | SentenceBegin | SentenceEnd | SentenceSynthesis

  /** The wrong statuses of every callback, in the order of the comparisons. */
  function Wrong(k: nat): Option<Status> {
    match k
    case 0 => Some(RequestInvalid)
    case 1 => Some(RequestCreated)
    case 2 => Some(RequestCancelled)
    case 3 => Some(RequestReleased)
    case _ => None
  }

  datatype Callback =
    | Idle
    | Checking(event: Event, next: nat)
    | Writing(event: Event)

  datatype Pc =
    | WhileTest
    | ReadHead(next: nat)
    | Creating
    | WritingCreated
    | Created
    | WritingStart
    | Active
    | WritingCancelled
    | Releasing
    | WritingReleased
    | Exited

  /** What has happened to the latest request. */
  datatype Round = Round(startCalled: bool, startWritten: bool, cancelled: bool)

  const NEW_ROUND: Round := Round(false, false, false)

  datatype State = State(
    pc: Pc, status: Status, callback: Callback, round: Round, live: bool,
    creates: nat, releases: nat, workerMessages: nat, callbackMessages: nat)

  const INITIAL: State := State(WhileTest, RequestInvalid, Idle, NEW_ROUND, false, 0, 0, 0, 0)

  /**
   `special`: `special_type` is 1, so every started round is cancelled.
   What the SDK promises:
   `callbacksAfterStart`: callbacks come only after the worker has written RequestStart.
   `quietAfterCancel`: no callback runs any more when `cancel()` returns, and none begins later.
   `nothingAfterRelease`: the same for the release of the request.
   */
  datatype Config = Config(
    special: bool, callbacksAfterStart: bool, quietAfterCancel: bool, nothingAfterRelease: bool)

  /** Callbacks of one request come one at a time and not before `start()` is called. */
  predicate MayBegin(c: Config, s: State) {
    && s.callback.Idle? && s.round.startCalled
    && (c.callbacksAfterStart ==> s.round.startWritten)
    && (c.quietAfterCancel ==> !s.round.cancelled)
    && (c.nothingAfterRelease ==> s.live)
  }

  // ---- Steps ----

  datatype Action =
    | Test(go: bool)
    | Read
    | CreateNull
    | CreateRequest
    | Write
    | StartCall(ok: bool)
    | SendText(ok: bool)
    | StopCall
    | CancelCall
    | ReleaseCall
    | Begin(event: Event)
    | CallbackRead
    | CallbackWrite

  function WorkerStep(c: Config, s: State, a: Action): Option<State> {
    match (s.pc, a)
    case (WhileTest, Test(go)) => Some(s.(pc := if go then ReadHead(0) else Exited))
    case (ReadHead(k), Read) =>
      if s.status == (if k == 0 then RequestReleased else RequestInvalid) then Some(s.(pc := Creating))
      else if k == 0 then Some(s.(pc := ReadHead(1)))
      else Some(s.(pc := Creating, workerMessages := s.workerMessages + 1))
    case (Creating, CreateNull) => Some(s.(pc := Exited))
    case (Creating, CreateRequest) =>
      Some(s.(pc := WritingCreated, live := true, creates := s.creates + 1, round := NEW_ROUND))
    case (WritingCreated, Write) => Some(s.(pc := Created, status := RequestCreated))
    case (Created, ReleaseCall) => Release(c, s)
    case (Created, StartCall(ok)) =>
      Some(s.(pc := if ok then WritingStart else Releasing, round := s.round.(startCalled := true)))
    case (WritingStart, Write) =>
      Some(s.(pc := Active, status := RequestStart, round := s.round.(startWritten := true)))
    case (Active, SendText(ok)) =>
      if c.special then None else Some(s.(pc := if ok then Active else Releasing))
    case (Active, StopCall) => if c.special then None else Some(s.(pc := Releasing))
    case (Active, CancelCall) =>
      if c.quietAfterCancel && !s.callback.Idle? then None
      else Some(s.(pc := if c.special then WritingCancelled else Releasing, round := s.round.(cancelled := true)))
    case (WritingCancelled, Write) => Some(s.(pc := Releasing, status := RequestCancelled))
    case (Releasing, ReleaseCall) => Release(c, s)
    case (WritingReleased, Write) => Some(s.(pc := WhileTest, status := RequestReleased))
    case _ => None
  }

  function Release(c: Config, s: State): Option<State> {
    if c.nothingAfterRelease && !s.callback.Idle? then None
    else Some(s.(pc := WritingReleased, live := false, releases := s.releases + 1))
  }

  function Written(e: Event): Status {
    match e
    case TaskFailed => RequestFailed
    case ChannelClosed => RequestClosed
    case _ => RequestRunning
  }

  function CallbackStep(c: Config, s: State, a: Action): Option<State> {
    match (s.callback, a)
    case (Idle, Begin(e)) => if MayBegin(c, s) then Some(s.(callback := Checking(e, 0))) else None
    case (Checking(e, k), CallbackRead) =>
      if Wrong(k) == Some(s.status) then
        Some(s.(callback := Writing(e), callbackMessages := s.callbackMessages + 1))
      else if Wrong(k + 1).Some? then Some(s.(callback := Checking(e, k + 1)))
      else Some(s.(callback := Writing(e)))
    case (Writing(e), CallbackWrite) => Some(s.(callback := Idle, status := Written(e)))
    case _ => None
  }

  function Step(c: Config, s: State, a: Action): Option<State> {
    if a.Begin? || a.CallbackRead? || a.CallbackWrite? then CallbackStep(c, s, a) else WorkerStep(c, s, a)
  }

  function Run(c: Config, schedule: seq<Action>): Option<State> {
    if schedule == [] then Some(INITIAL)
    else
      match Run(c, schedule[..|schedule| - 1])
      case None => None
      case Some(s) => Step(c, s, schedule[|schedule| - 1])
  }

  ghost predicate Reaches(c: Config, schedule: seq<Action>, s: State) {
    Run(c, schedule) == Some(s)
  }

  // ---- Creates and releases ----

  ghost predicate BalanceInv(s: State) {
    && s.creates == s.releases + (if s.live then 1 else 0)
    && (s.live <==> s.pc.WritingCreated? || s.pc.Created? || s.pc.WritingStart? || s.pc.Active? ||
                    s.pc.WritingCancelled? || s.pc.Releasing?)
  }

  lemma BalanceStep(c: Config, s: State, a: Action)
    requires BalanceInv(s) && Step(c, s, a).Some?
    ensures BalanceInv(Step(c, s, a).value)
  {
    hide MayBegin, Wrong;
  }

  lemma {:induction false} Balanced(c: Config, schedule: seq<Action>)
    requires Run(c, schedule).Some?
    ensures BalanceInv(Run(c, schedule).value)
  {
    hide Step;
    if schedule == [] {
    } else {
      var n := |schedule| - 1;
      Balanced(c, schedule[..n]);
      BalanceStep(c, Run(c, schedule[..n]).value, schedule[n]);
    }
  }

  /** Every request that a round creates is released in that round, whichever exit the round takes. */
  lemma LoopHeadBalanced(c: Config, schedule: seq<Action>, s: State)
    requires Reaches(c, schedule, s)
    requires s.pc.WhileTest? || s.pc.ReadHead? || s.pc.Exited?
    ensures s.creates == s.releases
  {
    Balanced(c, schedule);
  }

  // ---- Sufficient contracts ----

  /** No callback runs or begins while no request is live. */
  predicate Contained(c: Config) {
    c.nothingAfterRelease || (c.special && c.callbacksAfterStart && c.quietAfterCancel)
  }

  ghost predicate HeadInv(c: Config, s: State) {
    && BalanceInv(s)
    && s.workerMessages == 0
    && (!s.live ==> s.callback.Idle?)
    && (!c.nothingAfterRelease ==>
         && (!s.callback.Idle? ==> s.round.startWritten && !s.round.cancelled)
         && (s.pc.WritingCreated? || s.pc.Created? || s.pc.WritingStart? ==> !s.round.startWritten)
         && (s.pc.WritingCancelled? ==> s.round.cancelled)
         && (s.pc.Releasing? || !s.live ==> s.round.startWritten ==> s.round.cancelled))
    && (s.pc.WhileTest? || s.pc.ReadHead? || s.pc.Creating? ==>
         s.status == RequestReleased || s.status == RequestInvalid)
    && (s.pc.ReadHead? && s.pc.next > 0 ==> s.status == RequestInvalid)
  }

  lemma HeadWorkerStep(c: Config, s: State, a: Action)
    requires Contained(c) && HeadInv(c, s) && WorkerStep(c, s, a).Some?
    ensures HeadInv(c, WorkerStep(c, s, a).value)
  {}

  lemma HeadCallbackStep(c: Config, s: State, a: Action)
    requires Contained(c) && HeadInv(c, s) && CallbackStep(c, s, a).Some?
    ensures HeadInv(c, CallbackStep(c, s, a).value)
  {
    hide Wrong;
  }

  lemma InitialHead(c: Config)
    ensures HeadInv(c, INITIAL)
  {}

  lemma {:induction false} HeadSilent(c: Config, schedule: seq<Action>)
    requires Contained(c) && Run(c, schedule).Some?
    ensures HeadInv(c, Run(c, schedule).value)
  {
    hide WorkerStep, CallbackStep, HeadInv;
    if schedule == [] {
      InitialHead(c);
    } else {
      var n := |schedule| - 1;
      HeadSilent(c, schedule[..n]);
      var s := Run(c, schedule[..n]).value;
      if CallbackStep(c, s, schedule[n]).Some? { HeadCallbackStep(c, s, schedule[n]); }
      if WorkerStep(c, s, schedule[n]).Some? { HeadWorkerStep(c, s, schedule[n]); }
    }
  }

  /** What keeps the callbacks from ever seeing a wrong status. */
  predicate Proper(c: Config) {
    c.callbacksAfterStart && if c.special then c.quietAfterCancel else c.nothingAfterRelease
  }

  predicate IsWrong(st: Status) {
    st == RequestInvalid || st == RequestCreated || st == RequestCancelled || st == RequestReleased
  }

  ghost predicate CallbackInv(c: Config, s: State) {
    && s.callbackMessages == 0
    && (!s.callback.Idle? ==> s.live && s.round.startWritten && (c.special ==> !s.round.cancelled))
    && (s.pc.WritingCreated? || s.pc.Created? || s.pc.WritingStart? ==> !s.round.startWritten)
    && (s.pc.WritingCancelled? ==> c.special && s.round.cancelled)
    && (c.special && (s.pc.Releasing? || !s.live) ==> s.round.startWritten ==> s.round.cancelled)
    && (s.live && s.round.startWritten && !(c.special && s.round.cancelled) ==> !IsWrong(s.status))
  }

  lemma CallbackWorkerStep(c: Config, s: State, a: Action)
    requires Proper(c) && BalanceInv(s) && CallbackInv(c, s) && WorkerStep(c, s, a).Some?
    ensures CallbackInv(c, WorkerStep(c, s, a).value)
  {}

  lemma CallbackCallbackStep(c: Config, s: State, a: Action)
    requires Proper(c) && BalanceInv(s) && CallbackInv(c, s) && CallbackStep(c, s, a).Some?
    ensures CallbackInv(c, CallbackStep(c, s, a).value)
  {}

  lemma InitialCallback(c: Config)
    ensures CallbackInv(c, INITIAL)
  {}

  lemma {:induction false} CallbacksSilent(c: Config, schedule: seq<Action>)
    requires Proper(c) && Run(c, schedule).Some?
    ensures CallbackInv(c, Run(c, schedule).value)
  {
    hide WorkerStep, CallbackStep, CallbackInv;
    if schedule == [] {
      InitialCallback(c);
    } else {
      var n := |schedule| - 1;
      CallbacksSilent(c, schedule[..n]);
      Balanced(c, schedule[..n]);
      var s := Run(c, schedule[..n]).value;
      if CallbackStep(c, s, schedule[n]).Some? { CallbackCallbackStep(c, s, schedule[n]); }
      if WorkerStep(c, s, schedule[n]).Some? { CallbackWorkerStep(c, s, schedule[n]); }
    }
  }

  // ---- Necessary contracts ----

  lemma Go(c: Config, schedule: seq<Action>, s: State, a: Action) returns (schedule': seq<Action>, s': State)
    requires Reaches(c, schedule, s) && Step(c, s, a).Some?
    ensures Reaches(c, schedule', s') && Step(c, s, a) == Some(s')
  {
    hide Step;
    schedule', s' := schedule + [a], Step(c, s, a).value;
    assert schedule'[..|schedule|] == schedule;
  }

  /** The first request, before `start()`. */
  const CREATED: State := State(Created, RequestCreated, Idle, NEW_ROUND, true, 1, 0, 0, 0)

  const ACTIVE: State := CREATED.(pc := Active, status := RequestStart, round := Round(true, true, false))

  lemma ToHead(c: Config) returns (schedule: seq<Action>)
    ensures Reaches(c, schedule, INITIAL.(pc := ReadHead(0)))
  {
    schedule := [Test(true)];
    assert schedule[..0] == [];
  }

  lemma ToCreating(c: Config) returns (schedule: seq<Action>)
    ensures Reaches(c, schedule, INITIAL.(pc := Creating))
  {
    hide Reaches, MayBegin;
    var s := INITIAL.(pc := ReadHead(0));
    schedule := ToHead(c);
    schedule, s := Go(c, schedule, s, Read);
    schedule, s := Go(c, schedule, s, Read);
  }

  lemma ToCreated(c: Config) returns (schedule: seq<Action>)
    ensures Reaches(c, schedule, CREATED)
  {
    hide Reaches, MayBegin, CallbackStep;
    var s := INITIAL.(pc := Creating);
    schedule := ToCreating(c);
    schedule, s := Go(c, schedule, s, CreateRequest);
    schedule, s := Go(c, schedule, s, Write);
  }

  lemma ToActive(c: Config) returns (schedule: seq<Action>)
    ensures Reaches(c, schedule, ACTIVE)
  {
    hide Reaches, MayBegin, CallbackStep;
    var s := CREATED;
    schedule := ToCreated(c);
    schedule, s := Go(c, schedule, s, StartCall(true));
    schedule, s := Go(c, schedule, s, Write);
  }

  /** The status is one of the wrong ones from the k-th on. */
  predicate WillWarn(k: nat, st: Status) {
    || Wrong(k) == Some(st) || Wrong(k + 1) == Some(st) || Wrong(k + 2) == Some(st) || Wrong(k + 3) == Some(st)
  }

  lemma WarnsExactly(st: Status)
    ensures WillWarn(0, st) <==> IsWrong(st)
  {}

  /** All comparisons of a callback while nobody else moves: a message exactly for a wrong status. */
  lemma {:induction false} Compares(c: Config, schedule: seq<Action>, s: State)
    returns (schedule': seq<Action>, s': State)
    requires Reaches(c, schedule, s) && s.callback.Checking? && s.callback.next <= 3
    ensures Reaches(c, schedule', s')
    ensures var warned := if WillWarn(s.callback.next, s.status) then 1 else 0;
            s' == s.(callback := Writing(s.callback.event), callbackMessages := s.callbackMessages + warned)
    decreases 3 - s.callback.next
  {
    hide Reaches, MayBegin;
    schedule', s' := Go(c, schedule, s, CallbackRead);
    if s'.callback.Checking? {
      schedule', s' := Compares(c, schedule', s');
    }
  }

  /** A callback up to its assignment. */
  lemma Enters(c: Config, schedule: seq<Action>, s: State, e: Event) returns (schedule': seq<Action>, s': State)
    requires Reaches(c, schedule, s) && s.callback.Idle? && MayBegin(c, s)
    ensures Reaches(c, schedule', s')
    ensures s' == s.(callback := Writing(e), callbackMessages := s.callbackMessages + if IsWrong(s.status) then 1 else 0)
  {
    hide Reaches, MayBegin, Wrong, WillWarn, IsWrong;
    schedule', s' := Go(c, schedule, s, Begin(e));
    schedule', s' := Compares(c, schedule', s');
    WarnsExactly(s.status);
  }

  /** A whole callback that nobody disturbs: one message for a wrong status, one assignment, nothing else. */
  lemma WholeCallback(c: Config, schedule: seq<Action>, s: State, e: Event)
    returns (schedule': seq<Action>, s': State)
    requires Reaches(c, schedule, s) && s.callback.Idle? && MayBegin(c, s)
    ensures Reaches(c, schedule', s')
    ensures s' == s.(status := if e.TaskFailed? then RequestFailed
                               else if e.ChannelClosed? then RequestClosed else RequestRunning,
                     callbackMessages := s.callbackMessages +
                       if s.status.RequestInvalid? || s.status.RequestCreated? || s.status.RequestCancelled? ||
                          s.status.RequestReleased? then 1 else 0)
  {
    hide Reaches, MayBegin, WorkerStep;
    schedule', s' := Enters(c, schedule, s, e);
    schedule', s' := Go(c, schedule', s', CallbackWrite);
  }

  lemma EarlyCallback(c: Config) returns (schedule: seq<Action>, s: State)
    requires !c.callbacksAfterStart
    ensures Reaches(c, schedule, s) && s.callbackMessages > 0
  {
    hide Reaches;
    schedule := ToCreated(c);
    schedule, s := Go(c, schedule, CREATED, StartCall(true));
    schedule, s := Enters(c, schedule, s, BinaryDataRecved);
  }

  lemma CallbackAfterCancel(c: Config) returns (schedule: seq<Action>, s: State)
    requires c.special && !c.quietAfterCancel
    ensures Reaches(c, schedule, s) && s.callbackMessages > 0
  {
    hide Reaches;
    schedule := ToActive(c);
    schedule, s := Go(c, schedule, ACTIVE, CancelCall);
    schedule, s := Go(c, schedule, s, Write);
    schedule, s := Enters(c, schedule, s, BinaryDataRecved);
  }

  /** The release of a request while whatever callback there is stands still. */
  lemma ReleasedUnder(c: Config, schedule: seq<Action>, s: State) returns (schedule': seq<Action>, s': State)
    requires !c.nothingAfterRelease && Reaches(c, schedule, s) && s.pc.Releasing?
    ensures Reaches(c, schedule', s')
    ensures s' == s.(pc := WhileTest, status := RequestReleased, live := false, releases := s.releases + 1)
  {
    hide Reaches, MayBegin;
    schedule', s' := Go(c, schedule, s, ReleaseCall);
    schedule', s' := Go(c, schedule', s', Write);
  }

  lemma CallbackAfterRelease(c: Config) returns (schedule: seq<Action>, s: State)
    requires !c.special && !c.nothingAfterRelease
    ensures Reaches(c, schedule, s) && s.callbackMessages > 0
  {
    hide Reaches;
    schedule := ToActive(c);
    schedule, s := Go(c, schedule, ACTIVE, StopCall);
    schedule, s := ReleasedUnder(c, schedule, s);
    schedule, s := Enters(c, schedule, s, BinaryDataRecved);
  }

  /** A callback that is not contained stands before its assignment when the request is released. */
  lemma Escapes(c: Config) returns (schedule: seq<Action>, s: State)
    requires !Contained(c)
    ensures Reaches(c, schedule, s) && s.pc.Releasing? && s.callback.Writing?
  {
    hide Reaches;
    if !c.special {
      schedule := ToActive(c);
      schedule, s := Enters(c, schedule, ACTIVE, BinaryDataRecved);
      schedule, s := Go(c, schedule, s, StopCall);
    } else if !c.callbacksAfterStart {
      schedule := ToCreated(c);
      schedule, s := Go(c, schedule, CREATED, StartCall(false));
      schedule, s := Enters(c, schedule, s, BinaryDataRecved);
    } else {
      schedule := ToActive(c);
      schedule, s := Enters(c, schedule, ACTIVE, BinaryDataRecved);
      schedule, s := Go(c, schedule, s, CancelCall);
      schedule, s := Go(c, schedule, s, Write);
    }
  }

  lemma HeadComplains(c: Config) returns (schedule: seq<Action>, s: State)
    requires !Contained(c)
    ensures Reaches(c, schedule, s) && s.workerMessages > 0
  {
    hide Reaches, MayBegin;
    schedule, s := Escapes(c);
    schedule, s := ReleasedUnder(c, schedule, s);
    schedule, s := Go(c, schedule, s, CallbackWrite);
    schedule, s := Go(c, schedule, s, Test(true));
    schedule, s := Go(c, schedule, s, Read);
    schedule, s := Go(c, schedule, s, Read);
  }

  /** The check at the head of a round: one message for any status but Invalid and Released. */
  lemma HeadCheck(c: Config, schedule: seq<Action>, s: State) returns (schedule': seq<Action>, s': State)
    requires Reaches(c, schedule, s) && s.pc.WhileTest?
    ensures Reaches(c, schedule', s')
    ensures s' == s.(pc := Creating,
                     workerMessages := s.workerMessages +
                       if s.status.RequestInvalid? || s.status.RequestReleased? then 0 else 1)
  {
    hide Reaches, CallbackStep;
    schedule', s' := Go(c, schedule, s, Test(true));
    schedule', s' := Go(c, schedule', s', Read);
    if !s.status.RequestReleased? {
      schedule', s' := Go(c, schedule', s', Read);
    }
  }

  /** No callback before `start()` is called. */
  ghost predicate Quiet(s: State) {
    && (s.pc.WritingCreated? || s.pc.Created? ==> !s.round.startCalled)
    && (s.creates == 0 ==> !s.round.startCalled)
  }

  lemma QuietStep(c: Config, s: State, a: Action)
    requires BalanceInv(s) && Quiet(s) && Step(c, s, a).Some?
    ensures Quiet(Step(c, s, a).value)
  {
    hide MayBegin;
  }

  lemma {:induction false} QuietBeforeStart(c: Config, schedule: seq<Action>)
    requires Run(c, schedule).Some?
    ensures Quiet(Run(c, schedule).value)
  {
    hide Step;
    if schedule == [] {
    } else {
      var n := |schedule| - 1;
      QuietBeforeStart(c, schedule[..n]);
      Balanced(c, schedule[..n]);
      QuietStep(c, Run(c, schedule[..n]).value, schedule[n]);
    }
  }

  // ---- The worker's rounds ----

  /** What a worker does in a round, call by call and assignment by assignment. */
  datatype Mark =
    | Asked(got: bool)
    | CalledStart(ok: bool)
    | CalledSendText(ok: bool)
    | CalledStop
    | CalledCancel
    | CalledRelease
    | Wrote(status: Status)

  /** The mark of an action that leads to the status `st`. */
  function MarkOf(a: Action, st: Status): seq<Mark> {
    match a
    case CreateNull => [Asked(false)]
    case CreateRequest => [Asked(true)]
    case StartCall(ok) => [CalledStart(ok)]
    case SendText(ok) => [CalledSendText(ok)]
    case StopCall => [CalledStop]
    case CancelCall => [CalledCancel]
    case ReleaseCall => [CalledRelease]
    case Write => [Wrote(st)]
    case _ => []
  }

  /** The marks since the last test of `global_run`. */
  function Marks(c: Config, schedule: seq<Action>): seq<Mark> {
    if schedule == [] then []
    else
      var init, a := schedule[..|schedule| - 1], schedule[|schedule| - 1];
      if a.Test? then []
      else match Run(c, schedule)
        case None => []
        case Some(s) => Marks(c, init) + MarkOf(a, s.status)
  }

  /** The ways through a round; `Left` stands for a test that ends the loop, `sent` counts accepted texts. */
  datatype Exit =
    | Left
    | NoRequest
    | ReleasedAtOnce
    | StartFailed
    | CancelledAtOnce
    | SendFailed(sent: nat)
    | Stopped(sent: nat)
    | Cancelled(sent: nat)

  /** A round in `special_type` 1 is cancelled after its start; in the others texts are sent. */
  predicate Possible(c: Config, x: Exit) {
    match x
    case CancelledAtOnce => c.special
    case SendFailed(_) => !c.special
    case Stopped(_) => !c.special
    case Cancelled(_) => !c.special
    case _ => true
  }

  function Texts(n: nat): (r: seq<Mark>)
    ensures |r| == n && forall k | 0 <= k < n :: r[k] == CalledSendText(true)
  {
    seq(n, _ => CalledSendText(true))
  }

  const OPENING: seq<Mark> := [Asked(true), Wrote(RequestCreated), CalledStart(true), Wrote(RequestStart)]

  /** A round without its release. */
  function Before(x: Exit): seq<Mark> {
    match x
    case Left => []
    case NoRequest => [Asked(false)]
    case ReleasedAtOnce => [Asked(true), Wrote(RequestCreated)]
    case StartFailed => [Asked(true), Wrote(RequestCreated), CalledStart(false)]
    case CancelledAtOnce => OPENING + [CalledCancel, Wrote(RequestCancelled)]
    case SendFailed(n) => OPENING + Texts(n) + [CalledSendText(false)]
    case Stopped(n) => OPENING + Texts(n) + [CalledStop]
    case Cancelled(n) => OPENING + Texts(n) + [CalledCancel]
  }

  function Course(x: Exit): seq<Mark> {
    if x.Left? || x.NoRequest? then Before(x) else Before(x) + [CalledRelease] + [Wrote(RequestReleased)]
  }

  /** How far a round has come. */
  ghost predicate OnCourse(c: Config, pc: Pc, marks: seq<Mark>) {
    match pc
    case WhileTest => marks == [] || exists x :: Possible(c, x) && marks == Course(x)
    case ReadHead(_) => marks == []
    case Creating => marks == []
    case WritingCreated => marks == OPENING[..1]
    case Created => marks == OPENING[..2]
    case WritingStart => marks == OPENING[..3]
    case Active => if c.special then marks == OPENING else exists n: nat :: marks == OPENING + Texts(n)
    case WritingCancelled => c.special && marks == OPENING + [CalledCancel]
    case Releasing => exists x :: WithRequest(x) && Possible(c, x) && !x.ReleasedAtOnce? && marks == Before(x)
    case WritingReleased => exists x :: WithRequest(x) && Possible(c, x) && marks == Before(x) + [CalledRelease]
    case Exited => marks == Course(Left) || marks == Course(NoRequest)
  }

  predicate WithRequest(x: Exit) {
    !x.Left? && !x.NoRequest?
  }

  lemma CourseOpens(c: Config, s: State, a: Action, marks: seq<Mark>)
    requires OnCourse(c, s.pc, marks) && WorkerStep(c, s, a).Some?
    requires s.pc.WhileTest? || s.pc.ReadHead? || s.pc.Creating? || s.pc.WritingCreated? || s.pc.WritingStart?
    ensures var t := WorkerStep(c, s, a).value;
            OnCourse(c, t.pc, if a.Test? then [] else marks + MarkOf(a, t.status))
  {
    assert OPENING + Texts(0) == OPENING;
  }

  lemma CourseCreated(c: Config, s: State, a: Action, marks: seq<Mark>)
    requires OnCourse(c, s.pc, marks) && WorkerStep(c, s, a).Some? && s.pc.Created?
    ensures var t := WorkerStep(c, s, a).value; OnCourse(c, t.pc, marks + MarkOf(a, t.status))
  {
    assert WithRequest(ReleasedAtOnce) && Possible(c, ReleasedAtOnce);
    assert WithRequest(StartFailed) && Possible(c, StartFailed);
    assert OPENING[..2] + [CalledStart(false)] == Before(StartFailed);
    assert OPENING[..2] == Before(ReleasedAtOnce);
  }

  lemma CourseActive(c: Config, s: State, a: Action, marks: seq<Mark>)
    requires OnCourse(c, s.pc, marks) && WorkerStep(c, s, a).Some? && s.pc.Active?
    ensures var t := WorkerStep(c, s, a).value; OnCourse(c, t.pc, marks + MarkOf(a, t.status))
  {
    if !c.special {
      var n: nat :| marks == OPENING + Texts(n);
      match a {
        case SendText(ok) =>
          if ok {
            assert marks + [CalledSendText(true)] == OPENING + Texts(n + 1);
          } else {
            assert WithRequest(SendFailed(n)) && Possible(c, SendFailed(n));
            assert marks + MarkOf(a, s.status) == Before(SendFailed(n));
          }
        case StopCall =>
          assert WithRequest(Stopped(n)) && Possible(c, Stopped(n));
          assert marks + MarkOf(a, s.status) == Before(Stopped(n));
        case CancelCall =>
          assert WithRequest(Cancelled(n)) && Possible(c, Cancelled(n));
          assert marks + MarkOf(a, s.status) == Before(Cancelled(n));
        case _ =>
      }
    }
  }

  lemma CourseCloses(c: Config, s: State, a: Action, marks: seq<Mark>)
    requires OnCourse(c, s.pc, marks) && WorkerStep(c, s, a).Some?
    requires s.pc.WritingCancelled? || s.pc.Releasing? || s.pc.WritingReleased?
    ensures var t := WorkerStep(c, s, a).value; OnCourse(c, t.pc, marks + MarkOf(a, t.status))
  {
    match s.pc {
      case WritingCancelled =>
        var x := CancelledAtOnce;
        assert WithRequest(x) && Possible(c, x) && marks + [Wrote(RequestCancelled)] == Before(x);
      case Releasing =>
        var x :| WithRequest(x) && Possible(c, x) && !x.ReleasedAtOnce? && marks == Before(x);
        assert marks + [CalledRelease] == Before(x) + [CalledRelease];
      case WritingReleased =>
        var x :| WithRequest(x) && Possible(c, x) && marks == Before(x) + [CalledRelease];
        assert marks + [Wrote(RequestReleased)] == Course(x);
    }
  }

  /** A worker that is between two rounds, or has left, has taken one of the possible courses. */
  lemma {:induction false} RoundsOnCourse(c: Config, schedule: seq<Action>)
    requires Run(c, schedule).Some?
    ensures OnCourse(c, Run(c, schedule).value.pc, Marks(c, schedule))
  {
    hide WorkerStep, CallbackStep, OnCourse, MarkOf;
    if schedule == [] {
      AtStart(c);
    } else {
      var n := |schedule| - 1;
      var s, a := Run(c, schedule[..n]).value, schedule[n];
      RoundsOnCourse(c, schedule[..n]);
      if a.Begin? || a.CallbackRead? || a.CallbackWrite? {
        CallbackLeavesCourse(c, s, a);
        assert Marks(c, schedule[..n]) + [] == Marks(c, schedule[..n]);
      } else {
        CourseStep(c, s, a, Marks(c, schedule[..n]));
      }
    }
  }

  lemma CourseStep(c: Config, s: State, a: Action, marks: seq<Mark>)
    requires OnCourse(c, s.pc, marks) && WorkerStep(c, s, a).Some?
    ensures var t := WorkerStep(c, s, a).value;
            OnCourse(c, t.pc, if a.Test? then [] else marks + MarkOf(a, t.status))
  {
    assert a.Test? ==> s.pc.WhileTest?;
    assert !s.pc.Exited?;
    hide WorkerStep, OnCourse, MarkOf;
    if s.pc.Created? {
      CourseCreated(c, s, a, marks);
    } else if s.pc.Active? {
      CourseActive(c, s, a, marks);
    } else if s.pc.WritingCancelled? || s.pc.Releasing? || s.pc.WritingReleased? {
      CourseCloses(c, s, a, marks);
    } else {
      CourseOpens(c, s, a, marks);
    }
  }

  lemma AtStart(c: Config)
    ensures OnCourse(c, INITIAL.pc, [])
  {}

  lemma CallbackLeavesCourse(c: Config, s: State, a: Action)
    requires CallbackStep(c, s, a).Some?
    ensures var t := CallbackStep(c, s, a).value; t.pc == s.pc && MarkOf(a, t.status) == []
  {
    hide MayBegin, Wrong;
  }

  lemma GoOn(c: Config, schedule: seq<Action>, s: State, a: Action) returns (schedule': seq<Action>, s': State)
    requires Reaches(c, schedule, s) && Step(c, s, a).Some?
    ensures Reaches(c, schedule', s') && Step(c, s, a) == Some(s')
    ensures Marks(c, schedule') == if a.Test? then [] else Marks(c, schedule) + MarkOf(a, s'.status)
  {
    hide Step, MarkOf;
    schedule', s' := schedule + [a], Step(c, s, a).value;
    assert schedule'[..|schedule|] == schedule;
  }

  /** The release of an undisturbed request. */
  lemma LetGo(c: Config, schedule: seq<Action>, s: State, x: Exit) returns (schedule': seq<Action>, s': State)
    requires Reaches(c, schedule, s) && s.callback.Idle? && (s.pc.Releasing? || s.pc.Created?)
    requires WithRequest(x) && Marks(c, schedule) == Before(x)
    ensures Reaches(c, schedule', s') && s'.pc.WhileTest? && s'.status.RequestReleased?
    ensures Marks(c, schedule') == Course(x)
  {
    hide Reaches, Marks, CallbackStep, Before;
    schedule', s' := GoOn(c, schedule, s, ReleaseCall);
    schedule', s' := GoOn(c, schedule', s', Write);
  }

  lemma NullTaken(c: Config, go: bool) returns (schedule: seq<Action>, s: State)
    ensures Reaches(c, schedule, s) && s.pc.Exited?
    ensures Marks(c, schedule) == Course(if go then NoRequest else Left)
  {
    if go {
      schedule := ToCreating(c);
      RoundsOnCourse(c, schedule);
      hide Reaches, Marks, CallbackStep;
      schedule, s := GoOn(c, schedule, INITIAL.(pc := Creating), CreateNull);
    } else {
      schedule := [];
      hide Marks, CallbackStep;
      schedule, s := GoOn(c, schedule, INITIAL, Test(false));
    }
  }

  lemma MarksAtCreated(c: Config) returns (schedule: seq<Action>)
    ensures Reaches(c, schedule, CREATED) && Marks(c, schedule) == OPENING[..2]
  {
    schedule := ToCreated(c);
    RoundsOnCourse(c, schedule);
  }

  lemma UnstartedTaken(c: Config, tried: bool) returns (schedule: seq<Action>, s: State)
    ensures Reaches(c, schedule, s) && s.pc.WhileTest?
    ensures Marks(c, schedule) == Course(if tried then StartFailed else ReleasedAtOnce)
  {
    hide Reaches, Marks, CallbackStep;
    schedule := MarksAtCreated(c);
    s := CREATED;
    if tried {
      schedule, s := GoOn(c, schedule, CREATED, StartCall(false));
      assert OPENING[..2] + [CalledStart(false)] == Before(StartFailed);
    } else {
      assert OPENING[..2] == Before(ReleasedAtOnce);
    }
    hide WorkerStep, Course, Before;
    schedule, s := LetGo(c, schedule, s, if tried then StartFailed else ReleasedAtOnce);
  }

  lemma MarksAtActive(c: Config) returns (schedule: seq<Action>)
    ensures Reaches(c, schedule, ACTIVE) && Marks(c, schedule) == OPENING
  {
    hide Reaches, Marks, CallbackStep;
    var s := CREATED;
    schedule := MarksAtCreated(c);
    schedule, s := GoOn(c, schedule, s, StartCall(true));
    schedule, s := GoOn(c, schedule, s, Write);
    assert OPENING[..2] + [CalledStart(true)] + [Wrote(RequestStart)] == OPENING;
  }

  lemma {:induction false} TextsSent(c: Config, n: nat) returns (schedule: seq<Action>)
    requires !c.special
    ensures Reaches(c, schedule, ACTIVE) && Marks(c, schedule) == OPENING + Texts(n)
  {
    hide Reaches, Marks, CallbackStep;
    if n == 0 {
      schedule := MarksAtActive(c);
      assert OPENING + Texts(0) == OPENING;
    } else {
      var s;
      schedule := TextsSent(c, n - 1);
      schedule, s := GoOn(c, schedule, ACTIVE, SendText(true));
      assert OPENING + Texts(n - 1) + [CalledSendText(true)] == OPENING + Texts(n);
    }
  }

  lemma SentTaken(c: Config, x: Exit) returns (schedule: seq<Action>, s: State)
    requires !c.special && (x.SendFailed? || x.Stopped? || x.Cancelled?)
    ensures Reaches(c, schedule, s) && s.pc.WhileTest? && Marks(c, schedule) == Course(x)
  {
    hide Reaches, Marks, CallbackStep, Course;
    schedule := TextsSent(c, x.sent);
    schedule, s := GoOn(c, schedule, ACTIVE,
                        if x.SendFailed? then SendText(false) else if x.Stopped? then StopCall else CancelCall);
    schedule, s := LetGo(c, schedule, s, x);
  }

  lemma CancelTaken(c: Config) returns (schedule: seq<Action>, s: State)
    requires c.special
    ensures Reaches(c, schedule, s) && s.pc.WhileTest? && Marks(c, schedule) == Course(CancelledAtOnce)
  {
    hide Reaches, Marks, CallbackStep, Course;
    schedule := MarksAtActive(c);
    schedule, s := GoOn(c, schedule, ACTIVE, CancelCall);
    schedule, s := GoOn(c, schedule, s, Write);
    assert OPENING + [CalledCancel] + [Wrote(RequestCancelled)] == Before(CancelledAtOnce);
    schedule, s := LetGo(c, schedule, s, CancelledAtOnce);
  }

  /** Each possible course can be taken, and between rounds a worker has taken one of them. */
  lemma CoursesExactly(c: Config, marks: seq<Mark>)
    ensures (exists schedule, s ::
               Reaches(c, schedule, s) && (s.pc.WhileTest? || s.pc.Exited?) && Marks(c, schedule) == marks)
            <==> exists x :: Possible(c, x) && marks == Course(x)
  {
    if schedule, s :| Reaches(c, schedule, s) && (s.pc.WhileTest? || s.pc.Exited?) && Marks(c, schedule) == marks {
      RoundsOnCourse(c, schedule);
      assert Possible(c, Left) && Possible(c, NoRequest);
      assert marks == [] ==> marks == Course(Left);
    }
    hide Reaches, Marks, OnCourse, Course;
    if x :| Possible(c, x) && marks == Course(x) {
      match x {
        case Left => var schedule, s := NullTaken(c, false);
        case NoRequest => var schedule, s := NullTaken(c, true);
        case ReleasedAtOnce => var schedule, s := UnstartedTaken(c, false);
        case StartFailed => var schedule, s := UnstartedTaken(c, true);
        case CancelledAtOnce => var schedule, s := CancelTaken(c);
        case _ => var schedule, s := SentTaken(c, x);
      }
    }
  }

  // ---- The exact contracts ----

  /** No callback finds a wrong status, in any interleaving. */
  ghost predicate Legal(c: Config) {
    forall schedule: seq<Action>, s: State | Reaches(c, schedule, s) :: s.callbackMessages == 0
  }

  /** Every round begins on the status Invalid or Released. */
  ghost predicate LegalHead(c: Config) {
    forall schedule: seq<Action>, s: State | Reaches(c, schedule, s) :: s.workerMessages == 0
  }

  lemma LegalExactly(c: Config)
    ensures Legal(c) <==> Proper(c)
  {
    if Proper(c) {
      forall schedule: seq<Action>, s: State | Reaches(c, schedule, s) ensures s.callbackMessages == 0 {
        CallbacksSilent(c, schedule);
      }
    } else if !c.callbacksAfterStart {
      var schedule, s := EarlyCallback(c);
    } else if c.special {
      var schedule, s := CallbackAfterCancel(c);
    } else {
      var schedule, s := CallbackAfterRelease(c);
    }
  }

  lemma LegalHeadExactly(c: Config)
    ensures LegalHead(c) <==> Contained(c)
  {
    if Contained(c) {
      forall schedule: seq<Action>, s: State | Reaches(c, schedule, s) ensures s.workerMessages == 0 {
        HeadSilent(c, schedule);
      }
    } else {
      var schedule, s := HeadComplains(c);
    }
  }
}
