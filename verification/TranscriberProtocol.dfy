/**
 The worker threads of demo/Linux/funAsrTranscriberDemo.cpp and the callbacks of their requests, as
 interleaved atomic steps.  Worker and callbacks meet on a mutex and a condition variable that has
 no predicate: a signal that is sent while the worker does not wait is lost.
 */
module TranscriberProtocol {
  import opened Basics

  // ---- States ----

  /**
   `sync`: `g_sync_timeout` is positive, so the worker does not wait for callbacks.
   `spurious`: `pthread_cond_timedwait` may return without a signal and without a timeout.
   `late`: a callback that is running does not keep its request from being released.
   */
  datatype Config = Config(sync: bool, loopCount: int, spurious: bool, late: bool)

  /** The two wait sections of a round. */
  datatype Section = ForStarted | ForClosed

  datatype Signal = StartedSignal | ClosedSignal

  /** What became of a signal of the current round. */
  datatype Fate = Unfired | Lost | Woke(section: Section)

  /** Why the request of a round is released. */
  datatype How = StartFailed | StartTimedOut | StopTimedOut | StopFailed | StopWoken | StopSync

  datatype Pc =
    | LoopHead
    | ReadyToStart
    | BeforeLock(section: Section)
    | BeforeWait(section: Section)
    | Waiting(section: Section)
    | Waking(section: Section, timedOut: bool)
    | Returned(section: Section, timedOut: bool)
    | Cancelling
    | Sending
    | Releasing(how: How)
    | CountTest
    | TimeoutTest
    | WhileTest
    | Exited(nullRequest: bool)

  datatype Owner = Free | ByWorker | ByCallback

  /** A signalling callback of request `id`: before the lock, holding it, and after the signal. */
  datatype Callback =
    | Idle
    | Entering(signal: Signal, id: nat)
    | Holding(signal: Signal, id: nat)
    | Signalled(signal: Signal, id: nat)

  /** Calls on a request; `Inspect` stands for `getTaskId` and `dumpAllInfo`. */
  datatype Call =
    | Create(id: nat)
    | Start(id: nat)
    | Inspect(id: nat)
    | Cancel(id: nat)
    | Send(id: nat)
    | Stop(id: nat)
    | Release(id: nat)

  datatype Worker = Worker(
    pc: Pc,
    owner: Owner,
    callback: Callback,
    live: Option<nat>,
    created: nat,
    startedFate: Fate,
    closedFate: Fate,
    log: seq<Call>,
    requestConsumed: nat,
    starts: nat,
    startFailed: nat,
    cancels: nat,
    stops: nat,
    timedOut: nat,
    lateTimedOut: nat)

  const FRESH_WORKER: Worker :=
    Worker(LoopHead, Free, Idle, None, 0, Unfired, Unfired, [], 0, 0, 0, 0, 0, 0, 0)

  // ---- Steps ----

  datatype Action =
    | CreateNull
    | CreateRequest
    | StartCall(ok: bool)
    | TakeLock
    | BeginWait
    | TimeOut
    | WakeUnsignalled
    | Reacquire
    | Unlock
    | CancelCall
    | SendCall
    | StopCall(ok: bool)
    | ReleaseCall
    | Test
    | CallbackBegin(signal: Signal)
    | CallbackLock
    | CallbackSignal
    | CallbackUnlock
    | StopRunning

  /** A worker and `global_run`. */
  datatype Local = Local(worker: Worker, run: bool)

  /** `start()` has succeeded for the request of the round, and it is not released yet. */
  predicate StartSucceeded(pc: Pc) {
    InSection(pc) || pc.Cancelling? || pc.Sending? || (pc.Releasing? && pc.how != StartFailed)
  }

  predicate InSection(pc: Pc) {
    pc.BeforeLock? || pc.BeforeWait? || pc.Waiting? || pc.Waking? || pc.Returned?
  }

  /**
   The signals arrive at most once each, and Started not after Closed.  A worker has one callback
   under way at a time, of whichever of its requests.
   */
  predicate MayBegin(w: Worker, signal: Signal) {
    && w.callback.Idle? && w.live.Some? && StartSucceeded(w.pc) && w.closedFate.Unfired?
    && (signal.StartedSignal? ==> w.startedFate.Unfired?)
  }

  /** This round has timed out although the worker has already made `loop_count` starts. */
  function CountTimeout(cfg: Config, w: Worker): Worker {
    w.(timedOut := w.timedOut + 1,
       lateTimedOut := w.lateTimedOut + if cfg.loopCount > 0 && w.starts >= cfg.loopCount then 1 else 0)
  }

  function WorkerStep(cfg: Config, w: Worker, run: bool, a: Action): Option<Local> {
    match (w.pc, a)
    case (LoopHead, CreateNull) =>
      Some(Local(w.(pc := Exited(true), requestConsumed := w.requestConsumed + 1), run))
    case (LoopHead, CreateRequest) =>
      Some(Local(w.(pc := ReadyToStart, requestConsumed := w.requestConsumed + 1,
                    live := Some(w.created), created := w.created + 1,
                    startedFate := Unfired, closedFate := Unfired, log := w.log + [Create(w.created)]), run))
    case (ReadyToStart, StartCall(ok)) =>
      if w.live.None? then None
      else
        var id := w.live.value;
        var v := w.(starts := w.starts + 1, log := w.log + [Start(id)]);
        if !ok then Some(Local(v.(pc := Releasing(StartFailed), startFailed := v.startFailed + 1), run))
        else Some(Local(v.(pc := if cfg.sync then Sending else BeforeLock(ForStarted)), run))
    case (BeforeLock(section), TakeLock) =>
      if w.owner.Free? then Some(Local(w.(pc := BeforeWait(section), owner := ByWorker), run)) else None
    case (BeforeWait(section), BeginWait) =>
      Some(Local(w.(pc := Waiting(section), owner := Free), run))
    case (Waiting(section), TimeOut) =>
      Some(Local(w.(pc := Waking(section, true)), run))
    case (Waiting(section), WakeUnsignalled) =>
      if cfg.spurious then Some(Local(w.(pc := Waking(section, false)), run)) else None
    case (Waking(section, timedOut), Reacquire) =>
      if w.owner.Free? then Some(Local(w.(pc := Returned(section, timedOut), owner := ByWorker), run)) else None
    case (Returned(section, timedOut), Unlock) =>
      if w.live.None? then None
      else
        var v := (if timedOut then CountTimeout(cfg, w) else w).(owner := Free);
        if section == ForStarted then
          Some(Local(v.(log := w.log + [Inspect(w.live.value)], pc := if timedOut then Cancelling else Sending), run))
        else Some(Local(v.(pc := Releasing(if timedOut then StopTimedOut else StopWoken)), run))
    case (Cancelling, CancelCall) =>
      if w.live.None? then None
      else Some(Local(w.(pc := Releasing(StartTimedOut), cancels := w.cancels + 1,
                         log := w.log + [Cancel(w.live.value)]), run))
    case (Sending, SendCall) =>
      if w.live.None? then None
      else Some(Local(w.(log := w.log + [Send(w.live.value)]), run))
    case (Sending, StopCall(ok)) =>
      if w.live.None? then None
      else
        Some(Local(w.(stops := w.stops + 1, log := w.log + [Stop(w.live.value)],
                      pc := if !ok then Releasing(StopFailed)
                            else if cfg.sync then Releasing(StopSync) else BeforeLock(ForClosed)), run))
    case (Releasing(how), ReleaseCall) =>
      if w.live.None? || (!w.callback.Idle? && !cfg.late) then None
      else
        Some(Local(w.(live := None, log := w.log + [Inspect(w.live.value), Release(w.live.value)],
                      pc := match how
                            case StartFailed => Exited(false)
                            case StartTimedOut => TimeoutTest
                            case StopTimedOut => TimeoutTest
                            case _ => CountTest), run))
    case (CountTest, Test) =>
      Some(Local(w.(pc := WhileTest), run && !(cfg.loopCount > 0 && w.starts >= cfg.loopCount)))
    case (TimeoutTest, Test) => Some(Local(w.(pc := if run then WhileTest else Exited(false)), run))
    case (WhileTest, Test) => Some(Local(w.(pc := if run then LoopHead else Exited(false)), run))
    case _ => None
  }

  function CallbackStep(w: Worker, a: Action): Option<Worker> {
    match (w.callback, a)
    case (Idle, CallbackBegin(signal)) =>
      if MayBegin(w, signal) then Some(w.(callback := Entering(signal, w.live.value))) else None
    case (Entering(signal, id), CallbackLock) =>
      if w.owner.Free? then Some(w.(owner := ByCallback, callback := Holding(signal, id))) else None
    case (Holding(signal, id), CallbackSignal) =>
      var fate := if w.pc.Waiting? then Woke(w.pc.section) else Lost;
      var v := w.(callback := Signalled(signal, id),
                  pc := if w.pc.Waiting? then Waking(w.pc.section, false) else w.pc);
      if w.live != Some(id) then Some(v)
      else if signal.StartedSignal? then Some(v.(startedFate := fate))
      else Some(v.(closedFate := fate))
    case (Signalled(_, _), CallbackUnlock) => Some(w.(owner := Free, callback := Idle))
    case _ => None
  }

  function Step(cfg: Config, w: Worker, run: bool, a: Action): Option<Local> {
    match a
    case StopRunning => Some(Local(w, false))
    case CallbackBegin(_) | CallbackLock | CallbackSignal | CallbackUnlock =>
      var v := CallbackStep(w, a);
      if v.None? then None else Some(Local(v.value, run))
    case _ => WorkerStep(cfg, w, run, a)
  }

  /** All workers, `global_run`, and the counters they share. */
  datatype System = System(workers: seq<Worker>, run: bool, runCnt: nat, runStartFailed: nat, runCancel: nat)

  datatype Move = Move(worker: nat, action: Action)

  function SystemStep(cfg: Config, s: System, m: Move): Option<System> {
    if m.worker >= |s.workers| then None
    else
      match Step(cfg, s.workers[m.worker], s.run, m.action)
      case None => None
      case Some(Local(w, run)) =>
        Some(System(
          s.workers[m.worker := w], run,
          s.runCnt + (if m.action.StartCall? then 1 else 0),
          s.runStartFailed + (if m.action.StartCall? && !m.action.ok then 1 else 0),
          s.runCancel + (if m.action.CancelCall? then 1 else 0)))
  }

  /** `cancelled`: what an earlier scan pass left in `run_cancel`. */
  function Initial(threads: nat, cancelled: nat): System {
    System(seq(threads, _ => FRESH_WORKER), true, 0, 0, cancelled)
  }

  function Run(cfg: Config, s: System, schedule: seq<Move>): Option<System> {
    if schedule == [] then Some(s)
    else
      match Run(cfg, s, schedule[..|schedule| - 1])
      case None => None
      case Some(t) => SystemStep(cfg, t, schedule[|schedule| - 1])
  }

  // ---- Mutex ----

  ghost predicate MutexInv(w: Worker) {
    && (w.owner.ByWorker? <==> w.pc.BeforeWait? || w.pc.Returned?)
    && (w.owner.ByCallback? <==> w.callback.Holding? || w.callback.Signalled?)
  }

  lemma MutexWorkerStep(cfg: Config, w: Worker, run: bool, a: Action)
    requires MutexInv(w) && WorkerStep(cfg, w, run, a).Some?
    ensures MutexInv(WorkerStep(cfg, w, run, a).value.worker)
  {}

  lemma MutexCallbackStep(w: Worker, a: Action)
    requires MutexInv(w) && CallbackStep(w, a).Some?
    ensures MutexInv(CallbackStep(w, a).value)
  {
    hide MayBegin;
  }

  // ---- Lifecycle of the requests ----

  predicate HasRequest(pc: Pc) {
    StartSucceeded(pc) || pc.ReadyToStart? || pc == Releasing(StartFailed)
  }

  datatype LogState = LogState(live: Option<nat>, created: nat)

  /** What one call does to the set of requests; `None` if the call is illegal. */
  function Apply(st: LogState, c: Call): Option<LogState> {
    match c
    case Create(id) =>
      if st.live.None? && id == st.created then Some(LogState(Some(id), st.created + 1)) else None
    case Release(id) => if st.live == Some(id) then Some(LogState(None, st.created)) else None
    case _ => if st.live == Some(c.id) then Some(st) else None
  }

  function Replay(log: seq<Call>): Option<LogState> {
    if log == [] then Some(LogState(None, 0))
    else
      match Replay(log[..|log| - 1])
      case None => None
      case Some(st) => Apply(st, log[|log| - 1])
  }

  ghost predicate LogInv(w: Worker) {
    && (w.live.Some? <==> HasRequest(w.pc))
    && Replay(w.log) == Some(LogState(w.live, w.created))
    && (w.live.Some? ==> w.created == w.live.value + 1)
  }

  lemma ReplaySnoc(log: seq<Call>, c: Call)
    ensures Replay(log + [c]) == if Replay(log).None? then None else Apply(Replay(log).value, c)
  {
    assert (log + [c])[..|log|] == log;
  }

  /** A step appends at most two calls to the log. */
  lemma LogWorkerStep(cfg: Config, w: Worker, run: bool, a: Action)
    requires LogInv(w) && WorkerStep(cfg, w, run, a).Some?
    ensures LogInv(WorkerStep(cfg, w, run, a).value.worker)
  {
    hide Replay, MayBegin;
    if w.live.None? {
      ReplaySnoc(w.log, Create(w.created));
    } else {
      var id := w.live.value;
      match a {
        case StartCall(_) => ReplaySnoc(w.log, Start(id));
        case Unlock => ReplaySnoc(w.log, Inspect(id));
        case CancelCall => ReplaySnoc(w.log, Cancel(id));
        case SendCall => ReplaySnoc(w.log, Send(id));
        case StopCall(_) => ReplaySnoc(w.log, Stop(id));
        case ReleaseCall =>
          ReplaySnoc(w.log, Inspect(id));
          ReplaySnoc(w.log + [Inspect(id)], Release(id));
          assert w.log + [Inspect(id)] + [Release(id)] == w.log + [Inspect(id), Release(id)];
        case _ =>
      }
    }
  }

  lemma LogCallbackStep(w: Worker, a: Action)
    requires LogInv(w) && CallbackStep(w, a).Some?
    ensures LogInv(CallbackStep(w, a).value)
  {
    hide Replay, MayBegin;
  }

  // ---- Counters of one worker ----

  /** A start has succeeded, and neither `cancel()` nor `stop()` has been called for it yet. */
  function InFlight(pc: Pc): nat {
    if pc.Cancelling? || pc.Sending? || (InSection(pc) && pc.section == ForStarted) then 1 else 0
  }

  ghost predicate CountInv(w: Worker) {
    && w.starts == w.startFailed + w.cancels + w.stops + InFlight(w.pc)
    && w.requestConsumed == w.starts + if w.pc.ReadyToStart? || w.pc == Exited(true) then 1 else 0
  }

  lemma CountWorkerStep(cfg: Config, w: Worker, run: bool, a: Action)
    requires CountInv(w) && WorkerStep(cfg, w, run, a).Some?
    ensures CountInv(WorkerStep(cfg, w, run, a).value.worker)
  {
    hide MayBegin;
  }

  lemma CountCallbackStep(w: Worker, a: Action)
    requires CountInv(w) && CallbackStep(w, a).Some?
    ensures CountInv(CallbackStep(w, a).value)
  {
    hide MayBegin;
  }

  // ---- The number of starts ----

  ghost predicate BoundInv(cfg: Config, w: Worker, run: bool) {
    && w.lateTimedOut <= w.timedOut
    && (cfg.loopCount > 0 ==>
         match w.pc
         case LoopHead | ReadyToStart | TimeoutTest => w.starts < cfg.loopCount + w.lateTimedOut
         case WhileTest =>
           w.starts <= cfg.loopCount + w.lateTimedOut && (run ==> w.starts < cfg.loopCount + w.lateTimedOut)
         case Cancelling | Releasing(StartTimedOut) | Releasing(StopTimedOut) =>
           w.starts < cfg.loopCount + w.lateTimedOut
         case _ => w.starts <= cfg.loopCount + w.lateTimedOut)
  }

  lemma BoundWorkerStep(cfg: Config, w: Worker, run: bool, a: Action)
    requires BoundInv(cfg, w, run) && WorkerStep(cfg, w, run, a).Some?
    ensures BoundInv(cfg, WorkerStep(cfg, w, run, a).value.worker, WorkerStep(cfg, w, run, a).value.run)
  {}

  lemma BoundCallbackStep(cfg: Config, w: Worker, run: bool, a: Action)
    requires BoundInv(cfg, w, run) && CallbackStep(w, a).Some?
    ensures BoundInv(cfg, CallbackStep(w, a).value, run)
  {
    hide MayBegin;
  }

  /** Other workers and signal handlers only ever reset `global_run`. */
  lemma BoundStopped(cfg: Config, w: Worker, run: bool)
    requires BoundInv(cfg, w, run)
    ensures BoundInv(cfg, w, false)
  {}

  lemma RunStays(cfg: Config, w: Worker, run: bool, a: Action)
    requires Step(cfg, w, run, a).Some?
    ensures Step(cfg, w, run, a).value.run ==> run
  {
    hide CallbackStep;
  }

  // ---- The signals of a round ----

  function Wakes(w: Worker, section: Section): nat {
    (if w.startedFate == Woke(section) then 1 else 0) + if w.closedFate == Woke(section) then 1 else 0
  }

  /** The start wait of the round has been ended by a signal. */
  predicate StartWaitWoken(pc: Pc) {
    || pc.Sending?
    || (InSection(pc) && pc.section == ForClosed)
    || ((pc.Waking? || pc.Returned?) && !pc.timedOut)
    || (pc.Releasing? && (pc.how == StopTimedOut || pc.how == StopFailed || pc.how == StopWoken))
  }

  predicate StopWaitWoken(pc: Pc) {
    pc == Waking(ForClosed, false) || pc == Returned(ForClosed, false) || pc == Releasing(StopWoken)
  }

  ghost predicate SignalInv(w: Worker) {
    && (!w.callback.Idle? ==> w.live == Some(w.callback.id))
    && (w.live.None? ==> w.callback.Idle?)
    && (w.callback.Entering? || w.callback.Holding? ==>
         w.closedFate.Unfired? && (w.callback.signal.StartedSignal? ==> w.startedFate.Unfired?))
    && (HasRequest(w.pc) ==>
         && Wakes(w, ForStarted) == (if StartWaitWoken(w.pc) then 1 else 0)
         && Wakes(w, ForClosed) == (if StopWaitWoken(w.pc) then 1 else 0))
    && (w.startedFate == Woke(ForClosed) ==> w.closedFate != Woke(ForStarted))
    && (w.closedFate == Woke(ForStarted) ==> !w.startedFate.Woke?)
  }

  /** The assumptions under which the waits mean what they are written for. */
  predicate WellBehaved(cfg: Config) {
    !cfg.sync && !cfg.spurious && !cfg.late
  }

  /** What a step of the worker leaves as it was, as far as the signals are concerned. */
  lemma SignalFrame(cfg: Config, w: Worker, run: bool, a: Action)
    requires WellBehaved(cfg) && WorkerStep(cfg, w, run, a).Some?
    ensures var v := WorkerStep(cfg, w, run, a).value.worker;
            && v.callback == w.callback
            && (a.CreateRequest? ==> w.pc.LoopHead? && v.startedFate == v.closedFate == Unfired && v.pc.ReadyToStart?)
            && (!a.CreateRequest? ==>
                 && v.startedFate == w.startedFate && v.closedFate == w.closedFate
                 && v.live == (if a.ReleaseCall? then None else w.live)
                 && (a.ReleaseCall? ==> w.callback.Idle?)
                 && (HasRequest(v.pc) ==>
                      && HasRequest(w.pc)
                      && StartWaitWoken(v.pc) == StartWaitWoken(w.pc)
                      && StopWaitWoken(v.pc) == StopWaitWoken(w.pc)))
  {
    hide MayBegin;
  }

  lemma SignalWorkerStep(cfg: Config, w: Worker, run: bool, a: Action)
    requires WellBehaved(cfg) && LogInv(w) && SignalInv(w) && WorkerStep(cfg, w, run, a).Some?
    ensures SignalInv(WorkerStep(cfg, w, run, a).value.worker)
  {
    SignalFrame(cfg, w, run, a);
    hide WorkerStep, HasRequest, StartWaitWoken, StopWaitWoken, Replay;
    assert a.CreateRequest? ==> w.callback.Idle? by { LoopHeadIdle(w); }
    if a.CreateRequest? { NotWoken(WorkerStep(cfg, w, run, a).value.worker.pc); }
  }

  lemma LoopHeadIdle(w: Worker)
    requires LogInv(w) && SignalInv(w)
    ensures w.pc.LoopHead? ==> w.callback.Idle?
  {
    hide Replay;
  }

  lemma NotWoken(pc: Pc)
    requires pc.ReadyToStart?
    ensures !StartWaitWoken(pc) && !StopWaitWoken(pc)
  {}

  lemma SignalCallbackStep(w: Worker, a: Action)
    requires LogInv(w) && SignalInv(w) && CallbackStep(w, a).Some?
    ensures SignalInv(CallbackStep(w, a).value)
  {
    hide Replay;
  }

  // ---- Invariants of every run ----

  ghost predicate WorkerInv(cfg: Config, w: Worker, run: bool) {
    && MutexInv(w) && LogInv(w) && CountInv(w) && BoundInv(cfg, w, run)
    && (WellBehaved(cfg) ==> SignalInv(w))
  }

  lemma WorkerInvStep(cfg: Config, w: Worker, run: bool, a: Action)
    requires WorkerInv(cfg, w, run) && Step(cfg, w, run, a).Some?
    ensures var n := Step(cfg, w, run, a).value; WorkerInv(cfg, n.worker, n.run) && (n.run ==> run)
  {
    hide MutexInv, LogInv, CountInv, BoundInv, SignalInv, WorkerStep, CallbackStep;
    RunStays(cfg, w, run, a);
    BoundStopped(cfg, w, run);
    if CallbackStep(w, a).Some? {
      MutexCallbackStep(w, a);
      LogCallbackStep(w, a);
      CountCallbackStep(w, a);
      BoundCallbackStep(cfg, w, run, a);
      if WellBehaved(cfg) { SignalCallbackStep(w, a); }
    }
    if WorkerStep(cfg, w, run, a).Some? {
      MutexWorkerStep(cfg, w, run, a);
      LogWorkerStep(cfg, w, run, a);
      CountWorkerStep(cfg, w, run, a);
      BoundWorkerStep(cfg, w, run, a);
      if WellBehaved(cfg) { SignalWorkerStep(cfg, w, run, a); }
    }
  }

  lemma FreshLogInv()
    ensures LogInv(FRESH_WORKER)
  {}

  lemma NoRequestAtHead()
    ensures !HasRequest(LoopHead)
  {}

  lemma FreshSignalInv()
    ensures SignalInv(FRESH_WORKER)
  {
    hide HasRequest;
    assert !HasRequest(LoopHead) by { NoRequestAtHead(); }
  }

  lemma FreshCountInv()
    ensures CountInv(FRESH_WORKER)
  {}

  lemma FreshBoundInv(cfg: Config, run: bool)
    ensures BoundInv(cfg, FRESH_WORKER, run)
  {}

  lemma FreshMutexInv()
    ensures MutexInv(FRESH_WORKER)
  {}

  lemma FreshWorkerInv(cfg: Config, run: bool)
    ensures WorkerInv(cfg, FRESH_WORKER, run)
  {
    FreshLogInv();
    FreshSignalInv();
    FreshCountInv();
    FreshBoundInv(cfg, run);
    hide MutexInv, LogInv, SignalInv, CountInv, BoundInv;
    FreshMutexInv();
  }

  datatype Counter = Starts | StartFailures | Cancels | Stops | Flying

  function Get(w: Worker, c: Counter): nat {
    match c
    case Starts => w.starts
    case StartFailures => w.startFailed
    case Cancels => w.cancels
    case Stops => w.stops
    case Flying => InFlight(w.pc)
  }

  function Total(ws: seq<Worker>, c: Counter): nat {
    if ws == [] then 0 else Get(ws[0], c) + Total(ws[1..], c)
  }

  lemma {:induction false} TotalUpdate(ws: seq<Worker>, i: nat, w: Worker, c: Counter)
    requires i < |ws|
    ensures Total(ws[i := w], c) + Get(ws[i], c) == Total(ws, c) + Get(w, c)
  {
    hide Get;
    if i == 0 {
      assert ws[0 := w][1..] == ws[1..];
    } else {
      TotalUpdate(ws[1..], i - 1, w, c);
      assert ws[i := w][1..] == ws[1..][i - 1 := w];
    }
  }

  lemma {:induction false} TotalFresh(ws: seq<Worker>, c: Counter)
    requires forall i | 0 <= i < |ws| :: ws[i] == FRESH_WORKER
    ensures Total(ws, c) == 0
  {
    if ws == [] {
    } else {
      TotalFresh(ws[1..], c);
    }
  }

  lemma {:induction false} TotalBalance(ws: seq<Worker>)
    requires forall i | 0 <= i < |ws| :: CountInv(ws[i])
    ensures Total(ws, Starts) ==
            Total(ws, StartFailures) + Total(ws, Cancels) + Total(ws, Stops) + Total(ws, Flying)
  {
    if ws == [] {
    } else {
      TotalBalance(ws[1..]);
    }
  }

  lemma SharedCounters(cfg: Config, w: Worker, run: bool, a: Action)
    requires Step(cfg, w, run, a).Some?
    ensures var v := Step(cfg, w, run, a).value.worker;
            && v.starts == w.starts + (if a.StartCall? then 1 else 0)
            && v.startFailed == w.startFailed + (if a.StartCall? && !a.ok then 1 else 0)
            && v.cancels == w.cancels + (if a.CancelCall? then 1 else 0)
  {
    hide MayBegin;
  }

  ghost predicate SystemInv(cfg: Config, s: System, threads: nat, cancelled: nat) {
    && |s.workers| == threads
    && (forall i | 0 <= i < threads :: WorkerInv(cfg, s.workers[i], s.run))
    && s.runCnt == Total(s.workers, Starts)
    && s.runStartFailed == Total(s.workers, StartFailures)
    && s.runCancel == cancelled + Total(s.workers, Cancels)
  }

  lemma SystemInvStep(cfg: Config, s: System, m: Move, threads: nat, cancelled: nat)
    requires SystemInv(cfg, s, threads, cancelled) && SystemStep(cfg, s, m).Some?
    ensures SystemInv(cfg, SystemStep(cfg, s, m).value, threads, cancelled)
  {
    hide Step, MutexInv, LogInv, CountInv, SignalInv;
    var w := s.workers[m.worker];
    var Local(v, run) := Step(cfg, w, s.run, m.action).value;
    WorkerInvStep(cfg, w, s.run, m.action);
    SharedCounters(cfg, w, s.run, m.action);
    TotalUpdate(s.workers, m.worker, v, Starts);
    TotalUpdate(s.workers, m.worker, v, StartFailures);
    TotalUpdate(s.workers, m.worker, v, Cancels);
  }

  lemma {:induction false} RunInv(cfg: Config, threads: nat, cancelled: nat, schedule: seq<Move>)
    requires Run(cfg, Initial(threads, cancelled), schedule).Some?
    ensures SystemInv(cfg, Run(cfg, Initial(threads, cancelled), schedule).value, threads, cancelled)
  {
    hide SystemStep, WorkerInv;
    var s0 := Initial(threads, cancelled);
    if schedule == [] {
      FreshWorkerInv(cfg, true);
      TotalFresh(s0.workers, Starts);
      TotalFresh(s0.workers, StartFailures);
      TotalFresh(s0.workers, Cancels);
    } else {
      var init := schedule[..|schedule| - 1];
      RunInv(cfg, threads, cancelled, init);
      SystemInvStep(cfg, Run(cfg, s0, init).value, schedule[|schedule| - 1], threads, cancelled);
    }
  }
}
