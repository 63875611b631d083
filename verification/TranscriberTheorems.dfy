/** What holds in every interleaving of the transcriber workers and their callbacks. */
module TranscriberTheorems {
  import opened Basics
  import opened TranscriberProtocol

  /** The state after a schedule, started with `threads` workers. */
  ghost predicate Reaches(cfg: Config, threads: nat, cancelled: nat, schedule: seq<Move>, s: System) {
    Run(cfg, Initial(threads, cancelled), schedule) == Some(s)
  }

  // ---- Runs, step by step ----

  lemma RunSnoc(cfg: Config, s0: System, schedule: seq<Move>, m: Move)
    ensures Run(cfg, s0, schedule + [m]) ==
            if Run(cfg, s0, schedule).None? then None else SystemStep(cfg, Run(cfg, s0, schedule).value, m)
  {
    assert (schedule + [m])[..|schedule|] == schedule;
  }

  /** One more step of worker 0. */
  lemma Go(cfg: Config, threads: nat, cancelled: nat, schedule: seq<Move>, s: System, a: Action)
    returns (schedule': seq<Move>, s': System)
    requires threads > 0 && |s.workers| == threads && Reaches(cfg, threads, cancelled, schedule, s)
    requires Step(cfg, s.workers[0], s.run, a).Some?
    ensures Reaches(cfg, threads, cancelled, schedule', s') && |s'.workers| == threads
    ensures Local(s'.workers[0], s'.run) == Step(cfg, s.workers[0], s.run, a).value
  {
    hide Step, Run;
    schedule' := schedule + [Move(0, a)];
    RunSnoc(cfg, Initial(threads, cancelled), schedule, Move(0, a));
    s' := SystemStep(cfg, s, Move(0, a)).value;
  }

  predicate OfCallback(a: Action) {
    a.CallbackBegin? || a.CallbackLock? || a.CallbackSignal? || a.CallbackUnlock?
  }

  lemma GoWorker(cfg: Config, threads: nat, cancelled: nat, schedule: seq<Move>, s: System, a: Action)
    returns (schedule': seq<Move>, s': System)
    requires threads > 0 && |s.workers| == threads && Reaches(cfg, threads, cancelled, schedule, s)
    requires !OfCallback(a) && !a.StopRunning? && WorkerStep(cfg, s.workers[0], s.run, a).Some?
    ensures Reaches(cfg, threads, cancelled, schedule', s') && |s'.workers| == threads
    ensures Local(s'.workers[0], s'.run) == WorkerStep(cfg, s.workers[0], s.run, a).value
  {
    hide Reaches, WorkerStep, CallbackStep;
    schedule', s' := Go(cfg, threads, cancelled, schedule, s, a);
  }

  lemma GoCallback(cfg: Config, threads: nat, cancelled: nat, schedule: seq<Move>, s: System, a: Action)
    returns (schedule': seq<Move>, s': System)
    requires threads > 0 && |s.workers| == threads && Reaches(cfg, threads, cancelled, schedule, s)
    requires OfCallback(a) && CallbackStep(s.workers[0], a).Some?
    ensures Reaches(cfg, threads, cancelled, schedule', s') && |s'.workers| == threads
    ensures s'.workers[0] == CallbackStep(s.workers[0], a).value && s'.run == s.run
  {
    hide Reaches, WorkerStep, CallbackStep;
    schedule', s' := Go(cfg, threads, cancelled, schedule, s, a);
  }

  // ---- Release only after Closed ----

  /** The request of a round whose waits were not cut short is released only after its Closed signal. */
  ghost predicate ReleasesAfterClosed(cfg: Config, threads: nat, cancelled: nat) {
    forall schedule: seq<Move>, s: System, i: nat
      | Reaches(cfg, threads, cancelled, schedule, s) && i < |s.workers| ::
      s.workers[i].pc == Releasing(StopWoken) ==> s.workers[i].closedFate == Woke(ForClosed)
  }

  /**
   A round ends in a stop wait that a signal ended exactly when Started arrived during the start wait
   and Closed during the stop wait.
   */
  lemma WokenRoundExactly(cfg: Config, threads: nat, cancelled: nat, schedule: seq<Move>, s: System, i: nat)
    requires WellBehaved(cfg) && Reaches(cfg, threads, cancelled, schedule, s) && i < |s.workers|
    requires s.workers[i].pc.Releasing?
    ensures s.workers[i].pc.how == StopWoken <==>
            s.workers[i].startedFate == Woke(ForStarted) && s.workers[i].closedFate == Woke(ForClosed)
  {
    hide Run, Initial, LogInv, CountInv, BoundInv;
    RunInv(cfg, threads, cancelled, schedule);
  }

  /** The parts of a worker that decide what can happen next. */
  predicate At(w: Worker, pc: Pc, owner: Owner, callback: Callback, live: Option<nat>) {
    w.pc == pc && w.owner == owner && w.callback == callback && w.live == live
  }

  /** With spurious wakeups both waits can end without any signal. */
  lemma SpuriousWitness(cfg: Config, threads: nat, cancelled: nat) returns (schedule: seq<Move>, s: System)
    requires threads > 0 && !cfg.sync && cfg.spurious
    ensures Reaches(cfg, threads, cancelled, schedule, s) && |s.workers| == threads
    ensures s.workers[0].pc == Releasing(StopWoken) && s.workers[0].closedFate == Unfired
  {
    hide Reaches, CallbackStep, MayBegin;
    schedule, s := Begin(cfg, threads, cancelled);
    schedule, s := GoWorker(cfg, threads, cancelled, schedule, s, CreateRequest);
    schedule, s := GoWorker(cfg, threads, cancelled, schedule, s, StartCall(true));
    schedule, s := GoWorker(cfg, threads, cancelled, schedule, s, TakeLock);
    schedule, s := GoWorker(cfg, threads, cancelled, schedule, s, BeginWait);
    schedule, s := GoWorker(cfg, threads, cancelled, schedule, s, WakeUnsignalled);
    schedule, s := GoWorker(cfg, threads, cancelled, schedule, s, Reacquire);
    schedule, s := GoWorker(cfg, threads, cancelled, schedule, s, Unlock);
    schedule, s := GoWorker(cfg, threads, cancelled, schedule, s, StopCall(true));
    schedule, s := GoWorker(cfg, threads, cancelled, schedule, s, TakeLock);
    schedule, s := GoWorker(cfg, threads, cancelled, schedule, s, BeginWait);
    schedule, s := GoWorker(cfg, threads, cancelled, schedule, s, WakeUnsignalled);
    schedule, s := GoWorker(cfg, threads, cancelled, schedule, s, Reacquire);
    schedule, s := GoWorker(cfg, threads, cancelled, schedule, s, Unlock);
  }

  lemma Begin(cfg: Config, threads: nat, cancelled: nat) returns (schedule: seq<Move>, s: System)
    requires threads > 0
    ensures Reaches(cfg, threads, cancelled, schedule, s) && |s.workers| == threads
    ensures s.workers[0] == FRESH_WORKER && s.run
  {
    schedule, s := [], Initial(threads, cancelled);
  }

  /**
   A callback that outlives its request: the start wait times out and its request is released, the
   Started callback of that request then signals the next start wait, and the Started signal of
   the next request ends its stop wait.
   */
  lemma LateWitness(cfg: Config, threads: nat, cancelled: nat) returns (schedule: seq<Move>, s: System)
    requires threads > 0 && !cfg.sync && cfg.late
    ensures Reaches(cfg, threads, cancelled, schedule, s) && |s.workers| == threads
    ensures s.workers[0].pc == Releasing(StopWoken) && s.workers[0].closedFate == Unfired
  {
    hide Reaches, MayBegin;
    schedule, s := LateSecondSignal(cfg, threads, cancelled);
    schedule, s := GoCallback(cfg, threads, cancelled, schedule, s, CallbackSignal);
    schedule, s := GoCallback(cfg, threads, cancelled, schedule, s, CallbackUnlock);
    schedule, s := GoWorker(cfg, threads, cancelled, schedule, s, Reacquire);
    schedule, s := GoWorker(cfg, threads, cancelled, schedule, s, Unlock);
  }

  lemma LateSecondSignal(cfg: Config, threads: nat, cancelled: nat) returns (schedule: seq<Move>, s: System)
    requires threads > 0 && !cfg.sync && cfg.late
    ensures Reaches(cfg, threads, cancelled, schedule, s) && |s.workers| == threads
    ensures At(s.workers[0], Waiting(ForClosed), ByCallback, Holding(StartedSignal, 1), Some(1))
    ensures s.workers[0].closedFate == Unfired
  {
    hide Reaches, WorkerStep;
    schedule, s := LateStopWait(cfg, threads, cancelled);
    schedule, s := GoCallback(cfg, threads, cancelled, schedule, s, CallbackBegin(StartedSignal));
    schedule, s := GoCallback(cfg, threads, cancelled, schedule, s, CallbackLock);
  }

  lemma LateStopWait(cfg: Config, threads: nat, cancelled: nat) returns (schedule: seq<Move>, s: System)
    requires threads > 0 && !cfg.sync && cfg.late
    ensures Reaches(cfg, threads, cancelled, schedule, s) && |s.workers| == threads
    ensures At(s.workers[0], Waiting(ForClosed), Free, Idle, Some(1))
    ensures s.workers[0].startedFate == s.workers[0].closedFate == Unfired
  {
    hide Reaches, CallbackStep, MayBegin;
    schedule, s := LateWakeup(cfg, threads, cancelled);
    schedule, s := GoWorker(cfg, threads, cancelled, schedule, s, StopCall(true));
    schedule, s := GoWorker(cfg, threads, cancelled, schedule, s, TakeLock);
    schedule, s := GoWorker(cfg, threads, cancelled, schedule, s, BeginWait);
  }

  lemma LateWakeup(cfg: Config, threads: nat, cancelled: nat) returns (schedule: seq<Move>, s: System)
    requires threads > 0 && !cfg.sync && cfg.late
    ensures Reaches(cfg, threads, cancelled, schedule, s) && |s.workers| == threads
    ensures At(s.workers[0], Sending, Free, Idle, Some(1))
    ensures s.workers[0].startedFate == s.workers[0].closedFate == Unfired
  {
    hide Reaches, CallbackStep, MayBegin;
    schedule, s := LateSignal(cfg, threads, cancelled);
    schedule, s := GoWorker(cfg, threads, cancelled, schedule, s, Reacquire);
    schedule, s := GoWorker(cfg, threads, cancelled, schedule, s, Unlock);
  }

  lemma LateSignal(cfg: Config, threads: nat, cancelled: nat) returns (schedule: seq<Move>, s: System)
    requires threads > 0 && !cfg.sync && cfg.late
    ensures Reaches(cfg, threads, cancelled, schedule, s) && |s.workers| == threads
    ensures At(s.workers[0], Waking(ForStarted, false), Free, Idle, Some(1))
    ensures s.workers[0].startedFate == s.workers[0].closedFate == Unfired
  {
    hide Reaches, WorkerStep, MayBegin;
    schedule, s := LateSecondWait(cfg, threads, cancelled);
    schedule, s := GoCallback(cfg, threads, cancelled, schedule, s, CallbackLock);
    schedule, s := GoCallback(cfg, threads, cancelled, schedule, s, CallbackSignal);
    schedule, s := GoCallback(cfg, threads, cancelled, schedule, s, CallbackUnlock);
  }

  lemma LateSecondWait(cfg: Config, threads: nat, cancelled: nat) returns (schedule: seq<Move>, s: System)
    requires threads > 0 && !cfg.sync && cfg.late
    ensures Reaches(cfg, threads, cancelled, schedule, s) && |s.workers| == threads
    ensures At(s.workers[0], Waiting(ForStarted), Free, Entering(StartedSignal, 0), Some(1))
    ensures s.workers[0].startedFate == s.workers[0].closedFate == Unfired
  {
    hide Reaches, CallbackStep, MayBegin;
    schedule, s := LateSecondStart(cfg, threads, cancelled);
    schedule, s := GoWorker(cfg, threads, cancelled, schedule, s, TakeLock);
    schedule, s := GoWorker(cfg, threads, cancelled, schedule, s, BeginWait);
  }

  lemma LateSecondStart(cfg: Config, threads: nat, cancelled: nat) returns (schedule: seq<Move>, s: System)
    requires threads > 0 && !cfg.sync && cfg.late
    ensures Reaches(cfg, threads, cancelled, schedule, s) && |s.workers| == threads
    ensures At(s.workers[0], BeforeLock(ForStarted), Free, Entering(StartedSignal, 0), Some(1))
    ensures s.workers[0].startedFate == s.workers[0].closedFate == Unfired
  {
    hide Reaches, CallbackStep, MayBegin;
    schedule, s := LateCallback(cfg, threads, cancelled);
    schedule, s := GoWorker(cfg, threads, cancelled, schedule, s, CreateRequest);
    schedule, s := GoWorker(cfg, threads, cancelled, schedule, s, StartCall(true));
  }

  lemma LateCallback(cfg: Config, threads: nat, cancelled: nat) returns (schedule: seq<Move>, s: System)
    requires threads > 0 && !cfg.sync && cfg.late
    ensures Reaches(cfg, threads, cancelled, schedule, s) && |s.workers| == threads
    ensures At(s.workers[0], LoopHead, Free, Entering(StartedSignal, 0), None) && s.workers[0].created == 1
  {
    hide Reaches, CallbackStep, MayBegin;
    schedule, s := CallbackEnters(cfg, threads, cancelled);
    schedule, s := GoWorker(cfg, threads, cancelled, schedule, s, TimeOut);
    schedule, s := GoWorker(cfg, threads, cancelled, schedule, s, Reacquire);
    schedule, s := GoWorker(cfg, threads, cancelled, schedule, s, Unlock);
    schedule, s := GoWorker(cfg, threads, cancelled, schedule, s, CancelCall);
    schedule, s := GoWorker(cfg, threads, cancelled, schedule, s, ReleaseCall);
    schedule, s := GoWorker(cfg, threads, cancelled, schedule, s, Test);
    schedule, s := GoWorker(cfg, threads, cancelled, schedule, s, Test);
  }

  lemma CallbackEnters(cfg: Config, threads: nat, cancelled: nat) returns (schedule: seq<Move>, s: System)
    requires threads > 0 && !cfg.sync
    ensures Reaches(cfg, threads, cancelled, schedule, s) && |s.workers| == threads && s.run
    ensures At(s.workers[0], Waiting(ForStarted), Free, Entering(StartedSignal, 0), Some(0))
    ensures s.workers[0].created == 1
  {
    hide Reaches;
    schedule, s := Begin(cfg, threads, cancelled);
    schedule, s := GoWorker(cfg, threads, cancelled, schedule, s, CreateRequest);
    schedule, s := GoWorker(cfg, threads, cancelled, schedule, s, StartCall(true));
    schedule, s := GoWorker(cfg, threads, cancelled, schedule, s, TakeLock);
    schedule, s := GoWorker(cfg, threads, cancelled, schedule, s, BeginWait);
    hide WorkerStep;
    schedule, s := GoCallback(cfg, threads, cancelled, schedule, s, CallbackBegin(StartedSignal));
  }

  /** In asynchronous mode the demo keeps its own rule under exactly these two assumptions. */
  lemma ReleasesAfterClosedExactly(cfg: Config, threads: nat, cancelled: nat)
    requires threads > 0 && !cfg.sync
    ensures ReleasesAfterClosed(cfg, threads, cancelled) <==> !cfg.spurious && !cfg.late
  {
    hide Reaches;
    if !cfg.spurious && !cfg.late {
      forall schedule: seq<Move>, s: System, i: nat
        | Reaches(cfg, threads, cancelled, schedule, s) && i < |s.workers| &&
          s.workers[i].pc == Releasing(StopWoken)
        ensures s.workers[i].closedFate == Woke(ForClosed)
      {
        WokenRoundExactly(cfg, threads, cancelled, schedule, s, i);
      }
    } else if cfg.spurious {
      var schedule, s := SpuriousWitness(cfg, threads, cancelled);
    } else {
      var schedule, s := LateWitness(cfg, threads, cancelled);
    }
  }

  // ---- Lost wakeups ----

  /** The fate of Started, once it is settled, stays for the round. */
  ghost predicate FateKept(w: Worker, v: Worker) {
    && v.created >= w.created
    && (v.created == w.created && !w.startedFate.Unfired? ==> v.startedFate == w.startedFate)
  }

  lemma FateWorkerStep(cfg: Config, w: Worker, run: bool, a: Action)
    requires WorkerStep(cfg, w, run, a).Some?
    ensures FateKept(w, WorkerStep(cfg, w, run, a).value.worker)
  {}

  lemma FateCallbackStep(w: Worker, a: Action)
    requires SignalInv(w) && CallbackStep(w, a).Some?
    ensures FateKept(w, CallbackStep(w, a).value)
  {
    hide MayBegin, HasRequest, Wakes, StartWaitWoken, StopWaitWoken;
  }

  /** Within a round the fate of a signal is settled once. */
  lemma FateStep(cfg: Config, w: Worker, run: bool, a: Action)
    requires WellBehaved(cfg) && SignalInv(w) && Step(cfg, w, run, a).Some?
    ensures FateKept(w, Step(cfg, w, run, a).value.worker)
  {
    hide WorkerStep, CallbackStep, SignalInv;
    if OfCallback(a) {
      FateCallbackStep(w, a);
    } else if !a.StopRunning? {
      FateWorkerStep(cfg, w, run, a);
    }
  }

  lemma {:induction false} FateStays(cfg: Config, threads: nat, cancelled: nat, schedule: seq<Move>,
                                     more: seq<Move>, i: nat)
    requires WellBehaved(cfg) && i < threads
    requires Run(cfg, Initial(threads, cancelled), schedule).Some?
    requires Run(cfg, Initial(threads, cancelled), schedule + more).Some?
    ensures var s := Run(cfg, Initial(threads, cancelled), schedule).value;
            var t := Run(cfg, Initial(threads, cancelled), schedule + more).value;
            && |s.workers| == threads == |t.workers|
            && t.workers[i].created >= s.workers[i].created
            && (t.workers[i].created == s.workers[i].created && !s.workers[i].startedFate.Unfired? ==>
                 t.workers[i].startedFate == s.workers[i].startedFate)
  {
    hide Run, Initial, Step, MutexInv, LogInv, CountInv, BoundInv, SignalInv;
    var s0 := Initial(threads, cancelled);
    RunInv(cfg, threads, cancelled, schedule);
    if more == [] {
      assert schedule + more == schedule;
    } else {
      var n := |more| - 1;
      var m := more[n];
      assert schedule + more == (schedule + more[..n]) + [m];
      RunSnoc(cfg, s0, schedule + more[..n], m);
      FateStays(cfg, threads, cancelled, schedule, more[..n], i);
      RunInv(cfg, threads, cancelled, schedule + more[..n]);
      var t := Run(cfg, s0, schedule + more[..n]).value;
      FateStep(cfg, t.workers[m.worker], t.run, m.action);
    }
  }

  /**
   If the Started signal is sent before the worker waits for it, the stop wait of that round can
   only end by a timeout.
   */
  lemma LostStartTimesOut(cfg: Config, threads: nat, cancelled: nat, schedule: seq<Move>, s: System,
                          more: seq<Move>, t: System, i: nat)
    requires WellBehaved(cfg) && i < threads
    requires Reaches(cfg, threads, cancelled, schedule, s) && Reaches(cfg, threads, cancelled, schedule + more, t)
    requires |s.workers| == threads == |t.workers|
    requires s.workers[i].pc == BeforeLock(ForStarted) || s.workers[i].pc == BeforeWait(ForStarted)
    requires !s.workers[i].startedFate.Unfired?
    ensures t.workers[i].created == s.workers[i].created ==> t.workers[i].pc != Releasing(StopWoken)
  {
    FateStays(cfg, threads, cancelled, schedule, more, i);
    RunInv(cfg, threads, cancelled, schedule);
    hide Run, Initial, LogInv, CountInv, BoundInv;
    if t.workers[i].created == s.workers[i].created && t.workers[i].pc == Releasing(StopWoken) {
      WokenRoundExactly(cfg, threads, cancelled, schedule + more, t, i);
    }
  }

  /** The mutex is held by the worker only between its lock and its unlock, never at the head of a round. */
  lemma MutexOnlyInWait(cfg: Config, threads: nat, cancelled: nat, schedule: seq<Move>, s: System, i: nat)
    requires Reaches(cfg, threads, cancelled, schedule, s) && i < |s.workers|
    ensures s.workers[i].owner.ByWorker? <==> s.workers[i].pc.BeforeWait? || s.workers[i].pc.Returned?
    ensures s.workers[i].pc.LoopHead? ==> !s.workers[i].owner.ByWorker? && s.workers[i].live.None?
  {
    hide Run, Initial, CountInv, BoundInv, SignalInv, Replay;
    RunInv(cfg, threads, cancelled, schedule);
  }

  // ---- Exactly-once release ----

  /** A request is created once if its id is below the count, and released once unless it is live. */
  ghost predicate Counted(calls: multiset<Call>, st: LogState, id: nat) {
    && calls[Create(id)] == (if id < st.created then 1 else 0)
    && calls[Release(id)] == (if id < st.created && st.live != Some(id) then 1 else 0)
    && (st.live.Some? ==> st.live.value + 1 == st.created)
  }

  lemma CountedStep(calls: multiset<Call>, st: LogState, id: nat, c: Call)
    requires Counted(calls, st, id) && Apply(st, c).Some?
    ensures Counted(calls + multiset{c}, Apply(st, c).value, id)
  {}

  /** What a legal log means for each request. */
  lemma {:induction false} LogCounts(log: seq<Call>, id: nat)
    requires Replay(log).Some?
    ensures Counted(multiset(log), Replay(log).value, id)
  {
    hide Apply;
    if log == [] {
    } else {
      var n := |log| - 1;
      LogCounts(log[..n], id);
      assert log == log[..n] + [log[n]];
      assert multiset(log) == multiset(log[..n]) + multiset{log[n]};
      hide Counted;
      CountedStep(multiset(log[..n]), Replay(log[..n]).value, id, log[n]);
    }
  }

  lemma {:induction false} LogIds(log: seq<Call>)
    requires Replay(log).Some?
    ensures var st := Replay(log).value;
            && (st.live.Some? ==> st.live.value < st.created)
            && forall k | 0 <= k < |log| :: log[k].id < st.created
  {
    if log == [] {
    } else {
      var n := |log| - 1;
      LogIds(log[..n]);
      forall k | 0 <= k < |log|
        ensures log[k].id < Replay(log).value.created
      {
        if k < n { assert log[..n][k] == log[k]; }
      }
    }
  }

  lemma {:induction false} ReplayPrefix(log: seq<Call>, n: nat)
    requires Replay(log).Some? && n <= |log|
    ensures Replay(log[..n]).Some?
  {
    if n < |log| {
      ReplayPrefix(log[..|log| - 1], n);
      assert log[..|log| - 1][..n] == log[..n];
    } else {
      assert log[..n] == log;
    }
  }

  /** Nothing is called on a released request. */
  lemma NothingAfterRelease(log: seq<Call>, i: nat, j: nat)
    requires Replay(log).Some? && i < j < |log| && log[i].Release?
    ensures log[j].id != log[i].id
  {
    var id := log[i].id;
    ReplayPrefix(log, j + 1);
    ReplayPrefix(log, j);
    assert log[..j + 1][..j] == log[..j] && log[..j + 1][j] == log[j];
    LogCounts(log[..j], id);
    LogIds(log[..j]);
    assert Release(id) in multiset(log[..j]) by { assert log[..j][i] == Release(id); }
  }

  /** Between two creations the first request is released: at most one is live. */
  lemma ReleasedBetween(log: seq<Call>, i: nat, j: nat) returns (k: nat)
    requires Replay(log).Some? && i < j < |log| && log[i].Create? && log[j].Create?
    ensures i < k < j && log[k] == Release(log[i].id)
  {
    var id := log[i].id;
    ReplayPrefix(log, j + 1);
    ReplayPrefix(log, j);
    assert log[..j + 1][..j] == log[..j] && log[..j + 1][j] == log[j];
    LogCounts(log[..j], id);
    LogIds(log[..j]);
    assert log[..j][i].id < Replay(log[..j]).value.created;
    assert Release(id) in log[..j];
    k :| 0 <= k < j && log[..j][k] == Release(id);
    if k < i { NothingAfterRelease(log, k, i); }
  }

  /** Over every run the calls of a worker are legal: see `NothingAfterRelease` and `ReleasedBetween`. */
  lemma LegalCalls(cfg: Config, threads: nat, cancelled: nat, schedule: seq<Move>, s: System, i: nat)
    requires Reaches(cfg, threads, cancelled, schedule, s) && i < |s.workers|
    ensures Replay(s.workers[i].log) == Some(LogState(s.workers[i].live, s.workers[i].created))
  {
    hide Run, Initial, CountInv, BoundInv, SignalInv, Replay;
    RunInv(cfg, threads, cancelled, schedule);
  }

  /** Over every run each request is created once and released once, unless it is the live one. */
  lemma ExactlyOnce(cfg: Config, threads: nat, cancelled: nat, schedule: seq<Move>, s: System, i: nat, id: nat)
    requires Reaches(cfg, threads, cancelled, schedule, s) && i < |s.workers| && id < s.workers[i].created
    ensures multiset(s.workers[i].log)[Create(id)] == 1
    ensures multiset(s.workers[i].log)[Release(id)] == if s.workers[i].live == Some(id) then 0 else 1
    ensures s.workers[i].pc.LoopHead? || s.workers[i].pc.Exited? ==> s.workers[i].live.None?
  {
    hide Run, Initial, CountInv, BoundInv, SignalInv, Replay;
    RunInv(cfg, threads, cancelled, schedule);
    LogCounts(s.workers[i].log, id);
  }

  // ---- Conservation ----

  /** One worker: every start is a failure, a cancel or a stop; every round asked for a request. */
  lemma WorkerBalance(cfg: Config, threads: nat, cancelled: nat, schedule: seq<Move>, s: System, i: nat)
    requires Reaches(cfg, threads, cancelled, schedule, s) && i < |s.workers|
    requires s.workers[i].pc.LoopHead? || s.workers[i].pc.Exited?
    ensures var w := s.workers[i];
            && w.starts == w.startFailed + w.cancels + w.stops
            && w.requestConsumed == w.starts + if w.pc == Exited(true) then 1 else 0
  {
    hide Run, Initial, LogInv, BoundInv, SignalInv;
    RunInv(cfg, threads, cancelled, schedule);
  }

  /** All workers joined: the shared counters balance, except for what an earlier pass left in `run_cancel`. */
  lemma SharedBalance(cfg: Config, threads: nat, cancelled: nat, schedule: seq<Move>, s: System)
    requires Reaches(cfg, threads, cancelled, schedule, s)
    requires forall i | 0 <= i < |s.workers| :: s.workers[i].pc.Exited?
    ensures s.runCnt + cancelled == s.runStartFailed + s.runCancel + Total(s.workers, Stops)
    ensures s.runCnt == s.runStartFailed + s.runCancel + Total(s.workers, Stops) <==> cancelled == 0
  {
    hide Run, Initial, LogInv, BoundInv, SignalInv, MutexInv;
    RunInv(cfg, threads, cancelled, schedule);
    TotalBalance(s.workers);
    NothingFlying(s.workers);
  }

  lemma {:induction false} NothingFlying(ws: seq<Worker>)
    requires forall i | 0 <= i < |ws| :: ws[i].pc.Exited?
    ensures Total(ws, Flying) == 0
  {
    if ws == [] {
    } else {
      NothingFlying(ws[1..]);
    }
  }

  // ---- What the counters count ----

  datatype Kind = Requests | AllStarts | FailedStarts | AllCancels | AllStops | Timeouts

  predicate OfKind(a: Action, k: Kind) {
    match k
    case Requests => a.CreateNull? || a.CreateRequest?
    case AllStarts => a.StartCall?
    case FailedStarts => a.StartCall? && !a.ok
    case AllCancels => a.CancelCall?
    case AllStops => a.StopCall?
    case Timeouts => a.TimeOut?
  }

  /** A timeout is counted when the worker has left the wait section. */
  function CountOf(w: Worker, k: Kind): nat {
    match k
    case Requests => w.requestConsumed
    case AllStarts => w.starts
    case FailedStarts => w.startFailed
    case AllCancels => w.cancels
    case AllStops => w.stops
    case Timeouts => w.timedOut + if (w.pc.Waking? || w.pc.Returned?) && w.pc.timedOut then 1 else 0
  }

  /** The steps of one kind that the worker has taken in a run. */
  function Steps(schedule: seq<Move>, i: nat, k: Kind): nat {
    if schedule == [] then 0
    else
      var m := schedule[|schedule| - 1];
      Steps(schedule[..|schedule| - 1], i, k) + if m.worker == i && OfKind(m.action, k) then 1 else 0
  }

  lemma CountWorker(cfg: Config, w: Worker, run: bool, a: Action, k: Kind)
    requires WorkerStep(cfg, w, run, a).Some? && !OfCallback(a) && !a.StopRunning?
    ensures CountOf(WorkerStep(cfg, w, run, a).value.worker, k) == CountOf(w, k) + if OfKind(a, k) then 1 else 0
  {}

  lemma CountCallback(w: Worker, a: Action, k: Kind)
    requires CallbackStep(w, a).Some?
    ensures CountOf(CallbackStep(w, a).value, k) == CountOf(w, k) && !OfKind(a, k)
  {
    hide MayBegin;
  }

  lemma CountStep(cfg: Config, w: Worker, run: bool, a: Action, k: Kind)
    requires Step(cfg, w, run, a).Some?
    ensures CountOf(Step(cfg, w, run, a).value.worker, k) == CountOf(w, k) + if OfKind(a, k) then 1 else 0
  {
    hide WorkerStep, CallbackStep, CountOf;
    if OfCallback(a) {
      CountCallback(w, a, k);
    } else if !a.StopRunning? {
      CountWorker(cfg, w, run, a, k);
    }
  }

  /** Every counter of a worker is the number of the steps it stands for. */
  lemma {:induction false} CountersExactly(cfg: Config, threads: nat, cancelled: nat, schedule: seq<Move>, s: System,
                                           i: nat, k: Kind)
    requires Reaches(cfg, threads, cancelled, schedule, s) && i < threads
    ensures |s.workers| == threads && CountOf(s.workers[i], k) == Steps(schedule, i, k)
  {
    hide Step, CountOf, OfKind;
    if schedule == [] {
      FreshCount(k);
    } else {
      var init, m := schedule[..|schedule| - 1], schedule[|schedule| - 1];
      var t := Run(cfg, Initial(threads, cancelled), init).value;
      CountersExactly(cfg, threads, cancelled, init, t, i, k);
      hide Run, Initial;
      CountStep(cfg, t.workers[m.worker], t.run, m.action, k);
    }
  }

  lemma FreshCount(k: Kind)
    ensures CountOf(FRESH_WORKER, k) == 0
  {}

  // ---- The number of starts ----

  /** Only rounds that time out after the limit is reached add starts to the limit. */
  lemma StartBound(cfg: Config, threads: nat, cancelled: nat, schedule: seq<Move>, s: System, i: nat)
    requires Reaches(cfg, threads, cancelled, schedule, s) && i < |s.workers| && cfg.loopCount > 0
    ensures s.workers[i].starts <= cfg.loopCount + s.workers[i].lateTimedOut
    ensures s.workers[i].starts <= cfg.loopCount + s.workers[i].timedOut
  {
    hide Run, Initial, LogInv, CountInv, SignalInv, MutexInv;
    RunInv(cfg, threads, cancelled, schedule);
  }

  /** A worker at the head of a round, with nothing going on. */
  predicate AtHead(s: System) {
    |s.workers| > 0 && s.run && At(s.workers[0], LoopHead, Free, Idle, None)
  }

  /** A round up to the end of its start wait, which times out. */
  lemma WaitInVain(cfg: Config, threads: nat, cancelled: nat, schedule: seq<Move>, s: System)
    returns (schedule': seq<Move>, s': System)
    requires !cfg.sync && |s.workers| == threads && Reaches(cfg, threads, cancelled, schedule, s) && AtHead(s)
    ensures Reaches(cfg, threads, cancelled, schedule', s') && |s'.workers| == threads && s'.run
    ensures At(s'.workers[0], Waking(ForStarted, true), Free, Idle, Some(s.workers[0].created))
    ensures s'.workers[0].starts == s.workers[0].starts + 1
    ensures s'.workers[0].lateTimedOut == s.workers[0].lateTimedOut
  {
    hide Reaches, MayBegin;
    schedule', s' := GoWorker(cfg, threads, cancelled, schedule, s, CreateRequest);
    schedule', s' := GoWorker(cfg, threads, cancelled, schedule', s', StartCall(true));
    schedule', s' := GoWorker(cfg, threads, cancelled, schedule', s', TakeLock);
    schedule', s' := GoWorker(cfg, threads, cancelled, schedule', s', BeginWait);
    schedule', s' := GoWorker(cfg, threads, cancelled, schedule', s', TimeOut);
  }

  /** A whole round that times out goes past the test of `loop_count`. */
  lemma TimedOutRound(cfg: Config, threads: nat, cancelled: nat, schedule: seq<Move>, s: System)
    returns (schedule': seq<Move>, s': System)
    requires !cfg.sync && cfg.loopCount > 0
    requires |s.workers| == threads && Reaches(cfg, threads, cancelled, schedule, s) && AtHead(s)
    ensures Reaches(cfg, threads, cancelled, schedule', s') && |s'.workers| == threads && AtHead(s')
    ensures s'.workers[0].starts == s.workers[0].starts + 1
    ensures s'.workers[0].lateTimedOut ==
            s.workers[0].lateTimedOut + if s.workers[0].starts + 1 >= cfg.loopCount then 1 else 0
  {
    hide Reaches, CallbackStep, MayBegin;
    schedule', s' := WaitInVain(cfg, threads, cancelled, schedule, s);
    schedule', s' := GoWorker(cfg, threads, cancelled, schedule', s', Reacquire);
    schedule', s' := GoWorker(cfg, threads, cancelled, schedule', s', Unlock);
    schedule', s' := GoWorker(cfg, threads, cancelled, schedule', s', CancelCall);
    schedule', s' := GoWorker(cfg, threads, cancelled, schedule', s', ReleaseCall);
    schedule', s' := GoWorker(cfg, threads, cancelled, schedule', s', Test);
    schedule', s' := GoWorker(cfg, threads, cancelled, schedule', s', Test);
  }

  lemma {:induction false} TimedOutRounds(cfg: Config, threads: nat, cancelled: nat, n: nat)
    returns (schedule: seq<Move>, s: System)
    requires !cfg.sync && cfg.loopCount > 0 && threads > 0
    ensures Reaches(cfg, threads, cancelled, schedule, s) && |s.workers| == threads && AtHead(s)
    ensures s.workers[0].starts == n
    ensures s.workers[0].lateTimedOut == if n >= cfg.loopCount then n - cfg.loopCount + 1 else 0
  {
    hide Reaches;
    if n == 0 {
      schedule, s := Begin(cfg, threads, cancelled);
    } else {
      schedule, s := TimedOutRounds(cfg, threads, cancelled, n - 1);
      schedule, s := TimedOutRound(cfg, threads, cancelled, schedule, s);
    }
  }

  /** In asynchronous mode the bound is reached for every number of such rounds, so no smaller one holds. */
  lemma StartBoundReached(cfg: Config, threads: nat, cancelled: nat, late: nat)
    returns (schedule: seq<Move>, s: System)
    requires !cfg.sync && cfg.loopCount > 0 && threads > 0
    ensures Reaches(cfg, threads, cancelled, schedule, s) && |s.workers| == threads
    ensures s.workers[0].lateTimedOut == late && s.workers[0].starts == cfg.loopCount + late
  {
    hide Reaches, At;
    schedule, s := TimedOutRounds(cfg, threads, cancelled, cfg.loopCount + late - 1);
    schedule, s := WaitInVain(cfg, threads, cancelled, schedule, s);
  }

  /** In synchronous mode there are no waits, so nothing ever times out. */
  ghost predicate SyncInv(w: Worker) {
    && !InSection(w.pc) && !w.pc.Cancelling? && w.pc != Releasing(StartTimedOut) && w.pc != Releasing(StopTimedOut)
    && w.timedOut == w.lateTimedOut == 0
  }

  lemma SyncStep(cfg: Config, w: Worker, run: bool, a: Action)
    requires cfg.sync && SyncInv(w) && Step(cfg, w, run, a).Some?
    ensures SyncInv(Step(cfg, w, run, a).value.worker)
  {
    hide MayBegin;
  }

  lemma {:induction false} SyncRun(cfg: Config, threads: nat, cancelled: nat, schedule: seq<Move>, s: System)
    requires cfg.sync && Reaches(cfg, threads, cancelled, schedule, s)
    ensures |s.workers| == threads && forall i | 0 <= i < threads :: SyncInv(s.workers[i])
  {
    hide Step, SyncInv;
    if schedule == [] {
      FreshSync();
    } else {
      var init, m := schedule[..|schedule| - 1], schedule[|schedule| - 1];
      var t := Run(cfg, Initial(threads, cancelled), init).value;
      SyncRun(cfg, threads, cancelled, init, t);
      hide Run, Initial;
      SyncStep(cfg, t.workers[m.worker], t.run, m.action);
    }
  }

  lemma FreshSync()
    ensures SyncInv(FRESH_WORKER)
  {}

  /** `loop_count` bounds the starts of every worker in every run. */
  ghost predicate LoopCountHolds(cfg: Config, threads: nat, cancelled: nat) {
    forall schedule: seq<Move>, s: System, i: nat
      | Reaches(cfg, threads, cancelled, schedule, s) && i < |s.workers| ::
      s.workers[i].starts <= cfg.loopCount
  }

  /** It does so exactly when `g_sync_timeout` is positive. */
  lemma LoopCountExactly(cfg: Config, threads: nat, cancelled: nat)
    requires threads > 0 && cfg.loopCount > 0
    ensures LoopCountHolds(cfg, threads, cancelled) <==> cfg.sync
  {
    hide Reaches;
    if cfg.sync {
      forall schedule: seq<Move>, s: System, i: nat
        | Reaches(cfg, threads, cancelled, schedule, s) && i < |s.workers|
        ensures s.workers[i].starts <= cfg.loopCount
      {
        SyncRun(cfg, threads, cancelled, schedule, s);
        assert SyncInv(s.workers[i]);
        StartBound(cfg, threads, cancelled, schedule, s, i);
      }
    } else {
      var schedule, s := StartBoundReached(cfg, threads, cancelled, 1);
      assert s.workers[0].starts > cfg.loopCount;
    }
  }

  // ---- Progress ----

  /** A step that a worker or its running callback can take. */
  function NextAction(w: Worker): Action {
    if w.callback.Holding? then CallbackSignal
    else if w.callback.Signalled? then CallbackUnlock
    else if w.callback.Entering? && w.owner.Free? then CallbackLock
    else
      match w.pc
      case LoopHead => CreateRequest
      case ReadyToStart => StartCall(true)
      case BeforeLock(_) => TakeLock
      case BeforeWait(_) => BeginWait
      case Waiting(_) => TimeOut
      case Waking(_, _) => Reacquire
      case Returned(_, _) => Unlock
      case Cancelling => CancelCall
      case Sending => StopCall(true)
      case Releasing(_) => ReleaseCall
      case _ => Test
  }

  lemma CanGoOn(cfg: Config, w: Worker, run: bool)
    requires MutexInv(w) && LogInv(w) && !w.pc.Exited?
    ensures Step(cfg, w, run, NextAction(w)).Some?
  {
    hide Replay, MayBegin;
  }

  /** No reachable state is a deadlock: a worker that has not exited can go on, or its callback can. */
  lemma NoDeadlock(cfg: Config, threads: nat, cancelled: nat, schedule: seq<Move>, s: System, i: nat)
    requires Reaches(cfg, threads, cancelled, schedule, s) && i < |s.workers| && !s.workers[i].pc.Exited?
    ensures SystemStep(cfg, s, Move(i, NextAction(s.workers[i]))).Some?
  {
    hide Run, Initial, Step, NextAction, MutexInv, LogInv, CountInv, BoundInv, SignalInv;
    RunInv(cfg, threads, cancelled, schedule);
    CanGoOn(cfg, s.workers[i], s.run);
  }
}
