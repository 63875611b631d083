/**
 The loop of `pthreadFunction` (demo/Linux/funAsrTranscriberDemo.cpp) as a program.  What the calls
 return and how the waits end is given from outside; every pass follows a run of the protocol.
 */
module TranscriberWorker {
  import opened Basics
  import opened TranscriberProtocol
  import opened TranscriberTheorems

  /**
   What one round meets.  `startTimedOut` and `stopTimedOut` say whether the waits end in `ETIMEDOUT`,
   `sends` counts the calls of `sendAudio`, and `interrupted` is a signal handler that stops the demo.
   */
  datatype Round = Round(created: bool, startRet: int, startTimedOut: bool, sends: nat,
                         stopRet: int, stopTimedOut: bool, interrupted: bool)

  /** The start wait of the round times out. */
  predicate StartTimesOut(cfg: Config, r: Round) {
    r.startRet >= 0 && !cfg.sync && r.startTimedOut
  }

  predicate Opens(cfg: Config, r: Round) {
    r.startRet >= 0 && !StartTimesOut(cfg, r)
  }

  /** Why the request of the round is released. */
  function Outcome(cfg: Config, r: Round): How {
    if r.startRet < 0 then StartFailed
    else if StartTimesOut(cfg, r) then StartTimedOut
    else if r.stopRet < 0 then StopFailed
    else if cfg.sync then StopSync
    else if r.stopTimedOut then StopTimedOut else StopWoken
  }

  /** One of the two waits of the round times out. */
  predicate RoundTimesOut(cfg: Config, r: Round) {
    r.startRet >= 0 && !cfg.sync && (r.startTimedOut || (r.stopRet >= 0 && r.stopTimedOut))
  }

  lemma TimeoutOutcome(cfg: Config, r: Round)
    ensures RoundTimesOut(cfg, r) <==> StartTimesOut(cfg, r) || (Opens(cfg, r) && Outcome(cfg, r).StopTimedOut?)
  {}

  function CountTimeouts(cfg: Config, rs: seq<Round>): nat {
    if rs == [] then 0
    else
      var n := |rs| - 1;
      CountTimeouts(cfg, rs[..n]) + if rs[n].created && RoundTimesOut(cfg, rs[n]) then 1 else 0
  }

  predicate AtLimit(cfg: Config, count: nat) {
    cfg.loopCount > 0 && count >= cfg.loopCount
  }

  /** `global_run` behind the release; a timed-out round goes past the test of `loop_count`. */
  predicate RunningAfter(cfg: Config, how: How, interrupted: bool, count: nat, running: bool) {
    match how
    case StartFailed => running
    case StartTimedOut => running && !interrupted
    case StopTimedOut => running && !interrupted
    case _ => running && !interrupted && !AtLimit(cfg, count)
  }

  /** In terms of what the round meets; a timed-out round does not end the loop at the limit. */
  lemma EndsLoopExactly(cfg: Config, r: Round, count: nat)
    ensures EndsLoop(cfg, r, count) <==>
            || !r.created || r.startRet < 0 || r.interrupted
            || (cfg.loopCount > 0 && count >= cfg.loopCount &&
                (cfg.sync || (!r.startTimedOut && (r.stopRet < 0 || !r.stopTimedOut))))
  {}

  /** The loop ends with the round that makes the worker's start number `count`. */
  predicate EndsLoop(cfg: Config, r: Round, count: nat) {
    || !r.created
    || Outcome(cfg, r).StartFailed?
    || !RunningAfter(cfg, Outcome(cfg, r), r.interrupted, count, true)
  }

  function Sends(id: nat, n: nat): (r: seq<Call>)
    ensures |r| == n && forall k | 0 <= k < n :: r[k] == Send(id)
  {
    if n == 0 then [] else Sends(id, n - 1) + [Send(id)]
  }

  function WaitCalls(section: Section, id: nat): seq<Call> {
    if section.ForStarted? then [Inspect(id)] else []
  }

  function OpenCalls(cfg: Config, r: Round, id: nat): seq<Call> {
    if r.startRet < 0 then [Start(id)]
    else if cfg.sync then [Start(id)]
    else if r.startTimedOut then [Start(id), Inspect(id), Cancel(id)]
    else [Start(id), Inspect(id)]
  }

  function ServeCalls(r: Round, id: nat): seq<Call> {
    Sends(id, r.sends) + [Stop(id)]
  }

  /** The calls of a round on its request, in order, from `start()` to the release. */
  function RoundCalls(cfg: Config, r: Round, id: nat): seq<Call> {
    OpenCalls(cfg, r, id) + (if Opens(cfg, r) then ServeCalls(r, id) else []) + [Inspect(id), Release(id)]
  }

  /** The calls of a round, one by one. */
  lemma RoundCallsExactly(cfg: Config, r: Round, id: nat)
    ensures var cs := RoundCalls(cfg, r, id);
            if r.startRet < 0 then cs == [Start(id), Inspect(id), Release(id)]
            else if !cfg.sync && r.startTimedOut
            then cs == [Start(id), Inspect(id), Cancel(id), Inspect(id), Release(id)]
            else
              var k := if cfg.sync then 1 else 2;
              && |cs| == k + r.sends + 3
              && cs[0] == Start(id) && (!cfg.sync ==> cs[1] == Inspect(id))
              && (forall j | k <= j < k + r.sends :: cs[j] == Send(id))
              && cs[k + r.sends..] == [Stop(id), Inspect(id), Release(id)]
  {}

  /** How often a round sends. */
  function SendsOf(cfg: Config, r: Round): nat {
    if r.created && r.startRet >= 0 && (cfg.sync || !r.startTimedOut) then r.sends else 0
  }

  lemma {:induction false} SendsCount(id: nat, n: nat, c: Call)
    ensures multiset(Sends(id, n))[c] == if c == Send(id) then n else 0
  {
    if n == 0 {
    } else {
      SendsCount(id, n - 1, c);
    }
  }

  lemma PassSends(cfg: Config, r: Round, id: nat, other: nat)
    ensures multiset(PassCalls(cfg, r, id))[Send(other)] == if other == id then SendsOf(cfg, r) else 0
  {
    hide Sends;
    SendsCount(id, r.sends, Send(other));
  }

  /** Each round sends its frames on its own request. */
  lemma {:induction false} LoopSends(cfg: Config, rs: seq<Round>, id: nat, k: nat)
    requires k < |rs|
    ensures multiset(LoopCalls(cfg, rs, id))[Send(id + k)] == SendsOf(cfg, rs[k])
  {
    hide PassCalls, SendsOf;
    var n := |rs| - 1;
    PassSends(cfg, rs[n], id + n, id + k);
    if k < n {
      LoopSends(cfg, rs[..n], id, k);
    } else {
      NoLaterSends(cfg, rs[..n], id, k);
    }
  }

  lemma {:induction false} NoLaterSends(cfg: Config, rs: seq<Round>, id: nat, k: nat)
    requires k >= |rs|
    ensures multiset(LoopCalls(cfg, rs, id))[Send(id + k)] == 0
  {
    hide PassCalls, SendsOf;
    if rs == [] {
    } else {
      var n := |rs| - 1;
      PassSends(cfg, rs[n], id + n, id + k);
      NoLaterSends(cfg, rs[..n], id, k);
    }
  }

  /** The calls of a round with its creation; NULL makes no call. */
  function PassCalls(cfg: Config, r: Round, id: nat): seq<Call> {
    if r.created then [Create(id)] + RoundCalls(cfg, r, id) else []
  }

  /** The calls of rounds one after the other, on requests numbered from `id`. */
  function LoopCalls(cfg: Config, rs: seq<Round>, id: nat): seq<Call> {
    if rs == [] then []
    else
      var n := |rs| - 1;
      LoopCalls(cfg, rs[..n], id) + PassCalls(cfg, rs[n], id + n)
  }

  lemma NoCalls(cfg: Config, id: nat)
    ensures LoopCalls(cfg, [], id) == []
  {}

  lemma LoopCallsSnoc(cfg: Config, rs: seq<Round>, i: nat, id: nat)
    requires i < |rs|
    ensures LoopCalls(cfg, rs[..i + 1], id) == LoopCalls(cfg, rs[..i], id) + PassCalls(cfg, rs[i], id + i)
  {
    hide PassCalls;
    TakeTake(rs, i);
  }

  /** Where a wait section and a release lead. */
  function AfterWait(section: Section, timedOut: bool): Pc {
    if section.ForStarted? then if timedOut then Cancelling else Sending
    else Releasing(if timedOut then StopTimedOut else StopWoken)
  }

  function AfterRelease(how: How): Pc {
    match how
    case StartFailed => Exited(false)
    case StartTimedOut => TimeoutTest
    case StopTimedOut => TimeoutTest
    case _ => CountTest
  }

  class WorkerThread {
    const cfg: Config
    var globalRun: bool
    var testCount: nat
    var requestConsumed: nat
    var runStartFailed: nat
    var runCancel: nat
    var stopApiConsumed: nat
    /** The request of the round, the number of requests created, and the calls made on them. */
    var request: Option<nat>
    var created: nat
    var calls: seq<Call>
    /** The rounds with a wait that timed out. */
    ghost var timedOuts: nat
    ghost var schedule: seq<Move>
    ghost var s: System

    /** The fields are those of the only worker of a run that stands at `pc`, with no callback under way. */
    ghost predicate At(pc: Pc)
      reads this
    {
      && Reaches(cfg, 1, 0, schedule, s) && |s.workers| == 1
      && var w := s.workers[0];
      && w.pc == pc && w.owner.Free? && w.callback.Idle?
      && globalRun == s.run && testCount == w.starts && requestConsumed == w.requestConsumed
      && runStartFailed == w.startFailed && runCancel == w.cancels && stopApiConsumed == w.stops
      && request == w.live && created == w.created && calls == w.log && timedOuts == w.timedOut
    }

    constructor (cfg: Config)
      ensures this.cfg == cfg && At(LoopHead) && testCount == 0 && calls == [] && globalRun
    {
      this.cfg := cfg;
      globalRun, testCount, requestConsumed, runStartFailed, runCancel, stopApiConsumed := true, 0, 0, 0, 0, 0;
      request, created, calls, timedOuts := None, 0, [], 0;
      schedule, s := [], Initial(1, 0);
    }

    ghost method Take(a: Action)
      requires Reaches(cfg, 1, 0, schedule, s) && |s.workers| == 1
      requires !OfCallback(a) && !a.StopRunning? && WorkerStep(cfg, s.workers[0], s.run, a).Some?
      modifies this`schedule, this`s
      ensures Reaches(cfg, 1, 0, schedule, s) && |s.workers| == 1
      ensures Local(s.workers[0], s.run) == WorkerStep(cfg, old(s.workers[0]), old(s.run), a).value
    {
      hide Reaches, WorkerStep;
      schedule, s := GoWorker(cfg, 1, 0, schedule, s, a);
    }

    ghost method TakeOfCallback(a: Action)
      requires Reaches(cfg, 1, 0, schedule, s) && |s.workers| == 1
      requires OfCallback(a) && CallbackStep(s.workers[0], a).Some?
      modifies this`schedule, this`s
      ensures Reaches(cfg, 1, 0, schedule, s) && |s.workers| == 1
      ensures s.workers[0] == CallbackStep(old(s.workers[0]), a).value && s.run == old(s.run)
    {
      hide Reaches, CallbackStep;
      schedule, s := GoCallback(cfg, 1, 0, schedule, s, a);
    }

    /** The head of a round, with a request if there is one. */
    method CreateRequest(ok: bool)
      requires At(LoopHead) && request.None?
      modifies this`requestConsumed, this`request, this`created, this`calls, this`schedule, this`s
      ensures At(if ok then ReadyToStart else Exited(true))
      ensures requestConsumed == old(requestConsumed) + 1 && created == old(created) + if ok then 1 else 0
      ensures request == (if ok then Some(old(created)) else None)
      ensures calls == if ok then old(calls) + [Create(old(created))] else old(calls)
      ensures ok ==> s.workers[0].startedFate == s.workers[0].closedFate == Unfired
    {
      hide Reaches, CallbackStep;
      requestConsumed := requestConsumed + 1;
      if ok {
        request := Some(created);
        calls := calls + [Create(created)];
        created := created + 1;
        Take(Action.CreateRequest);
      } else {
        Take(CreateNull);
      }
    }

    method StartRequest(ret: int)
      requires At(ReadyToStart) && request.Some?
      requires s.workers[0].startedFate == s.workers[0].closedFate == Unfired
      modifies this`testCount, this`runStartFailed, this`calls, this`schedule, this`s
      ensures At(if ret < 0 then Releasing(StartFailed) else if cfg.sync then Sending else BeforeLock(ForStarted))
      ensures testCount == old(testCount) + 1
      ensures runStartFailed == old(runStartFailed) + if ret < 0 then 1 else 0
      ensures calls == old(calls) + [Start(request.value)]
      ensures s.workers[0].startedFate == s.workers[0].closedFate == Unfired
    {
      hide Reaches, CallbackStep;
      calls := calls + [Start(request.value)];
      testCount := testCount + 1;
      if ret < 0 {
        runStartFailed := runStartFailed + 1;
      }
      Take(StartCall(ret >= 0));
    }

    /** A wait section: lock, timed wait, unlock.  The worker cannot see which signal ended its wait. */
    method Wait(section: Section, timedOut: bool)
      requires At(BeforeLock(section)) && request.Some?
      requires s.workers[0].closedFate.Unfired? && (section.ForStarted? ==> s.workers[0].startedFate.Unfired?)
      modifies this`calls, this`timedOuts, this`schedule, this`s
      ensures At(AfterWait(section, timedOut))
      ensures timedOuts == old(timedOuts) + if timedOut then 1 else 0
      ensures calls == old(calls) + WaitCalls(section, request.value)
      ensures s.workers[0].closedFate.Unfired? || section.ForClosed?
    {
      hide Reaches, MayBegin, WorkerStep, CallbackStep;
      BeginWaiting(section);
      if timedOut {
        WaitInFull(section);
      } else {
        SignalWaiting(section);
      }
      EndWaiting(section, timedOut);
    }

    ghost method BeginWaiting(section: Section)
      requires At(BeforeLock(section)) && request.Some?
      modifies this`schedule, this`s
      ensures At(Waiting(section))
      ensures s.workers[0].startedFate == old(s.workers[0].startedFate)
      ensures s.workers[0].closedFate == old(s.workers[0].closedFate)
    {
      hide Reaches, CallbackStep;
      Take(TakeLock);
      Take(BeginWait);
    }

    method EndWaiting(section: Section, timedOut: bool)
      requires At(Waking(section, timedOut)) && request.Some?
      modifies this`calls, this`timedOuts, this`schedule, this`s
      ensures At(AfterWait(section, timedOut))
      ensures timedOuts == old(timedOuts) + if timedOut then 1 else 0
      ensures calls == old(calls) + WaitCalls(section, request.value)
      ensures s.workers[0].closedFate == old(s.workers[0].closedFate)
    {
      hide Reaches, CallbackStep;
      WakeUp(section, timedOut);
      calls := calls + WaitCalls(section, request.value);
      if timedOut {
        timedOuts := timedOuts + 1;
      }
      Take(Unlock);
    }

    /** The worker holds the mutex again. */
    ghost method WakeUp(section: Section, timedOut: bool)
      requires At(Waking(section, timedOut))
      modifies this`schedule, this`s
      ensures Reaches(cfg, 1, 0, schedule, s) && |s.workers| == 1 && s.run == old(s.run)
      ensures s.workers[0] == old(s.workers[0]).(pc := Returned(section, timedOut), owner := ByWorker)
    {
      hide Reaches, CallbackStep;
      Take(Reacquire);
    }

    ghost method WaitInFull(section: Section)
      requires At(Waiting(section))
      modifies this`schedule, this`s
      ensures At(Waking(section, true)) && s.workers[0].closedFate == old(s.workers[0].closedFate)
    {
      hide Reaches, CallbackStep;
      Take(TimeOut);
    }

    /** A callback begins and takes the lock. */
    ghost method CallbackArrives(signal: Signal)
      requires Reaches(cfg, 1, 0, schedule, s) && |s.workers| == 1
      requires s.workers[0].owner.Free? && MayBegin(s.workers[0], signal)
      modifies this`schedule, this`s
      ensures Reaches(cfg, 1, 0, schedule, s) && |s.workers| == 1 && s.run == old(s.run)
      ensures s.workers[0] == old(s.workers[0]).(owner := ByCallback,
                                                 callback := Holding(signal, old(s.workers[0].live.value)))
    {
      hide Reaches, WorkerStep;
      TakeOfCallback(CallbackBegin(signal));
      hide MayBegin;
      TakeOfCallback(CallbackLock);
    }

    /** The callback that ends a wait. */
    ghost method SignalWaiting(section: Section)
      requires At(Waiting(section)) && request.Some?
      requires s.workers[0].closedFate.Unfired? && (section.ForStarted? ==> s.workers[0].startedFate.Unfired?)
      modifies this`schedule, this`s
      ensures At(Waking(section, false))
      ensures s.workers[0].closedFate.Unfired? || section.ForClosed?
    {
      hide Reaches, WorkerStep;
      CallbackArrives(if section.ForStarted? then StartedSignal else ClosedSignal);
      hide MayBegin;
      TakeOfCallback(CallbackSignal);
      TakeOfCallback(CallbackUnlock);
    }

    /** `sendAudio()` for the frames. */
    method SendFrames(n: nat)
      requires At(Sending) && request.Some? && s.workers[0].closedFate.Unfired?
      modifies this`calls, this`schedule, this`s
      ensures At(Sending) && s.workers[0].closedFate.Unfired?
      ensures |calls| == |old(calls)| + n && calls[..|old(calls)|] == old(calls)
      ensures forall j | |old(calls)| <= j < |calls| :: calls[j] == Send(request.value)
      ensures calls == old(calls) + Sends(request.value, n)
    {
      hide Reaches, CallbackStep;
      for i := 0 to n
        invariant At(Sending) && s.workers[0].closedFate.Unfired?
        invariant calls == old(calls) + Sends(request.value, i)
      {
        calls := calls + [Send(request.value)];
        Take(SendCall);
      }
    }

    method StopRequest(ret: int)
      requires At(Sending) && request.Some? && s.workers[0].closedFate.Unfired?
      modifies this`stopApiConsumed, this`calls, this`schedule, this`s
      ensures At(if ret < 0 then Releasing(StopFailed)
                 else if cfg.sync then Releasing(StopSync) else BeforeLock(ForClosed))
      ensures stopApiConsumed == old(stopApiConsumed) + 1
      ensures calls == old(calls) + [Stop(request.value)]
      ensures s.workers[0].closedFate.Unfired?
    {
      hide Reaches, CallbackStep;
      calls := calls + [Stop(request.value)];
      stopApiConsumed := stopApiConsumed + 1;
      Take(StopCall(ret >= 0));
    }

    method ReleaseRequest(how: How)
      requires At(Releasing(how)) && request.Some?
      modifies this`request, this`calls, this`schedule, this`s
      ensures At(AfterRelease(how))
      ensures request.None?
      ensures calls == old(calls) + [Inspect(old(request.value)), Release(old(request.value))]
    {
      hide Reaches, CallbackStep;
      calls := calls + [Inspect(request.value), Release(request.value)];
      request := None;
      Take(ReleaseCall);
    }

    method CancelRequest()
      requires At(Cancelling) && request.Some?
      modifies this`runCancel, this`calls, this`schedule, this`s
      ensures At(Releasing(StartTimedOut))
      ensures runCancel == old(runCancel) + 1
      ensures calls == old(calls) + [Cancel(request.value)]
    {
      hide Reaches, CallbackStep;
      calls := calls + [Cancel(request.value)];
      runCancel := runCancel + 1;
      Take(CancelCall);
    }

    /** A signal handler, or another worker, ends the demo. */
    method Interrupt(pc: Pc)
      requires At(pc)
      modifies this`globalRun, this`schedule, this`s
      ensures At(pc) && !globalRun
    {
      hide Reaches, CallbackStep, WorkerStep;
      globalRun := false;
      schedule, s := Go(cfg, 1, 0, schedule, s, StopRunning);
    }

    /** `if (global_run) continue; else break;` behind a timeout. */
    method AfterTimeout(interrupted: bool) returns (leave: bool)
      requires At(TimeoutTest) && request.None?
      modifies this`globalRun, this`schedule, this`s
      ensures At(if leave then Exited(false) else WhileTest)
      ensures globalRun == (old(globalRun) && !interrupted)
      ensures leave <==> !globalRun
    {
      hide Reaches, CallbackStep;
      if interrupted {
        Interrupt(TimeoutTest);
      }
      leave := !globalRun;
      Take(Test);
    }

    method CountRounds(interrupted: bool)
      requires At(CountTest) && request.None?
      modifies this`globalRun, this`schedule, this`s
      ensures At(WhileTest)
      ensures globalRun == (old(globalRun) && !interrupted && !(cfg.loopCount > 0 && testCount >= cfg.loopCount))
    {
      hide Reaches, CallbackStep;
      if interrupted {
        Interrupt(CountTest);
      }
      if cfg.loopCount > 0 && testCount >= cfg.loopCount {
        globalRun := false;
      }
      Take(Test);
    }

    method TestRunning()
      requires At(WhileTest) && request.None?
      modifies this`schedule, this`s
      ensures At(if globalRun then LoopHead else Exited(false))
    {
      hide Reaches, CallbackStep;
      Take(Test);
    }

    /** `start()` and the wait for the started event; a request that does not start is to be released. */
    method OpenRequest(r: Round)
      requires At(ReadyToStart) && request.Some?
      requires s.workers[0].startedFate == s.workers[0].closedFate == Unfired
      modifies this`testCount, this`runStartFailed, this`runCancel, this`calls, this`timedOuts, this`schedule, this`s
      ensures timedOuts == old(timedOuts) + if StartTimesOut(cfg, r) then 1 else 0
      ensures At(if Opens(cfg, r) then Sending else Releasing(Outcome(cfg, r)))
      ensures Opens(cfg, r) ==> s.workers[0].closedFate.Unfired?
      ensures testCount == old(testCount) + 1
      ensures runStartFailed == old(runStartFailed) + if r.startRet < 0 then 1 else 0
      ensures runCancel == old(runCancel) + if StartTimesOut(cfg, r) then 1 else 0
      ensures calls == old(calls) + OpenCalls(cfg, r, request.value)
    {
      hide At, Reaches, WorkerStep, CallbackStep;
      StartRequest(r.startRet);
      if r.startRet >= 0 && !cfg.sync {
        Wait(ForStarted, r.startTimedOut);
        if r.startTimedOut {
          CancelRequest();
        }
      }
    }

    /** The frames, `stop()`, and the wait for the closed event. */
    method ServeRequest(r: Round)
      requires At(Sending) && request.Some? && s.workers[0].closedFate.Unfired? && Opens(cfg, r)
      modifies this`stopApiConsumed, this`calls, this`timedOuts, this`schedule, this`s
      ensures At(Releasing(Outcome(cfg, r)))
      ensures timedOuts == old(timedOuts) + if Outcome(cfg, r).StopTimedOut? then 1 else 0
      ensures stopApiConsumed == old(stopApiConsumed) + 1
      ensures calls == old(calls) + ServeCalls(r, request.value)
    {
      hide At, Reaches, WorkerStep, CallbackStep, Sends;
      SendFrames(r.sends);
      StopRequest(r.stopRet);
      if r.stopRet >= 0 && !cfg.sync {
        Wait(ForClosed, r.stopTimedOut);
      }
    }

    /** The release, and the way on from there. */
    method CloseRequest(how: How, interrupted: bool) returns (leave: bool)
      requires At(Releasing(how)) && request.Some?
      modifies this`globalRun, this`request, this`calls, this`schedule, this`s
      ensures request.None? && At(if leave then Exited(false) else WhileTest)
      ensures calls == old(calls) + [Inspect(old(request.value)), Release(old(request.value))]
      ensures globalRun == RunningAfter(cfg, how, interrupted, testCount, old(globalRun))
      ensures leave <==> how.StartFailed? || ((how.StartTimedOut? || how.StopTimedOut?) && !globalRun)
    {
      hide At, Reaches, WorkerStep, CallbackStep;
      ReleaseRequest(how);
      match how {
        case StartFailed =>
          leave := true;
        case StartTimedOut =>
          leave := AfterTimeout(interrupted);
        case StopTimedOut =>
          leave := AfterTimeout(interrupted);
        case _ =>
          CountRounds(interrupted);
          leave := false;
      }
    }

    /** A round from its created request to `while (global_run)`, or out of the loop. */
    method Continue(r: Round) returns (leave: bool)
      requires At(ReadyToStart) && request.Some?
      requires s.workers[0].startedFate == s.workers[0].closedFate == Unfired
      modifies this`globalRun, this`testCount, this`runStartFailed, this`runCancel, this`stopApiConsumed,
               this`request, this`calls, this`timedOuts, this`schedule, this`s
      ensures timedOuts == old(timedOuts) + if RoundTimesOut(cfg, r) then 1 else 0
      ensures request.None? && At(if leave then Exited(false) else WhileTest)
      ensures testCount == old(testCount) + 1
      ensures runStartFailed == old(runStartFailed) + if r.startRet < 0 then 1 else 0
      ensures runCancel == old(runCancel) + if StartTimesOut(cfg, r) then 1 else 0
      ensures stopApiConsumed == old(stopApiConsumed) + if Opens(cfg, r) then 1 else 0
      ensures calls == old(calls) + RoundCalls(cfg, r, old(request.value))
      ensures globalRun == RunningAfter(cfg, Outcome(cfg, r), r.interrupted, testCount, old(globalRun))
      ensures leave <==> var how := Outcome(cfg, r);
                         how.StartFailed? || ((how.StartTimedOut? || how.StopTimedOut?) && !globalRun)
    {
      hide At, Reaches, WorkerStep, CallbackStep, OpenCalls, ServeCalls, Outcome, RoundTimesOut, StartTimesOut;
      OpenRequest(r);
      if Opens(cfg, r) {
        ServeRequest(r);
      }
      TimeoutOutcome(cfg, r);
      leave := CloseRequest(Outcome(cfg, r), r.interrupted);
    }

    /** One pass of the loop, to its head or out of it. */
    method Pass(r: Round) returns (left: bool)
      requires At(LoopHead) && request.None?
      modifies this
      ensures request.None? && At(if !r.created then Exited(true) else if left then Exited(false) else LoopHead)
      ensures created == old(created) + (if r.created then 1 else 0)
      ensures testCount == old(testCount) + (if r.created then 1 else 0)
      ensures timedOuts == old(timedOuts) + if r.created && RoundTimesOut(cfg, r) then 1 else 0
      ensures calls == old(calls) + PassCalls(cfg, r, old(created))
      ensures !left ==> globalRun && r.created
      ensures left <==> !old(globalRun) || EndsLoop(cfg, r, testCount)
    {
      hide At, Reaches, RoundCalls, Outcome, AtLimit, RoundTimesOut;
      CreateRequest(r.created);
      if !r.created {
        return true;
      }
      left := Continue(r);
      if !left {
        TestRunning();
        left := !globalRun;
      }
    }

    /** The loop, over the first `met` of the described rounds; `left` if it has ended by itself. */
    method PthreadFunction(rounds: seq<Round>) returns (left: bool, noRequest: bool, met: nat)
      requires At(LoopHead) && request.None?
      modifies this
      ensures request.None? && met <= |rounds| && (!left ==> met == |rounds|)
      ensures noRequest <==> met > 0 && !rounds[met - 1].created
      ensures testCount == old(testCount) + met - if noRequest then 1 else 0
      ensures met > 1 ==> old(globalRun)
      ensures left <==> met > 0 && (!old(globalRun) || EndsLoop(cfg, rounds[met - 1], testCount))
      ensures forall i | 0 <= i < met - 1 :: !EndsLoop(cfg, rounds[i], old(testCount) + i + 1)
      ensures calls == old(calls) + LoopCalls(cfg, rounds[..met], old(created))
      ensures forall k: nat | k < met ::
                multiset(calls[|old(calls)|..])[Send(old(created) + k)] == SendsOf(cfg, rounds[k])
      ensures testCount == runStartFailed + runCancel + stopApiConsumed
      ensures requestConsumed == testCount + if noRequest then 1 else 0
      ensures forall id: nat | id < created ::
                multiset(calls)[Create(id)] == 1 && multiset(calls)[Release(id)] == 1
      ensures Replay(calls).Some?
      ensures timedOuts == old(timedOuts) + CountTimeouts(cfg, rounds[..met])
      ensures cfg.loopCount > 0 ==> testCount <= cfg.loopCount + timedOuts
    {
      hide At, Reaches, Replay, LoopCalls, PassCalls, EndsLoop, RoundTimesOut;
      left, noRequest, met := false, false, 0;
      NoCalls(cfg, created);
      ghost var first, before, starts, running := created, calls, testCount, globalRun;
      while met < |rounds| && !left
        invariant met <= |rounds| && request.None?
        invariant At(if noRequest then Exited(true) else if left then Exited(false) else LoopHead)
        invariant noRequest ==> left
        invariant noRequest <==> met > 0 && !rounds[met - 1].created
        invariant !left ==> created == first + met && (met == 0 ==> globalRun == running)
        invariant !left && met > 0 ==> globalRun && running
        invariant met > 1 ==> running
        invariant testCount == starts + met - if noRequest then 1 else 0
        invariant left <==> met > 0 && (!running || EndsLoop(cfg, rounds[met - 1], testCount))
        invariant forall i | 0 <= i < met - 1 :: !EndsLoop(cfg, rounds[i], starts + i + 1)
        invariant calls == before + LoopCalls(cfg, rounds[..met], first)
        invariant timedOuts == old(timedOuts) + CountTimeouts(cfg, rounds[..met])
        decreases |rounds| - met
      {
        LoopCallsSnoc(cfg, rounds, met, first);
        TakeTake(rounds, met);
        left := Pass(rounds[met]);
        noRequest := !rounds[met].created;
        met := met + 1;
      }
      assert calls[|before|..] == LoopCalls(cfg, rounds[..met], first);
      forall k: nat | k < met
        ensures multiset(LoopCalls(cfg, rounds[..met], first))[Send(first + k)] == SendsOf(cfg, rounds[k])
      {
        LoopSends(cfg, rounds[..met], first, k);
      }
      Conclude(if noRequest then Exited(true) else if left then Exited(false) else LoopHead);
    }

    /** Between rounds and after the last one the theorems about runs hold of the fields. */
    lemma Conclude(pc: Pc)
      requires At(pc) && (pc.LoopHead? || pc.Exited?)
      ensures testCount == runStartFailed + runCancel + stopApiConsumed
      ensures requestConsumed == testCount + if pc == Exited(true) then 1 else 0
      ensures forall id: nat | id < created ::
                multiset(calls)[Create(id)] == 1 && multiset(calls)[Release(id)] == 1
      ensures Replay(calls).Some?
      ensures cfg.loopCount > 0 ==> testCount <= cfg.loopCount + timedOuts
    {
      hide Reaches, Replay;
      WorkerBalance(cfg, 1, 0, schedule, s, 0);
      if cfg.loopCount > 0 { StartBound(cfg, 1, 0, schedule, s, 0); }
      forall id: nat | id < created
        ensures multiset(calls)[Create(id)] == 1 && multiset(calls)[Release(id)] == 1
      {
        ExactlyOnce(cfg, 1, 0, schedule, s, 0, id);
      }
      LegalCalls(cfg, 1, 0, schedule, s, 0);
    }
  }
}
