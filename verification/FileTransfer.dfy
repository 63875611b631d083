/**
 The join of demo/Linux/fileTransferDemo.cpp.  For every task the main thread inserts a copy of the
 request if its key is absent, and the callback of the task inserts or overwrites; `waitComplete`
 counts the terminal entries.  A task gets its id in a thread of its own, after `applyFileTrans`
 has returned (nlsCppSdk/token/src/FileTrans.cpp).
 */
module FileTransfer {
  import opened Basics

  // ---- The map ----

  datatype Event = TaskUnknown | TaskFailed | TaskCompleted

  /** `text` is the result or the error message. */
  datatype FileTrans = FileTrans(taskId: string, event: Event, text: string)

  type Requests = map<string, FileTrans>

  /** `std::map::insert`: an entry that is there stays. */
  function InsertAbsent(m: Requests, key: string, r: FileTrans): Requests {
    if key in m then m else m[key := r]
  }

  /** `find`, then assignment or insertion. */
  function Upsert(m: Requests, r: FileTrans): Requests {
    m[r.taskId := r]
  }

  function KeysWith(m: Requests, e: Event): set<string> {
    set k | k in m && m[k].event == e
  }

  function TerminalKeys(m: Requests): set<string> {
    set k | k in m && m[k].event != TaskUnknown
  }

  lemma TerminalKeysSplit(m: Requests)
    ensures |TerminalKeys(m)| == |KeysWith(m, TaskCompleted)| + |KeysWith(m, TaskFailed)|
  {
    assert TerminalKeys(m) == KeysWith(m, TaskCompleted) + KeysWith(m, TaskFailed);
  }

  lemma KeysWithExtend(m: Requests, key: string, r: FileTrans, e: Event)
    requires key !in m
    ensures KeysWith(m[key := r], e) == if r.event == e then KeysWith(m, e) + {key} else KeysWith(m, e)
    ensures key !in KeysWith(m, e)
  {}

  /** The map that the main thread and the callbacks share. */
  class SharedRequests {
    var requests: Requests

    constructor ()
      ensures requests == map[]
    {
      requests := map[];
    }

    /** `fileTransferCallback` */
    method Callback(result: FileTrans)
      modifies this
      ensures requests == Upsert(old(requests), result)
      ensures requests[result.taskId] == result && requests - {result.taskId} == old(requests) - {result.taskId}
    {
      if result.taskId in requests {
        requests := requests[result.taskId := result];
      } else {
        requests := InsertAbsent(requests, result.taskId, result);
      }
    }

    /** The insertion of `fileTransferMultThreads`. */
    method InsertStarted(key: string, request: FileTrans)
      modifies this
      ensures requests == InsertAbsent(old(requests), key, request)
      ensures key in old(requests) ==> requests == old(requests)
      ensures key !in old(requests) ==>
                && requests.Keys == old(requests).Keys + {key}
                && requests[key] == request && requests - {key} == old(requests)
    {
      if key !in requests {
        requests := requests[key := request];
      }
    }
  }

  /** The recount of `waitComplete`. */
  method CountEvents(m: Requests) returns (completed: nat, failed: nat)
    ensures completed == |set k | k in m && m[k].event == TaskCompleted|
    ensures failed == |set k | k in m && m[k].event == TaskFailed|
    ensures completed == |KeysWith(m, TaskCompleted)| && failed == |KeysWith(m, TaskFailed)|
  {
    completed, failed := 0, 0;
    var seen: Requests := map[];
    assert forall e :: KeysWith(seen, e) == {};
    assert KeysWith(m, TaskCompleted) == set k | k in m && m[k].event == TaskCompleted;
    assert KeysWith(m, TaskFailed) == set k | k in m && m[k].event == TaskFailed;
    hide KeysWith;
    while seen.Keys != m.Keys
      invariant seen.Keys <= m.Keys && (forall k | k in seen :: seen[k] == m[k])
      invariant completed == |KeysWith(seen, TaskCompleted)| && failed == |KeysWith(seen, TaskFailed)|
      decreases m.Keys - seen.Keys
    {
      assert m.Keys - seen.Keys != {};
      var key :| key in m.Keys - seen.Keys;
      KeysWithExtend(seen, key, m[key], TaskFailed);
      KeysWithExtend(seen, key, m[key], TaskCompleted);
      if m[key].event == TaskFailed {
        failed := failed + 1;
      } else if m[key].event == TaskCompleted {
        completed := completed + 1;
      }
      seen := seen[key := m[key]];
    }
    assert seen == m;
  }

  /**
   `waitComplete`, where `maps[i]` is what the i-th recount finds.  It leaves after the first recount
   that finds as many terminal entries as tasks were started, and without any recount if none was.
   */
  method WaitComplete(maps: seq<Requests>, started: nat) returns (recounts: nat, left: bool)
    ensures recounts <= |maps|
    ensures left <==> started == 0 || exists i :: 0 <= i < |maps| && |TerminalKeys(maps[i])| == started
    ensures forall i | 0 <= i < recounts - 1 :: |TerminalKeys(maps[i])| != started
    ensures left && started > 0 ==> recounts > 0 && |TerminalKeys(maps[recounts - 1])| == started
    ensures left && started == 0 ==> recounts == 0
  {
    var completed, failed := 0, 0;
    recounts := 0;
    while completed + failed != started && recounts < |maps|
      invariant recounts <= |maps|
      invariant recounts == 0 ==> completed + failed == 0
      invariant recounts > 0 ==> started > 0 && completed + failed == |TerminalKeys(maps[recounts - 1])|
      invariant forall i | 0 <= i < recounts - 1 :: |TerminalKeys(maps[i])| != started
      decreases |maps| - recounts
    {
      completed, failed := CountEvents(maps[recounts]);
      TerminalKeysSplit(maps[recounts]);
      recounts := recounts + 1;
    }
    left := completed + failed == started;
  }

  // ---- Main thread and task threads, interleaved ----

  /** A task: not applied, refused, running without an id, with one, with a result, called back. */
  datatype Phase = Pending | Refused | Applied | Named | Finished | CalledBack

  datatype Task = Task(id: string, phase: Phase, request: FileTrans)

  /** The pair that main inserts is built from a key and a copy, read in either order. */
  datatype Main = Applying | Copying(key: Option<string>, copy: Option<FileTrans>)

  datatype System = System(tasks: seq<Task>, requests: Requests, next: nat, main: Main, cnt: nat)

  datatype Action =
    | Apply(ok: bool, event: Event)
    | ReadKey
    | CopyRequest
    | Insert
    | SetId(task: nat)
    | Finish(task: nat, event: Event, text: string)
    | CallBack(task: nat)

  /**
   `idFirst`: the thread of a task sets the id before main reads it.
   `copyFirst`: main copies the request before the task has a result.
   */
  datatype Config = Config(idFirst: bool, copyFirst: bool)

  function Step(cfg: Config, s: System, a: Action): Option<System> {
    match a
    case Apply(ok, event) =>
      if s.next >= |s.tasks| || !s.main.Applying? then None
      else
        var t := s.tasks[s.next];
        if ok then Some(s.(tasks := s.tasks[s.next := t.(phase := Applied)], main := Copying(None, None)))
        else
          Some(s.(tasks := s.tasks[s.next := t.(phase := Refused, request := t.request.(event := event))],
                  next := s.next + 1))
    case ReadKey =>
      if s.next >= |s.tasks| || !s.main.Copying? || s.main.key.Some? then None
      else if cfg.idFirst && s.tasks[s.next].phase == Applied then None
      else Some(s.(main := s.main.(key := Some(s.tasks[s.next].request.taskId))))
    case CopyRequest =>
      if s.next >= |s.tasks| || !s.main.Copying? || s.main.copy.Some? then None
      else if cfg.copyFirst && Done(s.tasks[s.next]) then None
      else Some(s.(main := s.main.(copy := Some(s.tasks[s.next].request))))
    case Insert =>
      if !s.main.Copying? || s.main.key.None? || s.main.copy.None? then None
      else
        Some(s.(requests := InsertAbsent(s.requests, s.main.key.value, s.main.copy.value),
                main := Applying, next := s.next + 1, cnt := s.cnt + 1))
    case SetId(i) =>
      if i >= |s.tasks| || s.tasks[i].phase != Applied then None
      else
        var t := s.tasks[i];
        Some(s.(tasks := s.tasks[i := t.(phase := Named, request := t.request.(taskId := t.id))]))
    case Finish(i, event, text) =>
      if i >= |s.tasks| || s.tasks[i].phase != Named || event == TaskUnknown then None
      else
        var t := s.tasks[i];
        Some(s.(tasks := s.tasks[i := t.(phase := Finished, request := t.request.(event := event, text := text))]))
    case CallBack(i) =>
      if i >= |s.tasks| || s.tasks[i].phase != Finished then None
      else
        var t := s.tasks[i];
        Some(s.(tasks := s.tasks[i := t.(phase := CalledBack)],
                requests := Upsert(s.requests, t.request)))
  }

  function Initial(ids: seq<string>): System {
    System(seq(|ids|, i requires 0 <= i < |ids| => Task(ids[i], Pending, FileTrans("", TaskUnknown, ""))),
           map[], 0, Applying, 0)
  }

  function Run(cfg: Config, ids: seq<string>, schedule: seq<Action>): Option<System> {
    if schedule == [] then Some(Initial(ids))
    else
      match Run(cfg, ids, schedule[..|schedule| - 1])
      case None => None
      case Some(s) => Step(cfg, s, schedule[|schedule| - 1])
  }

  ghost predicate Reaches(cfg: Config, ids: seq<string>, schedule: seq<Action>, s: System) {
    Run(cfg, ids, schedule) == Some(s)
  }

  /** The service gives every task an id of its own. */
  ghost predicate Distinct(ids: seq<string>) {
    && (forall i | 0 <= i < |ids| :: ids[i] != "")
    && (forall i, j | 0 <= i < j < |ids| :: ids[i] != ids[j])
  }

  // ---- Invariants ----

  predicate Started(t: Task) {
    !t.phase.Pending? && !t.phase.Refused?
  }

  predicate Done(t: Task) {
    t.phase.Finished? || t.phase.CalledBack?
  }

  ghost predicate TaskInv(t: Task) {
    && (t.phase.Pending? ==> t.request == FileTrans("", TaskUnknown, ""))
    && (Started(t) ==>
         && t.request.taskId == (if t.phase.Applied? then "" else t.id)
         && (t.request.event != TaskUnknown <==> Done(t)))
  }

  /** `r` is a copy of the request of `t`, of now or earlier. */
  ghost predicate CopyOf(r: FileTrans, t: Task) {
    Started(t) && (r.event != TaskUnknown ==> Done(t) && r == t.request)
  }

  ghost predicate TasksInv(ids: seq<string>, s: System) {
    && |s.tasks| == |ids| && s.next <= |ids|
    && (s.main.Copying? ==> s.next < |ids| && Started(s.tasks[s.next]))
    && (forall i | 0 <= i < |ids| :: s.tasks[i].id == ids[i] && TaskInv(s.tasks[i]))
    && (forall i | s.next <= i < |ids| && (i > s.next || s.main.Applying?) :: s.tasks[i].phase.Pending?)
    && (forall i | 0 <= i < s.next :: !s.tasks[i].phase.Pending?)
  }

  ghost predicate MainInv(s: System) {
    s.main.Copying? && s.next < |s.tasks| ==>
      var t := s.tasks[s.next];
      && (s.main.key.Some? ==>
           s.main.key.value == "" || (s.main.key.value == t.id && !t.phase.Applied?))
      && (s.main.copy.Some? ==> CopyOf(s.main.copy.value, t))
  }

  /** The task that an entry belongs to; under the empty key it can be any. */
  ghost predicate EntryOf(s: System, k: string, i: nat) {
    k in s.requests && i < |s.tasks| && (k == "" || s.tasks[i].id == k) && CopyOf(s.requests[k], s.tasks[i])
  }

  ghost predicate MapInv(s: System) {
    && (forall k | k in s.requests :: exists i: nat :: EntryOf(s, k, i))
    && (forall i | 0 <= i < |s.tasks| && s.tasks[i].phase.CalledBack? ::
          s.tasks[i].id in s.requests && s.requests[s.tasks[i].id] == s.tasks[i].request)
  }

  function StartedIds(s: System): set<string> {
    set i | 0 <= i < s.next && i < |s.tasks| && Started(s.tasks[i]) :: s.tasks[i].id
  }

  /** With `idFirst` nothing is ever put under the empty key. */
  ghost predicate KeyInv(s: System) {
    "" !in s.requests && (s.main.Copying? ==> s.main.key != Some(""))
  }

  predicate ByMain(a: Action) {
    a.Apply? || a.ReadKey? || a.CopyRequest? || a.Insert?
  }

  lemma TasksMainStep(cfg: Config, ids: seq<string>, s: System, a: Action)
    requires TasksInv(ids, s) && Step(cfg, s, a).Some? && ByMain(a)
    ensures TasksInv(ids, Step(cfg, s, a).value)
  {}

  lemma TasksThreadStep(cfg: Config, ids: seq<string>, s: System, a: Action)
    requires TasksInv(ids, s) && Step(cfg, s, a).Some? && !ByMain(a)
    ensures TasksInv(ids, Step(cfg, s, a).value)
  {}

  lemma TasksStep(cfg: Config, ids: seq<string>, s: System, a: Action)
    requires TasksInv(ids, s) && Step(cfg, s, a).Some?
    ensures TasksInv(ids, Step(cfg, s, a).value)
  {
    hide Step, TasksInv;
    if ByMain(a) { TasksMainStep(cfg, ids, s, a); } else { TasksThreadStep(cfg, ids, s, a); }
  }

  lemma MainStep(cfg: Config, ids: seq<string>, s: System, a: Action)
    requires TasksInv(ids, s) && MainInv(s) && Step(cfg, s, a).Some?
    ensures MainInv(Step(cfg, s, a).value)
  {}

  /** A step of a task changes neither its id nor a terminal result. */
  lemma TaskKept(cfg: Config, ids: seq<string>, s: System, a: Action, i: nat)
    requires TasksInv(ids, s) && Step(cfg, s, a).Some? && i < |ids|
    ensures var t := Step(cfg, s, a).value;
            && |t.tasks| == |ids| && t.tasks[i].id == s.tasks[i].id
            && (Started(s.tasks[i]) ==> Started(t.tasks[i]))
            && (Done(s.tasks[i]) ==> Done(t.tasks[i]) && t.tasks[i].request == s.tasks[i].request)
            && (t.tasks[i].phase.CalledBack? ==>
                 s.tasks[i].phase.CalledBack? || (a == CallBack(i) && t.tasks[i].request == s.tasks[i].request))
  {}

  /** An entry after a step is an old one, the inserted copy, or the result of a callback. */
  lemma EntryStep(cfg: Config, s: System, a: Action, k: string)
    requires Step(cfg, s, a).Some? && k in Step(cfg, s, a).value.requests
    ensures var t := Step(cfg, s, a).value;
            || (k in s.requests && t.requests[k] == s.requests[k])
            || (a.Insert? && s.main.Copying? && s.main.key == Some(k) && s.main.copy == Some(t.requests[k]))
            || (a.CallBack? && a.task < |s.tasks| && s.tasks[a.task].phase.Finished? &&
                k == s.tasks[a.task].request.taskId && t.requests[k] == s.tasks[a.task].request)
  {}

  lemma EntryKept(cfg: Config, ids: seq<string>, s: System, a: Action, k: string, i: nat)
    requires TasksInv(ids, s) && EntryOf(s, k, i) && Step(cfg, s, a).Some?
    ensures k in Step(cfg, s, a).value.requests
    ensures Step(cfg, s, a).value.requests[k] == s.requests[k] ==> EntryOf(Step(cfg, s, a).value, k, i)
  {
    assert k in Step(cfg, s, a).value.requests;
    assert i < |ids| by { hide Step; }
    TaskKept(cfg, ids, s, a, i);
    hide Step, TasksInv;
  }

  lemma EntryInserted(cfg: Config, ids: seq<string>, s: System, k: string)
    requires TasksInv(ids, s) && MainInv(s) && Step(cfg, s, Insert).Some?
    requires var t := Step(cfg, s, Insert).value;
             k in t.requests && s.main.Copying? && s.main.key == Some(k) && s.main.copy == Some(t.requests[k])
    ensures EntryOf(Step(cfg, s, Insert).value, k, s.next)
  {}

  lemma EntryCalledBack(cfg: Config, ids: seq<string>, s: System, i: nat, k: string)
    requires TasksInv(ids, s) && Step(cfg, s, CallBack(i)).Some?
    requires i < |s.tasks| && s.tasks[i].phase.Finished? && k == s.tasks[i].request.taskId
    ensures EntryOf(Step(cfg, s, CallBack(i)).value, k, i)
  {}

  lemma EntriesStep(cfg: Config, ids: seq<string>, s: System, a: Action, k: string) returns (i: nat)
    requires TasksInv(ids, s) && MainInv(s) && MapInv(s) && Step(cfg, s, a).Some?
    requires k in Step(cfg, s, a).value.requests
    ensures EntryOf(Step(cfg, s, a).value, k, i)
  {
    hide Step, TasksInv, MainInv, EntryOf;
    var t := Step(cfg, s, a).value;
    EntryStep(cfg, s, a, k);
    if k in s.requests && t.requests[k] == s.requests[k] {
      i :| EntryOf(s, k, i);
      EntryKept(cfg, ids, s, a, k, i);
    } else if a.Insert? {
      i := s.next;
      EntryInserted(cfg, ids, s, k);
    } else {
      i := a.task;
      EntryCalledBack(cfg, ids, s, i, k);
    }
  }

  /** The entry of a task that has called back stays. */
  lemma CalledBackKept(cfg: Config, ids: seq<string>, s: System, a: Action, i: nat)
    requires Distinct(ids) && TasksInv(ids, s) && i < |ids| && Step(cfg, s, a).Some?
    requires s.tasks[i].phase.CalledBack? && s.tasks[i].id in s.requests &&
             s.requests[s.tasks[i].id] == s.tasks[i].request
    ensures var t := Step(cfg, s, a).value;
            s.tasks[i].id in t.requests && t.requests[s.tasks[i].id] == s.tasks[i].request
  {
    if a.CallBack? { assert a.task != i && ids[a.task] != ids[i]; }
  }

  lemma CalledBackNow(cfg: Config, ids: seq<string>, s: System, i: nat)
    requires TasksInv(ids, s) && i < |ids| && Step(cfg, s, CallBack(i)).Some?
    ensures var t := Step(cfg, s, CallBack(i)).value;
            s.tasks[i].id in t.requests && t.requests[s.tasks[i].id] == s.tasks[i].request
  {}

  lemma MapStep(cfg: Config, ids: seq<string>, s: System, a: Action)
    requires Distinct(ids) && TasksInv(ids, s) && MainInv(s) && MapInv(s) && Step(cfg, s, a).Some?
    ensures MapInv(Step(cfg, s, a).value)
  {
    assert |s.tasks| == |ids|;
    hide Step, TasksInv, MainInv, EntryOf, Distinct;
    var t := Step(cfg, s, a).value;
    forall k | k in t.requests
      ensures exists i: nat :: EntryOf(t, k, i)
    {
      var i := EntriesStep(cfg, ids, s, a, k);
    }
    assert |t.tasks| == |ids| by { SizeKept(cfg, s, a); }
    forall i | 0 <= i < |t.tasks| && t.tasks[i].phase.CalledBack?
      ensures t.tasks[i].id in t.requests && t.requests[t.tasks[i].id] == t.tasks[i].request
    {
      TaskKept(cfg, ids, s, a, i);
      if s.tasks[i].phase.CalledBack? {
        CalledBackKept(cfg, ids, s, a, i);
      } else {
        CalledBackNow(cfg, ids, s, i);
      }
    }
  }

  lemma SizeKept(cfg: Config, s: System, a: Action)
    requires Step(cfg, s, a).Some?
    ensures |Step(cfg, s, a).value.tasks| == |s.tasks|
  {}

  lemma KeyStep(cfg: Config, ids: seq<string>, s: System, a: Action)
    requires cfg.idFirst && Distinct(ids) && TasksInv(ids, s) && KeyInv(s) && Step(cfg, s, a).Some?
    ensures KeyInv(Step(cfg, s, a).value)
  {}

  /** The task of that id has called back. */
  ghost predicate CalledBackAs(tasks: seq<Task>, i: nat, k: string) {
    i < |tasks| && tasks[i].phase.CalledBack? && tasks[i].id == k
  }

  /** With `copyFirst` every terminal entry was written by a callback. */
  ghost predicate CopyInv(s: System) {
    && (s.main.Copying? && s.main.copy.Some? ==> s.main.copy.value.event == TaskUnknown)
    && (forall k | k in TerminalKeys(s.requests) :: exists i: nat :: CalledBackAs(s.tasks, i, k))
  }

  lemma CopyTaken(cfg: Config, ids: seq<string>, s: System, a: Action)
    requires cfg.copyFirst && TasksInv(ids, s) && CopyInv(s) && Step(cfg, s, a).Some?
    ensures var t := Step(cfg, s, a).value;
            t.main.Copying? && t.main.copy.Some? ==> t.main.copy.value.event == TaskUnknown
  {}

  lemma CopyStep(cfg: Config, ids: seq<string>, s: System, a: Action)
    requires cfg.copyFirst && TasksInv(ids, s) && CopyInv(s) && Step(cfg, s, a).Some?
    ensures CopyInv(Step(cfg, s, a).value)
  {
    assert |s.tasks| == |ids|;
    hide Step, TasksInv;
    var t := Step(cfg, s, a).value;
    CopyTaken(cfg, ids, s, a);
    forall k | k in TerminalKeys(t.requests)
      ensures exists i: nat :: CalledBackAs(t.tasks, i, k)
    {
      EntryStep(cfg, s, a, k);
      if k in s.requests && t.requests[k] == s.requests[k] {
        assert k in TerminalKeys(s.requests);
        var i: nat :| CalledBackAs(s.tasks, i, k);
        StaysCalledBack(cfg, ids, s, a, i);
      } else {
        assert a.CallBack?;
        NowCalledBack(cfg, ids, s, a.task);
      }
    }
  }

  lemma StaysCalledBack(cfg: Config, ids: seq<string>, s: System, a: Action, i: nat)
    requires TasksInv(ids, s) && Step(cfg, s, a).Some? && i < |ids| && s.tasks[i].phase.CalledBack?
    ensures CalledBackAs(Step(cfg, s, a).value.tasks, i, s.tasks[i].id)
  {}

  lemma NowCalledBack(cfg: Config, ids: seq<string>, s: System, i: nat)
    requires TasksInv(ids, s) && Step(cfg, s, CallBack(i)).Some? && i < |ids|
    ensures CalledBackAs(Step(cfg, s, CallBack(i)).value.tasks, i, s.tasks[i].request.taskId)
  {}

  lemma StartedIdsInsert(cfg: Config, ids: seq<string>, s: System)
    requires Distinct(ids) && TasksInv(ids, s) && Step(cfg, s, Insert).Some?
    ensures var t := Step(cfg, s, Insert).value;
            StartedIds(t) == StartedIds(s) + {ids[s.next]} && ids[s.next] !in StartedIds(s) && t.cnt == s.cnt + 1
  {
    var t := Step(cfg, s, Insert).value;
    assert t.tasks == s.tasks && t.next == s.next + 1;
    hide Step;
    assert s.tasks[s.next].id == ids[s.next] && Started(s.tasks[s.next]);
    assert forall i | 0 <= i < s.next :: s.tasks[i].id == ids[i] != ids[s.next];
  }

  /** Below `next` no step starts a task or takes one back. */
  lemma StartedKept(cfg: Config, ids: seq<string>, s: System, a: Action)
    requires TasksInv(ids, s) && Step(cfg, s, a).Some? && !a.Insert?
    ensures var t := Step(cfg, s, a).value;
            && t.cnt == s.cnt && |t.tasks| == |s.tasks| && s.next <= t.next <= s.next + 1
            && (t.next > s.next ==> t.tasks[s.next].phase.Refused?)
            && forall i | 0 <= i < s.next ::
                 t.tasks[i].id == s.tasks[i].id && Started(t.tasks[i]) == Started(s.tasks[i])
  {}

  lemma StartedIdsKept(s: System, t: System)
    requires |t.tasks| == |s.tasks| && s.next <= t.next <= s.next + 1 && s.next <= |s.tasks|
    requires t.next > s.next && s.next < |s.tasks| ==> t.tasks[s.next].phase.Refused?
    requires forall i | 0 <= i < s.next :: t.tasks[i].id == s.tasks[i].id && Started(t.tasks[i]) == Started(s.tasks[i])
    ensures StartedIds(t) == StartedIds(s)
  {
    forall k | k in StartedIds(t) ensures k in StartedIds(s) {
      var i :| 0 <= i < t.next && i < |t.tasks| && Started(t.tasks[i]) && t.tasks[i].id == k;
      assert i < s.next;
    }
    forall k | k in StartedIds(s) ensures k in StartedIds(t) {
      var i :| 0 <= i < s.next && i < |s.tasks| && Started(s.tasks[i]) && s.tasks[i].id == k;
      assert Started(t.tasks[i]);
    }
  }

  lemma CountStep(cfg: Config, ids: seq<string>, s: System, a: Action)
    requires Distinct(ids) && TasksInv(ids, s) && s.cnt == |StartedIds(s)| && Step(cfg, s, a).Some?
    ensures var t := Step(cfg, s, a).value; t.cnt == |StartedIds(t)|
  {
    hide Step, StartedIds, Distinct;
    if a.Insert? {
      StartedIdsInsert(cfg, ids, s);
    } else {
      StartedKept(cfg, ids, s, a);
      hide TasksInv;
      StartedIdsKept(s, Step(cfg, s, a).value);
    }
  }

  ghost predicate SystemInv(cfg: Config, ids: seq<string>, s: System) {
    TasksInv(ids, s) && MainInv(s) && MapInv(s) && s.cnt == |StartedIds(s)|
    && (cfg.idFirst ==> KeyInv(s)) && (cfg.copyFirst ==> CopyInv(s))
  }

  lemma InitialInv(cfg: Config, ids: seq<string>)
    ensures SystemInv(cfg, ids, Initial(ids))
  {}

  lemma {:induction false} RunInv(cfg: Config, ids: seq<string>, schedule: seq<Action>)
    requires Distinct(ids) && Run(cfg, ids, schedule).Some?
    ensures SystemInv(cfg, ids, Run(cfg, ids, schedule).value)
  {
    hide Step, Initial, TasksInv, MainInv, MapInv, KeyInv, CopyInv, StartedIds, Distinct;
    if schedule == [] {
      InitialInv(cfg, ids);
    } else {
      var n := |schedule| - 1;
      var s, a := Run(cfg, ids, schedule[..n]).value, schedule[n];
      RunInv(cfg, ids, schedule[..n]);
      TasksStep(cfg, ids, s, a);
      MainStep(cfg, ids, s, a);
      MapStep(cfg, ids, s, a);
      CountStep(cfg, ids, s, a);
      if cfg.idFirst { KeyStep(cfg, ids, s, a); }
      if cfg.copyFirst { CopyStep(cfg, ids, s, a); }
    }
  }

  // ---- One terminal map for all orders ----

  /** Main has applied for all tasks, and every started one has called back. */
  predicate AllCalledBack(s: System) {
    s.next >= |s.tasks| && forall i | 0 <= i < |s.tasks| :: Started(s.tasks[i]) ==> s.tasks[i].phase.CalledBack?
  }

  ghost predicate Owns(tasks: seq<Task>, i: nat, k: string) {
    i < |tasks| && Started(tasks[i]) && tasks[i].id == k
  }

  /** Each started task has its result under its id, and there is nothing else, except under the empty key. */
  ghost predicate HoldsResults(m: Requests, tasks: seq<Task>) {
    && (forall i: nat, k | Owns(tasks, i, k) :: k in m && m[k] == tasks[i].request)
    && (forall k | k in m && k != "" :: exists i: nat :: Owns(tasks, i, k))
  }

  lemma HoldsResultsUnique(m: Requests, m': Requests, tasks: seq<Task>)
    requires HoldsResults(m, tasks) && HoldsResults(m', tasks)
    ensures m - {""} == m' - {""}
  {
    hide Owns;
    forall k | k in m && k != "" ensures k in m' && m'[k] == m[k] {
      var i: nat :| Owns(tasks, i, k);
    }
    forall k | k in m' && k != "" ensures k in m {
      var i: nat :| Owns(tasks, i, k);
    }
  }

  lemma EntryOwned(s: System, k: string, i: nat)
    requires EntryOf(s, k, i) && k != ""
    ensures Owns(s.tasks, i, k)
  {}

  lemma OwnedEntry(s: System, k: string, i: nat)
    requires MapInv(s) && AllCalledBack(s) && Owns(s.tasks, i, k)
    ensures k in s.requests && s.requests[k] == s.tasks[i].request
  {
    hide EntryOf;
  }

  lemma MapHoldsResults(s: System)
    requires MapInv(s) && AllCalledBack(s)
    ensures HoldsResults(s.requests, s.tasks)
  {
    forall i: nat, k | Owns(s.tasks, i, k)
      ensures k in s.requests && s.requests[k] == s.tasks[i].request
    {
      OwnedEntry(s, k, i);
    }
    hide Owns, EntryOf, AllCalledBack;
    forall k | k in s.requests && k != ""
      ensures exists i: nat :: Owns(s.tasks, i, k)
    {
      var i: nat :| EntryOf(s, k, i);
      EntryOwned(s, k, i);
    }
  }

  /**
   Whatever the order of insertions and callbacks, in the end the map holds the result of each
   started task under its id and, unless ids come first, at most one more entry, under the empty key.
   */
  lemma TerminalMap(cfg: Config, ids: seq<string>, schedule: seq<Action>, s: System)
    requires Distinct(ids) && Reaches(cfg, ids, schedule, s) && AllCalledBack(s)
    ensures HoldsResults(s.requests, s.tasks)
    ensures cfg.idFirst ==> "" !in s.requests
  {
    RunInv(cfg, ids, schedule);
    hide Run, TasksInv, MainInv, MapInv, AllCalledBack, HoldsResults, StartedIds, Distinct;
    MapHoldsResults(s);
  }

  /** Two runs in which the tasks end the same end in the same map, but for the empty key. */
  lemma Confluent(cfg: Config, ids: seq<string>, schedule: seq<Action>, s: System,
                  schedule': seq<Action>, s': System)
    requires Distinct(ids) && Reaches(cfg, ids, schedule, s) && Reaches(cfg, ids, schedule', s')
    requires AllCalledBack(s) && AllCalledBack(s') && s.tasks == s'.tasks
    ensures s.requests - {""} == s'.requests - {""}
    ensures cfg.idFirst ==> s.requests == s'.requests
  {
    hide Reaches, Distinct, AllCalledBack, HoldsResults;
    TerminalMap(cfg, ids, schedule, s);
    TerminalMap(cfg, ids, schedule', s');
    HoldsResultsUnique(s.requests, s'.requests, s.tasks);
    if cfg.idFirst {
      assert s.requests - {""} == s.requests && s'.requests - {""} == s'.requests;
    }
  }

  // ---- Terminal entries stay ----

  lemma TerminalStep(cfg: Config, ids: seq<string>, s: System, a: Action, k: string)
    requires Distinct(ids) && TasksInv(ids, s) && MapInv(s) && Step(cfg, s, a).Some?
    requires k in TerminalKeys(s.requests)
    ensures k in Step(cfg, s, a).value.requests && Step(cfg, s, a).value.requests[k] == s.requests[k]
  {
    assert k in s.requests;
    if a.CallBack? && s.tasks[a.task].request.taskId == k {
      assert s.tasks[a.task].phase.Finished?;
      hide Step;
      TerminalSame(ids, s, a.task, k);
    } else {
      hide TasksInv, MapInv, Distinct, TerminalKeys;
      OtherEntriesStay(cfg, s, a, k);
    }
  }

  lemma OtherEntriesStay(cfg: Config, s: System, a: Action, k: string)
    requires Step(cfg, s, a).Some? && k in s.requests
    requires a.CallBack? && a.task < |s.tasks| ==> s.tasks[a.task].request.taskId != k
    ensures k in Step(cfg, s, a).value.requests && Step(cfg, s, a).value.requests[k] == s.requests[k]
  {}

  /** What the callback of a task writes over a terminal entry is the same. */
  lemma TerminalSame(ids: seq<string>, s: System, i: nat, k: string)
    requires Distinct(ids) && TasksInv(ids, s) && MapInv(s) && i < |ids| && s.tasks[i].phase.Finished?
    requires k in TerminalKeys(s.requests) && s.tasks[i].request.taskId == k
    ensures s.requests[k] == s.tasks[i].request
  {
    var j: nat :| EntryOf(s, k, j);
    assert ids[j] == k == ids[i];
  }

  lemma {:induction false} NeverOverwritten(cfg: Config, ids: seq<string>, schedule: seq<Action>, s: System,
                                            more: seq<Action>, t: System, k: string)
    requires Distinct(ids) && Reaches(cfg, ids, schedule, s) && Reaches(cfg, ids, schedule + more, t)
    requires k in TerminalKeys(s.requests)
    ensures k in t.requests && t.requests[k] == s.requests[k]
  {
    if more == [] {
      assert schedule + more == schedule;
    } else {
      var n := |more| - 1;
      var before := schedule + more[..n];
      assert (schedule + more)[..|schedule| + n] == before;
      assert (schedule + more)[|schedule| + n] == more[n];
      var u := Run(cfg, ids, before).value;
      hide Step, TasksInv, MainInv, MapInv, KeyInv, CopyInv, StartedIds, Distinct;
      NeverOverwritten(cfg, ids, schedule, s, more[..n], u, k);
      RunInv(cfg, ids, before);
      TerminalStep(cfg, ids, u, more[n], k);
    }
  }

  // ---- Where the results come from ----

  /** The i-th task has ended with this event and text. */
  ghost predicate EndedAs(schedule: seq<Action>, i: nat, event: Event, text: string) {
    exists k :: 0 <= k < |schedule| && schedule[k] == Finish(i, event, text)
  }

  lemma DoneStep(cfg: Config, ids: seq<string>, s: System, a: Action, i: nat)
    requires TasksInv(ids, s) && Step(cfg, s, a).Some? && i < |ids|
    requires Done(Step(cfg, s, a).value.tasks[i])
    ensures var r := Step(cfg, s, a).value.tasks[i].request;
            if Done(s.tasks[i]) then r == s.tasks[i].request
            else a == Finish(i, r.event, r.text) && r.taskId == ids[i]
  {}

  lemma {:induction false} ResultIsAsEnded(cfg: Config, ids: seq<string>, schedule: seq<Action>, s: System, i: nat)
    requires Distinct(ids) && Reaches(cfg, ids, schedule, s) && i < |ids| == |s.tasks| && Done(s.tasks[i])
    ensures s.tasks[i].request.taskId == ids[i]
    ensures EndedAs(schedule, i, s.tasks[i].request.event, s.tasks[i].request.text)
  {
    if schedule == [] {
      InitialInv(cfg, ids);
    } else {
      var n := |schedule| - 1;
      var t, a := Run(cfg, ids, schedule[..n]).value, schedule[n];
      RunInv(cfg, ids, schedule[..n]);
      hide Run, Step, MainInv, MapInv, KeyInv, CopyInv, StartedIds, Distinct;
      DoneStep(cfg, ids, t, a, i);
      if Done(t.tasks[i]) {
        ResultIsAsEnded(cfg, ids, schedule[..n], t, i);
        var k :| 0 <= k < n && schedule[..n][k] == Finish(i, t.tasks[i].request.event, t.tasks[i].request.text);
        assert schedule[k] == schedule[..n][k];
      }
    }
  }

  /** When a task has called back, the map has under its id what the task ended with. */
  lemma MapIsAsEnded(cfg: Config, ids: seq<string>, schedule: seq<Action>, s: System, i: nat)
    requires Distinct(ids) && Reaches(cfg, ids, schedule, s) && i < |ids| == |s.tasks|
    requires s.tasks[i].phase.CalledBack?
    ensures ids[i] in s.requests
    ensures var r := s.requests[ids[i]]; r.taskId == ids[i] && EndedAs(schedule, i, r.event, r.text)
  {
    RunInv(cfg, ids, schedule);
    hide Run, MainInv, KeyInv, CopyInv, StartedIds, Distinct, EndedAs;
    ResultIsAsEnded(cfg, ids, schedule, s, i);
  }

  // ---- When waitComplete leaves ----

  /** What `waitComplete` compares, once main has applied for all tasks. */
  predicate Leaves(s: System) {
    |TerminalKeys(s.requests)| == s.cnt
  }

  lemma SubsetSize<T>(a: set<T>, b: set<T>)
    requires a <= b && |a| == |b|
    ensures a == b
  {
    assert b == a + (b - a);
  }

  lemma TerminalKeyStarted(ids: seq<string>, s: System, k: string)
    requires TasksInv(ids, s) && MapInv(s) && s.next >= |s.tasks| && k in TerminalKeys(s.requests) && k != ""
    ensures k in StartedIds(s)
  {
    var i: nat :| EntryOf(s, k, i);
  }

  lemma StartedKeyTerminal(ids: seq<string>, s: System, k: string)
    requires Distinct(ids) && TasksInv(ids, s) && MapInv(s) && AllCalledBack(s) && k in StartedIds(s)
    ensures k in TerminalKeys(s.requests) && k != ""
  {
    hide EntryOf;
    var i :| 0 <= i < s.next && i < |s.tasks| && Started(s.tasks[i]) && s.tasks[i].id == k;
    assert ids[i] != "" && TaskInv(s.tasks[i]);
  }

  lemma WithoutStray(keys: set<string>, ids: set<string>)
    requires keys - {""} == ids
    ensures |keys| == |ids| <==> "" !in keys
  {
    if "" in keys { assert keys == ids + {""}; } else { assert keys == ids; }
  }

  /** Without the empty key the terminal entries are those of the started tasks. */
  lemma TerminalIds(ids: seq<string>, s: System)
    requires Distinct(ids) && TasksInv(ids, s) && MapInv(s) && AllCalledBack(s)
    ensures TerminalKeys(s.requests) - {""} == StartedIds(s)
  {
    assert s.next >= |s.tasks|;
    hide TasksInv, MapInv, AllCalledBack, StartedIds, Distinct, TerminalKeys;
    forall k | k in TerminalKeys(s.requests) && k != "" ensures k in StartedIds(s) {
      TerminalKeyStarted(ids, s, k);
    }
    forall k | k in StartedIds(s) ensures k in TerminalKeys(s.requests) && k != "" {
      StartedKeyTerminal(ids, s, k);
    }
  }

  /** Once every started task has called back, the next recount is the last exactly if no terminal copy is stray. */
  lemma LeavesExactly(cfg: Config, ids: seq<string>, schedule: seq<Action>, s: System)
    requires Distinct(ids) && Reaches(cfg, ids, schedule, s) && AllCalledBack(s)
    ensures Leaves(s) <==> "" !in TerminalKeys(s.requests)
  {
    hide Run, TasksInv, MainInv, MapInv, KeyInv, CopyInv, AllCalledBack, StartedIds, Distinct, TerminalKeys;
    RunInv(cfg, ids, schedule);
    TerminalIds(ids, s);
    WithoutStray(TerminalKeys(s.requests), StartedIds(s));
  }

  predicate StartedAreDone(s: System) {
    forall i | 0 <= i < |s.tasks| :: Started(s.tasks[i]) ==> Done(s.tasks[i])
  }

  /** A terminal entry under an id means that its task is done. */
  lemma TerminalMeansDone(ids: seq<string>, s: System, i: nat)
    requires Distinct(ids) && TasksInv(ids, s) && MapInv(s) && i < |ids| && ids[i] in TerminalKeys(s.requests)
    ensures Done(s.tasks[i])
  {
    var j: nat :| EntryOf(s, ids[i], j);
    assert ids[j] == ids[i];
  }

  /** Either assumption keeps terminal copies from under the empty key. */
  lemma NoStray(cfg: Config, ids: seq<string>, s: System)
    requires Distinct(ids) && SystemInv(cfg, ids, s) && (cfg.idFirst || cfg.copyFirst)
    ensures "" !in TerminalKeys(s.requests)
  {
    assert forall i | 0 <= i < |ids| :: s.tasks[i].id == ids[i] != "";
    assert forall i: nat :: !CalledBackAs(s.tasks, i, "");
  }

  lemma LeavesWhenDone(cfg: Config, ids: seq<string>, s: System)
    requires Distinct(ids) && SystemInv(cfg, ids, s) && s.next >= |s.tasks| && Leaves(s)
    requires "" !in TerminalKeys(s.requests)
    ensures TerminalKeys(s.requests) == StartedIds(s) && StartedAreDone(s)
  {
    hide MainInv, KeyInv, CopyInv;
    forall k | k in TerminalKeys(s.requests) ensures k in StartedIds(s) {
      TerminalKeyStarted(ids, s, k);
    }
    SubsetSize(TerminalKeys(s.requests), StartedIds(s));
    hide MapInv, Distinct;
    forall i | 0 <= i < |s.tasks| && Started(s.tasks[i]) ensures Done(s.tasks[i]) {
      assert ids[i] in StartedIds(s);
      TerminalMeansDone(ids, s, i);
    }
  }

  lemma SingleLeavesWhenDone(cfg: Config, ids: seq<string>, s: System)
    requires Distinct(ids) && SystemInv(cfg, ids, s) && |ids| <= 1 && s.next >= |s.tasks| && Leaves(s)
    ensures StartedAreDone(s)
  {
    hide MainInv, KeyInv, CopyInv;
    if i :| 0 <= i < |s.tasks| && Started(s.tasks[i]) {
      assert s.tasks[0].id in StartedIds(s);
      assert TerminalKeys(s.requests) != {};
      var k :| k in TerminalKeys(s.requests);
      var j: nat :| EntryOf(s, k, j);
    }
  }

  /** With `copyFirst` the terminal entries are the callbacks that are over. */
  lemma LeavesAfterCallbacks(cfg: Config, ids: seq<string>, s: System)
    requires cfg.copyFirst && Distinct(ids) && SystemInv(cfg, ids, s) && s.next >= |s.tasks| && Leaves(s)
    ensures AllCalledBack(s)
  {
    NoStray(cfg, ids, s);
    LeavesWhenDone(cfg, ids, s);
    hide MainInv, MapInv, KeyInv, TerminalKeys, Leaves, StartedAreDone;
    forall i | 0 <= i < |s.tasks| && Started(s.tasks[i]) ensures s.tasks[i].phase.CalledBack? {
      assert s.tasks[i].id in StartedIds(s);
      var j: nat :| CalledBackAs(s.tasks, j, s.tasks[i].id);
      assert ids[j] == ids[i];
    }
  }

  // ---- Stray copies ----

  lemma Go(cfg: Config, ids: seq<string>, schedule: seq<Action>, s: System, a: Action)
    returns (schedule': seq<Action>, s': System)
    requires Reaches(cfg, ids, schedule, s) && Step(cfg, s, a).Some?
    ensures Reaches(cfg, ids, schedule', s') && Step(cfg, s, a) == Some(s')
  {
    hide Step;
    schedule', s' := schedule + [a], Step(cfg, s, a).value;
    assert schedule'[..|schedule|] == schedule;
  }

  lemma Begin(cfg: Config, ids: seq<string>) returns (schedule: seq<Action>)
    ensures Reaches(cfg, ids, schedule, Initial(ids))
  {
    schedule := [];
  }

  /** Main reads the empty key, then the task gets its id and its result, then main copies it. */
  lemma StrayCopy(cfg: Config, ids: seq<string>) returns (schedule: seq<Action>, s: System)
    requires |ids| > 0 && !cfg.idFirst && !cfg.copyFirst
    ensures Reaches(cfg, ids, schedule, s) && |s.tasks| == |ids| && s.next == 0 && s.requests == map[] && s.cnt == 0
    ensures s.tasks[0].phase.Finished? && s.tasks[0].request == FileTrans(ids[0], TaskCompleted, "")
    ensures s.main == Copying(Some(""), Some(s.tasks[0].request))
    ensures forall i | 0 < i < |ids| :: s.tasks[i] == Task(ids[i], Pending, FileTrans("", TaskUnknown, ""))
  {
    hide Reaches;
    schedule := Begin(cfg, ids);
    s := Initial(ids);
    schedule, s := Go(cfg, ids, schedule, s, Apply(true, TaskUnknown));
    schedule, s := Go(cfg, ids, schedule, s, ReadKey);
    schedule, s := Go(cfg, ids, schedule, s, SetId(0));
    schedule, s := Go(cfg, ids, schedule, s, Finish(0, TaskCompleted, ""));
    schedule, s := Go(cfg, ids, schedule, s, CopyRequest);
  }

  /** Both the stray copy and the result of the first task are in the map. */
  lemma CountedTwice(cfg: Config, ids: seq<string>) returns (schedule: seq<Action>, s: System)
    requires Distinct(ids) && |ids| > 0 && !cfg.idFirst && !cfg.copyFirst
    ensures Reaches(cfg, ids, schedule, s) && |s.tasks| == |ids| && s.next == 1 && s.main.Applying? && s.cnt == 1
    ensures TerminalKeys(s.requests) == {"", ids[0]} && "" in s.requests
    ensures s.tasks[0].phase.CalledBack?
    ensures forall i | 0 < i < |ids| :: s.tasks[i] == Task(ids[i], Pending, FileTrans("", TaskUnknown, ""))
  {
    hide Reaches;
    schedule, s := StrayCopy(cfg, ids);
    schedule, s := Go(cfg, ids, schedule, s, Insert);
    schedule, s := Go(cfg, ids, schedule, s, CallBack(0));
  }

  /** Main goes on, and every other task is refused. */
  lemma {:induction false} RefuseRest(cfg: Config, ids: seq<string>, schedule: seq<Action>, s: System)
    returns (schedule': seq<Action>, s': System)
    requires Reaches(cfg, ids, schedule, s) && s.main.Applying? && s.next <= |s.tasks|
    ensures Reaches(cfg, ids, schedule', s') && s'.next == |s'.tasks| == |s.tasks|
    ensures s'.requests == s.requests && s'.cnt == s.cnt
    ensures forall i | 0 <= i < s.next :: s'.tasks[i] == s.tasks[i]
    ensures forall i | s.next <= i < |s.tasks| :: s'.tasks[i].phase.Refused?
    decreases |s.tasks| - s.next
  {
    hide Reaches;
    if s.next == |s.tasks| {
      schedule', s' := schedule, s;
    } else {
      schedule', s' := Go(cfg, ids, schedule, s, Apply(false, TaskFailed));
      schedule', s' := RefuseRest(cfg, ids, schedule', s');
    }
  }

  /** All tasks have called back, and no recount is the last. */
  lemma NeverLeaves(cfg: Config, ids: seq<string>) returns (schedule: seq<Action>, s: System)
    requires Distinct(ids) && |ids| > 0 && !cfg.idFirst && !cfg.copyFirst
    ensures Reaches(cfg, ids, schedule, s) && AllCalledBack(s) && !Leaves(s)
  {
    hide Reaches, TerminalKeys;
    schedule, s := CountedTwice(cfg, ids);
    schedule, s := RefuseRest(cfg, ids, schedule, s);
  }

  /** A second task has been started without any result, and the next recount is the last. */
  lemma LeavesEarly(cfg: Config, ids: seq<string>) returns (schedule: seq<Action>, s: System)
    requires Distinct(ids) && |ids| > 1 && !cfg.idFirst && !cfg.copyFirst
    ensures Reaches(cfg, ids, schedule, s) && s.next >= |s.tasks| && Leaves(s) && !StartedAreDone(s)
  {
    hide Reaches, TerminalKeys;
    schedule, s := CountedTwice(cfg, ids);
    schedule, s := Go(cfg, ids, schedule, s, Apply(true, TaskUnknown));
    schedule, s := Go(cfg, ids, schedule, s, ReadKey);
    schedule, s := Go(cfg, ids, schedule, s, CopyRequest);
    schedule, s := Go(cfg, ids, schedule, s, Insert);
    schedule, s := RefuseRest(cfg, ids, schedule, s);
    assert Started(s.tasks[1]) && !Done(s.tasks[1]);
  }

  /** The only task has its result before main copies it, and its callback is still to come. */
  lemma LeavesBeforeCallback(cfg: Config, ids: seq<string>) returns (schedule: seq<Action>, s: System)
    requires Distinct(ids) && |ids| > 0 && !cfg.copyFirst
    ensures Reaches(cfg, ids, schedule, s) && s.next >= |s.tasks| && Leaves(s) && !AllCalledBack(s)
  {
    hide Reaches, TerminalKeys;
    schedule, s := ResultCopied(cfg, ids);
    schedule, s := RefuseRest(cfg, ids, schedule, s);
    assert Started(s.tasks[0]) && !s.tasks[0].phase.CalledBack?;
  }

  lemma ResultCopied(cfg: Config, ids: seq<string>) returns (schedule: seq<Action>, s: System)
    requires |ids| > 0 && !cfg.copyFirst
    ensures Reaches(cfg, ids, schedule, s) && |s.tasks| == |ids| && s.next == 1 && s.main.Applying? && s.cnt == 1
    ensures TerminalKeys(s.requests) == {ids[0]} && s.tasks[0].phase.Finished?
  {
    hide Reaches;
    schedule := Begin(cfg, ids);
    s := Initial(ids);
    schedule, s := Go(cfg, ids, schedule, s, Apply(true, TaskUnknown));
    schedule, s := Go(cfg, ids, schedule, s, SetId(0));
    schedule, s := Go(cfg, ids, schedule, s, ReadKey);
    schedule, s := Go(cfg, ids, schedule, s, Finish(0, TaskCompleted, ""));
    schedule, s := Go(cfg, ids, schedule, s, CopyRequest);
    schedule, s := Go(cfg, ids, schedule, s, Insert);
  }

  // ---- When the join is right ----

  /** `waitComplete` leaves only when every started task is done. */
  ghost predicate LeavesOnlyWhenDone(cfg: Config, ids: seq<string>) {
    forall schedule: seq<Action>, s: System
      | Reaches(cfg, ids, schedule, s) && s.next >= |s.tasks| && Leaves(s) :: StartedAreDone(s)
  }

  /** It leaves only when the callback of every started task is over, so main may drop the map. */
  ghost predicate LeavesOnlyAfterCallbacks(cfg: Config, ids: seq<string>) {
    forall schedule: seq<Action>, s: System
      | Reaches(cfg, ids, schedule, s) && s.next >= |s.tasks| && Leaves(s) :: AllCalledBack(s)
  }

  /** When every started task has called back, the next recount is the last. */
  ghost predicate LeavesWhenCalledBack(cfg: Config, ids: seq<string>) {
    forall schedule: seq<Action>, s: System | Reaches(cfg, ids, schedule, s) && AllCalledBack(s) :: Leaves(s)
  }

  lemma LeavesOnlyWhenDoneExactly(cfg: Config, ids: seq<string>)
    requires Distinct(ids)
    ensures LeavesOnlyWhenDone(cfg, ids) <==> cfg.idFirst || cfg.copyFirst || |ids| <= 1
  {
    hide Distinct, Leaves, StartedAreDone, SystemInv;
    if cfg.idFirst || cfg.copyFirst || |ids| <= 1 {
      forall schedule: seq<Action>, s: System
        | Reaches(cfg, ids, schedule, s) && s.next >= |s.tasks| && Leaves(s)
        ensures StartedAreDone(s)
      {
        RunInv(cfg, ids, schedule);
        if cfg.idFirst || cfg.copyFirst {
          NoStray(cfg, ids, s);
          LeavesWhenDone(cfg, ids, s);
        } else {
          SingleLeavesWhenDone(cfg, ids, s);
        }
      }
    } else {
      var schedule, s := LeavesEarly(cfg, ids);
    }
  }

  lemma LeavesOnlyAfterCallbacksExactly(cfg: Config, ids: seq<string>)
    requires Distinct(ids)
    ensures LeavesOnlyAfterCallbacks(cfg, ids) <==> cfg.copyFirst || ids == []
  {
    hide Distinct, Leaves, SystemInv;
    if cfg.copyFirst || ids == [] {
      forall schedule: seq<Action>, s: System
        | Reaches(cfg, ids, schedule, s) && s.next >= |s.tasks| && Leaves(s)
        ensures AllCalledBack(s)
      {
        RunInv(cfg, ids, schedule);
        if cfg.copyFirst { LeavesAfterCallbacks(cfg, ids, s); } else { NothingStarted(cfg, ids, s); }
      }
    } else {
      var schedule, s := LeavesBeforeCallback(cfg, ids);
    }
  }

  lemma NothingStarted(cfg: Config, ids: seq<string>, s: System)
    requires SystemInv(cfg, ids, s) && ids == []
    ensures s.tasks == []
  {}

  lemma LeavesWhenCalledBackExactly(cfg: Config, ids: seq<string>)
    requires Distinct(ids)
    ensures LeavesWhenCalledBack(cfg, ids) <==> cfg.idFirst || cfg.copyFirst || ids == []
  {
    hide Distinct, Leaves, SystemInv;
    if cfg.idFirst || cfg.copyFirst || ids == [] {
      forall schedule: seq<Action>, s: System | Reaches(cfg, ids, schedule, s) && AllCalledBack(s)
        ensures Leaves(s)
      {
        RunInv(cfg, ids, schedule);
        if cfg.idFirst || cfg.copyFirst { NoStray(cfg, ids, s); } else { NoEntries(cfg, ids, s); }
        LeavesExactly(cfg, ids, schedule, s);
      }
    } else {
      var schedule, s := NeverLeaves(cfg, ids);
    }
  }

  lemma NoEntries(cfg: Config, ids: seq<string>, s: System)
    requires SystemInv(cfg, ids, s) && ids == []
    ensures TerminalKeys(s.requests) == {}
  {
    assert forall k, i: nat :: !EntryOf(s, k, i);
  }
}
