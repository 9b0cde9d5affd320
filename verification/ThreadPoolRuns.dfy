/** Runs of the thread pool: workers and clients interleaved in any order. */
module ThreadPoolRuns {
  import opened ThreadPoolSpec

  // ----- workers, joiners and clients

  datatype Worker =
    | Fresh             // about to take the mutex at the top of its loop
    | Waiting           // blocked in the wait for work
    | Woken             // out of the wait, about to take the mutex again
    | Running(id: nat)  // executing a task, without the mutex
    | Exited

  datatype Joiner = Ready | Blocked

  /** What has happened to a task so far; no step reads it. */
  datatype Hist = Hist(
    pushes: nat,          // successful pushes
    starts: nat,          // executions begun
    returned: seq<int>,   // what the executions returned
    handed: seq<int>,     // what the joins handed back
    frees: nat)

  datatype State = State(
    core: Core,
    workers: seq<Worker>,
    joiners: map<nat, Joiner>,
    hist: map<nat, Hist>,
    nextId: nat,
    deleted: bool)

  datatype Action =
    | NewTask
    | PushTask(id: nat, woken: nat)        // the waiter a signal would wake
    | Lock(w: nat)                         // a worker takes the mutex and looks for work
    | Spurious(w: nat)                     // a wait for work ends without a signal
    | Return(w: nat, result: int)          // a task function returns
    | CallJoin(id: nat)
    | JoinStep(id: nat)                    // the joiner takes the mutex and looks at the task
    | JoinSpurious(id: nat)
    | DetachTask(id: nat)
    | DeleteTask(id: nat)
    | DeletePool

  function Init(maxThreads: nat): State {
    State(Core([], 0, 0, 0, maxThreads, NoEvent, map[]), [], map[], map[], 0, false)
  }

  /** The clients keep to the header: one joiner per task, no task used after it was detached or freed. */
  predicate Free0(s: State, id: nat) {
    id in s.core.tasks && id !in s.joiners && !s.core.tasks[id].detached
  }

  predicate Enabled(s: State, a: Action) {
    match a
    case NewTask => true
    case PushTask(id, woken) =>
      && !s.deleted && Free0(s, id) && !s.core.tasks[id].inPool
      && (Waiting in s.workers ==> woken < |s.workers| && s.workers[woken] == Waiting)
    case Lock(w) => w < |s.workers| && (s.workers[w] == Fresh || s.workers[w] == Woken)
    case Spurious(w) => w < |s.workers| && s.workers[w] == Waiting
    case Return(w, _) => w < |s.workers| && s.workers[w].Running?
    case CallJoin(id) => !s.deleted && Free0(s, id)
    case JoinStep(id) => !s.deleted && id in s.joiners && s.joiners[id] == Ready
    case JoinSpurious(id) => id in s.joiners && s.joiners[id] == Blocked
    case DetachTask(id) => !s.deleted && Free0(s, id)
    case DeleteTask(id) => Free0(s, id)
    case DeletePool => !s.deleted
  }

  // ----- the invariant

  /** The tasks that are being executed. */
  ghost function Busy(c: Core): set<nat> {
    set id | id in c.tasks && c.tasks[id].inPool && c.tasks[id].taken && !c.tasks[id].finished
  }

  ghost predicate CoreOk(s: State) {
    && Partitioned(s.core)
    && s.core.threads == |s.workers| <= s.core.maxThreads && 1 <= s.core.maxThreads <= TPOOL_MAX_THREADS
    && s.core.running == |Busy(s.core)|
    && (s.deleted <==> s.core.event == TasksEnded)
    && (s.deleted ==> s.core.unassigned == 0 && s.core.running == 0)
  }

  /** Exactly the busy tasks are executed, each by one worker. */
  ghost predicate WorkersOk(s: State) {
    && (forall w :: 0 <= w < |s.workers| && s.workers[w].Running? ==> s.workers[w].id in Busy(s.core))
    && (forall id :: id in Busy(s.core) ==> Running(id) in s.workers)
    && (forall v, w :: 0 <= v < w < |s.workers| && s.workers[v].Running? ==> s.workers[v] != s.workers[w])
    && (!s.deleted ==> Exited !in s.workers)
  }

  predicate Awake(w: Worker) {
    w.Fresh? || w.Woken? || w.Running?
  }

  /** No task waits for a worker while all workers wait for a task. */
  ghost predicate NotStranded(s: State) {
    s.core.unassigned > 0 ==> exists w :: 0 <= w < |s.workers| && Awake(s.workers[w])
  }

  /** A joiner waits for a task that is in the pool, and sleeps only while the task is unfinished. */
  ghost predicate JoinersOk(s: State) {
    && (forall id :: id in s.joiners ==> id in s.core.tasks && s.core.tasks[id].inPool && !s.core.tasks[id].detached)
    && (forall id :: id in s.joiners && s.joiners[id] == Blocked ==> !s.core.tasks[id].finished)
    && (forall id :: id in s.core.tasks && s.core.tasks[id].detached ==>
          s.core.tasks[id].inPool && !s.core.tasks[id].finished)
  }

  /** What has happened to a task fits what its flags say. */
  ghost predicate HistFits(t: Task, h: Hist) {
    && h.frees == 0
    && h.starts == h.pushes - (if t.inPool && !t.taken then 1 else 0)
    && |h.returned| == h.starts - (if t.inPool && t.taken && !t.finished then 1 else 0)
    && |h.handed| == h.pushes - (if t.inPool then 1 else 0)
    && |h.handed| <= |h.returned| && h.handed == h.returned[..|h.handed|]
    && (t.inPool && t.finished ==> t.taken && |h.returned| > 0 && t.result == h.returned[|h.returned| - 1])
  }

  ghost predicate HistOk(s: State) {
    && s.core.tasks.Keys <= s.hist.Keys
    && (forall id :: id in s.hist ==> id < s.nextId)
    && (forall id :: id in s.core.tasks ==> HistFits(s.core.tasks[id], s.hist[id]))
    && (forall id :: id in s.hist && id !in s.core.tasks ==>
          HistEnds(s.hist[id]))
  }

  /** The history of a task that was freed. */
  ghost predicate HistEnds(h: Hist) {
    h.frees == 1 && |h.returned| == h.starts == h.pushes <= |h.handed| + 1 && h.handed <= h.returned
  }

  ghost predicate Inv(s: State) {
    CoreOk(s) && WorkersOk(s) && NotStranded(s) && JoinersOk(s) && HistOk(s)
  }

  // ----- the steps

  function SetHist(s: State, id: nat, h: Hist): State {
    s.(hist := s.hist[id := h])
  }

  /** After the worker that takes a task has left the mutex. */
  function Taken(s: State, w: nat): State
    requires Inv(s) && s.core.unassigned > 0 && w < |s.workers|
  {
    var id := s.core.slots[0];
    SetHist(s.(core := Take(s.core), workers := s.workers[w := Running(id)]),
            id, s.hist[id].(starts := s.hist[id].starts + 1))
  }

  function Returned(s: State, w: nat, result: int): State
    requires Inv(s) && w < |s.workers| && s.workers[w].Running? && s.core.running > 0
  {
    var id := s.workers[w].id;
    SetHist(s.(core := Finish(s.core, id, result),
               workers := s.workers[w := Fresh],
               joiners := if id in s.joiners then s.joiners[id := Ready] else s.joiners),
            id, s.hist[id].(returned := s.hist[id].returned + [result],
                            frees := if s.core.tasks[id].detached then s.hist[id].frees + 1 else s.hist[id].frees))
  }

  function Pushed(s: State, id: nat, woken: nat): State
    requires Inv(s) && Enabled(s, PushTask(id, woken)) && |s.core.slots| < TPOOL_MAX_TASKS
  {
    SetHist(s.(core := Push(s.core, id),
               workers := WorkersAfterPush(s, woken)),
            id, s.hist[id].(pushes := s.hist[id].pushes + 1))
  }

  function Joined(s: State, id: nat): State
    requires Inv(s) && id in s.joiners && s.core.tasks[id].finished
  {
    SetHist(s.(core := Remove(s.core, id), joiners := s.joiners - {id}),
            id, s.hist[id].(handed := s.hist[id].handed + [s.core.tasks[id].result]))
  }

  function Detached(s: State, id: nat): State
    requires Inv(s) && id in s.core.tasks && s.core.tasks[id].inPool
  {
    SetHist(s.(core := Detach(s.core, id)),
            id, s.hist[id].(frees := if s.core.tasks[id].finished then s.hist[id].frees + 1 else s.hist[id].frees))
  }

  function WakeAll(ws: seq<Worker>): (r: seq<Worker>)
    ensures |r| == |ws| && forall i :: 0 <= i < |ws| ==> r[i] == if ws[i] == Waiting then Woken else ws[i]
  {
    seq(|ws|, i requires 0 <= i < |ws| => if ws[i] == Waiting then Woken else ws[i])
  }

  function Next(s: State, a: Action): State
    requires Inv(s) && Enabled(s, a)
  {
    match a
    case NewTask =>
      s.(core := SetTask(s.core, s.nextId, NEW_TASK), hist := s.hist[s.nextId := Hist(0, 0, [], [], 0)],
         nextId := s.nextId + 1)
    case PushTask(id, woken) =>
      if |s.core.slots| >= TPOOL_MAX_TASKS then s else Pushed(s, id, woken)
    case Lock(w) =>
      if s.workers[w] == Woken && s.core.event == TasksEnded then s.(workers := s.workers[w := Exited])
      else if s.core.unassigned == 0 then s.(workers := s.workers[w := Waiting])
      else Taken(s, w)
    case Spurious(w) => s.(workers := s.workers[w := Woken])
    case Return(w, result) => BusyWorker(s, w); Returned(s, w, result)
    case CallJoin(id) => if s.core.tasks[id].inPool then s.(joiners := s.joiners[id := Ready]) else s
    case JoinStep(id) =>
      if s.core.tasks[id].finished then Joined(s, id) else s.(joiners := s.joiners[id := Blocked])
    case JoinSpurious(id) => s.(joiners := s.joiners[id := Ready])
    case DetachTask(id) => if s.core.tasks[id].inPool then Detached(s, id) else s
    case DeleteTask(id) =>
      if s.core.tasks[id].inPool then s
      else SetHist(s.(core := Free(s.core, id)), id, s.hist[id].(frees := s.hist[id].frees + 1))
    case DeletePool =>
      if s.core.unassigned > 0 || s.core.running > 0 then s
      else s.(core := s.core.(event := TasksEnded), workers := WakeAll(s.workers), deleted := true)
  }

  lemma BusyWorker(s: State, w: nat)
    requires CoreOk(s) && WorkersOk(s) && w < |s.workers| && s.workers[w].Running?
    ensures s.core.running > 0 && s.workers[w].id in Busy(s.core)
  {
    var id := s.workers[w].id;
    assert id in Busy(s.core);
    assert Busy(s.core) != {};
  }

  // ----- every step keeps the invariant

  lemma HistStep(s: State, s': State, id: nat)
    requires HistOk(s) && OnlyTask(s.core, s'.core, id) && id in s.core.tasks
    requires s'.nextId == s.nextId && id in s'.hist && s'.hist == s.hist[id := s'.hist[id]]
    requires if id in s'.core.tasks then HistFits(s'.core.tasks[id], s'.hist[id])
             else HistEnds(s'.hist[id])
    ensures HistOk(s')
  {
  }

  lemma JoinersStep(s: State, s': State, id: nat)
    requires JoinersOk(s) && OnlyTask(s.core, s'.core, id)
    requires forall x :: x != id ==>
               (x in s'.joiners <==> x in s.joiners) && (x in s.joiners ==> s'.joiners[x] == s.joiners[x])
    requires id in s'.joiners ==> id in s'.core.tasks && s'.core.tasks[id].inPool && !s'.core.tasks[id].detached
    requires id in s'.joiners && s'.joiners[id] == Blocked ==> !s'.core.tasks[id].finished
    requires id in s'.core.tasks && s'.core.tasks[id].detached ==>
               s'.core.tasks[id].inPool && !s'.core.tasks[id].finished
    ensures JoinersOk(s')
  {
  }

  lemma BusyStep(c: Core, c': Core, id: nat)
    requires OnlyTask(c, c', id)
    ensures Busy(c') == if BusyTask(c', id) then Busy(c) + {id} else Busy(c) - {id}
  {
  }

  /** A worker that was not executing anything starts on a task that was not being executed. */
  lemma StartsOn(s: State, s': State, w: nat, id: nat)
    requires WorkersOk(s) && w < |s.workers| && !s.workers[w].Running? && id !in Busy(s.core)
    requires Busy(s'.core) == Busy(s.core) + {id} && s'.workers == s.workers[w := Running(id)] &&
             s'.deleted == s.deleted
    ensures WorkersOk(s')
  {
    assert s'.workers[w] == Running(id);
    forall x | x in Busy(s'.core) ensures Running(x) in s'.workers {
      if x != id {
        var v :| 0 <= v < |s.workers| && s.workers[v] == Running(x);
        assert s'.workers[v] == Running(x);
      }
    }
  }

  /** The worker that executed a task is the only one that did, and stops. */
  lemma StopsOn(s: State, s': State, w: nat, id: nat)
    requires WorkersOk(s) && w < |s.workers| && s.workers[w] == Running(id)
    requires Busy(s'.core) == Busy(s.core) - {id} && s'.workers == s.workers[w := Fresh] && s'.deleted == s.deleted
    ensures WorkersOk(s')
  {
    forall x | x in Busy(s'.core) ensures Running(x) in s'.workers {
      var v :| 0 <= v < |s.workers| && s.workers[v] == Running(x);
      assert s'.workers[v] == Running(x);
    }
  }

  /** Workers that neither start nor stop may change in any other way. */
  lemma StillOn(s: State, s': State)
    requires WorkersOk(s) && Busy(s'.core) == Busy(s.core) && |s.workers| <= |s'.workers|
    requires forall v :: 0 <= v < |s.workers| && (s.workers[v].Running? || s'.workers[v].Running?) ==>
               s'.workers[v] == s.workers[v]
    requires forall v :: |s.workers| <= v < |s'.workers| ==> s'.workers[v] == Fresh
    requires !s'.deleted ==> !s.deleted && Exited !in s'.workers
    ensures WorkersOk(s')
  {
    forall x | x in Busy(s'.core) ensures Running(x) in s'.workers {
      var v :| 0 <= v < |s.workers| && s.workers[v] == Running(x);
      assert s'.workers[v] == Running(x);
    }
  }

  lemma TakenKeeps(s: State, w: nat)
    requires Inv(s) && s.core.unassigned > 0 && w < |s.workers| && (s.workers[w] == Fresh || s.workers[w] == Woken)
    ensures Inv(Taken(s, w))
  {
    hide Take, SlotsOk, WorkersOk, HistOk, JoinersOk, Busy;
    Bounds(s.core);
    var s', id := Taken(s, w), s.core.slots[0];
    TakeFacts(s.core);
    TakeKeeps(s.core);
    BusyStep(s.core, s'.core, id);
    Lively(s, id);
    StartsOn(s, s', w, id);
    HistStep(s, s', id);
    JoinersStep(s, s', id);
    assert Awake(s'.workers[w]);
  }

  /** What the invariant says about one task. */
  lemma Lively(s: State, id: nat)
    requires CoreOk(s) && WorkersOk(s) && JoinersOk(s) && HistOk(s) && id in s.core.tasks
    ensures id in s.hist && id < s.nextId && HistFits(s.core.tasks[id], s.hist[id])
    ensures id in s.joiners ==> s.core.tasks[id].inPool && !s.core.tasks[id].detached
    ensures id in s.joiners && s.joiners[id] == Blocked ==> !s.core.tasks[id].finished
    ensures s.core.tasks[id].detached ==> s.core.tasks[id].inPool && !s.core.tasks[id].finished
    ensures id in Busy(s.core) <==> BusyTask(s.core, id)
    ensures s.core.tasks[id].inPool ==> 0 <= s.core.tasks[id].index < |s.core.slots|
    ensures s.core.tasks[id].inPool ==> (s.core.tasks[id].taken <==> s.core.unassigned <= s.core.tasks[id].index)
  {
    if s.core.tasks[id].inPool {
      TakenIsBehind(s.core, id);
    }
  }

  lemma ReturnedKeeps(s: State, w: nat, result: int)
    requires Inv(s) && w < |s.workers| && s.workers[w].Running? && s.core.running > 0
    ensures Inv(Returned(s, w, result))
  {
    hide Remove, SlotsOk, WorkersOk, HistOk, JoinersOk, Busy;
    var s', id := Returned(s, w, result), s.workers[w].id;
    BusyWorker(s, w);
    BusyIn(s.core, id);
    Lively(s, id);
    FinishFacts(s.core, id, result);
    BusyStep(s.core, s'.core, id);
    StopsOn(s, s', w, id);
    HistStep(s, s', id);
    JoinersStep(s, s', id);
    assert Awake(s'.workers[w]);
  }

  lemma BusyIn(c: Core, id: nat)
    requires id in Busy(c)
    ensures BusyTask(c, id)
  {
  }

  function WorkersAfterPush(s: State, woken: nat): seq<Worker>
    requires Waiting in s.workers ==> woken < |s.workers|
  {
    if NeedsThread(s.core) then s.workers + [Fresh]
    else if Signals(s.core) && Waiting in s.workers then s.workers[woken := Woken]
    else s.workers
  }

  /** After a push some worker is awake; no other worker starts, stops or leaves. */
  lemma PushWakes(s: State, id: nat, woken: nat)
    requires CoreOk(s) && WorkersOk(s) && NotStranded(s) && Enabled(s, PushTask(id, woken))
    ensures var ws := WorkersAfterPush(s, woken);
            && |ws| == (if NeedsThread(s.core) then s.core.threads + 1 else s.core.threads) <= s.core.maxThreads
            && |s.workers| <= |ws| && Exited !in ws
            && (exists w :: 0 <= w < |ws| && Awake(ws[w]))
            && (forall v :: |s.workers| <= v < |ws| ==> ws[v] == Fresh)
            && (forall v :: 0 <= v < |s.workers| && (s.workers[v].Running? || ws[v].Running?) ==> ws[v] == s.workers[v])
    ensures (if Signals(s.core) then TaskAppears else s.core.event) != TasksEnded
  {
    hide WorkersOk, Partitioned, Busy;
    var ws := WorkersAfterPush(s, woken);
    SomeWorker(s);
    if NeedsThread(s.core) {
      assert Awake(ws[|s.workers|]);
    } else if Signals(s.core) {
      var w := if Waiting in s.workers then woken else 0;
      assert ws[w] != Waiting && ws[w] != Exited;
      assert Awake(ws[w]);
    } else {
      var w :| 0 <= w < |s.workers| && Awake(s.workers[w]);
      assert Awake(ws[w]);
    }
  }

  lemma PushedKeeps(s: State, id: nat, woken: nat)
    requires Inv(s) && Enabled(s, PushTask(id, woken)) && |s.core.slots| < TPOOL_MAX_TASKS
    ensures Inv(Pushed(s, id, woken))
  {
    hide Pushed, CoreOk, WorkersOk, NotStranded, JoinersOk, HistOk;
    PushedKeepsWorkers(s, id, woken);
    PushedKeepsTasks(s, id, woken);
  }

  lemma PushedKeepsWorkers(s: State, id: nat, woken: nat)
    requires Inv(s) && Enabled(s, PushTask(id, woken)) && |s.core.slots| < TPOOL_MAX_TASKS
    ensures var s' := Pushed(s, id, woken); CoreOk(s') && WorkersOk(s') && NotStranded(s')
  {
    hide Push, SlotsOk, Partitioned, WorkersOk, HistOk, JoinersOk, Busy, Awake, NeedsThread, Signals, WorkersAfterPush;
    SlotsIn(s.core);
    var s' := Pushed(s, id, woken);
    PushFacts(s.core, id);
    PushKeeps(s.core, id);
    BusyStep(s.core, s'.core, id);
    Lively(s, id);
    SomeWorker(s);
    PushWakes(s, id, woken);
    StillOn(s, s');
  }

  lemma PushedKeepsTasks(s: State, id: nat, woken: nat)
    requires Inv(s) && Enabled(s, PushTask(id, woken)) && |s.core.slots| < TPOOL_MAX_TASKS
    ensures var s' := Pushed(s, id, woken); JoinersOk(s') && HistOk(s')
  {
    hide Push, SlotsOk, Partitioned, WorkersOk, HistOk, JoinersOk, NotStranded, Busy, NeedsThread, Signals,
         WorkersAfterPush;
    SlotsIn(s.core);
    var s' := Pushed(s, id, woken);
    PushFacts(s.core, id);
    Lively(s, id);
    HistStep(s, s', id);
    JoinersStep(s, s', id);
  }

  /** A pool without threads starts one for the first task; and before a delete no thread has exited. */
  lemma SomeWorker(s: State)
    requires CoreOk(s) && WorkersOk(s)
    ensures s.workers == [] ==> NeedsThread(s.core)
    ensures !s.deleted ==> Exited !in s.workers
  {
    if s.workers == [] {
      assert forall id :: id !in Busy(s.core);
      assert Busy(s.core) == {};
    }
  }

  lemma JoinedKeeps(s: State, id: nat)
    requires Inv(s) && id in s.joiners && id in s.core.tasks && s.core.tasks[id].finished
    ensures Inv(Joined(s, id))
  {
    hide Remove, SlotsOk, Partitioned, WorkersOk, HistOk, JoinersOk, Busy, NotStranded, NeedsThread;
    SlotsIn(s.core);
    var s' := Joined(s, id);
    Lively(s, id);
    TakenIsBehind(s.core, id);
    RemoveFacts(s.core, id);
    RemoveKeeps(s.core, id);
    BusyStep(s.core, s'.core, id);
    SomeWorker(s);
    StillOn(s, s');
    HistStep(s, s', id);
    JoinersStep(s, s', id);
    AwakeStay(s, s');
  }

  lemma AwakeStay(s: State, s': State)
    requires NotStranded(s) && s'.core.unassigned == s.core.unassigned && s'.workers == s.workers
    ensures NotStranded(s')
  {
  }

  lemma DetachedKeeps(s: State, id: nat)
    requires Inv(s) && Enabled(s, DetachTask(id)) && s.core.tasks[id].inPool
    ensures Inv(Detached(s, id))
  {
    hide Detach, SlotsOk, Partitioned, WorkersOk, HistOk, JoinersOk, Busy;
    SlotsIn(s.core);
    var s' := Detached(s, id);
    Lively(s, id);
    DetachFacts(s.core, id);
    BusyStep(s.core, s'.core, id);
    SomeWorker(s);
    StillOn(s, s');
    HistStep(s, s', id);
    JoinersStep(s, s', id);
    AwakeStay(s, s');
  }

  lemma NewTaskKeeps(s: State)
    requires Inv(s)
    ensures Inv(Next(s, NewTask))
  {
    hide WorkersOk, Busy, HistOk, JoinersOk, Partitioned;
    var s' := Next(s, NewTask);
    NewId(s, s');
    BusyStep(s.core, s'.core, s.nextId);
    SomeWorker(s);
    StillOn(s, s');
    AwakeStay(s, s');
  }

  lemma NewId(s: State, s': State)
    requires Partitioned(s.core) && HistOk(s) && JoinersOk(s)
    requires s' == s.(core := s'.core, hist := s'.hist, nextId := s.nextId + 1)
    requires s'.core == SetTask(s.core, s.nextId, NEW_TASK) && s'.hist == s.hist[s.nextId := Hist(0, 0, [], [], 0)]
    ensures Partitioned(s'.core) && HistOk(s') && JoinersOk(s') && s.nextId !in Busy(s.core)
  {
    hide Partitioned;
    ThreadPoolSpec.NewTaskKeeps(s.core, s.nextId);
  }

  /** Steps that only move workers which are not executing anything. */
  lemma WorkerKeeps(s: State, w: nat, x: Worker)
    requires Inv(s) && w < |s.workers| && !s.workers[w].Running?
    requires x == Waiting || x == Woken || (x == Exited && s.deleted)
    requires x == Waiting ==> s.core.unassigned == 0
    ensures Inv(s.(workers := s.workers[w := x]))
  {
    hide Partitioned, WorkersOk, HistOk, JoinersOk, Busy;
    var s' := s.(workers := s.workers[w := x]);
    SomeWorker(s);
    StillOn(s, s');
    HistAndJoinersStay(s, s');
    if s.core.unassigned > 0 {
      assert Awake(s'.workers[w]);
    }
  }

  /** Steps that only move the joiner of one task. */
  lemma JoinerKeeps(s: State, id: nat, j: Joiner)
    requires Inv(s) && id in s.core.tasks && s.core.tasks[id].inPool && !s.core.tasks[id].detached
    requires j == Blocked ==> !s.core.tasks[id].finished
    ensures Inv(s.(joiners := s.joiners[id := j]))
  {
    hide Partitioned, Busy;
  }

  lemma DeleteTaskKeeps(s: State, id: nat)
    requires Inv(s) && Enabled(s, DeleteTask(id)) && !s.core.tasks[id].inPool
    ensures Inv(Next(s, DeleteTask(id)))
  {
    hide Partitioned, WorkersOk, Busy, HistOk, JoinersOk, NotStranded, NeedsThread;
    var s' := Next(s, DeleteTask(id));
    FreeKeeps(s.core, id);
    Lively(s, id);
    BusyStep(s.core, s'.core, id);
    SomeWorker(s);
    StillOn(s, s');
    AwakeStay(s, s');
    DeleteTaskKeepsHist(s, id);
  }

  lemma DeleteTaskKeepsHist(s: State, id: nat)
    requires Inv(s) && Enabled(s, DeleteTask(id)) && !s.core.tasks[id].inPool
    ensures JoinersOk(Next(s, DeleteTask(id))) && HistOk(Next(s, DeleteTask(id)))
  {
    hide Partitioned, WorkersOk, Busy, HistOk, JoinersOk, NotStranded;
    Lively(s, id);
    HistStep(s, Next(s, DeleteTask(id)), id);
    JoinersStep(s, Next(s, DeleteTask(id)), id);
  }

  lemma DeletePoolKeeps(s: State)
    requires Inv(s) && Enabled(s, DeletePool) && s.core.unassigned == 0 && s.core.running == 0
    ensures Inv(Next(s, DeletePool))
  {
    hide WorkersOk, HistOk, JoinersOk;
    var s' := Next(s, DeletePool);
    SomeWorker(s);
    StillOn(s, s');
    HistAndJoinersStay(s, s');
  }

  lemma HistAndJoinersStay(s: State, s': State)
    requires HistOk(s) && JoinersOk(s) && s'.core.tasks == s.core.tasks && s'.joiners == s.joiners && s'.hist == s.hist
    requires s'.nextId == s.nextId
    ensures HistOk(s') && JoinersOk(s')
  {
  }

  /** Whatever happens next, the invariant still holds. */
  lemma NextKeepsInv(s: State, a: Action)
    requires Inv(s) && Enabled(s, a)
    ensures Inv(Next(s, a))
  {
    hide Partitioned, WorkersOk, HistOk, NotStranded, Busy, Taken, Returned, Pushed, Joined, Detached, WakeAll;
    match a
    case NewTask => NewTaskKeeps(s);
    case PushTask(id, woken) =>
      if |s.core.slots| < TPOOL_MAX_TASKS { PushedKeeps(s, id, woken); }
    case Lock(w) =>
      if s.workers[w] == Woken && s.core.event == TasksEnded { WorkerKeeps(s, w, Exited); }
      else if s.core.unassigned == 0 { WorkerKeeps(s, w, Waiting); }
      else { TakenKeeps(s, w); }
    case Spurious(w) => WorkerKeeps(s, w, Woken);
    case Return(w, result) => BusyWorker(s, w); ReturnedKeeps(s, w, result);
    case CallJoin(id) => if s.core.tasks[id].inPool { JoinerKeeps(s, id, Ready); }
    case JoinStep(id) =>
      if s.core.tasks[id].finished { JoinedKeeps(s, id); } else { JoinerKeeps(s, id, Blocked); }
    case JoinSpurious(id) => JoinerKeeps(s, id, Ready);
    case DetachTask(id) => if s.core.tasks[id].inPool { DetachedKeeps(s, id); }
    case DeleteTask(id) => if !s.core.tasks[id].inPool { DeleteTaskKeeps(s, id); }
    case DeletePool => if s.core.unassigned == 0 && s.core.running == 0 { DeletePoolKeeps(s); }
  }

  // ----- runs

  /** The state after any schedule; an action that is not possible when its turn comes is skipped. */
  ghost function Run(maxThreads: nat, schedule: seq<Action>): (s: State)
    requires 1 <= maxThreads <= TPOOL_MAX_THREADS
    ensures Inv(s) && s.core.maxThreads == maxThreads
    decreases |schedule|
  {
    if schedule == [] then InitInv(maxThreads); Init(maxThreads) else
    var s := Run(maxThreads, schedule[..|schedule| - 1]);
    var a := schedule[|schedule| - 1];
    if !Enabled(s, a) then s else NextKeepsInv(s, a); MaxThreadsStay(s, a); Next(s, a)
  }

  lemma InitInv(maxThreads: nat)
    requires 1 <= maxThreads <= TPOOL_MAX_THREADS
    ensures Inv(Init(maxThreads))
  {
    assert Busy(Init(maxThreads).core) == {};
  }

  lemma MaxThreadsStay(s: State, a: Action)
    requires Inv(s) && Enabled(s, a)
    ensures Next(s, a).core.maxThreads == s.core.maxThreads
  {
    hide Partitioned, WorkersOk, HistOk, JoinersOk, NotStranded, Busy;
  }
}
