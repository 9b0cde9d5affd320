/** What every run of the thread pool keeps. */
module ThreadPoolLaws {
  import opened Schedules
  import opened ThreadPoolSpec
  import opened ThreadPoolRuns

  // ----- the array

  ghost function Ids(ids: seq<nat>): (r: set<nat>)
    ensures forall id :: id in r <==> id in ids
  {
    set id | id in ids
  }

  lemma {:induction false} DistinctIds(ids: seq<nat>)
    requires forall i, j :: 0 <= i < j < |ids| ==> ids[i] != ids[j]
    ensures |Ids(ids)| == |ids|
  {
    if ids == [] {
      assert Ids(ids) == {};
    } else {
      var rest := ids[..|ids| - 1];
      DistinctIds(rest);
      assert Ids(ids) == Ids(rest) + {ids[|ids| - 1]};
    }
  }

  ghost function Unassigned(c: Core): set<nat> {
    set id | id in c.tasks && c.tasks[id].inPool && !c.tasks[id].taken
  }

  ghost function Finished(c: Core): set<nat> {
    set id | id in c.tasks && c.tasks[id].inPool && c.tasks[id].finished
  }

  lemma ArrayIsPartitioned(maxThreads: nat, schedule: seq<Action>)
    requires 1 <= maxThreads <= TPOOL_MAX_THREADS
    ensures var c := Run(maxThreads, schedule).core;
            && c.unassigned <= |c.slots|
            && (forall i, j :: 0 <= i < j < |c.slots| ==> c.slots[i] != c.slots[j])
            && (forall id :: id in c.tasks && c.tasks[id].inPool <==>
                  exists k :: 0 <= k < |c.slots| && c.slots[k] == id && id in c.tasks && c.tasks[id].index == k)
            && (forall k :: 0 <= k < |c.slots| ==>
                  (c.slots[k] in Unassigned(c) <==> k < c.unassigned) &&
                  (c.slots[k] in Busy(c) || c.slots[k] in Finished(c) <==> c.unassigned <= k))
  {
    hide Run, WorkersOk, NotStranded, JoinersOk, HistOk;
    var c := Run(maxThreads, schedule).core;
    forall id | id in c.tasks && c.tasks[id].inPool
      ensures exists k :: 0 <= k < |c.slots| && c.slots[k] == id && id in c.tasks && c.tasks[id].index == k
    {
      assert c.slots[c.tasks[id].index] == id;
    }
  }

  /** Every worker executes at most one task. */
  lemma {:induction false} BusyFits(busy: set<nat>, workers: seq<Worker>)
    requires forall id :: id in busy ==> Running(id) in workers
    ensures |busy| <= |workers|
  {
    if workers == [] {
      assert busy == {};
    } else {
      var rest, last := workers[..|workers| - 1], workers[|workers| - 1];
      if last.Running? && last.id in busy {
        BusyFits(busy - {last.id}, rest);
      } else {
        BusyFits(busy, rest);
      }
    }
  }

  /** Where the pushed tasks are: the counters count them, and no counter passes its bound. */
  lemma Census(maxThreads: nat, schedule: seq<Action>)
    requires 1 <= maxThreads <= TPOOL_MAX_THREADS
    ensures var c := Run(maxThreads, schedule).core;
            && c.unassigned == |Unassigned(c)|
            && c.running == |Busy(c)|
            && |c.slots| == c.unassigned + c.running + |Finished(c)| <= TPOOL_MAX_TASKS
            && c.running <= c.threads <= maxThreads
  {
    hide Run, NotStranded, JoinersOk, HistOk;
    var s := Run(maxThreads, schedule);
    var c := s.core;
    hide Busy;
    CensusOf(c);
    BusyFits(Busy(c), s.workers);
  }

  lemma CensusOf(c: Core)
    requires Partitioned(c)
    ensures c.unassigned == |Unassigned(c)|
    ensures |c.slots| == |Unassigned(c)| + |Busy(c)| + |Finished(c)| <= TPOOL_MAX_TASKS
  {
    var ids := c.slots;
    assert forall i, j :: 0 <= i < j < |ids| ==> ids[i] != ids[j] by {
      assert forall k :: 0 <= k < |ids| ==> c.tasks[ids[k]].index == k;
    }
    DistinctIds(ids);
    DistinctIds(ids[..c.unassigned]);
    InPool(c);
    assert |Busy(c) + Finished(c)| == |Busy(c)| + |Finished(c)|;
  }

  lemma InPool(c: Core)
    requires Partitioned(c)
    ensures Unassigned(c) == Ids(c.slots[..c.unassigned])
    ensures Ids(c.slots) == Unassigned(c) + (Busy(c) + Finished(c)) && Unassigned(c) !! Busy(c) + Finished(c)
  {
    forall id | id in Unassigned(c) ensures id in c.slots[..c.unassigned] {
      assert c.slots[..c.unassigned][c.tasks[id].index] == id;
    }
    forall id | id in Ids(c.slots[..c.unassigned]) ensures id in Unassigned(c) {
    }
    forall id | id in Unassigned(c) + (Busy(c) + Finished(c)) ensures id in Ids(c.slots) {
      assert c.slots[c.tasks[id].index] == id;
    }
    forall id | id in c.slots ensures id in Unassigned(c) + (Busy(c) + Finished(c)) {
    }
  }

  // ----- progress

  /** While a task waits in the array some worker is not blocked in the wait for work. */
  lemma NoWorkIsStranded(maxThreads: nat, schedule: seq<Action>)
    requires 1 <= maxThreads <= TPOOL_MAX_THREADS
    ensures var s := Run(maxThreads, schedule);
            s.core.unassigned > 0 ==> exists w :: 0 <= w < |s.workers| && Awake(s.workers[w])
  {
    hide Run;
    var s := Run(maxThreads, schedule);
    assert NotStranded(s);
  }

  /** A joiner sleeps only for a task that waits in the array or that some worker executes. */
  lemma SleepingJoinersAreServed(maxThreads: nat, schedule: seq<Action>, id: nat)
    requires 1 <= maxThreads <= TPOOL_MAX_THREADS
    ensures var s := Run(maxThreads, schedule);
            id in s.joiners && s.joiners[id] == Blocked ==> id in Unassigned(s.core) || Running(id) in s.workers
  {
    hide Run, Partitioned;
    var s := Run(maxThreads, schedule);
    assert JoinersOk(s) && WorkersOk(s);
    if id in s.joiners && s.joiners[id] == Blocked {
      assert id in Unassigned(s.core) || id in Busy(s.core);
    }
  }

  function Work(s: State): nat {
    2 * s.core.unassigned + s.core.running
  }

  /** The steps of the workers that take up or finish a task. */
  predicate Works(s: State, a: Action) {
    || a.Return?
    || (a.Lock? && a.w < |s.workers| && s.core.unassigned > 0 &&
        !(s.workers[a.w] == Woken && s.core.event == TasksEnded))
  }

  /** Only a push makes work, and every working step uses up exactly one unit of it. */
  lemma WorkIsUsedUp(s: State, a: Action)
    requires Inv(s) && Enabled(s, a) && !a.PushTask?
    ensures Work(Next(s, a)) == Work(s) - (if Works(s, a) then 1 else 0)
  {
    hide Partitioned, NotStranded, HistOk, Busy, SlotsOk, Remove, Swap;
    match a
    case Lock(w) =>
      if Works(s, a) { SlotsIn(s.core); TakeFacts(s.core); }
    case Return(w, result) =>
      BusyWorker(s, w);
      BusyIn(s.core, s.workers[w].id);
      FinishFacts(s.core, s.workers[w].id, result);
    case JoinStep(id) =>
      if s.core.tasks[id].finished {
        SlotsIn(s.core);
        TakenIsBehind(s.core, id);
        RemoveFacts(s.core, id);
      }
    case DetachTask(id) =>
      if s.core.tasks[id].inPool { DetachFacts(s.core, id); }
    case _ =>
  }

  /** While there is work, a worker can do some of it. */
  lemma SomeoneCanWork(s: State) returns (a: Action)
    requires Inv(s) && Work(s) > 0
    ensures Enabled(s, a) && Works(s, a) && (a.Lock? || a.Return?)
  {
    if s.core.running > 0 {
      assert Busy(s.core) != {};
      var id :| id in Busy(s.core);
      assert Running(id) in s.workers;
      var w :| 0 <= w < |s.workers| && s.workers[w] == Running(id);
      a := Return(w, 0);
    } else {
      var w :| 0 <= w < |s.workers| && Awake(s.workers[w]);
      if s.workers[w].Running? {
        BusyWorker(s, w);
      }
      a := Lock(w);
    }
  }

  ghost predicate OnlyWorkers(schedule: seq<Action>) {
    forall k :: 0 <= k < |schedule| ==> schedule[k].Lock? || schedule[k].Return?
  }

  /** From every reachable state the workers alone can empty the pool, in exactly as many steps as there is work. */
  lemma {:induction false} WorkersDrainThePool(maxThreads: nat, schedule: seq<Action>) returns (more: seq<Action>)
    requires 1 <= maxThreads <= TPOOL_MAX_THREADS
    ensures OnlyWorkers(more) && |more| == Work(Run(maxThreads, schedule))
    ensures Work(Run(maxThreads, schedule + more)) == 0
    decreases Work(Run(maxThreads, schedule))
  {
    hide Inv, Enabled, Next, Works;
    var s := Run(maxThreads, schedule);
    if Work(s) == 0 {
      more := [];
      assert schedule + more == schedule;
    } else {
      var a := SomeoneCanWork(s);
      Step(maxThreads, schedule, a);
      WorkIsUsedUp(s, a);
      var rest := WorkersDrainThePool(maxThreads, schedule + [a]);
      more := [a] + rest;
      assert schedule + more == schedule + [a] + rest;
    }
  }

  lemma Step(maxThreads: nat, schedule: seq<Action>, a: Action)
    requires 1 <= maxThreads <= TPOOL_MAX_THREADS
    ensures var s := Run(maxThreads, schedule);
            Run(maxThreads, schedule + [a]) == if Enabled(s, a) then Next(s, a) else s
  {
    hide Inv, Enabled, Next;
    assert (schedule + [a])[..|schedule + [a]| - 1] == schedule;
  }

  predicate NoPushes(schedule: seq<Action>) {
    forall k :: 0 <= k < |schedule| ==> !schedule[k].PushTask?
  }

  /** How many steps of a schedule take up or finish a task. */
  ghost function WorkingSteps(maxThreads: nat, schedule: seq<Action>, more: seq<Action>): nat
    requires 1 <= maxThreads <= TPOOL_MAX_THREADS
    decreases |more|
  {
    if more == [] then 0 else
    var s := Run(maxThreads, schedule);
    (if Enabled(s, more[0]) && Works(s, more[0]) then 1 else 0) +
    WorkingSteps(maxThreads, schedule + [more[0]], more[1..])
  }

  /** Without pushes the working steps of any schedule, in whatever order, are paid for by the work there was. */
  lemma {:induction false} WorkingStepsAreCounted(maxThreads: nat, schedule: seq<Action>, more: seq<Action>)
    requires 1 <= maxThreads <= TPOOL_MAX_THREADS && NoPushes(more)
    ensures Work(Run(maxThreads, schedule + more)) + WorkingSteps(maxThreads, schedule, more) ==
              Work(Run(maxThreads, schedule))
    decreases |more|
  {
    hide Inv, Enabled, Next, Works;
    if more == [] {
      assert schedule + more == schedule;
    } else {
      var s := Run(maxThreads, schedule);
      Step(maxThreads, schedule, more[0]);
      if Enabled(s, more[0]) { WorkIsUsedUp(s, more[0]); }
      WorkingStepsAreCounted(maxThreads, schedule + [more[0]], more[1..]);
      assert schedule + more == schedule + [more[0]] + more[1..];
    }
  }

  /** A round in which every worker gets its turn to look for work and to finish what it executes. Clients may do what
      they like, except push, and a turn that is not possible when it comes is skipped. */
  ghost predicate Fair(round: seq<Action>, maxThreads: nat) {
    && NoPushes(round)
    && (forall w: nat :: w < maxThreads ==> Lock(w) in round && exists result :: Return(w, result) in round)
  }

  /** Worker `w` uses up work as soon as it gets the turn it waits for. */
  predicate Ready(s: State, w: nat) {
    && w < |s.workers|
    && (s.workers[w].Running? || ((s.workers[w].Fresh? || s.workers[w].Woken?) && s.core.unassigned > 0))
  }

  predicate IsTurn(s: State, w: nat, a: Action) {
    w < |s.workers| && if s.workers[w].Running? then a.Return? && a.w == w else a == Lock(w)
  }

  lemma SomeoneIsReady(s: State) returns (w: nat)
    requires Inv(s) && Work(s) > 0
    ensures Ready(s, w)
  {
    var a := SomeoneCanWork(s);
    w := a.w;
  }

  lemma TurnWorks(s: State, w: nat, a: Action)
    requires Inv(s) && Ready(s, w) && IsTurn(s, w, a)
    ensures Enabled(s, a) && Works(s, a)
  {
    hide Partitioned, WorkersOk, NotStranded, JoinersOk, HistOk, Busy;
  }

  /** Whatever else happens, a worker that is ready stays so, in the same way, while nobody works. */
  lemma StaysReady(s: State, w: nat, a: Action)
    requires Inv(s) && Ready(s, w) && Enabled(s, a) && !a.PushTask? && !Works(s, a)
    ensures Ready(Next(s, a), w) && (Next(s, a).workers[w].Running? <==> s.workers[w].Running?)
  {
    hide Partitioned, WorkersOk, NotStranded, HistOk, Busy, SlotsOk, Remove, Swap;
    if s.workers[w].Running? { BusyWorker(s, w); }
    match a
    case DetachTask(id) =>
      if s.core.tasks[id].inPool { DetachFacts(s.core, id); }
    case JoinStep(id) =>
      if s.core.tasks[id].finished {
        SlotsIn(s.core);
        TakenIsBehind(s.core, id);
        RemoveFacts(s.core, id);
      }
    case _ =>
  }

  lemma {:induction false} ReadyWorkerGetsItsTurn(maxThreads: nat, schedule: seq<Action>, more: seq<Action>, w: nat)
    requires 1 <= maxThreads <= TPOOL_MAX_THREADS && NoPushes(more) && Ready(Run(maxThreads, schedule), w)
    requires if Run(maxThreads, schedule).workers[w].Running? then exists result :: Return(w, result) in more
             else Lock(w) in more
    ensures WorkingSteps(maxThreads, schedule, more) > 0
    decreases |more|
  {
    hide Inv, Enabled, Next, Works;
    var s := Run(maxThreads, schedule);
    var a, rest := more[0], more[1..];
    if IsTurn(s, w, a) {
      TurnWorks(s, w, a);
    } else if !(Enabled(s, a) && Works(s, a)) {
      Step(maxThreads, schedule, a);
      if Enabled(s, a) { StaysReady(s, w, a); }
      assert more == [a] + rest;
      if s.workers[w].Running? {
        var result :| Return(w, result) in more;
        assert Return(w, result) in rest;
      }
      ReadyWorkerGetsItsTurn(maxThreads, schedule + [a], rest, w);
    }
  }

  /** While there is work, every fair round uses up some of it. */
  lemma FairRoundWorks(maxThreads: nat, schedule: seq<Action>, round: seq<Action>)
    requires 1 <= maxThreads <= TPOOL_MAX_THREADS && Fair(round, maxThreads)
    ensures Work(Run(maxThreads, schedule + round)) <= Work(Run(maxThreads, schedule))
    ensures Work(Run(maxThreads, schedule)) > 0 ==>
              Work(Run(maxThreads, schedule + round)) < Work(Run(maxThreads, schedule))
  {
    hide Run, Inv, Work;
    var s := Run(maxThreads, schedule);
    WorkingStepsAreCounted(maxThreads, schedule, round);
    if Work(s) > 0 {
      var w := SomeoneIsReady(s);
      ThreadsAreBounded(s);
      assert Lock(w) in round;
      ReadyWorkerGetsItsTurn(maxThreads, schedule, round, w);
    }
  }

  lemma ThreadsAreBounded(s: State)
    requires Inv(s)
    ensures |s.workers| <= s.core.maxThreads
  {
  }

  /** Without new pushes every schedule that keeps giving the workers their turns finishes all the work, after at most
      as many rounds as there is work. */
  lemma {:induction false} FairRoundsFinishTheWork(maxThreads: nat, schedule: seq<Action>, rounds: seq<seq<Action>>)
    requires 1 <= maxThreads <= TPOOL_MAX_THREADS && forall k :: 0 <= k < |rounds| ==> Fair(rounds[k], maxThreads)
    requires Work(Run(maxThreads, schedule)) <= |rounds|
    ensures Work(Run(maxThreads, schedule + InRow(rounds))) == 0
    decreases |rounds|
  {
    hide Run, Inv, Work, Fair;
    if rounds == [] {
      assert schedule + InRow(rounds) == schedule;
    } else {
      FairRoundWorks(maxThreads, schedule, rounds[0]);
      FairRoundsFinishTheWork(maxThreads, schedule + rounds[0], rounds[1..]);
      assert schedule + InRow(rounds) == schedule + rounds[0] + InRow(rounds[1..]);
    }
  }

  // ----- what happens to a task

  /** A task is started at most once for each push, returns at most once for each start, and is freed at most once;
      the joins hand back, in order, what the executions returned. */
  lemma OnceForEachPush(maxThreads: nat, schedule: seq<Action>, id: nat)
    requires 1 <= maxThreads <= TPOOL_MAX_THREADS
    ensures var s := Run(maxThreads, schedule);
            id in s.hist ==>
              var h := s.hist[id];
              && |h.handed| <= |h.returned| <= h.starts <= h.pushes <= |h.handed| + 1
              && h.handed <= h.returned
              && h.frees == (if id in s.core.tasks then 0 else 1)
  {
    hide Run, Partitioned, WorkersOk, NotStranded, JoinersOk, Busy;
    var s := Run(maxThreads, schedule);
    assert HistOk(s);
    assert id in s.core.tasks ==> HistFits(s.core.tasks[id], s.hist[id]);
  }

  /** A join ends only after the execution of the latest push, hands back its result and frees the slot. */
  lemma JoinHandsBackTheResult(s: State, id: nat)
    requires Inv(s) && Enabled(s, JoinStep(id))
    ensures var s' := Next(s, JoinStep(id));
            var h, h' := s.hist[id], s'.hist[id];
            if |h.returned| == h.pushes
            then && h'.handed == h.handed + [h.returned[|h.returned| - 1]] == h.returned
                 && |s'.core.slots| == |s.core.slots| - 1
                 && id !in s'.joiners && (exists woken :: Enabled(s', PushTask(id, woken)))
            else s' == s.(joiners := s.joiners[id := Blocked])
  {
    hide Partitioned, WorkersOk, NotStranded, HistOk, Busy, Remove, SlotsOk;
    Lively(s, id);
    if s.core.tasks[id].finished {
      var woken := if w :| 0 <= w < |s.workers| && s.workers[w] == Waiting then w else 0;
      SlotsIn(s.core);
      TakenIsBehind(s.core, id);
      RemoveFacts(s.core, id);
      assert Enabled(Next(s, JoinStep(id)), PushTask(id, woken));
    }
  }

  /** A detached task is freed with the last of the work: when nothing waits and nothing runs, none is left. */
  lemma NoDetachedTaskIsLeft(maxThreads: nat, schedule: seq<Action>)
    requires 1 <= maxThreads <= TPOOL_MAX_THREADS
    ensures var s := Run(maxThreads, schedule);
            Work(s) == 0 ==> forall id :: id in s.core.tasks ==> !s.core.tasks[id].detached
  {
    hide Run, Inv, Work;
    var s := Run(maxThreads, schedule);
    forall id | id in s.core.tasks && s.core.tasks[id].detached ensures Work(s) > 0 {
      DetachedIsWork(s, id);
    }
  }

  lemma DetachedIsWork(s: State, id: nat)
    requires Inv(s) && id in s.core.tasks && s.core.tasks[id].detached
    ensures Work(s) > 0
  {
    hide NotStranded, HistOk;
    TakenIsBehind(s.core, id);
    if s.core.tasks[id].taken {
      assert id in Busy(s.core);
    }
  }

  /** A task that somebody executes or joins has not been freed. */
  lemma UsedTasksAreAlive(maxThreads: nat, schedule: seq<Action>, id: nat)
    requires 1 <= maxThreads <= TPOOL_MAX_THREADS
    ensures var s := Run(maxThreads, schedule);
            Running(id) in s.workers || id in s.joiners ==>
              id in s.core.tasks && s.core.tasks[id].inPool && id in s.hist && s.hist[id].frees == 0
  {
    hide Run, Partitioned, NotStranded;
    var s := Run(maxThreads, schedule);
    assert WorkersOk(s) && JoinersOk(s) && HistOk(s);
    assert Running(id) in s.workers ==> id in Busy(s.core);
    assert id in s.core.tasks ==> HistFits(s.core.tasks[id], s.hist[id]);
  }

  /** A task that is detached while it is executed is freed: it does not matter who takes the mutex first. */
  lemma DetachAndReturnCommute(s: State, w: nat, result: int)
    requires Inv(s) && Enabled(s, Return(w, result)) && Enabled(s, DetachTask(s.workers[w].id))
    ensures var id := s.workers[w].id;
            var detached := Next(s, DetachTask(id));
            var returned := Next(s, Return(w, result));
            && Inv(detached) && Enabled(detached, Return(w, result)) && id in detached.core.tasks
            && Inv(returned) && Enabled(returned, DetachTask(id)) && id in returned.core.tasks
            && Next(detached, Return(w, result)) == Next(returned, DetachTask(id))
            && id !in Next(returned, DetachTask(id)).core.tasks
            && Next(returned, DetachTask(id)).hist[id].frees == 1
  {
    hide Partitioned, WorkersOk, NotStranded, HistOk, JoinersOk, Busy, Remove, SlotsOk;
    var id := s.workers[w].id;
    BusyWorker(s, w);
    BusyIn(s.core, id);
    Lively(s, id);
    NextKeepsInv(s, DetachTask(id));
    NextKeepsInv(s, Return(w, result));
    SlotsIn(s.core);
    var d, r := Next(s, DetachTask(id)), Next(s, Return(w, result));
    BusyWorker(d, w);
    FinishAndDetach(s.core, id, result);
  }

  lemma FinishAndDetach(c: Core, id: nat, result: int)
    requires SlotsOk(c) && id in c.tasks && c.tasks[id].inPool && c.running > 0
    requires !c.tasks[id].finished && !c.tasks[id].detached
    ensures var d, f := Detach(c, id), Finish(c, id, result);
            && SlotsOk(d) && id in d.tasks && d.tasks[id].inPool && d.running > 0
            && SlotsOk(f) && id in f.tasks && f.tasks[id].inPool
            && Finish(d, id, result) == Detach(f, id) && id !in Detach(f, id).tasks
  {
    hide SlotsOk, Remove;
    var d, f := Detach(c, id), Finish(c, id, result);
    Bounds(c);
    SameLinks(c, d);
    SameLinks(c, f);
    var c1 := SetTask(d.(running := d.running - 1), id, d.tasks[id].(result := result, finished := true));
    SameLinks(d, c1);
    RemovedAlike(f, c1, id);
  }

  lemma RemovedAlike(c: Core, c': Core, id: nat)
    requires SlotsOk(c) && SlotsOk(c') && id in c.tasks && c.tasks[id].inPool
    requires c'.tasks.Keys == c.tasks.Keys && c' == c.(tasks := c'.tasks)
    requires c'.tasks[id] == c.tasks[id].(detached := true)
    requires forall x :: x in c.tasks && x != id ==> c'.tasks[x] == c.tasks[x]
    ensures Free(Remove(c, id), id) == Free(Remove(c', id), id)
  {
    hide Remove;
    RemovedTasks(c, id);
    RemovedTasks(c', id);
    assert Free(Remove(c, id), id).tasks == Free(Remove(c', id), id).tasks;
  }

  lemma RemovedTasks(c: Core, id: nat)
    requires SlotsOk(c) && id in c.tasks && c.tasks[id].inPool
    ensures 0 <= c.tasks[id].index < |c.slots| && c.slots[|c.slots| - 1] in c.tasks
    ensures var last := c.slots[|c.slots| - 1];
            Free(Remove(c, id), id) ==
            c.(slots := c.slots[c.tasks[id].index := last][..|c.slots| - 1],
               tasks := c.tasks[last := c.tasks[last].(index := c.tasks[id].index)] - {id})
  {
    var last := c.slots[|c.slots| - 1];
    assert Free(Remove(c, id), id).slots == c.slots[c.tasks[id].index := last][..|c.slots| - 1];
    assert Free(Remove(c, id), id).tasks == c.tasks[last := c.tasks[last].(index := c.tasks[id].index)] - {id};
  }

  /** The pool can be deleted exactly when no pushed task is unfinished, and stays so: no task is left behind. */
  lemma DeleteNeedsFinishedTasks(s: State)
    requires Inv(s) && Enabled(s, DeletePool)
    ensures Next(s, DeletePool).deleted <==>
            forall id :: id in s.core.tasks && s.core.tasks[id].inPool ==> s.core.tasks[id].finished
  {
    hide WorkersOk, NotStranded, HistOk, JoinersOk;
    var c := s.core;
    if c.unassigned > 0 {
      assert !c.tasks[c.slots[0]].finished;
    }
    if c.running > 0 {
      var id :| id in Busy(c);
      assert !c.tasks[id].finished;
    }
    if id :| id in c.tasks && c.tasks[id].inPool && !c.tasks[id].finished {
      TakenIsBehind(c, id);
      assert c.tasks[id].taken ==> id in Busy(c);
    }
  }

  lemma DeletedPoolHasNoWork(maxThreads: nat, schedule: seq<Action>)
    requires 1 <= maxThreads <= TPOOL_MAX_THREADS
    ensures var s := Run(maxThreads, schedule);
            s.deleted ==> (forall w :: 0 <= w < |s.workers| ==> !s.workers[w].Running?) &&
                          (forall id :: id in s.core.tasks && s.core.tasks[id].inPool ==> s.core.tasks[id].finished)
  {
    hide Run, NotStranded, HistOk, JoinersOk;
    var s := Run(maxThreads, schedule);
    if s.deleted {
      forall w | 0 <= w < |s.workers| ensures !s.workers[w].Running? {
        if s.workers[w].Running? { BusyWorker(s, w); }
      }
      forall id | id in s.core.tasks && s.core.tasks[id].inPool ensures s.core.tasks[id].finished {
        TakenIsBehind(s.core, id);
        assert !s.core.tasks[id].finished ==> id in Busy(s.core);
      }
    }
  }
}
