/** What each step of a run does to the pool, and what becomes of a pushed task. */
module ThreadPoolSteps {
  import opened Schedules
  import opened ThreadPoolSpec
  import opened ThreadPoolRuns
  import opened ThreadPoolLaws

  /** The three regions of the pool: who waits, who is executed and who is finished. */
  ghost predicate Regions(c: Core, waiting: set<nat>, busy: set<nat>, finished: set<nat>) {
    Unassigned(c) == waiting && Busy(c) == busy && Finished(c) == finished
  }

  /** Nothing but `id` changes among the tasks and their histories, apart from places in the array. */
  ghost predicate Only(s: State, s': State, id: nat) {
    && OnlyTask(s.core, s'.core, id) && s'.nextId == s.nextId && s'.hist.Keys == s.hist.Keys
    && forall x :: x in s.hist && x != id ==> s'.hist[x] == s.hist[x]
  }

  /** A step that changes one task moves it from one region to another. */
  lemma RegionsAfter(c: Core, c': Core, id: nat)
    requires OnlyTask(c, c', id)
    ensures id in Unassigned(c) <==> id in c.tasks && c.tasks[id].inPool && !c.tasks[id].taken
    ensures id in Busy(c) <==> BusyTask(c, id)
    ensures id in Finished(c) <==> id in c.tasks && c.tasks[id].inPool && c.tasks[id].finished
    ensures var t' := if id in c'.tasks then c'.tasks[id] else NEW_TASK;
            && Unassigned(c') == Unassigned(c) - {id} + (if t'.inPool && !t'.taken then {id} else {})
            && Busy(c') == Busy(c) - {id} + (if t'.inPool && t'.taken && !t'.finished then {id} else {})
            && Finished(c') == Finished(c) - {id} + (if t'.inPool && t'.finished then {id} else {})
  {
  }

  lemma PushRegions(c: Core, id: nat)
    requires Partitioned(c) && id in c.tasks && !c.tasks[id].inPool && |c.slots| < TPOOL_MAX_TASKS
    ensures SlotsOk(c) && OnlyTask(c, Push(c, id), id) && id !in Unassigned(c) && id in Push(c, id).tasks
    ensures Regions(Push(c, id), Unassigned(c) + {id}, Busy(c), Finished(c))
    ensures |Push(c, id).slots| == |c.slots| + 1 && Push(c, id).unassigned == c.unassigned + 1
    ensures Push(c, id).running == c.running
    ensures var t := Push(c, id).tasks[id];
            t.result == c.tasks[id].result && !t.finished && t.detached == c.tasks[id].detached
  {
    hide Partitioned, SlotsOk, Push, NeedsThread, Signals, Unassigned, Busy, Finished;
    SlotsIn(c);
    PushFacts(c, id);
    RegionsAfter(c, Push(c, id), id);
  }

  lemma TakeRegions(c: Core)
    requires Partitioned(c) && c.unassigned > 0
    ensures SlotsOk(c) && c.slots != [] && c.slots[0] in c.tasks
    ensures OnlyTask(c, Take(c), c.slots[0]) && c.slots[0] in Take(c).tasks
    ensures Regions(Take(c), Unassigned(c) - {c.slots[0]}, Busy(c) + {c.slots[0]}, Finished(c))
    ensures Take(c).tasks[c.slots[0]].detached == c.tasks[c.slots[0]].detached
  {
    hide Partitioned, SlotsOk, Take, Unassigned, Busy, Finished;
    SlotsIn(c);
    Bounds(c);
    FrontWaits(c);
    TakeFacts(c);
    RegionsAfter(c, Take(c), c.slots[0]);
    assert !c.tasks[c.slots[0]].finished by { NotTakenIsNew(c, c.slots[0]); }
  }

  lemma NotTakenIsNew(c: Core, id: nat)
    requires Partitioned(c) && id in Unassigned(c)
    ensures !c.tasks[id].finished
  {
    TakenIsBehind(c, id);
  }

  lemma RemoveRegions(c: Core, id: nat)
    requires Partitioned(c) && id in Finished(c)
    ensures SlotsOk(c) && OnlyTask(c, Remove(c, id), id) && id in Remove(c, id).tasks
    ensures !Remove(c, id).tasks[id].inPool
    ensures Regions(Remove(c, id), Unassigned(c), Busy(c), Finished(c) - {id})
  {
    hide Partitioned, SlotsOk, Remove, Unassigned, Busy, Finished;
    SlotsIn(c);
    assert id in c.tasks && c.tasks[id].inPool && c.tasks[id].finished by { RegionsAfter(c, c, id); }
    TakenIsBehind(c, id);
    RemoveFacts(c, id);
    RegionsAfter(c, Remove(c, id), id);
  }

  lemma DetachRegions(c: Core, id: nat)
    requires Partitioned(c) && id in c.tasks && c.tasks[id].inPool
    ensures SlotsOk(c) && OnlyTask(c, Detach(c, id), id) && (id in Finished(c) <==> c.tasks[id].finished)
    ensures c.tasks[id].finished ==>
              id !in Detach(c, id).tasks && Regions(Detach(c, id), Unassigned(c), Busy(c), Finished(c) - {id})
    ensures !c.tasks[id].finished ==>
              Detach(c, id) == c.(tasks := c.tasks[id := c.tasks[id].(detached := true)])
  {
    hide Partitioned, SlotsOk, Remove, Unassigned, Busy, Finished;
    SlotsIn(c);
    TakenIsBehind(c, id);
    DetachFacts(c, id);
    RegionsAfter(c, Detach(c, id), id);
  }

  lemma FinishRegions(c: Core, id: nat, result: int)
    requires Partitioned(c) && BusyTask(c, id) && c.running > 0
    ensures SlotsOk(c) && OnlyTask(c, Finish(c, id, result), id) && id in Busy(c)
    ensures if c.tasks[id].detached
            then id !in Finish(c, id, result).tasks &&
                 Regions(Finish(c, id, result), Unassigned(c), Busy(c) - {id}, Finished(c))
            else id in Finish(c, id, result).tasks && Finish(c, id, result).tasks[id].result == result &&
                 Regions(Finish(c, id, result), Unassigned(c), Busy(c) - {id}, Finished(c) + {id})
  {
    hide Partitioned, SlotsOk, Remove, Finish, Unassigned, Busy, Finished;
    SlotsIn(c);
    FinishFacts(c, id, result);
    RegionsAfter(c, Finish(c, id, result), id);
  }

  lemma FrontWaits(c: Core)
    requires Partitioned(c)
    ensures c.unassigned > 0 <==> Unassigned(c) != {}
    ensures c.unassigned > 0 ==> c.slots[0] in Unassigned(c)
  {
    CensusOf(c);
  }

  // ----- a push

  /** A push is accepted while there is room for the task, whatever else is going on. Then the task waits, and a worker
      is started or woken exactly when the counters ask for it. */
  lemma PushLaw(s: State, id: nat, woken: nat)
    requires Inv(s) && Enabled(s, PushTask(id, woken))
    ensures var s' := Next(s, PushTask(id, woken));
            var c, c' := s.core, s'.core;
            if |c.slots| >= TPOOL_MAX_TASKS then s' == s
            else
              && Work(s') == Work(s) + 2 && |c'.slots| == |c.slots| + 1 && Only(s, s', id)
              && id !in Unassigned(c) && Regions(c', Unassigned(c) + {id}, Busy(c), Finished(c))
              && c'.tasks[id].result == c.tasks[id].result && !c'.tasks[id].finished && !c'.tasks[id].detached
              && s'.hist[id] == s.hist[id].(pushes := s.hist[id].pushes + 1) && s'.joiners == s.joiners
  {
    hide Push, Partitioned, SlotsOk, WorkersOk, JoinersOk, HistOk, NotStranded, NeedsThread, Signals, WorkersAfterPush;
    hide Unassigned, Busy, Finished, Regions, OnlyTask;
    Lively(s, id);
    if |s.core.slots| < TPOOL_MAX_TASKS { PushRegions(s.core, id); }
  }

  /** A thread is started exactly when all the threads there are execute tasks and there may be another one. Otherwise
      one that sleeps is woken exactly when no other task waits. */
  lemma PushedTaskGetsAWorker(s: State, id: nat, woken: nat)
    requires Inv(s) && Enabled(s, PushTask(id, woken)) && |s.core.slots| < TPOOL_MAX_TASKS
    ensures var s' := Next(s, PushTask(id, woken));
            var c, c' := s.core, s'.core;
            if c.running == c.threads < c.maxThreads
            then s'.workers == s.workers + [Fresh] && c'.threads == c.threads + 1 && c'.event == c.event
            else && c'.threads == c.threads
                 && c'.event == (if c.unassigned == 0 then TaskAppears else c.event)
                 && s'.workers == if c.unassigned == 0 && Waiting in s.workers then s.workers[woken := Woken]
                                  else s.workers
  {
    hide SlotsOk, HistOk, NotStranded, Push, WorkersOk, JoinersOk;
    SlotsIn(s.core);
    PushFacts(s.core, id);
  }

  // ----- the other steps

  /** A worker under the mutex: the task in front is its task, or it sleeps, or it leaves. */
  lemma LockLaw(s: State, w: nat)
    requires Inv(s) && Enabled(s, Lock(w))
    ensures var s' := Next(s, Lock(w));
            var c, c' := s.core, s'.core;
            if s.workers[w] == Woken && c.event == TasksEnded then s' == s.(workers := s.workers[w := Exited])
            else if Unassigned(c) == {} then s' == s.(workers := s.workers[w := Waiting])
            else
              var id := s'.workers[w].id;
              && s'.workers == s.workers[w := Running(id)] && s'.joiners == s.joiners && Only(s, s', id)
              && id in Unassigned(c) && Regions(c', Unassigned(c) - {id}, Busy(c) + {id}, Finished(c))
              && c'.tasks[id].detached == c.tasks[id].detached
              && s'.hist[id] == s.hist[id].(starts := s.hist[id].starts + 1)
  {
    hide Take, Partitioned, WorkersOk, HistOk, NotStranded, JoinersOk, Unassigned, Busy, Finished;
    hide SlotsOk, Regions, OnlyTask;
    FrontWaits(s.core);
    if s.core.unassigned > 0 {
      TakeRegions(s.core);
      Lively(s, s.core.slots[0]);
    }
  }

  /** The task function has returned: the task is finished, or gone if it was detached, and its joiner is woken. */
  lemma ReturnLaw(s: State, w: nat, result: int)
    requires Inv(s) && Enabled(s, Return(w, result))
    ensures var s' := Next(s, Return(w, result));
            var c, c', id := s.core, s'.core, s.workers[w].id;
            && s'.workers == s.workers[w := Fresh] && Only(s, s', id) && id in Busy(c)
            && s'.joiners == (if id in s.joiners then s.joiners[id := Ready] else s.joiners)
            && s'.hist[id].returned == s.hist[id].returned + [result]
            && if c.tasks[id].detached
               then id !in c'.tasks && s'.hist[id].frees == 1 &&
                    Regions(c', Unassigned(c), Busy(c) - {id}, Finished(c))
               else id in c'.tasks && c'.tasks[id].result == result &&
                    Regions(c', Unassigned(c), Busy(c) - {id}, Finished(c) + {id})
  {
    hide Finish, Partitioned, SlotsOk, WorkersOk, HistOk, NotStranded, JoinersOk, Unassigned, Busy, Finished;
    hide Regions, OnlyTask;
    var id := s.workers[w].id;
    BusyWorker(s, w);
    BusyIn(s.core, id);
    Lively(s, id);
    FinishRegions(s.core, id, result);
  }

  /** A join that finds its task finished takes the result and the task out of the pool; the task lives on. */
  lemma JoinLaw(s: State, id: nat)
    requires Inv(s) && Enabled(s, JoinStep(id))
    ensures var s' := Next(s, JoinStep(id));
            var c, c' := s.core, s'.core;
            if id !in Finished(c) then s' == s.(joiners := s.joiners[id := Blocked])
            else
              && s'.workers == s.workers && s'.joiners == s.joiners - {id} && Only(s, s', id)
              && s'.hist[id] == s.hist[id].(handed := s.hist[id].handed + [c.tasks[id].result])
              && id in c'.tasks && !c'.tasks[id].inPool
              && Regions(c', Unassigned(c), Busy(c), Finished(c) - {id})
  {
    hide Remove, Partitioned, SlotsOk, WorkersOk, HistOk, NotStranded, Unassigned, Busy, Finished;
    hide Regions, OnlyTask;
    Lively(s, id);
    assert id in Finished(s.core) <==> s.core.tasks[id].finished by { RegionsAfter(s.core, s.core, id); }
    if s.core.tasks[id].finished { RemoveRegions(s.core, id); }
  }

  /** A detach frees a finished task at once, and any other one in the pool when its function returns. */
  lemma DetachLaw(s: State, id: nat)
    requires Inv(s) && Enabled(s, DetachTask(id))
    ensures var s' := Next(s, DetachTask(id));
            var c, c' := s.core, s'.core;
            if !c.tasks[id].inPool then s' == s
            else
              && s'.workers == s.workers && s'.joiners == s.joiners && Only(s, s', id)
              && if id in Finished(c)
                 then id !in c'.tasks && s'.hist[id] == s.hist[id].(frees := 1) &&
                      Regions(c', Unassigned(c), Busy(c), Finished(c) - {id})
                 else c' == c.(tasks := c.tasks[id := c.tasks[id].(detached := true)]) && s'.hist == s.hist
  {
    hide Remove, Partitioned, SlotsOk, WorkersOk, HistOk, JoinersOk, NotStranded, Unassigned, Busy, Finished;
    hide Regions, OnlyTask, Detach;
    Lively(s, id);
    if s.core.tasks[id].inPool { DetachRegions(s.core, id); }
  }

  /** A task is deleted exactly when it is not in the pool. */
  lemma DeleteTaskLaw(s: State, id: nat)
    requires Inv(s) && Enabled(s, DeleteTask(id))
    ensures var s' := Next(s, DeleteTask(id));
            if s.core.tasks[id].inPool then s' == s
            else && s' == s.(core := s'.core, hist := s'.hist) && s'.core == s.core.(tasks := s.core.tasks - {id})
                 && Only(s, s', id) && s'.hist[id] == s.hist[id].(frees := 1)
  {
    hide Partitioned, WorkersOk, HistOk, JoinersOk, NotStranded, Unassigned, Busy, Finished;
    Lively(s, id);
  }

  /** A pool is deleted exactly when no task waits or is executed; then every sleeping worker is woken to leave. */
  lemma DeletePoolLaw(s: State)
    requires Inv(s) && Enabled(s, DeletePool)
    ensures var s' := Next(s, DeletePool);
            if Unassigned(s.core) != {} || Busy(s.core) != {} then s' == s
            else && s' == s.(core := s.core.(event := TasksEnded), workers := s'.workers, deleted := true)
                 && |s'.workers| == |s.workers|
                 && forall w :: 0 <= w < |s.workers| ==>
                      s'.workers[w] == if s.workers[w] == Waiting then Woken else s.workers[w]
  {
    hide Partitioned, WorkersOk, HistOk, JoinersOk, NotStranded, Unassigned, Busy, Finished;
    CensusOf(s.core);
  }

  // ----- from the push to the result

  /** What has happened stays, and only a push adds a push. */
  lemma HistGrows(s: State, a: Action, id: nat)
    requires Inv(s) && Enabled(s, a) && id in s.hist
    ensures id in Next(s, a).hist && s.hist[id].returned <= Next(s, a).hist[id].returned
    ensures !a.PushTask? ==> Next(s, a).hist[id].pushes == s.hist[id].pushes
  {
    hide Partitioned, SlotsOk, WorkersOk, JoinersOk, NotStranded, Busy, Take, Finish, Push, Remove, Detach;
  }

  lemma {:induction false} OnlyPushesAdd(maxThreads: nat, schedule: seq<Action>, more: seq<Action>, id: nat)
    requires 1 <= maxThreads <= TPOOL_MAX_THREADS && NoPushes(more) && id in Run(maxThreads, schedule).hist
    ensures var s, s' := Run(maxThreads, schedule), Run(maxThreads, schedule + more);
            id in s'.hist && s'.hist[id].pushes == s.hist[id].pushes && s.hist[id].returned <= s'.hist[id].returned
    decreases |more|
  {
    hide Run, Inv, Enabled, Next;
    if more == [] {
      assert schedule + more == schedule;
    } else {
      var s := Run(maxThreads, schedule);
      Step(maxThreads, schedule, more[0]);
      if Enabled(s, more[0]) { HistGrows(s, more[0], id); }
      OnlyPushesAdd(maxThreads, schedule + [more[0]], more[1..], id);
      assert schedule + more == schedule + [more[0]] + more[1..];
    }
  }

  /** When nothing waits and nothing runs, every task has returned once for each of its pushes. */
  lemma AllHaveReturned(s: State, id: nat)
    requires Inv(s) && Work(s) == 0 && id in s.hist
    ensures |s.hist[id].returned| == s.hist[id].starts == s.hist[id].pushes
  {
    hide WorkersOk, JoinersOk, NotStranded, Busy;
    if id in s.core.tasks {
      Lively(s, id);
      assert !BusyTask(s.core, id) by { NothingIsBusy(s.core, id); }
    }
  }

  lemma NothingIsBusy(c: Core, id: nat)
    requires |Busy(c)| == 0
    ensures !BusyTask(c, id)
  {
    assert id !in Busy(c);
  }

  lemma {:induction false} RoundsHaveNoPushes(maxThreads: nat, rounds: seq<seq<Action>>)
    requires forall k :: 0 <= k < |rounds| ==> Fair(rounds[k], maxThreads)
    ensures NoPushes(InRow(rounds))
  {
    if rounds != [] {
      RoundsHaveNoPushes(maxThreads, rounds[1..]);
      assert Fair(rounds[0], maxThreads);
    }
  }

  /** A task that is pushed while there is room is executed, and returns, exactly once more: after as many rounds
      without pushes, in which each worker gets its turn, as there is work. */
  lemma PushedTaskReturns(maxThreads: nat, schedule: seq<Action>, id: nat, woken: nat, rounds: seq<seq<Action>>)
    requires 1 <= maxThreads <= TPOOL_MAX_THREADS && forall k :: 0 <= k < |rounds| ==> Fair(rounds[k], maxThreads)
    requires var s := Run(maxThreads, schedule);
             Enabled(s, PushTask(id, woken)) && |s.core.slots| < TPOOL_MAX_TASKS && Work(s) + 2 <= |rounds|
    ensures var s := Run(maxThreads, schedule);
            var s' := Run(maxThreads, schedule + [PushTask(id, woken)] + InRow(rounds));
            && id in s.hist && id in s'.hist && s.hist[id].returned <= s'.hist[id].returned
            && |s'.hist[id].returned| == |s.hist[id].returned| + 1
            && s'.hist[id].starts == s.hist[id].starts + 1
  {
    hide Run, Inv, Enabled, Next, Work, Fair;
    var s, pushed := Run(maxThreads, schedule), schedule + [PushTask(id, woken)];
    Step(maxThreads, schedule, PushTask(id, woken));
    PushLaw(s, id, woken);
    NotPushedYet(s, id, woken);
    FairRoundsFinishTheWork(maxThreads, pushed, rounds);
    RoundsHaveNoPushes(maxThreads, rounds);
    OnlyPushesAdd(maxThreads, pushed, InRow(rounds), id);
    AllHaveReturned(Run(maxThreads, pushed + InRow(rounds)), id);
  }

  /** A task that can be pushed has returned once for each push so far. */
  lemma NotPushedYet(s: State, id: nat, woken: nat)
    requires Inv(s) && Enabled(s, PushTask(id, woken))
    ensures id in s.hist && |s.hist[id].returned| == s.hist[id].starts == s.hist[id].pushes
  {
    hide Partitioned, WorkersOk, JoinersOk, NotStranded, Busy;
    Lively(s, id);
  }
}
