/**
  The steps of the runs are the critical sections of the code: whenever the pool is in the state of a run, the code
  takes it to the state after the step, and what it tells its caller is what the step makes of the worker or the client.
 */
module ThreadPoolCode {
  import S = ThreadPoolSpec
  import opened ThreadPoolRuns
  import opened ThreadPool

  /** The pool is the one of the run. */
  ghost predicate Mirrors(pool: Pool, s: State)
    reads pool, pool.slots, pool.all.Values
  {
    pool.Valid() && Inv(s) && pool.core == s.core
  }

  /** A push starts a thread where the run has a new worker, and signals where it wakes one. */
  method PushTask(pool: Pool, t: Task, ghost s: State, ghost woken: nat)
    returns (status: Status, starts: bool, signals: bool)
    requires Mirrors(pool, s) && pool.Has(t) && Enabled(s, Action.PushTask(t.id, woken))
    modifies pool, pool.slots, pool.all.Values
    ensures pool.Valid() && pool.core == Next(s, Action.PushTask(t.id, woken)).core
    ensures status == if |s.core.slots| < S.TPOOL_MAX_TASKS then Success else TooManyTasks
    ensures Next(s, Action.PushTask(t.id, woken)).workers ==
            if starts then s.workers + [Fresh]
            else if signals && Waiting in s.workers then s.workers[woken := Woken] else s.workers
  {
    hide Inv, S.Partitioned, Pool.Places;
    pool.FlagsOf(t, s.core);
    status, starts, signals := pool.PushTask(t);
  }

  /** Worker `w` takes the mutex; `again` if it comes from a wait. */
  method LookForWork(pool: Pool, ghost s: State, w: nat, again: bool) returns (worker: Worker)
    requires Mirrors(pool, s) && Enabled(s, Lock(w)) && again == (s.workers[w] == Woken)
    modifies pool, pool.slots, pool.all.Values
    ensures pool.Valid() && pool.core == Next(s, Lock(w)).core && worker == Next(s, Lock(w)).workers[w]
  {
    hide Inv, S.Partitioned, Pool.Places;
    var task, leaves := pool.LookForWork(again);
    worker := if leaves then Exited else if task == null then Waiting else Running(task.id);
  }

  method FinishTask(pool: Pool, t: Task, ghost s: State, ghost w: nat, result: int)
    requires Mirrors(pool, s) && pool.Has(t) && Enabled(s, Return(w, result)) && s.workers[w] == Running(t.id)
    modifies pool, pool.slots, pool.all.Values
    ensures pool.Valid() && pool.core == Next(s, Return(w, result)).core
  {
    hide S.Partitioned, Pool.Places;
    BusyWorker(s, w);
    BusyIn(s.core, t.id);
    pool.FlagsOf(t, s.core);
    pool.HasParent(t, s.core);
    pool.FinishTask(t, result);
  }

  predicate HandsBack(s: State, s': State, id: nat, result: int) {
    id in s.hist && id in s'.hist && s'.hist[id].handed == s.hist[id].handed + [result]
  }

  /** What a joiner under the mutex is told is what the step adds to the results handed back. */
  method JoinTask(pool: Pool, t: Task, ghost s: State) returns (joined: bool, result: int)
    requires Mirrors(pool, s) && pool.Has(t) && Enabled(s, JoinStep(t.id))
    modifies pool, pool.slots, pool.all.Values
    ensures pool.Valid() && pool.core == Next(s, JoinStep(t.id)).core
    ensures joined <==> t.id !in Next(s, JoinStep(t.id)).joiners
    ensures joined ==> HandsBack(s, Next(s, JoinStep(t.id)), t.id, result)
  {
    hide S.Partitioned, Pool.Places;
    Lively(s, t.id);
    var status;
    status, joined, result := pool.JoinTask(t);
  }

  method DetachTask(pool: Pool, t: Task, ghost s: State) returns (status: Status)
    requires Mirrors(pool, s) && pool.Has(t) && Enabled(s, Action.DetachTask(t.id))
    modifies pool, pool.slots, pool.all.Values
    ensures pool.Valid() && pool.core == Next(s, Action.DetachTask(t.id)).core
  {
    hide S.Partitioned, Pool.Places;
    status := pool.DetachTask(t);
  }

  method NewTask(pool: Pool, ghost s: State, id: nat) returns (t: Task)
    requires Mirrors(pool, s) && id == s.nextId
    modifies pool
    ensures pool.Valid() && pool.core == Next(s, Action.NewTask).core && t.id == s.nextId && pool.Has(t)
  {
    hide S.Partitioned;
    assert id !in s.core.tasks;
    t := pool.NewTask(id);
  }

  method DeleteTask(pool: Pool, t: Task, ghost s: State) returns (status: Status)
    requires Mirrors(pool, s) && pool.Has(t) && Enabled(s, Action.DeleteTask(t.id))
    modifies pool
    ensures pool.Valid() && pool.core == Next(s, Action.DeleteTask(t.id)).core
    ensures status == Success <==> t.id !in Next(s, Action.DeleteTask(t.id)).core.tasks
  {
    status := pool.DeleteTask(t);
  }

  method DeletePool(pool: Pool, ghost s: State) returns (status: Status)
    requires Mirrors(pool, s) && Enabled(s, Action.DeletePool)
    modifies pool
    ensures pool.Valid() && pool.core == Next(s, Action.DeletePool).core
    ensures status == Success <==> Next(s, Action.DeletePool).deleted
  {
    status := pool.DeletePool();
  }
}
