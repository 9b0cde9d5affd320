/**
  The thread pool's data structure: an array of tasks and the tasks' back-pointers. Each method is one stay under
  the mutex; how the threads interleave between the stays is the subject of ThreadPoolRuns.
 */
module ThreadPool {
  import S = ThreadPoolSpec

  datatype Status = Success | InvalidArgument | TooManyTasks | HasTasks | NotPushed | TaskInPool

  class Task {
    const id: nat
    var finished: bool
    var taken: bool       // `assigned` in the source
    var detached: bool    // `scheduled_for_deletion` in the source
    var parent: Pool?
    var index: int
    var result: int

    constructor (id: nat)
      ensures this.id == id && Model() == S.NEW_TASK && parent == null
    {
      this.id := id;
      finished, taken, detached := false, false, false;
      parent, index, result := null, S.NONE, 0;
    }

    ghost function Model(): S.Task
      reads this
    {
      S.Task(finished, taken, detached, parent != null, index, result)
    }
  }

  class Pool {
    const maxThreads: nat
    const slots: array<Task?>
    var pushed: nat
    var unassigned: nat
    var running: nat
    var threads: nat
    var event: S.Event
    ghost var all: map<nat, Task>   // every task that was made and not yet freed
    ghost var core: S.Core          // what the mutex protects

    ghost predicate Has(t: Task)
      reads `all
    {
      t.id in all && all[t.id] == t
    }

    /** The array is that of `c`. */
    ghost predicate ArrayIn(c: S.Core)
      reads `pushed, `all, slots
    {
      && slots.Length == S.TPOOL_MAX_TASKS && pushed == |c.slots| <= slots.Length
      && (forall k :: 0 <= k < pushed ==> slots[k] != null && slots[k].id == c.slots[k] && Has(slots[k]))
    }

    /** The tasks are those of `c`. */
    ghost predicate TasksIn(c: S.Core)
      reads `all, all.Values
    {
      && (forall id :: id in all <==> id in c.tasks)
      && (forall id {:trigger all[id]} :: id in all ==>
            && all[id].id == id && (all[id].parent == null || all[id].parent == this)
            && c.tasks[id] == all[id].Model())
    }

    ghost predicate Places(c: S.Core)
      reads `pushed, `all, slots, all.Values
    {
      ArrayIn(c) && TasksIn(c)
    }

    ghost predicate Counts(c: S.Core)
      reads `unassigned, `running, `threads, `event
    {
      unassigned == c.unassigned && running == c.running && threads == c.threads && maxThreads == c.maxThreads &&
      event == c.event
    }

    ghost predicate Valid()
      reads this, slots, all.Values
    {
      Places(core) && Counts(core) && S.Partitioned(core)
    }

    constructor (maxThreads: nat)
      requires 1 <= maxThreads <= S.TPOOL_MAX_THREADS
      ensures Valid() && all == map[] && fresh(slots)
      ensures core == S.Core([], 0, 0, 0, maxThreads, S.NoEvent, map[])
    {
      this.maxThreads := maxThreads;
      slots := new Task?[S.TPOOL_MAX_TASKS];
      pushed, unassigned, running, threads, event := 0, 0, 0, 0, S.NoEvent;
      all := map[];
      core := S.Core([], 0, 0, 0, maxThreads, S.NoEvent, map[]);
    }

    /** The task is in the array, where its back-pointer says. */
    ghost predicate Placed(t: Task, c: S.Core)
      reads this, slots, t
    {
      Has(t) && t.parent == this && pushed <= slots.Length && 0 <= t.index < pushed && slots[t.index] == t &&
      |c.slots| == pushed && c.slots[t.index] == t.id && t.id in c.tasks && c.tasks[t.id] == t.Model()
    }

    lemma PushedIsPlaced(t: Task, c: S.Core)
      requires Places(c) && S.SlotsOk(c) && Has(t) && t.parent == this
      ensures Placed(t, c)
    {
      assert c.tasks[t.id].inPool;
      assert c.slots[t.index] == t.id;
    }

    lemma InArray(k: nat, c: S.Core)
      requires Places(c) && S.SlotsOk(c) && k < pushed
      ensures slots[k] != null && Placed(slots[k], c) && slots[k].index == k && c.slots[k] == slots[k].id
    {
      assert c.slots[k] == slots[k].id;
      assert c.tasks[c.slots[k]].inPool && c.tasks[c.slots[k]].index == k;
    }

    method PutInArray(k: nat, t: Task, ghost c: S.Core)
      requires ArrayIn(c) && Has(t) && k < pushed
      modifies slots
      ensures k < |c.slots| && ArrayIn(c.(slots := c.slots[k := t.id]))
    {
      slots[k] := t;
    }

    method SetIndex(t: Task, k: nat, ghost c: S.Core)
      requires TasksIn(c) && Has(t)
      modifies t`index
      ensures t.id in c.tasks && TasksIn(S.SetTask(c, t.id, c.tasks[t.id].(index := k)))
    {
      t.index := k;
    }

    method Put(k: nat, t: Task, ghost c: S.Core)
      requires Places(c) && Has(t) && k < pushed
      modifies slots, t`index
      ensures t.id in c.tasks && k < |c.slots|
      ensures Places(c.(slots := c.slots[k := t.id], tasks := c.tasks[t.id := c.tasks[t.id].(index := k)]))
    {
      hide ArrayIn, TasksIn;
      PutInArray(k, t, c);
      ghost var c1 := c.(slots := c.slots[k := t.id]);
      SameTasks(c, c1);
      SetIndex(t, k, c1);
      SameArray(c1, S.SetTask(c1, t.id, c1.tasks[t.id].(index := k)));
    }

    lemma SameArray(c: S.Core, c': S.Core)
      requires ArrayIn(c) && c'.slots == c.slots
      ensures ArrayIn(c')
    {
    }

    lemma SameTasks(c: S.Core, c': S.Core)
      requires TasksIn(c) && c'.tasks == c.tasks
      ensures TasksIn(c')
    {
    }

    method Swap(a: Task, b: Task, ghost c: S.Core)
      requires Places(c) && S.SlotsOk(c) && Placed(a, c) && Placed(b, c)
      modifies slots, a`index, b`index
      ensures |c.slots| == pushed && c.slots[old(a.index)] in c.tasks && c.slots[old(b.index)] in c.tasks
      ensures Places(S.Swap(c, old(a.index), old(b.index)))
    {
      hide S.SlotsOk, Places;
      var i, j := a.index, b.index;
      assert |c.slots| == pushed by { InPlaces(c); }
      Put(i, b, c);
      Put(j, a, c.(slots := c.slots[i := b.id], tasks := c.tasks[b.id := c.tasks[b.id].(index := i)]));
      assert S.Swap(c, i, j).tasks ==
        c.tasks[b.id := c.tasks[b.id].(index := i)][a.id := c.tasks[a.id].(index := j)];
    }

    lemma InPlaces(c: S.Core)
      requires Places(c)
      ensures |c.slots| == pushed <= slots.Length
    {
    }

    method MarkTaken(t: Task, ghost c: S.Core)
      requires Places(c) && Has(t)
      modifies t`taken
      ensures t.id in c.tasks && Places(S.SetTask(c, t.id, c.tasks[t.id].(taken := true)))
    {
      hide ArrayIn;
      t.taken := true;
      SameArray(c, S.SetTask(c, t.id, c.tasks[t.id].(taken := true)));
    }

    method MarkDetached(t: Task, ghost c: S.Core)
      requires Places(c) && Has(t)
      modifies t`detached
      ensures t.id in c.tasks && Places(S.SetTask(c, t.id, c.tasks[t.id].(detached := true)))
    {
      hide ArrayIn;
      t.detached := true;
      SameArray(c, S.SetTask(c, t.id, c.tasks[t.id].(detached := true)));
    }

    method MarkFinished(t: Task, result: int, ghost c: S.Core)
      requires Places(c) && Has(t)
      modifies t`result, t`finished
      ensures t.id in c.tasks && Places(S.SetTask(c, t.id, c.tasks[t.id].(result := result, finished := true)))
    {
      hide ArrayIn;
      t.result := result;
      t.finished := true;
      SameArray(c, S.SetTask(c, t.id, c.tasks[t.id].(result := result, finished := true)));
    }

    lemma FlagsOf(t: Task, c: S.Core)
      requires Places(c) && Has(t)
      ensures t.id in c.tasks && c.tasks[t.id] == t.Model()
    {
    }

    lemma CountsDoNotMatter(c: S.Core, c': S.Core)
      requires Places(c) && c'.slots == c.slots && c'.tasks == c.tasks
      ensures Places(c')
    {
    }

    method ShrinkArray(ghost c: S.Core)
      requires ArrayIn(c) && pushed > 0
      modifies `pushed
      ensures |c.slots| > 0 && ArrayIn(c.(slots := c.slots[..|c.slots| - 1]))
    {
      pushed := pushed - 1;
    }

    method GrowArray(t: Task, ghost c: S.Core)
      requires ArrayIn(c) && Has(t) && pushed < S.TPOOL_MAX_TASKS
      modifies `pushed, slots
      ensures pushed == old(pushed) + 1 && ArrayIn(c.(slots := c.slots + [t.id]))
    {
      slots[pushed] := t;
      pushed := pushed + 1;
    }

    method SetOut(t: Task, ghost c: S.Core)
      requires TasksIn(c) && Has(t)
      modifies t`parent, t`index, t`taken
      ensures t.parent == null && t.id in c.tasks
      ensures TasksIn(S.SetTask(c, t.id, c.tasks[t.id].(inPool := false, index := S.NONE, taken := false)))
    {
      t.parent, t.index, t.taken := null, S.NONE, false;
    }

    method SetIn(t: Task, k: nat, ghost c: S.Core)
      requires TasksIn(c) && Has(t)
      modifies t`parent, t`index, t`taken, t`finished
      ensures t.parent == this && t.id in c.tasks
      ensures TasksIn(S.SetTask(c, t.id, c.tasks[t.id].(inPool := true, index := k, taken := false, finished := false)))
    {
      t.finished, t.taken, t.parent, t.index := false, false, this, k;
    }

    /** The last entry of the array goes, and the task that was moved there is no longer in the pool. */
    method DropLast(t: Task, ghost c: S.Core)
      requires Places(c) && Has(t) && pushed > 0
      modifies `pushed, t`parent, t`index, t`taken
      ensures t.id in c.tasks && |c.slots| > 0 && t.parent == null
      ensures Places(S.SetTask(c.(slots := c.slots[..|c.slots| - 1]), t.id,
                               c.tasks[t.id].(inPool := false, index := S.NONE, taken := false)))
    {
      hide ArrayIn, TasksIn;
      ShrinkArray(c);
      ghost var c2 := c.(slots := c.slots[..|c.slots| - 1]);
      SameTasks(c, c2);
      SetOut(t, c2);
      SameArray(c2, S.SetTask(c2, t.id, c.tasks[t.id].(inPool := false, index := S.NONE, taken := false)));
    }

    /** A finished task leaves the array: the common end of a join and of a detach. */
    method Leave(t: Task, ghost c: S.Core)
      requires Places(c) && S.SlotsOk(c) && Has(t) && t.parent == this
      modifies `pushed, slots, all.Values
      ensures t.id in c.tasks && c.tasks[t.id].inPool && Places(S.Remove(c, t.id)) && t.parent == null
    {
      hide S.SlotsOk, S.Swap, Places;
      PushedIsPlaced(t, c);
      InPlaces(c);
      InArray(pushed - 1, c);
      S.SwapFacts(c, t.index, pushed - 1);
      ghost var c1 := S.Swap(c, t.index, pushed - 1);
      Swap(t, slots[pushed - 1], c);
      DropLast(t, c1);
    }

    /** The memory of a task outside the array is given back. */
    ghost method Free(t: Task, c: S.Core)
      requires Places(c) && S.SlotsOk(c) && Has(t) && t.parent == null
      modifies `all
      ensures all == old(all) - {t.id} && Places(S.Free(c, t.id))
    {
      forall k | 0 <= k < |c.slots| ensures c.slots[k] != t.id {
        assert c.tasks[c.slots[k]].inPool;
      }
      all := all - {t.id};
    }

    /** A worker under the mutex: it leaves, it takes the task in front, or it has to wait. */
    method LookForWork(woken: bool) returns (task: Task?, leaves: bool)
      requires Valid()
      modifies `unassigned, `running, `core, slots, all.Values
      ensures Valid() && all == old(all) && leaves == (woken && old(core).event == S.TasksEnded)
      ensures if leaves || old(core).unassigned == 0 then task == null && core == old(core)
              else && task != null && Has(task) && task.id == old(core).slots[0]
                   && core == S.Take(old(core))
    {
      task, leaves := null, false;
      if woken && event == S.TasksEnded {
        leaves := true;
        return;
      }
      if unassigned == 0 {
        return;
      }
      task := TakeTask();
    }

    method TakeTask() returns (task: Task)
      requires Valid() && unassigned > 0
      modifies `unassigned, `running, `core, slots, all.Values
      ensures Valid() && all == old(all) && core == S.Take(old(core))
      ensures Has(task) && task.id == old(core).slots[0]
    {
      hide S.SlotsOk, S.Partitioned, S.Take, Places;
      S.SlotsIn(core);
      S.TakeKeeps(core);
      S.TakeFacts(core);
      task := TakeFront();
      core := S.Take(core);
    }

    method TakeFront() returns (task: Task)
      requires Valid() && unassigned > 0
      modifies `unassigned, `running, slots, all.Values
      ensures Places(S.Take(core)) && Counts(S.Take(core))
      ensures Has(task) && task.id == core.slots[0]
    {
      hide S.SlotsOk, S.Partitioned, S.Swap, S.Take, Places;
      S.SlotsIn(core);
      ghost var c := core.(unassigned := core.unassigned - 1);
      S.Bounds(core);
      S.TakeFacts(core);
      S.SameLinks(core, c);
      unassigned := unassigned - 1;
      CountsDoNotMatter(core, c);
      InPlaces(c);
      InArray(0, c);
      InArray(unassigned, c);
      task := slots[0];
      Swap(task, slots[unassigned], c);
      ghost var c1 := S.Swap(c, 0, unassigned);
      ghost var c2 := c1.(running := c1.running + 1);
      CountsDoNotMatter(c1, c2);
      running := running + 1;
      MarkTaken(task, c2);
      TakesAs(core, c2);
    }

    /** A worker brings a result back; a detached task is thrown away with it. */
    method FinishTask(t: Task, result: int)
      requires Valid() && Has(t) && t.parent == this && t.taken && !t.finished && running > 0
      modifies this, slots, all.Values
      ensures Valid() && t.id in old(core).tasks && core == S.Finish(old(core), t.id, result)
      ensures all == if old(t.detached) then old(all) - {t.id} else old(all)
    {
      hide S.SlotsOk, S.Partitioned, S.Finish, Places;
      S.SlotsIn(core);
      FlagsOf(t, core);
      S.FinishFacts(core, t.id, result);
      BringBack(t, result);
      core := S.Finish(core, t.id, result);
    }

    method BringBack(t: Task, result: int)
      requires Valid() && Has(t) && t.parent == this && t.taken && !t.finished && running > 0
      modifies this, slots, all.Values
      ensures t.id in core.tasks && core.tasks[t.id].inPool && core == old(core)
      ensures Places(S.Finish(core, t.id, result)) && Counts(S.Finish(core, t.id, result))
      ensures all == if old(t.detached) then old(all) - {t.id} else old(all)
    {
      hide S.SlotsOk, S.Partitioned, S.Remove, Places;
      S.SlotsIn(core);
      FlagsOf(t, core);
      S.TakenIsBehind(core, t.id);
      S.Bounds(core);
      ghost var c := core.(running := core.running - 1);
      CountsDoNotMatter(core, c);
      running := running - 1;
      MarkFinished(t, result, c);
      ghost var c1 := S.SetTask(c, t.id, c.tasks[t.id].(finished := true, result := result));
      S.SameLinks(core, c1);
      if t.detached {
        S.RemoveFacts(c1, t.id);
        Leave(t, c1);
        Free(t, S.Remove(c1, t.id));
      }
    }

    /** A joiner under the mutex: the task is not finished and it has to wait, or it takes the result. */
    method JoinTask(t: Task) returns (status: Status, joined: bool, result: int)
      requires Valid() && Has(t)
      modifies this, slots, all.Values
      ensures Valid() && t.id in old(core).tasks && all == old(all)
      ensures status == if old(core).tasks[t.id].inPool then Success else NotPushed
      ensures joined == (old(core).tasks[t.id].inPool && old(core).tasks[t.id].finished)
      ensures joined ==> core == S.Remove(old(core), t.id) && result == old(core).tasks[t.id].result
      ensures !joined ==> core == old(core)
    {
      hide S.SlotsOk, S.Partitioned, S.Remove, Places;
      S.SlotsIn(core);
      FlagsOf(t, core);
      status, joined, result := NotPushed, false, 0;
      if t.parent == null {
        return;
      }
      HasParent(t, core);
      status := Success;
      if !t.finished {
        return;
      }
      S.Bounds(core);
      S.TakenIsBehind(core, t.id);
      S.RemoveFacts(core, t.id);
      S.RemoveKeeps(core, t.id);
      Leave(t, core);
      core := S.Remove(core, t.id);
      FlagsOf(t, core);
      joined, result := true, t.result;
    }

    lemma HasParent(t: Task, c: S.Core)
      requires Places(c) && Has(t)
      ensures t.parent == null || t.parent == this
    {
    }

    method DetachTask(t: Task) returns (status: Status)
      requires Valid() && Has(t)
      modifies this, slots, all.Values
      ensures Valid() && t.id in old(core).tasks
      ensures status == if old(core).tasks[t.id].inPool then Success else NotPushed
      ensures core == if status == Success then S.Detach(old(core), t.id) else old(core)
      ensures all == if old(t.parent) != null && old(t.finished) then old(all) - {t.id} else old(all)
    {
      hide S.SlotsOk, S.Partitioned, S.Remove, Places;
      S.SlotsIn(core);
      FlagsOf(t, core);
      if t.parent == null {
        return NotPushed;
      }
      HasParent(t, core);
      S.Bounds(core);
      S.DetachFacts(core, t.id);
      if t.finished {
        S.TakenIsBehind(core, t.id);
        S.RemoveFacts(core, t.id);
        Leave(t, core);
        Free(t, S.Remove(core, t.id));
        core := S.Detach(core, t.id);
      } else {
        MarkDetached(t, core);
        core := S.Detach(core, t.id);
      }
      return Success;
    }

    /** A push: either an existing worker is signalled, a new one is started, or all the workers there are find the
        task by themselves. */
    method PushTask(t: Task) returns (status: Status, starts: bool, signals: bool)
      requires Valid() && Has(t) && t.parent == null
      modifies this, slots, all.Values
      ensures Valid() && all == old(all) && t.id in old(core).tasks && !old(core).tasks[t.id].inPool
      ensures status == if |old(core).slots| < S.TPOOL_MAX_TASKS then Success else TooManyTasks
      ensures status == Success ==>
                core == S.Push(old(core), t.id) && starts == S.NeedsThread(old(core)) && signals == S.Signals(old(core))
      ensures status != Success ==> core == old(core) && !starts && !signals
    {
      hide S.SlotsOk, S.Partitioned, S.Push, Places;
      S.SlotsIn(core);
      FlagsOf(t, core);
      InPlaces(core);
      starts, signals := false, false;
      if pushed >= S.TPOOL_MAX_TASKS {
        return TooManyTasks, false, false;
      }
      S.PushFacts(core, t.id);
      S.PushKeeps(core, t.id);
      starts, signals := AppendTask(t);
      MoveIn(t);
      core := S.Push(core, t.id);
      status := Success;
    }

    method AppendTask(t: Task) returns (starts: bool, signals: bool)
      requires Valid() && Has(t) && t.parent == null && pushed < S.TPOOL_MAX_TASKS
      modifies `pushed, `unassigned, `threads, `event, slots, t
      ensures t.parent == this && t.id in core.tasks && !core.tasks[t.id].inPool && pushed == |core.slots| + 1
      ensures Places(S.Append(core, t.id)) && Counts(S.Append(core, t.id))
      ensures starts == S.NeedsThread(core) && signals == S.Signals(core)
    {
      hide S.SlotsOk, S.Partitioned, Places;
      InPlaces(core);
      FlagsOf(t, core);
      ghost var c := EnterTask(t, core);
      unassigned := unassigned + 1;
      starts, signals := false, false;
      if running == threads && threads < maxThreads {
        threads := threads + 1;
        starts := true;
      } else if unassigned == 1 {
        event := S.TaskAppears;
        signals := true;
      }
      CountsDoNotMatter(c, S.Append(core, t.id));
    }

    method MoveIn(t: Task)
      requires Has(t) && t.parent == this && t.id in core.tasks && !core.tasks[t.id].inPool && S.SlotsOk(core)
      requires pushed == |core.slots| + 1 <= S.TPOOL_MAX_TASKS
      requires Places(S.Append(core, t.id)) && Counts(S.Append(core, t.id))
      modifies slots, all.Values
      ensures Places(S.Push(core, t.id)) && Counts(S.Push(core, t.id))
    {
      hide S.SlotsOk, S.Swap, Places, S.NeedsThread, S.Signals;
      S.Bounds(core);
      ghost var c := S.Append(core, t.id);
      S.Appended(core, t.id, c.tasks[t.id], c);
      PushedIsPlaced(t, c);
      FlagsOf(t, c);
      InArray(unassigned - 1, c);
      S.SwapFacts(c, unassigned - 1, pushed - 1);
      Swap(slots[unassigned - 1], t, c);
    }

    method EnterTask(t: Task, ghost c: S.Core) returns (ghost c': S.Core)
      requires Places(c) && Has(t) && pushed < S.TPOOL_MAX_TASKS
      modifies `pushed, slots, t
      ensures t.parent == this && Places(c') && pushed == |c.slots| + 1 && t.id in c.tasks
      ensures c' == S.SetTask(c.(slots := c.slots + [t.id]), t.id,
                              c.tasks[t.id].(finished := false, taken := false, inPool := true, index := |c.slots|))
    {
      hide TasksIn;
      GrowArray(t, c);
      ghost var c1 := c.(slots := c.slots + [t.id]);
      SameTasks(c, c1);
      SetIn(t, pushed - 1, c1);
      c' := S.SetTask(c1, t.id, c1.tasks[t.id].(inPool := true, index := |c.slots|, taken := false, finished := false));
      SameArray(c1, c');
    }

    /** A task made by thread_task_new, with an id that no living task has. */
    method NewTask(id: nat) returns (t: Task)
      requires Valid() && id !in all
      modifies `all, `core
      ensures Valid() && fresh(t) && Has(t) && all == old(all)[id := t]
      ensures core == S.SetTask(old(core), id, S.NEW_TASK)
    {
      t := new Task(id);
      S.NewTaskKeeps(core, id);
      all := all[id := t];
      core := S.SetTask(core, id, S.NEW_TASK);
    }

    method DeleteTask(t: Task) returns (status: Status)
      requires Valid() && Has(t)
      modifies `all, `core
      ensures Valid() && t.id in old(core).tasks
      ensures status == if old(core).tasks[t.id].inPool then TaskInPool else Success
      ensures core == if status == Success then S.Free(old(core), t.id) else old(core)
      ensures all == if status == Success then old(all) - {t.id} else old(all)
    {
      hide S.SlotsOk, S.Partitioned, Places;
      S.SlotsIn(core);
      FlagsOf(t, core);
      if t.parent != null {
        return TaskInPool;
      }
      S.FreeKeeps(core, t.id);
      Free(t, core);
      core := S.Free(core, t.id);
      status := Success;
    }

    /** The first part of a delete; the workers that wait are woken by the event. */
    method DeletePool() returns (status: Status)
      requires Valid()
      modifies `event, `core
      ensures Valid()
      ensures status == if old(core).unassigned > 0 || old(core).running > 0 then HasTasks else Success
      ensures core == if status == Success then old(core).(event := S.TasksEnded) else old(core)
    {
      if unassigned > 0 || running > 0 {
        return HasTasks;
      }
      event := S.TasksEnded;
      core := core.(event := S.TasksEnded);
      status := Success;
    }
  }

  method NewPool(maxThreads: int) returns (status: Status, pool: Pool?)
    ensures status == if 0 < maxThreads <= S.TPOOL_MAX_THREADS then Success else InvalidArgument
    ensures status == Success ==> pool != null && fresh(pool) && pool.Valid() && pool.all == map[]
    ensures status == Success ==> pool.core == S.Core([], 0, 0, 0, maxThreads, S.NoEvent, map[])
  {
    if maxThreads <= 0 || maxThreads > S.TPOOL_MAX_THREADS {
      return InvalidArgument, null;
    }
    pool := new Pool(maxThreads);
    status := Success;
  }

  lemma TakesAs(c: S.Core, c2: S.Core)
    requires S.SlotsOk(c) && c.unassigned > 0
    requires var c1 := S.Swap(c.(unassigned := c.unassigned - 1), 0, c.unassigned - 1);
             c2 == c1.(running := c1.running + 1)
    ensures c.slots[0] in c2.tasks
    ensures S.SetTask(c2, c.slots[0], c2.tasks[c.slots[0]].(taken := true)) == S.Take(c)
  {
  }
}
