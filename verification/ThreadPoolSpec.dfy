/**
  The thread pool as a state machine. What happens under the pool's mutex is one step; between the steps the
  workers and the clients interleave in any order, and a wait may end without a signal.
 */
module ThreadPoolSpec {
  const TPOOL_MAX_THREADS := 20
  const TPOOL_MAX_TASKS := 100000
  const NONE := -1

  datatype Event = NoEvent | TaskAppears | TasksEnded

  datatype Task = Task(finished: bool, taken: bool, detached: bool, inPool: bool, index: int, result: int)

  /** The fields the mutex protects. A task that is freed is not in `tasks` any more. */
  datatype Core = Core(
    slots: seq<nat>,              // the ids of the pushed tasks, in array order
    unassigned: nat,
    running: nat,
    threads: nat,
    maxThreads: nat,
    event: Event,
    tasks: map<nat, Task>)

  const NEW_TASK := Task(false, false, false, false, NONE, 0)

  // ----- the critical sections

  function SetTask(c: Core, id: nat, t: Task): Core {
    c.(tasks := c.tasks[id := t])
  }

  function Swap(c: Core, i: nat, j: nat): Core
    requires i < |c.slots| && j < |c.slots| && c.slots[i] in c.tasks && c.slots[j] in c.tasks
  {
    var a, b := c.slots[i], c.slots[j];
    c.(slots := c.slots[i := b][j := a], tasks := c.tasks[b := c.tasks[b].(index := i)][a := c.tasks[a].(index := j)])
  }

  /** A worker takes slot 0; the last unassigned task moves there. */
  function Take(c: Core): Core
    requires SlotsOk(c) && c.unassigned > 0
  {
    var id := c.slots[0];
    var c1 := Swap(c.(unassigned := c.unassigned - 1), 0, c.unassigned - 1);
    SetTask(c1.(running := c1.running + 1), id, c1.tasks[id].(taken := true))
  }

  /** A finished task leaves the array; the last pushed task moves to its place. */
  function Remove(c: Core, id: nat): Core
    requires SlotsOk(c) && id in c.tasks && c.tasks[id].inPool
  {
    var c1 := Swap(c, c.tasks[id].index, |c.slots| - 1);
    SetTask(c1.(slots := c1.slots[..|c1.slots| - 1]), id,
            c1.tasks[id].(inPool := false, index := NONE, taken := false))
  }

  function Free(c: Core, id: nat): Core {
    c.(tasks := c.tasks - {id})
  }

  /** The end of a task: a detached one is removed and freed by the worker itself. */
  function Finish(c: Core, id: nat, result: int): Core
    requires SlotsOk(c) && id in c.tasks && c.tasks[id].inPool && c.running > 0
  {
    var c1 := SetTask(c.(running := c.running - 1), id, c.tasks[id].(result := result, finished := true));
    if c.tasks[id].detached then Free(Remove(c1, id), id) else c1
  }

  /** Whether a push starts a new thread. */
  predicate NeedsThread(c: Core) {
    c.running == c.threads && c.threads < c.maxThreads
  }

  predicate Signals(c: Core) {
    !NeedsThread(c) && c.unassigned == 0
  }

  /** The pushed task at the end of the array. */
  function Append(c: Core, id: nat): Core
    requires id in c.tasks
  {
    SetTask(c.(slots := c.slots + [id], unassigned := c.unassigned + 1,
               threads := if NeedsThread(c) then c.threads + 1 else c.threads,
               event := if Signals(c) then TaskAppears else c.event),
            id, c.tasks[id].(finished := false, taken := false, inPool := true, index := |c.slots|))
  }

  /** A pushed task changes places with the first one that is not unassigned. */
  function Push(c: Core, id: nat): Core
    requires SlotsOk(c) && id in c.tasks && !c.tasks[id].inPool && |c.slots| < TPOOL_MAX_TASKS
  {
    Swap(Append(c, id), c.unassigned, |c.slots|)
  }

  function Detach(c: Core, id: nat): Core
    requires SlotsOk(c) && id in c.tasks && c.tasks[id].inPool
  {
    if c.tasks[id].finished then Free(Remove(c, id), id)
    else SetTask(c, id, c.tasks[id].(detached := true))
  }

  // ----- the array

  /** The array and the back-pointers agree, and exactly the tasks of the pool are in the array. */
  ghost predicate SlotsOk(c: Core) {
    && c.unassigned <= |c.slots| <= TPOOL_MAX_TASKS
    && (forall k :: 0 <= k < |c.slots| ==>
          c.slots[k] in c.tasks && c.tasks[c.slots[k]].inPool && c.tasks[c.slots[k]].index == k)
    && (forall id :: id in c.tasks && c.tasks[id].inPool ==>
          0 <= c.tasks[id].index < |c.slots| && c.slots[c.tasks[id].index] == id)
    && (forall id :: id in c.tasks && !c.tasks[id].inPool ==> c.tasks[id].index == NONE)
  }

  /** Unassigned tasks fill the front of the array, running and finished ones the rest. */
  ghost predicate Partitioned(c: Core) {
    && SlotsOk(c)
    && (forall k :: 0 <= k < c.unassigned ==> !c.tasks[c.slots[k]].taken && !c.tasks[c.slots[k]].finished)
    && (forall k :: c.unassigned <= k < |c.slots| ==> c.tasks[c.slots[k]].taken)
  }

  lemma SwapFacts(c: Core, i: nat, j: nat)
    requires SlotsOk(c) && i < |c.slots| && j < |c.slots|
    ensures SlotsOk(Swap(c, i, j))
    ensures Swap(c, i, j).slots == c.slots[i := c.slots[j]][j := c.slots[i]]
    ensures Swap(c, i, j).tasks.Keys == c.tasks.Keys &&
            Swap(c, i, j) == c.(slots := Swap(c, i, j).slots, tasks := Swap(c, i, j).tasks)
    ensures forall id :: id in c.tasks ==>
              Swap(c, i, j).tasks[id] == c.tasks[id].(index := Swap(c, i, j).tasks[id].index)
  {
  }

  /** The array only depends on the slots and on the back-pointers. */
  lemma SameLinks(c: Core, c': Core)
    requires SlotsOk(c) && c'.slots == c.slots && c'.unassigned <= |c.slots| && c'.tasks.Keys == c.tasks.Keys
    requires forall id :: id in c.tasks ==>
               c'.tasks[id].inPool == c.tasks[id].inPool && c'.tasks[id].index == c.tasks[id].index
    ensures SlotsOk(c')
  {
  }

  lemma Bounds(c: Core)
    requires SlotsOk(c)
    ensures c.unassigned <= |c.slots| <= TPOOL_MAX_TASKS
    ensures forall k :: 0 <= k < |c.slots| ==> c.slots[k] in c.tasks && c.tasks[c.slots[k]].inPool
  {
  }

  lemma TakeFacts(c: Core)
    requires SlotsOk(c) && c.unassigned > 0
    ensures SlotsOk(Take(c)) && Take(c).tasks.Keys == c.tasks.Keys && c.slots[0] in c.tasks
    ensures Take(c) == c.(slots := c.slots[0 := c.slots[c.unassigned - 1]][c.unassigned - 1 := c.slots[0]],
                          unassigned := c.unassigned - 1, running := c.running + 1, tasks := Take(c).tasks)
    ensures forall id :: id in c.tasks ==>
              Take(c).tasks[id] == c.tasks[id].(index := Take(c).tasks[id].index,
                                                taken := id == c.slots[0] || c.tasks[id].taken)
  {
    hide Swap, SlotsOk;
    var c0 := c.(unassigned := c.unassigned - 1);
    Bounds(c);
    SameLinks(c, c0);
    SwapFacts(c0, 0, c0.unassigned);
    SameLinks(Swap(c0, 0, c0.unassigned), Take(c));
  }

  lemma TakeKeeps(c: Core)
    requires Partitioned(c) && c.unassigned > 0
    ensures Partitioned(Take(c))
  {
    hide Take, Swap;
    TakeFacts(c);
  }

  lemma RemoveFacts(c: Core, id: nat)
    requires SlotsOk(c) && id in c.tasks && c.tasks[id].inPool && c.unassigned <= c.tasks[id].index
    ensures SlotsOk(Remove(c, id)) && Remove(c, id).tasks.Keys == c.tasks.Keys
    ensures 0 <= c.tasks[id].index < |c.slots|
    ensures Remove(c, id) == c.(slots := c.slots[c.tasks[id].index := c.slots[|c.slots| - 1]][..|c.slots| - 1],
                                tasks := Remove(c, id).tasks)
    ensures Remove(c, id).tasks[id] == c.tasks[id].(inPool := false, index := NONE, taken := false)
    ensures forall x :: x in c.tasks && x != id ==>
              Remove(c, id).tasks[x] == c.tasks[x].(index := Remove(c, id).tasks[x].index)
  {
    hide Swap, SlotsOk;
    Bounds(c);
    InSlot(c, id);
    var i, n := c.tasks[id].index, |c.slots| - 1;
    SwapFacts(c, i, n);
    LastLeaves(Swap(c, i, n), id, Remove(c, id));
  }

  lemma InSlot(c: Core, id: nat)
    requires SlotsOk(c) && id in c.tasks && c.tasks[id].inPool
    ensures 0 <= c.tasks[id].index < |c.slots| && c.slots[c.tasks[id].index] == id
  {
  }

  /** The task in the last slot leaves with its slot. */
  lemma LastLeaves(c: Core, id: nat, c': Core)
    requires SlotsOk(c) && id in c.tasks && c.slots != [] && c.slots[|c.slots| - 1] == id && c.unassigned < |c.slots|
    requires c'.slots == c.slots[..|c.slots| - 1] && c'.unassigned == c.unassigned
    requires c'.tasks == c.tasks[id := c.tasks[id].(inPool := false, index := NONE, taken := false)]
    ensures SlotsOk(c')
  {
    assert forall k :: 0 <= k < |c'.slots| ==> c'.slots[k] == c.slots[k];
    forall k | 0 <= k < |c'.slots| ensures c'.slots[k] != id {
      assert c.tasks[c.slots[k]].index == k;
      assert c.tasks[c.slots[|c.slots| - 1]].index == |c.slots| - 1;
    }
  }

  lemma RemoveKeeps(c: Core, id: nat)
    requires Partitioned(c) && id in c.tasks && c.tasks[id].inPool && c.tasks[id].index >= c.unassigned
    ensures Partitioned(Remove(c, id))
  {
    hide Remove, Swap;
    RemoveFacts(c, id);
  }

  /** A task outside the array can be freed. */
  lemma FreeKeeps(c: Core, id: nat)
    requires Partitioned(c) && (id in c.tasks ==> !c.tasks[id].inPool)
    ensures Partitioned(Free(c, id))
  {
  }

  /** Taken tasks, finished or not, are behind the unassigned ones. */
  lemma TakenIsBehind(c: Core, id: nat)
    requires Partitioned(c) && id in c.tasks && c.tasks[id].inPool
    ensures 0 <= c.tasks[id].index < |c.slots|
    ensures c.tasks[id].taken <==> c.unassigned <= c.tasks[id].index
    ensures c.tasks[id].finished ==> c.tasks[id].taken
  {
  }

  /** A task appended to the array. */
  lemma Appended(c: Core, id: nat, t: Task, c': Core)
    requires SlotsOk(c) && id in c.tasks && !c.tasks[id].inPool && |c.slots| < TPOOL_MAX_TASKS
    requires t.inPool && t.index == |c.slots|
    requires c'.slots == c.slots + [id] && c'.tasks == c.tasks[id := t] && c'.unassigned == c.unassigned + 1
    ensures SlotsOk(c')
  {
  }

  lemma PushFacts(c: Core, id: nat)
    requires SlotsOk(c) && id in c.tasks && !c.tasks[id].inPool && |c.slots| < TPOOL_MAX_TASKS
    ensures SlotsOk(Push(c, id)) && Push(c, id).tasks.Keys == c.tasks.Keys && c.unassigned <= |c.slots|
    ensures Push(c, id) ==
            c.(slots := (c.slots + [id])[c.unassigned := id][|c.slots| := (c.slots + [id])[c.unassigned]],
               unassigned := c.unassigned + 1, tasks := Push(c, id).tasks,
               threads := if NeedsThread(c) then c.threads + 1 else c.threads,
               event := if Signals(c) then TaskAppears else c.event)
    ensures forall x :: x in c.tasks && x != id ==>
              Push(c, id).tasks[x] == c.tasks[x].(index := Push(c, id).tasks[x].index)
    ensures Push(c, id).tasks[id] == c.tasks[id].(finished := false, taken := false, inPool := true,
                                                  index := Push(c, id).tasks[id].index)
  {
    hide Swap, SlotsOk, NeedsThread, Signals;
    Bounds(c);
    Appended(c, id, Append(c, id).tasks[id], Append(c, id));
    SwapFacts(Append(c, id), c.unassigned, |c.slots|);
  }

  lemma PushKeeps(c: Core, id: nat)
    requires Partitioned(c) && id in c.tasks && !c.tasks[id].inPool && |c.slots| < TPOOL_MAX_TASKS
    ensures Partitioned(Push(c, id))
  {
    hide Push, Swap, NeedsThread, Signals;
    PushFacts(c, id);
  }

  lemma NewTaskKeeps(c: Core, id: nat)
    requires Partitioned(c) && id !in c.tasks
    ensures Partitioned(SetTask(c, id, NEW_TASK))
  {
  }

  /** Between c and c' only task `id` changes, apart from the places in the array. */
  ghost predicate OnlyTask(c: Core, c': Core, id: nat) {
    && (forall x :: x != id ==> (x in c'.tasks <==> x in c.tasks))
    && (forall x :: x in c.tasks && x != id ==> c'.tasks[x] == c.tasks[x].(index := c'.tasks[x].index))
  }

  ghost predicate BusyTask(c: Core, id: nat) {
    id in c.tasks && c.tasks[id].inPool && c.tasks[id].taken && !c.tasks[id].finished
  }

  lemma FinishFacts(c: Core, id: nat, result: int)
    requires Partitioned(c) && BusyTask(c, id) && c.running > 0
    ensures Partitioned(Finish(c, id, result)) && OnlyTask(c, Finish(c, id, result), id)
    ensures Finish(c, id, result) == c.(slots := Finish(c, id, result).slots, running := c.running - 1,
                                        tasks := Finish(c, id, result).tasks)
    ensures if c.tasks[id].detached then id !in Finish(c, id, result).tasks
            else id in Finish(c, id, result).tasks &&
                 Finish(c, id, result).tasks[id] == c.tasks[id].(result := result, finished := true)
  {
    hide Remove, SlotsOk;
    TakenIsBehind(c, id);
    var c1 := SetTask(c.(running := c.running - 1), id, c.tasks[id].(result := result, finished := true));
    Bounds(c);
    SameLinks(c, c1);
    if c.tasks[id].detached {
      RemoveFacts(c1, id);
      RemoveKeeps(c1, id);
      FreeKeeps(Remove(c1, id), id);
    }
  }

  lemma DetachFacts(c: Core, id: nat)
    requires Partitioned(c) && id in c.tasks && c.tasks[id].inPool
    ensures Partitioned(Detach(c, id)) && OnlyTask(c, Detach(c, id), id)
    ensures Detach(c, id) == c.(slots := Detach(c, id).slots, tasks := Detach(c, id).tasks)
    ensures if c.tasks[id].finished then id !in Detach(c, id).tasks
            else id in Detach(c, id).tasks && Detach(c, id).tasks[id] == c.tasks[id].(detached := true)
  {
    hide Remove, SlotsOk;
    TakenIsBehind(c, id);
    Bounds(c);
    if c.tasks[id].finished {
      RemoveFacts(c, id);
      RemoveKeeps(c, id);
      FreeKeeps(Remove(c, id), id);
    } else {
      SameLinks(c, Detach(c, id));
    }
  }

  lemma SlotsIn(c: Core)
    requires Partitioned(c)
    ensures SlotsOk(c)
  {
  }
}
