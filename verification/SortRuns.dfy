/** Runs of the coroutine pool: the files are shared out, and the result does not depend on the schedule. */
module SortRuns {
  import opened Options
  import opened Schedules
  import opened QuickSort
  import opened Merge
  import opened SortPool

  datatype Coro = Idle | Sorting(file: nat, job: Job, steps: nat) | Done

  datatype State = State(next: nat, slots: seq<Option<seq<int>>>, coros: seq<Coro>)

  function Start(numbers: seq<int>): (m: Job)
    ensures Fits(m)
  {
    Job(numbers, [Call(0, |numbers|)])
  }

  function FullCost(numbers: seq<int>): nat {
    Cost(numbers, 0, |numbers|)
  }

  function Result(numbers: seq<int>): seq<int> {
    SortedFrom(numbers, 0, |numbers|)
  }

  function Init(files: seq<seq<int>>, count: nat): State {
    State(0, seq(|files|, _ => None), seq(count, _ => Idle))
  }

  // ----- the invariant

  /** A coroutine works on a file that was claimed and is not sorted yet, and has come `steps` steps along. */
  ghost predicate Works(files: seq<seq<int>>, s: State, c: Coro) {
    c.Sorting? ==>
      && c.file < s.next && c.file < |files| == |s.slots| && s.slots[c.file].None?
      && c.steps <= FullCost(files[c.file]) && c.job == Steps(Start(files[c.file]), c.steps)
  }

  ghost predicate Inv(files: seq<seq<int>>, s: State) {
    && |s.slots| == |files| && s.next <= |files|
    && (forall i :: 0 <= i < |s.coros| ==> Works(files, s, s.coros[i]))
    && (forall i, j :: 0 <= i < j < |s.coros| && s.coros[i].Sorting? && s.coros[j].Sorting? ==>
          s.coros[i].file != s.coros[j].file)
    && (forall f :: 0 <= f < s.next && s.slots[f].None? ==> exists i :: 0 <= i < |s.coros| && WorksOn(s.coros[i], f))
    && (forall f :: 0 <= f < |files| && s.slots[f].Some? ==> f < s.next && s.slots[f].value == Result(files[f]))
    && (Done in s.coros ==> s.next == |files|)
  }

  predicate WorksOn(c: Coro, f: nat) {
    c.Sorting? && c.file == f
  }

  // ----- the steps

  /** What coroutine `i` does when it has control. */
  function Next(files: seq<seq<int>>, s: State, i: nat): State
    requires Inv(files, s) && i < |s.coros|
  {
    match s.coros[i]
    case Idle =>
      if s.next < |files|
      then s.(next := s.next + 1, coros := s.coros[i := Sorting(s.next, Start(files[s.next]), 0)])
      else s.(coros := s.coros[i := Done])
    case Sorting(f, job, steps) =>
      assert Works(files, s, s.coros[i]);
      if job.stack == [] then s.(slots := s.slots[f := Some(job.s)], coros := s.coros[i := Idle])
      else s.(coros := s.coros[i := Sorting(f, Step(job), steps + 1)])
    case Done => s
  }

  lemma {:induction false} Stops(m: Job, k: nat)
    requires Fits(m) && m.stack == []
    ensures Steps(m, k) == m
  {
    if k > 0 {
      Stops(m, k - 1);
    }
  }

  /** A job with nothing left to do has sorted its numbers, and that is after at most `FullCost` steps. */
  lemma JobEnds(numbers: seq<int>, k: nat)
    requires k <= FullCost(numbers)
    ensures Steps(Start(numbers), k).stack == [] ==> Steps(Start(numbers), k).s == Result(numbers)
    ensures k == FullCost(numbers) ==> Steps(Start(numbers), k).stack == []
  {
    hide Fits, Step, Cost, Steps;
    assert Job(numbers, [Call(0, |numbers|)] + []) == Start(numbers);
    CallRuns(numbers, 0, |numbers|, []);
    var m := Steps(Start(numbers), k);
    if m.stack == [] {
      Stops(m, FullCost(numbers) - k);
      StepsAdd(Start(numbers), k, FullCost(numbers) - k);
    }
  }

  lemma JobStep(numbers: seq<int>, k: nat)
    requires k <= FullCost(numbers) && Steps(Start(numbers), k).stack != []
    ensures k < FullCost(numbers) && Step(Steps(Start(numbers), k)) == Steps(Start(numbers), k + 1)
  {
    hide Fits, Step, Steps, Cost;
    JobEnds(numbers, k);
    LastStep(Start(numbers), k);
  }

  lemma StillWorked(s: State, s': State, i: nat, f: nat)
    requires i < |s.coros| == |s'.coros| && s'.coros == s.coros[i := s'.coros[i]] &&
             (WorksOn(s.coros[i], f) ==> WorksOn(s'.coros[i], f))
    requires exists k :: 0 <= k < |s.coros| && WorksOn(s.coros[k], f)
    ensures exists k :: 0 <= k < |s'.coros| && WorksOn(s'.coros[k], f)
  {
    var k :| 0 <= k < |s.coros| && WorksOn(s.coros[k], f);
    assert WorksOn(s'.coros[k], f);
  }

  lemma NextKeepsInv(files: seq<seq<int>>, s: State, i: nat)
    requires Inv(files, s) && i < |s.coros|
    ensures Inv(files, Next(files, s, i))
  {
    hide Fits, Step, Steps, Cost, FullCost, Start, Result;
    var s' := Next(files, s, i);
    assert Works(files, s, s.coros[i]);
    if s.coros[i].Idle? && s.next < |files| {
      Fresh(files[s.next]);
      assert WorksOn(s'.coros[i], s.next);
    } else if s.coros[i].Sorting? {
      var (f, steps) := (s.coros[i].file, s.coros[i].steps);
      if s.coros[i].job.stack == [] { JobEnds(files[f], steps); } else { JobStep(files[f], steps); }
    }
    forall f | 0 <= f < s'.next && s'.slots[f].None?
      ensures exists k :: 0 <= k < |s'.coros| && WorksOn(s'.coros[k], f)
    {
      if f < s.next { StillWorked(s, s', i, f); }
    }
    forall k | 0 <= k < |s'.coros| ensures Works(files, s', s'.coros[k]) {
      assert Works(files, s, s.coros[k]);
    }
  }

  lemma Fresh(numbers: seq<int>)
    ensures Steps(Start(numbers), 0) == Start(numbers)
  {
  }

  // ----- runs

  /** The state after any schedule, given as the coroutines that get control, one step each. */
  ghost function Run(files: seq<seq<int>>, count: nat, schedule: seq<nat>): (s: State)
    ensures Inv(files, s) && |s.coros| == count
    decreases |schedule|
  {
    if schedule == [] then Init(files, count) else
    var s := Run(files, count, schedule[..|schedule| - 1]);
    var i := schedule[|schedule| - 1];
    if i >= count then s else NextKeepsInv(files, s, i); Next(files, s, i)
  }

  predicate AllDone(s: State) {
    forall i :: 0 <= i < |s.coros| ==> s.coros[i].Done?
  }

  /** A file that was claimed is sorted, or is being sorted by one coroutine; no other file was touched. */
  lemma EachFileHasOneCoroutine(files: seq<seq<int>>, count: nat, schedule: seq<nat>, f: nat)
    requires f < |files|
    ensures var s := Run(files, count, schedule);
            && (forall i, j :: 0 <= i < count && 0 <= j < count && WorksOn(s.coros[i], f) && WorksOn(s.coros[j], f) ==>
                  i == j)
            && (s.slots[f].Some? ==> forall i :: 0 <= i < count ==> !WorksOn(s.coros[i], f))
            && (f < s.next <==> s.slots[f].Some? || exists i :: 0 <= i < count && WorksOn(s.coros[i], f))
  {
    hide Run;
    var s := Run(files, count, schedule);
    forall i | 0 <= i < count && WorksOn(s.coros[i], f) ensures f < s.next && s.slots[f].None? {
      assert Works(files, s, s.coros[i]);
    }
  }

  /** Between two steps the numbers a coroutine sorts are those of its file, in some order. */
  lemma {:induction false} StepsPermute(m: Job, k: nat)
    requires Fits(m)
    ensures multiset(Steps(m, k).s) == multiset(m.s) && |Steps(m, k).s| == |m.s|
    decreases k
  {
    if k > 0 {
      StepFits(m);
      StepsPermute(Step(m), k - 1);
      if m.stack != [] && m.stack[0].Loop? {
        var l := m.stack[0];
        SplitBounds(m.s, l.lo, l.n, l.i, l.at, l.pivot);
      }
    }
  }

  lemma OnlyPermutedBetweenYields(files: seq<seq<int>>, count: nat, schedule: seq<nat>, i: nat)
    requires i < count
    ensures var c := Run(files, count, schedule).coros[i];
            c.Sorting? ==> c.file < |files| && multiset(c.job.s) == multiset(files[c.file])
  {
    hide Run, Steps;
    var s := Run(files, count, schedule);
    assert Works(files, s, s.coros[i]);
    if s.coros[i].Sorting? {
      StepsPermute(Start(files[s.coros[i].file]), s.coros[i].steps);
    }
  }

  /** The slot holds the numbers in ascending order. */
  predicate IsSortedSlot(slot: Option<seq<int>>, numbers: seq<int>) {
    slot.Some? && Sorted(slot.value) && multiset(slot.value) == multiset(numbers)
  }

  /** When all coroutines are done, and there was one, every slot holds the sorted numbers of its file. */
  lemma SlotsAreSorted(files: seq<seq<int>>, count: nat, schedule: seq<nat>)
    requires count > 0 && AllDone(Run(files, count, schedule))
    ensures var s := Run(files, count, schedule);
            forall f :: 0 <= f < |files| ==> IsSortedSlot(s.slots[f], files[f])
  {
    hide Run;
    var s := Run(files, count, schedule);
    assert s.coros[0] == Done;
    forall f | 0 <= f < |files| ensures IsSortedSlot(s.slots[f], files[f]) {
      ResultIsSorted(files[f]);
      EachFileHasOneCoroutine(files, count, schedule, f);
    }
  }

  lemma ResultIsSorted(numbers: seq<int>)
    ensures Sorted(Result(numbers)) && multiset(Result(numbers)) == multiset(numbers)
  {
    SortSorts(numbers, 0, |numbers|);
    assert numbers[0..|numbers|] == numbers && Result(numbers)[0..|numbers|] == Result(numbers);
  }

  /** Without a coroutine, which is what a negative count comes to, nothing is sorted although none is left to wait
      for. */
  lemma {:induction false} NoCoroutineNoResult(files: seq<seq<int>>, schedule: seq<nat>)
    ensures AllDone(Run(files, 0, schedule)) && Run(files, 0, schedule) == Init(files, 0)
    decreases |schedule|
  {
    if schedule != [] {
      NoCoroutineNoResult(files, schedule[..|schedule| - 1]);
    }
  }

  /** A run that ends has sorted every file exactly when there was a coroutine, or nothing to sort. */
  lemma SortedWithACoroutine(files: seq<seq<int>>, count: nat, schedule: seq<nat>)
    requires AllDone(Run(files, count, schedule))
    ensures var s := Run(files, count, schedule);
            (forall f :: 0 <= f < |files| ==> IsSortedSlot(s.slots[f], files[f])) <==> count > 0 || files == []
  {
    hide Run, Inv;
    if count > 0 {
      SlotsAreSorted(files, count, schedule);
    } else {
      NoCoroutineNoResult(files, schedule);
      if files != [] { assert !IsSortedSlot(Init(files, 0).slots[0], files[0]); }
    }
  }

  /** The numbers in the slots. */
  function Values(slots: seq<Option<seq<int>>>): (r: seq<seq<int>>)
    ensures |r| == |slots| && forall f :: 0 <= f < |slots| && slots[f].Some? ==> r[f] == slots[f].value
  {
    seq(|slots|, f requires 0 <= f < |slots| => if slots[f].Some? then slots[f].value else [])
  }

  lemma {:induction false} SameUnion(a: seq<seq<int>>, b: seq<seq<int>>)
    requires |a| == |b| && forall f :: 0 <= f < |a| ==> multiset(a[f]) == multiset(b[f])
    ensures Union(a) == Union(b)
  {
    if a != [] {
      assert multiset(a[0]) == multiset(b[0]);
      SameUnion(a[1..], b[1..]);
    }
  }

  /** The output is the one sorted sequence of all the numbers: neither the schedule nor the number of coroutines
      shows. */
  lemma OutputIgnoresTheSchedule(files: seq<seq<int>>, count: nat, schedule: seq<nat>, count': nat, schedule': seq<nat>,
                                 out: seq<int>, out': seq<int>)
    requires count > 0 && AllDone(Run(files, count, schedule)) && count' > 0 && AllDone(Run(files, count', schedule'))
    requires Sorted(out) && multiset(out) == Union(Values(Run(files, count, schedule).slots))
    requires Sorted(out') && multiset(out') == Union(Values(Run(files, count', schedule').slots))
    ensures out == out' && multiset(out) == Union(files)
  {
    hide Run, Union;
    var a, b := Run(files, count, schedule).slots, Run(files, count', schedule').slots;
    SlotsAreSorted(files, count, schedule);
    SlotsAreSorted(files, count', schedule');
    SameUnion(Values(a), files);
    SameUnion(Values(b), files);
    OutputIsUnique(files, out, out');
  }

  // ----- every schedule ends

  function CoroWork(files: seq<seq<int>>, c: Coro): nat {
    match c
    case Done => 0
    case Idle => 1
    case Sorting(f, _, steps) =>
      if f < |files| && steps <= FullCost(files[f]) then 2 + FullCost(files[f]) - steps else 0
  }

  function CorosWork(files: seq<seq<int>>, coros: seq<Coro>): nat {
    if coros == [] then 0 else CoroWork(files, coros[0]) + CorosWork(files, coros[1..])
  }

  function UnclaimedWork(files: seq<seq<int>>, next: nat): nat
    decreases |files| - next
  {
    if next >= |files| then 0 else 2 + FullCost(files[next]) + UnclaimedWork(files, next + 1)
  }

  /** How much the coroutines still have to do. */
  function WorkLeft(files: seq<seq<int>>, s: State): nat {
    UnclaimedWork(files, s.next) + CorosWork(files, s.coros)
  }

  lemma {:induction false} CorosWorkUpdate(files: seq<seq<int>>, coros: seq<Coro>, i: nat, c: Coro)
    requires i < |coros|
    ensures CorosWork(files, coros[i := c]) + CoroWork(files, coros[i]) == CorosWork(files, coros) + CoroWork(files, c)
  {
    hide CoroWork;
    if i > 0 {
      CorosWorkUpdate(files, coros[1..], i - 1, c);
      assert coros[i := c][1..] == coros[1..][i - 1 := c];
    } else {
      assert coros[0 := c][1..] == coros[1..];
    }
  }

  /** Every step of a coroutine that is not done uses up work, so no schedule can go on for ever. */
  lemma StepsUseUpWork(files: seq<seq<int>>, s: State, i: nat)
    requires Inv(files, s) && i < |s.coros|
    ensures var s' := Next(files, s, i);
            if s.coros[i].Done? then s' == s else WorkLeft(files, s') < WorkLeft(files, s)
  {
    hide Fits, Step, Steps, Cost, FullCost, Start, CorosWork;
    var s' := Next(files, s, i);
    assert Works(files, s, s.coros[i]);
    CorosWorkUpdate(files, s.coros, i, s'.coros[i]);
    if s.coros[i].Sorting? && s.coros[i].job.stack != [] {
      JobStep(files[s.coros[i].file], s.coros[i].steps);
    }
    if s.coros[i].Done? {
      assert s.coros[i := s.coros[i]] == s.coros;
    }
  }

  lemma OneMore(files: seq<seq<int>>, count: nat, schedule: seq<nat>, i: nat)
    requires i < count
    ensures Run(files, count, schedule + [i]) == Next(files, Run(files, count, schedule), i)
  {
    hide Inv, Next;
    assert (schedule + [i])[..|schedule|] == schedule;
  }

  /** From every reachable state the coroutines can run on until all of them are done. */
  lemma {:induction false} CoroutinesCanFinish(files: seq<seq<int>>, count: nat, schedule: seq<nat>)
    returns (more: seq<nat>)
    ensures AllDone(Run(files, count, schedule + more))
    ensures |more| <= WorkLeft(files, Run(files, count, schedule))
    decreases WorkLeft(files, Run(files, count, schedule))
  {
    hide Inv, Next, WorkLeft;
    var s := Run(files, count, schedule);
    if AllDone(s) {
      more := [];
      assert schedule + more == schedule;
    } else {
      var i: nat :| i < |s.coros| && !s.coros[i].Done?;
      StepsUseUpWork(files, s, i);
      OneMore(files, count, schedule, i);
      var rest := CoroutinesCanFinish(files, count, schedule + [i]);
      more := [i] + rest;
      assert schedule + more == schedule + [i] + rest;
    }
  }

  /** Every coroutine gets control at least once in a round. */
  ghost predicate Fair(round: seq<nat>, count: nat) {
    forall i: nat :: i < count ==> i in round
  }

  lemma {:induction false} NeverGrows(files: seq<seq<int>>, count: nat, schedule: seq<nat>, more: seq<nat>)
    ensures WorkLeft(files, Run(files, count, schedule + more)) <= WorkLeft(files, Run(files, count, schedule))
    decreases |more|
  {
    hide Inv, Next, WorkLeft, Run;
    if more == [] {
      assert schedule + more == schedule;
    } else {
      TakesTurn(files, count, schedule, more[0]);
      NeverGrows(files, count, schedule + [more[0]], more[1..]);
      assert schedule + more == schedule + [more[0]] + more[1..];
    }
  }

  lemma TakesTurn(files: seq<seq<int>>, count: nat, schedule: seq<nat>, i: nat)
    ensures var s, s' := Run(files, count, schedule), Run(files, count, schedule + [i]);
            if i < count && !s.coros[i].Done? then WorkLeft(files, s') < WorkLeft(files, s) else s' == s
  {
    hide Inv, Next, WorkLeft;
    assert (schedule + [i])[..|schedule|] == schedule;
    if i < count { StepsUseUpWork(files, Run(files, count, schedule), i); }
  }

  lemma {:induction false} TurnComes(files: seq<seq<int>>, count: nat, schedule: seq<nat>, more: seq<nat>, i: nat)
    requires i < count && i in more && !Run(files, count, schedule).coros[i].Done?
    ensures WorkLeft(files, Run(files, count, schedule + more)) < WorkLeft(files, Run(files, count, schedule))
    decreases |more|
  {
    hide Inv, Next, WorkLeft, Run;
    TakesTurn(files, count, schedule, more[0]);
    assert schedule + more == schedule + [more[0]] + more[1..];
    if Run(files, count, schedule + [more[0]]) == Run(files, count, schedule) {
      TurnComes(files, count, schedule + [more[0]], more[1..], i);
    } else {
      NeverGrows(files, count, schedule + [more[0]], more[1..]);
    }
  }

  lemma {:induction false} DoneStays(files: seq<seq<int>>, count: nat, schedule: seq<nat>, more: seq<nat>)
    requires AllDone(Run(files, count, schedule))
    ensures AllDone(Run(files, count, schedule + more))
    decreases |more|
  {
    hide Inv, Next, WorkLeft, Run;
    if more == [] {
      assert schedule + more == schedule;
    } else {
      TakesTurn(files, count, schedule, more[0]);
      DoneStays(files, count, schedule + [more[0]], more[1..]);
      assert schedule + more == schedule + [more[0]] + more[1..];
    }
  }

  /** Every schedule that keeps giving control to each coroutine ends with all of them done. */
  lemma {:induction false} FairRoundsFinish(files: seq<seq<int>>, count: nat, schedule: seq<nat>, rounds: seq<seq<nat>>)
    requires forall k :: 0 <= k < |rounds| ==> Fair(rounds[k], count)
    requires WorkLeft(files, Run(files, count, schedule)) <= |rounds|
    ensures AllDone(Run(files, count, schedule + InRow(rounds)))
    decreases |rounds|
  {
    hide Inv, Next, WorkLeft, Run;
    var s := Run(files, count, schedule);
    if AllDone(s) {
      DoneStays(files, count, schedule, InRow(rounds));
    } else {
      var i :| 0 <= i < count && !s.coros[i].Done?;
      TakesTurn(files, count, schedule, i);
      TurnComes(files, count, schedule, rounds[0], i);
      FairRoundsFinish(files, count, schedule + rounds[0], rounds[1..]);
      assert schedule + InRow(rounds) == schedule + rounds[0] + InRow(rounds[1..]);
    }
  }
}
