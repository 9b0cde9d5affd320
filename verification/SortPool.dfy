/**
  The pool of coroutines that sort the files. A coroutine can give up control after every round of a partition
  loop; here control may go anywhere after every step, so that every schedule of yields is covered.
 */
module SortPool {
  import opened QuickSort

  // ----- a quicksort that can be interrupted

  datatype Frame =
    | Call(lo: nat, n: nat)                                     // a call still to be made
    | Loop(lo: nat, n: nat, i: nat, at: nat, pivot: int)        // inside the partition loop

  datatype Job = Job(s: seq<int>, stack: seq<Frame>)

  /** Only the top frame is inside a loop, and that loop keeps its split. */
  ghost predicate Fits(m: Job) {
    && (forall k :: 0 <= k < |m.stack| ==> m.stack[k].lo + m.stack[k].n <= |m.s|)
    && (forall k :: 1 <= k < |m.stack| ==> m.stack[k].Call?)
    && (m.stack != [] && m.stack[0].Loop? ==>
          SplitAt(m.s, m.stack[0].lo, m.stack[0].n, m.stack[0].i, m.stack[0].at, m.stack[0].pivot))
  }

  function Step(m: Job): Job
    requires Fits(m)
  {
    if m.stack == [] then m else
    var rest := m.stack[1..];
    match m.stack[0]
    case Call(lo, n) =>
      if n <= 1 then Job(m.s, rest) else Job(m.s, [Loop(lo, n, 0, 0, m.s[lo + n - 1])] + rest)
    case Loop(lo, n, i, at, pivot) =>
      if i < n then
        var (s', at') := Round(m.s, lo, i, at, pivot);
        Job(s', [Loop(lo, n, i + 1, at', pivot)] + rest)
      else Job(m.s, [Call(lo, at - 1), Call(lo + (at - 1), n - (at - 1))] + rest)
  }

  lemma StepFits(m: Job)
    requires Fits(m)
    ensures Fits(Step(m))
  {
    hide Round, SplitAt;
    if m.stack != [] {
      match m.stack[0]
      case Call(lo, n) =>
        if n > 1 { SplitStarts(m.s, lo, n); }
      case Loop(lo, n, i, at, pivot) =>
        SplitBounds(m.s, lo, n, i, at, pivot);
        if i < n {
          RoundSplits(m.s, lo, n, i, at, pivot);
        } else {
          SplitEnds(m.s, lo, n, at, pivot);
        }
    }
  }

  lemma SplitStarts(s: seq<int>, lo: nat, n: nat)
    requires 0 < n && lo + n <= |s|
    ensures SplitAt(s, lo, n, 0, 0, s[lo + n - 1])
  {
  }

  lemma SplitEnds(s: seq<int>, lo: nat, n: nat, at: nat, pivot: int)
    requires SplitAt(s, lo, n, n, at, pivot)
    ensures 0 < at
  {
  }

  function Steps(m: Job, k: nat): (r: Job)
    requires Fits(m)
    ensures Fits(r)
    decreases k
  {
    if k == 0 then m else StepFits(m); Steps(Step(m), k - 1)
  }

  lemma {:induction false} StepsAdd(m: Job, j: nat, k: nat)
    requires Fits(m)
    ensures Steps(m, j + k) == Steps(Steps(m, j), k)
    decreases j
  {
    hide Step, Fits;
    if j > 0 {
      StepFits(m);
      StepsAdd(Step(m), j - 1, k);
    }
  }

  lemma LastStep(m: Job, k: nat)
    requires Fits(m)
    ensures Steps(m, k + 1) == Step(Steps(m, k))
  {
    hide Step, Fits;
    StepsAdd(m, k, 1);
    StepFits(Steps(m, k));
  }

  // ----- it computes what the recursive sort computes

  lemma {:induction false} LoopRuns(s: seq<int>, lo: nat, n: nat, i: nat, at: nat, pivot: int, rest: seq<Frame>)
    requires at <= i <= n && lo + n <= |s| && Fits(Job(s, [Loop(lo, n, i, at, pivot)] + rest))
    ensures var (s', at') := Rounds(s, lo, n, i, at, pivot);
            Steps(Job(s, [Loop(lo, n, i, at, pivot)] + rest), n - i) == Job(s', [Loop(lo, n, n, at', pivot)] + rest)
    decreases n - i
  {
    hide Fits, Round;
    var m := Job(s, [Loop(lo, n, i, at, pivot)] + rest);
    assert m.stack[1..] == rest;
    if i < n {
      StepFits(m);
      var (s1, at1) := Round(s, lo, i, at, pivot);
      LoopRuns(s1, lo, n, i + 1, at1, pivot, rest);
    }
  }

  /** How many steps a call takes. */
  function Cost(s: seq<int>, lo: nat, n: nat): nat
    requires lo + n <= |s|
    decreases Measure(s, lo, n)
  {
    if n <= 1 then 1 else
    RecursionDecreases(s, lo, n);
    var (s', p) := Partitioned(s, lo, n);
    SmallerSegment(SortedFrom(s', lo, p), s', s, lo, n, p);
    n + 2 + Cost(s', lo, p) + Cost(SortedFrom(s', lo, p), lo + p, n - p)
  }

  lemma {:induction false} CallRuns(s: seq<int>, lo: nat, n: nat, rest: seq<Frame>)
    requires lo + n <= |s| && Fits(Job(s, [Call(lo, n)] + rest))
    ensures Steps(Job(s, [Call(lo, n)] + rest), Cost(s, lo, n)) == Job(SortedFrom(s, lo, n), rest)
    decreases Measure(s, lo, n)
  {
    hide Fits, Round, Partitioned, Measure;
    var m := Job(s, [Call(lo, n)] + rest);
    assert m.stack[1..] == rest;
    if n <= 1 {
      StepFits(m);
      assert Steps(m, 1) == Steps(Step(m), 0);
    } else {
      RecursionDecreases(s, lo, n);
      var (s1, p) := Partitioned(s, lo, n);
      var s2 := SortedFrom(s1, lo, p);
      SmallerSegment(s2, s1, s, lo, n, p);
      var m1 := Job(s1, [Call(lo, p)] + ([Call(lo + p, n - p)] + rest));
      PartitionRuns(s, lo, n, rest);
      CallRuns(s1, lo, p, [Call(lo + p, n - p)] + rest);
      var m2 := Job(s2, [Call(lo + p, n - p)] + rest);
      CallRuns(s2, lo + p, n - p, rest);
      StepsAdd(m1, Cost(s1, lo, p), Cost(s2, lo + p, n - p));
      StepsAdd(m, n + 2, Cost(s1, lo, p) + Cost(s2, lo + p, n - p));
    }
  }

  lemma PartitionRuns(s: seq<int>, lo: nat, n: nat, rest: seq<Frame>)
    requires 1 < n && lo + n <= |s| && Fits(Job(s, [Call(lo, n)] + rest))
    ensures var (s', p) := Partitioned(s, lo, n);
            Steps(Job(s, [Call(lo, n)] + rest), n + 2) == Job(s', [Call(lo, p)] + ([Call(lo + p, n - p)] + rest))
  {
    hide Fits, Round, Rounds, SplitAt, Steps, Step;
    var m, pivot := Job(s, [Call(lo, n)] + rest), s[lo + n - 1];
    var m1 := Job(s, [Loop(lo, n, 0, 0, pivot)] + rest);
    CallStarts(s, lo, n, rest);
    LoopRuns(s, lo, n, 0, 0, pivot, rest);
    var (s', at) := Rounds(s, lo, n, 0, 0, pivot);
    StepFits(m);
    LastStep(m1, n);
    RoundsSplit(s, lo, n, 0, 0, pivot);
    SplitEnds(s', lo, n, at, pivot);
    LoopEnds(s', lo, n, at, pivot, rest);
  }

  lemma CallStarts(s: seq<int>, lo: nat, n: nat, rest: seq<Frame>)
    requires 1 < n && lo + n <= |s| && Fits(Job(s, [Call(lo, n)] + rest))
    ensures SplitAt(s, lo, n, 0, 0, s[lo + n - 1])
    ensures Step(Job(s, [Call(lo, n)] + rest)) == Job(s, [Loop(lo, n, 0, 0, s[lo + n - 1])] + rest)
    ensures Fits(Job(s, [Loop(lo, n, 0, 0, s[lo + n - 1])] + rest))
    ensures Steps(Job(s, [Call(lo, n)] + rest), n + 2) ==
            Steps(Job(s, [Loop(lo, n, 0, 0, s[lo + n - 1])] + rest), n + 1)
  {
    hide Fits;
    StepFits(Job(s, [Call(lo, n)] + rest));
    assert Job(s, [Call(lo, n)] + rest).stack[1..] == rest;
  }

  lemma LoopEnds(s: seq<int>, lo: nat, n: nat, at: nat, pivot: int, rest: seq<Frame>)
    requires 0 < at <= n && Fits(Job(s, [Loop(lo, n, n, at, pivot)] + rest))
    ensures Step(Job(s, [Loop(lo, n, n, at, pivot)] + rest)) ==
            Job(s, [Call(lo, at - 1)] + ([Call(lo + (at - 1), n - (at - 1))] + rest))
  {
    hide Fits;
    assert Job(s, [Loop(lo, n, n, at, pivot)] + rest).stack[1..] == rest;
    assert [Call(lo, at - 1), Call(lo + (at - 1), n - (at - 1))] + rest ==
           [Call(lo, at - 1)] + ([Call(lo + (at - 1), n - (at - 1))] + rest);
  }
}
