/**
  The coroutine scheduler as a state machine. A context switch is one step; what a coroutine computes between two
  switches is not modelled.
 */
module CoroSpec {
  /** Who has control: the program, the loop of coro_sched_wait, or a coroutine. */
  datatype Control = Program | Loop | Running(id: nat)

  datatype State = State(
    list: seq<nat>,        // the coroutines, the newest first
    finished: set<nat>,
    control: Control,
    waiting: bool,         // is_sched_waiting
    nextId: nat,
    returned: seq<nat>,    // what coro_sched_wait has returned so far
    round: seq<nat>,       // the list when the scheduler last resumed its head
    resumed: seq<nat>)     // who was resumed since then

  datatype Action =
    | Create    // coro_new, by the program or by a coroutine
    | Wait      // the program calls coro_sched_wait
    | Look      // one turn of its loop
    | Yield     // coro_yield
    | Finish    // the function of a coroutine returns

  const INIT := State([], {}, Program, false, 0, [], [], [])

  predicate Enabled(s: State, a: Action) {
    match a
    case Create => !s.control.Loop?
    case Wait => s.control.Program?
    case Look => s.control.Loop?
    case Yield => s.control.Running?
    case Finish => s.control.Running?
  }

  /** The first finished coroutine of the list, or its length. */
  function FirstFinished(list: seq<nat>, finished: set<nat>): (k: nat)
    ensures k <= |list| && (k < |list| ==> list[k] in finished)
    ensures forall j :: 0 <= j < k ==> list[j] !in finished
  {
    if list == [] || list[0] in finished then 0 else 1 + FirstFinished(list[1..], finished)
  }

  function IndexOf(list: seq<nat>, id: nat): (k: nat)
    requires id in list
    ensures k < |list| && list[k] == id && forall j :: 0 <= j < k ==> list[j] != id
  {
    if list[0] == id then 0 else 1 + IndexOf(list[1..], id)
  }

  function Resume(s: State, id: nat): State {
    s.(control := Running(id), resumed := s.resumed + [id])
  }

  /** One turn of the loop in coro_sched_wait. */
  function LookStep(s: State): State {
    if s.list == [] then s.(control := Program)
    else
      var k := FirstFinished(s.list, s.finished);
      if k < |s.list| then
        s.(list := Without(s.list, k), control := Program, returned := s.returned + [s.list[k]])
      else Resume(s.(waiting := true, round := s.list, resumed := []), s.list[0])
  }

  function YieldStep(s: State): State
    requires s.control.Running? && s.control.id in s.list
  {
    var k := IndexOf(s.list, s.control.id);
    if k + 1 < |s.list| then Resume(s, s.list[k + 1]) else s.(control := Loop, waiting := false)
  }

  function Next(s: State, a: Action): State
    requires Inv(s) && Enabled(s, a)
  {
    match a
    case Create => s.(list := [s.nextId] + s.list, nextId := s.nextId + 1)
    case Wait => s.(control := Loop)
    case Look => LookStep(s)
    case Yield => RunningIsListed(s); YieldStep(s)
    case Finish => s.(finished := s.finished + {s.control.id}, control := Loop, waiting := false)
  }

  // ----- what every run keeps

  predicate NoDuplicates(ids: seq<nat>) {
    forall i, j :: 0 <= i < j < |ids| ==> ids[i] != ids[j]
  }

  /** The ids in use; every coroutine that was made is either in the list or was returned, never both. */
  ghost predicate IdsOk(s: State) {
    && NoDuplicates(s.list) && NoDuplicates(s.returned)
    && (forall id :: id in s.list || id in s.returned || id in s.finished ==> id < s.nextId)
    && (forall id: nat :: id < s.nextId ==> id in s.list || id in s.returned)
    && (forall id :: id in s.returned ==> id !in s.list && id in s.finished)
    && (forall id :: id in s.finished ==> id in s.list || id in s.returned)
  }

  /** A finished coroutine is in the list only while the scheduler has control, and then it is the only one. */
  ghost predicate FinishedOk(s: State) {
    && (!s.control.Loop? ==> forall id :: id in s.list ==> id !in s.finished)
    && (forall i, j :: 0 <= i < j < |s.list| ==> !(s.list[i] in s.finished && s.list[j] in s.finished))
  }

  /** While a coroutine runs, the scheduler waits for it, and a round is under way: its first coroutines were resumed
      in order, once each. New coroutines are in front of the round. */
  ghost predicate RoundOk(s: State) {
    && s.waiting == s.control.Running?
    && s.resumed <= s.round
    && (s.control.Running? ==>
          && 0 < |s.resumed| && s.resumed[|s.resumed| - 1] == s.control.id
          && |s.round| <= |s.list| && s.list[|s.list| - |s.round|..] == s.round)
  }

  ghost predicate Inv(s: State) {
    IdsOk(s) && FinishedOk(s) && RoundOk(s)
  }

  lemma RunningIsListed(s: State)
    requires Inv(s) && s.control.Running?
    ensures s.control.id in s.list && s.control.id !in s.finished && s.waiting && NoDuplicates(s.list)
    ensures IndexOf(s.list, s.control.id) == |s.list| - |s.round| + |s.resumed| - 1
  {
    var k := |s.list| - |s.round| + |s.resumed| - 1;
    assert s.list[|s.list| - |s.round|..][|s.resumed| - 1] == s.list[k];
  }

  function Without(list: seq<nat>, k: nat): seq<nat>
    requires k < |list|
  {
    list[..k] + list[k + 1..]
  }

  lemma WithoutFacts(list: seq<nat>, k: nat)
    requires NoDuplicates(list) && k < |list|
    ensures NoDuplicates(Without(list, k)) && list[k] !in Without(list, k)
    ensures forall id :: id in list <==> id in Without(list, k) || id == list[k]
  {
    forall id | id in list && id != list[k] ensures id in Without(list, k) {
      var j :| 0 <= j < |list| && list[j] == id;
      assert Without(list, k)[if j < k then j else j - 1] == id;
    }
  }

  lemma CreateKeepsInv(s: State)
    requires Inv(s) && Enabled(s, Create)
    ensures Inv(Next(s, Create))
  {
    var s' := Next(s, Create);
    forall i | 0 <= i < |s.list| ensures s.list[i] < s.nextId {
      assert s.list[i] in s.list;
    }
    if s.control.Running? {
      assert s'.list[|s'.list| - |s.round|..] == s.list[|s.list| - |s.round|..];
    }
  }

  /** A finished coroutine leaves the list for good. */
  lemma ReturnKeepsInv(s: State, k: nat)
    requires Inv(s) && s.control.Loop? && k == FirstFinished(s.list, s.finished) < |s.list|
    ensures Inv(s.(list := Without(s.list, k), control := Program, returned := s.returned + [s.list[k]]))
  {
    WithoutFacts(s.list, k);
    forall id | id in Without(s.list, k) ensures id !in s.finished {
      var i :| 0 <= i < |s.list| && s.list[i] == id;
    }
  }

  lemma LookKeepsInv(s: State)
    requires Inv(s) && Enabled(s, Look)
    ensures Inv(Next(s, Look))
  {
    hide IdsOk;
    if s.list != [] {
      var k := FirstFinished(s.list, s.finished);
      if k < |s.list| { ReturnKeepsInv(s, k); } else { ResumeKeepsIds(s, Next(s, Look)); }
    } else {
      ResumeKeepsIds(s, Next(s, Look));
    }
  }

  lemma ResumeKeepsIds(s: State, s': State)
    requires IdsOk(s) && s'.list == s.list && s'.finished == s.finished && s'.nextId == s.nextId &&
             s'.returned == s.returned
    ensures IdsOk(s')
  {
  }

  lemma YieldKeepsFinished(s: State)
    requires FinishedOk(s) && s.control.Running? && s.control.id in s.list
    ensures FinishedOk(YieldStep(s))
  {
  }

  lemma YieldKeepsRound(s: State)
    requires RoundOk(s) && s.control.Running? && s.control.id in s.list
    requires IndexOf(s.list, s.control.id) == |s.list| - |s.round| + |s.resumed| - 1
    ensures RoundOk(YieldStep(s))
  {
    var k := IndexOf(s.list, s.control.id);
    if k + 1 < |s.list| {
      var next := s.list[k + 1];
      assert s.list[|s.list| - |s.round|..][|s.resumed|] == next;
      assert s.round[..|s.resumed| + 1] == s.round[..|s.resumed|] + [next];
    }
  }

  lemma YieldKeepsInv(s: State)
    requires Inv(s) && Enabled(s, Yield)
    ensures s.control.id in s.list && Inv(YieldStep(s))
  {
    hide IdsOk, FinishedOk, RoundOk;
    RunningIsListed(s);
    ResumeKeepsIds(s, YieldStep(s));
    YieldKeepsFinished(s);
    YieldKeepsRound(s);
  }

  lemma FinishKeepsInv(s: State)
    requires Inv(s) && Enabled(s, Finish)
    ensures Inv(Next(s, Finish))
  {
    RunningIsListed(s);
  }

  lemma NextKeepsInv(s: State, a: Action)
    requires Inv(s) && Enabled(s, a)
    ensures Inv(Next(s, a))
  {
    match a
    case Create => CreateKeepsInv(s);
    case Wait =>
    case Look => LookKeepsInv(s);
    case Yield => YieldKeepsInv(s);
    case Finish => FinishKeepsInv(s);
  }

  // ----- runs

  /** The state after any sequence of actions; an action that is not possible in its turn is skipped. */
  ghost function RunFrom(start: State, actions: seq<Action>): (s: State)
    requires Inv(start)
    ensures Inv(s)
    decreases |actions|
  {
    if actions == [] then start else Do(RunFrom(start, actions[..|actions| - 1]), actions[|actions| - 1])
  }

  ghost function Do(s: State, a: Action): (s': State)
    requires Inv(s)
    ensures Inv(s')
  {
    if Enabled(s, a) then NextKeepsInv(s, a); Next(s, a) else s
  }

  ghost function Run(actions: seq<Action>): (s: State)
    ensures Inv(s)
  {
    RunFrom(INIT, actions)
  }

  /** A coroutine that runs is unfinished and the scheduler waits for it: when its function returns there is a place
      to go back to. */
  lemma FinishedIsNeverResumed(actions: seq<Action>)
    ensures var s := Run(actions);
            s.control.Running? ==>
              s.waiting && s.control.id in s.list && forall id :: id in s.list ==> id !in s.finished
  {
    hide Run, IdsOk;
    if Run(actions).control.Running? {
      RunningIsListed(Run(actions));
    }
  }

  lemma AtMostOneFinishedInTheList(actions: seq<Action>, x: nat, y: nat)
    requires var s := Run(actions); x in s.list && y in s.list && x in s.finished && y in s.finished
    ensures x == y && Run(actions).control.Loop?
  {
    hide Run, IdsOk, RoundOk;
    var s := Run(actions);
    assert Inv(s);
    var i :| 0 <= i < |s.list| && s.list[i] == x;
    var j :| 0 <= j < |s.list| && s.list[j] == y;
  }

  /** Every coroutine that was made is in the list until it is returned, once, after it has finished. */
  lemma ReturnedOnce(actions: seq<Action>)
    ensures var s := Run(actions);
            && NoDuplicates(s.returned)
            && (forall id: nat :: id < s.nextId <==> id in s.list || id in s.returned)
            && (forall id :: id in s.returned ==> id in s.finished && id !in s.list)
            && (forall id :: id in s.finished && id !in s.returned ==> id in s.list && s.control.Loop?)
  {
    hide Run, RoundOk;
    var s := Run(actions);
    assert Inv(s);
  }

  /** NULL is the answer exactly when there is no coroutine left; a finished one is returned at once. */
  lemma NullOnlyForTheEmptyList(s: State)
    requires Inv(s) && Enabled(s, Look)
    ensures var s' := Next(s, Look);
            && (s'.control.Program? && s'.returned == s.returned <==> s.list == [])
            && (s'.control.Program? && s'.returned != s.returned <==> exists id :: id in s.list && id in s.finished)
            && (s'.returned != s.returned ==>
                  |s'.returned| == |s.returned| + 1 && s'.returned[..|s.returned|] == s.returned
                  && s'.returned[|s.returned|] in s.finished && s'.returned[|s.returned|] in s.list)
  {
  }

  /** When the answer is NULL every coroutine that was ever made has been returned, exactly once. */
  lemma NullMeansAllReturned(actions: seq<Action>)
    ensures var s := Run(actions);
            Enabled(s, Look) && Next(s, Look).control.Program? && Next(s, Look).returned == s.returned ==>
              && NoDuplicates(s.returned)
              && (forall id: nat :: id < s.nextId <==> id in s.returned)
              && (forall id: nat :: id < s.nextId ==> id in s.finished)
  {
    hide Run;
    var s := Run(actions);
    if Enabled(s, Look) {
      NullOnlyForTheEmptyList(s);
    }
  }

  // ----- rounds

  /** A round resumes the list in order, once each; it is cut short only by a coroutine that finishes. */
  lemma RoundsFollowTheList(s: State, a: Action)
    requires Inv(s) && s.control.Running? && Enabled(s, a) && Next(s, a).control.Loop?
    ensures if a.Finish? then s.resumed <= s.round && s.control.id in s.resumed
            else a.Yield? && s.resumed == s.round
    ensures NoDuplicates(s.resumed) && Next(s, a).resumed == s.resumed
  {
    RunningIsListed(s);
    var offset := |s.list| - |s.round|;
    forall i, j | 0 <= i < j < |s.resumed| ensures s.resumed[i] != s.resumed[j] {
      assert s.resumed[i] == s.list[offset..][i] == s.list[offset + i];
      assert s.resumed[j] == s.list[offset..][j] == s.list[offset + j];
    }
  }

  /** How many coroutines finish on the way. */
  ghost function Finishes(s: State, actions: seq<Action>): nat
    requires Inv(s)
    decreases |actions|
  {
    if actions == [] then 0 else
    var before := actions[..|actions| - 1];
    Finishes(s, before) + if actions[|actions| - 1].Finish? && RunFrom(s, before).control.Running? then 1 else 0
  }

  predicate Pending(s: State) {
    FirstFinished(s.list, s.finished) < |s.list|
  }

  /** Coroutine `id` waits for its turn: whoever runs or has just finished is ahead of it. */
  ghost predicate InLine(s: State, id: nat) {
    && id in s.list && id !in s.finished
    && (s.control.Running? ==> s.control.id in s.list && IndexOf(s.list, s.control.id) < IndexOf(s.list, id))
    && (Pending(s) ==> FirstFinished(s.list, s.finished) < IndexOf(s.list, id))
  }

  lemma StartsInLine(s: State, id: nat)
    requires !s.control.Running? && !Pending(s) && id in s.list
    ensures InLine(s, id)
  {
    assert FirstFinished(s.list, s.finished) == |s.list|;
  }

  lemma OneIsAhead(s: State, id: nat)
    requires InLine(s, id) && Pending(s)
    ensures IndexOf(s.list, id) > 0
  {
  }

  lemma IndexIs(list: seq<nat>, k: nat, id: nat)
    requires NoDuplicates(list) && k < |list| && list[k] == id
    ensures IndexOf(list, id) == k
  {
  }

  lemma IndexWithout(list: seq<nat>, k: nat, id: nat)
    requires NoDuplicates(list) && id in list && k < IndexOf(list, id)
    ensures id in Without(list, k) && IndexOf(Without(list, k), id) == IndexOf(list, id) - 1
  {
    WithoutFacts(list, k);
    assert Without(list, k)[IndexOf(list, id) - 1] == id;
    IndexIs(Without(list, k), IndexOf(list, id) - 1, id);
  }

  lemma LooksInLine(s: State, id: nat)
    requires Inv(s) && InLine(s, id) && s.control.Loop? && LookStep(s).control != Running(id)
    ensures InLine(LookStep(s), id)
    ensures IndexOf(LookStep(s).list, id) + (if Pending(s) then 1 else 0) ==
            IndexOf(s.list, id) + (if Pending(LookStep(s)) then 1 else 0)
  {
    hide IdsOk, RoundOk;
    Distinct(s);
    var k := FirstFinished(s.list, s.finished);
    if k < |s.list| {
      IndexWithout(s.list, k, id);
      LookKeepsInv(s);
    }
  }

  lemma Distinct(s: State)
    requires IdsOk(s)
    ensures NoDuplicates(s.list)
  {
  }

  lemma YieldsInLine(s: State, id: nat)
    requires Inv(s) && InLine(s, id) && s.control.Running? && YieldStep(s).control != Running(id)
    ensures YieldStep(s).control.Running? && InLine(YieldStep(s), id)
  {
    hide IdsOk, RoundOk, FinishedOk;
    Distinct(s);
    var k := IndexOf(s.list, s.control.id);
    IndexIs(s.list, k + 1, s.list[k + 1]);
  }

  lemma FinishesInLine(s: State, id: nat)
    requires Inv(s) && InLine(s, id) && s.control.Running?
    ensures InLine(Next(s, Finish), id) && Pending(Next(s, Finish)) && !Pending(s)
  {
    hide IdsOk, RoundOk;
    Distinct(s);
    var s' := Next(s, Finish);
    var k := IndexOf(s.list, s.control.id);
    assert s'.list[k] in s'.finished;
  }

  lemma StaysInLine(s: State, a: Action, id: nat)
    requires Inv(s) && InLine(s, id) && !a.Create? && Do(s, a).control != Running(id)
    ensures InLine(Do(s, a), id)
    ensures a.Yield? && s.control.Running? ==> Do(s, a).control.Running?
    ensures var s' := Do(s, a);
            IndexOf(s'.list, id) + (if a.Finish? && s.control.Running? then 1 else 0) + (if Pending(s) then 1 else 0) ==
            IndexOf(s.list, id) + (if Pending(s') then 1 else 0)
  {
    hide LookStep, YieldStep, IdsOk, RoundOk, IndexOf, FirstFinished;
    if Enabled(s, a) {
      match a
      case Wait => assert Next(s, Wait).list == s.list;
      case Look => LooksInLine(s, id);
      case Yield => YieldsInLine(s, id); YieldKeepsList(s); NotPending(s); NotPending(Do(s, a));
      case Finish => FinishesInLine(s, id);
    }
  }

  lemma NotPending(s: State)
    requires Inv(s) && s.control.Running?
    ensures !Pending(s)
  {
  }

  lemma YieldKeepsList(s: State)
    requires Inv(s) && s.control.Running? && s.control.id in s.list
    ensures YieldStep(s).list == s.list && YieldStep(s).finished == s.finished
  {
  }

  /** Without new coroutines, one that is at position k waits through at most k rounds that are cut short, because
      each takes a coroutine ahead of it off the list; and no other round passes it over. */
  lemma {:induction false} WaitIsBounded(s: State, actions: seq<Action>, id: nat)
    requires Inv(s) && !s.control.Running? && !Pending(s) && id in s.list
    requires forall k :: 0 <= k < |actions| ==> !actions[k].Create?
    requires forall k :: 0 <= k <= |actions| ==> RunFrom(s, actions[..k]).control != Running(id)
    ensures var s' := RunFrom(s, actions);
            && InLine(s', id)
            && Finishes(s, actions) <= IndexOf(s.list, id)
            && IndexOf(s'.list, id) + Finishes(s, actions) == IndexOf(s.list, id) + (if Pending(s') then 1 else 0)
    ensures forall k :: 0 <= k < |actions| && actions[k].Yield? && RunFrom(s, actions[..k]).control.Running? ==>
              RunFrom(s, actions[..k + 1]).control.Running?
    decreases |actions|
  {
    hide Inv, Do, InLine, Pending, IndexOf;
    if actions == [] {
      StartsInLine(s, id);
    } else {
      var n := |actions| - 1;
      var before := actions[..n];
      forall k | 0 <= k <= n ensures before[..k] == actions[..k] {
      }
      assert actions[..n + 1] == actions;
      WaitIsBounded(s, before, id);
      StaysInLine(RunFrom(s, before), actions[n], id);
      assert before[..n] == before;
    }
    if Pending(RunFrom(s, actions)) {
      OneIsAhead(RunFrom(s, actions), id);
    }
  }
}
