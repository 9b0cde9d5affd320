/** A program that keeps waiting gets all its coroutines back, if none of them goes on for ever. */
module CoroRuns {
  import opened Schedules
  import opened CoroSpec

  ghost function Unfinished(s: State): set<nat> {
    set id | id in s.list && id !in s.finished
  }

  /** How far the program is from having everything back; a coroutine that yields puts it back by two. */
  ghost function Left(s: State): nat {
    2 * |Unfinished(s)| + 2 * |s.list| +
    match s.control
    case Program => 2
    case Loop => 1
    case Running(_) => 0
  }

  predicate NoCreate(actions: seq<Action>) {
    forall k :: 0 <= k < |actions| ==> !actions[k].Create?
  }

  /** How often a coroutine yields, over a run. */
  ghost function Yields(s: State, actions: seq<Action>): nat
    requires Inv(s)
    decreases |actions|
  {
    if actions == [] then 0 else
    (if actions[0].Yield? && Enabled(s, actions[0]) then 1 else 0) + Yields(Do(s, actions[0]), actions[1..])
  }

  lemma {:induction false} RunFirst(s: State, actions: seq<Action>)
    requires Inv(s) && actions != []
    ensures RunFrom(s, actions) == RunFrom(Do(s, actions[0]), actions[1..])
    decreases |actions|
  {
    hide Inv, Do;
    var n := |actions| - 1;
    if n == 0 {
      assert RunFrom(s, actions[..0]) == s;
    } else {
      RunFirst(s, actions[..n]);
      assert actions[..n][1..] == actions[1..][..n - 1];
    }
  }

  /** While there are coroutines every step brings the program forward, but for the yields. */
  lemma StepsCount(s: State, a: Action)
    requires Inv(s) && Enabled(s, a) && !a.Create? && s.list != []
    ensures Left(Next(s, a)) < Left(s) + if a.Yield? then 2 else 0
    ensures Next(s, a).nextId == s.nextId
  {
    var s' := Next(s, a);
    match a
    case Wait => assert Unfinished(s') == Unfinished(s);
    case Look =>
      var k := FirstFinished(s.list, s.finished);
      if k < |s.list| {
        WithoutFacts(s.list, k);
        assert Unfinished(s') == Unfinished(s);
      }
    case Yield =>
      RunningIsListed(s);
      assert Unfinished(s') == Unfinished(s);
    case Finish =>
      RunningIsListed(s);
      assert Unfinished(s') == Unfinished(s) - {s.control.id};
  }

  /** Without coroutines there is nothing to do but to ask again. */
  lemma EmptyStays(s: State, a: Action)
    requires Inv(s) && !a.Create? && s.list == []
    ensures Do(s, a).list == [] && Do(s, a).nextId == s.nextId
  {
    if s.control.Running? { RunningIsListed(s); }
  }

  /** Over any run the steps that count are paid for by what was left and by the yields. */
  lemma {:induction false} NeverGrows(s: State, more: seq<Action>)
    requires Inv(s) && NoCreate(more)
    ensures var s' := RunFrom(s, more);
            s'.nextId == s.nextId && (s'.list == [] || Left(s') <= Left(s) + 2 * Yields(s, more))
    ensures s.list == [] ==> RunFrom(s, more).list == []
    decreases |more|
  {
    hide Inv, Do, Left, Enabled;
    if more != [] {
      RunFirst(s, more);
      NeverGrows(Do(s, more[0]), more[1..]);
      OneStep(s, more[0]);
    }
  }

  lemma OneStep(s: State, a: Action)
    requires Inv(s) && !a.Create?
    ensures var s' := Do(s, a);
            && s'.nextId == s.nextId
            && if s.list == [] then s'.list == []
               else if Enabled(s, a) then Left(s') < Left(s) + (if a.Yield? then 2 else 0)
               else s' == s
  {
    hide Inv, Left, Next, Enabled;
    if s.list == [] { EmptyStays(s, a); } else if Enabled(s, a) { StepsCount(s, a); }
  }

  /** In a round the program gets to wait, the scheduler to look, and whichever coroutine runs to yield or to finish;
      what is not possible when it comes is skipped. */
  ghost predicate Fair(round: seq<Action>) {
    NoCreate(round) && Wait in round && Look in round && (Yield in round || Finish in round)
  }

  lemma {:induction false} TurnComes(s: State, more: seq<Action>, a: Action)
    requires Inv(s) && NoCreate(more) && a in more && Enabled(s, a) && s.list != []
    ensures var s' := RunFrom(s, more);
            s'.list == [] || Left(s') < Left(s) + 2 * Yields(s, more)
    decreases |more|
  {
    hide Inv, Do, Left, Enabled;
    RunFirst(s, more);
    OneStep(s, more[0]);
    if Enabled(s, more[0]) {
      NeverGrows(Do(s, more[0]), more[1..]);
    } else {
      TurnComes(s, more[1..], a);
    }
  }

  lemma FairRoundCounts(s: State, round: seq<Action>)
    requires Inv(s) && Fair(round)
    ensures var s' := RunFrom(s, round);
            s'.nextId == s.nextId && (s'.list == [] || Left(s') < Left(s) + 2 * Yields(s, round))
  {
    hide Inv, Left;
    NeverGrows(s, round);
    if s.list != [] {
      var a := if s.control.Program? then Wait else if s.control.Loop? then Look
               else if Yield in round then Yield else Finish;
      TurnComes(s, round, a);
    }
  }

  lemma {:induction false} YieldsJoin(s: State, a: seq<Action>, b: seq<Action>)
    requires Inv(s)
    ensures RunFrom(s, a + b) == RunFrom(RunFrom(s, a), b)
    ensures Yields(s, a + b) == Yields(s, a) + Yields(RunFrom(s, a), b)
    decreases |a|
  {
    hide Inv, Do, Enabled, RunFrom;
    if a == [] {
      assert a + b == b;
      NoActions(s);
    } else {
      RunFirst(s, a);
      RunFirst(s, a + b);
      YieldsJoin(Do(s, a[0]), a[1..], b);
      assert (a + b)[1..] == a[1..] + b;
    }
  }

  lemma NoActions(s: State)
    requires Inv(s)
    ensures RunFrom(s, []) == s
  {
  }

  /** A program that keeps waiting, and whose coroutines yield only so often, has every coroutine returned to it once,
      finished, and is told with NULL that there are no more. */
  lemma {:induction false} FairRoundsReturnAll(s: State, rounds: seq<seq<Action>>)
    requires Inv(s) && forall k :: 0 <= k < |rounds| ==> Fair(rounds[k])
    requires Left(s) + 2 * Yields(s, InRow(rounds)) <= |rounds|
    ensures var s' := RunFrom(s, InRow(rounds));
            && s'.nextId == s.nextId && s'.list == [] && NoDuplicates(s'.returned)
            && (forall id: nat :: id < s.nextId <==> id in s'.returned)
            && (forall id: nat :: id < s.nextId ==> id in s'.finished)
            && var asked := Do(Do(s', Wait), Look); asked.control == Program && asked.returned == s'.returned
    decreases |rounds|
  {
    hide Inv, Do, Left, Fair;
    var s' := RunFrom(s, InRow(rounds));
    if s.list == [] {
      FairIsQuiet(rounds);
      NeverGrows(s, InRow(rounds));
    } else {
      LeftIsPositive(s);
      YieldsJoin(s, rounds[0], InRow(rounds[1..]));
      FairRoundCounts(s, rounds[0]);
      var s1 := RunFrom(s, rounds[0]);
      if s1.list == [] {
        FairIsQuiet(rounds[1..]);
        NeverGrows(s1, InRow(rounds[1..]));
      } else {
        FairRoundsReturnAll(s1, rounds[1..]);
      }
    }
    NothingIsListed(s');
  }

  lemma LeftIsPositive(s: State)
    requires s.list != []
    ensures Left(s) > 0
  {
  }

  lemma {:induction false} FairIsQuiet(rounds: seq<seq<Action>>)
    requires forall k :: 0 <= k < |rounds| ==> Fair(rounds[k])
    ensures NoCreate(InRow(rounds))
  {
    if rounds != [] {
      FairIsQuiet(rounds[1..]);
      assert Fair(rounds[0]);
    }
  }

  lemma NothingIsListed(s: State)
    requires Inv(s) && s.list == []
    ensures NoDuplicates(s.returned) && (forall id: nat :: id < s.nextId <==> id in s.returned)
    ensures forall id: nat :: id < s.nextId ==> id in s.finished
    ensures var asked := Do(Do(s, Wait), Look); asked.control == Program && asked.returned == s.returned
  {
    if s.control.Running? { RunningIsListed(s); }
  }
}
