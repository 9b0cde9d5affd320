/** A lock on a futex word, and threads that use it to count together. The atomic operations are the steps. */
module Futex {
  import opened Schedules

  datatype Pc =
    | Spin              // waits for the start flag
    | Try               // about to compare-and-swap 0 to 1
    | Wait              // that failed; about to call the kernel to sleep while the word is 1
    | Asleep
    | Locked            // about to read the counter
    | Read(value: int)  // about to write it back, one more
    | Written           // about to compare-and-swap 1 to 0
    | Wake              // about to call the kernel to wake one sleeper
    | Done

  datatype Thread = Thread(pc: Pc, i: nat)

  datatype State = State(futex: int, counter: int, start: bool, threads: seq<Thread>)

  datatype Action = Start | Step(t: nat, choice: nat) | Interrupt(t: nat)

  function Init(count: nat): State {
    State(0, 0, false, seq(count, _ => Thread(Spin, 0)))
  }

  // ----- the steps

  predicate Enabled(s: State, a: Action) {
    match a
    case Start => true
    case Step(t, choice) =>
      && t < |s.threads| && s.threads[t].pc != Asleep && s.threads[t].pc != Done
      && (s.threads[t].pc.Spin? ==> s.start)
    case Interrupt(t) => t < |s.threads| && s.threads[t].pc == Asleep
  }

  /** Whom the kernel wakes, which is its choice: `choice` if that thread sleeps, else the first one from `k` on that
      does; |threads| if there is none. */
  function Sleeper(threads: seq<Thread>, choice: nat, k: nat): (v: nat)
    requires k <= |threads|
    ensures k <= v <= |threads| || v == choice
    ensures v < |threads| ==> threads[v].pc == Asleep
    ensures v >= |threads| ==> v == |threads| && forall u :: k <= u < |threads| ==> threads[u].pc != Asleep
    ensures choice < |threads| && threads[choice].pc == Asleep ==> v == choice
    decreases |threads| - k
  {
    if choice < |threads| && threads[choice].pc == Asleep then choice
    else if k == |threads| || threads[k].pc == Asleep then k
    else Sleeper(threads, choice, k + 1)
  }

  function Move(s: State, t: nat, pc: Pc): State
    requires t < |s.threads|
  {
    s.(threads := s.threads[t := s.threads[t].(pc := pc)])
  }

  /** The head of the for loop. */
  function NextRound(s: State, t: nat, i: nat, rounds: nat): State
    requires t < |s.threads|
  {
    s.(threads := s.threads[t := Thread(if i < rounds then Try else Done, i)])
  }

  function Next(s: State, a: Action, rounds: nat): State
    requires Enabled(s, a)
  {
    match a
    case Start => s.(start := true)
    case Interrupt(t) => Move(s, t, Try)
    case Step(t, choice) =>
      match s.threads[t].pc
      case Spin => NextRound(s, t, 0, rounds)
      case Try => if s.futex == 0 then Move(s.(futex := 1), t, Locked) else Move(s, t, Wait)
      case Wait => Move(s, t, if s.futex == 1 then Asleep else Try)
      case Locked => Move(s, t, Read(s.counter))
      case Read(value) => Move(s.(counter := value + 1), t, Written)
      case Written => Move(s.(futex := if s.futex == 1 then 0 else s.futex), t, Wake)
      case Wake =>
        var s' := NextRound(s, t, s.threads[t].i + 1, rounds);
        var woken := Sleeper(s.threads, choice, 0);
        if woken < |s.threads| then Move(s', woken, Try) else s'
      case Asleep => s
      case Done => s
  }

  // ----- the invariant

  predicate Holds(t: Thread) {
    t.pc.Locked? || t.pc.Read? || t.pc.Written?
  }

  predicate Contends(t: Thread) {
    t.pc.Try? || t.pc.Wait?
  }

  /** The increments a thread has made. */
  function Made(t: Thread): nat {
    t.i + if t.pc.Written? || t.pc.Wake? then 1 else 0
  }

  function Total(threads: seq<Thread>, f: Thread -> nat): nat {
    if threads == [] then 0 else f(threads[0]) + Total(threads[1..], f)
  }

  /** The increments all threads have made. */
  function Sum(threads: seq<Thread>): nat {
    Total(threads, Made)
  }

  /** The word is 1 exactly while some thread is between its two compare-and-swaps, and there is only one such thread;
      the value it has read is still the counter. */
  ghost predicate Exclusive(s: State) {
    && (s.futex == 0 || s.futex == 1)
    && (s.futex == 1 <==> exists t :: 0 <= t < |s.threads| && Holds(s.threads[t]))
    && (forall t, u :: 0 <= t < u < |s.threads| ==> !(Holds(s.threads[t]) && Holds(s.threads[u])))
    && (forall t :: 0 <= t < |s.threads| && s.threads[t].pc.Read? ==> s.threads[t].pc.value == s.counter)
  }

  /** Nobody sleeps while the lock is free, no wake is due and nobody is awake to take the lock. */
  ghost predicate NotStranded(s: State) {
    (exists t :: 0 <= t < |s.threads| && s.threads[t].pc == Asleep) ==>
      || s.futex == 1
      || (exists t :: 0 <= t < |s.threads| && s.threads[t].pc == Wake)
      || (exists t :: 0 <= t < |s.threads| && Contends(s.threads[t]))
  }

  ghost predicate RoundsOk(s: State, rounds: nat) {
    forall t :: 0 <= t < |s.threads| ==>
      && (if s.threads[t].pc.Done? then s.threads[t].i == rounds
          else if s.threads[t].pc.Spin? then s.threads[t].i == 0 else s.threads[t].i < rounds)
  }

  ghost predicate Inv(s: State, rounds: nat) {
    Exclusive(s) && NotStranded(s) && RoundsOk(s, rounds) && s.counter == Sum(s.threads)
  }

  lemma {:induction false} TotalUpdate(threads: seq<Thread>, f: Thread -> nat, t: nat, x: Thread)
    requires t < |threads|
    ensures Total(threads[t := x], f) == Total(threads, f) - f(threads[t]) + f(x)
  {
    if t == 0 {
      assert threads[0 := x][1..] == threads[1..];
    } else {
      TotalUpdate(threads[1..], f, t - 1, x);
      assert threads[t := x][1..] == threads[1..][t - 1 := x];
    }
  }

  /** What one step does to a total: its thread changes, and perhaps the one that it wakes. */
  lemma TotalStep(s: State, t: nat, choice: nat, rounds: nat, f: Thread -> nat)
    requires Enabled(s, Step(t, choice))
    ensures var s' := Next(s, Step(t, choice), rounds);
            |s'.threads| == |s.threads| &&
            Total(s'.threads, f) == Total(s.threads, f) - f(s.threads[t]) + f(s'.threads[t]) +
            var v := Sleeper(s.threads, choice, 0);
            if s.threads[t].pc.Wake? && v < |s.threads| then f(s'.threads[v]) - f(s.threads[v]) else 0
  {
    hide Total;
    var s' := Next(s, Step(t, choice), rounds);
    if s.threads[t].pc.Wake? {
      var s1, v := NextRound(s, t, s.threads[t].i + 1, rounds), Sleeper(s.threads, choice, 0);
      TotalUpdate(s.threads, f, t, s1.threads[t]);
      if v < |s.threads| { TotalUpdate(s1.threads, f, v, s'.threads[v]); }
    } else {
      TotalUpdate(s.threads, f, t, s'.threads[t]);
    }
  }

  /** One thread changes, and it is neither a holder before nor after. */
  lemma MoveOutside(s: State, s': State, t: nat)
    requires Exclusive(s) && t < |s.threads| == |s'.threads| && s' == s.(threads := s.threads[t := s'.threads[t]])
    requires !Holds(s.threads[t]) && !Holds(s'.threads[t])
    ensures Exclusive(s')
  {
    if s.futex == 1 {
      var u :| 0 <= u < |s.threads| && Holds(s.threads[u]);
      assert Holds(s'.threads[u]);
    }
  }

  lemma NextKeepsExclusive(s: State, t: nat, choice: nat, rounds: nat)
    requires Exclusive(s) && Enabled(s, Step(t, choice))
    ensures Exclusive(Next(s, Step(t, choice), rounds))
  {
    var s' := Next(s, Step(t, choice), rounds);
    var pc := s.threads[t].pc;
    if pc.Try? && s.futex == 0 {
      assert Holds(s'.threads[t]);
    } else if pc.Locked? || pc.Read? {
      assert Holds(s.threads[t]) && Holds(s'.threads[t]);
    } else if pc.Written? {
      assert Holds(s.threads[t]);
    } else if pc.Wake? {
      var s1 := NextRound(s, t, s.threads[t].i + 1, rounds);
      var woken := Sleeper(s.threads, choice, 0);
      MoveOutside(s, s1, t);
      if woken < |s.threads| { MoveOutside(s1, s', woken); }
    } else {
      MoveOutside(s, s', t);
    }
  }

  lemma NextKeepsNotStranded(s: State, t: nat, choice: nat, rounds: nat)
    requires Exclusive(s) && NotStranded(s) && Enabled(s, Step(t, choice))
    ensures NotStranded(Next(s, Step(t, choice), rounds))
  {
    var s' := Next(s, Step(t, choice), rounds);
    var pc := s.threads[t].pc;
    if u :| 0 <= u < |s'.threads| && s'.threads[u].pc == Asleep {
      if pc.Wake? {
        assert s.threads[u].pc == Asleep;
        assert Contends(s'.threads[Sleeper(s.threads, choice, 0)]);
      } else if pc.Written? {
        assert Holds(s.threads[t]);
        assert s'.threads[t].pc == Wake;
      } else if s'.futex == 0 {
        if pc.Try? || pc.Wait? {
          assert Contends(s'.threads[t]) || s'.futex == 1;
        } else {
          assert s.threads[u].pc == Asleep;
          if v :| 0 <= v < |s.threads| && s.threads[v].pc == Wake {
            assert s'.threads[v].pc == Wake;
          } else {
            var v :| 0 <= v < |s.threads| && Contends(s.threads[v]);
            assert Contends(s'.threads[v]);
          }
        }
      }
    }
  }

  lemma NextKeepsRounds(s: State, t: nat, choice: nat, rounds: nat)
    requires RoundsOk(s, rounds) && Enabled(s, Step(t, choice))
    ensures RoundsOk(Next(s, Step(t, choice), rounds), rounds)
  {
  }

  lemma NextKeepsSum(s: State, t: nat, choice: nat, rounds: nat)
    requires Exclusive(s) && RoundsOk(s, rounds) && s.counter == Sum(s.threads) && Enabled(s, Step(t, choice))
    ensures var s' := Next(s, Step(t, choice), rounds); s'.counter == Sum(s'.threads)
  {
    hide Total;
    TotalStep(s, t, choice, rounds, Made);
  }

  lemma InterruptKeepsInv(s: State, t: nat, rounds: nat)
    requires Inv(s, rounds) && Enabled(s, Interrupt(t))
    ensures Inv(Next(s, Interrupt(t), rounds), rounds)
  {
    var s' := Next(s, Interrupt(t), rounds);
    MoveOutside(s, s', t);
    TotalUpdate(s.threads, Made, t, s'.threads[t]);
    assert Contends(s'.threads[t]);
  }

  lemma NextKeepsInv(s: State, a: Action, rounds: nat)
    requires Inv(s, rounds) && Enabled(s, a)
    ensures Inv(Next(s, a, rounds), rounds)
  {
    match a
    case Start =>
    case Interrupt(t) => InterruptKeepsInv(s, t, rounds);
    case Step(t, choice) =>
      NextKeepsExclusive(s, t, choice, rounds);
      NextKeepsNotStranded(s, t, choice, rounds);
      NextKeepsRounds(s, t, choice, rounds);
      NextKeepsSum(s, t, choice, rounds);
  }

  // ----- runs

  /** The state after any schedule; an action that is not possible in its turn is skipped. */
  ghost function Run(count: nat, rounds: nat, schedule: seq<Action>): (s: State)
    ensures Inv(s, rounds) && |s.threads| == count
    decreases |schedule|
  {
    if schedule == [] then InitInv(count, rounds); Init(count)
    else Do(Run(count, rounds, schedule[..|schedule| - 1]), schedule[|schedule| - 1], rounds)
  }

  ghost function Do(s: State, a: Action, rounds: nat): (s': State)
    requires Inv(s, rounds)
    ensures Inv(s', rounds) && |s'.threads| == |s.threads|
  {
    if Enabled(s, a) then NextKeepsInv(s, a, rounds); SameThreads(s, a, rounds); Next(s, a, rounds) else s
  }

  lemma SameThreads(s: State, a: Action, rounds: nat)
    requires Enabled(s, a)
    ensures |Next(s, a, rounds).threads| == |s.threads|
  {
  }

  lemma InitInv(count: nat, rounds: nat)
    ensures Inv(Init(count), rounds)
  {
    SumOfZeros(Init(count).threads);
  }

  lemma {:induction false} SumOfZeros(threads: seq<Thread>)
    requires forall t :: 0 <= t < |threads| ==> Made(threads[t]) == 0
    ensures Sum(threads) == 0
  {
    if threads != [] {
      SumOfZeros(threads[1..]);
    }
  }

  lemma {:induction false} SumOfRounds(threads: seq<Thread>, rounds: nat)
    requires forall t :: 0 <= t < |threads| ==> Made(threads[t]) == rounds
    ensures Sum(threads) == |threads| * rounds
  {
    if threads != [] {
      SumOfRounds(threads[1..], rounds);
      assert |threads| * rounds == rounds + (|threads| - 1) * rounds;
    }
  }

  lemma MutualExclusion(count: nat, rounds: nat, schedule: seq<Action>, t: nat, u: nat)
    requires t < count && u < count
    requires Holds(Run(count, rounds, schedule).threads[t]) && Holds(Run(count, rounds, schedule).threads[u])
    ensures t == u && Run(count, rounds, schedule).futex == 1
  {
    hide Run;
    assert Exclusive(Run(count, rounds, schedule));
  }

  predicate AllDone(s: State) {
    forall t :: 0 <= t < |s.threads| ==> s.threads[t].pc.Done?
  }

  /** No increment is lost. */
  lemma NoIncrementIsLost(count: nat, rounds: nat, schedule: seq<Action>)
    requires AllDone(Run(count, rounds, schedule))
    ensures Run(count, rounds, schedule).counter == count * rounds
  {
    hide Run;
    var s := Run(count, rounds, schedule);
    assert RoundsOk(s, rounds);
    SumOfRounds(s.threads, rounds);
  }

  /** At every moment the counter is what the threads have added so far. */
  lemma CounterNeverExceeds(count: nat, rounds: nat, schedule: seq<Action>)
    ensures var s := Run(count, rounds, schedule);
            s.counter == Sum(s.threads) <= count * rounds
  {
    hide Run;
    var s := Run(count, rounds, schedule);
    assert RoundsOk(s, rounds);
    SumIsBounded(s.threads, rounds);
  }

  lemma {:induction false} SumIsBounded(threads: seq<Thread>, rounds: nat)
    requires forall t :: 0 <= t < |threads| ==> Made(threads[t]) <= rounds
    ensures Sum(threads) <= |threads| * rounds
  {
    if threads != [] {
      SumIsBounded(threads[1..], rounds);
      assert |threads| * rounds == rounds + (|threads| - 1) * rounds;
    }
  }

  lemma NoSleeperIsStranded(count: nat, rounds: nat, schedule: seq<Action>, t: nat)
    requires t < count && Run(count, rounds, schedule).threads[t].pc == Asleep
    ensures var s := Run(count, rounds, schedule);
            || s.futex == 1
            || (exists u :: 0 <= u < count && s.threads[u].pc == Wake)
            || (exists u :: 0 <= u < count && Contends(s.threads[u]))
  {
    hide Run;
    assert NotStranded(Run(count, rounds, schedule));
  }

  // ----- who sleeps

  ghost function Sleepers(s: State): set<nat> {
    set t: nat | t < |s.threads| && s.threads[t].pc == Asleep
  }

  /** A thread goes to sleep exactly when it asks to while the word is 1; a wake takes one sleeper, whichever it is,
      back to its next attempt, if there is one. */
  lemma WhoSleeps(s: State, t: nat, choice: nat, rounds: nat)
    requires Enabled(s, Step(t, choice))
    ensures var s', pc := Next(s, Step(t, choice), rounds), s.threads[t].pc;
            if pc == Wait && s.futex == 1 then Sleepers(s') == Sleepers(s) + {t}
            else if pc == Wake && Sleepers(s) != {} then
              exists v :: && v in Sleepers(s) && Sleepers(s') == Sleepers(s) - {v}
                          && v < |s'.threads| && s'.threads[v].pc == Try && (choice in Sleepers(s) ==> v == choice)
            else Sleepers(s') == Sleepers(s)
  {
    var s', v := Next(s, Step(t, choice), rounds), Sleeper(s.threads, choice, 0);
    if s.threads[t].pc == Wake && Sleepers(s) != {} {
      var u :| u in Sleepers(s);
      assert v in Sleepers(s) && Sleepers(s') == Sleepers(s) - {v};
    }
  }

  // ----- the threads can always finish

  function Weight(pc: Pc): nat {
    match pc
    case Spin => 8
    case Asleep => 7
    case Wait => 6
    case Try => 5
    case Locked => 4
    case Read(_) => 3
    case Written => 2
    case Wake => 1
    case Done => 0
  }

  function ThreadLeft(t: Thread, rounds: nat): nat {
    if t.i <= rounds then 8 * (rounds - t.i) + Weight(t.pc) else 0
  }

  function Left(threads: seq<Thread>, rounds: nat): nat {
    Total(threads, t => ThreadLeft(t, rounds))
  }

  /** A step that brings its thread forward: any but a failed attempt to take the lock and going to sleep. */
  predicate Useful(s: State, t: nat) {
    && Enabled(s, Step(t, 0))
    && (s.threads[t].pc.Try? || s.threads[t].pc.Wait? ==> s.futex == 0)
  }

  lemma UsefulStepsUseUp(s: State, t: nat, choice: nat, rounds: nat)
    requires Inv(s, rounds) && Useful(s, t)
    ensures Left(Next(s, Step(t, choice), rounds).threads, rounds) < Left(s.threads, rounds)
  {
    hide Total, Exclusive, NotStranded;
    TotalStep(s, t, choice, rounds, x => ThreadLeft(x, rounds));
  }

  /** Unless all threads are done, some thread can take a step that brings it forward. */
  lemma SomeoneCanStep(s: State, rounds: nat) returns (t: nat)
    requires Inv(s, rounds) && s.start && !AllDone(s)
    ensures Useful(s, t)
  {
    if s.futex == 1 {
      t :| 0 <= t < |s.threads| && Holds(s.threads[t]);
    } else {
      t :| 0 <= t < |s.threads| && !s.threads[t].pc.Done?;
      if s.threads[t].pc == Asleep {
        if v :| 0 <= v < |s.threads| && s.threads[v].pc == Wake {
          t := v;
        } else {
          t :| 0 <= t < |s.threads| && Contends(s.threads[t]);
        }
      }
    }
  }

  /** From every reachable state the threads can run on until all are done and every increment is counted. */
  lemma {:induction false} ThreadsCanFinish(count: nat, rounds: nat, schedule: seq<Action>) returns (more: seq<Action>)
    requires Run(count, rounds, schedule).start
    ensures AllDone(Run(count, rounds, schedule + more))
    ensures Run(count, rounds, schedule + more).counter == count * rounds
    ensures |more| <= Left(Run(count, rounds, schedule).threads, rounds)
    decreases Left(Run(count, rounds, schedule).threads, rounds)
  {
    hide Inv, Next, Left;
    var s := Run(count, rounds, schedule);
    if AllDone(s) {
      more := [];
      assert schedule + more == schedule;
      NoIncrementIsLost(count, rounds, schedule);
    } else {
      var t := SomeoneCanStep(s, rounds);
      UsefulStepsUseUp(s, t, 0, rounds);
      OneMore(count, rounds, schedule, Step(t, 0));
      var rest := ThreadsCanFinish(count, rounds, schedule + [Step(t, 0)]);
      more := [Step(t, 0)] + rest;
      assert schedule + more == schedule + [Step(t, 0)] + rest;
    }
  }

  lemma OneMore(count: nat, rounds: nat, schedule: seq<Action>, a: Action)
    ensures var s, s' := Run(count, rounds, schedule), Run(count, rounds, schedule + [a]);
            s' == (if Enabled(s, a) then Next(s, a, rounds) else s) && (s.start ==> s'.start)
  {
    hide Inv;
    assert (schedule + [a])[..|schedule|] == schedule;
  }

  // ----- every fair schedule ends

  /** How far a thread is from its end, counted in the steps that make sure headway: waiting for the lock is all one. */
  function ThreadDue(t: Thread, rounds: nat): nat {
    if t.i > rounds then 0 else
    5 * (rounds - t.i) +
    match t.pc
    case Spin => 5
    case Try => 4
    case Wait => 4
    case Asleep => 4
    case Locked => 3
    case Read(_) => 2
    case Written => 1
    case Wake => 0
    case Done => 0
  }

  function Due(s: State, rounds: nat): nat {
    Total(s.threads, t => ThreadDue(t, rounds))
  }

  /** The next step of thread `t` makes headway. */
  predicate Ready(s: State, t: nat) {
    && t < |s.threads|
    && (s.threads[t].pc.Spin? || s.threads[t].pc.Wake? || Holds(s.threads[t]) || (s.threads[t].pc.Try? && s.futex == 0))
  }

  /** The step after the next one does. */
  predicate Almost(s: State, t: nat) {
    t < |s.threads| && s.threads[t].pc.Wait? && s.futex == 0
  }

  predicate IsTurn(a: Action, t: nat) {
    a.Step? && a.t == t
  }

  /** Nothing takes headway back, and a step that makes none leaves a thread that is ready, or almost, as it is. */
  lemma OneStep(s: State, a: Action, rounds: nat, t: nat)
    requires Inv(s, rounds) && s.start && Enabled(s, a)
    ensures var s' := Next(s, a, rounds);
            Due(s', rounds) < Due(s, rounds) ||
            (&& Due(s', rounds) == Due(s, rounds)
             && (Ready(s, t) ==> Ready(s', t) && !IsTurn(a, t))
             && (Almost(s, t) ==> if IsTurn(a, t) then Ready(s', t) else Almost(s', t)))
  {
    hide Due, NotStranded;
    match a
    case Start => SameDue(s, Next(s, a, rounds), rounds);
    case Interrupt(u) => InterruptDue(s, u, rounds);
    case Step(u, choice) => StepDue(s, u, choice, rounds);
  }

  lemma SameDue(s: State, s': State, rounds: nat)
    requires s'.threads == s.threads
    ensures Due(s', rounds) == Due(s, rounds)
  {
  }

  lemma InterruptDue(s: State, t: nat, rounds: nat)
    requires Inv(s, rounds) && Enabled(s, Interrupt(t))
    ensures Due(Next(s, Interrupt(t), rounds), rounds) == Due(s, rounds)
  {
    hide Total, Exclusive, NotStranded;
    TotalUpdate(s.threads, x => ThreadDue(x, rounds), t, Next(s, Interrupt(t), rounds).threads[t]);
  }

  /** Every step makes headway but a vain attempt to take the lock, going to sleep, and being told to try again. */
  lemma StepDue(s: State, t: nat, choice: nat, rounds: nat)
    requires Inv(s, rounds) && Enabled(s, Step(t, choice))
    ensures var s' := Next(s, Step(t, choice), rounds);
            if s.threads[t].pc.Wait? || (s.threads[t].pc.Try? && s.futex != 0) then Due(s', rounds) == Due(s, rounds)
            else Due(s', rounds) < Due(s, rounds)
  {
    hide Total, Exclusive, NotStranded;
    TotalStep(s, t, choice, rounds, x => ThreadDue(x, rounds));
  }

  predicate HasTurn(more: seq<Action>, t: nat) {
    more != [] && (IsTurn(more[0], t) || HasTurn(more[1..], t))
  }

  /** Every thread gets at least one turn in a round; a turn that is not possible when it comes is skipped. */
  predicate Fair(round: seq<Action>, count: nat) {
    forall t: nat :: t < count ==> HasTurn(round, t)
  }

  lemma {:induction false} NeverGrows(count: nat, rounds: nat, schedule: seq<Action>, more: seq<Action>)
    requires Run(count, rounds, schedule).start
    ensures var s, s' := Run(count, rounds, schedule), Run(count, rounds, schedule + more);
            s'.start && Due(s', rounds) <= Due(s, rounds)
    decreases |more|
  {
    hide Inv, Run, Enabled, Next, Due, Ready, Almost;
    if more == [] {
      assert schedule + more == schedule;
    } else {
      OneMore(count, rounds, schedule, more[0]);
      if Enabled(Run(count, rounds, schedule), more[0]) { OneStep(Run(count, rounds, schedule), more[0], rounds, 0); }
      NeverGrows(count, rounds, schedule + [more[0]], more[1..]);
      assert schedule + more == schedule + [more[0]] + more[1..];
    }
  }

  /** A thread that is ready makes headway in its turn, unless another one does before. */
  lemma {:induction false} ReadyWorks(count: nat, rounds: nat, schedule: seq<Action>, more: seq<Action>, t: nat)
    requires Run(count, rounds, schedule).start && Ready(Run(count, rounds, schedule), t) && HasTurn(more, t)
    ensures Due(Run(count, rounds, schedule + more), rounds) < Due(Run(count, rounds, schedule), rounds)
    decreases |more|
  {
    hide Inv, Run, Next, Due, Almost;
    var s, s1 := Run(count, rounds, schedule), Run(count, rounds, schedule + [more[0]]);
    OneMore(count, rounds, schedule, more[0]);
    if Enabled(s, more[0]) { OneStep(s, more[0], rounds, t); }
    assert schedule + more == schedule + [more[0]] + more[1..];
    if Due(s1, rounds) < Due(s, rounds) {
      NeverGrows(count, rounds, schedule + [more[0]], more[1..]);
    } else {
      ReadyWorks(count, rounds, schedule + [more[0]], more[1..], t);
    }
  }

  /** A turn makes a thread ready that almost is, unless another one makes headway; and then it stays ready. */
  lemma {:induction false} GetsReady(count: nat, rounds: nat, schedule: seq<Action>, more: seq<Action>, t: nat)
    requires var s := Run(count, rounds, schedule); s.start && (Ready(s, t) || (Almost(s, t) && HasTurn(more, t)))
    ensures var s, s' := Run(count, rounds, schedule), Run(count, rounds, schedule + more);
            Due(s', rounds) < Due(s, rounds) || Ready(s', t)
    decreases |more|
  {
    hide Inv, Run, Next, Due;
    if more == [] {
      assert schedule + more == schedule;
    } else {
      var s, s1 := Run(count, rounds, schedule), Run(count, rounds, schedule + [more[0]]);
      OneMore(count, rounds, schedule, more[0]);
      if Enabled(s, more[0]) { OneStep(s, more[0], rounds, t); }
      assert schedule + more == schedule + [more[0]] + more[1..];
      if Due(s1, rounds) < Due(s, rounds) {
        NeverGrows(count, rounds, schedule + [more[0]], more[1..]);
      } else {
        GetsReady(count, rounds, schedule + [more[0]], more[1..], t);
      }
    }
  }

  /** Two rounds always make headway, until all threads are done. */
  lemma TwoRoundsMakeHeadway(count: nat, rounds: nat, schedule: seq<Action>, first: seq<Action>, second: seq<Action>)
    requires Run(count, rounds, schedule).start && Fair(first, count) && Fair(second, count)
    ensures var s, s' := Run(count, rounds, schedule), Run(count, rounds, schedule + first + second);
            s'.start && (AllDone(s) || Due(s', rounds) < Due(s, rounds))
  {
    hide Inv, Run, Due;
    var s, s1 := Run(count, rounds, schedule), Run(count, rounds, schedule + first);
    NeverGrows(count, rounds, schedule, first);
    NeverGrows(count, rounds, schedule + first, second);
    if !AllDone(s) {
      var t := SomeoneCanStep(s, rounds);
      GetsReady(count, rounds, schedule, first, t);
      if Due(s1, rounds) == Due(s, rounds) { ReadyWorks(count, rounds, schedule + first, second, t); }
    }
  }

  lemma {:induction false} TotalCovers(threads: seq<Thread>, f: Thread -> nat, t: nat)
    requires t < |threads|
    ensures f(threads[t]) <= Total(threads, f)
  {
    if t > 0 { TotalCovers(threads[1..], f, t - 1); }
  }

  lemma SomethingIsDue(s: State, rounds: nat)
    requires Inv(s, rounds) && !AllDone(s)
    ensures Due(s, rounds) > 0
  {
    hide Total, Exclusive, NotStranded;
    var t: nat :| t < |s.threads| && !s.threads[t].pc.Done?;
    TotalCovers(s.threads, x => ThreadDue(x, rounds), t);
  }

  lemma {:induction false} DoneStays(count: nat, rounds: nat, schedule: seq<Action>, more: seq<Action>)
    requires AllDone(Run(count, rounds, schedule))
    ensures AllDone(Run(count, rounds, schedule + more))
    decreases |more|
  {
    hide Inv, Run;
    if more == [] {
      assert schedule + more == schedule;
    } else {
      OneMore(count, rounds, schedule, more[0]);
      DoneStays(count, rounds, schedule + [more[0]], more[1..]);
      assert schedule + more == schedule + [more[0]] + more[1..];
    }
  }

  /** Every schedule that keeps giving each thread its turns ends with all of them done and every increment counted. */
  lemma {:induction false} FairRoundsCountAll(count: nat, rounds: nat, schedule: seq<Action>, turns: seq<seq<Action>>)
    requires Run(count, rounds, schedule).start && forall k :: 0 <= k < |turns| ==> Fair(turns[k], count)
    requires 2 * Due(Run(count, rounds, schedule), rounds) <= |turns|
    ensures var s := Run(count, rounds, schedule + InRow(turns));
            AllDone(s) && s.counter == count * rounds
    decreases |turns|
  {
    hide Inv, Run, Due, Fair, AllDone;
    if AllDone(Run(count, rounds, schedule)) {
      DoneStays(count, rounds, schedule, InRow(turns));
    } else {
      SomethingIsDue(Run(count, rounds, schedule), rounds);
      TwoRoundsMakeHeadway(count, rounds, schedule, turns[0], turns[1]);
      FairRoundsCountAll(count, rounds, schedule + turns[0] + turns[1], turns[2..]);
      assert InRow(turns) == turns[0] + (turns[1] + InRow(turns[2..]));
      assert schedule + InRow(turns) == schedule + turns[0] + turns[1] + InRow(turns[2..]);
    }
    NoIncrementIsLost(count, rounds, schedule + InRow(turns));
  }
}
