/**
  How a line of commands is run: one flat loop over commands and operators, with flags, against the short-circuit
  meaning of the line. Starting a process and waiting for it are replaced by an oracle for exit statuses.
 */
module ShellRun {
  import opened Options
  import opened ShellText
  import opened ShellParser

  // ----- the meaning of a line

  /** A pipeline, or a line followed by `&&` or `||` and a pipeline. */
  datatype Expr =
    | Run(pipe: seq<Command>)
    | Then(left: Expr, onFailure: bool, pipe: seq<Command>)   // `||` if onFailure, else `&&`

  datatype Outcome = Outcome(started: seq<nat>, status: int)

  predicate IsPipe(pipe: seq<Command>) {
    pipe != [] && forall k :: 0 <= k < |pipe| ==> !IsOperator(pipe[k].name)
  }

  predicate IsLine(e: Expr) {
    IsPipe(e.pipe) && (e.Then? ==> IsLine(e.left))
  }

  function Operator(name: string): Command {
    Command(name, [])
  }

  function FlatPipe(pipe: seq<Command>): (r: seq<Command>)
    requires pipe != []
    ensures |r| == 2 * |pipe| - 1
  {
    if |pipe| == 1 then pipe else [pipe[0], Operator("|")] + FlatPipe(pipe[1..])
  }

  /** The array the parser makes of a line. */
  function Flatten(e: Expr): (r: seq<Command>)
    requires IsLine(e)
    ensures |r| >= 2 * |e.pipe| - 1
  {
    match e
    case Run(pipe) => FlatPipe(pipe)
    case Then(left, onFailure, pipe) =>
      Flatten(left) + [Operator(if onFailure then "||" else "&&")] + FlatPipe(pipe)
  }

  /** Where the last pipeline of a line begins in that array. */
  function LastPipe(e: Expr): nat
    requires IsLine(e)
  {
    |Flatten(e)| - |FlatPipe(e.pipe)|
  }

  /** The places of the commands of a pipeline. */
  function Places(at: nat, count: nat): seq<nat>
    decreases count
  {
    if count == 0 then [] else [at] + Places(at + 2, count - 1)
  }

  /** Whether the last pipeline of the line is run: always, or when the status of what is before it says so. */
  predicate Runs(e: Expr, status: nat -> int)
    requires IsLine(e)
    decreases e, 0
  {
    e.Run? || (e.onFailure <==> Eval(e.left, status).status != 0)
  }

  /** Left to right: a pipeline is started as a whole or skipped as a whole, and its status is that of its last
      command. */
  function Eval(e: Expr, status: nat -> int): Outcome
    requires IsLine(e)
    decreases e, 1
  {
    var before := if e.Run? then Outcome([], 0) else Eval(e.left, status);
    if Runs(e, status) then
      Outcome(before.started + Places(LastPipe(e), |e.pipe|), status(LastPipe(e) + 2 * |e.pipe| - 2))
    else before
  }

  // ----- the loop

  datatype State = State(
    at: nat,                      // command_array_ptr
    operator: Option<string>,     // last_operator
    pipeOpen: bool,               // last_pipe_end != NONE
    code: int,                    // last_child_exit_code
    child: nat,                   // the place of the last command started
    started: seq<nat>,
    stopped: bool)                // left the loop after starting the last command

  function Begin(code: int): State {
    State(0, None, false, code, 0, [], false)
  }

  /** get_command_count_before_redirection */
  function CountBeforeRedirection(commands: seq<Command>): (n: nat)
    ensures n <= |commands|
  {
    if |commands| <= 1 then |commands|
    else if commands[|commands| - 2].name == ">>" || commands[|commands| - 2].name == ">" then |commands| - 2
    else |commands|
  }

  predicate Goes(commands: seq<Command>, s: State) {
    s.at < |commands| && !s.stopped
  }

  /** A start of a command, in the parent. */
  function StartCommand(commands: seq<Command>, s: State): State
    requires Goes(commands, s)
  {
    var s' := s.(child := s.at, started := s.started + [s.at]);
    if s.at == |commands| - 1 || s.at + 1 == CountBeforeRedirection(commands) then s'.(stopped := true)
    else s'.(operator := None, pipeOpen := true, at := s.at + 1)
  }

  /** Before `&&` or `||` decides, the pipeline on its left is waited for. */
  function Waited(s: State, status: nat -> int): State {
    if s.pipeOpen then s.(pipeOpen := false, code := status(s.child)) else s
  }

  function Turn(commands: seq<Command>, s: State, status: nat -> int): State
    requires Goes(commands, s)
  {
    if IsOperator(commands[s.at].name) then s.(operator := Some(commands[s.at].name), at := s.at + 1)
    else if s.operator.Some? && s.operator != Some("|") then
      var s1 := Waited(s, status);
      if (if s.operator == Some("||") then s1.code == 0 else s1.code != 0) then s1.(at := s.at + 1)
      else StartCommand(commands, s1.(operator := None))
    else if s.at != 0 && !s.pipeOpen && s.operator == Some("|") then s.(at := s.at + 1, operator := None)
    else StartCommand(commands, s)
  }

  function Loop(commands: seq<Command>, s: State, status: nat -> int): State
    decreases |commands| - s.at, !s.stopped
  {
    if !Goes(commands, s) then s else Loop(commands, Turn(commands, s, status), status)
  }

  // ----- the loop means the line

  /** `segment` stands in the array at `from`. */
  predicate Holds(commands: seq<Command>, from: nat, segment: seq<Command>) {
    from + |segment| <= |commands| && commands[from..from + |segment|] == segment
  }

  lemma HoldsAt(commands: seq<Command>, from: nat, segment: seq<Command>, k: nat)
    requires Holds(commands, from, segment) && k < |segment|
    ensures commands[from + k] == segment[k]
  {
    assert commands[from..from + |segment|][k] == commands[from + k];
  }

  lemma HoldsTail(commands: seq<Command>, from: nat, segment: seq<Command>, k: nat)
    requires Holds(commands, from, segment) && k <= |segment|
    ensures Holds(commands, from + k, segment[k..])
  {
    assert commands[from..from + |segment|][k..] == commands[from + k..from + |segment|];
  }

  /** `segment` stands in the array at `from`, before a redirection. */
  predicate HoldsBefore(commands: seq<Command>, from: nat, segment: seq<Command>) {
    Holds(commands, from, segment) && from + |segment| <= CountBeforeRedirection(commands)
  }

  /** After the command at `at`, which was just reached with `operator`, the loop starts the whole pipeline. */
  lemma {:induction false} RunsPipe(commands: seq<Command>, s: State, pipe: seq<Command>, status: nat -> int)
    returns (s': State)
    requires IsPipe(pipe) && HoldsBefore(commands, s.at, FlatPipe(pipe)) && !s.stopped
    ensures Loop(commands, StartCommand(commands, s), status) == Loop(commands, s', status)
    ensures s'.started == s.started + Places(s.at, |pipe|) && s'.child == s.at + 2 * |pipe| - 2
    ensures if s.at + 2 * |pipe| - 1 == CountBeforeRedirection(commands)
            then s'.stopped && s'.at + 1 == CountBeforeRedirection(commands)
            else !s'.stopped && s'.at == s.at + 2 * |pipe| - 1 && s'.operator == None && s'.pipeOpen
    decreases |pipe|
  {
    hide Loop, StartCommand, Turn, FlatPipe, Holds, IsPipe, Places, CountBeforeRedirection, IsOperator;
    NotEmpty(pipe);
    StartsHere(commands, s);
    if |pipe| == 1 {
      s' := StartCommand(commands, s);
      OnePlace(s.at);
    } else {
      RestOfPipe(commands, s.at, pipe);
      var s2 := StartCommand(commands, s).(operator := Some("|"), at := s.at + 2);
      TakesPipe(commands, StartCommand(commands, s), status);
      s' := RunsPipe(commands, s2, pipe[1..], status);
      MorePlaces(s.at, |pipe|);
      Associate(s.started, [s.at], Places(s.at + 2, |pipe| - 1));
    }
  }

  lemma NotEmpty(pipe: seq<Command>)
    requires IsPipe(pipe)
    ensures pipe != []
  {
  }

  lemma MorePlaces(at: nat, count: nat)
    requires count > 0
    ensures Places(at, count) == [at] + Places(at + 2, count - 1)
  {
  }

  lemma StartsHere(commands: seq<Command>, s: State)
    requires s.at < CountBeforeRedirection(commands) && !s.stopped
    ensures StartCommand(commands, s) ==
            if s.at + 1 == CountBeforeRedirection(commands)
            then s.(child := s.at, started := s.started + [s.at], stopped := true)
            else s.(child := s.at, started := s.started + [s.at], operator := None, pipeOpen := true, at := s.at + 1)
  {
  }

  lemma OnePlace(at: nat)
    ensures Places(at, 1) == [at]
  {
    assert Places(at, 1) == [at] + Places(at + 2, 0);
  }

  /** Behind the first command of a pipeline is `|` and the rest. */
  lemma RestOfPipe(commands: seq<Command>, at: nat, pipe: seq<Command>)
    requires IsPipe(pipe) && |pipe| > 1 && Holds(commands, at, FlatPipe(pipe))
    ensures IsPipe(pipe[1..]) && Holds(commands, at + 2, FlatPipe(pipe[1..]))
    ensures commands[at + 1] == Operator("|") && !IsOperator(commands[at + 2].name)
  {
    HoldsAt(commands, at, FlatPipe(pipe), 1);
    HoldsAt(commands, at, FlatPipe(pipe), 2);
    HoldsTail(commands, at, FlatPipe(pipe), 2);
    assert FlatPipe(pipe)[2..] == FlatPipe(pipe[1..]);
    FirstOfPipe(pipe[1..]);
  }

  lemma TakesPipe(commands: seq<Command>, s: State, status: nat -> int)
    requires s.at + 1 < |commands| && !s.stopped && s.pipeOpen
    requires commands[s.at] == Operator("|") && !IsOperator(commands[s.at + 1].name)
    ensures Loop(commands, s, status) ==
            Loop(commands, StartCommand(commands, s.(operator := Some("|"), at := s.at + 1)), status)
  {
    hide StartCommand;
    var s1 := Turn(commands, s, status);
    assert Turn(commands, s1, status) == StartCommand(commands, s1);
  }

  lemma FirstOfPipe(pipe: seq<Command>)
    requires IsPipe(pipe)
    ensures FlatPipe(pipe)[0] == pipe[0] && !IsOperator(FlatPipe(pipe)[0].name)
  {
  }

  /** After a command that was skipped, the loop skips the rest of its pipeline. */
  lemma {:induction false} SkipsPipe(commands: seq<Command>, s: State, pipe: seq<Command>, status: nat -> int)
    returns (s': State)
    requires IsPipe(pipe) && 0 < s.at && Holds(commands, s.at - 1, FlatPipe(pipe)) && !s.stopped && !s.pipeOpen
    ensures Loop(commands, s, status) == Loop(commands, s', status)
    ensures s' == s.(at := s.at + 2 * |pipe| - 2, operator := s'.operator)
    decreases |pipe|
  {
    if |pipe| == 1 {
      s' := s;
    } else {
      RestOfPipe(commands, s.at - 1, pipe);
      var s1 := Turn(commands, s, status);
      var s2 := Turn(commands, s1, status);
      s' := SkipsPipe(commands, s2, pipe[1..], status);
    }
  }

  /** Where the loop is when it has dealt with the line `e`: behind it, or stopped at its end. */
  predicate Dealt(commands: seq<Command>, e: Expr, s: State, status: nat -> int)
    requires IsLine(e)
  {
    && s.started == Eval(e, status).started
    && (if Runs(e, status) then
          s.child == |Flatten(e)| - 1 && status(s.child) == Eval(e, status).status &&
          if |Flatten(e)| == CountBeforeRedirection(commands) then s.stopped
          else !s.stopped && s.at == |Flatten(e)| && s.pipeOpen && s.operator == None
        else !s.stopped && s.at == |Flatten(e)| && !s.pipeOpen && s.code == Eval(e, status).status)
  }

  lemma {:induction false} LoopDeals(commands: seq<Command>, e: Expr, code: int, status: nat -> int) returns (s: State)
    requires IsLine(e) && HoldsBefore(commands, 0, Flatten(e))
    ensures Loop(commands, Begin(code), status) == Loop(commands, s, status) && Dealt(commands, e, s, status)
    decreases e
  {
    hide Loop, Turn, StartCommand, Flatten, Eval, Holds;
    if e.Run? {
      s := DealsWithFirst(commands, e, code, status);
    } else {
      LeftPart(commands, e);
      var s0 := LoopDeals(commands, e.left, code, status);
      s := DealsWithPipe(commands, e, s0, status);
    }
  }

  lemma DealsWithFirst(commands: seq<Command>, e: Expr, code: int, status: nat -> int) returns (s: State)
    requires IsLine(e) && e.Run? && HoldsBefore(commands, 0, Flatten(e))
    ensures Loop(commands, Begin(code), status) == Loop(commands, s, status) && Dealt(commands, e, s, status)
  {
    hide Loop, Turn, StartCommand, FlatPipe, Holds, CountBeforeRedirection, IsPipe;
    FirstOfPipe(e.pipe);
    HoldsAt(commands, 0, FlatPipe(e.pipe), 0);
    BeginsWith(commands, code, status);
    s := RunsPipe(commands, Begin(code), e.pipe, status);
    assert [] + Places(0, |e.pipe|) == Places(0, |e.pipe|);
    EvalRun(e, status);
  }

  lemma BeginsWith(commands: seq<Command>, code: int, status: nat -> int)
    requires commands != [] && !IsOperator(commands[0].name)
    ensures Loop(commands, Begin(code), status) == Loop(commands, StartCommand(commands, Begin(code)), status)
  {
    hide StartCommand, IsOperator;
    assert Turn(commands, Begin(code), status) == StartCommand(commands, Begin(code));
  }

  lemma EvalRun(e: Expr, status: nat -> int)
    requires IsLine(e) && e.Run?
    ensures Flatten(e) == FlatPipe(e.pipe) && LastPipe(e) == 0 && Runs(e, status)
    ensures Eval(e, status) == Outcome(Places(0, |e.pipe|), status(2 * |e.pipe| - 2))
  {
    hide FlatPipe, IsPipe, Places;
    assert [] + Places(0, |e.pipe|) == Places(0, |e.pipe|);
  }

  lemma LeftPart(commands: seq<Command>, e: Expr)
    requires IsLine(e) && e.Then? && HoldsBefore(commands, 0, Flatten(e))
    ensures var n := |Flatten(e.left)|;
            && HoldsBefore(commands, 0, Flatten(e.left))
            && n + 1 + |FlatPipe(e.pipe)| == |Flatten(e)| <= CountBeforeRedirection(commands)
            && commands[n] == Operator(if e.onFailure then "||" else "&&")
            && HoldsBefore(commands, n + 1, FlatPipe(e.pipe)) && !IsOperator(commands[n + 1].name)
  {
    hide FlatPipe, IsPipe;
    var n := |Flatten(e.left)|;
    FirstOfPipe(e.pipe);
    assert Flatten(e)[..n] == Flatten(e.left);
    assert commands[0..n] == commands[0..|Flatten(e)|][..n];
    HoldsAt(commands, 0, Flatten(e), n);
    HoldsTail(commands, 0, Flatten(e), n + 1);
    assert Flatten(e)[n + 1..] == FlatPipe(e.pipe);
    HoldsAt(commands, n + 1, FlatPipe(e.pipe), 0);
  }

  lemma DealsWithPipe(commands: seq<Command>, e: Expr, s0: State, status: nat -> int) returns (s: State)
    requires IsLine(e) && e.Then? && Dealt(commands, e.left, s0, status)
    requires var n := |Flatten(e.left)|;
             && n + 1 + |FlatPipe(e.pipe)| == |Flatten(e)| <= CountBeforeRedirection(commands)
             && commands[n] == Operator(if e.onFailure then "||" else "&&")
             && HoldsBefore(commands, n + 1, FlatPipe(e.pipe)) && !IsOperator(commands[n + 1].name)
    ensures Loop(commands, s0, status) == Loop(commands, s, status) && Dealt(commands, e, s, status)
  {
    hide Loop, Turn, StartCommand, FlatPipe, Flatten, Eval, Holds;
    var n := |Flatten(e.left)|;
    Decides(commands, s0, e.onFailure, status);
    EvalThen(e, status);
    var w := Waited(s0.(operator := Some(if e.onFailure then "||" else "&&"), at := n + 1), status);
    if Runs(e, status) {
      s := RunsPipe(commands, w.(operator := None), e.pipe, status);
    } else {
      s := SkipsPipe(commands, w.(at := n + 2), e.pipe, status);
    }
  }

  lemma EvalThen(e: Expr, status: nat -> int)
    requires IsLine(e) && e.Then?
    ensures Runs(e, status) <==> (e.onFailure <==> Eval(e.left, status).status != 0)
    ensures Eval(e, status) ==
            if Runs(e, status) then
              Outcome(Eval(e.left, status).started + Places(|Flatten(e.left)| + 1, |e.pipe|),
                      status(|Flatten(e.left)| + 2 * |e.pipe| - 1))
            else Eval(e.left, status)
    ensures |Flatten(e)| == |Flatten(e.left)| + 2 * |e.pipe|
  {
    hide Flatten, FlatPipe, IsPipe, Places;
    FlatLength(e);
  }

  lemma FlatLength(e: Expr)
    requires IsLine(e) && e.Then?
    ensures |Flatten(e)| == |Flatten(e.left)| + 2 * |e.pipe| && LastPipe(e) == |Flatten(e.left)| + 1
  {
    hide FlatPipe, IsPipe;
    NotEmpty(e.pipe);
    var left, pipe := Flatten(e.left), FlatPipe(e.pipe);
    assert Flatten(e) == left + [Operator(if e.onFailure then "||" else "&&")] + pipe;
  }

  /** At `&&` or `||` the loop waits for what runs and then starts or skips the first command behind it. */
  lemma Decides(commands: seq<Command>, s: State, onFailure: bool, status: nat -> int)
    requires s.at + 1 < |commands| && !s.stopped
    requires commands[s.at] == Operator(if onFailure then "||" else "&&") && !IsOperator(commands[s.at + 1].name)
    ensures var w := Waited(s.(operator := Some(if onFailure then "||" else "&&"), at := s.at + 1), status);
            Loop(commands, s, status) ==
            if onFailure <==> w.code != 0 then Loop(commands, StartCommand(commands, w.(operator := None)), status)
            else Loop(commands, w.(at := s.at + 2), status)
  {
    hide StartCommand;
    var s1 := Turn(commands, s, status);
    var s2 := Turn(commands, s1, status);
    assert Loop(commands, s, status) == Loop(commands, s1, status) == Loop(commands, s2, status);
  }

  // ----- the line as a whole

  lemma {:induction false} PipeIsPlain(pipe: seq<Command>, k: nat)
    requires IsPipe(pipe) && k < |FlatPipe(pipe)|
    ensures FlatPipe(pipe)[k].name != ">" && FlatPipe(pipe)[k].name != ">>"
  {
    if |pipe| > 1 && k >= 2 { PipeIsPlain(pipe[1..], k - 2); }
  }

  lemma {:induction false} LineIsPlain(e: Expr, k: nat)
    requires IsLine(e) && k < |Flatten(e)|
    ensures Flatten(e)[k].name != ">" && Flatten(e)[k].name != ">>"
  {
    if e.Run? { PipeIsPlain(e.pipe, k); }
    else if k < |Flatten(e.left)| { LineIsPlain(e.left, k); }
    else if k > |Flatten(e.left)| { PipeIsPlain(e.pipe, k - |Flatten(e.left)| - 1); }
  }

  /** A line with its output sent to a file: `>` or `>>`, and behind it the name of the file. */
  function Redirected(e: Expr, append: bool, file: Command): seq<Command>
    requires IsLine(e)
  {
    Flatten(e) + [Operator(if append then ">>" else ">"), file]
  }

  /** The last pipeline stands behind `||` and is skipped. */
  predicate SkippedByOr(e: Expr, status: nat -> int)
    requires IsLine(e)
  {
    e.Then? && e.onFailure && !Runs(e, status)
  }

  /** In front of a redirection the loop starts what short-circuit evaluation starts, and then also starts the name of
      the file as a command, exactly when the last pipeline was skipped behind `||`. */
  lemma LoopRedirects(e: Expr, append: bool, file: Command, code: int, status: nat -> int)
    requires IsLine(e) && !IsOperator(file.name)
    ensures var end := Loop(Redirected(e, append, file), Begin(code), status);
            if SkippedByOr(e, status)
            then end.started == Eval(e, status).started + [|Flatten(e)| + 1]
                 && FinalCode(end, status) == status(|Flatten(e)| + 1)
            else end.started == Eval(e, status).started
                 && FinalCode(end, status) == if Runs(e, status) then Eval(e, status).status else 0
  {
    hide Flatten, Eval, Runs;
    var commands := Redirected(e, append, file);
    assert commands[0..|Flatten(e)|] == Flatten(e);
    var s := LoopDeals(commands, e, code, status);
    SomethingStarts(e, status);
    if Runs(e, status) {
      assert Loop(commands, s, status) == s;
    } else {
      SkippedStatus(e, status);
      MeetsFile(commands, s, status);
    }
  }

  lemma SkippedStatus(e: Expr, status: nat -> int)
    requires IsLine(e) && !Runs(e, status)
    ensures e.Then? && (e.onFailure <==> Eval(e, status).status == 0)
  {
    EvalThen(e, status);
  }

  /** Behind a skipped pipeline a redirection reads like `&&`. */
  lemma MeetsFile(commands: seq<Command>, s: State, status: nat -> int)
    requires s.at + 2 == |commands| && !s.stopped && !s.pipeOpen && s.started != []
    requires commands[s.at].name in {">", ">>"} && !IsOperator(commands[s.at + 1].name)
    ensures var end := Loop(commands, s, status);
            && end.started == s.started + (if s.code == 0 then [s.at + 1] else [])
            && FinalCode(end, status) == if s.code == 0 then status(s.at + 1) else 0
  {
    var s1 := Turn(commands, s, status);
    var s2 := Turn(commands, s1, status);
    assert Loop(commands, s, status) == Loop(commands, s1, status) == Loop(commands, s2, status) == s2;
  }

  /** For `true || a > f` the shell runs `true` and then `f`. */
  lemma FileIsStarted(code: int)
    ensures var e, status := Then(Run([Command("true", [])]), true, [Command("a", [])]), (at: nat) => 0;
            && IsLine(e) && Eval(e, status).started == [0]
            && Loop(Redirected(e, false, Command("f", [])), Begin(code), status).started == [0, 4]
  {
    var e, status := Then(Run([Command("true", [])]), true, [Command("a", [])]), (at: nat) => 0;
    assert Places(0, 1) == [0];
    assert Flatten(e.left) == FlatPipe(e.left.pipe) == [Command("true", [])];
    assert Eval(e.left, status) == Outcome([0], 0);
    assert |Flatten(e)| == 3;
    LoopRedirects(e, false, Command("f", []), code, status);
  }

  /** The flat loop starts the commands that short-circuit evaluation starts, in the same order. */
  lemma LoopShortCircuits(e: Expr, code: int, status: nat -> int)
    requires IsLine(e)
    ensures Loop(Flatten(e), Begin(code), status).started == Eval(e, status).started
    ensures FinalCode(Loop(Flatten(e), Begin(code), status), status) ==
            if Runs(e, status) then Eval(e, status).status else 0
  {
    var commands := Flatten(e);
    if |commands| > 1 { LineIsPlain(e, |commands| - 2); }
    assert commands[0..|commands|] == commands;
    var s := LoopDeals(commands, e, code, status);
    assert Loop(commands, s, status) == s;
    SomethingStarts(e, status);
  }

  lemma {:induction false} SomethingStarts(e: Expr, status: nat -> int)
    requires IsLine(e)
    ensures Eval(e, status).started != []
  {
    if e.Then? { SomethingStarts(e.left, status); }
  }

  /** The code after the children have been waited for. The last child is the first one on the list; when it has been
      waited for before, the second wait fails and leaves the status 0. */
  function FinalCode(s: State, status: nat -> int): int {
    if s.started == [] then s.code else if s.stopped || s.pipeOpen then status(s.child) else 0
  }

  /** The code that is left is that of the line, unless its last pipeline stands behind `&&` and a failure. */
  lemma FinalCodeIsRight(e: Expr, code: int, status: nat -> int)
    requires IsLine(e)
    ensures FinalCode(Loop(Flatten(e), Begin(code), status), status) == Eval(e, status).status <==>
            !(e.Then? && !e.onFailure && Eval(e.left, status).status != 0)
  {
    LoopShortCircuits(e, code, status);
  }

  /** A line for which it is not: the left side fails, the right side is skipped, and the failure is lost. */
  lemma FailureIsLost(code: int)
    ensures var e := Then(Run([Command("false", [])]), false, [Command("true", [])]);
            var status := (at: nat) => if at == 0 then 1 else 0;
            && IsLine(e) && Eval(e, status).status == 1
            && FinalCode(Loop(Flatten(e), Begin(code), status), status) == 0
  {
    var e := Then(Run([Command("false", [])]), false, [Command("true", [])]);
    var status := (at: nat) => if at == 0 then 1 else 0;
    assert Places(0, 1) == [0];
    assert Flatten(e.left) == FlatPipe(e.left.pipe) == [Command("false", [])];
    assert Eval(e.left, status).status == 1;
    LoopShortCircuits(e, code, status);
  }

  // ----- from the text to the run

  /** No word of the line could be taken for an operator. */
  predicate PlainWords(e: Expr) {
    (forall k :: 0 <= k < |e.pipe| ==> NoOperator(e.pipe[k].args)) && (e.Then? ==> PlainWords(e.left))
  }

  lemma NormalJoin(a: seq<Command>, op: Command, b: seq<Command>)
    requires Normal(a) && Normal(b) && IsOperator(op.name) && op.args == []
    ensures Normal(a + [op] + b)
  {
    var all := a + [op] + b;
    forall k | 0 < k < |all| ensures IsOperator(all[k - 1].name) || IsOperator(all[k].name) {
      if k < |a| { assert all[k - 1] == a[k - 1] && all[k] == a[k]; }
      else if k > |a| + 1 { assert all[k - 1] == b[k - 2 - |a|] && all[k] == b[k - 1 - |a|]; }
    }
  }

  lemma {:induction false} PipeIsNormal(pipe: seq<Command>)
    requires IsPipe(pipe) && forall k :: 0 <= k < |pipe| ==> NoOperator(pipe[k].args)
    ensures Normal(FlatPipe(pipe))
  {
    if |pipe| > 1 {
      PipeIsNormal(pipe[1..]);
      NormalJoin([pipe[0]], Operator("|"), FlatPipe(pipe[1..]));
      assert [pipe[0]] + [Operator("|")] + FlatPipe(pipe[1..]) == FlatPipe(pipe);
    }
  }

  lemma {:induction false} LineIsNormal(e: Expr)
    requires IsLine(e) && PlainWords(e)
    ensures Normal(Flatten(e))
  {
    hide Normal, FlatPipe;
    PipeIsNormal(e.pipe);
    if e.Then? {
      LineIsNormal(e.left);
      NormalJoin(Flatten(e.left), Operator(if e.onFailure then "||" else "&&"), FlatPipe(e.pipe));
    }
  }

  /** A line of one command that the shell carries out itself. */
  predicate IsBuiltIn(commands: seq<Command>) {
    |commands| == 1 && (commands[0].name == "exit" || commands[0].name == "cd")
  }

  /** What a line without `&` at its end starts: a built-in command starts nothing, any other line goes to the loop. */
  function LineStarts(commands: seq<Command>, code: int, status: nat -> int): seq<nat> {
    if IsBuiltIn(commands) then [] else Loop(commands, Begin(code), status).started
  }

  /** A line written down, parsed and run starts what its meaning says, unless it is a built-in command. */
  lemma PrintedLinesRun(e: Expr, code: int, status: nat -> int)
    requires IsLine(e) && PlainWords(e)
    ensures LineStarts(Parse(PrintLine(Flatten(e))), code, status) ==
            if e.Run? && |e.pipe| == 1 && e.pipe[0].name in {"exit", "cd"} then [] else Eval(e, status).started
  {
    LineIsNormal(e);
    ParseUndoesPrint(Flatten(e));
    LoopShortCircuits(e, code, status);
  }

  /** The same for a line with a redirection at its end. */
  lemma PrintedRedirectsRun(e: Expr, append: bool, file: Command, code: int, status: nat -> int)
    requires IsLine(e) && PlainWords(e) && !IsOperator(file.name) && NoOperator(file.args)
    ensures LineStarts(Parse(PrintLine(Redirected(e, append, file))), code, status) ==
            Eval(e, status).started + if SkippedByOr(e, status) then [|Flatten(e)| + 1] else []
  {
    hide Loop, Flatten, Eval, Runs;
    var commands := Redirected(e, append, file);
    LineIsNormal(e);
    assert IsPipe([file]) && FlatPipe([file]) == [file];
    NormalJoin(Flatten(e), Operator(if append then ">>" else ">"), [file]);
    assert commands == Flatten(e) + [Operator(if append then ">>" else ">")] + [file];
    ParseUndoesPrint(commands);
    LoopRedirects(e, append, file, code, status);
  }

  // ----- the code

  method GetCommandCountBeforeRedirection(commands: array<Command>) returns (n: nat)
    ensures n == CountBeforeRedirection(commands[..])
    ensures n == commands.Length || n == commands.Length - 2
    ensures n == commands.Length - 2 <==> commands.Length >= 2 && commands[commands.Length - 2].name in {">", ">>"}
  {
    n := commands.Length;
    if n > 1 {
      var potentialRedirector := commands[n - 2].name;
      if potentialRedirector == ">>" || potentialRedirector == ">" {
        n := n - 2;
      }
    }
  }

  /** The loop of main and the wait that follows it, for the commands of one line. */
  method RunCommands(commands: array<Command>, code: int, status: nat -> int) returns (started: seq<nat>, final: int)
    ensures var s := Loop(commands[..], Begin(code), status); started == s.started && final == FinalCode(s, status)
  {
    hide CountBeforeRedirection;
    var beforeRedirection := GetCommandCountBeforeRedirection(commands);
    var at: nat, operator: Option<string>, pipeOpen, child: nat, stopped := 0, None, false, 0, false;
    final, started := code, [];
    while at != commands.Length
      invariant at <= commands.Length && !stopped
      invariant Loop(commands[..], Begin(code), status) ==
                Loop(commands[..], State(at, operator, pipeOpen, final, child, started, false), status)
      decreases commands.Length - at
    {
      var name := commands[at].name;
      if IsOperator(name) {
        operator := Some(name);
        at := at + 1;
        continue;
      }
      if operator.Some? && operator != Some("|") {
        if pipeOpen {
          pipeOpen, final := false, status(child);
        }
        if operator == Some("||") {
          if final == 0 {
            at := at + 1;
            continue;
          }
        } else if final != 0 {
          at := at + 1;
          continue;
        }
        operator := None;
      }
      if at != 0 && !pipeOpen && operator == Some("|") {
        at, operator := at + 1, None;
        continue;
      }
      child, started := at, started + [at];
      if at == commands.Length - 1 || at + 1 == beforeRedirection {
        stopped := true;
        break;
      }
      operator, pipeOpen := None, true;
      at := at + 1;
    }
    if started != [] {
      final := if stopped || pipeOpen then status(child) else 0;
    }
  }
}
