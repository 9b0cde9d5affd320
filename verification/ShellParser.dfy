/** Commands and operators: what the parser makes of the tokens, and a printer that it undoes. */
module ShellParser {
  import opened Options
  import opened ShellText
  import opened ShellLines
  import opened ShellPieces
  import opened ShellTokenizer

  datatype Command = Command(name: string, args: seq<string>)

  predicate IsOperator(token: string) {
    token != [] && IsOperatorChar(token[0])
  }

  // ----- the parser

  /** How many tokens follow before an operator or the end. */
  function CountUntilOperator(tokens: seq<string>): (n: nat)
    ensures n <= |tokens| && (n < |tokens| ==> IsOperator(tokens[n]))
    ensures forall k :: 0 <= k < n ==> !IsOperator(tokens[k])
  {
    if tokens == [] || IsOperator(tokens[0]) then 0 else 1 + CountUntilOperator(tokens[1..])
  }

  function Commands(tokens: seq<string>): seq<Command> {
    if tokens == [] then []
    else if IsOperator(tokens[0]) then [Command(tokens[0], [])] + Commands(tokens[1..])
    else
      var n := CountUntilOperator(tokens[1..]);
      [Command(tokens[0], tokens[1..1 + n])] + Commands(tokens[1 + n..])
  }

  function Parse(line: string): seq<Command> {
    Commands(Tokens(line, 0))
  }

  // ----- the printer

  const OPERATORS: set<string> := {"&", "&&", "|", "||", ">", ">>"}

  function Escape(word: string): string {
    if word == [] then []
    else (if word[0] == '\\' || word[0] == '"' then ['\\', word[0]] else [word[0]]) + Escape(word[1..])
  }

  function Quote(word: string): string {
    ['"'] + Escape(word) + ['"']
  }

  function Show(token: string): string {
    if token in OPERATORS then token else Quote(token)
  }

  function Print(tokens: seq<string>): string {
    if tokens == [] then []
    else Show(tokens[0]) + if |tokens| == 1 then [] else [' '] + Print(tokens[1..])
  }

  function Flat(commands: seq<Command>): seq<string> {
    if commands == [] then [] else [commands[0].name] + commands[0].args + Flat(commands[1..])
  }

  function PrintLine(commands: seq<Command>): string {
    Print(Flat(commands))
  }

  /** Operators stand alone, words of one command are not operators, and between two commands is an operator. */
  predicate Normal(commands: seq<Command>) {
    && (forall k :: 0 <= k < |commands| && IsOperator(commands[k].name) ==> commands[k].args == [])
    && (forall k :: 0 <= k < |commands| ==> NoOperator(commands[k].args))
    && (forall k :: 0 < k < |commands| ==> IsOperator(commands[k - 1].name) || IsOperator(commands[k].name))
  }

  predicate NoOperator(words: seq<string>) {
    forall k :: 0 <= k < |words| ==> !IsOperator(words[k])
  }

  // ----- tokens come back

  lemma {:induction false} EscapeComesBack(word: string)
    ensures Unquote(Escape(word), '"', false) == word
  {
    if word != [] {
      var c, rest := word[0], Escape(word[1..]);
      EscapeComesBack(word[1..]);
      if c == '\\' || c == '"' {
        var s := ['\\', c] + rest;
        assert s[1..][1..] == rest;
        assert Unquote(s, '"', false) == Unquote(s[1..], '"', true) == [c] + Unquote(s[1..][1..], '"', false);
      } else {
        assert ([c] + rest)[1..] == rest;
      }
    }
  }

  /** A word between double quotes, in units. */
  function EscapeUnits(word: string): seq<Unit> {
    if word == [] then []
    else [if word[0] == '\\' || word[0] == '"' then Pair(word[0]) else Char(word[0])] + EscapeUnits(word[1..])
  }

  lemma {:induction false} EscapedWord(word: string)
    ensures Spell(EscapeUnits(word)) == Escape(word) && Inner('"', EscapeUnits(word)) == word
    ensures QuotedUnits('"', EscapeUnits(word))
  {
    if word != [] {
      EscapedWord(word[1..]);
      assert EscapeUnits(word)[1..] == EscapeUnits(word[1..]);
      assert word == [word[0]] + word[1..];
    }
  }

  function ShowPiece(token: string): Piece {
    if token in OPERATORS then Op(token) else Quoted('"', EscapeUnits(token), false, true)
  }

  /** What is printed is such a piece; it can stand before a blank and at the end. */
  lemma ShownToken(token: string, rest: string)
    requires rest == [] || rest[0] == ' '
    ensures var p := ShowPiece(token);
            Look(p) == Show(token) && Meaning(p) == [token] && IsPiece(p) && EndsBefore(p, rest) && Whole([p])
  {
    if token !in OPERATORS {
      EscapedWord(token);
      assert Spell(EscapeUnits(token)) + [] == Escape(token);
    }
  }

  function PrintPieces(tokens: seq<string>): seq<Piece> {
    if tokens == [] then []
    else [ShowPiece(tokens[0])] + if |tokens| == 1 then [] else [Blank(' ')] + PrintPieces(tokens[1..])
  }

  lemma MorePieces(p: Piece, ps: seq<Piece>)
    requires Fits(ps) && IsPiece(p) && EndsBefore(p, Text(ps)) && Whole([p]) && Whole(ps)
    ensures Fits([p] + ps) && Text([p] + ps) == Look(p) + Text(ps) && Means([p] + ps) == Meaning(p) + Means(ps)
    ensures Whole([p] + ps)
  {
    assert ([p] + ps)[1..] == ps;
    WholeFirst([p] + ps);
  }

  lemma {:induction false} PrintedPieces(tokens: seq<string>)
    ensures var ps := PrintPieces(tokens);
            Fits(ps) && Text(ps) == Print(tokens) && Means(ps) == tokens && Whole(ps)
  {
    hide ShowPiece, Show, Look, Meaning, IsPiece, EndsBefore, Fits, Text, Means, Whole;
    NoPieces();
    if tokens != [] {
      PrintedPieces(tokens[1..]);
      var rest := PrintPieces(tokens[1..]);
      BlankPiece(Text(rest));
      MorePieces(Blank(' '), rest);
      var behind := if |tokens| == 1 then [] else [Blank(' ')] + rest;
      ShownToken(tokens[0], Text(behind));
      MorePieces(ShowPiece(tokens[0]), behind);
      assert tokens == [tokens[0]] + tokens[1..];
    }
  }

  lemma NoPieces()
    ensures Fits([]) && Text([]) == [] && Means([]) == [] && Whole([])
  {
  }

  lemma BlankPiece(rest: string)
    ensures var p := Blank(' ');
            Look(p) == [' '] && Meaning(p) == [] && IsPiece(p) && EndsBefore(p, rest) && Whole([p])
  {
  }

  /** The tokens of a printed line are those that were printed, and the tokenizer runs over it cleanly. */
  lemma PrintedTokens(s: string, i: nat, tokens: seq<string>)
    requires i <= |s| && s[i..] == Print(tokens)
    ensures Tokens(s, i) == tokens && Clean(s, i)
  {
    PrintedPieces(tokens);
    PiecesAreRead(s, i, PrintPieces(tokens));
  }

  // ----- commands come back

  lemma NormalCons(first: Command, rest: seq<Command>)
    requires Normal(rest) && NoOperator(first.args) && (IsOperator(first.name) ==> first.args == [])
    requires rest == [] || IsOperator(first.name) || IsOperator(rest[0].name)
    ensures Normal([first] + rest) && Flat([first] + rest) == [first.name] + first.args + Flat(rest)
  {
    var all := [first] + rest;
    assert all[1..] == rest;
    assert forall k :: 0 < k < |all| ==> all[k] == rest[k - 1];
  }

  lemma {:induction false} CommandsAreNormal(tokens: seq<string>)
    ensures Normal(Commands(tokens)) && Flat(Commands(tokens)) == tokens
    ensures tokens != [] ==> Commands(tokens) != [] && Commands(tokens)[0].name == tokens[0]
  {
    hide Normal, Flat;
    if tokens == [] {
      assert Normal([]) && Flat([]) == [] by { NoCommands(); }
    } else {
      var n := if IsOperator(tokens[0]) then 0 else CountUntilOperator(tokens[1..]);
      var first, rest := Command(tokens[0], tokens[1..1 + n]), Commands(tokens[1 + n..]);
      CommandsAreNormal(tokens[1 + n..]);
      if n < |tokens| - 1 { assert tokens[1 + n..][0] == tokens[1..][n]; }
      NormalCons(first, rest);
      assert tokens == [tokens[0]] + tokens[1..1 + n] + tokens[1 + n..];
    }
  }

  lemma NoCommands()
    ensures Normal([]) && Flat([]) == []
  {
  }

  lemma CountToOperator(tokens: seq<string>, n: nat)
    requires n <= |tokens| && NoOperator(tokens[..n]) && (n < |tokens| ==> IsOperator(tokens[n]))
    ensures CountUntilOperator(tokens) == n
  {
    forall k | 0 <= k < n ensures !IsOperator(tokens[k]) {
      assert tokens[..n][k] == tokens[k];
    }
  }

  lemma FirstComesBack(c: Command, rest: seq<string>)
    requires if IsOperator(c.name) then c.args == []
             else NoOperator(c.args) && (rest == [] || IsOperator(rest[0]))
    ensures Commands([c.name] + c.args + rest) == [c] + Commands(rest)
  {
    var tokens := [c.name] + c.args + rest;
    var n := |c.args|;
    assert tokens[1..] == c.args + rest && tokens[1..][..n] == c.args;
    assert tokens[1..1 + n] == c.args && tokens[1 + n..] == rest;
    if !IsOperator(c.name) {
      CountToOperator(tokens[1..], n);
    }
  }

  lemma NormalTail(commands: seq<Command>)
    requires Normal(commands) && commands != []
    ensures Normal(commands[1..])
    ensures NoOperator(commands[0].args) && (IsOperator(commands[0].name) ==> commands[0].args == [])
    ensures IsOperator(commands[0].name) || |commands| == 1 || IsOperator(commands[1].name)
  {
  }

  lemma {:induction false} FlatComesBack(commands: seq<Command>)
    requires Normal(commands)
    ensures Commands(Flat(commands)) == commands
  {
    hide Normal, Commands, IsOperator, NoOperator;
    if commands == [] {
      NothingFlat();
    } else {
      NormalTail(commands);
      FlatComesBack(commands[1..]);
      if |commands| > 1 { assert Flat(commands[1..])[0] == commands[1].name; }
      FirstComesBack(commands[0], Flat(commands[1..]));
      assert commands == [commands[0]] + commands[1..];
    }
  }

  lemma NothingFlat()
    ensures Commands(Flat([])) == []
  {
  }

  /** Parsing undoes printing exactly for the command arrays that the parser can make. */
  lemma ParseUndoesPrint(commands: seq<Command>)
    ensures Parse(PrintLine(commands)) == commands <==> Normal(commands)
  {
    var line := PrintLine(commands);
    assert line[0..] == line;
    PrintedTokens(line, 0, Flat(commands));
    CommandsAreNormal(Flat(commands));
    if Normal(commands) { FlatComesBack(commands); }
  }

  /** The commands of a line are the one normal form that holds its tokens. */
  lemma OnlyNormalForm(line: string, commands: seq<Command>)
    ensures Parse(line) == commands <==> Normal(commands) && Flat(commands) == Tokens(line, 0)
  {
    CommandsAreNormal(Tokens(line, 0));
    if Normal(commands) { FlatComesBack(commands); }
  }

  /** Whatever the line, the parser's commands are in normal form, lose no token, and could have been printed. */
  lemma EveryParseIsNormal(line: string)
    ensures Normal(Parse(line)) && Flat(Parse(line)) == Tokens(line, 0)
    ensures Parse(PrintLine(Parse(line))) == Parse(line)
  {
    CommandsAreNormal(Tokens(line, 0));
    ParseUndoesPrint(Parse(line));
  }

  lemma {:induction false} PrintedIsZeroFree(tokens: seq<string>)
    requires forall k :: 0 <= k < |tokens| ==> '\0' !in tokens[k]
    ensures '\0' !in Print(tokens)
  {
    if tokens != [] {
      EscapedIsZeroFree(tokens[0]);
      PrintedIsZeroFree(tokens[1..]);
    }
  }

  lemma {:induction false} EscapedIsZeroFree(word: string)
    requires '\0' !in word
    ensures '\0' !in Escape(word)
  {
    if word != [] { EscapedIsZeroFree(word[1..]); }
  }

  // ----- the code

  method CountTokensUntilOperatorOrEnd(tokens: seq<string>, at: nat, start: nat) returns (n: nat)
    requires at <= |tokens|
    ensures n == start + CountUntilOperator(tokens[at..])
    decreases |tokens| - at
  {
    if at == |tokens| || IsOperator(tokens[at]) {
      return start;
    }
    assert tokens[at..][1..] == tokens[at + 1..];
    n := CountTokensUntilOperatorOrEnd(tokens, at + 1, start + 1);
  }

  method CopyTokens(tokens: seq<string>, at: nat, count: nat) returns (args: seq<string>, next: nat)
    requires at + count <= |tokens|
    ensures next == at + count && args == tokens[at..next]
  {
    args, next := [], at;
    for k := 0 to count
      invariant next == at + k && args == tokens[at..next]
    {
      args := args + [tokens[next]];
      next := next + 1;
    }
  }

  method ConvertTokens(tokens: seq<string>) returns (commands: seq<Command>)
    ensures commands == Commands(tokens)
  {
    hide Commands, IsOperator, CountUntilOperator;
    commands := [];
    var at := 0;
    FirstCommand(tokens, 0);
    while at < |tokens|
      invariant at <= |tokens| && commands + Commands(tokens[at..]) == Commands(tokens)
    {
      var count := 0;
      if !IsOperator(tokens[at]) {
        count := CountTokensUntilOperatorOrEnd(tokens, at + 1, 0);
      }
      var args, next := CopyTokens(tokens, at + 1, count);
      FirstCommand(tokens, at);
      Associate(commands, [Command(tokens[at], args)], Commands(tokens[next..]));
      commands := commands + [Command(tokens[at], args)];
      at := next;
    }
    FirstCommand(tokens, at);
  }

  lemma FirstCommand(tokens: seq<string>, at: nat)
    requires at <= |tokens|
    ensures at == |tokens| ==> Commands(tokens[at..]) == []
    ensures at == 0 ==> tokens[at..] == tokens
    ensures at < |tokens| ==>
              var n := if IsOperator(tokens[at]) then 0 else CountUntilOperator(tokens[at + 1..]);
              Commands(tokens[at..]) ==
                [Command(tokens[at], tokens[at + 1..at + 1 + n])] + Commands(tokens[at + 1 + n..])
  {
    if at < |tokens| {
      var rest := tokens[at..];
      assert rest[1..] == tokens[at + 1..];
      var n := if IsOperator(tokens[at]) then 0 else CountUntilOperator(tokens[at + 1..]);
      assert rest[1..1 + n] == tokens[at + 1..at + 1 + n] && rest[1 + n..] == tokens[at + 1 + n..];
    }
  }

  /** parse: a line becomes an array of commands. */
  method ParseLine(line: array<char>, ghost text: string) returns (commands: array<Command>)
    requires CString(line, text)
    ensures fresh(commands) && commands[..] == Parse(text)
  {
    var tokens := GetTokens(line, text);
    var list := ConvertTokens(tokens);
    commands := new Command[|list|](i requires 0 <= i < |list| => list[i]);
  }

  predicate ZeroFree(commands: seq<Command>) {
    forall k :: 0 <= k < |commands| ==>
      '\0' !in commands[k].name && forall j :: 0 <= j < |commands[k].args| ==> '\0' !in commands[k].args[j]
  }

  lemma {:induction false} FlatIsZeroFree(commands: seq<Command>)
    requires ZeroFree(commands)
    ensures forall k :: 0 <= k < |Flat(commands)| ==> '\0' !in Flat(commands)[k]
  {
    if commands != [] {
      FlatIsZeroFree(commands[1..]);
    }
  }

  /** The buffer holds what the printer prints: parse gives the commands back. */
  method ParsePrinted(line: array<char>, ghost commands: seq<Command>) returns (parsed: array<Command>)
    requires Normal(commands) && ZeroFree(commands)
    requires line.Length == |PrintLine(commands)| + 1 && line[..] == PrintLine(commands) + ['\0']
    ensures parsed[..] == commands
  {
    FlatIsZeroFree(commands);
    PrintedIsZeroFree(Flat(commands));
    assert line[..|PrintLine(commands)|] == line[..][..|PrintLine(commands)|];
    assert line[|PrintLine(commands)|] == line[..][|PrintLine(commands)|];
    ParseUndoesPrint(commands);
    parsed := ParseLine(line, PrintLine(commands));
  }
}
