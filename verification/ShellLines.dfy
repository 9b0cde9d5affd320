/** What a line of input is, said of the texts alone, and that the reader reads the input line by line. */
module ShellLines {
  import opened Options
  import opened ShellText

  /** Text in units: a backslash stands with the character behind it. */
  datatype Unit = Char(c: char) | Pair(c: char)

  function SpellUnit(u: Unit): (s: string)
    ensures 1 <= |s| <= 2
  {
    if u.Char? then [u.c] else ['\\', u.c]
  }

  function Spell(us: seq<Unit>): string {
    if us == [] then [] else SpellUnit(us[0]) + Spell(us[1..])
  }

  /** A lone backslash at the very end. */
  function Cut(cut: bool): string {
    if cut then ['\\'] else []
  }

  // ----- what a line is

  /** The text of a line: backslashes that stand before a newline vanish together with it. */
  function Kept(us: seq<Unit>): string {
    if us == [] then [] else (if us[0] == Pair('\n') then [] else SpellUnit(us[0])) + Kept(us[1..])
  }

  /** The quotation that is open behind a unit: a quote outside a pair opens one, or closes one of its kind. */
  function QuoteAfter(open: Option<char>, u: Unit): Option<char> {
    if u.Pair? || (u.c != '\'' && u.c != '"') then open
    else if open == Some(u.c) then None
    else if open.None? then Some(u.c) else open
  }

  function QuoteAfterAll(open: Option<char>, us: seq<Unit>): Option<char>
    decreases |us|
  {
    if us == [] then open else QuoteAfterAll(QuoteAfter(open, us[0]), us[1..])
  }

  /** The line does not end within these units: they hold no end of the input, and a newline only quoted or escaped. */
  predicate Within(open: Option<char>, us: seq<Unit>)
    decreases |us|
  {
    us == [] ||
    (&& us[0].c != END && us[0] != Char('\\') && (us[0] == Char('\n') ==> open.Some?)
     && Within(QuoteAfter(open, us[0]), us[1..]))
  }

  /** From `i` on, where the quotation `open` may be open and `text` was read before, stand the units and what ends
      them: a newline outside quotations, or the end of the input. */
  predicate Ends(input: string, i: nat, open: Option<char>, text: string, us: seq<Unit>, cut: bool, line: Line) {
    var end := i + |Spell(us) + Cut(cut)|;
    && end <= |input| && input[i..end] == Spell(us) + Cut(cut) && Within(open, us)
    && line.text == text + Kept(us) + Cut(cut)
    && if line.ended then CharAt(input, end) == END && line.next == if end < |input| then end + 1 else end
       else !cut && QuoteAfterAll(open, us).None? && end < |input| && input[end] == '\n' && line.next == end + 1
  }

  predicate IsLine(input: string, start: nat, us: seq<Unit>, cut: bool, line: Line) {
    Ends(input, start, None, [], us, cut, line)
  }

  // ----- the reader reads lines

  lemma TwoParts(input: string, i: nat, a: string, b: string)
    requires i + |a| + |b| <= |input|
    ensures input[i..i + |a| + |b|] == a + b <==> input[i..i + |a|] == a && input[i + |a|..i + |a| + |b|] == b
  {
    var x, y := input[i..i + |a|], input[i + |a|..i + |a| + |b|];
    assert input[i..i + |a| + |b|] == x + y;
    assert (x + y)[..|a|] == x && (x + y)[|a|..] == y && (a + b)[..|a|] == a && (a + b)[|a|..] == b;
  }

  lemma SpellMore(u: Unit, us: seq<Unit>, cut: bool)
    ensures Spell([u] + us) + Cut(cut) == SpellUnit(u) + (Spell(us) + Cut(cut))
  {
    assert ([u] + us)[1..] == us;
  }

  lemma SpellFirst(input: string, i: nat, us: seq<Unit>, cut: bool)
    requires us != [] && i + |Spell(us) + Cut(cut)| <= |input|
    requires input[i..i + |Spell(us) + Cut(cut)|] == Spell(us) + Cut(cut)
    ensures var n := |SpellUnit(us[0])|;
            && |Spell(us) + Cut(cut)| == n + |Spell(us[1..]) + Cut(cut)| && i + n <= |input|
            && input[i..i + n] == SpellUnit(us[0])
            && input[i + n..i + n + |Spell(us[1..]) + Cut(cut)|] == Spell(us[1..]) + Cut(cut)
  {
    hide Spell, SpellUnit, Cut;
    assert us == [us[0]] + us[1..];
    SpellMore(us[0], us[1..], cut);
    TwoParts(input, i, SpellUnit(us[0]), Spell(us[1..]) + Cut(cut));
  }

  /** What the reader does with one unit. */
  lemma ReadsUnit(input: string, i: nat, open: Option<char>, text: string, u: Unit)
    requires i + |SpellUnit(u)| <= |input| && input[i..i + |SpellUnit(u)|] == SpellUnit(u)
    requires u.c != END && u != Char('\\') && (u == Char('\n') ==> open.Some?)
    ensures ReadLine(input, i, Quoting(false, open), text) ==
            ReadLine(input, i + |SpellUnit(u)|, Quoting(false, QuoteAfter(open, u)),
                     text + if u == Pair('\n') then [] else SpellUnit(u))
  {
    var first := input[i..i + |SpellUnit(u)|];
    assert input[i] == first[0];
    if u.Pair? {
      assert input[i + 1] == first[1];
      var q, kept := Quoting(true, open), text + ['\\'];
      assert ReadLine(input, i, Quoting(false, open), text) == ReadLine(input, i + 1, q, kept);
      assert kept[..|kept| - 1] == text && kept + [u.c] == text + ['\\', u.c] && text + [] == text;
    }
  }

  /** Whatever the input, a line of it is what the reader returns. */
  lemma {:induction false} EndsIsRead(input: string, i: nat, open: Option<char>, text: string, us: seq<Unit>, cut: bool,
                                      line: Line)
    requires Ends(input, i, open, text, us, cut, line)
    ensures ReadLine(input, i, Quoting(false, open), text) == line
    decreases |us|
  {
    hide ReadLine, Spell, SpellUnit, Cut, QuoteAfter, Feed;
    if us != [] {
      SpellFirst(input, i, us, cut);
      ReadsUnit(input, i, open, text, us[0]);
      var kept := if us[0] == Pair('\n') then [] else SpellUnit(us[0]);
      Associate(text, kept, Kept(us[1..]));
      EndsIsRead(input, i + |SpellUnit(us[0])|, QuoteAfter(open, us[0]), text + kept, us[1..], cut, line);
    } else {
      LastTurn(input, i, open, text, cut, line);
    }
  }

  lemma LastTurn(input: string, i: nat, open: Option<char>, text: string, cut: bool, line: Line)
    requires Ends(input, i, open, text, [], cut, line)
    ensures ReadLine(input, i, Quoting(false, open), text) == line
  {
    assert Spell([]) + Cut(cut) == Cut(cut) && text + Kept([]) == text;
    if cut {
      assert input[i] == input[i..i + 1][0];
      assert ReadLine(input, i, Quoting(false, open), text) ==
               ReadLine(input, i + 1, Quoting(true, open), text + ['\\']);
    } else {
      assert text + [] == text;
    }
  }

  /** And whatever the input, there is a line at every place. */
  lemma {:induction false} EndsSomewhere(input: string, i: nat, open: Option<char>, text: string)
    returns (us: seq<Unit>, cut: bool)
    requires i <= |input|
    ensures Ends(input, i, open, text, us, cut, ReadLine(input, i, Quoting(false, open), text))
    decreases |input| - i
  {
    hide ReadLine;
    var c := CharAt(input, i);
    us, cut := [], c == '\\' && CharAt(input, i + 1) == END;
    if c == END || cut || (c == '\n' && open.None?) {
      EndsHere(input, i, open, text, cut);
    } else {
      var u := if c == '\\' then Pair(input[i + 1]) else Char(c);
      var kept := if u == Pair('\n') then [] else SpellUnit(u);
      ReadsUnit(input, i, open, text, u);
      var rest;
      rest, cut := EndsSomewhere(input, i + |SpellUnit(u)|, QuoteAfter(open, u), text + kept);
      us := [u] + rest;
      EndsLater(input, i, open, text, u, rest, cut, ReadLine(input, i, Quoting(false, open), text));
    }
  }

  lemma EndsHere(input: string, i: nat, open: Option<char>, text: string, cut: bool)
    requires i <= |input| && cut == (CharAt(input, i) == '\\' && CharAt(input, i + 1) == END)
    requires CharAt(input, i) == END || cut || (CharAt(input, i) == '\n' && open.None?)
    ensures Ends(input, i, open, text, [], cut, ReadLine(input, i, Quoting(false, open), text))
  {
    assert Spell([]) + Cut(cut) == Cut(cut) && text + Kept([]) == text && text + [] == text;
    if cut {
      assert ReadLine(input, i, Quoting(false, open), text) ==
               ReadLine(input, i + 1, Quoting(true, open), text + ['\\']);
    }
  }

  lemma EndsLater(input: string, i: nat, open: Option<char>, text: string, u: Unit, us: seq<Unit>, cut: bool,
                  line: Line)
    requires i + |SpellUnit(u)| <= |input| && input[i..i + |SpellUnit(u)|] == SpellUnit(u)
    requires u.c != END && u != Char('\\') && (u == Char('\n') ==> open.Some?)
    requires Ends(input, i + |SpellUnit(u)|, QuoteAfter(open, u),
                  text + if u == Pair('\n') then [] else SpellUnit(u), us, cut, line)
    ensures Ends(input, i, open, text, [u] + us, cut, line)
  {
    hide Spell, SpellUnit, Cut;
    var all := [u] + us;
    assert all[1..] == us;
    SpellMore(u, us, cut);
    TwoParts(input, i, SpellUnit(u), Spell(us) + Cut(cut));
    var kept := if u == Pair('\n') then [] else SpellUnit(u);
    assert Kept(all) == kept + Kept(us);
    Associate(text, kept, Kept(us));
  }

  /** The line at a place of the input is one thing, and the reader returns it, however it ends. */
  lemma ReadLineReadsTheLine(input: string, start: nat, line: Line)
    requires start <= |input|
    ensures ReadLine(input, start, PLAIN, []) == line <==> exists us, cut :: IsLine(input, start, us, cut, line)
  {
    hide ReadLine, Ends;
    var us, cut := EndsSomewhere(input, start, None, []);
    assert IsLine(input, start, us, cut, ReadLine(input, start, PLAIN, []));
    if us, cut :| IsLine(input, start, us, cut, line) {
      EndsIsRead(input, start, None, [], us, cut, line);
    }
  }

  // ----- the whole input

  lemma NextIsBehind(input: string, i: nat)
    requires i <= |input|
    ensures var line := ReadLine(input, i, PLAIN, []);
            i <= line.next <= |input| && (!line.ended ==> i < line.next)
  {
    hide ReadLine;
    var us, cut := EndsSomewhere(input, i, None, []);
  }

  /** The lines the shell reads: one after another, up to the one that the end of the input ends. */
  function Lines(input: string, i: nat): seq<Line>
    requires i <= |input|
    decreases |input| - i
  {
    var line := ReadLine(input, i, PLAIN, []);
    NextIsBehind(input, i);
    [line] + if line.ended then [] else Lines(input, line.next)
  }

  /** The input from `i` up to its end, which is the first byte that is taken for it. */
  function UpToEnd(input: string, i: nat): string
    requires i <= |input|
    decreases |input| - i
  {
    if CharAt(input, i) == END then [] else [input[i]] + UpToEnd(input, i + 1)
  }

  datatype Raw = Raw(units: seq<Unit>, cut: bool)

  /** The lines as they stand in the input, a newline between each two. */
  function Joined(raws: seq<Raw>): string {
    if raws == [] then []
    else Spell(raws[0].units) + Cut(raws[0].cut) + if |raws| == 1 then [] else ['\n'] + Joined(raws[1..])
  }

  lemma {:induction false} WithinHasNoEnd(open: Option<char>, us: seq<Unit>)
    requires Within(open, us)
    ensures END !in Spell(us)
    decreases |us|
  {
    if us != [] {
      WithinHasNoEnd(QuoteAfter(open, us[0]), us[1..]);
    }
  }

  lemma {:induction false} UpToEndSkips(input: string, i: nat, s: string)
    requires i + |s| <= |input| && input[i..i + |s|] == s && END !in s
    ensures UpToEnd(input, i) == s + UpToEnd(input, i + |s|)
    decreases |s|
  {
    if s != [] {
      assert input[i] == s[0] && input[i + 1..i + |s|] == s[1..];
      UpToEndSkips(input, i + 1, s[1..]);
    }
  }

  /** The lines use every character of the input exactly once: written down again, with newlines between them, they are
      the input. Only the last one is ended by the end of the input. */
  lemma {:induction false} LinesAreTheInput(input: string, i: nat) returns (raws: seq<Raw>)
    requires i <= |input|
    ensures var lines := Lines(input, i);
            && |raws| == |lines| && Joined(raws) == UpToEnd(input, i)
            && forall k :: 0 <= k < |lines| ==>
                 && lines[k].text == Kept(raws[k].units) + Cut(raws[k].cut) && Within(None, raws[k].units)
                 && (lines[k].ended <==> k == |lines| - 1)
                 && (!lines[k].ended ==> !raws[k].cut && QuoteAfterAll(None, raws[k].units).None?)
    decreases |input| - i
  {
    hide ReadLine, Spell, Kept, Within, QuoteAfterAll;
    var line := ReadLine(input, i, PLAIN, []);
    var us, cut := EndsSomewhere(input, i, None, []);
    var raw := Spell(us) + Cut(cut);
    WithinHasNoEnd(None, us);
    UpToEndSkips(input, i, raw);
    raws := [Raw(us, cut)];
    if !line.ended {
      NextIsBehind(input, i);
      var rest := LinesAreTheInput(input, line.next);
      raws := raws + rest;
      assert raws[1..] == rest;
      assert input[i + |raw|] == '\n';
    }
  }
}
