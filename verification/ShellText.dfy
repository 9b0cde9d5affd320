/**
  How the shell reads text. The line reader and the tokenizer each keep track of quotes and backslashes in their own
  way; here both are functions, and they agree.
 */
module ShellText {
  import opened Options

  predicate IsQuote(c: char) {
    c == '\'' || c == '"'
  }

  predicate IsBlank(c: char) {
    c == '\t' || c == ' ' || c == '\n'
  }

  predicate IsOperatorChar(c: char) {
    c == '>' || c == '&' || c == '|'
  }

  lemma Associate<T>(a: seq<T>, b: seq<T>, c: seq<T>)
    ensures (a + b) + c == a + (b + c)
  {
  }

  // ----- quoting, as one automaton

  datatype Quoting = Quoting(escaping: bool, quote: Option<char>)

  const PLAIN := Quoting(false, None)

  function Feed(q: Quoting, c: char): Quoting {
    if c == '\\' then q.(escaping := !q.escaping)
    else if IsQuote(c) && !q.escaping then
      Quoting(false, if q.quote == Some(c) then None else if q.quote.None? then Some(c) else q.quote)
    else q.(escaping := false)
  }

  function FeedAll(q: Quoting, text: string): Quoting {
    if text == [] then q else Feed(FeedAll(q, text[..|text| - 1]), text[|text| - 1])
  }

  lemma {:induction false} FeedFirst(q: Quoting, text: string)
    requires text != []
    ensures FeedAll(q, text) == FeedAll(Feed(q, text[0]), text[1..])
  {
    if |text| > 1 {
      FeedFirst(q, text[..|text| - 1]);
      assert text[1..][..|text| - 2] == text[..|text| - 1][1..];
    } else {
      assert FeedAll(q, text[..0]) == q;
    }
  }

  lemma {:induction false} FeedJoin(q: Quoting, a: string, b: string)
    ensures FeedAll(q, a + b) == FeedAll(FeedAll(q, a), b)
  {
    if b == [] {
      assert a + b == a;
    } else {
      FeedJoin(q, a, b[..|b| - 1]);
      assert (a + b)[..|a + b| - 1] == a + b[..|b| - 1];
    }
  }

  // ----- the line reader

  /** getchar at the end of the input; the byte 0xFF is taken for it. */
  const END := '\U{FF}'

  datatype Line = Line(text: string, ended: bool, next: nat)   // `ended`: by the end of the input, not by a newline

  function CharAt(input: string, i: nat): char {
    if i < |input| then input[i] else END
  }

  /** read_stdin_line from position `i`, with the text read so far. */
  function ReadLine(input: string, i: nat, q: Quoting, text: string): Line
    requires q.escaping ==> text != []
    decreases |input| - i
  {
    var c := CharAt(input, i);
    if c == '\n' && q == PLAIN then Line(text, false, i + 1)
    else if c == END then Line(text, true, if i < |input| then i + 1 else i)
    else if c == '\n' && q.escaping then ReadLine(input, i + 1, q.(escaping := false), text[..|text| - 1])
    else ReadLine(input, i + 1, Feed(q, c), text + [c])
  }

  lemma EscapingMeansBackslash(text: string)
    requires FeedAll(PLAIN, text).escaping
    ensures text != [] && text[|text| - 1] == '\\'
    ensures FeedAll(PLAIN, text[..|text| - 1]) == FeedAll(PLAIN, text).(escaping := false)
  {
  }

  lemma SplicedLine(q: Quoting, text: string)
    requires q == FeedAll(PLAIN, text) && q.escaping
    ensures text != [] && q.(escaping := false) == FeedAll(PLAIN, text[..|text| - 1])
  {
    hide Feed, FeedAll;
    EscapingMeansBackslash(text);
  }

  lemma KeptCharacter(q: Quoting, text: string, c: char)
    requires q == FeedAll(PLAIN, text)
    ensures Feed(q, c) == FeedAll(PLAIN, text + [c])
  {
    hide Feed;
    assert (text + [c])[..|text|] == text;
  }

  lemma EscapingHasText(q: Quoting, text: string)
    requires q == FeedAll(PLAIN, text)
    ensures q.escaping ==> text != []
  {
    hide Feed, FeedAll;
    if q.escaping { EscapingMeansBackslash(text); }
  }

  /** What one turn of the reader does: it ends, drops a backslash with its newline, or keeps the character. */
  lemma OneTurn(input: string, i: nat, q: Quoting, text: string)
    requires q.escaping ==> text != []
    requires Feed(q, CharAt(input, i)).escaping ==> text + [CharAt(input, i)] != []
    ensures var c, line := CharAt(input, i), ReadLine(input, i, q, text);
            if c == '\n' && q == PLAIN then line.text == text
            else if c == END then line.ended
            else if c == '\n' && q.escaping then
              i < |input| && line == ReadLine(input, i + 1, q.(escaping := false), text[..|text| - 1])
            else i < |input| && line == ReadLine(input, i + 1, Feed(q, c), text + [c])
  {
    hide Feed, FeedAll;
  }

  /** The reader's flags are those of the automaton on the text it keeps, spliced lines and all. */
  lemma {:induction false} ReaderFollowsAutomaton(input: string, i: nat, q: Quoting, text: string)
    requires q == FeedAll(PLAIN, text)
    ensures q.escaping ==> text != []
    ensures var line := ReadLine(input, i, q, text); !line.ended ==> FeedAll(PLAIN, line.text) == PLAIN
    decreases |input| - i
  {
    hide Feed, FeedAll, ReadLine;
    EscapingHasText(q, text);
    OneTurn(input, i, q, text);
    var c := CharAt(input, i);
    if (c == '\n' && q == PLAIN) || c == END {
    } else if c == '\n' && q.escaping {
      SplicedLine(q, text);
      ReaderFollowsAutomaton(input, i + 1, q.(escaping := false), text[..|text| - 1]);
    } else {
      KeptCharacter(q, text, c);
      ReaderFollowsAutomaton(input, i + 1, Feed(q, c), text + [c]);
    }
  }

  // ----- the tokenizer

  /** Where the quotation ends: at the closing quote, or at the end of the text. */
  function Closing(s: string, i: nat, quote: char, escaped: bool): (j: nat)
    requires i <= |s|
    ensures i <= j <= |s|
    decreases |s| - i
  {
    if i == |s| then i
    else if s[i] == '\\' then Closing(s, i + 1, quote, !escaped)
    else if !escaped && s[i] == quote then i
    else Closing(s, i + 1, quote, false)
  }

  /** What a character adds to the token, when a backslash may stand before it. */
  function Unescape(c: char, quote: char): string {
    if c == '\\' then ['\\'] else if IsQuote(c) && c == quote then [c] else ['\\', c]
  }

  /** The inside of a quotation as a token. */
  function Unquote(s: string, quote: char, escaped: bool): string {
    if s == [] then []
    else if s[0] == '\\' && !escaped then Unquote(s[1..], quote, true)
    else (if escaped then Unescape(s[0], quote) else [s[0]]) + Unquote(s[1..], quote, false)
  }

  datatype Scanned = Scanned(tokens: seq<string>, next: Option<nat>, clean: bool)

  function Pending(word: Option<string>): seq<string> {
    if word.Some? then [word.value] else []
  }

  /** get_one_token from position `i`: an unquoted word, then possibly the quotation or operator that ended it.
      `clean` tells that a quotation was closed and that no backslash was left without a character to escape. */
  function Scan(s: string, i: nat, escaped: bool, word: Option<string>): (r: Scanned)
    requires i <= |s|
    requires escaped ==> word.Some?
    ensures r.next.Some? ==> i < r.next.value <= |s|
    decreases |s| - i
  {
    if i == |s| then Scanned(Pending(word), None, !escaped)
    else if !escaped && IsBlank(s[i]) then
      if word.Some? then Scanned([word.value], Some(i + 1), true) else Scan(s, i + 1, false, None)
    else if !escaped && IsQuote(s[i]) then
      var j := Closing(s, i + 1, s[i], false);
      Scanned(Pending(word) + [Unquote(s[i + 1..j], s[i], false)], if j == |s| then None else Some(j + 1), j < |s|)
    else if !escaped && IsOperatorChar(s[i]) then
      var size := if i + 1 < |s| && s[i + 1] == s[i] then 2 else 1;
      Scanned(Pending(word) + [s[i..i + size]], Some(i + size), true)
    else
      var before := if word.Some? then word.value else [];
      if s[i] == '\\' && !escaped then Scan(s, i + 1, true, Some(before))
      else Scan(s, i + 1, false, Some(before + [s[i]]))
  }

  function Tokens(s: string, i: nat): seq<string>
    requires i <= |s|
    decreases |s| - i
  {
    var r := Scan(s, i, false, None);
    r.tokens + if r.next.Some? then Tokens(s, r.next.value) else []
  }

  /** No quotation of the line is left open and no backslash is left alone. */
  predicate Clean(s: string, i: nat)
    requires i <= |s|
    decreases |s| - i
  {
    var r := Scan(s, i, false, None);
    r.clean && (r.next.Some? ==> Clean(s, r.next.value))
  }

  // ----- they agree

  lemma FeedSlice(q: Quoting, s: string, i: nat, j: nat)
    requires i < j <= |s|
    ensures FeedAll(q, s[i..j]) == FeedAll(Feed(q, s[i]), s[i + 1..j])
  {
    assert s[i..j][1..] == s[i + 1..j];
    FeedFirst(q, s[i..j]);
  }

  lemma FeedNothing(q: Quoting, s: string, i: nat)
    requires i <= |s|
    ensures FeedAll(q, s[i..i]) == q
  {
    assert s[i..i] == [];
  }

  lemma {:induction false} ClosingAgrees(s: string, i: nat, quote: char, escaped: bool)
    requires i <= |s| && IsQuote(quote)
    ensures var j := Closing(s, i, quote, escaped);
            if j < |s| then FeedAll(Quoting(escaped, Some(quote)), s[i..j + 1]) == PLAIN
            else FeedAll(Quoting(escaped, Some(quote)), s[i..|s|]).quote == Some(quote)
    decreases |s| - i
  {
    hide FeedAll;
    var q := Quoting(escaped, Some(quote));
    var j := Closing(s, i, quote, escaped);
    var end := if j < |s| then j + 1 else |s|;
    FeedNothing(q, s, |s|);
    if i < |s| {
      FeedSlice(q, s, i, end);
      if s[i] == '\\' {
        ClosingAgrees(s, i + 1, quote, !escaped);
      } else if !escaped && s[i] == quote {
        FeedNothing(PLAIN, s, end);
      } else {
        ClosingAgrees(s, i + 1, quote, false);
      }
    }
  }

  lemma {:induction false} ScanAgrees(s: string, i: nat, escaped: bool, word: Option<string>)
    requires i <= |s| && (escaped ==> word.Some?)
    ensures var r := Scan(s, i, escaped, word);
            if r.next.Some? then r.clean && FeedAll(Quoting(escaped, None), s[i..r.next.value]) == PLAIN
            else r.clean <==> FeedAll(Quoting(escaped, None), s[i..|s|]) == PLAIN
    decreases |s| - i
  {
    hide FeedAll, Closing, Unquote;
    var q := Quoting(escaped, None);
    var r := Scan(s, i, escaped, word);
    var end := if r.next.Some? then r.next.value else |s|;
    FeedNothing(q, s, |s|);
    if i < |s| {
      FeedSlice(q, s, i, end);
      FeedNothing(PLAIN, s, end);
      if !escaped && IsBlank(s[i]) {
        if word.None? { ScanAgrees(s, i + 1, false, None); }
      } else if !escaped && IsQuote(s[i]) {
        ClosingAgrees(s, i + 1, s[i], false);
      } else if !escaped && IsOperatorChar(s[i]) {
        if end == i + 2 { FeedSlice(PLAIN, s, i + 1, end); }
      } else {
        var before := if word.Some? then word.value else [];
        if s[i] == '\\' && !escaped {
          ScanAgrees(s, i + 1, true, Some(before));
        } else {
          ScanAgrees(s, i + 1, false, Some(before + [s[i]]));
        }
      }
    }
  }

  /** The tokenizer's run over a line is clean exactly when the automaton ends it outside quotes and escapes. */
  lemma {:induction false} CleanMeansPlain(s: string, i: nat)
    requires i <= |s|
    ensures Clean(s, i) <==> FeedAll(PLAIN, s[i..]) == PLAIN
    decreases |s| - i
  {
    var r := Scan(s, i, false, None);
    ScanAgrees(s, i, false, None);
    assert s[i..|s|] == s[i..];
    if r.next.Some? {
      CleanMeansPlain(s, r.next.value);
      assert s[i..] == s[i..r.next.value] + s[r.next.value..];
      FeedJoin(PLAIN, s[i..r.next.value], s[r.next.value..]);
    }
  }

  /** A line that the reader ended at a newline never surprises the tokenizer. */
  lemma LinesAreClean(input: string, i: nat)
    ensures var line := ReadLine(input, i, PLAIN, []); !line.ended ==> Clean(line.text, 0)
  {
    assert FeedAll(PLAIN, []) == PLAIN;
    ReaderFollowsAutomaton(input, i, PLAIN, []);
    var text := ReadLine(input, i, PLAIN, []).text;
    CleanMeansPlain(text, 0);
    assert text[0..] == text;
  }
}
