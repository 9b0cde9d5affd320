/** How tokens are written, said without the tokenizer, and that the tokenizer reads every text this way. */
module ShellPieces {
  import opened Options
  import opened ShellText
  import opened ShellLines

  datatype Piece =
    | Blank(c: char)
    | Word(units: seq<Unit>, cut: bool)                                 // outside quotes
    | Quoted(quote: char, units: seq<Unit>, cut: bool, closed: bool)
    | Op(op: string)

  // ----- what pieces look like and what they mean

  function Look(p: Piece): string {
    match p
    case Blank(c) => [c]
    case Word(units, cut) => Spell(units) + Cut(cut)
    case Quoted(quote, units, cut, closed) => [quote] + Spell(units) + Cut(cut) + if closed then [quote] else []
    case Op(op) => op
  }

  /** Outside quotes a backslash makes any character an ordinary one. */
  function Bare(us: seq<Unit>): string {
    if us == [] then [] else [us[0].c] + Bare(us[1..])
  }

  /** Inside quotes a backslash vanishes only before the quote and before another backslash. */
  function Inner(quote: char, us: seq<Unit>): string {
    if us == [] then []
    else (if us[0].Char? || us[0].c == quote || us[0].c == '\\' then [us[0].c] else ['\\', us[0].c]) +
         Inner(quote, us[1..])
  }

  /** The tokens a piece stands for. A backslash with nothing behind it stands for nothing. */
  function Meaning(p: Piece): seq<string> {
    match p
    case Blank(_) => []
    case Word(units, _) => [Bare(units)]
    case Quoted(quote, units, _, _) => [Inner(quote, units)]
    case Op(op) => [op]
  }

  function Text(ps: seq<Piece>): string {
    if ps == [] then [] else Look(ps[0]) + Text(ps[1..])
  }

  function Means(ps: seq<Piece>): seq<string> {
    if ps == [] then [] else Meaning(ps[0]) + Means(ps[1..])
  }

  // ----- which pieces can stand together

  predicate IsSpecial(c: char) {
    c == ' ' || c == '\t' || c == '\n' || c == '\'' || c == '"' || c == '>' || c == '&' || c == '|'
  }

  predicate WordUnits(us: seq<Unit>) {
    forall k :: 0 <= k < |us| && us[k].Char? ==> us[k].c != '\\' && !IsSpecial(us[k].c)
  }

  predicate QuotedUnits(quote: char, us: seq<Unit>) {
    forall k :: 0 <= k < |us| && us[k].Char? ==> us[k].c != '\\' && us[k].c != quote
  }

  predicate IsPiece(p: Piece) {
    match p
    case Blank(c) => c == ' ' || c == '\t' || c == '\n'
    case Word(units, cut) => WordUnits(units) && (units != [] || cut)
    case Quoted(quote, units, cut, closed) =>
      (quote == '\'' || quote == '"') && QuotedUnits(quote, units) && !(cut && closed)
    case Op(op) => op in {">", ">>", "&", "&&", "|", "||"}
  }

  /** Whether a piece ends where the text `rest` begins: a word before a character that is none of its own, an operator
      where it cannot be doubled, and what is left open only at the end. */
  predicate EndsBefore(p: Piece, rest: string) {
    match p
    case Blank(_) => true
    case Word(_, cut) => rest == [] || (!cut && IsSpecial(rest[0]))
    case Quoted(_, _, _, closed) => closed || rest == []
    case Op(op) => |op| == 1 && rest != [] ==> rest[0] != op[0]
  }

  predicate Fits(ps: seq<Piece>) {
    ps == [] || (IsPiece(ps[0]) && EndsBefore(ps[0], Text(ps[1..])) && Fits(ps[1..]))
  }

  /** Nothing is left open. */
  predicate Whole(ps: seq<Piece>) {
    forall k :: 0 <= k < |ps| ==> (ps[k].Word? ==> !ps[k].cut) && (ps[k].Quoted? ==> ps[k].closed)
  }

  /** The text is a way to write the tokens. */
  ghost predicate Writes(text: string, tokens: seq<string>) {
    exists ps :: Fits(ps) && Text(ps) == text && Means(ps) == tokens
  }

  // ----- the tokenizer reads one piece

  /** The tokens from `i` on when the word `word` was begun before. */
  function TokensFrom(s: string, i: nat, word: Option<string>): seq<string>
    requires i <= |s|
  {
    var r := Scan(s, i, false, word);
    r.tokens + if r.next.Some? then Tokens(s, r.next.value) else []
  }

  predicate CleanFrom(s: string, i: nat, word: Option<string>)
    requires i <= |s|
  {
    var r := Scan(s, i, false, word);
    r.clean && (r.next.Some? ==> Clean(s, r.next.value))
  }

  lemma NoWordYet(s: string, i: nat)
    requires i <= |s|
    ensures Tokens(s, i) == TokensFrom(s, i, None) && Clean(s, i) == CleanFrom(s, i, None)
  {
  }

  lemma ReadsBlank(s: string, i: nat)
    requires i < |s| && IsBlank(s[i])
    ensures Tokens(s, i) == Tokens(s, i + 1) && Clean(s, i) == Clean(s, i + 1)
  {
    assert Scan(s, i, false, None) == Scan(s, i + 1, false, None);
  }

  /** A word ends at the end of the text and before a special character, which is then read as if it stood alone. */
  lemma WordEnds(s: string, i: nat, word: string)
    requires i <= |s| && (i < |s| ==> IsSpecial(s[i]))
    ensures TokensFrom(s, i, Some(word)) == [word] + Tokens(s, i) && CleanFrom(s, i, Some(word)) == Clean(s, i)
  {
    hide Scan, Tokens, Clean, IsSpecial;
    NoWordYet(s, i);
    if i == |s| {
      EndsTheText(s, word);
    } else if IsBlank(s[i]) {
      ReadsBlank(s, i);
      EndsAtBlank(s, i, word);
    } else {
      WordInFront(s, i, word);
      Associate([word], Scan(s, i, false, None).tokens, TokensBehind(s, i));
    }
  }

  function TokensBehind(s: string, i: nat): seq<string>
    requires i <= |s|
  {
    var next := Scan(s, i, false, None).next;
    if next.Some? then Tokens(s, next.value) else []
  }

  lemma EndsTheText(s: string, word: string)
    ensures TokensFrom(s, |s|, Some(word)) == [word] + Tokens(s, |s|)
    ensures CleanFrom(s, |s|, Some(word)) && Clean(s, |s|)
  {
  }

  lemma EndsAtBlank(s: string, i: nat, word: string)
    requires i < |s| && IsBlank(s[i])
    ensures TokensFrom(s, i, Some(word)) == [word] + Tokens(s, i + 1) && CleanFrom(s, i, Some(word)) == Clean(s, i + 1)
  {
    hide Tokens, Clean;
    assert Scan(s, i, false, Some(word)) == Scanned([word], Some(i + 1), true);
  }

  lemma WordInFront(s: string, i: nat, word: string)
    requires i < |s| && IsSpecial(s[i]) && !IsBlank(s[i])
    ensures var r := Scan(s, i, false, None);
            Scan(s, i, false, Some(word)) == Scanned([word] + r.tokens, r.next, r.clean)
  {
    hide Closing, Unquote;
  }

  /** What stands at `i` when the text from `i` on is `a` and then `rest`. */
  lemma Behind(s: string, i: nat, a: string, rest: string)
    requires i <= |s| && s[i..] == a + rest
    ensures i + |a| <= |s| && s[i + |a|..] == rest && s[i..i + |a|] == a
    ensures forall k :: 0 <= k < |a| ==> s[i + k] == a[k]
    ensures if rest == [] then i + |a| == |s| else i + |a| < |s| && s[i + |a|] == rest[0]
  {
    var tail := s[i..];
    assert |tail| == |a| + |rest|;
    forall k | 0 <= k < |tail| ensures s[i + k] == tail[k] {
    }
    assert s[i + |a|..] == tail[|a|..] == rest;
    assert s[i..i + |a|] == tail[..|a|] == a;
  }

  lemma ReadsUnit(s: string, i: nat, word: Option<string>, u: Unit, rest: string)
    requires i <= |s| && s[i..] == SpellUnit(u) + rest && WordUnits([u])
    ensures i + |SpellUnit(u)| <= |s| && s[i + |SpellUnit(u)|..] == rest
    ensures Scan(s, i, false, word) ==
            Scan(s, i + |SpellUnit(u)|, false, Some((if word.Some? then word.value else []) + [u.c]))
  {
    Behind(s, i, SpellUnit(u), rest);
    assert [u][0] == u;
    if u.Pair? {
      var before := if word.Some? then word.value else [];
      assert s[i] == '\\' && s[i + 1] == u.c;
      assert Scan(s, i, false, word) == Scan(s, i + 1, true, Some(before));
    }
  }

  lemma {:induction false} ReadsUnits(s: string, i: nat, word: Option<string>, us: seq<Unit>, rest: string)
    requires i <= |s| && s[i..] == Spell(us) + rest && WordUnits(us) && (us == [] ==> word.Some?)
    ensures i + |Spell(us)| <= |s| && s[i + |Spell(us)|..] == rest
    ensures Scan(s, i, false, word) ==
            Scan(s, i + |Spell(us)|, false, Some((if word.Some? then word.value else []) + Bare(us)))
    decreases |us|
  {
    hide Scan;
    var before := if word.Some? then word.value else [];
    if us == [] {
      assert [] + rest == rest && before + [] == before;
    } else {
      Associate(SpellUnit(us[0]), Spell(us[1..]), rest);
      ReadsUnit(s, i, word, us[0], Spell(us[1..]) + rest);
      ReadsUnits(s, i + |SpellUnit(us[0])|, Some(before + [us[0].c]), us[1..], rest);
      Associate(before, [us[0].c], Bare(us[1..]));
    }
  }

  lemma ReadsWord(s: string, i: nat, us: seq<Unit>, cut: bool, rest: string)
    requires var p := Word(us, cut); i <= |s| && s[i..] == Look(p) + rest && IsPiece(p) && EndsBefore(p, rest)
    ensures var j := i + |Look(Word(us, cut))|;
            j <= |s| && s[j..] == rest && Tokens(s, i) == [Bare(us)] + Tokens(s, j) &&
            Clean(s, i) == (!cut && Clean(s, j))
  {
    hide Tokens, Clean, WordUnits, IsSpecial, Spell;
    Behind(s, i, Look(Word(us, cut)), rest);
    if cut {
      assert Spell(us) + Cut(cut) + rest == Spell(us) + ['\\'];
      ReadsCutWord(s, i, us);
    } else {
      assert Spell(us) + Cut(cut) == Spell(us);
      ReadsWholeWord(s, i, us, rest);
    }
  }

  lemma ReadsWholeWord(s: string, i: nat, us: seq<Unit>, rest: string)
    requires i <= |s| && s[i..] == Spell(us) + rest && WordUnits(us) && us != []
    requires rest == [] || IsSpecial(rest[0])
    ensures i + |Spell(us)| <= |s| && Tokens(s, i) == [Bare(us)] + Tokens(s, i + |Spell(us)|)
    ensures Clean(s, i) == Clean(s, i + |Spell(us)|)
  {
    hide Scan, Tokens, Clean, WordUnits, IsSpecial, Spell;
    NoWordYet(s, i);
    Behind(s, i, Spell(us), rest);
    ReadsUnits(s, i, None, us, rest);
    assert [] + Bare(us) == Bare(us);
    WordEnds(s, i + |Spell(us)|, Bare(us));
  }

  lemma ReadsCutWord(s: string, i: nat, us: seq<Unit>)
    requires i <= |s| && s[i..] == Spell(us) + ['\\'] && WordUnits(us)
    ensures Tokens(s, i) == [Bare(us)] + Tokens(s, |s|) && !Clean(s, i)
  {
    hide Scan, Tokens, Clean, WordUnits;
    NoWordYet(s, i);
    Behind(s, i, Spell(us), ['\\']);
    if us != [] {
      ReadsUnits(s, i, None, us, ['\\']);
      assert [] + Bare(us) == Bare(us);
      CutWord(s, Some(Bare(us)));
    } else {
      CutWord(s, None);
    }
  }

  /** A lone backslash ends the text. */
  lemma CutWord(s: string, word: Option<string>)
    requires s != [] && s[|s| - 1] == '\\'
    ensures TokensFrom(s, |s| - 1, word) == [if word.Some? then word.value else []] + Tokens(s, |s|)
    ensures !CleanFrom(s, |s| - 1, word)
  {
    var before := if word.Some? then word.value else [];
    assert Scan(s, |s| - 1, false, word) == Scan(s, |s|, true, Some(before)) == Scanned([before], None, false);
  }

  lemma {:induction false} ClosesBehind(s: string, i: nat, quote: char, us: seq<Unit>, rest: string)
    requires i <= |s| && s[i..] == Spell(us) + rest && QuotedUnits(quote, us)
    ensures i + |Spell(us)| <= |s| && s[i + |Spell(us)|..] == rest
    ensures Closing(s, i, quote, false) == Closing(s, i + |Spell(us)|, quote, false)
    decreases |us|
  {
    hide Closing;
    if us == [] {
      assert [] + rest == rest;
    } else {
      Associate(SpellUnit(us[0]), Spell(us[1..]), rest);
      PassesUnit(s, i, quote, us[0], Spell(us[1..]) + rest);
      ClosesBehind(s, i + |SpellUnit(us[0])|, quote, us[1..], rest);
    }
  }

  lemma PassesUnit(s: string, i: nat, quote: char, u: Unit, rest: string)
    requires i <= |s| && s[i..] == SpellUnit(u) + rest && QuotedUnits(quote, [u])
    ensures i + |SpellUnit(u)| <= |s| && s[i + |SpellUnit(u)|..] == rest
    ensures Closing(s, i, quote, false) == Closing(s, i + |SpellUnit(u)|, quote, false)
  {
    Behind(s, i, SpellUnit(u), rest);
    assert [u][0] == u && s[i + 0] == SpellUnit(u)[0];
    if u.Pair? {
      assert s[i + 1] == SpellUnit(u)[1] == u.c;
      assert Closing(s, i, quote, false) == Closing(s, i + 1, quote, true);
    }
  }

  lemma UnquotesUnit(u: Unit, rest: string, quote: char)
    requires QuotedUnits(quote, [u]) && IsQuote(quote)
    ensures Unquote(SpellUnit(u) + rest, quote, false) == Inner(quote, [u]) + Unquote(rest, quote, false)
  {
    var s := SpellUnit(u) + rest;
    assert [u][0] == u && Inner(quote, [u][1..]) == [];
    if u.Pair? {
      assert s[1..] == [u.c] + rest && s[1..][1..] == rest;
      assert Unquote(s, quote, false) == Unquote(s[1..], quote, true);
    } else {
      assert s[1..] == rest;
    }
  }

  lemma UnquotesCut(cut: bool, quote: char)
    ensures Unquote(Cut(cut), quote, false) == []
  {
    if cut { assert Cut(cut)[1..] == []; }
  }

  lemma {:induction false} UnquotesAs(us: seq<Unit>, cut: bool, quote: char)
    requires QuotedUnits(quote, us) && IsQuote(quote)
    ensures Unquote(Spell(us) + Cut(cut), quote, false) == Inner(quote, us)
    decreases |us|
  {
    hide Unquote, Cut, SpellUnit, Spell, Inner, QuotedUnits;
    if us == [] {
      NoUnits();
      assert [] + Cut(cut) == Cut(cut);
      UnquotesCut(cut, quote);
      assert Inner(quote, us) == [] by { NothingInside(quote); }
    } else {
      assert us == [us[0]] + us[1..];
      SpellMore(us[0], us[1..], cut);
      InsideFirst(us, quote);
      UnquotesUnit(us[0], Spell(us[1..]) + Cut(cut), quote);
      UnquotesAs(us[1..], cut, quote);
    }
  }

  lemma NothingInside(quote: char)
    ensures Inner(quote, []) == []
  {
  }

  lemma InsideFirst(us: seq<Unit>, quote: char)
    requires QuotedUnits(quote, us) && us != []
    ensures QuotedUnits(quote, [us[0]]) && QuotedUnits(quote, us[1..])
    ensures Inner(quote, us) == Inner(quote, [us[0]]) + Inner(quote, us[1..])
  {
    assert Inner(quote, [us[0]][1..]) == [];
  }

  lemma ReadsQuoted(s: string, i: nat, p: Piece, rest: string)
    requires i <= |s| && p.Quoted? && s[i..] == Look(p) + rest && IsPiece(p) && EndsBefore(p, rest)
    ensures var j := i + |Look(p)|;
            j <= |s| && s[j..] == rest && Tokens(s, i) == Meaning(p) + Tokens(s, j) &&
            Clean(s, i) == (p.closed && Clean(s, j))
  {
    hide QuotedUnits, Closing, Unquote, Inner, Spell, Cut;
    Behind(s, i, Look(p), rest);
    var inside := Spell(p.units) + Cut(p.cut);
    var j := i + 1 + |inside|;
    FindsClosing(s, i, p.quote, p.units, p.cut, p.closed, rest);
    UnquotesAs(p.units, p.cut, p.quote);
    assert Scan(s, i, false, None) == Scanned(Meaning(p), if p.closed then Some(j + 1) else None, p.closed);
    assert p.closed || (j == |s| && rest == []);
    if !p.closed { NothingThere(s, j); }
  }

  /** The quotation ends where it was closed, or with the text. */
  lemma FindsClosing(s: string, i: nat, quote: char, us: seq<Unit>, cut: bool, closed: bool, rest: string)
    requires i <= |s| && IsQuote(quote) && QuotedUnits(quote, us) && !(cut && closed) && (closed || rest == [])
    requires s[i..] == [quote] + Spell(us) + Cut(cut) + (if closed then [quote] else []) + rest
    ensures var j := i + 1 + |Spell(us) + Cut(cut)|;
            && j <= |s| && s[i] == quote && Closing(s, i + 1, quote, false) == j
            && s[i + 1..j] == Spell(us) + Cut(cut) && (j < |s| <==> closed)
  {
    hide QuotedUnits, Closing, Spell, Cut, IsQuote;
    var end := (if closed then [quote] else []) + rest;
    Parts([quote], Spell(us), Cut(cut), if closed then [quote] else [], rest);
    Unfolds(s, i, quote, Spell(us) + Cut(cut), end);
    Associate(Spell(us), Cut(cut), end);
    ClosesAt(s, i + 1, quote, us, cut, closed, rest);
  }

  lemma Unfolds(s: string, i: nat, c: char, inside: string, end: string)
    requires i <= |s| && s[i..] == [c] + (inside + end)
    ensures i + 1 + |inside| <= |s| && s[i] == c && s[i + 1..] == inside + end
    ensures s[i + 1..i + 1 + |inside|] == inside
  {
    Behind(s, i, [c], inside + end);
    assert s[i + 0] == c;
    Behind(s, i + 1, inside, end);
  }

  lemma ClosesAt(s: string, i: nat, quote: char, us: seq<Unit>, cut: bool, closed: bool, rest: string)
    requires i <= |s| && IsQuote(quote) && QuotedUnits(quote, us) && !(cut && closed) && (closed || rest == [])
    requires s[i..] == Spell(us) + (Cut(cut) + ((if closed then [quote] else []) + rest))
    ensures var j := Closing(s, i, quote, false);
            j == i + |Spell(us) + Cut(cut)| && (j < |s| <==> closed)
  {
    hide QuotedUnits, Closing, Spell, Cut;
    ClosesBehind(s, i, quote, us, Cut(cut) + ((if closed then [quote] else []) + rest));
    ClosesHere(s, i + |Spell(us)|, quote, cut, closed, rest);
  }

  lemma Parts(a: string, b: string, c: string, d: string, e: string)
    ensures a + b + c + d + e == a + ((b + c) + (d + e))
  {
  }

  lemma ClosesHere(s: string, j: nat, quote: char, cut: bool, closed: bool, rest: string)
    requires j <= |s| && IsQuote(quote) && !(cut && closed) && (closed || rest == [])
    requires s[j..] == Cut(cut) + ((if closed then [quote] else []) + rest)
    ensures Closing(s, j, quote, false) == j + |Cut(cut)| <= |s|
    ensures j + |Cut(cut)| < |s| <==> closed
  {
    if j < |s| { assert s[j] == s[j..][0]; }
  }

  lemma ReadsOp(s: string, i: nat, op: string, rest: string)
    requires i <= |s| && s[i..] == op + rest && IsPiece(Op(op)) && EndsBefore(Op(op), rest)
    ensures var j := i + |op|;
            j <= |s| && s[j..] == rest && Tokens(s, i) == [op] + Tokens(s, j) && Clean(s, i) == Clean(s, j)
  {
    Behind(s, i, op, rest);
    assert s[i] == s[i + 0] == op[0];
    assert |op| == 2 ==> s[i + 1] == op[1];
    var r := Scan(s, i, false, None);
    assert r == Scanned([op], Some(i + |op|), true);
  }

  /** Whatever is written from pieces that fit together, the tokenizer reads as their tokens, and cleanly exactly when
      nothing was left open. */
  lemma {:induction false} PiecesAreRead(s: string, i: nat, ps: seq<Piece>)
    requires i <= |s| && s[i..] == Text(ps) && Fits(ps)
    ensures Tokens(s, i) == Means(ps) && (Clean(s, i) <==> Whole(ps))
    decreases |ps|
  {
    hide Tokens, Clean, Look, IsPiece, EndsBefore, Whole, Meaning;
    if ps == [] {
      NothingThere(s, i);
      assert Whole([]) by { NothingOpen(); }
    } else {
      ReadsPiece(s, i, ps[0], Text(ps[1..]));
      PiecesAreRead(s, i + |Look(ps[0])|, ps[1..]);
      WholeFirst(ps);
    }
  }

  lemma NothingOpen()
    ensures Whole([])
  {
  }

  /** The tokenizer reads a piece and goes on behind it. */
  lemma ReadsPiece(s: string, i: nat, p: Piece, rest: string)
    requires i <= |s| && s[i..] == Look(p) + rest && IsPiece(p) && EndsBefore(p, rest)
    ensures var j := i + |Look(p)|;
            j <= |s| && s[j..] == rest && Tokens(s, i) == Meaning(p) + Tokens(s, j) &&
            Clean(s, i) == (Whole([p]) && Clean(s, j))
  {
    hide Tokens, Clean, Look, IsPiece, EndsBefore;
    assert [p][0] == p;
    match p {
      case Blank(c) => ReadsBlankPiece(s, i, c, rest);
      case Word(us, cut) => ReadsWord(s, i, us, cut, rest);
      case Quoted(_, _, _, _) => ReadsQuoted(s, i, p, rest);
      case Op(op) => ReadsOpPiece(s, i, op, rest);
    }
  }

  lemma NothingThere(s: string, i: nat)
    requires i <= |s| && s[i..] == []
    ensures Tokens(s, i) == [] && Clean(s, i)
  {
  }

  lemma WholeFirst(ps: seq<Piece>)
    requires ps != []
    ensures Whole(ps) <==> Whole([ps[0]]) && Whole(ps[1..])
  {
    assert [ps[0]][0] == ps[0];
    forall k | 1 <= k < |ps| ensures ps[k] == ps[1..][k - 1] {
    }
  }

  lemma ReadsBlankPiece(s: string, i: nat, c: char, rest: string)
    requires i <= |s| && s[i..] == Look(Blank(c)) + rest && IsPiece(Blank(c))
    ensures var j := i + |Look(Blank(c))|;
            j <= |s| && s[j..] == rest && Tokens(s, i) == [] + Tokens(s, j) && Clean(s, i) == Clean(s, j)
  {
    Behind(s, i, [c], rest);
    assert s[i + 0] == c;
    ReadsBlank(s, i);
  }

  lemma ReadsOpPiece(s: string, i: nat, op: string, rest: string)
    requires i <= |s| && s[i..] == Look(Op(op)) + rest && IsPiece(Op(op)) && EndsBefore(Op(op), rest)
    ensures var j := i + |Look(Op(op))|;
            j <= |s| && s[j..] == rest && Tokens(s, i) == [op] + Tokens(s, j) && Clean(s, i) == Clean(s, j)
  {
    ReadsOp(s, i, op, rest);
  }

  // ----- every text is written from pieces

  /** The longest word from `i` on. */
  lemma {:induction false} WordAt(s: string, i: nat) returns (us: seq<Unit>, cut: bool, j: nat)
    requires i <= |s|
    ensures i <= j <= |s| && WordUnits(us) && (j == |s| || (!cut && IsSpecial(s[j])))
    ensures s[i..] == Spell(us) + Cut(cut) + s[j..]
    ensures i < |s| && !IsSpecial(s[i]) ==> us != [] || cut
    decreases |s| - i
  {
    hide IsSpecial, WordUnits, Spell;
    us, cut := [], i == |s| - 1 && s[i] == '\\';
    NoUnits();
    if i == |s| || cut || IsSpecial(s[i]) {
      j := if cut then i + 1 else i;
      BackslashIsOrdinary();
      assert s[i..] == (if cut then [s[i]] else []) + s[j..];
    } else {
      var u := if s[i] == '\\' then Pair(s[i + 1]) else Char(s[i]);
      var rest;
      rest, cut, j := WordAt(s, i + |SpellUnit(u)|);
      us := [u] + rest;
      SpellMore(u, rest, cut);
      assert s[i..] == SpellUnit(u) + s[i + |SpellUnit(u)|..];
      Associate(SpellUnit(u), Spell(rest) + Cut(cut), s[j..]);
      MoreUnits(u, rest);
    }
  }

  lemma BackslashIsOrdinary()
    ensures !IsSpecial('\\')
  {
  }

  lemma NoUnits()
    ensures WordUnits([]) && Spell([]) == []
  {
  }

  lemma MoreUnits(u: Unit, us: seq<Unit>)
    requires WordUnits(us) && (u.Char? ==> u.c != '\\' && !IsSpecial(u.c))
    ensures WordUnits([u] + us)
  {
  }

  /** The inside of a quotation from `i` on, and whether it is closed. */
  lemma {:induction false} InsideAt(s: string, i: nat, quote: char)
    returns (us: seq<Unit>, cut: bool, closed: bool, j: nat)
    requires i <= |s| && quote != '\\'
    ensures i <= j <= |s| && QuotedUnits(quote, us) && !(cut && closed) && (closed || j == |s|)
    ensures s[i..] == Spell(us) + Cut(cut) + ((if closed then [quote] else []) + s[j..])
    decreases |s| - i
  {
    hide QuotedUnits, Spell;
    us, cut, closed := [], i == |s| - 1 && s[i] == '\\', i < |s| && s[i] == quote;
    NoInside(quote);
    if i == |s| || cut || closed {
      j := if i < |s| then i + 1 else i;
      assert s[i..] == (if i < |s| then [s[i]] else []) + s[j..];
    } else {
      var u := if s[i] == '\\' then Pair(s[i + 1]) else Char(s[i]);
      var rest;
      rest, cut, closed, j := InsideAt(s, i + |SpellUnit(u)|, quote);
      us := [u] + rest;
      SpellMore(u, rest, cut);
      assert s[i..] == SpellUnit(u) + s[i + |SpellUnit(u)|..];
      Associate(SpellUnit(u), Spell(rest) + Cut(cut), (if closed then [quote] else []) + s[j..]);
      MoreInside(quote, u, rest);
    }
  }

  lemma NoInside(quote: char)
    ensures QuotedUnits(quote, []) && Spell([]) == []
  {
  }

  lemma MoreInside(quote: char, u: Unit, us: seq<Unit>)
    requires QuotedUnits(quote, us) && (u.Char? ==> u.c != '\\' && u.c != quote)
    ensures QuotedUnits(quote, [u] + us)
  {
  }

  /** The piece that stands at `i`, and where the next one does. */
  lemma PieceAt(s: string, i: nat) returns (p: Piece, j: nat)
    requires i < |s|
    ensures i < j <= |s| && IsPiece(p) && s[i..] == Look(p) + s[j..] && EndsBefore(p, s[j..])
  {
    hide IsPiece, EndsBefore, Look;
    if IsBlank(s[i]) {
      p, j := Blank(s[i]), i + 1;
      BlankAt(s, i);
    } else if IsOperatorChar(s[i]) {
      p, j := OpAt(s, i);
    } else if IsQuote(s[i]) {
      p, j := QuotedAt(s, i);
    } else {
      var us, cut;
      us, cut, j := WordAt(s, i);
      p := Word(us, cut);
      WordFits(s, i, us, cut, j);
    }
  }

  lemma BlankAt(s: string, i: nat)
    requires i < |s| && IsBlank(s[i])
    ensures var p := Blank(s[i]); IsPiece(p) && s[i..] == Look(p) + s[i + 1..] && EndsBefore(p, s[i + 1..])
  {
  }

  lemma OpAt(s: string, i: nat) returns (p: Piece, j: nat)
    requires i < |s| && IsOperatorChar(s[i])
    ensures i < j <= |s| && IsPiece(p) && s[i..] == Look(p) + s[j..] && EndsBefore(p, s[j..])
  {
    j := if i + 1 < |s| && s[i + 1] == s[i] then i + 2 else i + 1;
    p := Op(s[i..j]);
    assert s[i..j] == if j == i + 2 then [s[i], s[i]] else [s[i]];
    assert (s[i] == '>' ==> p.op == ">" || p.op == ">>") && (s[i] == '&' ==> p.op == "&" || p.op == "&&");
    assert s[i] == '|' ==> p.op == "|" || p.op == "||";
  }

  lemma QuotedAt(s: string, i: nat) returns (p: Piece, j: nat)
    requires i < |s| && IsQuote(s[i])
    ensures i < j <= |s| && IsPiece(p) && s[i..] == Look(p) + s[j..] && EndsBefore(p, s[j..])
  {
    hide QuotedUnits, Spell, Cut;
    var us, cut, closed;
    us, cut, closed, j := InsideAt(s, i + 1, s[i]);
    p := Quoted(s[i], us, cut, closed);
    assert s[i..] == [s[i]] + s[i + 1..];
    Parts([s[i]], Spell(us), Cut(cut), if closed then [s[i]] else [], s[j..]);
  }

  lemma WordFits(s: string, i: nat, us: seq<Unit>, cut: bool, j: nat)
    requires i <= j <= |s| && i < |s| && WordUnits(us) && (us != [] || cut) && (j == |s| || (!cut && IsSpecial(s[j])))
    requires s[i..] == Spell(us) + Cut(cut) + s[j..]
    ensures var p := Word(us, cut); i < j && IsPiece(p) && s[i..] == Look(p) + s[j..] && EndsBefore(p, s[j..])
  {
    if us != [] { SpellMore(us[0], us[1..], cut); assert us == [us[0]] + us[1..]; }
  }

  lemma {:induction false} PiecesOf(s: string, i: nat) returns (ps: seq<Piece>)
    requires i <= |s|
    ensures Fits(ps) && Text(ps) == s[i..]
    decreases |s| - i
  {
    hide Look, IsPiece, EndsBefore;
    if i == |s| {
      ps := [];
    } else {
      var p, j := PieceAt(s, i);
      var rest := PiecesOf(s, j);
      ps := [p] + rest;
      assert ps[1..] == rest;
    }
  }

  /** The tokens of a text, however it is written: those that it is a way to write, and no others. */
  lemma TokensAreWhatIsWritten(text: string, tokens: seq<string>)
    ensures Tokens(text, 0) == tokens <==> Writes(text, tokens)
  {
    hide Tokens, Text, Fits, Means;
    assert text[0..] == text;
    var some := PiecesOf(text, 0);
    PiecesAreRead(text, 0, some);
    if ps :| Fits(ps) && Text(ps) == text && Means(ps) == tokens {
      PiecesAreRead(text, 0, ps);
    }
  }
}
