/** The line reader and the tokenizer as the shell runs them: flags, indices and character buffers. */
module ShellTokenizer {
  import opened Options
  import opened ShellText

  /** A C string: the text and the zero that ends it. */
  ghost predicate CString(a: array<char>, text: string)
    reads a
  {
    a.Length == |text| + 1 && a[..|text|] == text && a[|text|] == '\0' && '\0' !in text
  }

  lemma CharOf(a: array<char>, text: string, i: nat)
    requires CString(a, text) && i <= |text|
    ensures i < |text| ==> a[i] == text[i] && text[i] != '\0'
    ensures a[i] == '\0' <==> i == |text|
  {
    if i < |text| {
      assert a[..|text|][i] == text[i];
      assert text[i] in text;
    }
  }

  // ----- C strings

  /** What is left of a string that is cut at its first zero. */
  function UntilZero(s: string): string {
    if s == [] || s[0] == '\0' then [] else [s[0]] + UntilZero(s[1..])
  }

  lemma {:induction false} NoZero(s: string)
    requires forall i :: 0 <= i < |s| ==> s[i] != '\0'
    ensures UntilZero(s) == s
  {
    if s != [] { NoZero(s[1..]); }
  }

  method Substring(string_: array<char>, start: nat, count: nat) returns (answer: string)
    requires start + count <= string_.Length
    ensures answer == UntilZero(string_[start..start + count])
  {
    var buffer := new char[count + 1];
    for i := 0 to count
      invariant UntilZero(string_[start..start + count]) == buffer[..i] + UntilZero(string_[start + i..start + count])
    {
      ghost var before := buffer[..i];
      buffer[i] := string_[start + i];
      if string_[start + i] == '\0' {
        return buffer[..i];
      }
      assert string_[start + i..start + count][1..] == string_[start + (i + 1)..start + count];
      Associate(before, [string_[start + i]], UntilZero(string_[start + (i + 1)..start + count]));
      assert buffer[..i + 1] == before + [string_[start + i]];
    }
    assert string_[start + count..start + count] == [];
    answer := buffer[..count];
  }

  /** Only what stands up to a zero shows in a C string. */
  lemma {:induction false} CutAtZero(s: string, k: nat)
    requires k < |s| && s[k] == '\0'
    ensures UntilZero(s) == UntilZero(s[..k + 1])
  {
    if s[0] != '\0' {
      CutAtZero(s[1..], k - 1);
      assert s[..k + 1][1..] == s[1..][..k];
    }
  }

  function FirstZero(s: string): (n: nat)
    requires s != [] && s[|s| - 1] == '\0'
    ensures n < |s| && s[n] == '\0' && forall i :: 0 <= i < n ==> s[i] != '\0'
  {
    if s[0] == '\0' then 0 else 1 + FirstZero(s[1..])
  }

  /** strcpy into a larger buffer. */
  method CopyString(to: array<char>, from: array<char>, ghost n: nat)
    requires n < from.Length <= to.Length && to != from && from[n] == '\0'
    requires forall i :: 0 <= i < n ==> from[i] != '\0'
    modifies to
    ensures to[..n + 1] == from[..n + 1]
  {
    var k := 0;
    while from[k] != '\0'
      invariant k <= n && to[..k] == from[..k]
      decreases n - k
    {
      to[k] := from[k];
      k := k + 1;
    }
    to[k] := '\0';
  }

  // ----- read_stdin_line

  /** The buffer holds the text up to `same`; what differs stands behind a zero. */
  ghost predicate Holds(str: seq<char>, text: string, same: nat) {
    && |str| == |text| && same <= |text| && str[..same] == text[..same]
    && (same < |text| ==> same > 0 && text[same - 1] == '\0')
  }

  lemma HoldsAsString(str: seq<char>, text: string, same: nat)
    requires Holds(str, text, same)
    ensures UntilZero(str) == UntilZero(text)
  {
    if same < |text| {
      assert str[same - 1] == str[..same][same - 1] == text[..same][same - 1];
      CutAtZero(str, same - 1);
      CutAtZero(text, same - 1);
    } else {
      assert str == str[..same] && text == text[..same];
    }
  }

  /** A larger buffer; strcpy brings over what stands up to the first zero. */
  method Enlarge(str: array<char>, ptr: nat, ghost text: string, ghost same: nat)
      returns (larger: array<char>, ghost same': nat)
    requires str.Length == ptr + 1 && 1 <= ptr && str[ptr] == '\0' && Holds(str[..ptr], text, same)
    ensures fresh(larger) && larger.Length == ptr * 10 + 1 && Holds(larger[..ptr], text, same')
  {
    hide Holds;
    larger := new char[ptr * 10 + 1];
    ghost var n := FirstZero(str[..]);
    CopyString(larger, str, n);
    same' := if n < same then n + 1 else same;
    assert larger[..][..n + 1] == larger[..n + 1] && str[..][..n + 1] == str[..n + 1];
    assert larger[..][..ptr] == larger[..ptr] && str[..][..ptr] == str[..ptr];
    Copied(larger[..], str[..], ptr, text, same, n);
  }

  lemma Copied(larger: seq<char>, str: seq<char>, ptr: nat, text: string, same: nat, n: nat)
    requires ptr + 1 == |str| <= |larger| && Holds(str[..ptr], text, same)
    requires n < |str| && str[n] == '\0' && forall i :: 0 <= i < n ==> str[i] != '\0'
    requires larger[..n + 1] == str[..n + 1]
    ensures Holds(larger[..ptr], text, if n < same then n + 1 else same)
  {
    if same < ptr {
      assert str[same - 1] == str[..ptr][..same][same - 1] == text[..same][same - 1];
    }
    forall k | 0 <= k < same && k <= n ensures larger[k] == str[k] == text[k] {
      assert larger[k] == larger[..n + 1][k] == str[..n + 1][k];
      assert str[k] == str[..ptr][..same][k] == text[..same][k];
    }
  }

  /** One more character, and the zero behind it. */
  method PutChar(str: array<char>, ptr: nat, c: char)
    requires ptr + 1 < str.Length
    modifies str
    ensures str[..ptr + 1] == old(str[..ptr]) + [c] && str[ptr + 1] == '\0'
  {
    str[ptr] := c;
    str[ptr + 1] := '\0';
  }

  method ReadStdinLine(input: string, start: nat) returns (line: string, ended: bool, next: nat)
    ensures var expected := ReadLine(input, start, PLAIN, []);
            line == UntilZero(expected.text) && ended == expected.ended && next == expected.next
  {
    hide Holds, UntilZero;
    var escaping, quote := false, None;
    var size: nat, ptr: nat := 1, 0;
    var str := new char[size + 1];
    str[ptr] := '\0';
    ghost var text: string, same: nat := [], 0;
    Started(str[..0]);
    next := start;
    ended := false;
    var c := CharAt(input, next);
    while c != '\n' || escaping || quote != None
      invariant fresh(str) && str.Length == size + 1 && ptr <= size && 1 <= size && !ended
      invariant str[ptr] == '\0' && |text| == ptr && Holds(str[..ptr], text, same)
      invariant c == CharAt(input, next) && (escaping ==> ptr > 0)
      invariant ReadLine(input, start, PLAIN, []) == ReadLine(input, next, Quoting(escaping, quote), text)
      decreases |input| - next, if c == END then 0 else 1
    {
      if c == END {
        ended := true;
        break;
      }
      if ptr == size {
        str, same := Enlarge(str, ptr, text, same);
        size := size * 10;
      }
      if c == '\n' && escaping {
        Shorter(str[..ptr], text, same);
        ptr := ptr - 1;
        assert str[..ptr] == str[..ptr + 1][..ptr];
        str[ptr] := '\0';
        text, same := text[..ptr], if same > ptr then ptr else same;
        escaping := false;
      } else {
        Longer(str[..ptr], text, same, c);
        text, same := text + [c], if same == ptr then ptr + 1 else same;
        if c == '\\' {
          escaping := !escaping;
        } else {
          if (c == '\'' || c == '"') && !escaping {
            if quote == Some(c) {
              quote := None;
            } else if quote == None {
              quote := Some(c);
            }
          }
          escaping := false;
        }
        PutChar(str, ptr, c);
        ptr := ptr + 1;
      }
      next := next + 1;
      c := CharAt(input, next);
    }
    HoldsAsString(str[..ptr], text, same);
    assert str[0..0 + ptr] == str[..ptr];
    line := Substring(str, 0, ptr);
    next := if next < |input| || !ended then next + 1 else next;
  }

  lemma Started(str: seq<char>)
    requires str == []
    ensures Holds(str, [], 0)
  {
  }

  lemma Shorter(str: seq<char>, text: string, same: nat)
    requires Holds(str, text, same) && text != []
    ensures |str| == |text|
    ensures Holds(str[..|text| - 1], text[..|text| - 1], if same > |text| - 1 then |text| - 1 else same)
  {
    var n := |text| - 1;
    assert str[..n][..if same > n then n else same] == str[..same][..if same > n then n else same];
    assert text[..n][..if same > n then n else same] == text[..same][..if same > n then n else same];
  }

  lemma Longer(str: seq<char>, text: string, same: nat, c: char)
    requires Holds(str, text, same)
    ensures Holds(str + [c], text + [c], if same == |text| then same + 1 else same)
  {
    if same == |text| {
      assert str == str[..same] && text == text[..same];
      assert (str + [c])[..same + 1] == str + [c] && (text + [c])[..same + 1] == text + [c];
    } else {
      assert (str + [c])[..same] == str[..same] && (text + [c])[..same] == text[..same];
    }
  }

  // ----- the tokenizer

  method GetClosingQuoteIndex(string_: array<char>, start: nat, quote: char, ghost text: string) returns (end: nat)
    requires CString(string_, text) && start <= |text|
    ensures end == Closing(text, start, quote, false)
  {
    var escaped := false;
    end := start;
    while true
      invariant end <= |text| && Closing(text, start, quote, false) == Closing(text, end, quote, escaped)
      decreases |text| - end
    {
      CharOf(string_, text, end);
      if string_[end] == '\0' {
        break;
      }
      if string_[end] == '\\' {
        escaped := !escaped;
        end := end + 1;
        continue;
      }
      if !escaped && string_[end] == quote {
        break;
      }
      escaped := false;
      end := end + 1;
    }
  }

  /** What one character of a quotation adds to the token. */
  function Emitted(c: char, quote: char, escaped: bool): string {
    if c == '\\' && !escaped then [] else if escaped then Unescape(c, quote) else [c]
  }

  lemma OneChar(s: string, quote: char, escaped: bool)
    requires s != []
    ensures Unquote(s, quote, escaped) ==
              Emitted(s[0], quote, escaped) + Unquote(s[1..], quote, s[0] == '\\' && !escaped)
  {
  }

  method EmitChar(buffer: array<char>, ptr: nat, c: char, quote: char, escaped: bool)
    returns (ptr': nat, escaped': bool)
    requires ptr + (if escaped then 1 else 0) < buffer.Length
    modifies buffer
    ensures escaped' == (c == '\\' && !escaped)
    ensures ptr' == ptr + |Emitted(c, quote, escaped)| <= buffer.Length
    ensures buffer[..ptr'] == old(buffer[..ptr]) + Emitted(c, quote, escaped)
  {
    ptr', escaped' := ptr, escaped;
    if c == '\\' {
      if escaped {
        buffer[ptr'] := '\\';
        ptr' := ptr' + 1;
        escaped' := false;
      } else {
        escaped' := true;
      }
    } else {
      if escaped {
        if !(c == '"' || c == '\'') || c != quote {
          buffer[ptr'] := '\\';
          ptr' := ptr' + 1;
        }
        escaped' := false;
      }
      buffer[ptr'] := c;
      ptr' := ptr' + 1;
    }
  }

  method ExtractQuotedToken(string_: array<char>, start: nat, end: nat, quote: char) returns (token: string)
    requires start <= end <= string_.Length
    ensures token == Unquote(string_[start..end], quote, false)
  {
    var size := end - start;
    var buffer := new char[size + 1];
    var ptr: nat := 0;
    var escaped := false;
    assert string_[start..end][0..] == string_[start..end];
    for j := start to end
      invariant ptr + (if escaped then 1 else 0) <= j - start
      invariant Unquote(string_[start..end], quote, false) == buffer[..ptr] + Unquote(string_[j..end], quote, escaped)
    {
      ghost var before, was, c := buffer[..ptr], escaped, string_[j];
      ptr, escaped := EmitChar(buffer, ptr, string_[j], quote, escaped);
      OneChar(string_[j..end], quote, was);
      assert string_[j..end][1..] == string_[j + 1..end];
      Associate(before, Emitted(c, quote, was), Unquote(string_[j + 1..end], quote, escaped));
    }
    assert string_[end..end] == [];
    token := buffer[..ptr];
  }

  /** The unquoted word that has been collected, if there is one. */
  method PrependWord(buffer: array<char>, start: Option<nat>, end: nat, following: seq<string>)
      returns (tokens: seq<string>)
    requires start.Some? ==> start.value <= end <= buffer.Length
    requires forall k :: 0 <= k < end <= buffer.Length ==> buffer[k] != '\0'
    ensures tokens == Pending(Collected(buffer, start, end)) + following
  {
    tokens := following;
    if start.Some? {
      var word := Substring(buffer, start.value, end - start.value);
      NoZero(buffer[start.value..end]);
      tokens := [word] + following;
    }
  }

  function Collected(buffer: array<char>, start: Option<nat>, end: nat): Option<string>
    requires start.Some? ==> start.value <= end <= buffer.Length
    reads buffer
  {
    if start.Some? then Some(buffer[start.value..end]) else None
  }

  /** The loop of get_one_token, up to the character that ends the token. */
  method CollectWord(string_: array<char>, from: nat, buffer: array<char>, ghost text: string)
      returns (i: nat, start: Option<nat>, end: nat, escaped: bool)
    requires CString(string_, text) && from <= |text| && buffer != string_ && buffer.Length == |text| + 1 - from
    modifies buffer
    ensures CString(string_, text)
    ensures from <= i <= |text| && (start.Some? ==> start.value <= end) && end <= buffer.Length
    ensures escaped ==> start.Some?
    ensures forall k :: 0 <= k < end ==> buffer[k] != '\0'
    ensures Scan(text, from, false, None) == Scan(text, i, escaped, Collected(buffer, start, end))
    ensures i < |text| ==>
              !escaped && (IsQuote(text[i]) || IsOperatorChar(text[i]) || (IsBlank(text[i]) && start.Some?))
  {
    i, end := from, 0;
    start, escaped := None, false;
    while true
      invariant from <= i <= |text| && end <= i - from
      invariant start.None? ==> end == i - from
      invariant start.Some? ==> start.value <= end
      invariant escaped ==> start.Some?
      invariant forall k :: 0 <= k < end ==> buffer[k] != '\0'
      invariant CString(string_, text)
      invariant Scan(text, from, false, None) == Scan(text, i, escaped, Collected(buffer, start, end))
      decreases |text| - i
    {
      CharOf(string_, text, i);
      var c := string_[i];
      if c == '\0' {
        break;
      }
      if !escaped {
        if IsQuote(c) || IsOperatorChar(c) || (IsBlank(c) && start.Some?) {
          break;
        }
        if start.None? && !IsBlank(c) {
          start := Some(i - from);
          assert buffer[end..end] == [];
        }
      }
      ghost var word := Collected(buffer, start, end);
      if c == '\\' && !escaped {
        escaped := true;
      } else {
        escaped := false;
        buffer[end] := c;
        end := end + 1;
        assert start.Some? ==> buffer[start.value..end] == word.value + [c];
      }
      i := i + 1;
    }
  }

  method GetOneToken(string_: array<char>, from: nat, ghost text: string)
    returns (tokens: seq<string>, next: Option<nat>)
    requires CString(string_, text) && from <= |text|
    ensures var r := Scan(text, from, false, None); tokens == r.tokens && next == r.next
  {
    hide Closing, Unquote, UntilZero, CString, Tokens;
    LengthOf(string_, text);
    var buffer := new char[string_.Length - from];
    var i, start, end, escaped := CollectWord(string_, from, buffer, text);
    CharOf(string_, text, i);
    var c := string_[i];
    if c == '\0' {
      tokens, next := [], None;
    } else if IsBlank(c) {
      tokens, next := [], Some(i + 1);
    } else if IsQuote(c) {
      tokens, next := QuotedLiteral(string_, i, text);
    } else {
      CharOf(string_, text, i + 1);
      var size := if string_[i + 1] == c then 2 else 1;
      var operator := Substring(string_, i, size);
      SliceOf(string_, text, i, i + size);
      tokens, next := [operator], Some(i + size);
    }
    tokens := PrependWord(buffer, start, end, tokens);
  }

  lemma LengthOf(string_: array<char>, text: string)
    requires CString(string_, text)
    ensures string_.Length == |text| + 1
  {
  }

  lemma SliceOf(string_: array<char>, text: string, i: nat, j: nat)
    requires CString(string_, text) && i <= j <= |text|
    ensures string_[i..j] == text[i..j] && UntilZero(string_[i..j]) == text[i..j]
  {
    forall k | 0 <= k < j - i ensures string_[i..j][k] == text[i..j][k] != '\0' {
      CharOf(string_, text, i + k);
    }
    NoZero(text[i..j]);
  }

  method QuotedLiteral(string_: array<char>, open: nat, ghost text: string)
    returns (tokens: seq<string>, next: Option<nat>)
    requires CString(string_, text) && open < |text| && IsQuote(text[open])
    ensures var j := Closing(text, open + 1, text[open], false);
            && tokens == [Unquote(text[open + 1..j], text[open], false)]
            && next == if j == |text| then None else Some(j + 1)
  {
    CharOf(string_, text, open);
    var close := GetClosingQuoteIndex(string_, open + 1, string_[open], text);
    var token := ExtractQuotedToken(string_, open + 1, close, string_[open]);
    SliceOf(string_, text, open + 1, close);
    CharOf(string_, text, close);
    tokens, next := [token], if string_[close] == '\0' then None else Some(close + 1);
  }

  method GetTokens(string_: array<char>, ghost text: string) returns (tokens: seq<string>)
    requires CString(string_, text)
    ensures tokens == Tokens(text, 0)
  {
    tokens := [];
    var at: Option<nat> := Some(0);
    while at.Some?
      invariant at.Some? ==> at.value <= |text|
      invariant Tokens(text, 0) == tokens + if at.Some? then Tokens(text, at.value) else []
      decreases if at.Some? then |text| - at.value + 1 else 0
    {
      var more, next := GetOneToken(string_, at.value, text);
      Associate(tokens, more, if next.Some? then Tokens(text, next.value) else []);
      tokens, at := tokens + more, next;
    }
  }
}
