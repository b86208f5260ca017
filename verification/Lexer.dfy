/**
  The lexer: the source is read character by character and cut into tokens. Nothing but
  blanks is lost, and every token knows its place.
 */
module Lexer {
  import opened Wrappers
  import opened Bytes
  import opened Diagnostics
  import opened Numbers
  import opened Tokens

  // Character codes.
  const NEWLINE: Byte := 10
  const STRING_QUOTE: Byte := 34
  const LABEL_USE_MARK: Byte := 35
  const REGISTER_MARK: Byte := 36
  const CHAR_QUOTE: Byte := 39
  const COMMA: Byte := 44
  const DIRECTIVE_MARK: Byte := 46
  const LABEL_INIT_MARK: Byte := 58
  const COMMENT_MARK: Byte := 59

  // ----- characters -----

  predicate IsSpace(c: Byte) {
    9 <= c <= 13 || c == 32
  }

  /** is_ignored_char: white space within a line, and the end of the source. */
  predicate IsBlank(c: Byte) {
    (IsSpace(c) && c != NEWLINE) || c == NUL
  }

  /** Where a word ends. */
  predicate IsWordEnd(c: Byte) {
    IsBlank(c) || c == NEWLINE || c == COMMA
  }

  /** Where a number ends. */
  predicate IsTokenEnd(c: Byte) {
    IsWordEnd(c) || c == COMMENT_MARK
  }

  predicate IsLineEnd(c: Byte) {
    c == NEWLINE || c == NUL
  }

  predicate IsSolid(c: Byte) {
    !IsBlank(c) || c == NUL
  }

  predicate IsQuote(c: Byte) {
    c == STRING_QUOTE || c == CHAR_QUOTE
  }

  function Closes(quote: Byte): Byte -> bool {
    (c: Byte) => c == quote || c == NUL
  }

  predicate StartsNumber(c: Byte) {
    48 <= c <= 57 || c == DELIMITER
  }

  // ----- positions -----

  predicate NulFree(s: seq<Byte>) {
    forall i :: 0 <= i < |s| ==> s[i] != NUL
  }

  /** The source's character at p, or its terminator. */
  function CharAt(source: seq<Byte>, p: nat): Byte {
    if p < |source| then source[p] else NUL
  }

  /** The first place from p on where the scan stops; it always stops at the terminator. */
  function StopAt(source: seq<Byte>, p: nat, stop: Byte -> bool): (n: nat)
    requires p <= |source| && stop(NUL)
    ensures p <= n <= |source| && stop(CharAt(source, n))
    ensures forall k :: p <= k < n ==> !stop(source[k])
    decreases |source| - p
  {
    if stop(CharAt(source, p)) then p else StopAt(source, p + 1, stop)
  }

  function Newlines(s: seq<Byte>): nat {
    if s == [] then 0 else Newlines(s[..|s| - 1]) + if s[|s| - 1] == NEWLINE then 1 else 0
  }

  /** Characters since the last newline. */
  function SinceNewline(s: seq<Byte>): nat {
    if s == [] || s[|s| - 1] == NEWLINE then 0 else SinceNewline(s[..|s| - 1]) + 1
  }

  lemma {:induction false} NoNewlines(s: seq<Byte>, from: nat)
    requires from <= |s| && forall i :: from <= i < |s| ==> s[i] != NEWLINE
    ensures Newlines(s) == Newlines(s[..from])
    ensures SinceNewline(s) == SinceNewline(s[..from]) + (|s| - from)
  {
    if from < |s| {
      var front := s[..|s| - 1];
      NoNewlines(front, from);
      assert front[..from] == s[..from];
    } else {
      assert s[..from] == s;
    }
  }

  function LineOf(source: seq<Byte>, p: nat): nat
    requires p <= |source|
  {
    1 + Newlines(source[..p])
  }

  function ColumnOf(source: seq<Byte>, p: nat): nat
    requires p <= |source|
  {
    1 + SinceNewline(source[..p])
  }

  function PlaceOf(source: seq<Byte>, start: nat, end: nat): Location
    requires start <= end <= |source|
  {
    Location(start, LineOf(source, start), ColumnOf(source, start), end - start)
  }

  // ----- tokens -----

  datatype Lexeme = Lexeme(kind: Kind, text: CString, end: nat)

  function TextIn(source: seq<Byte>, from: nat, to: nat): CString
    requires NulFree(source) && from <= to <= |source|
  {
    AsCString(source[from..to])
  }

  /** A mark and the word behind it. */
  function Marked(source: seq<Byte>, p: nat, kind: Kind): Lexeme
    requires NulFree(source) && p < |source|
  {
    var end := StopAt(source, p + 1, IsWordEnd);
    Lexeme(kind, TextIn(source, p + 1, end), end)
  }

  /** A literal that runs up to the next quote of its kind, over newlines too. */
  function Quoted(source: seq<Byte>, p: nat, kind: Kind): Result<Lexeme, Diagnostic>
    requires NulFree(source) && p < |source|
  {
    var close := StopAt(source, p + 1, Closes(source[p]));
    if close == |source| then Err(UnterminatedLiteral) else Ok(Lexeme(kind, TextIn(source, p + 1, close), close + 1))
  }

  /** The base a literal's prefix selects; 10 when there is none. */
  function BaseAt(source: seq<Byte>, p: nat): (base: nat)
    ensures Supported(base)
    ensures base != 10 ==> p + 1 < |source| && source[p] == 48
  {
    var prefix := if CharAt(source, p) == 48 then CharAt(source, p + 1) else NUL;
    if prefix == 120 || prefix == 88 then 16
    else if prefix == 111 || prefix == 79 then 8
    else if prefix == 98 || prefix == 66 then 2
    else 10
  }

  function DigitsStart(source: seq<Byte>, p: nat): (n: nat)
    requires p < |source|
    ensures p <= n <= |source|
  {
    if BaseAt(source, p) == 10 then p else p + 2
  }

  function NumberEnd(source: seq<Byte>, p: nat): nat
    requires p < |source|
  {
    StopAt(source, DigitsStart(source, p), IsTokenEnd)
  }

  function NumberAt(source: seq<Byte>, p: nat): Result<Lexeme, Diagnostic>
    requires p < |source|
  {
    var base, end := BaseAt(source, p), NumberEnd(source, p);
    var digits := source[DigitsStart(source, p)..end];
    var value := Meaning(digits, base);
    if value.Err? then Err(value.error)
    else
      NoNul(digits, base);
      Ok(Lexeme(Integer(base), AsCString(Stripped(digits)), end))
  }

  /** The end of a name, in which a quoted part may hold what would end a word; None when a quote is not closed. */
  function NameEnd(source: seq<Byte>, p: nat): (r: Option<nat>)
    requires p <= |source|
    ensures r.Some? ==> p <= r.value <= |source|
    decreases |source| - p
  {
    if p == |source| || IsWordEnd(source[p]) then Some(p)
    else if IsQuote(source[p]) then
      var close := StopAt(source, p + 1, Closes(source[p]));
      if close == |source| then None else NameEnd(source, close + 1)
    else NameEnd(source, p + 1)
  }

  /** A name, or with a colon at its end the definition of a label. */
  function NameAt(source: seq<Byte>, p: nat): Result<Lexeme, Diagnostic>
    requires NulFree(source) && p < |source|
  {
    var end := NameEnd(source, p);
    if end.None? then Err(UnterminatedLiteral)
    else if end.value > p && source[end.value - 1] == LABEL_INIT_MARK then
      Ok(Lexeme(LabelInit, TextIn(source, p, end.value - 1), end.value))
    else Ok(Lexeme(Identifier, TextIn(source, p, end.value), end.value))
  }

  /** What starts at p. */
  function LexemeAt(source: seq<Byte>, p: nat): (r: Result<Lexeme, Diagnostic>)
    requires NulFree(source) && p < |source| && !IsBlank(source[p])
    ensures r.Ok? ==> p < r.value.end <= |source|
  {
    var c := source[p];
    if c == NEWLINE then Ok(Lexeme(Newline, TextIn(source, p, p + 1), p + 1))
    else if c == COMMA then Ok(Lexeme(Comma, TextIn(source, p, p + 1), p + 1))
    else if c == COMMENT_MARK then
      var end := StopAt(source, p + 1, IsLineEnd);
      Ok(Lexeme(Comment, TextIn(source, p + 1, end), end))
    else if c == LABEL_USE_MARK then Ok(Marked(source, p, LabelUse))
    else if c == REGISTER_MARK then Ok(Marked(source, p, Register))
    else if c == DIRECTIVE_MARK then Ok(Marked(source, p, Directive))
    else if c == STRING_QUOTE then Quoted(source, p, StringLiteral)
    else if c == CHAR_QUOTE then Quoted(source, p, CharLiteral)
    else if StartsNumber(c) then NumberAt(source, p)
    else NameAt(source, p)
  }

  /** A token, unless only blanks are left, and where reading goes on. */
  datatype Read = Read(token: Option<Token>, next: nat)

  function NextToken(source: seq<Byte>, p: nat): (r: Result<Read, Diagnostic>)
    requires NulFree(source) && p <= |source|
    ensures r.Ok? ==> p <= r.value.next <= |source| && (r.value.token.Some? ==> p < r.value.next)
  {
    var start := StopAt(source, p, IsSolid);
    if start == |source| then Ok(Read(None, start))
    else
      var x := LexemeAt(source, start);
      if x.Err? then Err(x.error)
      else Ok(Read(Some(Token(x.value.kind, x.value.text, PlaceOf(source, start, x.value.end))), x.value.end))
  }

  /** The tokens from p on, up to the end of the source or the first error. */
  function TokensFrom(source: seq<Byte>, p: nat): Result<seq<Token>, Diagnostic>
    requires NulFree(source) && p <= |source|
    decreases |source| - p
  {
    var t := NextToken(source, p);
    if t.Err? then Err(t.error)
    else if t.value.token.None? then Ok([])
    else
      var rest := TokensFrom(source, t.value.next);
      if rest.Err? then rest else Ok([t.value.token.value] + rest.value)
  }

  /** named_argument_value: the text must hold exactly one token. */
  function OnlyToken(text: CString): Result<Token, Diagnostic> {
    var source := AsBytes(text);
    var first := NextToken(source, 0);
    if first.Err? then Err(first.error)
    else if first.value.token.None? then Err(MacroInvalidArgument)
    else
      var second := NextToken(source, first.value.next);
      if second.Err? then Err(second.error)
      else if second.value.token.Some? then Err(MacroInvalidArgument)
      else Ok(first.value.token.value)
  }

  /** No character of a number, its prefix included, is a newline. */
  lemma NumberOnLine(source: seq<Byte>, start: nat)
    requires start < |source|
    ensures var end := NumberEnd(source, start);
            && start <= end && LineOf(source, end) == LineOf(source, start)
            && ColumnOf(source, end) == ColumnOf(source, start) + (end - start)
  {
    hide Newlines, SinceNewline;
    var end := NumberEnd(source, start);
    forall p | start <= p < end ensures source[p] != NEWLINE {
      if p >= DigitsStart(source, start) { assert !IsTokenEnd(source[p]); }
    }
    NoNewlines(source[..end], start);
    assert source[..end][..start] == source[..start];
  }

  /** What is read behind tokens that have been read already. */
  function Behind(done: seq<Token>, rest: Result<seq<Token>, Diagnostic>): Result<seq<Token>, Diagnostic> {
    if rest.Err? then rest else Ok(done + rest.value)
  }

  lemma BehindNothing(rest: Result<seq<Token>, Diagnostic>)
    ensures Behind([], rest) == rest
  {
    if rest.Ok? { assert [] + rest.value == rest.value; }
  }

  lemma ReadOne(source: seq<Byte>, p: nat, done: seq<Token>)
    requires NulFree(source) && p <= |source| && NextToken(source, p).Ok? && NextToken(source, p).value.token.Some?
    ensures var read := NextToken(source, p).value;
            Behind(done, TokensFrom(source, p)) == Behind(done + [read.token.value], TokensFrom(source, read.next))
  {
    hide NextToken;
    var read := NextToken(source, p).value;
    var rest := TokensFrom(source, read.next);
    if rest.Ok? { assert done + ([read.token.value] + rest.value) == done + [read.token.value] + rest.value; }
  }

  // ----- the scanner -----

  class Scanner {
    const source: seq<Byte>
    var tokens: seq<Token>
    var pos: nat
    var line: nat
    var col: nat

    constructor (text: CString)
      ensures Valid() && source == AsBytes(text) && pos == 0 && tokens == []
    {
      source, tokens, pos, line, col := AsBytes(text), [], 0, 1, 1;
    }

    /** Line and column are those of the current position. */
    predicate Valid()
      reads this
    {
      NulFree(source) && pos <= |source| && line == LineOf(source, pos) && col == ColumnOf(source, pos)
    }

    /** lexer_nextChar. */
    method NextChar() returns (c: Byte)
      requires Valid()
      modifies this`pos, this`line, this`col
      ensures Valid() && pos == if old(pos) < |source| then old(pos) + 1 else old(pos)
      ensures c == CharAt(source, pos)
    {
      if pos >= |source| {
        return NUL;
      }
      assert source[..pos + 1][..pos] == source[..pos];
      var value := source[pos];
      pos := pos + 1;
      if value == NEWLINE {
        line, col := line + 1, 1;
      } else {
        col := col + 1;
      }
      c := CharAt(source, pos);
    }

    /** One of the scanning loops: on to the first character at which it stops. */
    method Scan(stop: Byte -> bool) returns (c: Byte)
      requires Valid() && stop(NUL)
      modifies this`pos, this`line, this`col
      ensures Valid() && pos == StopAt(source, old(pos), stop) && c == CharAt(source, pos)
    {
      ghost var from := pos;
      c := CharAt(source, pos);
      while !stop(c)
        invariant Valid() && StopAt(source, from, stop) == StopAt(source, pos, stop) && c == CharAt(source, pos)
        decreases |source| - pos
      {
        c := NextChar();
      }
    }

    /** The prefix of a literal selects its base and is skipped. */
    method ReadPrefix() returns (base: nat)
      requires Valid() && pos < |source|
      modifies this`pos, this`line, this`col
      ensures Valid() && base == BaseAt(source, old(pos)) && pos == DigitsStart(source, old(pos))
    {
      hide Newlines, SinceNewline;
      var prefix := if source[pos] == 48 then CharAt(source, pos + 1) else NUL;
      base := 10;
      if prefix == 120 || prefix == 88 {
        base := 16;
      } else if prefix == 111 || prefix == 79 {
        base := 8;
      } else if prefix == 98 || prefix == 66 {
        base := 2;
      }
      if base != 10 {
        var _ := NextChar();
        var _ := NextChar();
      }
    }

    /**
      The numeric path of lexer_readToken, from the first character of the literal to its
      value. A literal never spans a line, so the column moves by the characters read.
     */
    method ReadNumber() returns (r: Result<DWord, Diagnostic>, kept: seq<Byte>)
      requires Valid() && pos < |source|
      modifies this`pos, this`line, this`col
      ensures Valid() && pos == NumberEnd(source, old(pos))
      ensures var digits := source[DigitsStart(source, old(pos))..pos];
              r == Meaning(digits, BaseAt(source, old(pos))) && (r.Ok? ==> kept == Stripped(digits))
      ensures old(pos) <= pos && line == old(line) && col == old(col) + (pos - old(pos))
    {
      hide Meaning, Converted, BaseAt, Stripped, WellFormed, StopAt, Newlines, SinceNewline;
      NumberOnLine(source, pos);
      var base := ReadPrefix();
      var first := pos;
      var _ := Scan(IsTokenEnd);
      r, kept := Measure(source[first..pos], base);
    }

    /** The loop over a name, with the loop over a quoted part inside. */
    method ScanName() returns (closed: bool)
      requires Valid()
      modifies this`pos, this`line, this`col
      ensures Valid() && closed == NameEnd(source, old(pos)).Some?
      ensures closed ==> pos == NameEnd(source, old(pos)).value
    {
      hide StopAt, Newlines, SinceNewline;
      ghost var from := pos;
      var c := CharAt(source, pos);
      while !IsWordEnd(c)
        invariant Valid() && NameEnd(source, from) == NameEnd(source, pos) && c == CharAt(source, pos)
        decreases |source| - pos
      {
        if IsQuote(c) {
          var quote := c;
          var _ := NextChar();
          c := Scan(Closes(quote));
          if pos == |source| {
            return false;
          }
        }
        c := NextChar();
      }
      closed := true;
    }

    /** A mark and its word. */
    method ReadMarked(kind: Kind) returns (x: Lexeme)
      requires Valid() && pos < |source|
      modifies this`pos, this`line, this`col
      ensures Valid() && x == Marked(source, old(pos), kind) && pos == x.end
    {
      hide StopAt, Newlines, SinceNewline;
      var _ := NextChar();
      var first := pos;
      var _ := Scan(IsWordEnd);
      x := Lexeme(kind, AsCString(source[first..pos]), pos);
    }

    method ReadQuoted(kind: Kind) returns (r: Result<Lexeme, Diagnostic>)
      requires Valid() && pos < |source|
      modifies this`pos, this`line, this`col
      ensures Valid() && r == Quoted(source, old(pos), kind) && (r.Ok? ==> pos == r.value.end)
    {
      hide StopAt, Newlines, SinceNewline;
      var quote := source[pos];
      var _ := NextChar();
      var first := pos;
      var _ := Scan(Closes(quote));
      if pos == |source| {
        return Err(UnterminatedLiteral);
      }
      var text := AsCString(source[first..pos]);
      var _ := NextChar();
      r := Ok(Lexeme(kind, text, pos));
    }

    method ReadName() returns (r: Result<Lexeme, Diagnostic>)
      requires Valid() && pos < |source|
      modifies this`pos, this`line, this`col
      ensures Valid() && r == NameAt(source, old(pos)) && (r.Ok? ==> pos == r.value.end)
    {
      hide NameEnd, Newlines, SinceNewline;
      var first := pos;
      var closed := ScanName();
      if !closed {
        return Err(UnterminatedLiteral);
      }
      if pos > first && source[pos - 1] == LABEL_INIT_MARK {
        r := Ok(Lexeme(LabelInit, AsCString(source[first..pos - 1]), pos));
      } else {
        r := Ok(Lexeme(Identifier, AsCString(source[first..pos]), pos));
      }
    }

    method ReadInteger() returns (r: Result<Lexeme, Diagnostic>)
      requires Valid() && pos < |source|
      modifies this`pos, this`line, this`col
      ensures Valid() && r == NumberAt(source, old(pos)) && (r.Ok? ==> pos == r.value.end)
    {
      hide StopAt, Stripped, BaseAt, WellFormed, LiteralValue, Newlines, SinceNewline;
      var first := pos;
      var value, kept := ReadNumber();
      if value.Err? {
        return Err(value.error);
      }
      NoNul(source[DigitsStart(source, first)..pos], BaseAt(source, first));
      r := Ok(Lexeme(Integer(BaseAt(source, first)), AsCString(kept), pos));
    }

    /** The switch of lexer_readToken. */
    method ReadLexeme() returns (r: Result<Lexeme, Diagnostic>)
      requires Valid() && pos < |source| && !IsBlank(source[pos])
      modifies this`pos, this`line, this`col
      ensures Valid() && r == LexemeAt(source, old(pos)) && (r.Ok? ==> pos == r.value.end)
    {
      hide StopAt, NumberAt, NameAt, Quoted, Marked, Newlines, SinceNewline;
      var start, c := pos, source[pos];
      if c == NEWLINE || c == COMMA {
        var _ := NextChar();
        r := Ok(Lexeme(if c == NEWLINE then Newline else Comma, AsCString(source[start..pos]), pos));
      } else if c == COMMENT_MARK {
        var _ := NextChar();
        var first := pos;
        var _ := Scan(IsLineEnd);
        r := Ok(Lexeme(Comment, AsCString(source[first..pos]), pos));
      } else if c == LABEL_USE_MARK || c == REGISTER_MARK || c == DIRECTIVE_MARK {
        var x := ReadMarked(if c == LABEL_USE_MARK then LabelUse else if c == REGISTER_MARK
                            then Register else Directive);
        r := Ok(x);
      } else if c == STRING_QUOTE || c == CHAR_QUOTE {
        r := ReadQuoted(if c == STRING_QUOTE then StringLiteral else CharLiteral);
      } else if StartsNumber(c) {
        r := ReadInteger();
      } else {
        r := ReadName();
      }
    }

    /** lexer_readToken: the token is also appended to the list. */
    method ReadToken() returns (r: Result<Option<Token>, Diagnostic>)
      requires Valid()
      modifies this
      ensures Valid()
      ensures match NextToken(source, old(pos))
              case Err(e) => r == Err(e)
              case Ok(read) =>
                && r == Ok(read.token) && pos == read.next
                && tokens == old(tokens) + if read.token.Some? then [read.token.value] else []
    {
      hide LexemeAt, StopAt, Newlines, SinceNewline;
      var _ := Scan(IsSolid);
      if pos == |source| {
        return Ok(None);
      }
      var position, startLine, startColumn := pos, line, col;
      var x := ReadLexeme();
      if x.Err? {
        return Err(x.error);
      }
      var token := Token(x.value.kind, x.value.text, Location(position, startLine, startColumn, pos - position));
      tokens := tokens + [token];
      r := Ok(Some(token));
    }

    /** The loop that reads a whole source. */
    method ReadAll() returns (error: Option<Diagnostic>)
      requires Valid() && tokens == []
      modifies this
      ensures Valid()
      ensures match TokensFrom(source, old(pos))
              case Err(e) => error == Some(e)
              case Ok(all) => error == None && tokens == all
    {
      hide NextToken, LineOf, ColumnOf;
      ghost var from, done, at := pos, tokens, pos;
      BehindNothing(TokensFrom(source, from));
      var token := ReadToken();
      while token.Ok? && token.value.Some?
        invariant Valid() && at <= |source| && TokensFrom(source, from) == Behind(done, TokensFrom(source, at))
        invariant match NextToken(source, at)
                  case Err(e) => token == Err(e)
                  case Ok(read) =>
                    && token == Ok(read.token) && pos == read.next
                    && tokens == done + if read.token.Some? then [read.token.value] else []
        decreases |source| - at
      {
        ReadOne(source, at, done);
        done, at := tokens, pos;
        token := ReadToken();
      }
      error := if token.Err? then Some(token.error) else None;
    }
  }

  /** named_argument_value. */
  method LexArgument(text: CString) returns (r: Result<Token, Diagnostic>)
    ensures r == OnlyToken(text)
  {
    hide NextToken;
    var scanner := new Scanner(text);
    var value := scanner.ReadToken();
    if value.Err? {
      return Err(value.error);
    }
    if value.value.None? {
      return Err(MacroInvalidArgument);
    }
    var second := scanner.ReadToken();
    if second.Err? {
      return Err(second.error);
    }
    if second.value.Some? {
      return Err(MacroInvalidArgument);
    }
    r := Ok(value.value.value);
  }
}
