/**
  Tokens that are written out lex back: however the spellings of a list of tokens are
  separated, reading the text gives these tokens again.
 */
module LexerRoundTrip {
  import opened Wrappers
  import opened Bytes
  import opened Numbers
  import opened Tokens
  import opened Lexer
  import opened LexerProofs

  // ----- characters -----

  /** Tabs, spaces and the like, but no newline. */
  predicate Blank(c: Byte) {
    c == 9 || c == 11 || c == 12 || c == 13 || c == 32
  }

  /** What a word cannot hold: blanks, newlines, commas. */
  predicate Separates(c: Byte) {
    Blank(c) || c == 10 || c == 44
  }

  /** What gives a word that starts with it another meaning: marks, quotes, digits and the digit delimiter. */
  predicate Special(c: Byte) {
    c == 34 || c == 35 || c == 36 || c == 39 || c == 46 || c == 59 || c == 95 || 48 <= c <= 57
  }

  lemma CharactersAgree(c: Byte)
    requires c != 0
    ensures IsBlank(c) <==> Blank(c)
    ensures IsWordEnd(c) <==> Separates(c)
    ensures IsTokenEnd(c) <==> Separates(c) || c == 59
    ensures IsLineEnd(c) <==> c == 10
    ensures IsSolid(c) <==> !Blank(c)
  {
  }

  // ----- what can be written -----

  /** A name: no separator outside its quoted parts, and every quote closed. */
  predicate Whole(s: seq<Byte>) {
    if s == [] then true
    else if Separates(s[0]) then false
    else if s[0] == 34 || s[0] == 39 then
      exists c :: 0 < c < |s| && ClosesAt(s, c) && Whole(s[c + 1..])
    else Whole(s[1..])
  }

  /** The first quote behind the one at the front that is like it. */
  predicate ClosesAt(s: seq<Byte>, c: nat) {
    0 < c < |s| && s[c] == s[0] && forall k :: 0 < k < c ==> s[k] != s[0]
  }

  predicate NoneOf(s: seq<Byte>, c: Byte) {
    forall k :: 0 <= k < |s| ==> s[k] != c
  }

  predicate NoSeparator(s: seq<Byte>) {
    forall k :: 0 <= k < |s| ==> !Separates(s[k])
  }

  /** A spelling that means the token when nothing joins it from behind. */
  predicate Writes(spelling: seq<Byte>, kind: Kind, text: seq<Byte>) {
    && Spells(spelling, kind, text)
    && match kind
       case Identifier => spelling != [] && !Special(spelling[0]) && Whole(spelling) && spelling[|spelling| - 1] != 58
       case LabelInit => !Special(spelling[0]) && Whole(spelling)
       case Comment => NoneOf(text, 10)
       case StringLiteral => NoneOf(text, 34)
       case CharLiteral => NoneOf(text, 39)
       case Integer(_) => true
       case Comma => text == [44]
       case Newline => text == [10]
       case _ => NoSeparator(text)
  }

  /** What may stand directly behind a token. */
  predicate MayFollow(kind: Kind, rest: seq<Byte>) {
    rest == [] ||
    match kind
    case Comment => rest[0] == 10
    case Integer(_) => Separates(rest[0]) || rest[0] == 59
    case Comma => true
    case Newline => true
    case StringLiteral => true
    case CharLiteral => true
    case _ => Separates(rest[0])
  }

  // ----- reading one token -----

  /** A scan stops where its condition says. */
  lemma StopsAt(source: seq<Byte>, p: nat, n: nat, stop: Byte -> bool)
    requires p <= n <= |source| && stop(NUL) && stop(CharAt(source, n)) && forall k :: p <= k < n ==> !stop(source[k])
    ensures StopAt(source, p, stop) == n
  {
    hide StopAt;
  }

  /** The source from p on is the spelling and what follows it. */
  predicate ReadsFrom(source: seq<Byte>, p: nat, spelling: seq<Byte>, rest: seq<Byte>) {
    p + |spelling| <= |source| && source[p..p + |spelling|] == spelling && source[p + |spelling|..] == rest
  }

  lemma CharacterAt(source: seq<Byte>, p: nat, spelling: seq<Byte>, rest: seq<Byte>)
    requires ReadsFrom(source, p, spelling, rest)
    ensures forall k :: 0 <= k < |spelling| ==> source[p + k] == spelling[k]
    ensures rest == [] ==> p + |spelling| == |source|
    ensures rest != [] ==> p + |spelling| < |source| && source[p + |spelling|] == rest[0]
  {
    forall k | 0 <= k < |spelling| ensures source[p + k] == spelling[k] {
      assert source[p..p + |spelling|][k] == spelling[k];
    }
  }

  lemma MarkedFound(source: seq<Byte>, p: nat, kind: Kind, text: seq<Byte>, rest: seq<Byte>)
    requires NulFree(source) && p < |source| && ReadsFrom(source, p, [source[p]] + text, rest)
    requires NoSeparator(text) && (rest == [] || Separates(rest[0]))
    ensures var x := Marked(source, p, kind); x.kind == kind && AsBytes(x.text) == text && x.end == p + 1 + |text|
  {
    hide StopAt, Separates;
    var end := p + 1 + |text|;
    CharacterAt(source, p, [source[p]] + text, rest);
    forall k | p + 1 <= k < end ensures source[k] == text[k - p - 1] && !IsWordEnd(source[k]) {
      assert source[p + (k - p)] == ([source[p]] + text)[k - p];
      CharactersAgree(source[k]);
    }
    if rest != [] { CharactersAgree(rest[0]); }
    StopsAt(source, p + 1, end, IsWordEnd);
    assert source[p + 1..end] == text;
  }

  lemma QuotedFound(source: seq<Byte>, p: nat, kind: Kind, text: seq<Byte>, rest: seq<Byte>)
    requires NulFree(source) && p < |source| && ReadsFrom(source, p, [source[p]] + text + [source[p]], rest)
    requires NoneOf(text, source[p])
    ensures Quoted(source, p, kind).Ok?
    ensures var x := Quoted(source, p, kind).value; x.kind == kind && AsBytes(x.text) == text && x.end == p + 2 + |text|
  {
    hide StopAt;
    var close, spelling := p + 1 + |text|, [source[p]] + text + [source[p]];
    CharacterAt(source, p, spelling, rest);
    forall k | p + 1 <= k < close ensures source[k] == text[k - p - 1] {
      assert source[p + (k - p)] == spelling[k - p];
    }
    assert source[p + (close - p)] == spelling[close - p];
    StopsAt(source, p + 1, close, Closes(source[p]));
    assert source[p + 1..close] == text;
  }

  lemma CommentFound(source: seq<Byte>, p: nat, text: seq<Byte>, rest: seq<Byte>)
    requires NulFree(source) && p < |source| && ReadsFrom(source, p, [source[p]] + text, rest)
    requires NoneOf(text, 10) && (rest == [] || rest[0] == 10)
    ensures StopAt(source, p + 1, IsLineEnd) == p + 1 + |text|
    ensures source[p + 1..p + 1 + |text|] == text
  {
    hide StopAt;
    var end := p + 1 + |text|;
    CharacterAt(source, p, [source[p]] + text, rest);
    forall k | p + 1 <= k < end ensures source[k] == text[k - p - 1] {
      assert source[p + (k - p)] == ([source[p]] + text)[k - p];
    }
    StopsAt(source, p + 1, end, IsLineEnd);
    assert source[p + 1..end] == text;
  }

  /** The source from p on starts with these characters. */
  predicate Matches(source: seq<Byte>, p: nat, s: seq<Byte>) {
    p + |s| <= |source| && forall k :: 0 <= k < |s| ==> source[p + k] == s[k]
  }

  lemma MatchesTail(source: seq<Byte>, p: nat, s: seq<Byte>, c: nat)
    requires Matches(source, p, s) && c < |s|
    ensures source[p + c] == s[c] && Matches(source, p + c + 1, s[c + 1..])
  {
    var q, tail := p + c + 1, s[c + 1..];
    forall k | 0 <= k < |tail| ensures source[q + k] == tail[k] {
      assert source[p + (c + 1 + k)] == s[c + 1 + k];
    }
  }

  lemma QuoteCloses(source: seq<Byte>, p: nat, s: seq<Byte>, c: nat)
    requires NulFree(source) && Matches(source, p, s) && c < |s| && ClosesAt(s, c)
    ensures StopAt(source, p + 1, Closes(source[p])) == p + c
  {
    hide StopAt;
    assert source[p + 0] == s[0] && source[p + c] == s[c];
    forall k | p + 1 <= k < p + c ensures source[k] != source[p] {
      assert source[p + (k - p)] == s[k - p];
    }
    StopsAt(source, p + 1, p + c, Closes(source[p]));
  }

  /** A whole name is read up to its end. */
  lemma {:induction false} NameFound(source: seq<Byte>, p: nat, s: seq<Byte>)
    requires NulFree(source) && Matches(source, p, s) && Whole(s)
    requires p + |s| == |source| || Separates(source[p + |s|])
    ensures NameEnd(source, p) == Some(p + |s|)
    decreases |s|
  {
    hide StopAt, Separates, ClosesAt;
    if s == [] {
      if p < |source| { CharactersAgree(source[p]); }
    } else {
      MatchesTail(source, p, s, 0);
      assert source[p] != 0;
      CharactersAgree(source[p]);
      if s[0] == 34 || s[0] == 39 {
        var c :| 0 < c < |s| && ClosesAt(s, c) && Whole(s[c + 1..]);
        QuoteCloses(source, p, s, c);
        MatchesTail(source, p, s, c);
        NameFound(source, p + c + 1, s[c + 1..]);
      } else {
        NameFound(source, p + 1, s[1..]);
      }
    }
  }

  lemma NumberFound(source: seq<Byte>, p: nat, spelling: seq<Byte>, text: seq<Byte>, base: nat, rest: seq<Byte>)
    requires NulFree(source) && p < |source| && ReadsFrom(source, p, spelling, rest)
    requires SpellsNumber(spelling, text, base) && (rest == [] || Separates(rest[0]) || rest[0] == 59)
    ensures BaseAt(source, p) == base && DigitsStart(source, p) == p + (if base == 10 then 0 else 2)
    ensures NumberEnd(source, p) == p + |spelling|
    ensures source[DigitsStart(source, p)..NumberEnd(source, p)] == spelling[if base == 10 then 0 else 2..]
  {
    hide StopAt, Stripped, LiteralValue, Separates;
    var at := if base == 10 then 0 else 2;
    var digits := spelling[at..];
    CharacterAt(source, p, spelling, rest);
    DigitsOnly(digits, base);
    if base == 10 {
      assert source[p + 0] == spelling[0] && (|spelling| > 1 ==> source[p + 1] == spelling[1]);
      if rest != [] { CharactersAgree(rest[0]); }
    } else {
      assert source[p + 0] == spelling[..2][0] && source[p + 1] == spelling[..2][1];
    }
    assert BaseAt(source, p) == base;
    forall k | p + at <= k < p + |spelling| ensures !IsTokenEnd(source[k]) {
      assert source[p + (k - p)] == spelling[k - p] == digits[k - p - at];
    }
    if rest != [] { CharactersAgree(rest[0]); }
    StopsAt(source, p + at, p + |spelling|, IsTokenEnd);
  }

  lemma DigitsOnly(digits: seq<Byte>, base: nat)
    requires Supported(base) && WellFormed(digits, base)
    ensures digits != [] && forall i :: 0 <= i < |digits| ==>
                              !IsTokenEnd(digits[i]) && (base == 10 ==> 48 <= digits[i] <= 57 || digits[i] == 95)
  {
    OnlyDigits(digits, base);
  }

  /** Reading at a written token gives that token and ends behind it. */
  predicate Found(source: seq<Byte>, p: nat, spelling: seq<Byte>, kind: Kind, text: seq<Byte>)
    requires NulFree(source)
  {
    && p < |source| && !IsBlank(source[p]) && LexemeAt(source, p).Ok?
    && var x := LexemeAt(source, p).value; x.kind == kind && AsBytes(x.text) == text && x.end == p + |spelling|
  }

  lemma NameLexeme(source: seq<Byte>, p: nat, spelling: seq<Byte>, kind: Kind, text: seq<Byte>, rest: seq<Byte>)
    requires NulFree(source) && ReadsFrom(source, p, spelling, rest) && Writes(spelling, kind, text)
    requires (kind == Identifier || kind == LabelInit) && (rest == [] || Separates(rest[0]))
    ensures Found(source, p, spelling, kind, text)
  {
    hide NameEnd, Whole, StopAt, Separates;
    CharacterAt(source, p, spelling, rest);
    NameFound(source, p, spelling);
    var end := p + |spelling|;
    assert source[p + 0] == spelling[0] && source[p + (|spelling| - 1)] == spelling[|spelling| - 1];
    FirstOfName(spelling);
    PlainStart(source[p]);
    if kind == LabelInit {
      assert source[p..end - 1] == text by { assert source[p..end][..|spelling| - 1] == source[p..end - 1]; }
    }
  }

  lemma FirstOfName(s: seq<Byte>)
    requires Whole(s) && s != [] && !Special(s[0])
    ensures !Separates(s[0])
  {
  }

  /** A character that starts a name starts nothing else. */
  lemma PlainStart(c: Byte)
    requires c != 0 && !Special(c) && !Separates(c)
    ensures !IsBlank(c) && c != NEWLINE && c != COMMA && c != COMMENT_MARK && c != LABEL_USE_MARK && c != REGISTER_MARK
            && c != DIRECTIVE_MARK && c != STRING_QUOTE && c != CHAR_QUOTE && !StartsNumber(c)
  {
  }

  lemma MarkedLexeme(source: seq<Byte>, p: nat, spelling: seq<Byte>, kind: Kind, text: seq<Byte>, rest: seq<Byte>)
    requires NulFree(source) && ReadsFrom(source, p, spelling, rest) && Writes(spelling, kind, text)
    requires (kind == LabelUse || kind == Register || kind == Directive) && (rest == [] || Separates(rest[0]))
    ensures Found(source, p, spelling, kind, text)
  {
    hide NameEnd, StopAt, Separates, Marked, Whole;
    CharacterAt(source, p, spelling, rest);
    assert source[p + 0] == spelling[0];
    assert spelling == [source[p]] + text;
    MarkedFound(source, p, kind, text, rest);
  }

  lemma QuotedLexeme(source: seq<Byte>, p: nat, spelling: seq<Byte>, kind: Kind, text: seq<Byte>, rest: seq<Byte>)
    requires NulFree(source) && ReadsFrom(source, p, spelling, rest) && Writes(spelling, kind, text)
    requires kind == StringLiteral || kind == CharLiteral
    ensures Found(source, p, spelling, kind, text)
  {
    hide NameEnd, StopAt, Separates, Quoted, Whole;
    CharacterAt(source, p, spelling, rest);
    assert source[p + 0] == spelling[0];
    assert spelling == [source[p]] + text + [source[p]];
    QuotedFound(source, p, kind, text, rest);
  }

  lemma CommentLexeme(source: seq<Byte>, p: nat, spelling: seq<Byte>, text: seq<Byte>, rest: seq<Byte>)
    requires NulFree(source) && ReadsFrom(source, p, spelling, rest) && Writes(spelling, Comment, text)
    requires rest == [] || rest[0] == 10
    ensures Found(source, p, spelling, Comment, text)
  {
    hide NameEnd, StopAt, Separates, Whole;
    CharacterAt(source, p, spelling, rest);
    assert source[p + 0] == spelling[0];
    CommentFound(source, p, text, rest);
  }

  lemma NumberLexeme(source: seq<Byte>, p: nat, spelling: seq<Byte>, base: nat, text: seq<Byte>, rest: seq<Byte>)
    requires NulFree(source) && ReadsFrom(source, p, spelling, rest) && Writes(spelling, Integer(base), text)
    requires rest == [] || Separates(rest[0]) || rest[0] == 59
    ensures Found(source, p, spelling, Integer(base), text)
  {
    hide NameEnd, StopAt, Separates, Whole, Stripped, LiteralValue, WellFormed, BaseAt, NumberEnd;
    CharacterAt(source, p, spelling, rest);
    NumberStarts(spelling, text, base);
    assert source[p + 0] == spelling[0];
    NumberFound(source, p, spelling, text, base, rest);
  }

  lemma NumberStarts(spelling: seq<Byte>, text: seq<Byte>, base: nat)
    requires SpellsNumber(spelling, text, base)
    ensures spelling != [] && StartsNumber(spelling[0]) && 48 <= spelling[0] <= 57
  {
    hide LiteralValue, Stripped;
    var at := if base == 10 then 0 else 2;
    OnlyDigits(spelling[at..], base);
    if base == 10 { assert spelling[at..] == spelling; } else { assert spelling[..2][0] == spelling[0]; }
  }

  lemma SignLexeme(source: seq<Byte>, p: nat, spelling: seq<Byte>, kind: Kind, text: seq<Byte>, rest: seq<Byte>)
    requires NulFree(source) && ReadsFrom(source, p, spelling, rest) && Writes(spelling, kind, text)
    requires kind == Comma || kind == Newline
    ensures Found(source, p, spelling, kind, text)
  {
    hide NameEnd, StopAt, Separates, Whole;
    CharacterAt(source, p, spelling, rest);
    assert source[p + 0] == spelling[0];
    assert source[p..p + 1] == text;
  }

  /** Whatever is written at p is read there. */
  lemma LexemeFound(source: seq<Byte>, p: nat, spelling: seq<Byte>, kind: Kind, text: seq<Byte>, rest: seq<Byte>)
    requires NulFree(source) && ReadsFrom(source, p, spelling, rest) && Writes(spelling, kind, text)
    requires MayFollow(kind, rest)
    ensures Found(source, p, spelling, kind, text)
  {
    hide Found, ReadsFrom, Writes, Separates;
    match kind {
      case Identifier => NameLexeme(source, p, spelling, kind, text, rest);
      case LabelInit => NameLexeme(source, p, spelling, kind, text, rest);
      case Comment => CommentLexeme(source, p, spelling, text, rest);
      case StringLiteral => QuotedLexeme(source, p, spelling, kind, text, rest);
      case CharLiteral => QuotedLexeme(source, p, spelling, kind, text, rest);
      case Integer(base) => NumberLexeme(source, p, spelling, base, text, rest);
      case Comma => SignLexeme(source, p, spelling, kind, text, rest);
      case Newline => SignLexeme(source, p, spelling, kind, text, rest);
      case _ => MarkedLexeme(source, p, spelling, kind, text, rest);
    }
  }

  // ----- reading a whole text -----

  /** A token to write: the blanks before it and one of its spellings. */
  datatype Item = Item(gap: seq<Byte>, spelling: seq<Byte>, kind: Kind, text: seq<Byte>)

  predicate AllBlank(s: seq<Byte>) {
    forall k :: 0 <= k < |s| ==> Blank(s[k])
  }

  /** The text of the tokens: each with its blanks before it, and blanks at the end. */
  function Written(items: seq<Item>, trailing: seq<Byte>): seq<Byte> {
    if items == [] then trailing else items[0].gap + items[0].spelling + Written(items[1..], trailing)
  }

  /** Every token keeps to its own spelling: what follows it does not run into it. */
  predicate Separated(items: seq<Item>, trailing: seq<Byte>) {
    if items == [] then AllBlank(trailing)
    else
      && AllBlank(items[0].gap) && Writes(items[0].spelling, items[0].kind, items[0].text)
      && MayFollow(items[0].kind, Written(items[1..], trailing)) && Separated(items[1..], trailing)
  }

  /** The tokens have the kinds and texts of the items. */
  predicate Matching(tokens: seq<Token>, items: seq<Item>) {
    |tokens| == |items| &&
    forall i :: 0 <= i < |tokens| ==> tokens[i].kind == items[i].kind && AsBytes(tokens[i].text) == items[i].text
  }

  lemma BlanksSkipped(source: seq<Byte>, p: nat, n: nat)
    requires NulFree(source) && p <= n <= |source| && (forall k :: p <= k < n ==> Blank(source[k]))
    requires n < |source| ==> !IsBlank(source[n])
    ensures StopAt(source, p, IsSolid) == n
  {
    hide StopAt;
    StopsAt(source, p, n, IsSolid);
  }

  lemma ItemRead(source: seq<Byte>, p: nat, item: Item, rest: seq<Byte>) returns (next: nat)
    requires NulFree(source) && p <= |source| && source[p..] == item.gap + item.spelling + rest
    requires AllBlank(item.gap) && Writes(item.spelling, item.kind, item.text) && MayFollow(item.kind, rest)
    ensures next <= |source| && source[next..] == rest
    ensures NextToken(source, p).Ok? && NextToken(source, p).value.token.Some?
            && NextToken(source, p).value.next == next
    ensures var t := NextToken(source, p).value.token.value; t.kind == item.kind && AsBytes(t.text) == item.text
  {
    hide Writes, MayFollow, LexemeAt, StopAt, LineOf, ColumnOf;
    var at := p + |item.gap|;
    next := at + |item.spelling|;
    var whole := item.gap + item.spelling + rest;
    assert source[at..next] == whole[|item.gap|..|item.gap| + |item.spelling|] == item.spelling;
    assert source[next..] == whole[|item.gap| + |item.spelling|..] == rest;
    LexemeFound(source, at, item.spelling, item.kind, item.text, rest);
    forall k | p <= k < at ensures Blank(source[k]) {
      assert source[p..][k - p] == whole[k - p] == item.gap[k - p];
    }
    BlanksSkipped(source, p, at);
  }

  /** However tokens are spelled and spaced, the text reads back as these tokens. */
  lemma {:induction false} WrittenLexes(source: seq<Byte>, p: nat, items: seq<Item>, trailing: seq<Byte>)
    requires NulFree(source) && p <= |source| && source[p..] == Written(items, trailing) && Separated(items, trailing)
    ensures TokensFrom(source, p).Ok? && Matching(TokensFrom(source, p).value, items)
    decreases |items|
  {
    hide NextToken, Writes, MayFollow;
    if items == [] {
      TrailingRead(source, p, trailing);
    } else {
      var next := ItemRead(source, p, items[0], Written(items[1..], trailing));
      WrittenLexes(source, next, items[1..], trailing);
      var rest := TokensFrom(source, next).value;
      assert TokensFrom(source, p).value == [NextToken(source, p).value.token.value] + rest;
    }
  }

  lemma TrailingRead(source: seq<Byte>, p: nat, trailing: seq<Byte>)
    requires NulFree(source) && p <= |source| && source[p..] == trailing && AllBlank(trailing)
    ensures TokensFrom(source, p) == Ok([])
  {
    hide StopAt, LexemeAt;
    forall k | p <= k < |source| ensures Blank(source[k]) {
      assert source[p..][k - p] == source[k];
    }
    BlanksSkipped(source, p, |source|);
  }

  // ----- numerals -----

  /**
    The usual numeral of a number behind the prefix of its base is one integer token of that
    base, whose text is the numeral and converts back to the number.
   */
  lemma NumeralLexes(prefix: seq<Byte>, base: nat, n: DWord) returns (t: Token)
    requires Supported(base) && IsPrefix(prefix, base)
    ensures NulFree(prefix + Numeral(n, base))
    ensures TokensFrom(prefix + Numeral(n, base), 0) == Ok([t])
    ensures t.kind == Integer(base) && AsBytes(t.text) == Numeral(n, base)
    ensures Converted(AsBytes(t.text), base) == Ok(n)
  {
    hide Numeral, LiteralValue, Stripped, Converted, WellFormed, IsDigitForBase, NextToken, SpellsNumber;
    var digits := Numeral(n, base);
    var source := prefix + digits;
    NumeralSpells(prefix, base, n);
    var item := Item([], source, Integer(base), digits);
    assert [item][1..] == [];
    assert source[0..] == Written([item], []);
    assert Separated([item], []);
    WrittenLexes(source, 0, [item], []);
    var tokens := TokensFrom(source, 0).value;
    t := tokens[0];
    assert tokens == [t];
    NumeralConverts(base, n);
  }

  lemma NumeralSpells(prefix: seq<Byte>, base: nat, n: DWord)
    requires Supported(base) && IsPrefix(prefix, base)
    ensures NulFree(prefix + Numeral(n, base)) && SpellsNumber(prefix + Numeral(n, base), Numeral(n, base), base)
  {
    hide Numeral, LiteralValue, Stripped, WellFormed, IsDigitForBase;
    var digits, at := Numeral(n, base), if base == 10 then 0 else 2;
    NumeralValue(n, base);
    NumeralRoundTrip(n, base);
    NoDelimiters(digits, base);
    var source := prefix + digits;
    assert source[..at] == prefix && source[at..] == digits;
    forall i | 0 <= i < |source| ensures source[i] != 0 {
      if i >= at { assert source[i] == digits[i - at]; }
    }
  }

  lemma {:induction false} NoDelimiters(digits: seq<Byte>, base: nat)
    requires Supported(base) && AllDigits(digits, base)
    ensures Stripped(digits) == digits && forall i :: 0 <= i < |digits| ==> digits[i] != 0
  {
    if digits != [] { NoDelimiters(digits[..|digits| - 1], base); }
  }

  lemma NumeralConverts(base: nat, n: DWord)
    requires Supported(base)
    ensures Converted(Numeral(n, base), base) == Ok(n)
  {
    hide Numeral, LiteralValue, Stripped, WellFormed, IsDigitForBase, Converted;
    NumeralValue(n, base);
    NumeralRoundTrip(n, base);
    NoDelimiters(Numeral(n, base), base);
    ConvertedStripped(Numeral(n, base), base);
  }
}
