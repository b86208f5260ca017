/** What the tokens of a source say about it: all of it is accounted for, and every token stands where it says. */
module LexerProofs {
  import opened Bytes
  import opened Numbers
  import opened Tokens
  import opened Lexer

  function End(t: Token): nat {
    t.place.pos + t.place.size
  }

  /** The characters a token was read from: its mark, quotes or colon, and an integer's prefix and delimiters. */
  predicate Spells(spelling: seq<Byte>, kind: Kind, text: seq<Byte>) {
    match kind
    case LabelInit => spelling == text + [58]
    case LabelUse => spelling == [35] + text
    case Register => spelling == [36] + text
    case Directive => spelling == [46] + text
    case Comment => spelling == [59] + text
    case StringLiteral => spelling == [34] + text + [34]
    case CharLiteral => spelling == [39] + text + [39]
    case Integer(base) => SpellsNumber(spelling, text, base)
    case _ => spelling == text
  }

  /** What stands before the digits: 0x, 0o or 0b, in either case of the letter, or nothing for base 10. */
  predicate IsPrefix(prefix: seq<Byte>, base: nat) {
    match base
    case 16 => prefix == [48, 120] || prefix == [48, 88]
    case 8 => prefix == [48, 111] || prefix == [48, 79]
    case 2 => prefix == [48, 98] || prefix == [48, 66]
    case 10 => prefix == []
    case _ => false
  }

  /** A prefix and digits, delimiters between them left out of the text, whose value fits 64 bits. */
  predicate SpellsNumber(spelling: seq<Byte>, text: seq<Byte>, base: nat) {
    var at := if base == 10 then 0 else 2;
    && at <= |spelling| && IsPrefix(spelling[..at], base)
    && var digits := spelling[at..];
       text == Stripped(digits) && WellFormed(digits, base) && LiteralValue(digits, base) <= DWORD_MAX
  }

  /** A token lies in the source where its place says, line and column included. */
  predicate Placed(source: seq<Byte>, t: Token) {
    && 0 < t.place.size && End(t) <= |source|
    && t.place == PlaceOf(source, t.place.pos, End(t)) && Spells(source[t.place.pos..End(t)], t.kind, AsBytes(t.text))
  }

  predicate Inside(t: Token, k: nat) {
    t.place.pos <= k < End(t)
  }

  predicate InSome(tokens: seq<Token>, k: nat) {
    exists i :: 0 <= i < |tokens| && Inside(tokens[i], k)
  }

  /** The tokens follow each other in the source from p on, and what lies between them is blank. */
  predicate Covers(source: seq<Byte>, p: nat, tokens: seq<Token>) {
    && (forall i :: 0 <= i < |tokens| ==> Placed(source, tokens[i]) && p <= tokens[i].place.pos)
    && (forall i, j :: 0 <= i < j < |tokens| ==> End(tokens[i]) <= tokens[j].place.pos)
    && (forall k :: p <= k < |source| && !InSome(tokens, k) ==> IsBlank(source[k]))
  }

  // ----- one token -----

  lemma NumberSlice(source: seq<Byte>, p: nat, end: nat)
    requires p < |source| && end == NumberEnd(source, p) && p < end && DigitsStart(source, p) < end
    ensures var s, base := source[p..end], BaseAt(source, p);
            var at := if base == 10 then 0 else 2;
            at <= |s| && IsPrefix(s[..at], base) && s[at..] == source[DigitsStart(source, p)..end]
  {
    var s := source[p..end];
    if BaseAt(source, p) != 10 { assert s[..2] == [48, source[p + 1]]; }
  }

  lemma MarkedSpelled(source: seq<Byte>, p: nat, kind: Kind)
    requires NulFree(source) && p < |source|
    ensures var x := Marked(source, p, kind); source[p..x.end] == [source[p]] + AsBytes(x.text)
  {
    hide StopAt;
  }

  lemma QuotedSpelled(source: seq<Byte>, p: nat, kind: Kind)
    requires NulFree(source) && p < |source| && Quoted(source, p, kind).Ok?
    ensures var x := Quoted(source, p, kind).value; source[p..x.end] == [source[p]] + AsBytes(x.text) + [source[p]]
  {
    hide StopAt;
  }

  lemma NameSpelled(source: seq<Byte>, p: nat)
    requires NulFree(source) && p < |source| && NameAt(source, p).Ok?
    ensures var x := NameAt(source, p).value; p <= x.end && Spells(source[p..x.end], x.kind, AsBytes(x.text))
  {
    hide NameEnd;
    var end := NameEnd(source, p).value;
    if end > p && source[end - 1] == LABEL_INIT_MARK {
      assert source[p..end] == source[p..end - 1] + [source[end - 1]];
    }
    TextBytes(source, p, NameAt(source, p).value.text);
  }

  lemma TextBytes(source: seq<Byte>, p: nat, text: CString)
    requires p + |text| <= |source| && text == source[p..p + |text|]
    ensures AsBytes(text) == source[p..p + |text|]
  {
  }

  /** Whatever is read at p is spelled there. */
  lemma LexemeSpelled(source: seq<Byte>, p: nat)
    requires NulFree(source) && p < |source| && !IsBlank(source[p]) && LexemeAt(source, p).Ok?
    ensures var x := LexemeAt(source, p).value; Spells(source[p..x.end], x.kind, AsBytes(x.text))
  {
    hide StopAt, Marked, Quoted, NumberAt, NameAt, SpellsNumber;
    var c, x := source[p], LexemeAt(source, p).value;
    if c == NEWLINE || c == COMMA {
      TextBytes(source, p, x.text);
    } else if c == COMMENT_MARK {
      TextBytes(source, p + 1, x.text);
      assert source[p..x.end] == [c] + source[p + 1..x.end];
    } else if c == LABEL_USE_MARK || c == REGISTER_MARK || c == DIRECTIVE_MARK {
      var kind := if c == LABEL_USE_MARK then LabelUse else if c == REGISTER_MARK then Register else Directive;
      MarkedSpelled(source, p, kind);
      MarkedKind(source, p, kind);
    } else if c == STRING_QUOTE || c == CHAR_QUOTE {
      var kind := if c == STRING_QUOTE then StringLiteral else CharLiteral;
      QuotedSpelled(source, p, kind);
      QuotedKind(source, p, kind);
    } else if StartsNumber(c) {
      NumberSpelled(source, p);
    } else {
      NameSpelled(source, p);
    }
  }

  lemma MarkedKind(source: seq<Byte>, p: nat, kind: Kind)
    requires NulFree(source) && p < |source|
    ensures Marked(source, p, kind).kind == kind
  {
  }

  lemma QuotedKind(source: seq<Byte>, p: nat, kind: Kind)
    requires NulFree(source) && p < |source| && Quoted(source, p, kind).Ok?
    ensures Quoted(source, p, kind).value.kind == kind
  {
  }

  lemma NumberSpelled(source: seq<Byte>, p: nat)
    requires NulFree(source) && p < |source| && StartsNumber(source[p]) && NumberAt(source, p).Ok?
    ensures var x := NumberAt(source, p).value;
            && x.kind == Integer(BaseAt(source, p)) && p < x.end
            && SpellsNumber(source[p..x.end], AsBytes(x.text), BaseAt(source, p))
  {
    hide StopAt, WellFormed, LiteralValue, Stripped;
    var end := NumberEnd(source, p);
    NotEmptyLiteral(source[DigitsStart(source, p)..end], BaseAt(source, p));
    NumberSlice(source, p, end);
    TextBytes(Stripped(source[DigitsStart(source, p)..end]), 0, NumberAt(source, p).value.text);
  }

  // ----- the whole source -----

  lemma NextPlaced(source: seq<Byte>, p: nat)
    requires NulFree(source) && p <= |source| && NextToken(source, p).Ok?
    ensures var read := NextToken(source, p).value;
            && (forall k :: p <= k < (if read.token.Some? then read.token.value.place.pos else |source|) ==>
                  k < |source| && IsBlank(source[k]))
            && (read.token.Some? ==>
                Placed(source, read.token.value) && p <= read.token.value.place.pos
                && End(read.token.value) == read.next)
  {
    hide LexemeAt, LineOf, ColumnOf, Spells;
    var start := StopAt(source, p, IsSolid);
    forall k | p <= k < start ensures IsBlank(source[k]) {
      assert !IsSolid(source[k]);
    }
    if start < |source| { LexemeSpelled(source, start); }
  }

  /**
    Lexing loses nothing but blanks: the tokens lie in the source in order without
    overlap, each spelled there as it says, and every character between them is white
    space within a line.
   */
  lemma {:induction false} TokensCover(source: seq<Byte>, p: nat)
    requires NulFree(source) && p <= |source| && TokensFrom(source, p).Ok?
    ensures Covers(source, p, TokensFrom(source, p).value)
    decreases |source| - p
  {
    hide NextToken, Covers, Placed;
    var read := NextToken(source, p).value;
    NextPlaced(source, p);
    if read.token.Some? {
      TokensCover(source, read.next);
      CoverOneMore(source, p, read.token.value, TokensFrom(source, read.next).value);
    } else {
      CoverNothing(source, p);
    }
  }

  lemma CoverNothing(source: seq<Byte>, p: nat)
    requires forall k :: p <= k < |source| ==> IsBlank(source[k])
    ensures Covers(source, p, [])
  {
  }

  lemma CoverOneMore(source: seq<Byte>, p: nat, t: Token, rest: seq<Token>)
    requires Placed(source, t) && p <= t.place.pos && Covers(source, End(t), rest)
    requires forall k :: p <= k < t.place.pos ==> k < |source| && IsBlank(source[k])
    ensures Covers(source, p, [t] + rest)
  {
    hide Placed, IsBlank;
    var all := [t] + rest;
    PlacedInside(source, t);
    forall i | 0 <= i < |all| ensures Placed(source, all[i]) && p <= all[i].place.pos {
      assert i > 0 ==> all[i] == rest[i - 1];
    }
    forall i, j | 0 <= i < j < |all| ensures End(all[i]) <= all[j].place.pos {
      assert all[j] == rest[j - 1] && (i > 0 ==> all[i] == rest[i - 1]);
    }
    forall k | p <= k < |source| && !InSome(all, k) ensures IsBlank(source[k]) {
      assert !Inside(all[0], k);
      if k >= End(t) { NotInRest(t, rest, k); }
    }
  }

  lemma PlacedInside(source: seq<Byte>, t: Token)
    requires Placed(source, t)
    ensures t.place.pos < End(t) <= |source|
  {
  }

  lemma NotInRest(t: Token, rest: seq<Token>, k: nat)
    requires !InSome([t] + rest, k)
    ensures !InSome(rest, k)
  {
    hide Inside;
    forall i | 0 <= i < |rest| ensures !Inside(rest[i], k) {
      assert ([t] + rest)[i + 1] == rest[i];
    }
  }

  /** The value of a named argument is the one token its text consists of. */
  lemma OnlyTokenIsAll(text: CString)
    ensures OnlyToken(text).Ok? <==> TokensFrom(AsBytes(text), 0).Ok? && |TokensFrom(AsBytes(text), 0).value| == 1
    ensures OnlyToken(text).Ok? ==> TokensFrom(AsBytes(text), 0).value == [OnlyToken(text).value]
  {
    hide NextToken;
    var source := AsBytes(text);
    var first := NextToken(source, 0);
    if first.Ok? && first.value.token.Some? {
      var rest := TokensFrom(source, first.value.next);
      var second := NextToken(source, first.value.next);
      if rest.Ok? && second.value.token.None? {
        assert [first.value.token.value] + rest.value == [first.value.token.value];
      }
    }
  }
}
