/**
  What a macro call emits, told on source tokens: the lines between the definition's
  header and its .endmacro, with the call's arguments for the parameters.
 */
module MacroCalls {
  import opened Wrappers
  import opened Bytes
  import opened Diagnostics
  import opened Tokens
  import opened Macros
  import opened MacroProofs

  // ----- reading a line -----

  /** The items of a line: its tokens before a comment, without commas. */
  predicate Lists(line: seq<Token>, items: seq<Token>) {
    if line == [] || line[0].kind == Comment then items == []
    else if line[0].kind == Comma then Lists(line[1..], items)
    else items != [] && items[0] == line[0] && Lists(line[1..], items[1..])
  }

  lemma CommaLast(line: seq<Token>)
    requires line != []
    ensures WithoutCommas(line)
            == WithoutCommas(line[..|line| - 1])
               + (if line[|line| - 1].kind == Comma then [] else [line[|line| - 1]])
  {
  }

  lemma {:induction false} WithoutCommasFront(line: seq<Token>)
    requires line != []
    ensures WithoutCommas(line) == (if line[0].kind == Comma then [] else [line[0]]) + WithoutCommas(line[1..])
  {
    var front, rest := line[..|line| - 1], line[1..];
    if front == [] {
      assert rest == [];
    } else {
      WithoutCommasFront(front);
      assert front[1..] == rest[..|rest| - 1] && front[0] == line[0] && rest[|rest| - 1] == line[|line| - 1];
      CommaLast(rest);
      CommaLast(line);
    }
  }

  lemma {:induction false} ArgumentsListed(line: seq<Token>)
    ensures Lists(line, Arguments(line))
  {
    if line != [] && line[0].kind != Comment {
      ArgumentsListed(line[1..]);
      var n := FirstComment(line);
      assert n == 1 + FirstComment(line[1..]);
      WithoutCommasFront(line[..n]);
      assert line[..n][1..] == line[1..][..n - 1];
      var items, rest := Arguments(line), Arguments(line[1..]);
      assert items == (if line[0].kind == Comma then [] else [line[0]]) + rest;
      if line[0].kind == Comma { assert items == rest; } else { assert items[1..] == rest; }
    }
  }

  lemma {:induction false} ListsOnce(line: seq<Token>, items: seq<Token>)
    requires Lists(line, items)
    ensures items == Arguments(line)
  {
    ArgumentsListed(line);
    SameItems(line, items, Arguments(line));
  }

  lemma {:induction false} SameItems(line: seq<Token>, items: seq<Token>, others: seq<Token>)
    requires Lists(line, items) && Lists(line, others)
    ensures items == others
  {
    if line != [] && line[0].kind != Comment {
      if line[0].kind == Comma {
        SameItems(line[1..], items, others);
      } else {
        SameItems(line[1..], items[1..], others[1..]);
        assert items == [items[0]] + items[1..] && others == [others[0]] + others[1..];
      }
    }
  }

  // ----- the definition -----

  /** No such directive stands between the two places. */
  predicate NoneIn(tokens: seq<Token>, from: nat, to: nat, directive: CString)
    requires to <= |tokens|
  {
    forall k :: from <= k < to ==> !IsDirective(tokens[k], directive)
  }

  /** The first newline behind token i is at n. */
  predicate EndsLine(tokens: seq<Token>, i: nat, n: nat) {
    i < n < |tokens| && tokens[n].kind == Newline && forall k :: i <= k < n ==> tokens[k].kind != Newline
  }

  /** No comment stands before token i on its line. */
  predicate Uncommented(tokens: seq<Token>, i: nat)
    requires i < |tokens|
  {
    forall k :: 0 <= k < i && tokens[k].kind == Comment ==> exists n :: k < n < i && tokens[n].kind == Newline
  }

  /**
    A macro is defined at token i: the header's line ends at h, its items are the
    parameters, and the first .endmacro behind it is at e.
   */
  predicate Defines(tokens: seq<Token>, i: nat, h: nat, e: nat, parameters: seq<Token>) {
    && EndsLine(tokens, i, h) && i + 1 < h < e < |tokens|
    && IsDirective(tokens[i], MACRO) && Uncommented(tokens, i) && Lists(tokens[i + 2..h], parameters)
    && IsDirective(tokens[e], ENDMACRO) && NoneIn(tokens, h + 1, e, MACRO) && NoneIn(tokens, i, e, ENDMACRO)
  }

  lemma {:induction false} ParametersAre(arguments: seq<Token>)
    requires Fold(ParameterAdder(), [], arguments).Ok?
    ensures Fold(ParameterAdder(), [], arguments).value == arguments
  {
    if arguments != [] {
      ParametersAre(arguments[..|arguments| - 1]);
      assert arguments == arguments[..|arguments| - 1] + [arguments[|arguments| - 1]];
    }
  }

  lemma BodyEndIs(tokens: seq<Token>, from: nat, e: nat)
    requires from <= e < |tokens| && IsDirective(tokens[e], ENDMACRO)
    requires NoneIn(tokens, from, e, MACRO) && NoneIn(tokens, from, e, ENDMACRO)
    ensures BodyEnd(tokens, from) == e
  {
    hide BodyEnd, IsDirective;
    var n := BodyEnd(tokens, from);
    assert n <= e;
  }

  /** What is captured is the definition's own name, parameters and body. */
  lemma DefinitionIs(macros: seq<Macro>, tokens: seq<Token>, i: nat, h: nat, e: nat, parameters: seq<Token>)
    requires Defines(tokens, i, h, e, parameters) && CaptureMacro(macros, tokens, i).Ok?
    ensures CaptureMacro(macros, tokens, i).value.macro == Macro(tokens[i + 1], parameters, tokens[h + 1..e])
  {
    hide LineEnd, BodyEnd, Arguments, Fold, NextLine, IsDirective, Lists;
    LineEndIs(tokens, i, h);
    BodyEndIs(tokens, h + 1, e);
    ListsOnce(tokens[i + 2..h], parameters);
    ParametersAre(Arguments(tokens[i + 2..h]));
  }

  predicate AllIdentifiers(tokens: seq<Token>) {
    forall t :: t in tokens ==> t.kind == Identifier
  }

  lemma OneMoreText(front: seq<Token>, last: Token)
    ensures DistinctTexts(front + [last]) <==>
            DistinctTexts(front) && forall i :: 0 <= i < |front| ==> front[i].text != last.text
  {
    var all := front + [last];
    if DistinctTexts(all) {
      forall i, j | 0 <= i < j < |front| ensures front[i].text != front[j].text {
        assert all[i] == front[i] && all[j] == front[j];
      }
      forall i | 0 <= i < |front| ensures front[i].text != last.text {
        assert all[i] == front[i] && all[|front|] == last;
      }
    }
  }

  lemma OneMoreIdentifier(front: seq<Token>, last: Token)
    ensures AllIdentifiers(front + [last]) <==> AllIdentifiers(front) && last.kind == Identifier
  {
    assert last in front + [last];
    assert forall t :: t in front ==> t in front + [last];
  }

  lemma OneMoreParameter(front: seq<Token>, last: Token)
    ensures DistinctTexts(front + [last]) <==>
            DistinctTexts(front) && ParameterIndex(front, last.text) == |front|
    ensures AllIdentifiers(front + [last]) <==> AllIdentifiers(front) && last.kind == Identifier
  {
    hide ParameterIndex, DistinctTexts, AllIdentifiers;
    OneMoreText(front, last);
    OneMoreIdentifier(front, last);
  }

  lemma {:induction false} ParametersAccepted(arguments: seq<Token>)
    ensures Fold(ParameterAdder(), [], arguments).Ok? <==> DistinctTexts(arguments) && AllIdentifiers(arguments)
  {
    hide ParameterIndex, DistinctTexts, AllIdentifiers;
    if arguments == [] {
      NoParameters();
    } else {
      var front, last := arguments[..|arguments| - 1], arguments[|arguments| - 1];
      ParametersAccepted(front);
      OneMoreParameter(front, last);
      assert arguments == front + [last];
      if Fold(ParameterAdder(), [], front).Ok? { ParametersAre(front); }
    }
  }

  lemma NoParameters()
    ensures DistinctTexts([]) && AllIdentifiers([])
  {
  }

  /**
    A definition that is well formed: a new name, distinct identifiers as parameters, and
    an .endmacro before any further .macro with nothing but comments behind it.
   */
  predicate WellFormedAt(macros: seq<Macro>, tokens: seq<Token>, i: nat, h: nat, e: nat, parameters: seq<Token>) {
    && EndsLine(tokens, i, h) && i + 1 < h < e < |tokens|
    && tokens[i + 1].kind == Identifier && (forall m :: m in macros ==> m.name.text != tokens[i + 1].text)
    && Lists(tokens[i + 2..h], parameters) && DistinctTexts(parameters) && AllIdentifiers(parameters)
    && IsDirective(tokens[e], ENDMACRO) && NoneIn(tokens, h + 1, e, MACRO) && NoneIn(tokens, h + 1, e, ENDMACRO)
    && OnlyComments(tokens, e)
  }

  /** Whatever stands behind token e is a comment, up to the next newline. */
  predicate OnlyComments(tokens: seq<Token>, e: nat) {
    forall k :: e < k < |tokens| && tokens[k].kind != Comment ==> exists n :: e < n <= k && tokens[n].kind == Newline
  }

  /** A definition is captured exactly when it is well formed. */
  lemma DefinitionAccepted(macros: seq<Macro>, tokens: seq<Token>, i: nat)
    requires i < |tokens| && IsDirective(tokens[i], MACRO)
    ensures CaptureMacro(macros, tokens, i).Ok? <==>
            exists h: nat, e: nat, parameters :: WellFormedAt(macros, tokens, i, h, e, parameters)
  {
    hide CaptureMacro, WellFormedAt;
    if CaptureMacro(macros, tokens, i).Ok? {
      var h, e, parameters := AcceptedIsFormed(macros, tokens, i);
    }
    forall h: nat, e: nat, parameters | WellFormedAt(macros, tokens, i, h, e, parameters)
      ensures CaptureMacro(macros, tokens, i).Ok?
    {
      FormedIsAccepted(macros, tokens, i, h, e, parameters);
    }
  }

  lemma AcceptedIsFormed(macros: seq<Macro>, tokens: seq<Token>, i: nat)
    returns (h: nat, e: nat, parameters: seq<Token>)
    requires i < |tokens| && IsDirective(tokens[i], MACRO) && CaptureMacro(macros, tokens, i).Ok?
    ensures WellFormedAt(macros, tokens, i, h, e, parameters)
  {
    hide LineEnd, BodyEnd, Arguments, Fold, FindMacro, NextLine, Lists, DistinctTexts, OnlyComments;
    h := LineEnd(tokens, i);
    e := BodyEnd(tokens, h + 1);
    parameters := Arguments(tokens[i + 2..h]);
    ParametersAccepted(parameters);
    ParametersAre(parameters);
    ArgumentsListed(tokens[i + 2..h]);
    CommentsBehind(tokens, e);
  }

  lemma FormedIsAccepted(macros: seq<Macro>, tokens: seq<Token>, i: nat, h: nat, e: nat, parameters: seq<Token>)
    requires i < |tokens| && IsDirective(tokens[i], MACRO) && WellFormedAt(macros, tokens, i, h, e, parameters)
    ensures CaptureMacro(macros, tokens, i).Ok?
  {
    hide LineEnd, BodyEnd, Arguments, Fold, FindMacro, NextLine, Lists, DistinctTexts, OnlyComments;
    LineEndIs(tokens, i, h);
    BodyEndIs(tokens, h + 1, e);
    ListsOnce(tokens[i + 2..h], parameters);
    ParametersAccepted(parameters);
    CommentsBehind(tokens, e);
    EndmacroOnly(tokens[e]);
  }

  lemma EndmacroOnly(t: Token)
    requires IsDirective(t, ENDMACRO)
    ensures !IsDirective(t, MACRO)
  {
    assert MACRO[0] != ENDMACRO[0];
  }

  lemma CommentsBehind(tokens: seq<Token>, e: nat)
    requires e < |tokens| && tokens[e].kind != Newline
    ensures OnlyComments(tokens, e) <==>
            !exists k :: e < k < LineEnd(tokens, e) && tokens[k].kind != Comment
  {
    hide LineEnd;
    var l := LineEnd(tokens, e);
    if OnlyComments(tokens, e) {
      forall k | e < k < l ensures tokens[k].kind == Comment {
      }
    }
  }

  // ----- no definition is missed -----

  lemma {:induction false} CaptureKeeps(macros: seq<Macro>, tokens: seq<Token>, p: nat, m: Macro)
    requires p <= |tokens| && Capture(macros, tokens, p).Ok? && m in macros
    ensures m in Capture(macros, tokens, p).value
    decreases |tokens| - p
  {
    hide CaptureMacro, IsDirective;
    if p < |tokens| {
      if IsDirective(tokens[p], MACRO) {
        var d := CaptureMacro(macros, tokens, p).value;
        CaptureKeeps([d.macro] + macros, tokens, d.next, m);
      } else {
        CaptureKeeps(macros, tokens, p + 1, m);
      }
    }
  }

  lemma {:induction false} ItemOf(line: seq<Token>, k: nat)
    requires k < |line| && line[k].kind != Comma && forall j :: 0 <= j <= k ==> line[j].kind != Comment
    ensures line[k] in Arguments(line)
  {
    var n := FirstComment(line);
    assert k < n;
    KeptItem(line[..n], k);
  }

  lemma {:induction false} KeptItem(line: seq<Token>, k: nat)
    requires k < |line| && line[k].kind != Comma
    ensures line[k] in WithoutCommas(line)
  {
    var front := line[..|line| - 1];
    if k < |front| { KeptItem(front, k); }
  }

  /** A captured definition reaches over no other one. */
  lemma NothingInside(macros: seq<Macro>, tokens: seq<Token>, p: nat, i: nat)
    requires p < i < |tokens| && IsDirective(tokens[p], MACRO) && IsDirective(tokens[i], MACRO)
    requires Uncommented(tokens, i) && CaptureMacro(macros, tokens, p).Ok?
    ensures CaptureMacro(macros, tokens, p).value.next <= i
  {
    hide LineEnd, BodyEnd, Arguments, Fold;
    var header := LineEnd(tokens, p);
    var end := BodyEnd(tokens, header + 1);
    if i < header {
      NotInHeader(tokens, p, i, header);
      ParametersDistinct(Arguments(tokens[p + 2..header]));
      ParametersAre(Arguments(tokens[p + 2..header]));
    } else {
      assert i != header && !(header < i < end) && i != end;
    }
  }

  lemma NotInHeader(tokens: seq<Token>, p: nat, i: nat, header: nat)
    requires p + 1 < i < header <= |tokens| && forall k :: p <= k < header ==> tokens[k].kind != Newline
    requires tokens[i].kind == Directive && Uncommented(tokens, i)
    ensures tokens[i] in Arguments(tokens[p + 2..header])
  {
    hide Arguments;
    var line := tokens[p + 2..header];
    forall j | 0 <= j <= i - p - 2 ensures line[j].kind != Comment {
      assert line[j] == tokens[p + 2 + j];
    }
    assert line[i - p - 2] == tokens[i];
    ItemOf(line, i - p - 2);
  }

  /** Every definition is captured. */
  lemma {:induction false} DefinitionFound(macros: seq<Macro>, tokens: seq<Token>, p: nat, i: nat)
    returns (before: seq<Macro>)
    requires p <= i < |tokens| && Capture(macros, tokens, p).Ok?
    requires IsDirective(tokens[i], MACRO) && Uncommented(tokens, i)
    ensures CaptureMacro(before, tokens, i).Ok?
    ensures CaptureMacro(before, tokens, i).value.macro in Capture(macros, tokens, p).value
    decreases |tokens| - p
  {
    hide CaptureMacro, IsDirective, Uncommented;
    if IsDirective(tokens[p], MACRO) {
      var d := CaptureMacro(macros, tokens, p).value;
      if p == i {
        before := macros;
        CaptureKeeps([d.macro] + macros, tokens, d.next, d.macro);
      } else {
        NothingInside(macros, tokens, p, i);
        before := DefinitionFound([d.macro] + macros, tokens, d.next, i);
      }
    } else {
      before := DefinitionFound(macros, tokens, p + 1, i);
    }
  }

  /** In a program whose definitions are accepted, a macro's name finds its definition. */
  lemma NameFindsDefinition(tokens: seq<Token>, i: nat, h: nat, e: nat, parameters: seq<Token>)
    requires Capture([], tokens, 0).Ok? && Defines(tokens, i, h, e, parameters)
    ensures FindMacro(Capture([], tokens, 0).value, tokens[i + 1].text)
            == Some(Macro(tokens[i + 1], parameters, tokens[h + 1..e]))
    ensures DistinctTexts(parameters)
  {
    hide Capture, CaptureMacro, FindMacro, WellDefined, Lists, Uncommented, IsDirective;
    var macros := Capture([], tokens, 0).value;
    var before := DefinitionFound([], tokens, 0, i);
    DefinitionIs(before, tokens, i, h, e, parameters);
    CapturedWell([], tokens, 0);
    var m := Macro(tokens[i + 1], parameters, tokens[h + 1..e]);
    OnlyOne(macros, m);
  }

  lemma OnlyOne(macros: seq<Macro>, m: Macro)
    requires WellCaptured(macros) && m in macros
    ensures FindMacro(macros, m.name.text) == Some(m) && DistinctTexts(m.parameters)
  {
    hide FindMacro;
    var found := FindMacro(macros, m.name.text);
    assert found.Some?;
    var a :| 0 <= a < |macros| && macros[a] == m;
    var b :| 0 <= b < |macros| && macros[b] == found.value;
  }

  // ----- binding -----

  /** Arguments that bind: the first ones by position, the others each to a parameter of its own, with a value. */
  ghost predicate Proper(macro: Macro, arguments: seq<Token>, positions: nat, lex: ArgumentLexer) {
    && |arguments| == |macro.parameters| && positions <= |arguments|
    && (forall j :: 0 <= j < positions ==> !IsNamed(arguments[j]))
    && (forall k :: positions <= k < |arguments| ==> ProperNamed(arguments[k], lex))
    && NamedOnce(macro, arguments, positions)
  }

  /** A named argument has a name before its first `=` and behind it one token. */
  predicate ProperNamed(argument: Token, lex: ArgumentLexer) {
    && IsNamed(argument)
    && var equals := EqualsIndex(argument.text).value;
       0 < equals && equals + 1 < |argument.text| && lex(argument.text[equals + 1..]).Ok?
  }

  /** Only what the first k arguments bind has a value. */
  predicate OnlyBound(macro: Macro, arguments: seq<Token>, values: seq<Option<Token>>, positions: nat) {
    forall x :: 0 <= x < |values| && values[x].Some? ==>
      x < positions || exists j :: positions <= j < |arguments| && NamedIndex(macro, arguments[j]) == x
  }

  lemma {:induction false} ProperBinds(macro: Macro, arguments: seq<Token>, positions: nat, invocation: Token,
                                       lex: ArgumentLexer, k: nat)
    requires Proper(macro, arguments, positions, lex) && k <= |arguments|
    ensures var bound := Fold(Binder(macro, invocation, lex), Unbound(|macro.parameters|), arguments[..k]);
            && bound.Ok? && |bound.value.values| == |macro.parameters|
            && bound.value.positions == (if k < positions then k else positions)
            && bound.value.named == (positions < k)
            && OnlyBound(macro, arguments[..k], bound.value.values, bound.value.positions)
  {
    hide Proper, OnlyBound, BindStep;
    if k == 0 {
      NothingBound(macro);
    } else {
      var step := Binder(macro, invocation, lex);
      FoldStep(step, Unbound(|macro.parameters|), arguments, k - 1);
      ProperBinds(macro, arguments, positions, invocation, lex, k - 1);
      var b := Fold(step, Unbound(|macro.parameters|), arguments[..k - 1]).value;
      StepIsBound(macro, arguments, positions, invocation, lex, k - 1, b);
    }
  }

  lemma NothingBound(macro: Macro)
    ensures OnlyBound(macro, [], Unbound(|macro.parameters|).values, 0)
  {
  }

  lemma StepIsBound(macro: Macro, arguments: seq<Token>, positions: nat, invocation: Token, lex: ArgumentLexer, k: nat,
                    b: Binding)
    requires Proper(macro, arguments, positions, lex) && k < |arguments| && |b.values| == |macro.parameters|
    requires b.positions == (if k < positions then k else positions) && b.named == (positions < k)
    requires OnlyBound(macro, arguments[..k], b.values, b.positions)
    ensures var bound := BindStep(macro, b, arguments[k], invocation, lex);
            && bound.Ok? && |bound.value.values| == |macro.parameters|
            && bound.value.positions == (if k + 1 < positions then k + 1 else positions)
            && bound.value.named == (positions < k + 1)
            && OnlyBound(macro, arguments[..k + 1], bound.value.values, bound.value.positions)
  {
    hide EqualsIndex, IsNamed, Cloned;
    var argument := arguments[k];
    if k < positions {
      assert !IsNamed(argument);
    } else {
      assert ProperNamed(argument, lex);
      var index := NamedIndex(macro, argument);
      assert positions <= index < |macro.parameters|;
      StillUnbound(macro, arguments, positions, k, b.values);
      var next, now := BindStep(macro, b, argument, invocation, lex).value, arguments[..k + 1];
      forall x | 0 <= x < |next.values| && next.values[x].Some?
        ensures x < positions || exists j :: positions <= j < |now| && NamedIndex(macro, now[j]) == x
      {
        if x == index {
          assert NamedIndex(macro, now[k]) == x;
        } else if x >= positions {
          var j :| positions <= j < |arguments[..k]| && NamedIndex(macro, arguments[..k][j]) == x;
          assert NamedIndex(macro, now[j]) == x;
        }
      }
    }
  }

  lemma StillUnbound(macro: Macro, arguments: seq<Token>, positions: nat, k: nat, values: seq<Option<Token>>)
    requires NamedOnce(macro, arguments, positions) && positions <= k < |arguments| && |values| == |macro.parameters|
    requires OnlyBound(macro, arguments[..k], values, positions)
    ensures values[NamedIndex(macro, arguments[k])].None?
  {
    hide NamedIndex;
    assert forall j :: positions <= j < k ==> arguments[..k][j] == arguments[j];
  }

  /** The value each parameter gets: an argument by position, or the token behind its name's `=`, put at the call. */
  ghost predicate ValueOf(macro: Macro, arguments: seq<Token>, positions: nat, lex: ArgumentLexer, place: Location,
                          x: nat, value: Token)
  {
    if x < positions then x < |arguments| && value == arguments[x]
    else exists k :: positions <= k < |arguments| && NamedIndex(macro, arguments[k]) == x && IsNamed(arguments[k])
                     && NamedValue(arguments[k], lex, place) == Some(value)
  }

  function NamedValue(argument: Token, lex: ArgumentLexer, place: Location): Option<Token>
    requires IsNamed(argument)
  {
    var value := lex(argument.text[EqualsIndex(argument.text).value + 1..]);
    if value.Err? then None else Some(value.value.(place := place))
  }

  /** One value for each parameter. */
  ghost predicate ValuesOf(macro: Macro, arguments: seq<Token>, positions: nat, lex: ArgumentLexer, place: Location,
                           values: seq<Token>)
  {
    && |values| == |macro.parameters|
    && forall x :: 0 <= x < |values| ==> ValueOf(macro, arguments, positions, lex, place, x, values[x])
  }

  /** An invocation's arguments are accepted exactly when they bind, and then every parameter gets its value. */
  lemma ArgumentsAccepted(macro: Macro, line: seq<Token>, invocation: Token, lex: ArgumentLexer)
    ensures ReadArguments(macro, line, invocation, lex).Ok? <==>
            exists positions: nat :: Proper(macro, Arguments(line), positions, lex)
    ensures forall positions: nat | Proper(macro, Arguments(line), positions, lex) ::
              && ReadArguments(macro, line, invocation, lex).Ok?
              && ValuesOf(macro, Arguments(line), positions, lex, invocation.place,
                          ReadArguments(macro, line, invocation, lex).value)
  {
    hide Arguments, Proper, ValueOf, ReadArguments;
    if ReadArguments(macro, line, invocation, lex).Ok? {
      var positions := AcceptedIsProper(macro, line, invocation, lex);
    }
    forall positions: nat | Proper(macro, Arguments(line), positions, lex)
      ensures ReadArguments(macro, line, invocation, lex).Ok?
      ensures ValuesOf(macro, Arguments(line), positions, lex, invocation.place,
                       ReadArguments(macro, line, invocation, lex).value)
    {
      ProperIsAccepted(macro, line, invocation, lex, positions);
    }
  }

  lemma AcceptedIsProper(macro: Macro, line: seq<Token>, invocation: Token, lex: ArgumentLexer) returns (positions: nat)
    requires ReadArguments(macro, line, invocation, lex).Ok?
    ensures positions <= |Arguments(line)| && Proper(macro, Arguments(line), positions, lex)
  {
    hide Arguments, Filled;
    var arguments := Arguments(line);
    positions := ArgumentsBindOnce(macro, line, invocation, lex);
    var values := ReadArguments(macro, line, invocation, lex).value;
    var options := seq(|values|, i requires 0 <= i < |values| => Some(values[i]));
    forall k | positions <= k < |arguments| ensures ProperNamed(arguments[k], lex) {
      assert NamedBound(macro, options, arguments[k], invocation, lex);
      NamedHasParts(macro, arguments, invocation, lex, k);
    }
  }

  /** An accepted named argument has text on both sides of its `=`. */
  lemma NamedHasParts(macro: Macro, arguments: seq<Token>, invocation: Token, lex: ArgumentLexer, k: nat)
    requires k < |arguments| && IsNamed(arguments[k])
    requires Fold(Binder(macro, invocation, lex), Unbound(|macro.parameters|), arguments).Ok?
    ensures var equals := EqualsIndex(arguments[k].text).value; 0 < equals && equals + 1 < |arguments[k].text|
  {
    hide EqualsIndex, ParameterIndex, Cloned;
    var step, start := Binder(macro, invocation, lex), Unbound(|macro.parameters|);
    FoldPrefix(step, start, arguments, k);
    FoldPrefix(step, start, arguments, k + 1);
    FoldStep(step, start, arguments, k);
    assert BindStep(macro, Fold(step, start, arguments[..k]).value, arguments[k], invocation, lex).Ok?;
  }

  lemma ProperIsAccepted(macro: Macro, line: seq<Token>, invocation: Token, lex: ArgumentLexer, positions: nat)
    requires Proper(macro, Arguments(line), positions, lex)
    ensures ReadArguments(macro, line, invocation, lex).Ok?
    ensures ValuesOf(macro, Arguments(line), positions, lex, invocation.place,
                     ReadArguments(macro, line, invocation, lex).value)
  {
    hide Arguments, Filled, Binder, Unbound, NamedOnce, NamedIndex, ProperNamed;
    var arguments := Arguments(line);
    ProperBinds(macro, arguments, positions, invocation, lex, |arguments|);
    assert arguments[..|arguments|] == arguments;
    BindingHolds(macro, arguments, invocation, lex);
    var b := Fold(Binder(macro, invocation, lex), Unbound(|macro.parameters|), arguments).value;
    var values := ReadArguments(macro, line, invocation, lex).value;
    forall x | 0 <= x < |values| ensures ValueOf(macro, arguments, positions, lex, invocation.place, x, values[x]) {
      assert b.values[x] in b.values && b.values[x] == Some(values[x]);
      BoundHasValue(macro, arguments, positions, invocation, lex, b, x, values[x]);
    }
  }

  lemma BoundHasValue(macro: Macro, arguments: seq<Token>, positions: nat, invocation: Token, lex: ArgumentLexer,
                      b: Binding, x: nat, value: Token)
    requires AllBound(macro, arguments, b, invocation, lex) && b.positions == positions
    requires OnlyBound(macro, arguments, b.values, positions) && x < |b.values| && b.values[x] == Some(value)
    ensures ValueOf(macro, arguments, positions, lex, invocation.place, x, value)
  {
    hide Filled, NamedOnce, NamedIndex, EqualsIndex;
    if x >= positions {
      var j :| positions <= j < |arguments| && NamedIndex(macro, arguments[j]) == x;
      assert NamedBound(macro, b.values, arguments[j], invocation, lex);
    }
  }

  // ----- the call -----

  /** Token c calls the macro of that name: by the name, or by the name behind a mark. */
  predicate Calls(tokens: seq<Token>, c: nat, name: CString) {
    && c < |tokens| && tokens[c].kind == Identifier
    && (tokens[c].text == [64] + name || (tokens[c].text == name && name != [] && name[0] != 64))
  }

  /** The line of token c ends at l, with a newline or with the source. */
  predicate LineFrom(tokens: seq<Token>, c: nat, l: nat) {
    && c < l <= |tokens| && (l < |tokens| ==> tokens[l].kind == Newline)
    && forall k :: c <= k < l ==> tokens[k].kind != Newline
  }

  /** A name, a label use or a label that is called like a parameter. */
  predicate NamesParameter(t: Token, parameters: seq<Token>) {
    && (t.kind == Identifier || t.kind == LabelUse || t.kind == LabelInit)
    && exists x :: 0 <= x < |parameters| && parameters[x].text == t.text
  }

  /** What a token of the body becomes: it moves to the call, and a parameter's value takes its place there. */
  predicate Becomes(t: Token, parameters: seq<Token>, values: seq<Token>, place: Location, r: Token)
    requires |values| == |parameters|
  {
    && r.place == place
    && if NamesParameter(t, parameters) then
         exists x :: 0 <= x < |parameters| && parameters[x].text == t.text && r.text == values[x].text
                     && r.kind == (if t.kind == LabelInit then LabelInit else values[x].kind)
       else r.kind == t.kind && r.text == t.text
  }

  /** The lines between header and .endmacro, token by token, as a call with these values sees them. */
  predicate BodyAt(tokens: seq<Token>, h: nat, e: nat, parameters: seq<Token>, values: seq<Token>, place: Location,
                   body: seq<Token>)
    requires |values| == |parameters| && h < e <= |tokens|
  {
    |body| == e - h - 1 &&
    forall k :: 0 <= k < |body| ==> Becomes(tokens[h + 1 + k], parameters, values, place, body[k])
  }

  lemma SubstitutedBecomes(macro: Macro, values: seq<Token>, t: Token, place: Location)
    requires |values| == |macro.parameters|
    ensures Becomes(t, macro.parameters, values, place, Substituted(macro, values, t, place))
  {
    var x := ParameterIndex(macro.parameters, t.text);
    if NamesParameter(t, macro.parameters) {
      assert x < |macro.parameters| && macro.parameters[x].text == t.text;
    }
  }

  lemma InstantiatedBody(tokens: seq<Token>, h: nat, e: nat, macro: Macro, values: seq<Token>, place: Location)
    requires h < e <= |tokens| && macro.body == tokens[h + 1..e] && |values| == |macro.parameters|
    ensures BodyAt(tokens, h, e, macro.parameters, values, place, Instantiated(macro, values, place))
  {
    hide Substituted, Becomes;
    var body := Instantiated(macro, values, place);
    forall k | 0 <= k < |body| ensures Becomes(tokens[h + 1 + k], macro.parameters, values, place, body[k]) {
      SubstitutedBecomes(macro, values, macro.body[k], place);
    }
  }

  /** Tokens that ask for no expansion are emitted as they are. */
  lemma {:induction false} RangeEmits(macros: seq<Macro>, s: seq<Token>, k: nat, stack: seq<Macro>, place: Location,
                                      lex: ArgumentLexer)
    requires k <= |s| && |stack| <= MAX_DEPTH && FullyExpanded(macros, true, s) && AllAt(s, place)
    ensures ExpandRange(macros, s, k, StartAfter(true, s[..k]), stack, Some(place), lex) == Run(s[k..], [], None)
    decreases |s| - k
  {
    hide IsDirective, FullyExpanded, IsCall, ExpandRange;
    if k == |s| {
      NothingEmitted(macros, s, StartAfter(true, s[..k]), stack, place, lex);
    } else {
      FullyExpandedHere(macros, s, k);
      RangeEmits(macros, s, k + 1, stack, place, lex);
      assert s[..k + 1][..k] == s[..k];
      assert s[k] in s;
      EmitsOne(macros, s, k, StartAfter(true, s[..k]), stack, place, lex);
      assert [s[k]] + s[k + 1..] == s[k..];
    }
  }

  lemma NothingEmitted(macros: seq<Macro>, s: seq<Token>, lineStart: bool, stack: seq<Macro>, place: Location,
                       lex: ArgumentLexer)
    requires |stack| <= MAX_DEPTH
    ensures ExpandRange(macros, s, |s|, lineStart, stack, Some(place), lex) == Run([], [], None)
  {
  }

  lemma EmitsOne(macros: seq<Macro>, s: seq<Token>, k: nat, lineStart: bool, stack: seq<Macro>, place: Location,
                 lex: ArgumentLexer)
    requires k < |s| && |stack| <= MAX_DEPTH && s[k].place == place
    requires !IsDirective(s[k], MACRO) && !(lineStart && IsCall(macros, s[k]))
    ensures ExpandRange(macros, s, k, lineStart, stack, Some(place), lex)
            == Then(Emit(s[k]),
                    ExpandRange(macros, s, k + 1, NextIsLineStart(s[k], lineStart), stack, Some(place), lex))
  {
    hide IsDirective, IsCall, NextIsLineStart, Then;
  }

  lemma FullyExpandedHere(macros: seq<Macro>, s: seq<Token>, k: nat)
    requires k < |s| && FullyExpanded(macros, true, s)
    ensures !IsDirective(s[k], MACRO) && (StartAfter(true, s[..k]) ==> !IsCall(macros, s[k]))
  {
    assert FullyExpandedAt(macros, true, s, k);
  }

  /** The macro that a definition defines. */
  function Defined(tokens: seq<Token>, i: nat, h: nat, e: nat, parameters: seq<Token>): Macro
    requires Defines(tokens, i, h, e, parameters)
  {
    Macro(tokens[i + 1], parameters, tokens[h + 1..e])
  }

  /**
    A macro defined in the source is called at token c of s, the source itself or the body
    of another call, while the macros of the stack are being expanded.
   */
  ghost predicate CallOf(tokens: seq<Token>, i: nat, h: nat, e: nat, parameters: seq<Token>, s: seq<Token>, c: nat,
                         l: nat, arguments: seq<Token>, positions: nat, stack: seq<Macro>, lex: ArgumentLexer)
  {
    && Capture([], tokens, 0).Ok? && Defines(tokens, i, h, e, parameters)
    && Calls(s, c, tokens[i + 1].text) && LineFrom(s, c, l) && Lists(s[c + 1..l], arguments)
    && Proper(Defined(tokens, i, h, e, parameters), arguments, positions, lex)
    && Defined(tokens, i, h, e, parameters) !in stack && |stack| < 64
  }

  lemma LineEndsAt(tokens: seq<Token>, c: nat, l: nat)
    requires LineFrom(tokens, c, l)
    ensures LineEnd(tokens, c) == l && NextLine(tokens, c) == (if l == |tokens| then l else l + 1)
  {
    hide LineEnd;
  }

  lemma CallFindsMacro(tokens: seq<Token>, i: nat, h: nat, e: nat, parameters: seq<Token>, s: seq<Token>, c: nat)
    requires Capture([], tokens, 0).Ok? && Defines(tokens, i, h, e, parameters) && Calls(s, c, tokens[i + 1].text)
    ensures IsCall(Capture([], tokens, 0).value, s[c]) && !IsDirective(s[c], MACRO)
    ensures FindMacro(Capture([], tokens, 0).value, CalledName(s[c])) == Some(Defined(tokens, i, h, e, parameters))
  {
    hide Capture, FindMacro, Uncommented, Lists, NoneIn;
    NameFindsDefinition(tokens, i, h, e, parameters);
    var name := tokens[i + 1].text;
    if s[c].text == [64] + name { assert s[c].text[1..] == name; }
  }

  /** The values a call binds, and the body it stands for. */
  lemma CallBody(tokens: seq<Token>, i: nat, h: nat, e: nat, parameters: seq<Token>, s: seq<Token>, c: nat, l: nat,
                 arguments: seq<Token>, positions: nat, stack: seq<Macro>, lex: ArgumentLexer)
    returns (values: seq<Token>, body: seq<Token>)
    requires CallOf(tokens, i, h, e, parameters, s, c, l, arguments, positions, stack, lex)
    ensures ValuesOf(Defined(tokens, i, h, e, parameters), arguments, positions, lex, s[c].place, values)
    ensures BodyAt(tokens, h, e, parameters, values, s[c].place, body)
    ensures Invoke(Defined(tokens, i, h, e, parameters), s[c + 1..l], stack, s[c], lex) == Ok(body)
  {
    hide Capture, Lists, Uncommented, NoneIn, Proper, ValueOf, ReadArguments, Arguments, BodyAt, Instantiated;
    var macro := Defined(tokens, i, h, e, parameters);
    ListsOnce(s[c + 1..l], arguments);
    ProperIsAccepted(macro, s[c + 1..l], s[c], lex, positions);
    values := ReadArguments(macro, s[c + 1..l], s[c], lex).value;
    body := Instantiated(macro, values, s[c].place);
    InstantiatedBody(tokens, h, e, macro, values, s[c].place);
  }

  /**
    A call of an accepted macro with arguments that bind emits what expanding its body
    gives: as many tokens as stand between header and .endmacro, each with the kind and
    text it has there unless it names a parameter, then with the parameter's value. When no
    line of that body starts a call, the body itself is emitted, and the next line follows.
    The same is said of the calls in that body, and so down to the last one.
   */
  lemma CallEmits(tokens: seq<Token>, i: nat, h: nat, e: nat, parameters: seq<Token>, s: seq<Token>, c: nat, l: nat,
                  arguments: seq<Token>, positions: nat, stack: seq<Macro>, place: Option<Location>,
                  lex: ArgumentLexer)
    returns (values: seq<Token>, body: seq<Token>)
    requires CallOf(tokens, i, h, e, parameters, s, c, l, arguments, positions, stack, lex)
    ensures ValuesOf(Defined(tokens, i, h, e, parameters), arguments, positions, lex, s[c].place, values)
    ensures BodyAt(tokens, h, e, parameters, values, s[c].place, body)
    ensures var macros, macro := Capture([], tokens, 0).value, Defined(tokens, i, h, e, parameters);
            var next := if l == |s| then l else l + 1;
            var nested := ExpandRange(macros, body, 0, true, stack + [macro], Some(s[c].place), lex);
            && ExpandRange(macros, s, c, true, stack, place, lex)
               == Then(Then(Attempt(Call(macro, stack), None), nested),
                       ExpandRange(macros, s, next, true, stack, place, lex))
            && (FullyExpanded(macros, true, body) ==> nested == Run(body, [], None))
  {
    hide Capture, Lists, Uncommented, NoneIn, Proper, ValueOf, BodyAt, Invoke, FindMacro, IsCall, CalledName,
         FullyExpanded, LineFrom;
    values, body := CallBody(tokens, i, h, e, parameters, s, c, l, arguments, positions, stack, lex);
    var macros, macro := Capture([], tokens, 0).value, Defined(tokens, i, h, e, parameters);
    CallFindsMacro(tokens, i, h, e, parameters, s, c);
    LineEndsAt(s, c, l);
    CallUnfolds(macros, s, c, macro, body, stack, place, lex);
    if FullyExpanded(macros, true, body) {
      BodyPlaced(tokens, h, e, parameters, values, s[c].place, body);
      RangeEmits(macros, body, 0, stack + [macro], s[c].place, lex);
      assert body[..0] == [] && body[0..] == body;
    }
  }

  lemma CallUnfolds(macros: seq<Macro>, s: seq<Token>, c: nat, macro: Macro, body: seq<Token>, stack: seq<Macro>,
                    place: Option<Location>, lex: ArgumentLexer)
    requires c < |s| && IsCall(macros, s[c]) && !IsDirective(s[c], MACRO) && |stack| < MAX_DEPTH
    requires FindMacro(macros, CalledName(s[c])) == Some(macro)
    requires Invoke(macro, s[c + 1..LineEnd(s, c)], stack, s[c], lex) == Ok(body)
    ensures ExpandRange(macros, s, c, true, stack, place, lex)
            == Then(Then(Attempt(Call(macro, stack), None),
                         ExpandRange(macros, body, 0, true, stack + [macro], Some(s[c].place), lex)),
                    ExpandRange(macros, s, NextLine(s, c), true, stack, place, lex))
  {
    hide Invoke, FindMacro, IsCall, CalledName, NextLine, LineEnd, IsDirective, Then;
  }

  lemma BodyPlaced(tokens: seq<Token>, h: nat, e: nat, parameters: seq<Token>, values: seq<Token>, place: Location,
                   body: seq<Token>)
    requires |values| == |parameters| && h < e <= |tokens| && BodyAt(tokens, h, e, parameters, values, place, body)
    ensures AllAt(body, place)
  {
    hide NamesParameter;
    forall t | t in body ensures t.place == place {
      var k :| 0 <= k < |body| && body[k] == t;
      assert Becomes(tokens[h + 1 + k], parameters, values, place, body[k]);
    }
  }

  // ----- bodies without calls -----

  /** No line of the source body starts with a call or with a parameter, and no value opens a line or a definition. */
  predicate Quiet(macros: seq<Macro>, source: seq<Token>, parameters: seq<Token>, values: seq<Token>) {
    && (forall k :: 0 <= k < |source| && StartAfter(true, source[..k]) ==>
          !IsCall(macros, source[k]) && (NamesParameter(source[k], parameters) ==> source[k].kind == LabelInit))
    && (forall k :: 0 <= k < |source| ==> !IsDirective(source[k], MACRO))
    && (forall x :: 0 <= x < |values| ==> values[x].kind != Newline && !IsDirective(values[x], MACRO))
  }

  /** Lines start in the body where they start in the source. */
  lemma {:induction false} SameLineStarts(macros: seq<Macro>, tokens: seq<Token>, h: nat, e: nat,
                                          parameters: seq<Token>, values: seq<Token>, place: Location,
                                          body: seq<Token>, k: nat)
    requires |values| == |parameters| && h < e <= |tokens| && BodyAt(tokens, h, e, parameters, values, place, body)
    requires Quiet(macros, tokens[h + 1..e], parameters, values) && k <= |body|
    ensures StartAfter(true, body[..k]) ==> StartAfter(true, tokens[h + 1..e][..k])
  {
    hide IsCall, IsDirective, NamesParameter, Becomes;
    if k > 0 {
      var source := tokens[h + 1..e];
      SameLineStarts(macros, tokens, h, e, parameters, values, place, body, k - 1);
      assert body[..k][..k - 1] == body[..k - 1] && source[..k][..k - 1] == source[..k - 1];
      assert source[k - 1] == tokens[h + 1 + (k - 1)];
      assert Becomes(tokens[h + 1 + (k - 1)], parameters, values, place, body[k - 1]);
      KindBecomes(source[k - 1], parameters, values, place, body[k - 1]);
    }
  }

  lemma KindBecomes(t: Token, parameters: seq<Token>, values: seq<Token>, place: Location, r: Token)
    requires |values| == |parameters| && Becomes(t, parameters, values, place, r)
    requires forall x :: 0 <= x < |values| ==> values[x].kind != Newline && !IsDirective(values[x], MACRO)
    ensures r.kind == Newline <==> t.kind == Newline
    ensures !NamesParameter(t, parameters) ==> r.kind == t.kind && r.text == t.text
    ensures t.kind == LabelInit ==> r.kind == LabelInit
    ensures IsDirective(r, MACRO) ==> IsDirective(t, MACRO)
  {
  }

  lemma QuietExpanded(macros: seq<Macro>, tokens: seq<Token>, h: nat, e: nat, parameters: seq<Token>,
                      values: seq<Token>, place: Location, body: seq<Token>)
    requires |values| == |parameters| && h < e <= |tokens| && BodyAt(tokens, h, e, parameters, values, place, body)
    requires Quiet(macros, tokens[h + 1..e], parameters, values)
    ensures FullyExpanded(macros, true, body)
  {
    hide IsDirective, NamesParameter, Becomes, FindMacro, StartAfter;
    var source := tokens[h + 1..e];
    forall k | 0 <= k < |body| ensures FullyExpandedAt(macros, true, body, k) {
      SameLineStarts(macros, tokens, h, e, parameters, values, place, body, k);
      assert source[k] == tokens[h + 1 + k];
      assert Becomes(tokens[h + 1 + k], parameters, values, place, body[k]);
      KindBecomes(source[k], parameters, values, place, body[k]);
      assert !IsDirective(source[k], MACRO);
      SameCall(macros, source[k], body[k]);
    }
  }

  lemma SameCall(macros: seq<Macro>, t: Token, r: Token)
    ensures r.kind == t.kind && r.text == t.text ==> IsCall(macros, r) == IsCall(macros, t)
    ensures r.kind == LabelInit ==> !IsCall(macros, r)
  {
  }

  /** The values of a call are determined by its arguments. */
  lemma ValueOnce(macro: Macro, arguments: seq<Token>, positions: nat, lex: ArgumentLexer, place: Location, x: nat,
                  a: Token, b: Token)
    requires Proper(macro, arguments, positions, lex)
    requires ValueOf(macro, arguments, positions, lex, place, x, a)
    requires ValueOf(macro, arguments, positions, lex, place, x, b)
    ensures a == b
  {
    hide NamedIndex, IsNamed, EqualsIndex, ProperNamed;
  }

  /** A macro whose lines start neither with calls nor with parameters is emitted token by token at the call. */
  lemma QuietCallEmits(tokens: seq<Token>, i: nat, h: nat, e: nat, parameters: seq<Token>, s: seq<Token>, c: nat,
                       l: nat, arguments: seq<Token>, positions: nat, stack: seq<Macro>, place: Option<Location>,
                       lex: ArgumentLexer, values: seq<Token>)
    returns (body: seq<Token>)
    requires CallOf(tokens, i, h, e, parameters, s, c, l, arguments, positions, stack, lex)
    requires ValuesOf(Defined(tokens, i, h, e, parameters), arguments, positions, lex, s[c].place, values)
    requires Quiet(Capture([], tokens, 0).value, tokens[h + 1..e], parameters, values)
    ensures BodyAt(tokens, h, e, parameters, values, s[c].place, body)
    ensures var macros, next := Capture([], tokens, 0).value, if l == |s| then l else l + 1;
            ExpandRange(macros, s, c, true, stack, place, lex).output
            == body + ExpandRange(macros, s, next, true, stack, place, lex).output
  {
    hide Capture, Lists, Uncommented, NoneIn, Proper, ValueOf, BodyAt, Quiet, ExpandRange;
    var found;
    found, body := CallEmits(tokens, i, h, e, parameters, s, c, l, arguments, positions, stack, place, lex);
    forall x | 0 <= x < |values| ensures values[x] == found[x] {
      ValueOnce(Defined(tokens, i, h, e, parameters), arguments, positions, lex, s[c].place, x, values[x], found[x]);
    }
    assert values == found;
    QuietExpanded(Capture([], tokens, 0).value, tokens, h, e, parameters, values, s[c].place, body);
    assert [] + body == body;
  }

  /** A definition is passed over up to behind the line of its .endmacro, and emits nothing. */
  lemma DefinitionSkipped(macros: seq<Macro>, tokens: seq<Token>, i: nat, h: nat, e: nat, parameters: seq<Token>,
                          n: nat, lineStart: bool, lex: ArgumentLexer)
    requires Defines(tokens, i, h, e, parameters) && LineFrom(tokens, e, n)
    ensures ExpandRange(macros, tokens, i, lineStart, [], None, lex)
            == ExpandRange(macros, tokens, if n == |tokens| then n else n + 1, true, [], None, lex)
  {
    hide Lists, Uncommented, LineFrom;
    SkipsTo(tokens, i, e);
    LineEndsAt(tokens, e, n);
  }

  lemma {:induction false} SkipsTo(tokens: seq<Token>, i: nat, e: nat)
    requires i <= e < |tokens| && IsDirective(tokens[e], ENDMACRO) && NoneIn(tokens, i, e, ENDMACRO)
    ensures SkipDefinition(tokens, i) == NextLine(tokens, e)
    decreases e - i
  {
    hide IsDirective, NextLine;
    if i < e { SkipsTo(tokens, i + 1, e); }
  }
}
