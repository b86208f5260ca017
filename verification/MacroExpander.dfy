/**
  The macro expander as the program runs it: loops over the tokens, a table of
  macros, an array holding the active ones and an output list that grows.
 */
module MacroExpander {
  import opened Wrappers
  import opened Bytes
  import opened Diagnostics
  import opened Lexer
  import opened Macros
  import opened Tokens

  /** How the text of a named argument is read. */
  const LEX: ArgumentLexer := OnlyToken

  /** Moving one finished step from the rest of a run to the part already done. */
  lemma Advance(done: Run, step: Run, rest: Run)
    requires done.error.None?
    ensures Then(Then(done, step), rest) == Then(done, Then(step, rest))
    ensures Then(done, step) == Run(done.output + step.output, done.calls + step.calls, step.error)
    ensures step.error.Some? ==> Then(done, Then(step, rest)) == Then(done, step)
  {
  }

  lemma Finish(done: Run, error: Option<Diagnostic>)
    requires done.error.None?
    ensures Then(done, Run([], [], error)) == Run(done.output, done.calls, error)
  {
  }

  lemma Begin(run: Run)
    ensures Then(Run([], [], None), run) == run
  {
  }

  // ----- one token of expand_range -----

  lemma RangeSkips(macros: seq<Macro>, tokens: seq<Token>, i: nat, lineStart: bool, stack: seq<Macro>,
                   place: Option<Location>, lex: ArgumentLexer)
    requires i < |tokens| && |stack| <= MAX_DEPTH && IsDirective(tokens[i], MACRO)
    ensures Macros.ExpandRange(macros, tokens, i, lineStart, stack, place, lex)
            == Macros.ExpandRange(macros, tokens, SkipDefinition(tokens, i), true, stack, place, lex)
  {
  }

  lemma RangeCalls(macros: seq<Macro>, tokens: seq<Token>, i: nat, stack: seq<Macro>, place: Option<Location>,
                   lex: ArgumentLexer)
    requires i < |tokens| && |stack| <= MAX_DEPTH && !IsDirective(tokens[i], MACRO) && IsCall(macros, tokens[i])
    ensures i < LineEnd(tokens, i)
    ensures Macros.ExpandRange(macros, tokens, i, true, stack, place, lex) ==
            var macro := FindMacro(macros, CalledName(tokens[i]));
            if macro.None? then Run([], [], Some(MacroUndefined))
            else
              Then(ExpandCall(macros, macro.value, tokens[i + 1..LineEnd(tokens, i)], stack, tokens[i], lex),
                   Macros.ExpandRange(macros, tokens, NextLine(tokens, i), true, stack, place, lex))
  {
    hide ExpandCall, CalledName, FindMacro, NextLine;
  }

  lemma RangeEmits(macros: seq<Macro>, tokens: seq<Token>, i: nat, lineStart: bool, stack: seq<Macro>,
                   place: Option<Location>, lex: ArgumentLexer)
    requires i < |tokens| && |stack| <= MAX_DEPTH && !IsDirective(tokens[i], MACRO)
             && !(lineStart && IsCall(macros, tokens[i]))
    ensures Macros.ExpandRange(macros, tokens, i, lineStart, stack, place, lex) ==
            Then(Emit(Cloned(tokens[i], place)),
                 Macros.ExpandRange(macros, tokens, i + 1, NextIsLineStart(tokens[i], lineStart), stack, place, lex))
  {
    hide ExpandCall;
  }

  lemma RangeEnds(macros: seq<Macro>, tokens: seq<Token>, lineStart: bool, stack: seq<Macro>, place: Option<Location>,
                  lex: ArgumentLexer)
    requires |stack| <= MAX_DEPTH
    ensures Macros.ExpandRange(macros, tokens, |tokens|, lineStart, stack, place, lex) == Run([], [], None)
  {
    hide ExpandCall;
  }

  // ----- searches -----

  /** line_end. */
  method FindLineEnd(tokens: seq<Token>, i: nat) returns (n: nat)
    requires i <= |tokens|
    ensures n == LineEnd(tokens, i)
  {
    n := i;
    while n < |tokens| && tokens[n].kind != Newline
      invariant i <= n <= |tokens| && LineEnd(tokens, i) == LineEnd(tokens, n)
    {
      n := n + 1;
    }
  }

  method FindNextLine(tokens: seq<Token>, i: nat) returns (n: nat)
    requires i <= |tokens|
    ensures n == NextLine(tokens, i)
  {
    var end := FindLineEnd(tokens, i);
    n := if end == |tokens| then |tokens| else end + 1;
  }

  /** skip_macro_definition. */
  method SkipMacroDefinition(tokens: seq<Token>, definition: nat) returns (n: nat)
    requires definition < |tokens|
    ensures n == SkipDefinition(tokens, definition)
  {
    var current := definition;
    while current < |tokens| && !IsDirective(tokens[current], ENDMACRO)
      invariant definition <= current <= |tokens|
      invariant SkipDefinition(tokens, definition) == if current < |tokens| then SkipDefinition(tokens, current)
                else |tokens|
    {
      current := current + 1;
    }
    n := FindNextLine(tokens, current);
  }

  /** find_macro. */
  method Lookup(macros: seq<Macro>, name: CString) returns (r: Option<Macro>)
    ensures r == FindMacro(macros, name)
  {
    for k := 0 to |macros|
      invariant FindMacro(macros, name) == FindMacro(macros[k..], name)
    {
      assert macros[k..][1..] == macros[k + 1..];
      if macros[k].name.text == name {
        return Some(macros[k]);
      }
    }
    r := None;
  }

  /** parameter_index. */
  method IndexOf(parameters: seq<Token>, name: CString) returns (index: nat)
    ensures index == ParameterIndex(parameters, name)
  {
    for k := 0 to |parameters|
      invariant ParameterIndex(parameters, name) == k + ParameterIndex(parameters[k..], name)
    {
      assert parameters[k..][1..] == parameters[k + 1..];
      if parameters[k].text == name {
        return k;
      }
    }
    index := |parameters|;
  }

  /** strchr for the equals sign. */
  method FindEquals(text: CString) returns (r: Option<nat>)
    ensures r == EqualsIndex(text)
  {
    for k := 0 to |text|
      invariant forall j :: 0 <= j < k ==> text[j] != EQUALS
      invariant EqualsIndex(text) == var rest := EqualsIndex(text[k..]); if rest.None? then None
                else Some(k + rest.value)
    {
      assert text[k..][1..] == text[k + 1..];
      if text[k] == EQUALS {
        return Some(k);
      }
    }
    r := None;
  }

  // ----- arguments -----

  lemma {:induction false} CommentAt(line: seq<Token>, k: nat)
    requires k <= |line| && forall j :: 0 <= j < k ==> line[j].kind != Comment
    requires k == |line| || line[k].kind == Comment
    ensures FirstComment(line) == k
  {
  }

  lemma NextArgument(line: seq<Token>, k: nat)
    requires k < |line|
    ensures line[k].kind == Comma ==> WithoutCommas(line[..k + 1]) == WithoutCommas(line[..k])
    ensures line[k].kind != Comma ==> WithoutCommas(line[..k + 1]) == WithoutCommas(line[..k]) + [line[k]]
  {
    assert line[..k + 1][..k] == line[..k];
  }

  lemma {:induction false} CountedBefore(line: seq<Token>, k: nat, end: nat)
    requires k <= end <= |line|
    ensures WithoutCommas(line[..k]) <= WithoutCommas(line[..end])
    decreases end
  {
    if k < end {
      CountedBefore(line, k, end - 1);
      NextArgument(line, end - 1);
    }
  }

  /** An error at one argument is the error of the whole line. */
  lemma FoldStops<S, E>(step: (S, Token) -> Result<S, E>, start: S, line: seq<Token>, k: nat)
    requires k < FirstComment(line) && Fold(step, start, WithoutCommas(line[..k + 1])).Err?
    ensures Fold(step, start, Arguments(line)) == Fold(step, start, WithoutCommas(line[..k + 1]))
  {
    var part, whole := WithoutCommas(line[..k + 1]), Arguments(line);
    CountedBefore(line, k + 1, FirstComment(line));
    assert whole[..|part|] == part;
    FoldPrefix(step, start, whole, |part|);
  }

  /** add_parameter for each token of a definition's header. */
  method ReadParameters(header: seq<Token>) returns (r: Result<seq<Token>, Diagnostic>)
    ensures r == Fold(ParameterAdder(), [], Arguments(header))
  {
    hide FirstComment, WithoutCommas, Fold;
    var parameters: seq<Token> := [];
    var k := 0;
    ghost var step := ParameterAdder();
    StartFold(step, [], header);
    while k < |header| && header[k].kind != Comment
      invariant k <= |header| && forall j :: 0 <= j < k ==> header[j].kind != Comment
      invariant Fold(step, [], WithoutCommas(header[..k])) == Ok(parameters)
    {
      NextArgument(header, k);
      if header[k].kind != Comma {
        FoldOne(step, [], WithoutCommas(header[..k]), header[k]);
        CommentAfter(header, k);
        var index := IndexOf(parameters, header[k].text);
        if header[k].kind != Identifier || index < |parameters| {
          FoldStops(step, [], header, k);
          return Err(MacroInvalidArgument);
        }
        parameters := parameters + [header[k]];
      }
      k := k + 1;
    }
    CommentAt(header, k);
    r := Ok(parameters);
  }

  lemma StartFold<S, E>(step: (S, Token) -> Result<S, E>, start: S, line: seq<Token>)
    ensures Fold(step, start, WithoutCommas(line[..0])) == Ok(start)
  {
  }

  lemma FoldOne<S, E>(step: (S, Token) -> Result<S, E>, start: S, inputs: seq<Token>, t: Token)
    requires Fold(step, start, inputs).Ok?
    ensures Fold(step, start, inputs + [t]) == step(Fold(step, start, inputs).value, t)
  {
    assert (inputs + [t])[..|inputs|] == inputs;
  }

  lemma {:induction false} CommentAfter(line: seq<Token>, k: nat)
    requires k < |line| && forall j :: 0 <= j <= k ==> line[j].kind != Comment
    ensures k < FirstComment(line)
  {
  }

  /** One turn of the loop in read_arguments: by name when the text holds an equals sign, else by position. */
  method BindArgument(macro: Macro, argument: Token, invocation: Token, values: array<Option<Token>>, positions: nat,
                      named: bool) returns (r: Result<(nat, bool), Diagnostic>)
    requires values.Length == |macro.parameters| && positions <= values.Length
    modifies values
    ensures r.Ok? ==> r.value.0 <= values.Length
    ensures var step := BindStep(macro, Binding(old(values[..]), positions, named), argument, invocation, LEX);
            step == if r.Ok? then Ok(Binding(values[..], r.value.0, r.value.1)) else Err(r.error)
  {
    hide EqualsIndex, ParameterIndex, OnlyToken;
    var equals := FindEquals(argument.text);
    if argument.kind == Identifier && equals.Some? {
      if equals.value == 0 || equals.value + 1 == |argument.text| {
        return Err(MacroInvalidArgument);
      }
      var index := IndexOf(macro.parameters, argument.text[..equals.value]);
      if index == |macro.parameters| || values[index].Some? {
        return Err(MacroInvalidArgument);
      }
      var value := LexArgument(argument.text[equals.value + 1..]);
      if value.Err? {
        return Err(value.error);
      }
      values[index] := Some(Cloned(value.value, Some(invocation.place)));
      r := Ok((positions, true));
    } else {
      if named || positions == |macro.parameters| {
        return Err(MacroInvalidArgument);
      }
      values[positions] := Some(argument);
      r := Ok((positions + 1, false));
    }
  }

  /** read_arguments: values are kept in an array with one slot per parameter. */
  method BindArguments(macro: Macro, line: seq<Token>, invocation: Token) returns (r: Result<seq<Token>, Diagnostic>)
    ensures r == ReadArguments(macro, line, invocation, LEX)
  {
    hide FirstComment, WithoutCommas, Fold, BindStep;
    var count := |macro.parameters|;
    var values := new Option<Token>[count](_ => None);
    var positions, named := 0, false;
    ghost var step, start := Binder(macro, invocation, LEX), Unbound(count);
    assert values[..] == start.values;
    StartFold(step, start, line);
    var k := 0;
    while k < |line| && line[k].kind != Comment
      invariant k <= |line| && 0 <= positions <= count && forall j :: 0 <= j < k ==> line[j].kind != Comment
      invariant Fold(step, start, WithoutCommas(line[..k])) == Ok(Binding(values[..], positions, named))
    {
      NextArgument(line, k);
      if line[k].kind != Comma {
        FoldOne(step, start, WithoutCommas(line[..k]), line[k]);
        CommentAfter(line, k);
        var next := BindArgument(macro, line[k], invocation, values, positions, named);
        if next.Err? {
          FoldStops(step, start, line, k);
          return Err(next.error);
        }
        positions, named := next.value.0, next.value.1;
      }
      k := k + 1;
    }
    CommentAt(line, k);
    r := CollectValues(values);
  }

  /** Every parameter must have a value. */
  method CollectValues(values: array<Option<Token>>) returns (r: Result<seq<Token>, Diagnostic>)
    ensures r == BoundValues(values[..])
  {
    var bound: seq<Token> := [];
    for index := 0 to values.Length
      invariant |bound| == index && forall j :: 0 <= j < index ==> values[j] == Some(bound[j])
    {
      if values[index].None? {
        assert values[index] in values[..];
        return Err(MacroInvalidArgument);
      }
      bound := bound + [values[index].value];
    }
    assert forall j :: 0 <= j < values.Length ==> values[..][j] == Some(bound[j]);
    assert None !in values[..];
    assert bound == BoundValues(values[..]).value;
    r := Ok(bound);
  }

  // ----- definitions -----

  /** The .endmacro of a body; None when there is none before the next .macro. */
  method FindBodyEnd(tokens: seq<Token>, body: nat) returns (end: Option<nat>)
    requires body <= |tokens|
    ensures end == var n := BodyEnd(tokens, body); if n == |tokens| || IsDirective(tokens[n], MACRO) then None
            else Some(n)
  {
    hide BodyEnd;
    var current := body;
    while current < |tokens| && !IsDirective(tokens[current], ENDMACRO)
      invariant body <= current <= BodyEnd(tokens, body)
    {
      BodyContinues(tokens, body, current);
      if IsDirective(tokens[current], MACRO) {
        return None;
      }
      current := current + 1;
    }
    BodyStops(tokens, body, current);
    end := if current == |tokens| then None else Some(current);
  }

  /** Nothing but comments stands between a token and the end of its line. */
  method OnlyComments(tokens: seq<Token>, i: nat, end: nat) returns (bare: bool)
    requires i < end <= |tokens|
    ensures bare <==> forall k :: i < k < end ==> tokens[k].kind == Comment
  {
    for k := i + 1 to end
      invariant forall j :: i < j < k ==> tokens[j].kind == Comment
    {
      if tokens[k].kind != Comment {
        return false;
      }
    }
    bare := true;
  }

  // ----- the expander -----

  class Expander {
    const stack: array<Macro>
    var macros: seq<Macro>
    var output: seq<Token>
    ghost var calls: seq<Call>

    constructor ()
      ensures Valid() && fresh(stack) && macros == [] && output == [] && calls == []
    {
      var blank := Token(Newline, [], Location(0, 0, 0, 0));
      stack := new Macro[MAX_DEPTH](_ => Macro(blank, [], []));
      macros, output, calls := [], [], [];
    }

    predicate Valid()
      reads this
    {
      stack.Length == MAX_DEPTH
    }

    /** capture_macro: the definition is prepended to the table. */
    method CaptureDefinition(tokens: seq<Token>, i: nat) returns (r: Result<nat, Diagnostic>)
      requires i < |tokens| && IsDirective(tokens[i], MACRO)
      modifies this`macros
      ensures match CaptureMacro(old(macros), tokens, i)
              case Ok(d) => r == Ok(d.next) && macros == [d.macro] + old(macros)
              case Err(e) => r == Err(e) && macros == old(macros)
    {
      hide LineEnd, BodyEnd, Arguments, NextLine, FindMacro, Fold;
      var header := FindLineEnd(tokens, i);
      AfterDirective(tokens, i);
      if i + 1 == header || tokens[i + 1].kind != Identifier {
        return Err(MacroInvalidArgument);
      }
      var same := Lookup(macros, tokens[i + 1].text);
      if same.Some? {
        return Err(MacroDuplicateDefinition);
      }
      var parameters := ReadParameters(tokens[i + 2..header]);
      if parameters.Err? {
        return Err(parameters.error);
      }
      if header == |tokens| {
        return Err(MacroInvalidArgument);
      }
      var end := FindBodyEnd(tokens, header + 1);
      if end.None? {
        return Err(MacroInvalidArgument);
      }
      var line := FindLineEnd(tokens, end.value);
      var bare := OnlyComments(tokens, end.value, line);
      if !bare {
        return Err(MacroInvalidArgument);
      }
      macros := [Macro(tokens[i + 1], parameters.value, tokens[header + 1..end.value])] + macros;
      var next := FindNextLine(tokens, end.value);
      r := Ok(next);
    }

    /** capture_macros. */
    method CaptureMacros(tokens: seq<Token>) returns (error: Option<Diagnostic>)
      modifies this`macros
      ensures match Capture(old(macros), tokens, 0)
              case Ok(all) => error == None && macros == all
              case Err(e) => error == Some(e)
    {
      hide CaptureMacro;
      var current := 0;
      while current < |tokens|
        invariant current <= |tokens| && Capture(old(macros), tokens, 0) == Capture(macros, tokens, current)
      {
        if IsDirective(tokens[current], MACRO) {
          var next := CaptureDefinition(tokens, current);
          if next.Err? {
            return Some(next.error);
          }
          current := next.value;
        } else if IsDirective(tokens[current], ENDMACRO) {
          return Some(MacroInvalidArgument);
        } else {
          current := current + 1;
        }
      }
      error := None;
    }

    /** is_expanding. */
    method IsExpanding(macro: Macro, count: nat) returns (found: bool)
      requires Valid() && count <= MAX_DEPTH
      ensures found == (macro in stack[..count])
    {
      for k := 0 to count
        invariant macro !in stack[..k]
      {
        if stack[k] == macro {
          return true;
        }
      }
      found := false;
    }

    /** expand_macro: substitutes the arguments into a copy of the body and expands that. */
    method ExpandMacro(macro: Macro, line: seq<Token>, count: nat, invocation: Token)
      returns (error: Option<Diagnostic>)
      requires Valid() && count <= MAX_DEPTH
      modifies stack, this`output, this`calls
      ensures stack[..count] == old(stack[..count])
      ensures var run := ExpandCall(macros, macro, line, old(stack[..count]), invocation, LEX);
              output == old(output) + run.output && calls == old(calls) + run.calls && error == run.error
      decreases MAX_DEPTH - count, 0
    {
      hide ReadArguments, Macros.ExpandRange, Substituted;
      ghost var active := stack[..count];
      calls := calls + [Call(macro, active)];
      var expanding := IsExpanding(macro, count);
      if expanding || count == MAX_DEPTH {
        return Some(MacroRecursion);
      }
      var values := BindArguments(macro, line, invocation);
      if values.Err? {
        return Some(values.error);
      }
      ArgumentsBound(macro, line, invocation, LEX);
      var body: seq<Token> := [];
      for k := 0 to |macro.body|
        invariant |body| == k
        invariant forall j :: 0 <= j < k ==>
                    body[j] == Substituted(macro, values.value, macro.body[j], invocation.place)
        modifies {}
      {
        var t := Substitute(macro, values.value, macro.body[k], invocation.place);
        body := body + [t];
      }
      assert body == Instantiated(macro, values.value, invocation.place);
      stack[count] := macro;
      assert stack[..count + 1] == active + [macro];
      error := ExpandRange(body, count + 1, Some(invocation.place));
      assert stack[..count] == stack[..count + 1][..count];
    }

    /** expand_range. */
    method ExpandRange(tokens: seq<Token>, count: nat, place: Option<Location>) returns (error: Option<Diagnostic>)
      requires Valid() && count <= MAX_DEPTH
      modifies stack, this`output, this`calls
      ensures stack[..count] == old(stack[..count])
      ensures var run := Macros.ExpandRange(macros, tokens, 0, true, old(stack[..count]), place, LEX);
              output == old(output) + run.output && calls == old(calls) + run.calls && error == run.error
      decreases MAX_DEPTH - count, 1
    {
      hide Macros.ExpandRange, Then, IsDirective, IsCall, CalledName, FindMacro, Cloned, NextIsLineStart, ExpandCall,
           SkipDefinition, NextLine, LineEnd;
      var isLineStart := true;
      var current := 0;
      ghost var active := stack[..count];
      ghost var done := Run([], [], None);
      Begin(Macros.ExpandRange(macros, tokens, 0, true, active, place, LEX));
      while current < |tokens|
        invariant current <= |tokens| && stack[..count] == active && done.error.None?
        invariant output == old(output) + done.output && calls == old(calls) + done.calls
        invariant Macros.ExpandRange(macros, tokens, 0, true, active, place, LEX)
                  == Then(done, Macros.ExpandRange(macros, tokens, current, isLineStart, active, place, LEX))
        decreases |tokens| - current
      {
        if IsDirective(tokens[current], MACRO) {
          RangeSkips(macros, tokens, current, isLineStart, active, place, LEX);
          current := SkipMacroDefinition(tokens, current);
          isLineStart := true;
        } else if isLineStart && IsCall(macros, tokens[current]) {
          RangeCalls(macros, tokens, current, active, place, LEX);
          var invocation := tokens[current];
          var macro := Lookup(macros, CalledName(invocation));
          if macro.None? {
            Finish(done, Some(MacroUndefined));
            return Some(MacroUndefined);
          }
          var end := FindLineEnd(tokens, current);
          var next := FindNextLine(tokens, current);
          ghost var step := ExpandCall(macros, macro.value, tokens[current + 1..end], active, invocation, LEX);
          Advance(done, step, Macros.ExpandRange(macros, tokens, next, true, active, place, LEX));
          error := ExpandMacro(macro.value, tokens[current + 1..end], count, invocation);
          if error.Some? {
            return;
          }
          done := Then(done, step);
          current, isLineStart := next, true;
        } else {
          RangeEmits(macros, tokens, current, isLineStart, active, place, LEX);
          ghost var step := Emit(Cloned(tokens[current], place));
          ghost var starts := NextIsLineStart(tokens[current], isLineStart);
          Advance(done, step, Macros.ExpandRange(macros, tokens, current + 1, starts, active, place, LEX));
          output := output + [Cloned(tokens[current], place)];
          done := Then(done, step);
          isLineStart := NextIsLineStart(tokens[current], isLineStart);
          current := current + 1;
        }
      }
      RangeEnds(macros, tokens, isLineStart, active, place, LEX);
      Finish(done, None);
      error := None;
    }

    /** macros_expand on a fresh expander. */
    method ExpandTokens(tokens: seq<Token>) returns (error: Option<Diagnostic>)
      requires Valid() && macros == [] && output == [] && calls == []
      modifies this, stack
      ensures Run(output, calls, error) == Expand(tokens, LEX)
    {
      hide Capture, Macros.ExpandRange;
      error := CaptureMacros(tokens);
      if error.Some? {
        return;
      }
      assert stack[..0] == [];
      error := ExpandRange(tokens, 0, None);
    }
  }

  lemma AfterDirective(tokens: seq<Token>, i: nat)
    requires i < |tokens| && tokens[i].kind == Directive
    ensures i < LineEnd(tokens, i)
  {
  }

  lemma BodyContinues(tokens: seq<Token>, from: nat, k: nat)
    requires from <= k < |tokens| && k <= BodyEnd(tokens, from) && !IsDirective(tokens[k], ENDMACRO)
    ensures IsDirective(tokens[k], MACRO) <==> k == BodyEnd(tokens, from)
  {
  }

  lemma BodyStops(tokens: seq<Token>, from: nat, k: nat)
    requires from <= k <= |tokens| && k <= BodyEnd(tokens, from) && (k < |tokens| ==> IsDirective(tokens[k], ENDMACRO))
    ensures k == BodyEnd(tokens, from) && (k < |tokens| ==> !IsDirective(tokens[k], MACRO))
  {
  }

  /** The token a body token becomes. */
  method Substitute(macro: Macro, values: seq<Token>, t: Token, place: Location) returns (expanded: Token)
    requires |values| == |macro.parameters|
    ensures expanded == Substituted(macro, values, t, place)
  {
    hide ParameterIndex;
    var index := |macro.parameters|;
    if t.kind == Identifier || t.kind == LabelUse || t.kind == LabelInit {
      index := IndexOf(macro.parameters, t.text);
    }
    expanded := Cloned(if index == |macro.parameters| then t else values[index], Some(place));
    if index != |macro.parameters| && t.kind == LabelInit {
      expanded := expanded.(kind := LabelInit);
    }
  }

  /** From a source's characters to its expanded tokens: lexing it all comes first. */
  method ExpandSource(text: CString) returns (r: Result<seq<Token>, Diagnostic>)
    ensures match TokensFrom(AsBytes(text), 0)
            case Err(e) => r == Err(e)
            case Ok(tokens) => var run := Expand(tokens, LEX); r == if run.error.Some? then Err(run.error.value)
                else Ok(run.output)
  {
    hide Expand, TokensFrom;
    var scanner := new Scanner(text);
    var failed := scanner.ReadAll();
    if failed.Some? {
      return Err(failed.value);
    }
    var expander := new Expander();
    var error := expander.ExpandTokens(scanner.tokens);
    r := if error.Some? then Err(error.value) else Ok(expander.output);
  }
}
