/**
  Macro capture and expansion on token sequences. An expansion is specified as a
  run: what it emits, the invocations it attempts with the macros active at that
  moment, and the error that stopped it.
 */
module Macros {
  import opened Wrappers
  import opened Bytes
  import opened Diagnostics
  import opened Tokens

  const MAX_DEPTH := 64

  const AT: Char8 := 64
  const EQUALS: Char8 := 61
  const MACRO: CString := [109, 97, 99, 114, 111]
  const ENDMACRO: CString := [101, 110, 100, 109, 97, 99, 114, 111]

  datatype Macro = Macro(name: Token, parameters: seq<Token>, body: seq<Token>)

  /** The lexer run on the text behind `=` of a named argument, expected to give one token. */
  type ArgumentLexer = CString -> Result<Token, Diagnostic>

  predicate IsDirective(t: Token, name: CString) {
    t.kind == Directive && t.text == name
  }

  /** clone_token. */
  function Cloned(t: Token, place: Option<Location>): Token {
    if place.Some? then t.(place := place.value) else t
  }

  function FindMacro(macros: seq<Macro>, name: CString): (r: Option<Macro>)
    ensures r.Some? ==> r.value in macros && r.value.name.text == name
    ensures r.None? ==> forall m :: m in macros ==> m.name.text != name
  {
    if macros == [] then None
    else if macros[0].name.text == name then Some(macros[0])
    else FindMacro(macros[1..], name)
  }

  /** The newline that ends the line of token i, or the end of the tokens. */
  function LineEnd(tokens: seq<Token>, i: nat): (n: nat)
    requires i <= |tokens|
    ensures i <= n <= |tokens|
    ensures n < |tokens| ==> tokens[n].kind == Newline
    ensures forall k :: i <= k < n ==> tokens[k].kind != Newline
    decreases |tokens| - i
  {
    if i == |tokens| || tokens[i].kind == Newline then i else LineEnd(tokens, i + 1)
  }

  /** The first token behind the line of token i. */
  function NextLine(tokens: seq<Token>, i: nat): (n: nat)
    requires i <= |tokens|
    ensures i <= n <= |tokens| && (i < |tokens| ==> i < n)
  {
    if LineEnd(tokens, i) == |tokens| then |tokens| else LineEnd(tokens, i) + 1
  }

  // ----- arguments -----

  function FirstComment(line: seq<Token>): (n: nat)
    ensures n <= |line|
    ensures forall k :: 0 <= k < n ==> line[k].kind != Comment
    ensures n < |line| ==> line[n].kind == Comment
  {
    if line == [] || line[0].kind == Comment then 0 else 1 + FirstComment(line[1..])
  }

  function WithoutCommas(line: seq<Token>): seq<Token> {
    if line == [] then []
    else WithoutCommas(line[..|line| - 1]) + if line[|line| - 1].kind == Comma then [] else [line[|line| - 1]]
  }

  /** The tokens of a line that count: those before a comment, without commas. */
  function Arguments(line: seq<Token>): seq<Token> {
    WithoutCommas(line[..FirstComment(line)])
  }

  function ParameterIndex(parameters: seq<Token>, name: CString): (n: nat)
    ensures n <= |parameters|
    ensures n < |parameters| ==> parameters[n].text == name
    ensures forall k :: 0 <= k < n ==> parameters[k].text != name
  {
    if parameters == [] || parameters[0].text == name then 0 else 1 + ParameterIndex(parameters[1..], name)
  }

  function EqualsIndex(text: CString): (r: Option<nat>)
    ensures r.Some? ==> r.value < |text| && text[r.value] == EQUALS
    ensures r.None? ==> EQUALS !in text
  {
    if text == [] then None
    else if text[0] == EQUALS then Some(0)
    else
      var rest := EqualsIndex(text[1..]);
      if rest.None? then None else Some(rest.value + 1)
  }

  predicate IsNamed(t: Token) {
    t.kind == Identifier && EqualsIndex(t.text).Some?
  }

  /** The values bound so far, how many of them by position, and whether a name has been used. */
  datatype Binding = Binding(values: seq<Option<Token>>, positions: nat, named: bool)

  function Unbound(count: nat): Binding {
    Binding(seq(count, _ => None), 0, false)
  }

  function BindNamed(macro: Macro, b: Binding, argument: Token, equals: nat, invocation: Token,
                     lex: ArgumentLexer): Result<Binding, Diagnostic>
    requires |b.values| == |macro.parameters| && equals < |argument.text|
  {
    var index := ParameterIndex(macro.parameters, argument.text[..equals]);
    if equals == 0 || equals + 1 == |argument.text| then Err(MacroInvalidArgument)
    else if index == |macro.parameters| || b.values[index].Some? then Err(MacroInvalidArgument)
    else
      var value := lex(argument.text[equals + 1..]);
      if value.Err? then Err(value.error)
      else Ok(Binding(b.values[index := Some(Cloned(value.value, Some(invocation.place)))], b.positions, true))
  }

  /** The binding always has one place per parameter (BindingWidth), so its first case never arises. */
  function BindStep(macro: Macro, b: Binding, argument: Token, invocation: Token, lex: ArgumentLexer)
    : Result<Binding, Diagnostic>
  {
    if |b.values| != |macro.parameters| then Err(InternalError)
    else if IsNamed(argument) then BindNamed(macro, b, argument, EqualsIndex(argument.text).value, invocation, lex)
    else if b.named || b.positions >= |macro.parameters| then Err(MacroInvalidArgument)
    else Ok(Binding(b.values[b.positions := Some(argument)], b.positions + 1, false))
  }

  function Binder(macro: Macro, invocation: Token, lex: ArgumentLexer): (Binding, Token) -> Result<Binding, Diagnostic>
  {
    (b: Binding, argument: Token) => BindStep(macro, b, argument, invocation, lex)
  }

  function BoundValues(values: seq<Option<Token>>): Result<seq<Token>, Diagnostic> {
    if None in values then Err(MacroInvalidArgument)
    else Ok(seq(|values|, i requires 0 <= i < |values| => assert values[i] in values; values[i].value))
  }

  /** One value for each parameter. */
  function ReadArguments(macro: Macro, line: seq<Token>, invocation: Token, lex: ArgumentLexer)
    : Result<seq<Token>, Diagnostic>
  {
    var bound := Fold(Binder(macro, invocation, lex), Unbound(|macro.parameters|), Arguments(line));
    if bound.Err? then Err(bound.error) else BoundValues(bound.value.values)
  }

  /** The table of values keeps one place per parameter while arguments are read. */
  lemma {:induction false} BindingWidth(macro: Macro, arguments: seq<Token>, invocation: Token, lex: ArgumentLexer)
    ensures var bound := Fold(Binder(macro, invocation, lex), Unbound(|macro.parameters|), arguments);
            bound.Ok? ==> |bound.value.values| == |macro.parameters|
  {
    if arguments != [] {
      BindingWidth(macro, arguments[..|arguments| - 1], invocation, lex);
    }
  }

  lemma ArgumentsBound(macro: Macro, line: seq<Token>, invocation: Token, lex: ArgumentLexer)
    ensures var values := ReadArguments(macro, line, invocation, lex); values.Ok? ==>
            |values.value| == |macro.parameters|
  {
    BindingWidth(macro, Arguments(line), invocation, lex);
  }

  // ----- capture -----

  function AddParameter(parameters: seq<Token>, t: Token): Result<seq<Token>, Diagnostic> {
    if t.kind != Identifier || ParameterIndex(parameters, t.text) < |parameters| then Err(MacroInvalidArgument)
    else Ok(parameters + [t])
  }

  function ParameterAdder(): (seq<Token>, Token) -> Result<seq<Token>, Diagnostic> {
    (parameters: seq<Token>, t: Token) => AddParameter(parameters, t)
  }

  /** The first .macro or .endmacro from token i on. */
  function BodyEnd(tokens: seq<Token>, i: nat): (n: nat)
    requires i <= |tokens|
    ensures i <= n <= |tokens|
    ensures forall k :: i <= k < n ==> !IsDirective(tokens[k], MACRO) && !IsDirective(tokens[k], ENDMACRO)
    ensures n < |tokens| ==> IsDirective(tokens[n], MACRO) || IsDirective(tokens[n], ENDMACRO)
    decreases |tokens| - i
  {
    if i == |tokens| || IsDirective(tokens[i], MACRO) || IsDirective(tokens[i], ENDMACRO) then i
    else BodyEnd(tokens, i + 1)
  }

  datatype Definition = Definition(macro: Macro, next: nat)

  /** A definition that starts at token i, and where the tokens after it start. */
  function CaptureMacro(macros: seq<Macro>, tokens: seq<Token>, i: nat): (r: Result<Definition, Diagnostic>)
    requires i < |tokens| && IsDirective(tokens[i], MACRO)
    ensures r.Ok? ==> i < r.value.next <= |tokens|
  {
    var header := LineEnd(tokens, i);
    if i + 1 == header || tokens[i + 1].kind != Identifier then Err(MacroInvalidArgument)
    else if FindMacro(macros, tokens[i + 1].text).Some? then Err(MacroDuplicateDefinition)
    else
      var parameters := Fold(ParameterAdder(), [], Arguments(tokens[i + 2..header]));
      if parameters.Err? then Err(parameters.error)
      else if header == |tokens| then Err(MacroInvalidArgument)
      else
        var end := BodyEnd(tokens, header + 1);
        if end == |tokens| || IsDirective(tokens[end], MACRO) then Err(MacroInvalidArgument)
        else if exists k :: end < k < LineEnd(tokens, end) && tokens[k].kind != Comment then Err(MacroInvalidArgument)
        else Ok(Definition(Macro(tokens[i + 1], parameters.value, tokens[header + 1..end]), NextLine(tokens, end)))
  }

  /** All definitions from token i on, the newest first. */
  function Capture(macros: seq<Macro>, tokens: seq<Token>, i: nat): Result<seq<Macro>, Diagnostic>
    requires i <= |tokens|
    decreases |tokens| - i
  {
    if i == |tokens| then Ok(macros)
    else if IsDirective(tokens[i], MACRO) then
      var d := CaptureMacro(macros, tokens, i);
      if d.Err? then Err(d.error) else Capture([d.value.macro] + macros, tokens, d.value.next)
    else if IsDirective(tokens[i], ENDMACRO) then Err(MacroInvalidArgument)
    else Capture(macros, tokens, i + 1)
  }

  // ----- expansion -----

  /** skip_macro_definition: behind the line of the next .endmacro. */
  function SkipDefinition(tokens: seq<Token>, i: nat): (n: nat)
    requires i < |tokens|
    ensures i < n <= |tokens|
    decreases |tokens| - i
  {
    if IsDirective(tokens[i], ENDMACRO) then NextLine(tokens, i)
    else if i + 1 == |tokens| then |tokens|
    else SkipDefinition(tokens, i + 1)
  }

  predicate IsMarked(t: Token) {
    t.text != [] && t.text[0] == AT
  }

  function CalledName(t: Token): CString {
    if IsMarked(t) then t.text[1..] else t.text
  }

  /** An identifier that is expanded when it stands at the start of a line. */
  predicate IsCall(macros: seq<Macro>, t: Token) {
    t.kind == Identifier && (IsMarked(t) || FindMacro(macros, t.text).Some?)
  }

  function Substituted(macro: Macro, values: seq<Token>, t: Token, place: Location): Token
    requires |values| == |macro.parameters|
  {
    var index := if t.kind == Identifier || t.kind == LabelUse || t.kind == LabelInit
                 then ParameterIndex(macro.parameters, t.text)
                 else |macro.parameters|;
    if index == |macro.parameters| then Cloned(t, Some(place))
    else if t.kind == LabelInit then Cloned(values[index], Some(place)).(kind := LabelInit)
    else Cloned(values[index], Some(place))
  }

  function Instantiated(macro: Macro, values: seq<Token>, place: Location): (body: seq<Token>)
    requires |values| == |macro.parameters|
    ensures |body| == |macro.body|
    ensures forall k :: 0 <= k < |body| ==> body[k] == Substituted(macro, values, macro.body[k], place)
  {
    seq(|macro.body|, k requires 0 <= k < |macro.body| => Substituted(macro, values, macro.body[k], place))
  }

  /** Captured macros have unique names, so comparing them as values is comparing the program's pointers. */
  predicate Blocked(macro: Macro, stack: seq<Macro>) {
    macro in stack || |stack| == MAX_DEPTH
  }

  /** The body an invocation stands for, unless it is refused. */
  function Invoke(macro: Macro, line: seq<Token>, stack: seq<Macro>, invocation: Token,
                  lex: ArgumentLexer): Result<seq<Token>, Diagnostic>
  {
    if Blocked(macro, stack) then Err(MacroRecursion)
    else
      var values := ReadArguments(macro, line, invocation, lex);
      ArgumentsBound(macro, line, invocation, lex);
      if values.Err? then Err(values.error)
      else Ok(Instantiated(macro, values.value, invocation.place))
  }

  datatype Call = Call(macro: Macro, stack: seq<Macro>)

  datatype Run = Run(output: seq<Token>, calls: seq<Call>, error: Option<Diagnostic>)

  /** Continues a run that has not failed. */
  function Then(first: Run, second: Run): Run {
    if first.error.Some? then first
    else Run(first.output + second.output, first.calls + second.calls, second.error)
  }

  function Emit(t: Token): Run {
    Run([t], [], None)
  }

  function Attempt(call: Call, error: Option<Diagnostic>): Run {
    Run([], [call], error)
  }

  predicate NextIsLineStart(t: Token, lineStart: bool) {
    t.kind == Newline || (lineStart && t.kind == LabelInit)
  }

  function ExpandRange(macros: seq<Macro>, tokens: seq<Token>, i: nat, lineStart: bool, stack: seq<Macro>,
                       place: Option<Location>, lex: ArgumentLexer): Run
    requires i <= |tokens| && |stack| <= MAX_DEPTH
    decreases MAX_DEPTH - |stack|, |tokens| - i
  {
    if i == |tokens| then Run([], [], None)
    else if IsDirective(tokens[i], MACRO) then
      ExpandRange(macros, tokens, SkipDefinition(tokens, i), true, stack, place, lex)
    else if lineStart && IsCall(macros, tokens[i]) then
      var macro := FindMacro(macros, CalledName(tokens[i]));
      if macro.None? then Run([], [], Some(MacroUndefined))
      else
        Then(ExpandCall(macros, macro.value, tokens[i + 1..LineEnd(tokens, i)], stack, tokens[i], lex),
             ExpandRange(macros, tokens, NextLine(tokens, i), true, stack, place, lex))
    else
      Then(Emit(Cloned(tokens[i], place)),
           ExpandRange(macros, tokens, i + 1, NextIsLineStart(tokens[i], lineStart), stack, place, lex))
  }

  /** expand_macro. */
  function ExpandCall(macros: seq<Macro>, macro: Macro, line: seq<Token>, stack: seq<Macro>, invocation: Token,
                      lex: ArgumentLexer): Run
    requires |stack| <= MAX_DEPTH
    decreases MAX_DEPTH - |stack|, 0
  {
    var body := Invoke(macro, line, stack, invocation, lex);
    if body.Err? then Attempt(Call(macro, stack), Some(body.error))
    else
      Then(Attempt(Call(macro, stack), None),
           ExpandRange(macros, body.value, 0, true, stack + [macro], Some(invocation.place), lex))
  }

  /** macros_expand. */
  function Expand(tokens: seq<Token>, lex: ArgumentLexer): Run {
    var macros := Capture([], tokens, 0);
    if macros.Err? then Run([], [], Some(macros.error)) else ExpandRange(macros.value, tokens, 0, true, [], None, lex)
  }
}
