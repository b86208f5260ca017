/** What holds of every macro expansion. */
module MacroProofs {
  import opened Wrappers
  import opened Bytes
  import opened Diagnostics
  import opened Macros
  import opened Tokens

  // ----- active macros and the recursion diagnostic -----

  predicate Distinct(stack: seq<Macro>) {
    forall i, j :: 0 <= i < j < |stack| ==> stack[i] != stack[j]
  }

  /** The macros being expanded: distinct, known and at most 64. */
  predicate Active(macros: seq<Macro>, stack: seq<Macro>) {
    Distinct(stack) && |stack| <= MAX_DEPTH && forall m :: m in stack ==> m in macros
  }

  predicate GoodCall(macros: seq<Macro>, c: Call) {
    c.macro in macros && Active(macros, c.stack)
  }

  /** Invocations are made on a proper stack, and the run reports recursion exactly when its last one is blocked. */
  predicate Disciplined(macros: seq<Macro>, run: Run) {
    && (forall k :: 0 <= k < |run.calls| ==> GoodCall(macros, run.calls[k]))
    && (forall k :: 0 <= k < |run.calls| - 1 ==> !Blocked(run.calls[k].macro, run.calls[k].stack))
    && (run.error == Some(MacroRecursion) <==> LastBlocked(run))
  }

  predicate LastBlocked(run: Run) {
    run.calls != [] && Blocked(run.calls[|run.calls| - 1].macro, run.calls[|run.calls| - 1].stack)
  }

  /** Reading an argument's text reports its own errors, never the recursion diagnostic. */
  ghost predicate Plain(lex: ArgumentLexer) {
    forall text :: lex(text) != Err(MacroRecursion)
  }

  lemma ThenDisciplined(macros: seq<Macro>, a: Run, b: Run)
    requires Disciplined(macros, a) && Disciplined(macros, b)
    ensures Disciplined(macros, Then(a, b))
  {
    hide GoodCall, Blocked;
    var run := Then(a, b);
    if a.error.None? {
      forall k | 0 <= k < |run.calls| ensures GoodCall(macros, run.calls[k]) {
        assert run.calls[k] == if k < |a.calls| then a.calls[k] else b.calls[k - |a.calls|];
      }
      forall k | 0 <= k < |run.calls| - 1 ensures !Blocked(run.calls[k].macro, run.calls[k].stack) {
        assert run.calls[k] == if k < |a.calls| then a.calls[k] else b.calls[k - |a.calls|];
      }
    }
  }

  lemma {:induction false} BindingErrors(macro: Macro, arguments: seq<Token>, invocation: Token, lex: ArgumentLexer)
    requires Plain(lex)
    ensures Fold(Binder(macro, invocation, lex), Unbound(|macro.parameters|), arguments) != Err(MacroRecursion)
  {
    if arguments != [] {
      BindingErrors(macro, arguments[..|arguments| - 1], invocation, lex);
    }
  }

  lemma RangeDisciplined(macros: seq<Macro>, tokens: seq<Token>, i: nat, lineStart: bool, stack: seq<Macro>,
                         place: Option<Location>, lex: ArgumentLexer)
    requires i <= |tokens| && Active(macros, stack) && Plain(lex)
    ensures Disciplined(macros, ExpandRange(macros, tokens, i, lineStart, stack, place, lex))
    decreases MAX_DEPTH - |stack|, |tokens| - i
  {
    hide Plain, Disciplined, IsDirective, CalledName, ExpandCall, SkipDefinition, NextLine, NextIsLineStart, Cloned,
         FindMacro;
    if i == |tokens| {
      QuietRun(macros, [], None);
    } else if IsDirective(tokens[i], MACRO) {
      RangeDisciplined(macros, tokens, SkipDefinition(tokens, i), true, stack, place, lex);
    } else if lineStart && IsCall(macros, tokens[i]) {
      var macro := FindMacro(macros, CalledName(tokens[i]));
      if macro.None? {
        QuietRun(macros, [], Some(MacroUndefined));
      } else {
        var line := tokens[i + 1..LineEnd(tokens, i)];
        CallDisciplined(macros, macro.value, line, stack, tokens[i], lex);
        RangeDisciplined(macros, tokens, NextLine(tokens, i), true, stack, place, lex);
        ThenDisciplined(macros, ExpandCall(macros, macro.value, line, stack, tokens[i], lex),
                        ExpandRange(macros, tokens, NextLine(tokens, i), true, stack, place, lex));
      }
    } else {
      var next := NextIsLineStart(tokens[i], lineStart);
      RangeDisciplined(macros, tokens, i + 1, next, stack, place, lex);
      QuietRun(macros, [Cloned(tokens[i], place)], None);
      ThenDisciplined(macros, Emit(Cloned(tokens[i], place)),
                      ExpandRange(macros, tokens, i + 1, next, stack, place, lex));
    }
  }

  lemma QuietRun(macros: seq<Macro>, output: seq<Token>, error: Option<Diagnostic>)
    requires error != Some(MacroRecursion)
    ensures Disciplined(macros, Run(output, [], error))
  {
  }

  lemma AttemptDisciplined(macros: seq<Macro>, macro: Macro, stack: seq<Macro>, error: Option<Diagnostic>)
    requires macro in macros && Active(macros, stack)
    requires error == Some(MacroRecursion) <==> Blocked(macro, stack)
    ensures Disciplined(macros, Attempt(Call(macro, stack), error))
  {
  }

  lemma CallDisciplined(macros: seq<Macro>, macro: Macro, line: seq<Token>, stack: seq<Macro>, invocation: Token,
                        lex: ArgumentLexer)
    requires macro in macros && Active(macros, stack) && Plain(lex)
    ensures Disciplined(macros, ExpandCall(macros, macro, line, stack, invocation, lex))
    decreases MAX_DEPTH - |stack|, 0
  {
    hide Disciplined, Plain, Arguments, Instantiated, Binder, Fold, Unbound;
    BindingErrors(macro, Arguments(line), invocation, lex);
    var body := Invoke(macro, line, stack, invocation, lex);
    AttemptDisciplined(macros, macro, stack, if body.Err? then Some(body.error) else None);
    if body.Ok? {
      RangeDisciplined(macros, body.value, 0, true, stack + [macro], Some(invocation.place), lex);
      ThenDisciplined(macros, Attempt(Call(macro, stack), None),
                      ExpandRange(macros, body.value, 0, true, stack + [macro], Some(invocation.place), lex));
    }
  }

  lemma {:induction false} ParameterErrors(arguments: seq<Token>)
    ensures Fold(ParameterAdder(), [], arguments) != Err(MacroRecursion)
  {
    if arguments != [] { ParameterErrors(arguments[..|arguments| - 1]); }
  }

  lemma {:induction false} CaptureErrors(macros: seq<Macro>, tokens: seq<Token>, i: nat)
    requires i <= |tokens|
    ensures Capture(macros, tokens, i) != Err(MacroRecursion)
    decreases |tokens| - i
  {
    hide Arguments, BodyEnd, NextLine, Fold, FindMacro;
    if i < |tokens| {
      if IsDirective(tokens[i], MACRO) {
        if LineEnd(tokens, i) >= i + 2 { ParameterErrors(Arguments(tokens[i + 2..LineEnd(tokens, i)])); }
        var d := CaptureMacro(macros, tokens, i);
        if d.Ok? { CaptureErrors([d.value.macro] + macros, tokens, d.value.next); }
      } else {
        CaptureErrors(macros, tokens, i + 1);
      }
    }
  }

  /**
    In every expansion the active macros are distinct and at most 64, and recursion is
    reported exactly for a blocked invocation.
   */
  lemma RecursionIsDiagnosed(tokens: seq<Token>, lex: ArgumentLexer) returns (macros: seq<Macro>)
    requires Plain(lex)
    ensures Disciplined(macros, Expand(tokens, lex))
    ensures Capture([], tokens, 0).Ok? ==> Capture([], tokens, 0) == Ok(macros)
    ensures |macros| <= MAX_DEPTH && Expand(tokens, lex).error == Some(MacroRecursion) ==>
              var last := Expand(tokens, lex).calls[|Expand(tokens, lex).calls| - 1]; last.macro in last.stack
  {
    hide Capture, ExpandRange, Plain, Active;
    CaptureErrors([], tokens, 0);
    var captured := Capture([], tokens, 0);
    if captured.Err? {
      macros := [];
    } else {
      macros := captured.value;
      NothingActive(macros);
      RangeDisciplined(macros, tokens, 0, true, [], None, lex);
      var run := Expand(tokens, lex);
      if |macros| <= MAX_DEPTH && run.error == Some(MacroRecursion) {
        var last := run.calls[|run.calls| - 1];
        assert GoodCall(macros, last);
        if last.macro !in last.stack { DepthNeedsMacros(macros, last.stack, last.macro); }
      }
    }
  }

  lemma NothingActive(macros: seq<Macro>)
    ensures Active(macros, [])
  {
  }

  /** The depth limit can only be what stops a run that has more than 64 macros. */
  lemma DepthNeedsMacros(macros: seq<Macro>, stack: seq<Macro>, next: Macro)
    requires Active(macros, stack) && next in macros && next !in stack
    ensures |stack| < |macros|
  {
    DistinctCount(stack);
    MemberCount(macros);
    var active, known := set m | m in stack, set m | m in macros;
    assert active <= known - {next};
    SmallerSet(active, known - {next});
  }

  lemma {:induction false} DistinctCount<T>(s: seq<T>)
    requires forall i, j :: 0 <= i < j < |s| ==> s[i] != s[j]
    ensures |(set x | x in s)| == |s|
  {
    if s != [] {
      var front, last := s[..|s| - 1], s[|s| - 1];
      DistinctCount(front);
      assert (set x | x in s) == (set x | x in front) + {last};
    }
  }

  lemma {:induction false} MemberCount<T>(s: seq<T>)
    ensures |(set x | x in s)| <= |s|
  {
    if s != [] {
      var front, last := s[..|s| - 1], s[|s| - 1];
      MemberCount(front);
      assert (set x | x in s) == (set x | x in front) + {last};
    }
  }

  // ----- completeness and the fixpoint -----

  /** Whether the token behind s stands at the start of a line. */
  function StartAfter(start: bool, s: seq<Token>): bool {
    if s == [] then start else NextIsLineStart(s[|s| - 1], StartAfter(start, s[..|s| - 1]))
  }

  predicate FullyExpandedAt(macros: seq<Macro>, start: bool, s: seq<Token>, k: nat)
    requires k < |s|
  {
    !IsDirective(s[k], MACRO) && (StartAfter(start, s[..k]) ==> !IsCall(macros, s[k]))
  }

  /** No definition is left and nothing at the start of a line asks for expansion. */
  predicate FullyExpanded(macros: seq<Macro>, start: bool, s: seq<Token>) {
    forall k :: 0 <= k < |s| ==> FullyExpandedAt(macros, start, s, k)
  }

  lemma {:induction false} StartAfterAppend(start: bool, a: seq<Token>, b: seq<Token>)
    ensures StartAfter(start, a + b) == StartAfter(StartAfter(start, a), b)
  {
    if b == [] {
      assert a + b == a;
    } else {
      StartAfterAppend(start, a, b[..|b| - 1]);
      assert (a + b)[..|a + b| - 1] == a + b[..|b| - 1];
    }
  }

  lemma AppendExpanded(macros: seq<Macro>, start: bool, a: seq<Token>, b: seq<Token>)
    requires FullyExpanded(macros, start, a) && FullyExpanded(macros, StartAfter(start, a), b)
    ensures FullyExpanded(macros, start, a + b)
  {
    hide IsDirective, IsCall, StartAfter;
    forall k | 0 <= k < |a + b| ensures FullyExpandedAt(macros, start, a + b, k) {
      if k < |a| {
        assert FullyExpandedAt(macros, start, a, k) && (a + b)[..k] == a[..k];
      } else {
        assert FullyExpandedAt(macros, StartAfter(start, a), b, k - |a|) && (a + b)[..k] == a + b[..k - |a|];
        StartAfterAppend(start, a, b[..k - |a|]);
      }
    }
  }

  lemma SingleExpanded(macros: seq<Macro>, start: bool, t: Token, place: Option<Location>)
    requires !IsDirective(t, MACRO) && (start ==> !IsCall(macros, t))
    ensures FullyExpanded(macros, start, [Cloned(t, place)])
    ensures StartAfter(start, [Cloned(t, place)]) == NextIsLineStart(t, start)
  {
    hide FindMacro;
    assert [Cloned(t, place)][..0] == [];
  }

  lemma NothingExpanded(macros: seq<Macro>, start: bool)
    ensures FullyExpanded(macros, start, []) && StartAfter(start, []) == start
  {
  }

  /** The output is at the start of a line only when the scan is, so no call is missed. */
  lemma RangeExpanded(macros: seq<Macro>, tokens: seq<Token>, i: nat, lineStart: bool, stack: seq<Macro>,
                      place: Option<Location>, lex: ArgumentLexer, start: bool)
    requires i <= |tokens| && |stack| <= MAX_DEPTH && (start ==> lineStart)
    ensures FullyExpanded(macros, start, ExpandRange(macros, tokens, i, lineStart, stack, place, lex).output)
    decreases MAX_DEPTH - |stack|, |tokens| - i
  {
    hide FullyExpanded, StartAfter, IsDirective, FindMacro, CalledName, ExpandCall, SkipDefinition, NextLine, Cloned;
    NothingExpanded(macros, start);
    if i == |tokens| {
    } else if IsDirective(tokens[i], MACRO) {
      RangeExpanded(macros, tokens, SkipDefinition(tokens, i), true, stack, place, lex, start);
    } else if lineStart && IsCall(macros, tokens[i]) {
      var macro := FindMacro(macros, CalledName(tokens[i]));
      if macro.Some? {
        var line := tokens[i + 1..LineEnd(tokens, i)];
        CallExpanded(macros, macro.value, line, stack, tokens[i], lex, start);
        var inner := ExpandCall(macros, macro.value, line, stack, tokens[i], lex);
        var next := StartAfter(start, inner.output);
        RangeExpanded(macros, tokens, NextLine(tokens, i), true, stack, place, lex, next);
        AppendExpanded(macros, start, inner.output,
                       ExpandRange(macros, tokens, NextLine(tokens, i), true, stack, place, lex).output);
      }
    } else {
      SingleExpanded(macros, start, tokens[i], place);
      var next := NextIsLineStart(tokens[i], lineStart);
      RangeExpanded(macros, tokens, i + 1, next, stack, place, lex, NextIsLineStart(tokens[i], start));
      AppendExpanded(macros, start, [Cloned(tokens[i], place)],
                     ExpandRange(macros, tokens, i + 1, next, stack, place, lex).output);
    }
  }

  lemma CallExpanded(macros: seq<Macro>, macro: Macro, line: seq<Token>, stack: seq<Macro>, invocation: Token,
                     lex: ArgumentLexer, start: bool)
    requires |stack| <= MAX_DEPTH
    ensures FullyExpanded(macros, start, ExpandCall(macros, macro, line, stack, invocation, lex).output)
    decreases MAX_DEPTH - |stack|, 0
  {
    hide FullyExpanded, StartAfter, ReadArguments, Instantiated;
    NothingExpanded(macros, start);
    var body := Invoke(macro, line, stack, invocation, lex);
    if body.Ok? {
      RangeExpanded(macros, body.value, 0, true, stack + [macro], Some(invocation.place), lex, start);
      var inner := ExpandRange(macros, body.value, 0, true, stack + [macro], Some(invocation.place), lex);
      assert [] + inner.output == inner.output;
    }
  }

  /**
    Expansion is complete: no definition is emitted, and no emitted line begins with a known
    macro or a marked name.
   */
  lemma ExpansionIsComplete(tokens: seq<Token>, lex: ArgumentLexer)
    requires Capture([], tokens, 0).Ok?
    ensures FullyExpanded(Capture([], tokens, 0).value, true, Expand(tokens, lex).output)
  {
    hide FullyExpanded, Capture, ExpandRange;
    RangeExpanded(Capture([], tokens, 0).value, tokens, 0, true, [], None, lex, true);
  }

  predicate HasEndMacro(tokens: seq<Token>, i: nat) {
    exists k :: i <= k < |tokens| && IsDirective(tokens[k], ENDMACRO)
  }

  lemma {:induction false} CaptureNothing(tokens: seq<Token>, i: nat)
    requires i <= |tokens| && forall k :: 0 <= k < |tokens| ==> !IsDirective(tokens[k], MACRO)
    ensures Capture([], tokens, i) == if HasEndMacro(tokens, i) then Err(MacroInvalidArgument) else Ok([])
    decreases |tokens| - i
  {
    hide IsDirective;
    if i < |tokens| { CaptureNothing(tokens, i + 1); }
  }

  lemma {:induction false} RangeUnchanged(macros: seq<Macro>, tokens: seq<Token>, i: nat, lex: ArgumentLexer)
    requires i <= |tokens| && FullyExpanded(macros, true, tokens)
    ensures ExpandRange([], tokens, i, StartAfter(true, tokens[..i]), [], None, lex) == Run(tokens[i..], [], None)
    decreases |tokens| - i
  {
    hide IsDirective, FullyExpanded;
    if i < |tokens| {
      ExpandedAt(macros, tokens, i);
      RangeUnchanged(macros, tokens, i + 1, lex);
      assert tokens[..i + 1][..i] == tokens[..i];
      assert [tokens[i]] + tokens[i + 1..] == tokens[i..];
    }
  }

  /** What needs no expansion with some macros needs none without them. */
  lemma ExpandedAt(macros: seq<Macro>, tokens: seq<Token>, i: nat)
    requires i < |tokens| && FullyExpanded(macros, true, tokens)
    ensures !IsDirective(tokens[i], MACRO) && (StartAfter(true, tokens[..i]) ==> !IsCall([], tokens[i]))
  {
    assert FullyExpandedAt(macros, true, tokens, i);
  }

  /** Expanding an expansion again changes nothing, unless it holds an .endmacro: then it is refused. */
  lemma ExpansionIsFixpoint(tokens: seq<Token>, lex: ArgumentLexer, again: ArgumentLexer)
    requires Expand(tokens, lex).error.None?
    ensures var output := Expand(tokens, lex).output;
            Expand(output, again) == if HasEndMacro(output, 0) then Run([], [], Some(MacroInvalidArgument))
              else Run(output, [], None)
  {
    hide Capture, ExpandRange, IsDirective, IsCall, StartAfter;
    var output := Expand(tokens, lex).output;
    ExpansionIsComplete(tokens, lex);
    var macros := Capture([], tokens, 0).value;
    assert forall k :: 0 <= k < |output| ==> FullyExpandedAt(macros, true, output, k);
    forall k | 0 <= k < |output| ensures !IsDirective(output[k], MACRO) {
      assert FullyExpandedAt(macros, true, output, k);
    }
    CaptureNothing(output, 0);
    RangeUnchanged(macros, output, 0, again);
    NothingExpanded(macros, true);
    assert output[..0] == [] && output[0..] == output;
  }

  // ----- locations -----

  predicate AllAt(tokens: seq<Token>, place: Location) {
    forall t :: t in tokens ==> t.place == place
  }

  /** However deep the nesting, what a call emits is located at the call. */
  lemma RangeLocated(macros: seq<Macro>, tokens: seq<Token>, i: nat, lineStart: bool, stack: seq<Macro>,
                     place: Location, lex: ArgumentLexer)
    requires i <= |tokens| && |stack| <= MAX_DEPTH && AllAt(tokens, place)
    ensures AllAt(ExpandRange(macros, tokens, i, lineStart, stack, Some(place), lex).output, place)
    decreases MAX_DEPTH - |stack|, |tokens| - i
  {
    hide IsDirective, FindMacro, CalledName, ExpandCall, SkipDefinition, NextLine, NextIsLineStart;
    if i == |tokens| {
    } else if IsDirective(tokens[i], MACRO) {
      RangeLocated(macros, tokens, SkipDefinition(tokens, i), true, stack, place, lex);
    } else if lineStart && IsCall(macros, tokens[i]) {
      var macro := FindMacro(macros, CalledName(tokens[i]));
      if macro.Some? {
        CallLocated(macros, macro.value, tokens[i + 1..LineEnd(tokens, i)], stack, tokens[i], lex);
        RangeLocated(macros, tokens, NextLine(tokens, i), true, stack, place, lex);
      }
    } else {
      RangeLocated(macros, tokens, i + 1, NextIsLineStart(tokens[i], lineStart), stack, place, lex);
    }
  }

  lemma CallLocated(macros: seq<Macro>, macro: Macro, line: seq<Token>, stack: seq<Macro>, invocation: Token,
                    lex: ArgumentLexer)
    requires |stack| <= MAX_DEPTH
    ensures AllAt(ExpandCall(macros, macro, line, stack, invocation, lex).output, invocation.place)
    decreases MAX_DEPTH - |stack|, 0
  {
    hide ReadArguments;
    var body := Invoke(macro, line, stack, invocation, lex);
    if body.Ok? {
      RangeLocated(macros, body.value, 0, true, stack + [macro], invocation.place, lex);
    }
  }

  datatype Role = Passed | Skipped | Expanded

  /** A stretch of the source with what it contributes to the output. */
  datatype Tile = Tile(role: Role, start: nat, end: nat, output: seq<Token>)

  /** What the call at token i emits; nothing when it calls no macro. */
  function CallOutput(macros: seq<Macro>, tokens: seq<Token>, i: nat, lex: ArgumentLexer): seq<Token>
    requires i < |tokens| && IsCall(macros, tokens[i])
  {
    var macro := FindMacro(macros, CalledName(tokens[i]));
    if macro.None? then []
    else ExpandCall(macros, macro.value, tokens[i + 1..LineEnd(tokens, i)], [], tokens[i], lex).output
  }

  /**
    A single token goes through unchanged, a definition leaves nothing, and all that a call
    leaves is located at its name.
   */
  predicate TileFits(macros: seq<Macro>, tokens: seq<Token>, t: Tile, lex: ArgumentLexer) {
    && t.start < t.end <= |tokens|
    && match t.role
       case Passed => t.end == t.start + 1 && t.output == [tokens[t.start]]
       case Skipped => IsDirective(tokens[t.start], MACRO) && t.end == SkipDefinition(tokens, t.start) && t.output == []
       case Expanded =>
         && IsCall(macros, tokens[t.start]) && t.end == NextLine(tokens, t.start)
         && t.output == CallOutput(macros, tokens, t.start, lex)
         && forall u :: u in t.output ==> u.place == tokens[t.start].place
  }

  /** The tiles cover the source from token i to `end` without a gap or an overlap. */
  predicate Tiled(macros: seq<Macro>, tokens: seq<Token>, i: nat, tiles: seq<Tile>, end: nat, lex: ArgumentLexer)
    decreases |tiles|
  {
    if tiles == [] then i == end
    else
      && tiles[0].start == i && TileFits(macros, tokens, tiles[0], lex)
      && Tiled(macros, tokens, tiles[0].end, tiles[1..], end, lex)
  }

  function TileOutput(tiles: seq<Tile>): seq<Token> {
    if tiles == [] then [] else tiles[0].output + TileOutput(tiles[1..])
  }

  /** The tiles lie on the source up to `end`: all of it, or else up to behind a call that failed. */
  predicate Accounts(macros: seq<Macro>, tokens: seq<Token>, i: nat, tiles: seq<Tile>, end: nat, run: Run,
                     lex: ArgumentLexer)
  {
    && Tiled(macros, tokens, i, tiles, end, lex) && run.output == TileOutput(tiles)
    && (run.error.None? ==> end == |tokens|)
    && (run.error.Some? ==> tiles != [] && tiles[|tiles| - 1].role.Expanded?)
  }

  /**
    The output is the source tile by tile: every token outside definitions and calls is
    emitted once, in order and unchanged, and whatever a call emits, however deeply
    nested, carries the location of that call's own name.
   */
  lemma {:induction false} OutputIsLocated(macros: seq<Macro>, tokens: seq<Token>, i: nat, lineStart: bool,
                                           lex: ArgumentLexer)
    returns (tiles: seq<Tile>, end: nat)
    requires i <= |tokens|
    ensures Accounts(macros, tokens, i, tiles, end, ExpandRange(macros, tokens, i, lineStart, [], None, lex), lex)
    decreases |tokens| - i
  {
    hide IsDirective, FindMacro, CalledName, ExpandCall, SkipDefinition, NextLine, NextIsLineStart, TileFits, Accounts;
    var run := ExpandRange(macros, tokens, i, lineStart, [], None, lex);
    if i == |tokens| {
      tiles, end := [], i;
      NothingLeft(macros, tokens, lex, run);
    } else if IsDirective(tokens[i], MACRO) {
      var next := SkipDefinition(tokens, i);
      tiles, end := OutputIsLocated(macros, tokens, next, true, lex);
      var tile := Tile(Skipped, i, next, []);
      SkippedTile(macros, tokens, tile, lex);
      var rest := ExpandRange(macros, tokens, next, true, [], None, lex);
      OneMoreTile(macros, tokens, tile, tiles, end, Run([], [], None), rest, lex);
      assert [] + rest.output == rest.output && [] + rest.calls == rest.calls;
      tiles := [tile] + tiles;
    } else if lineStart && IsCall(macros, tokens[i]) {
      var tile := CallTile(macros, tokens, i, lex);
      var macro := FindMacro(macros, CalledName(tokens[i]));
      var call := if macro.None? then Run([], [], Some(MacroUndefined))
                  else ExpandCall(macros, macro.value, tokens[i + 1..LineEnd(tokens, i)], [], tokens[i], lex);
      tiles, end := OutputIsLocated(macros, tokens, NextLine(tokens, i), true, lex);
      OneMoreTile(macros, tokens, tile, tiles, end, call,
                  ExpandRange(macros, tokens, NextLine(tokens, i), true, [], None, lex), lex);
      if call.error.Some? {
        tiles, end := [tile], tile.end;
      } else {
        tiles := [tile] + tiles;
      }
    } else {
      var next := NextIsLineStart(tokens[i], lineStart);
      tiles, end := OutputIsLocated(macros, tokens, i + 1, next, lex);
      var tile := Tile(Passed, i, i + 1, [tokens[i]]);
      PassedTile(macros, tokens, tile, lex);
      OneMoreTile(macros, tokens, tile, tiles, end, Emit(tokens[i]),
                  ExpandRange(macros, tokens, i + 1, next, [], None, lex), lex);
      tiles := [tile] + tiles;
    }
  }

  lemma NothingLeft(macros: seq<Macro>, tokens: seq<Token>, lex: ArgumentLexer, run: Run)
    requires run == Run([], [], None)
    ensures Accounts(macros, tokens, |tokens|, [], |tokens|, run, lex)
  {
  }

  lemma SkippedTile(macros: seq<Macro>, tokens: seq<Token>, t: Tile, lex: ArgumentLexer)
    requires t.start < |tokens| && IsDirective(tokens[t.start], MACRO)
    requires t == Tile(Skipped, t.start, SkipDefinition(tokens, t.start), [])
    ensures TileFits(macros, tokens, t, lex)
  {
  }

  lemma PassedTile(macros: seq<Macro>, tokens: seq<Token>, t: Tile, lex: ArgumentLexer)
    requires t.start < |tokens| && t == Tile(Passed, t.start, t.start + 1, [tokens[t.start]])
    ensures TileFits(macros, tokens, t, lex)
  {
  }

  lemma CallTile(macros: seq<Macro>, tokens: seq<Token>, i: nat, lex: ArgumentLexer) returns (t: Tile)
    requires i < |tokens| && IsCall(macros, tokens[i])
    ensures t == Tile(Expanded, i, NextLine(tokens, i), CallOutput(macros, tokens, i, lex))
            && TileFits(macros, tokens, t, lex)
  {
    hide ExpandCall, FindMacro, CalledName;
    t := Tile(Expanded, i, NextLine(tokens, i), CallOutput(macros, tokens, i, lex));
    var macro := FindMacro(macros, CalledName(tokens[i]));
    if macro.Some? { CallLocated(macros, macro.value, tokens[i + 1..LineEnd(tokens, i)], [], tokens[i], lex); }
  }

  /** Putting a tile in front of the rest of a run, unless it stopped the run. */
  lemma OneMoreTile(macros: seq<Macro>, tokens: seq<Token>, tile: Tile, tiles: seq<Tile>, end: nat, first: Run,
                    rest: Run, lex: ArgumentLexer)
    requires TileFits(macros, tokens, tile, lex) && first.output == tile.output
             && (first.error.Some? ==> tile.role.Expanded?)
    requires Accounts(macros, tokens, tile.end, tiles, end, rest, lex)
    ensures first.error.None? ==> Accounts(macros, tokens, tile.start, [tile] + tiles, end, Then(first, rest), lex)
    ensures first.error.Some? ==> Accounts(macros, tokens, tile.start, [tile], tile.end, Then(first, rest), lex)
  {
    hide TileFits;
    var all := [tile] + tiles;
    assert all[1..] == tiles && [tile][1..] == [];
    assert tile.output + [] == tile.output;
    assert TileOutput([tile]) == tile.output;
    assert first.error.Some? ==> Then(first, rest) == first;
    assert Tiled(macros, tokens, tile.start, [tile], tile.end, lex);
  }

  // ----- captured definitions -----

  predicate DistinctTexts(tokens: seq<Token>) {
    forall i, j :: 0 <= i < j < |tokens| ==> tokens[i].text != tokens[j].text
  }

  predicate WellDefined(m: Macro) {
    && DistinctTexts(m.parameters)
    && (forall t :: t in m.parameters ==> t.kind == Identifier)
    && m.name.kind == Identifier
    && (forall t :: t in m.body ==> !IsDirective(t, MACRO) && !IsDirective(t, ENDMACRO))
  }

  predicate WellCaptured(macros: seq<Macro>) {
    && (forall m :: m in macros ==> WellDefined(m))
    && (forall i, j :: 0 <= i < j < |macros| ==> macros[i].name.text != macros[j].name.text)
  }

  lemma {:induction false} ParametersDistinct(arguments: seq<Token>)
    ensures var parameters := Fold(ParameterAdder(), [], arguments);
            parameters.Ok? ==> DistinctTexts(parameters.value) && forall t :: t in parameters.value ==>
                                                                    t.kind == Identifier
  {
    if arguments != [] { ParametersDistinct(arguments[..|arguments| - 1]); }
  }

  /** Names are unique, parameters are unique identifiers and no body holds a definition. */
  lemma {:induction false} CapturedWell(macros: seq<Macro>, tokens: seq<Token>, i: nat)
    requires i <= |tokens| && WellCaptured(macros)
    ensures Capture(macros, tokens, i).Ok? ==> WellCaptured(Capture(macros, tokens, i).value)
    decreases |tokens| - i
  {
    hide Arguments, NextLine, Fold, IsDirective, WellDefined;
    if i < |tokens| {
      if IsDirective(tokens[i], MACRO) {
        var d := CaptureMacro(macros, tokens, i);
        if d.Ok? {
          DefinitionWell(macros, tokens, i);
          CapturedWell([d.value.macro] + macros, tokens, d.value.next);
        }
      } else {
        CapturedWell(macros, tokens, i + 1);
      }
    }
  }

  lemma DefinitionWell(macros: seq<Macro>, tokens: seq<Token>, i: nat)
    requires i < |tokens| && IsDirective(tokens[i], MACRO) && CaptureMacro(macros, tokens, i).Ok?
    ensures WellDefined(CaptureMacro(macros, tokens, i).value.macro)
    ensures forall m :: m in macros ==> m.name.text != CaptureMacro(macros, tokens, i).value.macro.name.text
  {
    hide Arguments, NextLine, Fold;
    ParametersDistinct(Arguments(tokens[i + 2..LineEnd(tokens, i)]));
  }

  // ----- binding of arguments -----

  function Filled(values: seq<Option<Token>>): (n: nat)
    ensures n <= |values|
    ensures n == |values| ==> None !in values
    ensures None !in values ==> n == |values|
  {
    if values == [] then 0 else Filled(values[..|values| - 1]) + if values[|values| - 1].Some? then 1 else 0
  }

  lemma {:induction false} FillOne(values: seq<Option<Token>>, index: nat, t: Token)
    requires index < |values| && values[index].None?
    ensures Filled(values[index := Some(t)]) == Filled(values) + 1
  {
    var n := |values| - 1;
    if index < n {
      FillOne(values[..n], index, t);
      assert values[index := Some(t)][..n] == values[..n][index := Some(t)];
    } else {
      assert values[index := Some(t)][..n] == values[..n];
    }
  }

  /** The parameter a named argument is for. */
  function NamedIndex(macro: Macro, argument: Token): nat {
    if IsNamed(argument) then ParameterIndex(macro.parameters, argument.text[..EqualsIndex(argument.text).value]) else 0
  }

  /** No parameter is named twice, and none that already has a value by position. */
  predicate NamedOnce(macro: Macro, arguments: seq<Token>, positions: nat) {
    && (forall k :: positions <= k < |arguments| ==> positions <= NamedIndex(macro, arguments[k]) < |macro.parameters|)
    && (forall k, l :: positions <= k < l < |arguments| ==>
          NamedIndex(macro, arguments[k]) != NamedIndex(macro, arguments[l]))
  }

  /** A named argument's parameter has the value read from its text. */
  predicate NamedBound(macro: Macro, values: seq<Option<Token>>, argument: Token, invocation: Token, lex: ArgumentLexer)
  {
    && IsNamed(argument)
    && var equals := EqualsIndex(argument.text).value;
       var index := NamedIndex(macro, argument);
       var value := lex(argument.text[equals + 1..]);
       index < |values| && value.Ok? && values[index] == Some(Cloned(value.value, Some(invocation.place)))
  }

  predicate AllBound(macro: Macro, arguments: seq<Token>, b: Binding, invocation: Token, lex: ArgumentLexer) {
    && |b.values| == |macro.parameters|
    && b.positions <= |arguments| && b.positions <= |b.values|
    && (forall j :: 0 <= j < b.positions ==> !IsNamed(arguments[j]) && b.values[j] == Some(arguments[j]))
    && (forall k :: b.positions <= k < |arguments| ==> NamedBound(macro, b.values, arguments[k], invocation, lex))
    && b.named == (b.positions < |arguments|)
    && NamedOnce(macro, arguments, b.positions)
    && Filled(b.values) == |arguments|
    && (!b.named ==> forall j :: b.positions <= j < |b.values| ==> b.values[j].None?)
  }

  lemma {:induction false} Unfilled(count: nat)
    ensures Filled(Unbound(count).values) == 0
  {
    if count > 0 {
      Unfilled(count - 1);
      assert Unbound(count).values[..count - 1] == Unbound(count - 1).values;
    }
  }

  lemma {:induction false} BindingHolds(macro: Macro, arguments: seq<Token>, invocation: Token, lex: ArgumentLexer)
    ensures var bound := Fold(Binder(macro, invocation, lex), Unbound(|macro.parameters|), arguments);
            bound.Ok? ==> AllBound(macro, arguments, bound.value, invocation, lex)
  {
    hide Filled;
    var start := Unbound(|macro.parameters|);
    if arguments == [] {
      Unfilled(|macro.parameters|);
    } else {
      var front, last := arguments[..|arguments| - 1], arguments[|arguments| - 1];
      BindingHolds(macro, front, invocation, lex);
      var before := Fold(Binder(macro, invocation, lex), start, front);
      if before.Ok? && BindStep(macro, before.value, last, invocation, lex).Ok? {
        StepBinds(macro, front, last, before.value, invocation, lex);
        assert front + [last] == arguments;
      }
    }
  }

  lemma StepBinds(macro: Macro, front: seq<Token>, last: Token, b: Binding, invocation: Token, lex: ArgumentLexer)
    requires AllBound(macro, front, b, invocation, lex) && BindStep(macro, b, last, invocation, lex).Ok?
    ensures AllBound(macro, front + [last], BindStep(macro, b, last, invocation, lex).value, invocation, lex)
  {
    hide Filled, Cloned, NamedOnce;
    var next := BindStep(macro, b, last, invocation, lex).value;
    if IsNamed(last) {
      var index := ParameterIndex(macro.parameters, last.text[..EqualsIndex(last.text).value]);
      FillOne(b.values, index, next.values[index].value);
      forall k | b.positions <= k < |front| ensures NamedBound(macro, next.values, front[k], invocation, lex) {
        assert NamedBound(macro, b.values, front[k], invocation, lex);
      }
      NamedAgain(macro, front, last, b, invocation, lex);
    } else {
      FillOne(b.values, b.positions, last);
      NoneNamed(macro, front + [last]);
    }
  }

  /** A parameter that still has no value is named for the first time. */
  lemma NamedAgain(macro: Macro, front: seq<Token>, last: Token, b: Binding, invocation: Token, lex: ArgumentLexer)
    requires AllBound(macro, front, b, invocation, lex) && IsNamed(last)
    requires NamedIndex(macro, last) < |b.values| && b.values[NamedIndex(macro, last)].None?
    ensures NamedOnce(macro, front + [last], b.positions)
  {
    hide Filled, Cloned, IsNamed, NamedIndex;
    forall k | b.positions <= k < |front| ensures NamedIndex(macro, front[k]) != NamedIndex(macro, last) {
      assert NamedBound(macro, b.values, front[k], invocation, lex);
    }
  }

  lemma NoneNamed(macro: Macro, arguments: seq<Token>)
    ensures NamedOnce(macro, arguments, |arguments|)
  {
  }

  /**
    Every parameter gets exactly one value: the first arguments by position, the rest each by
    its own name, no two alike.
   */
  lemma ArgumentsBindOnce(macro: Macro, line: seq<Token>, invocation: Token, lex: ArgumentLexer)
    returns (positions: nat)
    requires ReadArguments(macro, line, invocation, lex).Ok?
    ensures var values, arguments := ReadArguments(macro, line, invocation, lex).value, Arguments(line);
            && |values| == |macro.parameters| == |arguments| && positions <= |arguments|
            && (forall j :: 0 <= j < positions ==> !IsNamed(arguments[j]) && values[j] == arguments[j])
            && NamedOnce(macro, arguments, positions)
            && (forall k :: positions <= k < |arguments| ==>
                  NamedBound(macro, seq(|values|, i requires 0 <= i < |values| => Some(values[i])), arguments[k],
                             invocation, lex))
  {
    hide Arguments, Filled, NamedBound, NamedOnce;
    var arguments := Arguments(line);
    BindingHolds(macro, arguments, invocation, lex);
    var b := Fold(Binder(macro, invocation, lex), Unbound(|macro.parameters|), arguments).value;
    var values := ReadArguments(macro, line, invocation, lex).value;
    assert b.values == seq(|values|, i requires 0 <= i < |values| => Some(values[i])) by {
      forall i | 0 <= i < |values| ensures b.values[i] == Some(values[i]) {
        assert b.values[i] in b.values;
      }
    }
    positions := b.positions;
  }

  // ----- an expansion that cannot be expanded again -----

  function Word(kind: Kind, text: CString): Token {
    Token(kind, text, Location(0, 0, 0, 0))
  }

  const LINE_BREAK := Word(Newline, [10])

  /** A definition of m with two parameters, then a call of m whose argument line opens another definition. */
  function Awkward(): (tokens: seq<Token>)
    ensures |tokens| == 13 && IsDirective(tokens[0], MACRO) && IsDirective(tokens[8], MACRO)
  {
    [Word(Directive, MACRO), Word(Identifier, [109]), Word(Identifier, [120]), Word(Identifier, [121]), LINE_BREAK,
     Word(Directive, ENDMACRO), LINE_BREAK,
     Word(Identifier, [109]), Word(Directive, MACRO), Word(Identifier, [110]), LINE_BREAK,
     Word(Directive, ENDMACRO), LINE_BREAK]
  }

  function AwkwardMacro(): Macro {
    Macro(Awkward()[1], [Awkward()[2], Awkward()[3]], [])
  }

  function InnerMacro(): Macro {
    Macro(Awkward()[9], [], [])
  }

  lemma LineEndIs(tokens: seq<Token>, i: nat, end: nat)
    requires i <= end < |tokens| && tokens[end].kind == Newline && forall k :: i <= k < end ==>
                                                                     tokens[k].kind != Newline
    ensures LineEnd(tokens, i) == end
  {
  }

  lemma AwkwardLines()
    ensures LineEnd(Awkward(), 0) == 4 && LineEnd(Awkward(), 5) == 6 && LineEnd(Awkward(), 7) == 10
    ensures LineEnd(Awkward(), 8) == 10 && LineEnd(Awkward(), 11) == 12
    ensures BodyEnd(Awkward(), 5) == 5 && BodyEnd(Awkward(), 11) == 11
  {
    hide LineEnd;
    var tokens := Awkward();
    LineEndIs(tokens, 0, 4);
    LineEndIs(tokens, 5, 6);
    LineEndIs(tokens, 7, 10);
    LineEndIs(tokens, 8, 10);
    LineEndIs(tokens, 11, 12);
  }

  lemma TwoArguments(a: Token, b: Token)
    requires a.kind != Comment && b.kind != Comment && a.kind != Comma && b.kind != Comma
    ensures Arguments([a, b]) == [a, b]
  {
    assert [a, b][1..] == [b] && [b][1..] == [];
    assert FirstComment([b]) == 1;
    assert [a, b][..2] == [a, b] && [a, b][..1] == [a] && [a][..0] == [];
    assert WithoutCommas([a]) == [a];
  }

  lemma FoldTwo<S, X, E>(step: (S, X) -> Result<S, E>, start: S, a: X, b: X)
    ensures Fold(step, start, [a, b]) == (if step(start, a).Err? then step(start, a) else step(step(start, a).value, b))
  {
    assert [a, b][..1] == [a] && [a][..0] == [];
    assert Fold(step, start, [a]) == step(start, a) by { assert Fold(step, start, []) == Ok(start); }
  }

  lemma AwkwardParameters()
    ensures Fold(ParameterAdder(), [], [Awkward()[2], Awkward()[3]]) == Ok([Awkward()[2], Awkward()[3]])
  {
    var a, b := Awkward()[2], Awkward()[3];
    FoldTwo(ParameterAdder(), [], a, b);
    assert [a][1..] == [];
    assert ParameterIndex([a], b.text) == 1;
    assert [] + [a] == [a] && [a] + [b] == [a, b];
    assert AddParameter([], a) == Ok([a]) && AddParameter([a], b) == Ok([a, b]);
  }

  lemma AwkwardDefinitions()
    ensures CaptureMacro([], Awkward(), 0) == Ok(Definition(AwkwardMacro(), 7))
    ensures CaptureMacro([AwkwardMacro()], Awkward(), 8) == Ok(Definition(InnerMacro(), 13))
  {
    hide LineEnd, BodyEnd, Arguments, Fold;
    var tokens := Awkward();
    AwkwardLines();
    assert tokens[2..4] == [tokens[2], tokens[3]];
    TwoArguments(tokens[2], tokens[3]);
    AwkwardParameters();
    NoArguments();
    assert FindMacro([AwkwardMacro()], tokens[9].text).None? by { assert [AwkwardMacro()][1..] == []; }
    assert tokens[10..10] == [] && tokens[5..5] == [] && tokens[11..11] == [];
  }

  lemma NoArguments()
    ensures Arguments([]) == [] && Fold(ParameterAdder(), [], []) == Ok([])
  {
  }

  lemma AwkwardCapture()
    ensures Capture([], Awkward(), 0) == Ok([InnerMacro(), AwkwardMacro()])
  {
    hide CaptureMacro;
    var tokens := Awkward();
    AwkwardDefinitions();
    assert [InnerMacro()] + [AwkwardMacro()] == [InnerMacro(), AwkwardMacro()];
    assert Capture([InnerMacro(), AwkwardMacro()], tokens, 13) == Ok([InnerMacro(), AwkwardMacro()]);
    assert Capture([AwkwardMacro()], tokens, 8) == Ok([InnerMacro(), AwkwardMacro()]);
    assert Capture([AwkwardMacro()], tokens, 7) == Ok([InnerMacro(), AwkwardMacro()]);
    assert [AwkwardMacro()] + [] == [AwkwardMacro()];
  }

  lemma AwkwardCall(lex: ArgumentLexer)
    ensures Invoke(AwkwardMacro(), [Awkward()[8], Awkward()[9]], [], Awkward()[7], lex) == Ok([])
  {
    hide Fold, Arguments;
    var tokens, macro := Awkward(), AwkwardMacro();
    var step := Binder(macro, tokens[7], lex);
    TwoArguments(tokens[8], tokens[9]);
    FoldTwo(step, Unbound(2), tokens[8], tokens[9]);
    NotNamed(tokens[8], tokens[9]);
    var one := Binding([Some(tokens[8]), None], 1, false);
    assert Unbound(2).values[0 := Some(tokens[8])] == one.values;
    assert BindStep(macro, Unbound(2), tokens[8], tokens[7], lex) == Ok(one);
    assert one.values[1 := Some(tokens[9])] == [Some(tokens[8]), Some(tokens[9])];
    assert BindStep(macro, one, tokens[9], tokens[7], lex) == Ok(Binding([Some(tokens[8]), Some(tokens[9])], 2, false));
  }

  lemma NotNamed(directive: Token, name: Token)
    requires directive.kind == Directive && name.text == [110]
    ensures !IsNamed(directive) && !IsNamed(name)
  {
    assert [110][1..] == [];
  }

  lemma AwkwardTail(lex: ArgumentLexer)
    ensures ExpandRange([InnerMacro(), AwkwardMacro()], Awkward(), 11, true, [], None, lex)
            == Run(Awkward()[11..], [], None)
  {
    var tokens, macros := Awkward(), [InnerMacro(), AwkwardMacro()];
    assert ExpandRange(macros, tokens, 13, true, [], None, lex) == Run([], [], None);
    assert ExpandRange(macros, tokens, 12, false, [], None, lex) == Run([tokens[12]], [], None);
    assert tokens[11..] == [tokens[11]] + [tokens[12]];
  }

  /** The output of an expansion may hold an .endmacro, and then expanding it again fails. */
  lemma ExpansionCanFailAgain(lex: ArgumentLexer)
    ensures Expand(Awkward(), lex).error.None?
    ensures Expand(Expand(Awkward(), lex).output, lex).error == Some(MacroInvalidArgument)
  {
    hide ExpandRange, Capture, Invoke, LineEnd;
    var tokens, macros := Awkward(), [InnerMacro(), AwkwardMacro()];
    AwkwardCapture();
    AwkwardRun(lex);
    ExpansionIsFixpoint(tokens, lex, lex);
    assert IsDirective(tokens[11..][0], ENDMACRO);
  }

  lemma AwkwardRun(lex: ArgumentLexer)
    ensures ExpandRange([InnerMacro(), AwkwardMacro()], Awkward(), 0, true, [], None, lex)
            == Run(Awkward()[11..], [Call(AwkwardMacro(), [])], None)
  {
    hide Invoke, LineEnd;
    var tokens, macros := Awkward(), [InnerMacro(), AwkwardMacro()];
    AwkwardLines();
    AwkwardCall(lex);
    AwkwardTail(lex);
    assert tokens[8..10] == [tokens[8], tokens[9]];
    AwkwardLookup();
    assert ExpandRange(macros, [], 0, true, [AwkwardMacro()], Some(tokens[7].place), lex) == Run([], [], None);
    assert ExpandCall(macros, AwkwardMacro(), tokens[8..10], [], tokens[7], lex)
        == Run([], [Call(AwkwardMacro(), [])], None);
    assert ExpandRange(macros, tokens, 7, true, [], None, lex) == Run(tokens[11..], [Call(AwkwardMacro(), [])], None);
    assert SkipDefinition(tokens, 4) == 7 && SkipDefinition(tokens, 3) == 7 && SkipDefinition(tokens, 2) == 7;
    assert SkipDefinition(tokens, 1) == 7 && SkipDefinition(tokens, 0) == 7;
  }

  lemma AwkwardLookup()
    ensures FindMacro([InnerMacro(), AwkwardMacro()], [109]) == Some(AwkwardMacro())
  {
    assert [InnerMacro(), AwkwardMacro()][1..] == [AwkwardMacro()];
    assert FindMacro([AwkwardMacro()], [109]) == Some(AwkwardMacro());
  }
}
