/** What every assembled object holds: its bytes, its symbols, its relocations, and why it is always encodable. */
module ObjectProofs {
  import opened Wrappers
  import opened Bytes
  import opened Diagnostics
  import opened ImageFormat
  import opened ImageRoundTrip
  import opened Loading
  import opened Layout
  import opened LayoutProofs
  import opened Statements
  import opened RawAssembly
  import opened ObjectAssembly
  import Instructions

  // ----- contents -----

  /** A line's bytes are in its section, which is not bss. */
  predicate LineThere(c: Context, symbols: seq<Symbol>, line: Line, datas: seq<seq<Byte>>) {
    && line.section < |datas| && line.section < |c.sections| && c.sections[line.section].kind != BSS
    && TranslateLine(c, symbols, line).Ok?
    && At(datas[line.section], line.offset, TranslateLine(c, symbols, line).value.bytes)
  }

  predicate LineCovers(line: Line, s: nat, p: nat) {
    line.section == s && line.offset <= p < End(line)
  }

  predicate Covered(lines: seq<Line>, s: nat, p: nat) {
    exists i :: 0 <= i < |lines| && LineCovers(lines[i], s, p)
  }

  predicate Sized(sections: seq<AsmSection>, datas: seq<seq<Byte>>) {
    |datas| == |sections| && forall s :: 0 <= s < |datas| ==> |datas[s]| == sections[s].size
  }

  predicate GapsZero(lines: seq<Line>, datas: seq<seq<Byte>>) {
    forall s, p :: 0 <= s < |datas| && 0 <= p < |datas[s]| && !Covered(lines, s, p) ==> datas[s][p] == 0
  }

  predicate AllThere(c: Context, symbols: seq<Symbol>, lines: seq<Line>, datas: seq<seq<Byte>>) {
    forall i :: 0 <= i < |lines| ==> LineThere(c, symbols, lines[i], datas)
  }

  predicate AllFit(c: Context, lines: seq<Line>) {
    LinesOrdered(lines) && forall i :: 0 <= i < |lines| ==> LineFits(c.sections, lines[i])
  }

  lemma TranslationHasSize(c: Context, symbols: seq<Symbol>, line: Line)
    ensures TranslateLine(c, symbols, line).Ok? ==> |TranslateLine(c, symbols, line).value.bytes| == Size(line.emission)
  {
    hide OperandIn, OperandError, RegisterOf, Instructions.Encoded;
  }

  /** The section contents are the lines' bytes at their offsets, and zero everywhere else. */
  lemma {:induction false} ContentsHold(c: Context, symbols: seq<Symbol>, lines: seq<Line>)
    requires AllFit(c, lines) && EmitLines(c, symbols, lines).Ok?
    ensures var datas := EmitLines(c, symbols, lines).value.datas;
            Sized(c.sections, datas) && AllThere(c, symbols, lines, datas) && GapsZero(lines, datas)
  {
    hide TranslateLine, LineFits, Sized, AllThere, GapsZero, LinesOrdered;
    if lines == [] {
      BlankHolds(c, symbols);
    } else {
      var front, last := lines[..|lines| - 1], lines[|lines| - 1];
      assert lines == front + [last];
      FrontFits(c, front, last);
      ContentsHold(c, symbols, front);
      LineEmitted(c, symbols, front, last, EmitLines(c, symbols, front).value);
    }
  }

  lemma BlankHolds(c: Context, symbols: seq<Symbol>)
    ensures Sized(c.sections, Blank(c.sections)) && AllThere(c, symbols, [], Blank(c.sections))
            && GapsZero([], Blank(c.sections))
  {
  }

  lemma FrontFits(c: Context, front: seq<Line>, last: Line)
    requires AllFit(c, front + [last])
    ensures AllFit(c, front) && LineFits(c.sections, last)
    ensures forall i :: 0 <= i < |front| && front[i].section == last.section ==> End(front[i]) <= last.offset
  {
    hide LineFits, End;
    var lines := front + [last];
    forall i | 0 <= i < |front| ensures LineFits(c.sections, front[i]) {
      assert lines[i] == front[i];
    }
    assert lines[|front|] == last;
    assert forall i :: 0 <= i < |front| ==> lines[i] == front[i];
  }

  lemma LineEmitted(c: Context, symbols: seq<Symbol>, front: seq<Line>, last: Line, before: Emitted)
    requires Sized(c.sections, before.datas) && AllThere(c, symbols, front, before.datas)
             && GapsZero(front, before.datas)
    requires forall i :: 0 <= i < |front| && front[i].section == last.section ==> End(front[i]) <= last.offset
    requires EmitLine(c, symbols, before, last).Ok?
    ensures var datas := EmitLine(c, symbols, before, last).value.datas;
            Sized(c.sections, datas) && AllThere(c, symbols, front + [last], datas) && GapsZero(front + [last], datas)
  {
    hide TranslateLine, Covered, Size;
    var lines, datas := front + [last], EmitLine(c, symbols, before, last).value.datas;
    var bytes := TranslateLine(c, symbols, last).value.bytes;
    TranslationHasSize(c, symbols, last);
    forall i | 0 <= i < |lines| ensures LineThere(c, symbols, lines[i], datas) {
      if i < |front| {
        assert LineThere(c, symbols, front[i], before.datas);
        TranslationHasSize(c, symbols, front[i]);
        if front[i].section == last.section {
          SpliceApart(before.datas[last.section], front[i].offset, TranslateLine(c, symbols, front[i]).value.bytes,
                      last.offset, bytes);
        }
      } else {
        SpliceThere(before.datas[last.section], last.offset, bytes);
      }
    }
    forall s, p | 0 <= s < |datas| && 0 <= p < |datas[s]| && !Covered(lines, s, p) ensures datas[s][p] == 0 {
      UncoveredBefore(front, last, s, p);
    }
  }

  lemma UncoveredBefore(front: seq<Line>, last: Line, s: nat, p: nat)
    requires !Covered(front + [last], s, p)
    ensures !Covered(front, s, p) && !LineCovers(last, s, p)
  {
    hide LineCovers;
    var lines := front + [last];
    assert !LineCovers(lines[|front|], s, p);
    forall i | 0 <= i < |front| ensures !LineCovers(front[i], s, p) {
      assert lines[i] == front[i] && !LineCovers(lines[i], s, p);
    }
  }

  // ----- relocations -----

  predicate RelocatesExactly(c: Context, symbols: seq<Symbol>, lines: seq<Line>, relocations: seq<Relocation>) {
    && (forall i :: 0 <= i < |lines| ==> TranslateLine(c, symbols, lines[i]).Ok?)
    && (forall i :: 0 <= i < |lines| && TranslateLine(c, symbols, lines[i]).value.relocation.Some? ==>
          TranslateLine(c, symbols, lines[i]).value.relocation.value in relocations)
    && (forall k :: 0 <= k < |relocations| ==> ComesFrom(c, symbols, lines, relocations[k]))
  }

  predicate ComesFrom(c: Context, symbols: seq<Symbol>, lines: seq<Line>, r: Relocation) {
    exists i :: 0 <= i < |lines| && lines[i].section < |c.sections| && c.sections[lines[i].section].kind != BSS
                && RelocatesAt(c, symbols, lines[i], r)
  }

  predicate RelocatesAt(c: Context, symbols: seq<Symbol>, line: Line, r: Relocation) {
    TranslateLine(c, symbols, line).Ok? && TranslateLine(c, symbols, line).value.relocation == Some(r)
  }

  /** The relocations are those of the lines, and of nothing else. */
  lemma {:induction false} RelocationsHold(c: Context, symbols: seq<Symbol>, lines: seq<Line>)
    requires EmitLines(c, symbols, lines).Ok?
    ensures RelocatesExactly(c, symbols, lines, EmitLines(c, symbols, lines).value.relocations)
  {
    hide TranslateLine, RelocatesExactly;
    if lines == [] {
      NoRelocations(c, symbols);
    } else {
      var front, last := lines[..|lines| - 1], lines[|lines| - 1];
      assert lines == front + [last];
      RelocationsHold(c, symbols, front);
      RelocationsNext(c, symbols, front, last, EmitLines(c, symbols, front).value);
    }
  }

  lemma NoRelocations(c: Context, symbols: seq<Symbol>)
    ensures RelocatesExactly(c, symbols, [], [])
  {
  }

  lemma RelocationsNext(c: Context, symbols: seq<Symbol>, front: seq<Line>, last: Line, before: Emitted)
    requires RelocatesExactly(c, symbols, front, before.relocations) && EmitLine(c, symbols, before, last).Ok?
    ensures RelocatesExactly(c, symbols, front + [last], EmitLine(c, symbols, before, last).value.relocations)
  {
    hide TranslateLine, Splice;
    var lines, after := front + [last], EmitLine(c, symbols, before, last).value.relocations;
    forall k | 0 <= k < |after| ensures ComesFrom(c, symbols, lines, after[k]) {
      if k < |before.relocations| {
        assert ComesFrom(c, symbols, front, before.relocations[k]);
        var i :| 0 <= i < |front| && front[i].section < |c.sections| && c.sections[front[i].section].kind != BSS
                 && RelocatesAt(c, symbols, front[i], after[k]);
        assert RelocatesAt(c, symbols, lines[i], after[k]);
      } else {
        assert RelocatesAt(c, symbols, lines[|front|], after[k]);
      }
    }
    forall i | 0 <= i < |lines| ensures TranslateLine(c, symbols, lines[i]).Ok? {
      assert i < |front| ==> lines[i] == front[i];
    }
    forall i | 0 <= i < |lines| && TranslateLine(c, symbols, lines[i]).value.relocation.Some?
      ensures TranslateLine(c, symbols, lines[i]).value.relocation.value in after
    {
      if i < |front| {
        assert lines[i] == front[i] && TranslateLine(c, symbols, front[i]).value.relocation.value in before.relocations;
      }
    }
  }

  /** A relocation patches the operand word of a label use, inside the instruction's own bytes. */
  lemma RelocationSite(c: Context, symbols: seq<Symbol>, line: Line, r: Relocation)
    requires RelocatesAt(c, symbols, line, r)
    ensures line.emission.Instruct? && line.emission.statement.operand.Some?
            && line.emission.statement.operand.value.LabelUse?
    ensures var name := line.emission.statement.operand.value.name;
            && LocalLine(c.lines, name, line.section) == |c.lines| && SymbolIndex(symbols, name) < |symbols|
            && r == Relocation(AsWord(line.section), AsWord(line.offset + 4), ABSOLUTE32,
                               AsWord(SymbolIndex(symbols, name)), 0)
  {
    hide RegisterOf, OperandError, SymbolIndex, LocalLine, Instructions.Encoded;
  }

  // ----- symbols -----

  predicate SymbolsOk(symbols: seq<Symbol>, count: nat) {
    forall k :: 0 <= k < |symbols| ==> SymbolOk(symbols[k], count) && symbols[k].name.Some?
  }

  /** The symbol found under a name has this section and value. */
  predicate FoundAt(symbols: seq<Symbol>, name: CString, section: nat, value: nat) {
    && SymbolIndex(symbols, name) < |symbols|
    && symbols[SymbolIndex(symbols, name)].section == section && symbols[SymbolIndex(symbols, name)].value == value
  }

  lemma {:induction false} IndexOfAppended(a: seq<Symbol>, s: Symbol, name: CString)
    ensures SymbolIndex(a, name) < |a| ==> SymbolIndex(a + [s], name) == SymbolIndex(a, name)
    ensures SymbolIndex(a, name) == |a| ==> SymbolIndex(a + [s], name) == if s.name == Some(name) then |a| else |a| + 1
  {
    if a != [] {
      IndexOfAppended(a[1..], s, name);
      assert (a + [s])[1..] == a[1..] + [s];
    }
  }

  lemma IndexOfRenamed(a: seq<Symbol>, b: seq<Symbol>, name: CString)
    requires |a| == |b| && forall k :: 0 <= k < |a| ==> a[k].name == b[k].name
    ensures SymbolIndex(a, name) == SymbolIndex(b, name)
  {
    hide SymbolIndex;
    var i, j := SymbolIndex(a, name), SymbolIndex(b, name);
    assert i < |a| ==> a[i].name == b[i].name;
    assert j < |b| ==> a[j].name == b[j].name;
  }

  lemma {:induction false} LabelsBecomeSymbols(sections: seq<AsmSection>, lines: seq<Line>, j: nat)
    requires DistinctLabels(lines) && j < |lines| && lines[j].name.Some?
    requires lines[j].section < WORD_RANGE && lines[j].offset < WORD_RANGE
    ensures FoundAt(LabelSymbols(sections, lines), lines[j].name.value, lines[j].section, lines[j].offset)
  {
    hide SymbolIndex;
    var front, last := lines[..|lines| - 1], lines[|lines| - 1];
    var before, name := LabelSymbols(sections, front), lines[j].name.value;
    assert lines == front + [last];
    DistinctFront(front, last);
    IndexOfAppended(before, LabelSymbol(sections, last), name);
    if j < |front| {
      LabelsBecomeSymbols(sections, front, j);
    } else {
      NotYetASymbol(sections, front, name);
    }
  }

  /** Only labels are label symbols. */
  lemma {:induction false} NotYetASymbol(sections: seq<AsmSection>, lines: seq<Line>, name: CString)
    requires forall i :: 0 <= i < |lines| ==> lines[i].name != Some(name)
    ensures SymbolIndex(LabelSymbols(sections, lines), name) == |LabelSymbols(sections, lines)|
  {
    hide SymbolIndex;
    if lines != [] {
      var front, last := lines[..|lines| - 1], lines[|lines| - 1];
      NotYetASymbol(sections, front, name);
      IndexOfAppended(LabelSymbols(sections, front), LabelSymbol(sections, last), name);
    }
  }

  lemma {:induction false} LabelSymbolsOk(sections: seq<AsmSection>, lines: seq<Line>)
    requires |sections| <= 6 && forall i :: 0 <= i < |lines| ==> lines[i].section < |sections|
    ensures SymbolsOk(LabelSymbols(sections, lines), |sections|)
  {
    if lines != [] { LabelSymbolsOk(sections, lines[..|lines| - 1]); }
  }

  /** Marking symbols global changes no name, section or value. */
  lemma {:induction false} GlobalsKeep(symbols: seq<Symbol>, names: seq<CString>, count: nat)
    requires SymbolsOk(symbols, count) && Fold(Globalizer(), symbols, names).Ok?
    ensures SymbolsOk(Fold(Globalizer(), symbols, names).value, count)
    ensures forall name, section, value :: FoundAt(symbols, name, section, value) ==>
              FoundAt(Fold(Globalizer(), symbols, names).value, name, section, value)
  {
    hide FoundAt, SymbolsOk;
    if names != [] {
      var front, last := names[..|names| - 1], names[|names| - 1];
      GlobalsKeep(symbols, front, count);
      var before := Fold(Globalizer(), symbols, front).value;
      GlobalizeKeeps(before, last, count);
    }
  }

  lemma GlobalizeKeeps(symbols: seq<Symbol>, global: CString, count: nat)
    requires SymbolsOk(symbols, count) && Globalize(symbols, global).Ok?
    ensures SymbolsOk(Globalize(symbols, global).value, count)
    ensures forall name, section, value :: FoundAt(symbols, name, section, value) ==>
              FoundAt(Globalize(symbols, global).value, name, section, value)
  {
    hide SymbolIndex;
    var after := Globalize(symbols, global).value;
    forall name, section, value | FoundAt(symbols, name, section, value) ensures FoundAt(after, name, section, value) {
      IndexOfRenamed(symbols, after, name);
    }
  }

  lemma {:induction false} ExternalsKeep(symbols: seq<Symbol>, names: seq<CString>, count: nat)
    requires SymbolsOk(symbols, count)
    ensures SymbolsOk(WithExternals(symbols, names), count)
    ensures forall name, section, value :: FoundAt(symbols, name, section, value) ==>
              FoundAt(WithExternals(symbols, names), name, section, value)
  {
    hide FoundAt, SymbolIndex;
    if names != [] {
      var front, last := names[..|names| - 1], names[|names| - 1];
      ExternalsKeep(symbols, front, count);
      ExternalKeeps(WithExternals(symbols, front), Symbol(Some(last), UNDEFINED_SECTION, 0, 0, GLOBAL, 0));
    }
  }

  lemma ExternalKeeps(symbols: seq<Symbol>, s: Symbol)
    ensures forall name, section, value :: FoundAt(symbols, name, section, value) ==>
              FoundAt(symbols + [s], name, section, value)
  {
    hide SymbolIndex;
    forall name, section, value | FoundAt(symbols, name, section, value)
      ensures FoundAt(symbols + [s], name, section, value)
    {
      IndexOfAppended(symbols, s, name);
    }
  }

  predicate Small(c: Context) {
    |c.sections| <= 6 && forall i :: 0 <= i < |c.lines| ==>
                           c.lines[i].section < |c.sections| && c.lines[i].offset <= ROM_SIZE
  }

  /** Every label is found in the symbol table with the section and offset of its line. */
  lemma LabelFound(c: Context, j: nat)
    requires Small(c) && DistinctLabels(c.lines) && Symbols(c).Ok? && j < |c.lines| && c.lines[j].name.Some?
    ensures SymbolsOk(Symbols(c).value, |c.sections|)
    ensures FoundAt(Symbols(c).value, c.lines[j].name.value, c.lines[j].section, c.lines[j].offset)
  {
    hide FoundAt, SymbolsOk, LabelSymbols, DistinctLabels;
    SymbolTableOk(c);
    LabelsBecomeSymbols(c.sections, c.lines, j);
    LabelSymbolsOk(c.sections, c.lines);
    var labels := LabelSymbols(c.sections, c.lines);
    GlobalsKeep(labels, c.globals, |c.sections|);
    ExternalsKeep(Fold(Globalizer(), labels, c.globals).value, c.externals, |c.sections|);
  }

  lemma SymbolTableOk(c: Context)
    requires Small(c) && Symbols(c).Ok?
    ensures SymbolsOk(Symbols(c).value, |c.sections|)
  {
    hide FoundAt, SymbolsOk, LabelSymbols;
    LabelSymbolsOk(c.sections, c.lines);
    var labels := LabelSymbols(c.sections, c.lines);
    GlobalsKeep(labels, c.globals, |c.sections|);
    ExternalsKeep(Fold(Globalizer(), labels, c.globals).value, c.externals, |c.sections|);
  }

  /** The symbol found under a name is global. */
  predicate FoundGlobal(symbols: seq<Symbol>, name: CString) {
    SymbolIndex(symbols, name) < |symbols| && symbols[SymbolIndex(symbols, name)].binding == GLOBAL
  }

  /** Marking keeps the names, and what is marked stays marked. */
  lemma {:induction false} GlobalsMarked(symbols: seq<Symbol>, names: seq<CString>, name: CString)
    requires Fold(Globalizer(), symbols, names).Ok?
    ensures SymbolIndex(Fold(Globalizer(), symbols, names).value, name) == SymbolIndex(symbols, name)
    ensures |Fold(Globalizer(), symbols, names).value| == |symbols|
    ensures name in names ==> FoundGlobal(Fold(Globalizer(), symbols, names).value, name)
  {
    hide FoundGlobal;
    if names != [] {
      var front, last := names[..|names| - 1], names[|names| - 1];
      GlobalsMarked(symbols, front, name);
      GlobalizeMarks(Fold(Globalizer(), symbols, front).value, last, name);
    }
  }

  lemma GlobalizeMarks(symbols: seq<Symbol>, global: CString, name: CString)
    requires Globalize(symbols, global).Ok?
    ensures |Globalize(symbols, global).value| == |symbols|
    ensures SymbolIndex(Globalize(symbols, global).value, name) == SymbolIndex(symbols, name)
    ensures name == global || FoundGlobal(symbols, name) ==> FoundGlobal(Globalize(symbols, global).value, name)
  {
    hide SymbolIndex;
    IndexOfRenamed(symbols, Globalize(symbols, global).value, name);
  }

  /** Only a name that `.extern` lists is added, as an undefined symbol. */
  lemma {:induction false} ExternalsAppended(symbols: seq<Symbol>, names: seq<CString>, name: CString)
    ensures FoundGlobal(symbols, name) ==> FoundGlobal(WithExternals(symbols, names), name)
    ensures var after := WithExternals(symbols, names);
            SymbolIndex(symbols, name) == |symbols| && SymbolIndex(after, name) < |after| ==>
              name in names && after[SymbolIndex(after, name)].section == UNDEFINED_SECTION
  {
    hide SymbolIndex;
    if names != [] {
      var front, last := names[..|names| - 1], names[|names| - 1];
      ExternalsAppended(symbols, front, name);
      IndexOfAppended(WithExternals(symbols, front), Symbol(Some(last), UNDEFINED_SECTION, 0, 0, GLOBAL, 0), name);
    }
  }

  /** A label that `.global` names is exported. */
  lemma GlobalFound(c: Context, name: CString)
    requires Symbols(c).Ok? && name in c.globals
    ensures FoundGlobal(Symbols(c).value, name)
  {
    hide FoundGlobal, LabelSymbols, SymbolIndex;
    var labels := LabelSymbols(c.sections, c.lines);
    GlobalsMarked(labels, c.globals, name);
    ExternalsAppended(Fold(Globalizer(), labels, c.globals).value, c.externals, name);
  }

  /** A name that is no label of the object has a symbol only through `.extern`, and that symbol is undefined. */
  lemma ExternalFound(c: Context, name: CString)
    requires Symbols(c).Ok? && SymbolIndex(Symbols(c).value, name) < |Symbols(c).value|
    requires forall i :: 0 <= i < |c.lines| ==> c.lines[i].name != Some(name)
    ensures name in c.externals && Symbols(c).value[SymbolIndex(Symbols(c).value, name)].section == UNDEFINED_SECTION
  {
    hide FoundGlobal, LabelSymbols, SymbolIndex;
    var labels := LabelSymbols(c.sections, c.lines);
    NotYetASymbol(c.sections, c.lines, name);
    GlobalsMarked(labels, c.globals, name);
    ExternalsAppended(Fold(Globalizer(), labels, c.globals).value, c.externals, name);
  }

  /** What `.extern` lists has a symbol: the label's, or an undefined global one without value, size and kind. */
  lemma {:induction false} ExternalAdded(symbols: seq<Symbol>, names: seq<CString>, name: CString)
    ensures var after, index := WithExternals(symbols, names), SymbolIndex(symbols, name);
            && (index < |symbols| ==> SymbolIndex(after, name) == index && index < |after|)
            && (name in names ==> SymbolIndex(after, name) < |after|)
            && (index == |symbols| && SymbolIndex(after, name) < |after| ==>
                  after[SymbolIndex(after, name)] == Symbol(Some(name), 0xFFFF_FFFF, 0, 0, GLOBAL, 0))
  {
    hide SymbolIndex;
    if names != [] {
      var front, last := names[..|names| - 1], names[|names| - 1];
      ExternalAdded(symbols, front, name);
      IndexOfAppended(WithExternals(symbols, front), Symbol(Some(last), UNDEFINED_SECTION, 0, 0, GLOBAL, 0), name);
    }
  }

  /** A name has a symbol exactly when it is a label or `.extern` lists it. */
  lemma SymbolExists(c: Context, name: CString)
    requires Symbols(c).Ok?
    ensures SymbolIndex(Symbols(c).value, name) < |Symbols(c).value| <==> IsLabel(c, name) || name in c.externals
    ensures !IsLabel(c, name) && name in c.externals ==>
              Symbols(c).value[SymbolIndex(Symbols(c).value, name)]
              == Symbol(Some(name), 0xFFFF_FFFF, 0, 0, GLOBAL, 0)
  {
    hide LabelSymbols, SymbolIndex;
    var labels := LabelSymbols(c.sections, c.lines);
    GlobalsMarked(labels, c.globals, name);
    ExternalAdded(Fold(Globalizer(), labels, c.globals).value, c.externals, name);
    if IsLabel(c, name) {
      var j :| 0 <= j < |c.lines| && c.lines[j].name == Some(name);
      LabelHasSymbol(c.sections, c.lines, j);
    } else {
      NotYetASymbol(c.sections, c.lines, name);
      ExternalsAppended(Fold(Globalizer(), labels, c.globals).value, c.externals, name);
    }
  }

  /** The symbol stands for the line's label: a function in a text section, otherwise an object. */
  predicate NamesLine(sections: seq<AsmSection>, s: Symbol, l: Line) {
    && l.name.Some? && s.name == l.name && s.section == AsWord(l.section) && s.value == AsWord(l.offset)
    && s.kind == (if l.section < |sections| && sections[l.section].kind == 1 then 2 else 1) && s.size == 0
  }

  lemma {:induction false} LabelSymbolIsLabel(sections: seq<AsmSection>, lines: seq<Line>, k: nat) returns (i: nat)
    requires k < |LabelSymbols(sections, lines)|
    ensures i < |lines| && NamesLine(sections, LabelSymbols(sections, lines)[k], lines[i])
  {
    hide SymbolIndex;
    var front := lines[..|lines| - 1];
    if k < |LabelSymbols(sections, front)| {
      i := LabelSymbolIsLabel(sections, front, k);
    } else {
      i := |lines| - 1;
    }
  }

  /** Marking changes bindings only. */
  lemma {:induction false} GlobalsMark(symbols: seq<Symbol>, names: seq<CString>)
    requires Fold(Globalizer(), symbols, names).Ok?
    ensures var after := Fold(Globalizer(), symbols, names).value;
            |after| == |symbols| && forall k :: 0 <= k < |after| ==>
                                      after[k] == symbols[k].(binding := after[k].binding)
  {
    hide SymbolIndex;
    if names != [] { GlobalsMark(symbols, names[..|names| - 1]); }
  }

  /** What `.extern` adds lies behind the labels and is undefined. */
  lemma {:induction false} ExternalsUndefined(symbols: seq<Symbol>, names: seq<CString>, k: nat)
    requires k < |WithExternals(symbols, names)|
    ensures if k < |symbols| then WithExternals(symbols, names)[k] == symbols[k]
            else WithExternals(symbols, names)[k].section == UNDEFINED_SECTION
  {
    hide SymbolIndex;
    if names != [] {
      var front := names[..|names| - 1];
      if k < |WithExternals(symbols, front)| { ExternalsUndefined(symbols, front, k); } else {
        ExternalsKeepLength(symbols, front);
      }
    }
  }

  lemma {:induction false} ExternalsKeepLength(symbols: seq<Symbol>, names: seq<CString>)
    ensures |symbols| <= |WithExternals(symbols, names)|
  {
    hide SymbolIndex;
    if names != [] { ExternalsKeepLength(symbols, names[..|names| - 1]); }
  }

  /** Every defined symbol of an object is one of its labels. */
  lemma DefinedIsLabel(c: Context, k: nat) returns (i: nat)
    requires Symbols(c).Ok? && k < |Symbols(c).value| && Symbols(c).value[k].section != UNDEFINED_SECTION
    ensures i < |c.lines| && NamesLine(c.sections, Symbols(c).value[k], c.lines[i])
  {
    hide LabelSymbols, SymbolIndex, AsWord;
    var labels := LabelSymbols(c.sections, c.lines);
    GlobalsMark(labels, c.globals);
    ExternalsUndefined(Fold(Globalizer(), labels, c.globals).value, c.externals, k);
    i := LabelSymbolIsLabel(c.sections, c.lines, k);
  }

  /** Labels start out local; only `.global` makes one global. */
  lemma {:induction false} OnlyListedMarked(sections: seq<AsmSection>, lines: seq<Line>, names: seq<CString>, k: nat)
    requires Fold(Globalizer(), LabelSymbols(sections, lines), names).Ok?
    requires k < |Fold(Globalizer(), LabelSymbols(sections, lines), names).value|
    requires Fold(Globalizer(), LabelSymbols(sections, lines), names).value[k].binding == GLOBAL
    ensures exists i :: 0 <= i < |names|
                        && Fold(Globalizer(), LabelSymbols(sections, lines), names).value[k].name == Some(names[i])
  {
    hide LabelSymbols;
    if names == [] {
      AllLocal(sections, lines, k);
    } else {
      var front, last := names[..|names| - 1], names[|names| - 1];
      var before := Fold(Globalizer(), LabelSymbols(sections, lines), front).value;
      if k == SymbolIndex(before, last) {
        assert names[|names| - 1] == last;
      } else {
        OnlyListedMarked(sections, lines, front, k);
        var i :| 0 <= i < |front| && before[k].name == Some(front[i]);
        assert names[i] == front[i];
      }
    }
  }

  lemma {:induction false} AllLocal(sections: seq<AsmSection>, lines: seq<Line>, k: nat)
    requires k < |LabelSymbols(sections, lines)|
    ensures LabelSymbols(sections, lines)[k].binding == LOCAL
  {
    hide SymbolIndex;
    var front := lines[..|lines| - 1];
    if k < |LabelSymbols(sections, front)| { AllLocal(sections, front, k); }
  }

  /** A global symbol that is defined is a label that `.global` lists. */
  lemma GlobalIsListed(c: Context, k: nat)
    requires Symbols(c).Ok? && k < |Symbols(c).value|
    requires Symbols(c).value[k].section != UNDEFINED_SECTION && Symbols(c).value[k].binding == GLOBAL
    ensures exists i :: 0 <= i < |c.globals| && Symbols(c).value[k].name == Some(c.globals[i])
  {
    hide LabelSymbols, SymbolIndex;
    var labels := LabelSymbols(c.sections, c.lines);
    ExternalsUndefined(Fold(Globalizer(), labels, c.globals).value, c.externals, k);
    OnlyListedMarked(c.sections, c.lines, c.globals, k);
  }

  lemma {:induction false} MarkingSucceeds(symbols: seq<Symbol>, names: seq<CString>)
    ensures Fold(Globalizer(), symbols, names).Ok? <==>
            forall i :: 0 <= i < |names| ==> SymbolIndex(symbols, names[i]) < |symbols|
    ensures Fold(Globalizer(), symbols, names).Err? ==> Fold(Globalizer(), symbols, names).error == SectionError
  {
    hide SymbolIndex;
    if names != [] {
      var front, last := names[..|names| - 1], names[|names| - 1];
      MarkingSucceeds(symbols, front);
      assert forall i :: 0 <= i < |front| ==> names[i] == front[i];
      if Fold(Globalizer(), symbols, front).Ok? {
        GlobalsMarked(symbols, front, last);
        assert names[|names| - 1] == last;
      }
    }
  }

  lemma {:induction false} LabelHasSymbol(sections: seq<AsmSection>, lines: seq<Line>, j: nat)
    requires j < |lines| && lines[j].name.Some?
    ensures SymbolIndex(LabelSymbols(sections, lines), lines[j].name.value) < |LabelSymbols(sections, lines)|
  {
    hide SymbolIndex;
    var front, last := lines[..|lines| - 1], lines[|lines| - 1];
    IndexOfAppended(LabelSymbols(sections, front), LabelSymbol(sections, last), lines[j].name.value);
    if j < |front| { LabelHasSymbol(sections, front, j); }
  }

  predicate IsLabel(c: Context, name: CString) {
    exists j :: 0 <= j < |c.lines| && c.lines[j].name == Some(name)
  }

  /** The symbol table is refused exactly when `.global` lists a name that is no label. */
  lemma GlobalsAreLabels(c: Context)
    ensures Symbols(c).Ok? <==> forall i :: 0 <= i < |c.globals| ==> IsLabel(c, c.globals[i])
    ensures Symbols(c).Err? ==> Symbols(c).error == SectionError
  {
    hide LabelSymbols, SymbolIndex;
    var labels := LabelSymbols(c.sections, c.lines);
    MarkingSucceeds(labels, c.globals);
    forall i | 0 <= i < |c.globals|
      ensures SymbolIndex(labels, c.globals[i]) < |labels| <==> IsLabel(c, c.globals[i])
    {
      if IsLabel(c, c.globals[i]) {
        var j :| 0 <= j < |c.lines| && c.lines[j].name == Some(c.globals[i]);
        LabelHasSymbol(c.sections, c.lines, j);
      } else {
        NotYetASymbol(c.sections, c.lines, c.globals[i]);
      }
    }
  }

  /** No two symbols of a table have one name. */
  predicate NamesDiffer(symbols: seq<Symbol>) {
    forall i, j :: 0 <= i < j < |symbols| ==> symbols[i].name != symbols[j].name
  }

  lemma NamesStillDiffer(symbols: seq<Symbol>, s: Symbol)
    requires NamesDiffer(symbols) && s.name.Some? && SymbolIndex(symbols, s.name.value) == |symbols|
    ensures NamesDiffer(symbols + [s])
  {
    hide SymbolIndex;
  }

  lemma {:induction false} LabelNamesDiffer(sections: seq<AsmSection>, lines: seq<Line>)
    ensures NamesDiffer(LabelSymbols(sections, lines))
  {
    hide SymbolIndex, NamesDiffer;
    if lines == [] {
      assert NamesDiffer([]) by { NoNames(); }
    } else {
      var front, last := lines[..|lines| - 1], lines[|lines| - 1];
      LabelNamesDiffer(sections, front);
      if last.name.Some? && SymbolIndex(LabelSymbols(sections, front), last.name.value)
                            == |LabelSymbols(sections, front)| {
        NamesStillDiffer(LabelSymbols(sections, front), LabelSymbol(sections, last));
      }
    }
  }

  lemma NoNames()
    ensures NamesDiffer([])
  {
  }

  lemma {:induction false} ExternalNamesDiffer(symbols: seq<Symbol>, names: seq<CString>)
    requires NamesDiffer(symbols)
    ensures NamesDiffer(WithExternals(symbols, names))
  {
    hide SymbolIndex, NamesDiffer;
    if names != [] {
      var front, last := WithExternals(symbols, names[..|names| - 1]), names[|names| - 1];
      ExternalNamesDiffer(symbols, names[..|names| - 1]);
      if SymbolIndex(front, last) == |front| {
        NamesStillDiffer(front, Symbol(Some(last), UNDEFINED_SECTION, 0, 0, GLOBAL, 0));
      }
    }
  }

  /** A symbol table has every name once. */
  lemma NamesOnce(c: Context)
    requires Symbols(c).Ok?
    ensures NamesDiffer(Symbols(c).value)
  {
    hide LabelSymbols, SymbolIndex;
    var labels := LabelSymbols(c.sections, c.lines);
    LabelNamesDiffer(c.sections, c.lines);
    GlobalsMark(labels, c.globals);
    var marked := Fold(Globalizer(), labels, c.globals).value;
    assert forall k :: 0 <= k < |marked| ==> marked[k].name == labels[k].name;
    ExternalNamesDiffer(marked, c.externals);
  }

  // ----- label uses -----

  /**
    A use of a label in its own section holds the label's offset; any other use is relocated
    against the label's symbol.
   */
  lemma LabelUseResolved(c: Context, line: Line, s: Statement, j: nat)
    requires Small(c) && DistinctLabels(c.lines) && Symbols(c).Ok?
    requires j < |c.lines| && c.lines[j].name.Some? && line.emission == Instruct(s)
             && s.operand == Some(LabelUse(c.lines[j].name.value))
    ensures var symbols, target := Symbols(c).value, c.lines[j];
            var operand := OperandIn(c, symbols, line, s.operand);
            if target.section == line.section then operand == Ok(Resolved(target.offset, None))
            else
              && FoundAt(symbols, target.name.value, target.section, target.offset)
              && operand == Ok(Resolved(0, Some(Relocation(AsWord(line.section), AsWord(line.offset + 4), ABSOLUTE32,
                                                           AsWord(SymbolIndex(symbols, target.name.value)), 0))))
  {
    hide SymbolIndex, Symbols, SymbolsOk, LocalLine;
    LabelFound(c, j);
    var local := LocalLine(c.lines, c.lines[j].name.value, line.section);
    OnlyLabel(c.lines, j, local);
  }

  lemma OnlyLabel(lines: seq<Line>, i: nat, j: nat)
    requires DistinctLabels(lines) && i < |lines| && lines[i].name.Some?
    ensures j < |lines| && lines[j].name == lines[i].name ==> i == j
  {
  }

  // ----- the object image -----

  lemma LaidOutSmall(c: Context)
    requires WellLaid(c) && |c.sections| <= 6
    ensures Small(c) && AllFit(c, c.lines)
  {
    hide Supported, KindOf, ValidAlignment, Occupied;
    forall i | 0 <= i < |c.lines| ensures c.lines[i].section < |c.sections| && c.lines[i].offset <= ROM_SIZE {
      assert LineFits(c.sections, c.lines[i]) && SectionFine(c.sections[c.lines[i].section]);
    }
  }

  /** No accepted object has bytes in bss. */
  lemma BssIsEmpty(c: Context, s: nat)
    requires WellLaid(c) && |c.sections| <= 6 && ObjectImage(c).Ok? && s < |c.sections| && c.sections[s].kind == BSS
    ensures c.sections[s].size == 0
  {
    hide TranslateLine, SectionFine, Symbols, EmitLines;
    LaidOutSmall(c);
    var symbols := Symbols(c).value;
    ContentsHold(c, symbols, c.lines);
    forall i | 0 <= i < |c.lines| ensures c.lines[i].section != s {
      assert LineThere(c, symbols, c.lines[i], EmitLines(c, symbols, c.lines).value.datas);
    }
    assert !Occupied(c.lines, s);
  }

  lemma SectionImageOk(s: AsmSection, data: seq<Byte>)
    requires SectionFine(s) && |data| == s.size
    ensures SectionOk(SectionImage(s, data))
    ensures SectionImage(s, data).kind != BSS ==> SectionImage(s, data).data == Some(data)
  {
    hide Supported, ValidAlignment;
  }

  lemma RelocationIsOk(c: Context, symbols: seq<Symbol>, images: seq<Section>, r: Relocation)
    requires WellLaid(c) && |c.sections| <= 6 && |symbols| <= WORD_MAX && |images| == |c.sections|
    requires forall s :: 0 <= s < |images| ==>
               images[s].kind == c.sections[s].kind && images[s].size == c.sections[s].size
    requires ComesFrom(c, symbols, c.lines, r)
    ensures RelocationOk(r, images, |symbols|)
  {
    hide TranslateLine, Supported, KindOf, ValidAlignment, Occupied, LinesOrdered, SymbolIndex, LocalLine;
    var i :| 0 <= i < |c.lines| && c.lines[i].section < |c.sections| && c.sections[c.lines[i].section].kind != BSS
             && RelocatesAt(c, symbols, c.lines[i], r);
    RelocationSite(c, symbols, c.lines[i], r);
    assert LineFits(c.sections, c.lines[i]) && SectionFine(c.sections[c.lines[i].section]);
  }

  /** The image built from a layout passes all of the encoder's structural checks. */
  lemma ObjectIsStructural(c: Context)
    requires WellLaid(c) && |c.sections| <= 6 && ObjectImage(c).Ok? && |ObjectImage(c).value.symbols| <= WORD_MAX
    ensures Structural(ObjectImage(c).value) && Readable(ObjectImage(c).value)
  {
    hide SectionOk, SymbolOk, RelocationOk, SectionFine, TranslateLine, Symbols, EmitLines, SectionImage;
    LaidOutSmall(c);
    var symbols, image := Symbols(c).value, ObjectImage(c).value;
    var emitted := EmitLines(c, symbols, c.lines).value;
    ContentsHold(c, symbols, c.lines);
    RelocationsHold(c, symbols, c.lines);
    SymbolTableOk(c);
    forall s | 0 <= s < |image.sections|
      ensures SectionOk(image.sections[s]) && image.sections[s].kind == c.sections[s].kind
              && image.sections[s].size == c.sections[s].size
      ensures image.sections[s].kind != BSS ==> image.sections[s].data == Some(emitted.datas[s])
    {
      SectionImageOk(c.sections[s], emitted.datas[s]);
      SectionImageFields(c.sections[s], emitted.datas[s]);
    }
    forall k | 0 <= k < |image.relocations|
      ensures RelocationOk(image.relocations[k], image.sections, |image.symbols|)
    {
      RelocationIsOk(c, symbols, image.sections, image.relocations[k]);
    }
  }

  /** A section is written with its name, place and alignment as they were laid out. */
  lemma SectionImageFields(s: AsmSection, data: seq<Byte>)
    ensures SectionImage(s, data).kind == s.kind && SectionImage(s, data).size == s.size
    ensures SectionImage(s, data).name == Some(s.name) && SectionImage(s, data).flags == s.flags
    ensures SectionImage(s, data).address == s.address && SectionImage(s, data).alignment == s.alignment
  {
  }

  /** Encoding an assembled object fails exactly when the object is too large for the format. */
  lemma ObjectRefusedForSizeOnly(c: Context)
    requires WellLaid(c) && |c.sections| <= 6 && ObjectImage(c).Ok?
    ensures Encode(ObjectImage(c).value).Err? <==> TotalSize(ObjectImage(c).value) > WORD_MAX
    ensures Encode(ObjectImage(c).value).Err? ==> Encode(ObjectImage(c).value).error == Overflow
  {
    hide Structural, Readable, ObjectImage, Encode, TotalSize, WellLaid;
    var image := ObjectImage(c).value;
    if |image.symbols| <= WORD_MAX {
      ObjectIsStructural(c);
      RefusedForSize(image);
    } else {
      ImageKind(c);
      ManySymbols(image);
    }
  }

  lemma ManySymbols(image: Image)
    requires image.kind == OBJECT && |image.symbols| > WORD_MAX
    ensures Encode(image) == Err(Overflow) && TotalSize(image) > WORD_MAX
  {
    hide RecordsOk, EntryOk, Written, TotalSize, PayloadOffset;
    RecordsCount(image);
  }

  lemma ImageKind(c: Context)
    requires ObjectImage(c).Ok?
    ensures ObjectImage(c).value.kind == OBJECT
  {
  }
}
