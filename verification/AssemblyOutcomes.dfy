/**
  When a source that was laid out assembles: to a direct program and to an object, each
  exactly under conditions that can be read off its lines.
 */
module AssemblyOutcomes {
  import opened Wrappers
  import opened Bytes
  import opened ImageFormat
  import opened Layout
  import opened LayoutProofs
  import opened Statements
  import opened StatementMeaning
  import opened RawAssembly
  import opened ObjectAssembly
  import opened ObjectProofs
  import Instructions

  // ----- statements -----

  predicate NamesRegister(name: Option<CString>) {
    exists r: Byte :: GivesRegister(name, r)
  }

  /** A known opcode with the operands it takes, known registers, and a number that fits a word. */
  predicate StatementSound(s: Statement) {
    && s.opcode.Some? && OperandsFit(s) && NamesRegister(s.register1) && NamesRegister(s.register2)
    && (s.operand.Some? && s.operand.value.NumberOperand? ==> s.operand.value.value <= 0xFFFF_FFFF)
  }

  /** The label a statement uses, if it uses one. */
  function UsedLabel(e: Emission): Option<CString> {
    if e.Instruct? && e.statement.operand.Some? && e.statement.operand.value.LabelUse?
    then Some(e.statement.operand.value.name) else None
  }

  /** The checks on a line apart from its label use. */
  predicate LineSound(e: Emission) {
    e.Instruct? ==> StatementSound(e.statement)
  }

  lemma RegisterKnown(name: Option<CString>)
    ensures RegisterOf(name).Ok? <==> NamesRegister(name)
  {
    hide GivesRegister, RegisterIndex;
    if RegisterOf(name).Ok? { RegisterGiven(name, RegisterOf(name).value); }
    if r: Byte :| GivesRegister(name, r) { RegisterGiven(name, r); }
  }

  lemma StatementAccepted(s: Statement)
    requires s.Valid()
    ensures StatementSound(s) <==>
            && OperandError(s).None? && RegisterOf(s.register1).Ok? && RegisterOf(s.register2).Ok?
            && (s.operand.Some? && s.operand.value.NumberOperand? ==> s.operand.value.value <= WORD_MAX)
  {
    hide OperandError, RegisterOf, NamesRegister, OperandsFit;
    RegisterKnown(s.register1);
    RegisterKnown(s.register2);
    OpcodeKnown(s);
    if s.opcode.Some? { OperandsChecked(s); }
  }

  // ----- direct programs -----

  lemma LineEmits(e: Emission, labels: LabelMap)
    requires e.Instruct? ==> e.statement.Valid()
    requires forall name :: name in labels ==> labels[name] <= WORD_MAX
    ensures BytesOf(e, labels).Ok? <==> LineSound(e) && (UsedLabel(e).Some? ==> UsedLabel(e).value in labels)
  {
    hide OperandError, RegisterOf, StatementSound, Instructions.Encoded;
    if e.Instruct? {
      StatementAccepted(e.statement);
      EncodingSucceeds(e.statement, labels);
    }
  }

  lemma EncodingSucceeds(s: Statement, labels: LabelMap)
    requires s.Valid()
    ensures BytesOf(Instruct(s), labels).Ok? <==> InstructionOf(s, labels).Ok?
  {
    hide OperandError, RegisterOf, InstructionOf, BytesOf;
    EncodingNeverFails(s, labels);
  }

  /** Translation succeeds exactly when each line does, as long as the output stays small. */
  lemma {:induction false} TranslationAccepted(lines: seq<Line>, labels: LabelMap)
    requires LineBytes(lines) <= SIZE_RANGE - GROWTH
    ensures Translate(lines, labels).Ok? <==>
            forall i :: 0 <= i < |lines| ==> BytesOf(lines[i].emission, labels).Ok?
  {
    hide BytesOf, Size;
    if lines != [] {
      var front, last := lines[..|lines| - 1], lines[|lines| - 1];
      TranslationAccepted(front, labels);
      assert forall i :: 0 <= i < |front| ==> lines[i] == front[i];
      if Translate(front, labels).Ok? {
        LengthEmitted(front, labels);
        BytesHaveSize(last.emission, labels);
      }
      assert lines[|lines| - 1] == last;
    }
  }

  /** Every use is of a label of the source. */
  predicate UsesLabels(c: Context) {
    forall i :: 0 <= i < |c.lines| && UsedLabel(c.lines[i].emission).Some? ==>
      IsLabel(c, UsedLabel(c.lines[i].emission).value)
  }

  predicate LinesSound(c: Context) {
    forall i :: 0 <= i < |c.lines| ==> LineSound(c.lines[i].emission)
  }

  /** A direct program is assembled exactly when no label repeats, every line is sound and every use is of a label. */
  lemma RawAccepted(lines: seq<SourceLine>)
    requires AllValid(lines) && LaidOut(lines).Ok?
    ensures var c := LaidOut(lines).value;
            AssembleRaw(lines).Ok? <==> DistinctLabels(c.lines) && LinesSound(c) && UsesLabels(c)
  {
    hide LaidOut, DistinctLabels, Labels, BytesOf, LineBytes, Translate, LineSound, UsedLabel;
    var c := LaidOut(lines).value;
    LabelsHold(c.lines);
    if DistinctLabels(c.lines) {
      var labels := Labels(c.lines).value.labels;
      SizesNeverOverflow(lines);
      TranslationAccepted(c.lines, labels);
      forall i | 0 <= i < |c.lines|
        ensures BytesOf(c.lines[i].emission, labels).Ok? <==>
                LineSound(c.lines[i].emission)
                && (UsedLabel(c.lines[i].emission).Some? ==> IsLabel(c, UsedLabel(c.lines[i].emission).value))
      {
        RecordedValid(lines, i);
        AddressesSmall(lines, c, labels);
        LineEmits(c.lines[i].emission, labels);
        if UsedLabel(c.lines[i].emission).Some? { LabelIn(c, labels, UsedLabel(c.lines[i].emission).value); }
      }
    }
  }

  lemma LabelIn(c: Context, labels: LabelMap, name: CString)
    requires LabelsOf(labels, c.lines)
    ensures name in labels <==> IsLabel(c, name)
  {
    hide LineBytes;
  }

  lemma AddressesSmall(lines: seq<SourceLine>, c: Context, labels: LabelMap)
    requires AllValid(lines) && LaidOut(lines) == Ok(c) && Labels(c.lines).Ok?
    requires labels == Labels(c.lines).value.labels
    ensures forall name :: name in labels ==> labels[name] <= WORD_MAX
  {
    hide LaidOut, Labels, LineBytes;
    SizesNeverOverflow(lines);
    LabelsHold(c.lines);
    forall name | name in labels ensures labels[name] <= WORD_MAX {
      var i :| 0 <= i < |c.lines| && c.lines[i].name == Some(name);
      BytesBefore(c.lines, i);
    }
  }

  lemma RecordedValid(lines: seq<SourceLine>, i: nat)
    requires AllValid(lines) && LaidOut(lines).Ok? && i < |LaidOut(lines).value.lines|
    ensures var e := LaidOut(lines).value.lines[i].emission; e.Instruct? ==> e.statement.Valid()
  {
    hide Step, Run;
    var m := RecordedFrom(lines, i);
    assert lines[m] in lines;
  }

  // ----- objects -----

  /** Every use is of a label of the source or of a name that `.extern` lists. */
  predicate UsesSymbols(c: Context) {
    forall i :: 0 <= i < |c.lines| && UsedLabel(c.lines[i].emission).Some? ==>
      IsLabel(c, UsedLabel(c.lines[i].emission).value) || UsedLabel(c.lines[i].emission).value in c.externals
  }

  predicate OutsideBss(c: Context) {
    forall i :: 0 <= i < |c.lines| ==> c.lines[i].section < |c.sections| && c.sections[c.lines[i].section].kind != 3
  }

  lemma LineTranslates(c: Context, symbols: seq<Symbol>, line: Line)
    requires (line.emission.Instruct? ==> line.emission.statement.Valid()) && Symbols(c) == Ok(symbols)
    ensures TranslateLine(c, symbols, line).Ok? <==>
            && LineSound(line.emission)
            && (UsedLabel(line.emission).Some? ==>
                  IsLabel(c, UsedLabel(line.emission).value) || UsedLabel(line.emission).value in c.externals)
  {
    hide OperandError, RegisterOf, StatementSound, Instructions.Encoded, Symbols, LocalLine, ObjectAssembly.SymbolIndex;
    if line.emission.Instruct? {
      StatementAccepted(line.emission.statement);
      if UsedLabel(line.emission).Some? {
        SymbolExists(c, UsedLabel(line.emission).value);
        LocalIsLabel(c, UsedLabel(line.emission).value, line.section);
      }
      OpcodeEncodes(line.emission.statement);
    }
  }

  lemma LocalIsLabel(c: Context, name: CString, section: nat)
    ensures LocalLine(c.lines, name, section) < |c.lines| ==> IsLabel(c, name)
  {
    hide LocalLine;
  }

  lemma OpcodeEncodes(s: Statement)
    requires s.Valid()
    ensures OperandError(s).None? ==> s.opcode.Some? && s.opcode.value < Instructions.OPCODE_TOTAL
  {
  }

  /** Filling the sections succeeds exactly when no line is in bss and each line translates. */
  lemma {:induction false} EmissionAccepted(c: Context, symbols: seq<Symbol>, lines: seq<Line>)
    requires AllFit(c, lines)
    ensures EmitLines(c, symbols, lines).Ok? <==>
            forall i :: 0 <= i < |lines| ==>
              lines[i].section < |c.sections| && c.sections[lines[i].section].kind != 3
              && TranslateLine(c, symbols, lines[i]).Ok?
  {
    hide TranslateLine, LinesOrdered, Splice;
    if lines != [] {
      var front, last := lines[..|lines| - 1], lines[|lines| - 1];
      assert lines == front + [last];
      FrontFits(c, front, last);
      EmissionAccepted(c, symbols, front);
      assert forall i :: 0 <= i < |front| ==> lines[i] == front[i];
      if EmitLines(c, symbols, front).Ok? {
        ContentsHold(c, symbols, front);
        TranslationHasSize(c, symbols, last);
        LineEmitsOk(c, symbols, EmitLines(c, symbols, front).value, last);
      }
      assert lines[|lines| - 1] == last;
    }
  }

  lemma LineEmitsOk(c: Context, symbols: seq<Symbol>, before: Emitted, line: Line)
    requires Sized(c.sections, before.datas) && LineFits(c.sections, line)
    ensures EmitLine(c, symbols, before, line).Ok? <==>
            line.section < |c.sections| && c.sections[line.section].kind != 3 && TranslateLine(c, symbols, line).Ok?
  {
    hide TranslateLine, Splice;
    TranslationHasSize(c, symbols, line);
  }

  /**
    An object is assembled exactly when no label repeats, `.global` lists labels only, no
    line is in bss, every line is sound, every use is of a label or of an external name,
    and the file fits the format.
   */
  lemma ObjectAccepted(lines: seq<SourceLine>)
    requires AllValid(lines) && LaidOut(lines).Ok?
    ensures var c := LaidOut(lines).value;
            AssembleObject(lines).Ok? <==>
              && DistinctLabels(c.lines) && (forall name :: name in c.globals ==> IsLabel(c, name))
              && OutsideBss(c) && LinesSound(c) && UsesSymbols(c)
              && ObjectImage(c).Ok? && TotalSize(ObjectImage(c).value) <= 0xFFFF_FFFF
  {
    hide LaidOut, DistinctLabels, Labels, ObjectImage, Encode, TotalSize, OutsideBss, LinesSound, UsesSymbols, IsLabel;
    var c := LaidOut(lines).value;
    LabelsHold(c.lines);
    LayoutHolds(lines);
    if DistinctLabels(c.lines) {
      ImageAccepted(lines, c);
      if ObjectImage(c).Ok? { ObjectRefusedForSizeOnly(c); }
    }
  }

  lemma LayoutHolds(lines: seq<SourceLine>)
    requires AllValid(lines) && LaidOut(lines).Ok?
    ensures WellLaid(LaidOut(lines).value) && |LaidOut(lines).value.sections| <= 6
    ensures AllFit(LaidOut(lines).value, LaidOut(lines).value.lines)
  {
    hide Run, WellLaid, AllFit;
    RunWellLaid(lines);
    OutputIsBounded(lines);
    LaidOutSmall(LaidOut(lines).value);
  }

  lemma ImageAccepted(lines: seq<SourceLine>, c: Context)
    requires AllValid(lines) && LaidOut(lines) == Ok(c)
    ensures ObjectImage(c).Ok? <==>
            && (forall name :: name in c.globals ==> IsLabel(c, name))
            && OutsideBss(c) && LinesSound(c) && UsesSymbols(c)
  {
    hide LaidOut, Symbols, EmitLines, LineSound, UsedLabel, IsLabel, TranslateLine, AllFit, WellLaid;
    LayoutHolds(lines);
    GlobalsAreLabels(c);
    forall name | name in c.globals ensures exists i :: 0 <= i < |c.globals| && c.globals[i] == name {
    }
    if Symbols(c).Ok? {
      var symbols := Symbols(c).value;
      EmissionAccepted(c, symbols, c.lines);
      forall i | 0 <= i < |c.lines|
        ensures TranslateLine(c, symbols, c.lines[i]).Ok? <==>
                && LineSound(c.lines[i].emission)
                && (UsedLabel(c.lines[i].emission).Some? ==>
                      IsLabel(c, UsedLabel(c.lines[i].emission).value)
                      || UsedLabel(c.lines[i].emission).value in c.externals)
      {
        RecordedValid(lines, i);
        LineTranslates(c, symbols, c.lines[i]);
      }
    }
  }
}
