/**
  Raw mode: one pass gives each label the sum of the sizes before it, another
  concatenates the lines' bytes. The two agree, and a loaded program fetches at a
  label the instruction that was written there.
 */
module RawAssembly {
  import opened Wrappers
  import opened Bytes
  import opened Diagnostics
  import opened ImageRoundTrip
  import opened Layout
  import opened LayoutProofs
  import opened Statements
  import Instructions
  import Machine

  const GROWTH := 1024

  type LabelMap = map<CString, nat>

  // ----- labels -----

  datatype Labelling = Labelling(labels: LabelMap, address: nat)

  function LabelStep(before: Labelling, line: Line): Result<Labelling, Diagnostic> {
    if line.name.Some? && line.name.value in before.labels then Err(SectionError)
    else
      var labels := if line.name.Some? then before.labels[line.name.value := before.address] else before.labels;
      Ok(Labelling(labels, before.address + Size(line.emission)))
  }

  function Labeller(): (Labelling, Line) -> Result<Labelling, Diagnostic> {
    (before: Labelling, line: Line) => LabelStep(before, line)
  }

  /** asm_processLabels. */
  function Labels(lines: seq<Line>): Result<Labelling, Diagnostic> {
    Fold(Labeller(), Labelling(map[], 0), lines)
  }

  /** Each labelled line's label is recorded with the number of bytes before it, and with nothing else. */
  predicate LabelsOf(labels: LabelMap, lines: seq<Line>) {
    && (forall i :: 0 <= i < |lines| && lines[i].name.Some? ==>
          lines[i].name.value in labels && labels[lines[i].name.value] == LineBytes(lines[..i]))
    && (forall name :: name in labels ==> exists i :: 0 <= i < |lines| && lines[i].name == Some(name))
  }

  predicate DistinctLabels(lines: seq<Line>) {
    forall i, j :: 0 <= i < j < |lines| && lines[i].name.Some? ==> lines[i].name != lines[j].name
  }

  /** The first pass fails exactly on a repeated label. */
  lemma {:induction false} LabelsHold(lines: seq<Line>)
    ensures Labels(lines).Ok? <==> DistinctLabels(lines)
    ensures Labels(lines).Ok? ==>
            LabelsOf(Labels(lines).value.labels, lines) && Labels(lines).value.address == LineBytes(lines)
    ensures Labels(lines).Err? ==> Labels(lines).error == SectionError
  {
    hide LabelsOf, DistinctLabels, Size;
    if lines == [] {
      NoLabels();
    } else {
      var front, last := lines[..|lines| - 1], lines[|lines| - 1];
      assert lines == front + [last];
      LabelsHold(front);
      DistinctFront(front, last);
      if Labels(front).Ok? {
        DistinctNext(Labels(front).value.labels, front, last);
        if Labels(lines).Ok? { LabelsOfNext(Labels(front).value.labels, front, last); }
      }
    }
  }

  lemma NoLabels()
    ensures LabelsOf(map[], []) && DistinctLabels([])
  {
  }

  lemma DistinctFront(front: seq<Line>, last: Line)
    ensures DistinctLabels(front + [last]) ==> DistinctLabels(front)
  {
    var lines := front + [last];
    if DistinctLabels(lines) {
      forall i, j | 0 <= i < j < |front| && front[i].name.Some? ensures front[i].name != front[j].name {
        assert lines[i].name != lines[j].name;
      }
    }
  }

  lemma DistinctNext(labels: LabelMap, front: seq<Line>, last: Line)
    requires LabelsOf(labels, front) && DistinctLabels(front)
    ensures DistinctLabels(front + [last]) <==> !(last.name.Some? && last.name.value in labels)
  {
    hide LineBytes;
    var lines := front + [last];
    if last.name.Some? && last.name.value in labels {
      var i :| 0 <= i < |front| && front[i].name == last.name;
      assert lines[i].name == lines[|front|].name;
    }
  }

  lemma LabelsOfNext(labels: LabelMap, front: seq<Line>, last: Line)
    requires LabelsOf(labels, front) && !(last.name.Some? && last.name.value in labels)
    ensures LabelsOf(if last.name.Some? then labels[last.name.value := LineBytes(front)] else labels, front + [last])
  {
    hide LineBytes;
    var lines := front + [last];
    var next := if last.name.Some? then labels[last.name.value := LineBytes(front)] else labels;
    forall i | 0 <= i < |lines| && lines[i].name.Some?
      ensures lines[i].name.value in next && next[lines[i].name.value] == LineBytes(lines[..i])
    {
      if i < |front| {
        assert front[i] == lines[i] && front[..i] == lines[..i];
      } else {
        assert lines[..i] == front;
      }
    }
    forall name | name in next ensures exists i :: 0 <= i < |lines| && lines[i].name == Some(name) {
      if name in labels {
        var i :| 0 <= i < |front| && front[i].name == Some(name);
        assert lines[i].name == Some(name);
      } else {
        assert lines[|front|].name == Some(name);
      }
    }
  }

  // ----- instructions -----

  function OperandWord(operand: Option<Operand>, labels: LabelMap): Result<Word, Diagnostic> {
    if operand.None? then Ok(0)
    else
      match operand.value
      case LabelUse(name) =>
        if name !in labels then Err(UnknownLabel)
        else if labels[name] > WORD_MAX then Err(ValueOutOfRange)
        else Ok(labels[name])
      case CharOperand(code) => Ok(CharWord(code))
      case NumberOperand(value) => if value > WORD_MAX then Err(ValueOutOfRange) else Ok(value)
  }

  function InstructionOf(s: Statement, labels: LabelMap): Result<Instructions.Instruction, Diagnostic> {
    var refused, first, second, operand := OperandError(s), RegisterOf(s.register1), RegisterOf(s.register2),
        OperandWord(s.operand, labels);
    if refused.Some? then Err(refused.value)
    else if first.Err? then Err(first.error)
    else if second.Err? then Err(second.error)
    else if operand.Err? then Err(operand.error)
    else
      Ok(Instructions.Instruction(s.opcode.value, if s.condition.Some? then s.condition.value else 0,
                                  first.value, second.value, operand.value))
  }

  /** A line's bytes; an instruction the encoder refuses is an internal error. */
  function BytesOf(e: Emission, labels: LabelMap): Result<seq<Byte>, Diagnostic> {
    match e
    case Raw(bytes) => Ok(bytes)
    case Instruct(statement) =>
      var i := InstructionOf(statement, labels);
      if i.Err? then Err(i.error)
      else if !Instructions.Encodable(i.value) then Err(InternalError)
      else Ok(Instructions.Encoded(i.value))
  }

  function EmitStep(output: seq<Byte>, line: Line, labels: LabelMap): Result<seq<Byte>, Diagnostic> {
    var bytes := BytesOf(line.emission, labels);
    if bytes.Err? then bytes
    else if |output| + |bytes.value| > SIZE_RANGE - GROWTH then Err(OutputTooLarge)
    else Ok(output + bytes.value)
  }

  function Emitter(labels: LabelMap): (seq<Byte>, Line) -> Result<seq<Byte>, Diagnostic> {
    (output: seq<Byte>, line: Line) => EmitStep(output, line, labels)
  }

  /** asm_translate. */
  function Translate(lines: seq<Line>, labels: LabelMap): Result<seq<Byte>, Diagnostic> {
    Fold(Emitter(labels), [], lines)
  }

  /** Assembling source lines without sections in the output. */
  function AssembleRaw(lines: seq<SourceLine>): Result<seq<Byte>, Diagnostic>
    requires AllValid(lines)
  {
    var laid := LaidOut(lines);
    if laid.Err? then Err(laid.error)
    else
      var labelled := Labels(laid.value.lines);
      if labelled.Err? then Err(labelled.error) else Translate(laid.value.lines, labelled.value.labels)
  }

  // ----- the passes agree -----

  lemma BytesHaveSize(e: Emission, labels: LabelMap)
    ensures BytesOf(e, labels).Ok? ==> |BytesOf(e, labels).value| == Size(e)
  {
    hide InstructionOf, Instructions.Encoded, Instructions.Encodable;
  }

  /** The translation is the lines' bytes one after another: line i is found behind the sizes of the lines before it. */
  lemma {:induction false} LinesEmitted(lines: seq<Line>, labels: LabelMap, i: nat)
    requires Translate(lines, labels).Ok? && i < |lines|
    ensures BytesOf(lines[i].emission, labels).Ok?
    ensures At(Translate(lines, labels).value, LineBytes(lines[..i]), BytesOf(lines[i].emission, labels).value)
    ensures |Translate(lines, labels).value| == LineBytes(lines)
  {
    hide BytesOf, Size;
    var n := |lines| - 1;
    var front := lines[..n];
    BytesHaveSize(lines[n].emission, labels);
    if i < n {
      LinesEmitted(front, labels, i);
      assert front[..i] == lines[..i];
      AtAppended(Translate(front, labels).value, BytesOf(lines[n].emission, labels).value, LineBytes(lines[..i]),
                 BytesOf(lines[i].emission, labels).value);
    } else {
      LengthEmitted(front, labels);
    }
  }

  lemma {:induction false} LengthEmitted(lines: seq<Line>, labels: LabelMap)
    requires Translate(lines, labels).Ok?
    ensures |Translate(lines, labels).value| == LineBytes(lines)
  {
    hide BytesOf, Size;
    if lines != [] {
      LengthEmitted(lines[..|lines| - 1], labels);
      BytesHaveSize(lines[|lines| - 1].emission, labels);
    }
  }

  predicate Assembled(lines: seq<SourceLine>, recorded: seq<Line>, labels: LabelMap, output: seq<Byte>)
    requires AllValid(lines)
  {
    && LaidOut(lines).Ok? && LaidOut(lines).value.lines == recorded
    && Labels(recorded).Ok? && Labels(recorded).value.labels == labels
    && Translate(recorded, labels) == Ok(output)
  }

  lemma AssemblyOf(lines: seq<SourceLine>) returns (recorded: seq<Line>, labels: LabelMap)
    requires AllValid(lines) && AssembleRaw(lines).Ok?
    ensures Assembled(lines, recorded, labels, AssembleRaw(lines).value)
  {
    hide LaidOut, Labels, Translate;
    recorded := LaidOut(lines).value.lines;
    labels := Labels(recorded).value.labels;
  }

  /** Two-pass agreement: a label's address is where its line's bytes are, and a use of it encodes that address. */
  lemma PassesAgree(lines: seq<SourceLine>, recorded: seq<Line>, labels: LabelMap, output: seq<Byte>, i: nat, use: nat)
    requires AllValid(lines) && Assembled(lines, recorded, labels, output)
    requires i < |recorded| && recorded[i].name.Some? && use < |recorded|
    requires recorded[use].emission.Instruct?
             && recorded[use].emission.statement.operand == Some(LabelUse(recorded[i].name.value))
    ensures recorded[i].name.value in labels && BytesOf(recorded[i].emission, labels).Ok?
    ensures At(output, labels[recorded[i].name.value], BytesOf(recorded[i].emission, labels).value)
    ensures InstructionOf(recorded[use].emission.statement, labels).Ok?
    ensures InstructionOf(recorded[use].emission.statement, labels).value.immediate == labels[recorded[i].name.value]
    ensures At(output, LineBytes(recorded[..use]),
               Instructions.Encoded(InstructionOf(recorded[use].emission.statement, labels).value))
  {
    hide LaidOut, Labels, Translate, Instructions.Encoded, RegisterOf, OperandError, At;
    LabelsHold(recorded);
    LinesEmitted(recorded, labels, i);
    LinesEmitted(recorded, labels, use);
  }

  /** No accepted program is large enough for the size and address diagnostics of the second pass. */
  lemma SizesNeverOverflow(lines: seq<SourceLine>)
    requires AllValid(lines) && LaidOut(lines).Ok?
    ensures LineBytes(LaidOut(lines).value.lines) <= 6 * ROM_SIZE
    ensures AssembleRaw(lines) != Err(OutputTooLarge)
  {
    hide Run, Labels, LineBytes, Translate;
    OutputIsBounded(lines);
    var recorded := LaidOut(lines).value.lines;
    LabelsHold(recorded);
    assert recorded[..|recorded|] == recorded;
    if Labels(recorded).Ok? { TranslationFits(recorded, Labels(recorded).value.labels, |recorded|); }
  }

  /** A label use is refused only because the label is unknown: every address fits a word. */
  lemma LabelsFit(lines: seq<SourceLine>, recorded: seq<Line>, labels: LabelMap, name: CString)
    requires AllValid(lines) && LaidOut(lines).Ok? && recorded == LaidOut(lines).value.lines
    requires Labels(recorded).Ok? && labels == Labels(recorded).value.labels
    ensures OperandWord(Some(LabelUse(name)), labels) == if name in labels then Ok(labels[name]) else Err(UnknownLabel)
  {
    hide Run, Labels;
    OutputIsBounded(lines);
    LabelsHold(recorded);
    if name in labels {
      var i :| 0 <= i < |recorded| && recorded[i].name == Some(name);
      BytesBefore(recorded, i);
    }
  }

  lemma {:induction false} BytesBefore(lines: seq<Line>, i: nat)
    requires i <= |lines|
    ensures LineBytes(lines[..i]) <= LineBytes(lines)
  {
    if i == |lines| {
      assert lines[..i] == lines;
    } else {
      BytesBefore(lines[..|lines| - 1], i);
      assert lines[..|lines| - 1][..i] == lines[..i];
    }
  }

  lemma {:induction false} TranslationFits(lines: seq<Line>, labels: LabelMap, k: nat)
    requires k <= |lines| && LineBytes(lines) <= SIZE_RANGE - GROWTH
    ensures Translate(lines[..k], labels) != Err(OutputTooLarge)
  {
    hide BytesOf;
    if k > 0 {
      TranslationFits(lines, labels, k - 1);
      assert lines[..k][..k - 1] == lines[..k - 1];
      if Translate(lines[..k - 1], labels).Ok? {
        LengthEmitted(lines[..k - 1], labels);
        BytesHaveSize(lines[k - 1].emission, labels);
        BytesBefore(lines, k);
        NotTooLarge(lines[k - 1].emission, labels);
      }
    } else {
      assert lines[..0] == [];
    }
  }

  lemma NotTooLarge(e: Emission, labels: LabelMap)
    ensures BytesOf(e, labels) != Err(OutputTooLarge)
  {
    hide RegisterIndex, ArityOf, Instructions.Encoded;
  }

  /** A statement with a known opcode and condition always encodes: the internal error is unreachable. */
  lemma EncodingNeverFails(s: Statement, labels: LabelMap)
    requires s.Valid()
    ensures BytesOf(Instruct(s), labels) != Err(InternalError)
    ensures BytesOf(Instruct(s), labels).Ok? <==> InstructionOf(s, labels).Ok?
  {
    hide RegisterIndex, Instructions.Encoded;
  }

  // ----- running what was assembled -----

  /** With the program at the start of ROM, fetching at a statement's address gives that statement's instruction. */
  lemma FetchesStatement(lines: seq<SourceLine>, recorded: seq<Line>, labels: LabelMap, output: seq<Byte>, i: nat,
                         m: Machine.State)
    requires AllValid(lines) && Assembled(lines, recorded, labels, output)
    requires m.Valid() && |output| <= ROM_SIZE && At(m.rom, 0, output)
    requires i < |recorded| && recorded[i].emission.Instruct?
             && m.registers[Instructions.R_PC] == LineBytes(recorded[..i])
    ensures InstructionOf(recorded[i].emission.statement, labels).Ok?
    ensures Machine.Fetch(m).instruction == Some(InstructionOf(recorded[i].emission.statement, labels).value)
    ensures recorded[i].name.Some? ==>
            recorded[i].name.value in labels && labels[recorded[i].name.value] == m.registers[Instructions.R_PC]
  {
    hide LaidOut, Labels, Translate, Instructions.Encoded, Instructions.Decoded, InstructionOf, LineBytes;
    LabelsHold(recorded);
    LinesEmitted(recorded, labels, i);
    var pc := LineBytes(recorded[..i]);
    var instruction := InstructionOf(recorded[i].emission.statement, labels).value;
    var bytes := Instructions.Encoded(instruction);
    AtInner(m.rom, 0, output, pc, bytes, pc);
    Machine.FetchedInOrder(m, pc);
    assert m.Memory()[pc..pc + 8] == m.rom[pc..pc + 8];
    Instructions.DecodedEncoded(instruction);
  }
}
