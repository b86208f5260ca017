/**
  The assembler's first pass: source lines become recorded lines, each with a
  section and an offset. `.align` and `.locate` move a section's end, `.section`
  switches sections and `.proc` qualifies the labels of the lines that follow.
 */
module Layout {
  import opened Wrappers
  import opened Bits
  import opened Bytes
  import opened Diagnostics
  import opened ImageFormat
  import opened Directives
  import Instructions

  const LOCATED: Word := 1

  const DOT: Char8 := 46
  const TEXT_NAME: CString := [116, 101, 120, 116]
  const DATA_NAME: CString := [100, 97, 116, 97]
  const BSS_NAME: CString := [98, 115, 115]

  // ----- source lines -----

  type ConditionCode = c: Byte | c < 17

  /** A label use, a character as its byte, or a number. */
  datatype Operand = LabelUse(name: CString) | CharOperand(code: Byte) | NumberOperand(value: DWord)

  /** opcode is None when the mnemonic is unknown; registers are still names. */
  datatype Statement = Statement(opcode: Option<Byte>, condition: Option<ConditionCode>, register1: Option<CString>,
                                 register2: Option<CString>, operand: Option<Operand>)
  {
    predicate Valid() {
      (opcode.Some? ==> opcode.value < 56) && (register2.Some? ==> register1.Some?)
    }
  }

  datatype Content =
    | Code(statement: Statement)
    | DataOf(data: Data)
    | SectionOf(name: CString)
    | GlobalOf(name: CString)
    | ExternOf(name: CString)
    | AlignTo(alignment: DWord)
    | EntryOf(name: CString)
    | LocateAt(address: DWord)
    | Procedure(name: CString)
    | EndProcedure
    | MacroMark

  datatype SourceLine = SourceLine(name: Option<CString>, content: Content)
  {
    predicate Valid() {
      (content.DataOf? ==> content.data.Valid()) && (content.Code? ==> content.statement.Valid())
    }
  }

  // ----- recorded lines -----

  datatype Emission = Instruct(statement: Statement) | Raw(bytes: seq<Byte>)

  datatype Line = Line(name: Option<CString>, emission: Emission, section: nat, offset: nat)

  function Size(e: Emission): nat {
    if e.Instruct? then Instructions.INSTRUCTION_SIZE else |e.bytes|
  }

  function LineBytes(lines: seq<Line>): nat {
    if lines == [] then 0 else LineBytes(lines[..|lines| - 1]) + Size(lines[|lines| - 1].emission)
  }

  function End(l: Line): nat {
    l.offset + Size(l.emission)
  }

  datatype AsmSection = AsmSection(name: CString, kind: Word, flags: Word, address: Word, alignment: Word, size: nat)

  /** `starting` says that the next line starts the body of a procedure. */
  datatype Context = Context(sections: seq<AsmSection>, current: nat, lines: seq<Line>, globals: seq<CString>,
                             externals: seq<CString>, entry: Option<CString>, procedure: Option<CString>,
                             starting: bool)

  function KindOf(name: CString): Word {
    if name == BSS_NAME || name == [DOT] + BSS_NAME then BSS
    else if name == DATA_NAME || name == [DOT] + DATA_NAME then DATA
    else TEXT
  }

  predicate Supported(name: CString) {
    name == TEXT_NAME || name == [DOT] + TEXT_NAME || name == DATA_NAME || name == [DOT] + DATA_NAME
    || name == BSS_NAME || name == [DOT] + BSS_NAME
  }

  function NewSection(name: CString): AsmSection {
    AsmSection(name, KindOf(name), 0, 0, 1, 0)
  }

  const INITIAL := Context([NewSection(TEXT_NAME)], 0, [], [], [], None, None, false)

  function SectionIndex(sections: seq<AsmSection>, name: CString): (n: nat)
    ensures n <= |sections|
    ensures n < |sections| ==> sections[n].name == name
    ensures forall k :: 0 <= k < n ==> sections[k].name != name
  {
    if sections == [] || sections[0].name == name then 0 else 1 + SectionIndex(sections[1..], name)
  }

  /** validate_section_range. */
  predicate FitsRom(s: AsmSection) {
    s.address <= ROM_SIZE && s.size <= ROM_SIZE - s.address
  }

  /** A changed current section, when it still fits ROM. */
  function Updated(c: Context, s: AsmSection): Result<Context, Diagnostic>
    requires c.current < |c.sections|
  {
    if !FitsRom(s) then Err(SectionError) else Ok(c.(sections := c.sections[c.current := s]))
  }

  function Record(c: Context, name: Option<CString>, e: Emission): Result<Context, Diagnostic>
    requires c.current < |c.sections|
  {
    var s := c.sections[c.current];
    if Size(e) > SIZE_RANGE - 1 - s.size then Err(OutputTooLarge)
    else
      var grown := Updated(c, s.(size := s.size + Size(e)));
      if grown.Err? then grown else Ok(grown.value.(lines := c.lines + [Line(name, e, c.current, s.size)]))
  }

  /** The section's end rounded up. */
  function Padded(size: nat, alignment: Word): nat
    requires alignment > 0
  {
    var remainder := And(size, alignment - 1);
    AndAtMost(size, alignment - 1);
    if remainder == 0 then size else size + (alignment - remainder)
  }

  function Align(c: Context, alignment: DWord): Result<Context, Diagnostic>
    requires c.current < |c.sections|
  {
    var s := c.sections[c.current];
    if alignment == 0 || alignment > WORD_MAX || And(alignment, alignment - 1) != 0 then Err(SectionError)
    else if Padded(s.size, alignment) >= SIZE_RANGE then Err(OutputTooLarge)
    else
      var least := if s.alignment < alignment then alignment else s.alignment;
      Updated(c, s.(size := Padded(s.size, alignment), alignment := least))
  }

  /** The located flag set. */
  function Marked(flags: Word): Word {
    WordWidths();
    BitwiseBound(flags, LOCATED, 32);
    Or(flags, LOCATED)
  }

  function Locate(c: Context, address: DWord): Result<Context, Diagnostic>
    requires c.current < |c.sections|
  {
    var s := c.sections[c.current];
    if address > WORD_MAX || address < s.address then Err(SectionError)
    else if s.size == 0 then Updated(c, s.(address := address, flags := Marked(s.flags)))
    else if address - s.address < s.size then Err(SectionError)
    else Updated(c, s.(size := address - s.address))
  }

  function Select(c: Context, name: CString): Result<Context, Diagnostic> {
    if !Supported(name) then Err(SectionError)
    else
      var index := SectionIndex(c.sections, name);
      if index < |c.sections| then Ok(c.(current := index))
      else Ok(c.(sections := c.sections + [NewSection(name)], current := index))
  }

  /** set_label_context. */
  function Qualified(procedure: CString, name: CString): CString {
    if name == [] then procedure else procedure + [DOT] + name
  }

  function LabelOf(c: Context, line: SourceLine): Option<CString> {
    var name := if c.starting then Some([]) else line.name;
    if c.procedure.Some? && name.Some? then Some(Qualified(c.procedure.value, name.value)) else name
  }

  /** One turn of the loop in asm_processDirectives. */
  function Step(before: Context, line: SourceLine): Result<Context, Diagnostic>
    requires before.current < |before.sections| && line.Valid()
  {
    var name := LabelOf(before, line);
    var c := before.(starting := false);
    match line.content
    case Code(statement) => Record(c, name, Instruct(statement))
    case DataOf(data) =>
      var raw := RawData(data);
      if raw.Err? then Err(raw.error) else Record(c, name, Raw(raw.value))
    case SectionOf(name) => Select(c, name)
    case GlobalOf(name) => Ok(c.(globals := c.globals + [name]))
    case ExternOf(name) => Ok(c.(externals := c.externals + [name]))
    case AlignTo(alignment) => Align(c, alignment)
    case EntryOf(name) => Ok(c.(entry := Some(name)))
    case LocateAt(address) => Locate(c, address)
    case Procedure(name) => Ok(c.(procedure := Some(name), starting := true))
    case EndProcedure => Ok(c.(procedure := None))
    case MacroMark => Ok(c)
  }

  /** The contexts after each line, or the first error. */
  function Run(lines: seq<SourceLine>): (r: Result<Context, Diagnostic>)
    requires forall l :: l in lines ==> l.Valid()
    ensures r.Ok? ==> r.value.current < |r.value.sections|
  {
    if lines == [] then Ok(INITIAL)
    else
      var front := Run(lines[..|lines| - 1]);
      if front.Err? then front
      else
        StepKeepsCurrent(front.value, lines[|lines| - 1]);
        Step(front.value, lines[|lines| - 1])
  }

  lemma StepKeepsCurrent(c: Context, line: SourceLine)
    requires c.current < |c.sections| && line.Valid()
    ensures Step(c, line).Ok? ==> Step(c, line).value.current < |Step(c, line).value.sections|
  {
    hide RawData, Supported, And, Or, FitsRom;
  }

  /** asm_processDirectives: a procedure needs a line after its directive. */
  function LaidOut(lines: seq<SourceLine>): Result<Context, Diagnostic>
    requires forall l :: l in lines ==> l.Valid()
  {
    var r := Run(lines);
    if r.Ok? && r.value.starting then Err(InvalidDirective) else r
  }
}
