/**
  The assembler object: its passes update sections, lines and labels in place and
  grow an output buffer. Each pass is proved to compute what Layout, RawAssembly
  and ObjectAssembly say.
 */
module Assembler {
  import opened Wrappers
  import opened Bits
  import opened Bytes
  import opened Diagnostics
  import opened ImageFormat
  import opened ImageEncoder
  import opened Layout
  import opened LayoutProofs
  import opened Statements
  import opened RawAssembly
  import opened ObjectAssembly
  import opened ObjectProofs
  import opened Directives
  import opened LabelTables
  import Instructions
  import Linker

  /** The first error of a program is its result. */
  lemma {:induction false} RunStops(lines: seq<SourceLine>, k: nat)
    requires AllValid(lines) && k <= |lines| && Run(lines[..k]).Err?
    ensures Run(lines) == Run(lines[..k])
    decreases |lines| - k
  {
    hide Step;
    if k == |lines| {
      assert lines[..k] == lines;
    } else {
      assert lines[..k + 1][..k] == lines[..k];
      RunStops(lines, k + 1);
    }
  }

  lemma RunNext(lines: seq<SourceLine>, k: nat)
    requires AllValid(lines) && k < |lines| && Run(lines[..k]).Ok?
    ensures Run(lines[..k + 1]) == Step(Run(lines[..k]).value, lines[k])
  {
    hide Step;
    assert lines[..k + 1][..k] == lines[..k];
  }

  lemma RunNothing()
    ensures Run([]) == Ok(INITIAL)
  {
  }

  lemma SelectRefuses(c: Layout.Context, name: CString)
    ensures !Supported(name) ==> Select(c, name) == Err(SectionError)
  {
  }

  /** How a step depends on the kind of line. */
  lemma StepContent(c: Layout.Context, line: SourceLine)
    requires c.current < |c.sections| && line.Valid()
    ensures line.content.Code? ==>
            Step(c, line) == Record(c.(starting := false), LabelOf(c, line), Instruct(line.content.statement))
    ensures line.content.DataOf? && RawData(line.content.data).Err? ==>
            Step(c, line) == Err(RawData(line.content.data).error)
    ensures line.content.DataOf? && RawData(line.content.data).Ok? ==>
              Step(c, line) == Record(c.(starting := false), LabelOf(c, line), Raw(RawData(line.content.data).value))
    ensures line.content.Procedure? ==> Step(c, line) == Ok(c.(procedure := Some(line.content.name), starting := true))
    ensures line.content.EndProcedure? ==> Step(c, line) == Ok(c.(procedure := None, starting := false))
    ensures !line.content.Code? && !line.content.DataOf? ==> Step(c, line) == Step(c, SourceLine(None, line.content))
  {
    hide Record, RawData, Select, Align, Locate, LabelOf;
  }

  lemma OpenProcedure(lines: seq<SourceLine>, k: nat)
    requires AllValid(lines) && k + 1 == |lines| && lines[k].content.Procedure? && Run(lines[..k]).Ok?
    ensures LaidOut(lines) == Err(InvalidDirective)
  {
    hide Step;
    RunNext(lines, k);
    assert lines[..k + 1] == lines;
    StepContent(Run(lines[..k]).value, lines[k]);
  }

  lemma LabelledStep(before: Labelling, line: Line)
    ensures Labeller()(before, line) == LabelStep(before, line)
  {
  }

  lemma EmitterStep(labels: LabelMap, output: seq<Byte>, line: Line)
    ensures Emitter(labels)(output, line) == EmitStep(output, line, labels)
  {
  }

  lemma EmittedNothing(labels: LabelMap, lines: seq<Line>)
    ensures Fold(Emitter(labels), [], lines[..0]) == Ok([])
  {
  }

  method ReadRegister(name: Option<CString>) returns (r: Result<Byte, Diagnostic>)
    ensures r == RegisterOf(name)
  {
    hide RegisterIndex;
    if name.None? {
      return Ok(0);
    }
    r := ParseRegister(name.value);
  }

  /** instruction_encode into a local buffer. */
  method EncodeInstruction(i: Instructions.Instruction) returns (r: Result<seq<Byte>, Diagnostic>)
    ensures r == if Instructions.Encodable(i) then Ok(Instructions.Encoded(i)) else Err(InternalError)
  {
    var encoded := new Byte[8](_ => 0);
    var ok := Instructions.Encode(encoded, i);
    if !ok {
      return Err(InternalError);
    }
    assert encoded[..8] == encoded[..];
    r := Ok(encoded[..]);
  }

  method EncodeStatement(s: Statement, first: Byte, second: Byte, operand: Word)
    returns (r: Result<seq<Byte>, Diagnostic>)
    requires s.opcode.Some?
    ensures var i :=
            Instructions.Instruction(s.opcode.value, if s.condition.Some? then s.condition.value else 0, first, second,
                                     operand);
            r == if Instructions.Encodable(i) then Ok(Instructions.Encoded(i)) else Err(InternalError)
  {
    r := EncodeInstruction(Instructions.Instruction(s.opcode.value, if s.condition.Some? then s.condition.value else 0,
                                                    first, second, operand));
  }

  /** realloc: a larger buffer with the used part copied. */
  method Grown(buffer: array<Byte>, used: nat, capacity: nat) returns (larger: array<Byte>)
    requires used <= buffer.Length <= capacity
    ensures fresh(larger) && larger.Length == capacity && larger[..used] == buffer[..used]
  {
    larger := new Byte[capacity](_ => 0);
    for i := 0 to used
      invariant larger[..i] == buffer[..i]
    {
      larger[i] := buffer[i];
    }
  }

  /** Grows the buffer by fixed amounts until `required` bytes fit; None when its size would overflow. */
  method WithRoom(buffer: array<Byte>, used: nat, required: nat) returns (r: Option<array<Byte>>)
    requires used <= required && used <= buffer.Length <= SIZE_RANGE - GROWTH && buffer.Length % 1024 == 0
    ensures r.None? <==> required > SIZE_RANGE - GROWTH
    ensures r.Some? ==>
              && (r.value == buffer || fresh(r.value)) && r.value.Length % 1024 == 0
                 && required <= r.value.Length <= SIZE_RANGE - GROWTH
              && r.value[..used] == buffer[..used]
  {
    if required <= buffer.Length {
      return Some(buffer);
    }
    var capacity := buffer.Length;
    while required > capacity
      invariant buffer.Length <= capacity <= SIZE_RANGE - GROWTH && capacity % 1024 == 0
    {
      if capacity > SIZE_RANGE - 1 - GROWTH {
        return None;
      }
      capacity := capacity + GROWTH;
    }
    var larger := Grown(buffer, used, capacity);
    r := Some(larger);
  }

  method AppendTo(buffer: array<Byte>, offset: nat, data: seq<Byte>)
    requires offset + |data| <= buffer.Length
    modifies buffer
    ensures buffer[..offset + |data|] == old(buffer[..offset]) + data
  {
    CopyInto(buffer, offset, data);
  }

  /** memcpy. */
  method CopyInto(buffer: array<Byte>, offset: nat, data: seq<Byte>)
    requires offset + |data| <= buffer.Length
    modifies buffer
    ensures buffer[..] == Splice(old(buffer[..]), offset, data)
  {
    for k := 0 to |data|
      invariant forall p :: 0 <= p < buffer.Length ==>
                  buffer[p] == if offset <= p < offset + k then data[p - offset] else old(buffer[p])
    {
      buffer[offset + k] := data[k];
    }
    assert buffer[..] == Splice(old(buffer[..]), offset, data);
  }

  class Context {
    var sections: seq<AsmSection>
    var currentSection: nat
    var lines: seq<Line>
    var globals: seq<CString>
    var externals: seq<CString>
    var entry: Option<CString>
    var labels: LabelTable

    /** asm_init. */
    constructor ()
      ensures Valid() && Abs(None, false) == INITIAL
      ensures fresh(labels) && fresh(labels.Repr()) && labels.Valid() && labels.Map() == map[]
    {
      sections, currentSection, lines, globals, externals, entry := [NewSection(TEXT_NAME)], 0, [], [], [], None;
      labels := new LabelTable();
    }

    predicate Valid()
      reads this
    {
      currentSection < |sections|
    }

    /** The object's fields with the pass's local variables. */
    function Abs(procedure: Option<CString>, starting: bool): Layout.Context
      reads this
    {
      Layout.Context(sections, currentSection, lines, globals, externals, entry, procedure, starting)
    }

    // ----- first pass -----

    /** select_section. */
    method SelectSection(name: CString, ghost c: Layout.Context)
      requires Valid() && Supported(name) && c == Abs(c.procedure, c.starting)
      modifies this`sections, this`currentSection
      ensures Valid() && Select(c, name) == Ok(Abs(c.procedure, c.starting))
    {
      hide Supported, KindOf;
      var index := 0;
      while index < |sections| && sections[index].name != name
        invariant index <= |sections| && SectionIndex(sections, name) == index + SectionIndex(sections[index..], name)
        modifies {}
      {
        assert sections[index..][1..] == sections[index + 1..];
        index := index + 1;
      }
      currentSection := index;
      if index == |sections| {
        sections := sections + [NewSection(name)];
      }
    }

    /** Replaces the current section and checks that it still fits ROM. */
    method UpdateSection(s: AsmSection) returns (error: Option<Diagnostic>)
      requires Valid()
      modifies this`sections
      ensures Valid() && error == (if FitsRom(s) then None else Some(SectionError))
      ensures sections == old(sections)[currentSection := s]
    {
      sections := sections[currentSection := s];
      error := if s.address > ROM_SIZE || s.size > ROM_SIZE - s.address then Some(SectionError) else None;
    }

    /** record_line. */
    method RecordLine(name: Option<CString>, e: Emission, ghost c: Layout.Context) returns (error: Option<Diagnostic>)
      requires Valid() && c == Abs(c.procedure, c.starting)
      modifies this`sections, this`lines
      ensures Valid()
      ensures Record(c, name, e) == if error.Some? then Err(error.value) else Ok(Abs(c.procedure, c.starting))
    {
      var section := sections[currentSection];
      var size := if e.Instruct? then Instructions.INSTRUCTION_SIZE else |e.bytes|;
      if size > SIZE_RANGE - 1 - section.size {
        return Some(OutputTooLarge);
      }
      error := UpdateSection(section.(size := section.size + size));
      if error.Some? {
        return;
      }
      lines := lines + [Line(name, e, currentSection, section.size)];
    }

    /** The .align directive. */
    method AlignSection(alignment: DWord, ghost c: Layout.Context) returns (error: Option<Diagnostic>)
      requires Valid() && c == Abs(c.procedure, c.starting)
      modifies this`sections
      ensures Valid()
      ensures Align(c, alignment) == if error.Some? then Err(error.value) else Ok(Abs(c.procedure, c.starting))
    {
      hide And;
      if alignment == 0 || alignment > WORD_MAX || And(alignment, alignment - 1) != 0 {
        return Some(SectionError);
      }
      var section := sections[currentSection];
      var remainder := And(section.size, alignment - 1);
      AndAtMost(section.size, alignment - 1);
      var size := section.size;
      if remainder != 0 {
        var padding := alignment - remainder;
        if padding > SIZE_RANGE - 1 - section.size {
          return Some(OutputTooLarge);
        }
        size := size + padding;
      } else if size >= SIZE_RANGE {
        return Some(OutputTooLarge);
      }
      var least := if section.alignment < alignment then alignment else section.alignment;
      error := UpdateSection(section.(size := size, alignment := least));
    }

    /** The .locate directive. */
    method LocateSection(address: DWord, ghost c: Layout.Context) returns (error: Option<Diagnostic>)
      requires Valid() && c == Abs(c.procedure, c.starting)
      modifies this`sections
      ensures Valid()
      ensures Locate(c, address) == if error.Some? then Err(error.value) else Ok(Abs(c.procedure, c.starting))
    {
      hide Or;
      var section := sections[currentSection];
      if address > WORD_MAX || address < section.address {
        return Some(SectionError);
      }
      if section.size == 0 {
        error := UpdateSection(section.(address := address, flags := Marked(section.flags)));
      } else if address - section.address < section.size {
        return Some(SectionError);
      } else {
        error := UpdateSection(section.(size := address - section.address));
      }
    }

    /** A directive that changes the section layout or the symbol lists; .proc is left to the caller. */
    method Direct(content: Content, ghost c: Layout.Context) returns (error: Option<Diagnostic>)
      requires Valid() && c == Abs(c.procedure, c.starting) && !content.Code? && !content.DataOf?
      requires !content.Procedure? && !content.EndProcedure?
      modifies this`sections, this`currentSection, this`globals, this`externals, this`entry
      ensures Valid()
      ensures Step(c, SourceLine(None, content)) == if error.Some? then Err(error.value)
              else Ok(Abs(c.procedure, false))
    {
      hide Select, Align, Locate, Supported;
      ghost var d := c.(starting := false);
      error := None;
      match content {
        case SectionOf(name) =>
          SelectRefuses(d, name);
          if !Supported(name) {
            return Some(SectionError);
          }
          SelectSection(name, d);
        case GlobalOf(name) => globals := globals + [name];
        case ExternOf(name) => externals := externals + [name];
        case AlignTo(alignment) => error := AlignSection(alignment, d);
        case EntryOf(name) => entry := Some(name);
        case LocateAt(address) => error := LocateSection(address, d);
        case MacroMark =>
      }
    }

    /** The switch of asm_processDirectives, without the label of the following line. */
    method ProcessContent(content: Content, name: Option<CString>, procedure: Option<CString>, ghost c: Layout.Context,
                          ghost line: SourceLine)
      returns (error: Option<Diagnostic>, next: Option<CString>)
      requires Valid() && c == Abs(procedure, c.starting) && line.Valid() && line.content == content
               && name == LabelOf(c, line)
      modifies this`sections, this`currentSection, this`lines, this`globals, this`externals, this`entry
      ensures Valid()
      ensures Step(c, line) == if error.Some? then Err(error.value) else Ok(Abs(next, content.Procedure?))
    {
      hide Step, LabelOf;
      error, next := None, procedure;
      StepContent(c, line);
      match content {
        case Code(statement) => error := RecordLine(name, Instruct(statement), c.(starting := false));
        case DataOf(data) => error := RecordData(name, data, c.(starting := false));
        case Procedure(procedureName) => next := Some(procedureName);
        case EndProcedure => next := None;
        case _ => error := Direct(content, c);
      }
    }

    /** asm_processDirectives: .proc clears the label of the line that follows in the stream. */
    method ProcessDirectives(stream: array<SourceLine>) returns (error: Option<Diagnostic>)
      requires Valid() && Abs(None, false) == INITIAL && AllValid(stream[..])
      modifies this`sections, this`currentSection, this`lines, this`globals, this`externals, this`entry, stream
      ensures Valid()
      ensures match LaidOut(old(stream[..]))
              case Ok(c) => error == None && c == Abs(c.procedure, false)
              case Err(e) => error == Some(e)
    {
      hide Step, Run, LabelOf, Qualified;
      ghost var source := stream[..];
      var procedure: Option<CString> := None;
      ghost var starting := false;
      RunNothing();
      for index := 0 to stream.Length
        invariant Valid() && AllValid(source[..index]) && Run(source[..index]) == Ok(Abs(procedure, starting))
        invariant starting ==> index < stream.Length
        invariant forall k :: index < k < stream.Length ==> stream[k] == source[k]
        invariant index < stream.Length ==>
                  stream[index] == if starting then source[index].(name := Some([])) else source[index]
      {
        var line := stream[index];
        ghost var before := Abs(procedure, starting);
        RunNext(source, index);
        var name := LabelFor(procedure, line.name, before, source[index]);
        if line.content.Procedure? {
          if index + 1 == stream.Length {
            OpenProcedure(source, index);
            return Some(InvalidDirective);
          }
          stream[index + 1] := stream[index + 1].(name := Some([]));
        }
        error, procedure := ProcessContent(line.content, name, procedure, before, source[index]);
        if error.Some? {
          RunStops(source, index + 1);
          return;
        }
        starting := line.content.Procedure?;
        assert source[..index + 1] == source[..index] + [source[index]];
      }
      assert source[..stream.Length] == source;
      error := None;
    }

    /** The label a line is recorded with. */
    method LabelFor(procedure: Option<CString>, given: Option<CString>, ghost c: Layout.Context, ghost line: SourceLine)
      returns (name: Option<CString>)
      requires c.procedure == procedure && given == if c.starting then Some([]) else line.name
      ensures name == LabelOf(c, line)
    {
      name := given;
      if procedure.Some? && name.Some? {
        name := Some(Qualified(procedure.value, name.value));
      }
    }

    method RecordData(name: Option<CString>, data: Data, ghost c: Layout.Context) returns (error: Option<Diagnostic>)
      requires Valid() && c == Abs(c.procedure, c.starting) && data.Valid()
      modifies this`sections, this`lines
      ensures Valid()
      ensures RawData(data).Err? ==> error == Some(RawData(data).error)
      ensures RawData(data).Ok? ==>
                Record(c, name, Raw(RawData(data).value)) == if error.Some? then Err(error.value)
                  else Ok(Abs(c.procedure, c.starting))
    {
      hide RawData, Record;
      var raw := GetRawData(data);
      if raw.Err? {
        return Some(raw.error);
      }
      error := RecordLine(name, Raw(raw.value), c);
    }

    // ----- labels -----

    /** Gives a line's label an address unless it already has one. */
    method LabelLine(name: CString, address: nat) returns (ok: bool)
      requires labels.Valid()
      modifies labels.Repr()
      ensures labels.Valid() && fresh(labels.Repr() - old(labels.Repr()))
      ensures ok == (name !in old(labels.Map()))
      ensures labels.Map() == if ok then old(labels.Map())[name := address] else old(labels.Map())
    {
      var known := labels.GetIfExist(name);
      ok := known.None?;
      if ok {
        labels.SetOrCreate(name, address);
      }
    }

    /** asm_processLabels. */
    method ProcessLabels() returns (error: Option<Diagnostic>)
      modifies this`labels
      ensures match Labels(lines)
              case Ok(l) => error == None && fresh(labels) && fresh(labels.Repr()) && labels.Valid()
                  && labels.Map() == l.labels
              case Err(e) => error == Some(e)
    {
      hide Labeller, Size, LabelTable.Valid, LabelTable.Map;
      var table := new LabelTable();
      labels := table;
      var address: nat := 0;
      ghost var start := Labelling(map[], 0);
      for index := 0 to |lines|
        invariant labels == table && fresh(table) && fresh(table.Repr()) && table.Valid()
        invariant Fold(Labeller(), start, lines[..index]) == Ok(Labelling(table.Map(), address))
      {
        FoldStep(Labeller(), start, lines, index);
        FoldPrefix(Labeller(), start, lines, index + 1);
        LabelledStep(Labelling(table.Map(), address), lines[index]);
        if lines[index].name.Some? {
          var ok := LabelLine(lines[index].name.value, address);
          if !ok {
            return Some(SectionError);
          }
        }
        address := address + Size(lines[index].emission);
      }
      assert lines[..|lines|] == lines;
      error := None;
    }

    // ----- raw translation -----

    method TranslateOperand(operand: Option<Operand>) returns (r: Result<Word, Diagnostic>)
      requires labels.Valid()
      ensures r == OperandWord(operand, labels.Map())
    {
      if operand.None? {
        return Ok(0);
      }
      match operand.value {
        case LabelUse(name) =>
          var address := labels.GetIfExist(name);
          if address.None? {
            return Err(UnknownLabel);
          }
          if address.value > WORD_MAX {
            return Err(ValueOutOfRange);
          }
          return Ok(address.value);
        case CharOperand(code) => return Ok(CharWord(code));
        case NumberOperand(value) =>
          if value > WORD_MAX {
            return Err(ValueOutOfRange);
          }
          return Ok(value);
      }
    }

    /** One line's bytes. */
    method TranslateEmission(e: Emission) returns (r: Result<seq<Byte>, Diagnostic>)
      requires labels.Valid()
      ensures r == BytesOf(e, labels.Map())
    {
      hide RegisterIndex, ArityOf, OperandWord, Instructions.Encoded;
      if e.Raw? {
        return Ok(e.bytes);
      }
      var s := e.statement;
      var refused := OperandError(s);
      if refused.Some? {
        return Err(refused.value);
      }
      var first := ReadRegister(s.register1);
      if first.Err? {
        return Err(first.error);
      }
      var second := ReadRegister(s.register2);
      if second.Err? {
        return Err(second.error);
      }
      var operand := TranslateOperand(s.operand);
      if operand.Err? {
        return Err(operand.error);
      }
      r := EncodeStatement(s, first.value, second.value, operand.value);
    }

    /** asm_translate: the buffer grows by fixed amounts until a line fits. */
    method TranslateRaw() returns (r: Result<seq<Byte>, Diagnostic>)
      requires labels.Valid()
      ensures r == Translate(lines, labels.Map())
    {
      hide BytesOf, Emitter, Fold, LabelTable.Valid, LabelTable.Map;
      ghost var known := labels.Map();
      var buffer := new Byte[GROWTH](_ => 0);
      var offset := 0;
      EmittedNothing(known, lines);
      assert buffer[..0] == [];
      for index := 0 to |lines|
        invariant fresh(buffer) && buffer.Length % 1024 == 0 && 0 <= offset <= buffer.Length <= SIZE_RANGE - GROWTH
        invariant Fold(Emitter(known), [], lines[..index]) == Ok(buffer[..offset])
      {
        FoldStep(Emitter(known), [], lines, index);
        FoldPrefix(Emitter(known), [], lines, index + 1);
        EmitterStep(known, buffer[..offset], lines[index]);
        var data := TranslateEmission(lines[index].emission);
        if data.Err? {
          return Err(data.error);
        }
        if |data.value| > SIZE_RANGE - 1 - offset {
          return Err(OutputTooLarge);
        }
        var larger := WithRoom(buffer, offset, offset + |data.value|);
        if larger.None? {
          return Err(OutputTooLarge);
        }
        buffer := larger.value;
        AppendTo(buffer, offset, data.value);
        offset := offset + |data.value|;
      }
      assert lines[..|lines|] == lines;
      r := Ok(buffer[..offset]);
    }

    // ----- object translation -----

    /** find_symbol_line. */
    method FindLocalLine(name: CString, section: nat) returns (r: Option<nat>)
      ensures r == var n := LocalLine(lines, name, section); if n < |lines| then Some(lines[n].offset) else None
    {
      for index := 0 to |lines|
        invariant LocalLine(lines, name, section) == index + LocalLine(lines[index..], name, section)
      {
        assert lines[index..][1..] == lines[index + 1..];
        if lines[index].section == section && lines[index].name == Some(name) {
          return Some(lines[index].offset);
        }
      }
      r := None;
    }

    /** The symbol table of the object: labels, then .global marks, then .extern names. */
    method CollectSymbols(ghost c: Layout.Context) returns (r: Result<seq<Symbol>, Diagnostic>)
      requires c == Abs(c.procedure, c.starting)
      ensures r == Symbols(c)
    {
      hide SymbolIndex;
      var symbols: seq<Symbol> := [];
      for index := 0 to |lines|
        invariant symbols == LabelSymbols(sections, lines[..index])
      {
        assert lines[..index + 1][..index] == lines[..index];
        if lines[index].name.Some? {
          var known := FindSymbol(symbols, lines[index].name.value);
          if known == |symbols| {
            symbols := symbols + [LabelSymbol(sections, lines[index])];
          }
        }
      }
      assert lines[..|lines|] == lines;
      ghost var locals := symbols;
      for index := 0 to |globals|
        invariant Fold(Globalizer(), locals, globals[..index]) == Ok(symbols)
      {
        FoldStep(Globalizer(), locals, globals, index);
        FoldPrefix(Globalizer(), locals, globals, index + 1);
        GlobalizerStep(symbols, globals[index]);
        var known := FindSymbol(symbols, globals[index]);
        if known == |symbols| {
          return Err(SectionError);
        }
        symbols := symbols[known := symbols[known].(binding := GLOBAL)];
      }
      assert globals[..|globals|] == globals;
      ghost var marked := symbols;
      for index := 0 to |externals|
        invariant symbols == WithExternals(marked, externals[..index])
      {
        assert externals[..index + 1][..index] == externals[..index];
        var known := FindSymbol(symbols, externals[index]);
        if known == |symbols| {
          symbols := symbols + [Symbol(Some(externals[index]), UNDEFINED_SECTION, 0, 0, GLOBAL, 0)];
        }
      }
      assert externals[..|externals|] == externals;
      r := Ok(symbols);
    }

    method ResolveOperand(symbols: seq<Symbol>, line: Line, operand: Option<Operand>, ghost c: Layout.Context)
      returns (r: Result<Resolved, Diagnostic>)
      requires c == Abs(c.procedure, c.starting)
      ensures r == OperandIn(c, symbols, line, operand)
    {
      hide SymbolIndex, LocalLine;
      if operand.None? {
        return Ok(Resolved(0, None));
      }
      match operand.value {
        case LabelUse(name) =>
          var local := FindLocalLine(name, line.section);
          var symbol := FindSymbol(symbols, name);
          if local.Some? {
            return Ok(Resolved(AsWord(local.value), None));
          }
          if symbol == |symbols| {
            return Err(UnknownLabel);
          }
          var site := AsWord(line.offset + 4);
          return Ok(Resolved(0, Some(Relocation(AsWord(line.section), site, ABSOLUTE32, AsWord(symbol), 0))));
        case CharOperand(code) => return Ok(Resolved(CharWord(code), None));
        case NumberOperand(value) =>
          if value > WORD_MAX {
            return Err(ValueOutOfRange);
          }
          return Ok(Resolved(value, None));
      }
    }

    method TranslateObjectLine(symbols: seq<Symbol>, line: Line, ghost c: Layout.Context)
      returns (r: Result<Translated, Diagnostic>)
      requires c == Abs(c.procedure, c.starting)
      ensures r == TranslateLine(c, symbols, line)
    {
      hide RegisterIndex, ArityOf, OperandIn, Instructions.Encoded;
      if line.emission.Raw? {
        return Ok(Translated(line.emission.bytes, None));
      }
      var s := line.emission.statement;
      var first := ReadRegister(s.register1);
      if first.Err? {
        return Err(first.error);
      }
      var second := ReadRegister(s.register2);
      if second.Err? {
        return Err(second.error);
      }
      var refused := OperandError(s);
      if refused.Some? {
        return Err(refused.value);
      }
      var operand := ResolveOperand(symbols, line, s.operand, c);
      if operand.Err? {
        return Err(operand.error);
      }
      var encoded := EncodeStatement(s, first.value, second.value, operand.value.word);
      if encoded.Err? {
        return Err(encoded.error);
      }
      r := Ok(Translated(encoded.value, operand.value.relocation));
    }

    /** One line of the loop that fills the sections: nothing may be emitted in bss. */
    method EmitObjectLine(buffers: seq<array<Byte>>, symbols: seq<Symbol>, line: Line, ghost c: Layout.Context)
      returns (r: Result<Option<Relocation>, Diagnostic>)
      requires c == Abs(c.procedure, c.starting) && Linker.Distinct(buffers) && |buffers| == |sections|
      requires LineFits(sections, line) && forall s :: 0 <= s < |buffers| ==> buffers[s].Length == sections[s].size
      modifies set s | 0 <= s < |buffers| :: buffers[s]
      ensures var before := Emitted(old(Linker.Views(buffers)), []);
              match EmitLine(c, symbols, before, line)
              case Err(e) => r == Err(e)
              case Ok(after) =>
                Linker.Views(buffers) == after.datas && r.Ok?
                  && after.relocations == if r.value.Some? then [r.value.value] else []
    {
      hide TranslateLine, Splice;
      if sections[line.section].kind == BSS {
        return Err(SectionError);
      }
      TranslationHasSize(c, symbols, line);
      var t := TranslateObjectLine(symbols, line, c);
      if t.Err? {
        return Err(t.error);
      }
      WriteInto(buffers, line.section, line.offset, t.value.bytes);
      r := Ok(t.value.relocation);
    }

    /** asm_translate_object. */
    method TranslateObject(ghost c: Layout.Context) returns (r: Result<array<Byte>, Diagnostic>)
      requires Valid() && c == Abs(c.procedure, c.starting) && WellLaid(c) && |c.sections| <= 6
      requires ObjectImage(c).Ok? ==> InMemory(ObjectImage(c).value)
      ensures match ObjectImage(c)
              case Err(e) => r == Err(e)
              case Ok(image) =>
                match Encode(image)
                case Err(_) => r == Err(SectionError)
                case Ok(bytes) => r.Ok? && fresh(r.value) && r.value[..] == bytes
    {
      hide Symbols, EmitLine, Encode, InMemory, WellLaid, SectionImage;
      var symbols := CollectSymbols(c);
      if symbols.Err? {
        return Err(symbols.error);
      }
      var emitted := EmitObject(symbols.value, c);
      if emitted.Err? {
        return Err(emitted.error);
      }
      DataCount(c, symbols.value, lines);
      var images: seq<Section> := [];
      for index := 0 to |sections|
        invariant |images| == index
        invariant forall s :: 0 <= s < index ==> images[s] == SectionImage(sections[s], emitted.value.datas[s])
      {
        images := images + [SectionImage(sections[index], emitted.value.datas[index])];
      }
      assert images == SectionImages(sections, emitted.value.datas);
      var image := Image(OBJECT, 0, entry, images, symbols.value, emitted.value.relocations);
      assert ObjectImage(c) == Ok(image);
      ObjectIsReadable(c);
      var encoded := EncodeImage(image);
      if encoded.Err? {
        return Err(SectionError);
      }
      r := Ok(encoded.value);
    }

    /** The loop over the lines, filling one zeroed buffer per section. */
    method EmitObject(symbols: seq<Symbol>, ghost c: Layout.Context) returns (r: Result<Emitted, Diagnostic>)
      requires Valid() && c == Abs(c.procedure, c.starting) && WellLaid(c)
      ensures r == EmitLines(c, symbols, lines)
    {
      hide EmitLine, LineFits, SectionFine;
      var buffers := ZeroedBuffers(sections);
      var relocations: seq<Relocation> := [];
      ghost var step, start := LineEmitter(c, symbols), Emitted(Blank(sections), []);
      assert lines[..0] == [];
      for index := 0 to |lines|
        invariant |buffers| == |sections| && Linker.Distinct(buffers) && forall s :: 0 <= s < |buffers| ==>
                    fresh(buffers[s])
        invariant forall s :: 0 <= s < |buffers| ==> buffers[s].Length == sections[s].size
        invariant Fold(step, start, lines[..index]) == Ok(Emitted(Linker.Views(buffers), relocations))
      {
        FoldStep(step, start, lines, index);
        FoldPrefix(step, start, lines, index + 1);
        EmitWithout(c, symbols, Linker.Views(buffers), relocations, lines[index]);
        assert LineFits(c.sections, lines[index]);
        var relocation := EmitObjectLine(buffers, symbols, lines[index], c);
        if relocation.Err? {
          return Err(relocation.error);
        }
        assert relocations + [] == relocations;
        if relocation.value.Some? {
          relocations := relocations + [relocation.value.value];
        }
      }
      assert lines[..|lines|] == lines;
      var datas := Snapshot(buffers);
      r := Ok(Emitted(datas, relocations));
    }
  }

  // ----- helpers of the object translation -----

  /** find_image_symbol. */
  method FindSymbol(symbols: seq<Symbol>, name: CString) returns (n: nat)
    ensures n == SymbolIndex(symbols, name)
  {
    for index := 0 to |symbols|
      invariant SymbolIndex(symbols, name) == index + SymbolIndex(symbols[index..], name)
    {
      assert symbols[index..][1..] == symbols[index + 1..];
      if symbols[index].name == Some(name) {
        return index;
      }
    }
    n := |symbols|;
  }

  lemma GlobalizerStep(symbols: seq<Symbol>, name: CString)
    ensures Globalizer()(symbols, name) == Globalize(symbols, name)
  {
  }

  method ZeroedBuffers(sections: seq<AsmSection>) returns (buffers: seq<array<Byte>>)
    ensures |buffers| == |sections| && Linker.Distinct(buffers) && forall s :: 0 <= s < |buffers| ==> fresh(buffers[s])
    ensures Linker.Views(buffers) == Blank(sections)
  {
    buffers := [];
    for index := 0 to |sections|
      invariant |buffers| == index && Linker.Distinct(buffers) && forall s :: 0 <= s < index ==> fresh(buffers[s])
      invariant forall s :: 0 <= s < index ==> buffers[s][..] == Zeros(sections[s].size)
    {
      var buffer := new Byte[sections[index].size](_ => 0);
      assert buffer[..] == Zeros(sections[index].size);
      buffers := buffers + [buffer];
    }
  }

  method WriteInto(buffers: seq<array<Byte>>, d: nat, offset: nat, data: seq<Byte>)
    requires d < |buffers| && Linker.Distinct(buffers) && offset + |data| <= buffers[d].Length
    modifies buffers[d]
    ensures Linker.Views(buffers) == old(Linker.Views(buffers))[d := Splice(old(buffers[d][..]), offset, data)]
  {
    hide Splice;
    CopyInto(buffers[d], offset, data);
    assert forall s :: 0 <= s < |buffers| && s != d ==> buffers[s] != buffers[d];
  }

  method Snapshot(buffers: seq<array<Byte>>) returns (datas: seq<seq<Byte>>)
    ensures datas == Linker.Views(buffers)
  {
    datas := [];
    for index := 0 to |buffers|
      invariant |datas| == index && forall s :: 0 <= s < index ==> datas[s] == buffers[s][..]
    {
      datas := datas + [buffers[index][..]];
    }
  }

  /** Relocations already collected do not influence a line. */
  lemma EmitWithout(c: Layout.Context, symbols: seq<Symbol>, datas: seq<seq<Byte>>, relocations: seq<Relocation>,
                    line: Line)
    ensures LineEmitter(c, symbols)(Emitted(datas, relocations), line) ==
            match EmitLine(c, symbols, Emitted(datas, []), line)
            case Err(e) => Err(e)
            case Ok(after) => Ok(Emitted(after.datas, relocations + after.relocations))
  {
    hide TranslateLine, Splice;
    var t := TranslateLine(c, symbols, line);
    var more := if t.Ok? && t.value.relocation.Some? then [t.value.relocation.value] else [];
    assert [] + more == more;
  }

  lemma ObjectIsReadable(c: Layout.Context)
    requires WellLaid(c) && ObjectImage(c).Ok? && |c.sections| <= 6
    ensures Readable(ObjectImage(c).value)
  {
    hide TranslateLine, SectionFine, Symbols, EmitLines, GapsZero, AllThere;
    LaidOutSmall(c);
    ContentsHold(c, Symbols(c).value, c.lines);
  }

  // ----- whole runs -----

  /** zlasm_assemble on parsed lines: directives, labels, then the raw translation. */
  method Assemble(source: array<SourceLine>) returns (r: Result<seq<Byte>, Diagnostic>)
    requires AllValid(source[..])
    modifies source
    ensures r == AssembleRaw(old(source[..]))
  {
    hide LaidOut, Labels, Translate, LabelTable.Valid;
    var context := new Context();
    var failed := context.ProcessDirectives(source);
    if failed.Some? {
      return Err(failed.value);
    }
    failed := context.ProcessLabels();
    if failed.Some? {
      return Err(failed.value);
    }
    r := context.TranslateRaw();
  }

  /** What the host guarantees: the object that would be encoded fits its memory. */
  predicate FitsHost(lines: seq<SourceLine>) {
    AllValid(lines) && LaidOut(lines).Ok? && ObjectImage(LaidOut(lines).value).Ok? ==>
      InMemory(ObjectImage(LaidOut(lines).value).value)
  }

  /** zlasm_assemble_object on parsed lines. */
  method AssembleToObject(source: array<SourceLine>) returns (r: Result<array<Byte>, Diagnostic>)
    requires AllValid(source[..]) && FitsHost(source[..])
    modifies source
    ensures r.Ok? ==> fresh(r.value) && AssembleObject(old(source[..])) == Ok(r.value[..])
    ensures r.Err? ==> AssembleObject(old(source[..])) == Err(r.error)
  {
    hide Run, Labels, ObjectImage, Encode, InMemory, LabelTable.Valid, WellLaid;
    var context := new Context();
    ghost var lines := source[..];
    var failed := context.ProcessDirectives(source);
    if failed.Some? {
      return Err(failed.value);
    }
    ghost var c := LaidOut(lines).value;
    RunWellLaid(lines);
    OutputIsBounded(lines);
    failed := context.ProcessLabels();
    if failed.Some? {
      return Err(failed.value);
    }
    r := context.TranslateObject(c);
  }
}
