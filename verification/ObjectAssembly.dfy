/**
  Object mode: recorded lines become section contents, labels become symbols, and
  a use of a label that its own section does not define becomes a relocation.
 */
module ObjectAssembly {
  import opened Wrappers
  import opened Bytes
  import opened Diagnostics
  import opened ImageFormat
  import opened Layout
  import opened LayoutProofs
  import opened Statements
  import opened RawAssembly
  import Instructions

  const OBJECT_SYMBOL: Byte := 1

  /** A cast to uint32_t. */
  function AsWord(n: nat): Word {
    n % WORD_RANGE
  }

  // ----- symbols -----

  function SymbolIndex(symbols: seq<Symbol>, name: CString): (n: nat)
    ensures n <= |symbols|
    ensures n < |symbols| ==> symbols[n].name == Some(name)
    ensures forall k :: 0 <= k < n ==> symbols[k].name != Some(name)
  {
    if symbols == [] || symbols[0].name == Some(name) then 0 else 1 + SymbolIndex(symbols[1..], name)
  }

  function LabelSymbol(sections: seq<AsmSection>, line: Line): Symbol {
    var inText := line.section < |sections| && sections[line.section].kind == TEXT;
    Symbol(line.name, AsWord(line.section), AsWord(line.offset), 0, LOCAL, if inText then FUNCTION else OBJECT_SYMBOL)
  }

  /** One local symbol per label, in line order. */
  function LabelSymbols(sections: seq<AsmSection>, lines: seq<Line>): seq<Symbol> {
    if lines == [] then []
    else
      var front, last := LabelSymbols(sections, lines[..|lines| - 1]), lines[|lines| - 1];
      if last.name.None? || SymbolIndex(front, last.name.value) < |front| then front
      else front + [LabelSymbol(sections, last)]
  }

  function Globalize(symbols: seq<Symbol>, name: CString): Result<seq<Symbol>, Diagnostic> {
    var index := SymbolIndex(symbols, name);
    if index == |symbols| then Err(SectionError) else Ok(symbols[index := symbols[index].(binding := GLOBAL)])
  }

  function Globalizer(): (seq<Symbol>, CString) -> Result<seq<Symbol>, Diagnostic> {
    (symbols: seq<Symbol>, name: CString) => Globalize(symbols, name)
  }

  function WithExternals(symbols: seq<Symbol>, names: seq<CString>): seq<Symbol> {
    if names == [] then symbols
    else
      var front, last := WithExternals(symbols, names[..|names| - 1]), names[|names| - 1];
      if SymbolIndex(front, last) < |front| then front
      else front + [Symbol(Some(last), UNDEFINED_SECTION, 0, 0, GLOBAL, 0)]
  }

  function Symbols(c: Context): Result<seq<Symbol>, Diagnostic> {
    var marked := Fold(Globalizer(), LabelSymbols(c.sections, c.lines), c.globals);
    if marked.Err? then marked else Ok(WithExternals(marked.value, c.externals))
  }

  // ----- lines -----

  /** find_symbol_line: the first line with this label in this section. */
  function LocalLine(lines: seq<Line>, name: CString, section: nat): (n: nat)
    ensures n <= |lines|
    ensures n < |lines| ==> lines[n].name == Some(name) && lines[n].section == section
    ensures forall k :: 0 <= k < n ==> !(lines[k].name == Some(name) && lines[k].section == section)
  {
    if lines == [] || (lines[0].section == section && lines[0].name == Some(name)) then 0
    else 1 + LocalLine(lines[1..], name, section)
  }

  datatype Resolved = Resolved(word: Word, relocation: Option<Relocation>)

  function OperandIn(c: Context, symbols: seq<Symbol>, line: Line, operand: Option<Operand>)
    : Result<Resolved, Diagnostic>
  {
    if operand.None? then Ok(Resolved(0, None))
    else
      match operand.value
      case LabelUse(name) =>
        var local, index := LocalLine(c.lines, name, line.section), SymbolIndex(symbols, name);
        if local < |c.lines| then Ok(Resolved(AsWord(c.lines[local].offset), None))
        else if index == |symbols| then Err(UnknownLabel)
        else
          var site := AsWord(line.offset + 4);
          Ok(Resolved(0, Some(Relocation(AsWord(line.section), site, ABSOLUTE32, AsWord(index), 0))))
      case CharOperand(code) => Ok(Resolved(CharWord(code), None))
      case NumberOperand(value) => if value > WORD_MAX then Err(ValueOutOfRange) else Ok(Resolved(value, None))
  }

  datatype Translated = Translated(bytes: seq<Byte>, relocation: Option<Relocation>)

  function TranslateStatement(c: Context, symbols: seq<Symbol>, line: Line, s: Statement)
    : Result<Translated, Diagnostic>
  {
    var first, second, refused, operand := RegisterOf(s.register1), RegisterOf(s.register2), OperandError(s),
        OperandIn(c, symbols, line, s.operand);
    if first.Err? then Err(first.error)
    else if second.Err? then Err(second.error)
    else if refused.Some? then Err(refused.value)
    else if operand.Err? then Err(operand.error)
    else
      var i := Instructions.Instruction(s.opcode.value, if s.condition.Some? then s.condition.value else 0,
                                        first.value, second.value, operand.value.word);
      if !Instructions.Encodable(i) then Err(InternalError)
      else Ok(Translated(Instructions.Encoded(i), operand.value.relocation))
  }

  function TranslateLine(c: Context, symbols: seq<Symbol>, line: Line): Result<Translated, Diagnostic> {
    if line.emission.Raw? then Ok(Translated(line.emission.bytes, None))
    else TranslateStatement(c, symbols, line, line.emission.statement)
  }

  datatype Emitted = Emitted(datas: seq<seq<Byte>>, relocations: seq<Relocation>)

  /** Lines of a layout lie inside their sections, so the internal errors do not arise for them. */
  function EmitLine(c: Context, symbols: seq<Symbol>, before: Emitted, line: Line): Result<Emitted, Diagnostic> {
    if line.section >= |c.sections| || line.section >= |before.datas| then Err(InternalError)
    else if c.sections[line.section].kind == BSS then Err(SectionError)
    else
      var t := TranslateLine(c, symbols, line);
      if t.Err? then Err(t.error)
      else if line.offset + |t.value.bytes| > |before.datas[line.section]| then Err(InternalError)
      else
        Ok(Emitted(before.datas[line.section := Splice(before.datas[line.section], line.offset, t.value.bytes)],
                   before.relocations + if t.value.relocation.Some? then [t.value.relocation.value] else []))
  }

  function LineEmitter(c: Context, symbols: seq<Symbol>): (Emitted, Line) -> Result<Emitted, Diagnostic> {
    (before: Emitted, line: Line) => EmitLine(c, symbols, before, line)
  }

  function Blank(sections: seq<AsmSection>): (datas: seq<seq<Byte>>)
    ensures |datas| == |sections|
    ensures forall s :: 0 <= s < |datas| ==> datas[s] == Zeros(sections[s].size)
  {
    seq(|sections|, s requires 0 <= s < |sections| => Zeros(sections[s].size))
  }

  function EmitLines(c: Context, symbols: seq<Symbol>, lines: seq<Line>): Result<Emitted, Diagnostic> {
    Fold(LineEmitter(c, symbols), Emitted(Blank(c.sections), []), lines)
  }

  // ----- the object -----

  function SectionImage(s: AsmSection, data: seq<Byte>): Section {
    Section(Some(s.name), s.kind, s.flags, s.alignment, s.address, if s.kind == BSS then None else Some(data), s.size)
  }

  function SectionImages(sections: seq<AsmSection>, datas: seq<seq<Byte>>): (images: seq<Section>)
    requires |datas| == |sections|
    ensures |images| == |sections|
    ensures forall s :: 0 <= s < |images| ==> images[s] == SectionImage(sections[s], datas[s])
  {
    seq(|sections|, s requires 0 <= s < |sections| => SectionImage(sections[s], datas[s]))
  }

  function ObjectImage(c: Context): Result<Image, Diagnostic> {
    var symbols := Symbols(c);
    if symbols.Err? then Err(symbols.error)
    else
      var emitted := EmitLines(c, symbols.value, c.lines);
      if emitted.Err? then Err(emitted.error)
      else
        DataCount(c, symbols.value, c.lines);
        Ok(Image(OBJECT, 0, c.entry, SectionImages(c.sections, emitted.value.datas), symbols.value,
                 emitted.value.relocations))
  }

  lemma {:induction false} DataCount(c: Context, symbols: seq<Symbol>, lines: seq<Line>)
    ensures EmitLines(c, symbols, lines).Ok? ==> |EmitLines(c, symbols, lines).value.datas| == |c.sections|
  {
    hide TranslateLine;
    if lines != [] { DataCount(c, symbols, lines[..|lines| - 1]); }
  }

  /** Assembling source lines to an encoded object. */
  function AssembleObject(lines: seq<SourceLine>): Result<seq<Byte>, Diagnostic>
    requires AllValid(lines)
  {
    var laid := LaidOut(lines);
    if laid.Err? then Err(laid.error)
    else
      var labelled := Labels(laid.value.lines);
      if labelled.Err? then Err(labelled.error)
      else
        var image := ObjectImage(laid.value);
        if image.Err? then Err(image.error)
        else
          var encoded := Encode(image.value);
          if encoded.Err? then Err(SectionError) else Ok(encoded.value)
  }
}
