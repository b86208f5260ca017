/**
  A program whose label operand is wrong after linking: `start: jmp #start` is placed at
  address 8, but its operand is 0, so it leaves itself after one instruction.
 */
module SelfJump {
  import opened Wrappers
  import opened Bits
  import opened Bytes
  import opened ImageFormat
  import opened ImageRoundTrip
  import opened Linking
  import opened LinkProofs
  import opened Loading
  import opened Layout
  import opened RawAssembly
  import opened ObjectAssembly
  import opened Statements
  import Instructions
  import Machine

  const JUMP := Statement(Some(20), None, None, None, Some(LabelUse(START)))
  const SOURCE: seq<SourceLine> := [SourceLine(Some(START), Code(JUMP))]

  const LAYOUT :=
    Context([AsmSection(TEXT_NAME, TEXT, 0, 0, 1, 8)], 0, [Line(Some(START), Instruct(JUMP), 0, 0)],
            [], [], None, None, false)
  const BYTES: seq<Byte> := [20, 0, 0, 0, 0, 0, 0, 0]
  const SYMBOL := Symbol(Some(START), 0, 0, 0, LOCAL, FUNCTION)
  const UNIT := Image(OBJECT, 0, None, [Section(Some(TEXT_NAME), TEXT, 0, 1, 0, Some(BYTES), 8)], [SYMBOL], [])

  // ----- assembling -----

  lemma TextIsText()
    ensures KindOf(TEXT_NAME) == TEXT
  {
    assert TEXT_NAME[0] == 116 && BSS_NAME[0] == 98 && ([DOT] + BSS_NAME)[0] == DOT && DATA_NAME[0] == 100
        && ([DOT] + DATA_NAME)[0] == DOT;
  }

  lemma IsLaidOut()
    ensures LaidOut(SOURCE) == Ok(LAYOUT)
  {
    hide Supported, KindOf;
    TextIsText();
    var line := SOURCE[0];
    assert SOURCE[..0] == [];
    assert Run([]) == Ok(INITIAL);
    assert LabelOf(INITIAL, line) == Some(START);
    assert Step(INITIAL, line) == Record(INITIAL, Some(START), Instruct(JUMP));
    assert INITIAL.sections[0 := LAYOUT.sections[0]] == LAYOUT.sections;
    assert INITIAL.lines + LAYOUT.lines == LAYOUT.lines;
    assert Run(SOURCE) == Ok(LAYOUT);
  }

  lemma IsLabelled()
    ensures Labels(LAYOUT.lines).Ok?
  {
    LabelsHold(LAYOUT.lines);
  }

  lemma HasSymbol()
    ensures Symbols(LAYOUT) == Ok([SYMBOL])
  {
    assert LAYOUT.lines[..0] == [];
    assert LabelSymbols(LAYOUT.sections, []) == [];
    assert LabelSymbols(LAYOUT.sections, LAYOUT.lines) == [SYMBOL];
  }

  lemma ZeroWord()
    ensures LE(0, 4) == [0, 0, 0, 0]
  {
    assert LE(0, 2) == [0, 0];
    assert LE(0, 3) == [0, 0, 0];
  }

  lemma IsTranslated()
    ensures TranslateLine(LAYOUT, [SYMBOL], LAYOUT.lines[0]) == Ok(Translated(BYTES, None))
  {
    var line, i := LAYOUT.lines[0], Instructions.Instruction(20, 0, 0, 0, 0);
    assert LocalLine(LAYOUT.lines, START, 0) == 0;
    assert OperandIn(LAYOUT, [SYMBOL], line, JUMP.operand) == Ok(Resolved(0, None));
    assert OperandError(JUMP) == None;
    ZeroWord();
    assert Instructions.Encoded(i) == BYTES;
  }

  lemma IsEmitted()
    ensures EmitLines(LAYOUT, [SYMBOL], LAYOUT.lines) == Ok(Emitted([BYTES], []))
  {
    hide TranslateLine;
    IsTranslated();
    var start, line := Emitted(Blank(LAYOUT.sections), []), LAYOUT.lines[0];
    FoldStep(LineEmitter(LAYOUT, [SYMBOL]), start, LAYOUT.lines, 0);
    assert LAYOUT.lines[..1] == LAYOUT.lines && LAYOUT.lines[..0] == [];
    assert Splice(Zeros(8), 0, BYTES) == BYTES;
    assert start.datas[0] == Zeros(8) && start.datas[0 := BYTES] == [BYTES];
    assert start.relocations + [] == [];
    assert EmitLine(LAYOUT, [SYMBOL], start, line) == Ok(Emitted([BYTES], []));
  }

  // ----- encoding -----

  lemma UnitEncodes()
    ensures Structural(UNIT) && Readable(UNIT) && Normal(UNIT) == UNIT && TotalSize(UNIT) == 120
  {
    TextNames(UNIT, [TEXT_NAME, START]);
    UnitIsStructural();
    assert PayloadRows(UNIT) == [BYTES];
    OneRow(BYTES);
  }

  lemma UnitIsStructural()
    ensures Structural(UNIT)
  {
    assert And(1, 0) == 0;
  }

  lemma OneRow<T>(row: seq<T>)
    ensures Flatten([row]) == row
  {
    assert [row][..0] == [];
  }

  lemma TwoRows<T>(a: seq<T>, b: seq<T>)
    ensures Flatten([a, b]) == a + b
  {
    OneRow(a);
    assert [a, b][..1] == [a];
  }

  lemma TextNames(image: Image, names: seq<CString>)
    requires names == Names(image) && (names == [TEXT_NAME] || names == [TEXT_NAME, START])
    ensures |StringTable(image)| == if |names| == 1 then 6 else 12
  {
    if |names| == 1 {
      assert NameRows(names) == [Terminated(TEXT_NAME)];
      OneRow(Terminated(TEXT_NAME));
    } else {
      assert NameRows(names) == [Terminated(TEXT_NAME), Terminated(START)];
      TwoRows(Terminated(TEXT_NAME), Terminated(START));
    }
  }

  lemma IsAssembled() returns (unit: seq<Byte>)
    ensures AssembleObject(SOURCE) == Ok(unit) && Decode(unit) == Ok(UNIT)
  {
    hide LaidOut, Labels, Symbols, EmitLines, Encode, Decode, Structural, Readable, Normal, TotalSize;
    IsLaidOut();
    IsLabelled();
    HasSymbol();
    IsEmitted();
    assert SectionImages(LAYOUT.sections, [BYTES]) == UNIT.sections;
    UnitEncodes();
    RefusedForSize(UNIT);
    DecodeEncode(UNIT);
    unit := Encode(UNIT).value;
  }

  // ----- linking -----

  const PLACED := [LinkSection(UNIT.sections[0].(address := 8), 0, 0)]
  const MERGED := [SYMBOL.(value := 8)]
  const PROGRAM := Image(EXECUTABLE, 8, None, [UNIT.sections[0].(address := 8)], [], [])

  lemma FoldOne<S, X, E>(step: (S, X) -> Result<S, E>, start: S, x: X)
    ensures Fold(step, start, [x]) == step(start, x)
  {
    assert [x][..0] == [];
  }

  lemma IsPlaced()
    ensures Place([UNIT]) == Ok(PLACED)
  {
    hide AlignAddress;
    var input := LinkSection(UNIT.sections[0], 0, 0);
    assert ObjectInputs(UNIT, 0) == [input] && InputRows([UNIT]) == [[input]];
    OneRow([input]);
    AlignLeast(8, 1);
    assert 8 % 1 == 0 && And(0, 1) == 0 && And(1, 0) == 0;
    assert AlignAddress(8, 1) == Some(8);
    FoldOne(Placer(), [], input);
    assert !Overlaps([], 8, 8);
    assert [] + PLACED == PLACED;
    assert PlaceAt([], input, 8) == Ok(PLACED);
    assert PlaceStep([], input) == Ok(PLACED);
  }

  lemma StartMoves()
    ensures Moved(PLACED, Tagged(0, SYMBOL)) == Some(MERGED[0])
  {
    hide FindSection;
    assert PLACED[0].owner == 0 && PLACED[0].source == 0;
    assert FindSection(PLACED, 0, 0) == Some(0);
  }

  lemma IsMerged()
    ensures Merge([UNIT], PLACED) == Ok(MERGED)
  {
    hide Moved;
    var input := Tagged(0, SYMBOL);
    assert SymbolRow(UNIT, 0) == [input] && SymbolInputs([UNIT]) == [[input]];
    OneRow([input]);
    StartMoves();
    FoldOne(Merger(PLACED), [], input);
    assert [] + MERGED == MERGED;
    assert MergeStep(PLACED, [], input) == Ok(MERGED);
  }

  lemma IsRelocated()
    ensures Relocate([UNIT], PLACED, MERGED) == Ok([BYTES])
  {
    assert RelocationInputs([UNIT]) == [[]];
    OneRow<Tagged<Relocation>>([]);
    assert Contents(PLACED) == [BYTES];
  }

  lemma ProgramEncodes()
    ensures Structural(PROGRAM) && Readable(PROGRAM) && Normal(PROGRAM) == PROGRAM && TotalSize(PROGRAM) == 94
  {
    TextNames(PROGRAM, [TEXT_NAME]);
    ProgramIsStructural();
    assert PayloadRows(PROGRAM) == [BYTES];
    OneRow(BYTES);
  }

  lemma ProgramIsStructural()
    ensures Structural(PROGRAM)
  {
    assert And(1, 0) == 0;
    assert InText(PROGRAM.sections[0], 8);
  }

  lemma IsDecoded(unit: seq<Byte>)
    requires Decode(unit) == Ok(UNIT)
    ensures DecodeAll([unit]) == Ok([UNIT])
  {
    hide Decode;
    var units := [unit];
    assert units[..|units| - 1] == [];
    assert DecodeAll([]) == Ok([]);
    assert [] + [UNIT] == [UNIT];
    assert DecodeStep([], unit) == Ok([UNIT]);
  }

  lemma IsFinished() returns (program: seq<Byte>)
    ensures Finish(PLACED, [BYTES], 8) == Ok(program) && Decode(program) == Ok(PROGRAM)
  {
    hide Encode, Decode, Structural, Readable, Normal, TotalSize;
    assert Executable(PLACED, [BYTES], 8).sections == PROGRAM.sections;
    ProgramEncodes();
    RefusedForSize(PROGRAM);
    DecodeEncode(PROGRAM);
    program := Encode(PROGRAM).value;
  }

  lemma IsLinked(unit: seq<Byte>) returns (program: seq<Byte>)
    requires Decode(unit) == Ok(UNIT)
    ensures Link([unit], None) == Ok(program) && Decode(program) == Ok(PROGRAM)
  {
    hide DecodeAll, Decode, Place, Merge, Relocate, Finish;
    IsDecoded(unit);
    IsPlaced();
    IsMerged();
    IsRelocated();
    assert [UNIT][1..] == [] && FirstEntry([UNIT]) == None;
    assert EntryAddress(MERGED, START) == 8;
    program := IsFinished();
  }

  // ----- running -----

  lemma IsLoaded(rom: seq<Byte>, program: seq<Byte>)
    requires |rom| == ROM_SIZE && Decode(program) == Ok(PROGRAM)
    ensures Load(rom, program) == Ok((Splice(rom, 8, BYTES), 8))
  {
    hide Decode;
    assert PROGRAM.sections[..0] == [];
    assert Copied(rom, []) == rom;
  }

  lemma ZeroRead()
    ensures Instructions.Decoded(BYTES) == Instructions.Instruction(20, 0, 0, 0, 0)
  {
    ZeroWord();
    assert Instructions.Encoded(Instructions.Instruction(20, 0, 0, 0, 0)) == BYTES;
    Instructions.DecodedEncoded(Instructions.Instruction(20, 0, 0, 0, 0));
  }

  lemma JumpFetched(m: Machine.State)
    requires m.Valid() && m.rom[8..16] == BYTES && m.Register(Instructions.R_PC) == 8
    ensures Machine.Fetch(m).instruction == Some(Instructions.Instruction(20, 0, 0, 0, 0))
    ensures Machine.Fetch(m).state == m.WithRegister(Instructions.R_PC, 16)
  {
    hide Instructions.Decoded;
    ZeroRead();
    Machine.FetchedInOrder(m, 8);
    assert m.Memory()[8..16] == m.rom[8..16];
  }

  lemma JumpTaken(m: Machine.State)
    requires m.Valid() && m.status.Normal?
             && Machine.Fetch(m).instruction == Some(Instructions.Instruction(20, 0, 0, 0, 0))
    requires Machine.Fetch(m).state == m.WithRegister(Instructions.R_PC, 16)
    ensures Machine.Step(m).Register(Instructions.R_PC) == 0
  {
    hide Machine.Fetch;
  }

  /**
    `start: jmp #start` assembles, links and loads, and start is at 8. But the operand is
    fetched as 0, and after that one instruction the machine is at 0 and not at start.
   */
  lemma OwnLabelMissed(m: Machine.State) returns (unit: seq<Byte>, program: seq<Byte>)
    requires m.Valid() && m.status.Normal?
    ensures AssembleObject(SOURCE) == Ok(unit) && Link([unit], None) == Ok(program)
    ensures Load(m.rom, program).Ok? && Load(m.rom, program).value.1 == 8
    ensures var loaded := Load(m.rom, program).value;
            var started := Machine.Started(m.(rom := loaded.0, entry := loaded.1));
            && started.Register(Instructions.R_PC) == 8
            && Machine.Fetch(started).instruction == Some(Instructions.Instruction(20, 0, 0, 0, 0))
            && Machine.Step(started).Register(Instructions.R_PC) == 0
  {
    hide AssembleObject, Link, Load, Decode, Machine.Fetch, Machine.Step;
    unit := IsAssembled();
    program := IsLinked(unit);
    IsLoaded(m.rom, program);
    var started := Machine.Started(m.(rom := Splice(m.rom, 8, BYTES), entry := 8));
    assert started.rom[8..16] == BYTES;
    JumpFetched(started);
    JumpTaken(started);
  }
}
