/**
  Whole programs, from their source lines: where a linked and a direct program start,
  and that both ways of running the same source execute the same instructions.
 */
module Programs {
  import opened Wrappers
  import opened Bytes
  import opened ImageFormat
  import opened ImageRoundTrip
  import opened Linking
  import opened LinkProofs
  import opened Loading
  import opened LinkAndLoad
  import opened Layout
  import opened LayoutProofs
  import opened RawAssembly
  import opened ObjectAssembly
  import opened ObjectProofs
  import opened Statements
  import opened Toolchain
  import opened LabelAddresses
  import Bits
  import Instructions
  import Machine
  import VirtualMachine

  // ----- where a linked program starts -----

  /** The objects are what the assembler makes of the sources. */
  predicate Built(sources: seq<seq<SourceLine>>, objects: seq<seq<Byte>>) {
    && |sources| == |objects|
    && forall k :: 0 <= k < |sources| ==> AllValid(sources[k]) && AssembleObject(sources[k]) == Ok(objects[k])
  }

  /** The machine at the entry of a loaded image. */
  function Booted(m: Machine.State, loaded: (seq<Byte>, Word)): Machine.State
    requires m.Valid() && |loaded.0| == ROM_SIZE
  {
    Machine.Started(m.(rom := loaded.0, entry := loaded.1))
  }

  /** The source has a line with this label, procedures counted in. */
  predicate HasLabel(lines: seq<SourceLine>, name: CString)
    requires AllValid(lines)
  {
    LaidOut(lines).Ok? && exists i :: 0 <= i < |LaidOut(lines).value.lines|
                            && LaidOut(lines).value.lines[i].name == Some(name)
  }

  lemma PartAt(sources: seq<seq<SourceLine>>, objects: seq<seq<Byte>>, requested: Option<CString>, run: LinkRun,
               output: seq<Byte>, o: nat)
    returns (part: Part)
    requires Built(sources, objects) && Linked(objects, requested, run, output) && o < |objects|
    ensures part.lines == sources[o] && AllValid(part.lines) && LaidOut(part.lines) == Ok(part.c)
    ensures AssembledAs(part, objects[o]) && Healthy(run) && IsPart(run, o, part)
  {
    hide AssembleObject, Linked, Healthy, IsPart, Encode, EmitLines, Symbols;
    part := PartOf(sources[o]);
    PartLinked(objects, requested, run, output, o, part);
  }

  /** A defined symbol of a part is one of its labels, and its final address is that line's. */
  lemma SymbolLine(run: LinkRun, o: nat, part: Part, k: nat) returns (i: nat)
    requires Healthy(run) && IsPart(run, o, part) && k < |run.images[o].symbols| && Defined(run.images[o].symbols[k])
    ensures IsPartLine(run, o, part, i) && part.c.lines[i].name == Some(TextOf(run.images[o].symbols[k].name))
    ensures DefinitionAddress(run.images, run.placed, o, k) == LineAddress(run, o, part, i)
  {
    hide Checked, Follows, AllPlaced, MergedWell, Relocating, Index, ImageFormat.Normal, Symbols,
         ObjectAssembly.SymbolIndex, WellLaid, AllFit, AllThere, RelocatesExactly, Sized, DistinctLabels, Inputs;
    PartRelocations(run, o, part);
    i := DefinedIsLabel(part.c, k);
    LineSmall(run, o, part, i);
    LineInSection(run, o, part, i);
    BelowRom(run, o, part.c.lines[i].section);
    Bits.ModSmall(part.c.lines[i].section, WORD_RANGE);
    Bits.ModSmall(part.c.lines[i].offset, WORD_RANGE);
    Bits.ModSmall(LineAddress(run, o, part, i), WORD_RANGE);
  }

  /** A label of a part is one of its defined symbols. */
  lemma LabelSymbol(run: LinkRun, o: nat, part: Part, i: nat) returns (k: nat)
    requires IsPartLine(run, o, part, i) && part.c.lines[i].name.Some?
    ensures k < |run.images[o].symbols| && Defined(run.images[o].symbols[k])
    ensures TextOf(run.images[o].symbols[k].name) == part.c.lines[i].name.value
  {
    hide Healthy, ImageFormat.Normal, Symbols, SymbolsOk, WellLaid, AllFit, AllThere, RelocatesExactly, Sized,
         DistinctLabels;
    var name := part.c.lines[i].name.value;
    LabelFound(part.c, i);
    PartRelocations(run, o, part);
    LineSmall(run, o, part, i);
    k := ObjectAssembly.SymbolIndex(part.symbols, name);
    assert run.images[o].symbols[k] == NormalSymbol(part.symbols[k]);
  }

  /** Line i of source o is the first one with the entry's label, and it is where the run's entry points to. */
  ghost predicate EntryLine(sources: seq<seq<SourceLine>>, objects: seq<seq<Byte>>, requested: Option<CString>,
                            run: LinkRun, o: nat, part: Part, i: nat)
    requires Built(sources, objects)
  {
    && o < |objects| && part.lines == sources[o] && AssembledAs(part, objects[o]) && IsPartLine(run, o, part, i)
    && part.c.lines[i].name == Some(SelectedEntry(run.images, requested)) && run.entry == LineAddress(run, o, part, i)
    && forall p :: 0 <= p < o ==> !HasLabel(sources[p], SelectedEntry(run.images, requested))
  }

  lemma EntryIsFirstLabel(sources: seq<seq<SourceLine>>, objects: seq<seq<Byte>>, requested: Option<CString>,
                          run: LinkRun, output: seq<Byte>) returns (o: nat, part: Part, i: nat)
    requires Built(sources, objects) && Linked(objects, requested, run, output)
    ensures EntryLine(sources, objects, requested, run, o, part, i)
  {
    hide AssembledAs, DecodeAll, Place, Merge, Relocate, Encode, Executable, EntryAddress, SelectedEntry, Healthy,
         IsPart, LineAddress, DefinitionAddress, HasLabel;
    var name := SelectedEntry(run.images, requested);
    var k;
    RunIsHealthy(objects, requested, run, output);
    o, k := EntryIsSymbol(run, name);
    ImageCount(objects, run.images);
    part := PartAt(sources, objects, requested, run, output, o);
    i := SymbolLine(run, o, part, k);
    forall p | 0 <= p < o ensures !HasLabel(sources[p], name) {
      var earlier := PartAt(sources, objects, requested, run, output, p);
      NoLabelBefore(run, p, earlier, name);
    }
  }

  lemma ImageCount(objects: seq<seq<Byte>>, images: seq<Image>)
    requires DecodeAll(objects) == Ok(images)
    ensures |images| == |objects|
  {
    hide Decode;
    if objects != [] { DecodedInOrder(objects, images, 0); }
  }

  lemma NoLabelBefore(run: LinkRun, p: nat, part: Part, name: CString)
    requires Healthy(run) && IsPart(run, p, part) && AllValid(part.lines) && LaidOut(part.lines) == Ok(part.c)
    requires forall j: nat :: j < |run.images[p].symbols| ==>
               !(Defined(run.images[p].symbols[j]) && TextOf(run.images[p].symbols[j].name) == name)
    ensures !HasLabel(part.lines, name)
  {
    hide Healthy, IsPart, LaidOut;
    if HasLabel(part.lines, name) {
      var i :| 0 <= i < |part.c.lines| && part.c.lines[i].name == Some(name);
      var j := LabelSymbol(run, p, part, i);
      assert false;
    }
  }

  /**
    A program of any number of sources that assembles and links also loads, and the
    machine then starts at the first line labelled with the entry's name. When that line
    is a statement, it is the first instruction fetched, with its operand resolved.
   */
  lemma ProgramStarts(sources: seq<seq<SourceLine>>, objects: seq<seq<Byte>>, requested: Option<CString>,
                      output: seq<Byte>, m: Machine.State) returns (run: LinkRun, o: nat, part: Part, i: nat, s: nat)
    requires Built(sources, objects) && Link(objects, requested) == Ok(output) && m.Valid()
    ensures EntryLine(sources, objects, requested, run, o, part, i)
    ensures Load(m.rom, output).Ok?
    ensures var started := Booted(m, Load(m.rom, output).value);
            && started.Register(Instructions.R_PC) == LineAddress(run, o, part, i)
            && (part.c.lines[i].emission.Instruct? ==>
                IsStatement(run, o, part, i, s, Machine.Fetch(started).instruction))
  {
    hide Built, Link, Linked, Load, Healthy, IsPart, AssembledAs, HasLabel, AddressOf, IsStatement, Machine.Fetch,
         Within, SelectedEntry, LoadedSections, OthersKept, EntersText;
    run := LinkedProgramLoads(objects, requested, m.rom);
    o, part, i := EntryIsFirstLabel(sources, objects, requested, run, output);
    LineInSection(run, o, part, i);
    if part.c.lines[i].emission.Instruct? {
      var started := Booted(m, Load(m.rom, output).value);
      s := FetchesLinkedStatement(objects, requested, run, output, m.rom, o, part, i, started);
    } else {
      s := 0;
    }
  }

  // ----- where a direct program starts -----

  /** A direct program starts at its first line. */
  lemma DumpStarts(lines: seq<SourceLine>, m: Machine.State) returns (recorded: seq<Line>, labels: LabelMap)
    requires AllValid(lines) && AssembleRaw(lines).Ok? && |AssembleRaw(lines).value| <= ROM_SIZE && m.Valid()
    ensures Assembled(lines, recorded, labels, AssembleRaw(lines).value)
    ensures var started := Machine.Started(VirtualMachine.Dumped(m, AssembleRaw(lines).value));
            && started.Register(Instructions.R_PC) == 0
            && (recorded != [] && recorded[0].emission.Instruct? ==>
                  && InstructionOf(recorded[0].emission.statement, labels).Ok?
                  && Machine.Fetch(started).instruction
                     == Some(InstructionOf(recorded[0].emission.statement, labels).value))
  {
    hide AssembleRaw, Assembled, Machine.Fetch, InstructionOf;
    recorded, labels := AssemblyOf(lines);
    var output := AssembleRaw(lines).value;
    var started := Machine.Started(VirtualMachine.Dumped(m, output));
    if recorded != [] && recorded[0].emission.Instruct? {
      assert recorded[..0] == [];
      assert started.rom[0..|output|] == output;
      FetchesStatement(lines, recorded, labels, output, 0, started);
    }
  }

  // ----- both ways of running one source -----

  /** One section, whose lines follow each other without a gap up to its end. */
  predicate Contiguous(c: Context) {
    && |c.sections| == 1 && c.sections[0].size == LineBytes(c.lines)
    && forall i :: 0 <= i < |c.lines| ==> c.lines[i].section == 0 && c.lines[i].offset == LineBytes(c.lines[..i])
  }

  /** A label use means the same word in both modes. */
  lemma SameWord(c: Context, symbols: seq<Symbol>, labels: LabelMap, line: Line, operand: Option<Operand>)
    requires Contiguous(c) && Small(c) && DistinctLabels(c.lines) && LabelsOf(labels, c.lines) && line.section == 0
    requires OperandWord(operand, labels).Ok?
    ensures OperandIn(c, symbols, line, operand) == Ok(Resolved(OperandWord(operand, labels).value, None))
  {
    hide ObjectAssembly.SymbolIndex, LineBytes;
    if operand.Some? && operand.value.LabelUse? {
      var name := operand.value.name;
      var j :| 0 <= j < |c.lines| && c.lines[j].name == Some(name);
      var local := LocalLine(c.lines, name, 0);
      assert local < |c.lines|;
      OnlyLabel(c.lines, j, local);
      Bits.ModSmall(c.lines[j].offset, WORD_RANGE);
    }
  }

  /** A line has the same bytes in both modes, and no relocation. */
  lemma SameTranslation(c: Context, symbols: seq<Symbol>, labels: LabelMap, i: nat)
    requires Contiguous(c) && Small(c) && DistinctLabels(c.lines) && LabelsOf(labels, c.lines) && i < |c.lines|
    requires BytesOf(c.lines[i].emission, labels).Ok?
    ensures TranslateLine(c, symbols, c.lines[i]) == Ok(Translated(BytesOf(c.lines[i].emission, labels).value, None))
  {
    hide Contiguous, Small, DistinctLabels, LabelsOf, OperandWord, OperandIn, Instructions.Encoded,
         Instructions.Encodable, RegisterOf, OperandError;
    SectionZero(c, i);
    if c.lines[i].emission.Instruct? {
      SameWord(c, symbols, labels, c.lines[i], c.lines[i].emission.statement.operand);
    }
  }

  lemma SectionZero(c: Context, i: nat)
    requires Contiguous(c) && i < |c.lines|
    ensures c.lines[i].section == 0 && c.lines[i].offset == LineBytes(c.lines[..i])
  {
  }

  /** Every byte of a direct program belongs to a line. */
  lemma {:induction false} LineOf(lines: seq<Line>, p: nat) returns (i: nat)
    requires p < LineBytes(lines)
    ensures i < |lines| && LineBytes(lines[..i]) <= p < LineBytes(lines[..i]) + Size(lines[i].emission)
  {
    var n := |lines| - 1;
    if p < LineBytes(lines[..n]) {
      i := LineOf(lines[..n], p);
      assert lines[..n][..i] == lines[..i];
    } else {
      i := n;
    }
  }

  lemma LabelFacts(run: LinkRun, o: nat, part: Part)
    requires IsPart(run, o, part)
    ensures o < |run.images| && |run.images[o].sections| == |part.c.sections| && Small(part.c)
            && DistinctLabels(part.c.lines)
  {
    hide Small, DistinctLabels, WellLaid, AllFit, AllThere, RelocatesExactly, Sized;
  }

  lemma OnlySection(c: Context)
    requires Contiguous(c)
    ensures |c.sections| == 1
  {
  }

  /** Byte p of the direct program is in the loaded ROM at that distance behind the section's final address. */
  lemma RawByteInRom(run: LinkRun, loaded: seq<Byte>, o: nat, part: Part, labels: LabelMap, raw: seq<Byte>, p: nat)
    requires Healthy(run) && IsPart(run, o, part) && Relocate(run.images, run.placed, run.merged) == Ok(run.datas)
    requires LoadedSections(run, loaded) && Contiguous(part.c)
    requires AllValid(part.lines) && Assembled(part.lines, part.c.lines, labels, raw) && p < |raw|
    ensures o < |run.images| && 0 < |run.images[o].sections|
    ensures AddressOf(run, o, 0) + p < |loaded| && loaded[AddressOf(run, o, 0) + p] == raw[p]
  {
    hide Healthy, IsPart, Relocate, LoadedSections, Contiguous, Small, DistinctLabels, AddressOf, TranslateLine,
         BytesOf, Size, LineBytes, LaidOut, RawAssembly.Labels, Translate, LabelsOf;
    var lines := part.c.lines;
    LabelFacts(run, o, part);
    OnlySection(part.c);
    LengthEmitted(lines, labels);
    LabelsHold(lines);
    var i := LineOf(lines, p);
    SectionZero(part.c, i);
    LinesEmitted(lines, labels, i);
    BytesHaveSize(lines[i].emission, labels);
    SameTranslation(part.c, part.symbols, labels, i);
    StatementByte(run, loaded, o, part, i, p - LineBytes(lines[..i]));
    AtIndex(raw, LineBytes(lines[..i]), BytesOf(lines[i].emission, labels).value, p - LineBytes(lines[..i]));
  }

  /** A program of one section without gaps, of which both modes' results are known. */
  ghost predicate BothModes(objects: seq<seq<Byte>>, requested: Option<CString>, run: LinkRun, output: seq<Byte>,
                            rom: seq<Byte>, o: nat, part: Part, raw: seq<Byte>)
  {
    && Link(objects, requested) == Ok(output) && Linked(objects, requested, run, output) && |rom| == ROM_SIZE
       && Load(rom, output).Ok?
    && o < |objects| && AssembledAs(part, objects[o]) && Healthy(run) && IsPart(run, o, part) && Contiguous(part.c)
    && AllValid(part.lines) && AssembleRaw(part.lines) == Ok(raw)
  }

  /** Wherever the linker puts its section, the loaded ROM holds the direct program there, byte for byte. */
  lemma LinkedHoldsRaw(objects: seq<seq<Byte>>, requested: Option<CString>, run: LinkRun, output: seq<Byte>,
                       rom: seq<Byte>, o: nat, part: Part, raw: seq<Byte>)
    requires BothModes(objects, requested, run, output, rom, o, part, raw)
    ensures Healthy(run) && o < |run.images| && 0 < |run.images[o].sections|
    ensures Load(rom, output).Ok? && At(Load(rom, output).value.0, AddressOf(run, o, 0), raw)
  {
    hide Link, Linked, Load, Healthy, IsPart, AssembledAs, AssembleRaw, Contiguous, AddressOf, LoadedSections,
         Assembled, Relocate, WellLaid, Run, At;
    FactsOf(run, o, part);
    LabelFacts(run, o, part);
    OnlySection(part.c);
    LoadedRun(objects, requested, run, output, rom);
    var recorded, labels := AssemblyOf(part.lines);
    SameLayouts(part, recorded, labels, raw);
    var loaded, at := Load(rom, output).value.0, AddressOf(run, o, 0);
    BelowRom(run, o, 0);
    forall p | 0 <= p < |raw| ensures SameByte(loaded, at, raw, p) {
      RawByteInRom(run, loaded, o, part, labels, raw, p);
    }
    AtBytes(loaded, at, raw);
  }

  lemma SameLayouts(part: Part, recorded: seq<Line>, labels: LabelMap, raw: seq<Byte>)
    requires AllValid(part.lines) && Run(part.lines) == Ok(part.c) && Assembled(part.lines, recorded, labels, raw)
    ensures recorded == part.c.lines
  {
    hide Run, RawAssembly.Labels, Translate;
  }

  lemma AtBytes(loaded: seq<Byte>, at: nat, part: seq<Byte>)
    requires at <= |loaded| && forall p :: 0 <= p < |part| ==> SameByte(loaded, at, part, p)
    ensures At(loaded, at, part)
  {
    if part != [] { assert SameByte(loaded, at, part, |part| - 1); }
    forall k | 0 <= k < |part| ensures loaded[at..at + |part|][k] == part[k] {
      assert SameByte(loaded, at, part, k);
    }
  }

  /** The machine with the linked program in ROM, about to execute what lies at `at`. */
  function LinkedAt(m: Machine.State, loaded: seq<Byte>, at: Word): (s: Machine.State)
    requires m.Valid() && |loaded| == ROM_SIZE
    ensures s.Valid()
  {
    m.(rom := loaded).WithRegister(Instructions.R_PC, at)
  }

  /** The machine with the direct program in ROM, about to execute what lies at `at`. */
  function DirectAt(m: Machine.State, raw: seq<Byte>, at: Word): (s: Machine.State)
    requires m.Valid() && |raw| <= ROM_SIZE
    ensures s.Valid()
  {
    VirtualMachine.Dumped(m, raw).WithRegister(Instructions.R_PC, at)
  }

  /** Both machines fetch an instruction, and the same one. */
  predicate FetchAlike(a: Machine.State, b: Machine.State)
    requires a.Valid() && b.Valid()
  {
    Machine.Fetch(a).instruction.Some? && Machine.Fetch(a).instruction == Machine.Fetch(b).instruction
  }

  lemma FetchesRaw(m: Machine.State, at: nat, raw: seq<Byte>, pc: nat)
    requires m.Valid() && At(m.rom, at, raw) && pc + 8 <= |raw| && m.Register(Instructions.R_PC) == at + pc
    ensures Machine.Fetch(m).instruction == Some(Instructions.Decoded(raw[pc..pc + 8]))
  {
    hide Instructions.Decoded;
    AtInner(m.rom, at, raw, pc, raw[pc..pc + 8], at + pc);
    Machine.FetchedInOrder(m, at + pc);
    assert m.Memory()[at + pc..at + pc + 8] == m.rom[at + pc..at + pc + 8];
  }

  /** At every place of the program the linked and the direct machine fetch the same instruction. */
  predicate FetchesAgree(m: Machine.State, loaded: seq<Byte>, at: nat, raw: seq<Byte>) {
    && m.Valid() && |loaded| == ROM_SIZE && at + |raw| <= ROM_SIZE
    && forall pc: nat :: pc + 8 <= |raw| ==> FetchAlike(LinkedAt(m, loaded, at + pc), DirectAt(m, raw, pc))
  }

  /**
    Linked and direct execution of one source fetch the same instruction at every place of
    the program, wherever the linker put it: operands included, so a label of the program
    still means its direct address.
   */
  lemma ModesFetchAlike(objects: seq<seq<Byte>>, requested: Option<CString>, run: LinkRun, output: seq<Byte>, o: nat,
                        part: Part, raw: seq<Byte>, m: Machine.State)
    requires m.Valid() && BothModes(objects, requested, run, output, m.rom, o, part, raw)
    ensures Healthy(run) && o < |run.images| && 0 < |run.images[o].sections|
    ensures Load(m.rom, output).Ok? && FetchesAgree(m, Load(m.rom, output).value.0, AddressOf(run, o, 0), raw)
  {
    hide BothModes, Load, Healthy, AddressOf, FetchAlike;
    LinkedHoldsRaw(objects, requested, run, output, m.rom, o, part, raw);
    var loaded, at := Load(m.rom, output).value.0, AddressOf(run, o, 0);
    forall pc: nat | pc + 8 <= |raw| ensures FetchAlike(LinkedAt(m, loaded, at + pc), DirectAt(m, raw, pc)) {
      PlaceAgrees(m, loaded, at, raw, pc);
    }
  }

  lemma PlaceAgrees(m: Machine.State, loaded: seq<Byte>, at: nat, raw: seq<Byte>, pc: nat)
    requires m.Valid() && |loaded| == ROM_SIZE && At(loaded, at, raw) && pc + 8 <= |raw|
    ensures FetchAlike(LinkedAt(m, loaded, at + pc), DirectAt(m, raw, pc))
  {
    hide Machine.Fetch, Instructions.Decoded;
    FetchesRaw(LinkedAt(m, loaded, at + pc), at, raw, pc);
    var direct := DirectAt(m, raw, pc);
    assert direct.rom[0..|raw|] == raw;
    FetchesRaw(direct, 0, raw, pc);
  }

  /** The run of a single object of one section places one section, as long as the direct program. */
  lemma OnlyPlaced(unit: seq<Byte>, requested: Option<CString>, run: LinkRun, output: seq<Byte>, part: Part)
    requires Linked([unit], requested, run, output) && Healthy(run) && IsPart(run, 0, part) && Contiguous(part.c)
    ensures |run.placed| == 1 && 0 < |run.images[0].sections| && Index(run.images, 0, 0) == 0
    ensures run.placed[0].image.address == AddressOf(run, 0, 0) && run.placed[0].image.size == LineBytes(part.c.lines)
  {
    hide Healthy, IsPart, Contiguous, DecodeAll, Place, Merge, Relocate, Encode, Executable, EntryAddress,
         SelectedEntry, LineBytes, Index, Inputs, AddressOf;
    ImageCount([unit], run.images);
    LabelFacts(run, 0, part);
    OnlySection(part.c);
    OneInput(run.images);
    ContentSize(run, part);
    OneSection(run);
  }

  lemma OneInput(images: seq<Image>)
    requires |images| == 1 && |images[0].sections| == 1
    ensures Index(images, 0, 0) == 0 && |Inputs(images)| == 1
  {
    var rows := InputRows(images);
    assert rows[..0] == [];
    assert Flatten(rows) == Flatten(rows[..0]) + rows[0];
  }

  lemma OneSection(run: LinkRun)
    requires Healthy(run) && 0 < |run.images| && 0 < |run.images[0].sections|
    requires Index(run.images, 0, 0) == 0 && |Inputs(run.images)| == 1
    ensures |run.placed| == 1 && run.placed[0].image.address == AddressOf(run, 0, 0)
    ensures run.placed[0].image.size == run.images[0].sections[0].size
  {
    hide Checked, AllPlaced, MergedWell, Relocating, Index, Inputs;
    FindPlaced(run.images, run.placed, 0, 0);
  }

  lemma ContentSize(run: LinkRun, part: Part)
    requires IsPart(run, 0, part) && Contiguous(part.c)
    ensures 0 < |run.images[0].sections| && run.images[0].sections[0].size == LineBytes(part.c.lines)
  {
    hide IsPart, LineBytes;
    PartSection(run, 0, part, 0);
  }

  /**
    When its inputs put the only section of a program at address 0, loading the linked
    program and dumping the direct one give the same machine in everything but the entry:
    the direct program starts at 0, a linked one never does.
   */
  lemma ModesCoincide(unit: seq<Byte>, requested: Option<CString>, run: LinkRun, output: seq<Byte>, part: Part,
                      raw: seq<Byte>, m: Machine.State)
    requires m.Valid() && BothModes([unit], requested, run, output, m.rom, 0, part, raw)
    requires Inputs(run.images) != [] && AtZero(Inputs(run.images), 0)
    ensures |raw| <= ROM_SIZE && Load(m.rom, output).Ok?
    ensures m.(rom := Load(m.rom, output).value.0) == VirtualMachine.Dumped(m, raw).(entry := m.entry)
    ensures Load(m.rom, output).value.1 != 0
  {
    hide Link, Load, Healthy, IsPart, AssembledAs, AssembleRaw, Contiguous, AddressOf, AtZero, Inputs, Index, DecodeAll,
         Place, Merge, Relocate, Encode, Executable, EntryAddress, SelectedEntry, LineBytes;
    LinkedHoldsRaw([unit], requested, run, output, m.rom, 0, part, raw);
    OnlyPlaced([unit][0], requested, run, output, part);
    SectionAtZero(run, 0, 0);
    RawLength(run, part, raw);
    var loaded := Load(m.rom, output).value.0;
    OutsideKeptHere([unit], requested, run, output, m.rom);
    AtBytesOf(loaded, raw);
    forall p | |raw| <= p < ROM_SIZE ensures loaded[p] == m.rom[p] {
      assert !Within(run.placed[0].image, p);
      assert OutsideSections(run, p);
    }
    assert loaded == raw + m.rom[|raw|..];
  }

  lemma RawLength(run: LinkRun, part: Part, raw: seq<Byte>)
    requires IsPart(run, 0, part) && AllValid(part.lines) && AssembleRaw(part.lines) == Ok(raw)
    ensures |raw| == LineBytes(part.c.lines)
  {
    hide IsPart, AssembleRaw, Assembled, LineBytes, Run;
    FactsOf(run, 0, part);
    var recorded, labels := AssemblyOf(part.lines);
    SameLayouts(part, recorded, labels, raw);
    EmittedLength(part.lines, recorded, labels, raw);
  }

  lemma EmittedLength(lines: seq<SourceLine>, recorded: seq<Line>, labels: LabelMap, raw: seq<Byte>)
    requires AllValid(lines) && Assembled(lines, recorded, labels, raw)
    ensures |raw| == LineBytes(recorded)
  {
    hide LaidOut, RawAssembly.Labels, Translate, LineBytes;
    LengthEmitted(recorded, labels);
  }

  lemma OutsideKeptHere(objects: seq<seq<Byte>>, requested: Option<CString>, run: LinkRun, output: seq<Byte>,
                        rom: seq<Byte>)
    requires Link(objects, requested) == Ok(output) && Linked(objects, requested, run, output) && |rom| == ROM_SIZE
    ensures Load(rom, output).Ok? && Load(rom, output).value.1 == run.entry
            && OthersKept(run, rom, Load(rom, output).value.0)
  {
    hide Link, Linked, Load, Healthy, LoadedSections, OthersKept, EntersText;
    var other := LinkedProgramLoads(objects, requested, rom);
    OneRun(objects, requested, run, other, output);
  }

  lemma AtBytesOf(loaded: seq<Byte>, raw: seq<Byte>)
    requires At(loaded, 0, raw)
    ensures |raw| <= |loaded| && loaded[..|raw|] == raw
  {
    assert loaded[0..|raw|] == loaded[..|raw|];
  }
}
