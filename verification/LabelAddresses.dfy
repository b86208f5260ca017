/**
  The address a `#label` operand holds when its statement is executed: right across
  sections and across objects, and in the label's own section exactly when the linker
  puts that section at address 0.
 */
module LabelAddresses {
  import opened Wrappers
  import opened Bytes
  import opened ImageFormat
  import opened Linking
  import opened LinkProofs
  import opened Loading
  import opened LinkAndLoad
  import opened Layout
  import opened LayoutProofs
  import opened SourceLayout
  import opened RawAssembly
  import opened ObjectAssembly
  import opened ObjectProofs
  import opened Toolchain
  import Bits
  import Instructions
  import Machine

  // ----- sections at address 0 -----

  /**
    Read off the inputs: nothing but empty sections lies between the d-th one and a section
    the objects put at address 0.
   */
  predicate AtZero(inputs: seq<LinkSection>, d: nat)
    requires d < |inputs|
  {
    if Automatic(inputs[d].image) then d > 0 && inputs[d - 1].image.size == 0 && AtZero(inputs, d - 1)
    else inputs[d].image.address == 0
  }

  /** The linker places a section at address 0 exactly when its inputs say so. */
  lemma {:induction false} PlacedAtZero(placed: seq<LinkSection>, inputs: seq<LinkSection>, d: nat)
    requires AllPlaced(placed, inputs) && d < |placed|
    requires forall i :: 0 <= i < |inputs| ==> ValidAlignment(inputs[i].image.alignment)
    ensures placed[d].image.address == 0 <==> AtZero(inputs, d)
  {
    hide Automatic, ValidAlignment, Apart;
    assert PlacedWell(placed, inputs[d], d);
    if Automatic(inputs[d].image) {
      if d > 0 {
        assert PlacedWell(placed, inputs[d - 1], d - 1);
        assert placed[..d][d - 1] == placed[d - 1];
        PlacedAtZero(placed, inputs, d - 1);
        AtCursor(placed, inputs[d], d);
      }
    }
  }

  lemma AtCursor(placed: seq<LinkSection>, input: LinkSection, d: nat)
    requires d < |placed| && PlacedWell(placed, input, d) && Automatic(input.image)
             && ValidAlignment(input.image.alignment)
    ensures PreviousEnd(placed, d) <= placed[d].image.address
    ensures PreviousEnd(placed, d) == 0 ==> placed[d].image.address == 0
  {
    hide Automatic, PreviousEnd;
    var alignment := input.image.alignment;
    assert 0 % alignment == 0;
  }

  lemma SectionAtZero(run: LinkRun, o: nat, s: nat)
    requires Healthy(run) && o < |run.images| && s < |run.images[o].sections|
    ensures Index(run.images, o, s) < |Inputs(run.images)|
    ensures AddressOf(run, o, s) == 0 <==> AtZero(Inputs(run.images), Index(run.images, o, s))
  {
    hide Follows, MergedWell, Relocating, AllPlaced, AtZero, ValidAlignment, Index;
    FindPlaced(run.images, run.placed, o, s);
    InputAt(run.images, o, s);
    InputsAligned(run.images);
    PlacedAtZero(run.placed, Inputs(run.images), Index(run.images, o, s));
  }

  lemma InputsAligned(images: seq<Image>)
    requires Checked(images)
    ensures forall i :: 0 <= i < |Inputs(images)| ==> ValidAlignment(Inputs(images)[i].image.alignment)
  {
    hide ValidAlignment;
    forall i | 0 <= i < |Inputs(images)| ensures ValidAlignment(Inputs(images)[i].image.alignment) {
      var o, s := FlattenLocate(InputRows(images), i);
      assert SectionOk(images[o].sections[s]);
    }
  }

  // ----- the operand a statement is executed with -----

  /** Line i is an instruction that uses the label. */
  predicate Uses(part: Part, i: nat, name: CString) {
    i < |part.c.lines| && part.c.lines[i].emission.Instruct?
      && part.c.lines[i].emission.statement.operand == Some(LabelUse(name))
  }

  predicate Labelled(part: Part, j: nat, name: CString) {
    j < |part.c.lines| && part.c.lines[j].name == Some(name)
  }

  predicate IsPartLine(run: LinkRun, o: nat, part: Part, j: nat) {
    Healthy(run) && IsPart(run, o, part) && j < |part.c.lines|
  }

  /** Where line j of object o is in the linked program. */
  function LineAddress(run: LinkRun, o: nat, part: Part, j: nat): nat
    requires IsPartLine(run, o, part, j)
  {
    LineInSection(run, o, part, j);
    AddressOf(run, o, part.c.lines[j].section) + part.c.lines[j].offset
  }

  lemma LineInSection(run: LinkRun, o: nat, part: Part, j: nat)
    requires IsPartLine(run, o, part, j)
    ensures o < |run.images| && part.c.lines[j].section < |run.images[o].sections|
  {
    hide Healthy, WellLaid, AllFit, AllThere, RelocatesExactly, DistinctLabels, Sized, ImageFormat.Normal;
    PartSection(run, o, part, part.c.lines[j].section);
  }

  /** The fetched operand is the assembled word, or the address of the symbol it is relocated against. */
  lemma FetchedOperand(objects: seq<seq<Byte>>, requested: Option<CString>, run: LinkRun, output: seq<Byte>,
                       rom: seq<Byte>, o: nat, part: Part, i: nat, m: Machine.State) returns (s: nat)
    requires AtStatement(objects, requested, run, output, rom, o, part, i, m)
    ensures Machine.Fetch(m).instruction.Some?
    ensures var operand := OperandIn(part.c, part.symbols, part.c.lines[i], part.c.lines[i].emission.statement.operand);
            && operand.Ok?
            && if operand.value.relocation.None? then Machine.Fetch(m).instruction.value.immediate == operand.value.word
               else
                 && Machine.Fetch(m).instruction.value.immediate == s
                 && SymbolAt(run, o, operand.value.relocation.value.symbol, s)
  {
    hide Link, Linked, Load, AssembledAs, Healthy, IsPart, TranslateLine, AddressOf, SymbolAt, OperandIn,
         Instructions.Decoded, Machine.Fetch;
    s := FetchesLinkedStatement(objects, requested, run, output, rom, o, part, i, m);
    EncodedOperand(part.c, part.symbols, part.c.lines[i]);
  }

  // ----- the three kinds of label use -----

  /**
    A use of a label of its own section is assembled as the label's offset and never
    relocated. So it is executed with the label's address exactly when the section ends
    up at address 0, which its inputs decide.
   */
  lemma OwnSectionLabel(objects: seq<seq<Byte>>, requested: Option<CString>, run: LinkRun, output: seq<Byte>,
                        rom: seq<Byte>, o: nat, part: Part, i: nat, j: nat, name: CString, m: Machine.State)
    requires AtStatement(objects, requested, run, output, rom, o, part, i, m)
    requires Uses(part, i, name) && Labelled(part, j, name) && part.c.lines[i].section == part.c.lines[j].section
    ensures Machine.Fetch(m).instruction.Some? && IsPartLine(run, o, part, j)
    ensures Machine.Fetch(m).instruction.value.immediate == part.c.lines[j].offset
    ensures Index(run.images, o, part.c.lines[j].section) < |Inputs(run.images)|
    ensures Machine.Fetch(m).instruction.value.immediate == LineAddress(run, o, part, j)
            <==> AtZero(Inputs(run.images), Index(run.images, o, part.c.lines[j].section))
  {
    hide Link, Linked, Load, AssembledAs, Healthy, TranslateLine, AddressOf, SymbolAt, OperandIn, AtZero, Index,
         Machine.Fetch, WellLaid, AllFit, AllThere, RelocatesExactly, DistinctLabels, Sized, ImageFormat.Normal,
         Symbols, ObjectAssembly.SymbolIndex;
    var _ := FetchedOperand(objects, requested, run, output, rom, o, part, i, m);
    LabelUseResolved(part.c, part.c.lines[i], part.c.lines[i].emission.statement, j);
    LineInSection(run, o, part, j);
    SectionAtZero(run, o, part.c.lines[j].section);
  }

  /** A use of a label of another section of its own object is executed with that label's final address. */
  lemma LabelReachedAcrossSections(objects: seq<seq<Byte>>, requested: Option<CString>, run: LinkRun, output: seq<Byte>,
                                   rom: seq<Byte>, o: nat, part: Part, i: nat, j: nat, name: CString, m: Machine.State)
    requires AtStatement(objects, requested, run, output, rom, o, part, i, m)
    requires Uses(part, i, name) && Labelled(part, j, name) && part.c.lines[i].section != part.c.lines[j].section
    ensures Machine.Fetch(m).instruction.Some? && IsPartLine(run, o, part, j)
    ensures Machine.Fetch(m).instruction.value.immediate == LineAddress(run, o, part, j)
  {
    hide Link, Linked, Load, AssembledAs, Healthy, TranslateLine, SymbolAt, OperandIn, Index, Machine.Fetch, WellLaid,
         AllFit, AllThere, RelocatesExactly, DistinctLabels, Sized, ImageFormat.Normal, Symbols,
         ObjectAssembly.SymbolIndex, SymbolsOk;
    var s := FetchedOperand(objects, requested, run, output, rom, o, part, i, m);
    LabelUseResolved(part.c, part.c.lines[i], part.c.lines[i].emission.statement, j);
    var k := ObjectAssembly.SymbolIndex(part.symbols, name);
    Bits.ModSmall(k, WORD_RANGE);
    LineInSection(run, o, part, j);
    DefinedSymbolAt(run, o, part, k, part.c.lines[j].section, part.c.lines[j].offset, s);
  }

  lemma DefinedSymbolAt(run: LinkRun, o: nat, part: Part, k: nat, section: nat, value: nat, s: nat)
    requires Healthy(run) && IsPart(run, o, part) && k < |part.symbols| && section < |run.images[o].sections|
    requires part.symbols[k].section == section && part.symbols[k].value == value && SymbolAt(run, o, k, s)
             && section < 6
    ensures s == AddressOf(run, o, section) + value
  {
    hide Checked, Follows, AllPlaced, MergedWell, Relocating, PartFacts, Index, ImageFormat.Normal;
    PartRelocations(run, o, part);
    assert run.images[o].symbols[k] == NormalSymbol(part.symbols[k]);
  }

  /**
    A use of a name that is no label of its own object, so that `.extern` lists it, is
    executed with the final address of the label that another object exports by `.global`.
   */
  lemma LabelReachedAcrossObjects(objects: seq<seq<Byte>>, requested: Option<CString>, run: LinkRun, output: seq<Byte>,
                                  rom: seq<Byte>, o: nat, part: Part, i: nat, p: nat, other: Part, j: nat,
                                  name: CString, m: Machine.State)
    requires AtStatement(objects, requested, run, output, rom, o, part, i, m) && Uses(part, i, name)
    requires forall k :: 0 <= k < |part.c.lines| ==> part.c.lines[k].name != Some(name)
    requires p < |objects| && AssembledAs(other, objects[p]) && Labelled(other, j, name) && name in other.c.globals
    ensures name in part.c.externals
    ensures Machine.Fetch(m).instruction.Some? && IsPartLine(run, p, other, j)
    ensures Machine.Fetch(m).instruction.value.immediate == LineAddress(run, p, other, j)
  {
    hide Link, Linked, Load, AssembledAs, Healthy, TranslateLine, SymbolAt, Index, Machine.Fetch, LineAddress,
         LocalLine, WellLaid, AllFit, AllThere, RelocatesExactly, DistinctLabels, Sized, ImageFormat.Normal, Symbols,
         ObjectAssembly.SymbolIndex, SymbolsOk;
    var s := FetchedOperand(objects, requested, run, output, rom, o, part, i, m);
    var k := ObjectAssembly.SymbolIndex(part.symbols, name);
    Bits.ModSmall(k, WORD_RANGE);
    ExternalFound(part.c, name);
    PartLinked(objects, requested, run, output, p, other);
    UndefinedSymbolAt(run, o, part, k, name, s);
    ExportReached(run, p, other, j, name, s);
  }

  /** A reference to an undefined symbol stands for the only export of its name. */
  lemma UndefinedSymbolAt(run: LinkRun, o: nat, part: Part, k: nat, name: CString, s: nat)
    requires Healthy(run) && IsPart(run, o, part) && k < |part.symbols| && SymbolAt(run, o, k, s)
    requires part.symbols[k].section == UNDEFINED_SECTION && part.symbols[k].name == Some(name)
    ensures UniqueExport(run.images, run.placed, name, s)
  {
    hide Checked, Follows, AllPlaced, MergedWell, Relocating, PartFacts, Index, ImageFormat.Normal, UniqueExport;
    PartRelocations(run, o, part);
    assert run.images[o].symbols[k] == NormalSymbol(part.symbols[k]);
  }

  /** The only export of a name that an object labels and declares global is that label. */
  lemma ExportReached(run: LinkRun, p: nat, other: Part, j: nat, name: CString, s: nat)
    requires IsPartLine(run, p, other, j) && Labelled(other, j, name) && name in other.c.globals
    requires UniqueExport(run.images, run.placed, name, s)
    ensures s == LineAddress(run, p, other, j)
  {
    hide Checked, Follows, AllPlaced, MergedWell, Relocating, Index, ImageFormat.Normal, Symbols,
         ObjectAssembly.SymbolIndex, SymbolsOk, WellLaid, AllFit, AllThere, RelocatesExactly, Sized, DistinctLabels;
    var k := ObjectAssembly.SymbolIndex(other.symbols, name);
    LabelFound(other.c, j);
    GlobalFound(other.c, name);
    PartRelocations(run, p, other);
    assert run.images[p].symbols[k] == NormalSymbol(other.symbols[k]);
    assert ExportAt(run.images, p, k, name);
    LineInSection(run, p, other, j);
    BelowRom(run, p, other.c.lines[j].section);
    Bits.ModSmall(LineAddress(run, p, other, j), WORD_RANGE);
  }

  lemma BelowRom(run: LinkRun, o: nat, s: nat)
    requires Healthy(run) && o < |run.images| && s < |run.images[o].sections|
    ensures AddressOf(run, o, s) <= ROM_SIZE
  {
    hide Checked, Follows, MergedWell, Relocating, Index;
    FindPlaced(run.images, run.placed, o, s);
    assert PlacedWell(run.placed, Inputs(run.images)[Index(run.images, o, s)], Index(run.images, o, s));
  }

  /**
    The documented meaning of a label operand, its absolute address, holds for a label of
    the object itself exactly when another section defines it or its section lies at 0.
   */
  lemma LabelIsAbsolute(objects: seq<seq<Byte>>, requested: Option<CString>, run: LinkRun, output: seq<Byte>,
                        rom: seq<Byte>, o: nat, part: Part, i: nat, j: nat, name: CString, m: Machine.State)
    requires AtStatement(objects, requested, run, output, rom, o, part, i, m)
    requires Uses(part, i, name) && Labelled(part, j, name)
    ensures Machine.Fetch(m).instruction.Some? && IsPartLine(run, o, part, j)
    ensures Index(run.images, o, part.c.lines[j].section) < |Inputs(run.images)|
    ensures Machine.Fetch(m).instruction.value.immediate == LineAddress(run, o, part, j)
            <==> part.c.lines[i].section != part.c.lines[j].section
                 || AtZero(Inputs(run.images), Index(run.images, o, part.c.lines[j].section))
  {
    hide Link, Linked, Load, AssembledAs, Healthy, IsPart, TranslateLine, AddressOf, AtZero, Index, LineAddress,
         Machine.Fetch;
    if part.c.lines[i].section == part.c.lines[j].section {
      OwnSectionLabel(objects, requested, run, output, rom, o, part, i, j, name, m);
    } else {
      LabelReachedAcrossSections(objects, requested, run, output, rom, o, part, i, j, name, m);
      LineInSection(run, o, part, j);
      SectionAtZero(run, o, part.c.lines[j].section);
    }
  }

  // ----- .locate -----

  /** The linker leaves a section that is marked as located at its own address. */
  lemma LocatedStays(run: LinkRun, o: nat, part: Part, s: nat)
    requires Healthy(run) && IsPart(run, o, part) && s < |part.c.sections| && part.c.sections[s].flags == LOCATED
    ensures s < |run.images[o].sections| && AddressOf(run, o, s) == part.c.sections[s].address
  {
    hide Checked, Follows, MergedWell, Relocating, Inputs, Apart, Bits.And, PartFacts, ImageFormat.Normal;
    PartSection(run, o, part, s);
    InputAt(run.images, o, s);
    FindPlaced(run.images, run.placed, o, s);
    var d := Index(run.images, o, s);
    assert PlacedWell(run.placed, Inputs(run.images)[d], d);
    MarkSet();
  }

  lemma MarkSet()
    ensures Bits.And(1, 1) == 1
  {
  }

  /** Line m of the source is the first with bytes behind the `.locate` in line k, and in its section. */
  ghost predicate FirstLocated(lines: seq<SourceLine>, k: nat, m: nat)
    requires AllValid(lines)
  {
    && Run(lines).Ok? && k < m < |lines| && lines[k].content.LocateAt? && IsRecorded(lines[m])
    && Run(lines[..k]).Ok? && Run(lines[..m]).Ok? && Run(lines[..m]).value.current == Run(lines[..k]).value.current
    && (forall i :: k < i < m ==> Still(lines, i, Run(lines[..k]).value.current))
    && Step(Run(lines[..m]).value, lines[m]).Ok? && Size(Recorded(Run(lines[..m]).value, lines[m]).emission) > 0
  }

  /**
    `.locate a` puts the first line with bytes behind it at address a of the linked program
    exactly when some `.locate` met its section empty, or the section ends up at address 0.
    Otherwise the linker places the section itself and adds its address.
   */
  lemma LocatedLineAddress(run: LinkRun, o: nat, part: Part, k: nat, m: nat) returns (j: nat)
    requires Healthy(run) && IsPart(run, o, part) && AllValid(part.lines) && FirstLocated(part.lines, k, m)
    ensures j == |Run(part.lines[..m]).value.lines| && IsPartLine(run, o, part, j)
    ensures part.c.lines[j].section < |run.images[o].sections|
            && Index(run.images, o, part.c.lines[j].section) < |Inputs(run.images)|
    ensures LineAddress(run, o, part, j) == part.lines[k].content.address
            <==> LocatedEmpty(part.lines, part.c.lines[j].section)
                 || AtZero(Inputs(run.images), Index(run.images, o, part.c.lines[j].section))
    ensures !LocatedEmpty(part.lines, part.c.lines[j].section) ==>
              LineAddress(run, o, part, j)
              == AddressOf(run, o, part.c.lines[j].section) + part.lines[k].content.address
  {
    hide Healthy, PartFacts, ImageFormat.Normal, Run, Step, Recorded, Still, LocatedEmpty, AtZero, AddressOf, Index,
         Size;
    FactsOf(run, o, part);
    LocatedLine(part.lines, k, m);
    j := |Run(part.lines[..m]).value.lines|;
    var s := part.c.lines[j].section;
    LineInSection(run, o, part, j);
    MarkedIs(part.lines, s);
    SectionAtZero(run, o, s);
    if LocatedEmpty(part.lines, s) {
      LocatedStays(run, o, part, s);
    } else {
      SectionUnmarked(part.c, s);
    }
  }

  lemma SectionUnmarked(c: Context, s: nat)
    requires WellLaid(c) && s < |c.sections| && c.sections[s].flags == 0
    ensures c.sections[s].address == 0
  {
    assert SectionFine(c.sections[s]);
  }
}
