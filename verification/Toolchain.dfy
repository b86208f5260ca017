/** The whole chain: source lines are assembled to objects, linked, loaded and fetched. */
module Toolchain {
  import opened Wrappers
  import opened Bits
  import opened Bytes
  import opened ImageFormat
  import opened ImageRoundTrip
  import opened Linking
  import opened LinkProofs
  import opened Loading
  import opened LinkAndLoad
  import opened Layout
  import opened LayoutProofs
  import opened RawAssembly
  import opened ObjectAssembly
  import opened ObjectProofs
  import opened Statements
  import Instructions
  import Machine
  import Linker
  import VirtualMachine

  // ----- one assembled object -----

  /** The intermediate results of assembling an object. */
  datatype Part = Part(lines: seq<SourceLine>, c: Context, symbols: seq<Symbol>, emitted: Emitted)

  function ImageOf(part: Part): Image
    requires |part.emitted.datas| == |part.c.sections|
  {
    Image(OBJECT, 0, part.c.entry, SectionImages(part.c.sections, part.emitted.datas), part.symbols,
          part.emitted.relocations)
  }

  predicate AssembledAs(part: Part, bytes: seq<Byte>) {
    && AllValid(part.lines) && LaidOut(part.lines) == Ok(part.c) && Labels(part.c.lines).Ok?
    && Symbols(part.c) == Ok(part.symbols) && EmitLines(part.c, part.symbols, part.c.lines) == Ok(part.emitted)
    && |part.emitted.datas| == |part.c.sections| && Encode(ImageOf(part)) == Ok(bytes)
  }

  lemma PartOf(lines: seq<SourceLine>) returns (part: Part)
    requires AllValid(lines) && AssembleObject(lines).Ok?
    ensures part.lines == lines && AssembledAs(part, AssembleObject(lines).value)
  {
    hide LaidOut, Labels, Symbols, EmitLines, Encode;
    var c := LaidOut(lines).value;
    var symbols := Symbols(c).value;
    DataCount(c, symbols, c.lines);
    part := Part(lines, c, symbols, EmitLines(c, symbols, c.lines).value);
  }

  /** What the assembler guarantees of an object, without the encoding. */
  predicate PartFacts(part: Part) {
    && AllValid(part.lines) && Run(part.lines) == Ok(part.c)
    && WellLaid(part.c) && |part.c.sections| <= 6 && Small(part.c) && AllFit(part.c, part.c.lines)
    && DistinctLabels(part.c.lines) && Symbols(part.c) == Ok(part.symbols)
    && Sized(part.c.sections, part.emitted.datas)
    && AllThere(part.c, part.symbols, part.c.lines, part.emitted.datas)
    && RelocatesExactly(part.c, part.symbols, part.c.lines, part.emitted.relocations)
    && |part.symbols| <= WORD_MAX
  }

  lemma PartHolds(part: Part, bytes: seq<Byte>)
    requires AssembledAs(part, bytes)
    ensures PartFacts(part) && Decode(bytes) == Ok(Normal(ImageOf(part)))
  {
    hide Run, Labels, Symbols, EmitLines, Encode, Decode, Normal, WellLaid, Small, AllFit, DistinctLabels, Sized,
         AllThere, GapsZero, RelocatesExactly, Readable;
    RunWellLaid(part.lines);
    OutputIsBounded(part.lines);
    LaidOutSmall(part.c);
    LabelsHold(part.c.lines);
    ContentsHold(part.c, part.symbols, part.c.lines);
    RelocationsHold(part.c, part.symbols, part.c.lines);
    EncodedIsSmall(ImageOf(part));
    assert ObjectImage(part.c) == Ok(ImageOf(part));
    ObjectIsStructural(part.c);
    DecodeEncode(ImageOf(part));
  }

  lemma EncodedIsSmall(image: Image)
    requires Encode(image).Ok?
    ensures |image.symbols| <= WORD_MAX
  {
    hide PayloadOffset, TotalSize, RecordsOk, EntryOk, Written;
  }

  // ----- its place in a linked program -----

  lemma {:induction false} DecodedInOrder(objects: seq<seq<Byte>>, images: seq<Image>, o: nat)
    requires DecodeAll(objects) == Ok(images) && o < |objects|
    ensures |images| == |objects| && Decode(objects[o]) == Ok(images[o])
  {
    hide Decode;
    var front := objects[..|objects| - 1];
    if o < |front| {
      DecodedInOrder(front, DecodeAll(front).value, o);
    } else if front != [] {
      DecodedInOrder(front, DecodeAll(front).value, 0);
    } else {
      assert DecodeAll(front) == Ok([]);
    }
  }

  /** Object o of the run is this part. */
  predicate IsPart(run: LinkRun, o: nat, part: Part) {
    o < |run.images| && PartFacts(part) && run.images[o] == Normal(ImageOf(part))
  }

  lemma PartLinked(objects: seq<seq<Byte>>, requested: Option<CString>, run: LinkRun, output: seq<Byte>, o: nat,
                   part: Part)
    requires Linked(objects, requested, run, output) && o < |objects| && AssembledAs(part, objects[o])
    ensures Healthy(run) && IsPart(run, o, part)
  {
    hide Healthy, PartFacts, AssembledAs, Decode, DecodeAll, Place, Merge, Relocate, Encode, Normal, Executable,
         EntryAddress, SelectedEntry;
    RunIsHealthy(objects, requested, run, output);
    DecodedInOrder(objects, run.images, o);
    PartHolds(part, objects[o]);
  }

  /** The final address of a section of a part. */
  function AddressOf(run: LinkRun, o: nat, s: nat): nat
    requires Healthy(run) && o < |run.images| && s < |run.images[o].sections|
  {
    FindPlaced(run.images, run.placed, o, s);
    run.placed[Index(run.images, o, s)].image.address
  }

  lemma PartSection(run: LinkRun, o: nat, part: Part, s: nat)
    requires IsPart(run, o, part) && s < |part.c.sections|
    ensures s < |run.images[o].sections|
    ensures run.images[o].sections[s] == NormalSection(SectionImage(part.c.sections[s], part.emitted.datas[s]))
  {
    hide NormalSection, SectionImage, WellLaid, Small, AllFit, AllThere, RelocatesExactly;
  }

  // ----- .align -----

  /**
    `.align` survives linking: in a section without `.locate`, the first line behind
    `.align n` has an absolute address in the linked program that is a multiple of n.
   */
  lemma AlignmentSurvives(objects: seq<seq<Byte>>, requested: Option<CString>, run: LinkRun, output: seq<Byte>, o: nat,
                          part: Part, k: nat, j: nat)
    requires Linked(objects, requested, run, output) && o < |objects| && AssembledAs(part, objects[o])
    requires k < |part.lines| && part.lines[k].content.AlignTo? && AllValid(part.lines) && Run(part.lines[..k]).Ok?
    requires |Run(part.lines[..k]).value.lines| <= j < |part.c.lines|
    requires part.c.lines[j].section == Run(part.lines[..k]).value.current
    requires forall i :: |Run(part.lines[..k]).value.lines| <= i < j ==>
               part.c.lines[i].section != Run(part.lines[..k]).value.current
    requires !LocatedIn(part.lines, Run(part.lines[..k]).value.current)
    ensures Healthy(run) && IsPart(run, o, part) && part.c.lines[j].section < |run.images[o].sections|
    ensures var n := part.lines[k].content.alignment;
            n > 0 && (AddressOf(run, o, part.c.lines[j].section) + part.c.lines[j].offset) % n == 0
  {
    hide Linked, AssembledAs, Healthy, IsPart, PartFacts, Run, LocatedIn, AddressOf;
    PartLinked(objects, requested, run, output, o, part);
    FactsOf(run, o, part);
    AlignedLine(part.lines, k, j);
    var line, n := part.c.lines[j], part.lines[k].content.alignment;
    PartSection(run, o, part, line.section);
    NeverLocated(part.lines, line.section);
    PlacedAligned(run, o, part, line.section);
    DividesTransitive(AddressOf(run, o, line.section), part.c.sections[line.section].alignment, n);
    SumDivides(AddressOf(run, o, line.section), line.offset, n);
  }

  lemma FactsOf(run: LinkRun, o: nat, part: Part)
    requires IsPart(run, o, part)
    ensures AllValid(part.lines) && Run(part.lines) == Ok(part.c) && WellLaid(part.c) && o < |run.images|
  {
  }

  /** The linker places a section without an address at a multiple of its alignment. */
  lemma PlacedAligned(run: LinkRun, o: nat, part: Part, s: nat)
    requires Healthy(run) && IsPart(run, o, part) && s < |part.c.sections|
    requires part.c.sections[s].flags == 0 && part.c.sections[s].address == 0
    ensures part.c.sections[s].alignment > 0 && s < |run.images[o].sections|
    ensures AddressOf(run, o, s) % part.c.sections[s].alignment == 0
  {
    hide Checked, Follows, MergedWell, Relocating, Inputs, Apart, And, Small, AllFit, AllThere, RelocatesExactly,
         DistinctLabels, LinesOrdered, Named;
    PartSection(run, o, part, s);
    assert SectionFine(part.c.sections[s]);
    InputAt(run.images, o, s);
    FindPlaced(run.images, run.placed, o, s);
    var d := Index(run.images, o, s);
    assert PlacedWell(run.placed, Inputs(run.images)[d], d);
    NoFlags();
  }

  lemma NoFlags()
    ensures And(0, 1) == 0
  {
  }

  // ----- statements -----

  /** Positions identify sections. */
  lemma IndexInjective(images: seq<Image>, o: nat, s: nat, o': nat, s': nat)
    requires o < |images| && s < |images[o].sections| && o' < |images| && s' < |images[o'].sections|
    requires Index(images, o, s) == Index(images, o', s')
    ensures o == o' && s == s'
  {
    var rows := InputRows(images);
    if o < o' { FlattenGrows(rows, o, o'); }
    if o' < o { FlattenGrows(rows, o', o); }
  }

  /** Lines of one section do not overlap. */
  lemma SameLine(c: Context, i: nat, j: nat, p: nat)
    requires AllFit(c, c.lines) && i < |c.lines| && j < |c.lines| && c.lines[i].section == c.lines[j].section
    requires c.lines[i].offset <= p < End(c.lines[i]) && c.lines[j].offset <= p < End(c.lines[j])
    ensures i == j
  {
    hide LineFits;
  }

  function InputsOf(run: LinkRun): seq<Tagged<Relocation>> {
    Flatten(RelocationInputs(run.images))
  }

  /** A relocation of the program that touches a statement's bytes is that statement's own. */
  lemma OnlyOwnRelocation(run: LinkRun, o: nat, part: Part, i: nat, q: nat, p: nat)
    requires Healthy(run) && IsPart(run, o, part) && i < |part.c.lines| && q < |InputsOf(run)|
    requires part.c.lines[i].section < |run.images[o].sections|
    requires Covers(run.images, InputsOf(run)[q], Index(run.images, o, part.c.lines[i].section), p)
    requires part.c.lines[i].offset <= p < End(part.c.lines[i])
    ensures InputsOf(run)[q].owner == o && RelocatesAt(part.c, part.symbols, part.c.lines[i], InputsOf(run)[q].value)
  {
    hide Healthy, IsPart, Index, RelocatesAt, LineFits, End;
    LinesFit(run, o, part);
    var row, column := InputFrom(run, q);
    var r := run.images[row].relocations[column];
    IndexInjective(run.images, row, r.section, o, part.c.lines[i].section);
    var k := RelocationLine(run, o, part, r);
    LineSmall(run, o, part, k);
    OwnSite(part.c, part.symbols, part.c.lines[k], r);
    SameLine(part.c, i, k, p);
  }

  /** Where a relocation input comes from. */
  lemma InputFrom(run: LinkRun, q: nat) returns (row: nat, column: nat)
    requires Healthy(run) && q < |InputsOf(run)|
    ensures row < |run.images| && column < |run.images[row].relocations|
    ensures InputsOf(run)[q] == Tagged(row, run.images[row].relocations[column])
    ensures run.images[row].relocations[column].section < |run.images[row].sections|
  {
    hide Checked, Follows, AllPlaced, MergedWell, Index, Inputs;
    row, column := FlattenLocate(RelocationInputs(run.images), q);
    assert FromObjects(run.images, InputsOf(run)[q]);
  }

  /** A relocation of a part belongs to one of its lines. */
  lemma RelocationLine(run: LinkRun, o: nat, part: Part, r: Relocation) returns (k: nat)
    requires IsPart(run, o, part) && r in run.images[o].relocations
    ensures k < |part.c.lines| && RelocatesAt(part.c, part.symbols, part.c.lines[k], r)
  {
    hide WellLaid, Small, AllFit, AllThere, DistinctLabels, Sized, Normal, RelocatesAt;
    PartRelocations(run, o, part);
    assert ComesFrom(part.c, part.symbols, part.c.lines, r);
    k :| 0 <= k < |part.c.lines| && part.c.lines[k].section < |part.c.sections|
         && part.c.sections[part.c.lines[k].section].kind != BSS
            && RelocatesAt(part.c, part.symbols, part.c.lines[k], r);
  }

  lemma LinesFit(run: LinkRun, o: nat, part: Part)
    requires IsPart(run, o, part)
    ensures o < |run.images| && AllFit(part.c, part.c.lines)
  {
    hide AllFit, WellLaid, Small, AllThere, DistinctLabels, Sized, Normal, RelocatesExactly;
  }

  lemma OwnSite(c: Context, symbols: seq<Symbol>, line: Line, r: Relocation)
    requires RelocatesAt(c, symbols, line, r) && line.section < 6 && line.offset <= ROM_SIZE
    ensures r.section == line.section && r.offset == line.offset + 4 && End(line) == line.offset + 8
    ensures r.kind == ABSOLUTE32 && r.addend == 0
  {
    hide TranslateLine, RelocatesAt, ObjectAssembly.SymbolIndex, LocalLine;
    RelocationSite(c, symbols, line, r);
  }

  lemma PartRelocations(run: LinkRun, o: nat, part: Part)
    requires IsPart(run, o, part)
    ensures run.images[o].relocations == part.emitted.relocations && |run.images[o].symbols| == |part.symbols|
    ensures forall k :: 0 <= k < |part.symbols| ==> run.images[o].symbols[k] == NormalSymbol(part.symbols[k])
  {
    hide WellLaid, Small, AllFit, AllThere, RelocatesExactly, DistinctLabels, Sized;
  }

  lemma {:induction false} LastOccurrence<T>(s: seq<T>, x: T) returns (q: nat)
    requires x in s
    ensures q < |s| && s[q] == x && forall k :: q < k < |s| ==> s[k] != x
  {
    if s[|s| - 1] == x {
      q := |s| - 1;
    } else {
      q := LastOccurrence(s[..|s| - 1], x);
    }
  }

  lemma RelocationPresent(run: LinkRun, o: nat, part: Part, r: Relocation)
    requires IsPart(run, o, part) && r in part.emitted.relocations
    ensures Tagged(o, r) in InputsOf(run)
  {
    hide PartFacts, Normal;
    PartRelocations(run, o, part);
    var j :| 0 <= j < |part.emitted.relocations| && part.emitted.relocations[j] == r;
    var rows := RelocationInputs(run.images);
    Linker.RowPosition(rows, o, j, |Flatten(rows[..o])| + j);
  }

  /** The object supplies a line's bytes at the line's offset. */
  lemma LineData(run: LinkRun, o: nat, part: Part, i: nat, p: nat)
    requires IsPart(run, o, part) && i < |part.c.lines| && p < Size(part.c.lines[i].emission)
    ensures part.c.lines[i].section < |run.images[o].sections|
            && TranslateLine(part.c, part.symbols, part.c.lines[i]).Ok?
    ensures p < |TranslateLine(part.c, part.symbols, part.c.lines[i]).value.bytes|
    ensures var data, at := run.images[o].sections[part.c.lines[i].section], part.c.lines[i].offset + p;
            && at < data.size && data.data.Some? && |data.data.value| == data.size
            && data.data.value[at] == TranslateLine(part.c, part.symbols, part.c.lines[i]).value.bytes[p]
  {
    hide IsPart, TranslateLine, Size;
    var line := part.c.lines[i];
    LineIsThere(run, o, part, i);
    TranslationHasSize(part.c, part.symbols, line);
    StatementData(run, o, part, line.section);
    AtIndex(part.emitted.datas[line.section], line.offset, TranslateLine(part.c, part.symbols, line).value.bytes, p);
  }

  lemma LineIsThere(run: LinkRun, o: nat, part: Part, i: nat)
    requires IsPart(run, o, part) && i < |part.c.lines|
    ensures o < |run.images| && LineThere(part.c, part.symbols, part.c.lines[i], part.emitted.datas)
  {
    hide LineThere, Normal, WellLaid, Small, AllFit, DistinctLabels, RelocatesExactly;
  }

  /** A byte of a line that its relocation does not touch is loaded as it was assembled. */
  lemma StatementByte(run: LinkRun, loaded: seq<Byte>, o: nat, part: Part, i: nat, p: nat)
    requires Healthy(run) && IsPart(run, o, part) && Relocate(run.images, run.placed, run.merged) == Ok(run.datas)
    requires LoadedSections(run, loaded) && i < |part.c.lines| && p < Size(part.c.lines[i].emission)
    requires TranslateLine(part.c, part.symbols, part.c.lines[i]).Ok?
             && part.c.lines[i].section < |run.images[o].sections|
    requires TranslateLine(part.c, part.symbols, part.c.lines[i]).value.relocation.Some? ==> p < 4
    ensures p < |TranslateLine(part.c, part.symbols, part.c.lines[i]).value.bytes|
    ensures var at := AddressOf(run, o, part.c.lines[i].section) + part.c.lines[i].offset + p;
            at < |loaded| && loaded[at] == TranslateLine(part.c, part.symbols, part.c.lines[i]).value.bytes[p]
  {
    hide Healthy, PartFacts, Normal, Relocate, TranslateLine, Index, Covers, Size, NormalForm;
    LineData(run, o, part, i, p);
    NoneCovers(run, o, part, i, p, part.c.lines[i].offset + p);
    PlainByteInRom(run, loaded, o, part.c.lines[i].section, part.c.lines[i].offset + p);
  }

  lemma StatementData(run: LinkRun, o: nat, part: Part, s: nat)
    requires IsPart(run, o, part) && s < |part.c.sections| && part.c.sections[s].kind != BSS
    ensures s < |run.images[o].sections| && run.images[o].sections[s].data == Some(part.emitted.datas[s])
    ensures run.images[o].sections[s].size == |part.emitted.datas[s]|
  {
    hide WellLaid, Small, AllFit, AllThere, RelocatesExactly, DistinctLabels, Normal;
    PartSection(run, o, part, s);
  }

  lemma NoneCovers(run: LinkRun, o: nat, part: Part, i: nat, p: nat, at: nat)
    requires Healthy(run) && IsPart(run, o, part) && i < |part.c.lines| && p < Size(part.c.lines[i].emission)
    requires part.c.lines[i].section < |run.images[o].sections| && at == part.c.lines[i].offset + p
    requires TranslateLine(part.c, part.symbols, part.c.lines[i]).Ok?
    requires TranslateLine(part.c, part.symbols, part.c.lines[i]).value.relocation.Some? ==> p < 4
    ensures var inputs := Flatten(RelocationInputs(run.images));
            forall q :: 0 <= q < |inputs| ==>
              !Covers(run.images, inputs[q], Index(run.images, o, part.c.lines[i].section), at)
  {
    hide Healthy, PartFacts, Normal, TranslateLine, Index, Covers, Size;
    var inputs := Flatten(RelocationInputs(run.images));
    forall q | 0 <= q < |inputs|
      ensures !Covers(run.images, inputs[q], Index(run.images, o, part.c.lines[i].section), at)
    {
      ByteUntouched(run, o, part, i, q, p);
    }
  }

  lemma ByteUntouched(run: LinkRun, o: nat, part: Part, i: nat, q: nat, p: nat)
    requires Healthy(run) && IsPart(run, o, part) && i < |part.c.lines| && q < |InputsOf(run)|
             && p < Size(part.c.lines[i].emission)
    requires part.c.lines[i].section < |run.images[o].sections|
    requires TranslateLine(part.c, part.symbols, part.c.lines[i]).Ok?
    requires TranslateLine(part.c, part.symbols, part.c.lines[i]).value.relocation.Some? ==> p < 4
    ensures !Covers(run.images, InputsOf(run)[q], Index(run.images, o, part.c.lines[i].section),
                    part.c.lines[i].offset + p)
  {
    hide Healthy, TranslateLine, WellLaid, AllFit, AllThere, RelocatesExactly, DistinctLabels, Sized, Normal, Index,
         InputsOf;
    var line, d := part.c.lines[i], Index(run.images, o, part.c.lines[i].section);
    if Covers(run.images, InputsOf(run)[q], d, line.offset + p) {
      OnlyOwnRelocation(run, o, part, i, q, line.offset + p);
      OwnSite(part.c, part.symbols, line, InputsOf(run)[q].value);
      assert false;
    }
  }

  /** Where a line's relocation is applied last. */
  lemma LastRelocation(run: LinkRun, o: nat, part: Part, i: nat, r: Relocation) returns (q: nat)
    requires Healthy(run) && IsPart(run, o, part) && i < |part.c.lines|
             && part.c.lines[i].section < |run.images[o].sections|
    requires RelocatesAt(part.c, part.symbols, part.c.lines[i], r)
    ensures q < |InputsOf(run)| && InputsOf(run)[q] == Tagged(o, r)
    ensures forall k :: q < k < |InputsOf(run)| ==> !Collide(run.images, InputsOf(run)[q], InputsOf(run)[k])
  {
    hide Healthy, InputsOf, WellLaid, Small, AllFit, AllThere, DistinctLabels, TranslateLine, Normal, Sized, Collide;
    assert TranslateLine(part.c, part.symbols, part.c.lines[i]).value.relocation.value in part.emitted.relocations;
    RelocationPresent(run, o, part, r);
    q := LastOccurrence(InputsOf(run), Tagged(o, r));
    forall k | q < k < |InputsOf(run)| ensures !Collide(run.images, InputsOf(run)[q], InputsOf(run)[k]) {
      LaterApart(run, o, part, i, r, q, k);
    }
  }

  lemma LineSmall(run: LinkRun, o: nat, part: Part, i: nat)
    requires IsPart(run, o, part) && i < |part.c.lines|
    ensures part.c.lines[i].section < 6 && part.c.lines[i].offset <= ROM_SIZE
  {
    hide WellLaid, AllFit, AllThere, RelocatesExactly, DistinctLabels, Sized, Normal;
  }

  /** The operand word of a relocated statement is loaded as the address its symbol stands for. */
  lemma StatementWord(run: LinkRun, loaded: seq<Byte>, o: nat, part: Part, i: nat, r: Relocation) returns (s: nat)
    requires Healthy(run) && IsPart(run, o, part) && Relocate(run.images, run.placed, run.merged) == Ok(run.datas)
    requires LoadedSections(run, loaded) && i < |part.c.lines| && part.c.lines[i].section < |run.images[o].sections|
    requires RelocatesAt(part.c, part.symbols, part.c.lines[i], r)
    ensures SymbolAt(run, o, r.symbol, s) && s < WORD_RANGE
    ensures At(loaded, AddressOf(run, o, part.c.lines[i].section) + part.c.lines[i].offset + 4, LE(s, 4))
  {
    hide Checked, AllPlaced, MergedWell, Relocating, Relocate, IsPart, RelocatesAt, Index, ResolvesTo, LE, Follows,
         Expected;
    LineSmall(run, o, part, i);
    OwnSite(part.c, part.symbols, part.c.lines[i], r);
    var q := LastRelocation(run, o, part, i, r);
    s := RelocatedWordInRom(run, loaded, q);
    ExpectedAbsolute(run, InputsOf(run)[q], s);
    CheckedSymbol(run.images, o, r.symbol);
  }

  predicate CheckedReference(run: LinkRun, o: nat, k: nat) {
    && o < |run.images| && k < |run.images[o].symbols| && Checked(run.images) && Follows(run.images, run.placed)
    && (Defined(run.images[o].symbols[k]) ==> run.images[o].symbols[k].section < |run.images[o].sections|)
  }

  lemma ExpectedAbsolute(run: LinkRun, r: Tagged<Relocation>, s: nat)
    requires Follows(run.images, run.placed) && FromObjects(run.images, r)
    requires r.value.kind == ABSOLUTE32 && r.value.addend == 0
    requires InReach(r.value, Expected(run.images, run.placed, r, s))
    ensures Expected(run.images, run.placed, r, s) == s < WORD_RANGE && s % WORD_RANGE == s
  {
    hide Follows, RelocationOk, Index;
  }

  lemma LaterApart(run: LinkRun, o: nat, part: Part, i: nat, r: Relocation, q: nat, k: nat)
    requires Healthy(run) && IsPart(run, o, part) && i < |part.c.lines|
             && part.c.lines[i].section < |run.images[o].sections|
    requires RelocatesAt(part.c, part.symbols, part.c.lines[i], r)
    requires q < |InputsOf(run)| && InputsOf(run)[q] == Tagged(o, r) && k < |InputsOf(run)|
             && InputsOf(run)[k] != Tagged(o, r)
    ensures !Collide(run.images, InputsOf(run)[q], InputsOf(run)[k])
  {
    hide Healthy, TranslateLine, WellLaid, AllFit, AllThere, RelocatesExactly, DistinctLabels, Sized, Normal, Index,
         InputsOf;
    var line, other := part.c.lines[i], InputsOf(run)[k];
    OwnSite(part.c, part.symbols, line, r);
    if Collide(run.images, InputsOf(run)[q], other) {
      var p := if other.value.offset <= r.offset then r.offset else other.value.offset;
      assert Covers(run.images, other, Index(run.images, o, line.section), p);
      OnlyOwnRelocation(run, o, part, i, k, p);
      assert false;
    }
  }

  // ----- fetching a linked statement -----

  predicate SameByte(memory: seq<Byte>, at: nat, bytes: seq<Byte>, p: nat) {
    p < |bytes| && at + p < |memory| && memory[at + p] == bytes[p]
  }

  lemma EightBytes(memory: seq<Byte>, at: nat, bytes: seq<Byte>, word: seq<Byte>)
    requires |bytes| == 8 && |word| == 4 && At(memory, at + 4, word)
    requires forall p :: 0 <= p < 4 ==> SameByte(memory, at, bytes, p)
    ensures at + 8 <= |memory| && memory[at..at + 8] == bytes[..4] + word
  {
    AtEach(memory, at + 4, word);
    var found := memory[at..at + 8];
    forall k | 0 <= k < 8 ensures found[k] == (bytes[..4] + word)[k] {
      if k >= 4 {
        assert memory[at + 4 + (k - 4)] == word[k - 4];
      } else {
        assert SameByte(memory, at, bytes, k);
      }
    }
  }

  lemma SliceIs(memory: seq<Byte>, at: nat, bytes: seq<Byte>)
    requires |bytes| == 8 && forall p :: 0 <= p < 8 ==> SameByte(memory, at, bytes, p)
    ensures at + 8 <= |memory| && memory[at..at + 8] == bytes
  {
    assert SameByte(memory, at, bytes, 7);
    forall k | 0 <= k < 8 ensures memory[at..at + 8][k] == bytes[k] {
      assert SameByte(memory, at, bytes, k);
    }
  }

  lemma AtEach(memory: seq<Byte>, at: nat, part: seq<Byte>)
    requires At(memory, at, part)
    ensures at + |part| <= |memory| && forall k :: 0 <= k < |part| ==> memory[at + k] == part[k]
  {
    forall k | 0 <= k < |part| ensures memory[at + k] == part[k] {
      AtIndex(memory, at, part, k);
    }
  }

  lemma DecodedParts(bytes: seq<Byte>, s: Word)
    requires |bytes| == 8
    ensures Instructions.Decoded(bytes[..4] + LE(s, 4)) == Instructions.Decoded(bytes).(immediate := s)
  {
    hide LE, FromLE;
    ReadBackWord(s);
    assert (bytes[..4] + LE(s, 4))[4..8] == LE(s, 4);
  }

  lemma StatementTranslates(run: LinkRun, o: nat, part: Part, i: nat)
    requires IsPart(run, o, part) && i < |part.c.lines| && part.c.lines[i].emission.Instruct?
    ensures TranslateLine(part.c, part.symbols, part.c.lines[i]).Ok? && Size(part.c.lines[i].emission) == 8
    ensures |TranslateLine(part.c, part.symbols, part.c.lines[i]).value.bytes| == 8
  {
    hide TranslateLine, Normal, WellLaid, Small, AllFit, AllThere, DistinctLabels, Sized;
    TranslationHasSize(part.c, part.symbols, part.c.lines[i]);
    assert TranslateLine(part.c, part.symbols, part.c.lines[i]).Ok?;
  }

  /** The bytes a statement has in the loaded ROM. */
  lemma StatementBytes(run: LinkRun, loaded: seq<Byte>, o: nat, part: Part, i: nat, at: nat) returns (s: nat)
    requires Healthy(run) && IsPart(run, o, part) && Relocate(run.images, run.placed, run.merged) == Ok(run.datas)
    requires LoadedSections(run, loaded) && i < |part.c.lines| && part.c.lines[i].emission.Instruct?
    requires part.c.lines[i].section < |run.images[o].sections|
    requires at == AddressOf(run, o, part.c.lines[i].section) + part.c.lines[i].offset
    ensures TranslateLine(part.c, part.symbols, part.c.lines[i]).Ok? && at + 8 <= |loaded|
    ensures var t := TranslateLine(part.c, part.symbols, part.c.lines[i]).value;
            |t.bytes| == 8 && loaded[at..at + 8] == if t.relocation.None? then t.bytes else t.bytes[..4] + LE(s, 4)
    ensures var t := TranslateLine(part.c, part.symbols, part.c.lines[i]).value;
            t.relocation.Some? ==> s < WORD_RANGE && SymbolAt(run, o, t.relocation.value.symbol, s)
  {
    hide Healthy, IsPart, Relocate, TranslateLine, LoadedSections, AddressOf, LE, SymbolAt, Size;
    var line := part.c.lines[i];
    StatementTranslates(run, o, part, i);
    var t := TranslateLine(part.c, part.symbols, line).value;
    if t.relocation.None? {
      forall p | 0 <= p < 8 ensures SameByte(loaded, at, t.bytes, p) {
        StatementByte(run, loaded, o, part, i, p);
      }
      s := 0;
      SliceIs(loaded, at, t.bytes);
    } else {
      forall p | 0 <= p < 4 ensures SameByte(loaded, at, t.bytes, p) {
        StatementByte(run, loaded, o, part, i, p);
      }
      s := StatementWord(run, loaded, o, part, i, t.relocation.value);
      EightBytes(loaded, at, t.bytes, LE(s, 4));
    }
  }

  /** The run behind an output is the only one. */
  lemma OneRun(objects: seq<seq<Byte>>, requested: Option<CString>, run: LinkRun, other: LinkRun, output: seq<Byte>)
    requires Linked(objects, requested, run, output) && Linked(objects, requested, other, output)
    ensures run == other
  {
    hide DecodeAll, Place, Merge, Relocate, EntryAddress, SelectedEntry, Encode, Executable;
  }

  lemma LoadedRun(objects: seq<seq<Byte>>, requested: Option<CString>, run: LinkRun, output: seq<Byte>, rom: seq<Byte>)
    requires Link(objects, requested) == Ok(output) && Linked(objects, requested, run, output) && |rom| == ROM_SIZE
    ensures Load(rom, output).Ok? && LoadedSections(run, Load(rom, output).value.0)
    ensures Relocate(run.images, run.placed, run.merged) == Ok(run.datas)
  {
    hide Link, Load, Healthy, DecodeAll, Place, Merge, Relocate, EntryAddress, SelectedEntry, Encode, Executable,
         Within;
    var other := LinkedProgramLoads(objects, requested, rom);
    OneRun(objects, requested, run, other, output);
  }

  /** A machine about to execute line i of object o of a linked and loaded program. */
  ghost predicate AtStatement(objects: seq<seq<Byte>>, requested: Option<CString>, run: LinkRun, output: seq<Byte>,
                              rom: seq<Byte>, o: nat, part: Part, i: nat, m: Machine.State)
  {
    && Link(objects, requested) == Ok(output) && Linked(objects, requested, run, output)
    && o < |objects| && AssembledAs(part, objects[o]) && Healthy(run) && IsPart(run, o, part)
    && |rom| == ROM_SIZE && Load(rom, output).Ok? && m.Valid() && m.rom == Load(rom, output).value.0
    && i < |part.c.lines| && part.c.lines[i].emission.Instruct? && part.c.lines[i].section < |run.images[o].sections|
    && m.registers[Instructions.R_PC] == AddressOf(run, o, part.c.lines[i].section) + part.c.lines[i].offset
  }

  /** The instruction line i was assembled to, with s as its operand when that is relocated against a symbol at s. */
  ghost predicate IsStatement(run: LinkRun, o: nat, part: Part, i: nat, s: nat,
                              fetched: Option<Instructions.Instruction>)
    requires i < |part.c.lines|
  {
    var t := TranslateLine(part.c, part.symbols, part.c.lines[i]);
    && t.Ok? && |t.value.bytes| == 8
    && if t.value.relocation.None? then fetched == Some(Instructions.Decoded(t.value.bytes))
       else
         && s < WORD_RANGE && SymbolAt(run, o, t.value.relocation.value.symbol, s)
         && fetched == Some(Instructions.Decoded(t.value.bytes).(immediate := s))
  }

  /** Symbol k of object o stands for address s: its own definition, or else the only export of its name. */
  ghost predicate SymbolAt(run: LinkRun, o: nat, k: nat, s: nat) {
    CheckedReference(run, o, k) && ResolvesTo(run.images, run.placed, o, run.images[o].symbols[k], s)
  }

  /**
    Assembled, linked, loaded and fetched: a machine whose ROM holds the linked program
    and whose program counter is at a statement's final address fetches that statement,
    with the operand replaced by the address its label stands for if it was relocated.
   */
  lemma FetchesLinkedStatement(objects: seq<seq<Byte>>, requested: Option<CString>, run: LinkRun, output: seq<Byte>,
                               rom: seq<Byte>, o: nat, part: Part, i: nat, m: Machine.State) returns (s: nat)
    requires AtStatement(objects, requested, run, output, rom, o, part, i, m)
    ensures IsStatement(run, o, part, i, s, Machine.Fetch(m).instruction)
  {
    hide Link, Linked, Load, AssembledAs, Healthy, IsPart, Relocate, TranslateLine, LoadedSections, AddressOf, LE,
         FromLE, SymbolAt, Instructions.Decoded;
    LoadedRun(objects, requested, run, output, rom);
    var pc := m.registers[Instructions.R_PC];
    s := StatementBytes(run, m.rom, o, part, i, pc);
    Machine.FetchedInOrder(m, pc);
    assert m.Memory()[pc..pc + 8] == m.rom[pc..pc + 8];
    var t := TranslateLine(part.c, part.symbols, part.c.lines[i]).value;
    if t.relocation.Some? { DecodedParts(t.bytes, s); }
  }

  /** The first section of the first object is never placed at address 0 by the linker itself. */
  lemma FirstSectionAboveZero(run: LinkRun)
    requires Healthy(run) && run.placed != [] && Automatic(Inputs(run.images)[0].image)
             && ValidAlignment(run.placed[0].image.alignment)
    ensures run.placed[0].image.address >= FIRST_ADDRESS
  {
    hide Checked, Follows, MergedWell, Relocating, Apart, And;
    assert PlacedWell(run.placed, Inputs(run.images)[0], 0);
    assert run.placed[..0] == [];
  }

  lemma EncodedOperand(c: Context, symbols: seq<Symbol>, line: Line)
    requires line.emission.Instruct? && TranslateLine(c, symbols, line).Ok?
    ensures OperandIn(c, symbols, line, line.emission.statement.operand).Ok?
    ensures var t, operand := TranslateLine(c, symbols, line).value,
            OperandIn(c, symbols, line, line.emission.statement.operand).value;
            |t.bytes| == 8 && t.relocation == operand.relocation
              && Instructions.Decoded(t.bytes).immediate == operand.word
  {
    hide OperandIn, RegisterOf, ArityOf, Instructions.Encoded, Instructions.Decoded;
    var s := line.emission.statement;
    var operand := OperandIn(c, symbols, line, s.operand).value;
    Instructions.DecodedEncoded(Instructions.Instruction(s.opcode.value, if s.condition.Some?
                                                         then s.condition.value
                                                         else 0, RegisterOf(s.register1).value,
                                                         RegisterOf(s.register2).value, operand.word));
  }

  // ----- raw programs -----

  /** A raw program put into ROM by a dump load is fetched statement by statement at its labels' addresses. */
  lemma DumpedStatementFetches(lines: seq<SourceLine>, recorded: seq<Line>, labels: LabelMap, output: seq<Byte>, i: nat,
                               m: Machine.State)
    requires AllValid(lines) && Assembled(lines, recorded, labels, output) && |output| <= ROM_SIZE
    requires i < |recorded| && recorded[i].emission.Instruct? && m.Valid()
    ensures InstructionOf(recorded[i].emission.statement, labels).Ok? && LineBytes(recorded[..i]) <= ROM_SIZE
    ensures Machine.Fetch(VirtualMachine.Dumped(m, output).WithRegister(Instructions.R_PC,
            LineBytes(recorded[..i]))).instruction
            == Some(InstructionOf(recorded[i].emission.statement, labels).value)
  {
    hide LaidOut, Labels, Translate, LineBytes, InstructionOf, Machine.Fetch;
    LengthEmitted(recorded, labels);
    BytesBefore(recorded, i);
    var d := VirtualMachine.Dumped(m, output).WithRegister(Instructions.R_PC, LineBytes(recorded[..i]));
    assert d.rom[0..|output|] == output;
    FetchesStatement(lines, recorded, labels, output, i, d);
  }
}
