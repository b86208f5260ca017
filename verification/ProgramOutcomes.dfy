/**
  When a program built from sources links: each refusal of the linker by what the
  sources label, export and use.
 */
module ProgramOutcomes {
  import opened Wrappers
  import opened Bytes
  import opened ImageFormat
  import opened ImageRoundTrip
  import opened Linking
  import opened LinkProofs
  import opened LinkAndLoad
  import opened LinkOutcomes
  import opened Layout
  import opened LayoutProofs
  import opened SourceLayout
  import opened RawAssembly
  import opened ObjectAssembly
  import opened ObjectProofs
  import opened Toolchain
  import opened LabelAddresses
  import opened Programs
  import opened Statements
  import Bits
  import Instructions

  /** The source labels a line with this name and lists it in `.global`. */
  predicate ExportsLabel(lines: seq<SourceLine>, name: CString)
    requires AllValid(lines)
  {
    HasLabel(lines, name) && exists i :: 0 <= i < |LaidOut(lines).value.globals|
                                         && LaidOut(lines).value.globals[i] == name
  }

  predicate UsesName(line: Line, name: CString) {
    line.emission.Instruct? && line.emission.statement.operand == Some(LabelUse(name))
  }

  /** A statement of the source uses a name that the source does not label. */
  predicate UsesForeign(lines: seq<SourceLine>, name: CString)
    requires AllValid(lines)
  {
    && LaidOut(lines).Ok? && !HasLabel(lines, name)
    && exists i :: 0 <= i < |LaidOut(lines).value.lines| && UsesName(LaidOut(lines).value.lines[i], name)
  }

  predicate AllSourcesValid(sources: seq<seq<SourceLine>>) {
    forall p :: 0 <= p < |sources| ==> AllValid(sources[p])
  }

  /** Two sources export one name. */
  ghost predicate ExportedTwice(sources: seq<seq<SourceLine>>)
    requires AllSourcesValid(sources)
  {
    exists p, q, name :: 0 <= p < q < |sources| && ExportsLabel(sources[p], name) && ExportsLabel(sources[q], name)
  }

  predicate ExportedBySome(sources: seq<seq<SourceLine>>, name: CString)
    requires AllSourcesValid(sources)
  {
    exists q :: 0 <= q < |sources| && ExportsLabel(sources[q], name)
  }

  /** A source uses a name that neither itself labels nor any source exports. */
  ghost predicate UsesUnknown(sources: seq<seq<SourceLine>>)
    requires AllSourcesValid(sources)
  {
    exists p, name :: 0 <= p < |sources| && UsesForeign(sources[p], name) && !ExportedBySome(sources, name)
  }

  // ----- one source and its image -----

  /** Image o is what source o assembles to. */
  ghost predicate IsImage(images: seq<Image>, o: nat, part: Part) {
    o < |images| && PartFacts(part) && LaidOut(part.lines) == Ok(part.c) && images[o] == Normal(ImageOf(part))
  }

  lemma ImagePart(sources: seq<seq<SourceLine>>, objects: seq<seq<Byte>>, images: seq<Image>, o: nat)
    returns (part: Part)
    requires Built(sources, objects) && DecodedTo(objects, images) && o < |sources|
    ensures part.lines == sources[o] && IsImage(images, o, part)
  {
    hide AssembleObject, PartFacts, Normal, Encode, EmitLines, Symbols, Decode;
    part := PartOf(sources[o]);
    PartHolds(part, objects[o]);
  }

  /** A run of which only the images matter. */
  function RunOf(images: seq<Image>): LinkRun {
    LinkRun(images, [], [], [], 0)
  }

  lemma ImageSymbols(images: seq<Image>, o: nat, part: Part)
    requires IsImage(images, o, part)
    ensures |images[o].symbols| == |part.symbols| && Symbols(part.c) == Ok(part.symbols)
    ensures images[o].relocations == part.emitted.relocations
    ensures forall k :: 0 <= k < |part.symbols| ==> images[o].symbols[k] == NormalSymbol(part.symbols[k])
  {
    hide PartFacts, Normal, LaidOut;
    PartRelocations(RunOf(images), o, part);
    FactsHold(part);
  }

  lemma FactsHold(part: Part)
    requires PartFacts(part)
    ensures Symbols(part.c) == Ok(part.symbols) && Small(part.c) && DistinctLabels(part.c.lines) && AllValid(part.lines)
    ensures RelocatesExactly(part.c, part.symbols, part.c.lines, part.emitted.relocations)
    ensures |part.symbols| <= WORD_MAX
  {
    hide WellLaid, AllFit, Sized, AllThere, RelocatesExactly, DistinctLabels, Symbols, Small;
  }

  /** What an image exports is what its source exports. */
  lemma VisibleIsExported(images: seq<Image>, o: nat, part: Part, name: CString)
    requires IsImage(images, o, part) && AllValid(part.lines)
    ensures (exists j: nat :: Visible(images, o, j, name)) <==> ExportsLabel(part.lines, name)
  {
    hide IsImage, Symbols, LaidOut, ObjectAssembly.SymbolIndex;
    ImageSymbols(images, o, part);
    ImageLayout(images, o, part);
    if j: nat :| Visible(images, o, j, name) {
      var i := DefinedIsLabel(part.c, j);
      GlobalIsListed(part.c, j);
      assert part.c.lines[i].name == Some(name);
    }
    if ExportsLabel(part.lines, name) {
      ExportedIsVisible(images, o, part, name);
    }
  }

  lemma ImageLayout(images: seq<Image>, o: nat, part: Part)
    requires IsImage(images, o, part)
    ensures LaidOut(part.lines) == Ok(part.c) && o < |images| && AllValid(part.lines)
    ensures Small(part.c) && DistinctLabels(part.c.lines)
  {
    hide PartFacts, Normal, LaidOut, Small, DistinctLabels;
    FactsHold(part);
  }

  lemma ExportedIsVisible(images: seq<Image>, o: nat, part: Part, name: CString)
    requires IsImage(images, o, part) && AllValid(part.lines) && ExportsLabel(part.lines, name)
    ensures exists j: nat :: Visible(images, o, j, name)
  {
    hide IsImage, Symbols, LaidOut, ObjectAssembly.SymbolIndex, Small, DistinctLabels;
    ImageSymbols(images, o, part);
    ImageLayout(images, o, part);
    var i :| 0 <= i < |part.c.lines| && part.c.lines[i].name == Some(name);
    var k :| 0 <= k < |part.c.globals| && part.c.globals[k] == name;
    LabelFound(part.c, i);
    GlobalFound(part.c, name);
    var j := ObjectAssembly.SymbolIndex(part.symbols, name);
    LineIsSmall(part.c, i);
    assert Visible(images, o, j, name);
  }

  lemma LineIsSmall(c: Context, i: nat)
    requires Small(c) && i < |c.lines|
    ensures c.lines[i].section < 6 && c.lines[i].offset <= ROM_SIZE
  {
  }

  /** An image does not export a name twice. */
  lemma VisibleOnceIn(images: seq<Image>, o: nat, part: Part, j: nat, j': nat, name: CString)
    requires IsImage(images, o, part) && Visible(images, o, j, name) && Visible(images, o, j', name)
    ensures j == j'
  {
    hide IsImage, Symbols, ObjectAssembly.SymbolIndex;
    ImageSymbols(images, o, part);
    NamesOnce(part.c);
    var i := DefinedIsLabel(part.c, j);
    var i' := DefinedIsLabel(part.c, j');
  }

  // ----- the entry -----

  /** The entry's name by the sources: as requested, or the last .entry of the first source with one, or start. */
  ghost predicate ChosenIn(sources: seq<seq<SourceLine>>, requested: Option<CString>, name: CString) {
    if requested.Some? then name == requested.value
    else if exists o :: 0 <= o < |sources| && EntryNamed(sources[o]).Some? then
      exists o :: && 0 <= o < |sources| && EntryNamed(sources[o]) == Some(name)
                  && forall p :: 0 <= p < o ==> EntryNamed(sources[p]).None?
    else name == [0x73, 0x74, 0x61, 0x72, 0x74]
  }

  lemma EntryFromSources(sources: seq<seq<SourceLine>>, objects: seq<seq<Byte>>, images: seq<Image>,
                         requested: Option<CString>, name: CString)
    requires Built(sources, objects) && DecodedTo(objects, images)
    ensures Chosen(images, requested, name) <==> ChosenIn(sources, requested, name)
  {
    hide AssembleObject, Decode, IsImage, EntryNamed;
    assert |sources| == |images|;
    forall o | 0 <= o < |sources| ensures images[o].entrySymbol == EntryNamed(sources[o]) {
      var part := ImagePart(sources, objects, images, o);
      ImageEntry(images, o, part);
    }
  }

  lemma ImageEntry(images: seq<Image>, o: nat, part: Part)
    requires IsImage(images, o, part)
    ensures o < |images| && images[o].entrySymbol == EntryNamed(part.lines)
  {
    hide WellLaid, Small, AllFit, DistinctLabels, Symbols, Sized, AllThere, RelocatesExactly, Run, EntryNamed;
    NamesListed(part.lines);
  }

  // ----- duplicates -----

  /** The linker sees a duplicate exactly when two sources label and `.global` one name. */
  lemma DuplicatesAreExports(sources: seq<seq<SourceLine>>, objects: seq<seq<Byte>>, images: seq<Image>)
    requires Built(sources, objects) && DecodedTo(objects, images) && AllSourcesValid(sources)
    ensures Clash(images) <==> ExportedTwice(sources)
  {
    hide AssembleObject, Decode, Visible, ExportsLabel, IsImage;
    if Clash(images) {
      var o: nat, j: nat, o': nat, j': nat, name :|
        Visible(images, o, j, name) && Visible(images, o', j', name) && (o != o' || j != j');
      VisibleInside(images, o, j, name);
      VisibleInside(images, o', j', name);
      var a := ImagePart(sources, objects, images, o);
      var b := ImagePart(sources, objects, images, o');
      VisibleIsExported(images, o, a, name);
      VisibleIsExported(images, o', b, name);
      if o == o' { VisibleOnceIn(images, o, a, j, j', name); }
    }
    if ExportedTwice(sources) {
      var p, q, name :| 0 <= p < q < |sources| && ExportsLabel(sources[p], name) && ExportsLabel(sources[q], name);
      var a := ImagePart(sources, objects, images, p);
      var b := ImagePart(sources, objects, images, q);
      VisibleIsExported(images, p, a, name);
      VisibleIsExported(images, q, b, name);
    }
  }

  lemma VisibleInside(images: seq<Image>, o: nat, j: nat, name: CString)
    requires Visible(images, o, j, name)
    ensures o < |images| && j < |images[o].symbols|
  {
  }

  // ----- references -----

  /** Relocation k of the link comes from line i of source o, which uses the name. */
  ghost predicate ComesFromUse(images: seq<Image>, r: Tagged<Relocation>, o: nat, part: Part, i: nat, name: CString)
    requires FromObjects(images, r) && IsImage(images, o, part)
  {
    && r.owner == o && i < |part.c.lines| && UsesName(part.c.lines[i], name)
    && r.value.kind == ABSOLUTE32 && r.value.addend == 0
    && Reference(images, r).name == Some(name)
    && if HasLabel(part.lines, name) then
         Reference(images, r).section < 6 && Reference(images, r).value <= ROM_SIZE
       else Reference(images, r).section == UNDEFINED_SECTION
  }

  /** The symbol a label use refers to is the label's, or undefined when there is no such label. */
  lemma UsedSymbol(images: seq<Image>, o: nat, part: Part, name: CString, k: nat)
    requires IsImage(images, o, part) && AllValid(part.lines)
    requires k == ObjectAssembly.SymbolIndex(part.symbols, name) < |part.symbols|
    ensures k < |images[o].symbols| && images[o].symbols[k].name == Some(name)
    ensures if HasLabel(part.lines, name) then
              images[o].symbols[k].section < 6 && images[o].symbols[k].value <= ROM_SIZE
            else images[o].symbols[k].section == UNDEFINED_SECTION
  {
    hide IsImage, Symbols, LaidOut, ObjectAssembly.SymbolIndex, Small, DistinctLabels;
    ImageSymbols(images, o, part);
    ImageLayout(images, o, part);
    if HasLabel(part.lines, name) {
      var i :| 0 <= i < |part.c.lines| && part.c.lines[i].name == Some(name);
      LabelFound(part.c, i);
      LineIsSmall(part.c, i);
    } else {
      ExternalFound(part.c, name);
    }
  }

  lemma RelocationUse(images: seq<Image>, r: Tagged<Relocation>, o: nat, part: Part) returns (i: nat, name: CString)
    requires FromObjects(images, r) && r.owner == o && IsImage(images, o, part)
    requires r.value in images[o].relocations
    ensures ComesFromUse(images, r, o, part, i, name)
  {
    hide PartFacts, LaidOut, ObjectAssembly.SymbolIndex, Small, DistinctLabels, LocalLine, HasLabel, TranslateLine,
         Normal;
    ImageSymbols(images, o, part);
    ImageLayout(images, o, part);
    i := RelocationLine(RunOf(images), o, part, r.value);
    RelocationSite(part.c, part.symbols, part.c.lines[i], r.value);
    name := part.c.lines[i].emission.statement.operand.value.name;
    FactsHold(part);
    Bits.ModSmall(ObjectAssembly.SymbolIndex(part.symbols, name), WORD_RANGE);
    UsedSymbol(images, o, part, name, ObjectAssembly.SymbolIndex(part.symbols, name));
  }

  /** The objects of a program, all of them assembled from sources. */
  ghost predicate Program(sources: seq<seq<SourceLine>>, objects: seq<seq<Byte>>, images: seq<Image>) {
    Built(sources, objects) && DecodedTo(objects, images) && AllSourcesValid(sources) && Checked(images)
  }

  /** Where a relocation of the link comes from. */
  lemma RelocationSource(sources: seq<seq<SourceLine>>, objects: seq<seq<Byte>>, images: seq<Image>, k: nat)
    returns (o: nat, part: Part, i: nat, name: CString)
    requires Program(sources, objects, images) && k < |Flatten(RelocationInputs(images))|
    ensures o < |sources| && part.lines == sources[o] && IsImage(images, o, part)
    ensures FromObjects(images, Flatten(RelocationInputs(images))[k])
    ensures ComesFromUse(images, Flatten(RelocationInputs(images))[k], o, part, i, name)
  {
    hide Built, DecodedTo, IsImage, ComesFromUse, Checked;
    RelocationsFromObjects(images);
    var r := Flatten(RelocationInputs(images))[k];
    var row, column := FlattenLocate(RelocationInputs(images), k);
    o := row;
    ProgramSize(sources, objects, images);
    part := ImagePart(sources, objects, images, o);
    assert images[o].relocations[column] == r.value;
    i, name := RelocationUse(images, r, o, part);
  }

  lemma ProgramSize(sources: seq<seq<SourceLine>>, objects: seq<seq<Byte>>, images: seq<Image>)
    requires Program(sources, objects, images)
    ensures |sources| == |images|
  {
    hide AllSourcesValid, Checked;
  }

  /** Its word always fits: addresses in ROM are small, and no addend is added. */
  lemma UseInReach(images: seq<Image>, placed: seq<LinkSection>, r: Tagged<Relocation>, o: nat, part: Part, i: nat,
                   name: CString)
    requires Checked(images) && Follows(images, placed) && FromObjects(images, r) && IsImage(images, o, part)
    requires ComesFromUse(images, r, o, part, i, name)
    requires forall d :: 0 <= d < |placed| ==> placed[d].image.address + placed[d].image.size <= ROM_SIZE
    ensures !OutOfReach(images, placed, r)
  {
    hide Checked, Follows, Index, UniqueExport, IsImage, Visible;
    CheckedSymbol(images, r.owner, r.value.symbol);
    var reference := Reference(images, r);
    forall s: nat | Meant(images, placed, r, s) ensures InReach(r.value, Expected(images, placed, r, s)) {
      if reference.section == UNDEFINED_SECTION {
        ExportIsWord(images, placed, name, s);
      } else {
        FindPlaced(images, placed, r.owner, reference.section);
      }
    }
  }

  lemma ExportIsWord(images: seq<Image>, placed: seq<LinkSection>, name: CString, s: nat)
    requires Checked(images) && Follows(images, placed) && UniqueExport(images, placed, name, s)
    ensures s < WORD_RANGE
  {
    hide Checked, Follows, DefinitionAddress;
  }

  /** A use dangles exactly when neither its own source labels the name nor any source exports it. */
  lemma DanglingUse(sources: seq<seq<SourceLine>>, objects: seq<seq<Byte>>, images: seq<Image>, r: Tagged<Relocation>,
                    o: nat, part: Part, i: nat, name: CString)
    requires Program(sources, objects, images) && o < |sources| && part.lines == sources[o]
    requires IsImage(images, o, part) && FromObjects(images, r) && ComesFromUse(images, r, o, part, i, name)
    ensures Dangling(images, r) <==> UsesForeign(sources[o], name) && !ExportedBySome(sources, name)
  {
    hide Built, DecodedTo, Checked, IsImage, Visible, LaidOut, ExportedBySome, HasLabel, UsesName;
    ImageLayout(images, o, part);
    ExportersVisible(sources, objects, images, name);
    assert UsesName(part.c.lines[i], name);
    assert TextOf(Reference(images, r).name) == name;
  }

  lemma ExportersVisible(sources: seq<seq<SourceLine>>, objects: seq<seq<Byte>>, images: seq<Image>, name: CString)
    requires Program(sources, objects, images)
    ensures AllSourcesValid(sources)
    ensures ExportedBySome(sources, name) <==> exists o: nat, j: nat :: Visible(images, o, j, name)
  {
    hide Built, DecodedTo, IsImage, Visible, ExportsLabel, Checked;
    ProgramSize(sources, objects, images);
    if o: nat, j: nat :| Visible(images, o, j, name) {
      VisibleInside(images, o, j, name);
      var part := ImagePart(sources, objects, images, o);
      VisibleIsExported(images, o, part, name);
    }
    if q :| 0 <= q < |sources| && ExportsLabel(sources[q], name) {
      var part := ImagePart(sources, objects, images, q);
      VisibleIsExported(images, q, part, name);
    }
  }

  /** A use of a name that the source does not label becomes a relocation. */
  lemma ForeignIsRelocated(sources: seq<seq<SourceLine>>, objects: seq<seq<Byte>>, images: seq<Image>, p: nat,
                           name: CString) returns (k: nat)
    requires Program(sources, objects, images) && p < |sources| && UsesForeign(sources[p], name)
    ensures k < |Flatten(RelocationInputs(images))| && FromObjects(images, Flatten(RelocationInputs(images))[k])
    ensures Flatten(RelocationInputs(images))[k].owner == p
    ensures Reference(images, Flatten(RelocationInputs(images))[k]).name == Some(name)
    ensures Reference(images, Flatten(RelocationInputs(images))[k]).section == UNDEFINED_SECTION
  {
    hide Built, DecodedTo, IsImage, Checked, LaidOut, TranslateLine, RelocatesExactly, ObjectAssembly.SymbolIndex,
         Small, DistinctLabels;
    ProgramSize(sources, objects, images);
    var part := ImagePart(sources, objects, images, p);
    ImageLayout(images, p, part);
    var i :| 0 <= i < |part.c.lines| && UsesName(part.c.lines[i], name);
    var r := ForeignRelocation(images, p, part, i, name);
    UsedSymbol(images, p, part, name, ObjectAssembly.SymbolIndex(part.symbols, name));
    k := RelocationPosition(images, p, r);
    RelocationsFromObjects(images);
  }

  lemma RelocationPosition(images: seq<Image>, p: nat, r: Relocation) returns (k: nat)
    requires p < |images| && r in images[p].relocations
    ensures k < |Flatten(RelocationInputs(images))| && Flatten(RelocationInputs(images))[k] == Tagged(p, r)
  {
    var j :| 0 <= j < |images[p].relocations| && images[p].relocations[j] == r;
    var rows := RelocationInputs(images);
    FlattenSlice(rows, p);
    k := |Flatten(rows[..p])| + j;
    assert Flatten(rows)[|Flatten(rows[..p])|..|Flatten(rows[..p])| + |rows[p]|][j] == rows[p][j];
  }

  lemma ForeignRelocation(images: seq<Image>, p: nat, part: Part, i: nat, name: CString) returns (r: Relocation)
    requires IsImage(images, p, part) && i < |part.c.lines| && UsesName(part.c.lines[i], name)
    requires forall j :: 0 <= j < |part.c.lines| ==> part.c.lines[j].name != Some(name)
    ensures r in images[p].relocations
    ensures r.symbol == ObjectAssembly.SymbolIndex(part.symbols, name) < |part.symbols|
  {
    hide IsImage, Symbols, LocalLine, ObjectAssembly.SymbolIndex, Small, DistinctLabels, RegisterOf, OperandError,
         Instructions.Encoded, Instructions.Encodable;
    ImageSymbols(images, p, part);
    ImageFacts(images, p, part);
    var line := part.c.lines[i];
    assert TranslateLine(part.c, part.symbols, line).Ok?;
    assert LocalLine(part.c.lines, name, line.section) == |part.c.lines|;
    r := TranslateLine(part.c, part.symbols, line).value.relocation.value;
    Bits.ModSmall(ObjectAssembly.SymbolIndex(part.symbols, name), WORD_RANGE);
  }

  lemma ImageFacts(images: seq<Image>, o: nat, part: Part)
    requires IsImage(images, o, part)
    ensures RelocatesExactly(part.c, part.symbols, part.c.lines, part.emitted.relocations)
    ensures |part.symbols| <= WORD_MAX
  {
    hide PartFacts, Normal, LaidOut, RelocatesExactly;
    FactsHold(part);
  }

  /** Relocating a program fails exactly for an unknown name, and for no other reason. */
  lemma FailuresAreUnknown(sources: seq<seq<SourceLine>>, objects: seq<seq<Byte>>, images: seq<Image>,
                           placed: seq<LinkSection>)
    requires Program(sources, objects, images) && Follows(images, placed)
    requires forall d :: 0 <= d < |placed| ==> placed[d].image.address + placed[d].image.size <= ROM_SIZE
    ensures (exists k :: 0 <= k < |Flatten(RelocationInputs(images))| && FailsAt(images, placed, k))
            <==> UsesUnknown(sources)
    ensures forall k :: 0 <= k < |Flatten(RelocationInputs(images))| && FailsAt(images, placed, k) ==>
              FromObjects(images, Flatten(RelocationInputs(images))[k])
              && Dangling(images, Flatten(RelocationInputs(images))[k])
  {
    hide Built, DecodedTo, Checked, Follows, IsImage, ComesFromUse, OutOfReach, Dangling, UsesForeign, ExportedBySome,
         RelocationInputs;
    forall k | 0 <= k < |Flatten(RelocationInputs(images))| && FailsAt(images, placed, k)
      ensures UsesUnknown(sources) && FromObjects(images, Flatten(RelocationInputs(images))[k])
      ensures Dangling(images, Flatten(RelocationInputs(images))[k])
    {
      FailureIsUnknown(sources, objects, images, placed, k);
    }
    if UsesUnknown(sources) {
      var p, name :| 0 <= p < |sources| && UsesForeign(sources[p], name) && !ExportedBySome(sources, name);
      var k := ForeignIsRelocated(sources, objects, images, p, name);
      UnknownDangles(sources, objects, images, name, k);
      assert FailsAt(images, placed, k);
    }
  }

  lemma FailureIsUnknown(sources: seq<seq<SourceLine>>, objects: seq<seq<Byte>>, images: seq<Image>,
                         placed: seq<LinkSection>, k: nat)
    requires Program(sources, objects, images) && Follows(images, placed)
    requires forall d :: 0 <= d < |placed| ==> placed[d].image.address + placed[d].image.size <= ROM_SIZE
    requires k < |Flatten(RelocationInputs(images))| && FailsAt(images, placed, k)
    ensures UsesUnknown(sources) && FromObjects(images, Flatten(RelocationInputs(images))[k])
    ensures Dangling(images, Flatten(RelocationInputs(images))[k])
  {
    hide Built, DecodedTo, Checked, Follows, IsImage, ComesFromUse, OutOfReach, Dangling, UsesForeign, ExportedBySome,
         RelocationInputs;
    var o, part, i, name := RelocationSource(sources, objects, images, k);
    var r := Flatten(RelocationInputs(images))[k];
    UseInReach(images, placed, r, o, part, i, name);
    DanglingUse(sources, objects, images, r, o, part, i, name);
    assert UsesForeign(sources[o], name);
  }

  lemma UnknownDangles(sources: seq<seq<SourceLine>>, objects: seq<seq<Byte>>, images: seq<Image>, name: CString,
                       k: nat)
    requires Program(sources, objects, images) && !ExportedBySome(sources, name)
    requires k < |Flatten(RelocationInputs(images))| && FromObjects(images, Flatten(RelocationInputs(images))[k])
    requires Reference(images, Flatten(RelocationInputs(images))[k]).name == Some(name)
    requires Reference(images, Flatten(RelocationInputs(images))[k]).section == UNDEFINED_SECTION
    ensures Dangling(images, Flatten(RelocationInputs(images))[k])
  {
    hide Program, Visible, ExportedBySome;
    ExportersVisible(sources, objects, images, name);
  }

  // ----- the whole program -----

  /**
    When the sections of a program can be placed, linking it fails for a duplicate exactly
    when two sources label and `.global` one name, and otherwise for an unresolved symbol
    exactly when some source uses a name that neither it labels nor any source exports.
    What remains is the entry and the size of the file.
   */
  ghost predicate ProgramOutcome(sources: seq<seq<SourceLine>>, images: seq<Image>, placed: seq<LinkSection>,
                                 name: CString, entry: Word, result: Result<seq<Byte>, LinkError>)
    requires AllSourcesValid(sources) && Checked(images) && Follows(images, placed)
  {
    if ExportedTwice(sources) then result == Err(DuplicateSymbol)
    else if UsesUnknown(sources) then result == Err(UnresolvedSymbol)
    else
      && Enters(images, placed, name, entry)
      && if entry == 0 then result == Err(NoEntry)
         else if FileSize(placed) > WORD_MAX then result == Err(LinkOverflow)
         else if !InSomeText(placed, entry) then result == Err(IncompatibleObject)
         else result.Ok?
  }

  lemma ProgramLinks(sources: seq<seq<SourceLine>>, objects: seq<seq<Byte>>, requested: Option<CString>,
                     images: seq<Image>, name: CString)
    returns (addresses: seq<nat>, placed: seq<LinkSection>, entry: Word)
    requires Built(sources, objects) && AllSourcesValid(sources) && sources != []
    requires DecodedTo(objects, images) && Chosen(images, requested, name) && |Inputs(images)| <= WORD_MAX
    requires exists all :: |all| == |Inputs(images)| && Placement(Inputs(images), all)
    ensures PlacedAll(images, addresses, placed)
    ensures ProgramOutcome(sources, images, placed, name, entry, Link(objects, requested))
  {
    hide DecodedTo, Chosen, Inputs, Placement, Follows, ExportedTwice, UsesUnknown, Clash, FailsAt, Dangling,
         FirstFailure, Enters, InSomeText, FileSize, RelocationInputs, FromObjects, Link, AllSourcesValid, Checked,
         Holds;
    SameCount(sources, objects);
    var a, k;
    addresses, placed, a, k, entry := LinkOutcome(objects, requested, images, name);
    PlacedInRom(images, addresses, placed);
    DuplicatesAreExports(sources, objects, images);
    FailuresAreUnknown(sources, objects, images, placed);
    FirstFails(images, placed, k);
  }

  lemma SameCount(sources: seq<seq<SourceLine>>, objects: seq<seq<Byte>>)
    requires Built(sources, objects)
    ensures |sources| == |objects|
  {
    hide AssembleObject;
  }

  lemma FirstFails(images: seq<Image>, placed: seq<LinkSection>, k: nat)
    requires Checked(images) && Follows(images, placed)
    ensures FirstFailure(images, placed, k) ==>
            k < |Flatten(RelocationInputs(images))| && FailsAt(images, placed, k)
  {
    hide Checked, Follows, FailsAt, RelocationInputs;
  }

  lemma PlacedInRom(images: seq<Image>, addresses: seq<nat>, placed: seq<LinkSection>)
    requires PlacedAll(images, addresses, placed)
    ensures forall d :: 0 <= d < |placed| ==> placed[d].image.address + placed[d].image.size <= ROM_SIZE
  {
    hide Checked, Follows, Inputs, Due, Clear;
    forall d | 0 <= d < |placed| ensures placed[d].image.address + placed[d].image.size <= ROM_SIZE {
      assert PlacedAs(Inputs(images), addresses, d);
    }
  }
}
