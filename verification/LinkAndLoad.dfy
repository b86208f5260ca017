/** From object files to a running ROM: what links also loads, and every byte is accounted for. */
module LinkAndLoad {
  import opened Wrappers
  import opened Bytes
  import opened ImageFormat
  import opened ImageRoundTrip
  import opened Linking
  import opened LinkProofs
  import opened Loading

  /** The facts about the intermediate results that the later steps build on. */
  predicate Healthy(run: LinkRun) {
    && Checked(run.images) && Follows(run.images, run.placed)
    && AllPlaced(run.placed, Inputs(run.images))
    && MergedWell(run.placed, Flatten(SymbolInputs(run.images)), run.merged)
    && Relocating(run.images, run.placed, run.merged, Flatten(RelocationInputs(run.images)))
    && |run.datas| == |run.placed|
    && (forall d :: 0 <= d < |run.datas| ==> |run.datas[d]| == run.placed[d].image.size)
  }

  lemma RunIsHealthy(objects: seq<seq<Byte>>, requested: Option<CString>, run: LinkRun, output: seq<Byte>)
    requires Linked(objects, requested, run, output)
    ensures Healthy(run)
  {
    hide DecodeAll, Place, Encode, EntryAddress, SelectedEntry, Decode, Checked, AllPlaced, Inputs, SymbolInputs,
         RelocationInputs;
    ObjectsChecked(objects);
    PlaceHolds(run.images);
    FewSections(run, output);
    PlacedFollow(run.images, run.placed);
    AllMerged(run.images, run.placed);
    RelocationsFromObjects(run.images);
    SizesAfter(run);
  }

  /** The encoder accepts at most 2^32 - 1 sections. */
  lemma FewSections(run: LinkRun, output: seq<Byte>)
    requires |run.datas| == |run.placed| && Encode(Executable(run.placed, run.datas, run.entry)) == Ok(output)
    ensures |run.placed| <= WORD_MAX
  {
    hide PayloadOffset, TotalSize, RecordsOk, EntryOk, Written;
  }

  lemma PlacedFollow(images: seq<Image>, placed: seq<LinkSection>)
    requires AllPlaced(placed, Inputs(images)) && |placed| <= WORD_MAX
    ensures Follows(images, placed)
  {
    hide Inputs, AllPlaced;
    PlacedTags(placed, Inputs(images));
    PlacedCount(placed, Inputs(images));
  }

  lemma PlacedCount(placed: seq<LinkSection>, inputs: seq<LinkSection>)
    requires AllPlaced(placed, inputs)
    ensures |placed| == |inputs|
  {
  }

  lemma AllMerged(images: seq<Image>, placed: seq<LinkSection>)
    requires Merge(images, placed).Ok?
    ensures MergedWell(placed, Flatten(SymbolInputs(images)), Merge(images, placed).value)
  {
    hide MergedWell, SymbolInputs;
    var inputs := Flatten(SymbolInputs(images));
    assert inputs[..|inputs|] == inputs;
    MergeHolds(placed, inputs, |inputs|);
  }

  lemma SizesAfter(run: LinkRun)
    requires Relocating(run.images, run.placed, run.merged, Flatten(RelocationInputs(run.images)))
    requires Relocate(run.images, run.placed, run.merged) == Ok(run.datas)
    ensures |run.datas| == |run.placed|
    ensures forall d :: 0 <= d < |run.datas| ==> |run.datas[d]| == run.placed[d].image.size
  {
    hide Checked, MergedWell, FromObjects, RelocationInputs, Relocator;
    var inputs := Flatten(RelocationInputs(run.images));
    assert inputs[..|inputs|] == inputs;
    SizesKept(run.images, run.placed, run.merged, Contents(run.placed), inputs, |inputs|);
    forall d | 0 <= d < |run.placed| ensures |Contents(run.placed)[d]| == run.placed[d].image.size {
      PlacedNormal(run.images, run.placed, d);
    }
  }

  /** A placed section is still in the decoder's normal form. */
  lemma PlacedNormal(images: seq<Image>, placed: seq<LinkSection>, d: nat)
    requires Checked(images) && Follows(images, placed) && d < |placed|
    ensures NormalForm(placed[d].image)
  {
    var o, i := FlattenLocate(InputRows(images), d);
    assert NormalForm(images[o].sections[i]);
  }

  // ----- the executable reads back as it was built -----

  /** No relocation reaches a bss section, so its contents are still the zeros it was decoded as. */
  lemma BssUntouched(run: LinkRun, d: nat)
    requires Healthy(run) && Relocate(run.images, run.placed, run.merged) == Ok(run.datas)
    requires d < |run.placed| && run.placed[d].image.kind == BSS
    ensures run.datas[d] == Zeros(run.placed[d].image.size)
  {
    hide AllPlaced, MergedWell, SymbolInputs, Index, RelocationInputs, Relocating;
    var inputs := Flatten(RelocationInputs(run.images));
    PlacedNormal(run.images, run.placed, d);
    forall p: nat | p < run.placed[d].image.size ensures run.datas[d][p] == Contents(run.placed)[d][p] {
      forall i | 0 <= i < |inputs| ensures !Covers(run.images, inputs[i], d, p) {
        NotIntoBss(run, inputs, i, d, p);
      }
      ByteUnrelocated(run, d, p);
    }
  }

  lemma NotIntoBss(run: LinkRun, inputs: seq<Tagged<Relocation>>, i: nat, d: nat, p: nat)
    requires Follows(run.images, run.placed) && Relocating(run.images, run.placed, run.merged, inputs)
    requires i < |inputs| && d < |run.placed| && run.placed[d].image.kind == BSS
    ensures !Covers(run.images, inputs[i], d, p)
  {
    hide Checked, Follows, MergedWell, Index;
    var r := inputs[i];
    assert FromObjects(run.images, r);
    FindPlaced(run.images, run.placed, r.owner, r.value.section);
  }

  /** A byte that no relocation covers is the byte its object supplied. */
  lemma ByteUnrelocated(run: LinkRun, d: nat, p: nat)
    requires Relocating(run.images, run.placed, run.merged, Flatten(RelocationInputs(run.images)))
    requires Relocate(run.images, run.placed, run.merged) == Ok(run.datas)
    requires forall i :: 0 <= i < |Flatten(RelocationInputs(run.images))| ==>
               !Covers(run.images, Flatten(RelocationInputs(run.images))[i], d, p)
    ensures |run.datas| == |run.placed|
    ensures d < |run.placed| ==>
              |run.datas[d]| == |Contents(run.placed)[d]|
                && (p < |run.datas[d]| ==> run.datas[d][p] == Contents(run.placed)[d][p])
  {
    hide Relocating, Relocator, RelocationInputs, Covers;
    var inputs := Flatten(RelocationInputs(run.images));
    assert inputs[..|inputs|] == inputs && inputs[..0] == [];
    UncoveredKept(run.images, run.placed, run.merged, Contents(run.placed), inputs, 0, |inputs|, d, p);
  }

  lemma ExecutableIsNormal(run: LinkRun)
    requires Healthy(run) && Relocate(run.images, run.placed, run.merged) == Ok(run.datas)
    ensures var image := Executable(run.placed, run.datas, run.entry); Normal(image) == image && Readable(image)
    ensures forall d :: 0 <= d < |run.placed| ==> NormalForm(run.placed[d].image.(data := Some(run.datas[d])))
  {
    hide Checked, Follows, AllPlaced, MergedWell, Relocating, Relocate;
    var image := Executable(run.placed, run.datas, run.entry);
    forall d | 0 <= d < |image.sections| ensures NormalForm(image.sections[d]) {
      PlacedNormal(run.images, run.placed, d);
      if run.placed[d].image.kind == BSS { BssUntouched(run, d); }
    }
    forall d | 0 <= d < |run.placed| ensures NormalForm(run.placed[d].image.(data := Some(run.datas[d]))) {
      assert NormalForm(image.sections[d]);
    }
    NormalIsIdentity(image);
  }

  lemma ExecutableDecodes(run: LinkRun, output: seq<Byte>)
    requires |run.placed| == |run.datas| && Healthy(run)
             && Relocate(run.images, run.placed, run.merged) == Ok(run.datas)
    requires Encode(Executable(run.placed, run.datas, run.entry)) == Ok(output)
    ensures Decode(output) == Ok(Executable(run.placed, run.datas, run.entry))
  {
    hide Healthy, Relocate, Executable, Encode, Decode, Normal, Readable;
    ExecutableIsNormal(run);
    DecodeEncode(Executable(run.placed, run.datas, run.entry));
  }

  // ----- the main results -----

  /** Each section's relocated bytes are at its final address. */
  predicate LoadedSections(run: LinkRun, loaded: seq<Byte>) {
    |run.placed| == |run.datas| && forall d :: 0 <= d < |run.placed| ==>
                                     At(loaded, run.placed[d].image.address, run.datas[d])
  }

  predicate OutsideSections(run: LinkRun, p: nat) {
    forall d :: 0 <= d < |run.placed| ==> !Within(run.placed[d].image, p)
  }

  /** Every byte outside the sections is as it was before the load. */
  predicate OthersKept(run: LinkRun, rom: seq<Byte>, loaded: seq<Byte>) {
    |loaded| == |rom| && forall p :: 0 <= p < |rom| && OutsideSections(run, p) ==> loaded[p] == rom[p]
  }

  predicate EntersText(run: LinkRun) {
    exists d :: 0 <= d < |run.placed| && InText(run.placed[d].image, run.entry)
  }

  /** A section of the finished program. */
  function Final(run: LinkRun, d: nat): Section
    requires d < |run.placed| == |run.datas|
  {
    run.placed[d].image.(data := Some(run.datas[d]))
  }

  lemma FinalSections(run: LinkRun)
    requires Healthy(run) && Relocate(run.images, run.placed, run.merged) == Ok(run.datas)
    ensures var sections := Executable(run.placed, run.datas, run.entry).sections;
            && Loadable(sections) && PairwiseApart(sections) && |sections| == |run.placed|
            && forall d :: 0 <= d < |sections| ==>
                 sections[d] == Final(run, d) && Occupies(Final(run, d)) == run.datas[d]
  {
    hide Checked, Follows, MergedWell, Relocating, Relocate, Inputs;
    var sections := Executable(run.placed, run.datas, run.entry).sections;
    ExecutableIsNormal(run);
    forall d | 0 <= d < |sections| ensures InRom(sections[d]) && Occupies(sections[d]) == run.datas[d] {
      assert PlacedWell(run.placed, Inputs(run.images)[d], d);
    }
    forall i, j | 0 <= i < j < |sections| ensures Apart(sections[i], sections[j]) {
      assert Apart(run.placed[i].image, run.placed[j].image);
    }
  }

  /**
    Whatever links also loads. ROM then holds each section's relocated bytes at its
    assigned address and is unchanged everywhere else, and execution starts at the
    entry the linker chose, inside a text section.
   */
  lemma LinkedProgramLoads(objects: seq<seq<Byte>>, requested: Option<CString>, rom: seq<Byte>) returns (run: LinkRun)
    requires Link(objects, requested).Ok? && |rom| == ROM_SIZE
    ensures Linked(objects, requested, run, Link(objects, requested).value) && Healthy(run)
    ensures var loaded := Load(rom, Link(objects, requested).value);
            && loaded.Ok? && loaded.value.1 == run.entry
            && LoadedSections(run, loaded.value.0) && OthersKept(run, rom, loaded.value.0)
    ensures EntersText(run)
  {
    hide Healthy, DecodeAll, Place, Merge, Relocate, Encode, Decode, EntryAddress, SelectedEntry, Executable, Copied,
         Occupies, NormalForm, Link, Load, Loadable, LoadedSections, OthersKept, EntersText, Final;
    run := LinkRuns(objects, requested);
    var output := Link(objects, requested).value;
    RunIsHealthy(objects, requested, run, output);
    ExecutableDecodes(run, output);
    var image := Executable(run.placed, run.datas, run.entry);
    LoadsExecutable(rom, output, run, image);
  }

  lemma LoadsExecutable(rom: seq<Byte>, output: seq<Byte>, run: LinkRun, image: Image)
    requires |rom| == ROM_SIZE && |run.placed| == |run.datas| && Healthy(run)
             && Relocate(run.images, run.placed, run.merged) == Ok(run.datas)
    requires image == Executable(run.placed, run.datas, run.entry) && Decode(output) == Ok(image)
    ensures var loaded := Load(rom, output);
            && loaded.Ok? && loaded.value.1 == run.entry
            && LoadedSections(run, loaded.value.0) && OthersKept(run, rom, loaded.value.0)
    ensures EntersText(run)
  {
    hide Healthy, Relocate, Decode, Copied, Occupies, NormalForm, PairwiseApart;
    FinalSections(run);
    DecodedIsStructural(output);
    var sections := image.sections;
    forall d | 0 <= d < |run.placed| ensures At(Copied(rom, sections), run.placed[d].image.address, run.datas[d]) {
      SectionsLoaded(rom, sections, d);
      assert sections[d] == Final(run, d);
    }
    forall p | 0 <= p < ROM_SIZE && OutsideSections(run, p) ensures Copied(rom, sections)[p] == rom[p]
    {
      forall d | 0 <= d < |sections| ensures !Within(sections[d], p) {
        assert sections[d] == Final(run, d) && !Within(run.placed[d].image, p);
      }
      OutsideKept(rom, sections, p);
    }
    EntryInSection(run, image);
  }

  lemma EntryInSection(run: LinkRun, image: Image)
    requires |run.placed| == |run.datas| && image == Executable(run.placed, run.datas, run.entry) && EntryOk(image)
    ensures EntersText(run)
  {
    var d :| 0 <= d < |image.sections| && InText(image.sections[d], image.entryPoint);
    assert InText(run.placed[d].image, run.entry);
  }

  /**
    In the loaded ROM, the word at the site of a relocation that no later one collides
    with is S + A for an absolute relocation and S + A - P for a relative one.
   */
  lemma RelocatedWordInRom(run: LinkRun, loaded: seq<Byte>, i: nat) returns (s: nat)
    requires Healthy(run) && Relocate(run.images, run.placed, run.merged) == Ok(run.datas)
    requires LoadedSections(run, loaded)
    requires var inputs := Flatten(RelocationInputs(run.images));
             i < |inputs| && forall q :: i < q < |inputs| ==> !Collide(run.images, inputs[i], inputs[q])
    ensures var r := Flatten(RelocationInputs(run.images))[i];
            && FromObjects(run.images, r)
            && ResolvesTo(run.images, run.placed, r.owner, run.images[r.owner].symbols[r.value.symbol], s)
            && InReach(r.value, Expected(run.images, run.placed, r, s))
            && var d := Index(run.images, r.owner, r.value.section);
            && d < |run.placed|
            && At(loaded, run.placed[d].image.address + r.value.offset,
                  LE(Expected(run.images, run.placed, r, s) % WORD_RANGE, 4))
  {
    hide Checked, Follows, AllPlaced, MergedWell, Index, LE, Expected, ResolvesTo, InReach, RelocationInputs, Relocator;
    var inputs := Flatten(RelocationInputs(run.images));
    assert FromObjects(run.images, inputs[i]);
    s := RelocationHolds(run.images, run.placed, run.merged, Contents(run.placed), inputs, i);
    var r, d := inputs[i], Index(run.images, inputs[i].owner, inputs[i].value.section);
    AtInner(loaded, run.placed[d].image.address, run.datas[d],
            r.value.offset, LE(Expected(run.images, run.placed, r, s) % WORD_RANGE, 4),
            run.placed[d].image.address + r.value.offset);
  }

  /** A byte of a section that no relocation covers is loaded as its object supplied it. */
  lemma PlainByteInRom(run: LinkRun, loaded: seq<Byte>, o: nat, source: nat, p: nat)
    requires Healthy(run) && Relocate(run.images, run.placed, run.merged) == Ok(run.datas)
    requires LoadedSections(run, loaded)
    requires o < |run.images| && source < |run.images[o].sections| && p < run.images[o].sections[source].size
    requires var inputs := Flatten(RelocationInputs(run.images));
             forall i :: 0 <= i < |inputs| ==> !Covers(run.images, inputs[i], Index(run.images, o, source), p)
    ensures var d := Index(run.images, o, source);
            && d < |run.placed| && NormalForm(run.images[o].sections[source])
            && run.placed[d].image.address + p < |loaded|
            && loaded[run.placed[d].image.address + p] == run.images[o].sections[source].data.value[p]
  {
    hide AllPlaced, MergedWell, Relocating, Relocate, RelocationInputs, Index, Covers, Follows;
    var d := Index(run.images, o, source);
    FindPlaced(run.images, run.placed, o, source);
    PlacedNormal(run.images, run.placed, d);
    ByteUnrelocated(run, d, p);
    AtIndex(loaded, run.placed[d].image.address, run.datas[d], p);
  }

  /** The entry is the address of the first defined symbol that carries the selected name. */
  lemma EntryIsSymbol(run: LinkRun, name: CString) returns (o: nat, j: nat)
    requires Healthy(run) && EntryAddress(run.merged, name) != 0
    ensures o < |run.images| && j < |run.images[o].symbols|
    ensures Defined(run.images[o].symbols[j]) && TextOf(run.images[o].symbols[j].name) == name
    ensures EntryAddress(run.merged, name) == DefinitionAddress(run.images, run.placed, o, j)
    ensures forall o': nat, j': nat ::
              o' < |run.images| && j' < |run.images[o'].symbols| && (o' < o || (o' == o && j' < j)) ==>
                !(Defined(run.images[o'].symbols[j']) && TextOf(run.images[o'].symbols[j'].name) == name)
  {
    hide AllPlaced, Relocating, SymbolIndex, DefinitionAddress;
    var k := FirstNamed(run.merged, name);
    o, j := FlattenLocate(SymbolInputs(run.images), k);
    LocatedSymbol(run.images, o, j, k);
    MergedAt(run.images, run.placed, run.merged, o, j);
    forall o': nat, j': nat | o' < |run.images| && j' < |run.images[o'].symbols| && (o' < o || (o' == o && j' < j))
      ensures !(Defined(run.images[o'].symbols[j']) && TextOf(run.images[o'].symbols[j'].name) == name)
    {
      MergedAt(run.images, run.placed, run.merged, o', j');
      SymbolOrder(run.images, o', j', o, j);
    }
  }

  lemma {:induction false} FirstNamed(merged: seq<Symbol>, name: CString) returns (k: nat)
    requires EntryAddress(merged, name) != 0
    ensures k < |merged| && Defined(merged[k]) && TextOf(merged[k].name) == name
            && merged[k].value == EntryAddress(merged, name)
    ensures forall i :: 0 <= i < k ==> !(Defined(merged[i]) && TextOf(merged[i].name) == name)
  {
    if Defined(merged[0]) && TextOf(merged[0].name) == name {
      k := 0;
    } else {
      var rest := FirstNamed(merged[1..], name);
      k := rest + 1;
      assert forall i :: 0 < i < k ==> merged[i] == merged[1..][i - 1];
    }
  }

  lemma SymbolOrder(images: seq<Image>, o: nat, j: nat, o': nat, j': nat)
    requires o < |images| && j < |images[o].symbols| && o' < |images| && j' < |images[o'].symbols|
    requires o < o' || (o == o' && j < j')
    ensures SymbolIndex(images, o, j) < SymbolIndex(images, o', j')
  {
    if o < o' { FlattenGrows(SymbolInputs(images), o, o'); }
  }
}
