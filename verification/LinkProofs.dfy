/** What a successful link guarantees about placement, symbols and relocated bytes. */
module LinkProofs {
  import opened Wrappers
  import opened Bits
  import opened Bytes
  import opened ImageFormat
  import opened ImageRoundTrip
  import opened Linking

  // ----- rounding up -----

  /** The bit trick gives the least multiple of the alignment at or above the value. */
  lemma AlignLeast(value: nat, alignment: Word)
    requires ValidAlignment(alignment) && value < WORD_RANGE
    ensures AlignAddress(value, alignment).Some? <==>
            value + alignment - 1 - (value + alignment - 1) % alignment <= WORD_MAX
    ensures AlignAddress(value, alignment).Some? ==>
              var r := AlignAddress(value, alignment).value;
              && r % alignment == 0 && value <= r
              && forall m: nat :: value <= m && m % alignment == 0 ==> r <= m
  {
    MaskRounds(value, alignment);
    RoundUp(value, alignment);
    var r := value + alignment - 1 - (value + alignment - 1) % alignment;
    forall m: nat | value <= m && m % alignment == 0 ensures r <= m {
      NextMultiple(r, m, alignment);
    }
  }

  lemma MaskRounds(value: nat, alignment: Word)
    requires ValidAlignment(alignment) && value < WORD_RANGE
    ensures var y := value + alignment - 1; And(y, 0xFFFF_FFFF_FFFF_FFFF - (alignment - 1)) == y - y % alignment
  {
    hide And, Pow2;
    var k := ClearLowBitPowerOfTwo(alignment);
    WordWidths();
    if k > 64 { Pow2Monotone(64, k); }
    MaskRoundsDown(value + alignment - 1, 64, k);
  }

  lemma RoundUp(value: nat, d: nat)
    requires d > 0
    ensures var y := value + d - 1; value <= y - y % d < value + d && (y - y % d) % d == 0
  {
    var y := value + d - 1;
    assert y - y % d == (y / d) * d;
    MultipleMod(y / d, d);
  }

  /** Distinct multiples are at least one step apart. */
  lemma NextMultiple(r: nat, m: nat, d: nat)
    requires d > 0 && r % d == 0 && m % d == 0 && r < m + d
    ensures r <= m
  {
    var a, b := r / d, m / d;
    assert r == a * d && m == b * d;
    assert a > b ==> a * d >= (b + 1) * d;
  }

  // ----- placement -----

  predicate Apart(s: Section, t: Section) {
    !Meets(s, t.address, t.size)
  }

  /** Where the section before the i-th ends; the first one starts from 8. */
  function PreviousEnd(placed: seq<LinkSection>, i: nat): nat
    requires i <= |placed|
  {
    Cursor(placed[..i])
  }

  /** The i-th section is its input at an address the placement rules allow. */
  predicate PlacedWell(placed: seq<LinkSection>, input: LinkSection, i: nat)
    requires i < |placed|
  {
    var s, cursor := placed[i].image, PreviousEnd(placed, i);
    && placed[i] == input.(image := input.image.(address := s.address))
    && s.address + s.size <= ROM_SIZE
    && (!Automatic(input.image) ==> s.address == input.image.address)
    && (Automatic(input.image) && ValidAlignment(s.alignment) ==>
          && s.address % s.alignment == 0 && cursor <= s.address
          && forall m: nat :: cursor <= m && m % s.alignment == 0 ==> s.address <= m)
  }

  lemma PlaceStepWell(placed: seq<LinkSection>, input: LinkSection)
    requires PlaceStep(placed, input).Ok? && Cursor(placed) <= ROM_SIZE
    ensures var next := PlaceStep(placed, input).value;
            && |next| == |placed| + 1 && next[..|placed|] == placed
            && PlacedWell(next, input, |placed|)
            && forall j :: 0 <= j < |placed| ==> Apart(placed[j].image, next[|placed|].image)
  {
    hide AlignAddress;
    var next := PlaceStep(placed, input).value;
    assert next[..|placed|] == placed;
    if Automatic(input.image) && ValidAlignment(input.image.alignment) {
      AlignLeast(Cursor(placed), input.image.alignment);
    }
  }

  predicate AllPlaced(placed: seq<LinkSection>, inputs: seq<LinkSection>) {
    && |placed| == |inputs|
    && (forall i :: 0 <= i < |placed| ==> PlacedWell(placed, inputs[i], i))
    && (forall i, j :: 0 <= i < j < |placed| ==> Apart(placed[i].image, placed[j].image))
  }

  lemma PlacedWellExtends(placed: seq<LinkSection>, next: seq<LinkSection>, input: LinkSection, i: nat)
    requires i < |placed| <= |next| && next[..|placed|] == placed && PlacedWell(placed, input, i)
    ensures PlacedWell(next, input, i) && next[i] == placed[i]
  {
    assert next[..i] == placed[..i];
    assert next[i] == next[..|placed|][i];
  }

  /** Every section lies where the rules put it, below the end of ROM, and apart from all others. */
  lemma {:induction false} PlacementHolds(inputs: seq<LinkSection>, k: nat)
    requires k <= |inputs| && Fold(Placer(), [], inputs[..k]).Ok?
    ensures AllPlaced(Fold(Placer(), [], inputs[..k]).value, inputs[..k])
    ensures Cursor(Fold(Placer(), [], inputs[..k]).value) <= ROM_SIZE
  {
    hide PlacedWell, PlaceStep, Apart;
    if k > 0 {
      FoldStep(Placer(), [], inputs, k - 1);
      var placed, next := Fold(Placer(), [], inputs[..k - 1]).value, Fold(Placer(), [], inputs[..k]).value;
      PlacementHolds(inputs, k - 1);
      PlaceStepWell(placed, inputs[k - 1]);
      forall i | 0 <= i < |placed| ensures PlacedWell(next, inputs[..k][i], i) && next[i] == placed[i] {
        assert inputs[..k][i] == inputs[..k - 1][i];
        PlacedWellExtends(placed, next, inputs[i], i);
      }
      LastEnd(next, inputs[k - 1], k - 1);
    }
  }

  lemma LastEnd(placed: seq<LinkSection>, input: LinkSection, i: nat)
    requires i == |placed| - 1 && PlacedWell(placed, input, i)
    ensures Cursor(placed) <= ROM_SIZE
  {
  }

  /** The result of a successful placement. */
  lemma PlaceHolds(images: seq<Image>)
    requires Place(images).Ok?
    ensures AllPlaced(Place(images).value, Inputs(images))
  {
    hide PlacedWell, Inputs, Apart;
    var inputs := Inputs(images);
    assert inputs[..|inputs|] == inputs;
    PlacementHolds(inputs, |inputs|);
  }

  // ----- finding a section again -----

  /** The position of a section among the sections of all objects. */
  function Index(images: seq<Image>, owner: nat, source: nat): nat
    requires owner < |images|
  {
    |Flatten(InputRows(images)[..owner])| + source
  }

  lemma InputAt(images: seq<Image>, owner: nat, source: nat)
    requires owner < |images| && source < |images[owner].sections|
    ensures Index(images, owner, source) < |Inputs(images)|
    ensures Inputs(images)[Index(images, owner, source)] == LinkSection(images[owner].sections[source], owner, source)
  {
    var rows := InputRows(images);
    FlattenSlice(rows, owner);
    var start := |Flatten(rows[..owner])|;
    assert Inputs(images)[start..start + |rows[owner]|][source] == rows[owner][source];
  }

  /** Every element of a flattened list lies in some row. */
  lemma {:induction false} FlattenLocate<T>(rows: seq<seq<T>>, i: nat) returns (row: nat, column: nat)
    requires i < |Flatten(rows)|
    ensures row < |rows| && column < |rows[row]| && i == |Flatten(rows[..row])| + column
    ensures Flatten(rows)[i] == rows[row][column]
  {
    var front := rows[..|rows| - 1];
    if i < |Flatten(front)| {
      row, column := FlattenLocate(front, i);
      assert front[..row] == rows[..row];
    } else {
      row, column := |rows| - 1, i - |Flatten(front)|;
    }
  }

  /** Owner and source identify a section, so the linear search finds exactly that one. */
  lemma FindSectionIs(images: seq<Image>, placed: seq<LinkSection>, owner: nat, source: nat)
    requires |placed| == |Inputs(images)|
    requires forall i :: 0 <= i < |placed| ==>
               placed[i].owner == Inputs(images)[i].owner && placed[i].source == Inputs(images)[i].source
    requires owner < |images| && source < |images[owner].sections|
    ensures Index(images, owner, source) < |placed|
    ensures FindSection(placed, owner, source) == Some(Index(images, owner, source))
  {
    hide FindSection;
    InputAt(images, owner, source);
    var at := Index(images, owner, source);
    assert placed[at].owner == owner && placed[at].source == source;
    var found := FindSection(placed, owner, source);
    assert found.Some?;
    var row, column := FlattenLocate(InputRows(images), found.value);
    InputAt(images, row, column);
  }

  lemma PlacedTags(placed: seq<LinkSection>, inputs: seq<LinkSection>)
    requires AllPlaced(placed, inputs)
    ensures forall i :: 0 <= i < |placed| ==>
              && placed[i].owner == inputs[i].owner && placed[i].source == inputs[i].source
              && placed[i].image == inputs[i].image.(address := placed[i].image.address)
  {
    hide Apart;
    forall i | 0 <= i < |placed|
      ensures placed[i] == inputs[i].(image := inputs[i].image.(address := placed[i].image.address))
    {
      assert PlacedWell(placed, inputs[i], i);
    }
  }

  // ----- symbols -----

  /** No name is exported twice. */
  predicate ExportsUnique(merged: seq<Symbol>) {
    forall i, j :: 0 <= i < j < |merged| && Exports(merged[j], TextOf(merged[j].name)) ==>
      !Exports(merged[i], TextOf(merged[j].name))
  }

  predicate MergedWell(placed: seq<LinkSection>, inputs: seq<Tagged<Symbol>>, merged: seq<Symbol>) {
    && |merged| == |inputs|
    && (forall k :: 0 <= k < |merged| ==> Moved(placed, inputs[k]) == Some(merged[k]))
    && ExportsUnique(merged)
  }

  /** Every symbol is moved with its section, and the duplicate check leaves no name exported twice. */
  lemma {:induction false} MergeHolds(placed: seq<LinkSection>, inputs: seq<Tagged<Symbol>>, k: nat)
    requires k <= |inputs| && Fold(Merger(placed), [], inputs[..k]).Ok?
    ensures MergedWell(placed, inputs[..k], Fold(Merger(placed), [], inputs[..k]).value)
  {
    hide Moved, Exports;
    if k > 0 {
      FoldStep(Merger(placed), [], inputs, k - 1);
      MergeHolds(placed, inputs, k - 1);
      var merged := Fold(Merger(placed), [], inputs[..k - 1]).value;
      MergeStepHolds(placed, inputs[..k - 1], merged, inputs[k - 1]);
      assert inputs[..k - 1] + [inputs[k - 1]] == inputs[..k];
    }
  }

  lemma MergeStepHolds(placed: seq<LinkSection>, inputs: seq<Tagged<Symbol>>, merged: seq<Symbol>,
                       input: Tagged<Symbol>)
    requires MergedWell(placed, inputs, merged) && MergeStep(placed, merged, input).Ok?
    ensures MergedWell(placed, inputs + [input], MergeStep(placed, merged, input).value)
  {
    hide Moved;
    var next := MergeStep(placed, merged, input).value;
    forall i, j | 0 <= i < j < |next| && Exports(next[j], TextOf(next[j].name))
      ensures !Exports(next[i], TextOf(next[j].name))
    {
      if j < |merged| { assert next[j] == merged[j] && next[i] == merged[i]; }
    }
  }

  /** So the first export the linker finds is the only one. */
  lemma ExportFound(merged: seq<Symbol>, name: CString, k: nat)
    requires ExportsUnique(merged) && k < |merged| && Exports(merged[k], name)
    ensures FindExport(merged, name) == Some(k)
  {
    hide FindExport;
    var found := FindExport(merged, name);
    assert found.Some?;
  }

  /** The linker's view of its inputs after decoding: every record passed the codec's checks. */
  predicate Checked(images: seq<Image>) {
    forall o :: 0 <= o < |images| ==>
      && images[o].kind == OBJECT && RecordsOk(images[o])
      && (forall i :: 0 <= i < |images[o].sections| ==> NormalForm(images[o].sections[i]))
  }

  /** The placed sections are the objects' sections, in order, at their final addresses. */
  predicate Follows(images: seq<Image>, placed: seq<LinkSection>) {
    && |placed| == |Inputs(images)| && |placed| <= WORD_MAX
    && (forall i :: 0 <= i < |placed| ==>
          && placed[i].owner == Inputs(images)[i].owner && placed[i].source == Inputs(images)[i].source
          && placed[i].image == Inputs(images)[i].image.(address := placed[i].image.address))
  }

  lemma FindPlaced(images: seq<Image>, placed: seq<LinkSection>, owner: nat, source: nat)
    requires Follows(images, placed) && owner < |images| && source < |images[owner].sections|
    ensures Index(images, owner, source) < |placed|
    ensures FindSection(placed, owner, source) == Some(Index(images, owner, source))
    ensures placed[Index(images, owner, source)].image
            == images[owner].sections[source].(address := placed[Index(images, owner, source)].image.address)
  {
    hide FindSection, Inputs, Index;
    FindSectionIs(images, placed, owner, source);
    InputAt(images, owner, source);
  }

  predicate ExportAt(images: seq<Image>, o: nat, j: nat, name: CString) {
    o < |images| && j < |images[o].symbols| && Exports(images[o].symbols[j], name)
  }

  /** The address of a definition: its section's final address plus its value, modulo 2^32. */
  function DefinitionAddress(images: seq<Image>, placed: seq<LinkSection>, o: nat, j: nat): Word
    requires Follows(images, placed) && Checked(images)
    requires o < |images| && j < |images[o].symbols| && Defined(images[o].symbols[j])
  {
    assert SymbolOk(images[o].symbols[j], |images[o].sections|);
    FindPlaced(images, placed, o, images[o].symbols[j].section);
    (images[o].symbols[j].value + placed[Index(images, o, images[o].symbols[j].section)].image.address) % WORD_RANGE
  }

  function SymbolIndex(images: seq<Image>, o: nat, j: nat): nat
    requires o < |images|
  {
    |Flatten(SymbolInputs(images)[..o])| + j
  }

  lemma SymbolInputAt(images: seq<Image>, o: nat, j: nat)
    requires o < |images| && j < |images[o].symbols|
    ensures SymbolIndex(images, o, j) < |Flatten(SymbolInputs(images))|
    ensures Flatten(SymbolInputs(images))[SymbolIndex(images, o, j)] == Tagged(o, images[o].symbols[j])
  {
    var rows := SymbolInputs(images);
    FlattenSlice(rows, o);
    var start := |Flatten(rows[..o])|;
    assert Flatten(rows)[start..start + |rows[o]|][j] == rows[o][j];
  }

  /** The merged table holds each object's symbols in order, at their final addresses. */
  lemma MergedAt(images: seq<Image>, placed: seq<LinkSection>, merged: seq<Symbol>, o: nat, j: nat)
    requires Checked(images) && Follows(images, placed) && MergedWell(placed, Flatten(SymbolInputs(images)), merged)
    requires o < |images| && j < |images[o].symbols|
    ensures SymbolIndex(images, o, j) < |merged|
    ensures var s, m := images[o].symbols[j], merged[SymbolIndex(images, o, j)];
            && m.name == s.name && m.binding == s.binding && (Defined(m) <==> Defined(s))
            && (Defined(s) ==> m.value == DefinitionAddress(images, placed, o, j))
  {
    hide SymbolIndex, Index, FindSection, ExportsUnique;
    SymbolInputAt(images, o, j);
    var s := images[o].symbols[j];
    if Defined(s) {
      assert SymbolOk(s, |images[o].sections|);
      FindPlaced(images, placed, o, s.section);
      var at := Index(images, o, s.section);
      assert at % WORD_RANGE == at < UNDEFINED_SECTION by { ModSmall(at, WORD_RANGE); }
    }
  }

  /** Exactly one object exports the name, and `address` is where its definition ends up. */
  ghost predicate UniqueExport(images: seq<Image>, placed: seq<LinkSection>, name: CString, address: nat)
    requires Checked(images) && Follows(images, placed)
  {
    exists o: nat, j: nat ::
      && ExportAt(images, o, j, name) && address == DefinitionAddress(images, placed, o, j)
      && forall o': nat, j': nat :: ExportAt(images, o', j', name) ==> o' == o && j' == j
  }

  lemma ExportIsUnique(images: seq<Image>, placed: seq<LinkSection>, merged: seq<Symbol>, name: CString)
    requires Checked(images) && Follows(images, placed) && MergedWell(placed, Flatten(SymbolInputs(images)), merged)
    requires FindExport(merged, name).Some?
    ensures UniqueExport(images, placed, name, merged[FindExport(merged, name).value].value)
  {
    hide FindExport, SymbolIndex, DefinitionAddress, Moved;
    var k := FindExport(merged, name).value;
    var o, j := FlattenLocate(SymbolInputs(images), k);
    LocatedSymbol(images, o, j, k);
    MergedAt(images, placed, merged, o, j);
    forall o': nat, j': nat | ExportAt(images, o', j', name) ensures o' == o && j' == j {
      MergedAt(images, placed, merged, o', j');
      ExportFound(merged, name, SymbolIndex(images, o', j'));
      SymbolIndexInjective(images, o, j, o', j');
    }
    assert ExportAt(images, o, j, name);
  }

  lemma LocatedSymbol(images: seq<Image>, o: nat, j: nat, k: nat)
    requires o < |images| && k == |Flatten(SymbolInputs(images)[..o])| + j
    ensures k == SymbolIndex(images, o, j)
  {
  }

  /** Different symbols have different positions in the merged table. */
  lemma SymbolIndexInjective(images: seq<Image>, o: nat, j: nat, o': nat, j': nat)
    requires o < |images| && j < |images[o].symbols| && o' < |images| && j' < |images[o'].symbols|
    requires SymbolIndex(images, o, j) == SymbolIndex(images, o', j')
    ensures o == o' && j == j'
  {
    var rows := SymbolInputs(images);
    if o < o' { FlattenGrows(rows, o, o'); }
    if o' < o { FlattenGrows(rows, o', o); }
  }

  /** A later row starts behind an earlier one. */
  lemma {:induction false} FlattenGrows<T>(rows: seq<seq<T>>, i: nat, j: nat)
    requires i < j <= |rows|
    ensures |Flatten(rows[..i])| + |rows[i]| <= |Flatten(rows[..j])|
  {
    FlattenStep(rows, j - 1);
    if i < j - 1 { FlattenGrows(rows, i, j - 1); }
  }

  // ----- relocations -----

  /** What a reference stands for, in terms of the objects alone. */
  ghost predicate ResolvesTo(images: seq<Image>, placed: seq<LinkSection>, owner: nat, reference: Symbol, address: nat)
    requires Checked(images) && Follows(images, placed)
    requires owner < |images| && (Defined(reference) ==> reference.section < |images[owner].sections|)
  {
    if Defined(reference) then
      FindPlaced(images, placed, owner, reference.section);
      address == placed[Index(images, owner, reference.section)].image.address + reference.value
    else UniqueExport(images, placed, TextOf(reference.name), address)
  }

  lemma TargetResolves(images: seq<Image>, placed: seq<LinkSection>, merged: seq<Symbol>, owner: nat, reference: Symbol)
    requires Checked(images) && Follows(images, placed) && MergedWell(placed, Flatten(SymbolInputs(images)), merged)
    requires owner < |images| && (Defined(reference) ==> reference.section < |images[owner].sections|)
    requires Target(placed, merged, owner, reference).Ok?
    ensures ResolvesTo(images, placed, owner, reference, Target(placed, merged, owner, reference).value)
  {
    hide Checked, Follows, MergedWell, FindSection, FindExport, Index, UniqueExport;
    if Defined(reference) {
      FindPlaced(images, placed, owner, reference.section);
    } else {
      ExportIsUnique(images, placed, merged, TextOf(reference.name));
    }
  }

  /** Relocation k writes to section d. */
  predicate Patches(images: seq<Image>, r: Tagged<Relocation>, d: nat) {
    r.owner < |images| && Index(images, r.owner, r.value.section) == d
  }

  predicate Covers(images: seq<Image>, r: Tagged<Relocation>, d: nat, p: nat) {
    Patches(images, r, d) && r.value.offset <= p < r.value.offset + 4
  }

  /** Two relocations write a common byte. */
  predicate Collide(images: seq<Image>, r: Tagged<Relocation>, q: Tagged<Relocation>) {
    r.owner < |images| && q.owner < |images|
    && Index(images, r.owner, r.value.section) == Index(images, q.owner, q.value.section)
    && r.value.offset < q.value.offset + 4 && q.value.offset < r.value.offset + 4
  }

  /** A relocation record that passed the codec's checks. */
  predicate FromObjects(images: seq<Image>, r: Tagged<Relocation>) {
    r.owner < |images| && RelocationOk(r.value, images[r.owner].sections, |images[r.owner].symbols|)
  }

  lemma RelocationsFromObjects(images: seq<Image>)
    requires Checked(images)
    ensures forall k :: 0 <= k < |Flatten(RelocationInputs(images))| ==>
              FromObjects(images, Flatten(RelocationInputs(images))[k])
  {
    var inputs := Flatten(RelocationInputs(images));
    forall k | 0 <= k < |inputs| ensures FromObjects(images, inputs[k]) {
      var o, j := FlattenLocate(RelocationInputs(images), k);
      assert inputs[k] == Tagged(o, images[o].relocations[j]);
    }
  }

  /** The word a relocation must leave behind, given what its reference stands for. */
  function Expected(images: seq<Image>, placed: seq<LinkSection>, r: Tagged<Relocation>, s: nat): int
    requires Follows(images, placed) && FromObjects(images, r)
  {
    FindPlaced(images, placed, r.owner, r.value.section);
    s + r.value.addend
    - if r.value.kind == PC_RELATIVE32
      then placed[Index(images, r.owner, r.value.section)].image.address + r.value.offset else 0
  }

  predicate InReach(r: Relocation, value: int) {
    if r.kind == PC_RELATIVE32 then -0x8000_0000 <= value < 0x8000_0000 else 0 <= value < WORD_RANGE
  }

  /** One relocation writes its word and nothing else. */
  lemma StepPatches(images: seq<Image>, placed: seq<LinkSection>, merged: seq<Symbol>, datas: seq<seq<Byte>>,
                    r: Tagged<Relocation>)
    returns (s: nat)
    requires Checked(images) && Follows(images, placed) && MergedWell(placed, Flatten(SymbolInputs(images)), merged)
    requires FromObjects(images, r) && RelocateStep(images, placed, merged, datas, r).Ok?
    ensures ResolvesTo(images, placed, r.owner, images[r.owner].symbols[r.value.symbol], s)
    ensures InReach(r.value, Expected(images, placed, r, s))
    ensures var d := Index(images, r.owner, r.value.section);
            && d < |datas| && r.value.offset + 4 <= |datas[d]|
            && RelocateStep(images, placed, merged, datas, r).value
               == datas[d := Splice(datas[d], r.value.offset, LE(Expected(images, placed, r, s) % WORD_RANGE, 4))]
  {
    hide Checked, Follows, MergedWell, FindSection, Target, Index, ResolvesTo, Splice, LE;
    FindPlaced(images, placed, r.owner, r.value.section);
    var reference := images[r.owner].symbols[r.value.symbol];
    CheckedSymbol(images, r.owner, r.value.symbol);
    s := Target(placed, merged, r.owner, reference).value;
    TargetResolves(images, placed, merged, r.owner, reference);
  }

  lemma CheckedSymbol(images: seq<Image>, o: nat, j: nat)
    requires Checked(images) && o < |images| && j < |images[o].symbols|
    ensures Defined(images[o].symbols[j]) ==> images[o].symbols[j].section < |images[o].sections|
  {
    assert SymbolOk(images[o].symbols[j], |images[o].sections|);
  }

  /** Everything known about the linker's state while it relocates. */
  predicate Relocating(images: seq<Image>, placed: seq<LinkSection>, merged: seq<Symbol>,
                       inputs: seq<Tagged<Relocation>>)
  {
    && Checked(images) && Follows(images, placed) && MergedWell(placed, Flatten(SymbolInputs(images)), merged)
    && forall k :: 0 <= k < |inputs| ==> FromObjects(images, inputs[k])
  }

  /** No section changes size. */
  lemma {:induction false} SizesKept(images: seq<Image>, placed: seq<LinkSection>, merged: seq<Symbol>,
                                     start: seq<seq<Byte>>, inputs: seq<Tagged<Relocation>>, k: nat)
    requires Relocating(images, placed, merged, inputs) && k <= |inputs|
    requires Fold(Relocator(images, placed, merged), start, inputs[..k]).Ok?
    ensures var datas := Fold(Relocator(images, placed, merged), start, inputs[..k]).value;
            |datas| == |start| && forall d :: 0 <= d < |start| ==> |datas[d]| == |start[d]|
  {
    hide Checked, Follows, MergedWell, Expected, ResolvesTo, InReach, RelocateStep;
    if k > 0 {
      FoldStep(Relocator(images, placed, merged), start, inputs, k - 1);
      SizesKept(images, placed, merged, start, inputs, k - 1);
      var _ := StepPatches(images, placed, merged,
                           Fold(Relocator(images, placed, merged), start, inputs[..k - 1]).value, inputs[k - 1]);
    }
  }

  /** A byte no relocation covers keeps its value. */
  lemma {:induction false} UncoveredKept(images: seq<Image>, placed: seq<LinkSection>, merged: seq<Symbol>,
                                         start: seq<seq<Byte>>, inputs: seq<Tagged<Relocation>>, j: nat, k: nat, d: nat,
                                         p: nat)
    requires Relocating(images, placed, merged, inputs) && j <= k <= |inputs|
    requires Fold(Relocator(images, placed, merged), start, inputs[..k]).Ok?
    requires forall i :: j <= i < k ==> !Covers(images, inputs[i], d, p)
    ensures Fold(Relocator(images, placed, merged), start, inputs[..j]).Ok?
    ensures var was := Fold(Relocator(images, placed, merged), start, inputs[..j]).value;
            var datas := Fold(Relocator(images, placed, merged), start, inputs[..k]).value;
            |was| == |datas| && (d < |was| ==> |was[d]| == |datas[d]| && (p < |was[d]| ==> datas[d][p] == was[d][p]))
    decreases k
  {
    hide Checked, Follows, MergedWell, Expected, ResolvesTo, InReach, RelocateStep, Index, LE;
    if j < k {
      FoldStep(Relocator(images, placed, merged), start, inputs, k - 1);
      UncoveredKept(images, placed, merged, start, inputs, j, k - 1, d, p);
      var before := Fold(Relocator(images, placed, merged), start, inputs[..k - 1]).value;
      var _ := StepPatches(images, placed, merged, before, inputs[k - 1]);
      assert !Covers(images, inputs[k - 1], d, p);
    }
  }

  lemma NotCovered(images: seq<Image>, r: Tagged<Relocation>, q: Tagged<Relocation>, d: nat, p: nat)
    requires Covers(images, r, d, p) && r.owner < |images| && q.owner < |images| && !Collide(images, r, q)
    ensures !Covers(images, q, d, p)
  {
    hide Index;
  }

  /** After the last relocation, the word of every relocation that no later one collides with is S + A, or S + A - P. */
  lemma RelocationHolds(images: seq<Image>, placed: seq<LinkSection>, merged: seq<Symbol>, start: seq<seq<Byte>>,
                        inputs: seq<Tagged<Relocation>>, i: nat) returns (s: nat)
    requires Relocating(images, placed, merged, inputs) && i < |inputs|
    requires Fold(Relocator(images, placed, merged), start, inputs).Ok?
    requires forall q :: i < q < |inputs| ==> !Collide(images, inputs[i], inputs[q])
    ensures ResolvesTo(images, placed, inputs[i].owner, images[inputs[i].owner].symbols[inputs[i].value.symbol], s)
    ensures InReach(inputs[i].value, Expected(images, placed, inputs[i], s))
    ensures var datas := Fold(Relocator(images, placed, merged), start, inputs).value;
            var d := Index(images, inputs[i].owner, inputs[i].value.section);
            && d < |datas|
            && At(datas[d], inputs[i].value.offset, LE(Expected(images, placed, inputs[i], s) % WORD_RANGE, 4))
  {
    hide Checked, Follows, MergedWell, Expected, ResolvesTo, InReach, RelocateStep, Index, LE, Covers;
    var r, n, step := inputs[i], |inputs|, Relocator(images, placed, merged);
    assert inputs[..n] == inputs;
    FoldPrefix(step, start, inputs, i);
    FoldPrefix(step, start, inputs, i + 1);
    FoldStep(step, start, inputs, i);
    var before, after := Fold(step, start, inputs[..i]).value, Fold(step, start, inputs[..i + 1]).value;
    s := StepPatches(images, placed, merged, before, r);
    var datas, d := Fold(step, start, inputs).value, Index(images, r.owner, r.value.section);
    var word := LE(Expected(images, placed, r, s) % WORD_RANGE, 4);
    WordKept(images, placed, merged, start, inputs, i, d);
    SplicedWord(before[d], r.value.offset, word, datas[d]);
  }

  lemma SplicedWord(before: seq<Byte>, offset: nat, word: seq<Byte>, after: seq<Byte>)
    requires |word| == 4 && offset + 4 <= |before| == |after|
    requires forall p :: offset <= p < offset + 4 ==> after[p] == Splice(before, offset, word)[p]
    ensures At(after, offset, word)
  {
    assert after[offset..offset + 4] == word;
  }

  lemma WordKept(images: seq<Image>, placed: seq<LinkSection>, merged: seq<Symbol>, start: seq<seq<Byte>>,
                 inputs: seq<Tagged<Relocation>>, i: nat, d: nat)
    requires Relocating(images, placed, merged, inputs) && i < |inputs|
    requires Fold(Relocator(images, placed, merged), start, inputs).Ok?
    requires d == Index(images, inputs[i].owner, inputs[i].value.section)
    requires forall q :: i < q < |inputs| ==> !Collide(images, inputs[i], inputs[q])
    ensures Fold(Relocator(images, placed, merged), start, inputs[..i + 1]).Ok?
    ensures var was := Fold(Relocator(images, placed, merged), start, inputs[..i + 1]).value;
            var datas := Fold(Relocator(images, placed, merged), start, inputs).value;
            var at := inputs[i].value.offset;
            && |was| == |datas|
            && (d < |was| ==> |was[d]| == |datas[d]|)
            && (d < |was| ==> forall p :: at <= p < at + 4 && p < |was[d]| ==> datas[d][p] == was[d][p])
  {
    hide Relocating, Index, Collide, Relocator, Fold;
    var at := inputs[i].value.offset;
    ByteKept(images, placed, merged, start, inputs, i, d, at);
    var was := Fold(Relocator(images, placed, merged), start, inputs[..i + 1]).value;
    var datas := Fold(Relocator(images, placed, merged), start, inputs).value;
    if d < |was| {
      forall p | at <= p < at + 4 && p < |was[d]| ensures datas[d][p] == was[d][p] {
        ByteKept(images, placed, merged, start, inputs, i, d, p);
      }
    }
  }

  /** A byte the i-th relocation covers is not touched again when no later one collides with it. */
  lemma ByteKept(images: seq<Image>, placed: seq<LinkSection>, merged: seq<Symbol>, start: seq<seq<Byte>>,
                 inputs: seq<Tagged<Relocation>>, i: nat, d: nat, p: nat)
    requires Relocating(images, placed, merged, inputs) && i < |inputs|
    requires Fold(Relocator(images, placed, merged), start, inputs).Ok?
    requires d == Index(images, inputs[i].owner, inputs[i].value.section)
    requires inputs[i].value.offset <= p < inputs[i].value.offset + 4
    requires forall q :: i < q < |inputs| ==> !Collide(images, inputs[i], inputs[q])
    ensures Fold(Relocator(images, placed, merged), start, inputs[..i + 1]).Ok?
    ensures var was := Fold(Relocator(images, placed, merged), start, inputs[..i + 1]).value;
            var datas := Fold(Relocator(images, placed, merged), start, inputs).value;
            |was| == |datas| && (d < |was| ==> |was[d]| == |datas[d]| && (p < |was[d]| ==> datas[d][p] == was[d][p]))
  {
    hide Checked, Follows, MergedWell, Index, Collide;
    assert inputs[..|inputs|] == inputs;
    assert FromObjects(images, inputs[i]) && Covers(images, inputs[i], d, p);
    forall q | i + 1 <= q < |inputs| ensures !Covers(images, inputs[q], d, p) {
      assert FromObjects(images, inputs[q]) && !Collide(images, inputs[i], inputs[q]);
      NotCovered(images, inputs[i], inputs[q], d, p);
    }
    UncoveredKept(images, placed, merged, start, inputs, i + 1, |inputs|, d, p);
  }

  // ----- a whole run of the linker -----

  /** The intermediate results of a link. */
  datatype LinkRun = LinkRun(images: seq<Image>, placed: seq<LinkSection>, merged: seq<Symbol>, datas: seq<seq<Byte>>,
                             entry: Word)

  ghost predicate Linked(objects: seq<seq<Byte>>, requested: Option<CString>, run: LinkRun, output: seq<Byte>) {
    && DecodeAll(objects) == Ok(run.images)
    && Place(run.images) == Ok(run.placed)
    && Merge(run.images, run.placed) == Ok(run.merged)
    && Relocate(run.images, run.placed, run.merged) == Ok(run.datas)
    && |run.datas| == |run.placed|
    && run.entry == EntryAddress(run.merged, SelectedEntry(run.images, requested)) != 0
    && Encode(Executable(run.placed, run.datas, run.entry)) == Ok(output)
  }

  lemma LinkRuns(objects: seq<seq<Byte>>, requested: Option<CString>) returns (run: LinkRun)
    requires Link(objects, requested).Ok?
    ensures Linked(objects, requested, run, Link(objects, requested).value)
  {
    hide DecodeAll, Place, Merge, Relocate, EntryAddress, SelectedEntry, Executable, Encode;
    var images := DecodeAll(objects).value;
    var placed := Place(images).value;
    var merged := Merge(images, placed).value;
    run := LinkRun(images, placed, merged, Relocate(images, placed, merged).value,
                   EntryAddress(merged, SelectedEntry(images, requested)));
  }

  lemma {:induction false} ObjectsChecked(objects: seq<seq<Byte>>)
    requires DecodeAll(objects).Ok?
    ensures Checked(DecodeAll(objects).value)
  {
    hide Decode, Checked;
    if objects == [] {
      NothingToCheck();
    } else {
      var front, last := objects[..|objects| - 1], objects[|objects| - 1];
      assert DecodeAll(front).Ok?;
      ObjectsChecked(front);
      DecodedIsStructural(last);
      OneMoreChecked(DecodeAll(front).value, last);
    }
  }

  lemma NothingToCheck()
    ensures Checked([])
  {
  }

  lemma OneMoreChecked(images: seq<Image>, input: seq<Byte>)
    requires Checked(images) && Decode(input).Ok? && Decode(input).value.kind == OBJECT
    ensures Checked(images + [Decode(input).value])
  {
    hide Decode;
    DecodedIsStructural(input);
    DecodedSections(input);
  }

  lemma DecodedSections(input: seq<Byte>)
    requires Decode(input).Ok?
    ensures forall i :: 0 <= i < |Decode(input).value.sections| ==> NormalForm(Decode(input).value.sections[i])
  {
    hide Field, GetString, EntryOk, SectionReader, SymbolReader, RelocationReader, Collect;
    DecodedRecords(input, ReadHeader(input), Decode(input).value);
  }
}
