/**
  When a link succeeds, and which error it reports when it does not: each refusal by a
  condition on the decoded objects and the addresses their sections get.
 */
module LinkOutcomes {
  import opened Wrappers
  import opened Bits
  import opened Bytes
  import opened ImageFormat
  import opened ImageRoundTrip
  import opened Linking
  import opened LinkProofs
  import opened LinkAndLoad

  // ----- placement -----

  /** Two stretches of memory do not meet; an empty one inside another does. */
  predicate Disjoint(a: nat, size: nat, b: nat, other: nat) {
    a + size <= b || b + other <= a
  }

  /** The address behind the section placed before the i-th; the first one starts from 8. */
  function Behind(inputs: seq<LinkSection>, addresses: seq<nat>, i: nat): nat
    requires i <= |addresses| && i <= |inputs|
  {
    if i == 0 then 8 else addresses[i - 1] + inputs[i - 1].image.size
  }

  /** An address the placement rules give section i when the earlier ones are where `addresses` says. */
  predicate Due(inputs: seq<LinkSection>, addresses: seq<nat>, i: nat, a: nat)
    requires i < |inputs| && i <= |addresses|
  {
    var s, from := inputs[i].image, Behind(inputs, addresses, i);
    if s.address != 0 || s.flags % 2 == 1 then a == s.address
    else s.alignment > 0 && a % s.alignment == 0 && from <= a < from + s.alignment
  }

  /** At this address section i meets none of the earlier ones. */
  predicate Clear(inputs: seq<LinkSection>, addresses: seq<nat>, i: nat, a: nat)
    requires i < |inputs| && i <= |addresses|
  {
    forall j :: 0 <= j < i ==> Disjoint(addresses[j], inputs[j].image.size, a, inputs[i].image.size)
  }

  /** All the rules for section i. */
  predicate PlacedAs(inputs: seq<LinkSection>, addresses: seq<nat>, i: nat)
    requires i < |inputs| && i < |addresses|
  {
    && Due(inputs, addresses, i, addresses[i]) && Clear(inputs, addresses, i, addresses[i])
    && addresses[i] + inputs[i].image.size <= ROM_SIZE
  }

  /** The first sections have addresses that satisfy all placement rules. */
  predicate Placement(inputs: seq<LinkSection>, addresses: seq<nat>) {
    |addresses| <= |inputs| && forall i :: 0 <= i < |addresses| ==> PlacedAs(inputs, addresses, i)
  }

  function AtAddress(input: LinkSection, a: nat): LinkSection
    requires a <= ROM_SIZE
  {
    input.(image := input.image.(address := a))
  }

  /** The placed sections are the first inputs at these addresses. */
  predicate Holds(inputs: seq<LinkSection>, placed: seq<LinkSection>, addresses: seq<nat>) {
    |placed| == |addresses| <= |inputs|
    && forall i :: 0 <= i < |placed| ==> addresses[i] <= ROM_SIZE && placed[i] == AtAddress(inputs[i], addresses[i])
  }

  predicate Aligned(inputs: seq<LinkSection>) {
    forall i :: 0 <= i < |inputs| ==> ValidAlignment(inputs[i].image.alignment)
  }

  lemma AutomaticIs(s: Section)
    ensures Automatic(s) <==> !(s.address != 0 || s.flags % 2 == 1)
  {
    hide And;
    MaskIsRemainder(s.flags, 1);
    assert Pow2(1) == 2 * Pow2(0);
  }

  /** Rounding up always gives a 32-bit address behind a section in ROM. */
  lemma AlignedAddress(from: nat, alignment: Word)
    requires ValidAlignment(alignment) && from <= ROM_SIZE
    ensures AlignAddress(from, alignment).Some?
    ensures var a := AlignAddress(from, alignment).value; a % alignment == 0 && from <= a < from + alignment
  {
    hide And, AlignAddress, Pow2;
    AlignLeast(from, alignment);
    RoundUp(from, alignment);
    HalfRange(alignment);
    var r := from + alignment - 1 - (from + alignment - 1) % alignment;
    assert AlignAddress(from, alignment).value <= r;
  }

  lemma HalfRange(alignment: Word)
    requires ValidAlignment(alignment)
    ensures alignment <= 0x8000_0000
  {
    hide And, Pow2;
    var k := ClearLowBitPowerOfTwo(alignment);
    WordWidths();
    Doubled(32);
    if k >= 32 { Pow2Monotone(32, k); } else { Pow2Monotone(k, 31); }
  }

  /** Two multiples less than one alignment behind the same place are equal. */
  lemma OneMultiple(a: nat, b: nat, d: nat, from: nat)
    requires d > 0 && a % d == 0 && b % d == 0 && from <= a < from + d && from <= b < from + d
    ensures a == b
  {
    NextMultiple(a, b, d);
    NextMultiple(b, a, d);
  }

  /** One step gives the next section its due address, or reports what is in the way. */
  lemma PlaceStepIs(inputs: seq<LinkSection>, placed: seq<LinkSection>, addresses: seq<nat>, i: nat) returns (a: nat)
    requires i < |inputs| && i == |placed| && Holds(inputs, placed, addresses) && Placement(inputs, addresses)
    requires Aligned(inputs)
    ensures Due(inputs, addresses, i, a)
    ensures PlaceStep(placed, inputs[i])
            == if !Clear(inputs, addresses, i, a) then Err(Overlap)
               else if a + inputs[i].image.size > ROM_SIZE then Err(LinkOverflow)
               else Ok(placed + [AtAddress(inputs[i], a)])
  {
    hide And, AlignAddress, ValidAlignment, Automatic;
    AutomaticIs(inputs[i].image);
    assert i > 0 ==> PlacedAs(inputs, addresses, i - 1);
    if Automatic(inputs[i].image) {
      AlignedAddress(Behind(inputs, addresses, i), inputs[i].image.alignment);
      a := AlignAddress(Behind(inputs, addresses, i), inputs[i].image.alignment).value;
    } else {
      a := inputs[i].image.address;
    }
    OverlapsIs(inputs, placed, addresses, i, a);
  }

  lemma OverlapsIs(inputs: seq<LinkSection>, placed: seq<LinkSection>, addresses: seq<nat>, i: nat, a: nat)
    requires i < |inputs| && i == |placed| && Holds(inputs, placed, addresses)
    ensures Overlaps(placed, a, inputs[i].image.size) <==> !Clear(inputs, addresses, i, a)
  {
    var size := inputs[i].image.size;
    if Overlaps(placed, a, size) {
      var j :| 0 <= j < |placed| && Meets(placed[j].image, a, size);
      assert !Disjoint(addresses[j], inputs[j].image.size, a, size);
    }
    if !Clear(inputs, addresses, i, a) {
      var j :| 0 <= j < i && !Disjoint(addresses[j], inputs[j].image.size, a, size);
      assert Meets(placed[j].image, a, size);
    }
  }

  /** Placing sections one by one finds the addresses of as many as have some. */
  lemma {:induction false} PlacementFound(inputs: seq<LinkSection>, k: nat) returns (addresses: seq<nat>)
    requires Aligned(inputs) && k <= |inputs| && Fold(Placer(), [], inputs[..k]).Ok?
    ensures |addresses| == k && Placement(inputs, addresses)
    ensures Holds(inputs, Fold(Placer(), [], inputs[..k]).value, addresses)
  {
    hide PlaceStep, Due, Clear, Aligned;
    addresses := [];
    if k > 0 {
      FoldStep(Placer(), [], inputs, k - 1);
      var before := PlacementFound(inputs, k - 1);
      var placed := Fold(Placer(), [], inputs[..k - 1]).value;
      var a := PlaceStepIs(inputs, placed, before, k - 1);
      addresses := before + [a];
      PlacementExtends(inputs, before, a);
    }
  }

  /** What a rule says of a section depends on the earlier ones only. */
  lemma SamePrefix(inputs: seq<LinkSection>, addresses: seq<nat>, others: seq<nat>, i: nat, a: nat)
    requires i < |inputs| && i <= |addresses| && i <= |others| && addresses[..i] == others[..i]
    ensures Due(inputs, addresses, i, a) == Due(inputs, others, i, a)
    ensures Clear(inputs, addresses, i, a) == Clear(inputs, others, i, a)
  {
    assert forall j :: 0 <= j < i ==> addresses[j] == addresses[..i][j] == others[j];
  }

  lemma PlacementExtends(inputs: seq<LinkSection>, addresses: seq<nat>, a: nat)
    requires Placement(inputs, addresses) && |addresses| < |inputs|
    requires Due(inputs, addresses, |addresses|, a) && Clear(inputs, addresses, |addresses|, a)
    requires a + inputs[|addresses|].image.size <= ROM_SIZE
    ensures Placement(inputs, addresses + [a])
  {
    hide Due, Clear;
    var next := addresses + [a];
    forall i | 0 <= i < |next| ensures PlacedAs(inputs, next, i) {
      assert next[..i] == addresses[..i];
      SamePrefix(inputs, next, addresses, i, next[i]);
      assert i < |addresses| ==> PlacedAs(inputs, addresses, i);
    }
  }

  /** The rules leave no choice, so if there are addresses that satisfy them, the linker finds those. */
  lemma {:induction false} PlacementForced(inputs: seq<LinkSection>, addresses: seq<nat>, k: nat)
    requires Aligned(inputs) && Placement(inputs, addresses) && k <= |addresses|
    ensures Fold(Placer(), [], inputs[..k]).Ok?
    ensures Holds(inputs, Fold(Placer(), [], inputs[..k]).value, addresses[..k]) && Placement(inputs, addresses[..k])
  {
    hide PlaceStep, Due, Clear, Aligned;
    if k > 0 {
      FoldStep(Placer(), [], inputs, k - 1);
      PlacementForced(inputs, addresses, k - 1);
      var before, placed := addresses[..k - 1], Fold(Placer(), [], inputs[..k - 1]).value;
      var a := PlaceStepIs(inputs, placed, before, k - 1);
      assert PlacedAs(inputs, addresses, k - 1) && before[..k - 1] == addresses[..k - 1];
      SamePrefix(inputs, before, addresses, k - 1, addresses[k - 1]);
      DueOnce(inputs, before, k - 1, a, addresses[k - 1]);
      assert addresses[..k] == before + [a];
      PlacementExtends(inputs, before, a);
    }
  }

  lemma DueOnce(inputs: seq<LinkSection>, addresses: seq<nat>, i: nat, a: nat, b: nat)
    requires i < |inputs| && i <= |addresses| && Due(inputs, addresses, i, a) && Due(inputs, addresses, i, b)
    ensures a == b
  {
    var s := inputs[i].image;
    if !(s.address != 0 || s.flags % 2 == 1) {
      OneMultiple(a, b, s.alignment, Behind(inputs, addresses, i));
    }
  }

  /**
    Placement succeeds exactly when there are addresses that satisfy the rules for every
    section. Otherwise the error is that of the first section without one: its due
    address overlaps an earlier section, or it ends behind ROM.
   */
  lemma PlacementOutcome(images: seq<Image>) returns (addresses: seq<nat>, a: nat)
    requires Checked(images)
    ensures Place(images).Ok? <==>
            exists all :: |all| == |Inputs(images)| && Placement(Inputs(images), all)
    ensures Placement(Inputs(images), addresses)
    ensures match Place(images)
            case Ok(placed) => |addresses| == |Inputs(images)| && Holds(Inputs(images), placed, addresses)
            case Err(e) =>
              var inputs, i := Inputs(images), |addresses|;
              && i < |inputs| && Due(inputs, addresses, i, a)
              && if !Clear(inputs, addresses, i, a) then e == Overlap
                 else e == LinkOverflow && a + inputs[i].image.size > ROM_SIZE
  {
    hide PlaceStep, Due, Clear, Inputs, Checked, Placement;
    var inputs := Inputs(images);
    AllAligned(images);
    assert inputs[..|inputs|] == inputs;
    a := 0;
    if Place(images).Ok? {
      addresses := PlacementFound(inputs, |inputs|);
    } else {
      var k := FoldFails(Placer(), [], inputs);
      addresses := PlacementFound(inputs, k);
      a := PlaceStepIs(inputs, Fold(Placer(), [], inputs[..k]).value, addresses, k);
      forall all | |all| == |inputs| && Placement(inputs, all) ensures false {
        PlacementForced(inputs, all, |inputs|);
      }
    }
  }

  lemma AllAligned(images: seq<Image>)
    requires Checked(images)
    ensures Aligned(Inputs(images))
  {
    hide ValidAlignment;
    forall i | 0 <= i < |Inputs(images)| ensures ValidAlignment(Inputs(images)[i].image.alignment) {
      var o, s := FlattenLocate(InputRows(images), i);
      assert SectionOk(images[o].sections[s]);
    }
  }

  // ----- merging -----

  /** A definition that all objects can see under this name. */
  predicate Visible(images: seq<Image>, o: nat, j: nat, name: CString) {
    && o < |images| && j < |images[o].symbols|
    && images[o].symbols[j].binding == GLOBAL && images[o].symbols[j].section != UNDEFINED_SECTION
    && TextOf(images[o].symbols[j].name) == name
  }

  /** Two different definitions are visible under one name. */
  ghost predicate Clash(images: seq<Image>) {
    exists o: nat, j: nat, o': nat, j': nat, name ::
      Visible(images, o, j, name) && Visible(images, o', j', name) && (o != o' || j != j')
  }

  lemma MovedKeeps(images: seq<Image>, placed: seq<LinkSection>, o: nat, j: nat)
    requires Checked(images) && Follows(images, placed) && o < |images| && j < |images[o].symbols|
    ensures var moved := Moved(placed, Tagged(o, images[o].symbols[j]));
            && moved.Some?
            && forall name :: Exports(moved.value, name) <==> Visible(images, o, j, name)
  {
    hide Index, FindSection;
    var s := images[o].symbols[j];
    if Defined(s) {
      assert SymbolOk(s, |images[o].sections|);
      FindPlaced(images, placed, o, s.section);
      ModSmall(Index(images, o, s.section), WORD_RANGE);
    }
  }

  /** A merged symbol is visible where its input is. */
  lemma MergedVisible(images: seq<Image>, placed: seq<LinkSection>, merged: seq<Symbol>, k: nat, i: nat)
    returns (o: nat, j: nat)
    requires Checked(images) && Follows(images, placed) && k <= |Flatten(SymbolInputs(images))| && i < k
    requires MergedWell(placed, Flatten(SymbolInputs(images))[..k], merged)
    ensures i < |merged| && o < |images| && j < |images[o].symbols| && i == SymbolIndex(images, o, j)
    ensures forall name :: Exports(merged[i], name) <==> Visible(images, o, j, name)
  {
    hide Checked, Follows, Moved, Exports, Visible, ExportsUnique;
    o, j := FlattenLocate(SymbolInputs(images), i);
    LocatedSymbol(images, o, j, i);
    MovedKeeps(images, placed, o, j);
  }

  /**
    Merging succeeds exactly when no name is defined visibly by two symbols, and a
    duplicate is all it can report.
   */
  lemma MergeOutcome(images: seq<Image>, placed: seq<LinkSection>)
    requires Checked(images) && Follows(images, placed)
    ensures Merge(images, placed).Ok? <==> !Clash(images)
    ensures Merge(images, placed).Err? ==> Merge(images, placed).error == DuplicateSymbol
  {
    hide Checked, Follows, MergedWell, Visible, SymbolInputs, MergeStep;
    if Merge(images, placed).Ok? {
      AllMerged(images, placed);
      forall o: nat, j: nat, o': nat, j': nat, name | Visible(images, o, j, name) && Visible(images, o', j', name)
        ensures o == o' && j == j'
      {
        VisibleOnce(images, placed, Merge(images, placed).value, o, j, o', j', name);
      }
    } else {
      var inputs := Flatten(SymbolInputs(images));
      var k := FoldFails(Merger(placed), [], inputs);
      MergeHolds(placed, inputs, k);
      MergeStepFails(images, placed, Fold(Merger(placed), [], inputs[..k]).value, k);
    }
  }

  lemma VisibleOnce(images: seq<Image>, placed: seq<LinkSection>, merged: seq<Symbol>, o: nat, j: nat, o': nat, j': nat,
                    name: CString)
    requires Checked(images) && Follows(images, placed) && MergedWell(placed, Flatten(SymbolInputs(images)), merged)
    requires Visible(images, o, j, name) && Visible(images, o', j', name)
    ensures o == o' && j == j'
  {
    hide Checked, Follows, SymbolInputs, SymbolIndex, DefinitionAddress, Moved;
    MergedAt(images, placed, merged, o, j);
    MergedAt(images, placed, merged, o', j');
    var a, b := SymbolIndex(images, o, j), SymbolIndex(images, o', j');
    assert Exports(merged[a], name) && Exports(merged[b], name);
    SymbolIndexInjective(images, o, j, o', j');
  }

  /** The only thing that can stop merging is a second visible definition. */
  lemma MergeStepFails(images: seq<Image>, placed: seq<LinkSection>, merged: seq<Symbol>, k: nat)
    requires Checked(images) && Follows(images, placed) && k < |Flatten(SymbolInputs(images))|
    requires MergedWell(placed, Flatten(SymbolInputs(images))[..k], merged)
    requires MergeStep(placed, merged, Flatten(SymbolInputs(images))[k]).Err?
    ensures MergeStep(placed, merged, Flatten(SymbolInputs(images))[k]) == Err(DuplicateSymbol) && Clash(images)
  {
    hide Checked, Follows, MergedWell, Moved, Visible, SymbolIndex;
    var o, j := FlattenLocate(SymbolInputs(images), k);
    LocatedSymbol(images, o, j, k);
    MovedKeeps(images, placed, o, j);
    var moved := Moved(placed, Tagged(o, images[o].symbols[j])).value;
    var name := TextOf(moved.name);
    MergedLength(images, placed, merged, k);
    var i :| 0 <= i < |merged| && Exports(merged[i], name);
    var o', j' := MergedVisible(images, placed, merged, k, i);
    assert Visible(images, o, j, name) && Visible(images, o', j', name);
  }

  lemma MergedLength(images: seq<Image>, placed: seq<LinkSection>, merged: seq<Symbol>, k: nat)
    requires k <= |Flatten(SymbolInputs(images))| && MergedWell(placed, Flatten(SymbolInputs(images))[..k], merged)
    ensures |merged| == k
  {
  }

  // ----- relocation -----

  /** The symbol a relocation refers to. */
  function Reference(images: seq<Image>, r: Tagged<Relocation>): Symbol
    requires FromObjects(images, r)
  {
    images[r.owner].symbols[r.value.symbol]
  }

  /** It is undefined, and no object defines its name visibly. */
  ghost predicate Dangling(images: seq<Image>, r: Tagged<Relocation>)
    requires FromObjects(images, r)
  {
    && Reference(images, r).section == UNDEFINED_SECTION
    && forall o: nat, j: nat :: !Visible(images, o, j, TextOf(Reference(images, r).name))
  }

  /** Its word, S + A or S + A - P, does not fit. */
  ghost predicate OutOfReach(images: seq<Image>, placed: seq<LinkSection>, r: Tagged<Relocation>)
    requires Checked(images) && Follows(images, placed) && FromObjects(images, r)
  {
    exists s: nat :: Meant(images, placed, r, s) && !InReach(r.value, Expected(images, placed, r, s))
  }

  ghost predicate Meant(images: seq<Image>, placed: seq<LinkSection>, r: Tagged<Relocation>, s: nat)
    requires Checked(images) && Follows(images, placed) && FromObjects(images, r)
  {
    CheckedSymbol(images, r.owner, r.value.symbol);
    ResolvesTo(images, placed, r.owner, Reference(images, r), s)
  }

  ghost predicate Fails(images: seq<Image>, placed: seq<LinkSection>, r: Tagged<Relocation>)
    requires Checked(images) && Follows(images, placed) && FromObjects(images, r)
  {
    Dangling(images, r) || OutOfReach(images, placed, r)
  }

  lemma MeantOnce(images: seq<Image>, placed: seq<LinkSection>, r: Tagged<Relocation>, s: nat, t: nat)
    requires Checked(images) && Follows(images, placed) && FromObjects(images, r)
    requires Meant(images, placed, r, s) && Meant(images, placed, r, t)
    ensures s == t
  {
    hide Checked, Follows, Index, ExportAt, DefinitionAddress;
  }

  lemma TargetMeans(images: seq<Image>, placed: seq<LinkSection>, merged: seq<Symbol>, r: Tagged<Relocation>)
    requires Checked(images) && Follows(images, placed) && MergedWell(placed, Flatten(SymbolInputs(images)), merged)
    requires FromObjects(images, r)
    ensures var target := Target(placed, merged, r.owner, Reference(images, r));
            if Dangling(images, r) then target == Err(UnresolvedSymbol)
            else target.Ok? && Meant(images, placed, r, target.value)
  {
    hide Checked, Follows, MergedWell, FindSection, FindExport, Index, ResolvesTo, Visible, SymbolInputs;
    var reference := Reference(images, r);
    CheckedSymbol(images, r.owner, r.value.symbol);
    if Defined(reference) {
      FindPlaced(images, placed, r.owner, reference.section);
      TargetResolves(images, placed, merged, r.owner, reference);
    } else {
      ExportsVisible(images, placed, merged, TextOf(reference.name));
      if FindExport(merged, TextOf(reference.name)).Some? {
        TargetResolves(images, placed, merged, r.owner, reference);
      }
    }
  }

  lemma ExportsVisible(images: seq<Image>, placed: seq<LinkSection>, merged: seq<Symbol>, name: CString)
    requires Checked(images) && Follows(images, placed) && MergedWell(placed, Flatten(SymbolInputs(images)), merged)
    ensures FindExport(merged, name).Some? <==> exists o: nat, j: nat :: Visible(images, o, j, name)
  {
    hide Checked, Follows, MergedWell, FindExport, SymbolIndex, SymbolInputs, DefinitionAddress;
    if FindExport(merged, name).Some? {
      var k := FindExport(merged, name).value;
      var inputs := Flatten(SymbolInputs(images));
      assert inputs[..|inputs|] == inputs;
      MergedLength(images, placed, merged, |inputs|);
      var o, j := MergedVisible(images, placed, merged, |inputs|, k);
      assert Visible(images, o, j, name);
    }
    forall o: nat, j: nat | Visible(images, o, j, name) ensures FindExport(merged, name).Some? {
      MergedAt(images, placed, merged, o, j);
      assert Exports(merged[SymbolIndex(images, o, j)], name);
    }
  }

  predicate SizedAs(datas: seq<seq<Byte>>, placed: seq<LinkSection>) {
    |datas| == |placed| && forall d :: 0 <= d < |datas| ==> |datas[d]| == placed[d].image.size
  }

  /** One relocation is applied exactly when its symbol means something and its word fits. */
  lemma RelocateStepIs(images: seq<Image>, placed: seq<LinkSection>, merged: seq<Symbol>, datas: seq<seq<Byte>>,
                       r: Tagged<Relocation>)
    requires Checked(images) && Follows(images, placed) && MergedWell(placed, Flatten(SymbolInputs(images)), merged)
    requires FromObjects(images, r) && SizedAs(datas, placed)
    ensures var after := RelocateStep(images, placed, merged, datas, r);
            && (after.Ok? <==> !Fails(images, placed, r))
            && (after.Err? ==>
                  after.error == if Dangling(images, r) then UnresolvedSymbol else LinkOverflow)
  {
    hide Checked, Follows, MergedWell, FindSection, Target, Index, Meant, Dangling, Expected, Splice, LE, SymbolInputs;
    FindPlaced(images, placed, r.owner, r.value.section);
    TargetMeans(images, placed, merged, r);
    if !Dangling(images, r) {
      var s := Target(placed, merged, r.owner, Reference(images, r)).value;
      ReachIs(images, placed, r, s);
      forall t: nat | Meant(images, placed, r, t) ensures t == s { MeantOnce(images, placed, r, s, t); }
    } else {
      forall t: nat | Meant(images, placed, r, t) ensures false { DanglingMeansNothing(images, placed, r, t); }
    }
  }

  lemma DanglingMeansNothing(images: seq<Image>, placed: seq<LinkSection>, r: Tagged<Relocation>, s: nat)
    requires Checked(images) && Follows(images, placed) && FromObjects(images, r) && Dangling(images, r)
    ensures !Meant(images, placed, r, s)
  {
    hide Checked, Follows, Index, DefinitionAddress;
    var name := TextOf(Reference(images, r).name);
    forall o: nat, j: nat ensures !ExportAt(images, o, j, name) {
      assert !Visible(images, o, j, name);
    }
  }

  lemma ReachIs(images: seq<Image>, placed: seq<LinkSection>, r: Tagged<Relocation>, s: nat)
    requires Follows(images, placed) && FromObjects(images, r)
    ensures Index(images, r.owner, r.value.section) < |placed|
    ensures var site := placed[Index(images, r.owner, r.value.section)].image.address + r.value.offset;
            RelocatedValue(r.value, s, site).Some? <==> InReach(r.value, Expected(images, placed, r, s))
  {
    hide Index, Follows;
    FindPlaced(images, placed, r.owner, r.value.section);
  }

  ghost predicate FailsAt(images: seq<Image>, placed: seq<LinkSection>, k: nat)
    requires Checked(images) && Follows(images, placed) && k < |Flatten(RelocationInputs(images))|
  {
    RelocationsFromObjects(images);
    Fails(images, placed, Flatten(RelocationInputs(images))[k])
  }

  /** Relocation k is the first that cannot be applied. */
  ghost predicate FirstFailure(images: seq<Image>, placed: seq<LinkSection>, k: nat)
    requires Checked(images) && Follows(images, placed)
  {
    && k < |Flatten(RelocationInputs(images))| && FailsAt(images, placed, k)
    && forall i :: 0 <= i < k ==> !FailsAt(images, placed, i)
  }

  lemma SizesSoFar(images: seq<Image>, placed: seq<LinkSection>, merged: seq<Symbol>, k: nat)
    requires Relocating(images, placed, merged, Flatten(RelocationInputs(images)))
    requires k <= |Flatten(RelocationInputs(images))|
    requires Fold(Relocator(images, placed, merged), Contents(placed), Flatten(RelocationInputs(images))[..k]).Ok?
    ensures SizedAs(Fold(Relocator(images, placed, merged), Contents(placed),
                         Flatten(RelocationInputs(images))[..k]).value, placed)
  {
    hide Checked, MergedWell, FromObjects, RelocationInputs, Relocator, SymbolInputs;
    SizesKept(images, placed, merged, Contents(placed), Flatten(RelocationInputs(images)), k);
    forall d | 0 <= d < |placed| ensures |Contents(placed)[d]| == placed[d].image.size {
      PlacedNormal(images, placed, d);
    }
  }

  /** What step k does, when it is reached. */
  lemma RelocationStepAt(images: seq<Image>, placed: seq<LinkSection>, merged: seq<Symbol>, k: nat)
    requires Relocating(images, placed, merged, Flatten(RelocationInputs(images)))
    requires k < |Flatten(RelocationInputs(images))|
    requires Fold(Relocator(images, placed, merged), Contents(placed), Flatten(RelocationInputs(images))[..k]).Ok?
    ensures FromObjects(images, Flatten(RelocationInputs(images))[k])
    ensures var r := Flatten(RelocationInputs(images))[k];
            var after := RelocateStep(images, placed, merged,
                                      Fold(Relocator(images, placed, merged), Contents(placed),
                                           Flatten(RelocationInputs(images))[..k]).value, r);
            && (after.Ok? <==> !FailsAt(images, placed, k))
            && (after.Err? ==> after.error == if Dangling(images, r) then UnresolvedSymbol else LinkOverflow)
  {
    hide Checked, MergedWell, FromObjects, RelocationInputs, SymbolInputs, RelocateStep, Fails, Dangling, Follows;
    SizesSoFar(images, placed, merged, k);
    RelocateStepIs(images, placed, merged,
                   Fold(Relocator(images, placed, merged), Contents(placed),
                        Flatten(RelocationInputs(images))[..k]).value, Flatten(RelocationInputs(images))[k]);
  }

  /**
    Relocation succeeds exactly when no relocation fails. Otherwise the first one that
    does decides the error: a reference nobody defines, or a word out of reach.
   */
  lemma RelocateOutcome(images: seq<Image>, placed: seq<LinkSection>, merged: seq<Symbol>) returns (k: nat)
    requires Relocating(images, placed, merged, Flatten(RelocationInputs(images)))
    ensures Relocate(images, placed, merged).Ok? <==>
            forall i :: 0 <= i < |Flatten(RelocationInputs(images))| ==> !FailsAt(images, placed, i)
    ensures Relocate(images, placed, merged).Err? ==>
              && FirstFailure(images, placed, k) && FromObjects(images, Flatten(RelocationInputs(images))[k])
              && Relocate(images, placed, merged).error
                 == if Dangling(images, Flatten(RelocationInputs(images))[k]) then UnresolvedSymbol else LinkOverflow
  {
    hide Checked, Follows, MergedWell, FromObjects, RelocationInputs, SymbolInputs, RelocateStep, FailsAt, Dangling;
    var inputs, step := Flatten(RelocationInputs(images)), Relocator(images, placed, merged);
    k := |inputs|;
    if Relocate(images, placed, merged).Err? {
      k := FoldFails(step, Contents(placed), inputs);
      RelocationStepAt(images, placed, merged, k);
    } else {
      assert inputs[..k] == inputs;
    }
    forall i | 0 <= i < k ensures !FailsAt(images, placed, i) {
      NoFailureBefore(images, placed, merged, i, k);
    }
  }

  lemma NoFailureBefore(images: seq<Image>, placed: seq<LinkSection>, merged: seq<Symbol>, i: nat, k: nat)
    requires Relocating(images, placed, merged, Flatten(RelocationInputs(images)))
    requires i < k <= |Flatten(RelocationInputs(images))|
    requires Fold(Relocator(images, placed, merged), Contents(placed), Flatten(RelocationInputs(images))[..k]).Ok?
    ensures !FailsAt(images, placed, i)
  {
    hide Relocating, RelocationInputs, Relocator, FailsAt, Dangling, FromObjects, Fold;
    var inputs, step := Flatten(RelocationInputs(images)), Relocator(images, placed, merged);
    assert inputs[..k][..i + 1] == inputs[..i + 1] && inputs[..k][..i] == inputs[..i];
    FoldPrefix(step, Contents(placed), inputs[..k], i + 1);
    FoldPrefix(step, Contents(placed), inputs[..k], i);
    FoldStep(step, Contents(placed), inputs, i);
    RelocationStepAt(images, placed, merged, i);
    StepIs(images, placed, merged, Fold(step, Contents(placed), inputs[..i]).value, inputs[i]);
  }

  lemma StepIs(images: seq<Image>, placed: seq<LinkSection>, merged: seq<Symbol>, datas: seq<seq<Byte>>,
               r: Tagged<Relocation>)
    ensures Relocator(images, placed, merged)(datas, r) == RelocateStep(images, placed, merged, datas, r)
  {
  }

  // ----- the entry -----

  /** The entry the caller asks for, or the first one an object names, or "start". */
  ghost predicate Chosen(images: seq<Image>, requested: Option<CString>, name: CString) {
    if requested.Some? then name == requested.value
    else if exists o :: 0 <= o < |images| && images[o].entrySymbol.Some? then
      exists o :: && 0 <= o < |images| && images[o].entrySymbol == Some(name)
                  && forall p :: 0 <= p < o ==> images[p].entrySymbol.None?
    else name == [0x73, 0x74, 0x61, 0x72, 0x74]
  }

  lemma EntryChosen(images: seq<Image>, requested: Option<CString>, name: CString)
    ensures Chosen(images, requested, name) <==> name == SelectedEntry(images, requested)
  {
    if requested.None? { FirstNamedEntry(images); }
  }

  lemma {:induction false} FirstNamedEntry(images: seq<Image>)
    ensures FirstEntry(images).None? ==> forall o :: 0 <= o < |images| ==> images[o].entrySymbol.None?
    ensures FirstEntry(images).Some? ==>
              exists o :: && 0 <= o < |images| && images[o].entrySymbol == FirstEntry(images)
                          && forall p :: 0 <= p < o ==> images[p].entrySymbol.None?
  {
    if images != [] && images[0].entrySymbol.None? {
      FirstNamedEntry(images[1..]);
      if FirstEntry(images[1..]).Some? {
        var o :| && 0 <= o < |images[1..]| && images[1..][o].entrySymbol == FirstEntry(images[1..])
                 && forall p :: 0 <= p < o ==> images[1..][p].entrySymbol.None?;
        assert images[o + 1].entrySymbol == FirstEntry(images);
        assert forall p :: 0 < p <= o ==> images[p] == images[1..][p - 1];
      }
      assert forall o :: 0 < o < |images| ==> images[o] == images[1..][o - 1];
    }
  }

  predicate NamedAt(images: seq<Image>, o: nat, j: nat, name: CString) {
    && o < |images| && j < |images[o].symbols|
    && images[o].symbols[j].section != UNDEFINED_SECTION && TextOf(images[o].symbols[j].name) == name
  }

  ghost predicate FirstNamedAt(images: seq<Image>, o: nat, j: nat, name: CString) {
    && NamedAt(images, o, j, name)
    && forall o': nat, j': nat :: NamedAt(images, o', j', name) ==> o < o' || (o == o' && j <= j')
  }

  /** The entry address: that of the first definition of the name, whatever its binding, or 0. */
  ghost predicate Enters(images: seq<Image>, placed: seq<LinkSection>, name: CString, entry: Word)
    requires Checked(images) && Follows(images, placed)
  {
    if exists o: nat, j: nat :: NamedAt(images, o, j, name) then
      exists o: nat, j: nat ::
        FirstNamedAt(images, o, j, name) && entry == DefinitionAddress(images, placed, o, j)
    else entry == 0
  }

  lemma {:induction false} LeastNamed(merged: seq<Symbol>, name: CString) returns (k: nat)
    ensures k <= |merged|
    ensures forall i :: 0 <= i < k ==> !(Defined(merged[i]) && TextOf(merged[i].name) == name)
    ensures k < |merged| ==>
            Defined(merged[k]) && TextOf(merged[k].name) == name && EntryAddress(merged, name) == merged[k].value
    ensures k == |merged| ==> EntryAddress(merged, name) == 0
  {
    if merged == [] {
      k := 0;
    } else if Defined(merged[0]) && TextOf(merged[0].name) == name {
      k := 0;
    } else {
      var rest := LeastNamed(merged[1..], name);
      k := rest + 1;
      assert forall i :: 0 < i < |merged| ==> merged[i] == merged[1..][i - 1];
    }
  }

  lemma EntryOutcome(images: seq<Image>, placed: seq<LinkSection>, merged: seq<Symbol>, name: CString)
    requires Checked(images) && Follows(images, placed) && MergedWell(placed, Flatten(SymbolInputs(images)), merged)
    ensures Enters(images, placed, name, EntryAddress(merged, name))
  {
    hide Checked, Follows, MergedWell, SymbolInputs, EntryAddress, DefinitionAddress, SymbolIndex;
    var k := LeastNamed(merged, name);
    MergedCount(images, placed, merged);
    if k < |merged| {
      var o, j := FlattenLocate(SymbolInputs(images), k);
      LocatedSymbol(images, o, j, k);
      MergedAt(images, placed, merged, o, j);
      assert NamedAt(images, o, j, name);
      forall o': nat, j': nat | NamedAt(images, o', j', name) ensures o < o' || (o == o' && j <= j') {
        MergedAt(images, placed, merged, o', j');
        if o' < o || (o' == o && j' < j) { SymbolOrder(images, o', j', o, j); }
      }
      assert FirstNamedAt(images, o, j, name);
    } else {
      forall o: nat, j: nat | NamedAt(images, o, j, name) ensures false {
        MergedAt(images, placed, merged, o, j);
      }
    }
  }

  lemma MergedCount(images: seq<Image>, placed: seq<LinkSection>, merged: seq<Symbol>)
    requires MergedWell(placed, Flatten(SymbolInputs(images)), merged)
    ensures |merged| == |Flatten(SymbolInputs(images))|
  {
  }

  // ----- the executable -----

  /** What a section takes in the file: its record, its name and, outside bss, its bytes. */
  function FileBytes(s: Section): nat {
    28 + |TextOf(s.name)| + 1 + if s.kind == BSS then 0 else s.size
  }

  function FileSize(placed: seq<LinkSection>): nat {
    if placed == [] then 53 else FileSize(placed[..|placed| - 1]) + FileBytes(placed[|placed| - 1].image)
  }

  lemma {:induction false} FileSizeIs(placed: seq<LinkSection>, datas: seq<seq<Byte>>, entry: Word)
    requires SizedAs(datas, placed)
    ensures TotalSize(Executable(placed, datas, entry)) == FileSize(placed)
  {
    hide TextOf;
    var image := Executable(placed, datas, entry);
    if placed == [] {
      assert NameRows(Names(image)) == [] && PayloadRows(image) == [];
    } else {
      var n := |placed| - 1;
      var front := Executable(placed[..n], datas[..n], entry);
      FileSizeIs(placed[..n], datas[..n], entry);
      assert NameRows(Names(image))[..n] == NameRows(Names(front));
      assert PayloadRows(image)[..n] == PayloadRows(front);
    }
  }

  lemma ExecutableRecords(images: seq<Image>, placed: seq<LinkSection>, datas: seq<seq<Byte>>, entry: Word)
    requires Checked(images) && Follows(images, placed) && |datas| == |placed|
    requires forall d :: 0 <= d < |placed| ==> placed[d].image.address + placed[d].image.size <= ROM_SIZE
    ensures RecordsOk(Executable(placed, datas, entry))
  {
    hide ValidAlignment;
    forall d | 0 <= d < |placed| ensures SectionOk(placed[d].image.(data := Some(datas[d]))) {
      var o, i := FlattenLocate(InputRows(images), d);
      assert SectionOk(images[o].sections[i]);
    }
  }

  predicate InSomeText(placed: seq<LinkSection>, entry: Word) {
    exists d :: && 0 <= d < |placed| && placed[d].image.kind == TEXT
                && placed[d].image.address <= entry < placed[d].image.address + placed[d].image.size
  }

  lemma EntryIsText(placed: seq<LinkSection>, datas: seq<seq<Byte>>, entry: Word)
    requires |datas| == |placed|
    ensures EntryOk(Executable(placed, datas, entry)) <==> entry != 0 && InSomeText(placed, entry)
  {
    var image := Executable(placed, datas, entry);
    if entry != 0 && InSomeText(placed, entry) {
      var d :| && 0 <= d < |placed| && placed[d].image.kind == TEXT
               && placed[d].image.address <= entry < placed[d].image.address + placed[d].image.size;
      assert InText(image.sections[d], entry);
    }
    if EntryOk(image) {
      var d :| 0 <= d < |image.sections| && InText(image.sections[d], entry);
      assert placed[d].image.kind == TEXT;
    }
  }

  /** The last checks, in their order. */
  lemma FinishOutcome(images: seq<Image>, placed: seq<LinkSection>, datas: seq<seq<Byte>>, entry: Word)
    requires Checked(images) && Follows(images, placed) && SizedAs(datas, placed)
    requires forall d :: 0 <= d < |placed| ==> placed[d].image.address + placed[d].image.size <= ROM_SIZE
    ensures var result := Finish(placed, datas, entry);
            if entry == 0 then result == Err(NoEntry)
            else if FileSize(placed) > WORD_MAX then result == Err(LinkOverflow)
            else if !InSomeText(placed, entry) then result == Err(IncompatibleObject)
            else result.Ok?
  {
    hide Checked, RecordsOk, EntryOk, InSomeText, FileSize, TotalSize, PayloadOffset, Written;
    var image := Executable(placed, datas, entry);
    FileSizeIs(placed, datas, entry);
    ExecutableRecords(images, placed, datas, entry);
    EntryIsText(placed, datas, entry);
    RecordsCount(image);
    assert |image.sections| == |placed| && image.symbols == [] && image.relocations == [];
  }

  // ----- the whole link -----

  /** What the objects decode to. */
  predicate DecodedTo(objects: seq<seq<Byte>>, images: seq<Image>) {
    && |images| == |objects|
    && forall o :: 0 <= o < |objects| ==> Decode(objects[o]) == Ok(images[o]) && images[o].kind == OBJECT
  }

  lemma {:induction false} DecodingOutcome(objects: seq<seq<Byte>>)
    ensures DecodeAll(objects).Ok? ==> DecodedTo(objects, DecodeAll(objects).value)
    ensures DecodeAll(objects).Err? ==>
              && DecodeAll(objects).error == IncompatibleObject
              && exists o :: 0 <= o < |objects| && (Decode(objects[o]).Err? || Decode(objects[o]).value.kind != OBJECT)
  {
    hide Decode;
    if objects != [] {
      var front, last := objects[..|objects| - 1], objects[|objects| - 1];
      DecodingOutcome(front);
      assert DecodeAll(objects) == if DecodeAll(front).Err? then DecodeAll(front)
                                   else DecodeStep(DecodeAll(front).value, last);
      assert forall o :: 0 <= o < |front| ==> objects[o] == front[o];
    }
  }

  lemma DecodedOnce(objects: seq<seq<Byte>>, images: seq<Image>)
    requires DecodedTo(objects, images)
    ensures DecodeAll(objects) == Ok(images)
  {
    hide Decode;
    DecodingOutcome(objects);
    var found := DecodeAll(objects);
    if found.Ok? {
      forall o | 0 <= o < |objects| ensures found.value[o] == images[o] {
        assert Decode(objects[o]) == Ok(found.value[o]);
      }
      assert found.value == images;
    }
  }

  /** The addresses of all sections, and what follows from them. */
  ghost predicate PlacedAll(images: seq<Image>, addresses: seq<nat>, placed: seq<LinkSection>) {
    && |addresses| == |Inputs(images)| && Placement(Inputs(images), addresses)
    && Holds(Inputs(images), placed, addresses) && Checked(images) && Follows(images, placed)
  }

  /** The outcome behind placement: each refusal by its condition on the decoded objects, in the order of the checks. */
  ghost predicate Outcome(images: seq<Image>, placed: seq<LinkSection>, name: CString, k: nat, entry: Word,
                          result: Result<seq<Byte>, LinkError>)
    requires Checked(images) && Follows(images, placed)
  {
    if Clash(images) then result == Err(DuplicateSymbol)
    else if exists i :: 0 <= i < |Flatten(RelocationInputs(images))| && FailsAt(images, placed, i) then
      && FirstFailure(images, placed, k) && FromObjects(images, Flatten(RelocationInputs(images))[k])
      && result == Err(if Dangling(images, Flatten(RelocationInputs(images))[k]) then UnresolvedSymbol
                       else LinkOverflow)
    else
      && Enters(images, placed, name, entry)
      && if entry == 0 then result == Err(NoEntry)
         else if FileSize(placed) > WORD_MAX then result == Err(LinkOverflow)
         else if !InSomeText(placed, entry) then result == Err(IncompatibleObject)
         else result.Ok?
  }

  lemma ObjectsAreChecked(objects: seq<seq<Byte>>, images: seq<Image>)
    requires DecodedTo(objects, images)
    ensures Checked(images) && DecodeAll(objects) == Ok(images)
  {
    hide Checked, DecodeAll, DecodedTo;
    DecodedOnce(objects, images);
    ObjectsChecked(objects);
  }

  lemma PlacedFollows(images: seq<Image>, placed: seq<LinkSection>)
    requires Place(images) == Ok(placed) && |Inputs(images)| <= WORD_MAX
    ensures Follows(images, placed)
    ensures forall d :: 0 <= d < |placed| ==> placed[d].image.address + placed[d].image.size <= ROM_SIZE
  {
    hide Inputs, Apart, Place;
    PlaceHolds(images);
    PlacedFollow(images, placed);
    forall d | 0 <= d < |placed| ensures placed[d].image.address + placed[d].image.size <= ROM_SIZE {
      assert PlacedWell(placed, Inputs(images)[d], d);
    }
  }

  lemma BehindPlacement(images: seq<Image>, placed: seq<LinkSection>, name: CString) returns (k: nat, entry: Word)
    requires Checked(images) && Place(images) == Ok(placed) && |Inputs(images)| <= WORD_MAX
    ensures Follows(images, placed) && Outcome(images, placed, name, k, entry, LinkImages(images, name))
  {
    hide Checked, Place, Merge, Relocate, Finish, EntryAddress, Clash, FailsAt, FirstFailure, Enters, InSomeText,
         FileSize, Inputs, RelocationInputs, FromObjects, Dangling, MergedWell, Follows, SymbolInputs;
    k, entry := 0, 0;
    PlacedFollows(images, placed);
    MergeOutcome(images, placed);
    if Merge(images, placed).Ok? {
      var merged := Merge(images, placed).value;
      AllMerged(images, placed);
      RelocationsFromObjects(images);
      k := RelocateOutcome(images, placed, merged);
      if Relocate(images, placed, merged).Ok? {
        var datas := Relocate(images, placed, merged).value;
        entry := EntryAddress(merged, name);
        EntryOutcome(images, placed, merged, name);
        RelocatedSizes(images, placed, merged);
        FinishOutcome(images, placed, datas, entry);
      }
    }
  }

  lemma RelocatedSizes(images: seq<Image>, placed: seq<LinkSection>, merged: seq<Symbol>)
    requires Relocating(images, placed, merged, Flatten(RelocationInputs(images)))
    requires Relocate(images, placed, merged).Ok?
    ensures SizedAs(Relocate(images, placed, merged).value, placed)
  {
    hide Relocating, RelocationInputs, Relocator, SizedAs;
    var inputs := Flatten(RelocationInputs(images));
    assert inputs[..|inputs|] == inputs;
    SizesSoFar(images, placed, merged, |inputs|);
  }

  /**
    The outcome of a link, decided by its inputs. Without objects, and with one that is no
    object file, it is refused at once. Otherwise it fails for placement exactly when the
    rules cannot be satisfied, and behind that each refusal has its own condition.
   */
  lemma LinkOutcome(objects: seq<seq<Byte>>, requested: Option<CString>, images: seq<Image>, name: CString)
    returns (addresses: seq<nat>, placed: seq<LinkSection>, a: nat, k: nat, entry: Word)
    requires DecodedTo(objects, images) && Chosen(images, requested, name) && |Inputs(images)| <= WORD_MAX
    ensures objects == [] ==> Link(objects, requested) == Err(InvalidArgument)
    ensures objects != [] ==>
              if exists all :: |all| == |Inputs(images)| && Placement(Inputs(images), all) then
                && PlacedAll(images, addresses, placed)
                && Outcome(images, placed, name, k, entry, Link(objects, requested))
              else
                var inputs, i := Inputs(images), |addresses|;
                && i < |inputs| && Placement(inputs, addresses) && Due(inputs, addresses, i, a)
                && Link(objects, requested) == Err(if !Clear(inputs, addresses, i, a) then Overlap else LinkOverflow)
  {
    hide DecodedTo, Chosen, Checked, Place, LinkImages, Outcome, SelectedEntry, Inputs, DecodeAll, Placement,
         Follows, Due, Clear;
    ObjectsAreChecked(objects, images);
    EntryChosen(images, requested, name);
    addresses, a := PlacementOutcome(images);
    k, entry, placed := 0, 0, [];
    if Place(images).Ok? {
      placed := Place(images).value;
      k, entry := BehindPlacement(images, placed, name);
    } else {
      PlacementStops(images, name);
    }
  }

  lemma PlacementStops(images: seq<Image>, name: CString)
    requires Place(images).Err?
    ensures LinkImages(images, name) == Err(Place(images).error)
  {
  }

  /** Something that is no object file is refused whatever the other objects are. */
  lemma NotAnObject(objects: seq<seq<Byte>>, requested: Option<CString>, o: nat)
    requires o < |objects| && (Decode(objects[o]).Err? || Decode(objects[o]).value.kind != OBJECT)
    ensures Link(objects, requested) == Err(IncompatibleObject)
  {
    hide Decode, DecodeAll, LinkImages;
    DecodingOutcome(objects);
  }

  /** More sections than 32 bits can count never link, whatever else holds. */
  lemma TooManySections(objects: seq<seq<Byte>>, requested: Option<CString>, images: seq<Image>)
    requires DecodedTo(objects, images) && |Inputs(images)| > WORD_MAX
    ensures Link(objects, requested).Err?
  {
    hide DecodedTo, Decode, DecodeAll, Place, Merge, Relocate, EntryAddress, SelectedEntry, Encode, Executable, Link,
         Inputs;
    if Link(objects, requested).Ok? {
      var run := LinkRuns(objects, requested);
      ObjectsAreChecked(objects, images);
      PlaceHolds(images);
      PlacedCount(run.placed, Inputs(images));
      FewSections(run, Link(objects, requested).value);
    }
  }
}
