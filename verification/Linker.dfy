/** zl_link_objects: nested loops over objects and records, with section bytes patched in place. */
module Linker {
  import opened Wrappers
  import opened Bits
  import opened Bytes
  import opened ImageFormat
  import opened ImageRoundTrip
  import opened ImageDecoder
  import opened ImageEncoder
  import opened Linking
  import opened LinkProofs

  /** Record s of row o is element k of the flattened list. */
  lemma RowPosition<T>(rows: seq<seq<T>>, o: nat, s: nat, k: nat)
    requires o < |rows| && s < |rows[o]| && k == |Flatten(rows[..o])| + s
    ensures k < |Flatten(rows)| && Flatten(rows)[k] == rows[o][s]
  {
    FlattenSlice(rows, o);
    assert Flatten(rows)[|Flatten(rows[..o])|..|Flatten(rows[..o])| + |rows[o]|][s] == rows[o][s];
  }

  lemma RowEnd<T>(rows: seq<seq<T>>, o: nat)
    requires o < |rows|
    ensures |Flatten(rows[..o + 1])| == |Flatten(rows[..o])| + |rows[o]|
  {
    FlattenStep(rows, o);
  }

  method DecodeObjects(objects: seq<seq<Byte>>) returns (r: Result<seq<Image>, LinkError>)
    ensures r == DecodeAll(objects)
  {
    hide Decode;
    ghost var step := (images: seq<Image>, input: seq<Byte>) => DecodeStep(images, input);
    var images: seq<Image> := [];
    assert objects[..0] == [];
    for index := 0 to |objects|
      invariant DecodeAll(objects[..index]) == Ok(images)
    {
      var decoded := DecodeImage(objects[index]);
      DecodeAllStep(objects, index);
      if decoded.Err? || decoded.value.kind != OBJECT {
        DecodeAllFails(objects, index + 1);
        return Err(IncompatibleObject);
      }
      images := images + [decoded.value];
    }
    assert objects[..|objects|] == objects;
    r := Ok(images);
  }

  lemma DecodeAllStep(objects: seq<seq<Byte>>, k: nat)
    requires k < |objects| && DecodeAll(objects[..k]).Ok?
    ensures DecodeAll(objects[..k + 1]) == DecodeStep(DecodeAll(objects[..k]).value, objects[k])
  {
    hide Decode, DecodeStep;
    assert objects[..k + 1][..k] == objects[..k];
  }

  lemma {:induction false} DecodeAllFails(objects: seq<seq<Byte>>, k: nat)
    requires k <= |objects| && DecodeAll(objects[..k]).Err?
    ensures DecodeAll(objects) == DecodeAll(objects[..k])
    decreases |objects| - k
  {
    hide Decode, DecodeStep;
    if k < |objects| {
      assert objects[..k + 1][..k] == objects[..k];
      assert DecodeAll(objects[..k + 1]) == DecodeAll(objects[..k]);
      DecodeAllFails(objects, k + 1);
    } else {
      assert objects[..k] == objects;
    }
  }

  method SelectEntry(images: seq<Image>, requested: Option<CString>) returns (name: CString)
    ensures name == SelectedEntry(images, requested)
  {
    if requested.Some? {
      return requested.value;
    }
    for index := 0 to |images|
      invariant FirstEntry(images) == FirstEntry(images[index..])
    {
      if images[index].entrySymbol.Some? {
        return images[index].entrySymbol.value;
      }
      assert images[index..][1..] == images[index + 1..];
    }
    name := START;
  }

  // ----- placement -----

  method OverlapsAny(sections: array<LinkSection>, count: nat, address: nat, size: nat) returns (b: bool)
    requires count <= sections.Length
    ensures b == Overlaps(sections[..count], address, size)
  {
    for index := 0 to count
      invariant forall i :: 0 <= i < index ==> !Meets(sections[i].image, address, size)
    {
      if Meets(sections[index].image, address, size) {
        assert Meets(sections[..count][index].image, address, size);
        return true;
      }
    }
    b := false;
  }

  method Locate(sections: array<LinkSection>, count: nat, owner: nat, source: nat) returns (r: Option<nat>)
    requires count <= sections.Length
    ensures r == FindSection(sections[..count], owner, source)
  {
    for index := 0 to count
      invariant FindSection(sections[..index], owner, source).None?
    {
      assert sections[..index + 1][..index] == sections[..index];
      if sections[index].owner == owner && sections[index].source == source {
        FoundStays(sections[..count], index + 1, owner, source);
        assert sections[..count][..index + 1] == sections[..index + 1];
        return Some(index);
      }
    }
    r := None;
  }

  lemma {:induction false} FoundStays(placed: seq<LinkSection>, k: nat, owner: nat, source: nat)
    requires k <= |placed| && FindSection(placed[..k], owner, source).Some?
    ensures FindSection(placed, owner, source) == FindSection(placed[..k], owner, source)
    decreases |placed| - k
  {
    if k < |placed| {
      assert placed[..k + 1][..k] == placed[..k];
      FoundStays(placed, k + 1, owner, source);
    } else {
      assert placed[..k] == placed;
    }
  }

  const BLANK := LinkSection(Section(None, TEXT, 0, 1, 0, None, 0), 0, 0)

  /** The address of one more section, or the error of the placement check. */
  method ChooseAddress(sections: array<LinkSection>, count: nat, cursor: nat, input: LinkSection)
    returns (r: Result<Word, LinkError>)
    requires count <= sections.Length && cursor == Cursor(sections[..count]) && input.image.alignment != 0
    ensures var step := PlaceStep(sections[..count], input);
            if r.Ok? then step == Ok(sections[..count] + [input.(image := input.image.(address := r.value))])
                          && r.value + input.image.size <= ROM_SIZE
            else step == Err(r.error)
  {
    hide Overlaps, AlignAddress, Cursor;
    var address := input.image.address;
    if address == 0 && And(input.image.flags, 1) == 0 {
      var aligned := AlignAddress(cursor, input.image.alignment);
      if aligned.None? {
        return Err(LinkOverflow);
      }
      address := aligned.value;
    }
    var overlap := OverlapsAny(sections, count, address, input.image.size);
    if address + input.image.size > ROM_SIZE || overlap {
      return Err(if overlap then Overlap else LinkOverflow);
    }
    r := Ok(address);
  }

  /** Appends one placed section and gives the cursor behind it. */
  method PlaceOne(sections: array<LinkSection>, count: nat, cursor: nat, input: LinkSection)
    returns (r: Result<nat, LinkError>)
    requires count < sections.Length && cursor == Cursor(sections[..count]) && input.image.alignment != 0
    modifies sections
    ensures var step := PlaceStep(old(sections[..count]), input);
            if r.Ok? then step == Ok(sections[..count + 1]) && r.value == Cursor(sections[..count + 1])
            else step == Err(r.error)
  {
    hide PlaceStep, Cursor;
    var address := ChooseAddress(sections, count, cursor, input);
    if address.Err? {
      return Err(address.error);
    }
    var placed := input.(image := input.image.(address := address.value));
    ghost var before := sections[..count];
    sections[count] := placed;
    assert sections[..count + 1] == before + [placed];
    LastCursor(before, placed);
    r := Ok(address.value + input.image.size);
  }

  /** One more input of a fold: its step is next, and an error in it is final. */
  lemma FoldNext<S, X, E>(step: (S, X) -> Result<S, E>, start: S, inputs: seq<X>, k: nat, state: S, x: X)
    requires k < |inputs| && inputs[k] == x && Fold(step, start, inputs[..k]) == Ok(state)
    ensures Fold(step, start, inputs[..k + 1]) == step(state, x)
    ensures step(state, x).Err? ==> Fold(step, start, inputs) == step(state, x)
  {
    FoldStep(step, start, inputs, k);
    FoldPrefix(step, start, inputs, k + 1);
  }

  method PlaceSections(images: seq<Image>) returns (r: Result<array<LinkSection>, LinkError>)
    requires Checked(images)
    ensures r.Err? ==> Place(images) == Err(r.error)
    ensures r.Ok? ==> fresh(r.value) && Place(images) == Ok(r.value[..])
  {
    hide PlaceStep, ObjectInputs, Cursor, Flatten, Fold, Checked;
    ghost var rows, inputs := InputRows(images), Inputs(images);
    var total := SectionTotal(images);
    var sections := new LinkSection[total](_ => BLANK);
    var sectionCursor := 0;
    var cursor := FIRST_ADDRESS;
    PlaceStart(images);
    for owner := 0 to |images|
      invariant sectionCursor == |Flatten(rows[..owner])| <= sections.Length
      invariant Fold(Placer(), [], inputs[..sectionCursor]) == Ok(sections[..sectionCursor])
      invariant cursor == Cursor(sections[..sectionCursor])
    {
      RowEnd(rows, owner);
      RowFits(rows, owner);
      for source := 0 to |images[owner].sections|
        invariant sectionCursor == |Flatten(rows[..owner])| + source <= sections.Length
        invariant Fold(Placer(), [], inputs[..sectionCursor]) == Ok(sections[..sectionCursor])
        invariant cursor == Cursor(sections[..sectionCursor])
      {
        var input := LinkSection(images[owner].sections[source], owner, source);
        RowPosition(rows, owner, source, sectionCursor);
        FoldNext(Placer(), [], inputs, sectionCursor, sections[..sectionCursor], input);
        SectionAlignment(images, owner, source);
        var end := PlaceOne(sections, sectionCursor, cursor, input);
        if end.Err? {
          return Err(end.error);
        }
        sectionCursor, cursor := sectionCursor + 1, end.value;
      }
    }
    assert rows[..|images|] == rows && inputs[..|inputs|] == inputs && sections[..sections.Length] == sections[..];
    r := Ok(sections);
  }

  lemma PlaceStart(images: seq<Image>)
    ensures Fold(Placer(), [], Inputs(images)[..0]) == Ok([]) && Cursor([]) == FIRST_ADDRESS
            && |Flatten(InputRows(images)[..0])| == 0
  {
  }

  lemma RowFits<T>(rows: seq<seq<T>>, o: nat)
    requires o < |rows|
    ensures |Flatten(rows[..o])| + |rows[o]| <= |Flatten(rows)|
  {
    FlattenSlice(rows, o);
  }

  lemma LastCursor(before: seq<LinkSection>, last: LinkSection)
    ensures Cursor(before + [last]) == last.image.address + last.image.size
  {
  }

  lemma SectionAlignment(images: seq<Image>, o: nat, s: nat)
    requires Checked(images) && o < |images| && s < |images[o].sections|
    ensures images[o].sections[s].alignment != 0
  {
    assert SectionOk(images[o].sections[s]);
  }

  method SectionTotal(images: seq<Image>) returns (total: nat)
    ensures total == |Inputs(images)|
  {
    hide ObjectInputs;
    ghost var rows := InputRows(images);
    total := 0;
    for index := 0 to |images|
      invariant total == |Flatten(rows[..index])|
    {
      RowEnd(rows, index);
      total := total + |images[index].sections|;
    }
    assert rows[..|images|] == rows;
  }

  // ----- symbols -----

  method MoveSymbol(sections: array<LinkSection>, owner: nat, s: Symbol) returns (r: Option<Symbol>)
    ensures r == Moved(sections[..], Tagged(owner, s))
  {
    hide FindSection;
    if s.section == UNDEFINED_SECTION {
      return Some(s);
    }
    var index := Locate(sections, sections.Length, owner, s.section);
    assert sections[..sections.Length] == sections[..];
    if index.None? {
      return None;
    }
    r := Some(s.(value := (s.value + sections[index.value].image.address) % WORD_RANGE,
                 section := index.value % WORD_RANGE));
  }

  method IsDuplicate(symbols: array<Symbol>, count: nat, s: Symbol) returns (b: bool)
    requires count <= symbols.Length
    ensures b == Duplicates(symbols[..count], s)
  {
    if s.binding != GLOBAL {
      return false;
    }
    for existing := 0 to count
      invariant forall i :: 0 <= i < existing ==> !(Exports(symbols[i], TextOf(s.name)) && Defined(s))
    {
      if && symbols[existing].binding == GLOBAL && TextOf(symbols[existing].name) == TextOf(s.name)
         && Defined(symbols[existing]) && Defined(s) {
        assert Exports(symbols[..count][existing], TextOf(s.name));
        return true;
      }
    }
    b := false;
  }

  const NO_SYMBOL := Symbol(None, UNDEFINED_SECTION, 0, 0, LOCAL, 0)

  /** The symbol to append, or the error of the merge. */
  method MergeOne(sections: array<LinkSection>, symbols: array<Symbol>, count: nat, owner: nat, s: Symbol)
    returns (r: Result<Symbol, LinkError>)
    requires count <= symbols.Length
    ensures var step := MergeStep(sections[..], symbols[..count], Tagged(owner, s));
            if r.Ok? then step == Ok(symbols[..count] + [r.value]) else step == Err(r.error)
  {
    hide Moved, Duplicates;
    var moved := MoveSymbol(sections, owner, s);
    if moved.None? {
      return Err(IncompatibleObject);
    }
    var duplicate := IsDuplicate(symbols, count, moved.value);
    if duplicate {
      return Err(DuplicateSymbol);
    }
    r := Ok(moved.value);
  }

  /** Appends one moved symbol. */
  method AppendSymbol(sections: array<LinkSection>, symbols: array<Symbol>, count: nat, owner: nat, s: Symbol)
    returns (error: Option<LinkError>)
    requires count < symbols.Length
    modifies symbols
    ensures var step := MergeStep(sections[..], old(symbols[..count]), Tagged(owner, s));
            if error.None? then step == Ok(symbols[..count + 1]) else step == Err(error.value)
  {
    hide MergeStep;
    var merged := MergeOne(sections, symbols, count, owner, s);
    if merged.Err? {
      return Some(merged.error);
    }
    ghost var before := symbols[..count];
    symbols[count] := merged.value;
    assert symbols[..count + 1] == before + [merged.value];
    error := None;
  }

  method MergeSymbols(images: seq<Image>, sections: array<LinkSection>) returns (r: Result<array<Symbol>, LinkError>)
    ensures r.Err? ==> Merge(images, sections[..]) == Err(r.error)
    ensures r.Ok? ==> fresh(r.value) && Merge(images, sections[..]) == Ok(r.value[..])
  {
    hide MergeStep, SymbolRow, Flatten, Fold;
    ghost var placed := sections[..];
    ghost var rows, inputs := SymbolInputs(images), Flatten(SymbolInputs(images));
    var total := SymbolTotal(images);
    var symbols := new Symbol[total](_ => NO_SYMBOL);
    var count := 0;
    MergeStart(images, placed);
    for owner := 0 to |images|
      invariant count == |Flatten(rows[..owner])| <= symbols.Length
      invariant Fold(Merger(placed), [], inputs[..count]) == Ok(symbols[..count])
    {
      RowEnd(rows, owner);
      RowFits(rows, owner);
      for source := 0 to |images[owner].symbols|
        invariant count == |Flatten(rows[..owner])| + source <= symbols.Length
        invariant Fold(Merger(placed), [], inputs[..count]) == Ok(symbols[..count])
      {
        RowPosition(rows, owner, source, count);
        FoldNext(Merger(placed), [], inputs, count, symbols[..count], Tagged(owner, images[owner].symbols[source]));
        var error := AppendSymbol(sections, symbols, count, owner, images[owner].symbols[source]);
        if error.Some? {
          return Err(error.value);
        }
        count := count + 1;
      }
    }
    assert rows[..|images|] == rows && inputs[..|inputs|] == inputs && symbols[..symbols.Length] == symbols[..];
    r := Ok(symbols);
  }

  lemma MergeStart(images: seq<Image>, placed: seq<LinkSection>)
    ensures Fold(Merger(placed), [], Flatten(SymbolInputs(images))[..0]) == Ok([])
            && |Flatten(SymbolInputs(images)[..0])| == 0
  {
  }

  method SymbolTotal(images: seq<Image>) returns (total: nat)
    ensures total == |Flatten(SymbolInputs(images))|
  {
    hide SymbolRow;
    ghost var rows := SymbolInputs(images);
    total := 0;
    for index := 0 to |images|
      invariant total == |Flatten(rows[..index])|
    {
      RowEnd(rows, index);
      total := total + |images[index].symbols|;
    }
    assert rows[..|images|] == rows;
  }

  // ----- relocations -----

  /** The buffers of different sections are different arrays. */
  ghost predicate Distinct(buffers: seq<array<Byte>>) {
    forall i, j :: 0 <= i < j < |buffers| ==> buffers[i] != buffers[j]
  }

  ghost function Views(buffers: seq<array<Byte>>): (views: seq<seq<Byte>>)
    reads set i | 0 <= i < |buffers| :: buffers[i]
    ensures |views| == |buffers| && forall i :: 0 <= i < |buffers| ==> views[i] == buffers[i][..]
  {
    seq(|buffers|, i requires 0 <= i < |buffers| reads set j | 0 <= j < |buffers| :: buffers[j] => buffers[i][..])
  }

  method CopyContents(sections: array<LinkSection>) returns (buffers: seq<array<Byte>>)
    ensures |buffers| == sections.Length && Distinct(buffers) && forall i :: 0 <= i < |buffers| ==> fresh(buffers[i])
    ensures Views(buffers) == Contents(sections[..])
  {
    buffers := [];
    for index := 0 to sections.Length
      invariant |buffers| == index && Distinct(buffers) && forall i :: 0 <= i < index ==> fresh(buffers[i])
      invariant forall i :: 0 <= i < index ==> buffers[i][..] == Contents(sections[..])[i]
    {
      var data: seq<Byte> := if sections[index].image.data.Some? then sections[index].image.data.value else [];
      var buffer := new Byte[|data|](i requires 0 <= i < |data| => data[i]);
      assert buffer[..] == data;
      buffers := buffers + [buffer];
    }
  }

  /** Writing one buffer changes one view. */
  method Patch(buffers: seq<array<Byte>>, d: nat, offset: nat, value: nat)
    requires d < |buffers| && Distinct(buffers) && offset + 4 <= buffers[d].Length
    modifies buffers[d]
    ensures Views(buffers) == old(Views(buffers))[d := Splice(old(buffers[d][..]), offset, LE(value, 4))]
  {
    hide Splice, LE;
    Put(buffers[d], offset, value, 4);
    assert forall i :: 0 <= i < |buffers| && i != d ==> buffers[i] != buffers[d];
  }

  method FindGlobal(symbols: array<Symbol>, name: CString) returns (r: Option<nat>)
    ensures r == FindExport(symbols[..], name)
  {
    for index := 0 to symbols.Length
      invariant FindExport(symbols[..index], name).None?
    {
      assert symbols[..index + 1][..index] == symbols[..index];
      if Exports(symbols[index], name) {
        ExportStays(symbols[..], index + 1, name);
        assert symbols[..][..index + 1] == symbols[..index + 1];
        return Some(index);
      }
    }
    assert symbols[..symbols.Length] == symbols[..];
    r := None;
  }

  lemma {:induction false} ExportStays(merged: seq<Symbol>, k: nat, name: CString)
    requires k <= |merged| && FindExport(merged[..k], name).Some?
    ensures FindExport(merged, name) == FindExport(merged[..k], name)
    decreases |merged| - k
  {
    if k < |merged| {
      assert merged[..k + 1][..k] == merged[..k];
      ExportStays(merged, k + 1, name);
    } else {
      assert merged[..k] == merged;
    }
  }

  method ResolveTarget(sections: array<LinkSection>, symbols: array<Symbol>, owner: nat, reference: Symbol)
    returns (r: Result<nat, LinkError>)
    ensures r == Target(sections[..], symbols[..], owner, reference)
  {
    hide FindSection, FindExport;
    assert sections[..sections.Length] == sections[..];
    if reference.section != UNDEFINED_SECTION {
      var index := Locate(sections, sections.Length, owner, reference.section);
      if index.None? {
        return Err(IncompatibleObject);
      }
      r := Ok(sections[index.value].image.address + reference.value);
    } else {
      var index := FindGlobal(symbols, TextOf(reference.name));
      if index.None? {
        return Err(UnresolvedSymbol);
      }
      r := Ok(symbols[index.value].value);
    }
  }

  method RelocateOne(images: seq<Image>, sections: array<LinkSection>, symbols: array<Symbol>,
                     buffers: seq<array<Byte>>, owner: nat, r: Relocation) returns (error: Option<LinkError>)
    requires |buffers| == sections.Length && Distinct(buffers) && owner < |images| && r.symbol < |images[owner].symbols|
    requires forall d :: 0 <= d < |buffers| ==> buffers[d].Length == sections[d].image.size
    modifies set d | 0 <= d < |buffers| :: buffers[d]
    ensures var step :=
            RelocateStep(images, old(sections[..]), old(symbols[..]), old(Views(buffers)), Tagged(owner, r));
            if error.None? then step == Ok(Views(buffers)) else step == Err(error.value)
    ensures sections[..] == old(sections[..]) && symbols[..] == old(symbols[..])
  {
    hide FindSection, Target, Splice, LE;
    assert sections[..sections.Length] == sections[..];
    var destination := Locate(sections, sections.Length, owner, r.section);
    if destination.None? {
      return Some(IncompatibleObject);
    }
    var d := destination.value;
    var target := ResolveTarget(sections, symbols, owner, images[owner].symbols[r.symbol]);
    if target.Err? {
      return Some(target.error);
    }
    var site := sections[d].image.address + r.offset;
    var value: int := target.value + r.addend;
    if r.kind == PC_RELATIVE32 {
      value := value - site;
      if value < -0x8000_0000 || value > 0x7FFF_FFFF {
        return Some(LinkOverflow);
      }
    } else if value < 0 || value > WORD_MAX {
      return Some(LinkOverflow);
    }
    if r.offset > sections[d].image.size || sections[d].image.size - r.offset < 4 {
      return Some(LinkOverflow);
    }
    Patch(buffers, d, r.offset, value % WORD_RANGE);
    error := None;
  }

  method ApplyRelocations(images: seq<Image>, sections: array<LinkSection>, symbols: array<Symbol>,
                          buffers: seq<array<Byte>>)
    returns (error: Option<LinkError>)
    requires Checked(images) && |buffers| == sections.Length && Distinct(buffers)
    requires Views(buffers) == Contents(sections[..])
    requires forall d :: 0 <= d < |buffers| ==> buffers[d].Length == sections[d].image.size
    modifies set d | 0 <= d < |buffers| :: buffers[d]
    ensures sections[..] == old(sections[..]) && symbols[..] == old(symbols[..])
    ensures error.None? ==> Relocate(images, sections[..], symbols[..]) == Ok(Views(buffers))
    ensures error.Some? ==> Relocate(images, sections[..], symbols[..]) == Err(error.value)
  {
    hide RelocateStep, RelocationRow, Flatten, Checked, Fold, Distinct;
    ghost var placed, merged := sections[..], symbols[..];
    ghost var step, start := Relocator(images, placed, merged), Contents(placed);
    ghost var rows, inputs := RelocationInputs(images), Flatten(RelocationInputs(images));
    ghost var count := 0;
    RelocateStart(images, step, start);
    for owner := 0 to |images|
      invariant count == |Flatten(rows[..owner])| <= |inputs|
      invariant Fold(step, start, inputs[..count]) == Ok(Views(buffers))
      invariant sections[..] == placed && symbols[..] == merged
    {
      RowEnd(rows, owner);
      RowFits(rows, owner);
      for index := 0 to |images[owner].relocations|
        invariant count == |Flatten(rows[..owner])| + index <= |inputs|
        invariant Fold(step, start, inputs[..count]) == Ok(Views(buffers))
        invariant sections[..] == placed && symbols[..] == merged
      {
        RowPosition(rows, owner, index, count);
        FoldNext(step, start, inputs, count, Views(buffers), Tagged(owner, images[owner].relocations[index]));
        RelocationSymbol(images, owner, index);
        var failed := RelocateOne(images, sections, symbols, buffers, owner, images[owner].relocations[index]);
        if failed.Some? {
          return failed;
        }
        count := count + 1;
      }
    }
    assert rows[..|images|] == rows && inputs[..|inputs|] == inputs;
    error := None;
  }

  lemma RelocateStart<S, E>(images: seq<Image>, step: (S, Tagged<Relocation>) -> Result<S, E>, start: S)
    ensures Fold(step, start, Flatten(RelocationInputs(images))[..0]) == Ok(start)
            && |Flatten(RelocationInputs(images)[..0])| == 0
  {
  }

  lemma RelocationSymbol(images: seq<Image>, o: nat, j: nat)
    requires Checked(images) && o < |images| && j < |images[o].relocations|
    ensures images[o].relocations[j].symbol < |images[o].symbols|
  {
    assert RelocationOk(images[o].relocations[j], images[o].sections, |images[o].symbols|);
  }

  // ----- the executable -----

  method FindEntry(symbols: array<Symbol>, name: CString) returns (entry: Word)
    ensures entry == EntryAddress(symbols[..], name)
  {
    entry := 0;
    for index := 0 to symbols.Length
      invariant EntryAddress(symbols[..], name) == EntryAddress(symbols[index..], name)
    {
      assert symbols[index..][1..] == symbols[index + 1..];
      if symbols[index].section != UNDEFINED_SECTION && TextOf(symbols[index].name) == name {
        return symbols[index].value;
      }
    }
  }

  method OutputSections(sections: array<LinkSection>, buffers: seq<array<Byte>>) returns (output: seq<Section>)
    requires |buffers| == sections.Length
    ensures |output| == sections.Length
    ensures forall i :: 0 <= i < |output| ==> output[i] == sections[i].image.(data := Some(buffers[i][..]))
  {
    output := [];
    for index := 0 to sections.Length
      invariant |output| == index
      invariant forall i :: 0 <= i < index ==> output[i] == sections[i].image.(data := Some(buffers[i][..]))
    {
      output := output + [sections[index].image.(data := Some(buffers[index][..]))];
    }
  }

  lemma OutputIs(placed: seq<LinkSection>, datas: seq<seq<Byte>>, entry: Word, output: seq<Section>)
    requires |placed| == |datas| == |output|
    requires forall i :: 0 <= i < |output| ==> output[i] == placed[i].image.(data := Some(datas[i]))
    ensures Image(EXECUTABLE, entry, None, output, [], []) == Executable(placed, datas, entry)
  {
  }

  /** What makes the finished image acceptable to EncodeImage: every buffer is in memory and has its section's size. */
  lemma ExecutableInMemory(images: seq<Image>, placed: seq<LinkSection>, datas: seq<seq<Byte>>, entry: Word)
    requires Checked(images) && AllPlaced(placed, Inputs(images)) && |datas| == |placed|
    requires forall d :: 0 <= d < |placed| ==> |datas[d]| == placed[d].image.size
    requires forall o :: 0 <= o < |images| ==> NamesInMemory(images[o])
    ensures Readable(Executable(placed, datas, entry)) && InMemory(Executable(placed, datas, entry))
  {
    hide Apart;
    var image := Executable(placed, datas, entry);
    forall k | 0 <= k < |Names(image)| ensures |Names(image)[k]| + 1 < SIZE_RANGE {
      PlacedTags(placed, Inputs(images));
      var o, i := FlattenLocate(InputRows(images), k);
      assert TextOf(images[o].sections[i].name) == Names(image)[k];
    }
    forall i | 0 <= i < |image.sections| ensures image.sections[i].size < SIZE_RANGE {
      assert PlacedWell(placed, Inputs(images)[i], i);
    }
  }

  predicate NamesInMemory(image: Image) {
    forall i :: 0 <= i < |image.sections| ==> |TextOf(image.sections[i].name)| + 1 < SIZE_RANGE
  }

  lemma BuffersHaveSizes(images: seq<Image>, placed: seq<LinkSection>)
    requires Checked(images) && AllPlaced(placed, Inputs(images))
    ensures forall d :: 0 <= d < |placed| ==> |Contents(placed)[d]| == placed[d].image.size
  {
    hide Apart;
    PlacedTags(placed, Inputs(images));
    forall d | 0 <= d < |placed| ensures |Contents(placed)[d]| == placed[d].image.size {
      var o, i := FlattenLocate(InputRows(images), d);
      assert NormalForm(images[o].sections[i]);
    }
  }

  /** Relocation, entry choice and encoding. */
  method FinishLink(images: seq<Image>, sections: array<LinkSection>, symbols: array<Symbol>, name: CString)
    returns (r: Result<array<Byte>, LinkError>)
    requires Checked(images) && AllPlaced(sections[..], Inputs(images))
    requires forall o :: 0 <= o < |images| ==> NamesInMemory(images[o])
    ensures r.Err? ==> LinkMerged(images, sections[..], symbols[..], name) == Err(r.error)
    ensures r.Ok? ==> fresh(r.value) && LinkMerged(images, sections[..], symbols[..], name) == Ok(r.value[..])
  {
    hide Relocate, EntryAddress, Encode, Checked, AllPlaced, Inputs, InMemory, Readable, NamesInMemory, Contents,
         Executable;
    ghost var placed := sections[..];
    var buffers := CopyContents(sections);
    BuffersHaveSizes(images, placed);
    var failed := ApplyRelocations(images, sections, symbols, buffers);
    if failed.Some? {
      return Err(failed.value);
    }
    var entry := FindEntry(symbols, name);
    if entry == 0 {
      return Err(NoEntry);
    }
    var output := OutputSections(sections, buffers);
    OutputIs(placed, Views(buffers), entry, output);
    ExecutableInMemory(images, placed, Views(buffers), entry);
    var encoded := EncodeImage(Image(EXECUTABLE, entry, None, output, [], []));
    if encoded.Err? {
      return Err(if encoded.error == Overflow then LinkOverflow else IncompatibleObject);
    }
    r := Ok(encoded.value);
  }

  /** zl_link_objects. */
  method LinkObjects(objects: seq<seq<Byte>>, requested: Option<CString>) returns (r: Result<array<Byte>, LinkError>)
    requires forall i :: 0 <= i < |objects| ==> |objects[i]| < SIZE_RANGE
    ensures r.Err? ==> Link(objects, requested) == Err(r.error)
    ensures r.Ok? ==> fresh(r.value) && Link(objects, requested) == Ok(r.value[..])
  {
    hide DecodeAll, Place, Merge, LinkMerged, SelectedEntry, Checked, AllPlaced, Inputs, NamesInMemory;
    if |objects| == 0 {
      return Err(InvalidArgument);
    }
    var images := DecodeObjects(objects);
    if images.Err? {
      return Err(images.error);
    }
    ObjectsChecked(objects);
    ObjectNamesInMemory(objects);
    var selected := SelectEntry(images.value, requested);
    var sections := PlaceSections(images.value);
    if sections.Err? {
      return Err(sections.error);
    }
    PlaceHolds(images.value);
    var symbols := MergeSymbols(images.value, sections.value);
    if symbols.Err? {
      return Err(symbols.error);
    }
    r := FinishLink(images.value, sections.value, symbols.value, selected);
  }

  lemma {:induction false} ObjectNamesInMemory(objects: seq<seq<Byte>>)
    requires DecodeAll(objects).Ok? && forall i :: 0 <= i < |objects| ==> |objects[i]| < SIZE_RANGE
    ensures forall o :: 0 <= o < |DecodeAll(objects).value| ==> NamesInMemory(DecodeAll(objects).value[o])
  {
    hide Decode, NamesInMemory;
    if objects != [] {
      var front, last := objects[..|objects| - 1], objects[|objects| - 1];
      assert DecodeAll(front).Ok?;
      ObjectNamesInMemory(front);
      DecodedNames(last);
    }
  }

  lemma DecodedNames(input: seq<Byte>)
    requires Decode(input).Ok? && |input| < SIZE_RANGE
    ensures NamesInMemory(Decode(input).value)
  {
    hide Field, GetString, EntryOk, ReadSection, SymbolReader, RelocationReader, Collect;
    var image, h := Decode(input).value, ReadHeader(input);
    forall i | 0 <= i < |image.sections| ensures |TextOf(image.sections[i].name)| + 1 < SIZE_RANGE {
      CollectElement(h.sectionCount, SectionReader(input, h), i);
      SectionName(input, Strings(input, h), h.payload, h.sections + 28 * i);
    }
  }

  /** A name and its terminator lie inside the string table. */
  lemma SectionName(input: seq<Byte>, strings: seq<Byte>, payload: nat, record: nat)
    requires record + 28 <= |input| && |strings| <= |input| - HEADER_SIZE
             && ReadSection(input, strings, payload, record).Some?
    ensures |TextOf(ReadSection(input, strings, payload, record).value.name)| + 1 <= |strings|
  {
    hide Field, ValidAlignment;
  }
}
