/**
  What the static linker computes: decode the objects, place their sections,
  merge their symbols, relocate, choose the entry and encode an executable.
  Every phase folds one step over the records of all objects in order and stops
  at the first error.
 */
module Linking {
  import opened Wrappers
  import opened Bits
  import opened Bytes
  import opened ImageFormat

  const FIRST_ADDRESS := 8
  const START: CString := [0x73, 0x74, 0x61, 0x72, 0x74]

  datatype LinkError =
    | InvalidArgument
    | IncompatibleObject
    | DuplicateSymbol
    | UnresolvedSymbol
    | Overlap
    | LinkOverflow
    | NoEntry

  /** A section together with the object and the index it came from. */
  datatype LinkSection = LinkSection(image: Section, owner: nat, source: nat)

  /** A symbol or relocation together with the object it came from. */
  datatype Tagged<T> = Tagged(owner: nat, value: T)

  // ----- objects -----

  function DecodeStep(images: seq<Image>, input: seq<Byte>): Result<seq<Image>, LinkError> {
    var decoded := Decode(input);
    if decoded.Err? || decoded.value.kind != OBJECT then Err(IncompatibleObject) else Ok(images + [decoded.value])
  }

  function DecodeAll(objects: seq<seq<Byte>>): Result<seq<Image>, LinkError> {
    Fold((images: seq<Image>, input: seq<Byte>) => DecodeStep(images, input), [], objects)
  }

  /** The entry the caller asks for, or the first one an object names, or "start". */
  function SelectedEntry(images: seq<Image>, requested: Option<CString>): CString {
    if requested.Some? then requested.value
    else
      var named := FirstEntry(images);
      if named.Some? then named.value else START
  }

  function FirstEntry(images: seq<Image>): Option<CString> {
    if images == [] then None
    else if images[0].entrySymbol.Some? then images[0].entrySymbol
    else FirstEntry(images[1..])
  }

  // ----- placement -----

  /** (value + alignment - 1) & ~(alignment - 1) in 64 bits, when it fits 32. */
  function AlignAddress(value: nat, alignment: Word): Option<Word>
    requires alignment != 0
  {
    if value > 0xFFFF_FFFF_FFFF_FFFF - alignment + 1 then None
    else
      var aligned := And(value + alignment - 1, 0xFFFF_FFFF_FFFF_FFFF - (alignment - 1));
      if aligned > WORD_MAX then None else Some(aligned)
  }

  predicate Meets(s: Section, address: nat, size: nat) {
    address < s.address + s.size && s.address < address + size
  }

  predicate Overlaps(placed: seq<LinkSection>, address: nat, size: nat) {
    exists i :: 0 <= i < |placed| && Meets(placed[i].image, address, size)
  }

  function Inputs(images: seq<Image>): seq<LinkSection> {
    Flatten(InputRows(images))
  }

  function ObjectInputs(image: Image, owner: nat): (inputs: seq<LinkSection>)
    ensures |inputs| == |image.sections|
    ensures forall s :: 0 <= s < |inputs| ==> inputs[s] == LinkSection(image.sections[s], owner, s)
  {
    seq(|image.sections|, s requires 0 <= s < |image.sections| => LinkSection(image.sections[s], owner, s))
  }

  function InputRows(images: seq<Image>): (rows: seq<seq<LinkSection>>)
    ensures |rows| == |images|
    ensures forall o :: 0 <= o < |rows| ==> rows[o] == ObjectInputs(images[o], o)
  {
    seq(|images|, o requires 0 <= o < |images| => ObjectInputs(images[o], o))
  }

  /** The end of the section placed last. */
  function Cursor(placed: seq<LinkSection>): nat {
    if placed == [] then FIRST_ADDRESS else placed[|placed| - 1].image.address + placed[|placed| - 1].image.size
  }

  /** A section without an address and without the located flag is placed by the linker. */
  predicate Automatic(s: Section) {
    s.address == 0 && And(s.flags, 1) == 0
  }

  function PlaceAt(placed: seq<LinkSection>, input: LinkSection, address: Word): Result<seq<LinkSection>, LinkError> {
    if Overlaps(placed, address, input.image.size) then Err(Overlap)
    else if address + input.image.size > ROM_SIZE then Err(LinkOverflow)
    else Ok(placed + [input.(image := input.image.(address := address))])
  }

  function PlaceStep(placed: seq<LinkSection>, input: LinkSection): Result<seq<LinkSection>, LinkError> {
    if Automatic(input.image) then
      var address := if input.image.alignment == 0 then None else AlignAddress(Cursor(placed), input.image.alignment);
      if address.None? then Err(LinkOverflow) else PlaceAt(placed, input, address.value)
    else PlaceAt(placed, input, input.image.address)
  }

  function Placer(): (seq<LinkSection>, LinkSection) -> Result<seq<LinkSection>, LinkError> {
    (placed: seq<LinkSection>, input: LinkSection) => PlaceStep(placed, input)
  }

  function Place(images: seq<Image>): Result<seq<LinkSection>, LinkError> {
    Fold(Placer(), [], Inputs(images))
  }

  function FindSection(placed: seq<LinkSection>, owner: nat, source: nat): (r: Option<nat>)
    ensures r.Some? ==> r.value < |placed| && placed[r.value].owner == owner && placed[r.value].source == source
    ensures r.None? ==> forall i :: 0 <= i < |placed| ==> !(placed[i].owner == owner && placed[i].source == source)
  {
    if placed == [] then None
    else
      var earlier := FindSection(placed[..|placed| - 1], owner, source);
      if earlier.Some? then earlier
      else if placed[|placed| - 1].owner == owner && placed[|placed| - 1].source == source then Some(|placed| - 1)
      else None
  }

  // ----- symbols -----

  predicate Defined(s: Symbol) {
    s.section != UNDEFINED_SECTION
  }

  /** A definition other objects can see under this name. */
  predicate Exports(s: Symbol, name: CString) {
    s.binding == GLOBAL && Defined(s) && TextOf(s.name) == name
  }

  function SymbolRow(image: Image, owner: nat): (row: seq<Tagged<Symbol>>)
    ensures |row| == |image.symbols|
    ensures forall j :: 0 <= j < |row| ==> row[j] == Tagged(owner, image.symbols[j])
  {
    seq(|image.symbols|, j requires 0 <= j < |image.symbols| => Tagged(owner, image.symbols[j]))
  }

  function SymbolInputs(images: seq<Image>): (rows: seq<seq<Tagged<Symbol>>>)
    ensures |rows| == |images|
    ensures forall o :: 0 <= o < |rows| ==> rows[o] == SymbolRow(images[o], o)
  {
    seq(|images|, o requires 0 <= o < |images| => SymbolRow(images[o], o))
  }

  /** A defined symbol's value becomes an address, in 32-bit arithmetic; its section index becomes global. */
  function Moved(placed: seq<LinkSection>, input: Tagged<Symbol>): Option<Symbol> {
    if !Defined(input.value) then Some(input.value)
    else
      var index := FindSection(placed, input.owner, input.value.section);
      if index.None? then None
      else Some(input.value.(value := (input.value.value + placed[index.value].image.address) % WORD_RANGE,
                             section := index.value % WORD_RANGE))
  }

  predicate Duplicates(merged: seq<Symbol>, s: Symbol) {
    s.binding == GLOBAL && Defined(s) && exists i :: 0 <= i < |merged| && Exports(merged[i], TextOf(s.name))
  }

  function MergeStep(placed: seq<LinkSection>, merged: seq<Symbol>, input: Tagged<Symbol>)
    : Result<seq<Symbol>, LinkError>
  {
    var moved := Moved(placed, input);
    if moved.None? then Err(IncompatibleObject)
    else if Duplicates(merged, moved.value) then Err(DuplicateSymbol)
    else Ok(merged + [moved.value])
  }

  function Merger(placed: seq<LinkSection>): (seq<Symbol>, Tagged<Symbol>) -> Result<seq<Symbol>, LinkError> {
    (merged: seq<Symbol>, input: Tagged<Symbol>) => MergeStep(placed, merged, input)
  }

  function Merge(images: seq<Image>, placed: seq<LinkSection>): Result<seq<Symbol>, LinkError> {
    Fold(Merger(placed), [], Flatten(SymbolInputs(images)))
  }

  // ----- relocations -----

  function RelocationRow(image: Image, owner: nat): (row: seq<Tagged<Relocation>>)
    ensures |row| == |image.relocations|
    ensures forall j :: 0 <= j < |row| ==> row[j] == Tagged(owner, image.relocations[j])
  {
    seq(|image.relocations|, j requires 0 <= j < |image.relocations| => Tagged(owner, image.relocations[j]))
  }

  function RelocationInputs(images: seq<Image>): (rows: seq<seq<Tagged<Relocation>>>)
    ensures |rows| == |images|
    ensures forall o :: 0 <= o < |rows| ==> rows[o] == RelocationRow(images[o], o)
  {
    seq(|images|, o requires 0 <= o < |images| => RelocationRow(images[o], o))
  }

  /** The first exported definition of a name. */
  function FindExport(merged: seq<Symbol>, name: CString): (r: Option<nat>)
    ensures r.Some? ==> r.value < |merged| && Exports(merged[r.value], name)
    ensures r.None? ==> forall i :: 0 <= i < |merged| ==> !Exports(merged[i], name)
  {
    if merged == [] then None
    else
      var earlier := FindExport(merged[..|merged| - 1], name);
      if earlier.Some? then earlier
      else if Exports(merged[|merged| - 1], name) then Some(|merged| - 1)
      else None
  }

  /** The address a reference stands for: its own definition, or else the export of that name. */
  function Target(placed: seq<LinkSection>, merged: seq<Symbol>, owner: nat, reference: Symbol): Result<nat, LinkError>
  {
    if Defined(reference) then
      var index := FindSection(placed, owner, reference.section);
      if index.None? then Err(IncompatibleObject) else Ok(placed[index.value].image.address + reference.value)
    else
      var index := FindExport(merged, TextOf(reference.name));
      if index.None? then Err(UnresolvedSymbol) else Ok(merged[index.value].value)
  }

  /** S + A, or S + A - P, when it fits the relocated word. */
  function RelocatedValue(r: Relocation, target: nat, site: nat): Option<int> {
    var value := target + r.addend;
    if r.kind == PC_RELATIVE32 then
      if -0x8000_0000 <= value - site <= 0x7FFF_FFFF then Some(value - site) else None
    else if 0 <= value <= WORD_MAX then Some(value) else None
  }

  function RelocateStep(images: seq<Image>, placed: seq<LinkSection>, merged: seq<Symbol>, datas: seq<seq<Byte>>,
                        input: Tagged<Relocation>): Result<seq<seq<Byte>>, LinkError> {
    var r := input.value;
    var destination := FindSection(placed, input.owner, r.section);
    if destination.None? || input.owner >= |images| || r.symbol >= |images[input.owner].symbols|
        || |datas| != |placed| then
      Err(IncompatibleObject)
    else
      var d := destination.value;
      var target := Target(placed, merged, input.owner, images[input.owner].symbols[r.symbol]);
      if target.Err? then Err(target.error)
      else
        var value := RelocatedValue(r, target.value, placed[d].image.address + r.offset);
        if value.None? || r.offset + 4 > placed[d].image.size || r.offset + 4 > |datas[d]| then Err(LinkOverflow)
        else Ok(datas[d := Splice(datas[d], r.offset, LE(value.value % WORD_RANGE, 4))])
  }

  function Relocator(images: seq<Image>, placed: seq<LinkSection>, merged: seq<Symbol>):
    (seq<seq<Byte>>, Tagged<Relocation>) -> Result<seq<seq<Byte>>, LinkError>
  {
    (datas: seq<seq<Byte>>, input: Tagged<Relocation>) => RelocateStep(images, placed, merged, datas, input)
  }

  /** The section contents before relocation. */
  function Contents(placed: seq<LinkSection>): (datas: seq<seq<Byte>>)
    ensures |datas| == |placed|
    ensures forall i :: 0 <= i < |datas| ==>
              datas[i] == if placed[i].image.data.Some? then placed[i].image.data.value else []
  {
    seq(|placed|, i requires 0 <= i < |placed| => if placed[i].image.data.Some? then placed[i].image.data.value else [])
  }

  function Relocate(images: seq<Image>, placed: seq<LinkSection>, merged: seq<Symbol>)
    : Result<seq<seq<Byte>>, LinkError>
  {
    Fold(Relocator(images, placed, merged), Contents(placed), Flatten(RelocationInputs(images)))
  }

  // ----- the executable -----

  /** The value of the first defined symbol of that name, whatever its binding; 0 when there is none. */
  function EntryAddress(merged: seq<Symbol>, name: CString): Word {
    if merged == [] then 0
    else if Defined(merged[0]) && TextOf(merged[0].name) == name then merged[0].value
    else EntryAddress(merged[1..], name)
  }

  function Executable(placed: seq<LinkSection>, datas: seq<seq<Byte>>, entry: Word): Image
    requires |placed| == |datas|
  {
    Image(EXECUTABLE, entry, None,
          seq(|placed|, i requires 0 <= i < |placed| => placed[i].image.(data := Some(datas[i]))), [], [])
  }

  function Finish(placed: seq<LinkSection>, datas: seq<seq<Byte>>, entry: Word): Result<seq<Byte>, LinkError>
    requires |placed| == |datas|
  {
    if entry == 0 then Err(NoEntry)
    else
      var encoded := Encode(Executable(placed, datas, entry));
      if encoded.Ok? then Ok(encoded.value)
      else Err(if encoded.error == Overflow then LinkOverflow else IncompatibleObject)
  }

  /** Everything behind the decoding of the objects. */
  function LinkImages(images: seq<Image>, name: CString): Result<seq<Byte>, LinkError> {
    var placed := Place(images);
    if placed.Err? then Err(placed.error)
    else
      var merged := Merge(images, placed.value);
      if merged.Err? then Err(merged.error) else LinkMerged(images, placed.value, merged.value, name)
  }

  function LinkMerged(images: seq<Image>, placed: seq<LinkSection>, merged: seq<Symbol>,
                      name: CString): Result<seq<Byte>, LinkError>
  {
    var datas := Relocate(images, placed, merged);
    if datas.Err? then Err(datas.error)
    else if |datas.value| != |placed| then Err(IncompatibleObject)
    else Finish(placed, datas.value, EntryAddress(merged, name))
  }

  /** zl_link_objects. */
  function Link(objects: seq<seq<Byte>>, requested: Option<CString>): Result<seq<Byte>, LinkError> {
    if objects == [] then Err(InvalidArgument)
    else
      var images := DecodeAll(objects);
      if images.Err? then Err(images.error) else LinkImages(images.value, SelectedEntry(images.value, requested))
  }
}
