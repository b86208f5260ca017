/**
  The object and executable image: its records, the structural checks the codec
  makes, the byte string an accepted image is written as, and the image a byte
  string is read as.
 */
module ImageFormat {
  import opened Wrappers
  import opened Bits
  import opened Bytes

  const OBJECT: Byte := 1
  const EXECUTABLE: Byte := 2

  const TEXT: Word := 1
  const DATA: Word := 2
  const BSS: Word := 3

  const LOCAL: Byte := 0
  const GLOBAL: Byte := 1
  const WEAK: Byte := 2
  const FUNCTION: Byte := 2

  const ABSOLUTE32: Word := 1
  const PC_RELATIVE32: Word := 2

  const UNDEFINED_SECTION: Word := 0xFFFF_FFFF

  // A section record takes 28 bytes, a symbol or relocation record 20.
  const HEADER_SIZE := 52

  const MAGIC: seq<Byte> := [0x5A, 0x4C, 0x49, 0x4D]

  type SWord = x: int | -0x8000_0000 <= x < 0x8000_0000

  datatype ImageError =
    | BadMagic
    | UnsupportedVersion
    | InvalidKind
    | Malformed
    | Overflow
    | Bounds

  /** A null pointer is None. `size` is the declared size; bss data is never read. */
  datatype Section = Section(name: Option<CString>, kind: Word, flags: Word, alignment: Word,
                             address: Word, data: Option<seq<Byte>>, size: nat)

  datatype Symbol = Symbol(name: Option<CString>, section: Word, value: Word, size: Word,
                           binding: Byte, kind: Byte)

  datatype Relocation = Relocation(section: Word, offset: Word, kind: Word, symbol: Word, addend: SWord)

  datatype Image = Image(kind: Byte, entryPoint: Word, entrySymbol: Option<CString>,
                         sections: seq<Section>, symbols: seq<Symbol>, relocations: seq<Relocation>)

  /** What C asks of a caller: a data pointer that will be read covers `size` bytes. */
  predicate Readable(image: Image) {
    forall s :: s in image.sections && s.kind != BSS && s.data.Some? ==> |s.data.value| == s.size
  }

  function TextOf(name: Option<CString>): CString {
    if name.Some? then name.value else []
  }

  // ----- structural checks -----

  predicate ValidAlignment(alignment: Word) {
    alignment != 0 && And(alignment, alignment - 1) == 0
  }

  predicate SectionOk(s: Section) {
    && s.size <= WORD_MAX
    && (s.kind != BSS && s.size != 0 ==> s.data.Some?)
    && ValidAlignment(s.alignment)
    && TEXT <= s.kind <= BSS
    && s.size <= WORD_MAX - s.address
  }

  predicate SymbolOk(s: Symbol, sectionCount: nat) {
    && (s.section != UNDEFINED_SECTION ==> s.section < sectionCount)
    && s.binding <= WEAK
    && s.kind <= FUNCTION
  }

  predicate RelocationOk(r: Relocation, sections: seq<Section>, symbolCount: nat) {
    && r.section < |sections|
    && r.symbol < symbolCount
    && (r.kind == ABSOLUTE32 || r.kind == PC_RELATIVE32)
    && sections[r.section].kind != BSS
    && r.offset + 4 <= sections[r.section].size
  }

  predicate RecordsOk(image: Image) {
    && (forall i :: 0 <= i < |image.sections| ==> SectionOk(image.sections[i]))
    && (forall i :: 0 <= i < |image.symbols| ==> SymbolOk(image.symbols[i], |image.sections|))
    && (forall i :: 0 <= i < |image.relocations| ==>
          RelocationOk(image.relocations[i], image.sections, |image.symbols|))
  }

  predicate InText(s: Section, entry: Word) {
    s.kind == TEXT && s.address <= entry < s.address + s.size
  }

  predicate EntryOk(image: Image) {
    if image.kind == EXECUTABLE then
      image.entryPoint != 0 && exists i :: 0 <= i < |image.sections| && InText(image.sections[i], image.entryPoint)
    else
      image.entryPoint == 0
  }

  /** Everything the encoder demands of an image except that it be small enough. */
  predicate Structural(image: Image) {
    && (image.kind == OBJECT || image.kind == EXECUTABLE)
    && (image.kind == EXECUTABLE ==> image.relocations == [])
    && RecordsOk(image)
    && EntryOk(image)
  }

  // ----- the written form -----

  function Flatten<T>(rows: seq<seq<T>>): seq<T> {
    if rows == [] then [] else Flatten(rows[..|rows| - 1]) + rows[|rows| - 1]
  }

  /** Consecutive 32-bit little-endian words. */
  function Words(values: seq<nat>): (b: seq<Byte>)
    ensures |b| == 4 * |values|
  {
    if values == [] then [] else Words(values[..|values| - 1]) + LE(values[|values| - 1], 4)
  }

  function EntryNames(image: Image): seq<CString> {
    if image.kind == OBJECT && image.entrySymbol.Some? then [image.entrySymbol.value] else []
  }

  /** The names in string table order: sections, symbols, then an object's entry symbol. */
  function Names(image: Image): (names: seq<CString>)
    ensures |names| == |image.sections| + |image.symbols| + |EntryNames(image)|
  {
    seq(|image.sections|, i requires 0 <= i < |image.sections| => TextOf(image.sections[i].name))
    + seq(|image.symbols|, i requires 0 <= i < |image.symbols| => TextOf(image.symbols[i].name))
    + EntryNames(image)
  }

  function Terminated(name: seq<Byte>): seq<Byte> { name + [0] }

  function NameRows(names: seq<CString>): (rows: seq<seq<Byte>>)
    ensures |rows| == |names|
    ensures forall i :: 0 <= i < |names| ==> rows[i] == Terminated(names[i])
  {
    seq(|names|, i requires 0 <= i < |names| => Terminated(names[i]))
  }

  function StringTable(image: Image): seq<Byte> {
    [0] + Flatten(NameRows(Names(image)))
  }

  function NameOffset(image: Image, k: nat): nat
    requires k <= |Names(image)|
  {
    1 + |Flatten(NameRows(Names(image))[..k])|
  }

  function SymbolNameOffset(image: Image, i: nat): nat
    requires i < |image.symbols|
  {
    NameOffset(image, |image.sections| + i)
  }

  function Stored(s: Section): seq<Byte> {
    if s.kind == BSS || s.data.None? then [] else s.data.value
  }

  function PayloadRows(image: Image): (rows: seq<seq<Byte>>)
    ensures |rows| == |image.sections|
    ensures forall i :: 0 <= i < |rows| ==> rows[i] == Stored(image.sections[i])
  {
    seq(|image.sections|, i requires 0 <= i < |image.sections| => Stored(image.sections[i]))
  }

  function Payload(image: Image): seq<Byte> {
    Flatten(PayloadRows(image))
  }

  function SymbolOffset(image: Image): nat { HEADER_SIZE + 28 * |image.sections| }
  function RelocationOffset(image: Image): nat { SymbolOffset(image) + 20 * |image.symbols| }
  function StringOffset(image: Image): nat { RelocationOffset(image) + 20 * |image.relocations| }
  function PayloadOffset(image: Image): nat { StringOffset(image) + |StringTable(image)| }
  function TotalSize(image: Image): nat { PayloadOffset(image) + |Payload(image)| }

  function DataOffset(image: Image, i: nat): nat
    requires i <= |image.sections|
  {
    PayloadOffset(image) + |Flatten(PayloadRows(image)[..i])|
  }

  function SectionRecord(s: Section, name: nat, data: nat): (r: seq<Byte>)
    ensures |r| == 28
  {
    Words([name, s.kind, s.flags, s.alignment, s.address, data, s.size])
  }

  function SymbolRecord(s: Symbol, name: nat): (r: seq<Byte>)
    ensures |r| == 20
  {
    Words([name, s.section, s.value, s.size]) + [s.binding, s.kind, 0, 0]
  }

  /** A signed word as the unsigned word with the same 32 bits. */
  function Unsigned(x: SWord): Word { if x < 0 then x + WORD_RANGE else x }
  function Signed(x: Word): SWord { if x < 0x8000_0000 then x else x - WORD_RANGE }

  function RelocationRecord(r: Relocation): (b: seq<Byte>)
    ensures |b| == 20
  {
    Words([r.section, r.offset, r.kind, r.symbol, Unsigned(r.addend)])
  }

  function SectionRows(image: Image): (rows: seq<seq<Byte>>)
    ensures |rows| == |image.sections|
    ensures forall i :: 0 <= i < |rows| ==>
              rows[i] == SectionRecord(image.sections[i], NameOffset(image, i), DataOffset(image, i))
  {
    seq(|image.sections|, i requires 0 <= i < |image.sections| =>
      SectionRecord(image.sections[i], NameOffset(image, i), DataOffset(image, i)))
  }

  function SymbolRows(image: Image): (rows: seq<seq<Byte>>)
    ensures |rows| == |image.symbols|
    ensures forall i :: 0 <= i < |rows| ==>
              rows[i] == SymbolRecord(image.symbols[i], SymbolNameOffset(image, i))
  {
    seq(|image.symbols|, i requires 0 <= i < |image.symbols| =>
      SymbolRecord(image.symbols[i], SymbolNameOffset(image, i)))
  }

  function RelocationRows(image: Image): (rows: seq<seq<Byte>>)
    ensures |rows| == |image.relocations|
    ensures forall i :: 0 <= i < |rows| ==> rows[i] == RelocationRecord(image.relocations[i])
  {
    seq(|image.relocations|, i requires 0 <= i < |image.relocations| => RelocationRecord(image.relocations[i]))
  }

  /** An executable stores its entry address, an object the table offset of its entry symbol. */
  function EntryField(image: Image): nat {
    if EntryNames(image) != [] then NameOffset(image, |image.sections| + |image.symbols|) else image.entryPoint
  }

  function HeaderWords(image: Image, entry: nat): (w: seq<nat>)
    ensures |w| == 11
  {
    [HEADER_SIZE, |image.sections|, |image.symbols|, |image.relocations|, entry, HEADER_SIZE, SymbolOffset(image),
     RelocationOffset(image), StringOffset(image), |StringTable(image)|, PayloadOffset(image)]
  }

  function HeaderBytes(image: Image, entry: nat): (h: seq<Byte>)
    ensures |h| == HEADER_SIZE
  {
    MAGIC + LE(1, 2) + [image.kind, 0] + Words(HeaderWords(image, entry))
  }

  function Written(image: Image): seq<Byte> {
    HeaderBytes(image, EntryField(image)) + Flatten(SectionRows(image)) + Flatten(SymbolRows(image))
    + Flatten(RelocationRows(image)) + StringTable(image) + Payload(image)
  }

  /** The first check that fails, in the order the encoder makes them. */
  function Refusal(image: Image): Option<ImageError> {
    if image.kind != OBJECT && image.kind != EXECUTABLE then Some(InvalidKind)
    else if |image.sections| > WORD_MAX || |image.symbols| > WORD_MAX || |image.relocations| > WORD_MAX
        then Some(Overflow)
    else if image.kind == EXECUTABLE && image.relocations != [] then Some(Malformed)
    else if PayloadOffset(image) >= SIZE_RANGE then Some(Overflow)
    else if !RecordsOk(image) then Some(Malformed)
    else if TotalSize(image) > WORD_MAX then Some(Overflow)
    else if !EntryOk(image) then Some(Malformed)
    else None
  }

  function Encode(image: Image): Result<seq<Byte>, ImageError> {
    var refusal := Refusal(image);
    if refusal.Some? then Err(refusal.value) else Ok(Written(image))
  }

  // ----- the read form -----

  function Field(input: seq<Byte>, offset: nat): (w: Word)
    requires offset + 4 <= |input|
  {
    FromLEWord(input[offset..offset + 4]);
    FromLE(input[offset..offset + 4])
  }

  predicate InRange(offset: nat, size: nat, inputSize: nat) {
    offset <= inputSize && size <= inputSize - offset
  }

  /** memchr: the first NUL at or after `from`. */
  function FindNul(s: seq<Byte>, from: nat): (r: Option<nat>)
    requires from <= |s|
    ensures r.Some? ==> from <= r.value < |s| && s[r.value] == 0 && forall i :: from <= i < r.value ==> s[i] != 0
    ensures r.None? ==> forall i :: from <= i < |s| ==> s[i] != 0
    decreases |s| - from
  {
    if from == |s| then None else if s[from] == 0 then Some(from) else FindNul(s, from + 1)
  }

  function GetString(strings: seq<Byte>, offset: nat): Option<CString> {
    if offset >= |strings| then None
    else
      var end := FindNul(strings, offset);
      if end.None? then None else Some(AsCString(strings[offset..end.value]))
  }

  datatype Header = Header(kind: Byte, sectionCount: Word, symbolCount: Word, relocationCount: Word,
                           entry: Word, sections: Word, symbols: Word, relocations: Word,
                           strings: Word, stringSize: Word, payload: Word)

  function ReadHeader(input: seq<Byte>): Header
    requires |input| >= HEADER_SIZE
  {
    Header(input[6], Field(input, 12), Field(input, 16), Field(input, 20), Field(input, 24), Field(input, 28),
           Field(input, 32), Field(input, 36), Field(input, 40), Field(input, 44), Field(input, 48))
  }

  predicate HeaderInBounds(h: Header, n: nat) {
    && InRange(h.sections, 28 * h.sectionCount, n)
    && InRange(h.symbols, 20 * h.symbolCount, n)
    && InRange(h.relocations, 20 * h.relocationCount, n)
    && InRange(h.strings, h.stringSize, n)
    && h.payload <= n
    && HEADER_SIZE <= h.sections
    && h.sections + 28 * h.sectionCount <= h.symbols
    && h.symbols + 20 * h.symbolCount <= h.relocations
    && h.relocations + 20 * h.relocationCount <= h.strings
    && h.strings + h.stringSize <= h.payload
  }

  function Strings(input: seq<Byte>, h: Header): seq<Byte>
    requires InRange(h.strings, h.stringSize, |input|)
  {
    input[h.strings..h.strings + h.stringSize]
  }

  /** The section stored at `record`, when its own checks pass. */
  function ReadSection(input: seq<Byte>, strings: seq<Byte>, payload: nat, record: nat): (r: Option<Section>)
    requires record + 28 <= |input|
  {
    var name := GetString(strings, Field(input, record));
    var kind, alignment, address := Field(input, record + 4), Field(input, record + 12), Field(input, record + 16);
    var data, size := Field(input, record + 20), Field(input, record + 24);
    if || name.None? || !ValidAlignment(alignment) || kind < TEXT || kind > BSS
       || (kind == BSS && data > |input|)
       || (kind != BSS && (data < payload || !InRange(data, size, |input|)))
       || size > WORD_MAX - address
    then None
    else Some(Section(name, kind, Field(input, record + 8), alignment, address,
                      Some(if kind == BSS then Zeros(size) else input[data..data + size]), size))
  }

  function ReadSymbol(input: seq<Byte>, strings: seq<Byte>, sectionCount: nat, record: nat): (r: Option<Symbol>)
    requires record + 20 <= |input|
  {
    var name := GetString(strings, Field(input, record));
    if name.None? then None
    else
      var s := Symbol(name, Field(input, record + 4), Field(input, record + 8), Field(input, record + 12),
                      input[record + 16], input[record + 17]);
      if SymbolOk(s, sectionCount) && input[record + 18] == 0 && input[record + 19] == 0 then Some(s) else None
  }

  function ReadRelocation(input: seq<Byte>, sections: seq<Section>, symbolCount: nat,
                          record: nat): (r: Option<Relocation>)
    requires record + 20 <= |input|
  {
    var r := Relocation(Field(input, record), Field(input, record + 4), Field(input, record + 8),
                        Field(input, record + 12), Signed(Field(input, record + 16)));
    if RelocationOk(r, sections, symbolCount) then Some(r) else None
  }

  /** Reads `count` records in order, or None as soon as one of them is malformed. */
  function Collect<T>(count: nat, read: nat -> Option<T>): (r: Option<seq<T>>)
    ensures r.Some? ==> |r.value| == count
  {
    if count == 0 then Some([])
    else
      var front, last := Collect(count - 1, read), read(count - 1);
      if front.None? || last.None? then None else Some(front.value + [last.value])
  }

  function SectionReader(input: seq<Byte>, h: Header): nat -> Option<Section>
    requires HeaderInBounds(h, |input|)
  {
    (i: nat) => var at := h.sections + 28 * i;
      if at + 28 <= |input| then ReadSection(input, Strings(input, h), h.payload, at) else None
  }

  function SymbolReader(input: seq<Byte>, h: Header): nat -> Option<Symbol>
    requires HeaderInBounds(h, |input|)
  {
    (i: nat) => var at := h.symbols + 20 * i;
      if at + 20 <= |input| then ReadSymbol(input, Strings(input, h), h.sectionCount, at) else None
  }

  function RelocationReader(input: seq<Byte>, h: Header, sections: seq<Section>): nat -> Option<Relocation>
    requires HeaderInBounds(h, |input|)
  {
    (i: nat) => var at := h.relocations + 20 * i;
      if at + 20 <= |input| then ReadRelocation(input, sections, h.symbolCount, at) else None
  }

  /** The entry symbol of an object whose entry field is set; the outer None is an unreadable name. */
  function ReadEntrySymbol(h: Header, strings: seq<Byte>): Option<Option<CString>> {
    if h.kind == OBJECT && h.entry != 0 then
      var name := GetString(strings, h.entry);
      if name.None? then None else Some(name)
    else Some(None)
  }

  function ReadBody(input: seq<Byte>, h: Header): Result<Image, ImageError>
    requires HeaderInBounds(h, |input|)
  {
    var entrySymbol := ReadEntrySymbol(h, Strings(input, h));
    var sections := Collect(h.sectionCount, SectionReader(input, h));
    var symbols := Collect(h.symbolCount, SymbolReader(input, h));
    if entrySymbol.None? || sections.None? || symbols.None? then Err(Malformed)
    else
      var relocations := Collect(h.relocationCount, RelocationReader(input, h, sections.value));
      if relocations.None? then Err(Malformed)
      else
        var image := Image(h.kind, if h.kind == EXECUTABLE then h.entry else 0, entrySymbol.value,
                           sections.value, symbols.value, relocations.value);
        if EntryOk(image) then Ok(image) else Err(Malformed)
  }

  function Decode(input: seq<Byte>): Result<Image, ImageError> {
    if |input| < HEADER_SIZE || input[..4] != MAGIC then Err(BadMagic)
    else if FromLE(input[4..6]) != 1 then Err(UnsupportedVersion)
    else
      var h := ReadHeader(input);
      if (h.kind != OBJECT && h.kind != EXECUTABLE) || input[7] != 0 || Field(input, 8) != HEADER_SIZE
          then Err(Malformed)
      else if !HeaderInBounds(h, |input|) then Err(Bounds)
      else if h.stringSize == 0 || input[h.strings] != 0 then Err(Malformed)
      else if h.kind == EXECUTABLE && (h.entry == 0 || h.relocationCount != 0) then Err(Malformed)
      else ReadBody(input, h)
  }

  // ----- the image a written image stands for -----

  function NormalSection(s: Section): Section {
    s.(name := Some(TextOf(s.name)), data := Some(if s.kind == BSS then Zeros(s.size) else Stored(s)))
  }

  function NormalSymbol(s: Symbol): Symbol {
    s.(name := Some(TextOf(s.name)))
  }

  /** Null names read as empty, bss as zeros, and an executable has no entry symbol. */
  function Normal(image: Image): Image {
    image.(
      entrySymbol := if image.kind == OBJECT then image.entrySymbol else None,
      sections := seq(|image.sections|, i requires 0 <= i < |image.sections| => NormalSection(image.sections[i])),
      symbols := seq(|image.symbols|, i requires 0 <= i < |image.symbols| => NormalSymbol(image.symbols[i])))
  }
}
