/** zl_image_decode: a defensive reader of arbitrary bytes. Every access stays inside the input. */
module ImageDecoder {
  import opened Wrappers
  import opened Bytes
  import opened ImageFormat

  method GetField(input: seq<Byte>, offset: nat) returns (w: Word)
    requires offset + 4 <= |input|
    ensures w == Field(input, offset)
  {
    FromLEWord(input[offset..offset + 4]);
    w := Get(input, offset, 4);
  }

  method ReadFields(input: seq<Byte>) returns (h: Header)
    requires |input| >= HEADER_SIZE
    ensures h == ReadHeader(input)
  {
    hide Field;
    var sectionCount := GetField(input, 12);
    var symbolCount := GetField(input, 16);
    var relocationCount := GetField(input, 20);
    var entry := GetField(input, 24);
    var sections := GetField(input, 28);
    var symbols := GetField(input, 32);
    var relocations := GetField(input, 36);
    var strings := GetField(input, 40);
    var stringSize := GetField(input, 44);
    var payload := GetField(input, 48);
    h := Header(input[6], sectionCount, symbolCount, relocationCount, entry, sections, symbols, relocations, strings,
                stringSize, payload);
  }

  method ReadSectionRecord(input: seq<Byte>, strings: seq<Byte>, payload: nat, record: nat) returns (r: Option<Section>)
    requires record + 28 <= |input|
    ensures r == ReadSection(input, strings, payload, record)
  {
    hide Field, GetString, ValidAlignment;
    var data := GetField(input, record + 20);
    var size := GetField(input, record + 24);
    var kind := GetField(input, record + 4);
    var address := GetField(input, record + 16);
    var nameField := GetField(input, record);
    var name := GetString(strings, nameField);
    var alignment := GetField(input, record + 12);
    if || name.None? || !ValidAlignment(alignment) || kind < TEXT || kind > BSS
       || (kind == BSS && data > |input|)
       || (kind != BSS && (data < payload || !InRange(data, size, |input|)))
       || size > WORD_MAX - address {
      return None;
    }
    var flags := GetField(input, record + 8);
    r := Some(Section(name, kind, flags, alignment, address,
                      Some(if kind == BSS then Zeros(size) else input[data..data + size]), size));
  }

  method ReadSymbolRecord(input: seq<Byte>, strings: seq<Byte>, sectionCount: nat, record: nat)
    returns (r: Option<Symbol>)
    requires record + 20 <= |input|
    ensures r == ReadSymbol(input, strings, sectionCount, record)
  {
    hide Field, GetString;
    var section := GetField(input, record + 4);
    var nameField := GetField(input, record);
    var name := GetString(strings, nameField);
    if name.None? || (section != UNDEFINED_SECTION && section >= sectionCount) {
      return None;
    }
    var value := GetField(input, record + 8);
    var size := GetField(input, record + 12);
    var binding, kind := input[record + 16], input[record + 17];
    if binding > WEAK || kind > FUNCTION {
      return None;
    }
    if input[record + 18] != 0 || input[record + 19] != 0 {
      return None;
    }
    r := Some(Symbol(name, section, value, size, binding, kind));
  }

  method ReadRelocationRecord(input: seq<Byte>, sections: seq<Section>, symbolCount: nat, record: nat)
    returns (r: Option<Relocation>)
    requires record + 20 <= |input|
    ensures r == ReadRelocation(input, sections, symbolCount, record)
  {
    hide Field;
    var section := GetField(input, record);
    var offset := GetField(input, record + 4);
    var kind := GetField(input, record + 8);
    var symbol := GetField(input, record + 12);
    var addend := GetField(input, record + 16);
    var relocation := Relocation(section, offset, kind, symbol, Signed(addend));
    if || section >= |sections| || symbol >= symbolCount || (kind != ABSOLUTE32 && kind != PC_RELATIVE32)
       || sections[section].kind == BSS || offset > sections[section].size || sections[section].size - offset < 4 {
      return None;
    }
    r := Some(relocation);
  }

  lemma {:induction false} CollectFails<T>(count: nat, read: nat -> Option<T>, i: nat)
    requires i < count && read(i).None?
    ensures Collect(count, read).None?
  {
    if i < count - 1 { CollectFails(count - 1, read, i); }
  }

  method ReadSectionTable(input: seq<Byte>, h: Header) returns (r: Option<seq<Section>>)
    requires HeaderInBounds(h, |input|)
    ensures r == Collect(h.sectionCount, SectionReader(input, h))
  {
    hide ReadSection;
    var sections := [];
    for index := 0 to h.sectionCount
      invariant Collect(index, SectionReader(input, h)) == Some(sections)
    {
      var s := ReadSectionRecord(input, Strings(input, h), h.payload, h.sections + 28 * index);
      assert s == SectionReader(input, h)(index);
      if s.None? {
        CollectFails(h.sectionCount, SectionReader(input, h), index);
        return None;
      }
      sections := sections + [s.value];
    }
    r := Some(sections);
  }

  method ReadSymbolTable(input: seq<Byte>, h: Header) returns (r: Option<seq<Symbol>>)
    requires HeaderInBounds(h, |input|)
    ensures r == Collect(h.symbolCount, SymbolReader(input, h))
  {
    hide ReadSymbol;
    var symbols := [];
    for index := 0 to h.symbolCount
      invariant Collect(index, SymbolReader(input, h)) == Some(symbols)
    {
      var s := ReadSymbolRecord(input, Strings(input, h), h.sectionCount, h.symbols + 20 * index);
      assert s == SymbolReader(input, h)(index);
      if s.None? {
        CollectFails(h.symbolCount, SymbolReader(input, h), index);
        return None;
      }
      symbols := symbols + [s.value];
    }
    r := Some(symbols);
  }

  method ReadRelocationTable(input: seq<Byte>, h: Header, sections: seq<Section>) returns (r: Option<seq<Relocation>>)
    requires HeaderInBounds(h, |input|)
    ensures r == Collect(h.relocationCount, RelocationReader(input, h, sections))
  {
    hide ReadRelocation;
    var relocations := [];
    for index := 0 to h.relocationCount
      invariant Collect(index, RelocationReader(input, h, sections)) == Some(relocations)
    {
      var x := ReadRelocationRecord(input, sections, h.symbolCount, h.relocations + 20 * index);
      assert x == RelocationReader(input, h, sections)(index);
      if x.None? {
        CollectFails(h.relocationCount, RelocationReader(input, h, sections), index);
        return None;
      }
      relocations := relocations + [x.value];
    }
    r := Some(relocations);
  }

  method ReadTables(input: seq<Byte>, h: Header) returns (r: Result<Image, ImageError>)
    requires HeaderInBounds(h, |input|)
    ensures r == ReadBody(input, h)
  {
    hide SectionReader, SymbolReader, RelocationReader, Collect, GetString;
    var entrySymbol := ReadEntrySymbol(h, Strings(input, h));
    if entrySymbol.None? {
      return Err(Malformed);
    }
    var sections := ReadSectionTable(input, h);
    if sections.None? {
      return Err(Malformed);
    }
    var symbols := ReadSymbolTable(input, h);
    if symbols.None? {
      return Err(Malformed);
    }
    var relocations := ReadRelocationTable(input, h, sections.value);
    if relocations.None? {
      return Err(Malformed);
    }
    var entryPoint := if h.kind == EXECUTABLE then h.entry else 0;
    if h.kind == EXECUTABLE {
      var found := false;
      for index := 0 to |sections.value|
        invariant found <==> exists i :: 0 <= i < index && InText(sections.value[i], entryPoint)
      {
        if InText(sections.value[index], entryPoint) {
          found := true;
        }
      }
      if entryPoint == 0 || !found {
        return Err(Malformed);
      }
    }
    r := Ok(Image(h.kind, entryPoint, entrySymbol.value, sections.value, symbols.value, relocations.value));
  }

  /** zl_image_decode. */
  method DecodeImage(input: seq<Byte>) returns (r: Result<Image, ImageError>)
    ensures r == Decode(input)
  {
    hide Field, HeaderInBounds, ReadBody;
    if |input| < HEADER_SIZE || input[..4] != MAGIC {
      return Err(BadMagic);
    }
    var version := Get(input, 4, 2);
    if version != 1 {
      return Err(UnsupportedVersion);
    }
    var headerSize := GetField(input, 8);
    var h := ReadFields(input);
    if (h.kind != OBJECT && h.kind != EXECUTABLE) || input[7] != 0 || headerSize != HEADER_SIZE {
      return Err(Malformed);
    }
    if !HeaderInBounds(h, |input|) {
      return Err(Bounds);
    }
    HeaderStrings(h, |input|);
    if h.stringSize == 0 || input[h.strings] != 0 {
      return Err(Malformed);
    }
    if h.kind == EXECUTABLE && (h.entry == 0 || h.relocationCount != 0) {
      return Err(Malformed);
    }
    r := ReadTables(input, h);
  }

  lemma HeaderStrings(h: Header, n: nat)
    requires HeaderInBounds(h, n)
    ensures h.stringSize != 0 ==> h.strings < n
  {
  }
}
