/**
  The image format told byte by byte: which bytes an image is read from, so that the
  decoder accepts exactly the inputs that describe an image, whoever wrote them.
 */
module ImageDescription {
  import opened Wrappers
  import opened Bits
  import opened Bytes
  import opened ImageFormat
  import opened ImageRoundTrip

  // ----- words and strings -----

  /** The little-endian word at a place. */
  function WordAt(b: seq<Byte>, at: nat): int
    requires at + 4 <= |b|
  {
    b[at] as int + 0x100 * (b[at + 1] as int) + 0x1_0000 * (b[at + 2] as int) + 0x100_0000 * (b[at + 3] as int)
  }

  lemma FieldIs(b: seq<Byte>, at: nat)
    requires at + 4 <= |b|
    ensures Field(b, at) == WordAt(b, at)
  {
    var w := b[at..at + 4];
    assert w[1..][1..] == w[2..] && w[2..][1..] == w[3..] && w[3..][1..] == [];
    assert FromLE(w) == w[0] + 256 * FromLE(w[1..]);
    assert FromLE(w[1..]) == w[1] + 256 * FromLE(w[2..]);
    assert FromLE(w[2..]) == w[2] + 256 * FromLE(w[3..]);
    assert FromLE(w[3..]) == w[3];
  }

  /** The text from a place up to the first NUL, which lies before `end`. */
  predicate TextAt(b: seq<Byte>, at: nat, end: nat, text: Option<CString>) {
    && text.Some? && at + |text.value| < end <= |b| && b[at + |text.value|] == 0
    && forall k :: 0 <= k < |text.value| ==> b[at + k] == text.value[k]
  }

  /** A string is read from the table exactly as it stands there. */
  lemma StringIs(b: seq<Byte>, from: nat, size: nat, offset: nat, text: CString)
    requires from + size <= |b|
    ensures GetString(b[from..from + size], offset) == Some(text) <==> TextAt(b, from + offset, from + size, Some(text))
  {
    if TextAt(b, from + offset, from + size, Some(text)) {
      TextIsString(b, from, size, offset, text);
    }
    if GetString(b[from..from + size], offset) == Some(text) {
      StringIsText(b, from, size, offset, text);
    }
  }

  lemma TextIsString(b: seq<Byte>, from: nat, size: nat, offset: nat, text: CString)
    requires from + size <= |b| && TextAt(b, from + offset, from + size, Some(text))
    ensures GetString(b[from..from + size], offset) == Some(text)
  {
    hide FindNul;
    var strings, at := b[from..from + size], from + offset;
    forall k | 0 <= k < |text| ensures strings[offset + k] == text[k] {
      assert b[at + k] == text[k];
    }
    forall k | offset <= k < offset + |text| ensures strings[k] != 0 {
      assert strings[offset + (k - offset)] == text[k - offset];
    }
    NulIs(strings, offset, offset + |text|);
    assert strings[offset..offset + |text|] == text;
  }

  lemma StringIsText(b: seq<Byte>, from: nat, size: nat, offset: nat, text: CString)
    requires from + size <= |b| && GetString(b[from..from + size], offset) == Some(text)
    ensures TextAt(b, from + offset, from + size, Some(text))
  {
    hide FindNul;
    var strings, at := b[from..from + size], from + offset;
    var end := FindNul(strings, offset).value;
    assert text == strings[offset..end];
    forall k | 0 <= k < |text| ensures b[at + k] == text[k] {
      assert text[k] == strings[offset + k];
    }
  }

  lemma NulIs(s: seq<Byte>, from: nat, n: nat)
    requires from <= n < |s| && s[n] == 0 && forall k :: from <= k < n ==> s[k] != 0
    ensures FindNul(s, from) == Some(n)
  {
    hide FindNul;
    var r := FindNul(s, from);
    assert r.Some?;
  }

  // ----- the header -----

  /** The five tables follow each other behind the header and end inside the input. */
  predicate TablesFit(b: seq<Byte>)
    requires |b| >= 52
  {
    && 52 <= WordAt(b, 28) && WordAt(b, 28) + 28 * WordAt(b, 12) <= WordAt(b, 32)
    && WordAt(b, 32) + 20 * WordAt(b, 16) <= WordAt(b, 36)
    && WordAt(b, 36) + 20 * WordAt(b, 20) <= WordAt(b, 40)
    && WordAt(b, 40) + WordAt(b, 44) <= WordAt(b, 48) <= |b|
  }

  /** What the bytes 0 to 51 must be: magic, version 1, kind, zero, size 52, and five tables in order. */
  predicate HeaderFine(b: seq<Byte>) {
    && |b| >= 52
    && b[..4] == [0x5A, 0x4C, 0x49, 0x4D] && b[4] == 1 && b[5] == 0
    && (b[6] == 1 || b[6] == 2) && b[7] == 0 && WordAt(b, 8) == 52
    && TablesFit(b) && WordAt(b, 44) > 0 && b[WordAt(b, 40)] == 0
    && (b[6] == 2 ==> WordAt(b, 24) != 0 && WordAt(b, 20) == 0)
  }

  lemma HeaderIs(b: seq<Byte>)
    requires |b| >= 52
    ensures ReadHeader(b) == Header(b[6], WordAt(b, 12), WordAt(b, 16), WordAt(b, 20), WordAt(b, 24), WordAt(b, 28),
                                    WordAt(b, 32), WordAt(b, 36), WordAt(b, 40), WordAt(b, 44), WordAt(b, 48))
  {
    hide Field, WordAt;
    FieldIs(b, 12);
    FieldIs(b, 16);
    FieldIs(b, 20);
    FieldIs(b, 24);
    FieldIs(b, 28);
    FieldIs(b, 32);
    FieldIs(b, 36);
    FieldIs(b, 40);
    FieldIs(b, 44);
    FieldIs(b, 48);
  }

  lemma VersionIs(b: seq<Byte>)
    requires |b| >= 52
    ensures FromLE(b[4..6]) == 1 <==> b[4] == 1 && b[5] == 0
  {
    var w := b[4..6];
    assert FromLE(w) == w[0] + 256 * FromLE(w[1..]);
    assert w[1..][1..] == [] && FromLE(w[1..]) == w[1];
  }

  // ----- the records -----

  predicate IsPowerOfTwo(n: nat) {
    exists k :: 0 <= k < 32 && n == Pow2(k)
  }

  /** A section has a known kind, a power of two as its alignment and ends inside the address space. */
  predicate SectionSound(s: Section) {
    1 <= s.kind <= 3 && IsPowerOfTwo(s.alignment) && s.address + s.size <= 0xFFFF_FFFF
  }

  /** A symbol is undefined or in one of the sections, with a known binding and kind. */
  predicate SymbolSound(s: Symbol, count: nat) {
    (s.section == 0xFFFF_FFFF || s.section < count) && s.binding <= 2 && s.kind <= 2
  }

  /** A relocation patches a word inside a section with bytes and refers to one of the symbols. */
  predicate RelocationSound(r: Relocation, sections: seq<Section>, symbols: nat) {
    && r.section < |sections| && sections[r.section].kind != 3 && r.offset + 4 <= sections[r.section].size
    && r.symbol < symbols && (r.kind == 1 || r.kind == 2)
  }

  lemma PowersAre(alignment: Word)
    ensures ValidAlignment(alignment) <==> IsPowerOfTwo(alignment)
  {
    hide And, Pow2;
    if ValidAlignment(alignment) {
      var k := ClearLowBitPowerOfTwo(alignment);
      WordWidths();
      if k >= 32 { Pow2Monotone(32, k); }
    }
    if k :| 0 <= k < 32 && alignment == Pow2(k) {
      PowerOfTwoClearsLowBit(k);
    }
  }


  /** The section record at a place, its name in the string table and its bytes behind `payload`. */
  predicate SectionAt(b: seq<Byte>, at: nat, strings: nat, end: nat, payload: nat, s: Section) {
    && at + 28 <= |b| && SectionSound(s) && TextAt(b, strings + WordAt(b, at), end, s.name)
    && s.kind == WordAt(b, at + 4) && s.flags == WordAt(b, at + 8) && s.alignment == WordAt(b, at + 12)
    && s.address == WordAt(b, at + 16) && s.size == WordAt(b, at + 24)
    && var data := WordAt(b, at + 20);
       if s.kind == 3 then data <= |b| && s.data == Some(Zeros(s.size))
       else payload <= data && data + s.size <= |b| && s.data == Some(b[data..data + s.size])
  }

  /** The symbol record at a place; its last two bytes are zero. */
  predicate SymbolAt(b: seq<Byte>, at: nat, strings: nat, end: nat, count: nat, s: Symbol) {
    && at + 20 <= |b| && SymbolSound(s, count) && TextAt(b, strings + WordAt(b, at), end, s.name)
    && s.section == WordAt(b, at + 4) && s.value == WordAt(b, at + 8) && s.size == WordAt(b, at + 12)
    && s.binding == b[at + 16] && s.kind == b[at + 17] && b[at + 18] == 0 && b[at + 19] == 0
  }

  /** The relocation record at a place; the addend is in two's complement. */
  predicate RelocationAt(b: seq<Byte>, at: nat, sections: seq<Section>, symbols: nat, r: Relocation) {
    && at + 20 <= |b| && RelocationSound(r, sections, symbols)
    && r.section == WordAt(b, at) && r.offset == WordAt(b, at + 4) && r.kind == WordAt(b, at + 8)
    && r.symbol == WordAt(b, at + 12)
    && r.addend == (if WordAt(b, at + 16) < 0x8000_0000 then WordAt(b, at + 16)
                    else WordAt(b, at + 16) - 0x1_0000_0000)
  }

  lemma SectionRead(b: seq<Byte>, at: nat, from: nat, size: nat, payload: nat, s: Section)
    requires at + 28 <= |b| && from + size <= |b|
    ensures ReadSection(b, b[from..from + size], payload, at) == Some(s)
            <==> SectionAt(b, at, from, from + size, payload, s)
  {
    hide Field, WordAt, GetString, TextAt, ValidAlignment, IsPowerOfTwo;
    PowersAre(s.alignment);
    FieldIs(b, at);
    FieldIs(b, at + 4);
    FieldIs(b, at + 8);
    FieldIs(b, at + 12);
    FieldIs(b, at + 16);
    FieldIs(b, at + 20);
    FieldIs(b, at + 24);
    if s.name.Some? {
      StringIs(b, from, size, Field(b, at), s.name.value);
    } else {
      NoText(b, from + Field(b, at), from + size);
    }
  }

  lemma NoText(b: seq<Byte>, at: nat, end: nat)
    ensures !TextAt(b, at, end, None)
  {
  }

  lemma SymbolRead(b: seq<Byte>, at: nat, from: nat, size: nat, count: nat, s: Symbol)
    requires at + 20 <= |b| && from + size <= |b|
    ensures ReadSymbol(b, b[from..from + size], count, at) == Some(s)
            <==> SymbolAt(b, at, from, from + size, count, s)
  {
    hide Field, WordAt, GetString, TextAt;
    FieldIs(b, at);
    FieldIs(b, at + 4);
    FieldIs(b, at + 8);
    FieldIs(b, at + 12);
    if s.name.Some? {
      StringIs(b, from, size, Field(b, at), s.name.value);
    } else {
      NoText(b, from + Field(b, at), from + size);
    }
  }

  lemma RelocationRead(b: seq<Byte>, at: nat, sections: seq<Section>, symbols: nat, r: Relocation)
    requires at + 20 <= |b|
    ensures ReadRelocation(b, sections, symbols, at) == Some(r) <==> RelocationAt(b, at, sections, symbols, r)
  {
    hide Field, WordAt;
    FieldIs(b, at);
    FieldIs(b, at + 4);
    FieldIs(b, at + 8);
    FieldIs(b, at + 12);
    FieldIs(b, at + 16);
  }

  // ----- the image -----

  /** The bytes describe the image: header, tables, entry and the checks on the records. */
  predicate Describes(b: seq<Byte>, image: Image) {
    && HeaderFine(b)
    && var strings, end, payload := WordAt(b, 40), WordAt(b, 40) + WordAt(b, 44), WordAt(b, 48);
    && image.kind == b[6] && |image.sections| == WordAt(b, 12) && |image.symbols| == WordAt(b, 16)
    && |image.relocations| == WordAt(b, 20)
    && (forall i :: 0 <= i < |image.sections| ==>
          SectionAt(b, WordAt(b, 28) + 28 * i, strings, end, payload, image.sections[i]))
    && (forall i :: 0 <= i < |image.symbols| ==>
          SymbolAt(b, WordAt(b, 32) + 20 * i, strings, end, |image.sections|, image.symbols[i]))
    && (forall i :: 0 <= i < |image.relocations| ==>
          RelocationAt(b, WordAt(b, 36) + 20 * i, image.sections, |image.symbols|, image.relocations[i]))
    && (if b[6] == 2 then image.entryPoint == WordAt(b, 24) && image.entrySymbol == None
        else image.entryPoint == 0
             && if WordAt(b, 24) == 0 then image.entrySymbol == None
                else TextAt(b, strings + WordAt(b, 24), end, image.entrySymbol))
    && (b[6] == 2 ==> EntersSomeText(image))
  }

  /** An executable is entered inside one of its text sections. */
  predicate EntersSomeText(image: Image) {
    exists i :: && 0 <= i < |image.sections| && image.sections[i].kind == 1
                && image.sections[i].address <= image.entryPoint < image.sections[i].address + image.sections[i].size
  }

  lemma EntryIs(image: Image)
    requires image.kind == 1 || image.kind == 2
    ensures EntryOk(image) <==>
            if image.kind == 2 then image.entryPoint != 0 && EntersSomeText(image) else image.entryPoint == 0
  {
    if image.kind == 2 && EntersSomeText(image) {
      var i :| && 0 <= i < |image.sections| && image.sections[i].kind == 1
               && image.sections[i].address <= image.entryPoint < image.sections[i].address + image.sections[i].size;
      assert InText(image.sections[i], image.entryPoint);
    }
    if image.kind == 2 && EntryOk(image) {
      var i :| 0 <= i < |image.sections| && InText(image.sections[i], image.entryPoint);
      assert image.sections[i].kind == 1;
    }
  }

  /** Reading records succeeds with a list exactly when each record reads as its element. */
  lemma {:induction false} CollectIs<T>(count: nat, read: nat -> Option<T>, s: seq<T>)
    ensures Collect(count, read) == Some(s) <==> |s| == count && forall i :: 0 <= i < count ==> read(i) == Some(s[i])
  {
    if count == 0 {
      assert |s| == 0 ==> s == [];
    } else {
      var front, last := Collect(count - 1, read), read(count - 1);
      if |s| == count { CollectIs(count - 1, read, s[..count - 1]); assert s == s[..count - 1] + [s[count - 1]]; }
      if Collect(count, read) == Some(s) {
        CollectIs(count - 1, read, front.value);
        assert s == front.value + [last.value];
      }
    }
  }

  lemma BoundsAre(b: seq<Byte>, h: Header)
    requires |b| >= 52 && h == ReadHeader(b)
    ensures HeaderFine(b) <==>
            && b[..4] == MAGIC && FromLE(b[4..6]) == 1
            && (h.kind == OBJECT || h.kind == EXECUTABLE) && b[7] == 0 && Field(b, 8) == HEADER_SIZE
            && HeaderInBounds(h, |b|) && h.stringSize != 0 && b[h.strings] == 0
            && !(h.kind == EXECUTABLE && (h.entry == 0 || h.relocationCount != 0))
  {
    hide Field, WordAt, FromLE;
    HeaderIs(b);
    VersionIs(b);
    FieldIs(b, 8);
  }

  lemma SectionsAre(b: seq<Byte>, h: Header, sections: seq<Section>)
    requires |b| >= 52 && h == ReadHeader(b) && HeaderInBounds(h, |b|)
    ensures Collect(h.sectionCount, SectionReader(b, h)) == Some(sections) <==>
            && |sections| == h.sectionCount
            && forall i :: 0 <= i < |sections| ==>
                 SectionAt(b, h.sections + 28 * i, h.strings, h.strings + h.stringSize, h.payload, sections[i])
  {
    hide ReadSection, SectionAt, Collect, ReadHeader;
    CollectIs(h.sectionCount, SectionReader(b, h), sections);
    forall i | 0 <= i < |sections| && |sections| == h.sectionCount
      ensures SectionReader(b, h)(i) == Some(sections[i]) <==>
              SectionAt(b, h.sections + 28 * i, h.strings, h.strings + h.stringSize, h.payload, sections[i])
    {
      SectionRead(b, h.sections + 28 * i, h.strings, h.stringSize, h.payload, sections[i]);
    }
  }

  lemma SymbolsAre(b: seq<Byte>, h: Header, symbols: seq<Symbol>)
    requires |b| >= 52 && h == ReadHeader(b) && HeaderInBounds(h, |b|)
    ensures Collect(h.symbolCount, SymbolReader(b, h)) == Some(symbols) <==>
            && |symbols| == h.symbolCount
            && forall i :: 0 <= i < |symbols| ==>
                 SymbolAt(b, h.symbols + 20 * i, h.strings, h.strings + h.stringSize, h.sectionCount, symbols[i])
  {
    hide ReadSymbol, SymbolAt, Collect, ReadHeader;
    CollectIs(h.symbolCount, SymbolReader(b, h), symbols);
    forall i | 0 <= i < |symbols| && |symbols| == h.symbolCount
      ensures SymbolReader(b, h)(i) == Some(symbols[i]) <==>
              SymbolAt(b, h.symbols + 20 * i, h.strings, h.strings + h.stringSize, h.sectionCount, symbols[i])
    {
      SymbolRead(b, h.symbols + 20 * i, h.strings, h.stringSize, h.sectionCount, symbols[i]);
    }
  }

  lemma RelocationsAre(b: seq<Byte>, h: Header, sections: seq<Section>, relocations: seq<Relocation>)
    requires |b| >= 52 && h == ReadHeader(b) && HeaderInBounds(h, |b|)
    ensures Collect(h.relocationCount, RelocationReader(b, h, sections)) == Some(relocations) <==>
            && |relocations| == h.relocationCount
            && forall i :: 0 <= i < |relocations| ==>
                 RelocationAt(b, h.relocations + 20 * i, sections, h.symbolCount, relocations[i])
  {
    hide ReadRelocation, RelocationAt, Collect, ReadHeader;
    CollectIs(h.relocationCount, RelocationReader(b, h, sections), relocations);
    forall i | 0 <= i < |relocations| && |relocations| == h.relocationCount
      ensures RelocationReader(b, h, sections)(i) == Some(relocations[i]) <==>
              RelocationAt(b, h.relocations + 20 * i, sections, h.symbolCount, relocations[i])
    {
      RelocationRead(b, h.relocations + 20 * i, sections, h.symbolCount, relocations[i]);
    }
  }

  lemma EntrySymbolIs(b: seq<Byte>, h: Header, entry: Option<CString>)
    requires |b| >= 52 && h == ReadHeader(b) && HeaderInBounds(h, |b|)
    ensures ReadEntrySymbol(h, Strings(b, h)) == Some(entry) <==>
            if h.kind == OBJECT && h.entry != 0 then
              TextAt(b, h.strings + h.entry, h.strings + h.stringSize, entry)
            else entry == None
  {
    hide GetString, TextAt, ReadHeader;
    if entry.Some? {
      StringIs(b, h.strings, h.stringSize, h.entry, entry.value);
    } else {
      NoText(b, h.strings + h.entry, h.strings + h.stringSize);
    }
  }

  /** The parts that the decoder reads one after another. */
  predicate ReadsAs(b: seq<Byte>, h: Header, image: Image)
    requires HeaderInBounds(h, |b|)
  {
    && ReadEntrySymbol(h, Strings(b, h)) == Some(image.entrySymbol)
    && Collect(h.sectionCount, SectionReader(b, h)) == Some(image.sections)
    && Collect(h.symbolCount, SymbolReader(b, h)) == Some(image.symbols)
    && Collect(h.relocationCount, RelocationReader(b, h, image.sections)) == Some(image.relocations)
    && image.kind == h.kind && image.entryPoint == (if h.kind == EXECUTABLE then h.entry else 0) && EntryOk(image)
  }

  lemma BodyReads(b: seq<Byte>, h: Header, image: Image)
    requires HeaderInBounds(h, |b|)
    ensures ReadBody(b, h) == Ok(image) <==> ReadsAs(b, h, image)
  {
    hide Collect, ReadEntrySymbol, EntryOk, SectionReader, SymbolReader, RelocationReader, Strings;
  }

  /** The decoder accepts an input with an image exactly when the bytes describe that image. */
  lemma DecodesDescribed(b: seq<Byte>, image: Image)
    ensures Decode(b) == Ok(image) <==> Describes(b, image)
  {
    hide WordAt, Collect, ReadEntrySymbol, EntryOk, SectionReader, SymbolReader, RelocationReader, Strings, SectionAt,
         SymbolAt, RelocationAt, TextAt, FromLE, Field, ReadBody, ReadHeader, EntersSomeText;
    if |b| >= 52 {
      var h := ReadHeader(b);
      BoundsAre(b, h);
      HeaderIs(b);
      if HeaderFine(b) {
        BodyReads(b, h, image);
        SectionsAre(b, h, image.sections);
        SymbolsAre(b, h, image.symbols);
        RelocationsAre(b, h, image.sections, image.relocations);
        EntrySymbolIs(b, h, image.entrySymbol);
        if image.kind == 1 || image.kind == 2 { EntryIs(image); }
      }
    }
  }

  /** Which error other bytes give: the first of the four groups of checks that fails. */
  lemma DecodeErrors(b: seq<Byte>)
    ensures Decode(b) == Err(BadMagic) <==> |b| < 52 || b[..4] != [0x5A, 0x4C, 0x49, 0x4D]
    ensures Decode(b) == Err(UnsupportedVersion) <==>
            |b| >= 52 && b[..4] == [0x5A, 0x4C, 0x49, 0x4D] && !(b[4] == 1 && b[5] == 0)
    ensures Decode(b) == Err(Bounds) <==>
            && |b| >= 52 && b[..4] == [0x5A, 0x4C, 0x49, 0x4D] && b[4] == 1 && b[5] == 0
            && (b[6] == 1 || b[6] == 2) && b[7] == 0 && WordAt(b, 8) == 52 && !TablesFit(b)
    ensures Decode(b).Err? ==> Decode(b).error in {BadMagic, UnsupportedVersion, Bounds, Malformed}
  {
    hide WordAt, FromLE, Field, ReadBody, ReadHeader;
    if |b| >= 52 {
      var h := ReadHeader(b);
      HeaderIs(b);
      VersionIs(b);
      FieldIs(b, 8);
      if HeaderInBounds(h, |b|) { BodyErrors(b, h); }
    }
  }

  lemma BodyErrors(b: seq<Byte>, h: Header)
    requires HeaderInBounds(h, |b|)
    ensures ReadBody(b, h).Err? ==> ReadBody(b, h).error == Malformed
  {
    hide Collect, ReadEntrySymbol, EntryOk, SectionReader, SymbolReader, RelocationReader, Strings;
  }

  /** The encoder accepts exactly the sound images that fit into 2^32 bytes. */
  lemma EncodesSound(image: Image)
    ensures Encode(image).Ok? <==>
            && (image.kind == 1 || (image.kind == 2 && image.relocations == []))
            && (forall i :: 0 <= i < |image.sections| ==>
                  SectionSound(image.sections[i])
                  && (image.sections[i].kind != 3 && image.sections[i].size != 0 ==> image.sections[i].data.Some?))
            && (forall i :: 0 <= i < |image.symbols| ==> SymbolSound(image.symbols[i], |image.sections|))
            && (forall i :: 0 <= i < |image.relocations| ==>
                  RelocationSound(image.relocations[i], image.sections, |image.symbols|))
            && (if image.kind == 2 then image.entryPoint != 0 && EntersSomeText(image) else image.entryPoint == 0)
            && TotalSize(image) <= 0xFFFF_FFFF
  {
    hide TotalSize, PayloadOffset, Written, EntersSomeText, EntryOk, ValidAlignment, IsPowerOfTwo;
    RecordsCount(image);
    if image.kind == 1 || image.kind == 2 { EntryIs(image); }
    forall i | 0 <= i < |image.sections|
      ensures SectionOk(image.sections[i]) <==>
              SectionSound(image.sections[i])
              && (image.sections[i].kind != 3 && image.sections[i].size != 0 ==> image.sections[i].data.Some?)
    {
      PowersAre(image.sections[i].alignment);
    }
  }
}
