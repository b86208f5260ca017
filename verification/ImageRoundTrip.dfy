/** Decoding undoes encoding, and re-encoding undoes decoding. */
module ImageRoundTrip {
  import opened Wrappers
  import opened Bits
  import opened Bytes
  import opened ImageFormat

  // ----- rows and words inside a flat byte string -----

  lemma {:induction false} FlattenSlice<T>(rows: seq<seq<T>>, k: nat)
    requires k < |rows|
    ensures |Flatten(rows[..k])| + |rows[k]| <= |Flatten(rows)|
    ensures Flatten(rows)[|Flatten(rows[..k])|..|Flatten(rows[..k])| + |rows[k]|] == rows[k]
  {
    var front := rows[..|rows| - 1];
    if k < |rows| - 1 {
      FlattenSlice(front, k);
      assert front[..k] == rows[..k];
    }
  }

  lemma FlattenStep<T>(rows: seq<seq<T>>, k: nat)
    requires k < |rows|
    ensures Flatten(rows[..k + 1]) == Flatten(rows[..k]) + rows[k]
  {
    assert rows[..k + 1][..k] == rows[..k];
  }

  lemma {:induction false} FlattenWidth(rows: seq<seq<Byte>>, width: nat)
    requires forall i :: 0 <= i < |rows| ==> |rows[i]| == width
    ensures |Flatten(rows)| == width * |rows|
  {
    if rows == [] {
      assert width * 0 == 0;
    } else {
      var n := |rows| - 1;
      FlattenWidth(rows[..n], width);
      OneMore(width, n);
    }
  }

  lemma OneMore(width: nat, n: nat)
    ensures width * n + width == width * (n + 1)
  {
  }

  /** `part` occurs in b at `offset`. */
  predicate At(b: seq<Byte>, offset: nat, part: seq<Byte>) {
    offset + |part| <= |b| && b[offset..offset + |part|] == part
  }

  lemma {:induction false} WordAt(values: seq<nat>, k: nat)
    requires k < |values|
    ensures At(Words(values), 4 * k, LE(values[k], 4))
  {
    if k < |values| - 1 { WordAt(values[..|values| - 1], k); }
  }

  /** Offsets are passed already added up, so that callers and lemmas name the same term. */
  lemma AtInner(b: seq<Byte>, offset: nat, whole: seq<Byte>, inner: nat, part: seq<Byte>, at: nat)
    requires At(b, offset, whole) && At(whole, inner, part) && at == offset + inner
    ensures At(b, at, part)
  {
    var s := b[at..at + |part|];
    forall i | 0 <= i < |part| ensures s[i] == part[i] {
      assert s[i] == b[offset..offset + |whole|][inner + i];
      assert part[i] == whole[inner..inner + |part|][i];
    }
    assert s == part;
  }

  lemma AtMiddle(a: seq<Byte>, part: seq<Byte>, c: seq<Byte>)
    ensures At(a + part + c, |a|, part)
  {
  }

  /** Reading a field of a record that holds the given words. */
  lemma FieldIs(input: seq<Byte>, offset: nat, values: seq<nat>, k: nat, at: nat)
    requires k < |values| && values[k] < WORD_RANGE
    requires At(input, offset, Words(values)) && at == offset + 4 * k
    ensures at + 4 <= |input| && Field(input, at) == values[k]
  {
    WordAt(values, k);
    AtInner(input, offset, Words(values), 4 * k, LE(values[k], 4), at);
    FieldHere(input, at, values[k]);
  }

  lemma FieldHere(input: seq<Byte>, at: nat, value: Word)
    requires At(input, at, LE(value, 4))
    ensures at + 4 <= |input| && Field(input, at) == value
  {
    ReadBackWord(value);
  }

  // ----- where the parts of a written image lie -----

  lemma RegionSizes(image: Image)
    ensures |Flatten(SectionRows(image))| == 28 * |image.sections|
    ensures |Flatten(SymbolRows(image))| == 20 * |image.symbols|
    ensures |Flatten(RelocationRows(image))| == 20 * |image.relocations|
    ensures |Written(image)| == TotalSize(image)
  {
    FlattenWidth(SectionRows(image), 28);
    FlattenWidth(SymbolRows(image), 20);
    FlattenWidth(RelocationRows(image), 20);
  }

  lemma Regions(image: Image)
    ensures var b := Written(image);
            && At(b, 0, HeaderBytes(image, EntryField(image)))
            && At(b, HEADER_SIZE, Flatten(SectionRows(image)))
            && At(b, SymbolOffset(image), Flatten(SymbolRows(image)))
            && At(b, RelocationOffset(image), Flatten(RelocationRows(image)))
            && At(b, StringOffset(image), StringTable(image))
            && At(b, PayloadOffset(image), Payload(image))
  {
    RegionSizes(image);
    SixParts(HeaderBytes(image, EntryField(image)), Flatten(SectionRows(image)), Flatten(SymbolRows(image)),
             Flatten(RelocationRows(image)), StringTable(image), Payload(image),
             HEADER_SIZE, SymbolOffset(image), RelocationOffset(image), StringOffset(image), PayloadOffset(image));
  }

  lemma SixParts(a: seq<Byte>, b: seq<Byte>, c: seq<Byte>, d: seq<Byte>, e: seq<Byte>, f: seq<Byte>,
                 ob: nat, oc: nat, od: nat, oe: nat, of: nat)
    requires ob == |a| && oc == ob + |b| && od == oc + |c| && oe == od + |d| && of == oe + |e|
    ensures var whole := a + b + c + d + e + f;
            At(whole, 0, a) && At(whole, ob, b) && At(whole, oc, c) && At(whole, od, d) && At(whole, oe, e)
              && At(whole, of, f)
  {
    hide At;
    var ab, abc, abcd, abcde := a + b, a + b + c, a + b + c + d, a + b + c + d + e;
    assert [] + a == a;
    AtEnd([], a);
    AtEnd(a, b);
    AtEnd(ab, c);
    AtEnd(abc, d);
    AtEnd(abcd, e);
    AtEnd(abcde, f);
    AtAppended(a, b, 0, a);
    KeptTwice(ab, c, d, 0, a);
    KeptTwice(ab, c, d, ob, b);
    AtAppended(abc, d, oc, c);
    KeptTwice(abcd, e, f, 0, a);
    KeptTwice(abcd, e, f, ob, b);
    KeptTwice(abcd, e, f, oc, c);
    KeptTwice(abcd, e, f, od, d);
    AtAppended(abcde, f, oe, e);
  }

  lemma AtEnd(b: seq<Byte>, part: seq<Byte>)
    ensures At(b + part, |b|, part)
  {
  }

  lemma AtAppended(b: seq<Byte>, more: seq<Byte>, at: nat, part: seq<Byte>)
    requires At(b, at, part)
    ensures At(b + more, at, part)
  {
    assert (b + more)[at..at + |part|] == b[at..at + |part|];
  }

  lemma KeptTwice(b: seq<Byte>, more: seq<Byte>, again: seq<Byte>, at: nat, part: seq<Byte>)
    requires At(b, at, part)
    ensures At(b + more, at, part) && At(b + more + again, at, part)
  {
    hide At;
    AtAppended(b, more, at, part);
    AtAppended(b + more, again, at, part);
  }

  /** A row of fixed width inside the region that holds all rows. */
  lemma RowAt(b: seq<Byte>, start: nat, rows: seq<seq<Byte>>, width: nat, i: nat, at: nat)
    requires i < |rows| && (forall j :: 0 <= j < |rows| ==> |rows[j]| == width)
    requires At(b, start, Flatten(rows)) && at == start + width * i
    ensures At(b, at, rows[i])
  {
    FlattenWidth(rows[..i], width);
    FlattenSlice(rows, i);
    AtInner(b, start, Flatten(rows), |Flatten(rows[..i])|, rows[i], at);
  }

  // ----- strings -----

  lemma {:induction false} FindNulAt(s: seq<Byte>, from: nat, at: nat)
    requires from <= at < |s| && s[at] == 0
    requires forall i :: from <= i < at ==> s[i] != 0
    ensures FindNul(s, from) == Some(at)
    decreases at - from
  {
    if from < at { FindNulAt(s, from + 1, at); }
  }

  lemma StringAt(table: seq<Byte>, at: nat, name: CString)
    requires At(table, at, Terminated(name))
    ensures GetString(table, at) == Some(name)
  {
    var s := table[at..at + |name| + 1];
    forall i | at <= i < at + |name| ensures table[i] == name[i - at] {
      assert table[i] == s[i - at];
    }
    assert table[at + |name|] == s[|name|];
    FindNulAt(table, at, at + |name|);
    assert table[at..at + |name|] == name;
  }

  /** The k-th name is found again at its table offset. */
  lemma NameReadsBack(image: Image, k: nat)
    requires k < |Names(image)|
    ensures NameOffset(image, k) < |StringTable(image)|
    ensures GetString(StringTable(image), NameOffset(image, k)) == Some(Names(image)[k])
  {
    var rows := NameRows(Names(image));
    FlattenSlice(rows, k);
    AtMiddle([0], Flatten(rows), []);
    assert [0] + Flatten(rows) + [] == StringTable(image);
    AtInner(StringTable(image), 1, Flatten(rows), NameOffset(image, k) - 1, rows[k], NameOffset(image, k));
    StringAt(StringTable(image), NameOffset(image, k), Names(image)[k]);
  }

  lemma NamesOf(image: Image)
    ensures forall i :: 0 <= i < |image.sections| ==> Names(image)[i] == TextOf(image.sections[i].name)
    ensures forall i :: 0 <= i < |image.symbols| ==> Names(image)[|image.sections| + i] == TextOf(image.symbols[i].name)
    ensures EntryNames(image) != [] ==> Names(image)[|image.sections| + |image.symbols|] == EntryNames(image)[0]
  {
  }

  lemma NameOffsetFits(image: Image, k: nat)
    requires Refusal(image).None? && k < |Names(image)|
    ensures NameOffset(image, k) < WORD_RANGE
  {
    NameReadsBack(image, k);
  }

  lemma {:induction false} FlattenPrefix(rows: seq<seq<Byte>>, k: nat)
    requires k < |rows|
    ensures |Flatten(rows[..k])| + |rows[k]| <= |Flatten(rows)|
    ensures At(Flatten(rows), |Flatten(rows[..k])|, rows[k])
  {
    FlattenSlice(rows, k);
  }

  lemma DataOffsetFits(image: Image, i: nat)
    requires Refusal(image).None? && i < |image.sections|
    ensures PayloadOffset(image) <= DataOffset(image, i)
    ensures DataOffset(image, i) + |Stored(image.sections[i])| <= TotalSize(image) < WORD_RANGE
  {
    FlattenPrefix(PayloadRows(image), i);
  }

  // ----- every record reads back -----

  lemma AtIndex(b: seq<Byte>, at: nat, part: seq<Byte>, i: nat)
    requires At(b, at, part) && i < |part|
    ensures at + i < |b| && b[at + i] == part[i]
  {
    assert b[at..at + |part|][i] == b[at + i];
  }

  lemma AtFront(b: seq<Byte>, at: nat, front: seq<Byte>, back: seq<Byte>)
    requires At(b, at, front + back)
    ensures At(b, at, front) && At(b, at + |front|, back)
  {
    AtMiddle([], front, back);
    AtMiddle(front, back, []);
    assert [] + front + back == front + back && front + back + [] == front + back;
    AtInner(b, at, front + back, 0, front, at);
    AtInner(b, at, front + back, |front|, back, at + |front|);
  }

  lemma PrefixParts(b: seq<Byte>, start: seq<Byte>, kind: Byte)
    requires start == MAGIC + LE(1, 2) + [kind, 0] && At(b, 0, start)
    ensures |b| >= 8 && b[..4] == MAGIC && FromLE(b[4..6]) == 1 && b[6] == kind && b[7] == 0
  {
    assert LE(1, 2) == [1, 0];
    assert start == [0x5A, 0x4C, 0x49, 0x4D, 1, 0, kind, 0];
    AtIndex(b, 0, start, 6);
    AtIndex(b, 0, start, 7);
    assert b[..8] == start;
    assert b[..4] == b[..8][..4] == MAGIC;
    assert b[4..6] == b[..8][4..6] == [1, 0];
    assert FromLE([1, 0]) == 1;
  }

  lemma HeaderFields(b: seq<Byte>, w: seq<nat>)
    requires |w| == 11 && At(b, 8, Words(w)) && forall k :: 0 <= k < 11 ==> w[k] < WORD_RANGE
    ensures |b| >= HEADER_SIZE && Field(b, 8) == w[0]
    ensures ReadHeader(b) == Header(b[6], w[1], w[2], w[3], w[4], w[5], w[6], w[7], w[8], w[9], w[10])
  {
    FieldIs(b, 8, w, 0, 8);
    FieldIs(b, 8, w, 1, 12);
    FieldIs(b, 8, w, 2, 16);
    FieldIs(b, 8, w, 3, 20);
    FieldIs(b, 8, w, 4, 24);
    FieldIs(b, 8, w, 5, 28);
    FieldIs(b, 8, w, 6, 32);
    FieldIs(b, 8, w, 7, 36);
    FieldIs(b, 8, w, 8, 40);
    FieldIs(b, 8, w, 9, 44);
    FieldIs(b, 8, w, 10, 48);
  }

  lemma HeaderFromBytes(b: seq<Byte>, kind: Byte, w: seq<nat>)
    requires |w| == 11 && w[0] == HEADER_SIZE && forall k :: 0 <= k < 11 ==> w[k] < WORD_RANGE
    requires At(b, 0, MAGIC + LE(1, 2) + [kind, 0] + Words(w))
    ensures |b| >= HEADER_SIZE && b[..4] == MAGIC && FromLE(b[4..6]) == 1 && b[7] == 0 && Field(b, 8) == HEADER_SIZE
    ensures ReadHeader(b) == Header(kind, w[1], w[2], w[3], w[4], w[5], w[6], w[7], w[8], w[9], w[10])
  {
    var start := MAGIC + LE(1, 2) + [kind, 0];
    AtFront(b, 0, start, Words(w));
    PrefixParts(b, start, kind);
    HeaderFields(b, w);
  }

  lemma SectionFromRecord(b: seq<Byte>, strings: seq<Byte>, payload: nat, at: nat, s: Section, name: nat, data: nat)
    requires name < WORD_RANGE && payload <= data && |b| < WORD_RANGE && SectionOk(s)
    requires At(b, at, SectionRecord(s, name, data))
    requires GetString(strings, name) == Some(TextOf(s.name))
    requires At(b, data, Stored(s)) && (s.kind != BSS ==> |Stored(s)| == s.size)
    ensures ReadSection(b, strings, payload, at) == Some(NormalSection(s))
  {
    hide LE, FromLE, Words, Field, GetString, And;
    var w := [name, s.kind, s.flags, s.alignment, s.address, data, s.size];
    FieldIs(b, at, w, 0, at);
    FieldIs(b, at, w, 1, at + 4);
    FieldIs(b, at, w, 2, at + 8);
    FieldIs(b, at, w, 3, at + 12);
    FieldIs(b, at, w, 4, at + 16);
    FieldIs(b, at, w, 5, at + 20);
    FieldIs(b, at, w, 6, at + 24);
  }

  lemma SymbolFromRecord(b: seq<Byte>, strings: seq<Byte>, count: nat, at: nat, s: Symbol, name: nat)
    requires name < WORD_RANGE && SymbolOk(s, count)
    requires At(b, at, SymbolRecord(s, name))
    requires GetString(strings, name) == Some(TextOf(s.name))
    ensures ReadSymbol(b, strings, count, at) == Some(NormalSymbol(s))
  {
    var w, tail := [name, s.section, s.value, s.size], [s.binding, s.kind, 0, 0];
    AtFront(b, at, Words(w), tail);
    FieldIs(b, at, w, 0, at);
    FieldIs(b, at, w, 1, at + 4);
    FieldIs(b, at, w, 2, at + 8);
    FieldIs(b, at, w, 3, at + 12);
    AtIndex(b, at + 16, tail, 0);
    AtIndex(b, at + 16, tail, 1);
    AtIndex(b, at + 16, tail, 2);
    AtIndex(b, at + 16, tail, 3);
  }

  lemma RelocationFromRecord(b: seq<Byte>, sections: seq<Section>, count: nat, at: nat, r: Relocation)
    requires At(b, at, RelocationRecord(r)) && RelocationOk(r, sections, count)
    ensures ReadRelocation(b, sections, count, at) == Some(r)
  {
    var w := [r.section, r.offset, r.kind, r.symbol, Unsigned(r.addend)];
    FieldIs(b, at, w, 0, at);
    FieldIs(b, at, w, 1, at + 4);
    FieldIs(b, at, w, 2, at + 8);
    FieldIs(b, at, w, 3, at + 12);
    FieldIs(b, at, w, 4, at + 16);
  }

  // ----- and so do the tables -----

  lemma {:induction false} CollectIs<T>(count: nat, read: nat -> Option<T>, expected: seq<T>)
    requires count <= |expected| && forall i :: 0 <= i < |expected| ==> read(i) == Some(expected[i])
    ensures Collect(count, read) == Some(expected[..count])
  {
    if count > 0 {
      CollectIs(count - 1, read, expected);
      assert expected[..count] == expected[..count - 1] + [expected[count - 1]];
    }
  }

  /** Where an encoder put things: the offsets it chose, as plain numbers. */
  datatype Plan = Plan(symbols: nat, relocations: nat, strings: nat, table: seq<Byte>, payload: nat, entry: nat,
                       names: seq<nat>, datas: seq<nat>)

  function PlanOf(image: Image): Plan {
    Plan(SymbolOffset(image), RelocationOffset(image), StringOffset(image), StringTable(image), PayloadOffset(image),
         EntryField(image),
         seq(|Names(image)|, k requires 0 <= k < |Names(image)| => NameOffset(image, k)),
         seq(|image.sections|, i requires 0 <= i < |image.sections| => DataOffset(image, i)))
  }

  /** The tables are laid out in order inside the buffer. */
  predicate Ordered(image: Image, p: Plan, size: nat) {
    && p.symbols == HEADER_SIZE + 28 * |image.sections|
    && p.relocations == p.symbols + 20 * |image.symbols|
    && p.strings == p.relocations + 20 * |image.relocations|
    && |p.table| > 0 && p.table[0] == 0 && p.payload == p.strings + |p.table|
    && p.payload <= size < WORD_RANGE
    && p.entry < WORD_RANGE
    && |image.sections| + |image.symbols| <= |p.names|
    && |image.sections| == |p.datas|
    && (forall k :: 0 <= k < |p.names| ==> p.names[k] < WORD_RANGE)
    && (forall i :: 0 <= i < |p.datas| ==> p.payload <= p.datas[i])
  }

  /** Every name is found again at the offset planned for it. */
  predicate NamesReadable(image: Image, p: Plan) {
    && |image.sections| + |image.symbols| <= |p.names|
    && (forall i :: 0 <= i < |image.sections| ==>
          GetString(p.table, p.names[i]) == Some(TextOf(image.sections[i].name)))
    && (forall i :: 0 <= i < |image.symbols| ==>
          GetString(p.table, p.names[|image.sections| + i]) == Some(TextOf(image.symbols[i].name)))
    && (if image.kind == OBJECT && image.entrySymbol.Some?
        then p.entry != 0 && GetString(p.table, p.entry) == Some(image.entrySymbol.value)
        else p.entry == image.entryPoint)
  }

  predicate HeaderPlaced(image: Image, p: Plan, b: seq<Byte>) {
    && At(b, 0, MAGIC + LE(1, 2) + [image.kind, 0] + Words(PlanWords(image, p)))
    && At(b, p.strings, p.table)
  }

  predicate SectionsPlaced(image: Image, p: Plan, b: seq<Byte>) {
    && |image.sections| <= |p.names| && |image.sections| == |p.datas|
    && (forall i :: 0 <= i < |image.sections| ==>
          && At(b, HEADER_SIZE + 28 * i, SectionRecord(image.sections[i], p.names[i], p.datas[i]))
          && At(b, p.datas[i], Stored(image.sections[i])))
  }

  predicate SymbolsPlaced(image: Image, p: Plan, b: seq<Byte>) {
    && |image.sections| + |image.symbols| <= |p.names|
    && (forall i :: 0 <= i < |image.symbols| ==>
          At(b, p.symbols + 20 * i, SymbolRecord(image.symbols[i], p.names[|image.sections| + i])))
  }

  predicate RelocationsPlaced(image: Image, p: Plan, b: seq<Byte>) {
    forall i :: 0 <= i < |image.relocations| ==>
      At(b, p.relocations + 20 * i, RelocationRecord(image.relocations[i]))
  }

  /** Every part of the image is in the buffer at the offset planned for it. */
  predicate Placed(image: Image, p: Plan, b: seq<Byte>) {
    HeaderPlaced(image, p, b) && SectionsPlaced(image, p, b) && SymbolsPlaced(image, p, b)
      && RelocationsPlaced(image, p, b)
  }

  function PlanWords(image: Image, p: Plan): (w: seq<nat>)
    ensures |w| == 11
  {
    [HEADER_SIZE, |image.sections|, |image.symbols|, |image.relocations|, p.entry, HEADER_SIZE,
     p.symbols, p.relocations, p.strings, |p.table|, p.payload]
  }

  lemma NormalEntryOk(image: Image)
    requires EntryOk(image)
    ensures EntryOk(Normal(image))
  {
    if image.kind == EXECUTABLE {
      var i :| 0 <= i < |image.sections| && InText(image.sections[i], image.entryPoint);
      assert InText(Normal(image).sections[i], image.entryPoint);
    }
  }

  lemma PlanHeader(image: Image, p: Plan, b: seq<Byte>) returns (h: Header)
    requires Ordered(image, p, |b|) && HeaderPlaced(image, p, b)
    ensures |b| >= HEADER_SIZE && b[..4] == MAGIC && FromLE(b[4..6]) == 1 && b[7] == 0 && Field(b, 8) == HEADER_SIZE
    ensures h == ReadHeader(b)
    ensures h == Header(image.kind, |image.sections|, |image.symbols|, |image.relocations|, p.entry, HEADER_SIZE,
                        p.symbols, p.relocations, p.strings, |p.table|, p.payload)
    ensures HeaderInBounds(h, |b|) && Strings(b, h) == p.table
  {
    var w := PlanWords(image, p);
    assert forall k :: 0 <= k < 11 ==> w[k] < WORD_RANGE;
    HeaderFromBytes(b, image.kind, w);
    h := ReadHeader(b);
  }

  /** h is the header of a buffer that follows plan p. */
  predicate Heads(h: Header, image: Image, p: Plan, b: seq<Byte>) {
    && HeaderInBounds(h, |b|) && Strings(b, h) == p.table && h.payload == p.payload
    && h.sections == HEADER_SIZE && h.symbols == p.symbols && h.relocations == p.relocations
    && h.sectionCount == |image.sections| && h.symbolCount == |image.symbols|
       && h.relocationCount == |image.relocations|
  }

  lemma SectionAt(b: seq<Byte>, h: Header, i: nat, s: Section, name: nat, data: nat)
    requires HeaderInBounds(h, |b|) && name < WORD_RANGE && h.payload <= data && |b| < WORD_RANGE && SectionOk(s)
    requires At(b, h.sections + 28 * i, SectionRecord(s, name, data))
    requires GetString(Strings(b, h), name) == Some(TextOf(s.name))
    requires At(b, data, Stored(s)) && (s.kind != BSS ==> |Stored(s)| == s.size)
    ensures SectionReader(b, h)(i) == Some(NormalSection(s))
  {
    hide ReadSection, SectionRecord, GetString, SectionOk, Stored, NormalSection, Strings;
    var at := h.sections + 28 * i;
    SectionFromRecord(b, Strings(b, h), h.payload, at, s, name, data);
    assert SectionReader(b, h)(i) == ReadSection(b, Strings(b, h), h.payload, at);
  }

  lemma SymbolAt(b: seq<Byte>, h: Header, i: nat, s: Symbol, name: nat)
    requires HeaderInBounds(h, |b|) && name < WORD_RANGE && SymbolOk(s, h.sectionCount)
    requires At(b, h.symbols + 20 * i, SymbolRecord(s, name))
    requires GetString(Strings(b, h), name) == Some(TextOf(s.name))
    ensures SymbolReader(b, h)(i) == Some(NormalSymbol(s))
  {
    hide ReadSymbol, SymbolRecord, GetString, NormalSymbol, Strings, SymbolOk;
    var at := h.symbols + 20 * i;
    SymbolFromRecord(b, Strings(b, h), h.sectionCount, at, s, name);
    assert SymbolReader(b, h)(i) == ReadSymbol(b, Strings(b, h), h.sectionCount, at);
  }

  lemma RelocationAt(b: seq<Byte>, h: Header, sections: seq<Section>, i: nat, r: Relocation)
    requires HeaderInBounds(h, |b|) && RelocationOk(r, sections, h.symbolCount)
    requires At(b, h.relocations + 20 * i, RelocationRecord(r))
    ensures RelocationReader(b, h, sections)(i) == Some(r)
  {
    var at := h.relocations + 20 * i;
    RelocationFromRecord(b, sections, h.symbolCount, at, r);
    assert RelocationReader(b, h, sections)(i) == ReadRelocation(b, sections, h.symbolCount, at);
  }

  lemma SectionsReadBack(image: Image, p: Plan, b: seq<Byte>, h: Header)
    requires Ordered(image, p, |b|) && SectionsPlaced(image, p, b) && NamesReadable(image, p) && Heads(h, image, p, b)
    requires RecordsOk(image) && Readable(image)
    ensures Collect(h.sectionCount, SectionReader(b, h)) == Some(Normal(image).sections)
  {
    var expected := Normal(image).sections;
    forall i | 0 <= i < |expected| ensures SectionReader(b, h)(i) == Some(expected[i]) {
      var s := image.sections[i];
      assert s in image.sections && SectionOk(s);
      SectionAt(b, h, i, s, p.names[i], p.datas[i]);
    }
    CollectIs(h.sectionCount, SectionReader(b, h), expected);
    assert expected[..h.sectionCount] == expected;
  }

  lemma SymbolsReadBack(image: Image, p: Plan, b: seq<Byte>, h: Header)
    requires Ordered(image, p, |b|) && SymbolsPlaced(image, p, b) && NamesReadable(image, p) && Heads(h, image, p, b)
    requires RecordsOk(image)
    ensures Collect(h.symbolCount, SymbolReader(b, h)) == Some(Normal(image).symbols)
  {
    hide SymbolReader, SymbolRecord, GetString, SymbolOk, Collect;
    var expected := Normal(image).symbols;
    forall i | 0 <= i < |expected| ensures SymbolReader(b, h)(i) == Some(expected[i]) {
      assert SymbolOk(image.symbols[i], |image.sections|);
      SymbolAt(b, h, i, image.symbols[i], p.names[|image.sections| + i]);
    }
    CollectIs(h.symbolCount, SymbolReader(b, h), expected);
    assert expected[..h.symbolCount] == expected;
  }

  lemma RelocationsReadBack(image: Image, p: Plan, b: seq<Byte>, h: Header)
    requires RelocationsPlaced(image, p, b) && Heads(h, image, p, b) && RecordsOk(image)
    ensures Collect(h.relocationCount, RelocationReader(b, h, Normal(image).sections)) == Some(image.relocations)
  {
    var expected, sections := image.relocations, Normal(image).sections;
    forall i | 0 <= i < |expected| ensures RelocationReader(b, h, sections)(i) == Some(expected[i]) {
      assert RelocationOk(expected[i], image.sections, |image.symbols|);
      RelocationAt(b, h, sections, i, expected[i]);
    }
    CollectIs(h.relocationCount, RelocationReader(b, h, sections), expected);
    assert expected[..h.relocationCount] == expected;
  }

  /** A buffer that follows a plan decodes to the normalised image. */
  lemma DecodePlan(image: Image, p: Plan, b: seq<Byte>)
    requires Ordered(image, p, |b|) && Placed(image, p, b) && NamesReadable(image, p)
    requires Structural(image) && Readable(image)
    ensures Decode(b) == Ok(Normal(image))
  {
    hide Collect, Field, SectionReader, SymbolReader, RelocationReader, EntryOk, Readable, GetString, SectionsPlaced,
         SymbolsPlaced, RelocationsPlaced;
    var h := PlanHeader(image, p, b);
    SectionsReadBack(image, p, b, h);
    SymbolsReadBack(image, p, b, h);
    RelocationsReadBack(image, p, b, h);
    NormalEntryOk(image);
    AtIndex(b, p.strings, p.table, 0);
  }

  // ----- a written image follows its plan -----

  lemma PlanIsOrdered(image: Image)
    requires Refusal(image).None?
    ensures Ordered(image, PlanOf(image), TotalSize(image))
  {
    EntryFieldFits(image);
    forall k | 0 <= k < |Names(image)| ensures NameOffset(image, k) < WORD_RANGE { NameOffsetFits(image, k); }
    forall i | 0 <= i < |image.sections| ensures PayloadOffset(image) <= DataOffset(image, i) {
      DataOffsetFits(image, i);
    }
  }

  lemma EntryFieldFits(image: Image)
    requires Refusal(image).None?
    ensures EntryField(image) < WORD_RANGE
  {
    if EntryNames(image) != [] { NameOffsetFits(image, |image.sections| + |image.symbols|); }
  }

  lemma PlanNames(image: Image)
    ensures NamesReadable(image, PlanOf(image))
  {
    hide GetString, StringTable;
    NamesOf(image);
    forall k | 0 <= k < |Names(image)|
      ensures GetString(StringTable(image), NameOffset(image, k)) == Some(Names(image)[k])
    {
      NameReadsBack(image, k);
    }
  }

  lemma PlanSections(image: Image, p: Plan, b: seq<Byte>)
    requires p == PlanOf(image) && At(b, HEADER_SIZE, Flatten(SectionRows(image))) && At(b, p.payload, Payload(image))
    ensures SectionsPlaced(image, p, b)
  {
    hide At, Flatten, SectionRecord, NameOffset, DataOffset, EntryField, StringTable, Names, Payload, Stored;
    forall i | 0 <= i < |image.sections|
      ensures At(b, HEADER_SIZE + 28 * i, SectionRecord(image.sections[i], p.names[i], p.datas[i]))
      ensures At(b, p.datas[i], Stored(image.sections[i]))
    {
      RowAt(b, HEADER_SIZE, SectionRows(image), 28, i, HEADER_SIZE + 28 * i);
      DataReadsBack(image, b, i);
    }
  }

  lemma DataReadsBack(image: Image, b: seq<Byte>, i: nat)
    requires At(b, PayloadOffset(image), Payload(image)) && i < |image.sections|
    ensures At(b, DataOffset(image, i), Stored(image.sections[i]))
  {
    var rows := PayloadRows(image);
    FlattenPrefix(rows, i);
    AtInner(b, PayloadOffset(image), Payload(image), |Flatten(rows[..i])|, rows[i], DataOffset(image, i));
  }

  lemma PlanSymbols(image: Image, p: Plan, b: seq<Byte>)
    requires p == PlanOf(image) && At(b, p.symbols, Flatten(SymbolRows(image)))
    ensures SymbolsPlaced(image, p, b)
  {
    hide At, Flatten, SymbolRecord, NameOffset, DataOffset, EntryField, StringTable, Names;
    forall i | 0 <= i < |image.symbols|
      ensures At(b, p.symbols + 20 * i, SymbolRecord(image.symbols[i], p.names[|image.sections| + i]))
    {
      RowAt(b, p.symbols, SymbolRows(image), 20, i, p.symbols + 20 * i);
      assert p.names[|image.sections| + i] == SymbolNameOffset(image, i);
    }
  }

  lemma PlanRelocations(image: Image, p: Plan, b: seq<Byte>)
    requires p == PlanOf(image) && At(b, p.relocations, Flatten(RelocationRows(image)))
    ensures RelocationsPlaced(image, p, b)
  {
    hide At, Flatten, RelocationRecord, NameOffset, DataOffset, EntryField, StringTable, Names;
    forall i | 0 <= i < |image.relocations|
      ensures At(b, p.relocations + 20 * i, RelocationRecord(image.relocations[i]))
    {
      RowAt(b, p.relocations, RelocationRows(image), 20, i, p.relocations + 20 * i);
    }
  }

  lemma PlanHolds(image: Image, p: Plan, b: seq<Byte>)
    requires p == PlanOf(image) && b == Written(image)
    ensures |b| == TotalSize(image) && Placed(image, p, b)
  {
    RegionSizes(image);
    Regions(image);
    PlanSections(image, p, b);
    PlanSymbols(image, p, b);
    PlanRelocations(image, p, b);
  }

  lemma PlanFits(image: Image, b: seq<Byte>) returns (p: Plan)
    requires Refusal(image).None? && b == Written(image)
    ensures Ordered(image, p, |b|) && Placed(image, p, b) && NamesReadable(image, p)
  {
    p := PlanOf(image);
    PlanHolds(image, p, b);
    PlanIsOrdered(image);
    PlanNames(image);
  }

  lemma Accepted(image: Image)
    requires Encode(image).Ok?
    ensures Refusal(image).None? && Structural(image) && Encode(image) == Ok(Written(image))
  {
    hide RecordsOk, EntryOk, Written, TotalSize, PayloadOffset;
  }

  lemma FollowsPlan(image: Image) returns (p: Plan, b: seq<Byte>)
    requires Encode(image).Ok?
    ensures Encode(image) == Ok(b) && Structural(image)
    ensures Ordered(image, p, |b|) && Placed(image, p, b) && NamesReadable(image, p)
  {
    Accepted(image);
    b := Written(image);
    p := PlanFits(image, b);
  }

  /** An image the encoder accepts is decoded again, up to normalisation. */
  lemma DecodeEncode(image: Image)
    requires Readable(image) && Encode(image).Ok?
    ensures Decode(Encode(image).value) == Ok(Normal(image))
  {
    var p, b := FollowsPlan(image);
    DecodePlan(image, p, b);
  }

  // ----- re-encoding -----

  lemma NormalNames(image: Image)
    ensures Names(Normal(image)) == Names(image)
    ensures PayloadRows(Normal(image)) == PayloadRows(image)
  {
  }

  lemma NormalTable(image: Image)
    ensures StringTable(Normal(image)) == StringTable(image)
    ensures forall k :: 0 <= k <= |Names(image)| ==> NameOffset(Normal(image), k) == NameOffset(image, k)
    ensures Payload(Normal(image)) == Payload(image)
    ensures forall i :: 0 <= i <= |image.sections| ==> DataOffset(Normal(image), i) == DataOffset(image, i)
  {
    NormalNames(image);
  }

  lemma NormalSectionRows(image: Image)
    ensures SectionRows(Normal(image)) == SectionRows(image)
  {
    NormalTable(image);
    var rows, rows' := SectionRows(image), SectionRows(Normal(image));
    forall i | 0 <= i < |rows| ensures rows[i] == rows'[i] {
      SameSectionRecord(image.sections[i], NameOffset(image, i), DataOffset(image, i));
    }
  }

  lemma SameSectionRecord(s: Section, name: nat, data: nat)
    ensures SectionRecord(NormalSection(s), name, data) == SectionRecord(s, name, data)
  {
  }

  lemma NormalSymbolRows(image: Image)
    ensures SymbolRows(Normal(image)) == SymbolRows(image)
  {
    var rows, rows' := SymbolRows(image), SymbolRows(Normal(image));
    forall i | 0 <= i < |rows| ensures rows'[i] == rows[i] {
      NormalSymbolName(image, i);
      SameSymbolRecord(image.symbols[i], SymbolNameOffset(image, i));
    }
  }

  lemma NormalSymbolName(image: Image, i: nat)
    requires i < |image.symbols|
    ensures SymbolNameOffset(Normal(image), i) == SymbolNameOffset(image, i)
  {
    NormalNames(image);
  }

  lemma SameSymbolRecord(s: Symbol, name: nat)
    ensures SymbolRecord(NormalSymbol(s), name) == SymbolRecord(s, name)
  {
  }

  lemma NormalHeader(image: Image)
    ensures HeaderBytes(Normal(image), EntryField(Normal(image))) == HeaderBytes(image, EntryField(image))
  {
    NormalTable(image);
    NormalNames(image);
    assert EntryField(Normal(image)) == EntryField(image);
    assert HeaderWords(Normal(image), EntryField(Normal(image))) == HeaderWords(image, EntryField(image));
  }

  lemma NormalWritten(image: Image)
    ensures Written(Normal(image)) == Written(image)
  {
    NormalHeader(image);
    NormalSectionRows(image);
    NormalSymbolRows(image);
    NormalTable(image);
  }

  lemma NormalAccepted(image: Image)
    requires Refusal(image).None?
    ensures Refusal(Normal(image)).None?
  {
    NormalTable(image);
    NormalRecords(image);
    NormalEntryOk(image);
  }

  lemma NormalRecords(image: Image)
    requires RecordsOk(image)
    ensures RecordsOk(Normal(image))
  {
    var n := Normal(image);
    forall i | 0 <= i < |n.sections| ensures SectionOk(n.sections[i]) { assert SectionOk(image.sections[i]); }
    forall i | 0 <= i < |n.symbols| ensures SymbolOk(n.symbols[i], |n.sections|) {
      assert SymbolOk(image.symbols[i], |image.sections|);
    }
    forall i | 0 <= i < |n.relocations| ensures RelocationOk(n.relocations[i], n.sections, |n.symbols|) {
      assert RelocationOk(image.relocations[i], image.sections, |image.symbols|);
    }
  }

  /** Re-encoding what was decoded gives the same bytes. */
  lemma EncodeNormal(image: Image)
    requires Encode(image).Ok?
    ensures Encode(Normal(image)) == Encode(image)
  {
    NormalWritten(image);
    NormalAccepted(image);
  }

  // ----- arbitrary input -----

  lemma {:induction false} CollectElement<T>(count: nat, read: nat -> Option<T>, i: nat)
    requires i < count && Collect(count, read).Some?
    ensures read(i) == Some(Collect(count, read).value[i])
  {
    if i < count - 1 { CollectElement(count - 1, read, i); }
  }

  predicate NormalForm(s: Section) {
    s.name.Some? && s.data.Some? && |s.data.value| == s.size && (s.kind == BSS ==> s.data == Some(Zeros(s.size)))
  }

  lemma DecodedSection(input: seq<Byte>, h: Header, i: nat)
    requires HeaderInBounds(h, |input|) && SectionReader(input, h)(i).Some?
    ensures var s := SectionReader(input, h)(i).value; SectionOk(s) && NormalForm(s)
  {
  }

  lemma DecodedSymbol(input: seq<Byte>, h: Header, i: nat)
    requires HeaderInBounds(h, |input|) && SymbolReader(input, h)(i).Some?
    ensures var s := SymbolReader(input, h)(i).value; SymbolOk(s, h.sectionCount) && s.name.Some?
  {
  }

  lemma DecodedRelocation(input: seq<Byte>, h: Header, sections: seq<Section>, i: nat)
    requires HeaderInBounds(h, |input|) && RelocationReader(input, h, sections)(i).Some?
    ensures RelocationOk(RelocationReader(input, h, sections)(i).value, sections, h.symbolCount)
  {
  }

  lemma DecodedRecords(input: seq<Byte>, h: Header, image: Image)
    requires HeaderInBounds(h, |input|)
    requires Collect(h.sectionCount, SectionReader(input, h)) == Some(image.sections)
    requires Collect(h.symbolCount, SymbolReader(input, h)) == Some(image.symbols)
    requires Collect(h.relocationCount, RelocationReader(input, h, image.sections)) == Some(image.relocations)
    ensures RecordsOk(image)
    ensures forall i :: 0 <= i < |image.sections| ==> NormalForm(image.sections[i])
    ensures forall i :: 0 <= i < |image.symbols| ==> image.symbols[i].name.Some?
  {
    forall i | 0 <= i < |image.sections| ensures SectionOk(image.sections[i]) && NormalForm(image.sections[i]) {
      CollectElement(h.sectionCount, SectionReader(input, h), i);
      DecodedSection(input, h, i);
    }
    forall i | 0 <= i < |image.symbols|
      ensures SymbolOk(image.symbols[i], |image.sections|) && image.symbols[i].name.Some?
    {
      CollectElement(h.symbolCount, SymbolReader(input, h), i);
      DecodedSymbol(input, h, i);
    }
    forall i | 0 <= i < |image.relocations|
      ensures RelocationOk(image.relocations[i], image.sections, |image.symbols|)
    {
      CollectElement(h.relocationCount, RelocationReader(input, h, image.sections), i);
      DecodedRelocation(input, h, image.sections, i);
    }
  }

  lemma NormalIsIdentity(image: Image)
    requires forall i :: 0 <= i < |image.sections| ==> NormalForm(image.sections[i])
    requires forall i :: 0 <= i < |image.symbols| ==> image.symbols[i].name.Some?
    requires image.kind != OBJECT ==> image.entrySymbol.None?
    ensures Normal(image) == image && Readable(image)
  {
  }

  /** Whatever bytes the decoder accepts, the image it returns passes every check of the encoder. */
  lemma DecodedIsStructural(input: seq<Byte>)
    requires Decode(input).Ok?
    ensures Structural(Decode(input).value) && Readable(Decode(input).value)
    ensures Normal(Decode(input).value) == Decode(input).value
  {
    var image, h := Decode(input).value, ReadHeader(input);
    DecodedRecords(input, h, image);
    NormalIsIdentity(image);
    assert |image.relocations| == h.relocationCount;
  }

  /** Too many records make an image too large. */
  lemma RecordsCount(image: Image)
    ensures |image.sections| > WORD_MAX || |image.symbols| > WORD_MAX || |image.relocations| > WORD_MAX ==>
            TotalSize(image) > WORD_MAX
    ensures PayloadOffset(image) <= TotalSize(image)
  {
    hide StringTable, Payload;
  }

  /** Nothing but its size can make the encoder refuse an image that passes its structural checks. */
  lemma RefusedForSize(image: Image)
    requires Structural(image)
    ensures Encode(image).Err? <==> TotalSize(image) > WORD_MAX
    ensures Encode(image).Err? ==> Encode(image).error == Overflow
  {
    hide RecordsOk, EntryOk, Written, TotalSize, PayloadOffset;
    RecordsCount(image);
  }

  /** So re-encoding it fails exactly when it has become too large, and otherwise is undone by decoding. */
  lemma EncodeDecode(input: seq<Byte>)
    requires Decode(input).Ok?
    ensures var image := Decode(input).value;
            && (Encode(image).Err? <==> TotalSize(image) > WORD_MAX)
            && (Encode(image).Err? ==> Encode(image).error == Overflow)
            && (Encode(image).Ok? ==> Decode(Encode(image).value) == Ok(image))
  {
    hide Decode, Encode, Structural, Readable, Normal, TotalSize;
    var image := Decode(input).value;
    DecodedIsStructural(input);
    RefusedForSize(image);
    if Encode(image).Ok? { DecodeEncode(image); }
  }
}
