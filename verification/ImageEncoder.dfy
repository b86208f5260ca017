/** zl_image_encode: checks an image, then writes it into one buffer through several cursors. */
module ImageEncoder {
  import opened Wrappers
  import opened Bytes
  import opened ImageFormat
  import opened ImageRoundTrip

  // ----- the buffer while it is being written -----

  /** The sizes of the five regions behind the header. */
  datatype Sizes = Sizes(sections: nat, symbols: nat, relocations: nat, strings: nat, payload: nat)

  /** What has been written so far at the front of each region. */
  datatype Draft = Draft(header: seq<Byte>, sections: seq<Byte>, symbols: seq<Byte>, relocations: seq<Byte>,
                         strings: seq<Byte>, payload: seq<Byte>)

  ghost predicate Fits(z: Sizes, d: Draft) {
    && |d.header| <= HEADER_SIZE && |d.sections| <= z.sections && |d.symbols| <= z.symbols
    && |d.relocations| <= z.relocations && |d.strings| <= z.strings && |d.payload| <= z.payload
  }

  ghost function Buffer(z: Sizes, d: Draft): (b: seq<Byte>)
    requires Fits(z, d)
    ensures |b| == HEADER_SIZE + z.sections + z.symbols + z.relocations + z.strings + z.payload
  {
    Fill(d.header, HEADER_SIZE) + Fill(d.sections, z.sections) + Fill(d.symbols, z.symbols)
    + Fill(d.relocations, z.relocations) + Fill(d.strings, z.strings) + Fill(d.payload, z.payload)
  }

  lemma ExtendHeader(z: Sizes, d: Draft, more: seq<Byte>, at: nat)
    requires Fits(z, d) && |d.header| + |more| <= HEADER_SIZE && at == |d.header|
    ensures Splice(Buffer(z, d), at, more) == Buffer(z, d.(header := d.header + more))
  {
    hide Fill, Splice;
    var rest := Fill(d.sections, z.sections) + Fill(d.symbols, z.symbols)
                + Fill(d.relocations, z.relocations) + Fill(d.strings, z.strings) + Fill(d.payload, z.payload);
    FillAppend([], d.header, HEADER_SIZE, rest, more);
    Regroup(Fill(d.header, HEADER_SIZE), Fill(d.sections, z.sections), Fill(d.symbols, z.symbols),
            Fill(d.relocations, z.relocations), Fill(d.strings, z.strings), Fill(d.payload, z.payload));
    Regroup(Fill(d.header + more, HEADER_SIZE), Fill(d.sections, z.sections), Fill(d.symbols, z.symbols),
            Fill(d.relocations, z.relocations), Fill(d.strings, z.strings), Fill(d.payload, z.payload));
  }

  lemma Regroup(h: seq<Byte>, a: seq<Byte>, b: seq<Byte>, c: seq<Byte>, d: seq<Byte>, e: seq<Byte>)
    ensures h + a + b + c + d + e == [] + h + (a + b + c + d + e)
    ensures h + a + b + c + d + e == h + a + (b + c + d + e)
    ensures h + a + b + c + d + e == (h + a) + b + (c + d + e)
    ensures h + a + b + c + d + e == (h + a + b) + c + (d + e)
  {
  }

  lemma ExtendSections(z: Sizes, d: Draft, more: seq<Byte>, at: nat)
    requires Fits(z, d) && |d.sections| + |more| <= z.sections && at == HEADER_SIZE + |d.sections|
    ensures Splice(Buffer(z, d), at, more) == Buffer(z, d.(sections := d.sections + more))
  {
    hide Fill, Splice;
    var front := Fill(d.header, HEADER_SIZE);
    var rest :=
        Fill(d.symbols, z.symbols) + Fill(d.relocations, z.relocations) + Fill(d.strings, z.strings)
        + Fill(d.payload, z.payload);
    FillAppend(front, d.sections, z.sections, rest, more);
    Regroup(Fill(d.header, HEADER_SIZE), Fill(d.sections, z.sections), Fill(d.symbols, z.symbols),
            Fill(d.relocations, z.relocations), Fill(d.strings, z.strings), Fill(d.payload, z.payload));
    Regroup(Fill(d.header, HEADER_SIZE), Fill(d.sections + more, z.sections), Fill(d.symbols, z.symbols),
            Fill(d.relocations, z.relocations), Fill(d.strings, z.strings), Fill(d.payload, z.payload));
  }

  lemma ExtendSymbols(z: Sizes, d: Draft, more: seq<Byte>, at: nat)
    requires Fits(z, d) && |d.symbols| + |more| <= z.symbols && at == HEADER_SIZE + z.sections + |d.symbols|
    ensures Splice(Buffer(z, d), at, more) == Buffer(z, d.(symbols := d.symbols + more))
  {
    hide Fill, Splice;
    var front := Fill(d.header, HEADER_SIZE) + Fill(d.sections, z.sections);
    var rest := Fill(d.relocations, z.relocations) + Fill(d.strings, z.strings) + Fill(d.payload, z.payload);
    FillAppend(front, d.symbols, z.symbols, rest, more);
    Regroup(Fill(d.header, HEADER_SIZE), Fill(d.sections, z.sections), Fill(d.symbols, z.symbols),
            Fill(d.relocations, z.relocations), Fill(d.strings, z.strings), Fill(d.payload, z.payload));
    Regroup(Fill(d.header, HEADER_SIZE), Fill(d.sections, z.sections), Fill(d.symbols + more, z.symbols),
            Fill(d.relocations, z.relocations), Fill(d.strings, z.strings), Fill(d.payload, z.payload));
  }

  lemma ExtendRelocations(z: Sizes, d: Draft, more: seq<Byte>, at: nat)
    requires Fits(z, d) && |d.relocations| + |more| <= z.relocations
    requires at == HEADER_SIZE + z.sections + z.symbols + |d.relocations|
    ensures Splice(Buffer(z, d), at, more) == Buffer(z, d.(relocations := d.relocations + more))
  {
    hide Fill, Splice;
    var front := Fill(d.header, HEADER_SIZE) + Fill(d.sections, z.sections) + Fill(d.symbols, z.symbols);
    var rest := Fill(d.strings, z.strings) + Fill(d.payload, z.payload);
    FillAppend(front, d.relocations, z.relocations, rest, more);
    Regroup(Fill(d.header, HEADER_SIZE), Fill(d.sections, z.sections), Fill(d.symbols, z.symbols),
            Fill(d.relocations, z.relocations), Fill(d.strings, z.strings), Fill(d.payload, z.payload));
    Regroup(Fill(d.header, HEADER_SIZE), Fill(d.sections, z.sections), Fill(d.symbols, z.symbols),
            Fill(d.relocations + more, z.relocations), Fill(d.strings, z.strings), Fill(d.payload, z.payload));
  }

  lemma ExtendStrings(z: Sizes, d: Draft, more: seq<Byte>, at: nat)
    requires Fits(z, d) && |d.strings| + |more| <= z.strings
    requires at == HEADER_SIZE + z.sections + z.symbols + z.relocations + |d.strings|
    ensures Splice(Buffer(z, d), at, more) == Buffer(z, d.(strings := d.strings + more))
  {
    var front := Fill(d.header, HEADER_SIZE) + Fill(d.sections, z.sections) + Fill(d.symbols, z.symbols)
                 + Fill(d.relocations, z.relocations);
    var rest := Fill(d.payload, z.payload);
    FillAppend(front, d.strings, z.strings, rest, more);
    assert Buffer(z, d) == front + Fill(d.strings, z.strings) + rest;
    assert Buffer(z, d.(strings := d.strings + more)) == front + Fill(d.strings + more, z.strings) + rest;
  }

  lemma ExtendPayload(z: Sizes, d: Draft, more: seq<Byte>, at: nat)
    requires Fits(z, d) && |d.payload| + |more| <= z.payload
    requires at == HEADER_SIZE + z.sections + z.symbols + z.relocations + z.strings + |d.payload|
    ensures Splice(Buffer(z, d), at, more) == Buffer(z, d.(payload := d.payload + more))
  {
    var front := Fill(d.header, HEADER_SIZE) + Fill(d.sections, z.sections) + Fill(d.symbols, z.symbols)
                 + Fill(d.relocations, z.relocations) + Fill(d.strings, z.strings);
    FillAppend(front, d.payload, z.payload, [], more);
    assert Buffer(z, d) == front + Fill(d.payload, z.payload) + [];
    assert Buffer(z, d.(payload := d.payload + more)) == front + Fill(d.payload + more, z.payload) + [];
  }

  /** A byte that was skipped is still zero, so it counts as written. */
  lemma SkipZeros(z: Sizes, d: Draft, n: nat)
    requires Fits(z, d) && |d.symbols| + n <= z.symbols
    ensures Buffer(z, d) == Buffer(z, d.(symbols := d.symbols + Zeros(n)))
  {
    assert Fill(d.symbols + Zeros(n), z.symbols) == Fill(d.symbols, z.symbols);
  }

  // ----- writing records -----

  lemma WordsStep(words: seq<nat>, k: nat)
    requires k < |words|
    ensures Words(words[..k + 1]) == Words(words[..k]) + LE(words[k], 4)
  {
    assert words[..k + 1][..k] == words[..k];
  }

  lemma SpliceNoWords(start: seq<Byte>, record: nat)
    requires record <= |start|
    ensures Splice(start, record, Words([])) == start
  {
  }

  /** put32 of the k-th word of a record, behind the words already written. */
  method PutNext(output: array<Byte>, record: nat, ghost start: seq<Byte>, ghost words: seq<nat>, k: nat, value: nat)
    requires k < |words| && words[k] == value && record + 4 * |words| <= output.Length == |start|
    requires output[..] == Splice(start, record, Words(words[..k]))
    modifies output
    ensures output[..] == Splice(start, record, Words(words[..k + 1]))
  {
    Put(output, record + 4 * k, value, 4);
    WordsStep(words, k);
    SpliceSplice(start, record, Words(words[..k]), LE(value, 4));
  }

  method PutSectionRecord(output: array<Byte>, record: nat, s: Section, name: nat, data: nat)
    requires record + 28 <= output.Length
    modifies output
    ensures output[..] == Splice(old(output[..]), record, SectionRecord(s, name, data))
  {
    hide Words, LE, Splice;
    ghost var start := output[..];
    ghost var words: seq<nat> := [name, s.kind, s.flags, s.alignment, s.address, data, s.size];
    assert words[..0] == [] && words[..7] == words;
    SpliceNoWords(start, record);
    PutNext(output, record, start, words, 0, name);
    PutNext(output, record, start, words, 1, s.kind);
    PutNext(output, record, start, words, 2, s.flags);
    PutNext(output, record, start, words, 3, s.alignment);
    PutNext(output, record, start, words, 4, s.address);
    PutNext(output, record, start, words, 5, data);
    PutNext(output, record, start, words, 6, s.size);
  }

  method PutRelocationRecord(output: array<Byte>, record: nat, r: Relocation)
    requires record + 20 <= output.Length
    modifies output
    ensures output[..] == Splice(old(output[..]), record, RelocationRecord(r))
  {
    hide Words, LE, Splice;
    ghost var start := output[..];
    ghost var words: seq<nat> := [r.section, r.offset, r.kind, r.symbol, Unsigned(r.addend)];
    assert words[..0] == [] && words[..5] == words;
    SpliceNoWords(start, record);
    PutNext(output, record, start, words, 0, r.section);
    PutNext(output, record, start, words, 1, r.offset);
    PutNext(output, record, start, words, 2, r.kind);
    PutNext(output, record, start, words, 3, r.symbol);
    PutNext(output, record, start, words, 4, Unsigned(r.addend));
  }

  method PutPair(output: array<Byte>, at: nat, first: Byte, second: Byte)
    requires at + 2 <= output.Length
    modifies output
    ensures output[..] == Splice(old(output[..]), at, [first, second])
  {
    output[at] := first;
    output[at + 1] := second;
    assert output[..] == Splice(old(output[..]), at, [first, second]);
  }

  /** Writes all of a symbol record but its two padding bytes. */
  method PutSymbolRecord(output: array<Byte>, record: nat, s: Symbol, name: nat)
    requires record + 20 <= output.Length
    modifies output
    ensures output[..]
            == Splice(old(output[..]), record, Words([name, s.section, s.value, s.size]) + [s.binding, s.kind])
  {
    hide Words, LE, Splice;
    ghost var start := output[..];
    ghost var words: seq<nat> := [name, s.section, s.value, s.size];
    assert words[..0] == [] && words[..4] == words;
    SpliceNoWords(start, record);
    PutNext(output, record, start, words, 0, name);
    PutNext(output, record, start, words, 1, s.section);
    PutNext(output, record, start, words, 2, s.value);
    PutNext(output, record, start, words, 3, s.size);
    PutPair(output, record + 16, s.binding, s.kind);
    SpliceSplice(start, record, Words(words), [s.binding, s.kind]);
  }

  /** memcpy into the buffer. */
  method Copy(output: array<Byte>, offset: nat, data: seq<Byte>)
    requires offset + |data| <= output.Length
    modifies output
    ensures output[..] == Splice(old(output[..]), offset, data)
  {
    forall i | 0 <= i < |data| { output[offset + i] := data[i]; }
  }

  /** Appends a name and its terminator to the string table that starts at `table`. */
  method AppendString(output: array<Byte>, table: nat, size: nat, cursor: nat, name: CString)
    returns (ok: bool, offset: nat, next: nat)
    requires table + size <= output.Length && cursor <= size
    modifies output
    ensures ok <==> |name| + 1 <= size - cursor && cursor <= WORD_MAX
    ensures ok ==> offset == cursor && next == cursor + |name| + 1
    ensures ok ==> next <= size && output[..] == Splice(old(output[..]), table + cursor, Terminated(name))
    ensures !ok ==> output[..] == old(output[..])
  {
    ok, offset, next := false, 0, cursor;
    var length := |name| + 1;
    if length > size - cursor || cursor > WORD_MAX {
      return;
    }
    ok, offset, next := true, cursor, cursor + length;
    Copy(output, table + cursor, Terminated(name));
  }

  // ----- one table entry at a time -----

  /** Where the regions of a buffer start. */
  ghost function StringsAt(z: Sizes): nat { HEADER_SIZE + z.sections + z.symbols + z.relocations }
  ghost function PayloadAt(z: Sizes): nat { StringsAt(z) + z.strings }

  /** The section's bytes, when there are any to store, are all there. */
  predicate Copyable(s: Section) {
    s.kind != BSS ==> (s.size != 0 ==> s.data.Some?) && (s.data.Some? ==> |s.data.value| == s.size)
  }

  ghost function WithSection(d: Draft, s: Section, name: nat, data: nat): Draft {
    d.(sections := d.sections + SectionRecord(s, name, data), strings := d.strings + Terminated(TextOf(s.name)),
       payload := d.payload + Stored(s))
  }

  method WriteSection(output: array<Byte>, ghost z: Sizes, ghost d: Draft, s: Section, record: nat, table: nat,
                      tableSize: nat, stringCursor: nat, payloadCursor: nat) returns (nextString: nat, nextPayload: nat)
    requires Fits(z, d) && output[..] == Buffer(z, d) && output.Length <= WORD_MAX
    requires Fits(z, WithSection(d, s, stringCursor, payloadCursor))
    requires record == HEADER_SIZE + |d.sections|
    requires table == StringsAt(z) && tableSize == z.strings && stringCursor == |d.strings|
    requires payloadCursor == PayloadAt(z) + |d.payload|
    requires Copyable(s)
    modifies output
    ensures output[..] == Buffer(z, WithSection(d, s, stringCursor, payloadCursor))
    ensures nextString == stringCursor + |TextOf(s.name)| + 1 && nextPayload == payloadCursor + |Stored(s)|
  {
    hide Buffer, Splice, SectionRecord, Words, LE, Fill;
    var ok, nameOffset;
    ok, nameOffset, nextString := AppendString(output, table, tableSize, stringCursor, TextOf(s.name));
    ExtendStrings(z, d, Terminated(TextOf(s.name)), table + stringCursor);
    ghost var d1 := d.(strings := d.strings + Terminated(TextOf(s.name)));
    PutSectionRecord(output, record, s, nameOffset, payloadCursor);
    ExtendSections(z, d1, SectionRecord(s, stringCursor, payloadCursor), record);
    ghost var d2 := d1.(sections := d1.sections + SectionRecord(s, stringCursor, payloadCursor));
    nextPayload := payloadCursor;
    if s.kind != BSS && s.size != 0 {
      ExtendPayload(z, d2, s.data.value, payloadCursor);
      Copy(output, payloadCursor, s.data.value);
      nextPayload := nextPayload + s.size;
    } else {
      assert Stored(s) == [];
      assert d2.payload + Stored(s) == d2.payload;
    }
  }

  lemma PaddedSymbol(s: Symbol, name: nat)
    ensures Words([name, s.section, s.value, s.size]) + [s.binding, s.kind] + Zeros(2) == SymbolRecord(s, name)
  {
    assert [s.binding, s.kind] + Zeros(2) == [s.binding, s.kind, 0, 0];
  }

  ghost function WithSymbol(d: Draft, s: Symbol, name: nat): Draft {
    d.(symbols := d.symbols + SymbolRecord(s, name), strings := d.strings + Terminated(TextOf(s.name)))
  }

  method WriteSymbol(output: array<Byte>, ghost z: Sizes, ghost d: Draft, s: Symbol, record: nat, table: nat,
                     tableSize: nat, stringCursor: nat) returns (nextString: nat)
    requires Fits(z, d) && output[..] == Buffer(z, d) && output.Length <= WORD_MAX
    requires Fits(z, WithSymbol(d, s, stringCursor))
    requires record == HEADER_SIZE + z.sections + |d.symbols|
    requires table == StringsAt(z) && tableSize == z.strings && stringCursor == |d.strings|
    modifies output
    ensures output[..] == Buffer(z, WithSymbol(d, s, stringCursor))
    ensures nextString == stringCursor + |TextOf(s.name)| + 1
  {
    hide Buffer, Splice, SymbolRecord, Words, LE, Fill, Zeros;
    var ok, nameOffset;
    ok, nameOffset, nextString := AppendString(output, table, tableSize, stringCursor, TextOf(s.name));
    ExtendStrings(z, d, Terminated(TextOf(s.name)), table + stringCursor);
    ghost var d1 := d.(strings := d.strings + Terminated(TextOf(s.name)));
    PutSymbolRecord(output, record, s, nameOffset);
    ghost var written := Words([nameOffset, s.section, s.value, s.size]) + [s.binding, s.kind];
    ExtendSymbols(z, d1, written, record);
    ghost var d2 := d1.(symbols := d1.symbols + written);
    SkipZeros(z, d2, 2);
    PaddedSymbol(s, stringCursor);
    assert d2.symbols + Zeros(2) == d1.symbols + (written + Zeros(2));
  }

  method WriteRelocation(output: array<Byte>, ghost z: Sizes, ghost d: Draft, r: Relocation, record: nat)
    requires Fits(z, d) && output[..] == Buffer(z, d)
    requires Fits(z, d.(relocations := d.relocations + RelocationRecord(r)))
    requires record == HEADER_SIZE + z.sections + z.symbols + |d.relocations|
    modifies output
    ensures output[..] == Buffer(z, d.(relocations := d.relocations + RelocationRecord(r)))
  {
    PutRelocationRecord(output, record, r);
    ExtendRelocations(z, d, RelocationRecord(r), record);
  }

  method PutHeaderWords(output: array<Byte>, words: seq<nat>)
    requires |words| == 11 && output.Length >= HEADER_SIZE
    modifies output
    ensures output[..] == Splice(old(output[..]), 8, Words(words))
  {
    hide Words, LE, Splice;
    ghost var start := output[..];
    assert words[..0] == [] && words[..11] == words;
    SpliceNoWords(start, 8);
    PutNext(output, 8, start, words, 0, words[0]);
    PutNext(output, 8, start, words, 1, words[1]);
    PutNext(output, 8, start, words, 2, words[2]);
    PutNext(output, 8, start, words, 3, words[3]);
    PutNext(output, 8, start, words, 4, words[4]);
    PutNext(output, 8, start, words, 5, words[5]);
    PutNext(output, 8, start, words, 6, words[6]);
    PutNext(output, 8, start, words, 7, words[7]);
    PutNext(output, 8, start, words, 8, words[8]);
    PutNext(output, 8, start, words, 9, words[9]);
    PutNext(output, 8, start, words, 10, words[10]);
  }

  method WriteHeader(output: array<Byte>, ghost z: Sizes, kind: Byte, words: seq<nat>)
    requires output[..] == Buffer(z, Draft([], [], [], [], [], [])) && |words| == 11
    modifies output
    ensures output[..] == Buffer(z, Draft(MAGIC + LE(1, 2) + [kind, 0] + Words(words), [], [], [], [], []))
  {
    ghost var start := output[..];
    Copy(output, 0, MAGIC);
    Put(output, 4, 1, 2);
    output[6] := kind;
    ghost var front := MAGIC + LE(1, 2) + [kind, 0];
    assert output[..] == Splice(start, 0, front);
    PutHeaderWords(output, words);
    SpliceSplice(start, 0, front, Words(words));
    ExtendHeader(z, Draft([], [], [], [], [], []), front + Words(words), 0);
    assert [] + (front + Words(words)) == front + Words(words);
  }

  // ----- one table at a time -----

  lemma RowsStep(rows: seq<seq<Byte>>, i: nat)
    requires i < |rows|
    ensures Flatten(rows[..i + 1]) == Flatten(rows[..i]) + rows[i]
    ensures |Flatten(rows[..i + 1])| <= |Flatten(rows)|
  {
    FlattenStep(rows, i);
    FlattenPrefix(rows, i);
  }

  ghost predicate SectionTables(z: Sizes, sections: seq<Section>, rows: seq<seq<Byte>>, names: seq<seq<Byte>>,
                                payloads: seq<seq<Byte>>)
  {
    && |rows| == |sections| == |payloads| <= |names|
    && |Flatten(rows)| == z.sections && 1 + |Flatten(names)| == z.strings && |Flatten(payloads)| == z.payload
    && (forall i :: 0 <= i < |sections| ==> names[i] == Terminated(TextOf(sections[i].name)))
    && (forall i :: 0 <= i < |sections| ==> payloads[i] == Stored(sections[i]))
    && (forall i :: 0 <= i < |sections| ==>
          rows[i] == SectionRecord(sections[i], 1 + |Flatten(names[..i])|, PayloadAt(z) + |Flatten(payloads[..i])|))
  }

  ghost function SectionDraft(header: seq<Byte>, rows: seq<seq<Byte>>, names: seq<seq<Byte>>, payloads: seq<seq<Byte>>,
                              i: nat): Draft
    requires i <= |rows| && i <= |names| && i <= |payloads|
  {
    Draft(header, Flatten(rows[..i]), [], [], [0] + Flatten(names[..i]), Flatten(payloads[..i]))
  }

  lemma SectionDraftStart(header: seq<Byte>, rows: seq<seq<Byte>>, names: seq<seq<Byte>>, payloads: seq<seq<Byte>>)
    ensures SectionDraft(header, rows, names, payloads, 0) == Draft(header, [], [], [], [0], [])
  {
  }

  lemma SectionStep(z: Sizes, header: seq<Byte>, sections: seq<Section>, rows: seq<seq<Byte>>, names: seq<seq<Byte>>,
                    payloads: seq<seq<Byte>>, i: nat)
    requires |header| <= HEADER_SIZE && SectionTables(z, sections, rows, names, payloads) && i < |sections|
    ensures var d := SectionDraft(header, rows, names, payloads, i);
            var next := SectionDraft(header, rows, names, payloads, i + 1);
            && Fits(z, d) && Fits(z, next) && |d.sections| == 28 * i
            && next == WithSection(d, sections[i], |d.strings|, PayloadAt(z) + |d.payload|)
  {
    hide Flatten, SectionRecord;
    RowsStep(rows, i);
    RowsStep(names, i);
    RowsStep(payloads, i);
    RowWidths(sections, rows, i);
    assert [0] + (Flatten(names[..i]) + names[i]) == [0] + Flatten(names[..i]) + names[i];
  }

  lemma RowWidths(sections: seq<Section>, rows: seq<seq<Byte>>, i: nat)
    requires i <= |rows| && forall j :: 0 <= j < |rows| ==> |rows[j]| == 28
    ensures |Flatten(rows[..i])| == 28 * i
  {
    FlattenWidth(rows[..i], 28);
  }

  method WriteSections(output: array<Byte>, ghost z: Sizes, ghost header: seq<Byte>, sections: seq<Section>, table: nat,
                       tableSize: nat, payload: nat, ghost rows: seq<seq<Byte>>, ghost names: seq<seq<Byte>>,
                       ghost payloads: seq<seq<Byte>>)
    returns (stringCursor: nat)
    requires |header| <= HEADER_SIZE && |rows| == |sections| == |payloads| <= |names|
    requires SectionTables(z, sections, rows, names, payloads)
    requires forall i :: 0 <= i < |sections| ==> Copyable(sections[i])
    requires table == StringsAt(z) && tableSize == z.strings && payload == PayloadAt(z)
    requires Fits(z, SectionDraft(header, rows, names, payloads, 0)) && output.Length <= WORD_MAX
    requires output[..] == Buffer(z, SectionDraft(header, rows, names, payloads, 0))
    modifies output
    ensures Fits(z, SectionDraft(header, rows, names, payloads, |sections|))
    ensures stringCursor == |SectionDraft(header, rows, names, payloads, |sections|).strings|
    ensures output[..] == Buffer(z, SectionDraft(header, rows, names, payloads, |sections|))
  {
    hide Buffer, Fits, Flatten, SectionRecord, Copyable, SectionTables;
    stringCursor := 1;
    var payloadCursor := payload;
    ghost var d := SectionDraft(header, rows, names, payloads, 0);
    SectionDraftStart(header, rows, names, payloads);
    for index := 0 to |sections|
      invariant d == SectionDraft(header, rows, names, payloads, index)
      invariant Fits(z, d) && output[..] == Buffer(z, d)
      invariant stringCursor == |d.strings| && payloadCursor == payload + |d.payload|
    {
      SectionStep(z, header, sections, rows, names, payloads, index);
      ghost var next := WithSection(d, sections[index], stringCursor, payloadCursor);
      assert next == SectionDraft(header, rows, names, payloads, index + 1);
      stringCursor, payloadCursor :=
        WriteSection(output, z, d, sections[index], HEADER_SIZE + 28 * index, table, tableSize, stringCursor,
                     payloadCursor);
      d := next;
    }
  }

  ghost predicate SymbolTables(z: Sizes, symbols: seq<Symbol>, first: nat, rows: seq<seq<Byte>>, names: seq<seq<Byte>>)
  {
    && |rows| == |symbols| && first + |symbols| <= |names|
    && |Flatten(rows)| == z.symbols && 1 + |Flatten(names)| == z.strings
    && (forall i :: 0 <= i < |symbols| ==> names[first + i] == Terminated(TextOf(symbols[i].name)))
    && (forall i :: 0 <= i < |symbols| ==> rows[i] == SymbolRecord(symbols[i], 1 + |Flatten(names[..first + i])|))
  }

  ghost function SymbolDraft(d: Draft, rows: seq<seq<Byte>>, names: seq<seq<Byte>>, first: nat, i: nat): Draft
    requires i <= |rows| && first + i <= |names|
  {
    d.(symbols := Flatten(rows[..i]), strings := [0] + Flatten(names[..first + i]))
  }

  lemma SymbolStep(z: Sizes, d0: Draft, symbols: seq<Symbol>, first: nat, rows: seq<seq<Byte>>, names: seq<seq<Byte>>,
                   i: nat)
    requires Fits(z, d0) && SymbolTables(z, symbols, first, rows, names) && i < |symbols|
    ensures var d, next := SymbolDraft(d0, rows, names, first, i), SymbolDraft(d0, rows, names, first, i + 1);
            && Fits(z, d) && Fits(z, next) && |d.symbols| == 20 * i
            && next == WithSymbol(d, symbols[i], |d.strings|)
  {
    hide Flatten, SymbolRecord;
    RowsStep(rows, i);
    RowsStep(names, first + i);
    FlattenWidth(rows[..i], 20);
    assert [0] + (Flatten(names[..first + i]) + names[first + i])
        == [0] + Flatten(names[..first + i]) + names[first + i];
  }

  method WriteSymbols(output: array<Byte>, ghost z: Sizes, ghost d0: Draft, symbols: seq<Symbol>, start: nat,
                      table: nat, tableSize: nat, cursor: nat, ghost first: nat, ghost rows: seq<seq<Byte>>,
                      ghost names: seq<seq<Byte>>)
    returns (stringCursor: nat)
    requires |rows| == |symbols| && first + |symbols| <= |names|
    requires SymbolTables(z, symbols, first, rows, names)
    requires Fits(z, d0) && d0 == SymbolDraft(d0, rows, names, first, 0)
    requires start == HEADER_SIZE + z.sections && table == StringsAt(z) && tableSize == z.strings
             && cursor == |d0.strings|
    requires output[..] == Buffer(z, d0) && output.Length <= WORD_MAX
    modifies output
    ensures Fits(z, SymbolDraft(d0, rows, names, first, |symbols|))
    ensures stringCursor == |SymbolDraft(d0, rows, names, first, |symbols|).strings|
    ensures output[..] == Buffer(z, SymbolDraft(d0, rows, names, first, |symbols|))
  {
    hide Buffer, Fits, Flatten, SymbolRecord, SymbolTables;
    stringCursor := cursor;
    ghost var d := d0;
    for index := 0 to |symbols|
      invariant d == SymbolDraft(d0, rows, names, first, index)
      invariant Fits(z, d) && output[..] == Buffer(z, d)
      invariant stringCursor == |d.strings|
    {
      SymbolStep(z, d0, symbols, first, rows, names, index);
      ghost var next := WithSymbol(d, symbols[index], stringCursor);
      assert next == SymbolDraft(d0, rows, names, first, index + 1);
      stringCursor := WriteSymbol(output, z, d, symbols[index], start + 20 * index, table, tableSize, stringCursor);
      d := next;
    }
  }

  method WriteRelocations(output: array<Byte>, ghost z: Sizes, ghost d0: Draft, relocations: seq<Relocation>,
                          start: nat, ghost rows: seq<seq<Byte>>)
    requires |rows| == |relocations| && |Flatten(rows)| == z.relocations
    requires forall i :: 0 <= i < |relocations| ==> rows[i] == RelocationRecord(relocations[i])
    requires Fits(z, d0) && d0.relocations == [] && output[..] == Buffer(z, d0)
    requires start == HEADER_SIZE + z.sections + z.symbols
    modifies output
    ensures output[..] == Buffer(z, d0.(relocations := Flatten(rows)))
  {
    ghost var d := d0;
    for index := 0 to |relocations|
      invariant d == d0.(relocations := Flatten(rows[..index]))
      invariant Fits(z, d) && output[..] == Buffer(z, d)
    {
      RowsStep(rows, index);
      FlattenWidth(rows[..index], 20);
      WriteRelocation(output, z, d, relocations[index], start + 20 * index);
      d := d.(relocations := d.relocations + rows[index]);
    }
    assert rows[..|relocations|] == rows;
  }

  // ----- the checks -----

  method AddSize(left: nat, right: nat) returns (sum: Option<nat>)
    requires left < SIZE_RANGE && right < SIZE_RANGE
    ensures sum == if left + right < SIZE_RANGE then Some(left + right) else None
  {
    if right > SIZE_RANGE - 1 - left {
      return None;
    }
    sum := Some(left + right);
  }

  method MultiplySize(left: nat, right: nat) returns (product: Option<nat>)
    requires left < SIZE_RANGE && right < SIZE_RANGE
    ensures product == if left * right < SIZE_RANGE then Some(left * right) else None
  {
    if left != 0 && right > (SIZE_RANGE - 1) / left {
      assert left * right >= SIZE_RANGE by { QuotientBound(SIZE_RANGE - 1, left, right); }
      return None;
    }
    assert left * right < SIZE_RANGE by { if left != 0 { QuotientBound(SIZE_RANGE - 1, left, right); } }
    product := Some(left * right);
  }

  /** right * left exceeds n exactly when right exceeds the quotient. */
  lemma QuotientBound(n: nat, left: nat, right: nat)
    requires left > 0
    ensures right > n / left <==> left * right > n
  {
    var q, r := n / left, n % left;
    assert n == left * q + r;
    if right > q { assert left * right >= left * (q + 1); } else { assert left * right <= left * q; }
  }

  /** What the host guarantees of any image in memory: strings and buffers are smaller than the address space. */
  predicate InMemory(image: Image) {
    && (forall k :: 0 <= k < |Names(image)| ==> |Names(image)[k]| + 1 < SIZE_RANGE)
    && (forall i :: 0 <= i < |image.sections| ==> image.sections[i].size < SIZE_RANGE)
  }

  /** The size of the string table, counted name by name; None when it overflows. */
  method StringSize(image: Image) returns (size: Option<nat>)
    requires InMemory(image)
    ensures size == if |StringTable(image)| < SIZE_RANGE then Some(|StringTable(image)|) else None
  {
    hide NameRows, Names, EntryNames, Flatten;
    ghost var rows := NameRows(Names(image));
    FlattenEmpty();
    NamesOf(image);
    assert rows[..|rows|] == rows && rows[..0] == [];
    size := Some(1);
    for index := 0 to |image.sections| + |image.symbols|
      invariant size == Some(NameOffset(image, index)) && NameOffset(image, index) < SIZE_RANGE
    {
      var name := if index < |image.sections| then image.sections[index].name
                  else image.symbols[index - |image.sections|].name;
      RowsStep(rows, index);
      assert rows[index] == Terminated(TextOf(name));
      size := AddSize(size.value, |TextOf(name)| + 1);
      if size.None? {
        return;
      }
    }
    EntryNameCases(image);
    if image.kind == OBJECT && image.entrySymbol.Some? {
      RowsStep(rows, |image.sections| + |image.symbols|);
      size := AddSize(size.value, |image.entrySymbol.value| + 1);
    }
  }

  lemma EntryNameCases(image: Image)
    ensures var n := |image.sections| + |image.symbols|;
            if image.kind == OBJECT && image.entrySymbol.Some?
            then |Names(image)| == n + 1 && Names(image)[n] == image.entrySymbol.value
            else |Names(image)| == n
  {
  }

  method CheckSections(sections: seq<Section>) returns (ok: bool, payload: nat)
    requires |sections| <= WORD_MAX
    ensures ok <==> forall i :: 0 <= i < |sections| ==> SectionOk(sections[i])
    ensures ok ==> payload == StoredSize(sections)
  {
    hide SectionOk;
    ok, payload := true, 0;
    for index := 0 to |sections|
      invariant forall i :: 0 <= i < index ==> SectionOk(sections[i])
      invariant payload == StoredSize(sections[..index]) <= index * WORD_MAX
    {
      if !SectionOk(sections[index]) {
        return false, 0;
      }
      SectionOkSize(sections[index]);
      assert sections[..index + 1][..index] == sections[..index];
      if sections[index].kind != BSS {
        // The sum cannot overflow: fewer than 2^32 sections of fewer than 2^32 bytes each.
        var sum := AddSize(payload, sections[index].size);
        payload := sum.value;
      }
    }
    assert sections[..|sections|] == sections;
  }

  lemma SectionOkSize(s: Section)
    ensures SectionOk(s) ==> s.size <= WORD_MAX
  {
  }

  /** The total size of the sections that occupy space in the file. */
  function StoredSize(sections: seq<Section>): nat {
    if sections == [] then 0
    else StoredSize(sections[..|sections| - 1]) + if sections[|sections| - 1].kind == BSS then 0
      else sections[|sections| - 1].size
  }

  lemma {:induction false} StoredSizeIs(image: Image, n: nat)
    requires n <= |image.sections| && forall i :: 0 <= i < |image.sections| ==>
                                        SectionOk(image.sections[i]) && Copyable(image.sections[i])
    ensures |Flatten(PayloadRows(image)[..n])| == StoredSize(image.sections[..n])
  {
    hide SectionOk, Copyable, Flatten, Stored;
    if n == 0 {
      assert PayloadRows(image)[..0] == [];
      FlattenEmpty();
    } else {
      StoredSizeIs(image, n - 1);
      RowsStep(PayloadRows(image), n - 1);
      assert image.sections[..n][..n - 1] == image.sections[..n - 1];
      StoredLength(image.sections[n - 1]);
    }
  }

  lemma FlattenEmpty()
    ensures |Flatten<Byte>([])| == 0
  {
  }

  lemma StoredLength(s: Section)
    requires SectionOk(s) && Copyable(s)
    ensures |Stored(s)| == if s.kind == BSS then 0 else s.size
  {
  }

  method CheckSymbols(symbols: seq<Symbol>, sectionCount: nat) returns (ok: bool)
    ensures ok <==> forall i :: 0 <= i < |symbols| ==> SymbolOk(symbols[i], sectionCount)
  {
    for index := 0 to |symbols|
      invariant forall i :: 0 <= i < index ==> SymbolOk(symbols[i], sectionCount)
    {
      if !SymbolOk(symbols[index], sectionCount) {
        return false;
      }
    }
    ok := true;
  }

  method CheckRelocations(relocations: seq<Relocation>, sections: seq<Section>, symbolCount: nat) returns (ok: bool)
    ensures ok <==> forall i :: 0 <= i < |relocations| ==> RelocationOk(relocations[i], sections, symbolCount)
  {
    for index := 0 to |relocations|
      invariant forall i :: 0 <= i < index ==> RelocationOk(relocations[i], sections, symbolCount)
    {
      if !RelocationOk(relocations[index], sections, symbolCount) {
        return false;
      }
    }
    ok := true;
  }

  /** Looks at every section, as the source does, even after a hit. */
  method EntryFound(sections: seq<Section>, entry: Word) returns (found: bool)
    ensures found <==> exists i :: 0 <= i < |sections| && InText(sections[i], entry)
  {
    found := false;
    for index := 0 to |sections|
      invariant found <==> exists i :: 0 <= i < index && InText(sections[i], entry)
    {
      if InText(sections[index], entry) {
        found := true;
      }
    }
  }

  // ----- the encoder -----

  /** The offsets computed while checking. */
  datatype Layout = Layout(symbols: nat, relocations: nat, strings: nat, stringSize: nat, payload: nat, total: nat)

  ghost predicate LayoutOf(image: Image, l: Layout) {
    && l.symbols == SymbolOffset(image) && l.relocations == RelocationOffset(image) && l.strings == StringOffset(image)
    && l.stringSize == |StringTable(image)| && l.payload == PayloadOffset(image) && l.total == TotalSize(image)
  }

  /** The table offsets, or None when one of them leaves the range of size_t. */
  method Offsets(image: Image, stringSize: nat) returns (r: Option<Layout>)
    requires |image.sections| <= WORD_MAX && |image.symbols| <= WORD_MAX && |image.relocations| <= WORD_MAX
    requires stringSize == |StringTable(image)| < SIZE_RANGE
    ensures r.None? <==> PayloadOffset(image) >= SIZE_RANGE
    ensures r.Some? ==> LayoutOf(image, r.value.(total := TotalSize(image)))
  {
    hide StringTable, Payload;
    var sectionBytes := MultiplySize(|image.sections|, 28);
    var symbolBytes := MultiplySize(|image.symbols|, 20);
    var relocationBytes := MultiplySize(|image.relocations|, 20);
    var symbols := AddSize(HEADER_SIZE, sectionBytes.value);
    var relocations := AddSize(symbols.value, symbolBytes.value);
    var strings := AddSize(relocations.value, relocationBytes.value);
    var payload := AddSize(strings.value, stringSize);
    if payload.None? {
      return None;
    }
    r := Some(Layout(symbols.value, relocations.value, strings.value, stringSize, payload.value, 0));
  }

  /** Every check of the encoder, in order. */
  method Check(image: Image) returns (r: Result<Layout, ImageError>)
    requires Readable(image) && InMemory(image)
    ensures r.Err? ==> Refusal(image) == Some(r.error)
    ensures r.Ok? ==> Refusal(image).None? && LayoutOf(image, r.value)
  {
    hide PayloadOffset, TotalSize, StringTable, InMemory, SectionOk, SymbolOk, RelocationOk;
    if image.kind != OBJECT && image.kind != EXECUTABLE {
      return Err(InvalidKind);
    }
    if |image.sections| > WORD_MAX || |image.symbols| > WORD_MAX || |image.relocations| > WORD_MAX {
      return Err(Overflow);
    }
    if image.kind == EXECUTABLE && |image.relocations| != 0 {
      return Err(Malformed);
    }
    var stringSize := StringSize(image);
    if stringSize.None? {
      PayloadBehindStrings(image);
      return Err(Overflow);
    }
    var layout := Offsets(image, stringSize.value);
    if layout.None? {
      return Err(Overflow);
    }
    var sectionsOk, payloadSize := CheckSections(image.sections);
    var symbolsOk := CheckSymbols(image.symbols, |image.sections|);
    var relocationsOk := CheckRelocations(image.relocations, image.sections, |image.symbols|);
    if !sectionsOk || !symbolsOk || !relocationsOk {
      return Err(Malformed);
    }
    PayloadSizeIs(image, payloadSize);
    var total := AddTotal(layout.value.payload, payloadSize);
    if total.None? {
      return Err(Overflow);
    }
    if image.kind == OBJECT && image.entryPoint != 0 {
      return Err(Malformed);
    }
    if image.kind == EXECUTABLE && image.entryPoint == 0 {
      return Err(Malformed);
    }
    if image.kind == EXECUTABLE {
      var found := EntryFound(image.sections, image.entryPoint);
      if !found {
        return Err(Malformed);
      }
    }
    r := Ok(layout.value.(total := total.value));
  }

  lemma PayloadBehindStrings(image: Image)
    ensures PayloadOffset(image) >= |StringTable(image)|
  {
  }

  lemma PayloadSizeIs(image: Image, size: nat)
    requires Readable(image) && (forall i :: 0 <= i < |image.sections| ==> SectionOk(image.sections[i]))
    requires size == StoredSize(image.sections) && |image.sections| <= WORD_MAX
    ensures TotalSize(image) == PayloadOffset(image) + size && size < SIZE_RANGE
  {
    hide StringTable;
    forall i | 0 <= i < |image.sections| ensures Copyable(image.sections[i]) {
      assert image.sections[i] in image.sections;
    }
    StoredSizeIs(image, |image.sections|);
    assert image.sections[..|image.sections|] == image.sections
        && PayloadRows(image)[..|image.sections|] == PayloadRows(image);
    StoredSizeBound(image.sections);
  }

  lemma {:induction false} StoredSizeBound(sections: seq<Section>)
    requires forall i :: 0 <= i < |sections| ==> sections[i].size <= WORD_MAX
    ensures StoredSize(sections) <= |sections| * WORD_MAX
  {
    if sections != [] { StoredSizeBound(sections[..|sections| - 1]); }
  }

  /** The file size, which must also fit a 32-bit offset. */
  method AddTotal(payloadOffset: nat, payloadSize: nat) returns (total: Option<nat>)
    requires payloadOffset < SIZE_RANGE && payloadSize < SIZE_RANGE
    ensures total == if payloadOffset + payloadSize <= WORD_MAX then Some(payloadOffset + payloadSize) else None
  {
    total := AddSize(payloadOffset, payloadSize);
    if total.Some? && total.value > WORD_MAX {
      total := None;
    }
  }

  ghost function SizesOf(image: Image): Sizes {
    Sizes(28 * |image.sections|, 20 * |image.symbols|, 20 * |image.relocations|, |StringTable(image)|, |Payload(image)|)
  }

  lemma SectionTablesOf(image: Image)
    ensures SectionTables(SizesOf(image), image.sections, SectionRows(image), NameRows(Names(image)),
                          PayloadRows(image))
  {
    hide Flatten, Names, SectionRecord;
    RegionSizes(image);
    NamesOf(image);
  }

  lemma SymbolTablesOf(image: Image)
    ensures SymbolTables(SizesOf(image), image.symbols, |image.sections|, SymbolRows(image), NameRows(Names(image)))
  {
    hide Flatten, Names, SymbolRecord;
    RegionSizes(image);
    NamesOf(image);
    forall i | 0 <= i < |image.symbols|
      ensures SymbolRows(image)[i]
              == SymbolRecord(image.symbols[i], 1 + |Flatten(NameRows(Names(image))[..|image.sections| + i])|)
    {
      assert SymbolNameOffset(image, i) == 1 + |Flatten(NameRows(Names(image))[..|image.sections| + i])|;
    }
  }

  /** What is known of the tables of an image, in the terms the writers use. */
  ghost predicate Tables(image: Image, z: Sizes, names: seq<seq<Byte>>) {
    && |names| == |image.sections| + |image.symbols| + |EntryNames(image)|
    && SectionTables(z, image.sections, SectionRows(image), names, PayloadRows(image))
    && SymbolTables(z, image.symbols, |image.sections|, SymbolRows(image), names)
    && |Flatten(RelocationRows(image))| == z.relocations
    && HEADER_SIZE + z.sections == SymbolOffset(image)
    && HEADER_SIZE + z.sections + z.symbols == RelocationOffset(image)
    && StringsAt(z) == StringOffset(image) && PayloadAt(z) == PayloadOffset(image)
    && PayloadAt(z) + z.payload == TotalSize(image)
    && z.strings == |StringTable(image)|
  }

  lemma TablesOf(image: Image)
    ensures Tables(image, SizesOf(image), NameRows(Names(image)))
  {
    hide SectionTables, SymbolTables, Flatten;
    SectionTablesOf(image);
    SymbolTablesOf(image);
    RegionSizes(image);
  }

  lemma EmptyBuffer(z: Sizes)
    ensures Buffer(z, Draft([], [], [], [], [], [])) == Zeros(PayloadAt(z) + z.payload)
  {
  }

  /** The string table starts with a NUL that no one writes. */
  lemma FirstNul(z: Sizes, header: seq<Byte>)
    requires |header| <= HEADER_SIZE && z.strings > 0
    ensures Buffer(z, Draft(header, [], [], [], [], [])) == Buffer(z, Draft(header, [], [], [], [0], []))
  {
    assert Fill([], z.strings) == Fill([0], z.strings);
  }

  lemma FullBuffer(z: Sizes, d: Draft)
    requires |d.header| == HEADER_SIZE && |d.sections| == z.sections && |d.symbols| == z.symbols
    requires |d.relocations| == z.relocations && |d.strings| == z.strings && |d.payload| == z.payload
    ensures Buffer(z, d) == d.header + d.sections + d.symbols + d.relocations + d.strings + d.payload
  {
    FillFull(d.header);
    FillFull(d.sections);
    FillFull(d.symbols);
    FillFull(d.relocations);
    FillFull(d.strings);
    FillFull(d.payload);
  }

  lemma {:induction false} WordsReplace(words: seq<nat>, k: nat, value: nat)
    requires k < |words|
    ensures Splice(Words(words), 4 * k, LE(value, 4)) == Words(words[k := value])
  {
    var n := |words| - 1;
    assert words[k := value][..n] == if k < n then words[..n][k := value] else words[..n];
    if k < n { WordsReplace(words[..n], k, value); }
  }

  lemma SplicePrefix(a: seq<Byte>, b: seq<Byte>, at: nat, part: seq<Byte>)
    requires |a| <= at && at + |part| <= |a| + |b|
    ensures Splice(a + b, at, part) == a + Splice(b, at - |a|, part)
  {
  }

  lemma SpliceFront(a: seq<Byte>, b: seq<Byte>, at: nat, part: seq<Byte>)
    requires at + |part| <= |a|
    ensures Splice(a + b, at, part) == Splice(a, at, part) + b
  {
  }

  lemma HeaderEntry(image: Image, before: nat, entry: nat)
    ensures Splice(HeaderBytes(image, before), 24, LE(entry, 4)) == HeaderBytes(image, entry)
  {
    hide Words, LE, Splice, StringTable;
    SplicePrefix(MAGIC + LE(1, 2) + [image.kind, 0], Words(HeaderWords(image, before)), 24, LE(entry, 4));
    WordsReplace(HeaderWords(image, before), 4, entry);
    assert HeaderWords(image, before)[4 := entry] == HeaderWords(image, entry);
  }

  lemma ReplaceHeader(z: Sizes, d: Draft, at: nat, part: seq<Byte>)
    requires Fits(z, d) && |d.header| == HEADER_SIZE && at + |part| <= HEADER_SIZE
    ensures Splice(Buffer(z, d), at, part) == Buffer(z, d.(header := Splice(d.header, at, part)))
  {
    hide Fill, Splice;
    FillFull(d.header);
    FillFull(Splice(d.header, at, part));
    var rest := Fill(d.sections, z.sections) + Fill(d.symbols, z.symbols)
                + Fill(d.relocations, z.relocations) + Fill(d.strings, z.strings) + Fill(d.payload, z.payload);
    Regroup(Fill(d.header, HEADER_SIZE), Fill(d.sections, z.sections), Fill(d.symbols, z.symbols),
            Fill(d.relocations, z.relocations), Fill(d.strings, z.strings), Fill(d.payload, z.payload));
    var d' := d.(header := Splice(d.header, at, part));
    Regroup(Fill(d'.header, HEADER_SIZE), Fill(d.sections, z.sections), Fill(d.symbols, z.symbols),
            Fill(d.relocations, z.relocations), Fill(d.strings, z.strings), Fill(d.payload, z.payload));
    SpliceFront(d.header, rest, at, part);
  }

  /** zl_image_encode. */
  method EncodeImage(image: Image) returns (r: Result<array<Byte>, ImageError>)
    requires Readable(image) && InMemory(image)
    ensures r.Err? ==> Encode(image) == Err(r.error)
    ensures r.Ok? ==> fresh(r.value) && Encode(image) == Ok(r.value[..])
  {
    var checked := Check(image);
    if checked.Err? {
      return Err(checked.error);
    }
    var output := Write(image, checked.value);
    r := Ok(output);
  }

  /** The draft once every name and every record but the relocations are written. */
  ghost function NamedDraft(image: Image, names: seq<seq<Byte>>, entry: nat): Draft {
    Draft(HeaderBytes(image, entry), Flatten(SectionRows(image)), Flatten(SymbolRows(image)), [], [0] + Flatten(names),
          Flatten(PayloadRows(image)))
  }

  /** The draft behind the section and symbol loops. */
  ghost function SymbolsWritten(image: Image, names: seq<seq<Byte>>): Draft
    requires |image.sections| + |image.symbols| <= |names|
  {
    SymbolDraft(SectionDraft(HeaderBytes(image, image.entryPoint), SectionRows(image), names, PayloadRows(image),
                             |image.sections|), SymbolRows(image), names, |image.sections|, |image.symbols|)
  }

  lemma SymbolsDone(image: Image, z: Sizes, names: seq<seq<Byte>>, d: Draft)
    requires names == NameRows(Names(image)) && |names| == |image.sections| + |image.symbols| + |EntryNames(image)|
    requires d == SymbolsWritten(image, names)
    ensures |d.strings| == NameOffset(image, |image.sections| + |image.symbols|)
    ensures image.kind == OBJECT && image.entrySymbol.Some? ==>
              NamedDraft(image, names, image.entryPoint)
                == d.(strings := d.strings + Terminated(image.entrySymbol.value))
    ensures !(image.kind == OBJECT && image.entrySymbol.Some?) ==> NamedDraft(image, names, image.entryPoint) == d
  {
    hide HeaderBytes, SectionRows, SymbolRows, PayloadRows, NameRows, Names, EntryNames, Flatten;
    EntryNameCases(image);
    assert SectionRows(image)[..|image.sections|] == SectionRows(image);
    assert PayloadRows(image)[..|image.sections|] == PayloadRows(image);
    assert SymbolRows(image)[..|image.symbols|] == SymbolRows(image);
    var k := |image.sections| + |image.symbols|;
    if image.kind == OBJECT && image.entrySymbol.Some? {
      FlattenStep(names, k);
      assert names[..k + 1] == names && names[k] == Terminated(image.entrySymbol.value);
      assert [0] + Flatten(names) == [0] + Flatten(names[..k]) + names[k];
    } else {
      assert names[..k] == names;
    }
  }

  /** An object's entry symbol is the last name, and its offset replaces the entry field. */
  method WriteEntry(output: array<Byte>, image: Image, ghost z: Sizes, ghost d: Draft, ghost names: seq<seq<Byte>>,
                    table: nat, tableSize: nat, cursor: nat)
    requires |d.header| == HEADER_SIZE && Fits(z, d) && output[..] == Buffer(z, d) && output.Length <= WORD_MAX
    requires table == StringsAt(z) && tableSize == z.strings && cursor == |d.strings|
    requires image.kind == OBJECT && image.entrySymbol.Some? ==>
               && NamedDraft(image, names, image.entryPoint)
                  == d.(strings := d.strings + Terminated(image.entrySymbol.value))
               && EntryField(image) == cursor && cursor + |image.entrySymbol.value| + 1 <= z.strings
    requires !(image.kind == OBJECT && image.entrySymbol.Some?) ==>
               NamedDraft(image, names, image.entryPoint) == d && EntryField(image) == image.entryPoint
    modifies output
    ensures Fits(z, NamedDraft(image, names, EntryField(image)))
    ensures output[..] == Buffer(z, NamedDraft(image, names, EntryField(image)))
  {
    hide Buffer, HeaderBytes, Flatten, SectionRows, SymbolRows, PayloadRows, EntryField, Splice, LE, Fill;
    if image.kind == OBJECT && image.entrySymbol.Some? {
      var ok, offset, next := AppendString(output, table, tableSize, cursor, image.entrySymbol.value);
      ExtendStrings(z, d, Terminated(image.entrySymbol.value), table + cursor);
      ghost var named := NamedDraft(image, names, image.entryPoint);
      Put(output, 24, offset, 4);
      ReplaceHeader(z, named, 24, LE(offset, 4));
      HeaderEntry(image, image.entryPoint, offset);
    }
  }

  lemma WrittenIs(image: Image, z: Sizes, d: Draft)
    requires Tables(image, z, NameRows(Names(image)))
    requires d == NamedDraft(image, NameRows(Names(image)),
                             EntryField(image)).(relocations := Flatten(RelocationRows(image)))
    ensures Fits(z, d) && Buffer(z, d) == Written(image)
  {
    hide Buffer, Flatten, SectionRows, SymbolRows, PayloadRows, EntryField, Names, HeaderBytes;
    FullBuffer(z, d);
  }

  lemma EntryFacts(image: Image, names: seq<seq<Byte>>)
    requires names == NameRows(Names(image))
    ensures var k := |image.sections| + |image.symbols|;
            && (image.kind == OBJECT && image.entrySymbol.Some? ==>
                  EntryField(image) == NameOffset(image, k)
                    && NameOffset(image, k) + |image.entrySymbol.value| + 1 <= |StringTable(image)|)
            && (!(image.kind == OBJECT && image.entrySymbol.Some?) ==> EntryField(image) == image.entryPoint)
  {
    hide Names;
    EntryNameCases(image);
    var k := |image.sections| + |image.symbols|;
    if image.kind == OBJECT && image.entrySymbol.Some? {
      FlattenPrefix(names, k);
      assert names[k] == Terminated(image.entrySymbol.value);
    }
  }

  method WriteTables(output: array<Byte>, image: Image, l: Layout, ghost z: Sizes, ghost names: seq<seq<Byte>>)
    returns (cursor: nat)
    requires Readable(image) && Refusal(image).None? && LayoutOf(image, l)
    requires Tables(image, z, names) && names == NameRows(Names(image))
    requires output[..] == Zeros(l.total) && output.Length <= WORD_MAX
    modifies output
    ensures cursor == |SymbolsWritten(image, names).strings|
    ensures Fits(z, SymbolsWritten(image, names)) && output[..] == Buffer(z, SymbolsWritten(image, names))
  {
    hide StringTable, Payload, Flatten, SectionRows, SymbolRows, RelocationRows, NameRows, PayloadRows, Names, Refusal,
         SectionTables, SymbolTables, Buffer, Written, NameOffset, Words, LE, SectionDraft, SymbolDraft, Fill;
    EmptyBuffer(z);
    TableNotEmpty(image);
    WriteHeader(output, z, image.kind,
                [HEADER_SIZE, |image.sections|, |image.symbols|, |image.relocations|, image.entryPoint, HEADER_SIZE,
                 l.symbols, l.relocations, l.strings, l.stringSize, l.payload]);
    ghost var header := HeaderBytes(image, image.entryPoint);
    FirstNul(z, header);
    SectionDraftStart(header, SectionRows(image), names, PayloadRows(image));
    SectionsCopyable(image);
    cursor := WriteSections(output, z, header, image.sections, l.strings, l.stringSize, l.payload, SectionRows(image),
                            names, PayloadRows(image));
    ghost var d := SectionDraft(header, SectionRows(image), names, PayloadRows(image), |image.sections|);
    SymbolDraftStart(header, SectionRows(image), names, PayloadRows(image), SymbolRows(image), |image.sections|);
    cursor := WriteSymbols(output, z, d, image.symbols, l.symbols, l.strings, l.stringSize, cursor, |image.sections|,
                           SymbolRows(image), names);
  }

  lemma SymbolDraftStart(header: seq<Byte>, rows: seq<seq<Byte>>, names: seq<seq<Byte>>, payloads: seq<seq<Byte>>,
                         symbols: seq<seq<Byte>>, n: nat)
    requires n <= |rows| && n <= |names| && n <= |payloads|
    ensures var d := SectionDraft(header, rows, names, payloads, n); d == SymbolDraft(d, symbols, names, n, 0)
  {
  }

  lemma SectionsCopyable(image: Image)
    requires Readable(image) && Refusal(image).None?
    ensures forall i :: 0 <= i < |image.sections| ==> Copyable(image.sections[i])
  {
    hide TotalSize, PayloadOffset;
    forall i | 0 <= i < |image.sections| ensures Copyable(image.sections[i]) {
      assert image.sections[i] in image.sections && SectionOk(image.sections[i]);
    }
  }

  /** Fills a buffer of the computed size. */
  method Write(image: Image, l: Layout) returns (output: array<Byte>)
    requires Readable(image) && Refusal(image).None? && LayoutOf(image, l)
    ensures fresh(output) && output[..] == Written(image)
  {
    hide StringTable, Payload, Flatten, SectionRows, SymbolRows, RelocationRows, NameRows, PayloadRows, Names, Refusal,
         SectionTables, SymbolTables, Buffer, Written, HeaderBytes, EntryField, NameOffset, SymbolsWritten;
    ghost var z, names := SizesOf(image), NameRows(Names(image));
    TablesOf(image);
    TotalFits(image);
    output := new Byte[l.total](_ => 0);
    assert output[..] == Zeros(l.total);
    var cursor := WriteTables(output, image, l, z, names);
    SymbolsDone(image, z, names, SymbolsWritten(image, names));
    EntryFacts(image, names);
    WriteEntry(output, image, z, SymbolsWritten(image, names), names, l.strings, l.stringSize, cursor);
    ghost var named := NamedDraft(image, names, EntryField(image));
    WriteRelocations(output, z, named, image.relocations, l.relocations, RelocationRows(image));
    WrittenIs(image, z, named.(relocations := Flatten(RelocationRows(image))));
  }

  lemma TableNotEmpty(image: Image)
    ensures |StringTable(image)| > 0
  {
  }

  lemma TotalFits(image: Image)
    requires Refusal(image).None?
    ensures TotalSize(image) <= WORD_MAX
  {
  }
}
