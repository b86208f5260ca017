/** What every accepted program's layout satisfies. */
module LayoutProofs {
  import opened Wrappers
  import opened Bits
  import opened Bytes
  import opened ImageFormat
  import opened Directives
  import opened Layout

  // ----- one section -----

  /** A section has a supported name, a power-of-two alignment, fits ROM and has an address only when located. */
  predicate SectionFine(s: AsmSection) {
    && Supported(s.name) && s.kind == KindOf(s.name)
    && FitsRom(s)
    && ValidAlignment(s.alignment)
    && (s.flags == 0 || s.flags == LOCATED)
    && (s.flags == 0 ==> s.address == 0)
  }

  /** How a section may change: its end never moves back, and its address is settled once it has contents. */
  predicate SectionGrows(a: AsmSection, b: AsmSection) {
    && a.name == b.name && a.kind == b.kind
    && a.size <= b.size && a.alignment <= b.alignment && a.flags <= b.flags
    && (a.size > 0 ==> a.address == b.address && a.flags == b.flags)
  }

  // ----- the whole layout -----

  predicate LineFits(sections: seq<AsmSection>, l: Line) {
    l.section < |sections| && End(l) <= sections[l.section].size
  }

  predicate LinesOrdered(lines: seq<Line>) {
    forall i, j :: 0 <= i < j < |lines| && lines[i].section == lines[j].section ==> End(lines[i]) <= lines[j].offset
  }

  predicate Named(sections: seq<AsmSection>) {
    forall i, j :: 0 <= i < j < |sections| ==> sections[i].name != sections[j].name
  }

  predicate Occupied(lines: seq<Line>, s: nat) {
    exists i :: 0 <= i < |lines| && lines[i].section == s
  }

  predicate WellLaid(c: Context) {
    && c.current < |c.sections|
    && (forall s :: 0 <= s < |c.sections| ==> SectionFine(c.sections[s]))
    && Named(c.sections)
    && (forall i :: 0 <= i < |c.lines| ==> LineFits(c.sections, c.lines[i]))
    && LinesOrdered(c.lines)
    && (forall s :: 0 <= s < |c.sections| && c.sections[s].size > 0 ==> Occupied(c.lines, s))
  }

  predicate Grows(a: Context, b: Context) {
    && |a.sections| <= |b.sections|
    && (forall s :: 0 <= s < |a.sections| ==> SectionGrows(a.sections[s], b.sections[s]))
    && a.lines <= b.lines
    && (forall j :: |a.lines| <= j < |b.lines| ==> LineBehind(a.sections, b.lines[j]))
  }

  /** A line recorded later starts at or behind where its section ended. */
  predicate LineBehind(sections: seq<AsmSection>, l: Line) {
    l.section < |sections| ==> sections[l.section].size <= l.offset
  }

  lemma GrowsTransitive(a: Context, b: Context, c: Context)
    requires Grows(a, b) && Grows(b, c)
    ensures Grows(a, c)
  {
    forall j | |a.lines| <= j < |c.lines| ensures LineBehind(a.sections, c.lines[j]) {
      if j < |b.lines| {
        assert c.lines[j] == b.lines[j] && LineBehind(a.sections, b.lines[j]);
      } else {
        assert LineBehind(b.sections, c.lines[j]);
        if c.lines[j].section < |a.sections| {
          assert SectionGrows(a.sections[c.lines[j].section], b.sections[c.lines[j].section]);
        }
      }
    }
    forall s | 0 <= s < |a.sections| ensures SectionGrows(a.sections[s], c.sections[s]) {
      assert SectionGrows(a.sections[s], b.sections[s]) && SectionGrows(b.sections[s], c.sections[s]);
    }
  }

  // ----- the steps -----

  /** Changing the current section without recording a line. */
  lemma UpdateKeeps(c: Context, s: AsmSection)
    requires WellLaid(c) && SectionGrows(c.sections[c.current], s) && SectionFine(s)
    requires c.sections[c.current].size == 0 ==> s.size == 0
    ensures Updated(c, s).Ok? && WellLaid(Updated(c, s).value) && Grows(c, Updated(c, s).value)
  {
    hide SectionFine, ValidAlignment, Supported, KindOf, Size;
    assert FitsRom(s) by { FitsRomOf(s); }
    var next := Updated(c, s).value;
    forall i | 0 <= i < |next.lines| ensures LineFits(next.sections, next.lines[i]) {
      assert LineFits(c.sections, c.lines[i]);
    }
    forall k | 0 <= k < |next.sections| && next.sections[k].size > 0 ensures Occupied(next.lines, k) {
      assert c.sections[k].size > 0;
    }
  }

  lemma FitsRomOf(s: AsmSection)
    requires SectionFine(s)
    ensures FitsRom(s)
  {
  }

  lemma GrownFine(s: AsmSection, size: nat)
    requires SectionFine(s) && FitsRom(s.(size := size))
    ensures SectionFine(s.(size := size))
  {
  }

  lemma GrownFits(sections: seq<AsmSection>, k: nat, s: AsmSection, lines: seq<Line>)
    requires k < |sections| && sections[k].size <= s.size && forall i :: 0 <= i < |lines| ==>
                                                               LineFits(sections, lines[i])
    ensures forall i :: 0 <= i < |lines| ==> LineFits(sections[k := s], lines[i])
  {
    hide End;
    forall i | 0 <= i < |lines| ensures LineFits(sections[k := s], lines[i]) {
      assert LineFits(sections, lines[i]);
    }
  }

  lemma AppendedOrdered(sections: seq<AsmSection>, lines: seq<Line>, line: Line)
    requires LinesOrdered(lines) && forall i :: 0 <= i < |lines| ==> LineFits(sections, lines[i])
    requires line.section < |sections| && line.offset == sections[line.section].size
    ensures LinesOrdered(lines + [line])
  {
    hide End;
    var next := lines + [line];
    forall i, j | 0 <= i < j < |next| && next[i].section == next[j].section ensures End(next[i]) <= next[j].offset {
      assert next[i] == lines[i] && LineFits(sections, lines[i]);
      if j < |lines| { assert next[j] == lines[j]; }
    }
  }

  lemma AppendedOccupied(lines: seq<Line>, line: Line, s: nat)
    requires Occupied(lines, s) || line.section == s
    ensures Occupied(lines + [line], s)
  {
    var next := lines + [line];
    if line.section == s {
      assert next[|lines|].section == s;
    } else {
      var i :| 0 <= i < |lines| && lines[i].section == s;
      assert next[i].section == s;
    }
  }

  lemma RecordKeeps(c: Context, name: Option<CString>, e: Emission)
    requires WellLaid(c) && Record(c, name, e).Ok?
    ensures WellLaid(Record(c, name, e).value) && Grows(c, Record(c, name, e).value)
  {
    hide SectionFine, LineFits, LinesOrdered, Occupied, Size, FitsRom;
    var s := c.sections[c.current];
    var next, line := Record(c, name, e).value, Line(name, e, c.current, s.size);
    var grown := s.(size := s.size + Size(e));
    GrownFine(s, s.size + Size(e));
    GrownFits(c.sections, c.current, grown, c.lines);
    LastFits(next.sections, line);
    AppendedOrdered(c.sections, c.lines, line);
    forall k | 0 <= k < |next.sections| && next.sections[k].size > 0 ensures Occupied(next.lines, k) {
      AppendedOccupied(c.lines, line, k);
    }
  }

  lemma LastFits(sections: seq<AsmSection>, line: Line)
    requires line.section < |sections| && line.offset + Size(line.emission) == sections[line.section].size
    ensures LineFits(sections, line)
  {
  }

  /** An accepted alignment is a power of two and `.align` rounds the end up to it. */
  lemma PaddedAligns(size: nat, alignment: Word)
    requires ValidAlignment(alignment)
    ensures size <= Padded(size, alignment) < size + alignment
    ensures Padded(size, alignment) % alignment == 0
    ensures size == 0 ==> Padded(size, alignment) == 0
  {
    hide And;
    var k := ClearLowBitPowerOfTwo(alignment);
    MaskIsRemainder(size, k);
    RoundUpModulo(size, alignment);
  }

  lemma RoundUpModulo(size: nat, d: nat)
    requires d > 0
    ensures size % d == 0 || (size + (d - size % d)) % d == 0
    ensures size == 0 ==> size % d == 0
    ensures size % d < d
  {
    var q := size / d;
    assert size == q * d + size % d;
    assert size + (d - size % d) == (q + 1) * d;
    MultipleMod(q + 1, d);
  }

  lemma AlignKeeps(c: Context, alignment: DWord)
    requires WellLaid(c) && Align(c, alignment).Ok?
    ensures WellLaid(Align(c, alignment).value) && Grows(c, Align(c, alignment).value)
    ensures Align(c, alignment).value.lines == c.lines && ValidAlignment(alignment)
    ensures var s := Align(c, alignment).value.sections[c.current]; s.size % alignment == 0 && alignment <= s.alignment
  {
    hide Padded, And, WellLaid, Grows, Supported, KindOf;
    CurrentFine(c);
    var s := c.sections[c.current];
    PaddedAligns(s.size, alignment);
    var least := if s.alignment < alignment then alignment else s.alignment;
    UpdateKeeps(c, s.(size := Padded(s.size, alignment), alignment := least));
  }

  lemma CurrentFine(c: Context)
    requires WellLaid(c)
    ensures c.current < |c.sections| && SectionFine(c.sections[c.current])
  {
  }

  lemma LocateKeeps(c: Context, address: DWord)
    requires WellLaid(c) && Locate(c, address).Ok?
    ensures WellLaid(Locate(c, address).value) && Grows(c, Locate(c, address).value)
  {
    hide WellLaid, Grows, Supported, KindOf, ValidAlignment;
    CurrentFine(c);
    var s := c.sections[c.current];
    assert Marked(0) == LOCATED && Marked(LOCATED) == LOCATED;
    if s.size == 0 {
      UpdateKeeps(c, s.(address := address, flags := Marked(s.flags)));
    } else {
      UpdateKeeps(c, s.(size := address - s.address));
    }
  }

  lemma NewFine(name: CString)
    requires Supported(name)
    ensures SectionFine(NewSection(name))
  {
    hide KindOf, Supported;
    assert And(1, 0) == 0;
  }

  lemma MoreSectionsFit(sections: seq<AsmSection>, s: AsmSection, lines: seq<Line>)
    requires forall i :: 0 <= i < |lines| ==> LineFits(sections, lines[i])
    ensures forall i :: 0 <= i < |lines| ==> LineFits(sections + [s], lines[i])
  {
    hide End;
    forall i | 0 <= i < |lines| ensures LineFits(sections + [s], lines[i]) {
      assert LineFits(sections, lines[i]);
    }
  }

  lemma SelectKeeps(c: Context, name: CString)
    requires WellLaid(c) && Select(c, name).Ok?
    ensures WellLaid(Select(c, name).value) && Grows(c, Select(c, name).value)
  {
    hide Supported, SectionFine, LineFits, Occupied, LinesOrdered;
    if SectionIndex(c.sections, name) == |c.sections| {
      NewFine(name);
      MoreSectionsFit(c.sections, NewSection(name), c.lines);
    }
  }

  lemma StepKeeps(before: Context, line: SourceLine)
    requires WellLaid(before) && line.Valid() && Step(before, line).Ok?
    ensures WellLaid(Step(before, line).value) && Grows(before, Step(before, line).value)
  {
    hide SectionFine, Record, Select, Align, Locate, RawData, LinesOrdered, Named, Occupied, LineFits, LineBehind,
         SectionGrows, LabelOf;
    var c := before.(starting := false);
    SameLayout(before, c);
    match line.content {
      case Code(statement) => RecordKeeps(c, LabelOf(before, line), Instruct(statement));
      case DataOf(data) => RecordKeeps(c, LabelOf(before, line), Raw(RawData(data).value));
      case SectionOf(name) => SelectKeeps(c, name);
      case AlignTo(alignment) => AlignKeeps(c, alignment);
      case LocateAt(address) => LocateKeeps(c, address);
      case _ => SameLayout(before, Step(before, line).value);
    }
  }

  lemma SameLayout(a: Context, b: Context)
    requires WellLaid(a) && a.sections == b.sections && a.current == b.current && a.lines == b.lines
    ensures WellLaid(b) && Grows(a, b)
  {
  }

  lemma InitialWell()
    ensures WellLaid(INITIAL)
  {
    assert And(1, 0) == 0;
    assert SectionFine(NewSection(TEXT_NAME));
  }

  predicate AllValid(lines: seq<SourceLine>) {
    forall l :: l in lines ==> l.Valid()
  }

  /** Whatever the directives and lines, every reachable layout is well laid. */
  lemma {:induction false} RunWellLaid(lines: seq<SourceLine>)
    requires AllValid(lines) && Run(lines).Ok?
    ensures WellLaid(Run(lines).value)
  {
    hide Step, WellLaid;
    if lines == [] {
      InitialWell();
    } else {
      RunWellLaid(lines[..|lines| - 1]);
      StepKeeps(Run(lines[..|lines| - 1]).value, lines[|lines| - 1]);
    }
  }

  /** The part of a program before any line was accepted, and the rest only adds to its layout. */
  lemma {:induction false} RunGrows(lines: seq<SourceLine>, k: nat)
    requires AllValid(lines) && Run(lines).Ok? && k <= |lines|
    ensures AllValid(lines[..k]) && Run(lines[..k]).Ok?
    ensures Grows(Run(lines[..k]).value, Run(lines).value)
  {
    hide Step, WellLaid, Grows;
    if k == |lines| {
      assert lines[..k] == lines;
      RunWellLaid(lines);
      SameLayout(Run(lines).value, Run(lines).value);
    } else {
      var front := lines[..|lines| - 1];
      RunGrows(front, k);
      assert front[..k] == lines[..k];
      RunWellLaid(front);
      StepKeeps(Run(front).value, lines[|lines| - 1]);
      GrowsTransitive(Run(lines[..k]).value, Run(front).value, Run(lines).value);
    }
  }

  // ----- total size -----

  function SectionsSize(sections: seq<AsmSection>): nat {
    if sections == [] then 0 else SectionsSize(sections[..|sections| - 1]) + sections[|sections| - 1].size
  }

  lemma {:induction false} SizeAfterUpdate(sections: seq<AsmSection>, k: nat, s: AsmSection)
    requires k < |sections|
    ensures SectionsSize(sections[k := s]) == SectionsSize(sections) - sections[k].size + s.size
  {
    var n := |sections| - 1;
    if k < n {
      SizeAfterUpdate(sections[..n], k, s);
      assert sections[k := s][..n] == sections[..n][k := s];
    } else {
      assert sections[k := s][..n] == sections[..n];
    }
  }

  predicate BytesCounted(c: Context) {
    LineBytes(c.lines) <= SectionsSize(c.sections)
  }

  /** Changing the current section changes the sum by as much as that section. */
  lemma UpdateCounts(c: Context, s: AsmSection)
    requires c.current < |c.sections| && Updated(c, s).Ok? && BytesCounted(c) && c.sections[c.current].size <= s.size
    ensures BytesCounted(Updated(c, s).value)
    ensures SectionsSize(Updated(c, s).value.sections) == SectionsSize(c.sections) - c.sections[c.current].size + s.size
  {
    SizeAfterUpdate(c.sections, c.current, s);
  }

  lemma RecordCounts(c: Context, name: Option<CString>, e: Emission)
    requires c.current < |c.sections| && Record(c, name, e).Ok? && BytesCounted(c)
    ensures BytesCounted(Record(c, name, e).value)
  {
    hide Size, FitsRom;
    var s, next := c.sections[c.current], Record(c, name, e).value;
    UpdateCounts(c, s.(size := s.size + Size(e)));
    assert next.lines[..|c.lines|] == c.lines;
  }

  /** Each line's bytes are counted in its section's size. */
  lemma StepSizes(before: Context, line: SourceLine)
    requires before.current < |before.sections| && line.Valid() && Step(before, line).Ok? && BytesCounted(before)
    ensures BytesCounted(Step(before, line).value)
  {
    hide Record, RawData, LabelOf, Padded, And, Supported, SectionIndex, Marked, FitsRom, SectionsSize, LineBytes;
    var c := before.(starting := false);
    var s := c.sections[c.current];
    assert BytesCounted(c);
    match line.content {
      case Code(statement) => RecordCounts(c, LabelOf(before, line), Instruct(statement));
      case DataOf(data) => RecordCounts(c, LabelOf(before, line), Raw(RawData(data).value));
      case SectionOf(name) => NewSectionCounts(c.sections, name);
      case AlignTo(alignment) =>
        PaddedGrows(s.size, alignment);
        var least := if s.alignment < alignment then alignment else s.alignment;
        UpdateCounts(c, s.(size := Padded(s.size, alignment), alignment := least));
      case LocateAt(address) =>
        if s.size == 0 {
          UpdateCounts(c, s.(address := address, flags := Marked(s.flags)));
        } else {
          UpdateCounts(c, s.(size := address - s.address));
        }
      case _ =>
    }
  }

  lemma NewSectionCounts(sections: seq<AsmSection>, name: CString)
    ensures SectionsSize(sections + [NewSection(name)]) == SectionsSize(sections)
  {
    assert (sections + [NewSection(name)])[..|sections|] == sections;
  }

  lemma PaddedGrows(size: nat, alignment: DWord)
    ensures 0 < alignment <= WORD_MAX ==> Padded(size, alignment) >= size
  {
    if alignment > 0 { AndAtMost(size, alignment - 1); }
  }

  lemma {:induction false} RunSizes(lines: seq<SourceLine>)
    requires AllValid(lines) && Run(lines).Ok?
    ensures BytesCounted(Run(lines).value)
  {
    hide Step;
    if lines != [] {
      RunSizes(lines[..|lines| - 1]);
      StepSizes(Run(lines[..|lines| - 1]).value, lines[|lines| - 1]);
    }
  }

  lemma {:induction false} SectionsBounded(sections: seq<AsmSection>)
    requires forall s :: 0 <= s < |sections| ==> SectionFine(sections[s])
    ensures SectionsSize(sections) <= ROM_SIZE * |sections|
  {
    if sections != [] { SectionsBounded(sections[..|sections| - 1]); }
  }

  const NAMES: seq<CString> := [TEXT_NAME, [DOT] + TEXT_NAME, DATA_NAME, [DOT] + DATA_NAME, BSS_NAME, [DOT] + BSS_NAME]

  /** There are six supported names, so a program has at most six sections and 24576 bytes. */
  lemma OutputIsBounded(lines: seq<SourceLine>)
    requires AllValid(lines) && Run(lines).Ok?
    ensures LineBytes(Run(lines).value.lines) <= ROM_SIZE * |Run(lines).value.sections|
    ensures |Run(lines).value.sections| <= 6
  {
    hide Run, SectionFine;
    RunWellLaid(lines);
    RunSizes(lines);
    var sections := Run(lines).value.sections;
    SectionsBounded(sections);
    forall s | 0 <= s < |sections| ensures sections[s].name in NAMES { NameListed(sections[s]); }
    DistinctFromList(sections);
  }

  lemma NameListed(s: AsmSection)
    requires SectionFine(s)
    ensures s.name in NAMES
  {
    assert NAMES[0] == TEXT_NAME && NAMES[1] == [DOT] + TEXT_NAME && NAMES[2] == DATA_NAME;
    assert NAMES[3] == [DOT] + DATA_NAME && NAMES[4] == BSS_NAME && NAMES[5] == [DOT] + BSS_NAME;
  }

  function NamesOf(sections: seq<AsmSection>): (names: set<CString>) {
    set s | s in sections :: s.name
  }

  lemma {:induction false} DistinctNames(sections: seq<AsmSection>)
    requires Named(sections)
    ensures |NamesOf(sections)| == |sections|
  {
    if sections != [] {
      var front, last := sections[..|sections| - 1], sections[|sections| - 1];
      DistinctNames(front);
      assert NamesOf(sections) == NamesOf(front) + {last.name};
      assert last.name !in NamesOf(front);
    }
  }

  lemma DistinctFromList(sections: seq<AsmSection>)
    requires Named(sections) && forall s :: 0 <= s < |sections| ==> sections[s].name in NAMES
    ensures |sections| <= 6
  {
    DistinctNames(sections);
    var all := {NAMES[0], NAMES[1], NAMES[2], NAMES[3], NAMES[4], NAMES[5]};
    assert NamesOf(sections) <= all;
    SmallerSet(NamesOf(sections), all);
  }

  // ----- recorded lines and their source -----

  predicate IsRecorded(line: SourceLine) {
    line.content.Code? || line.content.DataOf?
  }

  /** What a statement or data line is recorded as in a given context. */
  function Recorded(c: Context, line: SourceLine): Line
    requires c.current < |c.sections| && line.Valid() && IsRecorded(line) && Step(c, line).Ok?
  {
    Line(LabelOf(c, line), if line.content.Code?
         then Instruct(line.content.statement)
         else Raw(RawData(line.content.data).value), c.current, c.sections[c.current].size)
  }

  lemma StepRecords(c: Context, line: SourceLine)
    requires c.current < |c.sections| && line.Valid() && Step(c, line).Ok?
    ensures Step(c, line).value.lines == c.lines + if IsRecorded(line) then [Recorded(c, line)] else []
  {
    hide RawData, LabelOf, Padded, Supported, SectionIndex, Marked, FitsRom;
  }

  /** Every recorded line comes from one statement or data line, in source order. */
  lemma {:induction false} RecordedFrom(lines: seq<SourceLine>, j: nat) returns (m: nat)
    requires AllValid(lines) && Run(lines).Ok? && j < |Run(lines).value.lines|
    ensures m < |lines| && AllValid(lines[..m]) && Run(lines[..m]).Ok? && |Run(lines[..m]).value.lines| == j
    ensures IsRecorded(lines[m]) && Step(Run(lines[..m]).value, lines[m]).Ok?
    ensures Run(lines).value.lines[j] == Recorded(Run(lines[..m]).value, lines[m])
  {
    hide Step, Recorded;
    var front := lines[..|lines| - 1];
    StepRecords(Run(front).value, lines[|lines| - 1]);
    if j < |Run(front).value.lines| {
      m := RecordedFrom(front, j);
      assert front[..m] == lines[..m];
    } else {
      m := |lines| - 1;
    }
  }

  // ----- .align -----

  /** Some `.locate` applies to section s. */
  predicate LocatedIn(lines: seq<SourceLine>, s: nat)
    requires AllValid(lines)
  {
    exists i :: 0 <= i < |lines| && lines[i].content.LocateAt? && CurrentAt(lines, i) == Some(s)
  }

  function CurrentAt(lines: seq<SourceLine>, i: nat): Option<nat>
    requires AllValid(lines) && i <= |lines|
  {
    if Run(lines[..i]).Ok? then Some(Run(lines[..i]).value.current) else None
  }

  lemma PrefixNotLocated(lines: seq<SourceLine>, s: nat)
    requires AllValid(lines) && lines != [] && !LocatedIn(lines, s)
    ensures AllValid(lines[..|lines| - 1]) && !LocatedIn(lines[..|lines| - 1], s)
  {
    hide Run;
    var front := lines[..|lines| - 1];
    forall i | 0 <= i < |front| && front[i].content.LocateAt? ensures CurrentAt(front, i) != Some(s) {
      assert front[..i] == lines[..i] && front[i] == lines[i];
      assert CurrentAt(lines, i) != Some(s);
    }
  }

  /** Only `.locate` gives a section an address. */
  lemma AddressKept(c: Context, line: SourceLine, s: nat)
    requires c.current < |c.sections| && line.Valid() && Step(c, line).Ok?
    requires !(line.content.LocateAt? && c.current == s) && s < |Step(c, line).value.sections|
    ensures var after := Step(c, line).value.sections[s];
            if s < |c.sections| then after.flags == c.sections[s].flags && after.address == c.sections[s].address
            else after.flags == 0 && after.address == 0
  {
    hide RawData, LabelOf, Padded, Supported, SectionIndex, Marked, FitsRom, KindOf, Size, And;
  }

  /** A section without `.locate` is left to the linker. */
  lemma {:induction false} NeverLocated(lines: seq<SourceLine>, s: nat)
    requires AllValid(lines) && Run(lines).Ok? && s < |Run(lines).value.sections| && !LocatedIn(lines, s)
    ensures Run(lines).value.sections[s].flags == 0 && Run(lines).value.sections[s].address == 0
  {
    hide Step, LocatedIn;
    if lines != [] {
      var front := lines[..|lines| - 1];
      PrefixNotLocated(lines, s);
      LastNotLocated(lines, s);
      AddressKept(Run(front).value, lines[|lines| - 1], s);
      if s < |Run(front).value.sections| { NeverLocated(front, s); }
    }
  }

  lemma LastNotLocated(lines: seq<SourceLine>, s: nat)
    requires AllValid(lines) && lines != [] && !LocatedIn(lines, s)
    ensures !(lines[|lines| - 1].content.LocateAt? && CurrentAt(lines, |lines| - 1) == Some(s))
  {
  }

  /** No line was recorded in section s from the n-th line on. */
  predicate Untouched(lines: seq<Line>, n: nat, s: nat) {
    forall j :: n <= j < |lines| ==> lines[j].section != s
  }

  /** Until a line is recorded, the end of a section stays a multiple of what it was aligned to. */
  lemma StaysAligned(c: Context, line: SourceLine, s: nat, n: Word)
    requires WellLaid(c) && line.Valid() && Step(c, line).Ok? && s < |c.sections| && ValidAlignment(n)
    requires c.sections[s].size % n == 0
    requires !(line.content.LocateAt? && c.current == s) && !(IsRecorded(line) && c.current == s)
    ensures s < |Step(c, line).value.sections| && Step(c, line).value.sections[s].size % n == 0
  {
    hide WellLaid, RawData, LabelOf, Padded, And, Supported, SectionIndex, Marked, FitsRom, ValidAlignment;
    CurrentFine(c);
    if line.content.AlignTo? && c.current == s {
      AlignKeeps(c.(starting := false), line.content.alignment) by { SameLayout(c, c.(starting := false)); }
      StillMultiple(c.sections[s].size, n, line.content.alignment);
    }
  }

  lemma StillMultiple(size: nat, n: Word, m: Word)
    requires ValidAlignment(n) && ValidAlignment(m) && size % n == 0
    ensures Padded(size, m) % n == 0
  {
    hide And, Padded, Pow2;
    var j := ClearLowBitPowerOfTwo(n);
    var k := ClearLowBitPowerOfTwo(m);
    PaddedAligns(size, m);
    if j <= k {
      Pow2Divides(j, k);
      DividesTransitive(Padded(size, m), m, n);
    } else {
      Pow2Divides(k, j);
      DividesTransitive(size, n, m);
      AlreadyPadded(size, m);
    }
  }

  lemma AlreadyPadded(size: nat, m: Word)
    requires ValidAlignment(m) && size % m == 0
    ensures Padded(size, m) == size
  {
    hide And;
    var k := ClearLowBitPowerOfTwo(m);
    MaskIsRemainder(size, k);
  }

  lemma {:induction false} AlignedUntilRecorded(lines: seq<SourceLine>, k: nat, m: nat, s: nat, n: Word)
    requires AllValid(lines) && k < m <= |lines| && Run(lines[..m]).Ok? && lines[k].content == AlignTo(n)
    requires Run(lines[..k]).Ok? && s == Run(lines[..k]).value.current && !LocatedIn(lines, s)
    requires Untouched(Run(lines[..m]).value.lines, |Run(lines[..k]).value.lines|, s)
    ensures ValidAlignment(n) && s < |Run(lines[..m]).value.sections|
    ensures Run(lines[..m]).value.sections[s].size % n == 0 && n <= Run(lines[..m]).value.sections[s].alignment
    decreases m
  {
    hide WellLaid, Step, IsRecorded, Recorded, ValidAlignment, And;
    assert lines[..m][..m - 1] == lines[..m - 1] && lines[..m][m - 1] == lines[m - 1];
    var c, line := Run(lines[..m - 1]).value, lines[m - 1];
    RunWellLaid(lines[..m - 1]);
    if m == k + 1 {
      SameLayout(c, c.(starting := false));
      AlignStep(c, line);
      AlignKeeps(c.(starting := false), n);
    } else {
      StepRecords(c, line);
      assert Run(lines[..m]) == Step(c, line);
      StepKeeps(c, line);
      AlignedUntilRecorded(lines, k, m - 1, s, n);
      assert line.content.LocateAt? ==> CurrentAt(lines, m - 1) != Some(s);
      RecordedHere(c, line);
      RunGrows(lines[..m - 1], k);
      assert lines[..m - 1][..k] == lines[..k];
      assert IsRecorded(line) ==> Run(lines[..m]).value.lines[|c.lines|] == Recorded(c, line);
      StaysAligned(c, line, s, n);
    }
  }

  lemma AlignStep(c: Context, line: SourceLine)
    requires c.current < |c.sections| && line.Valid() && line.content.AlignTo?
    ensures Step(c, line) == Align(c.(starting := false), line.content.alignment)
  {
  }

  lemma RecordedHere(c: Context, line: SourceLine)
    requires c.current < |c.sections| && line.Valid() && Step(c, line).Ok?
    ensures IsRecorded(line) ==>
            Recorded(c, line).section == c.current && Recorded(c, line).offset == c.sections[c.current].size
  {
  }

  /**
    The first line behind an `.align n` in its section starts at a multiple of n, and so will
    the section's address.
   */
  lemma AlignedLine(lines: seq<SourceLine>, k: nat, j: nat)
    requires AllValid(lines) && Run(lines).Ok? && k < |lines| && lines[k].content.AlignTo? && Run(lines[..k]).Ok?
    requires |Run(lines[..k]).value.lines| <= j < |Run(lines).value.lines|
    requires Run(lines).value.lines[j].section == Run(lines[..k]).value.current
    requires forall i :: |Run(lines[..k]).value.lines| <= i < j ==>
               Run(lines).value.lines[i].section != Run(lines[..k]).value.current
    requires !LocatedIn(lines, Run(lines[..k]).value.current)
    ensures var n, line := lines[k].content.alignment, Run(lines).value.lines[j];
            && 0 < n <= WORD_MAX && line.offset % n == 0
            && line.section < |Run(lines).value.sections| && Run(lines).value.sections[line.section].alignment % n == 0
  {
    hide Run, Step, LocatedIn, Recorded, ValidAlignment, And;
    var s := Run(lines[..k]).value.current;
    var m := RecordedFrom(lines, j);
    RecordedAfter(lines, k, m);
    RunGrows(lines, m);
    RecordedHere(Run(lines[..m]).value, lines[m]);
    var n := lines[k].content.alignment;
    AlignedBefore(lines, k, m, s);
    AlignmentDivides(lines, m, s, n);
  }

  /** A line recorded behind line k comes from behind line k. */
  lemma RecordedAfter(lines: seq<SourceLine>, k: nat, m: nat)
    requires AllValid(lines) && Run(lines).Ok? && k < |lines| && m < |lines|
    requires lines[k].content.AlignTo? && IsRecorded(lines[m])
    requires Run(lines[..k]).Ok? && Run(lines[..m]).Ok?
             && |Run(lines[..k]).value.lines| <= |Run(lines[..m]).value.lines|
    ensures k < m
  {
    hide Step, Recorded;
    if m < k {
      RunGrows(lines[..k], m + 1) by { RunGrows(lines, k); }
      assert lines[..k][..m + 1] == lines[..m + 1] && lines[..m + 1][..m] == lines[..m];
      StepRecords(Run(lines[..m]).value, lines[m]);
    }
  }

  lemma AlignedBefore(lines: seq<SourceLine>, k: nat, m: nat, s: nat)
    requires AllValid(lines) && Run(lines).Ok? && k < m < |lines| && lines[k].content.AlignTo? && Run(lines[..k]).Ok?
    requires s == Run(lines[..k]).value.current && !LocatedIn(lines, s)
    requires Run(lines[..m]).Ok? && Run(lines[..m]).value.lines <= Run(lines).value.lines
    requires forall i :: |Run(lines[..k]).value.lines| <= i < |Run(lines[..m]).value.lines| ==>
               Run(lines).value.lines[i].section != s
    ensures var n := lines[k].content.alignment;
            && 0 < n <= WORD_MAX && ValidAlignment(n) && s < |Run(lines[..m]).value.sections|
            && Run(lines[..m]).value.sections[s].size % n == 0 && n <= Run(lines[..m]).value.sections[s].alignment
  {
    hide Step, LocatedIn, And;
    RunGrows(lines, k + 1);
    assert lines[..k + 1][..k] == lines[..k];
    AlignStep(Run(lines[..k]).value, lines[k]);
    AlignAccepts(Run(lines[..k]).value.(starting := false), lines[k].content.alignment);
    AlignedUntilRecorded(lines, k, m, s, lines[k].content.alignment);
  }

  lemma AlignAccepts(c: Context, alignment: DWord)
    requires c.current < |c.sections| && Align(c, alignment).Ok?
    ensures 0 < alignment <= WORD_MAX
  {
  }

  lemma AlignmentDivides(lines: seq<SourceLine>, m: nat, s: nat, n: Word)
    requires AllValid(lines) && Run(lines).Ok? && m < |lines| && Run(lines[..m]).Ok? && ValidAlignment(n)
    requires s < |Run(lines[..m]).value.sections| && n <= Run(lines[..m]).value.sections[s].alignment
    ensures s < |Run(lines).value.sections| && Run(lines).value.sections[s].alignment % n == 0
  {
    hide Run, And, Pow2;
    RunGrows(lines, m);
    RunWellLaid(lines);
    var a := Run(lines).value.sections[s].alignment;
    assert SectionGrows(Run(lines[..m]).value.sections[s], Run(lines).value.sections[s]);
    assert SectionFine(Run(lines).value.sections[s]);
    var j := ClearLowBitPowerOfTwo(n);
    var k := ClearLowBitPowerOfTwo(a);
    if j > k { Pow2Increases(k, j); }
    Pow2Divides(j, k);
  }

  lemma {:induction false} Pow2Increases(a: nat, b: nat)
    requires a < b
    ensures Pow2(a) < Pow2(b)
    decreases b
  {
    if a < b - 1 { Pow2Increases(a, b - 1); }
  }
}
