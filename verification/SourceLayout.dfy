/**
  What the directives of a source mean for its lines: where `.locate` puts them, which
  section they are in, how `.proc` qualifies their labels, and which names are listed.
 */
module SourceLayout {
  import opened Wrappers
  import opened Bits
  import opened Bytes
  import opened ImageFormat
  import opened Directives
  import opened Layout
  import opened LayoutProofs

  // ----- what the directives accept -----

  /** `.locate a` is accepted exactly when a is at or behind the section's end and inside ROM. */
  lemma LocateAccepts(c: Context, a: DWord)
    requires WellLaid(c)
    ensures var s := c.sections[c.current];
            Locate(c, a).Ok? <==> s.address + s.size <= a <= ROM_SIZE
  {
    hide WellLaid, SectionFine;
    CurrentFine(c);
    FitsRomOf(c.sections[c.current]);
  }

  /** `.align n` is accepted exactly for a power of two whose next multiple is inside ROM. */
  lemma AlignAccepted(c: Context, n: DWord)
    requires WellLaid(c)
    ensures var s := c.sections[c.current];
            Align(c, n).Ok? <==>
              0 < n <= WORD_MAX && ValidAlignment(n) && s.address + Padded(s.size, n) <= ROM_SIZE
  {
    hide WellLaid, SectionFine, Padded, And;
    CurrentFine(c);
    FitsRomOf(c.sections[c.current]);
  }

  /** A line is accepted exactly when it ends inside ROM. */
  lemma RecordAccepts(c: Context, name: Option<CString>, e: Emission)
    requires WellLaid(c)
    ensures var s := c.sections[c.current];
            Record(c, name, e).Ok? <==> s.address + s.size + Size(e) <= ROM_SIZE
  {
    hide WellLaid, SectionFine, Size;
    CurrentFine(c);
    FitsRomOf(c.sections[c.current]);
  }

  /** The six section names. */
  predicate IsSectionName(name: CString) {
    var plain := if name != [] && name[0] == 46 then name[1..] else name;
    plain == [116, 101, 120, 116] || plain == [100, 97, 116, 97] || plain == [98, 115, 115]  // text, data, bss
  }

  lemma SectionNames(name: CString)
    ensures Supported(name) <==> IsSectionName(name)
  {
    if name != [] && name[0] == 46 { assert name == [DOT] + name[1..]; }
  }

  /** Which lines are accepted in a layout; everything not named here always is. */
  lemma StepAccepts(before: Context, line: SourceLine)
    requires WellLaid(before) && line.Valid()
    ensures var s := before.sections[before.current];
            var end := s.address + s.size;
            Step(before, line).Ok? <==>
              match line.content
              case Code(_) => end + 8 <= ROM_SIZE
              case DataOf(data) => RawData(data).Ok? && end + |RawData(data).value| <= ROM_SIZE
              case SectionOf(name) => IsSectionName(name)
              case AlignTo(n) =>
                0 < n <= WORD_MAX && ValidAlignment(n) && s.address + Padded(s.size, n) <= ROM_SIZE
              case LocateAt(a) => end <= a <= ROM_SIZE
              case _ => true
  {
    hide WellLaid, RawData, LabelOf, Padded, Supported, And, Record, Align, Locate, IsSectionName;
    var c := before.(starting := false);
    SameLayout(before, c);
    match line.content {
      case Code(statement) => RecordAccepts(c, LabelOf(before, line), Instruct(statement));
      case DataOf(data) =>
        if RawData(data).Ok? { RecordAccepts(c, LabelOf(before, line), Raw(RawData(data).value)); }
      case SectionOf(name) => SectionNames(name);
      case AlignTo(n) => AlignAccepted(c, n);
      case LocateAt(a) => LocateAccepts(c, a);
      case _ =>
    }
  }

  predicate AcceptedAt(lines: seq<SourceLine>, i: nat)
    requires AllValid(lines) && i < |lines|
  {
    Run(lines[..i]).Ok? && Step(Run(lines[..i]).value, lines[i]).Ok?
  }

  lemma LastAccepted(lines: seq<SourceLine>)
    requires AllValid(lines) && lines != []
    ensures Run(lines).Ok? <==> Run(lines[..|lines| - 1]).Ok? && AcceptedAt(lines, |lines| - 1)
  {
    hide Step;
  }

  lemma AcceptedBefore(lines: seq<SourceLine>, n: nat, i: nat)
    requires AllValid(lines) && i < n <= |lines|
    ensures AcceptedAt(lines[..n], i) == AcceptedAt(lines, i)
  {
    hide Step, Run;
    assert lines[..n][..i] == lines[..i];
  }

  /** A source is laid out exactly when each line is accepted and .proc is not its last one. */
  lemma {:induction false} LayoutAccepts(lines: seq<SourceLine>)
    requires AllValid(lines)
    ensures Run(lines).Ok? <==> forall i :: 0 <= i < |lines| ==> AcceptedAt(lines, i)
    ensures LaidOut(lines).Ok? <==> Run(lines).Ok? && !StartsProcedure(lines)
  {
    hide Run, AcceptedAt;
    if lines == [] {
      NothingToAccept();
    } else {
      var n := |lines| - 1;
      LayoutAccepts(lines[..n]);
      LastAccepted(lines);
      forall i | 0 <= i < n ensures AcceptedAt(lines[..n], i) == AcceptedAt(lines, i) {
        AcceptedBefore(lines, n, i);
      }
    }
    if Run(lines).Ok? { ProcedureIs(lines); }
  }

  lemma NothingToAccept()
    ensures Run([]).Ok?
  {
  }

  // ----- .locate -----

  /** The address of a section's end. */
  function EndOf(c: Context, s: nat): nat
    requires s < |c.sections|
  {
    c.sections[s].address + c.sections[s].size
  }

  predicate Locates(c: Context, line: SourceLine, s: nat) {
    line.content.LocateAt? && c.current == s
  }

  /** The line may move the end of section s: by `.locate`, by `.align`, or by bytes of its own. */
  predicate Moves(c: Context, line: SourceLine, s: nat)
    requires c.current < |c.sections| && line.Valid() && Step(c, line).Ok?
  {
    c.current == s &&
    (line.content.LocateAt? || line.content.AlignTo?
     || (IsRecorded(line) && Size(Recorded(c, line).emission) > 0))
  }

  /** An accepted `.locate a` makes a the address of the section's end; an empty section is marked. */
  lemma LocateSets(c: Context, line: SourceLine)
    requires WellLaid(c) && line.Valid() && line.content.LocateAt? && Step(c, line).Ok?
    ensures c.current < |Step(c, line).value.sections| && EndOf(Step(c, line).value, c.current) == line.content.address
    ensures var was, now := c.sections[c.current], Step(c, line).value.sections[c.current];
            if was.size == 0 then now.flags == LOCATED && now.size == 0
            else now.flags == was.flags && now.address == was.address
  {
    hide WellLaid, SectionFine, FitsRom;
    CurrentFine(c);
    FlagsFine(c.sections[c.current]);
    assert Marked(0) == LOCATED && Marked(LOCATED) == LOCATED;
  }

  lemma FlagsFine(s: AsmSection)
    requires SectionFine(s)
    ensures s.flags == 0 || s.flags == LOCATED
    ensures s.flags == 0 ==> s.address == 0
  {
  }

  /** Anything else leaves the end where it is. */
  lemma EndStays(c: Context, line: SourceLine, s: nat)
    requires c.current < |c.sections| && line.Valid() && Step(c, line).Ok? && s < |c.sections| && !Moves(c, line, s)
    ensures s < |Step(c, line).value.sections|
    ensures Step(c, line).value.sections[s].address == c.sections[s].address
    ensures Step(c, line).value.sections[s].size == c.sections[s].size
  {
    hide RawData, LabelOf, Padded, Supported, SectionIndex, Marked, FitsRom, KindOf, Size, And;
  }

  /** From line k on the end of section s stays where that line left it, until a line moves it. */
  lemma {:induction false} EndUntil(lines: seq<SourceLine>, k: nat, m: nat, s: nat)
    requires AllValid(lines) && k < m <= |lines| && Run(lines[..m]).Ok?
    requires Run(lines[..k + 1]).Ok? && s < |Run(lines[..k + 1]).value.sections|
    requires forall i :: k < i < m ==> Still(lines, i, s)
    ensures s < |Run(lines[..m]).value.sections|
    ensures Run(lines[..m]).value.sections[s].address == Run(lines[..k + 1]).value.sections[s].address
    ensures Run(lines[..m]).value.sections[s].size == Run(lines[..k + 1]).value.sections[s].size
    decreases m
  {
    hide Step, Moves;
    if m > k + 1 {
      assert lines[..m][..m - 1] == lines[..m - 1] && lines[..m][m - 1] == lines[m - 1];
      EndUntil(lines, k, m - 1, s);
      assert Still(lines, m - 1, s);
      EndStays(Run(lines[..m - 1]).value, lines[m - 1], s);
    }
  }

  /** Line i does not move the end of section s. */
  predicate Still(lines: seq<SourceLine>, i: nat, s: nat)
    requires AllValid(lines) && i < |lines|
  {
    && Run(lines[..i]).Ok? && Step(Run(lines[..i]).value, lines[i]).Ok?
    && !Moves(Run(lines[..i]).value, lines[i], s)
  }

  /**
    Behind an accepted `.locate a` the first line with bytes in that section lies at a:
    its section's address and its offset add up to a.
   */
  lemma LocatedLine(lines: seq<SourceLine>, k: nat, m: nat)
    requires AllValid(lines) && Run(lines).Ok? && k < m < |lines| && lines[k].content.LocateAt?
    requires Run(lines[..k]).Ok? && Run(lines[..m]).Ok?
             && Run(lines[..m]).value.current == Run(lines[..k]).value.current
    requires forall i :: k < i < m ==> Still(lines, i, Run(lines[..k]).value.current)
    requires IsRecorded(lines[m]) && Step(Run(lines[..m]).value, lines[m]).Ok?
    requires Size(Recorded(Run(lines[..m]).value, lines[m]).emission) > 0
    ensures var j, s := |Run(lines[..m]).value.lines|, Run(lines[..k]).value.current;
            && j < |Run(lines).value.lines| && s < |Run(lines).value.sections|
            && Run(lines).value.lines[j] == Recorded(Run(lines[..m]).value, lines[m])
            && Run(lines).value.lines[j].section == s
            && Run(lines).value.sections[s].address + Run(lines).value.lines[j].offset == lines[k].content.address
  {
    hide Step, Recorded, Still, WellLaid, Size, Run;
    var s, c, line := Run(lines[..k]).value.current, Run(lines[..m]).value, lines[m];
    LocatedEnd(lines, k);
    EndUntil(lines, k, m, s);
    RecordedHere(c, line);
    RecordedAt(lines, m);
    RecordSettled(lines, m);
  }

  lemma LocatedEnd(lines: seq<SourceLine>, k: nat)
    requires AllValid(lines) && Run(lines).Ok? && k < |lines| && lines[k].content.LocateAt? && Run(lines[..k]).Ok?
    ensures Run(lines[..k + 1]).Ok? && Run(lines[..k]).value.current < |Run(lines[..k + 1]).value.sections|
    ensures EndOf(Run(lines[..k + 1]).value, Run(lines[..k]).value.current) == lines[k].content.address
  {
    hide Step, WellLaid, EndOf;
    RunGrows(lines, k + 1);
    assert lines[..k + 1][..k] == lines[..k];
    RunWellLaid(lines[..k]);
    LocateSets(Run(lines[..k]).value, lines[k]);
  }

  /** The line recorded for source line m. */
  lemma RecordedAt(lines: seq<SourceLine>, m: nat)
    requires AllValid(lines) && Run(lines).Ok? && m < |lines| && IsRecorded(lines[m])
    ensures Run(lines[..m]).Ok? && Run(lines[..m + 1]).Ok? && Step(Run(lines[..m]).value, lines[m]).Ok?
    ensures Run(lines[..m + 1]) == Step(Run(lines[..m]).value, lines[m])
    ensures |Run(lines[..m]).value.lines| < |Run(lines).value.lines|
    ensures Run(lines).value.lines[|Run(lines[..m]).value.lines|] == Recorded(Run(lines[..m]).value, lines[m])
  {
    hide Step, Recorded;
    RunGrows(lines, m + 1);
    assert lines[..m + 1][..m] == lines[..m];
    StepRecords(Run(lines[..m]).value, lines[m]);
  }

  /** A line with bytes settles the address of its section. */
  lemma RecordSettled(lines: seq<SourceLine>, m: nat)
    requires AllValid(lines) && Run(lines).Ok? && m < |lines| && IsRecorded(lines[m]) && Run(lines[..m]).Ok?
    requires Step(Run(lines[..m]).value, lines[m]).Ok?
    requires Size(Recorded(Run(lines[..m]).value, lines[m]).emission) > 0
    ensures var s := Run(lines[..m]).value.current;
            && s < |Run(lines).value.sections|
            && Run(lines).value.sections[s].address == Run(lines[..m]).value.sections[s].address
            && Run(lines).value.sections[s].flags == Run(lines[..m]).value.sections[s].flags
  {
    hide Step, Recorded, Run, Size, Grows;
    var c := Run(lines[..m]).value;
    RecordedAt(lines, m);
    RecordSettles(c, lines[m]);
    RunGrows(lines, m + 1);
    LaterLayout(Run(lines[..m + 1]).value, Run(lines).value, c.current);
  }

  /** Recording bytes leaves the address and makes the section non-empty. */
  lemma RecordSettles(c: Context, line: SourceLine)
    requires c.current < |c.sections| && line.Valid() && IsRecorded(line) && Step(c, line).Ok?
    requires Size(Recorded(c, line).emission) > 0
    ensures c.current < |Step(c, line).value.sections|
    ensures var now := Step(c, line).value.sections[c.current];
            now.address == c.sections[c.current].address && now.size > 0 && now.flags == c.sections[c.current].flags
  {
    hide RawData, LabelOf, FitsRom, Size;
  }

  /** What a later layout keeps of a section with contents. */
  lemma LaterLayout(a: Context, b: Context, s: nat)
    requires Grows(a, b) && s < |a.sections| && a.sections[s].size > 0
    ensures s < |b.sections|
    ensures b.sections[s].address == a.sections[s].address && b.sections[s].flags == a.sections[s].flags
  {
    assert SectionGrows(a.sections[s], b.sections[s]);
  }

  // ----- every position -----

  /** What each line makes of the size of section s; a new section starts empty. */
  lemma SizeStep(c: Context, line: SourceLine, s: nat)
    requires WellLaid(c) && line.Valid() && Step(c, line).Ok? && s < |Step(c, line).value.sections|
    ensures s >= |c.sections| ==> Step(c, line).value.sections[s].size == 0
    ensures s < |c.sections| ==>
              var was, now := c.sections[s].size, Step(c, line).value.sections[s].size;
              if c.current != s then now == was
              else match line.content
                   case AlignTo(n) => n > 0 && now % n == 0 && was <= now < was + n
                   case LocateAt(a) => now == if was == 0 then 0 else a - c.sections[s].address
                   case _ => now == was + if IsRecorded(line) then Size(Recorded(c, line).emission) else 0
  {
    hide WellLaid, RawData, LabelOf, Padded, Supported, SectionIndex, Marked, FitsRom, KindOf, Size, And;
    CurrentFine(c);
    if line.content.AlignTo? && c.current == s {
      SameLayout(c, c.(starting := false));
      AlignKeeps(c.(starting := false), line.content.alignment);
      PaddedAligns(c.sections[s].size, line.content.alignment);
    }
  }

  /** A line lies directly behind the one before it in its section when nothing between them moves the end. */
  lemma NextLineBehind(lines: seq<SourceLine>, k: nat, m: nat)
    requires AllValid(lines) && Run(lines).Ok? && k < m < |lines| && IsRecorded(lines[k]) && IsRecorded(lines[m])
    requires Run(lines[..k]).Ok? && Run(lines[..m]).Ok?
             && Run(lines[..m]).value.current == Run(lines[..k]).value.current
    requires forall i :: k < i < m ==> Still(lines, i, Run(lines[..k]).value.current)
    ensures var all, i, j := Run(lines).value.lines, |Run(lines[..k]).value.lines|, |Run(lines[..m]).value.lines|;
            && i < |all| && j < |all| && all[j].section == all[i].section
            && all[j].offset == End(all[i])
  {
    hide Step, Recorded, Still, WellLaid, Size, Run;
    var s := Run(lines[..k]).value.current;
    RecordedAt(lines, k);
    RecordedAt(lines, m);
    RecordedHere(Run(lines[..k]).value, lines[k]);
    RecordedHere(Run(lines[..m]).value, lines[m]);
    RunWellLaid(lines[..k]);
    RunWellLaid(lines[..k + 1]);
    SizeAfter(Run(lines[..k]).value, lines[k]);
    EndUntil(lines, k, m, s);
  }

  lemma SizeAfter(c: Context, line: SourceLine)
    requires c.current < |c.sections| && line.Valid() && IsRecorded(line) && Step(c, line).Ok?
    ensures c.current < |Step(c, line).value.sections|
    ensures Step(c, line).value.sections[c.current].size == End(Recorded(c, line))
  {
    hide RawData, LabelOf, FitsRom, Size;
  }

  /** Some `.locate` met the section while it was empty. */
  predicate LocatedEmpty(lines: seq<SourceLine>, s: nat)
    requires AllValid(lines)
  {
    exists i :: 0 <= i < |lines| && LocatesEmpty(lines, i, s)
  }

  predicate LocatesEmpty(lines: seq<SourceLine>, i: nat, s: nat)
    requires AllValid(lines) && i < |lines|
  {
    && Run(lines[..i]).Ok? && Locates(Run(lines[..i]).value, lines[i], s)
    && Run(lines[..i]).value.sections[s].size == 0
  }

  /** How one line changes the mark of section s. */
  lemma MarkStep(c: Context, line: SourceLine, s: nat)
    requires WellLaid(c) && line.Valid() && Step(c, line).Ok? && s < |Step(c, line).value.sections|
    ensures Locates(c, line, s) ==> s < |c.sections|
    ensures Step(c, line).value.sections[s].flags
            == if Locates(c, line, s) && c.sections[s].size == 0 then LOCATED
               else if s < |c.sections| then c.sections[s].flags else 0
  {
    hide WellLaid, Step;
    CurrentFine(c);
    if Locates(c, line, s) {
      LocateSets(c, line);
    } else {
      AddressKept(c, line, s);
    }
  }

  /** A section is marked as located exactly when a `.locate` met it empty. */
  lemma {:induction false} MarkedIs(lines: seq<SourceLine>, s: nat)
    requires AllValid(lines) && Run(lines).Ok? && s < |Run(lines).value.sections|
    ensures Run(lines).value.sections[s].flags == LOCATED <==> LocatedEmpty(lines, s)
    ensures Run(lines).value.sections[s].flags == 0 || Run(lines).value.sections[s].flags == LOCATED
  {
    hide Step, WellLaid, LocatesEmpty, LocatedEmpty, Locates;
    if lines == [] {
      assert INITIAL.sections[s] == NewSection(TEXT_NAME);
      NothingLocated(s);
    } else {
      var front := lines[..|lines| - 1];
      var c := Run(front).value;
      RunWellLaid(front);
      MarkStep(c, lines[|lines| - 1], s);
      if s < |c.sections| { MarkedIs(front, s); }
      LocatedEmptyNext(lines, s);
      LastLocates(lines, s);
    }
  }

  lemma NothingLocated(s: nat)
    ensures !LocatedEmpty([], s)
  {
  }

  lemma LastLocates(lines: seq<SourceLine>, s: nat)
    requires AllValid(lines) && lines != [] && Run(lines).Ok?
    ensures var c := Run(lines[..|lines| - 1]).value;
            LocatesEmpty(lines, |lines| - 1, s) <==>
              s < |c.sections| && Locates(c, lines[|lines| - 1], s) && c.sections[s].size == 0
  {
    hide Step;
  }

  lemma LocatedEmptyNext(lines: seq<SourceLine>, s: nat)
    requires AllValid(lines) && lines != [] && Run(lines).Ok?
    ensures var front := lines[..|lines| - 1];
            LocatedEmpty(lines, s) <==>
              (s < |Run(front).value.sections| && LocatedEmpty(front, s)) || LocatesEmpty(lines, |lines| - 1, s)
  {
    hide Step, Locates;
    var front := lines[..|lines| - 1];
    forall i | 0 <= i < |front| ensures LocatesEmpty(lines, i, s) == LocatesEmpty(front, i, s) {
      assert lines[..i] == front[..i];
    }
    forall i | 0 <= i < |front| && LocatesEmpty(front, i, s) ensures s < |Run(front).value.sections| {
      RunGrows(front, i);
      LocatesCurrent(front, i, s);
    }
    if LocatedEmpty(front, s) {
      var i :| 0 <= i < |front| && LocatesEmpty(front, i, s);
      assert LocatesEmpty(lines, i, s);
    }
  }

  lemma LocatesCurrent(lines: seq<SourceLine>, i: nat, s: nat)
    requires AllValid(lines) && i < |lines| && LocatesEmpty(lines, i, s)
    ensures Run(lines[..i]).Ok? && s < |Run(lines[..i]).value.sections|
  {
    hide Run;
  }

  // ----- sections, procedures and lists -----

  /** The name in the last `.section`; a source starts in text. */
  function SectionNamed(lines: seq<SourceLine>): CString {
    if lines == [] then [116, 101, 120, 116]
    else if lines[|lines| - 1].content.SectionOf? then lines[|lines| - 1].content.name
    else SectionNamed(lines[..|lines| - 1])
  }

  /** Only .bss and .data, with or without the dot, are no text. */
  function KindNamed(name: CString): Word {
    if name == [98, 115, 115] || name == [46, 98, 115, 115] then 3
    else if name == [100, 97, 116, 97] || name == [46, 100, 97, 116, 97] then 2
    else 1
  }

  /** A line stands in the section that the last `.section` before it names, and that has the kind its name says. */
  lemma {:induction false} CurrentIsNamed(lines: seq<SourceLine>)
    requires AllValid(lines) && Run(lines).Ok?
    ensures var s := Run(lines).value.sections[Run(lines).value.current];
            s.name == SectionNamed(lines) && s.kind == KindNamed(SectionNamed(lines))
    ensures forall s :: 0 <= s < |Run(lines).value.sections| ==> Run(lines).value.sections[s].kind
                                                                 == KindNamed(Run(lines).value.sections[s].name)
  {
    hide Step;
    if lines != [] {
      CurrentIsNamed(lines[..|lines| - 1]);
      StepNames(Run(lines[..|lines| - 1]).value, lines[|lines| - 1]);
    }
  }

  lemma StepNames(c: Context, line: SourceLine)
    requires c.current < |c.sections| && line.Valid() && Step(c, line).Ok?
    requires forall s :: 0 <= s < |c.sections| ==> c.sections[s].kind == KindNamed(c.sections[s].name)
    ensures var after := Step(c, line).value;
            && after.current < |after.sections|
            && after.sections[after.current].name
               == (if line.content.SectionOf? then line.content.name else c.sections[c.current].name)
            && forall s :: 0 <= s < |after.sections| ==> after.sections[s].kind == KindNamed(after.sections[s].name)
  {
    hide RawData, LabelOf, Padded, Supported, Marked, FitsRom, Size, And;
    assert [DOT] + BSS_NAME == [46, 98, 115, 115] && [DOT] + DATA_NAME == [46, 100, 97, 116, 97];
  }

  /** The procedure a line behind these stands in. */
  function Enclosing(lines: seq<SourceLine>): Option<CString> {
    if lines == [] then None
    else
      match lines[|lines| - 1].content
      case Procedure(name) => Some(name)
      case EndProcedure => None
      case _ => Enclosing(lines[..|lines| - 1])
  }

  predicate StartsProcedure(lines: seq<SourceLine>) {
    lines != [] && lines[|lines| - 1].content.Procedure?
  }

  lemma {:induction false} ProcedureIs(lines: seq<SourceLine>)
    requires AllValid(lines) && Run(lines).Ok?
    ensures Run(lines).value.procedure == Enclosing(lines) && Run(lines).value.starting == StartsProcedure(lines)
  {
    hide Step;
    if lines != [] {
      ProcedureIs(lines[..|lines| - 1]);
      StepProcedure(Run(lines[..|lines| - 1]).value, lines[|lines| - 1]);
    }
  }

  lemma StepProcedure(c: Context, line: SourceLine)
    requires c.current < |c.sections| && line.Valid() && Step(c, line).Ok?
    ensures var after := Step(c, line).value;
            && after.starting == line.content.Procedure?
            && after.procedure == (if line.content.Procedure? then Some(line.content.name)
                                   else if line.content.EndProcedure? then None else c.procedure)
  {
    hide RawData, LabelOf, Padded, Supported, SectionIndex, Marked, FitsRom, Size, And;
  }

  /** The label a source line is recorded with. */
  function LabelIn(lines: seq<SourceLine>, m: nat): Option<CString>
    requires m < |lines|
  {
    var p, own := Enclosing(lines[..m]), lines[m].name;
    if p.None? then own
    else if StartsProcedure(lines[..m]) then p
    else if own.None? then None
    else if own.value == [] then p
    else Some(p.value + [46] + own.value)
  }

  /**
    The line behind `.proc p` is labelled p, whatever its own label; any other label inside
    the procedure is qualified by p and a dot, and outside procedures labels are as written.
   */
  lemma LabelsQualified(lines: seq<SourceLine>, m: nat)
    requires AllValid(lines) && Run(lines).Ok? && m < |lines| && IsRecorded(lines[m])
    ensures Run(lines[..m]).Ok? && |Run(lines[..m]).value.lines| < |Run(lines).value.lines|
    ensures var j := |Run(lines[..m]).value.lines|;
            && Run(lines).value.lines[j].name == LabelIn(lines, m)
            && Run(lines).value.lines[j].section == Run(lines[..m]).value.current
  {
    hide Step, RawData;
    RecordedAt(lines, m);
    RecordedHere(Run(lines[..m]).value, lines[m]);
    ProcedureIs(lines[..m]);
  }

  /** `.global` and `.extern` list exactly the names they are given, and the last `.entry` counts. */
  lemma {:induction false} NamesListed(lines: seq<SourceLine>)
    requires AllValid(lines) && Run(lines).Ok?
    ensures forall name :: name in Run(lines).value.globals <==> GlobalOf(name) in Contents(lines)
    ensures forall name :: name in Run(lines).value.externals <==> ExternOf(name) in Contents(lines)
    ensures Run(lines).value.entry == EntryNamed(lines)
  {
    hide Step;
    if lines != [] {
      var front := lines[..|lines| - 1];
      NamesListed(front);
      assert Contents(lines) == Contents(front) + [lines[|lines| - 1].content];
      StepLists(Run(front).value, lines[|lines| - 1]);
    }
  }

  function Contents(lines: seq<SourceLine>): (contents: seq<Content>)
    ensures |contents| == |lines|
    ensures forall i :: 0 <= i < |contents| ==> contents[i] == lines[i].content
  {
    seq(|lines|, i requires 0 <= i < |lines| => lines[i].content)
  }

  function EntryNamed(lines: seq<SourceLine>): Option<CString> {
    if lines == [] then None
    else if lines[|lines| - 1].content.EntryOf? then Some(lines[|lines| - 1].content.name)
    else EntryNamed(lines[..|lines| - 1])
  }

  lemma StepLists(c: Context, line: SourceLine)
    requires c.current < |c.sections| && line.Valid() && Step(c, line).Ok?
    ensures var after := Step(c, line).value;
            && after.globals == c.globals + (if line.content.GlobalOf? then [line.content.name] else [])
            && after.externals == c.externals + (if line.content.ExternOf? then [line.content.name] else [])
            && after.entry == (if line.content.EntryOf? then Some(line.content.name) else c.entry)
  {
    hide RawData, LabelOf, Padded, Supported, SectionIndex, Marked, FitsRom, Size, And;
  }
}
