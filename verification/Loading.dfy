/** What vm_loadImage does to ROM, and what ends up there when the sections do not overlap. */
module Loading {
  import opened Wrappers
  import opened Bytes
  import opened ImageFormat
  import opened ImageRoundTrip
  import opened LinkProofs

  predicate InRom(s: Section) {
    s.address <= ROM_SIZE && s.size <= ROM_SIZE - s.address
  }

  /** The bytes a decoded section occupies. */
  function Occupies(s: Section): (b: seq<Byte>)
    requires NormalForm(s)
    ensures |b| == s.size
  {
    if s.kind == BSS then Zeros(s.size) else s.data.value
  }

  predicate Loadable(sections: seq<Section>) {
    forall i :: 0 <= i < |sections| ==> InRom(sections[i]) && NormalForm(sections[i])
  }

  /** Copies the sections in order; a later one overwrites an earlier one. */
  function Copied(rom: seq<Byte>, sections: seq<Section>): (r: seq<Byte>)
    requires |rom| == ROM_SIZE && Loadable(sections)
    ensures |r| == ROM_SIZE
  {
    if sections == [] then rom
    else
      var last := sections[|sections| - 1];
      Splice(Copied(rom, sections[..|sections| - 1]), last.address, Occupies(last))
  }

  /** ROM and entry point after loading an image, or why it is refused. */
  function Load(rom: seq<Byte>, input: seq<Byte>): (r: Result<(seq<Byte>, Word), ImageError>)
    requires |rom| == ROM_SIZE
    ensures r.Ok? ==> |r.value.0| == ROM_SIZE
  {
    var decoded := Decode(input);
    if decoded.Err? then Err(decoded.error)
    else if decoded.value.kind != EXECUTABLE then Err(InvalidKind)
    else if exists i :: 0 <= i < |decoded.value.sections| && !InRom(decoded.value.sections[i]) then Err(Bounds)
    else
      DecodedSections(input);
      Ok((Copied(rom, decoded.value.sections), decoded.value.entryPoint))
  }

  /** An image is loaded exactly when it decodes to an executable whose sections all end inside ROM. */
  lemma LoadAccepts(rom: seq<Byte>, input: seq<Byte>)
    requires |rom| == ROM_SIZE
    ensures Load(rom, input).Ok? <==>
            && Decode(input).Ok? && Decode(input).value.kind == 2
            && forall i :: 0 <= i < |Decode(input).value.sections| ==>
                 Decode(input).value.sections[i].address + Decode(input).value.sections[i].size <= 4096
    ensures Load(rom, input).Err? ==>
              Load(rom, input).error == if Decode(input).Err? then Decode(input).error
                                        else if Decode(input).value.kind != 2 then InvalidKind else Bounds
    ensures Load(rom, input).Ok? ==> Load(rom, input).value.1 == Decode(input).value.entryPoint
  {
    hide Decode, Copied;
  }

  /** Where sections overlap, the last one is in ROM. */
  lemma {:induction false} LastSectionWins(rom: seq<Byte>, sections: seq<Section>, d: nat, p: nat)
    requires |rom| == ROM_SIZE && Loadable(sections) && d < |sections| && Within(sections[d], p)
    requires forall j :: d < j < |sections| ==> !Within(sections[j], p)
    ensures p < ROM_SIZE && Copied(rom, sections)[p] == Occupies(sections[d])[p - sections[d].address]
    decreases |sections|
  {
    hide Occupies, NormalForm;
    var n := |sections| - 1;
    if d < n {
      LastSectionWins(rom, sections[..n], d, p);
      assert !Within(sections[n], p);
    }
  }

  predicate PairwiseApart(sections: seq<Section>) {
    forall i, j :: 0 <= i < j < |sections| ==> Apart(sections[i], sections[j])
  }

  predicate Within(s: Section, p: nat) {
    s.address <= p < s.address + s.size
  }

  /** A byte outside every section keeps its value. */
  lemma {:induction false} OutsideKept(rom: seq<Byte>, sections: seq<Section>, p: nat)
    requires |rom| == ROM_SIZE && Loadable(sections) && p < ROM_SIZE
    requires forall i :: 0 <= i < |sections| ==> !Within(sections[i], p)
    ensures Copied(rom, sections)[p] == rom[p]
  {
    hide NormalForm, Occupies;
    if sections != [] {
      var front := sections[..|sections| - 1];
      OutsideKept(rom, front, p);
      assert !Within(sections[|sections| - 1], p);
    }
  }

  /** Sections that do not overlap all survive: each is found at its address. */
  lemma {:induction false} SectionsLoaded(rom: seq<Byte>, sections: seq<Section>, i: nat)
    requires |rom| == ROM_SIZE && Loadable(sections) && PairwiseApart(sections) && i < |sections|
    ensures At(Copied(rom, sections), sections[i].address, Occupies(sections[i]))
  {
    hide NormalForm, Occupies;
    var n := |sections| - 1;
    var front := sections[..n];
    if i < n {
      SectionsLoaded(rom, front, i);
      assert front[i] == sections[i] && Apart(sections[i], sections[n]);
      SpliceApart(Copied(rom, front), sections[i].address, Occupies(sections[i]), sections[n].address,
                  Occupies(sections[n]));
    } else {
      SpliceThere(Copied(rom, front), sections[n].address, Occupies(sections[n]));
    }
  }

  lemma SpliceThere(b: seq<Byte>, at: nat, part: seq<Byte>)
    requires at + |part| <= |b|
    ensures At(Splice(b, at, part), at, part)
  {
  }

  lemma SpliceApart(b: seq<Byte>, at: nat, part: seq<Byte>, other: nat, more: seq<Byte>)
    requires At(b, at, part) && other + |more| <= |b|
    requires !(at < other + |more| && other < at + |part|)
    ensures At(Splice(b, other, more), at, part)
  {
    var r := Splice(b, other, more);
    forall k | 0 <= k < |part| ensures r[at..at + |part|][k] == part[k] {
      assert b[at..at + |part|][k] == part[k];
    }
    assert r[at..at + |part|] == part;
  }
}
