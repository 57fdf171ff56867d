/** Reading inverts writing, for every well-formed draft and for both readers. */
module ElfRoundTrip {
  import opened LittleEndian
  import opened ElfObject
  import opened ElfWriter

  // ----- Sizes and places

  lemma HeaderFieldOffsets(fields: seq<Field>)
    requires |fields| == 13
    requires fields[0].width == fields[1].width == 2 && fields[2].width == 4
    requires fields[3].width == fields[4].width == fields[5].width == 8 && fields[6].width == 4
    requires forall k :: 7 <= k < 13 ==> fields[k].width == 2
    ensures OffsetOf(fields, 0) == 0 && OffsetOf(fields, 1) == 2 && OffsetOf(fields, 5) == 24
    ensures OffsetOf(fields, 7) == 36 && OffsetOf(fields, 10) == 42 && OffsetOf(fields, 11) == 44
    ensures OffsetOf(fields, 12) == 46 && OffsetOf(fields, 13) == 48
  {
    assert OffsetOf(fields, 1) == 2;
    assert OffsetOf(fields, 2) == 4;
    assert OffsetOf(fields, 3) == 8;
    assert OffsetOf(fields, 4) == 16;
    assert OffsetOf(fields, 5) == 24;
    assert OffsetOf(fields, 6) == 32;
    assert OffsetOf(fields, 7) == 36;
    assert OffsetOf(fields, 8) == 38;
    assert OffsetOf(fields, 9) == 40;
    assert OffsetOf(fields, 10) == 42;
    assert OffsetOf(fields, 11) == 44;
  }

  lemma SectionFieldOffsets(fields: seq<Field>)
    requires |fields| == 10
    requires fields[0].width == fields[1].width == fields[6].width == fields[7].width == 4
    requires fields[2].width == fields[3].width == fields[4].width == fields[5].width == 8
    requires fields[8].width == fields[9].width == 8
    ensures OffsetOf(fields, 0) == 0 && OffsetOf(fields, 1) == 4 && OffsetOf(fields, 2) == 8
            && OffsetOf(fields, 4) == 24
    ensures OffsetOf(fields, 5) == 32 && OffsetOf(fields, 6) == 40 && OffsetOf(fields, 7) == 44
    ensures OffsetOf(fields, 9) == 56 && OffsetOf(fields, 10) == 64
  {
    assert OffsetOf(fields, 1) == 4;
    assert OffsetOf(fields, 2) == 8;
    assert OffsetOf(fields, 3) == 16;
    assert OffsetOf(fields, 4) == 24;
    assert OffsetOf(fields, 5) == 32;
    assert OffsetOf(fields, 6) == 40;
    assert OffsetOf(fields, 7) == 44;
    assert OffsetOf(fields, 8) == 48;
  }

  lemma SymbolFieldOffsets(fields: seq<Field>)
    requires |fields| == 6 && fields[0].width == 4 && fields[1].width == fields[2].width == 1 && fields[3].width == 2
    requires fields[4].width == fields[5].width == 8
    ensures OffsetOf(fields, 0) == 0 && OffsetOf(fields, 1) == 4 && OffsetOf(fields, 2) == 5 && OffsetOf(fields, 3) == 6
    ensures OffsetOf(fields, 4) == 8 && OffsetOf(fields, 5) == 16 && OffsetOf(fields, 6) == 24
  {
    assert OffsetOf(fields, 1) == 4;
    assert OffsetOf(fields, 2) == 5;
    assert OffsetOf(fields, 3) == 6;
    assert OffsetOf(fields, 4) == 8;
  }

  lemma HeaderSize(d: Draft, machine: nat)
    ensures |Header(d, machine)| == HEADER_SIZE
  {
    HeaderFieldOffsets(HeaderFields(d, machine));
  }

  lemma SectionHeaderSizes(d: Draft)
    ensures forall i :: 0 <= i < |d.sections| ==> |SectionHeaders(d)[i]| == SECTION_HEADER_SIZE
  {
    hide Pack, OffsetOf, SectionFields;
    forall i | 0 <= i < |d.sections|
      ensures |SectionHeaders(d)[i]| == SECTION_HEADER_SIZE
    {
      SectionHeaderSize(d, i);
    }
  }

  lemma SectionHeaderSize(d: Draft, i: nat)
    requires i < |d.sections|
    ensures |Pack(SectionFields(d, i), 10)| == SECTION_HEADER_SIZE
  {
    hide Pack, OffsetOf, BodyOffset, SizeOf, NameOffset, NamesAt;
    SectionFieldOffsets(SectionFields(d, i));
  }

  lemma FileLayout(d: Draft, machine: nat)
    ensures |File(d, machine)| == BodyOffset(d, |d.sections|) + SECTION_HEADER_SIZE * |d.sections|
    ensures Holds(File(d, machine), 0, Header(d, machine))
    ensures Holds(File(d, machine), HEADER_SIZE, Concat(Bodies(d)))
    ensures Holds(File(d, machine), BodyOffset(d, |d.sections|), Concat(SectionHeaders(d)))
  {
    hide Header, Bodies, SectionHeaders, Concat;
    HeaderSize(d, machine);
    ConcatLength(Bodies(d));
    ConcatLength(SectionHeaders(d));
    SectionHeaderSizes(d);
    EqualParts(SectionHeaders(d), SECTION_HEADER_SIZE, |d.sections|);
  }

  lemma BodyAt(d: Draft, machine: nat, i: nat)
    requires i < |d.sections|
    ensures Holds(File(d, machine), BodyOffset(d, i), Body(d, d.sections[i]))
  {
    hide File, Concat, Body;
    FileLayout(d, machine);
    PartOfConcat(Bodies(d), i);
    HoldsInside(File(d, machine), HEADER_SIZE, Concat(Bodies(d)), PartOffset(Bodies(d), i), Bodies(d)[i]);
  }

  lemma SectionHeaderAt(d: Draft, machine: nat, i: nat)
    requires i < |d.sections|
    ensures Holds(File(d, machine), BodyOffset(d, |d.sections|) + i * SECTION_HEADER_SIZE,
                  Pack(SectionFields(d, i), 10))
  {
    hide File, Concat, Pack, BodyOffset, Header, Bodies, SectionFields, Holds, PartOffset, OffsetOf;
    FileLayout(d, machine);
    var headers := SectionHeaders(d);
    PartOfConcat(headers, i);
    SectionHeaderSizes(d);
    EqualParts(headers, SECTION_HEADER_SIZE, i);
    HoldsInside(File(d, machine), BodyOffset(d, |d.sections|), Concat(headers), PartOffset(headers, i), headers[i]);
  }

  lemma RecordAt(d: Draft, machine: nat, i: nat, k: nat)
    requires i < |d.sections|
    requires var records := Records(d, d.sections[i]);
             k < |records| && forall j :: 0 <= j < |records| ==> |records[j]| == SYMBOL_SIZE
    ensures Holds(File(d, machine), BodyOffset(d, i) + SYMBOL_SIZE * k, Records(d, d.sections[i])[k])
  {
    hide File, Concat, Records;
    var records := Records(d, d.sections[i]);
    BodyAt(d, machine, i);
    PartOfConcat(records, k);
    EqualParts(records, SYMBOL_SIZE, k);
    HoldsInside(File(d, machine), BodyOffset(d, i), Body(d, d.sections[i]), SYMBOL_SIZE * k, records[k]);
  }

  lemma {:induction false} PartOffsetGrows(parts: seq<Bytes>, i: nat, j: nat)
    requires i <= j <= |parts|
    ensures PartOffset(parts, i) <= PartOffset(parts, j)
  {
    if i < j {
      PartOffsetGrows(parts, i, j - 1);
    }
  }

  /** Offsets and sizes of a well-formed draft fit a 64-bit field. */
  lemma OffsetsFit(d: Draft, i: nat)
    requires WellFormed(d) && i < |d.sections|
    ensures BodyOffset(d, i) + |Body(d, d.sections[i])| <= BodyOffset(d, |d.sections|) < TWO_64
  {
    hide File, Body, Header, Holds, SectionHeaders, Concat, SectionFits;
    FileLayout(d, 0);
    PartOffsetGrows(Bodies(d), i + 1, |d.sections|);
  }

  // ----- The header

  /** Every value fits its field. */
  ghost predicate Fits(fields: seq<Field>) {
    forall k :: 0 <= k < |fields| ==> fields[k].value < Pow256(fields[k].width)
  }

  lemma HeaderWords(file: Bytes, fields: seq<Field>)
    requires |fields| == 13 && Fits(fields)
    requires fields[0].width == fields[1].width == 2 && fields[2].width == 4
    requires fields[3].width == fields[4].width == fields[5].width == 8 && fields[6].width == 4
    requires forall k :: 7 <= k < 13 ==> fields[k].width == 2
    requires Holds(file, 16, Pack(fields, 13))
    ensures HEADER_SIZE <= |file|
    ensures Word(file, 16, 2) == fields[0].value && Word(file, 18, 2) == fields[1].value
    ensures Word(file, 40, 8) == fields[5].value && Word(file, 52, 2) == fields[7].value
    ensures Word(file, 58, 2) == fields[10].value && Word(file, 60, 2) == fields[11].value
    ensures Word(file, 62, 2) == fields[12].value
  {
    hide Pack, Word, OffsetOf;
    HeaderFieldOffsets(fields);
    FieldRead(file, 16, fields, 0);
    FieldRead(file, 16, fields, 1);
    FieldRead(file, 16, fields, 5);
    FieldRead(file, 16, fields, 7);
    FieldRead(file, 16, fields, 10);
    FieldRead(file, 16, fields, 11);
    FieldRead(file, 16, fields, 12);
  }

  lemma HeaderReads(d: Draft, machine: nat)
    requires WellFormed(d) && machine < TWO_16
    ensures var file := File(d, machine);
            && HeaderOk(file, machine) && SectionTable(file) == BodyOffset(d, |d.sections|)
            && SectionCount(file) == |d.sections| && NameTable(file) == d.names
  {
    hide File, Bodies, SectionHeaders, SectionFits, BodyOffset, Pack, Word;
    var file, fields := File(d, machine), HeaderFields(d, machine);
    FileLayout(d, machine);
    OffsetsFit(d, 0);
    WordSizes();
    HeaderSize(d, machine);
    HeaderFieldOffsets(fields);
    var packed := Pack(fields, 13);
    assert Header(d, machine)[16..64] == packed;
    HoldsInside(file, 0, Header(d, machine), 16, packed);
    HeaderWords(file, fields);
    IdentReads(file, packed);
  }

  lemma IdentReads(file: Bytes, packed: Bytes)
    requires |packed| == 48 && Holds(file, 0, IDENT + packed)
    ensures file[..4] == ELF_MAGIC && file[4] == ELFCLASS64 && file[5] == ELFDATA2LSB
  {
    var header := IDENT + packed;
    assert forall i :: 0 <= i < 16 ==> file[i] == file[0..64][i] == header[i] == IDENT[i];
  }

  // ----- The section table

  function RawMeant(d: Draft, i: nat): RawSection
    requires i < |d.sections|
  {
    var s := d.sections[i];
    RawSection(if s.name < |NamesAt(d, d.names)| then NameOffset(NamesAt(d, d.names), s.name) else 0, KindOf(s.content),
               s.flags, BodyOffset(d, i), SizeOf(d, s), s.link, s.info, EntrySizeOf(s.content))
  }

  lemma SectionWords(file: Bytes, at: nat, fields: seq<Field>)
    requires |fields| == 10 && Fits(fields)
    requires fields[0].width == fields[1].width == fields[6].width == fields[7].width == 4
    requires fields[2].width == fields[3].width == fields[4].width == fields[5].width == 8
    requires fields[8].width == fields[9].width == 8
    requires Holds(file, at, Pack(fields, 10))
    ensures Inside(file, at, SECTION_HEADER_SIZE)
    ensures RawSectionAt(file, at) == RawSection(fields[0].value, fields[1].value, fields[2].value, fields[4].value,
                                                 fields[5].value, fields[6].value, fields[7].value, fields[9].value)
  {
    hide Pack, Word, OffsetOf;
    SectionFieldOffsets(fields);
    FieldRead(file, at, fields, 0);
    FieldRead(file, at, fields, 1);
    FieldRead(file, at, fields, 2);
    FieldRead(file, at, fields, 4);
    FieldRead(file, at, fields, 5);
    FieldRead(file, at, fields, 6);
    FieldRead(file, at, fields, 7);
    FieldRead(file, at, fields, 9);
  }

  lemma NameOffsetFits(names: seq<Bytes>, k: nat)
    requires NamesFit(names) && k < |names|
    ensures NameOffset(names, k) < TWO_32
  {
    NameRead(names, k);
  }

  ghost predicate ReadsSection(file: Bytes, at: nat, raw: RawSection) {
    Inside(file, at, SECTION_HEADER_SIZE) && RawSectionAt(file, at) == raw
  }

  lemma SectionRead(file: Bytes, at: nat, raw: RawSection)
    requires ReadsSection(file, at, raw)
    ensures Inside(file, at, SECTION_HEADER_SIZE) && RawSectionAt(file, at) == raw
  {
  }

  lemma SectionReads(d: Draft, machine: nat, i: nat)
    requires WellFormed(d) && i < |d.sections|
    ensures ReadsSection(File(d, machine), BodyOffset(d, |d.sections|) + i * SECTION_HEADER_SIZE, RawMeant(d, i))
  {
    hide File, Pack, Body, BodyOffset, RawSectionAt, NameOffset, NamesFit;
    var s := d.sections[i];
    assert SectionFits(d, s) && SectionFits(d, d.sections[d.names]);
    NameOffsetFits(NamesAt(d, d.names), s.name);
    OffsetsFit(d, i);
    WordSizes();
    SectionHeaderAt(d, machine, i);
    SectionWords(File(d, machine), BodyOffset(d, |d.sections|) + i * SECTION_HEADER_SIZE, SectionFields(d, i));
  }

  /** A section table of `n` headers at the end of the file. */
  lemma RawTableReads(file: Bytes, at: nat, n: nat)
    requires HEADER_SIZE <= |file| && SectionTable(file) == at && SectionCount(file) == n
    requires |file| == at + SECTION_HEADER_SIZE * n
    ensures TableInside(file) && |RawSections(file)| == n
    ensures forall i :: 0 <= i < n ==>
              Inside(file, at + i * SECTION_HEADER_SIZE, SECTION_HEADER_SIZE)
              && RawSections(file)[i] == RawSectionAt(file, at + i * SECTION_HEADER_SIZE)
  {
    hide RawSectionAt, SectionTable, SectionCount;
  }

  lemma HeaderIsInside(file: Bytes, machine: nat)
    requires HeaderOk(file, machine)
    ensures HEADER_SIZE <= |file|
  {
  }

  lemma FileLength(d: Draft, machine: nat)
    ensures |File(d, machine)| == BodyOffset(d, |d.sections|) + SECTION_HEADER_SIZE * |d.sections|
  {
    hide *;
    FileLayout(d, machine);
  }

  lemma RawSectionsRead(d: Draft, machine: nat)
    requires WellFormed(d) && machine < TWO_16
    ensures var file := File(d, machine);
            && HeaderOk(file, machine) && TableInside(file) && NameTable(file) == d.names
            && |RawSections(file)| == |d.sections|
            && forall i :: 0 <= i < |d.sections| ==> RawSections(file)[i] == RawMeant(d, i)
  {
    hide *;
    HeaderReads(d, machine);
    HeaderIsInside(File(d, machine), machine);
    FileLength(d, machine);
    RawTableReads(File(d, machine), BodyOffset(d, |d.sections|), |d.sections|);
    forall i | 0 <= i < |d.sections|
      ensures RawSections(File(d, machine))[i] == RawMeant(d, i)
    {
      SectionReads(d, machine, i);
      SectionRead(File(d, machine), BodyOffset(d, |d.sections|) + i * SECTION_HEADER_SIZE, RawMeant(d, i));
    }
  }

  lemma NamesBody(d: Draft, link: nat)
    requires link < |d.sections| && d.sections[link].content.Names?
    ensures Body(d, d.sections[link]) == NameBytes(NamesAt(d, link))
  {
    hide NameBytes;
    ConcatOne(NameBytes(NamesAt(d, link)));
  }

  lemma ConcatOne(part: Bytes)
    ensures Concat([part]) == part
  {
    assert [part][..0] == [];
  }

  /** Section names come from a written string table. */
  lemma NamedFromTable(data: Bytes, raw: seq<RawSection>, table: nat, names: seq<Bytes>, index: seq<nat>)
    requires table < |raw| && |index| == |raw|
    requires Holds(data, raw[table].offset, NameBytes(names)) && raw[table].size == |NameBytes(names)|
    requires forall i :: 0 <= i < |raw| ==>
               index[i] < |names| && NoNul(names[index[i]]) && raw[i].name == NameOffset(names, index[i])
    ensures NamesOk(data, raw, table)
    ensures forall i :: 0 <= i < |raw| ==>
              && var r := raw[i];
              && NamedSections(data, raw, table)[i]
                 == Section(names[index[i]], r.kind, r.flags, r.offset, r.size, r.link, r.info, r.entrySize)
  {
    hide NameBytes, NameOffset, HasString, StringAt, NoNul;
    forall i | 0 <= i < |raw|
      ensures HasString(NameBytes(names), raw[i].name) && StringAt(NameBytes(names), raw[i].name) == names[index[i]]
    {
      NameRead(names, index[i]);
    }
  }

  lemma SectionsRead(d: Draft, machine: nat)
    requires WellFormed(d) && machine < TWO_16
    ensures SectionsOk(File(d, machine), machine) && Sections(File(d, machine), machine) == SectionsMeant(d)
  {
    hide File, NameBytes, NameOffset, BodyOffset, TableInside, NamesOk, NamedSections, Body, RawSections;
    var file, names := File(d, machine), NamesAt(d, d.names);
    RawSectionsRead(d, machine);
    var raw := RawSections(file);
    NamesBody(d, d.names);
    BodyAt(d, machine, d.names);
    assert SectionFits(d, d.sections[d.names]);
    var index := seq(|d.sections|, i requires 0 <= i < |d.sections| => d.sections[i].name);
    assert forall i :: 0 <= i < |d.sections| ==> SectionFits(d, d.sections[i]);
    NamedFromTable(file, raw, d.names, names, index);
    assert Sections(file, machine) == SectionsMeant(d);
  }

  // ----- Symbols

  lemma SymbolWords(data: Bytes, at: nat, strings: Bytes, fields: seq<Field>)
    requires |fields| == 6 && Fits(fields)
    requires fields[0].width == 4 && fields[1].width == fields[2].width == 1 && fields[3].width == 2
    requires fields[4].width == fields[5].width == 8
    requires Holds(data, at, Pack(fields, 6))
    requires fields[0].value == 0 || HasString(strings, fields[0].value)
    ensures SymbolOk(data, strings, at)
    ensures SymbolAt(data, strings, at) ==
            Symbol(if fields[0].value == 0 then [] else StringAt(strings, fields[0].value),
                   fields[1].value / 16, fields[1].value % 16, fields[2].value % 4, fields[3].value, fields[4].value,
                   fields[5].value)
  {
    hide Pack, Word, OffsetOf, HasString, StringAt;
    SymbolFieldOffsets(fields);
    FieldRead(data, at, fields, 0);
    FieldRead(data, at, fields, 1);
    FieldRead(data, at, fields, 2);
    FieldRead(data, at, fields, 3);
    FieldRead(data, at, fields, 4);
    FieldRead(data, at, fields, 5);
  }

  lemma SymbolRecordReads(data: Bytes, at: nat, s: SymbolDraft, names: seq<Bytes>)
    requires NamesFit(names) && SymbolFits(s, names) && Holds(data, at, SymbolRecord(s, names))
    ensures SymbolOk(data, NameBytes(names), at) && SymbolAt(data, NameBytes(names), at) == SymbolMeant(s, names)
  {
    hide Pack, SymbolOk, SymbolAt, NameBytes, HasString, StringAt;
    WordSizes();
    if s.name.Some? {
      NameRead(names, s.name.value);
      NameOffsetFits(names, s.name.value);
    }
    SymbolWords(data, at, NameBytes(names), SymbolFields(s, names));
  }

  lemma SymbolRecordSize(s: SymbolDraft, names: seq<Bytes>)
    requires SymbolFits(s, names)
    ensures |SymbolRecord(s, names)| == SYMBOL_SIZE
  {
    SymbolFieldOffsets(SymbolFields(s, names));
  }

  lemma TableRecords(d: Draft, s: SectionDraft)
    requires SectionFits(d, s) && s.content.Table?
    ensures |Records(d, s)| == |s.content.symbols|
    ensures forall k :: 0 <= k < |Records(d, s)| ==> |Records(d, s)[k]| == SYMBOL_SIZE
    ensures |Body(d, s)| == SYMBOL_SIZE * |s.content.symbols|
  {
    hide SymbolRecord, SymbolFits;
    forall k | 0 <= k < |Records(d, s)|
      ensures |Records(d, s)[k]| == SYMBOL_SIZE
    {
      SymbolRecordSize(s.content.symbols[k], NamesAt(d, s.link));
    }
    ConcatLength(Records(d, s));
    EqualParts(Records(d, s), SYMBOL_SIZE, |Records(d, s)|);
  }

  /** The string table a written symbol table links to. */
  lemma StringsRead(d: Draft, machine: nat, i: nat)
    requires WellFormed(d) && i < |d.sections| && d.sections[i].content.Table?
    ensures StringsInside(File(d, machine), SectionsMeant(d), SectionMeant(d, i))
    ensures StringsOf(File(d, machine), SectionsMeant(d), SectionMeant(d, i))
            == NameBytes(NamesAt(d, d.sections[i].link))
    ensures NamesFit(NamesAt(d, d.sections[i].link))
  {
    hide File, NameBytes, Body, BodyOffset, SymbolFits;
    var link := d.sections[i].link;
    assert SectionFits(d, d.sections[i]) && SectionFits(d, d.sections[link]);
    BodyAt(d, machine, link);
    NamesBody(d, link);
  }

  lemma TableReads(d: Draft, machine: nat, i: nat)
    requires WellFormed(d) && i < |d.sections| && d.sections[i].content.Table?
    ensures TableOk(File(d, machine), SectionsMeant(d), SectionMeant(d, i))
    ensures TableSymbols(File(d, machine), SectionsMeant(d), SectionMeant(d, i)) == TableMeant(d, d.sections[i])
  {
    hide File, NameBytes, Body, BodyOffset, SymbolOk, SymbolAt, StringsInside, StringsOf, SymbolRecord, SymbolFits,
         NamesFit, SectionsMeant;
    var s, file := d.sections[i], File(d, machine);
    var section, names := SectionMeant(d, i), NamesAt(d, s.link);
    assert SectionFits(d, s);
    TableRecords(d, s);
    StringsRead(d, machine, i);
    BodyAt(d, machine, i);
    forall k | 0 <= k < EntryCount(section)
      ensures SymbolOk(file, NameBytes(names), EntryAt(section, k))
      ensures SymbolAt(file, NameBytes(names), EntryAt(section, k)) == SymbolMeant(s.content.symbols[k], names)
    {
      RecordAt(d, machine, i, k);
      SymbolRecordReads(file, EntryAt(section, k), s.content.symbols[k], names);
    }
  }

  // ----- Relocations

  lemma RelaWords(data: Bytes, at: nat, r: RelaDraft)
    requires r.offset < TWO_64 && r.symbol < TWO_32 && r.kind < TWO_32 && r.addend < TWO_64
    requires Holds(data, at, Pack(RelaFields(r), 3))
    ensures Inside(data, at, RELA_SIZE)
    ensures Word(data, at, 8) == r.offset && Word(data, at + 8, 8) == r.symbol * TWO_32 + r.kind
  {
    hide Pack, Word;
    var fields := RelaFields(r);
    assert OffsetOf(fields, 1) == 8;
    assert OffsetOf(fields, 2) == 16;
    WordSizes();
    FieldRead(data, at, fields, 0);
    FieldRead(data, at, fields, 1);
  }

  lemma RelaRecords(d: Draft, s: SectionDraft)
    requires s.content.Relas?
    ensures |Records(d, s)| == |s.content.rows|
    ensures forall k :: 0 <= k < |Records(d, s)| ==> |Records(d, s)[k]| == RELA_SIZE
    ensures |Body(d, s)| == RELA_SIZE * |s.content.rows|
  {
    forall k | 0 <= k < |Records(d, s)|
      ensures |Records(d, s)[k]| == RELA_SIZE
    {
      var fields := RelaFields(s.content.rows[k]);
      assert OffsetOf(fields, 1) == 8;
      assert OffsetOf(fields, 2) == 16;
    }
    ConcatLength(Records(d, s));
    EqualParts(Records(d, s), RELA_SIZE, |Records(d, s)|);
  }

  lemma RelaReads(d: Draft, machine: nat, i: nat, k: nat)
    requires WellFormed(d) && i < |d.sections| && d.sections[i].content.Relas? && k < |d.sections[i].content.rows|
    ensures var section, r := SectionMeant(d, i), d.sections[i].content.rows[k];
            && Inside(File(d, machine), EntryAt(section, k), RELA_SIZE)
            && RelaInfo(File(d, machine), section, k) / TWO_32 == r.symbol
            && RelocationAt(File(d, machine), section, k) == Relocation(section.info, r.offset, r.kind)
  {
    hide File, Pack, Body, BodyOffset, Word;
    var s := d.sections[i];
    assert SectionFits(d, s) && RelaFits(s.content.rows[k], SymbolsAt(d, s.link));
    RelaRecords(d, s);
    RecordAt(d, machine, i, k);
    RelaWords(File(d, machine), EntryAt(SectionMeant(d, i), k), s.content.rows[k]);
  }

  lemma RelasRead(d: Draft, machine: nat, i: nat)
    requires WellFormed(d) && i < |d.sections| && d.sections[i].content.Relas?
    requires SymbolsOk(File(d, machine), SectionsMeant(d), |d.sections|)
    ensures Resolves(File(d, machine), SectionsMeant(d), SectionMeant(d, i))
    ensures ResolvedRelocations(File(d, machine), SectionsMeant(d), SectionMeant(d, i)) == RelasMeant(d, d.sections[i])
  {
    hide File, Body, BodyOffset, RelaInfo, RelocationAt, TableOk, TableSymbols, SymbolFits;
    var s, section := d.sections[i], SectionMeant(d, i);
    assert SectionFits(d, s) && SectionFits(d, d.sections[s.link]);
    RelaRecords(d, s);
    BodyAt(d, machine, i);
    TableRecords(d, d.sections[s.link]);
    TableReads(d, machine, s.link);
    forall k | 0 <= k < |s.content.rows|
      ensures Inside(File(d, machine), EntryAt(section, k), RELA_SIZE)
      ensures RelaInfo(File(d, machine), section, k) / TWO_32 == s.content.rows[k].symbol < |SymbolsAt(d, s.link)|
      ensures RelocationAt(File(d, machine), section, k)
              == Relocation(section.info, s.content.rows[k].offset, s.content.rows[k].kind)
    {
      assert RelaFits(s.content.rows[k], SymbolsAt(d, s.link));
      RelaReads(d, machine, i, k);
    }
  }

  // ----- The whole object

  lemma AllTablesRead(d: Draft, machine: nat)
    requires WellFormed(d)
    ensures SymbolsOk(File(d, machine), SectionsMeant(d), |d.sections|)
  {
    hide File, TableOk, Body, BodyOffset, SectionFits;
    forall i | 0 <= i < |d.sections| && SectionsMeant(d)[i].kind == SHT_SYMTAB
      ensures TableOk(File(d, machine), SectionsMeant(d), SectionsMeant(d)[i])
    {
      KindsAreContents(d, i);
      TableReads(d, machine, i);
    }
  }

  lemma KindsAreContents(d: Draft, i: nat)
    requires WellFormed(d) && i < |d.sections|
    ensures KindOf(d.sections[i].content) == SHT_SYMTAB <==> d.sections[i].content.Table?
    ensures KindOf(d.sections[i].content) == SHT_RELA <==> d.sections[i].content.Relas?
  {
    assert SectionFits(d, d.sections[i]);
  }

  /** One more section adds the symbols it means. */
  lemma SectionSymbolsRead(d: Draft, machine: nat, i: nat)
    requires WellFormed(d) && i < |d.sections| && SymbolsOk(File(d, machine), SectionsMeant(d), |d.sections|)
    ensures SectionsMeant(d)[i].kind == SHT_SYMTAB ==>
              TableSymbols(File(d, machine), SectionsMeant(d), SectionsMeant(d)[i]) == TableMeant(d, d.sections[i])
    ensures SectionsMeant(d)[i].kind != SHT_SYMTAB ==> TableMeant(d, d.sections[i]) == []
  {
    hide File, TableOk, TableSymbols, Body, BodyOffset, SectionFits, WellFormed, SymbolsAt, NamesAt, NamesFit,
         SizeOf;
    KindsAreContents(d, i);
    if d.sections[i].content.Table? {
      TableReads(d, machine, i);
    }
  }

  lemma {:induction false} SymbolsReadUpTo(d: Draft, machine: nat, n: nat)
    requires WellFormed(d) && n <= |d.sections| && SymbolsOk(File(d, machine), SectionsMeant(d), |d.sections|)
    ensures SymbolsUpTo(File(d, machine), SectionsMeant(d), n) == SymbolsMeant(d, n)
  {
    hide File, TableOk, TableSymbols, Body, BodyOffset, SectionFits, WellFormed, SectionMeant, TableMeant;
    if n != 0 {
      SymbolsReadUpTo(d, machine, n - 1);
      SectionSymbolsRead(d, machine, n - 1);
    }
  }

  lemma {:induction false} RelocationsReadUpTo(d: Draft, machine: nat, n: nat)
    requires WellFormed(d) && n <= |d.sections| && SymbolsOk(File(d, machine), SectionsMeant(d), |d.sections|)
    ensures AllResolve(File(d, machine), SectionsMeant(d), n)
    ensures ResolvedUpTo(File(d, machine), SectionsMeant(d), n) == RelocationsMeant(d, n)
  {
    hide File, SymbolsOk, Resolves, ResolvedRelocations, Body, BodyOffset, SectionFits, RelasMeant;
    if n != 0 {
      RelocationsReadUpTo(d, machine, n - 1);
      KindsAreContents(d, n - 1);
      if d.sections[n - 1].content.Relas? {
        RelasRead(d, machine, n - 1);
      } else {
        assert RelasMeant(d, d.sections[n - 1]) == [] by { NoRelas(d, d.sections[n - 1]); }
      }
    }
  }

  lemma NoRelas(d: Draft, s: SectionDraft)
    requires !s.content.Relas?
    ensures RelasMeant(d, s) == []
  {
  }

  /** The x86-64 reader returns exactly what was written. */
  lemma ReadingInvertsWriting(d: Draft, machine: nat)
    requires WellFormed(d) && machine < TWO_16
    ensures TwoPassOk(File(d, machine), machine)
    ensures TwoPassObject(File(d, machine), machine) == Meaning(d)
  {
    hide File, SectionsOk, SymbolsOk, AllResolve, SectionMeant, WellFormed, Sections;
    SectionsRead(d, machine);
    AllTablesRead(d, machine);
    SymbolsReadUpTo(d, machine, |d.sections|);
    RelocationsReadUpTo(d, machine, |d.sections|);
  }

  /** So does the AArch64 reader, up to the relocations' symbols. */
  lemma OnePassInvertsWriting(d: Draft, machine: nat)
    requires WellFormed(d) && machine < TWO_16
    ensures OnePassOk(File(d, machine), machine)
    ensures OnePassObject(File(d, machine), machine)
         == Object(Meaning(d).sections, Meaning(d).symbols, Places(Meaning(d).relocations))
  {
    hide File, OnePassOk, TwoPassOk, OnePassObject, TwoPassObject, WellFormed, Sections, AllResolve;
    ReadingInvertsWriting(d, machine);
    TwoPassRefinesOnePass(File(d, machine), machine);
  }
}
