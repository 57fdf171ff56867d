/**
 * The two readers of ELF64 relocatable objects. The AArch64 reader makes one
 * pass over the sections; the x86-64 reader makes two, because it resolves the
 * symbol of each relocation. Layouts follow chapter 4 of the System V gABI.
 */
module ElfObject {
  import opened Wrappers
  import opened LittleEndian

  type Bytes = seq<byte>

  const HEADER_SIZE := 64
  const SECTION_HEADER_SIZE := 64
  const SYMBOL_SIZE := 24
  const RELA_SIZE := 24
  const ELF_MAGIC: Bytes := [0x7f, 0x45, 0x4c, 0x46]
  const ELFCLASS64: byte := 2
  const ELFDATA2LSB: byte := 1
  const ET_REL := 1
  const SHT_SYMTAB := 2
  const SHT_RELA := 4

  datatype Section = Section(name: Bytes, kind: nat, flags: nat, offset: nat, size: nat, link: nat, info: nat,
                             entrySize: nat)

  datatype Symbol = Symbol(name: Bytes, binding: nat, kind: nat, visibility: nat, section: nat, value: nat, size: nat)

  /** A relocation as the AArch64 reader reports it. */
  datatype Relocation = Relocation(section: nat, offset: nat, kind: nat)

  /** A relocation as the x86-64 reader reports it, with the symbol it refers to. */
  datatype SymbolRelocation = SymbolRelocation(place: Relocation, symbol: Bytes, symbolSection: nat)

  datatype Object<R> = Object(sections: seq<Section>, symbols: seq<Symbol>, relocations: seq<R>)

  // ----- Words, ranges and strings

  predicate Inside(data: Bytes, offset: nat, size: nat) { offset + size <= |data| }

  function Word(data: Bytes, at: nat, n: nat): nat
    requires Inside(data, at, n)
  {
    Value(data[at..at + n])
  }

  function CheckedRange(data: Bytes, offset: nat, size: nat): (r: Result<Bytes>)
    ensures r.Ok? <==> Inside(data, offset, size)
    ensures r.Ok? ==> r.value == data[offset..offset + size]
  {
    if |data| < offset + size then Err("range is outside the ELF object") else Ok(data[offset..offset + size])
  }

  /** Position of the first NUL at or after `from`, or the end. */
  function FindNul(data: Bytes, from: nat): (end: nat)
    requires from <= |data|
    ensures from <= end <= |data|
    ensures end < |data| ==> data[end] == 0
    ensures forall i :: from <= i < end ==> data[i] != 0
    decreases |data| - from
  {
    if from == |data| || data[from] == 0 then from else FindNul(data, from + 1)
  }

  /** A NUL-terminated string starts at `offset`. */
  predicate HasString(data: Bytes, offset: nat) { offset < |data| && FindNul(data, offset) < |data| }

  function StringAt(data: Bytes, offset: nat): Bytes
    requires HasString(data, offset)
  {
    data[offset..FindNul(data, offset)]
  }

  function CString(data: Bytes, offset: nat): (r: Result<Bytes>)
    ensures r.Ok? <==> HasString(data, offset)
    ensures r.Ok? ==> r.value == StringAt(data, offset)
  {
    if |data| <= offset then Err("string offset outside string table")
    else if FindNul(data, offset) == |data| then Err("unterminated string table entry")
    else Ok(data[offset..FindNul(data, offset)])
  }

  // ----- Section table

  predicate HeaderOk(data: Bytes, machine: nat) {
    && HEADER_SIZE <= |data|
    && data[..4] == ELF_MAGIC && data[4] == ELFCLASS64 && data[5] == ELFDATA2LSB
    && Word(data, 16, 2) == ET_REL && Word(data, 18, 2) == machine
    && Word(data, 52, 2) == HEADER_SIZE && Word(data, 58, 2) == SECTION_HEADER_SIZE
    && Word(data, 60, 2) != 0 && Word(data, 62, 2) < Word(data, 60, 2)
  }

  function SectionTable(data: Bytes): nat requires HEADER_SIZE <= |data| { Word(data, 40, 8) }

  function SectionCount(data: Bytes): nat requires HEADER_SIZE <= |data| { Word(data, 60, 2) }

  function NameTable(data: Bytes): nat requires HEADER_SIZE <= |data| { Word(data, 62, 2) }

  /** A section header whose name is still an offset into the section-name table. */
  datatype RawSection = RawSection(name: nat, kind: nat, flags: nat, offset: nat, size: nat, link: nat, info: nat,
                                   entrySize: nat)

  function RawSectionAt(data: Bytes, at: nat): RawSection
    requires Inside(data, at, SECTION_HEADER_SIZE)
  {
    RawSection(Word(data, at, 4), Word(data, at + 4, 4), Word(data, at + 8, 8), Word(data, at + 24, 8),
               Word(data, at + 32, 8), Word(data, at + 40, 4), Word(data, at + 44, 4), Word(data, at + 56, 8))
  }

  predicate TableInside(data: Bytes)
    requires HEADER_SIZE <= |data|
  {
    Inside(data, SectionTable(data), SectionCount(data) * SECTION_HEADER_SIZE)
  }

  function RawSections(data: Bytes): (r: seq<RawSection>)
    requires HEADER_SIZE <= |data| && TableInside(data)
    ensures |r| == SectionCount(data)
  {
    seq(SectionCount(data), i requires 0 <= i < SectionCount(data) =>
          RawSectionAt(data, SectionTable(data) + i * SECTION_HEADER_SIZE))
  }

  function Named(raw: RawSection, names: Bytes): Section
    requires HasString(names, raw.name)
  {
    Section(StringAt(names, raw.name), raw.kind, raw.flags, raw.offset, raw.size, raw.link, raw.info, raw.entrySize)
  }

  predicate NamesOk(data: Bytes, raw: seq<RawSection>, table: nat) {
    && table < |raw| && Inside(data, raw[table].offset, raw[table].size)
    && forall i :: 0 <= i < |raw| ==>
       HasString(data[raw[table].offset..raw[table].offset + raw[table].size], raw[i].name)
  }

  function NamedSections(data: Bytes, raw: seq<RawSection>, table: nat): (r: seq<Section>)
    requires NamesOk(data, raw, table)
    ensures |r| == |raw|
  {
    var names := data[raw[table].offset..raw[table].offset + raw[table].size];
    seq(|raw|, i requires 0 <= i < |raw| => Named(raw[i], names))
  }

  /** The part of the file both readers treat alike: header, section table, section names. */
  predicate SectionsOk(data: Bytes, machine: nat) {
    HeaderOk(data, machine) && TableInside(data) && NamesOk(data, RawSections(data), NameTable(data))
  }

  function Sections(data: Bytes, machine: nat): seq<Section>
    requires SectionsOk(data, machine)
  {
    NamedSections(data, RawSections(data), NameTable(data))
  }

  method ReadRawSections(data: Bytes) returns (r: Result<seq<RawSection>>)
    requires HEADER_SIZE <= |data| && SectionCount(data) != 0
    ensures r.Ok? <==> TableInside(data)
    ensures r.Ok? ==> r.value == RawSections(data)
  {
    var raw: seq<RawSection> := [];
    for i := 0 to SectionCount(data)
      invariant |raw| == i
      invariant 0 < i ==> Inside(data, SectionTable(data), i * SECTION_HEADER_SIZE)
      invariant forall k :: 0 <= k < i ==> raw[k] == RawSectionAt(data, SectionTable(data) + k * SECTION_HEADER_SIZE)
    {
      var at := SectionTable(data) + i * SECTION_HEADER_SIZE;
      var range := CheckedRange(data, at, SECTION_HEADER_SIZE);
      if range.Err? {
        return Err(range.reason);
      }
      raw := raw + [RawSectionAt(data, at)];
    }
    r := Ok(raw);
  }

  method NameSections(data: Bytes, raw: seq<RawSection>, table: nat) returns (r: Result<seq<Section>>)
    requires table < |raw|
    ensures r.Ok? <==> NamesOk(data, raw, table)
    ensures r.Ok? ==> r.value == NamedSections(data, raw, table)
  {
    hide HasString;
    var names := CheckedRange(data, raw[table].offset, raw[table].size);
    if names.Err? {
      return Err(names.reason);
    }
    var sections: seq<Section> := [];
    for i := 0 to |raw|
      invariant |sections| == i
      invariant forall k :: 0 <= k < i ==>
                HasString(names.value, raw[k].name) && sections[k] == Named(raw[k], names.value)
    {
      var name := CString(names.value, raw[i].name);
      if name.Err? {
        return Err(name.reason);
      }
      sections := sections + [Section(name.value, raw[i].kind, raw[i].flags, raw[i].offset, raw[i].size, raw[i].link,
                                      raw[i].info, raw[i].entrySize)];
    }
    r := Ok(sections);
  }

  method ReadSections(data: Bytes, machine: nat) returns (r: Result<seq<Section>>)
    ensures r.Ok? <==> SectionsOk(data, machine)
    ensures r.Ok? ==> r.value == Sections(data, machine)
  {
    hide TableInside, NamesOk, RawSections, NamedSections;
    if !HeaderOk(data, machine) {
      return Err("malformed ELF64 header");
    }
    var raw := ReadRawSections(data);
    if raw.Err? {
      return Err(raw.reason);
    }
    r := NameSections(data, raw.value, NameTable(data));
  }

  // ----- Symbol tables

  predicate EntriesInside(data: Bytes, s: Section) {
    s.entrySize == SYMBOL_SIZE && s.size % SYMBOL_SIZE == 0 && (s.size == 0 || Inside(data, s.offset, s.size))
  }

  function EntryCount(s: Section): nat { s.size / SYMBOL_SIZE }

  function EntryAt(s: Section, k: nat): nat { s.offset + SYMBOL_SIZE * k }

  predicate SymbolOk(data: Bytes, strings: Bytes, at: nat) {
    Inside(data, at, SYMBOL_SIZE) && (Word(data, at, 4) == 0 || HasString(strings, Word(data, at, 4)))
  }

  function SymbolAt(data: Bytes, strings: Bytes, at: nat): Symbol
    requires SymbolOk(data, strings, at)
  {
    Symbol(if Word(data, at, 4) == 0 then [] else StringAt(strings, Word(data, at, 4)),
           Word(data, at + 4, 1) / 16, Word(data, at + 4, 1) % 16, Word(data, at + 5, 1) % 4,
           Word(data, at + 6, 2), Word(data, at + 8, 8), Word(data, at + 16, 8))
  }

  predicate StringsInside(data: Bytes, sections: seq<Section>, s: Section) {
    s.link < |sections| && Inside(data, sections[s.link].offset, sections[s.link].size)
  }

  function StringsOf(data: Bytes, sections: seq<Section>, s: Section): Bytes
    requires StringsInside(data, sections, s)
  {
    data[sections[s.link].offset..sections[s.link].offset + sections[s.link].size]
  }

  predicate TableOk(data: Bytes, sections: seq<Section>, s: Section) {
    && EntriesInside(data, s) && StringsInside(data, sections, s)
    && forall k :: 0 <= k < EntryCount(s) ==> SymbolOk(data, StringsOf(data, sections, s), EntryAt(s, k))
  }

  function TableSymbols(data: Bytes, sections: seq<Section>, s: Section): (r: seq<Symbol>)
    requires TableOk(data, sections, s)
    ensures |r| == EntryCount(s)
  {
    var strings := StringsOf(data, sections, s);
    seq(EntryCount(s), k requires 0 <= k < EntryCount(s) => SymbolAt(data, strings, EntryAt(s, k)))
  }

  /** Every symbol table among the first `n` sections is readable. */
  predicate SymbolsOk(data: Bytes, sections: seq<Section>, n: nat)
    requires n <= |sections|
  {
    forall i :: 0 <= i < n && sections[i].kind == SHT_SYMTAB ==> TableOk(data, sections, sections[i])
  }

  /** Symbols of the symbol tables among the first `n` sections, in order. */
  function SymbolsUpTo(data: Bytes, sections: seq<Section>, n: nat): seq<Symbol>
    requires n <= |sections| && SymbolsOk(data, sections, n)
  {
    if n == 0 then []
    else SymbolsUpTo(data, sections, n - 1)
         + if sections[n - 1].kind == SHT_SYMTAB then TableSymbols(data, sections, sections[n - 1]) else []
  }

  method ReadTable(data: Bytes, sections: seq<Section>, s: Section) returns (r: Result<seq<Symbol>>)
    ensures r.Ok? <==> TableOk(data, sections, s)
    ensures r.Ok? ==> r.value == TableSymbols(data, sections, s)
  {
    hide HasString, SymbolAt;
    if s.entrySize != SYMBOL_SIZE || |sections| <= s.link || s.size % SYMBOL_SIZE != 0 {
      return Err("malformed symbol table");
    }
    var strings := CheckedRange(data, sections[s.link].offset, sections[s.link].size);
    if strings.Err? {
      return Err(strings.reason);
    }
    var symbols: seq<Symbol> := [];
    for k := 0 to EntryCount(s)
      invariant |symbols| == k
      invariant 0 < k ==> Inside(data, s.offset, SYMBOL_SIZE * k)
      invariant forall j :: 0 <= j < k ==>
                  SymbolOk(data, strings.value, EntryAt(s, j))
                      && symbols[j] == SymbolAt(data, strings.value, EntryAt(s, j))
    {
      var symbol := ReadSymbol(data, strings.value, EntryAt(s, k));
      if symbol.Err? {
        return Err(symbol.reason);
      }
      symbols := symbols + [symbol.value];
    }
    r := Ok(symbols);
  }

  method ReadSymbol(data: Bytes, strings: Bytes, at: nat) returns (r: Result<Symbol>)
    ensures r.Ok? <==> SymbolOk(data, strings, at)
    ensures r.Ok? ==> r.value == SymbolAt(data, strings, at)
  {
    hide HasString;
    var entry := CheckedRange(data, at, SYMBOL_SIZE);
    if entry.Err? {
      return Err(entry.reason);
    }
    var name: Bytes := [];
    if Word(data, at, 4) != 0 {
      var text := CString(strings, Word(data, at, 4));
      if text.Err? {
        return Err(text.reason);
      }
      name := text.value;
    }
    var info, other := Word(data, at + 4, 1), Word(data, at + 5, 1);
    r := Ok(Symbol(name, info / 16, info % 16, other % 4, Word(data, at + 6, 2), Word(data, at + 8, 8),
                   Word(data, at + 16, 8)));
  }

  // ----- Relocations

  function RelaInfo(data: Bytes, s: Section, k: nat): nat
    requires Inside(data, EntryAt(s, k), RELA_SIZE)
  {
    Word(data, EntryAt(s, k) + 8, 8)
  }

  function RelocationAt(data: Bytes, s: Section, k: nat): Relocation
    requires Inside(data, EntryAt(s, k), RELA_SIZE)
  {
    Relocation(s.info, Word(data, EntryAt(s, k), 8), RelaInfo(data, s, k) % TWO_32)
  }

  function SectionRelocations(data: Bytes, s: Section): (r: seq<Relocation>)
    requires EntriesInside(data, s)
    ensures |r| == EntryCount(s)
  {
    seq(EntryCount(s), k requires 0 <= k < EntryCount(s) => RelocationAt(data, s, k))
  }

  predicate RelocationsOk(data: Bytes, sections: seq<Section>, n: nat)
    requires n <= |sections|
  {
    forall i :: 0 <= i < n && sections[i].kind == SHT_RELA ==> EntriesInside(data, sections[i])
  }

  function RelocationsUpTo(data: Bytes, sections: seq<Section>, n: nat): seq<Relocation>
    requires n <= |sections| && RelocationsOk(data, sections, n)
  {
    if n == 0 then []
    else RelocationsUpTo(data, sections, n - 1)
         + if sections[n - 1].kind == SHT_RELA then SectionRelocations(data, sections[n - 1]) else []
  }

  /** Every entry of this relocation section names an existing symbol of an existing symbol table. */
  predicate Resolves(data: Bytes, sections: seq<Section>, s: Section) {
    && EntriesInside(data, s) && s.info < |sections|
    && s.link < |sections| && sections[s.link].kind == SHT_SYMTAB
    && forall k :: 0 <= k < EntryCount(s) ==> RelaInfo(data, s, k) / TWO_32 < EntryCount(sections[s.link])
  }

  predicate AllResolve(data: Bytes, sections: seq<Section>, n: nat)
    requires n <= |sections|
  {
    forall i :: 0 <= i < n && sections[i].kind == SHT_RELA ==> Resolves(data, sections, sections[i])
  }

  function Resolved(data: Bytes, sections: seq<Section>, s: Section, k: nat): SymbolRelocation
    requires SymbolsOk(data, sections, |sections|) && Resolves(data, sections, s) && k < EntryCount(s)
  {
    var symbol := TableSymbols(data, sections, sections[s.link])[RelaInfo(data, s, k) / TWO_32];
    SymbolRelocation(RelocationAt(data, s, k), symbol.name, symbol.section)
  }

  function ResolvedRelocations(data: Bytes, sections: seq<Section>, s: Section): (r: seq<SymbolRelocation>)
    requires SymbolsOk(data, sections, |sections|) && Resolves(data, sections, s)
    ensures |r| == EntryCount(s)
  {
    seq(EntryCount(s), k requires 0 <= k < EntryCount(s) => Resolved(data, sections, s, k))
  }

  function ResolvedUpTo(data: Bytes, sections: seq<Section>, n: nat): seq<SymbolRelocation>
    requires n <= |sections| && SymbolsOk(data, sections, |sections|) && AllResolve(data, sections, n)
  {
    if n == 0 then []
    else ResolvedUpTo(data, sections, n - 1)
         + if sections[n - 1].kind == SHT_RELA then ResolvedRelocations(data, sections, sections[n - 1]) else []
  }

  method ReadRelocations(data: Bytes, s: Section) returns (r: Result<seq<Relocation>>)
    ensures r.Ok? <==> EntriesInside(data, s)
    ensures r.Ok? ==> r.value == SectionRelocations(data, s)
  {
    if s.entrySize != RELA_SIZE || s.size % RELA_SIZE != 0 {
      return Err("malformed RELA section");
    }
    var rows: seq<Relocation> := [];
    for k := 0 to EntryCount(s)
      invariant |rows| == k
      invariant 0 < k ==> Inside(data, s.offset, RELA_SIZE * k)
      invariant forall j :: 0 <= j < k ==> rows[j] == RelocationAt(data, s, j)
    {
      var entry := CheckedRange(data, EntryAt(s, k), RELA_SIZE);
      if entry.Err? {
        return Err(entry.reason);
      }
      rows := rows + [RelocationAt(data, s, k)];
    }
    r := Ok(rows);
  }

  /** The entries of one relocation section, each with a symbol of the given table. */
  method ReadResolved(data: Bytes, sections: seq<Section>, s: Section, tables: map<nat, seq<Symbol>>)
    returns (r: Result<seq<SymbolRelocation>>)
    requires SymbolsOk(data, sections, |sections|) && TablesOf(data, sections, tables, |sections|)
    ensures r.Ok? <==> Resolves(data, sections, s)
    ensures r.Ok? ==> r.value == ResolvedRelocations(data, sections, s)
  {
    hide SymbolsOk, TableSymbols, TableOk, RelaInfo, RelocationAt;
    if s.entrySize != RELA_SIZE || s.size % RELA_SIZE != 0 {
      return Err("malformed RELA section");
    }
    if s.link !in tables || |sections| <= s.info {
      return Err("relocation section has an invalid symbol or target section");
    }
    var symbols := tables[s.link];
    var rows: seq<SymbolRelocation> := [];
    for k := 0 to EntryCount(s)
      invariant |rows| == k
      invariant 0 < k ==> Inside(data, s.offset, RELA_SIZE * k)
      invariant forall j :: 0 <= j < k ==>
                  RelaInfo(data, s, j) / TWO_32 < |symbols|
                  && rows[j] == SymbolRelocation(RelocationAt(data, s, j), symbols[RelaInfo(data, s, j) / TWO_32].name,
                                                 symbols[RelaInfo(data, s, j) / TWO_32].section)
    {
      var entry := CheckedRange(data, EntryAt(s, k), RELA_SIZE);
      if entry.Err? {
        return Err(entry.reason);
      }
      var index := RelaInfo(data, s, k) / TWO_32;
      if |symbols| <= index {
        return Err("relocation section has an invalid symbol index");
      }
      rows := rows + [SymbolRelocation(RelocationAt(data, s, k), symbols[index].name, symbols[index].section)];
    }
    r := Ok(rows);
  }

  /** `tables` holds the symbols of each symbol table among the first `n` sections. */
  ghost predicate TablesOf(data: Bytes, sections: seq<Section>, tables: map<nat, seq<Symbol>>, n: nat)
    requires n <= |sections|
  {
    && (forall i :: i in tables ==> i < n && sections[i].kind == SHT_SYMTAB && TableOk(data, sections, sections[i])
                                    && tables[i] == TableSymbols(data, sections, sections[i]))
    && (forall i :: 0 <= i < n && sections[i].kind == SHT_SYMTAB ==> i in tables)
  }

  // ----- The two readers

  predicate OnePassOk(data: Bytes, machine: nat) {
    && SectionsOk(data, machine)
    && var sections := Sections(data, machine);
       SymbolsOk(data, sections, |sections|) && RelocationsOk(data, sections, |sections|)
  }

  function OnePassObject(data: Bytes, machine: nat): Object<Relocation>
    requires OnePassOk(data, machine)
  {
    var sections := Sections(data, machine);
    Object(sections, SymbolsUpTo(data, sections, |sections|), RelocationsUpTo(data, sections, |sections|))
  }

  predicate TwoPassOk(data: Bytes, machine: nat) {
    && SectionsOk(data, machine)
    && var sections := Sections(data, machine);
       SymbolsOk(data, sections, |sections|) && AllResolve(data, sections, |sections|)
  }

  function TwoPassObject(data: Bytes, machine: nat): Object<SymbolRelocation>
    requires TwoPassOk(data, machine)
  {
    var sections := Sections(data, machine);
    Object(sections, SymbolsUpTo(data, sections, |sections|), ResolvedUpTo(data, sections, |sections|))
  }

  /** The AArch64 reader: sections, then symbols and relocations in one pass over them. */
  method ParseOnePass(data: Bytes, machine: nat) returns (r: Result<Object<Relocation>>)
    ensures r.Ok? <==> OnePassOk(data, machine)
    ensures r.Ok? ==> r.value == OnePassObject(data, machine)
  {
    hide SectionsOk, TableOk, EntriesInside, TableSymbols, SectionRelocations, Sections;
    var read := ReadSections(data, machine);
    if read.Err? {
      return Err(read.reason);
    }
    var sections := read.value;
    var symbols: seq<Symbol> := [];
    var relocations: seq<Relocation> := [];
    for i := 0 to |sections|
      invariant SymbolsOk(data, sections, i) && RelocationsOk(data, sections, i)
      invariant symbols == SymbolsUpTo(data, sections, i)
      invariant relocations == RelocationsUpTo(data, sections, i)
    {
      if sections[i].kind == SHT_SYMTAB {
        var more := ReadTable(data, sections, sections[i]);
        if more.Err? {
          return Err(more.reason);
        }
        symbols := symbols + more.value;
      } else if sections[i].kind == SHT_RELA {
        var more := ReadRelocations(data, sections[i]);
        if more.Err? {
          return Err(more.reason);
        }
        relocations := relocations + more.value;
      }
    }
    r := Ok(Object(sections, symbols, relocations));
  }

  /** First pass of the x86-64 reader: all symbols, and each table's own. */
  method ReadAllSymbols(data: Bytes, sections: seq<Section>)
    returns (r: Result<seq<Symbol>>, tables: map<nat, seq<Symbol>>)
    ensures r.Ok? <==> SymbolsOk(data, sections, |sections|)
    ensures r.Ok? ==> r.value == SymbolsUpTo(data, sections, |sections|) && TablesOf(data, sections, tables, |sections|)
  {
    hide TableOk, TableSymbols;
    tables := map[];
    var symbols: seq<Symbol> := [];
    for i := 0 to |sections|
      invariant SymbolsOk(data, sections, i)
      invariant symbols == SymbolsUpTo(data, sections, i)
      invariant TablesOf(data, sections, tables, i)
    {
      if sections[i].kind == SHT_SYMTAB {
        var more := ReadTable(data, sections, sections[i]);
        if more.Err? {
          return Err(more.reason), tables;
        }
        symbols := symbols + more.value;
        tables := tables[i := more.value];
      }
    }
    r := Ok(symbols);
  }

  /** The x86-64 reader: sections, then all symbols, then relocations with their symbols. */
  method ParseTwoPass(data: Bytes, machine: nat) returns (r: Result<Object<SymbolRelocation>>)
    ensures r.Ok? <==> TwoPassOk(data, machine)
    ensures r.Ok? ==> r.value == TwoPassObject(data, machine)
  {
    hide SectionsOk, TableOk, Resolves, TableSymbols, ResolvedRelocations, Sections, TablesOf;
    var read := ReadSections(data, machine);
    if read.Err? {
      return Err(read.reason);
    }
    var sections := read.value;
    var symbols, tables := ReadAllSymbols(data, sections);
    if symbols.Err? {
      return Err(symbols.reason);
    }
    var relocations: seq<SymbolRelocation> := [];
    for i := 0 to |sections|
      invariant AllResolve(data, sections, i)
      invariant relocations == ResolvedUpTo(data, sections, i)
    {
      if sections[i].kind == SHT_RELA {
        var more := ReadResolved(data, sections, sections[i], tables);
        if more.Err? {
          return Err(more.reason);
        }
        relocations := relocations + more.value;
      }
    }
    r := Ok(Object(sections, symbols.value, relocations));
  }

  // ----- The two-pass reader refines the one-pass reader

  function Places(rows: seq<SymbolRelocation>): seq<Relocation> {
    seq(|rows|, i requires 0 <= i < |rows| => rows[i].place)
  }

  lemma PlacesOfConcat(a: seq<SymbolRelocation>, b: seq<SymbolRelocation>)
    ensures Places(a + b) == Places(a) + Places(b)
  {
  }

  lemma {:induction false} ResolvedPlaces(data: Bytes, sections: seq<Section>, n: nat)
    requires n <= |sections| && SymbolsOk(data, sections, |sections|)
    requires AllResolve(data, sections, n) && RelocationsOk(data, sections, n)
    ensures Places(ResolvedUpTo(data, sections, n)) == RelocationsUpTo(data, sections, n)
  {
    if n != 0 {
      ResolvedPlaces(data, sections, n - 1);
      var s := sections[n - 1];
      if s.kind == SHT_RELA {
        PlacesOfConcat(ResolvedUpTo(data, sections, n - 1), ResolvedRelocations(data, sections, s));
        assert Places(ResolvedRelocations(data, sections, s)) == SectionRelocations(data, s);
      }
    }
  }

  /**
   * On one machine number, the two-pass reader accepts exactly what the
   * one-pass reader accepts and whose relocations all resolve; both then
   * report the same sections and symbols, and the same relocations once their
   * symbols are dropped.
   */
  lemma TwoPassRefinesOnePass(data: Bytes, machine: nat)
    ensures TwoPassOk(data, machine) <==>
              OnePassOk(data, machine)
              && AllResolve(data, Sections(data, machine), |Sections(data, machine)|)
    ensures TwoPassOk(data, machine) ==>
              var two, one := TwoPassObject(data, machine), OnePassObject(data, machine);
              two.sections == one.sections && two.symbols == one.symbols && Places(two.relocations) == one.relocations
  {
    hide SectionsOk, Sections, TableOk;
    if TwoPassOk(data, machine) {
      var sections := Sections(data, machine);
      ResolvedPlaces(data, sections, |sections|);
    }
  }

  /** Everything an accepted file is read for lies inside it. */
  lemma AcceptedReadsLieInside(data: Bytes, machine: nat, i: nat, k: nat)
    requires OnePassOk(data, machine) && i < |Sections(data, machine)|
    ensures Inside(data, SectionTable(data) + i * SECTION_HEADER_SIZE, SECTION_HEADER_SIZE)
    ensures var raw := RawSections(data);
            var names := raw[NameTable(data)];
            names.offset + raw[i].name + |Sections(data, machine)[i].name| < names.offset + names.size <= |data|
    ensures var s := Sections(data, machine)[i];
            (s.kind == SHT_SYMTAB || s.kind == SHT_RELA) && k < EntryCount(s)
            ==> Inside(data, EntryAt(s, k), SYMBOL_SIZE)
  {
  }
}
