/**
 * What the two readers accept and report, byte by byte: where each number of
 * chapter 4 of the System V gABI stands in the file, and what it must be.
 */
module ElfMeaning {
  import opened LittleEndian
  import opened ElfObject

  // ----- Numbers and names

  /** The `n` bytes at `at`, the lowest first. */
  function Little(data: Bytes, at: nat, n: nat): nat
    requires at + n <= |data|
    decreases n
  {
    if n == 0 then 0 else data[at] + 256 * Little(data, at + 1, n - 1)
  }

  lemma {:induction false} WordIsLittle(data: Bytes, at: nat, n: nat)
    requires at + n <= |data|
    ensures Word(data, at, n) == Little(data, at, n)
    decreases n
  {
    if n != 0 {
      WordIsLittle(data, at + 1, n - 1);
      assert data[at..at + n][1..] == data[at + 1..at + n];
    }
  }

  lemma WordsAreLittle(data: Bytes)
    ensures forall at: nat, n: nat :: at + n <= |data| ==> Word(data, at, n) == Little(data, at, n)
  {
    forall at: nat, n: nat | at + n <= |data|
      ensures Word(data, at, n) == Little(data, at, n)
    {
      WordIsLittle(data, at, n);
    }
  }

  /** The string table at `base` holds `text`, and a NUL after it, at `offset`. */
  ghost predicate TextAt(data: Bytes, base: nat, size: nat, offset: nat, text: Bytes) {
    && base + size <= |data| && offset + |text| < size
    && (forall i :: 0 <= i < |text| ==> text[i] == data[base + offset + i] && text[i] != 0)
    && data[base + offset + |text|] == 0
  }

  lemma TextIsString(data: Bytes, base: nat, size: nat, offset: nat)
    requires base + size <= |data|
    ensures HasString(data[base..base + size], offset) ==>
            TextAt(data, base, size, offset, StringAt(data[base..base + size], offset))
    ensures forall text :: TextAt(data, base, size, offset, text) ==>
            HasString(data[base..base + size], offset) && text == StringAt(data[base..base + size], offset)
  {
    var table := data[base..base + size];
    assert forall i :: 0 <= i < size ==> table[i] == data[base + i];
    if HasString(table, offset) {
      var text := StringAt(table, offset);
      assert forall i :: 0 <= i < |text| ==> text[i] == table[offset + i];
    }
    forall text | TextAt(data, base, size, offset, text)
      ensures HasString(table, offset) && text == StringAt(table, offset)
    {
      var end := offset + |text|;
      assert table[end] == 0;
      assert forall i :: offset <= i < end ==> table[i] == text[i - offset] != 0;
      assert FindNul(table, offset) == end;
    }
  }

  // ----- Header and sections

  /** A little-endian ELF64 relocatable object of this machine, with 64-byte section headers from `table` on. */
  ghost predicate HeaderSays(data: Bytes, machine: nat, table: nat, count: nat, names: nat) {
    && 64 <= |data|
    && data[0] == 0x7f && data[1] == 0x45 && data[2] == 0x4c && data[3] == 0x46 && data[4] == 2 && data[5] == 1
    && Little(data, 16, 2) == 1 && Little(data, 18, 2) == machine
    && Little(data, 52, 2) == 64 && Little(data, 58, 2) == 64
    && Little(data, 40, 8) == table && Little(data, 60, 2) == count && Little(data, 62, 2) == names && names < count
  }

  /** The section header at `at` says `s`, whose name is in the string table at `base`. */
  ghost predicate SectionSays(data: Bytes, at: nat, base: nat, size: nat, s: Section) {
    && at + 64 <= |data|
    && s.kind == Little(data, at + 4, 4) && s.flags == Little(data, at + 8, 8)
    && s.offset == Little(data, at + 24, 8) && s.size == Little(data, at + 32, 8)
    && s.link == Little(data, at + 40, 4) && s.info == Little(data, at + 44, 4)
       && s.entrySize == Little(data, at + 56, 8)
    && TextAt(data, base, size, Little(data, at, 4), s.name)
  }

  ghost predicate SectionsSay(data: Bytes, machine: nat, table: nat, count: nat, names: nat, sections: seq<Section>) {
    && HeaderSays(data, machine, table, count, names) && |sections| == count
    && forall i :: 0 <= i < count ==>
         SectionSays(data, table + 64 * i, sections[names].offset, sections[names].size, sections[i])
  }

  lemma HeaderExactly(data: Bytes, machine: nat)
    ensures HeaderOk(data, machine) ==>
            HeaderSays(data, machine, SectionTable(data), SectionCount(data), NameTable(data))
    ensures forall table: nat, count: nat, names: nat :: HeaderSays(data, machine, table, count, names) ==>
            && HeaderOk(data, machine)
            && (table, count, names) == (SectionTable(data), SectionCount(data), NameTable(data))
  {
    hide Word, Little;
    if 64 <= |data| {
      WordsAreLittle(data);
      assert data[..4] == ELF_MAGIC <==> data[0] == 0x7f && data[1] == 0x45 && data[2] == 0x4c && data[3] == 0x46;
    }
  }

  lemma SectionExactly(data: Bytes, at: nat, base: nat, size: nat)
    requires at + 64 <= |data| && base + size <= |data|
    ensures var raw := RawSectionAt(data, at);
            && (HasString(data[base..base + size], raw.name) ==>
                  SectionSays(data, at, base, size, Named(raw, data[base..base + size])))
            && forall s :: SectionSays(data, at, base, size, s) ==>
                 HasString(data[base..base + size], raw.name) && s == Named(raw, data[base..base + size])
  {
    hide Word, Little, HasString, StringAt, TextAt;
    WordsAreLittle(data);
    TextIsString(data, base, size, Word(data, at, 4));
  }

  /** Header, section table and section names are accepted exactly when the file says sections, and then these. */
  lemma SectionsExactly(data: Bytes, machine: nat, sections: seq<Section>)
    ensures SectionsOk(data, machine) && Sections(data, machine) == sections
       <==> exists table: nat, count: nat, names: nat :: SectionsSay(data, machine, table, count, names, sections)
  {
    HeaderExactly(data, machine);
    if SectionsOk(data, machine) {
      SaidSections(data, machine);
    }
    hide HeaderOk, Sections, SectionTable, SectionCount, NameTable, SectionsOk;
    if table: nat, count: nat, names: nat :| SectionsSay(data, machine, table, count, names, sections) {
      ReadSectionsAre(data, machine, sections);
    }
  }

  lemma SaidSections(data: Bytes, machine: nat)
    requires SectionsOk(data, machine)
    ensures SectionsSay(data, machine, SectionTable(data), SectionCount(data), NameTable(data), Sections(data, machine))
  {
    hide SectionSays, RawSectionAt, HasString, HeaderSays, Word, Little;
    HeaderExactly(data, machine);
    var table, names, raw, sections := SectionTable(data), NameTable(data), RawSections(data), Sections(data, machine);
    forall i | 0 <= i < |raw|
      ensures SectionSays(data, table + 64 * i, sections[names].offset, sections[names].size, sections[i])
    {
      assert sections[i] == Named(raw[i], data[raw[names].offset..raw[names].offset + raw[names].size]);
      SectionExactly(data, table + 64 * i, raw[names].offset, raw[names].size);
    }
  }

  lemma HeadersInside(data: Bytes, machine: nat, sections: seq<Section>)
    requires HeaderOk(data, machine)
    requires SectionsSay(data, machine, SectionTable(data), SectionCount(data), NameTable(data), sections)
    ensures TableInside(data)
    ensures forall i :: 0 <= i < |sections| ==> SectionTable(data) + 64 * i + 64 <= |data|
    ensures sections[NameTable(data)].offset + sections[NameTable(data)].size <= |data|
  {
    hide Word, Little, HeaderSays;
    var table, count, names := SectionTable(data), SectionCount(data), NameTable(data);
    forall i | 0 <= i < count
      ensures table + 64 * i + 64 <= |data| && sections[names].offset + sections[names].size <= |data|
    {
      assert SectionSays(data, table + 64 * i, sections[names].offset, sections[names].size, sections[i]);
    }
    assert count > 0;
    assert table + 64 * (count - 1) + 64 <= |data|;
  }

  lemma ReadSectionsAre(data: Bytes, machine: nat, sections: seq<Section>)
    requires HeaderOk(data, machine)
    requires SectionsSay(data, machine, SectionTable(data), SectionCount(data), NameTable(data), sections)
    ensures SectionsOk(data, machine) && Sections(data, machine) == sections
  {
    hide Word, Little, RawSectionAt, HasString, SectionSays;
    HeadersInside(data, machine, sections);
    var table, names, raw := SectionTable(data), NameTable(data), RawSections(data);
    var base, size := sections[names].offset, sections[names].size;
    forall i | 0 <= i < |raw|
      ensures HasString(data[base..base + size], raw[i].name) && sections[i] == Named(raw[i], data[base..base + size])
    {
      SectionExactly(data, table + 64 * i, base, size);
      assert SectionSays(data, table + 64 * i, base, size, sections[i]);
    }
    assert raw[names].offset == base && raw[names].size == size;
  }

  // ----- Symbols

  /** The 24-byte symbol entry at `at` says `symbol`; a zero name offset is the empty name. */
  ghost predicate SymbolSays(data: Bytes, strings: Section, at: nat, symbol: Symbol) {
    && at + 24 <= |data|
    && (if Little(data, at, 4) == 0 then symbol.name == []
        else TextAt(data, strings.offset, strings.size, Little(data, at, 4), symbol.name))
    && symbol.binding == data[at + 4] / 16 && symbol.kind == data[at + 4] % 16 && symbol.visibility == data[at + 5] % 4
    && symbol.section == Little(data, at + 6, 2) && symbol.value == Little(data, at + 8, 8)
       && symbol.size == Little(data, at + 16, 8)
  }

  /** The symbol table `s` says these symbols, with names from the section it is linked to. */
  ghost predicate TableSays(data: Bytes, sections: seq<Section>, s: Section, symbols: seq<Symbol>) {
    && s.entrySize == 24 && s.size == 24 * |symbols|
    && s.link < |sections| && sections[s.link].offset + sections[s.link].size <= |data|
    && forall k :: 0 <= k < |symbols| ==> SymbolSays(data, sections[s.link], s.offset + 24 * k, symbols[k])
  }

  lemma OneByte(data: Bytes, at: nat)
    requires at < |data|
    ensures Word(data, at, 1) == data[at]
  {
    WordIsLittle(data, at, 1);
    assert Little(data, at + 1, 0) == 0;
  }

  lemma SymbolExactly(data: Bytes, strings: Section, at: nat)
    requires strings.offset + strings.size <= |data|
    ensures var table := data[strings.offset..strings.offset + strings.size];
            && (SymbolOk(data, table, at) ==> SymbolSays(data, strings, at, SymbolAt(data, table, at)))
            && forall symbol :: SymbolSays(data, strings, at, symbol) ==>
                 SymbolOk(data, table, at) && symbol == SymbolAt(data, table, at)
  {
    hide Word, Little, HasString, StringAt, TextAt;
    if at + 24 <= |data| {
      WordsAreLittle(data);
      OneByte(data, at + 4);
      OneByte(data, at + 5);
      TextIsString(data, strings.offset, strings.size, Word(data, at, 4));
    }
  }

  lemma TableExactly(data: Bytes, sections: seq<Section>, s: Section)
    ensures TableOk(data, sections, s) ==> TableSays(data, sections, s, TableSymbols(data, sections, s))
    ensures forall symbols :: TableSays(data, sections, s, symbols) ==>
            TableOk(data, sections, s) && symbols == TableSymbols(data, sections, s)
  {
    hide SymbolOk, SymbolAt, SymbolSays;
    if StringsInside(data, sections, s) {
      forall at: nat
        ensures var table := StringsOf(data, sections, s);
                && (SymbolOk(data, table, at) ==> SymbolSays(data, sections[s.link], at, SymbolAt(data, table, at)))
                && forall symbol :: SymbolSays(data, sections[s.link], at, symbol) ==>
                     SymbolOk(data, table, at) && symbol == SymbolAt(data, table, at)
      {
        SymbolExactly(data, sections[s.link], at);
      }
      forall symbols | TableSays(data, sections, s, symbols)
        ensures TableOk(data, sections, s) && symbols == TableSymbols(data, sections, s)
      {
        ReadTableIs(data, sections, s, symbols);
      }
    }
  }

  lemma ReadTableIs(data: Bytes, sections: seq<Section>, s: Section, symbols: seq<Symbol>)
    requires TableSays(data, sections, s, symbols)
    ensures TableOk(data, sections, s) && symbols == TableSymbols(data, sections, s)
  {
    hide SymbolOk, SymbolAt;
    var table := StringsOf(data, sections, s);
    forall k | 0 <= k < |symbols|
      ensures EntryAt(s, k) + 24 <= |data| && SymbolOk(data, table, EntryAt(s, k))
              && symbols[k] == SymbolAt(data, table, EntryAt(s, k))
    {
      assert SymbolSays(data, sections[s.link], s.offset + 24 * k, symbols[k]);
      SymbolExactly(data, sections[s.link], s.offset + 24 * k);
    }
    if |symbols| > 0 {
      assert EntryAt(s, |symbols| - 1) + 24 <= |data|;
    }
  }

  // ----- Relocations

  /** The 24-byte relocation entry at `at` of a section says `place`: its offset and the low half of its info word. */
  ghost predicate PlaceSays(data: Bytes, s: Section, at: nat, place: Relocation) {
    at + 24 <= |data| && place == Relocation(s.info, Little(data, at, 8), Little(data, at + 8, 4))
  }

  ghost predicate PlacesSay(data: Bytes, s: Section, places: seq<Relocation>) {
    && s.entrySize == 24 && s.size == 24 * |places|
    && forall k :: 0 <= k < |places| ==> PlaceSays(data, s, s.offset + 24 * k, places[k])
  }

  /** The entry's symbol is the one that the high half of its info word counts to in the linked table. */
  ghost predicate RowSays(data: Bytes, s: Section, at: nat, symbols: seq<Symbol>, row: SymbolRelocation) {
    && PlaceSays(data, s, at, row.place) && Little(data, at + 12, 4) < |symbols|
    && row.symbol == symbols[Little(data, at + 12, 4)].name
       && row.symbolSection == symbols[Little(data, at + 12, 4)].section
  }

  ghost predicate RowsSay(data: Bytes, sections: seq<Section>, s: Section, symbols: seq<Symbol>,
                          rows: seq<SymbolRelocation>) {
    && s.entrySize == 24 && s.size == 24 * |rows| && s.info < |sections|
    && s.link < |sections| && sections[s.link].kind == 2 && TableSays(data, sections, sections[s.link], symbols)
    && forall k :: 0 <= k < |rows| ==> RowSays(data, s, s.offset + 24 * k, symbols, rows[k])
  }

  /** The halves of the info word. */
  lemma Halves(data: Bytes, at: nat)
    requires at + 8 <= |data|
    ensures Word(data, at, 8) % TWO_32 == Little(data, at, 4) && Word(data, at, 8) / TWO_32 == Little(data, at + 4, 4)
  {
    hide Word, Little, Pow256;
    WordIsLittle(data, at, 8);
    LittleIsBounded(data, at, 4);
    LittleSplits(data, at, 4, 4);
    WordSizes();
    TwoHalves(Little(data, at, 4), Little(data, at + 4, 4));
  }

  lemma TwoHalves(low: nat, high: nat)
    requires low < TWO_32
    ensures (low + TWO_32 * high) % TWO_32 == low && (low + TWO_32 * high) / TWO_32 == high
  {
  }

  lemma {:induction false} LittleIsBounded(data: Bytes, at: nat, n: nat)
    requires at + n <= |data|
    ensures Little(data, at, n) < Pow256(n)
    ensures n == 4 ==> Little(data, at, n) < TWO_32
    decreases n
  {
    WordSizes();
    if n != 0 {
      LittleIsBounded(data, at + 1, n - 1);
    }
  }

  lemma {:induction false} LittleSplits(data: Bytes, at: nat, n: nat, m: nat)
    requires at + n + m <= |data|
    ensures Little(data, at, n + m) == Little(data, at, n) + Pow256(n) * Little(data, at + n, m)
    decreases n
  {
    if n != 0 {
      var x := Little(data, at + n, m);
      LittleSplits(data, at + 1, n - 1, m);
      assert Little(data, at, n + m) == data[at] + 256 * Little(data, at + 1, (n - 1) + m);
      Regroup(Pow256(n - 1), x);
    }
  }

  lemma Regroup(a: nat, x: nat)
    ensures 256 * (a * x) == (256 * a) * x
  {
  }

  lemma PlaceExactly(data: Bytes, s: Section, k: nat, at: nat)
    requires at == s.offset + 24 * k && at + 24 <= |data|
    ensures PlaceSays(data, s, at, RelocationAt(data, s, k))
    ensures forall place :: PlaceSays(data, s, at, place) ==> place == RelocationAt(data, s, k)
    ensures RelaInfo(data, s, k) / TWO_32 == Little(data, at + 12, 4)
  {
    hide Little, Word;
    WordsAreLittle(data);
    Halves(data, at + 8);
  }

  lemma PlacesExactly(data: Bytes, s: Section)
    ensures EntriesInside(data, s) ==> PlacesSay(data, s, SectionRelocations(data, s))
    ensures forall places :: PlacesSay(data, s, places) ==>
            EntriesInside(data, s) && places == SectionRelocations(data, s)
  {
    hide PlaceSays, RelocationAt;
    if EntriesInside(data, s) {
      forall k | 0 <= k < EntryCount(s)
        ensures PlaceSays(data, s, s.offset + 24 * k, RelocationAt(data, s, k))
      {
        PlaceExactly(data, s, k, s.offset + 24 * k);
      }
    }
    forall places | PlacesSay(data, s, places)
      ensures EntriesInside(data, s) && places == SectionRelocations(data, s)
    {
      PlacesAreInside(data, s, places);
      forall k | 0 <= k < |places|
        ensures places[k] == RelocationAt(data, s, k)
      {
        PlaceExactly(data, s, k, s.offset + 24 * k);
      }
    }
  }

  lemma PlacesAreInside(data: Bytes, s: Section, places: seq<Relocation>)
    requires PlacesSay(data, s, places)
    ensures EntriesInside(data, s) && EntryCount(s) == |places|
  {
    if places != [] {
      var k := |places| - 1;
      assert PlaceSays(data, s, s.offset + 24 * k, places[k]);
    }
  }

  lemma RowsExactly(data: Bytes, sections: seq<Section>, s: Section)
    requires SymbolsOk(data, sections, |sections|)
    ensures Resolves(data, sections, s) ==>
            RowsSay(data, sections, s, TableSymbols(data, sections, sections[s.link]),
                    ResolvedRelocations(data, sections, s))
    ensures forall symbols, rows :: RowsSay(data, sections, s, symbols, rows) ==>
            Resolves(data, sections, s) && rows == ResolvedRelocations(data, sections, s)
  {
    hide TableOk, TableSymbols, TableSays, PlaceSays, RelocationAt, RelaInfo, Little, SymbolsOk;
    if Resolves(data, sections, s) {
      ReadRowsSay(data, sections, s);
    }
    forall symbols, rows | RowsSay(data, sections, s, symbols, rows)
      ensures Resolves(data, sections, s) && rows == ResolvedRelocations(data, sections, s)
    {
      ReadRowsAre(data, sections, s, symbols, rows);
    }
  }

  lemma ReadRowsSay(data: Bytes, sections: seq<Section>, s: Section)
    requires SymbolsOk(data, sections, |sections|) && Resolves(data, sections, s)
    ensures RowsSay(data, sections, s, TableSymbols(data, sections, sections[s.link]),
                    ResolvedRelocations(data, sections, s))
  {
    TableExactly(data, sections, sections[s.link]);
    hide TableSymbols, TableSays, PlaceSays, RelocationAt, RelaInfo, Little;
    forall k | 0 <= k < EntryCount(s)
      ensures RowSays(data, s, s.offset + 24 * k, TableSymbols(data, sections, sections[s.link]),
                      Resolved(data, sections, s, k))
    {
      PlaceExactly(data, s, k, s.offset + 24 * k);
      assert PlaceSays(data, s, s.offset + 24 * k, RelocationAt(data, s, k));
      PlaceIsInside(data, s, s.offset + 24 * k, RelocationAt(data, s, k));
    }
  }

  lemma PlaceIsInside(data: Bytes, s: Section, at: nat, place: Relocation)
    requires PlaceSays(data, s, at, place)
    ensures at + 24 <= |data|
  {
  }

  lemma RowIs(data: Bytes, s: Section, k: nat, symbols: seq<Symbol>, row: SymbolRelocation)
    requires RowSays(data, s, s.offset + 24 * k, symbols, row)
    ensures EntryAt(s, k) + 24 <= |data| && RelaInfo(data, s, k) / TWO_32 < |symbols|
    ensures row == SymbolRelocation(RelocationAt(data, s, k), symbols[RelaInfo(data, s, k) / TWO_32].name,
                                    symbols[RelaInfo(data, s, k) / TWO_32].section)
  {
    hide RelocationAt, RelaInfo, Little;
    PlaceExactly(data, s, k, s.offset + 24 * k);
  }

  lemma RowsAreInside(data: Bytes, sections: seq<Section>, s: Section, symbols: seq<Symbol>,
                      rows: seq<SymbolRelocation>)
    requires RowsSay(data, sections, s, symbols, rows)
    ensures EntriesInside(data, s) && EntryCount(s) == |rows|
    ensures forall k :: 0 <= k < |rows| ==>
              && EntryAt(s, k) + 24 <= |data| && RelaInfo(data, s, k) / TWO_32 < |symbols|
              && rows[k] == SymbolRelocation(RelocationAt(data, s, k), symbols[RelaInfo(data, s, k) / TWO_32].name,
                                             symbols[RelaInfo(data, s, k) / TWO_32].section)
  {
    hide TableSays, PlaceSays, RelocationAt, RelaInfo, Little;
    PlacesAreInside(data, s, Places(rows)) by {
      assert forall k :: 0 <= k < |rows| ==> RowSays(data, s, s.offset + 24 * k, symbols, rows[k]);
    }
    hide RowSays;
    forall k | 0 <= k < |rows|
      ensures EntryAt(s, k) + 24 <= |data| && RelaInfo(data, s, k) / TWO_32 < |symbols|
      ensures rows[k] == SymbolRelocation(RelocationAt(data, s, k), symbols[RelaInfo(data, s, k) / TWO_32].name,
                                          symbols[RelaInfo(data, s, k) / TWO_32].section)
    {
      RowIs(data, s, k, symbols, rows[k]);
    }
  }

  lemma LinkedTable(data: Bytes, sections: seq<Section>, s: Section, symbols: seq<Symbol>, rows: seq<SymbolRelocation>)
    requires RowsSay(data, sections, s, symbols, rows)
    ensures s.info < |sections| && s.link < |sections| && sections[s.link].kind == SHT_SYMTAB
    ensures TableOk(data, sections, sections[s.link]) && symbols == TableSymbols(data, sections, sections[s.link])
  {
    hide RowSays, TableOk, TableSymbols, TableSays;
    TableExactly(data, sections, sections[s.link]);
  }

  lemma ReadRowsAre(data: Bytes, sections: seq<Section>, s: Section, symbols: seq<Symbol>, rows: seq<SymbolRelocation>)
    requires SymbolsOk(data, sections, |sections|) && RowsSay(data, sections, s, symbols, rows)
    ensures Resolves(data, sections, s) && rows == ResolvedRelocations(data, sections, s)
  {
    RowsAreInside(data, sections, s, symbols, rows);
    LinkedTable(data, sections, s, symbols, rows);
    hide TableSymbols, RelocationAt, RelaInfo, TableOk, SymbolsOk, RowsSay, EntriesInside;
    assert Resolves(data, sections, s);
    var read := ResolvedRelocations(data, sections, s);
    assert forall k :: 0 <= k < |rows| ==> read[k] == rows[k];
  }

  // ----- Objects

  function Flatten<T>(parts: seq<seq<T>>): seq<T> {
    if parts == [] then [] else Flatten(parts[..|parts| - 1]) + parts[|parts| - 1]
  }

  /** Part by part, the symbols of the sections. */
  ghost predicate SymbolsSay(data: Bytes, sections: seq<Section>, tables: seq<seq<Symbol>>, n: nat)
    requires n <= |sections|
  {
    |tables| == n && forall i :: 0 <= i < n ==>
      if sections[i].kind == 2 then TableSays(data, sections, sections[i], tables[i]) else tables[i] == []
  }

  /** Part by part, the relocations of the sections: of kind 4, each against its own symbol table. */
  ghost predicate RelocationsSay(data: Bytes, sections: seq<Section>, parts: seq<seq<SymbolRelocation>>, n: nat)
    requires n <= |sections|
  {
    |parts| == n && forall i :: 0 <= i < n ==>
      if sections[i].kind == 4 then exists symbols :: RowsSay(data, sections, sections[i], symbols, parts[i])
          else parts[i] == []
  }

  ghost predicate AllPlacesSay(data: Bytes, sections: seq<Section>, parts: seq<seq<Relocation>>, n: nat)
    requires n <= |sections|
  {
    |parts| == n && forall i :: 0 <= i < n ==>
      if sections[i].kind == 4 then PlacesSay(data, sections[i], parts[i]) else parts[i] == []
  }

  lemma {:induction false} SymbolsRead(data: Bytes, sections: seq<Section>, n: nat) returns (tables: seq<seq<Symbol>>)
    requires n <= |sections| && SymbolsOk(data, sections, n)
    ensures SymbolsSay(data, sections, tables, n) && SymbolsUpTo(data, sections, n) == Flatten(tables)
  {
    hide TableOk, TableSymbols, TableSays;
    tables := [];
    if n != 0 {
      var front := SymbolsRead(data, sections, n - 1);
      TableExactly(data, sections, sections[n - 1]);
      var last := if sections[n - 1].kind == 2 then TableSymbols(data, sections, sections[n - 1]) else [];
      tables := front + [last];
      assert tables[..n - 1] == front;
    }
  }

  lemma {:induction false} SymbolsAreRead(data: Bytes, sections: seq<Section>, tables: seq<seq<Symbol>>, n: nat)
    requires n <= |sections| && SymbolsSay(data, sections, tables, n)
    ensures SymbolsOk(data, sections, n) && SymbolsUpTo(data, sections, n) == Flatten(tables)
  {
    hide TableOk, TableSymbols, TableSays;
    if n != 0 {
      SymbolsAreRead(data, sections, tables[..n - 1], n - 1);
      TableExactly(data, sections, sections[n - 1]);
    }
  }

  lemma {:induction false} RowsRead(data: Bytes, sections: seq<Section>, n: nat)
    returns (parts: seq<seq<SymbolRelocation>>)
    requires n <= |sections| && SymbolsOk(data, sections, |sections|) && AllResolve(data, sections, n)
    ensures RelocationsSay(data, sections, parts, n) && ResolvedUpTo(data, sections, n) == Flatten(parts)
  {
    hide SymbolsOk, Resolves, RowsSay, ResolvedRelocations, TableSymbols;
    parts := [];
    if n != 0 {
      var front := RowsRead(data, sections, n - 1);
      RowsExactly(data, sections, sections[n - 1]);
      var last := if sections[n - 1].kind == 4 then ResolvedRelocations(data, sections, sections[n - 1]) else [];
      parts := front + [last];
      assert parts[..n - 1] == front;
    }
  }

  lemma {:induction false} RowsAreRead(data: Bytes, sections: seq<Section>, parts: seq<seq<SymbolRelocation>>, n: nat)
    requires n <= |sections| && SymbolsOk(data, sections, |sections|) && RelocationsSay(data, sections, parts, n)
    ensures AllResolve(data, sections, n) && ResolvedUpTo(data, sections, n) == Flatten(parts)
  {
    hide SymbolsOk, Resolves, RowsSay, ResolvedRelocations, TableSymbols;
    if n != 0 {
      RowsAreRead(data, sections, parts[..n - 1], n - 1);
      RowsExactly(data, sections, sections[n - 1]);
    }
  }

  lemma {:induction false} PlacesRead(data: Bytes, sections: seq<Section>, n: nat) returns (parts: seq<seq<Relocation>>)
    requires n <= |sections| && RelocationsOk(data, sections, n)
    ensures AllPlacesSay(data, sections, parts, n) && RelocationsUpTo(data, sections, n) == Flatten(parts)
  {
    hide EntriesInside, PlacesSay, SectionRelocations;
    parts := [];
    if n != 0 {
      var front := PlacesRead(data, sections, n - 1);
      PlacesExactly(data, sections[n - 1]);
      var last := if sections[n - 1].kind == 4 then SectionRelocations(data, sections[n - 1]) else [];
      parts := front + [last];
      assert parts[..n - 1] == front;
    }
  }

  lemma {:induction false} PlacesAreRead(data: Bytes, sections: seq<Section>, parts: seq<seq<Relocation>>, n: nat)
    requires n <= |sections| && AllPlacesSay(data, sections, parts, n)
    ensures RelocationsOk(data, sections, n) && RelocationsUpTo(data, sections, n) == Flatten(parts)
  {
    hide EntriesInside, PlacesSay, SectionRelocations;
    if n != 0 {
      PlacesAreRead(data, sections, parts[..n - 1], n - 1);
      PlacesExactly(data, sections[n - 1]);
    }
  }

  /**
   * The file says this object: its sections, the symbols of its symbol tables, and its relocations
   * with their symbols.
   */
  ghost predicate FileSays(data: Bytes, machine: nat, o: Object<SymbolRelocation>) {
    && (exists table: nat, count: nat, names: nat :: SectionsSay(data, machine, table, count, names, o.sections))
    && (exists tables :: SymbolsSay(data, o.sections, tables, |o.sections|) && o.symbols == Flatten(tables))
    && exists parts :: RelocationsSay(data, o.sections, parts, |o.sections|) && o.relocations == Flatten(parts)
  }

  /** The same, with the relocations' places alone. */
  ghost predicate FileSaysPlaces(data: Bytes, machine: nat, o: Object<Relocation>) {
    && (exists table: nat, count: nat, names: nat :: SectionsSay(data, machine, table, count, names, o.sections))
    && (exists tables :: SymbolsSay(data, o.sections, tables, |o.sections|) && o.symbols == Flatten(tables))
    && exists parts :: AllPlacesSay(data, o.sections, parts, |o.sections|) && o.relocations == Flatten(parts)
  }

  /** The x86-64 reader accepts exactly the files that say an object, and reports that object. */
  lemma TwoPassExactly(data: Bytes, machine: nat, o: Object<SymbolRelocation>)
    ensures TwoPassOk(data, machine) && TwoPassObject(data, machine) == o <==> FileSays(data, machine, o)
  {
    hide SectionsOk, Sections, SectionsSay, SymbolsOk, AllResolve, SymbolsSay, RelocationsSay;
    SectionsExactly(data, machine, o.sections);
    if TwoPassOk(data, machine) && TwoPassObject(data, machine) == o {
      var tables := SymbolsRead(data, o.sections, |o.sections|);
      var parts := RowsRead(data, o.sections, |o.sections|);
    }
    if FileSays(data, machine, o) {
      var tables :| SymbolsSay(data, o.sections, tables, |o.sections|) && o.symbols == Flatten(tables);
      SymbolsAreRead(data, o.sections, tables, |o.sections|);
      var parts :| RelocationsSay(data, o.sections, parts, |o.sections|) && o.relocations == Flatten(parts);
      RowsAreRead(data, o.sections, parts, |o.sections|);
    }
  }

  /** So does the AArch64 reader, which resolves no symbols. */
  lemma OnePassExactly(data: Bytes, machine: nat, o: Object<Relocation>)
    ensures OnePassOk(data, machine) && OnePassObject(data, machine) == o <==> FileSaysPlaces(data, machine, o)
  {
    hide SectionsOk, Sections, SectionsSay, SymbolsOk, RelocationsOk, SymbolsSay, AllPlacesSay;
    SectionsExactly(data, machine, o.sections);
    if OnePassOk(data, machine) && OnePassObject(data, machine) == o {
      var tables := SymbolsRead(data, o.sections, |o.sections|);
      var parts := PlacesRead(data, o.sections, |o.sections|);
    }
    if FileSaysPlaces(data, machine, o) {
      var tables :| SymbolsSay(data, o.sections, tables, |o.sections|) && o.symbols == Flatten(tables);
      SymbolsAreRead(data, o.sections, tables, |o.sections|);
      var parts :| AllPlacesSay(data, o.sections, parts, |o.sections|) && o.relocations == Flatten(parts);
      PlacesAreRead(data, o.sections, parts, |o.sections|);
    }
  }
}
