/**
 * A reference writer of ELF64 relocatable objects: the header, the section
 * contents in order, then the section header table. Reading back what it
 * writes yields exactly the sections, symbols and relocations it was given.
 */
module ElfWriter {
  import opened Wrappers
  import opened LittleEndian
  import opened ElfObject

  // ----- Records

  /** A little-endian field of a record. */
  datatype Field = Field(width: nat, value: nat)

  function OffsetOf(fields: seq<Field>, k: nat): nat
    requires k <= |fields|
  {
    if k == 0 then 0 else OffsetOf(fields, k - 1) + fields[k - 1].width
  }

  /** The bytes of the first `k` fields. */
  function Pack(fields: seq<Field>, k: nat): (b: Bytes)
    requires k <= |fields|
    ensures |b| == OffsetOf(fields, k)
  {
    if k == 0 then [] else Pack(fields, k - 1) + Encode(fields[k - 1].width, fields[k - 1].value)
  }

  lemma {:induction false} FieldOfPack(fields: seq<Field>, n: nat, k: nat)
    requires k < n <= |fields|
    ensures OffsetOf(fields, k) + fields[k].width <= OffsetOf(fields, n)
    ensures Pack(fields, n)[OffsetOf(fields, k)..OffsetOf(fields, k) + fields[k].width]
         == Encode(fields[k].width, fields[k].value)
  {
    if k < n - 1 {
      FieldOfPack(fields, n - 1, k);
      var front := Pack(fields, n - 1);
      assert forall a, b :: 0 <= a <= b <= |front| ==> Pack(fields, n)[a..b] == front[a..b];
    }
  }

  /** A record stands in `data` at `at`. */
  ghost predicate Holds(data: Bytes, at: nat, record: Bytes) {
    Inside(data, at, |record|) && data[at..at + |record|] == record
  }

  lemma SliceOfSlice(data: Bytes, a: nat, b: nat, c: nat, d: nat)
    requires a <= b <= |data| && c <= d <= b - a
    ensures data[a..b][c..d] == data[a + c..a + d]
  {
    var x, y := data[a..b][c..d], data[a + c..a + d];
    assert forall i :: 0 <= i < d - c ==> x[i] == y[i];
  }

  lemma FieldRead(data: Bytes, at: nat, fields: seq<Field>, k: nat)
    requires Holds(data, at, Pack(fields, |fields|)) && k < |fields|
    requires fields[k].value < Pow256(fields[k].width)
    ensures Inside(data, at + OffsetOf(fields, k), fields[k].width)
    ensures Word(data, at + OffsetOf(fields, k), fields[k].width) == fields[k].value
  {
    FieldOfPack(fields, |fields|, k);
    var o, w, record := OffsetOf(fields, k), fields[k].width, Pack(fields, |fields|);
    SliceOfSlice(data, at, at + |record|, o, o + w);
    ValueOfEncode(w, fields[k].value);
  }

  // ----- Parts laid end to end

  function Concat(parts: seq<Bytes>): Bytes {
    if parts == [] then [] else Concat(parts[..|parts| - 1]) + parts[|parts| - 1]
  }

  function PartOffset(parts: seq<Bytes>, i: nat): nat
    requires i <= |parts|
  {
    if i == 0 then 0 else PartOffset(parts, i - 1) + |parts[i - 1]|
  }

  lemma {:induction false} PartOffsetOfPrefix(parts: seq<Bytes>, n: nat, i: nat)
    requires i <= n <= |parts|
    ensures PartOffset(parts[..n], i) == PartOffset(parts, i)
  {
    if i != 0 {
      PartOffsetOfPrefix(parts, n, i - 1);
    }
  }

  lemma {:induction false} ConcatLength(parts: seq<Bytes>)
    ensures |Concat(parts)| == PartOffset(parts, |parts|)
  {
    if parts != [] {
      var front := parts[..|parts| - 1];
      ConcatLength(front);
      PartOffsetOfPrefix(parts, |front|, |front|);
    }
  }

  lemma {:induction false} PartOfConcat(parts: seq<Bytes>, i: nat)
    requires i < |parts|
    ensures Holds(Concat(parts), PartOffset(parts, i), parts[i])
  {
    var front := parts[..|parts| - 1];
    ConcatLength(front);
    PartOffsetOfPrefix(parts, |front|, |front|);
    if i < |front| {
      PartOfConcat(front, i);
      PartOffsetOfPrefix(parts, |front|, i);
      var a := PartOffset(parts, i);
      assert Concat(parts)[a..a + |parts[i]|] == Concat(front)[a..a + |parts[i]|];
    }
  }

  lemma {:induction false} EqualParts(parts: seq<Bytes>, size: nat, i: nat)
    requires i <= |parts| && forall k :: 0 <= k < |parts| ==> |parts[k]| == size
    ensures PartOffset(parts, i) == size * i
  {
    if i != 0 {
      EqualParts(parts, size, i - 1);
    }
  }

  lemma HoldsInside(data: Bytes, at: nat, whole: Bytes, o: nat, part: Bytes)
    requires Holds(data, at, whole) && Holds(whole, o, part)
    ensures Holds(data, at + o, part)
  {
    SliceOfSlice(data, at, at + |whole|, o, o + |part|);
  }

  // ----- String tables

  predicate NoNul(name: Bytes) { forall i :: 0 <= i < |name| ==> name[i] != 0 }

  function Terminated(names: seq<Bytes>): seq<Bytes> {
    seq(|names|, i requires 0 <= i < |names| => names[i] + [0])
  }

  /** A string table: one NUL for the empty name, then each name with its own. */
  function NameBytes(names: seq<Bytes>): Bytes {
    [0] + Concat(Terminated(names))
  }

  function NameOffset(names: seq<Bytes>, k: nat): nat
    requires k <= |names|
  {
    1 + PartOffset(Terminated(names), k)
  }

  lemma NameRead(names: seq<Bytes>, k: nat)
    requires k < |names| && NoNul(names[k])
    ensures HasString(NameBytes(names), NameOffset(names, k))
    ensures StringAt(NameBytes(names), NameOffset(names, k)) == names[k]
  {
    var parts := Terminated(names);
    var data, at, name := NameBytes(names), NameOffset(names, k), names[k];
    PartOfConcat(parts, k);
    assert Holds(data, 1, Concat(parts));
    HoldsInside(data, 1, Concat(parts), PartOffset(parts, k), parts[k]);
    var here := data[at..at + |name| + 1];
    assert here == name + [0];
    assert forall i :: 0 <= i <= |name| ==> data[at + i] == here[i];
    assert data[at + |name|] == 0;
    forall j | at <= j < at + |name|
      ensures data[j] != 0
    {
      assert data[j] == here[j - at] == name[j - at];
    }
    assert data[at..at + |name|] == here[..|name|] == name;
  }

  // ----- Drafts

  /** A symbol by the position of its name in the linked string table; none for the empty name. */
  datatype SymbolDraft = SymbolDraft(name: Option<nat>, binding: nat, kind: nat, visibility: nat, section: nat,
                                     value: nat, size: nat)

  datatype RelaDraft = RelaDraft(offset: nat, symbol: nat, kind: nat, addend: nat)

  datatype Content =
    | Raw(kind: nat, entrySize: nat, bytes: Bytes)
    | NoBits(entrySize: nat, size: nat)
    | Names(names: seq<Bytes>)
    | Table(symbols: seq<SymbolDraft>)
    | Relas(rows: seq<RelaDraft>)

  /** A section by the position of its name in the section-name table. */
  datatype SectionDraft = SectionDraft(name: nat, flags: nat, link: nat, info: nat, content: Content)

  /** An object to be written; `names` is the index of its section-name table. */
  datatype Draft = Draft(sections: seq<SectionDraft>, names: nat)

  const SHT_STRTAB := 3
  const SHT_NOBITS := 8

  function KindOf(content: Content): nat {
    match content
    case Raw(kind, _, _) => kind
    case NoBits(_, _) => SHT_NOBITS
    case Names(_) => SHT_STRTAB
    case Table(_) => SHT_SYMTAB
    case Relas(_) => SHT_RELA
  }

  function EntrySizeOf(content: Content): nat {
    match content
    case Raw(_, entrySize, _) => entrySize
    case NoBits(entrySize, _) => entrySize
    case Names(_) => 0
    case Table(_) => SYMBOL_SIZE
    case Relas(_) => RELA_SIZE
  }

  /** The names that section `link` offers. */
  function NamesAt(d: Draft, link: nat): seq<Bytes> {
    if link < |d.sections| && d.sections[link].content.Names? then d.sections[link].content.names else []
  }

  function SymbolsAt(d: Draft, link: nat): seq<SymbolDraft> {
    if link < |d.sections| && d.sections[link].content.Table? then d.sections[link].content.symbols else []
  }

  predicate NamesFit(names: seq<Bytes>) {
    (forall i :: 0 <= i < |names| ==> NoNul(names[i])) && |NameBytes(names)| < TWO_32
  }

  predicate SymbolFits(s: SymbolDraft, names: seq<Bytes>) {
    && (s.name.Some? ==> s.name.value < |names|)
    && s.binding < 16 && s.kind < 16 && s.visibility < 4 && s.section < TWO_16 && s.value < TWO_64 && s.size < TWO_64
  }

  predicate RelaFits(r: RelaDraft, symbols: seq<SymbolDraft>) {
    r.offset < TWO_64 && r.symbol < |symbols| && r.symbol < TWO_32 && r.kind < TWO_32 && r.addend < TWO_64
  }

  predicate SectionFits(d: Draft, s: SectionDraft) {
    && s.name < |NamesAt(d, d.names)| && s.flags < TWO_64 && s.link < TWO_32 && s.info < TWO_32
    && match s.content
       case Raw(kind, entrySize, bytes) => kind < TWO_32 && kind != SHT_SYMTAB && kind != SHT_RELA && entrySize < TWO_64
       case NoBits(entrySize, size) => entrySize < TWO_64 && size < TWO_64
       case Names(names) => NamesFit(names)
       case Table(symbols) =>
         s.link < |d.sections| && d.sections[s.link].content.Names?
         && forall k :: 0 <= k < |symbols| ==> SymbolFits(symbols[k], NamesAt(d, s.link))
       case Relas(rows) =>
         s.link < |d.sections| && d.sections[s.link].content.Table? && s.info < |d.sections|
         && forall k :: 0 <= k < |rows| ==> RelaFits(rows[k], SymbolsAt(d, s.link))
  }

  /** A draft whose every number fits its field. */
  ghost predicate WellFormed(d: Draft) {
    && 0 < |d.sections| < TWO_16 && d.names < |d.sections| && d.sections[d.names].content.Names?
    && (forall i :: 0 <= i < |d.sections| ==> SectionFits(d, d.sections[i]))
    && |File(d, 0)| < TWO_64
  }

  // ----- The file

  function SymbolFields(s: SymbolDraft, names: seq<Bytes>): seq<Field>
    requires s.name.Some? ==> s.name.value < |names|
  {
    [Field(4, if s.name.Some? then NameOffset(names, s.name.value) else 0), Field(1, s.binding * 16 + s.kind),
     Field(1, s.visibility), Field(2, s.section), Field(8, s.value), Field(8, s.size)]
  }

  function SymbolRecord(s: SymbolDraft, names: seq<Bytes>): Bytes {
    if s.name.Some? && |names| <= s.name.value then [] else Pack(SymbolFields(s, names), 6)
  }

  function RelaFields(r: RelaDraft): seq<Field> {
    [Field(8, r.offset), Field(8, r.symbol * TWO_32 + r.kind), Field(8, r.addend)]
  }

  function Records(d: Draft, s: SectionDraft): seq<Bytes> {
    match s.content
    case Raw(_, _, bytes) => [bytes]
    case NoBits(_, _) => []
    case Names(names) => [NameBytes(names)]
    case Table(symbols) => seq(|symbols|, k requires 0 <= k < |symbols| => SymbolRecord(symbols[k], NamesAt(d, s.link)))
    case Relas(rows) => seq(|rows|, k requires 0 <= k < |rows| => Pack(RelaFields(rows[k]), 3))
  }

  function Body(d: Draft, s: SectionDraft): Bytes { Concat(Records(d, s)) }

  /** The size a section claims: that of its body, or its own where it has no file bytes. */
  function SizeOf(d: Draft, s: SectionDraft): nat {
    if s.content.NoBits? then s.content.size else |Body(d, s)|
  }

  function Bodies(d: Draft): (r: seq<Bytes>)
    ensures |r| == |d.sections|
  {
    seq(|d.sections|, i requires 0 <= i < |d.sections| => Body(d, d.sections[i]))
  }

  function BodyOffset(d: Draft, i: nat): nat
    requires i <= |d.sections|
  {
    HEADER_SIZE + PartOffset(Bodies(d), i)
  }

  function SectionFields(d: Draft, i: nat): seq<Field>
    requires i < |d.sections|
  {
    var s := d.sections[i];
    [Field(4, if s.name < |NamesAt(d, d.names)| then NameOffset(NamesAt(d, d.names), s.name) else 0),
     Field(4, KindOf(s.content)), Field(8, s.flags), Field(8, 0), Field(8, BodyOffset(d, i)),
     Field(8, SizeOf(d, s)), Field(4, s.link), Field(4, s.info), Field(8, 0), Field(8, EntrySizeOf(s.content))]
  }

  function SectionHeaders(d: Draft): (r: seq<Bytes>)
    ensures |r| == |d.sections|
  {
    seq(|d.sections|, i requires 0 <= i < |d.sections| => Pack(SectionFields(d, i), 10))
  }

  const IDENT: Bytes := [0x7f, 0x45, 0x4c, 0x46, 2, 1, 1, 0, 0, 0, 0, 0, 0, 0, 0, 0]

  function HeaderFields(d: Draft, machine: nat): seq<Field> {
    [Field(2, ET_REL), Field(2, machine), Field(4, 1), Field(8, 0), Field(8, 0), Field(8, BodyOffset(d, |d.sections|)),
     Field(4, 0), Field(2, HEADER_SIZE), Field(2, 0), Field(2, 0), Field(2, SECTION_HEADER_SIZE),
     Field(2, |d.sections|), Field(2, d.names)]
  }

  function Header(d: Draft, machine: nat): Bytes { IDENT + Pack(HeaderFields(d, machine), 13) }

  function File(d: Draft, machine: nat): Bytes {
    Header(d, machine) + Concat(Bodies(d)) + Concat(SectionHeaders(d))
  }

  // ----- What the draft means

  function NameOfSymbol(s: SymbolDraft, names: seq<Bytes>): Bytes {
    if s.name.Some? && s.name.value < |names| then names[s.name.value] else []
  }

  function SymbolMeant(s: SymbolDraft, names: seq<Bytes>): Symbol {
    Symbol(NameOfSymbol(s, names), s.binding, s.kind, s.visibility, s.section, s.value, s.size)
  }

  function SectionMeant(d: Draft, i: nat): Section
    requires i < |d.sections|
  {
    var s := d.sections[i];
    Section(if s.name < |NamesAt(d, d.names)| then NamesAt(d, d.names)[s.name] else [], KindOf(s.content), s.flags,
            BodyOffset(d, i), SizeOf(d, s), s.link, s.info, EntrySizeOf(s.content))
  }

  function SectionsMeant(d: Draft): seq<Section> {
    seq(|d.sections|, i requires 0 <= i < |d.sections| => SectionMeant(d, i))
  }

  /** The symbols of one section. */
  function TableMeant(d: Draft, s: SectionDraft): seq<Symbol> {
    if !s.content.Table? then []
    else seq(|s.content.symbols|, k requires 0 <= k < |s.content.symbols| =>
               SymbolMeant(s.content.symbols[k], NamesAt(d, s.link)))
  }

  function RelaMeant(d: Draft, s: SectionDraft, r: RelaDraft): SymbolRelocation {
    var symbols := SymbolsAt(d, s.link);
    var symbol := if r.symbol < |symbols| then symbols[r.symbol] else SymbolDraft(None, 0, 0, 0, 0, 0, 0);
    var names := if s.link < |d.sections| then NamesAt(d, d.sections[s.link].link) else [];
    SymbolRelocation(Relocation(s.info, r.offset, r.kind), NameOfSymbol(symbol, names), symbol.section)
  }

  /** The relocations of one section. */
  function RelasMeant(d: Draft, s: SectionDraft): seq<SymbolRelocation> {
    if !s.content.Relas? then []
    else seq(|s.content.rows|, k requires 0 <= k < |s.content.rows| => RelaMeant(d, s, s.content.rows[k]))
  }

  function SymbolsMeant(d: Draft, n: nat): seq<Symbol>
    requires n <= |d.sections|
  {
    if n == 0 then [] else SymbolsMeant(d, n - 1) + TableMeant(d, d.sections[n - 1])
  }

  function RelocationsMeant(d: Draft, n: nat): seq<SymbolRelocation>
    requires n <= |d.sections|
  {
    if n == 0 then [] else RelocationsMeant(d, n - 1) + RelasMeant(d, d.sections[n - 1])
  }

  function Meaning(d: Draft): Object<SymbolRelocation> {
    Object(SectionsMeant(d), SymbolsMeant(d, |d.sections|), RelocationsMeant(d, |d.sections|))
  }
}
