/**
 * Which `_Unwind_*$got` symbols of a linked image are only linker labels of
 * their own global-offset-table slots, so that they are no unwinder entries.
 */
module GotLabels {
  import opened Wrappers
  import opened LittleEndian

  datatype Section = Section(name: string, kind: nat, flags: nat, addr: nat, offset: nat, size: nat, link: nat,
                             entrySize: nat)

  datatype Symbol = Symbol(name: string, kind: string, binding: string, visibility: string, section: nat,
                           value: nat, size: nat)

  /** A relocation with addend, and the section index of the symbol table it refers to. */
  datatype Row = Row(offset: nat, info: nat, addend: int, link: nat)

  /** The facts read from one ELF image: its bytes, sections, static symbols and symbol tables by section index. */
  datatype Image = Image(data: seq<byte>, elfType: nat, sections: seq<Section>, symbols: seq<Symbol>,
                         tables: map<nat, seq<Symbol>>)

  const SHT_PROGBITS := 1
  const SHT_RELA := 4
  const SHT_REL := 9
  const SHT_DYNSYM := 11
  const SHT_RELR := 19
  const ET_EXEC := 2
  const ET_DYN := 3
  const R_X86_64_GLOB_DAT := 6
  const R_X86_64_RELATIVE := 8
  const ROW_SIZE := 24
  const SLOT := 8

  predicate Writable(flags: nat) { flags % 2 == 1 }

  predicate Allocated(flags: nat) { flags / 2 % 2 == 1 }

  predicate Executable(flags: nat) { flags / 4 % 2 == 1 }

  /** A little-endian word of the file, or failure where the file is too short. */
  function Unpack(data: seq<byte>, offset: int, n: nat): Result<nat> {
    if 0 <= offset && offset + n <= |data| then Ok(Value(data[offset..offset + n])) else Err("truncated ELF record")
  }

  function Signed(v: nat): int { if v < TWO_64 / 2 then v else v - TWO_64 }

  // ----- Relocation rows

  predicate HoldsRows(s: Section) { s.kind == SHT_RELA && Allocated(s.flags) }

  predicate RowsReadable(image: Image, s: Section) {
    s.entrySize == ROW_SIZE && s.size % ROW_SIZE == 0 && (s.size == 0 || s.offset + s.size <= |image.data|)
  }

  function RowAt(data: seq<byte>, at: nat, link: nat): Row
    requires at + ROW_SIZE <= |data|
  {
    Row(Value(data[at..at + 8]), Value(data[at + 8..at + 16]), Signed(Value(data[at + 16..at + 24])), link)
  }

  function SectionRows(image: Image, s: Section): seq<Row>
    requires RowsReadable(image, s)
  {
    seq(s.size / ROW_SIZE, k requires 0 <= k < s.size / ROW_SIZE => RowAt(image.data, s.offset + ROW_SIZE * k, s.link))
  }

  /** Every allocated relocation row of the image, section by section. */
  function RowsOf(image: Image, sections: seq<Section>): seq<Row>
    requires forall s :: s in sections && HoldsRows(s) ==> RowsReadable(image, s)
  {
    if sections == [] then []
    else
      var last := sections[|sections| - 1];
      RowsOf(image, sections[..|sections| - 1]) + if HoldsRows(last) then SectionRows(image, last) else []
  }

  ghost predicate AllRowsReadable(image: Image) {
    forall s :: s in image.sections && HoldsRows(s) ==> RowsReadable(image, s)
  }

  method ReadSectionRows(image: Image, s: Section) returns (r: Result<seq<Row>>)
    ensures r.Ok? <==> RowsReadable(image, s)
    ensures r.Ok? ==> r.value == SectionRows(image, s)
  {
    hide RowAt;
    if s.entrySize != ROW_SIZE || s.size % ROW_SIZE != 0 {
      return Err("invalid unwind GOT relocations");
    }
    var rows: seq<Row> := [];
    var offset := 0;
    while offset < s.size
      invariant 0 <= offset <= s.size && offset == ROW_SIZE * |rows|
      invariant offset == 0 || s.offset + offset <= |image.data|
      invariant forall k :: 0 <= k < |rows| ==>
                  s.offset + ROW_SIZE * k + ROW_SIZE <= |image.data|
                  && rows[k] == RowAt(image.data, s.offset + ROW_SIZE * k, s.link)
    {
      var at := s.offset + offset;
      if |image.data| < at + ROW_SIZE {
        return Err("truncated ELF record");
      }
      rows := rows + [RowAt(image.data, at, s.link)];
      offset := offset + ROW_SIZE;
    }
    r := Ok(rows);
  }

  method ReadRows(image: Image) returns (r: Result<seq<Row>>)
    ensures r.Ok? <==> AllRowsReadable(image)
    ensures r.Ok? ==> r.value == RowsOf(image, image.sections)
  {
    var rows: seq<Row> := [];
    for i := 0 to |image.sections|
      invariant forall s :: s in image.sections[..i] && HoldsRows(s) ==> RowsReadable(image, s)
      invariant rows == RowsOf(image, image.sections[..i])
    {
      var s := image.sections[i];
      assert image.sections[..i + 1][..i] == image.sections[..i];
      if HoldsRows(s) {
        var more := ReadSectionRows(image, s);
        if more.Err? {
          assert s in image.sections;
          return more;
        }
        rows := rows + more.value;
      }
    }
    assert image.sections[..|image.sections|] == image.sections;
    r := Ok(rows);
  }

  // ----- One label

  function Matching(symbols: seq<Symbol>, name: string): seq<Symbol> {
    if symbols == [] then []
    else
      var last := symbols[|symbols| - 1];
      Matching(symbols[..|symbols| - 1], name) + if last.name == name && last.section != 0 then [last] else []
  }

  /** The one defined static symbol of that name, or none; two are an error. */
  function FindSymbol(image: Image, name: string): Result<Option<Symbol>> {
    var found := Matching(image.symbols, name);
    if |found| > 1 then Err("duplicate symbol") else if found == [] then Ok(None) else Ok(Some(found[0]))
  }

  function DynamicSymbol(image: Image, link: nat, index: nat): Result<Symbol> {
    if link in image.tables && index < |image.tables[link]| then Ok(image.tables[link][index])
    else Err("invalid ELF symbol index")
  }

  predicate InWindow(row: Row, address: int) { address - 7 <= row.offset < address + SLOT }

  function Nearby(rows: seq<Row>, address: int): seq<Row> {
    if rows == [] then []
    else
      var last := rows[|rows| - 1];
      Nearby(rows[..|rows| - 1], address) + if InWindow(last, address) then [last] else []
  }

  predicate Contains(s: Section, address: nat, size: nat) {
    s.addr <= address && address + size <= s.addr + s.size
  }

  /** The eight file bytes of the slot as a number; absent when the slot leaves its section. */
  function SlotValue(image: Image, s: Section, address: nat): Result<Option<nat>> {
    if !Contains(s, address, SLOT) then Ok(None)
    else
      var word := Unpack(image.data, s.offset + address - s.addr, SLOT);
      if word.Err? then Err(word.reason) else Ok(Some(word.value))
  }

  function RowType(row: Row): nat { row.info % TWO_32 }

  function RowSymbol(row: Row): nat { row.info / TWO_32 }

  /** The only relocation near the slot rebases it to the target. */
  predicate Rebases(row: Row, address: nat, target: Symbol, slot: Option<nat>) {
    row.offset == address && row.info == R_X86_64_RELATIVE && row.addend == target.value && slot == Some(target.value)
  }

  /** The only relocation near the slot stores the address of a dynamic symbol in a zeroed slot. */
  predicate Imports(image: Image, row: Row, address: nat, slot: Option<nat>) {
    && row.offset == address && RowType(row) == R_X86_64_GLOB_DAT && RowSymbol(row) != 0 && row.addend == 0
    && slot == Some(0) && row.link < |image.sections| && image.sections[row.link].kind == SHT_DYNSYM
  }

  predicate SameDefinition(dynamic: Symbol, target: Symbol) {
    && dynamic.name == target.name && dynamic.kind == "FUNC" && dynamic.binding == "GLOBAL"
    && dynamic.visibility == "DEFAULT" && dynamic.section == target.section && dynamic.value == target.value
    && dynamic.size == target.size
  }

  function RelocationMatches(image: Image, rows: seq<Row>, address: nat, target: Symbol,
                             slot: Option<nat>): Result<bool> {
    var nearby := Nearby(rows, address);
    if image.elfType == ET_DYN && |nearby| == 1 then
      var row := nearby[0];
      if Rebases(row, address, target, slot) then Ok(true)
      else if Imports(image, row, address, slot) then
        var dynamic := DynamicSymbol(image, row.link, RowSymbol(row));
        if dynamic.Err? then Err(dynamic.reason) else Ok(SameDefinition(dynamic.value, target))
      else Ok(false)
    else Ok(image.elfType == ET_EXEC && nearby == [] && slot == Some(target.value))
  }

  predicate IsGotLabel(entry: Symbol, s: Section) {
    && entry.kind == "OBJECT" && entry.binding == "LOCAL" && entry.visibility == "DEFAULT" && entry.size == 0
    && s.name == ".got" && s.kind == SHT_PROGBITS && Writable(s.flags) && Allocated(s.flags)
    && entry.value % 8 == 0 && Contains(s, entry.value, SLOT)
  }

  predicate IsFunction(target: Symbol, s: Section) {
    && target.kind == "FUNC" && target.size > 0 && Allocated(s.flags) && Executable(s.flags)
    && Contains(s, target.value, target.size)
  }

  predicate Unsupported(image: Image) {
    exists s :: s in image.sections && (s.kind == SHT_REL || s.kind == SHT_RELR) && Allocated(s.flags) && s.size != 0
  }

  predicate HasSection(image: Image, symbol: Symbol) { 0 < symbol.section < |image.sections| }

  const SUFFIX := "$got"

  function TargetName(name: string): string {
    if |SUFFIX| <= |name| then name[..|name| - |SUFFIX|] else ""
  }

  predicate IsLabelName(name: string, providers: set<string>) {
    |SUFFIX| <= |name| && name[|name| - |SUFFIX|..] == SUFFIX && TargetName(name) in providers
  }

  /** Whether one label name is dropped from the image's unwinder entries. */
  function Accepts(image: Image, rows: seq<Row>, name: string): Result<bool> {
    var entry := FindSymbol(image, name);
    var target := FindSymbol(image, TargetName(name));
    if entry.Err? then Err(entry.reason)
    else if target.Err? then Err(target.reason)
    else if entry.value.None? || target.value.None? || Unsupported(image) then Ok(false)
    else AcceptsPair(image, rows, entry.value.value, target.value.value)
  }

  function AcceptsPair(image: Image, rows: seq<Row>, entry: Symbol, target: Symbol): Result<bool> {
    if !HasSection(image, entry) || !HasSection(image, target) then Ok(false)
    else
      var s := image.sections[entry.section];
      var slot := SlotValue(image, s, entry.value);
      if slot.Err? then Err(slot.reason)
      else
        var matches := RelocationMatches(image, rows, entry.value, target, slot.value);
        if matches.Err? then Err(matches.reason)
        else Ok(IsGotLabel(entry, s) && IsFunction(target, image.sections[target.section]) && matches.value)
  }
}
