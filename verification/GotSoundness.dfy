/**
 * Soundness of the label check against the relocation semantics of the System
 * V AMD64 psABI, section 4.4.1 (Relocation Types): in every run of the
 * dynamic linker an accepted slot ends up holding its target's address.
 *
 * Memory is addressed relative to the load base, so that byte `a` of the image
 * is run-time address `base + a`.
 */
module GotSoundness {
  import opened Wrappers
  import opened LittleEndian
  import opened GotLabels

  type Memory = int -> byte

  /** Where the image is loaded, its memory before relocation, and the addresses symbol references resolve to. */
  datatype Load = Load(base: nat, initial: Memory, resolve: (nat, nat) -> nat)

  /** The file's allocated contents are in memory. */
  ghost predicate Mapped(image: Image, memory: Memory) {
    forall s :: s in image.sections && s.kind == SHT_PROGBITS && Allocated(s.flags) ==> SectionMapped(image, s, memory)
  }

  ghost predicate SectionMapped(image: Image, s: Section, memory: Memory) {
    forall k :: s.offset <= k < s.offset + s.size && k < |image.data| ==>
        memory(s.addr + (k - s.offset)) == image.data[k]
  }

  /** A function that a section of the image defines. */
  predicate DefinesFunction(image: Image, symbol: Symbol) { symbol.kind == "FUNC" && HasSection(image, symbol) }

  /** A reference to a function that the image defines binds to the image's own definition. */
  ghost predicate BindsToSelf(image: Image, load: Load) {
    forall link, index :: DynamicSymbol(image, link, index).Ok?
                          && DefinesFunction(image, DynamicSymbol(image, link, index).value)
                      ==> load.resolve(link, index) == RunTime(load, DynamicSymbol(image, link, index).value.value)
  }

  function RunTime(load: Load, address: int): nat { (load.base + address) % TWO_64 }

  ghost predicate ValidLoad(image: Image, load: Load) {
    && load.base < TWO_64 && (image.elfType == ET_EXEC ==> load.base == 0)
    && Mapped(image, load.initial) && BindsToSelf(image, load)
  }

  // ----- Relocation

  /** What one row may write: a rebased addend, a resolved symbol, or anything of its own width. */
  ghost predicate MayWrite(load: Load, row: Row, width: nat, bytes: seq<byte>) {
    && |bytes| == width
    && (RowType(row) == R_X86_64_RELATIVE ==> bytes == Encode(SLOT, RunTime(load, row.addend)))
    && (RowType(row) == R_X86_64_GLOB_DAT ==> bytes == Encode(SLOT, load.resolve(row.link, RowSymbol(row)) % TWO_64))
  }

  /** One run of the dynamic linker: the bytes each row writes, and the order in which rows are applied. */
  datatype Run = Run(bytes: seq<seq<byte>>, order: seq<nat>)

  ghost predicate ValidRun(load: Load, rows: seq<Row>, widths: seq<nat>, run: Run) {
    && |run.bytes| == |rows| == |widths|
    && (forall k :: 0 <= k < |rows| ==> MayWrite(load, rows[k], widths[k], run.bytes[k]))
    && Permutes(run.order, |rows|)
  }

  /** Every row once. */
  predicate Permutes(order: seq<nat>, n: nat) {
    && Within(order, n) && (forall k :: 0 <= k < n ==> k in order)
    && forall i, j :: 0 <= i < j < |order| ==> order[i] != order[j]
  }

  predicate Within(order: seq<nat>, n: nat) { forall i :: 0 <= i < |order| ==> order[i] < n }

  /** Both relocation types with a fixed meaning write one word. */
  ghost predicate ValidWidths(rows: seq<Row>, widths: seq<nat>) {
    && |widths| == |rows|
    && forall k :: 0 <= k < |rows| && (RowType(rows[k]) == R_X86_64_RELATIVE || RowType(rows[k]) == R_X86_64_GLOB_DAT)
               ==> widths[k] == SLOT
  }

  function Write(memory: Memory, at: int, bytes: seq<byte>): Memory {
    a => if at <= a < at + |bytes| then bytes[a - at] else memory(a)
  }

  /** Memory after the first rows of the order, the last of them last. */
  ghost function Relocate(memory: Memory, rows: seq<Row>, run: Run, order: seq<nat>): Memory
    requires |run.bytes| == |rows| && Within(order, |rows|)
  {
    if order == [] then memory
    else
      var k := order[|order| - 1];
      Write(Relocate(memory, rows, run, order[..|order| - 1]), rows[k].offset, run.bytes[k])
  }

  function SlotBytes(memory: Memory, address: int): seq<byte> {
    seq(SLOT, i => memory(address + i))
  }

  ghost function FinalSlot(load: Load, rows: seq<Row>, run: Run, address: int): seq<byte>
    requires |run.bytes| == |rows| && Within(run.order, |rows|)
  {
    SlotBytes(Relocate(load.initial, rows, run, run.order), address)
  }

  // ----- Which rows touch the slot

  ghost predicate Touches(row: Row, width: nat, address: int) {
    row.offset < address + SLOT && address < row.offset + width
  }

  /** A row that starts too far below the slot to be seen near it, and yet is wide enough to write into it. */
  ghost predicate ReachesUnseen(row: Row, width: nat, address: int) {
    !InWindow(row, address) && Touches(row, width, address)
  }

  /** A row of at most one word outside the window of fifteen offsets leaves the slot alone. */
  lemma WordsOutsideTheWindowMiss(row: Row, width: nat, address: int)
    requires width <= SLOT && !InWindow(row, address)
    ensures !ReachesUnseen(row, width, address)
  {
  }

  lemma {:induction false} NearbyIsEmpty(rows: seq<Row>, address: int)
    requires Nearby(rows, address) == []
    ensures forall k :: 0 <= k < |rows| ==> !InWindow(rows[k], address)
  {
    if rows != [] {
      NearbyIsEmpty(rows[..|rows| - 1], address);
      assert forall k :: 0 <= k < |rows| - 1 ==> rows[k] == rows[..|rows| - 1][k];
    }
  }

  lemma {:induction false} NearbyIsOne(rows: seq<Row>, address: int) returns (j: nat)
    requires |Nearby(rows, address)| == 1
    ensures j < |rows| && Nearby(rows, address)[0] == rows[j] && InWindow(rows[j], address)
    ensures forall k :: 0 <= k < |rows| && k != j ==> !InWindow(rows[k], address)
  {
    var front, last := rows[..|rows| - 1], rows[|rows| - 1];
    assert forall k :: 0 <= k < |front| ==> rows[k] == front[k];
    if InWindow(last, address) {
      j := |rows| - 1;
      NearbyIsEmpty(front, address);
    } else {
      j := NearbyIsOne(front, address);
    }
  }

  /** Rows that do not touch the slot leave it as it was. */
  lemma {:induction false} UntouchedSlot(load: Load, rows: seq<Row>, widths: seq<nat>, run: Run, order: seq<nat>,
                                         address: int)
    requires ValidRun(load, rows, widths, run) && Within(order, |rows|)
    requires forall i :: 0 <= i < |order| ==> !Touches(rows[order[i]], widths[order[i]], address)
    ensures SlotBytes(Relocate(load.initial, rows, run, order), address) == SlotBytes(load.initial, address)
  {
    if order != [] {
      UntouchedSlot(load, rows, widths, run, order[..|order| - 1], address);
    }
  }

  /** When only row `j` touches the slot, and fills it exactly, the slot holds what that row writes. */
  lemma {:induction false} FilledSlot(load: Load, rows: seq<Row>, widths: seq<nat>, run: Run, order: seq<nat>,
                                      address: int, j: nat)
    requires ValidRun(load, rows, widths, run) && Within(order, |rows|)
    requires j in order && rows[j].offset == address && widths[j] == SLOT
    requires forall i :: 0 <= i < |order| && order[i] != j ==> !Touches(rows[order[i]], widths[order[i]], address)
    ensures SlotBytes(Relocate(load.initial, rows, run, order), address) == run.bytes[j]
  {
    var front, k := order[..|order| - 1], order[|order| - 1];
    assert order == front + [k];
    if k != j {
      FilledSlot(load, rows, widths, run, front, address, j);
    }
  }

  // ----- The theorem

  ghost predicate HoldsTarget(load: Load, rows: seq<Row>, run: Run, address: int, target: int)
    requires |run.bytes| == |rows| && Within(run.order, |rows|)
  {
    Value(FinalSlot(load, rows, run, address)) == RunTime(load, target)
  }

  lemma SlotIsMapped(image: Image, load: Load, entry: Symbol)
    requires ValidLoad(image, load) && HasSection(image, entry)
    requires var s := image.sections[entry.section];
             IsGotLabel(entry, s) && SlotValue(image, s, entry.value).Ok?
    ensures var s := image.sections[entry.section];
            SlotValue(image, s, entry.value) == Ok(Some(Value(SlotBytes(load.initial, entry.value))))
    ensures Value(SlotBytes(load.initial, entry.value)) < TWO_64
  {
    var s := image.sections[entry.section];
    var at := s.offset + entry.value - s.addr;
    var word, slot := image.data[at..at + SLOT], SlotBytes(load.initial, entry.value);
    forall i | 0 <= i < SLOT
      ensures word[i] == slot[i]
    {
      assert SectionMapped(image, s, load.initial);
      assert word[i] == image.data[at + i];
    }
    assert word == slot;
    ValueIsBounded(slot);
    WordSizes();
  }

  /** Whatever the load base, the order of rows and the bytes other rows write, the slot holds the target. */
  lemma AcceptedSlotIsSound(image: Image, rows: seq<Row>, entry: Symbol, target: Symbol,
                            load: Load, widths: seq<nat>, run: Run)
    requires AcceptsPair(image, rows, entry, target) == Ok(true)
    requires ValidLoad(image, load) && ValidWidths(rows, widths) && ValidRun(load, rows, widths, run)
    requires forall k :: 0 <= k < |rows| ==> !ReachesUnseen(rows[k], widths[k], entry.value)
    ensures HoldsTarget(load, rows, run, entry.value, target.value)
  {
    hide Mapped, BindsToSelf, Encode, Nearby;
    var address := entry.value;
    SlotIsMapped(image, load, entry);
    WordSizes();
    if image.elfType == ET_EXEC {
      NearbyIsEmpty(rows, address);
      UntouchedSlot(load, rows, widths, run, run.order, address);
    } else {
      var j := NearbyIsOne(rows, address);
      FilledSlot(load, rows, widths, run, run.order, address, j);
      if RowType(rows[j]) == R_X86_64_RELATIVE {
        ValueOfEncode(SLOT, RunTime(load, rows[j].addend));
      } else {
        BoundToTarget(image, load, rows[j], target);
        ValueOfEncode(SLOT, RunTime(load, target.value));
      }
    }
  }

  lemma BoundToTarget(image: Image, load: Load, row: Row, target: Symbol)
    requires BindsToSelf(image, load) && HasSection(image, target)
    requires var dynamic := DynamicSymbol(image, row.link, RowSymbol(row));
             dynamic.Ok? && SameDefinition(dynamic.value, target)
    ensures load.resolve(row.link, RowSymbol(row)) % TWO_64 == RunTime(load, target.value)
  {
  }

  // ----- Exactly when

  /** What a row is bound to write, and zeros where it is free. */
  ghost function SomeBytes(load: Load, row: Row, width: nat): seq<byte> {
    if RowType(row) == R_X86_64_RELATIVE then Encode(SLOT, RunTime(load, row.addend))
    else if RowType(row) == R_X86_64_GLOB_DAT then Encode(SLOT, load.resolve(row.link, RowSymbol(row)) % TWO_64)
    else seq(width, i => 0)
  }

  /** A run in which row `k` comes last and writes the byte `wrong` at position `p` of its bytes. */
  ghost function RunEndingAt(load: Load, rows: seq<Row>, widths: seq<nat>, k: nat, p: nat, wrong: byte): Run
    requires |widths| == |rows| && k < |rows| && p < widths[k]
  {
    Run(seq(|rows|, i requires 0 <= i < |rows| =>
              if i == k then seq(widths[k], q => if q == p then wrong else 0) else SomeBytes(load, rows[i], widths[i])),
        Ending(|rows|, k))
  }

  /** All rows in order, except that row `k` and the last one change places. */
  function Ending(n: nat, k: nat): seq<nat>
    requires k < n
  {
    seq(n, i => if i == n - 1 then k else if i == k then n - 1 else i)
  }

  lemma EndingPermutes(n: nat, k: nat)
    requires k < n
    ensures Permutes(Ending(n, k), n) && |Ending(n, k)| == n && Ending(n, k)[n - 1] == k
  {
    var order := Ending(n, k);
    forall i | 0 <= i < n
      ensures i in order
    {
      assert order[if i == k then n - 1 else if i == n - 1 then k else i] == i;
    }
  }

  lemma RunEndingIsValid(load: Load, rows: seq<Row>, widths: seq<nat>, k: nat, p: nat, wrong: byte)
    requires ValidWidths(rows, widths) && k < |rows| && SLOT < widths[k] && p < widths[k]
    ensures ValidRun(load, rows, widths, RunEndingAt(load, rows, widths, k, p, wrong))
  {
    hide Encode, Permutes, Ending;
    EndingPermutes(|rows|, k);
  }

  lemma LastRowWins(load: Load, rows: seq<Row>, run: Run, k: nat, address: int)
    requires |run.bytes| == |rows| && Within(run.order, |rows|)
    requires run.order != [] && run.order[|run.order| - 1] == k
    requires rows[k].offset <= address < rows[k].offset + |run.bytes[k]|
    ensures FinalSlot(load, rows, run, address)[0] == run.bytes[k][address - rows[k].offset]
  {
  }

  lemma UnseenRowsSpoil(load: Load, rows: seq<Row>, widths: seq<nat>, address: int, target: int, k: nat)
    returns (run: Run)
    requires ValidWidths(rows, widths) && k < |rows| && ReachesUnseen(rows[k], widths[k], address)
    ensures ValidRun(load, rows, widths, run) && !HoldsTarget(load, rows, run, address, target)
  {
    hide MayWrite, SomeBytes, Ending;
    EndingPermutes(|rows|, k);
    WordsMissUnseen(rows[k], widths[k], address);
    var right := RunTime(load, target) % 256;
    var p := address - rows[k].offset;
    var wrong: byte := (right + 1) % 256;
    run := RunEndingAt(load, rows, widths, k, p, wrong);
    RunEndingIsValid(load, rows, widths, k, p, wrong);
    LastRowWins(load, rows, run, k, address);
    assert run.bytes[k][p] == wrong;
    hide RunEndingAt, ValidRun, Relocate;
    FirstByte(FinalSlot(load, rows, run, address));
  }

  lemma FirstByte(bytes: seq<byte>)
    requires bytes != []
    ensures Value(bytes) % 256 == bytes[0]
  {
  }

  lemma WordsMissUnseen(row: Row, width: nat, address: int)
    requires ReachesUnseen(row, width, address)
    ensures SLOT < width && row.offset < address < row.offset + width
  {
  }

  /**
   * For an accepted label the slot holds its target in every run if and only if no
   * relocation wider than a word reaches the slot from below the window.
   */
  lemma AcceptanceIsExact(image: Image, rows: seq<Row>, entry: Symbol, target: Symbol, load: Load, widths: seq<nat>)
    requires AcceptsPair(image, rows, entry, target) == Ok(true)
    requires ValidLoad(image, load) && ValidWidths(rows, widths)
    ensures (forall run :: ValidRun(load, rows, widths, run) ==>
             HoldsTarget(load, rows, run, entry.value, target.value))
       <==> (forall k :: 0 <= k < |rows| ==> !ReachesUnseen(rows[k], widths[k], entry.value))
  {
    hide AcceptsPair, ValidLoad, MayWrite, HoldsTarget, ReachesUnseen;
    if forall k :: 0 <= k < |rows| ==> !ReachesUnseen(rows[k], widths[k], entry.value) {
      forall run | ValidRun(load, rows, widths, run)
        ensures HoldsTarget(load, rows, run, entry.value, target.value)
      {
        AcceptedSlotIsSound(image, rows, entry, target, load, widths, run);
      }
    } else {
      var k :| 0 <= k < |rows| && ReachesUnseen(rows[k], widths[k], entry.value);
      var run := UnseenRowsSpoil(load, rows, widths, entry.value, target.value, k);
    }
  }

  /** Every name the check drops labels a slot that holds the address of the function it is named after. */
  lemma DroppedNamesAreSlots(image: Image, rows: seq<Row>, name: string, load: Load, widths: seq<nat>, run: Run)
    requires Accepts(image, rows, name) == Ok(true)
    requires ValidLoad(image, load) && ValidWidths(rows, widths) && ValidRun(load, rows, widths, run)
    requires forall k :: 0 <= k < |rows| ==> widths[k] <= SLOT
    ensures var entry, target := FindSymbol(image, name), FindSymbol(image, TargetName(name));
            && entry.Ok? && entry.value.Some? && target.Ok? && target.value.Some?
            && IsFunction(target.value.value, image.sections[target.value.value.section])
            && HoldsTarget(load, rows, run, entry.value.value.value, target.value.value.value)
  {
    hide FindSymbol, TargetName, Unsupported, ValidLoad, MayWrite, IsGotLabel, HoldsTarget, RelocationMatches,
         SlotValue;
    var entry, target := FindSymbol(image, name).value.value, FindSymbol(image, TargetName(name)).value.value;
    forall k | 0 <= k < |rows|
      ensures !ReachesUnseen(rows[k], widths[k], entry.value)
    {
      if !InWindow(rows[k], entry.value) {
        WordsOutsideTheWindowMiss(rows[k], widths[k], entry.value);
      }
    }
    AcceptedSlotIsSound(image, rows, entry, target, load, widths, run);
  }

  // ----- A label that is accepted although it is overwritten

  function ResumeName(): string { "_Unwind_Resume" }

  function ResumeLabel(): Symbol { Symbol(ResumeName() + SUFFIX, "OBJECT", "LOCAL", "DEFAULT", 1, 16, 0) }

  function Resume(): Symbol { Symbol(ResumeName(), "FUNC", "GLOBAL", "DEFAULT", 2, 64, 8) }

  /** A relocation of type TLSDESC, which fills two words, eight bytes below the slot. */
  const WIDE_ROW := Row(8, 36, 0, 0)

  function NullSection(): Section { Section("", 0, 0, 0, 0, 0, 0, 0) }

  function Got(): Section { Section(".got", SHT_PROGBITS, 3, 16, 64, 8, 0, 0) }

  function Text(): Section { Section(".text", SHT_PROGBITS, 6, 64, 72, 8, 0, 0) }

  function RelaDyn(): Section { Section(".rela.dyn", SHT_RELA, 2, 128, 80, 24, 0, 24) }

  /** The start of an ELF64 header for a little-endian x86-64 executable, and zeros up to its 64 bytes. */
  function WideHeader(): (header: seq<byte>)
    ensures |header| == 64
  {
    [0x7f, 0x45, 0x4c, 0x46, 2, 1, 1, 0, 0, 0, 0, 0, 0, 0, 0, 0] + Encode(2, ET_EXEC) + Encode(2, 62) + seq(44, i => 0)
  }

  /** The header, the slot, one word of code and the wide row. */
  function WideData(): (data: seq<byte>)
    ensures |data| == 104
  {
    WideHeader() + (Encode(8, 64) + Encode(8, 0)) + (Encode(8, 8) + Encode(8, 36) + Encode(8, 0))
  }

  /** An executable whose slot holds its target, with the wide row in an allocated RELA section. */
  function WideImage(): Image {
    Image(WideData(), ET_EXEC, [NullSection(), Got(), Text(), RelaDyn()], [ResumeLabel(), Resume()], map[])
  }

  lemma WideWords(h: seq<byte>, a: seq<byte>, b: seq<byte>, c: seq<byte>, d: seq<byte>, e: seq<byte>)
    requires |h| == 64 && |a| == |b| == |c| == |d| == |e| == 8
    ensures var data := h + (a + b) + (c + d + e);
            data[64..72] == a && data[80..88] == c && data[88..96] == d && data[96..104] == e
  {
  }

  lemma WideDataReads()
    ensures Value(WideData()[64..72]) == 64 && RowAt(WideData(), 80, 0) == WIDE_ROW
  {
    hide Value, Encode, WideHeader;
    WordSizes();
    WideWords(WideHeader(), Encode(8, 64), Encode(8, 0), Encode(8, 8), Encode(8, 36), Encode(8, 0));
    ValueOfEncode(8, 64);
    ValueOfEncode(8, 8);
    ValueOfEncode(8, 36);
    ValueOfEncode(8, 0);
  }

  lemma RowsOfSnoc(image: Image, sections: seq<Section>, last: Section)
    requires forall s :: s in sections + [last] && HoldsRows(s) ==> RowsReadable(image, s)
    ensures (forall s :: s in sections && HoldsRows(s) ==> RowsReadable(image, s))
    ensures last in sections + [last]
    ensures RowsOf(image, sections + [last])
         == RowsOf(image, sections) + if HoldsRows(last) then SectionRows(image, last) else []
  {
    assert (sections + [last])[..|sections|] == sections;
    assert forall s :: s in sections ==> s in sections + [last];
    assert (sections + [last])[|sections|] == last;
  }

  lemma NoRows(image: Image)
    ensures RowsOf(image, []) == []
  {
  }

  /** The rows that the image's own sections hold. */
  ghost predicate HasRows(image: Image, rows: seq<Row>) {
    AllRowsReadable(image) && RowsOf(image, image.sections) == rows
  }

  lemma WideRows()
    ensures HasRows(WideImage(), [WIDE_ROW])
  {
    WideSections();
    hide WideData, RowAt, NullSection, Got, Text, RelaDyn, HoldsRows, RowsReadable, SectionRows, RowsOf, ResumeLabel,
         Resume;
    var image := WideImage();
    var one := [] + [NullSection()];
    var two := one + [Got()];
    var three := two + [Text()];
    assert image.sections == three + [RelaDyn()];
    RowsOfSnoc(image, three, RelaDyn());
    RowsOfSnoc(image, two, Text());
    RowsOfSnoc(image, one, Got());
    RowsOfSnoc(image, [], NullSection());
    NoRows(image);
  }

  lemma WideSections()
    ensures !HoldsRows(NullSection()) && !HoldsRows(Got()) && !HoldsRows(Text()) && HoldsRows(RelaDyn())
    ensures RowsReadable(WideImage(), RelaDyn()) && SectionRows(WideImage(), RelaDyn()) == [WIDE_ROW]
    ensures AllRowsReadable(WideImage())
  {
    hide WideData, RowAt, ResumeLabel, Resume;
    WideDataReads();
  }

  lemma WideLabelIsFound()
    ensures FindSymbol(WideImage(), ResumeLabel().name) == Ok(Some(ResumeLabel()))
    ensures FindSymbol(WideImage(), Resume().name) == Ok(Some(Resume()))
    ensures TargetName(ResumeLabel().name) == Resume().name && !Unsupported(WideImage())
  {
    hide WideData;
    var entry, target := ResumeLabel(), Resume();
    var symbols := [entry, target];
    assert |entry.name| == |target.name| + 4;
    assert entry.name[..|target.name|] == target.name;
    assert symbols[..1] == [entry] && [entry][..0] == [];
    forall name | name == entry.name || name == target.name
      ensures Matching(symbols, name) == if name == entry.name then [entry] else [target]
    {
      assert Matching([], name) == [];
      assert Matching([entry], name) == if name == entry.name then [entry] else [];
    }
  }

  function WideMemory(): Memory {
    a => if 16 <= a < 24 then WideData()[a - 16 + 64] else if 64 <= a < 72 then WideData()[a - 64 + 72] else 0
  }

  /** The image at its own address, with the bytes of its sections in memory. */
  function WideLoad(): Load { Load(0, WideMemory(), (link, index) => 0) }

  lemma GotIsMapped()
    ensures SectionMapped(WideImage(), Got(), WideMemory())
  {
    hide WideData, ResumeLabel, Resume, Text, RelaDyn;
  }

  lemma TextIsMapped()
    ensures SectionMapped(WideImage(), Text(), WideMemory())
  {
    hide WideData, ResumeLabel, Resume, Got, RelaDyn;
  }

  lemma WideLoadIsValid()
    ensures ValidLoad(WideImage(), WideLoad())
  {
    hide WideData, ResumeLabel, Resume, SectionMapped;
    var image := WideImage();
    GotIsMapped();
    TextIsMapped();
    assert Mapped(image, WideMemory());
    assert BindsToSelf(image, WideLoad());
  }

  lemma WideSlotMatches()
    ensures SlotValue(WideImage(), Got(), 16) == Ok(Some(64))
    ensures RelocationMatches(WideImage(), [WIDE_ROW], 16, Resume(), Some(64)) == Ok(true)
  {
    WideDataReads();
    hide WideData, ResumeName, Text, RelaDyn, ResumeLabel, Rebases, Imports;
    var rows := [WIDE_ROW];
    assert rows[..0] == [] && Nearby(rows[..0], 16) == [] && !InWindow(rows[0], 16);
  }

  lemma WideLabelIsAccepted()
    ensures AcceptsPair(WideImage(), [WIDE_ROW], ResumeLabel(), Resume()) == Ok(true)
  {
    WideSlotMatches();
    hide WideData, ResumeName, SlotValue, RelocationMatches, RelaDyn;
    assert WideImage().sections[1] == Got() && WideImage().sections[2] == Text();
    assert IsGotLabel(ResumeLabel(), Got()) && IsFunction(Resume(), Text());
  }

  /**
   * The label of this image is dropped, and yet a run of the dynamic linker
   * overwrites its slot: the wide relocation starts below the window.
   */
  lemma WideRowIsOverlooked() returns (run: Run)
    ensures HasRows(WideImage(), [WIDE_ROW])
    ensures Accepts(WideImage(), [WIDE_ROW], ResumeLabel().name) == Ok(true)
    ensures ValidLoad(WideImage(), WideLoad()) && ValidWidths([WIDE_ROW], [2 * SLOT])
    ensures ValidRun(WideLoad(), [WIDE_ROW], [2 * SLOT], run)
    ensures !HoldsTarget(WideLoad(), [WIDE_ROW], run, ResumeLabel().value, Resume().value)
  {
    hide WideData, ValidLoad, HasRows, FindSymbol, ValidRun, HoldsTarget, WideLoad, Unsupported, TargetName,
         WideImage, AcceptsPair, ResumeName;
    WideRows();
    WideLabelIsFound();
    WideLoadIsValid();
    WideLabelIsAccepted();
    run := UnseenRowsSpoil(WideLoad(), [WIDE_ROW], [2 * SLOT], ResumeLabel().value, Resume().value, 0);
  }
}
