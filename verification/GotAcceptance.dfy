/**
 * Which label names the check drops, and when it fails, in the facts of the
 * image alone: symbols, sections, slot bytes and relocation rows.
 */
module GotAcceptance {
  import opened Sequences
  import opened Wrappers
  import opened LittleEndian
  import opened GotLabels
  import opened GotSoundness

  // ----- The label and its target

  /** A local object of size zero that labels an aligned word of the writable, allocated `.got`. */
  ghost predicate LabelShape(image: Image, entry: Symbol) {
    && 0 < entry.section < |image.sections|
    && var s := image.sections[entry.section];
    && entry.kind == "OBJECT" && entry.binding == "LOCAL" && entry.visibility == "DEFAULT" && entry.size == 0
    && s.name == ".got" && s.kind == 1 && s.flags % 4 == 3
    && entry.value % 8 == 0 && s.addr <= entry.value && entry.value + 8 <= s.addr + s.size
  }

  /** A function inside an allocated, executable section. */
  ghost predicate TargetShape(image: Image, target: Symbol) {
    && 0 < target.section < |image.sections|
    && var s := image.sections[target.section];
    && target.kind == "FUNC" && 0 < target.size && s.flags / 2 % 4 == 3
    && s.addr <= target.value && target.value + target.size <= s.addr + s.size
  }

  /** The eight bytes that the file holds for the address, in the section, are the number `v`. */
  ghost predicate SlotHolds(image: Image, s: Section, address: nat, v: nat) {
    && var at := s.offset + address - s.addr;
    && 0 <= at && at + 8 <= |image.data| && Value(image.data[at..at + 8]) == v
  }

  // ----- The relocations near the slot

  ghost predicate Near(row: Row, address: int) { address - 7 <= row.offset <= address + 7 }

  ghost predicate NoneNear(rows: seq<Row>, address: int) { forall k :: 0 <= k < |rows| ==> !Near(rows[k], address) }

  ghost predicate OnlyNear(rows: seq<Row>, address: int, j: nat) {
    j < |rows| && Near(rows[j], address) && forall k :: 0 <= k < |rows| && k != j ==> !Near(rows[k], address)
  }

  /** The row names a dynamic symbol by table and index, which the tables hold, and it is the target's definition. */
  ghost predicate NamesTarget(image: Image, row: Row, target: Symbol) {
    && row.link in image.tables && row.info / 0x1_0000_0000 < |image.tables[row.link]|
    && var dynamic := image.tables[row.link][row.info / 0x1_0000_0000];
    && (dynamic.name, dynamic.kind, dynamic.binding, dynamic.visibility) == (target.name, "FUNC", "GLOBAL", "DEFAULT")
    && (dynamic.section, dynamic.value, dynamic.size) == (target.section, target.value, target.size)
  }

  /** A word-sized import of some dynamic symbol into a zeroed slot. */
  ghost predicate IsImport(image: Image, row: Row, address: nat, slot: nat) {
    && (row.offset, row.info % 0x1_0000_0000, row.addend, slot) == (address, 6, 0, 0) && 0 < row.info / 0x1_0000_0000
    && row.link < |image.sections| && image.sections[row.link].kind == 11
  }

  /** The row rebases a slot that holds the target, or imports the target's own definition. */
  ghost predicate Relocates(image: Image, row: Row, address: nat, target: Symbol, slot: nat) {
    || (row.offset, row.info, row.addend, slot) == (address, 8, target.value, target.value)
    || (IsImport(image, row, address, slot) && NamesTarget(image, row, target))
  }

  /**
   * The three ways in which a slot with value `slot` is filled with its target:
   * an executable without a relocation near it, or a shared object or
   * position-independent executable with one that rebases it or imports it.
   */
  ghost predicate Fills(image: Image, rows: seq<Row>, address: nat, target: Symbol, slot: nat) {
    || (image.elfType == 2 && NoneNear(rows, address) && slot == target.value)
    || (image.elfType == 3
        && exists j: nat :: OnlyNear(rows, address, j) && Relocates(image, rows[j], address, target, slot))
  }

  ghost predicate Accepted(image: Image, rows: seq<Row>, entry: Symbol, target: Symbol) {
    && LabelShape(image, entry) && TargetShape(image, target)
    && exists slot :: SlotHolds(image, image.sections[entry.section], entry.value, slot)
                      && Fills(image, rows, entry.value, target, slot)
  }

  lemma TwoBits(n: nat)
    ensures n % 4 == 3 <==> n % 2 == 1 && n / 2 % 2 == 1
  {
    var q, r := n / 4, n % 4;
    assert n == 4 * q + r;
    assert r == 0 || r == 1 || r == 2 || r == 3;
    assert n / 2 == 2 * q + r / 2;
  }

  lemma FlagBits(flags: nat)
    ensures Writable(flags) && Allocated(flags) <==> flags % 4 == 3
    ensures Allocated(flags) && Executable(flags) <==> flags / 2 % 4 == 3
  {
    TwoBits(flags);
    TwoBits(flags / 2);
    assert flags / 2 / 2 == flags / 4;
  }

  lemma {:induction false} NearbyIs(rows: seq<Row>, address: int)
    ensures Nearby(rows, address) == [] <==> NoneNear(rows, address)
    ensures forall j: nat :: OnlyNear(rows, address, j) ==> Nearby(rows, address) == [rows[j]]
    ensures |Nearby(rows, address)| == 1 ==> exists j: nat :: OnlyNear(rows, address, j)
  {
    if rows != [] {
      var front, last := rows[..|rows| - 1], rows[|rows| - 1];
      NearbyIs(front, address);
      assert forall k :: 0 <= k < |front| ==> rows[k] == front[k];
      assert NoneNear(rows, address) <==> NoneNear(front, address) && !Near(last, address);
      forall j: nat | OnlyNear(rows, address, j)
        ensures Nearby(rows, address) == [rows[j]]
      {
        assert if j == |front| then NoneNear(front, address) else OnlyNear(front, address, j);
      }
      if |Nearby(rows, address)| == 1 {
        var j := NearbyIsOne(rows, address);
        assert OnlyNear(rows, address, j);
      }
    }
  }

  lemma RelocationExactly(image: Image, rows: seq<Row>, address: nat, target: Symbol, slot: nat)
    ensures RelocationMatches(image, rows, address, target, Some(slot)) == Ok(true) <==>
            Fills(image, rows, address, target, slot)
  {
    hide Nearby, NoneNear;
    NearbyIs(rows, address);
    if j: nat :| OnlyNear(rows, address, j) {
      assert Nearby(rows, address) == [rows[j]];
      forall k: nat | OnlyNear(rows, address, k)
        ensures k == j
      {
      }
    }
  }

  /** A label and its target are dropped exactly in one of these three cases. */
  lemma AcceptsPairExactly(image: Image, rows: seq<Row>, entry: Symbol, target: Symbol)
    ensures AcceptsPair(image, rows, entry, target) == Ok(true) <==> Accepted(image, rows, entry, target)
  {
    hide RelocationMatches, Fills, Value;
    if HasSection(image, entry) && HasSection(image, target) {
      var s := image.sections[entry.section];
      FlagBits(s.flags);
      FlagBits(image.sections[target.section].flags);
      forall slot: nat
        ensures RelocationMatches(image, rows, entry.value, target, Some(slot)) == Ok(true)
           <==> Fills(image, rows, entry.value, target, slot)
      {
        RelocationExactly(image, rows, entry.value, target, slot);
      }
    }
  }

  // ----- Names

  /** The symbol at `j` has that name and is defined. */
  ghost predicate IsDefined(symbols: seq<Symbol>, name: string, j: nat) {
    j < |symbols| && symbols[j].name == name && symbols[j].section != 0
  }

  ghost predicate IsOnly(symbols: seq<Symbol>, name: string, j: nat) {
    IsDefined(symbols, name, j) && forall k: nat :: IsDefined(symbols, name, k) ==> k == j
  }

  /** `symbol` is the one defined symbol of that name. */
  ghost predicate OneSymbol(image: Image, name: string, symbol: Symbol) {
    exists j: nat :: IsOnly(image.symbols, name, j) && image.symbols[j] == symbol
  }

  ghost predicate NoSymbol(image: Image, name: string) { forall k: nat :: !IsDefined(image.symbols, name, k) }

  ghost predicate TwoSymbols(image: Image, name: string) {
    exists j: nat, k: nat :: j < k && IsDefined(image.symbols, name, j) && IsDefined(image.symbols, name, k)
  }

  lemma DefinedStep(front: seq<Symbol>, last: Symbol, name: string, k: nat)
    ensures IsDefined(front + [last], name, k) <==>
            if k == |front| then last.name == name && last.section != 0 else IsDefined(front, name, k)
  {
  }

  lemma {:induction false} MatchingIs(symbols: seq<Symbol>, name: string)
    ensures |Matching(symbols, name)| == 0 ==> forall k: nat :: !IsDefined(symbols, name, k)
    ensures |Matching(symbols, name)| == 1 ==>
            exists j: nat :: IsOnly(symbols, name, j) && Matching(symbols, name) == [symbols[j]]
    ensures |Matching(symbols, name)| > 1 ==>
            exists j: nat, k: nat :: j < k && IsDefined(symbols, name, j) && IsDefined(symbols, name, k)
  {
    if symbols != [] {
      var n := |symbols| - 1;
      var front, last := symbols[..n], symbols[n];
      MatchingIs(front, name);
      assert symbols == front + [last];
      forall k: nat
        ensures IsDefined(symbols, name, k) <==>
                if k == n then last.name == name && last.section != 0 else IsDefined(front, name, k)
      {
        DefinedStep(front, last, name, k);
      }
      assert forall k: nat :: IsDefined(front, name, k) ==> k < n && symbols[k] == front[k];
      MatchingStep(symbols, name);
    }
  }

  lemma MatchingStep(symbols: seq<Symbol>, name: string)
    requires symbols != []
    requires var n := |symbols| - 1;
             var front, last := symbols[..n], symbols[n];
             && (forall k: nat :: IsDefined(symbols, name, k) <==>
                   if k == n then last.name == name && last.section != 0 else IsDefined(front, name, k))
             && (forall k: nat :: IsDefined(front, name, k) ==> k < n && symbols[k] == front[k])
             && (|Matching(front, name)| == 0 ==> forall k: nat :: !IsDefined(front, name, k))
             && (|Matching(front, name)| == 1 ==>
                   exists j: nat :: IsOnly(front, name, j) && Matching(front, name) == [front[j]])
             && (|Matching(front, name)| > 1 ==>
                   exists j: nat, k: nat :: j < k && IsDefined(front, name, j) && IsDefined(front, name, k))
    ensures |Matching(symbols, name)| == 0 ==> forall k: nat :: !IsDefined(symbols, name, k)
    ensures |Matching(symbols, name)| == 1 ==>
            exists j: nat :: IsOnly(symbols, name, j) && Matching(symbols, name) == [symbols[j]]
    ensures |Matching(symbols, name)| > 1 ==>
            exists j: nat, k: nat :: j < k && IsDefined(symbols, name, j) && IsDefined(symbols, name, k)
  {
    hide IsDefined;
    var n := |symbols| - 1;
    var front, last := symbols[..n], symbols[n];
    var found, more := Matching(front, name), last.name == name && last.section != 0;
    assert Matching(symbols, name) == found + if more then [last] else [];
    hide Matching;
    if |found| == 0 {
      if more {
        assert IsOnly(symbols, name, n);
      }
    } else if |found| == 1 {
      var j: nat :| IsOnly(front, name, j) && found == [front[j]];
      assert IsDefined(symbols, name, j);
      if more {
        assert IsDefined(symbols, name, n);
      } else {
        assert IsOnly(symbols, name, j);
      }
    } else {
      var j: nat, k: nat :| j < k && IsDefined(front, name, j) && IsDefined(front, name, k);
      assert IsDefined(symbols, name, j) && IsDefined(symbols, name, k);
    }
  }

  lemma FindSymbolExactly(image: Image, name: string)
    ensures forall symbol :: FindSymbol(image, name) == Ok(Some(symbol)) <==> OneSymbol(image, name, symbol)
    ensures FindSymbol(image, name) == Ok(None) <==> NoSymbol(image, name)
    ensures FindSymbol(image, name).Err? <==> TwoSymbols(image, name)
  {
    hide Matching, IsDefined;
    MatchingIs(image.symbols, name);
  }

  /** An allocated relocation section of a kind that the check does not read, and not empty. */
  ghost predicate HasOtherRelocations(image: Image) {
    exists s :: s in image.sections && s.kind in {9, 19} && s.flags / 2 % 2 == 1 && s.size != 0
  }

  /** A name is dropped exactly when it and the name without its last four characters are accepted symbols. */
  lemma AcceptsExactly(image: Image, rows: seq<Row>, name: string)
    requires 4 <= |name|
    ensures Accepts(image, rows, name) == Ok(true) <==>
            !HasOtherRelocations(image) && exists entry, target ::
              && OneSymbol(image, name, entry) && OneSymbol(image, name[..|name| - 4], target)
              && Accepted(image, rows, entry, target)
  {
    hide FindSymbol, AcceptsPair, Accepted, OneSymbol, NoSymbol;
    FindSymbolExactly(image, name);
    FindSymbolExactly(image, name[..|name| - 4]);
    assert |SUFFIX| == 4;
    assert Unsupported(image) <==> HasOtherRelocations(image);
    forall entry, target
      ensures AcceptsPair(image, rows, entry, target) == Ok(true) <==> Accepted(image, rows, entry, target)
    {
      AcceptsPairExactly(image, rows, entry, target);
    }
  }

  /** Labels are the names of providers with the suffix. */
  lemma LabelNames(name: string, providers: set<string>)
    ensures IsLabelName(name, providers) <==> exists provider :: provider in providers && name == provider + "$got"
  {
    if IsLabelName(name, providers) {
      assert name == TargetName(name) + "$got";
    }
    if provider :| provider in providers && name == provider + "$got" {
      assert name[|name| - 4..] == "$got" && name[..|name| - 4] == provider;
    }
  }

  // ----- Failures

  /** The check fails on a slot that its section covers and the file does not. */
  ghost predicate SlotIsMissing(image: Image, entry: Symbol) {
    && 0 < entry.section < |image.sections|
    && var s := image.sections[entry.section];
    && s.addr <= entry.value && entry.value + 8 <= s.addr + s.size
    && s.offset + entry.value - s.addr + 8 > |image.data|
  }

  /** The check fails on an import whose dynamic symbol is not in any table. */
  ghost predicate ImportIsMissing(image: Image, rows: seq<Row>, entry: Symbol) {
    && 0 < entry.section < |image.sections| && image.elfType == 3
    && var s := image.sections[entry.section];
    && s.addr <= entry.value && entry.value + 8 <= s.addr + s.size
    && exists j: nat :: OnlyNear(rows, entry.value, j) && SlotHolds(image, s, entry.value, 0)
                        && IsImport(image, rows[j], entry.value, 0)
                        && !(rows[j].link in image.tables
                             && rows[j].info / 0x1_0000_0000 < |image.tables[rows[j].link]|)
  }

  lemma PairFailsExactly(image: Image, rows: seq<Row>, entry: Symbol, target: Symbol)
    ensures AcceptsPair(image, rows, entry, target).Err? <==>
            && 0 < entry.section < |image.sections| && 0 < target.section < |image.sections|
            && (SlotIsMissing(image, entry) || ImportIsMissing(image, rows, entry))
  {
    hide Value, Nearby;
    NearbyIs(rows, entry.value);
    if j: nat :| OnlyNear(rows, entry.value, j) {
      assert Nearby(rows, entry.value) == [rows[j]];
      assert forall k: nat :: OnlyNear(rows, entry.value, k) ==> k == j;
    }
  }

  /**
   * The check fails on a name exactly when a symbol is defined twice, or a slot or an import that it
   * reads is missing.
   */
  lemma AcceptsFailsExactly(image: Image, rows: seq<Row>, name: string)
    requires 4 <= |name|
    ensures Accepts(image, rows, name).Err? <==>
            || TwoSymbols(image, name) || TwoSymbols(image, name[..|name| - 4])
            || (!HasOtherRelocations(image) && exists entry, target ::
                  && OneSymbol(image, name, entry) && OneSymbol(image, name[..|name| - 4], target)
                  && 0 < entry.section < |image.sections| && 0 < target.section < |image.sections|
                  && (SlotIsMissing(image, entry) || ImportIsMissing(image, rows, entry)))
  {
    hide FindSymbol, AcceptsPair, OneSymbol, NoSymbol, TwoSymbols, SlotIsMissing, ImportIsMissing;
    FindSymbolExactly(image, name);
    FindSymbolExactly(image, name[..|name| - 4]);
    assert |SUFFIX| == 4;
    assert Unsupported(image) <==> HasOtherRelocations(image);
    forall entry, target
      ensures AcceptsPair(image, rows, entry, target).Err? <==>
              && 0 < entry.section < |image.sections| && 0 < target.section < |image.sections|
              && (SlotIsMissing(image, entry) || ImportIsMissing(image, rows, entry))
    {
      PairFailsExactly(image, rows, entry, target);
    }
  }

  // ----- Rows

  /** The three words of a row: the addend is signed. */
  lemma RowIsRead(before: seq<byte>, after: seq<byte>, offset: nat, info: nat, addend: int, link: nat)
    requires offset < TWO_64 && info < TWO_64 && -TWO_64 <= 2 * addend < TWO_64
    ensures RowAt(before + (Encode(8, offset) + Encode(8, info) + Encode(8, addend % TWO_64)) + after, |before|, link)
         == Row(offset, info, addend, link)
  {
    hide Value, Encode;
    WordSizes();
    var a, b, c := Encode(8, offset), Encode(8, info), Encode(8, addend % TWO_64);
    var data, at := before + (a + b + c) + after, |before|;
    ThreeWords(before, a, b, c, after);
    ValueOfEncode(8, offset);
    ValueOfEncode(8, info);
    ValueOfEncode(8, addend % TWO_64);
  }

  lemma ThreeWords(before: seq<byte>, a: seq<byte>, b: seq<byte>, c: seq<byte>, after: seq<byte>)
    requires |a| == |b| == |c| == 8
    ensures var data, at := before + (a + b + c) + after, |before|;
            data[at..at + 8] == a && data[at + 8..at + 16] == b && data[at + 16..at + 24] == c
  {
  }

  /** The rows of a section: of a relocation section with addends that is allocated, and of no other. */
  ghost predicate IsRelocationSection(s: Section) { s.kind == 4 && s.flags / 2 % 2 == 1 }

  /** Every such section holds whole entries inside the file. */
  ghost predicate RowsInside(image: Image) {
    forall s :: s in image.sections && IsRelocationSection(s) ==>
      s.entrySize == 24 && s.size % 24 == 0 && (s.size == 0 || s.offset + s.size <= |image.data|)
  }

  ghost function ImageRows(image: Image): seq<Row> {
    if AllRowsReadable(image) then RowsOf(image, image.sections) else []
  }

  lemma RowsAreReadable(image: Image)
    ensures AllRowsReadable(image) <==> RowsInside(image)
  {
  }

  /** The rows are those of the sections in turn, each at its place in the file. */
  lemma RowsExactly(image: Image, a: seq<Section>, s: Section)
    ensures RowsOf(image, []) == []
    ensures (forall t :: t in a + [s] && HoldsRows(t) ==> RowsReadable(image, t)) ==>
            && (forall t :: t in a && HoldsRows(t) ==> RowsReadable(image, t))
            && var rows, more := RowsOf(image, a), RowsOf(image, a + [s]);
            && rows <= more && |more| == |rows| + (if IsRelocationSection(s) then s.size / 24 else 0)
            && forall k :: |rows| <= k < |more| ==>
                 && var at := s.offset + 24 * (k - |rows|);
                 at + 24 <= |image.data| && more[k] == RowAt(image.data, at, s.link)
  {
    hide RowAt;
    if forall t :: t in a + [s] && HoldsRows(t) ==> RowsReadable(image, t) {
      assert forall t :: t in a ==> t in a + [s];
      assert s in a + [s];
      RowsOfSnoc(image, a, s);
    }
  }

  // ----- The names of a binary

  /** The label of a provider's function, accepted over the image's own rows. */
  ghost predicate DropsFor(image: Image, provider: string, name: string) {
    && name == provider + "$got" && RowsInside(image) && !HasOtherRelocations(image)
    && exists entry, target ::
         && OneSymbol(image, name, entry) && OneSymbol(image, provider, target)
         && Accepted(image, ImageRows(image), entry, target)
  }

  ghost predicate Drops(image: Image, providers: set<string>, name: string) {
    exists provider :: provider in providers && DropsFor(image, provider, name)
  }

  /** A symbol is defined twice, or the slot's bytes or the imported symbol are not in the file. */
  ghost predicate Misleads(image: Image, provider: string) {
    var name := provider + "$got";
    || TwoSymbols(image, name) || TwoSymbols(image, provider)
    || (!HasOtherRelocations(image) && exists entry, target ::
          && OneSymbol(image, name, entry) && OneSymbol(image, provider, target)
          && 0 < entry.section < |image.sections| && 0 < target.section < |image.sections|
          && (SlotIsMissing(image, entry) || ImportIsMissing(image, ImageRows(image), entry)))
  }

  /** No name is a label, or the rows can be read and no label misleads. */
  ghost predicate CanRead(found: set<string>, providers: set<string>, image: Image) {
    || (forall provider :: provider in providers ==> provider + "$got" !in found)
    || (RowsInside(image) && forall provider :: provider in providers && provider + "$got" in found ==>
        !Misleads(image, provider))
  }

  lemma LabelAccepts(image: Image, provider: string, name: string)
    requires name == provider + "$got" && AllRowsReadable(image)
    ensures Accepts(image, ImageRows(image), name) == Ok(true) <==> DropsFor(image, provider, name)
    ensures Accepts(image, ImageRows(image), name).Err? <==> Misleads(image, provider)
  {
    hide Accepts, OneSymbol, TwoSymbols, Accepted, SlotIsMissing, ImportIsMissing, ImageRows, HasOtherRelocations,
         RowsInside;
    RowsAreReadable(image);
    assert name[..|name| - 4] == provider;
    AcceptsExactly(image, ImageRows(image), name);
    AcceptsFailsExactly(image, ImageRows(image), name);
  }

  function Labels(found: set<string>, providers: set<string>): set<string> {
    set name | name in found && IsLabelName(name, providers)
  }

  lemma LabelsAre(found: set<string>, providers: set<string>)
    ensures forall provider :: provider in providers && provider + "$got" in found ==>
            provider + "$got" in Labels(found, providers)
    ensures forall name :: name in Labels(found, providers) ==>
              name in found && exists provider :: provider in providers && name == provider + "$got"
  {
    hide IsLabelName;
    forall name
      ensures IsLabelName(name, providers) <==> exists provider :: provider in providers && name == provider + "$got"
    {
      LabelNames(name, providers);
    }
  }

  /** Among the names, exactly the accepted labels are dropped. */
  lemma DropsExactly(found: set<string>, providers: set<string>, image: Image, name: string)
    requires AllRowsReadable(image) && name in found
    ensures Drops(image, providers, name) <==>
            name in Labels(found, providers) && Accepts(image, ImageRows(image), name) == Ok(true)
  {
    hide Accepts, DropsFor, Labels, ImageRows;
    LabelsAre(found, providers);
    forall provider | name == provider + "$got"
      ensures Accepts(image, ImageRows(image), name) == Ok(true) <==> DropsFor(image, provider, name)
    {
      LabelAccepts(image, provider, name);
    }
    forall provider | DropsFor(image, provider, name)
      ensures name == provider + "$got"
    {
      DropsNamed(image, provider, name);
    }
  }

  lemma DropsNamed(image: Image, provider: string, name: string)
    requires DropsFor(image, provider, name)
    ensures name == provider + "$got" && RowsInside(image)
  {
    hide OneSymbol, Accepted, ImageRows;
  }

  lemma FailsExactly(found: set<string>, providers: set<string>, image: Image)
    ensures CanRead(found, providers, image) <==>
            || Labels(found, providers) == {}
            || (AllRowsReadable(image)
                && forall name :: name in Labels(found, providers) ==> Accepts(image, ImageRows(image), name).Ok?)
  {
    hide Accepts, Labels, ImageRows, Misleads, RowsInside, AllRowsReadable;
    RowsAreReadable(image);
    LabelsAre(found, providers);
    if AllRowsReadable(image) {
      forall provider
        ensures Accepts(image, ImageRows(image), provider + "$got").Err? <==> Misleads(image, provider)
      {
        LabelAccepts(image, provider, provider + "$got");
      }
    }
    if name :| name in Labels(found, providers) {
      var provider :| provider in providers && name == provider + "$got";
      assert provider + "$got" in found;
    }
  }

  lemma NothingDropped(found: set<string>, providers: set<string>, image: Image)
    requires Labels(found, providers) == {}
    ensures forall name :: name in found ==> !Drops(image, providers, name)
  {
    hide Labels, DropsFor;
    LabelsAre(found, providers);
    forall name, provider | name in found && provider in providers && DropsFor(image, provider, name)
      ensures false
    {
      DropsNamed(image, provider, name);
    }
  }

  /** The names that remain: every accepted label of a provider is dropped, no other name is. */
  method UnwindSymbols(found: set<string>, providers: set<string>, image: Image) returns (r: Result<set<string>>)
    ensures r.Ok? <==> CanRead(found, providers, image)
    ensures r.Ok? ==> forall name :: name in r.value <==> name in found && !Drops(image, providers, name)
  {
    hide Accepts, Labels, RowsOf, Drops, CanRead;
    var names := found;
    var labels := Labels(found, providers);
    FailsExactly(found, providers, image);
    if labels == {} {
      NothingDropped(found, providers, image);
      return Ok(names);
    }
    var read := ReadRows(image);
    if read.Err? {
      return Err(read.reason);
    }
    var rows := read.value;
    assert rows == ImageRows(image);
    var left := labels;
    while left != {}
      invariant left <= labels
      invariant forall name :: name in labels && name !in left ==> Accepts(image, rows, name).Ok?
      invariant forall name :: name in names <==>
                  name in found && !(name in labels && name !in left && Accepts(image, rows, name) == Ok(true))
      decreases left
    {
      var name :| name in left;
      var accepted := Accepts(image, rows, name);
      if accepted.Err? {
        return Err(accepted.reason);
      }
      if accepted.value {
        names := names - {name};
      }
      left := left - {name};
    }
    forall name | name in found
      ensures Drops(image, providers, name) <==> name in labels && Accepts(image, rows, name) == Ok(true)
    {
      DropsExactly(found, providers, image, name);
    }
    r := Ok(names);
  }

  const EXECUTED := {"_Unwind_Backtrace", "_Unwind_RaiseException", "_Unwind_Resume"}

  /** What the fixture needs of its binary: nothing is left but provider symbols, and the executed ones are there. */
  ghost predicate Admitted(found: set<string>, providers: set<string>, image: Image) {
    && CanRead(found, providers, image)
    && (forall name :: name in found && !Drops(image, providers, name) ==> name in providers)
    && "_Unwind_Backtrace" in found && "_Unwind_RaiseException" in found && "_Unwind_Resume" in found
  }

  method AdmitBinary(found: set<string>, providers: set<string>, image: Image) returns (r: Result<set<string>>)
    ensures r.Ok? <==> Admitted(found, providers, image)
    ensures r.Ok? ==> forall name :: name in r.value <==> name in found && !Drops(image, providers, name)
  {
    hide CanRead, Drops;
    var names := UnwindSymbols(found, providers, image);
    if names.Err? {
      return names;
    }
    ExecutedIsKept(image, providers);
    NoneOutside(names.value, providers);
    if names.value - providers != {} {
      return Err("cleanup binary contains an unselected unwind ABI");
    }
    NoneOutside(EXECUTED, names.value);
    if EXECUTED - names.value != {} {
      return Err("cleanup binary lacks executed unwind ABI");
    }
    r := names;
  }

  lemma ExecutedIsKept(image: Image, providers: set<string>)
    ensures forall name :: name in EXECUTED ==> !Drops(image, providers, name)
  {
    hide DropsFor;
    forall name, provider | name in EXECUTED
      ensures !DropsFor(image, provider, name)
    {
      LastLetter(name, provider);
      if DropsFor(image, provider, name) {
        DropsNamed(image, provider, name);
      }
    }
  }

  lemma LastLetter(name: string, provider: string)
    requires name in EXECUTED
    ensures name != provider + "$got"
  {
    assert name[|name| - 1] in {'e', 'n'};
    var marked := provider + "$got";
    assert marked[|marked| - 1] == 't';
  }

  /**
   * Every unwind symbol of an admitted binary is a provider's, or labels a slot
   * that in every run holds the address of the function it is named after.
   */
  lemma AdmittedNamesAreOwned(found: set<string>, providers: set<string>, image: Image, name: string, load: Load,
                              widths: seq<nat>, run: Run)
    requires Admitted(found, providers, image) && name in found && name !in providers
    requires var rows := ImageRows(image);
             && ValidLoad(image, load) && ValidWidths(rows, widths) && ValidRun(load, rows, widths, run)
             && forall k :: 0 <= k < |rows| ==> widths[k] <= 8
    ensures exists provider, entry, target ::
              && provider in providers && name == provider + "$got"
              && OneSymbol(image, name, entry) && OneSymbol(image, provider, target) && TargetShape(image, target)
              && HoldsTarget(load, ImageRows(image), run, entry.value, target.value)
  {
    hide ValidLoad, ValidWidths, HoldsTarget, Accepts, ImageRows, OneSymbol, TargetShape, Accepted, FindSymbol,
         CanRead, DropsFor, RowsInside, AllRowsReadable;
    var rows := ImageRows(image);
    assert Drops(image, providers, name);
    var provider :| provider in providers && DropsFor(image, provider, name);
    DropsNamed(image, provider, name);
    RowsAreReadable(image);
    LabelAccepts(image, provider, name);
    assert name[..|name| - 4] == provider == TargetName(name);
    DroppedNamesAreSlots(image, rows, name, load, widths, run);
    FindSymbolExactly(image, name);
    FindSymbolExactly(image, provider);
    var entry, target := FindSymbol(image, name).value.value, FindSymbol(image, provider).value.value;
    TargetOfDropped(image, rows, name, entry, target);
  }

  lemma TargetOfDropped(image: Image, rows: seq<Row>, name: string, entry: Symbol, target: Symbol)
    requires 4 <= |name| && Accepts(image, rows, name) == Ok(true)
    requires FindSymbol(image, name) == Ok(Some(entry)) && FindSymbol(image, name[..|name| - 4]) == Ok(Some(target))
    ensures TargetShape(image, target)
  {
    hide FindSymbol, AcceptsPair, TargetShape, Fills, SlotHolds;
    AcceptsPairExactly(image, rows, entry, target);
    assert AcceptsPair(image, rows, entry, target) == Ok(true);
  }
}
