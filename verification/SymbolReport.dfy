/**
 * The public dynamic symbols of a library: collecting them, refusing two
 * records of one name, and writing and reading the manifest.
 */
module SymbolReport {
  import opened Sequences
  import opened Wrappers

  datatype Abi = Abi(kind: string, binding: string, visibility: string)

  datatype Entry = Entry(abi: Abi, size: string)

  datatype Symbol = Symbol(name: string, entry: Entry)

  type Manifest = map<string, Entry>

  /** No two different records of one name. */
  predicate Consistent(symbols: set<Symbol>) {
    forall a, b :: a in symbols && b in symbols && a.name == b.name ==> a == b
  }

  /** The records of one name. */
  function Named(symbols: set<Symbol>, name: string): set<Symbol> {
    set symbol | symbol in symbols && symbol.name == name
  }

  lemma SmallSetsAreUniform(symbols: set<Symbol>, a: Symbol, b: Symbol)
    requires a in symbols && b in symbols && a != b
    ensures |symbols| > 1
  {
    assert |symbols - {a}| == |symbols| - 1;
    assert b in symbols - {a};
  }

  lemma LargeSetsDiffer(symbols: set<Symbol>) returns (a: Symbol, b: Symbol)
    requires |symbols| > 1
    ensures a in symbols && b in symbols && a != b
  {
    a :| a in symbols;
    assert |symbols - {a}| == |symbols| - 1;
    b :| b in symbols - {a};
  }

  /** Grouping by name finds a group of two records exactly when the records conflict. */
  lemma ConflictsAreGroups(symbols: set<Symbol>, groups: map<string, set<Symbol>>)
    requires forall symbol :: symbol in symbols ==> symbol.name in groups
    requires forall name :: name in groups ==> groups[name] == Named(symbols, name)
    ensures Consistent(symbols) <==> forall name :: name in groups ==> |groups[name]| <= 1
  {
    if Consistent(symbols) {
      forall name | name in groups
        ensures |groups[name]| <= 1
      {
        if |groups[name]| > 1 {
          var a, b := LargeSetsDiffer(groups[name]);
        }
      }
    }
    if !Consistent(symbols) {
      var a, b :| a in symbols && b in symbols && a.name == b.name && a != b;
      SmallSetsAreUniform(groups[a.name], a, b);
    }
  }

  /** The collected records, or an error exactly when one name has two of them. */
  method DynamicSymbols(rows: seq<Symbol>) returns (r: Result<set<Symbol>>)
    ensures r.Ok? <==> Consistent(Elements(rows))
    ensures r.Ok? ==> r.value == Elements(rows)
  {
    var symbols := {};
    for n := 0 to |rows|
      invariant symbols == Elements(rows[..n])
    {
      symbols := symbols + {rows[n]};
      assert rows[..n + 1] == rows[..n] + [rows[n]];
    }
    assert rows[..|rows|] == rows;

    var groups: map<string, set<Symbol>> := map[];
    var rest := symbols;
    while rest != {}
      invariant rest <= symbols
      invariant forall symbol :: symbol in symbols - rest ==> symbol.name in groups
      invariant forall name :: name in groups ==> groups[name] == Named(symbols - rest, name)
      decreases rest
    {
      var symbol :| symbol in rest;
      var group := if symbol.name in groups then groups[symbol.name] else {};
      ghost var done := symbols - rest;
      assert group == Named(done, symbol.name);
      groups := groups[symbol.name := group + {symbol}];
      rest := rest - {symbol};
      assert symbols - rest == done + {symbol};
      forall name | name in groups
        ensures groups[name] == Named(symbols - rest, name)
      {
        assert Named(done + {symbol}, name) == Named(done, name) + if name == symbol.name then {symbol} else {};
      }
    }
    assert symbols - rest == symbols;
    ConflictsAreGroups(symbols, groups);
    if exists name :: name in groups && |groups[name]| > 1 {
      return Err("conflicting public dynamic-symbol records");
    }
    return Ok(symbols);
  }

  // ----- The manifest

  /** Reading the rows into a dictionary: a later row replaces an earlier one of its name. */
  function Read(rows: seq<Symbol>): Manifest {
    if rows == [] then map[]
    else
      var last := rows[|rows| - 1];
      Read(rows[..|rows| - 1])[last.name := last.entry]
  }

  /** A manifest of consistent records, in any order, reads back as exactly those records. */
  lemma {:induction false} ReadBack(rows: seq<Symbol>, symbol: Symbol)
    requires Consistent(Elements(rows))
    ensures symbol in Elements(rows) <==> symbol.name in Read(rows) && Read(rows)[symbol.name] == symbol.entry
  {
    if rows != [] {
      var n := |rows| - 1;
      var last := rows[n];
      assert rows == rows[..n] + [last];
      assert Elements(rows) == Elements(rows[..n]) + {last};
      ReadBack(rows[..n], symbol);
      ReadBack(rows[..n], last);
    }
  }

  /** `i` is the last row of its name. */
  ghost predicate LastOfName(rows: seq<Symbol>, i: nat) {
    i < |rows| && forall j :: i < j < |rows| ==> rows[j].name != rows[i].name
  }

  /** Any rows: the names read are those of the rows. */
  lemma {:induction false} ReadNames(rows: seq<Symbol>, name: string)
    ensures name in Read(rows) <==> exists i :: 0 <= i < |rows| && rows[i].name == name
  {
    if rows != [] {
      var n := |rows| - 1;
      ReadNames(rows[..n], name);
      if i :| 0 <= i < |rows| && rows[i].name == name {
        assert i < n ==> rows[..n][i].name == name;
      }
    }
  }

  /** Any rows: each name has the entry of its last row. */
  lemma {:induction false} ReadLast(rows: seq<Symbol>, i: nat)
    requires LastOfName(rows, i)
    ensures rows[i].name in Read(rows) && Read(rows)[rows[i].name] == rows[i].entry
  {
    var n := |rows| - 1;
    if i < n {
      var front := rows[..n];
      assert front[i] == rows[i] && LastOfName(front, i);
      ReadLast(front, i);
      assert rows[n].name != rows[i].name;
    }
  }
}
