/**
 * How an assembler and a linker read a file, in the directives' own names.
 *
 * A file defines the symbols of its labels and of its `.set`, `.equ`, `.comm`
 * and `.lcomm` lines. A defined symbol is visible to other files when it is
 * declared global or weak, or is a common symbol that is not declared local.
 * It leaves the linked image with default visibility when no file of the link
 * declares it hidden, since the most constraining visibility of all files wins.
 * Nothing here depends on the lists of directives that the partitioner keeps:
 * that those lists read a file in this way is proved at the end.
 */
module AssemblySemantics {
  import opened Sequences
  import opened Wrappers
  import opened AssemblyText
  import opened AssemblyPartition
  import opened AssemblyLink

  // ----- One file

  /** Some line of the file is one of the directives and names `n`. */
  ghost predicate Says(file: seq<Line>, directives: set<string>, n: string) {
    exists l, d :: l in file && d in directives && DirectiveName(l, d) == Some(n)
  }

  ghost predicate DeclaresGlobal(file: seq<Line>, n: string) { Says(file, {".globl", ".global", ".weak"}, n) }

  ghost predicate DeclaresLocal(file: seq<Line>, n: string) { Says(file, {".local"}, n) }

  ghost predicate DeclaresHidden(file: seq<Line>, n: string) { Says(file, {".hidden"}, n) }

  ghost predicate DeclaresCommon(file: seq<Line>, n: string) { Says(file, {".comm"}, n) }

  ghost predicate Defines(file: seq<Line>, n: string) {
    (exists l :: l in file && Label(l) == Some(n)) || Says(file, {".set", ".equ", ".comm", ".lcomm"}, n)
  }

  /** Other files of the link can bind to this file's `n`. */
  ghost predicate BindsGlobally(file: seq<Line>, n: string) {
    DeclaresGlobal(file, n) || (DeclaresCommon(file, n) && !DeclaresLocal(file, n))
  }

  /** No symbol is declared both local and global or weak. */
  ghost predicate Coherent(file: seq<Line>) {
    forall n :: DeclaresGlobal(file, n) ==> !DeclaresLocal(file, n)
  }

  // ----- One link

  /**
   * The files whose definition a mention of `n` in file `i` can reach. A symbol
   * that the file declares local and does not define reaches none.
   */
  ghost function Providers(files: seq<seq<Line>>, i: nat, n: string): set<nat>
    requires i < |files|
  {
    if Defines(files[i], n) then {i}
    else if DeclaresLocal(files[i], n) then {}
    else set j: nat | j < |files| && Defines(files[j], n) && BindsGlobally(files[j], n)
  }

  ghost predicate ExportsByDefault(files: seq<seq<Line>>, n: string) {
    && (exists j :: 0 <= j < |files| && Defines(files[j], n) && BindsGlobally(files[j], n))
    && forall j :: 0 <= j < |files| ==> !DeclaresHidden(files[j], n)
  }

  /** The chunks that hold the combined file's definition of `n`. */
  ghost function Owners(chunks: seq<seq<Line>>, n: string): set<nat> {
    set j: nat | j < |chunks| && Defines(chunks[j], n)
  }

  // ----- What the partitioner reads

  lemma SaysIsNamed(file: seq<Line>, ds: seq<string>, n: string)
    requires Directives(ds)
    ensures n in NamedBy(file, ds) <==> Says(file, Elements(ds), n)
  {
    hide DirectiveName, DirectiveSymbol;
    if n in NamedBy(file, ds) {
      var l :| l in file && DirectiveSymbol(l, ds).Some? && DirectiveSymbol(l, ds).value == n;
      var d := SymbolOfDirective(l, ds);
      assert d in Elements(ds);
    }
    if Says(file, Elements(ds), n) {
      var l, d :| l in file && d in Elements(ds) && DirectiveName(l, d) == Some(n);
      NamedOpens(l, d);
      OwnDirectiveSpeaks(l, d, ds, n);
    }
  }

  lemma NamedOpens(line: Line, d: string)
    requires DirectiveName(line, d).Some?
    ensures OpensWith(TrimStart(line), d)
  {
  }

  /** The partitioner's lists read a file as the assembler does. */
  lemma DirectivesAreRead(file: seq<Line>, n: string)
    ensures n in NamedBy(file, EXPORTING) <==> DeclaresGlobal(file, n)
    ensures n in NamedBy(file, LOCAL) <==> DeclaresLocal(file, n)
    ensures n in NamedBy(file, HIDDEN) <==> DeclaresHidden(file, n)
    ensures n in NamedBy(file, COMMON) <==> DeclaresCommon(file, n)
    ensures n in DefinedIn(file) <==> Defines(file, n)
  {
    hide NamedBy, Says, DefinedIn;
    assert Elements(EXPORTING) == {".globl", ".global", ".weak"};
    assert Elements(LOCAL) == {".local"} && Elements(HIDDEN) == {".hidden"} && Elements(COMMON) == {".comm"};
    SaysIsNamed(file, EXPORTING, n);
    SaysIsNamed(file, LOCAL, n);
    SaysIsNamed(file, HIDDEN, n);
    SaysIsNamed(file, COMMON, n);
    DefinitionsAreRead(file, n);
  }

  lemma DefinitionsAreRead(file: seq<Line>, n: string)
    ensures n in DefinedIn(file) <==> Defines(file, n)
  {
    hide Says, Label, DirectiveSymbol;
    assert Elements(DEFINING) == {".set", ".equ", ".comm", ".lcomm"};
    SaysIsNamed(file, DEFINING, n);
    if n in DefinedIn(file) {
      var l :| l in file && n in LineDefines(l);
      assert Label(l) == Some(n) || n in NamedBy(file, DEFINING);
    }
    if l :| l in file && Label(l) == Some(n) {
      assert n in LineDefines(l);
    }
    if n in NamedBy(file, DEFINING) {
      var l :| l in file && DirectiveSymbol(l, DEFINING).Some? && DirectiveSymbol(l, DEFINING).value == n;
      assert n in LineDefines(l);
    }
  }

  /** So for every file and every name. */
  lemma FilesAreRead()
    ensures forall file, n :: DeclaresGlobal(file, n) <==> n in NamedBy(file, EXPORTING)
    ensures forall file, n :: DeclaresLocal(file, n) <==> n in NamedBy(file, LOCAL)
    ensures forall file, n :: DeclaresHidden(file, n) <==> n in NamedBy(file, HIDDEN)
    ensures forall file, n :: DeclaresCommon(file, n) <==> n in NamedBy(file, COMMON)
    ensures forall file, n :: Defines(file, n) <==> n in DefinedIn(file)
  {
    hide DeclaresGlobal, DeclaresLocal, DeclaresHidden, DeclaresCommon, Defines, NamedBy, DefinedIn;
    forall file: seq<Line>, n: string
      ensures n in NamedBy(file, EXPORTING) <==> DeclaresGlobal(file, n)
      ensures n in NamedBy(file, LOCAL) <==> DeclaresLocal(file, n)
      ensures n in NamedBy(file, HIDDEN) <==> DeclaresHidden(file, n)
      ensures n in NamedBy(file, COMMON) <==> DeclaresCommon(file, n)
      ensures n in DefinedIn(file) <==> Defines(file, n)
    {
      DirectivesAreRead(file, n);
    }
  }

  /**
   * What the partitioner collects: exactly the names that some chunk declares
   * global or weak, and each defined name with the one chunk that defines it.
   */
  lemma CollectedSymbols(symbols: Symbols, chunks: seq<seq<Line>>, n: string)
    requires Describes(symbols, chunks)
    ensures n in symbols.exported <==>
            exists i, l, d :: && 0 <= i < |chunks| && l in chunks[i] && d in {".globl", ".global", ".weak"}
                              && DirectiveName(l, d) == Some(n)
    ensures n in symbols.defined <==>
            || (exists i, l :: 0 <= i < |chunks| && l in chunks[i] && Label(l) == Some(n))
            || (exists i, l, d :: && 0 <= i < |chunks| && l in chunks[i] && d in {".set", ".equ", ".comm", ".lcomm"}
                                  && DirectiveName(l, d) == Some(n))
    ensures forall i :: 0 <= i < |chunks| ==>
            (Defines(chunks[i], n) <==> n in symbols.defined && symbols.defined[n] == i)
  {
    hide NamedBy, DefinedIn, DirectiveName, Label;
    FilesAreRead();
    assert n in symbols.exported <==> exists i :: 0 <= i < |chunks| && DeclaresGlobal(chunks[i], n);
    assert n in symbols.defined <==> exists i :: 0 <= i < |chunks| && Defines(chunks[i], n);
  }

  /** The partitioner gives up exactly when two chunks define one name. */
  lemma DefinedTwiceExactly(chunks: seq<seq<Line>>)
    ensures DefinedTwice(chunks) <==>
            exists i, j, n :: 0 <= i < j < |chunks| && Defines(chunks[i], n) && Defines(chunks[j], n)
  {
    hide DefinedIn, Defines;
    FilesAreRead();
  }
}
