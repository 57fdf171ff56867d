/**
 * The partition links to the same definitions as the combined translation and
 * exports nothing new: the two promises of the partitioner, with the exact
 * conditions under which each of them holds.
 */
module AssemblyEquivalence {
  import opened Sequences
  import opened Wrappers
  import opened AssemblyText
  import opened AssemblyPartition
  import opened AssemblyLink
  import opened AssemblySemantics

  // ----- The combined file

  function Flatten(chunks: seq<seq<Line>>): seq<Line> {
    if chunks == [] then [] else chunks[0] + Flatten(chunks[1..])
  }

  /** The translation assembled unchanged, as one file. */
  function Combined(header: seq<Line>, chunks: seq<seq<Line>>): seq<Line> {
    header + Flatten(chunks)
  }

  // ----- Declarations of chunks

  ghost predicate DeclaredIn(chunks: seq<seq<Line>>, ds: seq<string>, n: string) {
    exists i :: 0 <= i < |chunks| && n in NamedBy(chunks[i], ds)
  }

  lemma CommonDefines(lines: seq<Line>, n: string)
    requires n in NamedBy(lines, COMMON)
    ensures n in DefinedIn(lines)
  {
    hide DirectiveSymbol, Label;
    var l :| l in lines && DirectiveSymbol(l, COMMON).Some? && DirectiveSymbol(l, COMMON).value == n;
    CommonLineDefines(l);
    assert n in LineDefines(l);
  }

  lemma CommonLineDefines(line: Line)
    requires DirectiveSymbol(line, COMMON).Some?
    ensures DirectiveSymbol(line, DEFINING) == DirectiveSymbol(line, COMMON)
  {
    hide DirectiveSymbol, TrimStart, OpensWith, FirstName;
    var d := SymbolOfDirective(line, COMMON);
    OwnDirectiveSpeaks(line, d, DEFINING, DirectiveSymbol(line, COMMON).value);
  }

  lemma {:induction false} FlattenIs(chunks: seq<seq<Line>>, n: string, ds: seq<string>)
    ensures n in NamedBy(Flatten(chunks), ds) <==> DeclaredIn(chunks, ds, n)
    ensures n in DefinedIn(Flatten(chunks)) <==> exists i :: 0 <= i < |chunks| && n in DefinedIn(chunks[i])
  {
    if chunks != [] {
      hide DefinedIn, NamedBy;
      var rest := chunks[1..];
      FlattenIs(rest, n, ds);
      NamedByConcat(chunks[0], Flatten(rest), ds);
      DefinedInConcat(chunks[0], Flatten(rest));
      assert forall i :: 0 <= i < |rest| ==> rest[i] == chunks[i + 1];
      assert forall i :: 0 < i < |chunks| ==> chunks[i] == rest[i - 1];
    }
  }

  // ----- Setting

  /** One translation and the objects written for it. */
  datatype Split = Split(header: seq<Line>, chunks: seq<seq<Line>>, symbols: Symbols, f: string -> string,
                         objects: seq<seq<Line>>, orders: seq<seq<string>>)
  {
    /** The objects as the partitioner writes them. */
    ghost predicate Written() {
      WordMap(f) && Describes(symbols, chunks) && SplitInto(header, chunks, symbols, f, objects, orders)
    }

    /** The written objects, for a header that declares nothing and declarations that routing leaves alone. */
    ghost predicate Valid() {
      Written() && Silent(header) && forall i :: 0 <= i < |chunks| ==> Inert(chunks[i], f)
    }

    ghost function SharedBy(i: nat): set<string>
      requires i < |chunks|
    {
      Shared(chunks, symbols, i)
    }

    /** What object `i` says before its promotions: the header and the routed lines of its chunk. */
    function Said(i: nat): seq<Line>
      requires i < |chunks|
    {
      header + Routed(chunks[i], f)
    }

    /** What object `i` declares local. */
    ghost function Locals(i: nat): set<string>
      requires i < |chunks|
    {
      NamedBy(header, LOCAL) + (NamedBy(chunks[i], LOCAL) - SharedBy(i))
    }

    /** What each object defines and declares, whatever its header and its chunk declare. */
    lemma ObjectSays(i: nat)
      requires Written() && i < |chunks|
      ensures i < |objects| && DefinedIn(objects[i]) == DefinedIn(Said(i))
      ensures NamedBy(objects[i], EXPORTING) == NamedBy(Said(i), EXPORTING) + SharedBy(i)
      ensures NamedBy(objects[i], HIDDEN) == NamedBy(Said(i), HIDDEN) + SharedBy(i)
      ensures NamedBy(objects[i], COMMON) == NamedBy(Said(i), COMMON)
      ensures NamedBy(objects[i], LOCAL) == Locals(i)
      ensures SharedBy(i) <= DefinedIn(chunks[i])
    {
      hide DefinedIn, NamedBy, Object, MentionedElsewhere, WordMap, Nameable, Routed;
      assert Enumerates(orders[i], SharedBy(i));
      forall n | n in orders[i]
        ensures Nameable(n)
      {
        assert n in Elements(orders[i]);
        DefinedNamesAreNameable(chunks[i], n);
      }
      DefinedInConcat(header, Routed(chunks[i], f));
      ObjectDeclares(i, EXPORTING);
      ObjectDeclares(i, HIDDEN);
      ObjectDeclares(i, COMMON);
      ObjectFacts(header, chunks[i], orders[i], f, LOCAL);
    }

    lemma ObjectDeclares(i: nat, ds: seq<string>)
      requires Written() && i < |chunks| && Directives(ds) && ".local" !in ds
               && forall n :: n in orders[i] ==> Nameable(n)
      ensures i < |objects|
      ensures NamedBy(objects[i], ds)
           == NamedBy(Said(i), ds) + if ".globl" in ds || ".hidden" in ds then SharedBy(i) else {}
    {
      hide DefinedIn, NamedBy, Object, WordMap, Nameable, Routed, Describes, Shared;
      assert Enumerates(orders[i], SharedBy(i));
      ObjectFacts(header, chunks[i], orders[i], f, ds);
      NamedByConcat(header, Routed(chunks[i], f), ds);
    }

    lemma ObjectIs(i: nat)
      requires Valid() && i < |chunks|
      ensures DefinedIn(objects[i]) == DefinedIn(chunks[i])
      ensures NamedBy(objects[i], EXPORTING) == NamedBy(chunks[i], EXPORTING) + SharedBy(i)
      ensures NamedBy(objects[i], HIDDEN) == NamedBy(chunks[i], HIDDEN) + SharedBy(i)
      ensures NamedBy(objects[i], COMMON) == NamedBy(chunks[i], COMMON)
      ensures NamedBy(objects[i], LOCAL) == NamedBy(chunks[i], LOCAL) - SharedBy(i)
      ensures SharedBy(i) <= DefinedIn(chunks[i])
    {
      hide DefinedIn, NamedBy, Inert, Routed, Shared;
      ObjectSays(i);
      InertChunk(i, EXPORTING);
      InertChunk(i, HIDDEN);
      InertChunk(i, COMMON);
      assert Directives(LOCAL);
    }

    lemma InertChunk(i: nat, ds: seq<string>)
      requires Valid() && i < |chunks| && Directives(ds)
      ensures NamedBy(Said(i), ds) == NamedBy(chunks[i], ds) && DefinedIn(Said(i)) == DefinedIn(chunks[i])
    {
      hide DefinedIn, NamedBy, Inert, Routed, Describes, SplitInto, WordMap;
      assert Inert(chunks[i], f);
      InertLines(chunks[i], f, ds);
      NamedByConcat(header, Routed(chunks[i], f), ds);
      DefinedInConcat(header, Routed(chunks[i], f));
    }

    lemma ObjectsAre()
      requires Valid()
      ensures |objects| == |chunks|
      ensures forall i :: 0 <= i < |chunks| ==>
                && DefinedIn(objects[i]) == DefinedIn(chunks[i])
                && NamedBy(objects[i], EXPORTING) == NamedBy(chunks[i], EXPORTING) + SharedBy(i)
                && NamedBy(objects[i], HIDDEN) == NamedBy(chunks[i], HIDDEN) + SharedBy(i)
                && NamedBy(objects[i], COMMON) == NamedBy(chunks[i], COMMON)
                && NamedBy(objects[i], LOCAL) == NamedBy(chunks[i], LOCAL) - SharedBy(i)
                && SharedBy(i) <= DefinedIn(chunks[i])
    {
      hide DefinedIn, NamedBy, Shared;
      forall i | 0 <= i < |chunks| {
        ObjectIs(i);
      }
    }

    // ----- Mentions

    /** What object `i` mentions, in terms of its chunk: the header, the routed lines it keeps, and promotions. */
    ghost predicate Mentions(i: nat, n: string)
      requires i < |chunks|
    {
      n in TokensOf(header) || KeptMentions(chunks[i], SharedBy(i), f, n) || PromotionMentions(SharedBy(i), n)
    }

    lemma ObjectMentions(i: nat, n: string)
      requires Written() && i < |chunks|
      ensures i < |objects| && (n in TokensOf(BeforeTrailer(objects[i])) <==> Mentions(i, n))
    {
      hide TokensOf, Object, KeptMentions, PromotionMentions, Describes, WordMap, Shared;
      assert Enumerates(orders[i], SharedBy(i));
      ObjectTokens(header, chunks[i], orders[i], f, n);
    }

    // ----- Resolution

    /** Every mention of every object reaches the chunk that defines it in the combined file, or no object. */
    ghost predicate LinksAlike() {
      forall i: nat, n :: i < |objects| && n in TokensOf(BeforeTrailer(objects[i]))
                      ==> Providers(objects, i, n) == Owners(chunks, n)
    }

    /** In the combined file a mention reaches a definition exactly when a chunk, or the header, holds one. */
    lemma CombinedProviders(n: string)
      requires Describes(symbols, chunks)
      ensures var file := [Combined(header, chunks)];
              Providers(file, 0, n) == if n in DefinedIn(header) || Owners(chunks, n) != {} then {0} else {}
    {
      hide DefinedIn, NamedBy, DeclaresGlobal, DeclaresLocal, DeclaresHidden, DeclaresCommon, Defines;
      FilesAreRead();
      var file := [Combined(header, chunks)];
      assert file[0] == Combined(header, chunks);
      CombinedDefines(n);
      if Owners(chunks, n) != {} {
        var j :| j in Owners(chunks, n);
        assert n in symbols.defined;
      }
      if n in symbols.defined {
        assert symbols.defined[n] in Owners(chunks, n);
      }
    }

    lemma CombinedDefines(n: string)
      requires Describes(symbols, chunks)
      ensures n in DefinedIn(Combined(header, chunks)) <==> n in DefinedIn(header) || n in symbols.defined
    {
      hide DefinedIn, NamedBy;
      DefinedInConcat(header, Flatten(chunks));
      FlattenIs(chunks, n, EXPORTING);
    }

    /** Other objects can bind to the `n` of object `j`, in terms of its routed lines. */
    ghost predicate Offers(j: nat, n: string)
      requires j < |chunks|
    {
      && n in DefinedIn(Said(j))
      && (n in NamedBy(Said(j), EXPORTING) || n in SharedBy(j) || (n in NamedBy(Said(j), COMMON) && n !in Locals(j)))
    }

    /** The objects whose definition a mention of `n` in object `i` reaches, read off the routed lines. */
    ghost function Reached(i: nat, n: string): set<nat>
      requires i < |chunks|
    {
      if n in DefinedIn(Said(i)) then {i}
      else if n in Locals(i) then {}
      else set j: nat | j < |chunks| && Offers(j, n)
    }

    lemma ProvidersAreReached(i: nat, n: string)
      requires Written() && i < |chunks|
      ensures |objects| == |chunks| && Providers(objects, i, n) == Reached(i, n)
    {
      hide DefinedIn, NamedBy, Shared, WordMap, Describes, Said, Locals, DeclaresGlobal, DeclaresLocal,
           DeclaresHidden, DeclaresCommon, Defines;
      FilesAreRead();
      forall j | 0 <= j < |chunks|
        ensures n in DefinedIn(objects[j]) <==> n in DefinedIn(Said(j))
        ensures BindsGlobally(objects[j], n) <==>
                n in NamedBy(Said(j), EXPORTING) || n in SharedBy(j)
                    || (n in NamedBy(Said(j), COMMON) && n !in Locals(j))
        ensures NamedBy(objects[j], LOCAL) == Locals(j)
      {
        ObjectSays(j);
      }
    }

    /** Whatever header and chunks declare, the mentions of the objects link alike exactly when routing lets them. */
    lemma LinkingIsExact()
      requires Written()
      ensures LinksAlike() <==>
              forall i: nat, n :: i < |chunks| && Mentions(i, n) ==> Reached(i, n) == Owners(chunks, n)
    {
      hide DefinedIn, NamedBy, Describes, WordMap, SplitInto, TokensOf, Providers, Owners, Mentions, Reached, Shared,
           BeforeTrailer;
      assert |objects| == |chunks| by {
        SameLength();
      }
      forall i: nat, n | i < |chunks|
        ensures n in TokensOf(BeforeTrailer(objects[i])) <==> Mentions(i, n)
        ensures Providers(objects, i, n) == Reached(i, n)
      {
        ObjectMentions(i, n);
        ProvidersAreReached(i, n);
      }
    }

    lemma SameLength()
      requires Written()
      ensures |objects| == |chunks|
    {
    }

    /** Chunk `i` can reach `n` in the object of the chunk that defines it. */
    ghost predicate Reaches(i: nat, n: string)
      requires Valid() && i < |chunks| && n in symbols.defined
    {
      var home := symbols.defined[n];
      i == home
      || (n !in NamedBy(chunks[i], LOCAL) && (BindsGlobally(chunks[home], n) || n in SharedBy(home)))
    }

    /**
     * Whatever an object mentions of another chunk's symbols is bindable at
     * home, by its own declaration or by promotion, and not declared local
     * where it is mentioned.
     */
    ghost predicate BoundAtHome()
      requires Valid()
    {
      forall i: nat, n :: i < |chunks| && Mentions(i, n) && n in symbols.defined ==> Reaches(i, n)
    }

    /** Which object a mention of any name reaches, from any object. */
    lemma Resolution(i: nat, n: string)
      requires Valid() && i < |chunks| == |objects|
      ensures n !in symbols.defined ==> Owners(chunks, n) == Providers(objects, i, n) == {}
      ensures n in symbols.defined ==>
                && Owners(chunks, n) == {symbols.defined[n]}
                && (Providers(objects, i, n) == if Reaches(i, n) then {symbols.defined[n]} else {})
    {
      hide DefinedIn, NamedBy, Shared, WordMap, Silent, Inert, SplitInto, DeclaresGlobal, DeclaresLocal,
           DeclaresHidden, DeclaresCommon, Defines;
      FilesAreRead();
      ObjectsAre();
      forall j | 0 <= j < |chunks| && n in DefinedIn(chunks[j])
        ensures n in symbols.defined && j == symbols.defined[n]
      {
      }
      if n in symbols.defined {
        var home := symbols.defined[n];
        assert n in DefinedIn(chunks[home]);
        assert i != home ==> n !in SharedBy(i);
        assert BindsGlobally(objects[home], n) == (BindsGlobally(chunks[home], n) || n in SharedBy(home));
      }
    }

    /** The partition links to the same definitions if and only if mentioned symbols are bound at home. */
    lemma LinkingIsPreserved()
      requires Valid()
      ensures LinksAlike() <==> BoundAtHome()
    {
      hide DefinedIn, NamedBy, BindsGlobally, WordMap, Silent, Inert, SplitInto, TokensOf, Providers, Owners,
           Mentions, Reaches, Shared;
      ObjectsAre();
      forall i: nat, n | i < |chunks|
        ensures n in TokensOf(BeforeTrailer(objects[i])) <==> Mentions(i, n)
        ensures n in symbols.defined ==> (Providers(objects, i, n) == Owners(chunks, n) <==> Reaches(i, n))
        ensures n !in symbols.defined ==> Providers(objects, i, n) == Owners(chunks, n)
      {
        ObjectMentions(i, n);
        Resolution(i, n);
      }
    }

    /** Chunk `i` may mention `n`: its own, or bindable at home when exported, and not declared local here. */
    ghost predicate Declared(i: nat, n: string)
      requires Valid() && i < |chunks| && n in symbols.defined
    {
      var home := symbols.defined[n];
      i == home
      || (n !in NamedBy(chunks[i], LOCAL) && (n in symbols.exported ==> BindsGlobally(chunks[home], n)))
    }

    ghost predicate DeclaredAtHome()
      requires Valid()
    {
      forall i: nat, n :: i < |chunks| && n in TokensOf(chunks[i]) && f(n) == n && n in symbols.defined ==>
          Declared(i, n)
    }

    /** Every mention of the translation that routing leaves alone reaches the definition it reached there. */
    ghost predicate UnroutedLinkAlike() {
      forall i: nat, n :: i < |chunks| && i < |objects| && n in TokensOf(chunks[i]) && f(n) == n
                      ==> Providers(objects, i, n) == Owners(chunks, n)
    }

    /** For the mentions that routing leaves alone, only exported symbols can fail: the others are promoted. */
    lemma UnroutedLinkingIsPreserved()
      requires Valid()
      ensures UnroutedLinkAlike() <==> DeclaredAtHome()
    {
      hide DefinedIn, NamedBy, WordMap, Silent, Inert, SplitInto, TokensOf, Providers, Owners, Declared, Describes;
      ObjectsAre();
      forall i: nat, n | i < |chunks| && n in TokensOf(chunks[i])
        ensures n in symbols.defined ==> (Providers(objects, i, n) == Owners(chunks, n) <==> Declared(i, n))
        ensures n !in symbols.defined ==> Providers(objects, i, n) == Owners(chunks, n)
      {
        Resolution(i, n);
        if n in symbols.defined {
          MentionIsDeclared(i, n);
        }
      }
    }

    lemma MentionIsDeclared(i: nat, n: string)
      requires Valid() && i < |chunks| && n in TokensOf(chunks[i]) && n in symbols.defined
      ensures Reaches(i, n) <==> Declared(i, n)
    {
      hide DefinedIn, NamedBy, WordMap, Silent, Inert, SplitInto, TokensOf, DeclaresGlobal, DeclaresLocal,
           DeclaresHidden, DeclaresCommon, Defines;
      FilesAreRead();
      var home := symbols.defined[n];
      if i != home {
        assert MentionedElsewhere(chunks, home, n);
        assert BindsGlobally(chunks[home], n) && n !in symbols.exported ==> n in SharedBy(home);
      }
    }

    // ----- Exports

    /** The header or a chunk names `n` by one of the directives. */
    ghost predicate Declares(ds: seq<string>, n: string) { n in NamedBy(header, ds) || DeclaredIn(chunks, ds, n) }

    lemma CombinedIs(n: string, ds: seq<string>)
      ensures n in NamedBy(Combined(header, chunks), ds) <==> Declares(ds, n)
    {
      hide DefinedIn, NamedBy;
      NamedByConcat(header, Flatten(chunks), ds);
      FlattenIs(chunks, n, ds);
    }

    /** When the combined file exports `n` by default. */
    ghost predicate CombinedExport(n: string) {
      && (n in DefinedIn(header) || n in symbols.defined) && !Declares(HIDDEN, n)
      && (Declares(EXPORTING, n) || (Declares(COMMON, n) && !Declares(LOCAL, n)))
    }

    lemma CombinedExports(n: string)
      requires Describes(symbols, chunks)
      ensures ExportsByDefault([Combined(header, chunks)], n) <==> CombinedExport(n)
    {
      hide DefinedIn, NamedBy, Combined, Describes, Declares, DeclaresGlobal, DeclaresLocal, DeclaresHidden,
           DeclaresCommon, Defines;
      FilesAreRead();
      var file := Combined(header, chunks);
      assert [file][0] == file;
      CombinedDefines(n);
      CombinedIs(n, EXPORTING);
      CombinedIs(n, HIDDEN);
      CombinedIs(n, COMMON);
      CombinedIs(n, LOCAL);
    }

    /** When the objects export `n` by default, read off their routed lines. */
    ghost predicate RoutedExport(n: string) {
      && (exists j :: 0 <= j < |chunks| && Offers(j, n))
      && forall j :: 0 <= j < |chunks| ==> n !in NamedBy(Said(j), HIDDEN) && n !in SharedBy(j)
    }

    lemma ObjectsExport(n: string)
      requires Written()
      ensures ExportsByDefault(objects, n) <==> RoutedExport(n)
    {
      hide DefinedIn, NamedBy, Shared, WordMap, Describes, Said, Locals, Offers, BindsGlobally, DeclaresGlobal,
           DeclaresLocal, DeclaresHidden, DeclaresCommon, Defines;
      FilesAreRead();
      SameLength();
      forall j | 0 <= j < |chunks|
        ensures n in DefinedIn(objects[j]) && BindsGlobally(objects[j], n) <==> Offers(j, n)
        ensures n in NamedBy(objects[j], HIDDEN) <==> n in NamedBy(Said(j), HIDDEN) || n in SharedBy(j)
      {
        ObjectOffers(j, n);
      }
    }

    lemma ObjectOffers(j: nat, n: string)
      requires Written() && j < |chunks|
      ensures j < |objects|
      ensures n in DefinedIn(objects[j]) && BindsGlobally(objects[j], n) <==> Offers(j, n)
      ensures n in NamedBy(objects[j], HIDDEN) <==> n in NamedBy(Said(j), HIDDEN) || n in SharedBy(j)
    {
      hide DefinedIn, NamedBy, Shared, WordMap, Describes, Said, Locals, SplitInto, DeclaresGlobal, DeclaresLocal,
           DeclaresHidden, DeclaresCommon, Defines;
      FilesAreRead();
      ObjectSays(j);
    }

    ghost predicate SameExports() {
      forall n :: ExportsByDefault(objects, n) <==> ExportsByDefault([Combined(header, chunks)], n)
    }

    /** Whatever header and chunks declare, the default exports are the same exactly when routing lets them. */
    lemma ExportsAreRouted()
      requires Written()
      ensures SameExports() <==> forall n :: RoutedExport(n) <==> CombinedExport(n)
    {
      hide ExportsByDefault, Combined, WordMap, SplitInto, RoutedExport, CombinedExport;
      forall n
        ensures ExportsByDefault(objects, n) <==> RoutedExport(n)
        ensures ExportsByDefault([Combined(header, chunks)], n) <==> CombinedExport(n)
      {
        ObjectsExport(n);
        CombinedExports(n);
      }
    }

    /** For a silent header, what the combined file exports in terms of its chunks. */
    lemma ChunksExport(n: string)
      requires Valid()
      ensures ExportsByDefault([Combined(header, chunks)], n) <==>
                && n in symbols.defined && !DeclaredIn(chunks, HIDDEN, n)
                && (n in symbols.exported || (DeclaredIn(chunks, COMMON, n) && !DeclaredIn(chunks, LOCAL, n)))
    {
      hide DefinedIn, NamedBy, WordMap, Inert, SplitInto, Combined, ExportsByDefault;
      assert Directives(EXPORTING) && Directives(HIDDEN) && Directives(COMMON) && Directives(LOCAL);
      CombinedExports(n);
      assert DeclaredIn(chunks, EXPORTING, n) <==> n in symbols.exported;
    }

    /** The partition exports `n` by default, in terms of the chunk that defines it. */
    lemma PartitionExports(n: string)
      requires Valid()
      ensures ExportsByDefault(objects, n) <==>
                && n in symbols.defined && !DeclaredIn(chunks, HIDDEN, n)
                && n !in SharedBy(symbols.defined[n])
                && BindsGlobally(chunks[symbols.defined[n]], n)
    {
      hide DefinedIn, NamedBy, WordMap, Inert, SplitInto, Silent, Shared, DeclaresGlobal, DeclaresLocal,
           DeclaresHidden, DeclaresCommon, Defines;
      FilesAreRead();
      ObjectsAre();
      if n in symbols.defined {
        var home := symbols.defined[n];
        assert n in DefinedIn(objects[home]);
        assert n !in SharedBy(home) ==> BindsGlobally(objects[home], n) == BindsGlobally(chunks[home], n);
      }
    }

    /**
     * Nothing new: what the partition exports by default, the combined file
     * exports by default, unless a chunk declares it local out of the
     * partitioner's sight; a proper symbol is always seen.
     */
    lemma ExportsNothingNew(n: string)
      requires Valid() && ExportsByDefault(objects, n)
      ensures ExportsByDefault([Combined(header, chunks)], n) <==>
              n in symbols.exported || !DeclaredIn(chunks, LOCAL, n)
      ensures Proper(n) ==> ExportsByDefault([Combined(header, chunks)], n)
    {
      hide DefinedIn, NamedBy, WordMap, Inert, SplitInto, Silent, ExportsByDefault, Proper, TokensOf, DeclaresGlobal,
           DeclaresLocal, DeclaresHidden, DeclaresCommon, Defines;
      FilesAreRead();
      PartitionExports(n);
      ChunksExport(n);
      var home := symbols.defined[n];
      if Proper(n) {
        forall i | 0 <= i < |chunks| && n in NamedBy(chunks[i], LOCAL)
          ensures n in symbols.exported || i == home
        {
          FileMentions(chunks[i], LOCAL, n);
          assert i != home ==> MentionedElsewhere(chunks, home, n);
        }
      }
      assert DeclaredIn(chunks, EXPORTING, n) ==> n in symbols.exported;
    }

    /**
     * When the default exports are the same: exported symbols are bound at
     * home, and an unexported common symbol is mentioned in another chunk
     * exactly when one declares it local.
     */
    ghost predicate KeepsExports()
      requires Valid()
    {
      forall n :: n in symbols.defined && !DeclaredIn(chunks, HIDDEN, n) ==> KeepsExport(n)
    }

    ghost predicate KeepsExport(n: string)
      requires Valid() && n in symbols.defined
    {
      var home := symbols.defined[n];
      if n in symbols.exported then BindsGlobally(chunks[home], n)
      else n in NamedBy(chunks[home], COMMON) && n !in NamedBy(chunks[home], LOCAL) ==>
             (MentionedElsewhere(chunks, home, n) <==> DeclaredIn(chunks, LOCAL, n))
    }

    lemma ExportsAreExact()
      requires Valid()
      ensures SameExports() <==> KeepsExports()
    {
      hide DefinedIn, NamedBy, WordMap, Inert, SplitInto, Silent, ExportsByDefault, MentionedElsewhere, Combined,
           KeepsExport;
      forall n
        ensures (ExportsByDefault(objects, n) <==> ExportsByDefault([Combined(header, chunks)], n)) <==>
                (n in symbols.defined && !DeclaredIn(chunks, HIDDEN, n) ==> KeepsExport(n))
      {
        ExportIsExact(n);
      }
    }

    lemma ExportIsExact(n: string)
      requires Valid()
      ensures (ExportsByDefault(objects, n) <==> ExportsByDefault([Combined(header, chunks)], n)) <==>
              (n in symbols.defined && !DeclaredIn(chunks, HIDDEN, n) ==> KeepsExport(n))
    {
      hide DefinedIn, NamedBy, WordMap, Inert, SplitInto, Silent, ExportsByDefault, MentionedElsewhere, Combined,
           DeclaresGlobal, DeclaresLocal, DeclaresHidden, DeclaresCommon, Defines;
      FilesAreRead();
      PartitionExports(n);
      ChunksExport(n);
      CommonAtHome(n);
    }

    /** A common symbol is defined by the chunk that declares it. */
    lemma CommonAtHome(n: string)
      requires Valid()
      ensures DeclaredIn(chunks, COMMON, n) <==>
              n in symbols.defined && n in NamedBy(chunks[symbols.defined[n]], COMMON)
    {
      hide DefinedIn, WordMap, Inert, SplitInto, Silent, DirectiveSymbol;
      forall i | 0 <= i < |chunks| && n in NamedBy(chunks[i], COMMON)
        ensures n in DefinedIn(chunks[i])
      {
        CommonDefines(chunks[i], n);
      }
    }

    /** Every written object is as coherent as the combined file: promoted symbols lose their `.local`. */
    lemma ObjectsAreCoherent(i: nat)
      requires Valid() && i < |chunks| && Coherent(Combined(header, chunks))
      ensures Coherent(objects[i])
    {
      hide DefinedIn, NamedBy, WordMap, Inert, SplitInto, Silent, Combined, DeclaresGlobal, DeclaresLocal,
           DeclaresHidden, DeclaresCommon, Defines;
      FilesAreRead();
      ObjectsAre();
      forall n | n in NamedBy(objects[i], EXPORTING)
        ensures n !in NamedBy(objects[i], LOCAL)
      {
        CombinedIs(n, EXPORTING);
        CombinedIs(n, LOCAL);
        assert Directives(EXPORTING) && Directives(LOCAL);
        if n in NamedBy(chunks[i], EXPORTING) {
          assert DeclaredIn(chunks, EXPORTING, n);
          assert !DeclaredIn(chunks, LOCAL, n);
        }
      }
    }
  }

  // ----- The partitioner's own split

  /** The objects written with the partitioner's own routing are a split that the theorems are about. */
  lemma PartitionIsSplit(split: Split, public: PublicNames)
    requires split.f == Router(public) && Describes(split.symbols, split.chunks)
    requires SplitInto(split.header, split.chunks, split.symbols, split.f, split.objects, split.orders)
    ensures split.Written()
  {
    hide Router, WordMap, Describes, SplitInto;
    RouterIsWordMap(public);
  }

  const MARKER := "/* musl-1.2.6/"

  function Bodies(pieces: seq<string>): seq<seq<Line>> {
    seq(|pieces|, k requires 0 <= k < |pieces| => Body(pieces[k], STACK_NOTE))
  }

  /**
   * The split of one musl translation: it fails exactly when two of its pieces
   * define one symbol, and is else a split that the theorems are about.
   */
  method SplitTranslation(text: string) returns (r: Result<Split>, header: string, pieces: seq<string>)
    ensures IsCut(text, "/* musl-1.2.6/", header, pieces)
    ensures r.Ok? <==> !DefinedTwice(Bodies(pieces))
    ensures r.Ok? ==> && r.value.header == Lines("", header) && r.value.chunks == Bodies(pieces)
                      && r.value.f == Router(PUBLIC_MATH_CALLS) && r.value.Written()
                      && AllAscending(r.value.orders)
  {
    hide Router, WordMap, Describes, SplitInto, AllAscending, DefinedTwice, IsCut, Body, Lines;
    var objects, chunks, symbols, orders;
    assert MARKER != "" && '\n' !in MARKER;
    objects, header, pieces, chunks, symbols, orders := PartitionText(text, MARKER, STACK_NOTE, PUBLIC_MATH_CALLS);
    assert chunks == Bodies(pieces);
    if objects.Err? {
      return Err(objects.reason), header, pieces;
    }
    var split := Split(Lines("", header), chunks, symbols, Router(PUBLIC_MATH_CALLS), objects.value, orders);
    PartitionIsSplit(split, PUBLIC_MATH_CALLS);
    r := Ok(split);
  }
}
