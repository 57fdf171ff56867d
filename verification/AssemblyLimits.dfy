/**
 * Translations of two short sources that the partition does not preserve, one
 * for each way in which the conditions of its theorems can fail. Each is a text
 * with its source markers, cut and routed as the partitioner does.
 */
module AssemblyLimits {
  import opened Sequences
  import opened Wrappers
  import opened AssemblyText
  import opened AssemblyPartition
  import opened AssemblyLink
  import opened AssemblySemantics
  import opened AssemblyEquivalence

  // ----- The text of a translation

  function FirstMark(): Line { MARKER + "a.c */" }

  function SecondMark(): Line { MARKER + "b.c */" }

  function Translation(a: Line, b: Line): string { Piece(FirstMark(), a) + Piece(SecondMark(), b) }

  function Piece(mark: Line, line: Line): string { mark + "\n" + line + "\n" }

  /** One whole line of code. */
  predicate Ordinary(line: Line) {
    line != "" && line[0] != '/' && forall i :: 0 <= i < |line| ==> line[i] != '\n' && line[i] != '\r' && line[i] != '"'
  }

  predicate IsMark(mark: Line) {
    MARKER <= mark && forall i :: 0 <= i < |mark| ==> mark[i] != '\n' && mark[i] != '\r' && mark[i] != '"'
  }

  lemma Marks()
    ensures IsMark(FirstMark()) && IsMark(SecondMark())
  {
  }

  lemma PieceIsOne(mark: Line, line: Line)
    requires IsMark(mark) && Ordinary(line)
    ensures OneMarker(Piece(mark, line), MARKER) && EndsLine(Piece(mark, line))
  {
    var piece := Piece(mark, line);
    assert piece[..|MARKER|] == mark[..|MARKER|] && MARKER[0] == '/';
    assert forall j :: 0 <= j < |piece| && piece[j] == '\n' ==> j == |mark| || j == |piece| - 1;
    forall i: nat | 0 < i
      ensures !MarkerAt(piece, i, MARKER)
    {
      if i + |MARKER| <= |piece| {
        assert piece[i..i + |MARKER|][0] == piece[i];
      }
    }
  }

  lemma NoNote(line: Line)
    requires forall i :: 0 <= i < |line| ==> line[i] != '"'
    ensures !EndsWith(line, STACK_NOTE)
  {
    if |STACK_NOTE| <= |line| {
      var k := |line| - |STACK_NOTE|;
      assert line[k..][25] == line[k + 25] && STACK_NOTE[25] == '"';
    }
  }

  lemma BodyOfPiece(mark: Line, line: Line)
    requires IsMark(mark) && Ordinary(line)
    ensures Body(Piece(mark, line), STACK_NOTE) == [mark, line]
  {
    hide EndsWith, RemoveAll, Lines;
    var lines, piece := [mark, line], Piece(mark, line);
    NoNote(mark);
    NoNote(line);
    NoteHasNoBreak();
    assert lines[1..] == [line] && [line][1..] == [] && Unlines([]) == "" && StrippedText([], STACK_NOTE) == "";
    assert Unlines([line]) == line + "\n" && StrippedText([line], STACK_NOTE) == line + "\n";
    assert Unlines(lines) == piece == StrippedText(lines, STACK_NOTE);
    NotesAreRemoved(lines, STACK_NOTE);
    LinesOfPiece(mark, line);
  }

  lemma LinesOfPiece(mark: Line, line: Line)
    requires IsMark(mark) && Ordinary(line)
    ensures Lines("", Piece(mark, line)) == [mark, line]
  {
    assert Piece(mark, line) == mark + "\n" + (line + "\n" + "");
    assert "" + mark == mark && "" + line == line;
    LineIsRead("", mark, line + "\n" + "");
    LineIsRead("", line, "");
    Unreturned(mark);
    Unreturned(line);
    assert Lines("", "") == [];
  }

  lemma Unreturned(line: Line)
    requires forall i :: 0 <= i < |line| ==> line[i] != '\r'
    ensures StripReturn(line) == line
  {
    if line != "" {
      assert line[|line| - 1..][0] == line[|line| - 1];
    }
  }

  /** The text is cut into its two sources. */
  lemma TranslationIsCut(a: Line, b: Line)
    requires Ordinary(a) && Ordinary(b)
    ensures IsCut(Translation(a, b), MARKER, "", [Piece(FirstMark(), a), Piece(SecondMark(), b)])
    ensures Bodies([Piece(FirstMark(), a), Piece(SecondMark(), b)]) == [[FirstMark(), a], [SecondMark(), b]]
  {
    hide Body, OneMarker, Piece, FirstMark, SecondMark, IsMark, Ordinary;
    Marks();
    PieceIsOne(FirstMark(), a);
    PieceIsOne(SecondMark(), b);
    BodyOfPiece(FirstMark(), a);
    BodyOfPiece(SecondMark(), b);
    var pieces := [Piece(FirstMark(), a), Piece(SecondMark(), b)];
    assert pieces[1..] == [Piece(SecondMark(), b)] && pieces[1..][1..] == [];
    assert Concat(pieces[1..]) == Piece(SecondMark(), b) + "";
    assert "" + Concat(pieces) == Translation(a, b);
  }

  // ----- Lines

  /** A line that does not start with a blank or a dot is no directive. */
  lemma NoDirective(line: Line, ds: seq<string>, f: string -> string)
    requires TrimStart(line) != "" && TrimStart(line)[0] != '.' && Directives(ds)
    ensures DirectiveSymbol(line, ds) == None && RoutesInert(line, f)
  {
    hide TrimStart, FirstName;
    forall d | IsDirective(d)
      ensures DirectiveName(line, d) == None
    {
      DirectivesAreDotted(d);
    }
    NoNameNoSymbol(line, ds);
  }

  lemma {:induction false} NoNameNoSymbol(line: Line, ds: seq<string>)
    requires forall d :: d in ds ==> DirectiveName(line, d) == None
    ensures DirectiveSymbol(line, ds) == None
  {
    hide DirectiveName;
    if ds != [] {
      NoNameNoSymbol(line, ds[1..]);
    }
  }

  /** A mark declares nothing. */
  lemma MarkLine(mark: Line, ds: seq<string>, f: string -> string)
    requires MARKER <= mark && !EndsInColon(mark) && Directives(ds)
    ensures DirectiveSymbol(mark, ds) == None && Label(mark) == None && RoutesInert(mark, f)
  {
    assert mark[0] == '/';
    SpanIs(mark, IsWhite, 0);
    hide TrimStart;
    NoDirective(mark, ds, f);
  }

  lemma MarksAreNoLabels()
    ensures MARKER <= FirstMark() && !EndsInColon(FirstMark()) && MARKER <= SecondMark() && !EndsInColon(SecondMark())
  {
  }

  lemma LabelLine(n: string, ds: seq<string>, f: string -> string)
    requires Proper(n) && Directives(ds) && n[0] != '.'
    ensures Label(n + ":") == Some(n) && DirectiveSymbol(n + ":", ds) == None && RoutesInert(n + ":", f)
  {
    var line := n + ":";
    assert line[..|line| - 1] == n && IsSymbolChar(line[0]);
    SpanIs(line, IsWhite, 0);
    hide TrimStart, DirectiveSymbol, RoutesInert;
    NoDirective(line, ds, f);
  }

  function Call(n: string): Line { "\t" + "call\t" + n }

  lemma OneWord(w: string)
    requires AllSymbol(w)
    ensures Words("", w) == [w]
  {
    assert "" + w == w && w + "" == w;
    WordsAbsorb("", w, "");
  }

  /** A call mentions its target and declares nothing. */
  lemma CallLine(n: string, ds: seq<string>, f: string -> string)
    requires Proper(n) && Directives(ds)
    ensures Label(Call(n)) == None && DirectiveSymbol(Call(n), ds) == None && RoutesInert(Call(n), f)
    ensures Tokens(Call(n)) == {"call", n} && !Protected(Call(n))
  {
    CallTokens(n);
    var rest := "call\t" + n;
    assert Call(n) == "\t" + rest && rest[0] == 'c';
    TrimTab(rest);
    assert IsSymbolChar(n[|n| - 1]) && rest[|rest| - 1] == n[|n| - 1] == Call(n)[|Call(n)| - 1];
    hide TrimStart, DirectiveSymbol, RoutesInert, Tokens;
    NoDirective(Call(n), ds, f);
  }

  lemma CallTokens(n: string)
    requires Proper(n)
    ensures Tokens(Call(n)) == {"call", n}
  {
    hide Words;
    assert Call(n) == "" + ['\t'] + ("call" + ['\t'] + n);
    WordsSplit("", "", '\t', "call" + ['\t'] + n);
    WordsSplit("", "call", '\t', n);
    assert AllSymbol("call") && AllSymbol("");
    OneWord("call");
    OneWord("");
    OneWord(n);
    var words := ["", "call", n];
    assert Words("", Call(n)) == words;
    assert "call"[0] == 'c' && ".L"[0] == '.' && !StartsWith("call", ".L");
    assert forall w :: w in words <==> w == words[0] || w == words[1] || w == words[2];
  }

  /** A directive line says its own and nothing else. */
  lemma DirectiveLineFacts(d: string, n: string, operands: string, ds: seq<string>, f: string -> string)
    requires IsDirective(d) && Nameable(n) && (operands == "" || operands[0] == ',') && Directives(ds)
    ensures var line := DirectiveLine(d, n, operands);
            && DirectiveSymbol(line, ds) == (if d in ds then Some(n) else None) && Label(line) == None
            && (KeepsName(n, f) ==> RoutesInert(line, f))
  {
    hide DirectiveSymbol, OpensWith, TrimStart, Label, KeepsName, Nameable, DirectiveLine;
    var line := DirectiveLine(d, n, operands);
    DirectivesAreDotted(d);
    DirectiveLineNames(d, n, operands);
    DirectiveLineIsNoLabel(line, d);
    if d in ds {
      OwnDirectiveSpeaks(line, d, ds, n);
    } else {
      OtherDirectivesSilent(line, d, ds);
    }
    forall e | IsRouted(e) && DirectiveName(line, e).Some?
      ensures DirectiveName(line, e).value == n
    {
      DirectivesAreDotted(e);
      OpeningIsUnique(TrimStart(line), d, e);
    }
  }

  lemma {:induction false} WordsAreSymbols(token: string, s: string)
    requires AllSymbol(token)
    ensures forall w :: w in Words(token, s) ==> AllSymbol(w)
    decreases |s|
  {
    if s != [] {
      WordsAreSymbols(if IsSymbolChar(s[0]) then token + [s[0]] else "", s[1..]);
    }
  }

  lemma {:induction false} WordsAreMadeOf(token: string, s: string, c: char)
    requires c !in token && c !in s
    ensures forall w :: w in Words(token, s) ==> c !in w
    decreases |s|
  {
    if s != [] {
      WordsAreMadeOf(if IsSymbolChar(s[0]) then token + [s[0]] else "", s[1..], c);
    }
  }

  // ----- Names and the partitioner's routing

  /** The routing of the partitioner itself. */
  function Routing(): string -> string { Router(PUBLIC_MATH_CALLS) }

  lemma RoutingIsWordMap()
    ensures WordMap(Routing())
  {
    hide Router, WordMap;
    RouterIsWordMap(PUBLIC_MATH_CALLS);
  }

  /** A symbol that is no private copy, no local label, and no word of a mark. */
  predicate Usual(n: string) {
    Proper(n) && n[0] != '.' && !StartsWith(n, PRIVATE_PREFIX) && Unmarked(n)
  }

  predicate Unmarked(n: string) { exists k :: 0 <= k < |n| && n[k] !in FirstMark() && n[k] !in SecondMark() }

  lemma RoutingKeeps(n: string)
    requires !StartsWith(n, PRIVATE_PREFIX)
    ensures Routing()(n) == n
  {
  }

  lemma UsualIsKept(n: string)
    requires Usual(n)
    ensures Routing()(n) == n && KeepsName(n, Routing()) && Nameable(n)
  {
    hide Routing, Rewrite;
    RoutingKeeps(n);
    RewriteWord(n, Routing());
    ProperIsNameable(n);
  }

  lemma MarksDoNotMention(n: string)
    requires Unmarked(n) || !AllSymbol(n)
    ensures n !in Tokens(FirstMark()) && n !in Tokens(SecondMark())
  {
    hide Words, FirstMark, SecondMark;
    if Unmarked(n) {
      var k :| 0 <= k < |n| && n[k] !in FirstMark() && n[k] !in SecondMark();
      WordsAreMadeOf("", FirstMark(), n[k]);
      WordsAreMadeOf("", SecondMark(), n[k]);
    } else {
      WordsAreSymbols("", FirstMark());
      WordsAreSymbols("", SecondMark());
    }
  }

  // ----- Two chunks

  /** A mark and a line declare, define and mention what the line does, besides the words of the mark. */
  lemma ChunkSays(mark: Line, line: Line, ds: seq<string>)
    requires MARKER <= mark && !EndsInColon(mark) && Directives(ds)
    ensures NamedBy([mark, line], ds) == AsSet(DirectiveSymbol(line, ds))
    ensures DefinedIn([mark, line]) == LineDefines(line) && TokensOf([mark, line]) == Tokens(mark) + Tokens(line)
  {
    hide DirectiveSymbol, Label, Tokens, TokensOf, NamedBy, DefinedIn;
    MarkLine(mark, ds, Routing());
    MarkLine(mark, DEFINING, Routing());
    assert [mark, line] == [mark] + [line] && [line] == [line] + [];
    NamedByCons(mark, [line], ds);
    NamedByCons(line, [], ds);
    NoLines(ds);
    TokensOfCons(mark, [line]);
    TokensOfCons(line, []);
    NothingMentioned();
  }

  function First(a: Line): seq<Line> { [FirstMark(), a] }

  function Second(b: Line): seq<Line> { [SecondMark(), b] }

  /** The split of two sources of one line each, of which the first defines `n`. */
  ghost function Pair(a: Line, b: Line, n: string): Split {
    var symbols := Symbols(map[n := 0], NamedBy(Second(b), EXPORTING));
    var order := if n !in symbols.exported && n in TokensOf(Second(b)) then [n] else [];
    Split([], [First(a), Second(b)], symbols, Routing(),
          [Object([], First(a), order, Routing()), Object([], Second(b), [], Routing())], [order, []])
  }

  /** The split is one that the partitioner makes of the text, and the theorems apply to it. */
  ghost predicate Splits(text: string, split: Split) {
    && split.f == Routing() && split.Valid()
    && exists header, pieces ::
         IsCut(text, MARKER, header, pieces) && split.header == Lines("", header) && split.chunks == Bodies(pieces)
  }

  lemma PairIsSplit(a: Line, b: Line, n: string)
    requires Ordinary(a) && Ordinary(b) && RoutesInert(a, Routing()) && RoutesInert(b, Routing())
    requires LineDefines(a) == {n} && LineDefines(b) == {} && DirectiveSymbol(a, EXPORTING) == None
    requires Unmarked(n) || !AllSymbol(n)
    ensures var split := Pair(a, b, n);
            && Splits(Translation(a, b), split) && split.chunks == [First(a), Second(b)] && split.SharedBy(1) == {}
            && split.symbols.defined == map[n := 0]
            && split.symbols.exported == AsSet(DirectiveSymbol(b, EXPORTING))
            && split.SharedBy(0) == if n !in split.symbols.exported && n in Tokens(b) then {n} else {}
  {
    hide DirectiveSymbol, LineDefines, WordMap, RoutesInert, Tokens, TokensOf, Object, NamedBy, DefinedIn, FirstMark,
         SecondMark, Ordinary, IsCut, Bodies, Routing, Piece, Unmarked, Translation;
    var split := Pair(a, b, n);
    MarksAreNoLabels();
    ChunkSays(FirstMark(), a, EXPORTING);
    ChunkSays(SecondMark(), b, EXPORTING);
    MarksDoNotMention(n);
    RoutingIsWordMap();
    PairIsInert(a, b);
    PairIsDescribed(split, n);
    TranslationIsCut(a, b);
    EmptyHeader();
    assert Splits(Translation(a, b), split);
  }

  lemma EmptyHeader()
    ensures Silent([]) && Lines("", "") == []
  {
    forall ds | Directives(ds)
      ensures NamedBy([], ds) == {}
    {
      NoLines(ds);
    }
    NoLines([]);
  }

  lemma PairIsInert(a: Line, b: Line)
    requires RoutesInert(a, Routing()) && RoutesInert(b, Routing())
    ensures Inert(First(a), Routing()) && Inert(Second(b), Routing())
  {
    hide RoutesInert, Routing, FirstMark, SecondMark;
    MarksAreNoLabels();
    MarkLine(FirstMark(), [], Routing());
    MarkLine(SecondMark(), [], Routing());
  }

  lemma PairIsDescribed(split: Split, n: string)
    requires |split.chunks| == |split.objects| == |split.orders| == 2
    requires DefinedIn(split.chunks[0]) == {n} && DefinedIn(split.chunks[1]) == {}
             && NamedBy(split.chunks[0], EXPORTING) == {}
    requires split.symbols == Symbols(map[n := 0], NamedBy(split.chunks[1], EXPORTING))
    requires split.orders == [if n !in split.symbols.exported && n in TokensOf(split.chunks[1]) then [n] else [], []]
    ensures Describes(split.symbols, split.chunks)
    ensures Enumerates(split.orders[0], split.SharedBy(0)) && Enumerates(split.orders[1], split.SharedBy(1))
    ensures split.SharedBy(1) == {}
    ensures split.SharedBy(0) == if n !in split.symbols.exported && n in TokensOf(split.chunks[1]) then {n} else {}
  {
    hide TokensOf, NamedBy, DefinedIn;
    assert MentionedElsewhere(split.chunks, 0, n) <==> n in TokensOf(split.chunks[1]);
    assert split.SharedBy(1) == {};
    var shared := if n !in split.symbols.exported && n in TokensOf(split.chunks[1]) then {n} else {};
    assert split.SharedBy(0) == shared;
    assert Elements(split.orders[0]) == shared && Elements(split.orders[1]) == {};
  }

  /** The second object mentions what its line mentions, routed. */
  lemma PairMentions(a: Line, b: Line, n: string, m: string)
    requires m in RoutedTokens(b, Routing()) && Pair(a, b, n).SharedBy(1) == {}
    ensures Pair(a, b, n).Mentions(1, m)
  {
    hide RoutedTokens, TokensOf, Routing, SecondMark;
    var split := Pair(a, b, n);
    assert b in split.chunks[1] && !Dropped(b, {});
    assert KeptMentions(split.chunks[1], {}, Routing(), m);
  }

  // ----- What the lines declare

  /** The line declares nothing and defines `defines`. */
  ghost predicate Undeclared(line: Line, defines: set<string>) {
    && Ordinary(line) && RoutesInert(line, Routing()) && LineDefines(line) == defines
    && forall ds :: Directives(ds) ==> DirectiveSymbol(line, ds) == None
  }

  /** The line is directive `d` of `n`. */
  ghost predicate IsDirectiveOf(line: Line, d: string, n: string) {
    && Ordinary(line) && RoutesInert(line, Routing()) && LineDefines(line) == (if d in DEFINING then {n} else {})
    && forall ds :: Directives(ds) ==> DirectiveSymbol(line, ds) == if d in ds then Some(n) else None
  }

  lemma LabelFacts(n: string)
    requires Usual(n)
    ensures Undeclared(n + ":", {n})
  {
    hide DirectiveSymbol, Label, RoutesInert, Routing, Unmarked;
    LabelLine(n, DEFINING, Routing());
    SymbolsAreOrdinary(n);
    forall ds | Directives(ds)
      ensures DirectiveSymbol(n + ":", ds) == None
    {
      LabelLine(n, ds, Routing());
    }
  }

  lemma SymbolsAreOrdinary(n: string)
    requires Proper(n)
    ensures forall i :: 0 <= i < |n| ==> n[i] != '/' && n[i] != '\n' && n[i] != '\r' && n[i] != '"'
  {
    assert forall i :: 0 <= i < |n| ==> IsSymbolChar(n[i]);
  }

  lemma CallFacts(n: string)
    requires Proper(n)
    ensures Undeclared(Call(n), {}) && Tokens(Call(n)) == {"call", n} && !Protected(Call(n))
  {
    hide DirectiveSymbol, Label, RoutesInert, Routing, Tokens, Protected;
    CallLine(n, DEFINING, Routing());
    SymbolsAreOrdinary(n);
    forall ds | Directives(ds)
      ensures DirectiveSymbol(Call(n), ds) == None
    {
      CallLine(n, ds, Routing());
    }
  }

  lemma DirectiveFacts(d: string, n: string, operands: string)
    requires IsDirective(d) && Nameable(n) && KeepsName(n, Routing())
             && '"' !in n && (operands == "" || operands == ",8,8")
    ensures IsDirectiveOf(DirectiveLine(d, n, operands), d, n)
  {
    hide DirectiveSymbol, Label, RoutesInert, Routing, KeepsName;
    var line := DirectiveLine(d, n, operands);
    DirectiveLineFacts(d, n, operands, DEFINING, Routing());
    DirectiveIsOrdinary(d, n, operands);
    forall ds | Directives(ds)
      ensures DirectiveSymbol(line, ds) == if d in ds then Some(n) else None
    {
      DirectiveLineFacts(d, n, operands, ds, Routing());
    }
  }

  lemma DirectiveIsOrdinary(d: string, n: string, operands: string)
    requires IsDirective(d) && Nameable(n) && '"' !in n && (operands == "" || operands == ",8,8")
    ensures Ordinary(DirectiveLine(d, n, operands))
  {
    assert forall i :: 0 <= i < |n| ==> n[i] != '\n' && n[i] != '\r' by {
      assert forall i :: 0 <= i < |n| ==> !EndsName(n[i]);
    }
    assert forall i :: 0 <= i < |d| ==> d[i] != '\n' && d[i] != '\r' && d[i] != '"' by {
      DirectivesAreDotted(d);
    }
  }

  /** A directive line mentions the usual symbol it names; a protected one also once routed. */
  lemma DirectiveTokens(d: string, n: string, operands: string)
    requires IsDirective(d) && Usual(n) && (operands == "" || operands[0] == ',')
    ensures n in Tokens(DirectiveLine(d, n, operands)) && n in RoutedTokens(DirectiveLine(d, n, operands), Routing())
  {
    hide Tokens, TrimStart, OpensWith, Protected, Routing, Unmarked;
    UsualIsKept(n);
    DirectivesAreDotted(d);
    DirectiveLineNames(d, n, operands);
    DirectiveMentions(DirectiveLine(d, n, operands), d);
  }

  /** What a chunk of a mark and a line declares, for each group of directives. */
  lemma ChunkDeclares(split: Split, i: nat, line: Line, ds: seq<string>)
    requires i < |split.chunks| && Directives(ds)
    requires split.chunks[i] == First(line) || split.chunks[i] == Second(line)
    ensures NamedBy(split.chunks[i], ds) == AsSet(DirectiveSymbol(line, ds))
  {
    hide DirectiveSymbol, NamedBy, FirstMark, SecondMark;
    MarksAreNoLabels();
    ChunkSays(FirstMark(), line, ds);
    ChunkSays(SecondMark(), line, ds);
  }

  lemma ChunksDeclare(split: Split, a: Line, b: Line)
    requires split.chunks == [First(a), Second(b)]
    ensures forall ds :: ds in [EXPORTING, HIDDEN, COMMON, LOCAL] ==>
              && Directives(ds) && NamedBy(split.chunks[0], ds) == AsSet(DirectiveSymbol(a, ds))
              && NamedBy(split.chunks[1], ds) == AsSet(DirectiveSymbol(b, ds))
  {
    hide DirectiveSymbol, NamedBy, First, Second;
    forall ds | ds in [EXPORTING, HIDDEN, COMMON, LOCAL]
      ensures Directives(ds) && NamedBy(split.chunks[0], ds) == AsSet(DirectiveSymbol(a, ds))
      ensures NamedBy(split.chunks[1], ds) == AsSet(DirectiveSymbol(b, ds))
    {
      ChunkDeclares(split, 0, a, ds);
      ChunkDeclares(split, 1, b, ds);
    }
  }

  lemma SecondTokens(split: Split, a: Line, b: Line, n: string)
    requires split.chunks == [First(a), Second(b)] && (Unmarked(n) || !AllSymbol(n))
    ensures n in TokensOf(split.chunks[1]) <==> n in Tokens(b)
  {
    hide Tokens, TokensOf, NamedBy, DefinedIn, FirstMark, SecondMark, Unmarked, LineDefines, DirectiveSymbol;
    MarksAreNoLabels();
    ChunkSays(SecondMark(), b, EXPORTING);
    MarksDoNotMention(n);
  }

  // ----- How a theorem fails

  lemma BindsByName(file: seq<Line>, n: string)
    ensures BindsGlobally(file, n) <==>
            n in NamedBy(file, EXPORTING) || (n in NamedBy(file, COMMON) && n !in NamedBy(file, LOCAL))
  {
    hide NamedBy, DeclaresGlobal, DeclaresLocal, DeclaresCommon;
    DirectivesAreRead(file, n);
  }

  lemma NotLinked(split: Split, i: nat, n: string)
    requires split.Valid() && i < |split.chunks| && n in split.symbols.defined
    requires split.Mentions(i, n) && !split.Reaches(i, n)
    ensures !split.LinksAlike()
  {
    hide Split.Valid, Split.Mentions, Split.Reaches, Split.LinksAlike;
    split.LinkingIsPreserved();
  }

  lemma NotLinkedUnrouted(split: Split, i: nat, n: string)
    requires split.Valid() && i < |split.chunks| && n in split.symbols.defined
    requires n in TokensOf(split.chunks[i]) && split.f(n) == n && !split.Declared(i, n)
    ensures !split.UnroutedLinkAlike()
  {
    hide Split.Valid, Split.Declared, Split.UnroutedLinkAlike, TokensOf;
    split.UnroutedLinkingIsPreserved();
  }

  lemma NotExported(split: Split, n: string)
    requires split.Valid() && n in split.symbols.defined && |split.chunks| == 2 && !split.KeepsExport(n)
    requires n !in NamedBy(split.chunks[0], HIDDEN) && n !in NamedBy(split.chunks[1], HIDDEN)
    ensures !split.SameExports()
  {
    hide Split.Valid, Split.KeepsExport, Split.SameExports, NamedBy;
    assert !DeclaredIn(split.chunks, HIDDEN, n);
    split.ExportsAreExact();
  }

  // ----- Translations that are not preserved

  /** `n` names a directive's operand in this model. */
  lemma UsualFacts(n: string)
    requires Usual(n)
    ensures Proper(n) && Unmarked(n) && Nameable(n) && '"' !in n && Routing()(n) == n && KeepsName(n, Routing())
  {
    hide Unmarked, KeepsName, Nameable, Routing;
    UsualIsKept(n);
    SymbolsAreOrdinary(n);
  }

  /**
   * One source defines `n`, another declares it global: the combined file links
   * and exports `n`, but the defining object keeps it local.
   */
  lemma DeclaredElsewhereIsLost(n: string)
    requires Usual(n)
    ensures var a, b := n + ":", DirectiveLine(".globl", n, "");
            var split := Pair(a, b, n);
            && Splits(Translation(a, b), split)
            && !split.LinksAlike() && !split.UnroutedLinkAlike() && !split.SameExports()
  {
    hide WordMap, RoutesInert, Tokens, Label, DirectiveSymbol, TokensOf, NamedBy, DirectiveLine, LineDefines,
         RoutedTokens, Split.Valid, Split.Mentions, Split.LinksAlike, Split.UnroutedLinkAlike, Split.SameExports,
         FirstMark, SecondMark, Ordinary, Routing, Translation, Unmarked, Proper, KeepsName, Nameable, IsCut, Bodies,
         Lines, Protected, AllSymbol, BindsGlobally;
    var a, b := n + ":", DirectiveLine(".globl", n, "");
    var split := Pair(a, b, n);
    UsualFacts(n);
    LabelFacts(n);
    DirectiveFacts(".globl", n, "");
    DirectiveTokens(".globl", n, "");
    PairIsSplit(a, b, n);
    PairMentions(a, b, n, n);
    ChunksDeclare(split, a, b);
    SecondTokens(split, a, b, n);
    BindsByName(split.chunks[0], n);
    NotLinked(split, 1, n);
    NotLinkedUnrouted(split, 1, n);
    NotExported(split, n);
  }

  /** A common symbol that another source calls is promoted, and so no longer exported by default. */
  lemma PromotedCommonIsHidden(n: string)
    requires Usual(n)
    ensures var a, b := DirectiveLine(".comm", n, ",8,8"), Call(n);
            Splits(Translation(a, b), Pair(a, b, n)) && !Pair(a, b, n).SameExports()
  {
    hide WordMap, RoutesInert, Tokens, Label, DirectiveSymbol, TokensOf, NamedBy, DirectiveLine, LineDefines,
         RoutedTokens, Split.Valid, Split.Mentions, Split.LinksAlike, Split.UnroutedLinkAlike, Split.SameExports,
         FirstMark, SecondMark, Ordinary, Routing, Translation, Unmarked, Proper, KeepsName, Nameable, IsCut, Bodies,
         Lines, Protected, AllSymbol, Call;
    var a, b := DirectiveLine(".comm", n, ",8,8"), Call(n);
    var split := Pair(a, b, n);
    UsualFacts(n);
    DirectiveFacts(".comm", n, ",8,8");
    CallFacts(n);
    PairIsSplit(a, b, n);
    ChunksDeclare(split, a, b);
    SecondTokens(split, a, b, n);
    assert MentionedElsewhere(split.chunks, 0, n);
    assert !DeclaredIn(split.chunks, LOCAL, n);
    NotExported(split, n);
  }

  /** The generators' private copy of a public function. */
  function PrivateCopy(n: string): string { PRIVATE_PREFIX + ("m" + ELEMENTARY + n) }

  lemma PrivateCopyIsRouted(n: string)
    requires n in PUBLIC_MATH_CALLS
    ensures Plain(n) && Proper(n) && n[0] != '.' && !StartsWith(n, PRIVATE_PREFIX)
    ensures Proper(PrivateCopy(n)) && Routing()(PrivateCopy(n)) == n && PrivateCopy(n) != n
  {
    var rest := "m" + ELEMENTARY + n;
    var head := "m" + ELEMENTARY;
    assert rest[..|rest| - |n|] == head && rest[|rest| - |n|..] == n;
    assert head[1..] == ELEMENTARY;
    hide FindPublic, Plain;
    PublicIsUnique(rest, PUBLIC_MATH_CALLS, n);
    assert PrivateCopy(n)[|PRIVATE_PREFIX|..] == rest;
    PublicNamesArePlain(n);
    PublicFacts(n, PUBLIC_MATH_CALLS);
    CopyIsProper(n);
  }

  lemma PublicNamesArePlain(n: string)
    requires n in PUBLIC_MATH_CALLS
    ensures Plain(n) && Proper(n) && n[0] != '.' && !StartsWith(n, PRIVATE_PREFIX)
  {
    var i :| 0 <= i < |PUBLIC_MATH_CALLS| && PUBLIC_MATH_CALLS[i] == n;
    PlainIsProper(n);
  }

  lemma PlainIsProper(n: string)
    requires Plain(n)
    ensures Proper(n) && n[0] != '.' && !StartsWith(n, PRIVATE_PREFIX)
  {
    assert PRIVATE_PREFIX[5] == '_' && ".L"[0] == '.';
    assert |n| >= 10 ==> n[5] != '_' && n[..10][5] == n[5];
    assert n[0] != '.' && n[..1][0] == n[0];
  }

  lemma CopyIsProper(n: string)
    requires Plain(n)
    ensures Proper(PrivateCopy(n)) && PrivateCopy(n) != n
  {
    var copy := PrivateCopy(n);
    PlainIsProper(n);
    assert copy[..|PRIVATE_PREFIX|] == PRIVATE_PREFIX && copy[0] == 'c';
    assert AllSymbol(PRIVATE_PREFIX) && AllSymbol("m") && AllSymbol(ELEMENTARY);
    assert ".L"[0] == '.';
  }

  /** A call of a private copy is routed to a public function that no source exports: it was not promoted either. */
  lemma RoutedCallIsLost(n: string)
    requires n in PUBLIC_MATH_CALLS && Unmarked(n) && n != "call"
    ensures var a, b := n + ":", Call(PrivateCopy(n));
            var split := Pair(a, b, n);
            Splits(Translation(a, b), split) && !split.LinksAlike() && split.UnroutedLinkAlike()
  {
    hide WordMap, RoutesInert, Tokens, Label, DirectiveSymbol, TokensOf, NamedBy, DirectiveLine, LineDefines,
         RoutedTokens, Split.Valid, Split.Mentions, Split.LinksAlike, Split.UnroutedLinkAlike, Split.SameExports,
         FirstMark, SecondMark, Ordinary, Routing, Translation, Unmarked, Proper, KeepsName, Nameable, IsCut, Bodies,
         Lines, Protected, AllSymbol, Call, PrivateCopy, StartsWith, Plain, BindsGlobally;
    var copy := PrivateCopy(n);
    var a, b := n + ":", Call(copy);
    var split := Pair(a, b, n);
    PrivateCopyIsRouted(n);
    LabelFacts(n);
    CallFacts(copy);
    PairIsSplit(a, b, n);
    CallIsRouted(copy);
    PairMentions(a, b, n, n);
    ChunksDeclare(split, a, b);
    SecondTokens(split, a, b, n);
    BindsByName(split.chunks[0], n);
    NotLinked(split, 1, n);
    assert split.DeclaredAtHome();
    split.UnroutedLinkingIsPreserved();
  }

  lemma CallIsRouted(n: string)
    requires Proper(n)
    ensures Routing()(n) in RoutedTokens(Call(n), Routing())
  {
    hide Routing, Tokens, Protected;
    CallFacts(n);
  }

  /**
   * A source that declares another source's symbol local keeps that line, and its mention no longer
   * leaves the object.
   */
  lemma LocalMentionIsLost(n: string)
    requires Usual(n)
    ensures var a, b := n + ":", DirectiveLine(".local", n, "");
            var split := Pair(a, b, n);
            Splits(Translation(a, b), split) && !split.LinksAlike() && !split.UnroutedLinkAlike()
  {
    hide WordMap, RoutesInert, Tokens, Label, DirectiveSymbol, TokensOf, NamedBy, DirectiveLine, LineDefines,
         RoutedTokens, Split.Valid, Split.Mentions, Split.LinksAlike, Split.UnroutedLinkAlike, Split.SameExports,
         FirstMark, SecondMark, Ordinary, Routing, Translation, Unmarked, Proper, KeepsName, Nameable, IsCut, Bodies,
         Lines, Protected, AllSymbol;
    var a, b := n + ":", DirectiveLine(".local", n, "");
    var split := Pair(a, b, n);
    UsualFacts(n);
    LabelFacts(n);
    DirectiveFacts(".local", n, "");
    DirectiveTokens(".local", n, "");
    PairIsSplit(a, b, n);
    PairMentions(a, b, n, n);
    ChunksDeclare(split, a, b);
    SecondTokens(split, a, b, n);
    NotLinked(split, 1, n);
    NotLinkedUnrouted(split, 1, n);
  }

  /** A common name outside the symbol set that another source declares local is exported anew: no token shows it. */
  lemma UnseenLocalIsExported(n: string)
    requires Nameable(n) && !AllSymbol(n) && '"' !in n && KeepsName(n, Routing())
    ensures var a, b := DirectiveLine(".comm", n, ",8,8"), DirectiveLine(".local", n, "");
            var split := Pair(a, b, n);
            && Splits(Translation(a, b), split) && ExportsByDefault(split.objects, n)
            && !ExportsByDefault([Combined(split.header, split.chunks)], n)
  {
    hide WordMap, RoutesInert, Tokens, Label, DirectiveSymbol, TokensOf, NamedBy, DirectiveLine, LineDefines,
         RoutedTokens, Split.Valid, Split.Mentions, Split.LinksAlike, Split.UnroutedLinkAlike, Split.SameExports,
         FirstMark, SecondMark, Ordinary, Routing, Translation, Unmarked, Proper, KeepsName, Nameable, IsCut, Bodies,
         Lines, Protected, AllSymbol, ExportsByDefault, Combined, Words, Object, Pair;
    var a, b := DirectiveLine(".comm", n, ",8,8"), DirectiveLine(".local", n, "");
    var split := Pair(a, b, n);
    DirectiveFacts(".comm", n, ",8,8");
    DirectiveFacts(".local", n, "");
    TokensAreSymbols(b);
    PairIsSplit(a, b, n);
    ChunksDeclare(split, a, b);
    assert NamedBy(split.chunks[0], COMMON) == {n} && NamedBy(split.chunks[1], LOCAL) == {n};
    NewExport(split, n);
  }

  lemma TokensAreSymbols(line: Line)
    ensures forall t :: t in Tokens(line) ==> AllSymbol(t)
  {
    WordsAreSymbols("", line);
  }

  /** A common symbol that only another chunk declares local, unseen, is a new export. */
  lemma NewExport(split: Split, n: string)
    requires split.Valid() && |split.chunks| == 2 && split.symbols.defined == map[n := 0]
             && split.symbols.exported == {}
    requires n in NamedBy(split.chunks[0], COMMON) && n !in NamedBy(split.chunks[0], LOCAL)
    requires n !in NamedBy(split.chunks[0], HIDDEN) && n !in NamedBy(split.chunks[1], HIDDEN)
    requires n in NamedBy(split.chunks[1], LOCAL) && n !in split.SharedBy(0)
    ensures ExportsByDefault(split.objects, n) && !ExportsByDefault([Combined(split.header, split.chunks)], n)
  {
    hide Split.Valid, ExportsByDefault, Combined, NamedBy, Split.SharedBy, BindsGlobally;
    assert DeclaredIn(split.chunks, LOCAL, n) && !DeclaredIn(split.chunks, HIDDEN, n);
    BindsByName(split.chunks[0], n);
    split.PartitionExports(n);
    split.ChunksExport(n);
  }

  // ----- Names that meet these conditions

  lemma WorkIsUsual()
    ensures Usual("work")
  {
    assert "work"[0] == 'w' && PRIVATE_PREFIX[0] == 'c' && ".L"[0] == '.';
    assert 'w' !in FirstMark() && 'w' !in SecondMark();
  }

  lemma SinIsRouted()
    ensures "sin" in PUBLIC_MATH_CALLS && Unmarked("sin")
  {
    assert PUBLIC_R_TO_T[6] == "sin";
    assert "sin"[1] == 'i' && 'i' !in FirstMark() && 'i' !in SecondMark();
  }

  lemma VersionedNameIsUnseen()
    ensures Nameable("n@v") && !AllSymbol("n@v") && '"' !in "n@v" && KeepsName("n@v", Routing())
  {
    hide Routing;
    assert "n@v"[1] == '@' && !IsSymbolChar('@');
    assert "n@v" == "n" + ['@'] + "v";
    RewriteSplit("", "n", '@', "v", Routing());
    RewriteWord("n", Routing());
    RewriteWord("v", Routing());
    assert PRIVATE_PREFIX[0] == 'c';
    RoutingKeeps("n");
    RoutingKeeps("v");
  }
}
