/**
 * What a line, a chunk and a written object declare, define and mention, before
 * and after routing.
 */
module AssemblyLink {
  import opened Sequences
  import opened Wrappers
  import opened AssemblyText
  import opened AssemblyPartition

  // ----- One line

  /** The directives that this model reads. */
  ghost predicate IsDirective(d: string) {
    d in [".globl", ".global", ".weak", ".local", ".hidden", ".set", ".equ", ".comm", ".lcomm"]
  }

  /** Directives on whose lines routing does rewrite. */
  ghost predicate IsRouted(d: string) {
    d in [".weak", ".set", ".equ", ".comm", ".lcomm"]
  }

  ghost predicate Directives(ds: seq<string>) { forall d :: d in ds ==> IsDirective(d) }

  /** No declaration on this line names a symbol that routing would rename. */
  ghost predicate RoutesInert(line: Line, f: string -> string) {
    forall d :: IsRouted(d) && DirectiveName(line, d).Some? ==> KeepsName(DirectiveName(line, d).value, f)
  }

  ghost predicate KeepsName(name: string, f: string -> string) { Rewrite("", name, f) == name }

  lemma DirectivesAreDotted(d: string)
    requires IsDirective(d)
    ensures Dotted(d)
  {
  }

  lemma OpeningIsUnique(t: string, d: string, e: string)
    requires AllSymbol(d) && AllSymbol(e) && OpensWith(t, d) && OpensWith(t, e)
    ensures d == e
  {
    assert forall i :: 0 <= i < |d| ==> t[i] == d[i];
    assert forall i :: 0 <= i < |e| ==> t[i] == e[i];
  }

  lemma DirectiveLineIsNoLabel(line: Line, d: string)
    requires Dotted(d) && OpensWith(TrimStart(line), d)
    ensures Label(line).None?
  {
    var k := Span(line, IsWhite);
    var t := line[k..];
    var blank := k + |d|;
    assert t[|d|] == line[blank];
    assert t[0] == d[0] == line[k];
    assert blank < |line| - 1 ==> line[..|line| - 1][blank] == line[blank];
  }

  lemma RoutedDirective(line: Line, d: string, f: string -> string)
    requires WordMap(f) && IsDirective(d) && RoutesInert(line, f)
    ensures DirectiveName(RouteLine(line, f), d) == DirectiveName(line, d)
  {
    hide Rewrite, TrimStart, FirstName, WordMap;
    DirectivesAreDotted(d);
    if !Protected(line) {
      RewriteDirective(line, d, f);
      if DirectiveName(line, d).Some? {
        assert OpensWith(TrimStart(line), d);
        assert StartsWith(TrimStart(line), d);
        assert IsRouted(d);
        assert KeepsName(DirectiveName(line, d).value, f);
      }
    }
  }

  lemma {:induction false} RoutedDirectives(line: Line, ds: seq<string>, f: string -> string)
    requires WordMap(f) && Directives(ds) && RoutesInert(line, f)
    ensures DirectiveSymbol(RouteLine(line, f), ds) == DirectiveSymbol(line, ds)
  {
    hide DirectiveName, RouteLine, WordMap, RoutesInert;
    if ds != [] {
      RoutedDirective(line, ds[0], f);
      RoutedDirectives(line, ds[1..], f);
    }
  }

  lemma RoutedLabel(line: Line, f: string -> string)
    requires WordMap(f)
    ensures Label(RouteLine(line, f)) == Label(line)
  {
    assert MapsWord(f, "");
    if EndsInColon(line) {
      assert EndsInColon(TrimStart(line));
    } else if line != "" {
      RewriteLastChar("", line, f);
    }
  }

  /** A symbol proper: not an assembler-local label, and made of symbol characters. */
  predicate Proper(n: string) { n != "" && AllSymbol(n) && !StartsWith(n, ".L") }

  /** A directive line mentions the proper symbol it names. */
  lemma DirectiveMentions(line: Line, d: string)
    requires DirectiveName(line, d).Some? && Proper(DirectiveName(line, d).value)
    ensures DirectiveName(line, d).value in Tokens(line)
  {
    hide Words, TrimStart, FirstName;
    var n := DirectiveName(line, d).value;
    var t := TrimStart(line);
    TrimKeepsWords(line, n);
    TrimKeepsWords(t[|d|..], n);
    WordFirst(TrimStart(t[|d|..]), n);
    OpeningKeepsWords(t, d, n);
  }

  lemma OpeningKeepsWords(t: string, d: string, n: string)
    requires OpensWith(t, d)
    ensures n in Words("", t[|d|..]) ==> n == "" || n in Words("", t)
  {
    var c, b := t[|d|], t[|d| + 1..];
    assert t == t[..|d|] + [c] + b;
    WordsSplit("", t[..|d|], c, b);
    assert t[|d|..] == "" + [c] + b;
    WordsSplit("", "", c, b);
  }

  lemma WordFirst(argument: string, n: string)
    requires AllSymbol(n) && n == FirstName(argument)
    ensures n in Words("", argument)
  {
    if |n| == |argument| {
      assert argument == n;
      assert n + "" == n && "" + n == n;
      WordsAbsorb("", n, "");
    } else {
      var c, b := argument[|n|], argument[|n| + 1..];
      assert argument == n + [c] + b;
      WordsSplit("", n, c, b);
      assert n + "" == n && "" + n == n;
      WordsAbsorb("", n, "");
    }
  }

  lemma {:induction false} TrimKeepsWords(s: string, n: string)
    ensures n in Words("", TrimStart(s)) ==> n in Words("", s)
  {
    if s != "" && IsWhite(s[0]) {
      TrimKeepsWords(s[1..], n);
    }
  }

  lemma {:induction false} SymbolOfDirective(line: Line, ds: seq<string>) returns (d: string)
    requires DirectiveSymbol(line, ds).Some?
    ensures d in ds && DirectiveName(line, d) == DirectiveSymbol(line, ds)
  {
    hide DirectiveName;
    if DirectiveName(line, ds[0]).Some? {
      d := ds[0];
    } else {
      d := SymbolOfDirective(line, ds[1..]);
    }
  }

  lemma FileMentions(lines: seq<Line>, ds: seq<string>, n: string)
    requires n in NamedBy(lines, ds) && Proper(n)
    ensures n in TokensOf(lines)
  {
    hide DirectiveName, DirectiveSymbol, Tokens, Proper;
    var l :| l in lines && DirectiveSymbol(l, ds).Some? && DirectiveSymbol(l, ds).value == n;
    var d := SymbolOfDirective(l, ds);
    DirectiveMentions(l, d);
  }

  // ----- One object

  /** A name that stands alone as a directive's argument. */
  predicate Nameable(n: string) { n != "" && forall i :: 0 <= i < |n| ==> !EndsName(n[i]) }

  lemma DefinedNamesAreNameable(lines: seq<Line>, n: string)
    requires n in DefinedIn(lines)
    ensures Nameable(n)
  {
    hide DirectiveSymbol;
    var l :| l in lines && n in LineDefines(l);
    if Label(l) != Some(n) {
      var d := SymbolOfDirective(l, DEFINING);
      var argument := TrimStart(TrimStart(l)[|d|..]);
      assert n == FirstName(argument);
      var stop := c => !EndsName(c);
      assert forall i :: 0 <= i < Span(argument, stop) ==> stop(argument[i]);
    }
  }

  function DirectiveLine(d: string, n: string, operands: string): Line { "\t" + d + "\t" + n + operands }

  /** A directive line names its first operand. */
  lemma DirectiveLineNames(d: string, n: string, operands: string)
    requires Dotted(d) && Nameable(n) && (operands == "" || operands[0] == ',')
    ensures var line := DirectiveLine(d, n, operands);
            OpensWith(TrimStart(line), d) && DirectiveName(line, d) == Some(n)
  {
    hide TrimStart, FirstName;
    var argument := n + operands;
    var t := d + ("\t" + argument);
    assert DirectiveLine(d, n, operands) == "\t" + t && t[0] == d[0] == '.' && argument[0] == n[0];
    TrimTab(t);
    assert t[|d|..] == "\t" + argument && t[|d|] == '\t';
    TrimTab(argument);
    FirstOperand(n, operands);
  }

  lemma TrimTab(rest: string)
    requires rest != "" && !IsWhite(rest[0])
    ensures TrimStart("\t" + rest) == rest
  {
    SpanIs("\t" + rest, IsWhite, 1);
  }

  lemma FirstOperand(n: string, operands: string)
    requires Nameable(n) && (operands == "" || operands[0] == ',')
    ensures FirstName(n + operands) == n
  {
    var argument := n + operands;
    var stop := c => !EndsName(c);
    SpanIs(argument, stop, |n|);
    assert argument[..|n|] == n;
  }

  lemma PromotionLine(d: string, n: string)
    requires Dotted(d) && Nameable(n)
    ensures var line := "\t" + d + "\t" + n;
            OpensWith(TrimStart(line), d) && DirectiveName(line, d) == Some(n)
  {
    hide OpensWith, TrimStart, FirstName;
    assert "\t" + d + "\t" + n == DirectiveLine(d, n, "");
    DirectiveLineNames(d, n, "");
  }

  /** A line that opens with one directive is silent for every other. */
  lemma {:induction false} OtherDirectivesSilent(line: Line, d: string, ds: seq<string>)
    requires AllSymbol(d) && OpensWith(TrimStart(line), d)
    requires Directives(ds) && d !in ds
    ensures DirectiveSymbol(line, ds) == None
  {
    hide TrimStart, OpensWith;
    if ds != [] {
      DirectivesAreDotted(ds[0]);
      if OpensWith(TrimStart(line), ds[0]) {
        OpeningIsUnique(TrimStart(line), d, ds[0]);
      }
      OtherDirectivesSilent(line, d, ds[1..]);
    }
  }

  lemma {:induction false} OwnDirectiveSpeaks(line: Line, d: string, ds: seq<string>, n: string)
    requires Directives(ds) && d in ds && OpensWith(TrimStart(line), d) && DirectiveName(line, d) == Some(n)
    ensures DirectiveSymbol(line, ds) == Some(n)
  {
    hide TrimStart, OpensWith;
    if ds[0] != d {
      DirectivesAreDotted(ds[0]);
      DirectivesAreDotted(d);
      if OpensWith(TrimStart(line), ds[0]) {
        OpeningIsUnique(TrimStart(line), d, ds[0]);
      }
      OwnDirectiveSpeaks(line, d, ds[1..], n);
    }
  }

  lemma NamedByCons(first: Line, rest: seq<Line>, ds: seq<string>)
    ensures NamedBy([first] + rest, ds) == AsSet(DirectiveSymbol(first, ds)) + NamedBy(rest, ds)
    ensures DefinedIn([first] + rest) == LineDefines(first) + DefinedIn(rest)
  {
    hide DirectiveSymbol, LineDefines;
    var lines := [first] + rest;
    assert first in lines;
    assert forall l :: l in rest ==> l in lines;
    assert forall l :: l in lines ==> l == first || l in rest;
  }

  ghost predicate Inert(lines: seq<Line>, f: string -> string) { forall l :: l in lines ==> RoutesInert(l, f) }

  /** A line that routing leaves alone in its declarations says what it said. */
  lemma InertLine(line: Line, f: string -> string, ds: seq<string>)
    requires WordMap(f) && RoutesInert(line, f) && Directives(ds)
    ensures LineDefines(RouteLine(line, f)) == LineDefines(line)
    ensures DirectiveSymbol(RouteLine(line, f), ds) == DirectiveSymbol(line, ds)
  {
    hide RouteLine, DirectiveSymbol, Label, WordMap, RoutesInert;
    RoutedDirectives(line, ds, f);
    RoutedDirectives(line, DEFINING, f);
    RoutedLabel(line, f);
  }

  /** A dropped line names a shared symbol local, and says nothing else, routed or not. */
  lemma DroppedLine(line: Line, shared: set<string>, f: string -> string, ds: seq<string>)
    requires Dropped(line, shared) && Directives(ds)
    ensures RouteLine(line, f) == line && LineDefines(line) == {}
    ensures ".local" !in ds ==> DirectiveSymbol(line, ds) == None
  {
    DroppedIsLocal(line, shared);
    assert StartsWith(TrimStart(line), ".local");
    hide DirectiveSymbol, Label, Rewrite, TrimStart;
    DirectiveLineIsNoLabel(line, ".local");
    OtherDirectivesSilent(line, ".local", DEFINING);
    if ".local" !in ds {
      OtherDirectivesSilent(line, ".local", ds);
    }
  }

  /** Routing touches no `.local` line and makes none. */
  lemma RoutedLocal(line: Line, f: string -> string)
    requires WordMap(f)
    ensures DirectiveSymbol(RouteLine(line, f), LOCAL) == DirectiveSymbol(line, LOCAL)
  {
    hide Rewrite, TrimStart, FirstName, WordMap;
    SingleDirective(line, ".local");
    SingleDirective(RouteLine(line, f), ".local");
    if !Protected(line) {
      assert Dotted(".local");
      RewriteDirective(line, ".local", f);
      assert OpensWith(TrimStart(line), ".local") ==> StartsWith(TrimStart(line), ".local");
    }
  }

  lemma SingleDirective(line: Line, d: string)
    ensures DirectiveSymbol(line, [d]) == DirectiveName(line, d)
  {
  }

  /** The lines as they are routed. */
  function Routed(lines: seq<Line>, f: string -> string): seq<Line> {
    if lines == [] then [] else [RouteLine(lines[0], f)] + Routed(lines[1..], f)
  }

  lemma DroppedIsLocal(line: Line, shared: set<string>)
    requires Dropped(line, shared)
    ensures Dotted(".local") && OpensWith(TrimStart(line), ".local")
  {
    hide DirectiveSymbol;
    var d := SymbolOfDirective(line, LOCAL);
  }

  /** The kept lines declare and define what all routed lines do, but for the `.local` of shared symbols. */
  lemma {:induction false} KeptNames(lines: seq<Line>, shared: set<string>, f: string -> string, ds: seq<string>)
    requires WordMap(f) && Directives(ds)
    ensures ".local" !in ds ==> NamedBy(Kept(lines, shared, f), ds) == NamedBy(Routed(lines, f), ds)
    ensures ds == LOCAL ==> NamedBy(Kept(lines, shared, f), ds) == NamedBy(lines, ds) - shared
    ensures DefinedIn(Kept(lines, shared, f)) == DefinedIn(Routed(lines, f))
  {
    hide RouteLine, DirectiveSymbol, LineDefines, NamedBy, DefinedIn, WordMap;
    if lines == [] {
      NoLines(ds);
    } else {
      var first, rest := lines[0], lines[1..];
      assert lines == [first] + rest;
      RoutedLocal(first, f);
      KeptNames(rest, shared, f, ds);
      NamedByCons(first, rest, ds);
      NamedByCons(RouteLine(first, f), Routed(rest, f), ds);
      NamedByCons(RouteLine(first, f), Kept(rest, shared, f), ds);
      if Dropped(first, shared) {
        DroppedLine(first, shared, f, ds);
        assert Kept(lines, shared, f) == Kept(rest, shared, f);
        LocalIsDropped(first, shared, ds);
      } else {
        assert Kept(lines, shared, f) == [RouteLine(first, f)] + Kept(rest, shared, f);
        LocalIsKept(first, shared, ds);
      }
    }
  }

  lemma LocalIsKept(line: Line, shared: set<string>, ds: seq<string>)
    requires !Dropped(line, shared)
    ensures ds == LOCAL ==> AsSet(DirectiveSymbol(line, ds)) !! shared
  {
  }

  lemma {:induction false} InertLines(lines: seq<Line>, f: string -> string, ds: seq<string>)
    requires WordMap(f) && Inert(lines, f) && Directives(ds)
    ensures NamedBy(Routed(lines, f), ds) == NamedBy(lines, ds) && DefinedIn(Routed(lines, f)) == DefinedIn(lines)
  {
    hide RouteLine, DirectiveSymbol, LineDefines, NamedBy, DefinedIn, WordMap, RoutesInert;
    if lines != [] {
      var first, rest := lines[0], lines[1..];
      assert lines == [first] + rest;
      assert RoutesInert(first, f);
      InertLine(first, f, ds);
      InertLines(rest, f, ds);
      NamedByCons(first, rest, ds);
      NamedByCons(RouteLine(first, f), Routed(rest, f), ds);
    }
  }

  lemma LocalIsDropped(line: Line, shared: set<string>, ds: seq<string>)
    requires Dropped(line, shared)
    ensures ds == LOCAL ==> AsSet(DirectiveSymbol(line, ds)) <= shared
  {
  }

  lemma NoLines(ds: seq<string>)
    ensures NamedBy([], ds) == {}
    ensures DefinedIn([]) == {}
  {
  }

  /** A promotion declares its symbol global and hidden, and nothing else. */
  lemma PromotionFacts(n: string, ds: seq<string>)
    requires Nameable(n) && Directives(ds)
    ensures DirectiveSymbol(Globl(n), ds) == if ".globl" in ds then Some(n) else None
    ensures DirectiveSymbol(Hide(n), ds) == if ".hidden" in ds then Some(n) else None
    ensures LineDefines(Globl(n)) == LineDefines(Hide(n)) == {}
  {
    hide DirectiveSymbol, DirectiveName, Label, TrimStart, OpensWith;
    DirectivesAreDotted(".globl");
    DirectivesAreDotted(".hidden");
    PromotionLine(".globl", n);
    PromotionLine(".hidden", n);
    DirectiveLineIsNoLabel(Globl(n), ".globl");
    DirectiveLineIsNoLabel(Hide(n), ".hidden");
    OtherDirectivesSilent(Globl(n), ".globl", DEFINING);
    OtherDirectivesSilent(Hide(n), ".hidden", DEFINING);
    if ".globl" in ds {
      OwnDirectiveSpeaks(Globl(n), ".globl", ds, n);
    } else {
      OtherDirectivesSilent(Globl(n), ".globl", ds);
    }
    if ".hidden" in ds {
      OwnDirectiveSpeaks(Hide(n), ".hidden", ds, n);
    } else {
      OtherDirectivesSilent(Hide(n), ".hidden", ds);
    }
  }

  lemma {:induction false} PromotionsFacts(order: seq<string>, ds: seq<string>)
    requires Directives(ds) && forall n :: n in order ==> Nameable(n)
    ensures NamedBy(Promotions(order), ds) == if ".globl" in ds || ".hidden" in ds then Elements(order) else {}
    ensures DefinedIn(Promotions(order)) == {}
  {
    hide DirectiveSymbol, LineDefines, NamedBy, DefinedIn, Globl, Hide;
    NoLines(ds);
    if order != [] {
      var rest, n := order[..|order| - 1], order[|order| - 1];
      assert order == rest + [n];
      PromotionsFacts(rest, ds);
      PromotionFacts(n, ds);
      var two := [Globl(n), Hide(n)];
      NamedByConcat(Promotions(rest), two, ds);
      DefinedInConcat(Promotions(rest), two);
      assert two == [Globl(n)] + [Hide(n)] && [Hide(n)] == [Hide(n)] + [];
      NamedByCons(Globl(n), [Hide(n)], ds);
      NamedByCons(Hide(n), [], ds);
      assert Elements(order) == Elements(rest) + {n};
    }
  }

  lemma SectionOpens(d: string, rest: string)
    requires Dotted(d)
    ensures OpensWith(TrimStart(d + " " + rest), d)
  {
    SpanIs(d + " " + rest, IsWhite, 0);
  }

  lemma TrailerFacts(ds: seq<string>)
    requires Directives(ds)
    ensures NamedBy(TRAILER, ds) == {} && DefinedIn(TRAILER) == {}
  {
    hide OpensWith, TrimStart, NamedBy, DefinedIn;
    var d := ".section";
    SectionOpens(d, ".note.GNU-stack,\"\",@progbits");
    assert TRAILER == [""] + [STACK_NOTE];
    EmptyThenSilent(STACK_NOTE, d, ds);
  }

  lemma EmptyThenSilent(note: Line, d: string, ds: seq<string>)
    requires Directives(ds) && Dotted(d) && !IsDirective(d) && OpensWith(TrimStart(note), d)
    ensures NamedBy([""] + [note], ds) == {} && DefinedIn([""] + [note]) == {}
  {
    hide DirectiveSymbol, Label, NamedBy, DefinedIn, OpensWith, TrimStart;
    DirectiveLineIsNoLabel(note, d);
    OtherDirectivesSilent(note, d, ds);
    OtherDirectivesSilent(note, d, DEFINING);
    EmptyLineSilent(ds);
    EmptyLineSilent(DEFINING);
    NoLines(ds);
    assert [note] == [note] + [];
    NamedByCons("", [note], ds);
    NamedByCons(note, [], ds);
  }

  lemma {:induction false} EmptyLineSilent(ds: seq<string>)
    ensures DirectiveSymbol("", ds) == None && Label("") == None
  {
    if ds != [] {
      EmptyLineSilent(ds[1..]);
    }
  }

  /** A header that declares and defines no symbol, as one that holds only comments does. */
  ghost predicate Silent(header: seq<Line>) {
    DefinedIn(header) == {} && forall ds :: Directives(ds) ==> NamedBy(header, ds) == {}
  }

  /**
   * What an object declares and defines: what its header and the routed lines
   * of its chunk do, and a hidden global for each shared symbol in the place of
   * its `.local`.
   */
  lemma ObjectFacts(header: seq<Line>, lines: seq<Line>, order: seq<string>, f: string -> string, ds: seq<string>)
    requires WordMap(f) && Directives(ds) && forall n :: n in order ==> Nameable(n)
    ensures var shared, file := Elements(order), Object(header, lines, order, f);
            && DefinedIn(file) == DefinedIn(header) + DefinedIn(Routed(lines, f))
            && (ds == LOCAL ==> NamedBy(file, ds) == NamedBy(header, ds) + (NamedBy(lines, ds) - shared))
            && var promoted := if ".globl" in ds || ".hidden" in ds then shared else {};
               (".local" !in ds ==> NamedBy(file, ds) == NamedBy(header, ds) + NamedBy(Routed(lines, f), ds) + promoted)
  {
    hide DirectiveSymbol, LineDefines, NamedBy, DefinedIn, Kept, Promotions, Routed;
    var shared := Elements(order);
    var kept, promoted := Kept(lines, shared, f), Promotions(order);
    KeptNames(lines, shared, f, ds);
    PromotionsFacts(order, ds);
    TrailerFacts(ds);
    NamedByConcat(header, kept, ds);
    DefinedInConcat(header, kept);
    NamedByConcat(header + kept, promoted, ds);
    DefinedInConcat(header + kept, promoted);
    NamedByConcat(header + kept + promoted, TRAILER, ds);
    DefinedInConcat(header + kept + promoted, TRAILER);
  }

  // ----- What an object mentions

  lemma TokensOfConcat(a: seq<Line>, b: seq<Line>)
    ensures TokensOf(a + b) == TokensOf(a) + TokensOf(b)
  {
    hide Tokens;
    assert forall l :: l in a + b <==> l in a || l in b;
  }

  /** A line of the chunk that the object keeps mentions `n` once it is routed. */
  ghost predicate KeptMentions(lines: seq<Line>, shared: set<string>, f: string -> string, n: string) {
    exists l :: l in lines && !Dropped(l, shared) && n in RoutedTokens(l, f)
  }

  lemma {:induction false} KeptTokens(lines: seq<Line>, shared: set<string>, f: string -> string, n: string)
    requires WordMap(f)
    ensures n in TokensOf(Kept(lines, shared, f)) <==> KeptMentions(lines, shared, f, n)
  {
    hide Tokens, TokensOf, RoutedTokens, RouteLine, Dropped, WordMap;
    if lines == [] {
      NothingMentioned();
    } else {
      var first, rest := lines[0], lines[1..];
      assert lines == [first] + rest;
      KeptTokens(rest, shared, f, n);
      TokensOfRouted(first, f);
      TokensOfCons(RouteLine(first, f), Kept(rest, shared, f));
      if Dropped(first, shared) {
        assert Kept(lines, shared, f) == Kept(rest, shared, f);
      } else {
        assert Kept(lines, shared, f) == [RouteLine(first, f)] + Kept(rest, shared, f);
        assert n in RoutedTokens(first, f) ==> KeptMentions(lines, shared, f, n);
      }
      assert KeptMentions(rest, shared, f, n) ==> KeptMentions(lines, shared, f, n);
    }
  }

  /** The promotion of a shared symbol mentions `n`. */
  ghost predicate PromotionMentions(shared: set<string>, n: string) {
    exists s :: s in shared && n in Tokens(Globl(s)) + Tokens(Hide(s))
  }

  lemma {:induction false} PromotionTokens(order: seq<string>, n: string)
    ensures n in TokensOf(Promotions(order)) <==> PromotionMentions(Elements(order), n)
  {
    hide Tokens, TokensOf, Globl, Hide;
    if order == [] {
      NothingMentioned();
    } else {
      var k := |order| - 1;
      var s := order[k];
      PromotionTokens(order[..k], n);
      TokensOfConcat(Promotions(order[..k]), [Globl(s), Hide(s)]);
      TwoLines(Globl(s), Hide(s));
      assert order == order[..k] + [s];
      assert Elements(order) == Elements(order[..k]) + {s};
    }
  }

  lemma TwoLines(a: Line, b: Line)
    ensures TokensOf([a, b]) == Tokens(a) + Tokens(b)
  {
    hide Tokens, TokensOf;
    assert [a, b] == [a] + [b] && [b] == [b] + [];
    TokensOfCons(a, [b]);
    TokensOfCons(b, []);
    NothingMentioned();
  }

  /** An object without the stack note that every object ends in. */
  function BeforeTrailer(file: seq<Line>): seq<Line> {
    if |TRAILER| <= |file| then file[..|file| - |TRAILER|] else file
  }

  /** Everything an object mentions: its header, the routed lines it keeps, and its promotions. */
  lemma ObjectTokens(header: seq<Line>, lines: seq<Line>, order: seq<string>, f: string -> string, n: string)
    requires WordMap(f)
    ensures n in TokensOf(BeforeTrailer(Object(header, lines, order, f))) <==>
              || n in TokensOf(header)
              || KeptMentions(lines, Elements(order), f, n) || PromotionMentions(Elements(order), n)
  {
    hide TokensOf, KeptMentions, PromotionMentions, WordMap, Kept, Promotions;
    var kept, promoted := Kept(lines, Elements(order), f), Promotions(order);
    assert BeforeTrailer(Object(header, lines, order, f)) == header + kept + promoted;
    KeptTokens(lines, Elements(order), f, n);
    PromotionTokens(order, n);
    TokensOfConcat(header, kept);
    TokensOfConcat(header + kept, promoted);
  }

  // ----- Why the header is silent and declarations are inert

  /** A header that defines a symbol defines it in every object. */
  lemma HeaderDefinesEverywhere(header: seq<Line>, lines: seq<Line>, order: seq<string>, f: string -> string)
    ensures DefinedIn(header) <= DefinedIn(Object(header, lines, order, f))
  {
    hide LineDefines;
    assert forall l :: l in header ==> l in Object(header, lines, order, f);
  }

  function SetLine(name: string, value: string): Line { DirectiveLine(".set", name, "," + value) }

  /** A `.set` of a private copy becomes, once routed, a definition of the public function. */
  lemma RoutedSetDefinesPublicName(name: string, value: string, f: string -> string)
    requires WordMap(f) && Proper(name) && f(name) != name && value != "" && value[|value| - 1] != ':'
    ensures var line := SetLine(name, value);
            LineDefines(line) == {name} && LineDefines(RouteLine(line, f)) == {f(name)} && !RoutesInert(line, f)
  {
    hide DirectiveSymbol, TrimStart, OpensWith, Rewrite, WordMap, Label, Protected;
    var line, d := SetLine(name, value), ".set";
    ProperIsNameable(name);
    DirectiveLineNames(d, name, "," + value);
    SetIsUnprotected(name, value);
    RewriteWord(name, f);
    RewriteDirective(line, d, f);
    RewriteTrimmed(line, f);
    RewriteOpening(TrimStart(line), d, f);
    OwnDirectiveSpeaks(line, d, DEFINING, name);
    DirectiveLineIsNoLabel(line, d);
    OwnDirectiveSpeaks(RouteLine(line, f), d, DEFINING, f(name));
    DirectiveLineIsNoLabel(RouteLine(line, f), d);
    assert IsRouted(d) && DirectiveName(line, d) == Some(name);
  }

  lemma ProperIsNameable(n: string)
    requires Proper(n)
    ensures Nameable(n)
  {
    assert forall c :: IsSymbolChar(c) ==> !EndsName(c);
  }

  lemma SetIsUnprotected(name: string, value: string)
    requires Proper(name) && value != "" && value[|value| - 1] != ':'
    ensures !Protected(SetLine(name, value))
  {
    var line := SetLine(name, value);
    assert line[0] == '\t' && line[1] == '.';
    SpanIs(line, IsWhite, 1);
    var t := TrimStart(line);
    assert t == line[1..] && t[1] == 's' && t[2] == 'e';
    assert t[|t| - 1] == value[|value| - 1];
  }
}
