/**
 * What the partitioner reads from a text and what it writes, character by
 * character: words as longest runs, directives and labels by position, private
 * copies by their spelling, lines by their breaks, and objects line by line.
 */
module AssemblyReading {
  import opened Sequences
  import opened Wrappers
  import opened AssemblyText
  import opened AssemblyPartition
  import opened AssemblySemantics
  import opened AssemblyEquivalence

  // ----- Characters

  lemma SymbolCharacters(c: char)
    ensures IsSymbolChar(c) <==>
            var n := c as int; n in {36, 46, 95} || 48 <= n <= 57 || 65 <= n <= 90 || 97 <= n <= 122
  {
    assert '$' as int == 36 && '.' as int == 46 && '_' as int == 95;
    assert '0' as int == 48 && '9' as int == 57 && 'A' as int == 65 && 'Z' as int == 90;
    assert 'a' as int == 97 && 'z' as int == 122;
  }

  lemma WhiteCharacters(c: char)
    ensures IsWhite(c) <==>
            c as int in {9, 10, 11, 12, 13, 32, 133, 160, 5760, 8192, 8193, 8194, 8195, 8196, 8197, 8198, 8199, 8200,
                         8201, 8202, 8232, 8233, 8239, 8287, 12288}
  {
  }

  // ----- Words

  /** `s[i..j]` is a longest run of symbol characters. */
  ghost predicate IsRun(s: string, i: nat, j: nat) {
    && i < j <= |s| && AllSymbol(s[i..j])
    && (i == 0 || !IsSymbolChar(s[i - 1]))
    && (j == |s| || !IsSymbolChar(s[j]))
  }

  ghost predicate HasRun(s: string, w: string) {
    exists i: nat, j: nat :: IsRun(s, i, j) && s[i..j] == w
  }

  lemma {:induction false} WordsAreRuns(token: string, s: string, w: string)
    requires AllSymbol(token)
    ensures (w in Words(token, s) && w != "") <==> HasRun(token + s, w)
    decreases |s|
  {
    if s == "" {
      assert token + s == token;
      OneRun(token, w);
    } else if IsSymbolChar(s[0]) {
      WordsAreRuns(token + [s[0]], s[1..], w);
      assert token + [s[0]] + s[1..] == token + s;
    } else {
      WordsAreRuns("", s[1..], w);
      assert "" + s[1..] == s[1..];
      assert token + s == token + [s[0]] + s[1..];
      RunsSplit(token, s[0], s[1..], w);
      OneRun(token, w);
    }
  }

  lemma OneRun(token: string, w: string)
    requires AllSymbol(token)
    ensures HasRun(token, w) <==> w == token && w != ""
  {
    if w == token && w != "" {
      assert token[0..|token|] == token;
      assert IsRun(token, 0, |token|);
    }
    if HasRun(token, w) {
      var i: nat, j: nat :| IsRun(token, i, j) && token[i..j] == w;
      assert i == 0 && j == |token|;
    }
  }

  lemma RunsSplit(a: string, c: char, b: string, w: string)
    requires !IsSymbolChar(c)
    ensures HasRun(a + [c] + b, w) <==> HasRun(a, w) || HasRun(b, w)
  {
    hide AllSymbol, IsSymbolChar;
    var s := a + [c] + b;
    if i: nat, j: nat :| IsRun(a, i, j) && a[i..j] == w {
      assert s[i..j] == w;
      assert IsRun(s, i, j);
    }
    if i: nat, j: nat :| IsRun(b, i, j) && b[i..j] == w {
      var k := |a| + 1;
      assert s[k + i..k + j] == w;
      assert IsRun(s, k + i, k + j);
    }
    if i: nat, j: nat :| IsRun(s, i, j) && s[i..j] == w {
      RunOnOneSide(a, c, b, i, j);
    }
  }

  lemma RunOnOneSide(a: string, c: char, b: string, i: nat, j: nat)
    requires !IsSymbolChar(c) && IsRun(a + [c] + b, i, j)
    ensures HasRun(a, (a + [c] + b)[i..j]) || HasRun(b, (a + [c] + b)[i..j])
  {
    var s, k := a + [c] + b, |a| + 1;
    forall x | i <= x < j
      ensures IsSymbolChar(s[x])
    {
      assert s[x] == s[i..j][x - i];
    }
    assert s[|a|] == c;
    if j <= |a| {
      assert a[i..j] == s[i..j];
      assert IsRun(a, i, j);
    } else {
      assert k <= i;
      Shifted(a + [c], b, i, j);
      assert b[i - k..j - k] == s[i..j];
      assert i > k ==> b[i - k - 1] == s[i - 1];
      assert j < |s| ==> b[j - k] == s[j];
      assert IsRun(b, i - k, j - k);
    }
  }

  lemma Shifted(a: string, b: string, i: nat, j: nat)
    requires |a| <= i <= j <= |a + b|
    ensures (a + b)[i..j] == b[i - |a|..j - |a|]
  {
    var x, y := (a + b)[i..j], b[i - |a|..j - |a|];
    assert forall k :: 0 <= k < j - i ==> x[k] == y[k];
  }

  /** A text mentions exactly its longest runs of symbol characters, but for assembler-local labels. */
  lemma TokensAreRuns(s: string, n: string)
    ensures n in Tokens(s) <==> HasRun(s, n) && !(".L" <= n)
  {
    WordsAreRuns("", s, n);
    assert "" + s == s;
  }

  // ----- Directives and labels

  ghost predicate AllWhite(s: string) { forall k :: 0 <= k < |s| ==> IsWhite(s[k]) }

  /** A name up to a comma or white space. */
  ghost predicate NameEnds(n: string, tail: string) {
    && n != "" && (forall k :: 0 <= k < |n| ==> n[k] != ',' && !IsWhite(n[k]))
    && (tail == "" || tail[0] == ',' || IsWhite(tail[0]))
  }

  /** The line reads: white space, `d`, white space that starts with a blank or a tab, and the name `n`. */
  ghost predicate Reads(line: Line, d: string, n: string, indent: string, gap: string, tail: string) {
    && line == indent + (d + (gap + (n + tail)))
    && AllWhite(indent) && AllWhite(gap) && gap != "" && (gap[0] == ' ' || gap[0] == '\t') && NameEnds(n, tail)
  }

  lemma DirectiveIsRead(line: Line, d: string, n: string)
    requires d != "" && !IsWhite(d[0])
    ensures DirectiveName(line, d) == Some(n) <==> exists indent, gap, tail :: Reads(line, d, n, indent, gap, tail)
  {
    hide TrimStart, FirstName;
    if DirectiveName(line, d) == Some(n) {
      ReadName(line, d, n);
    }
    if indent, gap, tail :| Reads(line, d, n, indent, gap, tail) {
      NameIsRead(d, n, indent, gap, tail);
    }
  }

  lemma TrimIs(indent: string, rest: string)
    requires AllWhite(indent) && (rest == "" || !IsWhite(rest[0]))
    ensures TrimStart(indent + rest) == rest
  {
    SpanIs(indent + rest, IsWhite, |indent|);
  }

  lemma Trimmed(s: string) returns (indent: string)
    ensures s == indent + TrimStart(s) && AllWhite(indent)
  {
    indent := s[..Span(s, IsWhite)];
  }

  lemma FirstNameIs(n: string, tail: string)
    requires NameEnds(n, tail)
    ensures FirstName(n + tail) == n
  {
    SpanIs(n + tail, c => !EndsName(c), |n|);
  }

  lemma FirstNameEnds(argument: string) returns (tail: string)
    requires FirstName(argument) != ""
    ensures argument == FirstName(argument) + tail && NameEnds(FirstName(argument), tail)
  {
    var stop := c => !EndsName(c);
    var k := Span(argument, stop);
    assert forall x :: 0 <= x < k ==> stop(argument[x]);
    tail := argument[k..];
  }

  lemma ReadName(line: Line, d: string, n: string)
    requires DirectiveName(line, d) == Some(n)
    ensures exists indent, gap, tail :: Reads(line, d, n, indent, gap, tail)
  {
    hide TrimStart, FirstName, NameEnds;
    var t := TrimStart(line);
    var indent := Trimmed(line);
    assert t == d + t[|d|..];
    var rest := t[|d|..];
    var gap := Trimmed(rest);
    var tail := FirstNameEnds(TrimStart(rest));
    assert rest[0] == t[|d|];
    assert gap != "" by {
      FirstIsBlank(rest);
    }
    assert Reads(line, d, n, indent, gap, tail);
  }

  lemma FirstIsBlank(rest: string)
    requires rest != "" && (rest[0] == ' ' || rest[0] == '\t')
    ensures |TrimStart(rest)| < |rest|
  {
    assert IsWhite(' ') && IsWhite('\t');
  }

  lemma NameIsRead(d: string, n: string, indent: string, gap: string, tail: string)
    requires d != "" && !IsWhite(d[0]) && Reads(indent + (d + (gap + (n + tail))), d, n, indent, gap, tail)
    ensures DirectiveName(indent + (d + (gap + (n + tail))), d) == Some(n)
  {
    hide TrimStart, FirstName;
    var argument := n + tail;
    var rest := gap + argument;
    var t := d + rest;
    assert argument[0] == n[0] && t[0] == d[0];
    TrimIs(indent, t);
    assert t[..|d|] == d && t[|d|] == gap[0] && t[|d|..] == rest;
    TrimIs(gap, argument);
    FirstNameIs(n, tail);
  }

  lemma LabelIsRead(line: Line, n: string)
    ensures Label(line) == Some(n) <==> line == n + ":" && n != "" && !(".L" <= n) && AllSymbol(n)
  {
    if EndsInColon(line) {
      assert line == line[..|line| - 1] + ":";
    }
    if line == n + ":" {
      assert line[..|line| - 1] == n;
    }
  }

  // ----- Lines

  /** A text's lines: up to each line break, less one carriage return before it, and what follows the last break. */
  lemma LinesAreRead(l: string, s: string)
    requires '\n' !in l
    ensures Lines("", l + "\n" + s)
         == [if l != "" && l[|l| - 1] == '\r' then l[..|l| - 1] else l] + Lines("", s)
    ensures Lines("", l) == if l == "" then [] else [l]
  {
    hide StripReturn;
    LineIsRead("", l, s);
    LastLine("", l);
    assert "" + l == l;
    assert StripReturn(l) == if l != "" && l[|l| - 1] == '\r' then l[..|l| - 1] else l by {
      ReturnIsStripped(l);
    }
  }

  lemma ReturnIsStripped(l: string)
    ensures StripReturn(l) == if l != "" && l[|l| - 1] == '\r' then l[..|l| - 1] else l
  {
    if l != "" {
      assert l[|l| - 1..] == [l[|l| - 1]];
      assert "\r" == ['\r'];
    }
  }

  lemma {:induction false} LastLine(current: string, l: string)
    requires '\n' !in l
    ensures Lines(current, l) == if current + l == "" then [] else [current + l]
    decreases |l|
  {
    if l == "" {
      assert current + l == current;
    } else {
      assert current + [l[0]] + l[1..] == current + l;
      LastLine(current + [l[0]], l[1..]);
    }
  }

  /** The line without the carriage return it may end in. */
  function Returned(l: string): string { if l != "" && l[|l| - 1] == '\r' then l[..|l| - 1] else l }

  function AllReturned(lines: seq<string>): seq<string> {
    seq(|lines|, i requires 0 <= i < |lines| => Returned(lines[i]))
  }

  lemma {:induction false} LinesOfUnlines(lines: seq<string>, last: string)
    requires (forall l :: l in lines ==> '\n' !in l) && '\n' !in last
    ensures Lines("", Unlines(lines) + last) == AllReturned(lines) + if last == "" then [] else [last]
  {
    if lines == [] {
      assert Unlines(lines) + last == last;
      LinesAreRead(last, "");
      assert AllReturned(lines) == [];
    } else {
      assert lines[0] in lines;
      assert Unlines(lines) + last == lines[0] + "\n" + (Unlines(lines[1..]) + last);
      LinesAreRead(lines[0], Unlines(lines[1..]) + last);
      LinesOfUnlines(lines[1..], last);
      assert AllReturned(lines) == [Returned(lines[0])] + AllReturned(lines[1..]);
    }
  }

  lemma {:induction false} NothingToRemove(s: string, note: string)
    requires '\n' !in s
    ensures RemoveAll(s, note + "\n") == s
  {
    if s != "" {
      var pattern := note + "\n";
      assert pattern[|note|] == '\n';
      assert |note| < |s| ==> s[|note|] != pattern[|note|];
      NothingToRemove(s[1..], note);
    }
  }

  lemma {:induction false} NotesGoBefore(lines: seq<string>, last: string, note: string)
    requires '\n' !in note && (forall l :: l in lines ==> '\n' !in l) && '\n' !in last
    ensures RemoveAll(Unlines(lines) + last, note + "\n") == StrippedText(lines, note) + last
  {
    hide RemoveAll, Stripped;
    if lines == [] {
      assert Unlines(lines) + last == last;
      NothingToRemove(last, note);
    } else {
      assert lines[0] in lines;
      assert Unlines(lines) + last == lines[0] + "\n" + (Unlines(lines[1..]) + last);
      RemoveFromLine(lines[0], Unlines(lines[1..]) + last, note);
      NotesGoBefore(lines[1..], last, note);
    }
  }

  /**
   * A piece, whatever its last line, is read as its lines without its stack
   * notes, when each of these stands alone on its line; a line loses one
   * carriage return before its break.
   */
  lemma ChunkIsRead(lines: seq<string>, last: string)
    requires (forall l :: l in lines ==> '\n' !in l) && '\n' !in last
    requires NotesStandAlone(lines, ".section" + " " + ".note.GNU-stack,\"\",@progbits")
    ensures Bodies([Unlines(lines) + last])
         == [AllReturned(Without(lines, ".section" + " " + ".note.GNU-stack,\"\",@progbits"))
             + if last == "" then [] else [last]]
  {
    hide NotesStandAlone, Lines, RemoveAll, StrippedText;
    NoteHasNoBreak();
    NotesGoBefore(lines, last, STACK_NOTE);
    StrippedLength(lines, STACK_NOTE);
    WithoutIsPart(lines, STACK_NOTE);
    LinesOfUnlines(Without(lines, STACK_NOTE), last);
  }

  /** The stack note. */
  function Note(): string { ".section" + " " + ".note.GNU-stack,\"\",@progbits" }

  /** The lines of a piece, `current` being read: a line that ends in the stack note goes on in the next line. */
  function Continued(current: string, lines: seq<string>, last: string): seq<string>
    decreases |lines|
  {
    if lines == [] then (if current + last == "" then [] else [current + last])
    else
      var l := lines[0];
      if |Note()| <= |l| && l[|l| - |Note()|..] == Note() then
        Continued(current + l[..|l| - |Note()|], lines[1..], last)
      else [Returned(current + l)] + Continued("", lines[1..], last)
  }

  ghost predicate Unbroken(s: string) { '\n' !in s }

  lemma {:induction false} StrippedIsContinued(current: string, lines: seq<string>, last: string)
    requires Unbroken(current) && (forall l :: l in lines ==> Unbroken(l)) && Unbroken(last)
    ensures Lines("", current + StrippedText(lines, Note()) + last) == Continued(current, lines, last)
    decreases |lines|
  {
    hide Lines, Note, Returned, EndsWith, StrippedText, Continued, Unbroken;
    if lines == [] {
      LastIsContinued(current, last);
    } else {
      var l, rest := lines[0], StrippedText(lines[1..], Note());
      assert l in lines && forall m :: m in lines[1..] ==> m in lines;
      StrippedStep(lines);
      ContinuedStep(current, lines, last);
      if EndsWith(l, Note()) {
        var front := NoteIsDropped(current, l, rest, last);
        StrippedIsContinued(current + front, lines[1..], last);
      } else {
        LineIsCompleted(current, l, rest, last);
        StrippedIsContinued("", lines[1..], last);
      }
    }
  }

  lemma LastIsContinued(current: string, last: string)
    requires Unbroken(current) && Unbroken(last)
    ensures Lines("", current + StrippedText([], Note()) + last) == Continued(current, [], last)
  {
    hide Lines, Note;
    assert current + StrippedText([], Note()) + last == current + last;
    LinesAreRead(current + last, "");
  }

  lemma StrippedStep(lines: seq<string>)
    requires lines != []
    ensures StrippedText(lines, Note())
         == (if EndsWith(lines[0], Note()) then lines[0][..|lines[0]| - |Note()|] else lines[0] + "\n")
            + StrippedText(lines[1..], Note())
  {
    hide Note;
  }

  lemma NoteIsDropped(current: string, l: string, rest: string, last: string) returns (front: string)
    requires EndsWith(l, Note()) && Unbroken(current) && Unbroken(l)
    ensures |Note()| <= |l| && front == l[..|l| - |Note()|] && Unbroken(current + front)
    ensures current + (front + rest) + last == current + front + rest + last
  {
    hide Note;
    front := l[..|l| - |Note()|];
    assert current + (front + rest) + last == current + front + rest + last;
  }

  lemma LineIsCompleted(current: string, l: string, rest: string, last: string)
    requires Unbroken(current) && Unbroken(l)
    ensures Lines("", current + (l + "\n" + rest) + last) == [Returned(current + l)] + Lines("", "" + rest + last)
    ensures Unbroken("")
  {
    hide Lines;
    assert current + (l + "\n" + rest) + last == (current + l) + "\n" + ("" + rest + last);
    LinesAreRead(current + l, "" + rest + last);
  }

  lemma ContinuedStep(current: string, lines: seq<string>, last: string)
    requires lines != []
    ensures Continued(current, lines, last)
         == if EndsWith(lines[0], Note()) then
              Continued(current + lines[0][..|lines[0]| - |Note()|], lines[1..], last)
            else [Returned(current + lines[0])] + Continued("", lines[1..], last)
  {
    hide Note, Returned;
  }

  /**
   * Every piece, whatever stands before its stack notes: each note goes with
   * its line break, and nothing else does.
   */
  lemma PieceIsRead(lines: seq<string>, last: string)
    requires (forall l :: l in lines ==> '\n' !in l) && '\n' !in last
    ensures Bodies([Unlines(lines) + last])
         == [Lines("", StrippedText(lines, ".section" + " " + ".note.GNU-stack,\"\",@progbits") + last)]
    ensures Bodies([Unlines(lines) + last]) == [Continued("", lines, last)]
  {
    hide Lines, RemoveAll, StrippedText, Continued;
    NoteHasNoBreak();
    assert STACK_NOTE == Note() == ".section" + " " + ".note.GNU-stack,\"\",@progbits";
    NotesGoBefore(lines, last, STACK_NOTE);
    StrippedIsContinued("", lines, last);
    assert "" + StrippedText(lines, Note()) + last == StrippedText(lines, Note()) + last;
  }

  /** Every text is lines and a last line. */
  lemma {:induction false} EveryPieceHasLines(piece: string) returns (lines: seq<string>, last: string)
    ensures piece == Unlines(lines) + last
    ensures (forall l :: l in lines ==> '\n' !in l) && '\n' !in last
  {
    if piece == "" {
      lines, last := [], "";
    } else {
      lines, last := EveryPieceHasLines(piece[1..]);
      if piece[0] == '\n' {
        assert Unlines([""] + lines) == "" + "\n" + Unlines(lines);
        lines := [""] + lines;
      } else if lines == [] {
        last := [piece[0]] + last;
      } else {
        var longer := [[piece[0]] + lines[0]] + lines[1..];
        assert lines[0] in lines && forall l :: l in lines[1..] ==> l in lines;
        assert Unlines(longer) == [piece[0]] + lines[0] + "\n" + Unlines(lines[1..]);
        lines := longer;
      }
    }
  }

  /** A piece that ends in an indented stack note keeps its other lines, and the indentation as a line. */
  lemma IndentedNoteIsRead(lines: seq<string>, indent: string)
    requires (forall l :: l in lines ==> '\n' !in l && !EndsWith(l, Note())) && '\n' !in indent
    ensures Bodies([Unlines(lines + [indent + (".section" + " " + ".note.GNU-stack,\"\",@progbits")])])
         == [AllReturned(lines) + if indent == "" then [] else [indent]]
  {
    hide Lines, RemoveAll, Unlines, Continued, EndsWith;
    var all := lines + [indent + Note()];
    NoteHasNoBreak();
    assert STACK_NOTE == Note();
    PieceIsRead(all, "");
    assert Unlines(all) + "" == Unlines(all);
    IndentedNoteIsContinued(lines, indent);
  }

  lemma {:induction false} IndentedNoteIsContinued(lines: seq<string>, indent: string)
    requires forall l :: l in lines ==> !EndsWith(l, Note())
    ensures Continued("", lines + [indent + Note()], "") == AllReturned(lines) + if indent == "" then [] else [indent]
  {
    hide Note, Returned, EndsWith, Continued;
    var all := lines + [indent + Note()];
    ContinuedStep("", all, "");
    if lines == [] {
      assert all[0] == indent + Note() && all[1..] == [];
      LastNote(indent);
      assert AllReturned(lines) == [];
    } else {
      assert lines[0] in lines && forall l :: l in lines[1..] ==> l in lines;
      assert all[0] == lines[0] && all[1..] == lines[1..] + [indent + Note()];
      assert "" + lines[0] == lines[0];
      IndentedNoteIsContinued(lines[1..], indent);
      assert AllReturned(lines) == [Returned(lines[0])] + AllReturned(lines[1..]);
    }
  }

  lemma LastNote(indent: string)
    ensures var l := indent + Note();
            && EndsWith(l, Note()) && l[..|l| - |Note()|] == indent
            && Continued("" + indent, [], "") == if indent == "" then [] else [indent]
  {
    hide Note;
    assert "" + indent + "" == indent;
  }

  lemma {:induction false} WithoutIsPart(lines: seq<string>, note: string)
    ensures forall l :: l in Without(lines, note) <==> l in lines && l != note
  {
    if lines != [] {
      WithoutIsPart(lines[1..], note);
      assert lines == [lines[0]] + lines[1..];
    }
  }

  // ----- Routing

  /** `w` is the generators' private copy of `n`. */
  ghost predicate IsPrivateCopy(w: string, head: string, n: string) {
    w == "crabc_x86_" + head + "_elementary_" + n || w == "crabc_x86_" + head + "_provider_" + n
  }

  /** A word is routed to the public name that it is a private copy of, and else left alone. */
  lemma RoutedWord(w: string, public: PublicNames)
    ensures forall n, head :: n in public && IsPrivateCopy(w, head, n) ==> Router(public)(w) == n
    ensures (forall n, head :: n in public ==> !IsPrivateCopy(w, head, n)) ==> Router(public)(w) == w
  {
    hide FindPublic;
    forall n, head | n in public && IsPrivateCopy(w, head, n)
      ensures Router(public)(w) == n
    {
      CopyIsFound(w, head, n);
      PublicIsUnique(w[10..], public, n);
    }
    if Public(w, public).Some? {
      var n := Public(w, public).value;
      FoundIsCopy(w, n);
    }
  }

  lemma CopyIsFound(w: string, head: string, n: string)
    requires IsPrivateCopy(w, head, n)
    ensures PRIVATE_PREFIX <= w && |PRIVATE_PREFIX| == 10 && IsCopyOf(w[10..], n)
  {
    var kind := if w == "crabc_x86_" + head + "_elementary_" + n then "_elementary_" else "_provider_";
    var rest := w[10..];
    assert rest == head + kind + n;
    assert rest[..|rest| - |n|] == head + kind && rest[|rest| - |n|..] == n;
    assert (head + kind)[|head|..] == kind;
  }

  lemma FoundIsCopy(w: string, n: string)
    requires PRIVATE_PREFIX <= w && IsCopyOf(w[|PRIVATE_PREFIX|..], n)
    ensures exists head :: IsPrivateCopy(w, head, n)
  {
    var rest := w[|PRIVATE_PREFIX|..];
    var front := rest[..|rest| - |n|];
    var kind := if EndsWith(front, ELEMENTARY) then ELEMENTARY else PROVIDER;
    var head := front[..|front| - |kind|];
    FrontAndBack(front, kind);
    FrontAndBack(rest, n);
    hide IsCopyOf, EndsWith, IsPrivateCopy;
    assert w == PRIVATE_PREFIX + rest;
    Spelled(w, rest, front, kind, head, n);
    assert IsPrivateCopy(w, head, n);
  }

  lemma FrontAndBack(s: string, suffix: string)
    requires EndsWith(s, suffix)
    ensures s == s[..|s| - |suffix|] + suffix
  {
  }

  lemma Spelled(w: string, rest: string, front: string, kind: string, head: string, n: string)
    requires w == PRIVATE_PREFIX + rest && rest == front + n && front == head + kind && kind in [ELEMENTARY, PROVIDER]
    ensures IsPrivateCopy(w, head, n)
  {
    assert w == PRIVATE_PREFIX + head + kind + n;
    assert PRIVATE_PREFIX == "crabc_x86_" && ELEMENTARY == "_elementary_" && PROVIDER == "_provider_";
  }

  /** Which lines routing leaves alone: those that open with one of six directives, and those that end in a colon. */
  lemma GuardedLine(indent: string, rest: string, f: string -> string)
    requires (forall k :: 0 <= k < |indent| ==> IsWhite(indent[k])) && (rest == "" || !IsWhite(rest[0]))
    ensures RouteLine(indent + rest, f)
         == if || ".type" <= rest || ".size" <= rest || ".globl" <= rest || ".global" <= rest || ".hidden" <= rest
               || ".local" <= rest || (rest != "" && rest[|rest| - 1] == ':')
            then indent + rest else Rewrite("", indent + rest, f)
  {
    hide Rewrite;
    SpanIs(indent + rest, IsWhite, |indent|);
    assert TrimStart(indent + rest) == rest;
  }

  // ----- Objects

  /** Chunk by chunk an object keeps every line, routed, but the `.local` of a shared symbol. */
  lemma KeptLine(l: Line, shared: set<string>, f: string -> string)
    ensures Kept([l], shared, f)
         == if exists n :: n in shared && DirectiveName(l, ".local") == Some(n) then [] else [RouteLine(l, f)]
  {
    hide RouteLine, DirectiveName;
    assert DirectiveSymbol(l, [".local"]) == DirectiveName(l, ".local");
  }

  lemma {:induction false} KeptLines(a: seq<Line>, b: seq<Line>, shared: set<string>, f: string -> string)
    ensures Kept(a + b, shared, f) == Kept(a, shared, f) + Kept(b, shared, f)
  {
    hide RouteLine, Dropped;
    if a == [] {
      assert a + b == b;
    } else {
      assert (a + b)[1..] == a[1..] + b;
      KeptLines(a[1..], b, shared, f);
    }
  }

  lemma {:induction false} PromotionsAre(order: seq<string>, k: nat)
    requires k < |order|
    ensures |Promotions(order)| == 2 * |order|
    ensures Promotions(order)[2 * k] == "\t.globl\t" + order[k]
            && Promotions(order)[2 * k + 1] == "\t.hidden\t" + order[k]
  {
    var front := order[..|order| - 1];
    assert Promotions([]) == [];
    if front != [] {
      PromotionsAre(front, if k < |front| then k else 0);
    }
    assert Globl(order[k]) == "\t.globl\t" + order[k] && Hide(order[k]) == "\t.hidden\t" + order[k];
  }

  /**
   * A written object, line by line: the header, the kept lines of its chunk,
   * two lines for each symbol in some order, and the stack note. The symbols
   * are those the chunk defines, no chunk declares global or weak, and another
   * chunk mentions.
   */
  lemma ObjectIsWritten(split: Split, i: nat)
    requires split.Written() && i < |split.chunks|
    ensures i < |split.objects| && i < |split.orders|
    ensures split.objects[i] == split.header + Kept(split.chunks[i], Elements(split.orders[i]), split.f)
                                + Promotions(split.orders[i])
                                + ["", ".section" + " " + ".note.GNU-stack,\"\",@progbits"]
    ensures Distinct(split.orders[i]) && forall n :: n in Elements(split.orders[i]) <==> IsShared(split.chunks, i, n)
  {
    hide Kept, Promotions, WordMap, Distinct, Elements;
    assert Enumerates(split.orders[i], split.SharedBy(i));
    forall n
      ensures n in split.SharedBy(i) <==> IsShared(split.chunks, i, n)
    {
      SharedIs(split.chunks, split.symbols, i, n);
    }
  }

  /** `split` is what the partitioner makes of a text. */
  ghost predicate TranslatesTo(text: string, split: Split) {
    && split.f == Router(PUBLIC_MATH_CALLS) && split.Written() && AllAscending(split.orders)
    && exists header, pieces ::
         && IsCut(text, "/* musl-1.2.6/", header, pieces)
         && split.header == Lines("", header) && split.chunks == Bodies(pieces)
  }

  /** A text determines every line of every object. */
  lemma ObjectsAreDetermined(text: string, a: Split, b: Split)
    requires TranslatesTo(text, a) && TranslatesTo(text, b)
    ensures a.objects == b.objects
  {
    hide Lines, Bodies, IsCut, IsShared, Kept, Promotions, Elements, Distinct, Ascending, Router;
    var headerA, piecesA :| IsCut(text, "/* musl-1.2.6/", headerA, piecesA)
                            && a.header == Lines("", headerA) && a.chunks == Bodies(piecesA);
    var headerB, piecesB :| IsCut(text, "/* musl-1.2.6/", headerB, piecesB)
                            && b.header == Lines("", headerB) && b.chunks == Bodies(piecesB);
    CutIsUnique(text, "/* musl-1.2.6/", headerA, piecesA, headerB, piecesB);
    hide SplitInto;
    WrittenLengths(a);
    WrittenLengths(b);
    forall i | 0 <= i < |a.objects|
      ensures a.objects[i] == b.objects[i]
    {
      ObjectIsWritten(a, i);
      ObjectIsWritten(b, i);
      assert Elements(a.orders[i]) == Elements(b.orders[i]);
      OrderIsUnique(a.orders[i], b.orders[i]);
    }
  }

  lemma WrittenLengths(split: Split)
    requires split.Written()
    ensures |split.objects| == |split.orders| == |split.chunks|
  {
  }

  ghost predicate IsShared(chunks: seq<seq<Line>>, i: nat, n: string)
    requires i < |chunks|
  {
    && Defines(chunks[i], n) && (forall j :: 0 <= j < |chunks| ==> !DeclaresGlobal(chunks[j], n))
    && !(".L" <= n) && exists j, l :: 0 <= j < |chunks| && j != i && l in chunks[j] && HasRun(l, n)
  }

  lemma SharedIs(chunks: seq<seq<Line>>, symbols: Symbols, i: nat, n: string)
    requires Describes(symbols, chunks) && i < |chunks|
    ensures n in Shared(chunks, symbols, i) <==> IsShared(chunks, i, n)
  {
    hide DefinedIn, NamedBy, Tokens, HasRun, Defines, DeclaresGlobal, DeclaresLocal, DeclaresHidden, DeclaresCommon;
    FilesAreRead();
    forall l
      ensures n in Tokens(l) <==> HasRun(l, n) && !(".L" <= n)
    {
      TokensAreRuns(l, n);
    }
  }

  /** The public functions that routing knows, in order. */
  lemma PublicFunctions(n: string)
    ensures n in PUBLIC_MATH_CALLS <==>
            || n in ["atan", "atan2", "atan2f", "atanf", "copysign", "copysignf", "copysignl", "cos", "cosf", "cosh"]
            || n in ["coshf", "exp", "exp2", "exp2f", "expf", "expm1", "expm1f", "fabs", "fabsf", "floor", "floorf"]
            || n in ["hypot", "hypotf", "hypotl", "log", "log1p", "log1pf", "logf", "modf", "modff", "pow", "powl"]
            || n in ["rint", "rintf", "round", "roundf", "roundl", "scalbn", "sin", "sinf", "sinh", "sinhf", "sinl"]
            || n in ["sqrt", "sqrtf", "tan", "tanf"]
  {
    assert n in PUBLIC_MATH_CALLS <==>
           n in PUBLIC_A_TO_C || n in PUBLIC_E_TO_F || n in PUBLIC_H_TO_P || n in PUBLIC_R_TO_T;
  }
}
