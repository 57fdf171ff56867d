/**
 * The partition of one combined musl translation into its source objects:
 * cutting at the source markers, collecting defined and exported symbols,
 * choosing the symbols that other objects share, and emitting each object.
 */
module AssemblyPartition {
  import opened Sequences
  import opened Wrappers
  import opened AssemblyText

  // ----- Cutting the text

  predicate OccursAt(text: string, i: nat, pattern: string) {
    i + |pattern| <= |text| && text[i..i + |pattern|] == pattern
  }

  /** A source marker counts only at the start of a line. */
  predicate MarkerAt(text: string, i: nat, marker: string) {
    OccursAt(text, i, marker) && (i == 0 || text[i - 1] == '\n')
  }

  /** `starts` lists every marker position below `limit`, in increasing order. */
  ghost predicate ListsMarkers(text: string, marker: string, starts: seq<nat>, limit: nat) {
    && (forall k :: 0 <= k < |starts| ==> starts[k] < limit && MarkerAt(text, starts[k], marker))
    && (forall j, k :: 0 <= j < k < |starts| ==> starts[j] < starts[k])
    && (forall i: nat :: i < limit && MarkerAt(text, i, marker) ==> i in starts)
  }

  /** One marker, at the start. */
  ghost predicate OneMarker(piece: string, marker: string) {
    marker <= piece && forall i: nat :: 0 < i ==> !MarkerAt(piece, i, marker)
  }

  /** A marker seen inside a slice is a marker of the whole text. */
  lemma MarkerOfSlice(text: string, a: nat, b: nat, i: nat, marker: string)
    requires a <= b <= |text| && (a == 0 || 0 < i)
    ensures MarkerAt(text[a..b], i, marker) ==> MarkerAt(text, a + i, marker)
  {
    var piece := text[a..b];
    if MarkerAt(piece, i, marker) {
      var here, there := piece[i..i + |marker|], text[a + i..a + i + |marker|];
      assert forall j :: 0 <= j < |marker| ==> here[j] == there[j];
      assert 0 < i ==> piece[i - 1] == text[a + i - 1];
    }
  }

  /** No line starts strictly inside an occurrence of the marker. */
  lemma NoLineInsideMarker(text: string, i: nat, marker: string, j: nat)
    requires '\n' !in marker && OccursAt(text, i, marker)
    requires i < j < i + |marker|
    ensures text[j - 1] != '\n' && !MarkerAt(text, j, marker)
  {
    assert text[j - 1] == text[i..i + |marker|][j - 1 - i];
  }

  /**
   * Marker positions by a scan that, like a non-overlapping substring search,
   * resumes after each occurrence. Skipping an occurrence loses no marker,
   * because a marker holds no line break.
   */
  method FindMarkers(text: string, marker: string) returns (starts: seq<nat>)
    requires marker != "" && '\n' !in marker
    ensures ListsMarkers(text, marker, starts, |text|)
  {
    starts := [];
    var i := 0;
    while i + |marker| <= |text|
      invariant i <= |text|
      invariant ListsMarkers(text, marker, starts, i)
    {
      if OccursAt(text, i, marker) {
        if MarkerAt(text, i, marker) {
          starts := starts + [i];
        }
        forall j: nat | i < j < i + |marker| {
          NoLineInsideMarker(text, i, marker, j);
        }
        i := i + |marker|;
      } else {
        i := i + 1;
      }
    }
  }

  function Concat(parts: seq<string>): string {
    if parts == [] then "" else parts[0] + Concat(parts[1..])
  }

  lemma {:induction false} ConcatSnoc(parts: seq<string>, last: string)
    ensures Concat(parts + [last]) == Concat(parts) + last
  {
    if parts != [] {
      assert (parts + [last])[1..] == parts[1..] + [last];
      ConcatSnoc(parts[1..], last);
    }
  }

  predicate EndsLine(s: string) { s != "" && s[|s| - 1] == '\n' }

  /** Pieces that each hold one marker, at their start, and that follow each other at line starts. */
  ghost predicate ArePieces(pieces: seq<string>, marker: string) {
    && (forall k :: 0 <= k < |pieces| ==> OneMarker(pieces[k], marker))
    && forall k :: 0 <= k < |pieces| - 1 ==> EndsLine(pieces[k])
  }

  /** The text before the first marker, and one piece from each marker to the next. */
  ghost predicate IsCut(text: string, marker: string, header: string, pieces: seq<string>) {
    && header + Concat(pieces) == text
    && (forall i: nat :: !MarkerAt(header, i, marker))
    && (header == "" || EndsLine(header) || pieces == [])
    && ArePieces(pieces, marker)
  }

  /** A part that ends at a line start, or with the text, holds every marker that lies before its end. */
  lemma MarkerInsidePart(text: string, marker: string, a: nat, b: nat)
    requires marker != "" && '\n' !in marker && a < b <= |text| && MarkerAt(text, a, marker)
    requires b == |text| || text[b - 1] == '\n'
    ensures MarkerAt(text[..b], a, marker)
  {
    var there := text[a..a + |marker|];
    assert forall j {:trigger text[j]} :: a <= j < a + |marker| ==> text[j] == there[j - a];
    assert text[..b][a..a + |marker|] == text[a..a + |marker|];
  }

  lemma FirstPiece(pieces: seq<string>, marker: string)
    requires marker != "" && pieces != [] && OneMarker(pieces[0], marker)
    ensures OccursAt(Concat(pieces), 0, marker)
  {
    var rest := Concat(pieces[1..]);
    assert (pieces[0] + rest)[..|marker|] == pieces[0][..|marker|];
  }

  /** What follows a part that is cut off at a line start begins with a marker. */
  lemma MarkerAfterPart(part: string, pieces: seq<string>, marker: string)
    requires marker != "" && pieces != [] && ArePieces(pieces, marker) && (part == "" || EndsLine(part))
    ensures MarkerAt(part + Concat(pieces), |part|, marker)
  {
    FirstPiece(pieces, marker);
    var text, n := part + Concat(pieces), |part|;
    assert text[n..n + |marker|] == Concat(pieces)[0..|marker|];
  }

  lemma {:induction false} PiecesAreUnique(p: seq<string>, q: seq<string>, marker: string)
    requires marker != "" && '\n' !in marker
    requires ArePieces(p, marker) && ArePieces(q, marker) && Concat(p) == Concat(q)
    ensures p == q
  {
    if p != [] && q != [] {
      PartIsNotShorter(p[0], p[1..], q[0], q[1..], marker);
      PartIsNotShorter(q[0], q[1..], p[0], p[1..], marker);
      assert p[0] == Concat(p)[..|p[0]|] && q[0] == Concat(q)[..|q[0]|];
      assert Concat(p[1..]) == Concat(p)[|p[0]|..] && Concat(q[1..]) == Concat(q)[|q[0]|..];
      PiecesAreUnique(p[1..], q[1..], marker);
      assert p == [p[0]] + p[1..] && q == [q[0]] + q[1..];
    }
  }

  /** Of two ways to cut off a first part without later markers, none is shorter than the other. */
  lemma PartIsNotShorter(a: string, p: seq<string>, b: string, q: seq<string>, marker: string)
    requires marker != "" && '\n' !in marker && a + Concat(p) == b + Concat(q)
    requires ArePieces(p, marker) && (a == "" || EndsLine(a) || p == [])
    requires ArePieces(q, marker) && (b == "" || EndsLine(b) || q == [])
    requires forall i: nat :: (0 < i || a == "") ==> !MarkerAt(b, i, marker)
    ensures |b| <= |a|
  {
    var text := a + Concat(p);
    if |a| < |b| {
      assert p != [] by {
        assert p == [] ==> text == a;
      }
      MarkerAfterPart(a, p, marker);
      assert text[..|b|] == b;
      assert q == [] ==> text == b;
      MarkerInsidePart(text, marker, |a|, |b|);
    }
  }

  /** A text has one cut. */
  lemma CutIsUnique(text: string, marker: string, h: string, p: seq<string>, g: string, q: seq<string>)
    requires marker != "" && '\n' !in marker && IsCut(text, marker, h, p) && IsCut(text, marker, g, q)
    ensures h == g && p == q
  {
    PartIsNotShorter(h, p, g, q, marker);
    PartIsNotShorter(g, q, h, p, marker);
    assert h == text[..|h|] && g == text[..|g|];
    assert Concat(p) == text[|h|..] && Concat(q) == text[|g|..];
    PiecesAreUnique(p, q, marker);
  }

  function PieceEnd(text: string, starts: seq<nat>, k: nat): nat {
    if k < |starts| then starts[k] else |text|
  }

  lemma PieceFacts(text: string, marker: string, starts: seq<nat>, k: nat)
    requires marker != "" && '\n' !in marker && ListsMarkers(text, marker, starts, |text|) && k < |starts|
    ensures starts[k] + |marker| <= PieceEnd(text, starts, k + 1) <= |text|
    ensures OneMarker(text[starts[k]..PieceEnd(text, starts, k + 1)], marker)
    ensures k + 1 < |starts| ==> EndsLine(text[starts[k]..PieceEnd(text, starts, k + 1)])
  {
    PieceIsLong(text, marker, starts, k);
    PieceHasOneMarker(text, marker, starts, k);
  }

  lemma PieceIsLong(text: string, marker: string, starts: seq<nat>, k: nat)
    requires marker != "" && '\n' !in marker && ListsMarkers(text, marker, starts, |text|) && k < |starts|
    ensures starts[k] + |marker| <= PieceEnd(text, starts, k + 1) <= |text|
    ensures k + 1 < |starts| ==> EndsLine(text[starts[k]..PieceEnd(text, starts, k + 1)])
  {
    var start, end := starts[k], PieceEnd(text, starts, k + 1);
    forall j: nat | start < j < start + |marker| {
      NoLineInsideMarker(text, start, marker, j);
    }
    assert k + 1 < |starts| ==> MarkerAt(text, end, marker);
  }

  lemma PieceHasOneMarker(text: string, marker: string, starts: seq<nat>, k: nat)
    requires marker != "" && ListsMarkers(text, marker, starts, |text|) && k < |starts|
    requires starts[k] + |marker| <= PieceEnd(text, starts, k + 1) <= |text|
    ensures OneMarker(text[starts[k]..PieceEnd(text, starts, k + 1)], marker)
  {
    var start, end := starts[k], PieceEnd(text, starts, k + 1);
    assert text[start..end][..|marker|] == text[start..start + |marker|];
    assert forall j :: 0 <= j < |starts| ==> starts[j] <= start || end <= starts[j];
    forall i: nat | 0 < i {
      MarkerOfSlice(text, start, end, i, marker);
    }
  }

  lemma HeaderFacts(text: string, marker: string, starts: seq<nat>)
    requires marker != "" && '\n' !in marker && ListsMarkers(text, marker, starts, |text|)
    ensures PieceEnd(text, starts, 0) <= |text|
    ensures var header := text[..PieceEnd(text, starts, 0)];
            && (header == "" || EndsLine(header) || starts == [])
            && forall i: nat :: !MarkerAt(header, i, marker)
  {
    var header := text[..PieceEnd(text, starts, 0)];
    assert forall k :: 0 < k < |starts| ==> starts[0] < starts[k];
    forall i: nat
      ensures !MarkerAt(header, i, marker)
    {
      MarkerOfSlice(text, 0, |header|, i, marker);
    }
  }

  /** The cut of the text at the first of its markers. */
  ghost predicate CutSoFar(text: string, marker: string, starts: seq<nat>, header: string, pieces: seq<string>) {
    && |pieces| <= |starts| && PieceEnd(text, starts, |pieces|) <= |text|
    && header + Concat(pieces) == text[..PieceEnd(text, starts, |pieces|)]
    && (forall j :: 0 <= j < |pieces| ==> OneMarker(pieces[j], marker))
    && forall j :: 0 <= j < |pieces| && j + 1 < |starts| ==> EndsLine(pieces[j])
  }

  lemma NextPiece(text: string, marker: string, starts: seq<nat>, header: string, pieces: seq<string>)
    requires marker != "" && '\n' !in marker && ListsMarkers(text, marker, starts, |text|)
    requires CutSoFar(text, marker, starts, header, pieces) && |pieces| < |starts|
    ensures starts[|pieces|] <= PieceEnd(text, starts, |pieces| + 1) <= |text|
    ensures var piece := text[starts[|pieces|]..PieceEnd(text, starts, |pieces| + 1)];
            CutSoFar(text, marker, starts, header, pieces + [piece])
  {
    hide OneMarker, MarkerAt, ListsMarkers, EndsLine, Concat;
    var k := |pieces|;
    PieceFacts(text, marker, starts, k);
    var end := PieceEnd(text, starts, k + 1);
    var piece := text[starts[k]..end];
    ConcatSnoc(pieces, piece);
    JoinSlices(text, starts[k], end, header, Concat(pieces));
    forall j | 0 <= j < k + 1
      ensures OneMarker((pieces + [piece])[j], marker)
      ensures j + 1 < |starts| ==> EndsLine((pieces + [piece])[j])
    {
      assert j < k ==> (pieces + [piece])[j] == pieces[j];
    }
  }

  lemma JoinSlices(text: string, a: nat, b: nat, x: string, y: string)
    requires a <= b <= |text| && x + y == text[..a]
    ensures x + (y + text[a..b]) == text[..b]
  {
    assert x + (y + text[a..b]) == (x + y) + text[a..b];
  }

  /**
   * The cut of the text at its markers: the pieces are the text, nothing lost
   * and nothing twice, and each holds exactly one marker, at its start.
   */
  method CutAtMarkers(text: string, marker: string) returns (header: string, pieces: seq<string>)
    requires marker != "" && '\n' !in marker
    ensures IsCut(text, marker, header, pieces)
  {
    hide OneMarker, MarkerAt, ListsMarkers, EndsLine;
    var starts := FindMarkers(text, marker);
    header := text[..PieceEnd(text, starts, 0)];
    HeaderFacts(text, marker, starts);
    pieces := [];
    for k := 0 to |starts|
      invariant |pieces| == k && CutSoFar(text, marker, starts, header, pieces)
    {
      NextPiece(text, marker, starts, header, pieces);
      pieces := pieces + [text[starts[k]..PieceEnd(text, starts, k + 1)]];
    }
    assert text[..|text|] == text;
  }

  /** Every non-overlapping occurrence of `pattern`, leftmost first, is deleted. */
  function RemoveAll(s: string, pattern: string): string
    decreases |s|
  {
    if s == "" then ""
    else if pattern != "" && pattern <= s then RemoveAll(s[|pattern|..], pattern)
    else [s[0]] + RemoveAll(s[1..], pattern)
  }

  /** Lines, each with its line break. */
  function Unlines(lines: seq<string>): string {
    if lines == [] then "" else lines[0] + "\n" + Unlines(lines[1..])
  }

  /** A line with its line break, or what stands before the note that ends it. */
  function Stripped(line: string, note: string): string {
    if EndsWith(line, note) then line[..|line| - |note|] else line + "\n"
  }

  function StrippedText(lines: seq<string>, note: string): string {
    if lines == [] then "" else Stripped(lines[0], note) + StrippedText(lines[1..], note)
  }

  /**
   * Deleting a note together with its line break deletes it from the end of
   * every line that ends in it, so that the next line follows, and touches no
   * other line.
   */
  lemma {:induction false} NotesAreRemoved(lines: seq<string>, note: string)
    requires '\n' !in note && forall l :: l in lines ==> '\n' !in l
    ensures RemoveAll(Unlines(lines), note + "\n") == StrippedText(lines, note)
  {
    if lines != [] {
      NotesAreRemoved(lines[1..], note);
      RemoveFromLine(lines[0], Unlines(lines[1..]), note);
    }
  }

  function Without(lines: seq<string>, note: string): seq<string> {
    if lines == [] then []
    else (if lines[0] == note then [] else [lines[0]]) + Without(lines[1..], note)
  }

  predicate NotesStandAlone(lines: seq<string>, note: string) {
    forall l :: l in lines && EndsWith(l, note) ==> l == note
  }

  /** A text keeps exactly its other lines if and only if no line ends in the note after something else. */
  lemma {:induction false} NoteLinesAreRemoved(lines: seq<string>, note: string)
    requires '\n' !in note && forall l :: l in lines ==> '\n' !in l
    ensures (RemoveAll(Unlines(lines), note + "\n") == Unlines(Without(lines, note))) <==> NotesStandAlone(lines, note)
  {
    NotesAreRemoved(lines, note);
    StrippedLength(lines, note);
  }

  lemma {:induction false} StrippedLength(lines: seq<string>, note: string)
    ensures if NotesStandAlone(lines, note) then StrippedText(lines, note) == Unlines(Without(lines, note))
            else |StrippedText(lines, note)| < |Unlines(Without(lines, note))|
  {
    if lines != [] {
      StrippedLength(lines[1..], note);
      assert lines == [lines[0]] + lines[1..];
      assert NotesStandAlone(lines, note) <==>
             NotesStandAlone(lines[1..], note) && (EndsWith(lines[0], note) ==> lines[0] == note);
      var kept := Without(lines[1..], note);
      if lines[0] == note {
        assert Stripped(note, note) == "" && Without(lines, note) == kept;
      } else {
        assert ([lines[0]] + kept)[1..] == kept;
        assert Unlines(Without(lines, note)) == lines[0] + "\n" + Unlines(kept);
      }
    }
  }

  lemma NotePrefix(l: string, rest: string, note: string)
    requires '\n' !in note && '\n' !in l
    ensures note + "\n" <= l + "\n" + rest ==> l == note
  {
    var pattern, whole := note + "\n", l + "\n" + rest;
    if pattern <= whole {
      assert pattern[|note|] == whole[|note|] && whole[|l|] == '\n';
      assert forall i :: 0 <= i < |note| ==> pattern[i] == whole[i] == note[i];
      assert forall i :: 0 <= i < |l| ==> whole[i] == l[i];
    }
  }

  lemma EndsWithTail(l: string, note: string)
    requires l != "" && l != note
    ensures EndsWith(l[1..], note) <==> EndsWith(l, note)
  {
    if |note| < |l| {
      assert l[1..][|l| - 1 - |note|..] == l[|l| - |note|..];
    }
  }

  lemma StrippedEnds(note: string)
    ensures Stripped(note, note) == "" && (note != "" ==> Stripped("", note) == "\n")
  {
  }

  lemma StrippedTail(l: string, note: string)
    requires l != "" && l != note
    ensures Stripped(l, note) == [l[0]] + Stripped(l[1..], note)
  {
    EndsWithTail(l, note);
    hide EndsWith;
    if |note| < |l| {
      var k := |l| - |note|;
      assert l[..k] == [l[0]] + l[1..k] && l[1..][..k - 1] == l[1..k];
    }
  }

  /** Deletion works on the first line and on the rest apart. */
  lemma {:induction false} RemoveFromLine(l: string, rest: string, note: string)
    requires '\n' !in note && '\n' !in l
    ensures RemoveAll(l + "\n" + rest, note + "\n") == Stripped(l, note) + RemoveAll(rest, note + "\n")
    decreases |l|
  {
    hide EndsWith;
    var whole := l + "\n" + rest;
    NotePrefix(l, rest, note);
    StrippedEnds(note);
    if l == note {
      assert whole == (note + "\n") + rest && whole[|note + "\n"|..] == rest;
    } else if l == "" {
      assert whole[1..] == rest;
    } else {
      assert whole[1..] == l[1..] + "\n" + rest;
      StrippedTail(l, note);
      RemoveFromLine(l[1..], rest, note);
    }
  }

  function StripReturn(line: string): string {
    if EndsWith(line, "\r") then line[..|line| - 1] else line
  }

  /** Rust's `lines` of `current + s`, `current` being the part of the first line read already. */
  function Lines(current: string, s: string): seq<Line>
    decreases |s|
  {
    if s == "" then (if current == "" then [] else [current])
    else if s[0] == '\n' then [StripReturn(current)] + Lines("", s[1..])
    else Lines(current + [s[0]], s[1..])
  }

  lemma {:induction false} LineIsRead(current: string, l: string, s: string)
    requires '\n' !in l
    ensures Lines(current, l + "\n" + s) == [StripReturn(current + l)] + Lines("", s)
    decreases |l|
  {
    var whole := l + "\n" + s;
    if l == "" {
      assert whole[1..] == s && current + l == current;
    } else {
      assert whole[0] == l[0] && whole[1..] == l[1..] + "\n" + s;
      assert current + [l[0]] + l[1..] == current + l;
      LineIsRead(current + [l[0]], l[1..], s);
    }
  }

  /** Reading a body line by line mentions the same symbols as reading it whole. */
  lemma {:induction false} LinesMentionTheSameTokens(current: string, s: string)
    ensures TokensOf(Lines(current, s)) == Tokens(current + s)
    decreases |s|
  {
    hide Tokens, TokensOf, StripReturn;
    if s == "" {
      assert current + s == current;
      NothingMentioned();
      if current == "" {
        EmptyText();
      } else {
        assert [current] == [current] + [];
        TokensOfCons(current, []);
      }
    } else if s[0] == '\n' {
      LinesMentionTheSameTokens("", s[1..]);
      assert "" + s[1..] == s[1..];
      FirstLineTokens(current, s);
      TokensOfCons(StripReturn(current), Lines("", s[1..]));
    } else {
      LinesMentionTheSameTokens(current + [s[0]], s[1..]);
      assert current + s == current + [s[0]] + s[1..];
    }
  }

  lemma NothingMentioned()
    ensures TokensOf([]) == {}
  {
  }

  lemma EmptyText()
    ensures Tokens("") == {}
  {
  }

  lemma FirstLineTokens(current: string, s: string)
    requires s != "" && s[0] == '\n'
    ensures Tokens(current + s) == Tokens(StripReturn(current)) + Tokens(s[1..])
  {
    hide StripReturn;
    assert current + s == current + ['\n'] + s[1..];
    WordsSplit("", current, '\n', s[1..]);
    TokensOfStripped(current);
  }

  lemma TokensOfCons(first: Line, rest: seq<Line>)
    ensures TokensOf([first] + rest) == Tokens(first) + TokensOf(rest)
  {
    assert first in [first] + rest;
    assert forall l :: l in rest ==> l in [first] + rest;
    assert forall l :: l in [first] + rest ==> l == first || l in rest;
  }

  lemma TokensOfStripped(line: string)
    ensures Tokens(StripReturn(line)) == Tokens(line)
  {
    if EndsWith(line, "\r") {
      var body := line[..|line| - 1];
      assert line == body + ['\r'] + "";
      WordsSplit("", body, '\r', "");
    }
  }

  // ----- Collecting symbols

  const EXPORTING := [".globl", ".global", ".weak"]
  const DEFINING := [".set", ".equ", ".comm", ".lcomm"]

  function LineDefines(line: Line): set<string> {
    AsSet(Label(line)) + AsSet(DirectiveSymbol(line, DEFINING))
  }

  /** Symbols the lines name by one of the given directives. */
  function NamedBy(lines: seq<Line>, ds: seq<string>): set<string> {
    set l | l in lines && DirectiveSymbol(l, ds).Some? :: DirectiveSymbol(l, ds).value
  }

  function DefinedIn(lines: seq<Line>): set<string> {
    set l, n | l in lines && n in LineDefines(l) :: n
  }

  datatype Symbols = Symbols(defined: map<string, nat>, exported: set<string>)

  /** `owner` maps each defined name to the one chunk that defines it; `exported` is every declared global. */
  ghost predicate Describes(symbols: Symbols, chunks: seq<seq<Line>>) {
    && (forall n :: n in symbols.defined ==>
          symbols.defined[n] < |chunks| && n in DefinedIn(chunks[symbols.defined[n]]))
    && (forall i, n :: 0 <= i < |chunks| && n in DefinedIn(chunks[i]) ==>
        n in symbols.defined && symbols.defined[n] == i)
    && (forall i, n :: 0 <= i < |chunks| && n in NamedBy(chunks[i], EXPORTING) ==> n in symbols.exported)
    && (forall n :: n in symbols.exported ==> exists i :: 0 <= i < |chunks| && n in NamedBy(chunks[i], EXPORTING))
  }

  ghost predicate DefinedTwice(chunks: seq<seq<Line>>) {
    exists i, j, n :: 0 <= i < j < |chunks| && n in DefinedIn(chunks[i]) && n in DefinedIn(chunks[j])
  }

  function AsSeq(o: Option<string>): seq<string> {
    if o.Some? then [o.value] else []
  }

  function OwnedBy(names: set<string>, index: nat): map<string, nat> {
    map n | n in names :: index
  }

  lemma DefinedInConcat(a: seq<Line>, b: seq<Line>)
    ensures DefinedIn(a + b) == DefinedIn(a) + DefinedIn(b)
  {
    assert forall l :: l in a + b <==> l in a || l in b;
  }

  lemma NamedByConcat(a: seq<Line>, b: seq<Line>, ds: seq<string>)
    ensures NamedBy(a + b, ds) == NamedBy(a, ds) + NamedBy(b, ds)
  {
    assert forall l :: l in a + b <==> l in a || l in b;
  }

  lemma EmptyChunk()
    ensures DefinedIn([]) == {}
    ensures NamedBy([], EXPORTING) == {}
  {
  }

  lemma OneMoreLine(lines: seq<Line>, k: nat, ds: seq<string>)
    requires k < |lines|
    ensures DefinedIn(lines[..k + 1]) == DefinedIn(lines[..k]) + LineDefines(lines[k])
    ensures NamedBy(lines[..k + 1], ds) == NamedBy(lines[..k], ds) + AsSet(DirectiveSymbol(lines[k], ds))
  {
    var last := [lines[k]];
    assert lines[..k + 1] == lines[..k] + last;
    DefinedInConcat(lines[..k], last);
    NamedByConcat(lines[..k], last, ds);
    assert last[0] in last && forall l :: l in last ==> l == last[0];
  }

  lemma PartOfChunk(lines: seq<Line>, k: nat)
    requires k <= |lines|
    ensures DefinedIn(lines[..k]) <= DefinedIn(lines)
  {
    assert lines == lines[..k] + lines[k..];
    DefinedInConcat(lines[..k], lines[k..]);
  }

  /** Records what one line of chunk `index` defines, unless another chunk defined it before. */
  method InsertDefinitions(defined: map<string, nat>, line: Line, index: nat) returns (r: Option<map<string, nat>>)
    ensures r.Some? <==> forall n :: n in LineDefines(line) && n in defined ==> defined[n] == index
    ensures r.Some? ==> r.value == defined + OwnedBy(LineDefines(line), index)
  {
    hide LineDefines, Label, DirectiveSymbol;
    var names := AsSeq(Label(line)) + AsSeq(DirectiveSymbol(line, DEFINING));
    NamesOfLine(line);
    r := InsertNames(defined, names, index);
    if r.Some? {
      assert r.value == defined + OwnedBy(LineDefines(line), index);
    }
  }

  lemma NamesOfLine(line: Line)
    ensures Elements(AsSeq(Label(line)) + AsSeq(DirectiveSymbol(line, DEFINING))) == LineDefines(line)
  {
    hide Label, DirectiveSymbol;
  }

  lemma OwnOneMore(defined: map<string, nat>, names: set<string>, name: string, index: nat)
    ensures (defined + OwnedBy(names, index))[name := index] == defined + OwnedBy(names + {name}, index)
  {
  }

  method InsertNames(defined: map<string, nat>, names: seq<string>, index: nat) returns (r: Option<map<string, nat>>)
    ensures r.Some? <==> forall n :: n in Elements(names) && n in defined ==> defined[n] == index
    ensures r.Some? ==> r.value == defined + OwnedBy(Elements(names), index)
  {
    var result := defined;
    ghost var done: set<string> := {};
    assert result == defined + OwnedBy(done, index);
    for m := 0 to |names|
      invariant done == Elements(names[..m])
      invariant result == defined + OwnedBy(done, index)
      invariant forall n :: n in done && n in defined ==> defined[n] == index
    {
      var name := names[m];
      assert name in Elements(names);
      if name in result && result[name] != index {
        return None;
      }
      OwnOneMore(defined, done, name, index);
      assert names[..m + 1] == names[..m] + [name];
      done := done + {name};
      result := result[name := index];
    }
    assert names[..|names|] == names;
    r := Some(result);
  }

  /** Reads the lines of chunk `index`, whose symbols no earlier chunk may define. */
  method CollectChunk(before: Symbols, lines: seq<Line>, index: nat) returns (r: Option<Symbols>)
    requires forall n :: n in before.defined ==> before.defined[n] != index
    ensures r.Some? <==> DefinedIn(lines) !! before.defined.Keys
    ensures r.Some? ==> r.value == Symbols(before.defined + OwnedBy(DefinedIn(lines), index),
                                           before.exported + NamedBy(lines, EXPORTING))
  {
    hide LineDefines, DirectiveSymbol, DefinedIn, NamedBy;
    EmptyChunk();
    var defined, exported := before.defined, before.exported;
    assert lines[..0] == [];
    for k := 0 to |lines|
      invariant defined == before.defined + OwnedBy(DefinedIn(lines[..k]), index)
      invariant DefinedIn(lines[..k]) !! before.defined.Keys
      invariant exported == before.exported + NamedBy(lines[..k], EXPORTING)
    {
      OneMoreLine(lines, k, EXPORTING);
      exported := exported + AsSet(DirectiveSymbol(lines[k], EXPORTING));
      var inserted := InsertDefinitions(defined, lines[k], index);
      if inserted.None? {
        PartOfChunk(lines, k + 1);
        return None;
      }
      defined := inserted.value;
    }
    assert lines[..|lines|] == lines;
    r := Some(Symbols(defined, exported));
  }

  /** Reads every chunk; fails exactly when two chunks define one name. */
  method CollectSymbols(chunks: seq<seq<Line>>) returns (r: Result<Symbols>)
    ensures r.Ok? ==> Describes(r.value, chunks)
    ensures r.Ok? <==> !DefinedTwice(chunks)
  {
    hide DefinedIn, NamedBy, Describes;
    var symbols := Symbols(map[], {});
    NoSymbols();
    for i := 0 to |chunks|
      invariant Describes(symbols, chunks[..i])
    {
      IndexIsNew(symbols, chunks[..i]);
      var collected := CollectChunk(symbols, chunks[i], i);
      if collected.None? {
        AlreadyDefined(symbols, chunks, i);
        return Err("a symbol is defined by two musl objects");
      }
      DescribesOneMore(symbols, chunks, i, collected.value);
      symbols := collected.value;
    }
    assert chunks[..|chunks|] == chunks;
    DescribedChunksAreDisjoint(symbols, chunks);
    r := Ok(symbols);
  }

  lemma NoSymbols()
    ensures Describes(Symbols(map[], {}), [])
  {
  }

  lemma AlreadyDefined(symbols: Symbols, chunks: seq<seq<Line>>, i: nat)
    requires i < |chunks| && Describes(symbols, chunks[..i]) && !(DefinedIn(chunks[i]) !! symbols.defined.Keys)
    ensures DefinedTwice(chunks)
  {
    hide DefinedIn, NamedBy;
    var n :| n in DefinedIn(chunks[i]) && n in symbols.defined;
    var j := symbols.defined[n];
    assert chunks[..i][j] == chunks[j] && n in DefinedIn(chunks[j]);
  }

  lemma IndexIsNew(symbols: Symbols, chunks: seq<seq<Line>>)
    requires Describes(symbols, chunks)
    ensures forall n :: n in symbols.defined ==> symbols.defined[n] != |chunks|
  {
  }

  lemma DescribedChunksAreDisjoint(symbols: Symbols, chunks: seq<seq<Line>>)
    requires Describes(symbols, chunks)
    ensures !DefinedTwice(chunks)
  {
    hide DefinedIn, NamedBy;
    forall i, j, n | 0 <= i < j < |chunks| && n in DefinedIn(chunks[i])
      ensures n !in DefinedIn(chunks[j])
    {
      assert symbols.defined[n] == i;
    }
  }

  lemma DescribesOneMore(before: Symbols, chunks: seq<seq<Line>>, i: nat, after: Symbols)
    requires i < |chunks| && Describes(before, chunks[..i])
    requires DefinedIn(chunks[i]) !! before.defined.Keys
    requires after.defined == before.defined + OwnedBy(DefinedIn(chunks[i]), i)
    requires after.exported == before.exported + NamedBy(chunks[i], EXPORTING)
    ensures Describes(after, chunks[..i + 1])
  {
    hide DefinedIn, NamedBy;
    assert forall j :: 0 <= j < i ==> chunks[..i + 1][j] == chunks[..i][j];
    assert chunks[..i + 1][i] == chunks[i];
    var upTo := chunks[..i + 1];
    forall n | n in after.exported
      ensures exists j :: 0 <= j < |upTo| && n in NamedBy(upTo[j], EXPORTING)
    {
      if n in NamedBy(chunks[i], EXPORTING) {
        assert n in NamedBy(upTo[i], EXPORTING);
      } else {
        var j :| 0 <= j < i && n in NamedBy(chunks[..i][j], EXPORTING);
        assert n in NamedBy(upTo[j], EXPORTING);
      }
    }
  }

  // ----- Choosing shared symbols and emitting objects

  /** Unexported symbols of chunk `index` that the text of another chunk mentions. */
  ghost function Shared(chunks: seq<seq<Line>>, symbols: Symbols, index: nat): set<string>
    requires index < |chunks|
  {
    set n | n in symbols.defined && symbols.defined[n] == index && n !in symbols.exported
            && MentionedElsewhere(chunks, index, n)
  }

  predicate MentionedElsewhere(chunks: seq<seq<Line>>, index: nat, n: string) {
    exists other :: 0 <= other < |chunks| && other != index && n in TokensOf(chunks[other])
  }

  method CollectShared(chunks: seq<seq<Line>>, symbols: Symbols, index: nat) returns (shared: set<string>)
    requires index < |chunks|
    ensures shared == Shared(chunks, symbols, index)
  {
    shared := {};
    for other := 0 to |chunks|
      invariant shared == set n | n in symbols.defined && symbols.defined[n] == index && n !in symbols.exported
                                  && exists o :: 0 <= o < other && o != index && n in TokensOf(chunks[o])
    {
      if other != index {
        var used := TokensOf(chunks[other]);
        shared := shared + set n | n in symbols.defined && symbols.defined[n] == index
                                   && n !in symbols.exported && n in used;
      }
    }
  }

  const LOCAL := [".local"]
  const HIDDEN := [".hidden"]
  const COMMON := [".comm"]

  /** A `.local` line of a shared symbol, which the object leaves out. */
  predicate Dropped(line: Line, shared: set<string>) {
    var name := DirectiveSymbol(line, LOCAL);
    name.Some? && name.value in shared
  }

  function Kept(lines: seq<Line>, shared: set<string>, f: string -> string): seq<Line> {
    if lines == [] then []
    else (if Dropped(lines[0], shared) then [] else [RouteLine(lines[0], f)]) + Kept(lines[1..], shared, f)
  }

  lemma {:induction false} KeptSnoc(lines: seq<Line>, last: Line, shared: set<string>, f: string -> string)
    ensures Kept(lines + [last], shared, f)
         == Kept(lines, shared, f) + if Dropped(last, shared) then [] else [RouteLine(last, f)]
  {
    if lines != [] {
      assert (lines + [last])[1..] == lines[1..] + [last];
      KeptSnoc(lines[1..], last, shared, f);
    }
  }

  function Globl(name: string): Line { "\t" + ".globl" + "\t" + name }

  function Hide(name: string): Line { "\t" + ".hidden" + "\t" + name }

  /** Each shared symbol becomes a hidden global. */
  function Promotions(order: seq<string>): seq<Line> {
    if order == [] then [] else Promotions(order[..|order| - 1]) + [Globl(order[|order| - 1]), Hide(order[|order| - 1])]
  }

  const STACK_NOTE: Line := ".section" + " " + ".note.GNU-stack,\"\",@progbits"

  const TRAILER: seq<Line> := ["", STACK_NOTE]

  lemma NoteHasNoBreak()
    ensures '\n' !in STACK_NOTE
  {
  }

  function Object(header: seq<Line>, lines: seq<Line>, order: seq<string>, f: string -> string): seq<Line> {
    header + Kept(lines, Elements(order), f) + Promotions(order) + TRAILER
  }

  ghost predicate Enumerates(order: seq<string>, names: set<string>) {
    Elements(order) == names && Distinct(order)
  }

  /** The header and the routed lines, without the `.local` of shared symbols. */
  method EmitLines(header: seq<Line>, lines: seq<Line>, shared: set<string>, public: PublicNames)
    returns (assembled: seq<Line>)
    ensures assembled == header + Kept(lines, shared, Router(public))
  {
    hide RouteLine, Dropped, Router;
    assembled := header;
    for k := 0 to |lines|
      invariant assembled == header + Kept(lines[..k], shared, Router(public))
    {
      assert lines[..k + 1] == lines[..k] + [lines[k]];
      KeptSnoc(lines[..k], lines[k], shared, Router(public));
      if !Dropped(lines[k], shared) {
        var routed := RoutePublic(lines[k], public);
        assembled := assembled + [routed];
      }
    }
    assert lines[..|lines|] == lines;
  }

  lemma PromoteOneMore(order: seq<string>, name: string)
    requires Distinct(order) && name !in Elements(order)
    ensures Promotions(order + [name]) == Promotions(order) + [Globl(name), Hide(name)]
    ensures Elements(order + [name]) == Elements(order) + {name} && Distinct(order + [name])
  {
    hide Globl, Hide;
    assert (order + [name])[..|order|] == order;
    assert forall i :: 0 <= i < |order| ==> order[i] in Elements(order);
  }

  lemma NoPromotions()
    ensures Elements<string>([]) == {} && Distinct<string>([]) && Promotions([]) == [] && Ascending([])
  {
  }

  lemma ListedNames(order: seq<string>)
    ensures forall n :: n in order <==> n in Elements(order)
  {
  }

  /** The names listed so far come before those that are left. */
  ghost predicate Listing(order: seq<string>, shared: set<string>, left: set<string>) {
    && left <= shared && Elements(order) == shared - left && Distinct(order) && Ascending(order)
    && forall n, m :: n in Elements(order) && m in left ==> Before(n, m)
  }

  lemma ListNext(order: seq<string>, shared: set<string>, left: set<string>, name: string)
    requires Listing(order, shared, left)
    requires name in left && forall n :: n in left && n != name ==> Before(name, n)
    ensures Listing(order + [name], shared, left - {name})
    ensures Promotions(order + [name]) == Promotions(order) + [Globl(name), Hide(name)]
  {
    hide Globl, Hide, Elements, Distinct, Ascending, Before, Promotions;
    PromoteOneMore(order, name);
    ListedNames(order);
    AppendName(order, name);
  }

  lemma AllListed(order: seq<string>, shared: set<string>)
    requires Listing(order, shared, {})
    ensures Enumerates(order, shared) && Ascending(order)
  {
    hide Ascending, Before, Distinct;
  }

  lemma ListNothing(shared: set<string>)
    ensures Listing([], shared, shared) && Promotions([]) == []
  {
    hide Ascending, Before;
    NoPromotions();
  }

  /** Shared symbols are written in the order of their names. */
  method EmitObject(header: seq<Line>, lines: seq<Line>, shared: set<string>, public: PublicNames)
    returns (assembled: seq<Line>, order: seq<string>)
    ensures Enumerates(order, shared) && Ascending(order)
    ensures assembled == Object(header, lines, order, Router(public))
  {
    hide Globl, Hide, Router, Kept, Listing, Promotions, Before;
    assembled := EmitLines(header, lines, shared, public);
    ghost var kept := assembled;
    var left := shared;
    order := [];
    ListNothing(shared);
    while left != {}
      invariant Listing(order, shared, left)
      invariant assembled == kept + Promotions(order)
      decreases left
    {
      var name := Least(left);
      ListNext(order, shared, left, name);
      left := left - {name};
      assembled := assembled + [Globl(name), Hide(name)];
      order := order + [name];
    }
    AllListed(order, shared);
    assembled := assembled + TRAILER;
  }

  /** The objects written for one translation. */
  ghost predicate SplitInto(header: seq<Line>, chunks: seq<seq<Line>>, symbols: Symbols, f: string -> string,
                            objects: seq<seq<Line>>, orders: seq<seq<string>>) {
    && |objects| == |orders| == |chunks|
    && forall i :: 0 <= i < |chunks| ==>
         && Enumerates(orders[i], Shared(chunks, symbols, i))
         && objects[i] == Object(header, chunks[i], orders[i], f)
  }

  predicate AllAscending(orders: seq<seq<string>>) { forall i :: 0 <= i < |orders| ==> Ascending(orders[i]) }

  method SplitObjects(header: seq<Line>, chunks: seq<seq<Line>>, public: PublicNames)
    returns (r: Result<seq<seq<Line>>>, symbols: Symbols, orders: seq<seq<string>>)
    ensures r.Ok? <==> !DefinedTwice(chunks)
    ensures r.Ok? ==> Describes(symbols, chunks) && SplitInto(header, chunks, symbols, Router(public), r.value, orders)
    ensures r.Ok? ==> AllAscending(orders)
  {
    hide Ascending;
    var collected := CollectSymbols(chunks);
    orders := [];
    if collected.Err? {
      symbols := Symbols(map[], {});
      return Err(collected.reason), symbols, orders;
    }
    symbols := collected.value;
    var objects: seq<seq<Line>> := [];
    for i := 0 to |chunks|
      invariant |objects| == |orders| == i && AllAscending(orders)
      invariant forall j :: 0 <= j < i ==>
                  && Enumerates(orders[j], Shared(chunks, symbols, j))
                  && objects[j] == Object(header, chunks[j], orders[j], Router(public))
    {
      var shared := CollectShared(chunks, collected.value, i);
      var assembled, order := EmitObject(header, chunks[i], shared, public);
      objects := objects + [assembled];
      orders := orders + [order];
    }
    r := Ok(objects);
  }

  function Body(piece: string, note: string): seq<Line> {
    Lines("", RemoveAll(piece, note + "\n"))
  }

  /** A whole translation: cut, strip each piece's stack note, split. A text without marker has no objects. */
  method PartitionText(text: string, marker: string, note: string, public: PublicNames)
    returns (r: Result<seq<seq<Line>>>, header: string, pieces: seq<string>,
             chunks: seq<seq<Line>>, symbols: Symbols, orders: seq<seq<string>>)
    requires marker != "" && '\n' !in marker
    ensures IsCut(text, marker, header, pieces)
    ensures |chunks| == |pieces| && forall k :: 0 <= k < |pieces| ==> chunks[k] == Body(pieces[k], note)
    ensures r.Ok? <==> !DefinedTwice(chunks)
    ensures r.Ok? ==> Describes(symbols, chunks)
                      && SplitInto(Lines("", header), chunks, symbols, Router(public), r.value, orders)
                      && AllAscending(orders)
  {
    hide Describes, SplitInto, AllAscending, DefinedTwice, IsCut, Lines, RemoveAll;
    header, pieces := CutAtMarkers(text, marker);
    chunks := [];
    for k := 0 to |pieces|
      invariant |chunks| == k && forall j :: 0 <= j < k ==> chunks[j] == Body(pieces[j], note)
    {
      chunks := chunks + [Body(pieces[k], note)];
    }
    r, symbols, orders := SplitObjects(Lines("", header), chunks, public);
  }
}
