/** Relative POSIX paths as strings, as `PurePosixPath` and the file system see them. */
module Paths {
  type Path = string

  /** The pieces of `piece + s` between separators, `piece` being read already. */
  function Pieces(separator: char, piece: string, s: string): (r: seq<string>)
    ensures |r| > 0
    decreases |s|
  {
    if s == "" then [piece]
    else if s[0] == separator then [piece] + Pieces(separator, "", s[1..])
    else Pieces(separator, piece + [s[0]], s[1..])
  }

  /** Relative, already normalised, and never leaving its root. */
  predicate Safe(p: Path) {
    forall c :: c in Pieces('/', "", p) ==> c != "" && c != "." && c != ".."
  }

  /** `a` names a directory on the way to `p`. */
  predicate Ancestor(a: Path, p: Path) {
    |a| < |p| && p[..|a|] == a && p[|a|] == '/'
  }

  /** Number of characters up to and including the last slash. */
  function DirectoryLength(p: Path): (n: nat)
    ensures n <= |p|
    ensures 0 < n ==> p[n - 1] == '/'
    ensures forall i :: n <= i < |p| ==> p[i] != '/'
  {
    if p == "" then 0
    else if p[|p| - 1] == '/' then |p|
    else DirectoryLength(p[..|p| - 1])
  }

  function Parent(p: Path): Path {
    var n := DirectoryLength(p);
    if n == 0 then "." else p[..n - 1]
  }

  /** A single path component that stands for an entry. */
  predicate PlainName(target: string) { target != "" && target != "." && '/' !in target }

  /** `PurePosixPath(p).parent / target` for a target without slash. */
  function Sibling(p: Path, target: string): Path {
    if target == "" || target == "." then Parent(p) else p[..DirectoryLength(p)] + target
  }

  /** Directories on the way to a path are on the way to its siblings. */
  lemma SiblingAncestors(a: Path, p: Path, target: string)
    requires Ancestor(a, p) && PlainName(target)
    ensures Ancestor(a, Sibling(p, target))
  {
    var n := DirectoryLength(p);
    assert |a| < n;
    var s := p[..n] + target;
    assert s[|a|] == p[|a|];
    assert s[..|a|] == p[..|a|];
  }

  lemma ParentIsAncestor(p: Path)
    requires DirectoryLength(p) != 0
    ensures Ancestor(Parent(p), p)
  {
  }

  // ----- Splitting a text

  function Join(separator: char, pieces: seq<string>): string
    requires pieces != []
  {
    if |pieces| == 1 then pieces[0] else pieces[0] + [separator] + Join(separator, pieces[1..])
  }

  /** Joined by the separator, which none of them holds, the pieces are the text. */
  ghost predicate SplitOn(text: string, separator: char, pieces: seq<string>) {
    pieces != [] && Join(separator, pieces) == text && forall i :: 0 <= i < |pieces| ==> separator !in pieces[i]
  }

  lemma {:induction false} PiecesSplit(separator: char, piece: string, s: string)
    requires separator !in piece
    ensures SplitOn(piece + s, separator, Pieces(separator, piece, s))
    decreases |s|
  {
    if s == "" {
      assert piece + s == piece;
    } else if s[0] == separator {
      PiecesSplit(separator, "", s[1..]);
      var rest := Pieces(separator, "", s[1..]);
      assert "" + s[1..] == s[1..];
      assert ([piece] + rest)[1..] == rest;
      assert piece + s == piece + [separator] + s[1..];
    } else {
      PiecesSplit(separator, piece + [s[0]], s[1..]);
      assert piece + s == piece + [s[0]] + s[1..];
    }
  }

  lemma {:induction false} SplitIsUnique(text: string, separator: char, a: seq<string>, b: seq<string>)
    requires SplitOn(text, separator, a) && SplitOn(text, separator, b)
    ensures a == b
    decreases |a|
  {
    FirstPiece(text, separator, a);
    FirstPiece(text, separator, b);
    var n := |a[0]|;
    assert forall k :: 0 <= k < n ==> a[0][k] == text[k] && text[k] != separator;
    assert forall k :: 0 <= k < |b[0]| ==> b[0][k] == text[k] && text[k] != separator;
    assert |b[0]| == n;
    assert a[0] == text[..n] == b[0];
    assert a == [a[0]] + a[1..] && b == [b[0]] + b[1..];
    if |text| > n {
      SplitIsUnique(text[n + 1..], separator, a[1..], b[1..]);
    }
  }

  lemma FirstPiece(text: string, separator: char, pieces: seq<string>)
    requires SplitOn(text, separator, pieces)
    ensures |pieces[0]| <= |text| && text[..|pieces[0]|] == pieces[0]
    ensures |text| == |pieces[0]| ==> |pieces| == 1
    ensures |text| > |pieces[0]| ==> text[|pieces[0]|] == separator
                                     && SplitOn(text[|pieces[0]| + 1..], separator, pieces[1..])
  {
    if |pieces| > 1 {
      var rest := Join(separator, pieces[1..]);
      assert text == pieces[0] + [separator] + rest;
      assert text[|pieces[0]| + 1..] == rest;
      assert forall i :: 0 <= i < |pieces| - 1 ==> pieces[1..][i] == pieces[i + 1];
    }
  }

  /** The splitter yields the one way to split the text. */
  lemma PiecesExactly(separator: char, text: string)
    ensures forall pieces :: pieces == Pieces(separator, "", text) <==> SplitOn(text, separator, pieces)
  {
    PiecesSplit(separator, "", text);
    assert "" + text == text;
    forall pieces | SplitOn(text, separator, pieces)
      ensures pieces == Pieces(separator, "", text)
    {
      SplitIsUnique(text, separator, pieces, Pieces(separator, "", text));
    }
  }

  // ----- What the predicates on paths say

  /** A safe path is split at its slashes into names, none of them empty, `.` or `..`. */
  lemma SafeExactly(p: Path)
    ensures Safe(p) <==> exists pieces :: SplitOn(p, '/', pieces) && forall i :: 0 <= i < |pieces| ==>
            pieces[i] !in {"", ".", ".."}
    ensures Safe(p) ==> p != "" && p[0] != '/' && p[|p| - 1] != '/'
  {
    hide Join;
    PiecesExactly('/', p);
    var pieces := Pieces('/', "", p);
    assert SplitOn(p, '/', pieces);
    assert forall c :: c in pieces <==> exists i :: 0 <= i < |pieces| && pieces[i] == c;
    assert Safe(p) <==> forall i :: 0 <= i < |pieces| ==> pieces[i] !in {"", ".", ".."} by {
      assert forall i :: 0 <= i < |pieces| ==> pieces[i] in pieces;
    }
    if Safe(p) {
      FirstPiece(p, '/', pieces);
      assert pieces[0] in pieces;
      LastPiece(p, '/', pieces);
      assert pieces[|pieces| - 1] in pieces;
    }
  }

  lemma {:induction false} LastPiece(text: string, separator: char, pieces: seq<string>)
    requires SplitOn(text, separator, pieces)
    ensures |pieces[|pieces| - 1]| <= |text| && text[|text| - |pieces[|pieces| - 1]|..] == pieces[|pieces| - 1]
    ensures pieces[|pieces| - 1] != "" ==> text != "" && text[|text| - 1] != separator
    decreases |pieces|
  {
    var last := pieces[|pieces| - 1];
    if |pieces| > 1 {
      FirstPiece(text, separator, pieces);
      var rest := text[|pieces[0]| + 1..];
      LastPiece(rest, separator, pieces[1..]);
      assert pieces[1..][|pieces| - 2] == last;
      assert rest[|rest| - |last|..] == text[|text| - |last|..];
    } else {
      assert text == last;
    }
    assert last != "" ==> text[|text| - |last|..][|last| - 1] == text[|text| - 1] && last[|last| - 1] in last;
  }

  /** An ancestor is what stands before some slash of the path. */
  lemma AncestorExactly(a: Path, p: Path)
    ensures Ancestor(a, p) <==> exists rest :: p == a + "/" + rest
  {
    if Ancestor(a, p) {
      assert p == a + "/" + p[|a| + 1..];
    }
  }

  /** A link's target is read beside the link. */
  lemma SiblingExactly(directory: string, name: string, target: string)
    requires '/' !in name
    ensures Sibling(directory + "/" + name, target)
         == if target == "" || target == "." then directory else directory + "/" + target
    ensures Sibling(name, target) == if target == "" || target == "." then "." else target
  {
    LengthOfDirectory(directory + "/", name);
    var p := directory + "/" + name;
    assert p[..|directory| + 1] == directory + "/" && p[..|directory|] == directory;
    LengthOfDirectory("", name);
    assert "" + name == name;
    assert name[..0] + target == target;
  }

  lemma LengthOfDirectory(front: string, name: string)
    requires '/' !in name && (front == "" || front[|front| - 1] == '/')
    ensures DirectoryLength(front + name) == |front|
  {
    var p := front + name;
    assert forall i :: |front| <= i < |p| ==> p[i] == name[i - |front|];
    assert front != "" ==> p[|front| - 1] == '/';
  }
}
