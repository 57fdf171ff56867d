/**
 * Paths padded to an exact length, so that the candidate and the oracle see
 * names of the same sizes below different roots.
 */
module NamesPath {
  import opened Wrappers

  const LONGEST_SEGMENT := 200

  function Repeat(c: char, n: nat): (r: string)
    ensures |r| == n && forall i :: 0 <= i < n ==> r[i] == c
  {
    seq(n, _ => c)
  }

  /** The pieces, separated by slashes. */
  function Join(pieces: seq<string>): string
    requires pieces != []
  {
    if |pieces| == 1 then pieces[0]
    else Join(pieces[..|pieces| - 1]) + "/" + pieces[|pieces| - 1]
  }

  /** The length of `pieces` with one separator each. */
  function Width(pieces: seq<string>): nat {
    if pieces == [] then 0 else Width(pieces[..|pieces| - 1]) + |pieces[|pieces| - 1]| + 1
  }

  lemma {:induction false} JoinWidth(head: string, pieces: seq<string>)
    ensures |Join([head] + pieces)| == |head| + Width(pieces)
  {
    if pieces == [] {
      assert [head] + pieces == [head];
    } else {
      var n := |pieces| - 1;
      assert ([head] + pieces)[..n + 1] == [head] + pieces[..n];
      JoinWidth(head, pieces[..n]);
    }
  }

  function Head(root: string, group: string): string { root + "/names/" + group }

  /** What is left for padding between the group and the file name. */
  function Room(root: string, group: string, total: int, filename: string): int {
    total - |Head(root, group)| - 1 - |filename|
  }

  /** Whether padding can make the length up: a separator and a letter are the least it adds. */
  predicate Reaches(root: string, group: string, total: int, filename: string) {
    group != "" && Room(root, group, total, filename) >= 2
  }

  /** Directories of one repeated letter, none empty and none of more than 200 letters. */
  predicate Padding(segments: seq<string>, letter: char) {
    Lettered(segments, letter) && FullUpTo(segments, |segments| - 2) && EndsFull(segments)
  }

  /** All but the last have 200 letters, unless 199 letters make room for a last directory of one. */
  predicate EndsFull(segments: seq<string>) {
    var n := |segments|;
    n >= 2 ==> |segments[n - 2]| == 200 || (|segments[n - 2]| == 199 && |segments[n - 1]| == 1)
  }

  predicate Lettered(segments: seq<string>, letter: char) {
    forall i :: 0 <= i < |segments| ==>
      1 <= |segments[i]| <= 200 && forall k :: 0 <= k < |segments[i]| ==> segments[i][k] == letter
  }

  /** `path` is the group's directory, padding and the file name, in `total` characters. */
  ghost predicate IsPadded(root: string, group: string, total: int, filename: string, path: string) {
    && |path| == total && group != ""
    && exists segments ::
         Padding(segments, group[0]) && path == Join([root + "/names/" + group] + segments + [filename])
  }

  /** The first `n` segments have 200 letters each. */
  predicate FullUpTo(segments: seq<string>, n: int) {
    forall i :: 0 <= i < |segments| && i < n ==> |segments[i]| == 200
  }

  /** How many of the last segments may be short when so much room is left. */
  function Short(room: int): nat { if room == 0 then 2 else if room == 2 then 1 else 0 }

  /** What the last segments are when so much room is left. */
  predicate Tail(segments: seq<string>, room: int) {
    if room == 0 then EndsFull(segments)
    else if room == 2 then segments == [] || 199 <= |segments[|segments| - 1]| <= 200
    else true
  }

  lemma TailKept(segments: seq<string>, letter: char, room: int, size: nat)
    requires FullUpTo(segments, |segments| - Short(room)) && Tail(segments, room)
    requires room >= 2 && size == if room == 202 then 199 else if room > 202 then 200 else room - 1
    ensures Tail(segments + [Repeat(letter, size)], room - (size + 1))
  {
    var more := segments + [Repeat(letter, size)];
    assert |more[|more| - 1]| == size;
    assert segments != [] ==> more[|more| - 2] == segments[|segments| - 1];
  }

  lemma NoSegments(letter: char)
    ensures Lettered([], letter) && FullUpTo([], 0) && FullUpTo([], -1) && Width([]) == 0
  {
  }

  lemma NoTail(room: int)
    ensures Tail([], room)
  {
  }

  lemma TailIsFull(segments: seq<string>)
    ensures Tail(segments, 0) <==> EndsFull(segments)
  {
  }

  lemma OneMoreSegment(segments: seq<string>, letter: char, size: nat, n: int)
    requires Lettered(segments, letter) && FullUpTo(segments, n) && 1 <= size <= 200 && n <= |segments|
    ensures var more := segments + [Repeat(letter, size)];
            && Lettered(more, letter) && Width(more) == Width(segments) + size + 1
            && (forall m: int :: m <= n ==> FullUpTo(more, m))
            && (size == 200 && n == |segments| ==> FullUpTo(more, |more|))
  {
    var more := segments + [Repeat(letter, size)];
    assert more[..|segments|] == segments;
  }

  lemma PathLength(head: string, segments: seq<string>, filename: string)
    ensures |Join([head] + segments + [filename])| == |head| + Width(segments) + 1 + |filename|
  {
    hide Join;
    assert [head] + segments + [filename] == [head] + (segments + [filename]);
    JoinWidth(head, segments + [filename]);
    assert (segments + [filename])[..|segments|] == segments;
  }

  /**
   * A path of exactly `total` characters exists as soon as there is room for
   * one separator and one letter; the length check at the end never fails.
   */
  method Padded(root: string, group: string, total: int, filename: string) returns (r: Result<string>)
    ensures r.Ok? <==> Reaches(root, group, total, filename)
    ensures r.Ok? ==> IsPadded(root, group, total, filename, r.value)
  {
    var head := Head(root, group);
    var room := total - |head| - 1 - |filename|;
    if room < 2 {
      return Err("names path cannot reach its length");
    }
    if group == "" {
      return Err("string index out of range");
    }
    hide Join, Lettered, FullUpTo, Width, Tail;
    var segments: seq<string> := [];
    NoSegments(group[0]);
    NoTail(room);
    while room > 0
      invariant room == 0 || room >= 2
      invariant Lettered(segments, group[0]) && FullUpTo(segments, |segments| - Short(room)) && Tail(segments, room)
      invariant |head| + Width(segments) + room + 1 + |filename| == total
    {
      var size := if LONGEST_SEGMENT < room - 1 then LONGEST_SEGMENT else room - 1;
      if room - (size + 1) == 1 {
        size := size - 1;
      }
      TailKept(segments, group[0], room, size);
      OneMoreSegment(segments, group[0], size, |segments| - Short(room));
      segments := segments + [Repeat(group[0], size)];
      room := room - (size + 1);
    }
    var path := Join([head] + segments + [filename]);
    PathLength(head, segments, filename);
    TailIsFull(segments);
    assert Padding(segments, group[0]);
    r := if |path| == total then Ok(path) else Err("names path has another length");
  }

  // ----- There is one padding

  lemma {:induction false} FullWidth(segments: seq<string>)
    requires FullUpTo(segments, |segments|)
    ensures Width(segments) == 201 * |segments|
  {
    if segments != [] {
      var n := |segments| - 1;
      assert forall i :: 0 <= i < n ==> segments[..n][i] == segments[i];
      FullWidth(segments[..n]);
    }
  }

  lemma PaddingWidth(segments: seq<string>, letter: char)
    requires Padding(segments, letter) && segments != []
    ensures var n := |segments|;
            var last := |segments[n - 1]|;
            && 1 <= last <= 200
            && Width(segments) == 201 * (n - 1) + if n >= 2 && |segments[n - 2]| == 199 then 1 else last + 1
  {
    var n := |segments|;
    if n >= 2 {
      var front := segments[..n - 2];
      assert segments[..n - 1][..n - 2] == front && segments[..n - 1][n - 2] == segments[n - 2];
      assert forall i :: 0 <= i < n - 2 ==> front[i] == segments[i];
      FullWidth(front);
      assert Width(segments[..n - 1]) == 201 * (n - 2) + |segments[n - 2]| + 1;
    }
  }

  lemma PaddingIsUnique(a: seq<string>, b: seq<string>, letter: char)
    requires Padding(a, letter) && Padding(b, letter) && Width(a) == Width(b)
    ensures a == b
  {
    hide Width;
    if a != [] {
      PaddingWidth(a, letter);
    }
    if b != [] {
      PaddingWidth(b, letter);
    }
    NoSegments(letter);
    assert |a| == |b|;
    forall i | 0 <= i < |a|
      ensures a[i] == b[i]
    {
      assert |a[i]| == |b[i]|;
      assert forall k :: 0 <= k < |a[i]| ==> a[i][k] == letter == b[i][k];
    }
  }

  /** The padded path is determined by its length. */
  lemma PaddedIsUnique(root: string, group: string, total: int, filename: string, p: string, q: string)
    requires IsPadded(root, group, total, filename, p) && IsPadded(root, group, total, filename, q)
    ensures p == q
  {
    hide Join, Width, Padding;
    var head := root + "/names/" + group;
    var a :| Padding(a, group[0]) && p == Join([head] + a + [filename]);
    var b :| Padding(b, group[0]) && q == Join([head] + b + [filename]);
    PathLength(head, a, filename);
    PathLength(head, b, filename);
    PaddingIsUnique(a, b, group[0]);
  }

  // ----- The layout

  datatype Place =
    | Below(group: string, total: nat, filename: string)
    | Beside(filename: string)
    | Runpath

  datatype Request = Request(key: string, place: Place)

  function Programs(mode: string): seq<Request> {
    [ Request("program-" + mode + "-600", Below("program600", 600, "main-names-" + mode)),
      Request("program-" + mode + "-3000", Below("program3000", 3000, "main-names-" + mode)) ]
  }

  function SearchName(): string { "libowned-startup-name-search.so" }

  const SEARCH_BUFFER := 512

  function Layout(): seq<Request> {
    [ Request("a", Below("a", 600, "libowned-startup-name-a.so")),
      Request("b", Below("b", 3000, "libowned-startup-name-b.so")),
      Request("c", Below("c", 600, "libowned-startup-name-c.so")),
      Request("d", Below("d", 3000, "libowned-startup-name-d.so")),
      Request("e", Below("e", 3000, "libowned-startup-name-e.so")),
      Request("f", Below("f", 3000, "libowned-startup-name-f.so")),
      Request("g", Below("g", 3000, "libowned-startup-name-g.so")),
      Request("missing", Below("missing", 600, "libowned-startup-name-missing.so")),
      Request("leaf", Beside("libowned-startup-name-leaf.so")),
      Request("deep", Beside("libowned-startup-name-deep.so")),
      Request("search-long-1", Below("long", 3000, SearchName())),
      Request("search-long-2", Below("longer", 3000, SearchName())),
      Request("search-skipped", Below("skipped", SEARCH_BUFFER, SearchName())),
      Request("search", Below("fits", SEARCH_BUFFER - 1, SearchName())),
      Request("runpath", Runpath) ]
    + Programs("dynamic-pie") + Programs("dynamic-non-pie")
  }

  const SHORT := 200

  function Origins(): string { "$ORIGIN:${ORIGIN}:" }

  /** The entry's length, which no root enters into. */
  function Length(place: Place): nat {
    match place
    case Below(_, total, _) => total
    case Beside(filename) => SHORT - 2 + 1 + |filename|
    case Runpath => |Origins()| + SHORT - 2
  }

  function Lengths(requests: seq<Request>): map<string, nat> {
    if requests == [] then map[]
    else
      var last := requests[|requests| - 1];
      Lengths(requests[..|requests| - 1])[last.key := Length(last.place)]
  }

  predicate PlaceFits(root: string, place: Place) {
    place.Below? ==> Reaches(root, place.group, place.total, place.filename)
  }

  predicate Fits(root: string, requests: seq<Request>) {
    && Reaches(root, "short", SHORT, "x")
    && forall i :: 0 <= i < |requests| ==> PlaceFits(root, requests[i].place)
  }

  /** What an entry of the layout holds, `short` being the short directory. */
  ghost predicate Built(root: string, short: string, place: Place, path: string) {
    match place
    case Below(group, total, filename) => IsPadded(root, group, total, filename, path)
    case Beside(filename) => path == short + "/" + filename
    case Runpath => path == Origins() + short
  }

  ghost predicate HoldsEntry(root: string, short: string, requests: seq<Request>, key: string, path: string) {
    exists i :: 0 <= i < |requests| && requests[i].key == key && Built(root, short, requests[i].place, path)
  }

  /** Every entry is what some request of its key asks for, around one short directory. */
  ghost predicate HoldsEntries(root: string, requests: seq<Request>, layout: map<string, string>) {
    exists short ::
      && IsPadded(root, "short", SHORT, "x", short + "/x")
      && forall key :: key in layout ==> HoldsEntry(root, short, requests, key, layout[key])
  }

  lemma PaddedLength(root: string, group: string, total: int, filename: string, path: string)
    requires IsPadded(root, group, total, filename, path)
    ensures |path| == total
  {
  }

  lemma ShortDirectory(root: string, path: string)
    requires IsPadded(root, "short", SHORT, "x", path)
    ensures path[..SHORT - 2] + "/x" == path
  {
    var segments :| Padding(segments, 's') && path == Join([root + "/names/" + "short"] + segments + ["x"]);
    var pieces := [root + "/names/" + "short"] + segments + ["x"];
    assert path == Join(pieces[..|pieces| - 1]) + "/" + "x";
  }

  /** One entry of the layout. */
  method BuildEntry(root: string, short: string, place: Place) returns (r: Result<string>)
    requires |short| == SHORT - 2
    ensures r.Ok? <==> PlaceFits(root, place)
    ensures r.Ok? ==> Built(root, short, place, r.value) && |r.value| == Length(place)
  {
    hide Reaches, IsPadded;
    match place
    case Below(group, total, filename) =>
      r := Padded(root, group, total, filename);
      if r.Ok? {
        PaddedLength(root, group, total, filename, r.value);
      }
    case Beside(filename) =>
      r := Ok(short + "/" + filename);
    case Runpath =>
      r := Ok(Origins() + short);
  }

  /** The layout below a root that fits has the same keys and lengths as below any other. */
  method BuildLayout(root: string, requests: seq<Request>) returns (r: Result<map<string, string>>)
    ensures r.Ok? <==> Fits(root, requests)
    ensures r.Ok? ==> HoldsEntries(root, requests, r.value)
    ensures r.Ok? ==> r.value.Keys == Lengths(requests).Keys
    ensures r.Ok? ==> forall key :: key in r.value ==> |r.value[key]| == Lengths(requests)[key]
  {
    hide Reaches, IsPadded, PlaceFits, Built, Length;
    var padded := Padded(root, "short", SHORT, "x");
    if padded.Err? {
      return Err(padded.reason);
    }
    PaddedLength(root, "short", SHORT, "x", padded.value);
    var short := padded.value[..SHORT - 2];
    ShortDirectory(root, padded.value);
    var layout: map<string, string> := map[];
    for n := 0 to |requests|
      invariant forall i :: 0 <= i < n ==> PlaceFits(root, requests[i].place)
      invariant forall key :: key in layout ==> HoldsEntry(root, short, requests, key, layout[key])
      invariant layout.Keys == Lengths(requests[..n]).Keys
      invariant forall key :: key in layout ==> |layout[key]| == Lengths(requests[..n])[key]
    {
      var Request(key, place) := requests[n];
      assert requests[..n + 1][..n] == requests[..n] && requests[..n + 1][n] == requests[n];
      var path := BuildEntry(root, short, place);
      if path.Err? {
        assert !PlaceFits(root, requests[n].place);
        return Err(path.reason);
      }
      assert HoldsEntry(root, short, requests, key, path.value) by {
        assert Built(root, short, requests[n].place, path.value);
      }
      layout := layout[key := path.value];
    }
    assert requests[..|requests|] == requests;
    return Ok(layout);
  }

  /** The roots that fit the layout are those of at most 184 characters: the short directory binds. */
  lemma LayoutFits(root: string)
    ensures Fits(root, Layout()) <==> |root| <= 184
  {
    assert |SearchName()| == 31;
    forall i | 0 <= i < |Layout()|
      ensures |root| <= 184 ==> PlaceFits(root, Layout()[i].place)
    {
    }
  }

  /** The last request of each key decides its length. */
  ghost predicate Decides(requests: seq<Request>, i: nat) {
    i < |requests| && forall j :: i < j < |requests| ==> requests[j].key != requests[i].key
  }

  lemma {:induction false} LengthsHave(requests: seq<Request>, key: string)
    ensures key in Lengths(requests) <==> exists i :: 0 <= i < |requests| && requests[i].key == key
  {
    hide Length;
    if requests != [] {
      var n := |requests| - 1;
      LengthsHave(requests[..n], key);
      assert key in Lengths(requests) <==> key in Lengths(requests[..n]) || requests[n].key == key;
      if i :| 0 <= i < |requests| && requests[i].key == key {
        assert i < n ==> requests[..n][i].key == key;
      }
    }
  }

  lemma {:induction false} LengthsAre(requests: seq<Request>, i: nat)
    requires Decides(requests, i)
    ensures requests[i].key in Lengths(requests) && Lengths(requests)[requests[i].key] == Length(requests[i].place)
  {
    hide Length;
    var n := |requests| - 1;
    if i < n {
      var front := requests[..n];
      assert front[i] == requests[i] && Decides(front, i);
      LengthsAre(front, i);
      assert requests[n].key != requests[i].key;
    }
  }

  /** The keys of the layout, in order. */
  function Keys(): seq<string> {
    ["a", "b", "c", "d", "e", "f", "g", "missing", "leaf", "deep", "search-long-1", "search-long-2", "search-skipped",
     "search", "runpath"]
    + ["program-" + "dynamic-pie" + "-600", "program-" + "dynamic-pie" + "-3000"]
    + ["program-" + "dynamic-non-pie" + "-600", "program-" + "dynamic-non-pie" + "-3000"]
  }

  /** The length of the path under each key. */
  function Planned(): seq<nat> {
    [600, 3000, 600, 3000, 3000, 3000, 3000, 600, 228, 228, 3000, 3000, 512, 511, 216] + [600, 3000, 600, 3000]
  }

  lemma LayoutIs(i: nat)
    requires i < 19
    ensures |Layout()| == |Keys()| == |Planned()| == 19
    ensures Layout()[i].key == Keys()[i] && Length(Layout()[i].place) == Planned()[i]
  {
  }

  /** A number that tells the keys apart: the length and the last letter. */
  function Code(key: string): int { if key == "" then 0 else 1000 * |key| + key[|key| - 1] as int }

  function Codes(): seq<int> {
    [1097, 1098, 1099, 1100, 1101, 1102, 1103, 7103, 4102, 4112, 13049, 13050, 14100, 6104, 7104, 23048, 24048, 27048,
     28048]
  }

  lemma CodesAre(i: nat)
    requires i < 19
    ensures |Keys()| == |Codes()| == 19 && Code(Keys()[i]) == Codes()[i]
  {
  }

  lemma CodesDiffer(i: nat, j: nat)
    requires i < j < 19
    ensures Codes()[i] != Codes()[j]
  {
  }

  /** The layout has exactly these keys, each with its length. */
  lemma LayoutLengths()
    ensures |Keys()| == |Planned()| == 19
    ensures forall key :: key in Lengths(Layout()) <==> key in Keys()
    ensures forall i :: 0 <= i < 19 ==> Keys()[i] in Lengths(Layout()) && Lengths(Layout())[Keys()[i]] == Planned()[i]
  {
    hide Layout, Keys, Planned, Codes, Length, Lengths, Code;
    LayoutIs(0);
    forall i | 0 <= i < 19
      ensures Layout()[i].key == Keys()[i] && Length(Layout()[i].place) == Planned()[i] && Decides(Layout(), i)
    {
      LayoutIs(i);
      CodesAre(i);
      forall j | i < j < 19
        ensures Layout()[j].key != Layout()[i].key
      {
        LayoutIs(j);
        CodesAre(j);
        CodesDiffer(i, j);
      }
    }
    forall i | 0 <= i < 19
      ensures Keys()[i] in Lengths(Layout()) && Lengths(Layout())[Keys()[i]] == Planned()[i]
    {
      LengthsAre(Layout(), i);
    }
    forall key | key in Lengths(Layout())
      ensures key in Keys()
    {
      LengthsHave(Layout(), key);
      var i :| 0 <= i < |Layout()| && Layout()[i].key == key;
      assert Keys()[i] == key;
    }
  }

  // ----- The layout, entry by entry

  ghost predicate Entry(layout: map<string, string>, key: string, root: string, group: string, total: nat,
                        filename: string) {
    key in layout && IsPadded(root, group, total, filename, layout[key])
  }

  ghost predicate Libraries(layout: map<string, string>, root: string) {
    && Entry(layout, "a", root, "a", 600, "libowned-startup-name-a.so")
    && Entry(layout, "b", root, "b", 3000, "libowned-startup-name-b.so")
    && Entry(layout, "c", root, "c", 600, "libowned-startup-name-c.so")
    && Entry(layout, "d", root, "d", 3000, "libowned-startup-name-d.so")
    && Entry(layout, "e", root, "e", 3000, "libowned-startup-name-e.so")
    && Entry(layout, "f", root, "f", 3000, "libowned-startup-name-f.so")
    && Entry(layout, "g", root, "g", 3000, "libowned-startup-name-g.so")
    && Entry(layout, "missing", root, "missing", 600, "libowned-startup-name-missing.so")
  }

  ghost predicate Searched(layout: map<string, string>, root: string) {
    && Entry(layout, "search-long-1", root, "long", 3000, "libowned-startup-name-search.so")
    && Entry(layout, "search-long-2", root, "longer", 3000, "libowned-startup-name-search.so")
    && Entry(layout, "search-skipped", root, "skipped", 512, "libowned-startup-name-search.so")
    && Entry(layout, "search", root, "fits", 511, "libowned-startup-name-search.so")
  }

  ghost predicate MainPrograms(layout: map<string, string>, root: string, mode: string) {
    && Entry(layout, "program-" + mode + "-600", root, "program600", 600, "main-names-" + mode)
    && Entry(layout, "program-" + mode + "-3000", root, "program3000", 3000, "main-names-" + mode)
  }

  ghost predicate InShort(layout: map<string, string>, short: string) {
    && "leaf" in layout && layout["leaf"] == short + "/" + "libowned-startup-name-leaf.so"
    && "deep" in layout && layout["deep"] == short + "/" + "libowned-startup-name-deep.so"
    && "runpath" in layout && layout["runpath"] == "$ORIGIN:${ORIGIN}:" + short
  }

  /** The nineteen entries: twelve padded libraries, four programs, and three in or of the short directory. */
  ghost predicate Arm(layout: map<string, string>, root: string) {
    && Libraries(layout, root) && Searched(layout, root)
    && MainPrograms(layout, root, "dynamic-pie") && MainPrograms(layout, root, "dynamic-non-pie")
    && exists short :: IsPadded(root, "short", 200, "x", short + "/x") && InShort(layout, short)
  }

  /** Entry `i` is what request `i` asks for: no other request has its key. */
  lemma EntryIsBuilt(root: string, short: string, layout: map<string, string>, i: nat)
    requires i < 19
    requires forall key :: key in layout <==> key in Keys()
    requires forall key :: key in layout ==> HoldsEntry(root, short, Layout(), key, layout[key])
    ensures |Keys()| == |Layout()| == 19
    ensures Keys()[i] in layout && Built(root, short, Layout()[i].place, layout[Keys()[i]])
  {
    hide Layout, Keys, Planned, Codes, Length, Code, Built;
    LayoutIs(i);
    CodesAre(i);
    var key := Keys()[i];
    assert HoldsEntry(root, short, Layout(), key, layout[key]);
    var j :| 0 <= j < |Layout()| && Layout()[j].key == key && Built(root, short, Layout()[j].place, layout[key]);
    LayoutIs(j);
    CodesAre(j);
    if i < j {
      CodesDiffer(i, j);
    } else if j < i {
      CodesDiffer(j, i);
    }
  }

  lemma LibraryKeys()
    ensures |Keys()| == 19 && Keys()[..8] == ["a", "b", "c", "d", "e", "f", "g", "missing"]
  {
  }

  lemma FirstRequests()
    ensures |Layout()| == 19
    ensures Layout()[0].place == Below("a", 600, "libowned-startup-name-a.so")
    ensures Layout()[1].place == Below("b", 3000, "libowned-startup-name-b.so")
    ensures Layout()[2].place == Below("c", 600, "libowned-startup-name-c.so")
    ensures Layout()[3].place == Below("d", 3000, "libowned-startup-name-d.so")
  {
  }

  lemma NextRequests()
    ensures |Layout()| == 19
    ensures Layout()[4].place == Below("e", 3000, "libowned-startup-name-e.so")
    ensures Layout()[5].place == Below("f", 3000, "libowned-startup-name-f.so")
    ensures Layout()[6].place == Below("g", 3000, "libowned-startup-name-g.so")
    ensures Layout()[7].place == Below("missing", 600, "libowned-startup-name-missing.so")
  {
  }

  lemma OtherKeys()
    ensures |Keys()| == 19
    ensures Keys()[8..15] == ["leaf", "deep", "search-long-1", "search-long-2", "search-skipped", "search", "runpath"]
  {
  }

  lemma OtherRequests()
    ensures |Layout()| == 19
    ensures Layout()[8].place == Beside("libowned-startup-name-leaf.so")
    ensures Layout()[9].place == Beside("libowned-startup-name-deep.so")
    ensures Layout()[10].place == Below("long", 3000, "libowned-startup-name-search.so")
    ensures Layout()[11].place == Below("longer", 3000, "libowned-startup-name-search.so")
    ensures Layout()[12].place == Below("skipped", 512, "libowned-startup-name-search.so")
    ensures Layout()[13].place == Below("fits", 511, "libowned-startup-name-search.so")
    ensures Layout()[14].place == Runpath && Origins() == "$ORIGIN:${ORIGIN}:"
  {
  }

  lemma ProgramRequests()
    ensures |Keys()| == |Layout()| == 19
    ensures Keys()[15] == "program-" + "dynamic-pie" + "-600" && Keys()[16] == "program-" + "dynamic-pie" + "-3000"
    ensures Keys()[17] == "program-" + "dynamic-non-pie" + "-600"
    ensures Keys()[18] == "program-" + "dynamic-non-pie" + "-3000"
    ensures Layout()[15].place == Below("program600", 600, "main-names-" + "dynamic-pie")
    ensures Layout()[16].place == Below("program3000", 3000, "main-names-" + "dynamic-pie")
    ensures Layout()[17].place == Below("program600", 600, "main-names-" + "dynamic-non-pie")
    ensures Layout()[18].place == Below("program3000", 3000, "main-names-" + "dynamic-non-pie")
  {
  }

  lemma LibrariesAre(root: string, short: string, layout: map<string, string>)
    requires |Keys()| == |Layout()| == 19
    requires forall i :: 0 <= i < 19 ==> Keys()[i] in layout && Built(root, short, Layout()[i].place, layout[Keys()[i]])
    ensures Libraries(layout, root)
  {
    hide Layout, Keys, IsPadded;
    LibraryKeys();
    FirstRequests();
    NextRequests();
    assert forall i :: 0 <= i < 8 ==> Keys()[i] == Keys()[..8][i];
  }

  lemma OthersAre(root: string, short: string, layout: map<string, string>)
    requires |Keys()| == |Layout()| == 19
    requires forall i :: 0 <= i < 19 ==> Keys()[i] in layout && Built(root, short, Layout()[i].place, layout[Keys()[i]])
    ensures Searched(layout, root) && InShort(layout, short)
  {
    hide Layout, Keys, Origins, IsPadded;
    OtherKeys();
    OtherRequests();
    assert forall i :: 8 <= i < 15 ==> Keys()[i] == Keys()[8..15][i - 8];
  }

  lemma ProgramsAre(root: string, short: string, layout: map<string, string>)
    requires |Keys()| == |Layout()| == 19
    requires forall i :: 0 <= i < 19 ==> Keys()[i] in layout && Built(root, short, Layout()[i].place, layout[Keys()[i]])
    ensures MainPrograms(layout, root, "dynamic-pie") && MainPrograms(layout, root, "dynamic-non-pie")
  {
    hide Layout, Keys, IsPadded;
    ProgramRequests();
  }

  lemma EntriesAre(root: string, layout: map<string, string>)
    requires HoldsEntries(root, Layout(), layout) && forall key :: key in layout <==> key in Keys()
    ensures Arm(layout, root)
  {
    hide Layout, Keys, Built, IsPadded, Libraries, Searched, MainPrograms, InShort;
    var short :| && IsPadded(root, "short", SHORT, "x", short + "/x")
                 && forall key :: key in layout ==> HoldsEntry(root, short, Layout(), key, layout[key]);
    EntryIsBuilt(root, short, layout, 0);
    forall i | 0 <= i < 19
      ensures Keys()[i] in layout && Built(root, short, Layout()[i].place, layout[Keys()[i]])
    {
      EntryIsBuilt(root, short, layout, i);
    }
    LibrariesAre(root, short, layout);
    OthersAre(root, short, layout);
    ProgramsAre(root, short, layout);
  }

  /** What the layout holds, and the length of each entry. */
  ghost predicate Holds(root: string, layout: map<string, string>) {
    && HoldsEntries(root, Layout(), layout) && (forall key :: key in layout <==> key in Keys())
    && |Keys()| == |Planned()| == 19
    && forall i :: 0 <= i < 19 ==> |layout[Keys()[i]]| == Planned()[i]
  }

  lemma LayoutHolds(root: string, layout: map<string, string>)
    requires HoldsEntries(root, Layout(), layout) && layout.Keys == Lengths(Layout()).Keys
    requires forall key :: key in layout ==> |layout[key]| == Lengths(Layout())[key]
    ensures Holds(root, layout) && Arm(layout, root)
  {
    hide Layout, Keys, Planned, Lengths, HoldsEntries, Arm;
    LayoutLengths();
    EntriesAre(root, layout);
  }

  /** The layout of one arm: for roots of at most 184 characters, and with lengths that do not depend on the root. */
  method NamesLayout(root: string) returns (r: Result<map<string, string>>)
    ensures r.Ok? <==> |root| <= 184
    ensures r.Ok? ==> Holds(root, r.value) && Arm(r.value, root)
  {
    hide Layout, Lengths, Fits, HoldsEntries, Holds, Arm;
    LayoutFits(root);
    r := BuildLayout(root, Layout());
    if r.Ok? {
      LayoutHolds(root, r.value);
    }
  }
}
