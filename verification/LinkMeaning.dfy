/**
 * Which linker arguments are refused, replaced and passed on, in characters:
 * prefixes, path components and forwarded options.
 */
module LinkMeaning {
  import opened Paths
  import opened Sequences
  import opened LinkArguments

  // ----- Path components

  /** A piece that stands for no entry. */
  ghost predicate Blank(piece: string) { piece == "" || piece == "." }

  /** `parts` are the pieces that stand for an entry, in their order, at the places `at`. */
  ghost predicate Proper(pieces: seq<string>, parts: seq<string>, at: seq<nat>) {
    && |at| == |parts|
    && (forall k :: 0 <= k < |at| ==> at[k] < |pieces| && parts[k] == pieces[at[k]] && !Blank(parts[k]))
    && (forall k, l :: 0 <= k < l < |at| ==> at[k] < at[l])
    && forall i :: 0 <= i < |pieces| && !Blank(pieces[i]) ==> i in at
  }

  ghost predicate ProperParts(pieces: seq<string>, parts: seq<string>) { exists at :: Proper(pieces, parts, at) }

  lemma {:induction false} NamedSnoc(pieces: seq<string>, last: string)
    ensures Named(pieces + [last]) == Named(pieces) + if Blank(last) then [] else [last]
  {
    if pieces != [] {
      NamedSnoc(pieces[1..], last);
      assert (pieces + [last])[1..] == pieces[1..] + [last];
    }
  }

  lemma ProperSnoc(pieces: seq<string>, last: string, parts: seq<string>, at: seq<nat>)
    requires Proper(pieces, parts, at)
    ensures Blank(last) ==> Proper(pieces + [last], parts, at)
    ensures !Blank(last) ==> Proper(pieces + [last], parts + [last], at + [|pieces|])
  {
    hide Blank;
    var longer, more: seq<nat> := pieces + [last], at + [|pieces|];
    assert forall i :: 0 <= i < |pieces| ==> longer[i] == pieces[i];
    assert forall i :: i in at ==> i in more;
    assert more[|at|] == |pieces| && longer[|pieces|] == last;
  }

  lemma {:induction false} NamedIsProper(pieces: seq<string>) returns (at: seq<nat>)
    ensures Proper(pieces, Named(pieces), at)
  {
    at := [];
    if pieces != [] {
      var n := |pieces| - 1;
      var front := NamedIsProper(pieces[..n]);
      NamedSnoc(pieces[..n], pieces[n]);
      assert pieces[..n] + [pieces[n]] == pieces;
      hide Proper, Named, Blank;
      ProperSnoc(pieces[..n], pieces[n], Named(pieces[..n]), front);
      at := if Blank(pieces[n]) then front else front + [n];
    }
  }

  /** Two lists of places that are sorted and list the same are the same. */
  lemma {:induction false} SortedPlaces(a: seq<nat>, b: seq<nat>)
    requires forall k, l :: 0 <= k < l < |a| ==> a[k] < a[l]
    requires forall k, l :: 0 <= k < l < |b| ==> b[k] < b[l]
    requires forall i :: i in a <==> i in b
    ensures a == b
    decreases |a|
  {
    assert b != [] ==> b[0] in b;
    if a != [] {
      assert a[0] in a && a[0] in b;
      assert b[0] in b && b[0] in a;
      assert a[0] == b[0];
      assert a == [a[0]] + a[1..] && b == [b[0]] + b[1..];
      forall i
        ensures i in a[1..] <==> i in b[1..]
      {
        if i in a[1..] {
          assert i in a && i != a[0];
        }
        if i in b[1..] {
          assert i in b && i != b[0];
        }
      }
      SortedPlaces(a[1..], b[1..]);
    }
  }

  lemma NamedExactly(pieces: seq<string>)
    ensures forall parts :: parts == Named(pieces) <==> ProperParts(pieces, parts)
  {
    var at := NamedIsProper(pieces);
    forall parts | ProperParts(pieces, parts)
      ensures parts == Named(pieces)
    {
      var other :| Proper(pieces, parts, other);
      forall i
        ensures i in at <==> i in other
      {
      }
      SortedPlaces(at, other);
    }
  }

  /** `parts` are the components of the path written as `text`. */
  ghost predicate Components(text: string, parts: seq<string>) {
    exists pieces :: SplitOn(text, '/', pieces) && ProperParts(pieces, parts)
  }

  lemma ComponentsExactly(text: string)
    ensures forall parts :: parts == Parse(text).parts <==> Components(text, parts)
  {
    hide Named, ProperParts, SplitOn;
    PiecesExactly('/', text);
    NamedExactly(Pieces('/', "", text));
    assert SplitOn(text, '/', Pieces('/', "", text));
  }

  lemma {:induction false} PieceFits(separator: char, pieces: seq<string>)
    requires pieces != []
    ensures forall i :: 0 <= i < |pieces| ==> |pieces[i]| <= |Join(separator, pieces)|
  {
    if |pieces| > 1 {
      PieceFits(separator, pieces[1..]);
      assert forall i :: 0 < i < |pieces| ==> pieces[i] == pieces[1..][i - 1];
    }
  }

  lemma ComponentFits(text: string, parts: seq<string>)
    requires Components(text, parts)
    ensures forall k :: 0 <= k < |parts| ==> |parts[k]| <= |text|
  {
    var pieces :| SplitOn(text, '/', pieces) && ProperParts(pieces, parts);
    PieceFits('/', pieces);
  }

  /** One slash in front is the root, and so are three or more; exactly two are a root of their own. */
  ghost predicate Rooted(text: string, root: string) {
    if text == "" || text[0] != '/' then root == ""
    else if |text| > 1 && text[1] == '/' && (|text| == 2 || text[2] != '/') then root == "//"
    else root == "/"
  }

  lemma RootExactly(text: string)
    ensures Rooted(text, Root(text))
  {
    assert "/" <= text <==> text != "" && text[0] == '/';
    assert "//" <= text <==> |text| > 1 && text[0] == '/' && text[1] == '/';
    assert "///" <= text <==> |text| > 2 && text[0] == '/' && text[1] == '/' && text[2] == '/';
  }

  // ----- The classes of arguments

  const REQUESTS := {"-lgcc", "-lgcc_s", "-lunwind"}

  ghost predicate StartsLikeUnwinder(name: string) {
    exists rest :: name in {"gcc" + rest, "libgcc" + rest, "unwind" + rest, "libunwind" + rest}
  }

  /** A library option for an unwinder, or a path whose last component is one. */
  ghost predicate AsksForUnwinder(argument: string) {
    || (exists name :: argument in {"-l" + name, "-l:" + name} && StartsLikeUnwinder(name))
    || ((argument == "-l" || !("-l" <= argument))
        && exists parts :: Components(argument, parts) && parts != [] && StartsLikeUnwinder(parts[|parts| - 1]))
  }

  lemma PrefixExactly(prefix: string, text: string)
    ensures prefix <= text <==> exists rest :: text == prefix + rest
  {
    if prefix <= text {
      assert text == prefix + text[|prefix|..];
    }
  }

  lemma NamesExactly(name: string)
    ensures NamesUnwinder(name) <==> StartsLikeUnwinder(name)
  {
    PrefixExactly("gcc", name);
    PrefixExactly("libgcc", name);
    PrefixExactly("unwind", name);
    PrefixExactly("libunwind", name);
  }

  lemma OptionName(argument: string, name: string)
    requires argument in {"-l" + name, "-l:" + name} && StartsLikeUnwinder(name)
    ensures IsForeign(argument)
  {
    NamesExactly(name);
    assert name != "" && name[0] != ':';
    if argument == "-l:" + name {
      assert argument[3..] == name;
    } else {
      assert argument[2..] == name && argument[2] == name[0];
    }
  }

  lemma ForeignExactly(argument: string)
    ensures IsForeign(argument) <==> AsksForUnwinder(argument)
  {
    hide NamesUnwinder, StartsLikeUnwinder, Components;
    if name :| argument in {"-l" + name, "-l:" + name} && StartsLikeUnwinder(name) {
      OptionName(argument, name);
    }
    if "-l:" <= argument {
      assert argument == "-l:" + argument[3..];
      NamesExactly(argument[3..]);
    } else if "-l" <= argument && |argument| > 2 {
      assert argument == "-l" + argument[2..];
      NamesExactly(argument[2..]);
    } else {
      ComponentsExactly(argument);
      var parts := Parse(argument).parts;
      NamesExactly(Parse(argument).Name());
      EmptyIsNone();
      assert "-l" <= argument ==> argument == "-l";
    }
  }

  lemma EmptyIsNone()
    ensures !StartsLikeUnwinder("")
  {
    NamesExactly("");
  }

  /** The argument is `-Wl` and these options, each after a comma. */
  ghost predicate Forwards(argument: string, options: seq<string>) {
    options != [] && SplitOn(argument, ',', ["-Wl"] + options)
  }

  lemma OptionsExactly(argument: string)
    ensures "-Wl," <= argument <==> exists options :: Forwards(argument, options)
    ensures forall options :: Forwards(argument, options) ==> options == Options(argument)
    ensures "-Wl," <= argument ==> Forwards(argument, Options(argument))
  {
    PiecesExactly(',', argument);
    var pieces := Pieces(',', "", argument);
    assert SplitOn(argument, ',', pieces);
    FirstPiece(argument, ',', pieces);
    forall options | Forwards(argument, options)
      ensures options == Options(argument) && "-Wl," <= argument
    {
      assert pieces == ["-Wl"] + options;
      assert pieces[0] == "-Wl" && |argument| > 3;
    }
    if "-Wl," <= argument {
      assert argument[3] == ',' && argument[..3] == "-Wl";
      FirstIsWl(argument, pieces);
      assert pieces == ["-Wl"] + Options(argument);
      assert Forwards(argument, Options(argument));
    }
  }

  lemma FirstIsWl(argument: string, pieces: seq<string>)
    requires "-Wl," <= argument && SplitOn(argument, ',', pieces)
    ensures pieces[0] == "-Wl" && |pieces| > 1
  {
    hide Join;
    FirstPiece(argument, ',', pieces);
    var n := |pieces[0]|;
    assert argument[0] == '-' && argument[1] == 'W' && argument[2] == 'l' && argument[3] == ',';
    assert forall k :: 0 <= k < n ==> pieces[0][k] == argument[k] && argument[k] != ',';
    assert n == 3;
    assert pieces[0] == argument[..3];
  }

  ghost predicate HasResponse(options: seq<string>) {
    exists i :: 0 <= i < |options| && options[i] != "" && options[i][0] == '@'
  }

  /** Some option asks for an unwinder; one that follows a lone `-l` is an option too. */
  ghost predicate HasUnwinder(options: seq<string>) {
    exists i :: 0 <= i < |options| && (options[i] in REQUESTS || AsksForUnwinder(options[i]))
  }

  ghost predicate IsResponse(argument: string) {
    (argument != "" && argument[0] == '@') || exists options :: Forwards(argument, options) && HasResponse(options)
  }

  ghost predicate HexDigits(text: string) {
    text != "" && forall i :: 0 <= i < |text| ==> text[i] in "0123456789abcdef"
  }

  /** The archive `libunwind-<hexadecimal digits>.rlib` in the stock directory. */
  ghost predicate IsStockArchive(argument: string, libdir: PurePath) {
    exists hash ::
      && HexDigits(hash)
      && Components(argument, libdir.parts + ["libunwind-" + hash + ".rlib"]) && Rooted(argument, libdir.root)
  }

  lemma HexExactly(hash: string)
    ensures IsHash(hash) <==> HexDigits(hash)
  {
    forall c: char
      ensures '0' <= c <= '9' || 'a' <= c <= 'f' <==> c in "0123456789abcdef"
    {
      HexadecimalDigit(c);
    }
  }

  lemma StockNameExactly(name: string)
    ensures IsStockName(name) <==> exists hash :: IsHash(hash) && name == "libunwind-" + hash + ".rlib"
  {
    if IsStockName(name) {
      assert name == "libunwind-" + name[10..|name| - 5] + ".rlib";
    }
    if hash :| IsHash(hash) && name == "libunwind-" + hash + ".rlib" {
      assert name[..10] == "libunwind-" && name[|name| - 5..] == ".rlib" && name[10..|name| - 5] == hash;
    }
  }

  lemma StockIsArchive(argument: string, libdir: PurePath)
    requires IsStock(argument, libdir)
    ensures IsStockArchive(argument, libdir)
  {
    hide Components, IsHash, IsStockName, HexDigits;
    ComponentsExactly(argument);
    RootExactly(argument);
    var path := Parse(argument);
    StockNameExactly(path.Name());
    var hash :| IsHash(hash) && path.Name() == "libunwind-" + hash + ".rlib";
    HexExactly(hash);
    assert path.Name() != "";
    assert path.parts == path.parts[..|path.parts| - 1] + [path.Name()];
  }

  lemma ArchiveIsStock(argument: string, libdir: PurePath, hash: string)
    requires IsHash(hash)
    requires Parse(argument) == PurePath(libdir.root, libdir.parts + ["libunwind-" + hash + ".rlib"])
    ensures IsStock(argument, libdir) && argument !in REQUESTS
  {
    hide Parse, IsHash, IsStockName;
    var path, name := Parse(argument), "libunwind-" + hash + ".rlib";
    StockNameExactly(name);
    assert path.parts[..|path.parts| - 1] == libdir.parts && path.Name() == name;
    LongerThanRequests(argument, path.parts, hash);
  }

  lemma HashOfArchive(argument: string, libdir: PurePath) returns (hash: string)
    requires IsStockArchive(argument, libdir)
    ensures IsHash(hash) && Parse(argument) == PurePath(libdir.root, libdir.parts + ["libunwind-" + hash + ".rlib"])
  {
    hide Components, IsHash, HexDigits;
    ComponentsExactly(argument);
    RootExactly(argument);
    hash :| HexDigits(hash) && Components(argument, libdir.parts + ["libunwind-" + hash + ".rlib"])
            && Rooted(argument, libdir.root);
    HexExactly(hash);
  }

  lemma LongerThanRequests(argument: string, parts: seq<string>, hash: string)
    requires parts == Parse(argument).parts && parts != [] && parts[|parts| - 1] == "libunwind-" + hash + ".rlib"
    ensures argument !in REQUESTS
  {
    hide Parse, Components;
    ComponentsExactly(argument);
    ComponentFits(argument, parts);
    assert |parts[|parts| - 1]| >= 15;
  }

  lemma StockExactly(argument: string, libdir: PurePath)
    ensures IsStock(argument, libdir) <==> IsStockArchive(argument, libdir)
    ensures IsStockArchive(argument, libdir) ==> argument !in REQUESTS
  {
    hide IsStock, IsStockArchive;
    if IsStock(argument, libdir) {
      StockIsArchive(argument, libdir);
    }
    if IsStockArchive(argument, libdir) {
      var hash := HashOfArchive(argument, libdir);
      ArchiveIsStock(argument, libdir, hash);
    }
  }

  // ----- Roles

  /** The argument is neither a request nor the stock archive, and brings in an unwinder or could hide one. */
  ghost predicate IsRefused(argument: string, libdir: PurePath) {
    || IsResponse(argument) || argument in {"-l", "-Xlinker"}
    || (argument !in REQUESTS && !IsStockArchive(argument, libdir)
        && (AsksForUnwinder(argument) || exists options :: Forwards(argument, options) && HasUnwinder(options)))
  }

  lemma ResponseExactly(argument: string)
    ensures IsResponse(argument) <==> "@" <= argument || ("-Wl," <= argument && ForwardsResponse(argument))
  {
    hide SplitOn;
    OptionsExactly(argument);
    var options := Options(argument);
    assert forall o: string :: "@" <= o <==> o != "" && o[0] == '@';
    assert ForwardsResponse(argument) <==> HasResponse(options);
  }

  lemma UnwinderExactly(argument: string)
    ensures "-Wl," <= argument && ForwardsForeign(argument) <==>
            exists options :: Forwards(argument, options) && HasUnwinder(options)
  {
    hide SplitOn, AsksForUnwinder, IsForeign;
    OptionsExactly(argument);
    var options := Options(argument);
    forall o
      ensures IsForeign(o) <==> AsksForUnwinder(o)
    {
      ForeignExactly(o);
    }
    EmptyIsPlain();
    assert ForwardsForeign(argument) <==> HasUnwinder(options);
  }

  lemma EmptyIsPlain()
    ensures !IsForeign("")
  {
    assert Parse("").parts == [];
  }

  /** Every argument is refused, a request, the stock archive or passed on, by these characters alone. */
  lemma RolesExactly(argument: string, libdir: PurePath)
    ensures RoleOf(argument, libdir).Refused? <==> IsRefused(argument, libdir)
    ensures RoleOf(argument, libdir).Request? <==> argument in REQUESTS
    ensures RoleOf(argument, libdir).Stock? <==> IsStockArchive(argument, libdir) && !IsRefused(argument, libdir)
    ensures RoleOf(argument, libdir).Plain? <==>
            !IsRefused(argument, libdir) && argument !in REQUESTS && !IsStockArchive(argument, libdir)
  {
    ResponseExactly(argument);
    UnwinderExactly(argument);
    ForeignExactly(argument);
    StockExactly(argument, libdir);
    RequestIsNoResponse(argument);
    hide IsResponse, ForwardsResponse, ForwardsForeign, IsForeign, AsksForUnwinder, IsStock, IsStockArchive,
         Forwards, HasUnwinder;
  }

  lemma RequestIsNoResponse(argument: string)
    ensures argument in REQUESTS ==> !("@" <= argument) && !("-Wl," <= argument)
  {
    if argument in REQUESTS {
      assert argument[0] == '-' && argument[1] == 'l';
    }
  }

  /** What is said of a refused argument. */
  ghost function Reason(argument: string): string {
    if IsResponse(argument) then "response file is not admitted: " + argument
    else if argument == "-l" || argument == "-Xlinker" then
      "alternate linker library spelling is not admitted: " + argument
    else if AsksForUnwinder(argument) then "foreign unwind runtime input: " + argument
    else "foreign unwind runtime linker option: " + argument
  }

  lemma ReasonsExactly(argument: string, libdir: PurePath)
    requires IsRefused(argument, libdir)
    ensures RoleOf(argument, libdir) == Refused(Reason(argument))
  {
    RolesExactly(argument, libdir);
    ResponseExactly(argument);
    ForeignExactly(argument);
    hide IsResponse, IsRefused, ForwardsResponse, ForwardsForeign, IsForeign, AsksForUnwinder, IsStock, IsStockArchive;
  }

  // ----- Admission

  ghost predicate OnlyAt(roles: seq<Role>, role: Role, i: nat) {
    i < |roles| && roles[i] == role && forall j :: 0 <= j < |roles| && j != i ==> roles[j] != role
  }

  lemma OnlyAtStep(front: seq<Role>, last: Role, role: Role, i: nat)
    ensures OnlyAt(front + [last], role, i) <==>
            if i == |front| then last == role && role !in front else OnlyAt(front, role, i) && last != role
  {
    var roles := front + [last];
    assert forall j :: 0 <= j < |front| ==> roles[j] == front[j];
    assert roles[|front|] == last;
    assert role in front <==> exists j :: 0 <= j < |front| && roles[j] == role;
  }

  lemma {:induction false} CountOne(roles: seq<Role>, role: Role)
    ensures Count(roles, role) == 1 <==> exists i: nat :: OnlyAt(roles, role, i)
  {
    if roles != [] {
      var n := |roles| - 1;
      var front := roles[..n];
      CountOne(front, role);
      CountIsMembership(front, role);
      assert roles == front + [roles[n]];
      hide OnlyAt;
      forall i: nat
        ensures OnlyAt(roles, role, i) <==>
                if i == n then roles[n] == role && role !in front else OnlyAt(front, role, i) && roles[n] != role
      {
        OnlyAtStep(front, roles[n], role, i);
      }
      assert !OnlyAt(front, role, n) by {
        assert |front| == n;
        OnlyAtBound(front, role, n);
      }
    }
  }

  lemma OnlyAtBound(roles: seq<Role>, role: Role, i: nat)
    ensures OnlyAt(roles, role, i) ==> i < |roles|
  {
  }

  ghost predicate OneStock(arguments: seq<string>, libdir: PurePath, i: nat) {
    && i < |arguments| && IsStockArchive(arguments[i], libdir)
    && forall j :: 0 <= j < |arguments| && j != i ==> !IsStockArchive(arguments[j], libdir)
  }

  /**
   * The linker is called exactly when nothing is refused, some library is requested and one argument
   * is the stock archive.
   */
  lemma AdmissibleExactly(arguments: seq<string>, libdir: PurePath)
    ensures Admissible(arguments, libdir) <==>
            && (forall i :: 0 <= i < |arguments| ==> !IsRefused(arguments[i], libdir))
            && (exists i :: 0 <= i < |arguments| && arguments[i] in REQUESTS)
            && exists i: nat :: OneStock(arguments, libdir, i)
  {
    hide RoleOf, IsRefused, IsStockArchive, Count;
    var roles := Roles(arguments, libdir);
    forall i | 0 <= i < |arguments|
      ensures roles[i].Refused? <==> IsRefused(arguments[i], libdir)
      ensures roles[i] == Request <==> arguments[i] in REQUESTS
      ensures roles[i] == Stock <==> IsStockArchive(arguments[i], libdir) && !IsRefused(arguments[i], libdir)
    {
      RolesExactly(arguments[i], libdir);
    }
    CountOne(roles, Stock);
    RequestsAreThere(arguments, libdir);
    if NoneRefused(roles) {
      forall i: nat
        ensures OnlyAt(roles, Stock, i) <==> OneStock(arguments, libdir, i)
      {
      }
    }
    assert NoneRefused(roles) <==> forall i :: 0 <= i < |arguments| ==> !IsRefused(arguments[i], libdir) by {
      forall i | 0 <= i < |arguments|
        ensures roles[i].Refused? <==> IsRefused(arguments[i], libdir)
      {
      }
    }
  }

  ghost predicate FirstRefused(arguments: seq<string>, libdir: PurePath, i: nat) {
    && i < |arguments| && IsRefused(arguments[i], libdir)
    && forall j :: 0 <= j < i ==> !IsRefused(arguments[j], libdir)
  }

  lemma FirstRefusedIs(arguments: seq<string>, libdir: PurePath, i: nat, reason: string)
    requires i < |arguments|
    ensures var roles := Roles(arguments, libdir);
            NoneRefused(roles[..i]) && roles[i] == Refused(reason) <==>
            FirstRefused(arguments, libdir, i) && reason == Reason(arguments[i])
  {
    hide RoleOf, IsRefused, Reason;
    var roles := Roles(arguments, libdir);
    forall j | 0 <= j < |arguments|
      ensures roles[j].Refused? <==> IsRefused(arguments[j], libdir)
      ensures roles[j].Refused? ==> roles[j] == Refused(Reason(arguments[j]))
    {
      RolesExactly(arguments[j], libdir);
      if IsRefused(arguments[j], libdir) {
        ReasonsExactly(arguments[j], libdir);
      }
    }
    assert forall j :: 0 <= j < i ==> roles[..i][j] == roles[j];
    assert NoneRefused(roles[..i]) <==> forall j :: 0 <= j < i ==> !roles[j].Refused?;
    if forall j :: 0 <= j < i ==> !roles[j].Refused? {
      forall j | 0 <= j < i
        ensures !IsRefused(arguments[j], libdir)
      {
        assert !roles[j].Refused?;
      }
    }
  }

  /**
   * What the driver says when it fails: why the first refused argument is
   * refused, or else that no library is requested, or else that the stock
   * archive is not there once.
   */
  lemma ExplainsExactly(arguments: seq<string>, libdir: PurePath, reason: string)
    ensures forall i: nat :: FirstRefused(arguments, libdir, i) ==>
              (Explains(Roles(arguments, libdir), reason) <==> reason == Reason(arguments[i]))
    ensures (forall i :: 0 <= i < |arguments| ==> !IsRefused(arguments[i], libdir)) ==>
              (Explains(Roles(arguments, libdir), reason) <==>
               reason == if exists i :: 0 <= i < |arguments| && arguments[i] in REQUESTS
                         then "expected exactly one stock Rust libunwind archive"
                         else "missing Rust standard unwind request")
  {
    hide RoleOf, IsRefused, Reason;
    var roles := Roles(arguments, libdir);
    forall i | 0 <= i < |arguments|
      ensures roles[i].Refused? <==> IsRefused(arguments[i], libdir)
    {
      RolesExactly(arguments[i], libdir);
    }
    forall i: nat | FirstRefused(arguments, libdir, i)
      ensures Explains(roles, reason) <==> reason == Reason(arguments[i])
    {
      FirstExplains(arguments, libdir, i, reason);
    }
    if forall i :: 0 <= i < |arguments| ==> !IsRefused(arguments[i], libdir) {
      forall i | 0 <= i < |roles|
        ensures !roles[i].Refused?
      {
        assert !IsRefused(arguments[i], libdir);
      }
      RequestsAreThere(arguments, libdir);
    }
  }

  lemma RequestsAreThere(arguments: seq<string>, libdir: PurePath)
    ensures Request in Roles(arguments, libdir) <==> exists i :: 0 <= i < |arguments| && arguments[i] in REQUESTS
  {
    hide RoleOf;
    var roles := Roles(arguments, libdir);
    forall i | 0 <= i < |arguments|
      ensures roles[i] == Request <==> arguments[i] in REQUESTS
    {
      RolesExactly(arguments[i], libdir);
    }
    if i :| 0 <= i < |arguments| && arguments[i] in REQUESTS {
      assert roles[i] == Request;
    }
    if Request in roles {
      var i :| 0 <= i < |roles| && roles[i] == Request;
      assert arguments[i] in REQUESTS;
    }
  }

  lemma FirstExplains(arguments: seq<string>, libdir: PurePath, i: nat, reason: string)
    requires FirstRefused(arguments, libdir, i)
    ensures Explains(Roles(arguments, libdir), reason) <==> reason == Reason(arguments[i])
  {
    hide RoleOf, IsRefused, Reason;
    var roles := Roles(arguments, libdir);
    FirstRefusedIs(arguments, libdir, i, Reason(arguments[i]));
    ExplainsFirst(roles, i);
    if Explains(roles, reason) {
      var k :| 0 <= k < |roles| && NoneRefused(roles[..k]) && roles[k] == Refused(reason);
      FirstRefusedIs(arguments, libdir, k, reason);
      assert k == i;
    }
  }
}
