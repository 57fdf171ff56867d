/**
 * The translation of rustc's linker arguments: ambient unwind-library
 * requests give way to one selected archive, and anything that could bring in
 * another unwind runtime is refused.
 */
module LinkArguments {
  import Paths
  import opened Wrappers

  // ----- Paths and options

  /** A lexical path: no empty and no `.` component, and the root it starts from. */
  datatype PurePath = PurePath(root: string, parts: seq<string>) {
    function Name(): string { if parts == [] then "" else parts[|parts| - 1] }

    function Parent(): PurePath { if parts == [] then this else PurePath(root, parts[..|parts| - 1]) }
  }

  function Named(pieces: seq<string>): seq<string> {
    if pieces == [] then []
    else (if pieces[0] == "" || pieces[0] == "." then [] else [pieces[0]]) + Named(pieces[1..])
  }

  /** POSIX keeps two leading slashes apart from one, and reads more of them as one. */
  function Root(text: string): string {
    if "//" <= text && !("///" <= text) then "//" else if "/" <= text then "/" else ""
  }

  function Parse(text: string): PurePath {
    PurePath(Root(text), Named(Paths.Pieces('/', "", text)))
  }

  /** The options a `-Wl,` argument forwards. */
  function Options(argument: string): seq<string> {
    Paths.Pieces(',', "", argument)[1..]
  }

  // ----- Classification

  predicate IsRequest(argument: string) { argument in {"-lgcc", "-lgcc_s", "-lunwind"} }

  predicate NamesUnwinder(name: string) {
    "libgcc" <= name || "libunwind" <= name || "gcc" <= name || "unwind" <= name
  }

  predicate IsForeign(argument: string) {
    NamesUnwinder(
      if "-l:" <= argument then argument[3..]
      else if "-l" <= argument && |argument| > 2 then argument[2..]
      else Parse(argument).Name())
  }

  predicate ForwardsForeign(argument: string) {
    var options := Options(argument);
    exists i :: 0 <= i < |options| && (
        || IsRequest(options[i])
        || IsForeign(options[i])
        || (options[i] == "-l" && IsForeign(if i + 1 < |options| then options[i + 1] else "")))
  }

  predicate ForwardsResponse(argument: string) {
    exists i :: 0 <= i < |Options(argument)| && "@" <= Options(argument)[i]
  }

  predicate IsHash(text: string) {
    text != "" && forall i :: 0 <= i < |text| ==> '0' <= text[i] <= '9' || 'a' <= text[i] <= 'f'
  }

  /** `libunwind-` and `.rlib` around one or more lower-case hexadecimal digits. */
  predicate IsStockName(name: string) {
    && |name| > 15
    && name[..10] == "libunwind-"
    && name[|name| - 5..] == ".rlib"
    && IsHash(name[10..|name| - 5])
  }

  predicate IsStock(argument: string, libdir: PurePath) {
    Parse(argument).Parent() == libdir && IsStockName(Parse(argument).Name())
  }

  /** What the translation makes of one argument. */
  datatype Role = Refused(reason: string) | Request | Stock | Plain

  function RoleOf(argument: string, libdir: PurePath): Role {
    if "@" <= argument || ("-Wl," <= argument && ForwardsResponse(argument)) then
      Refused("response file is not admitted: " + argument)
    else if argument == "-l" || argument == "-Xlinker" then
      Refused("alternate linker library spelling is not admitted: " + argument)
    else if IsRequest(argument) then Request
    else if IsStock(argument, libdir) then Stock
    else if IsForeign(argument) then Refused("foreign unwind runtime input: " + argument)
    else if "-Wl," <= argument && ForwardsForeign(argument) then
      Refused("foreign unwind runtime linker option: " + argument)
    else Plain
  }

  function Roles(arguments: seq<string>, libdir: PurePath): seq<Role> {
    seq(|arguments|, i requires 0 <= i < |arguments| => RoleOf(arguments[i], libdir))
  }

  // ----- The translation as a whole

  /** The places of the arguments that pass through, in order. */
  function Passing(roles: seq<Role>): (r: seq<nat>)
    ensures forall k :: 0 <= k < |r| ==> r[k] < |roles| && roles[r[k]].Plain?
    ensures forall k, l :: 0 <= k < l < |r| ==> r[k] < r[l]
    ensures forall i :: 0 <= i < |roles| && roles[i].Plain? ==> i in r
  {
    if roles == [] then []
    else
      var last := |roles| - 1;
      var rest := Passing(roles[..last]);
      if roles[last].Plain? then rest + [last] else rest
  }

  function Pick(arguments: seq<string>, places: seq<nat>): (r: seq<string>)
    requires forall k :: 0 <= k < |places| ==> places[k] < |arguments|
    ensures |r| == |places| && forall k :: 0 <= k < |r| ==> r[k] == arguments[places[k]]
  {
    seq(|places|, k requires 0 <= k < |places| => arguments[places[k]])
  }

  /** The arguments of `arguments` that pass through. */
  function Passed(arguments: seq<string>, libdir: PurePath): seq<string> {
    Pick(arguments, Passing(Roles(arguments, libdir)))
  }

  function Count(roles: seq<Role>, role: Role): nat {
    if roles == [] then 0
    else Count(roles[..|roles| - 1], role) + if roles[|roles| - 1] == role then 1 else 0
  }

  /** The first index with this role, or the length. */
  function First(roles: seq<Role>, role: Role): (r: nat)
    ensures r <= |roles|
    ensures r < |roles| ==> roles[r] == role
    ensures forall i :: 0 <= i < r ==> roles[i] != role
  {
    if roles == [] then 0
    else
      var r := First(roles[..|roles| - 1], role);
      if r < |roles| - 1 || roles[|roles| - 1] == role then r else |roles|
  }

  predicate NoneRefused(roles: seq<Role>) {
    forall i :: 0 <= i < |roles| ==> !roles[i].Refused?
  }

  /** Whether the linker may be called at all. */
  predicate Admissible(arguments: seq<string>, libdir: PurePath) {
    var roles := Roles(arguments, libdir);
    NoneRefused(roles) && Request in roles && Count(roles, Stock) == 1
  }

  /** What passes through, with the archive in the place of the first request. */
  function Translated(arguments: seq<string>, archive: string, libdir: PurePath): seq<string> {
    var f := First(Roles(arguments, libdir), Request);
    if f == |arguments| then Passed(arguments, libdir)
    else Passed(arguments[..f], libdir) + [archive] + Passed(arguments[f + 1..], libdir)
  }

  lemma PassedStep(arguments: seq<string>, last: string, libdir: PurePath)
    ensures Roles(arguments + [last], libdir) == Roles(arguments, libdir) + [RoleOf(last, libdir)]
    ensures Passed(arguments + [last], libdir)
            == Passed(arguments, libdir) + if RoleOf(last, libdir).Plain? then [last] else []
  {
    hide RoleOf;
    var roles := Roles(arguments, libdir);
    assert (roles + [RoleOf(last, libdir)])[..|roles|] == roles;
  }

  /** One more argument adds itself, the archive or nothing to the translation. */
  lemma TranslatedStep(arguments: seq<string>, last: string, archive: string, libdir: PurePath)
    ensures var roles := Roles(arguments, libdir);
            var role := RoleOf(last, libdir);
            Translated(arguments + [last], archive, libdir)
            == Translated(arguments, archive, libdir)
               + if role.Plain? then [last] else if role.Request? && Request !in roles then [archive] else []
  {
    hide RoleOf, Passed, First;
    var roles := Roles(arguments, libdir);
    var role := RoleOf(last, libdir);
    var longer := arguments + [last];
    PassedStep(arguments, last, libdir);
    FirstStep(roles, role, Request);
    var f := First(roles, Request);
    if f < |arguments| {
      assert longer[..f] == arguments[..f];
      assert longer[f + 1..] == arguments[f + 1..] + [last];
      PassedStep(arguments[f + 1..], last, libdir);
    } else if role.Request? {
      assert longer[..|arguments|] == arguments;
      assert longer[|arguments| + 1..] == [];
      NothingPassed(archive, libdir);
    }
  }

  lemma FirstStep(roles: seq<Role>, last: Role, role: Role)
    ensures First(roles, role) < |roles| <==> role in roles
    ensures First(roles + [last], role)
            == if role in roles || last == role then First(roles, role) else |roles| + 1
    ensures Count(roles + [last], role) == Count(roles, role) + if last == role then 1 else 0
  {
    assert (roles + [last])[..|roles|] == roles;
  }

  function Missing(): string { "missing Rust standard unwind request" }

  function Miscounted(): string { "expected exactly one stock Rust libunwind archive" }

  /** The first refused argument's reason, or which of the two counts is off. */
  predicate Explains(roles: seq<Role>, reason: string) {
    if NoneRefused(roles) then reason == if Request in roles then Miscounted() else Missing()
    else exists i :: 0 <= i < |roles| && NoneRefused(roles[..i]) && roles[i] == Refused(reason)
  }

  lemma ExplainsFirst(roles: seq<Role>, n: nat)
    requires n < |roles| && roles[n].Refused? && NoneRefused(roles[..n])
    ensures Explains(roles, roles[n].reason) && !NoneRefused(roles)
  {
    assert roles[n] == Refused(roles[n].reason);
  }

  /** What one turn of the loop has to know. */
  lemma Turn(arguments: seq<string>, n: nat, archive: string, libdir: PurePath)
    requires n < |arguments|
    ensures var roles := Roles(arguments, libdir);
            var role := roles[n];
            && (NoneRefused(roles[..n + 1]) <==> NoneRefused(roles[..n]) && !role.Refused?)
            && (Request in roles[..n + 1] <==> Request in roles[..n] || role.Request?)
            && Count(roles[..n + 1], Stock) == Count(roles[..n], Stock) + (if role.Stock? then 1 else 0)
            && Translated(arguments[..n + 1], archive, libdir)
               == Translated(arguments[..n], archive, libdir)
                  + (if role.Plain? then [arguments[n]]
                     else if role.Request? && Request !in roles[..n] then [archive] else [])
  {
    hide RoleOf, First, Translated;
    var roles := Roles(arguments, libdir);
    assert arguments[..n + 1] == arguments[..n] + [arguments[n]];
    assert roles[..n + 1] == roles[..n] + [roles[n]];
    assert Roles(arguments[..n], libdir) == roles[..n];
    TranslatedStep(arguments[..n], arguments[n], archive, libdir);
    FirstStep(roles[..n], roles[n], Stock);
  }

  /**
   * The driver's loop: it succeeds exactly on admissible arguments, returns
   * their translation, and otherwise names the first refused argument or else
   * the count that is off.
   */
  method Translate(arguments: seq<string>, archive: string, libdir: PurePath) returns (r: Result<seq<string>>)
    ensures r.Ok? <==> Admissible(arguments, libdir)
    ensures r.Ok? ==> r.value == Translated(arguments, archive, libdir)
    ensures r.Err? ==> Explains(Roles(arguments, libdir), r.reason)
  {
    hide RoleOf, First, Translated, Missing, Miscounted;
    var translated, inserted, replaced := [], false, 0;
    ghost var roles := Roles(arguments, libdir);
    NothingPassed(archive, libdir);
    for n := 0 to |arguments|
      invariant NoneRefused(roles[..n])
      invariant inserted <==> Request in roles[..n]
      invariant replaced == Count(roles[..n], Stock)
      invariant translated == Translated(arguments[..n], archive, libdir)
    {
      var argument := arguments[n];
      var role := RoleOf(argument, libdir);
      Turn(arguments, n, archive, libdir);
      match role
      case Refused(reason) =>
        ExplainsFirst(roles, n);
        return Err(reason);
      case Request =>
        if !inserted {
          translated := translated + [archive];
          inserted := true;
        }
      case Stock =>
        replaced := replaced + 1;
      case Plain =>
        translated := translated + [argument];
    }
    assert roles[..|arguments|] == roles && arguments[..|arguments|] == arguments;
    if !inserted {
      return Err(Missing());
    }
    if replaced != 1 {
      return Err(Miscounted());
    }
    return Ok(translated);
  }

  lemma NothingPassed(archive: string, libdir: PurePath)
    ensures Passed([], libdir) == Translated([], archive, libdir) == []
  {
    assert Roles([], libdir) == [];
  }

  // ----- What a successful translation is

  lemma {:induction false} PassedSplit(head: seq<string>, tail: seq<string>, libdir: PurePath)
    ensures Passed(head + tail, libdir) == Passed(head, libdir) + Passed(tail, libdir)
    decreases |tail|
  {
    hide RoleOf, Passed;
    if tail == [] {
      assert head + tail == head;
      NothingPassed("", libdir);
    } else {
      var n := |tail| - 1;
      PassedSplit(head, tail[..n], libdir);
      PassedStep(head + tail[..n], tail[n], libdir);
      PassedStep(tail[..n], tail[n], libdir);
      assert head + tail == (head + tail[..n]) + [tail[n]] && tail == tail[..n] + [tail[n]];
    }
  }

  lemma {:induction false} EveryRoleIsCounted(roles: seq<Role>)
    requires NoneRefused(roles)
    ensures |Passing(roles)| + Count(roles, Request) + Count(roles, Stock) == |roles|
  {
    if roles != [] {
      EveryRoleIsCounted(roles[..|roles| - 1]);
    }
  }

  lemma {:induction false} CountIsMembership(roles: seq<Role>, role: Role)
    ensures Count(roles, role) > 0 <==> role in roles
  {
    if roles != [] {
      var n := |roles| - 1;
      CountIsMembership(roles[..n], role);
      assert roles == roles[..n] + [roles[n]];
    }
  }

  /** Neither a request, a stock archive, a foreign runtime nor a way to hide one. */
  predicate Harmless(argument: string, libdir: PurePath) {
    && !IsRequest(argument) && !IsStock(argument, libdir) && !IsForeign(argument)
    && !("@" <= argument) && argument != "-l" && argument != "-Xlinker"
    && ("-Wl," <= argument ==> !ForwardsResponse(argument) && !ForwardsForeign(argument))
  }

  lemma PlainIsHarmless(argument: string, libdir: PurePath)
    ensures RoleOf(argument, libdir).Plain? <==> Harmless(argument, libdir)
  {
    hide IsRequest, IsStock, IsForeign, ForwardsResponse, ForwardsForeign;
  }

  lemma PassedAreHarmless(arguments: seq<string>, libdir: PurePath)
    ensures forall k :: 0 <= k < |Passed(arguments, libdir)| ==> Harmless(Passed(arguments, libdir)[k], libdir)
  {
    hide RoleOf, Harmless;
    forall k | 0 <= k < |Passed(arguments, libdir)|
      ensures Harmless(Passed(arguments, libdir)[k], libdir)
    {
      PlainIsHarmless(Passed(arguments, libdir)[k], libdir);
    }
  }

  /** `out` is `kept` with the archive put in at `p`. */
  predicate InsertedAt(out: seq<string>, kept: seq<string>, archive: string, p: nat) {
    p <= |kept| && out == kept[..p] + [archive] + kept[p..]
  }

  lemma PassedLength(arguments: seq<string>, libdir: PurePath)
    ensures |Passed(arguments, libdir)| == |Passing(Roles(arguments, libdir))|
  {
    hide RoleOf;
  }

  lemma TranslatedParts(arguments: seq<string>, archive: string, libdir: PurePath) returns (p: nat)
    requires Admissible(arguments, libdir)
    ensures InsertedAt(Translated(arguments, archive, libdir), Passed(arguments, libdir), archive, p)
    ensures p == |Passed(arguments[..First(Roles(arguments, libdir), Request)], libdir)|
  {
    hide RoleOf, Passed, Count;
    var roles := Roles(arguments, libdir);
    FirstStep(roles, Plain, Request);
    var f := First(roles, Request);
    hide First;
    var head, tail := Passed(arguments[..f], libdir), Passed(arguments[f + 1..], libdir);
    p := |head|;
    assert arguments == (arguments[..f] + [arguments[f]]) + arguments[f + 1..];
    PassedSplit(arguments[..f] + [arguments[f]], arguments[f + 1..], libdir);
    PassedStep(arguments[..f], arguments[f], libdir);
    assert Passed(arguments, libdir) == head + tail;
  }

  lemma TranslatedLength(arguments: seq<string>, archive: string, libdir: PurePath, p: nat)
    requires Admissible(arguments, libdir)
    requires InsertedAt(Translated(arguments, archive, libdir), Passed(arguments, libdir), archive, p)
    ensures |Translated(arguments, archive, libdir)| == |arguments| - Count(Roles(arguments, libdir), Request)
  {
    hide RoleOf, Passed, Translated, Count;
    PassedLength(arguments, libdir);
    EveryRoleIsCounted(Roles(arguments, libdir));
  }

  lemma TranslatedIsHarmless(arguments: seq<string>, archive: string, libdir: PurePath, p: nat)
    requires InsertedAt(Translated(arguments, archive, libdir), Passed(arguments, libdir), archive, p)
    ensures var out := Translated(arguments, archive, libdir);
            forall k :: 0 <= k < |out| && k != p ==> Harmless(out[k], libdir)
  {
    hide RoleOf, Passed, Translated, Harmless;
    PassedAreHarmless(arguments, libdir);
    var out, kept := Translated(arguments, archive, libdir), Passed(arguments, libdir);
    forall k | 0 <= k < |out| && k != p
      ensures Harmless(out[k], libdir)
    {
      assert out[k] == kept[if k < p then k else k - 1];
    }
  }

  /**
   * The output is the passed-through arguments in their own order, with the
   * archive once, after exactly those that came before the first request; it
   * is shorter by the number of requests, and everything it passes through is
   * harmless.
   */
  lemma TranslationIsExact(arguments: seq<string>, archive: string, libdir: PurePath) returns (p: nat)
    requires Admissible(arguments, libdir)
    ensures var roles := Roles(arguments, libdir);
            var out := Translated(arguments, archive, libdir);
            && InsertedAt(out, Passed(arguments, libdir), archive, p)
            && p == |Passed(arguments[..First(roles, Request)], libdir)|
            && |out| == |arguments| - Count(roles, Request)
            && (forall k :: 0 <= k < |out| && k != p ==> Harmless(out[k], libdir))
  {
    hide RoleOf, Passed, Harmless, First, Count, Translated, Admissible;
    p := TranslatedParts(arguments, archive, libdir);
    TranslatedLength(arguments, archive, libdir, p);
    TranslatedIsHarmless(arguments, archive, libdir, p);
  }

  /** Translating a translation again fails, whatever archive is named. */
  lemma TranslationIsFinal(arguments: seq<string>, archive: string, libdir: PurePath)
    requires Admissible(arguments, libdir)
    ensures !Admissible(Translated(arguments, archive, libdir), libdir)
  {
    hide RoleOf, Translated, Passed, Harmless;
    var p := TranslationIsExact(arguments, archive, libdir);
    var out := Translated(arguments, archive, libdir);
    var roles := Roles(out, libdir);
    forall k | 0 <= k < |roles| && k != p
      ensures roles[k].Plain?
    {
      PlainIsHarmless(out[k], libdir);
    }
    CountIsMembership(roles, Stock);
  }
}
