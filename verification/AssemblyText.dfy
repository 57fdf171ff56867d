/**
 * The lexical layer of the musl assembly partitioner: symbol words of a line,
 * symbol directives, labels, and the rewriting of private math copies to the
 * public function they stand for.
 */
module AssemblyText {
  import opened Wrappers

  type Line = string

  predicate IsSymbolChar(c: char) {
    'a' <= c <= 'z' || 'A' <= c <= 'Z' || '0' <= c <= '9' || c == '_' || c == '.' || c == '$'
  }

  /** Unicode White_Space, which is what Rust's `trim_start` and `is_whitespace` test. */
  predicate IsWhite(c: char) {
    var n := c as int;
    9 <= n <= 13 || n == 0x20 || n == 0x85 || n == 0xA0 || n == 0x1680 || 0x2000 <= n <= 0x200A
    || n == 0x2028 || n == 0x2029 || n == 0x202F || n == 0x205F || n == 0x3000
  }

  predicate EndsName(c: char) { c == ',' || IsWhite(c) }

  predicate StartsWith(s: string, prefix: string) {
    prefix <= s
  }

  predicate EndsWith(s: string, suffix: string) {
    |suffix| <= |s| && s[|s| - |suffix|..] == suffix
  }

  predicate EndsInColon(s: string) { s != "" && s[|s| - 1] == ':' }

  predicate AllSymbol(s: string) { forall i :: 0 <= i < |s| ==> IsSymbolChar(s[i]) }

  // ----- Leading runs

  /** Length of the longest prefix whose characters all satisfy `p`. */
  function Span(s: string, p: char -> bool): (k: nat)
    ensures k <= |s|
    ensures forall i :: 0 <= i < k ==> p(s[i])
    ensures k < |s| ==> !p(s[k])
  {
    if s == [] || !p(s[0]) then 0
    else
      var k := Span(s[1..], p);
      assert forall i :: 0 < i < k + 1 ==> s[i] == s[1..][i - 1];
      1 + k
  }

  lemma {:induction false} SpanIs(s: string, p: char -> bool, k: nat)
    requires k <= |s|
    requires forall i :: 0 <= i < k ==> p(s[i])
    requires k < |s| ==> !p(s[k])
    ensures Span(s, p) == k
  {
    if 0 < k {
      SpanIs(s[1..], p, k - 1);
    }
  }

  function TrimStart(s: string): (r: string)
  {
    s[Span(s, IsWhite)..]
  }

  // ----- Words and tokens

  /** The pieces of `token + s` between non-symbol characters, empty ones included, `token` being read already. */
  function Words(token: string, s: string): (r: seq<string>)
    ensures r != []
    decreases |s|
  {
    if s == [] then [token]
    else if IsSymbolChar(s[0]) then Words(token + [s[0]], s[1..])
    else [token] + Words("", s[1..])
  }

  /** The non-symbol characters of `s`, in order. */
  function Separators(s: string): string {
    if s == [] then []
    else (if IsSymbolChar(s[0]) then [] else [s[0]]) + Separators(s[1..])
  }

  /** Symbols a text mentions; assembler-local `.L` labels are not symbols. */
  function Tokens(s: string): set<string> {
    set w | w in Words("", s) && w != "" && !StartsWith(w, ".L")
  }

  function TokensOf(lines: seq<Line>): set<string> {
    set l, t | l in lines && t in Tokens(l) :: t
  }

  lemma {:induction false} WordsAbsorb(token: string, w: string, s: string)
    requires AllSymbol(w)
    ensures Words(token, w + s) == Words(token + w, s)
    decreases |w|
  {
    if w == [] {
      assert w + s == s && token + w == token;
    } else {
      assert (w + s)[1..] == w[1..] + s;
      assert token + [w[0]] + w[1..] == token + w;
      WordsAbsorb(token + [w[0]], w[1..], s);
    }
  }

  lemma {:induction false} WordsSplit(token: string, a: string, c: char, b: string)
    requires !IsSymbolChar(c)
    ensures Words(token, a + [c] + b) == Words(token, a) + Words("", b)
    decreases |a|
  {
    var s := a + [c] + b;
    if a == [] {
      assert s[1..] == b;
    } else {
      assert s[1..] == a[1..] + [c] + b;
      WordsSplit(if IsSymbolChar(a[0]) then token + [a[0]] else "", a[1..], c, b);
      assert s[0] == a[0];
    }
  }

  // ----- Directives and labels

  /** `t` is directive `d`, a blank, and more. */
  predicate OpensWith(t: string, d: string) {
    |d| < |t| && t[..|d|] == d && (t[|d|] == ' ' || t[|d|] == '\t')
  }

  function FirstName(argument: string): string {
    argument[..Span(argument, c => !EndsName(c))]
  }

  /** The symbol named by `line` when it is directive `d` followed by a blank. */
  function DirectiveName(line: Line, d: string): Option<string> {
    var t := TrimStart(line);
    if !OpensWith(t, d) then None
    else
      var name := FirstName(TrimStart(t[|d|..]));
      if name == "" then None else Some(name)
  }

  /** The first directive of the list that names a symbol on this line. */
  function DirectiveSymbol(line: Line, ds: seq<string>): Option<string> {
    if ds == [] then None
    else
      var name := DirectiveName(line, ds[0]);
      if name.Some? then name else DirectiveSymbol(line, ds[1..])
  }

  function Label(line: Line): Option<string> {
    if EndsInColon(line) then
      var name := line[..|line| - 1];
      if name != "" && !StartsWith(name, ".L") && AllSymbol(name) then Some(name) else None
    else None
  }

  function AsSet(o: Option<string>): set<string> {
    if o.Some? then {o.value} else {}
  }

  // ----- Routing private copies to public functions

  const PRIVATE_PREFIX := "crabc_x86_"
  const ELEMENTARY := "_elementary_"
  const PROVIDER := "_provider_"

  /** Lower-case letters and digits only, so neither an underscore nor a dot. */
  predicate Plain(s: string) {
    s != "" && forall i :: 0 <= i < |s| ==> 'a' <= s[i] <= 'z' || '0' <= s[i] <= '9'
  }

  /** A list of public functions; what routing guarantees holds for every such list. */
  type PublicNames = names: seq<string> | forall i :: 0 <= i < |names| ==> Plain(names[i]) witness []

  const PUBLIC_A_TO_C: PublicNames := ["atan", "atan2", "atan2f", "atanf", "copysign", "copysignf", "copysignl",
                                       "cos", "cosf", "cosh", "coshf"]
  const PUBLIC_E_TO_F: PublicNames := ["exp", "exp2", "exp2f", "expf", "expm1", "expm1f", "fabs", "fabsf",
                                       "floor", "floorf"]
  const PUBLIC_H_TO_P: PublicNames := ["hypot", "hypotf", "hypotl", "log", "log1p", "log1pf", "logf", "modf",
                                       "modff", "pow", "powl"]
  const PUBLIC_R_TO_T: PublicNames := ["rint", "rintf", "round", "roundf", "roundl", "scalbn", "sin", "sinf", "sinh",
                                       "sinhf", "sinl", "sqrt", "sqrtf", "tan", "tanf"]

  /** The public functions that musl's own objects call by name. */
  const PUBLIC_MATH_CALLS: PublicNames := PUBLIC_A_TO_C + PUBLIC_E_TO_F + PUBLIC_H_TO_P + PUBLIC_R_TO_T

  /** `rest` is some head that ends in a copy marker, followed by `name`. */
  predicate IsCopyOf(rest: string, name: string) {
    EndsWith(rest, name)
    && var head := rest[..|rest| - |name|];
       EndsWith(head, ELEMENTARY) || EndsWith(head, PROVIDER)
  }

  function FindPublic(rest: string, names: seq<string>): (r: Option<string>)
    ensures r.Some? ==> r.value in names && IsCopyOf(rest, r.value)
    ensures r.None? ==> forall n :: n in names ==> !IsCopyOf(rest, n)
  {
    if names == [] then None
    else if IsCopyOf(rest, names[0]) then Some(names[0])
    else FindPublic(rest, names[1..])
  }

  function Public(token: string, public: PublicNames): (r: Option<string>)
    ensures r.Some? ==> Plain(r.value)
  {
    if StartsWith(token, PRIVATE_PREFIX) then FindPublic(token[|PRIVATE_PREFIX|..], public) else None
  }

  /** What the rewriter emits for one symbol word. */
  function Flush(token: string, public: PublicNames): string {
    var name := Public(token, public);
    if name.Some? then name.value else token
  }

  lemma UnderscoreBeforeCopy(rest: string, name: string)
    requires IsCopyOf(rest, name)
    ensures |name| < |rest| && rest[|rest| - |name| - 1] == '_'
  {
    var head := rest[..|rest| - |name|];
    if EndsWith(head, ELEMENTARY) {
      assert head[|head| - 1] == head[|head| - |ELEMENTARY|..][|ELEMENTARY| - 1];
    } else {
      assert head[|head| - 1] == head[|head| - |PROVIDER|..][|PROVIDER| - 1];
    }
  }

  lemma NoUnderscoreInName(rest: string, name: string, k: nat)
    requires EndsWith(rest, name) && Plain(name)
    requires |rest| - |name| <= k < |rest|
    ensures rest[k] != '_'
  {
    assert rest[|rest| - |name|..][k - (|rest| - |name|)] == rest[k];
  }

  /** A word has at most one public original, whatever the order of the list it is sought in. */
  lemma PublicIsUnique(rest: string, public: PublicNames, name: string)
    requires name in public && IsCopyOf(rest, name)
    ensures FindPublic(rest, public) == Some(name)
  {
    var found := FindPublic(rest, public).value;
    UnderscoreBeforeCopy(rest, name);
    UnderscoreBeforeCopy(rest, found);
    forall k: nat | |rest| - |name| <= k < |rest| {
      NoUnderscoreInName(rest, name, k);
    }
    forall k: nat | |rest| - |found| <= k < |rest| {
      NoUnderscoreInName(rest, found, k);
    }
  }

  // ----- Rewriting word by word

  /** A word map that settles after one application and turns only undotted words into plain ones. */
  ghost predicate WordMap(f: string -> string) {
    forall w :: MapsWord(f, w)
  }

  ghost predicate MapsWord(f: string -> string, w: string) {
    && (AllSymbol(w) ==> AllSymbol(f(w)))
    && f(f(w)) == f(w)
    && (f(w) == w || (Plain(f(w)) && w != "" && w[0] != '.'))
  }

  /** Rewriting of `token + s`, `token` being read already: each word by `f`, every other character kept. */
  function Rewrite(token: string, s: string, f: string -> string): string
    decreases |s|
  {
    if s == [] then f(token)
    else if IsSymbolChar(s[0]) then Rewrite(token + [s[0]], s[1..], f)
    else f(token) + [s[0]] + Rewrite("", s[1..], f)
  }

  lemma {:induction false} RewriteAbsorb(token: string, w: string, s: string, f: string -> string)
    requires AllSymbol(w)
    ensures Rewrite(token, w + s, f) == Rewrite(token + w, s, f)
    decreases |w|
  {
    if w == [] {
      assert w + s == s && token + w == token;
    } else {
      assert (w + s)[1..] == w[1..] + s;
      assert token + [w[0]] + w[1..] == token + w;
      RewriteAbsorb(token + [w[0]], w[1..], s, f);
    }
  }

  lemma RewriteWord(w: string, f: string -> string)
    requires AllSymbol(w)
    ensures Rewrite("", w, f) == f(w)
  {
    assert w + "" == w && "" + w == w;
    RewriteAbsorb("", w, "", f);
  }

  lemma {:induction false} RewriteSplit(token: string, a: string, c: char, b: string, f: string -> string)
    requires !IsSymbolChar(c)
    ensures Rewrite(token, a + [c] + b, f) == Rewrite(token, a, f) + [c] + Rewrite("", b, f)
    decreases |a|
  {
    var s := a + [c] + b;
    if a == [] {
      assert s[1..] == b;
    } else {
      assert s[1..] == a[1..] + [c] + b;
      RewriteSplit(if IsSymbolChar(a[0]) then token + [a[0]] else "", a[1..], c, b, f);
      assert s[0] == a[0];
    }
  }

  function MapWords(words: seq<string>, f: string -> string): seq<string> {
    if words == [] then [] else [f(words[0])] + MapWords(words[1..], f)
  }

  /** Every word maps on its own, by the same function, and no separator is touched. */
  lemma {:induction false} RewriteIsHomomorphic(token: string, s: string, f: string -> string)
    requires WordMap(f) && AllSymbol(token)
    ensures Words("", Rewrite(token, s, f)) == MapWords(Words(token, s), f)
    ensures Separators(Rewrite(token, s, f)) == Separators(s)
    decreases |s|
  {
    assert MapsWord(f, token);
    var w := f(token);
    if s == [] {
      assert w + "" == w && "" + w == w;
      WordsAbsorb("", w, "");
      SeparatorsAbsorb(w, "");
    } else if IsSymbolChar(s[0]) {
      RewriteIsHomomorphic(token + [s[0]], s[1..], f);
    } else {
      var r := Rewrite("", s[1..], f);
      RewriteIsHomomorphic("", s[1..], f);
      assert w + [s[0]] + r == w + ([s[0]] + r) && "" + w == w;
      WordsAbsorb("", w, [s[0]] + r);
      SeparatorsAbsorb(w, [s[0]] + r);
      assert ([s[0]] + r)[1..] == r;
      assert ([token] + Words("", s[1..]))[1..] == Words("", s[1..]);
    }
  }

  lemma {:induction false} SeparatorsAbsorb(w: string, s: string)
    requires AllSymbol(w)
    ensures Separators(w + s) == Separators(s)
    decreases |w|
  {
    if w == [] {
      assert w + s == s;
    } else {
      assert (w + s)[1..] == w[1..] + s;
      SeparatorsAbsorb(w[1..], s);
    }
  }

  lemma {:induction false} RewriteIsIdempotent(token: string, s: string, f: string -> string)
    requires WordMap(f) && AllSymbol(token)
    ensures Rewrite("", Rewrite(token, s, f), f) == Rewrite(token, s, f)
    decreases |s|
  {
    assert MapsWord(f, token);
    if s == [] {
      RewriteWord(f(token), f);
    } else if IsSymbolChar(s[0]) {
      RewriteIsIdempotent(token + [s[0]], s[1..], f);
    } else {
      RewriteIsIdempotent("", s[1..], f);
      RewriteSplit("", f(token), s[0], Rewrite("", s[1..], f), f);
      RewriteWord(f(token), f);
    }
  }

  // ----- Rewriting keeps the shape of a directive

  lemma RewriteFirstChar(s: string, f: string -> string)
    requires WordMap(f)
    ensures s == "" <==> Rewrite("", s, f) == ""
    ensures s != "" && !IsSymbolChar(s[0]) ==> Rewrite("", s, f) == [s[0]] + Rewrite("", s[1..], f)
    ensures s != "" && IsSymbolChar(s[0]) ==> IsSymbolChar(Rewrite("", s, f)[0])
  {
    assert MapsWord(f, "");
    assert f("") == "";
    if s != "" && IsSymbolChar(s[0]) {
      assert "" + [s[0]] == [s[0]];
      RewriteNonempty([s[0]], s[1..], f);
    } else if s != "" {
      assert "" + [s[0]] == [s[0]];
    }
  }

  lemma {:induction false} RewriteNonempty(token: string, s: string, f: string -> string)
    requires WordMap(f) && AllSymbol(token) && token != ""
    ensures Rewrite(token, s, f) != "" && IsSymbolChar(Rewrite(token, s, f)[0])
    decreases |s|
  {
    assert MapsWord(f, token);
    if s != [] && IsSymbolChar(s[0]) {
      RewriteNonempty(token + [s[0]], s[1..], f);
    }
  }

  lemma {:induction false} RewriteTrimmed(s: string, f: string -> string)
    requires WordMap(f)
    ensures TrimStart(Rewrite("", s, f)) == Rewrite("", TrimStart(s), f)
  {
    RewriteFirstChar(s, f);
    var r := Rewrite("", s, f);
    if s != "" && IsWhite(s[0]) {
      RewriteTrimmed(s[1..], f);
      assert r[1..] == Rewrite("", s[1..], f);
    }
  }

  lemma {:induction false} RewriteKeepsNames(token: string, s: string, f: string -> string)
    requires WordMap(f) && AllSymbol(token)
    requires forall i :: 0 <= i < |s| ==> !EndsName(s[i])
    ensures forall i :: 0 <= i < |Rewrite(token, s, f)| ==> !EndsName(Rewrite(token, s, f)[i])
    decreases |s|
  {
    assert MapsWord(f, token);
    if s != [] {
      RewriteKeepsNames(if IsSymbolChar(s[0]) then token + [s[0]] else "", s[1..], f);
    }
  }

  predicate Dotted(d: string) { d != "" && d[0] == '.' && AllSymbol(d) }

  lemma RewriteOpening(t: string, d: string, f: string -> string)
    requires WordMap(f) && Dotted(d) && OpensWith(t, d)
    ensures OpensWith(Rewrite("", t, f), d)
    ensures Rewrite("", t, f)[|d|..] == Rewrite("", t[|d|..], f)
  {
    var c, b := t[|d|], t[|d| + 1..];
    assert t == d + [c] + b;
    RewriteSplit("", d, c, b, f);
    RewriteWord(d, f);
    assert MapsWord(f, d);
    RewriteFirstChar(t[|d|..], f);
    assert t[|d|..][1..] == b;
  }

  lemma {:induction false} RewriteOpensOnlyDirectives(token: string, s: string, d: string, f: string -> string)
    requires WordMap(f) && Dotted(d) && AllSymbol(token)
    ensures OpensWith(Rewrite(token, s, f), d) ==> OpensWith(token + s, d)
    decreases |s|
  {
    var r := Rewrite(token, s, f);
    assert MapsWord(f, token);
    if s != [] && IsSymbolChar(s[0]) {
      RewriteOpensOnlyDirectives(token + [s[0]], s[1..], d, f);
      assert token + [s[0]] + s[1..] == token + s;
    } else if s != [] && OpensWith(r, d) {
      var w := f(token);
      assert r[|w|] == s[0] && r[..|w|] == w;
      assert forall i :: 0 <= i < |d| ==> r[i] == d[i];
      assert |w| == |d|;
      assert w == d;
      assert (token + s)[..|d|] == d;
    }
  }

  function RewriteName(name: Option<string>, f: string -> string): Option<string> {
    if name.Some? then Some(Rewrite("", name.value, f)) else None
  }

  lemma RewriteArgument(argument: string, f: string -> string)
    requires WordMap(f)
    ensures FirstName(Rewrite("", argument, f)) == Rewrite("", FirstName(argument), f)
  {
    var stop := c => !EndsName(c);
    var k := Span(argument, stop);
    var n, r := argument[..k], Rewrite("", argument, f);
    assert forall i :: 0 <= i < |n| ==> stop(argument[i]);
    RewriteKeepsNames("", n, f);
    if k < |argument| {
      assert argument == n + [argument[k]] + argument[k + 1..];
      RewriteSplit("", n, argument[k], argument[k + 1..], f);
      assert r[|Rewrite("", n, f)|] == argument[k];
    } else {
      assert argument == n;
    }
    SpanIs(r, stop, |Rewrite("", n, f)|);
  }

  lemma {:induction false} RewriteLastChar(token: string, s: string, f: string -> string)
    requires WordMap(f) && AllSymbol(token) && s != ""
    ensures var r := Rewrite(token, s, f);
            r != "" && if IsSymbolChar(s[|s| - 1]) then IsSymbolChar(r[|r| - 1]) else r[|r| - 1] == s[|s| - 1]
    decreases |s|
  {
    assert MapsWord(f, token) && MapsWord(f, token + [s[0]]) && MapsWord(f, "");
    if 1 < |s| {
      RewriteLastChar(if IsSymbolChar(s[0]) then token + [s[0]] else "", s[1..], f);
    }
  }

  /** Rewriting a directive line rewrites the symbol it names and keeps the directive. */
  lemma RewriteDirective(line: Line, d: string, f: string -> string)
    requires WordMap(f) && Dotted(d)
    ensures DirectiveName(Rewrite("", line, f), d) == RewriteName(DirectiveName(line, d), f)
  {
    var t := TrimStart(line);
    RewriteTrimmed(line, f);
    if OpensWith(t, d) {
      RewriteOpening(t, d, f);
      RewriteTrimmed(t[|d|..], f);
      var argument := TrimStart(t[|d|..]);
      RewriteArgument(argument, f);
      RewriteFirstChar(FirstName(argument), f);
    } else {
      RewriteOpensOnlyDirectives("", t, d, f);
      assert "" + t == t;
    }
  }

  // ----- Routing

  function Router(public: PublicNames): string -> string {
    w => Flush(w, public)
  }

  lemma RouterIsWordMap(public: PublicNames)
    ensures WordMap(Router(public))
  {
    hide Public, Plain;
    var f := Router(public);
    forall w
      ensures MapsWord(f, w)
    {
      PublicFacts(w, public);
      if Public(w, public).Some? {
        PublicFacts(f(w), public);
      }
    }
  }

  /** A private copy starts with its prefix, and a public name does not. */
  lemma PublicFacts(w: string, public: PublicNames)
    ensures Public(w, public).Some? ==> w != "" && w[0] != '.' && Plain(Public(w, public).value)
    ensures Plain(w) ==> Public(w, public) == None && AllSymbol(w)
  {
    hide FindPublic;
    assert |PRIVATE_PREFIX| == 10 && PRIVATE_PREFIX[0] == 'c' && PRIVATE_PREFIX[5] == '_';
    if StartsWith(w, PRIVATE_PREFIX) {
      assert w[0] == 'c' && w[5] == '_';
    }
  }

  predicate Protected(line: Line) {
    var t := TrimStart(line);
    || StartsWith(t, ".type") || StartsWith(t, ".size") || StartsWith(t, ".globl") || StartsWith(t, ".global")
    || StartsWith(t, ".hidden") || StartsWith(t, ".local") || EndsInColon(t)
  }

  function RouteLine(line: Line, f: string -> string): Line {
    if Protected(line) then line else Rewrite("", line, f)
  }

  /** Routing a routed line again changes nothing. */
  lemma RoutingIsIdempotent(line: Line, f: string -> string)
    requires WordMap(f)
    ensures RouteLine(RouteLine(line, f), f) == RouteLine(line, f)
  {
    hide Protected;
    RewriteIsIdempotent("", line, f);
  }

  /** So it is for the partitioner's own routing. */
  lemma RoutingPublicTwice(line: Line, public: PublicNames)
    ensures RouteLine(RouteLine(line, Router(public)), Router(public)) == RouteLine(line, Router(public))
  {
    hide Router, RouteLine, WordMap;
    RouterIsWordMap(public);
    RoutingIsIdempotent(line, Router(public));
  }

  /** What a line mentions once it is routed: the same symbols, or each of them on its own mapped. */
  function RoutedTokens(line: Line, f: string -> string): set<string> {
    if Protected(line) then Tokens(line) else set t | t in Tokens(line) :: f(t)
  }

  lemma {:induction false} MapWordsMembers(words: seq<string>, f: string -> string, w: string)
    ensures w in MapWords(words, f) <==> exists t :: t in words && f(t) == w
  {
    if words != [] {
      MapWordsMembers(words[1..], f, w);
      assert words == [words[0]] + words[1..];
    }
  }

  /** Routing maps what a line mentions, and neither adds a symbol nor loses one. */
  lemma TokensOfRouted(line: Line, f: string -> string)
    requires WordMap(f)
    ensures Tokens(RouteLine(line, f)) == RoutedTokens(line, f)
  {
    hide Protected, Words, Rewrite, AllSymbol;
    if !Protected(line) {
      WordsOfRewrite(line, f);
      forall w
        ensures w in Tokens(Rewrite("", line, f)) <==> exists t :: t in Tokens(line) && f(t) == w
      {
        MapWordsMembers(Words("", line), f, w);
        forall t | f(t) == w
          ensures (w != "" && !StartsWith(w, ".L")) <==> (t != "" && !StartsWith(t, ".L"))
        {
          MappedKind(t, f);
        }
      }
    }
  }

  lemma MappedKind(t: string, f: string -> string)
    requires WordMap(f)
    ensures (f(t) != "" && !StartsWith(f(t), ".L")) <==> (t != "" && !StartsWith(t, ".L"))
  {
    assert MapsWord(f, t);
    assert forall w :: StartsWith(w, ".L") ==> w != "" && w[0] == ".L"[0];
  }

  lemma WordsOfRewrite(line: Line, f: string -> string)
    requires WordMap(f)
    ensures Words("", Rewrite("", line, f)) == MapWords(Words("", line), f)
  {
    RewriteIsHomomorphic("", line, f);
  }

  method RoutePublic(line: Line, public: PublicNames) returns (routed: Line)
    ensures routed == RouteLine(line, Router(public))
  {
    if Protected(line) {
      return line;
    }
    routed := FlushWords(line, public);
  }

  /** The rewriter's own loop: characters accumulate into a token that every separator flushes. */
  method FlushWords(line: Line, public: PublicNames) returns (routed: Line)
    ensures routed == Rewrite("", line, Router(public))
  {
    routed := "";
    var token := "";
    for i := 0 to |line|
      invariant routed + Rewrite(token, line[i..], Router(public)) == Rewrite("", line, Router(public))
    {
      if IsSymbolChar(line[i]) {
        token := token + [line[i]];
      } else {
        routed := routed + Flush(token, public) + [line[i]];
        token := "";
      }
    }
    routed := routed + Flush(token, public);
  }
}
