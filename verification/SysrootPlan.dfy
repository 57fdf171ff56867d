/**
 * The plan of a combined sysroot: which product's file is installed at which
 * path, and where each product's own files went. No product is preferred.
 */
module SysrootPlan {
  import opened Wrappers
  import opened Paths
  import opened SysrootModel

  // ----- Rules, path by path

  predicate Owns(inputs: Inputs, product: Product, p: Path) { p in inputs.Of(product).files }

  /** Digest and mode: what two copies of a file must share. */
  function Identity(codec: Codec, inputs: Inputs, product: Product, p: Path): (Digest, bool)
    requires Owns(inputs, product, p)
  {
    (codec.hash(inputs.Of(product).files[p].data), inputs.Of(product).files[p].executable)
  }

  predicate Agree(codec: Codec, inputs: Inputs, p: Path) {
    Owns(inputs, Static, p) && Owns(inputs, Dynamic, p)
    ==> Identity(codec, inputs, Static, p) == Identity(codec, inputs, Dynamic, p)
  }

  /** Metadata kept apart, one copy for all owners, the dynamic entry object, or no rule at all. */
  datatype Rule = Apart | One | Entry | Conflict

  function RuleFor(codec: Codec, inputs: Inputs, p: Path): Rule {
    if p == ManifestPath() || (Relocatable(p) && !Agree(codec, inputs, p)) then Apart
    else if Agree(codec, inputs, p) then One
    else if p == EntryObject() then Entry
    else Conflict
  }

  /** Where one product's file is found in the combined tree; none when it is not installed. */
  function Placement(codec: Codec, inputs: Inputs, product: Product, p: Path): Option<Path> {
    match RuleFor(codec, inputs, p)
    case Apart => Some(Moved(product, p))
    case One => Some(p)
    case Entry => if product.Dynamic? then Some(p) else None
    case Conflict => None
  }

  /** The product's copy is the one written: its own, or the first owner's of a shared one. */
  predicate Installs(codec: Codec, inputs: Inputs, product: Product, p: Path) {
    && Owns(inputs, product, p) && Placement(codec, inputs, product, p).Some?
    && (RuleFor(codec, inputs, p).One? && Owns(inputs, Static, p) ==> product.Static?)
  }

  function AllPaths(inputs: Inputs): set<Path> { inputs.staticTree.files.Keys + inputs.dynamicTree.files.Keys }

  function AllLinks(inputs: Inputs): map<Path, string> { inputs.staticTree.links + inputs.dynamicTree.links }

  // ----- The decision

  datatype Source = Source(product: Product, origin: Path)

  datatype Placements = Placements(staticMap: map<Path, Option<Path>>, dynamicMap: map<Path, Option<Path>>)
  {
    function Of(product: Product): map<Path, Option<Path>> { if product.Static? then staticMap else dynamicMap }

    function With(product: Product, origin: Path, destination: Option<Path>): Placements {
      if product.Static? then this.(staticMap := staticMap[origin := destination])
      else this.(dynamicMap := dynamicMap[origin := destination])
    }
  }

  datatype Decision = Decision(sources: map<Path, Source>, links: map<Path, string>, placements: Placements,
                               toolchain: Scalar, profile: Scalar)

  /** Destinations are exactly the installed files, each with the one product file it comes from. */
  ghost predicate SourcesFor(codec: Codec, inputs: Inputs, done: set<Path>, sources: map<Path, Source>) {
    && (forall o, p :: p in done && Installs(codec, inputs, o, p) ==>
          var d := Placement(codec, inputs, o, p).value; d in sources && sources[d] == Source(o, p))
    && (forall d :: d in sources ==>
          var s := sources[d];
          s.origin in done && Installs(codec, inputs, s.product, s.origin)
          && Placement(codec, inputs, s.product, s.origin) == Some(d))
  }

  /** Every file of the product has its place. */
  ghost predicate PlacementsFor(codec: Codec, inputs: Inputs, done: set<Path>, placements: Placements) {
    forall o: Product, p :: (p in placements.Of(o) <==>
                             p in done && Owns(inputs, o, p) && !RuleFor(codec, inputs, p).Conflict?)
                            && (p in placements.Of(o) ==> placements.Of(o)[p] == Placement(codec, inputs, o, p))
  }

  // ----- When a plan exists

  ghost predicate NoConflict(codec: Codec, inputs: Inputs) {
    forall p :: p in AllPaths(inputs) ==> !RuleFor(codec, inputs, p).Conflict?
  }

  ghost predicate NoClash(codec: Codec, inputs: Inputs) {
    forall o1, p1, o2, p2 :: Installs(codec, inputs, o1, p1) && Installs(codec, inputs, o2, p2)
                             && Placement(codec, inputs, o1, p1) == Placement(codec, inputs, o2, p2)
                         ==> o1 == o2 && p1 == p2
  }

  ghost predicate LinksAgree(inputs: Inputs) {
    forall p :: p in inputs.staticTree.links && p in inputs.dynamicTree.links
            ==> inputs.staticTree.links[p] == inputs.dynamicTree.links[p]
  }

  /** No destination is a link, or lies below another destination or a link. */
  ghost predicate Placeable(sources: map<Path, Source>, links: map<Path, string>) {
    && sources.Keys !! links.Keys
    && forall d, q :: d in sources && q in sources.Keys + links.Keys ==> !Ancestor(q, d)
  }

  function ManifestOf(codec: Codec, inputs: Inputs, product: Product): Option<Manifest> {
    if Owns(inputs, product, ManifestPath()) then codec.readManifest(inputs.Of(product).files[ManifestPath()].data)
        else None
  }

  predicate Identified(manifest: Option<Manifest>, product: Product) {
    manifest.Some? && manifest.value.format == Text(ProductFormat(product)) && manifest.value.target == Text(Target())
  }

  predicate OneToolchain(a: Manifest, b: Manifest) { a.toolchain == b.toolchain && a.toolchain.Text? }

  /** Both manifests and the dynamic state can be read, and agree on their source. */
  predicate ManifestsAgree(codec: Codec, inputs: Inputs) {
    var a, b := ManifestOf(codec, inputs, Static), ManifestOf(codec, inputs, Dynamic);
    && Identified(a, Static) && Identified(b, Dynamic) && Owns(inputs, Dynamic, StatePath())
    && SealsMatch(a.value, b.value, codec.readState(inputs.dynamicTree.files[StatePath()].data))
    && OneToolchain(a.value, b.value)
  }

  /** Everything a successful plan says. */
  ghost predicate Plans(codec: Codec, inputs: Inputs, d: Decision) {
    && ManifestsAgree(codec, inputs) && NoConflict(codec, inputs) && LinksAgree(inputs)
    && SourcesFor(codec, inputs, AllPaths(inputs), d.sources)
    && PlacementsFor(codec, inputs, AllPaths(inputs), d.placements)
    && d.links == AllLinks(inputs) && Placeable(d.sources, d.links)
    && d.toolchain == ManifestOf(codec, inputs, Static).value.toolchain
    && d.profile == ManifestOf(codec, inputs, Static).value.profile
  }

  ghost predicate Plannable(codec: Codec, inputs: Inputs) {
    exists d :: Plans(codec, inputs, d)
  }

  // ----- The planner

  /** Claims one destination for one product file. */
  method Install(sources: map<Path, Source>, destination: Path, product: Product, origin: Path)
    returns (r: Option<map<Path, Source>>)
    ensures r.Some? <==> destination !in sources
    ensures r.Some? ==> r.value == sources[destination := Source(product, origin)]
  {
    if destination in sources {
      return None;
    }
    r := Some(sources[destination := Source(product, origin)]);
  }

  /** What planning path `p` adds to the destinations. */
  ghost function NewSources(codec: Codec, inputs: Inputs, p: Path): map<Path, Source> {
    (if Installs(codec, inputs, Static, p) then map[Placement(codec, inputs, Static, p).value := Source(Static, p)]
     else map[])
    + (if Installs(codec, inputs, Dynamic, p) then
       map[Placement(codec, inputs, Dynamic, p).value := Source(Dynamic, p)] else map[])
  }

  ghost function NewPlacements(codec: Codec, inputs: Inputs, p: Path, before: Placements): Placements {
    var after := if Owns(inputs, Static, p) then before.With(Static, p, Placement(codec, inputs, Static, p))
        else before;
    if Owns(inputs, Dynamic, p) then after.With(Dynamic, p, Placement(codec, inputs, Dynamic, p)) else after
  }

  lemma MovedApart(p: Path, q: Path)
    ensures Moved(Static, p) != Moved(Dynamic, q)
  {
    PrefixFacts();
    hide MetadataPrefix;
    assert Moved(Static, p)[12] == 's' && Moved(Dynamic, q)[12] == 'd';
  }

  /** One destination for each owner of the path. */
  function Claims(forStatic: Option<Path>, forDynamic: Option<Path>, p: Path): map<Path, Source> {
    (if forStatic.Some? then map[forStatic.value := Source(Static, p)] else map[])
    + if forDynamic.Some? then map[forDynamic.value := Source(Dynamic, p)] else map[]
  }

  lemma ApartSources(codec: Codec, inputs: Inputs, p: Path)
    requires RuleFor(codec, inputs, p).Apart?
    ensures NewSources(codec, inputs, p)
         == Claims(if Owns(inputs, Static, p) then Some(Moved(Static, p)) else None,
                   if Owns(inputs, Dynamic, p) then Some(Moved(Dynamic, p)) else None, p)
    ensures forall o: Product :: Placement(codec, inputs, o, p) == Some(Moved(o, p))
  {
    hide Moved, RuleFor, Owns;
  }

  lemma OneSource(codec: Codec, inputs: Inputs, p: Path)
    requires RuleFor(codec, inputs, p).One? && p in AllPaths(inputs)
    ensures NewSources(codec, inputs, p) == map[p := Source(if Owns(inputs, Static, p) then Static else Dynamic, p)]
    ensures forall o: Product :: Placement(codec, inputs, o, p) == Some(p)
  {
    hide RuleFor;
  }

  lemma EntrySource(codec: Codec, inputs: Inputs, p: Path)
    requires RuleFor(codec, inputs, p).Entry?
    ensures Owns(inputs, Static, p) && Owns(inputs, Dynamic, p)
    ensures NewSources(codec, inputs, p) == map[p := Source(Dynamic, p)]
    ensures Placement(codec, inputs, Static, p) == None && Placement(codec, inputs, Dynamic, p) == Some(p)
  {
    BothOwnEntry(codec, inputs, p);
    hide RuleFor, Owns;
  }

  /** Claiming one destination is adding it, unless it is taken. */
  lemma ClaimOne(sources: map<Path, Source>, at: Path, source: Source)
    ensures map[at := source].Keys !! sources.Keys <==> at !in sources
    ensures sources[at := source] == sources + map[at := source]
  {
  }

  lemma ClaimBoth(sources: map<Path, Source>, first: Path, second: Path, p: Path)
    requires first != second
    ensures Claims(Some(first), Some(second), p).Keys !! sources.Keys <==> first !in sources && second !in sources
    ensures sources[first := Source(Static, p)][second := Source(Dynamic, p)]
            == sources + Claims(Some(first), Some(second), p)
  {
    assert Claims(Some(first), Some(second), p).Keys == {first, second};
  }

  /** Metadata kept apart: each owner's copy moves below its own name. */
  method PlaceApart(codec: Codec, inputs: Inputs, p: Path, sources: map<Path, Source>, placements: Placements)
    returns (r: Option<map<Path, Source>>, placed: Placements)
    requires RuleFor(codec, inputs, p).Apart?
    ensures r.Some? <==> NewSources(codec, inputs, p).Keys !! sources.Keys
    ensures r.Some? ==> r.value == sources + NewSources(codec, inputs, p)
    ensures r.Some? ==> placed == NewPlacements(codec, inputs, p, placements)
  {
    hide Moved, RuleFor, Owns, NewSources, Placement, Claims;
    ApartSources(codec, inputs, p);
    MovedApart(p, p);
    ClaimBoth(sources, Moved(Static, p), Moved(Dynamic, p), p);
    ClaimAlone(sources, Moved(Static, p), Static, p);
    ClaimAlone(sources, Moved(Dynamic, p), Dynamic, p);
    placed := placements;
    r := Some(sources);
    if Owns(inputs, Static, p) {
      r := Install(sources, Moved(Static, p), Static, p);
      placed := placed.With(Static, p, Some(Moved(Static, p)));
    }
    if r.Some? && Owns(inputs, Dynamic, p) {
      r := Install(r.value, Moved(Dynamic, p), Dynamic, p);
      placed := placed.With(Dynamic, p, Some(Moved(Dynamic, p)));
    }
  }

  lemma ClaimAlone(sources: map<Path, Source>, at: Path, product: Product, p: Path)
    ensures var claims := if product.Static? then Claims(Some(at), None, p) else Claims(None, Some(at), p);
            && (claims.Keys !! sources.Keys <==> at !in sources)
            && sources[at := Source(product, p)] == sources + claims
    ensures Claims(None, None, p).Keys !! sources.Keys && sources + Claims(None, None, p) == sources
  {
    ClaimOne(sources, at, Source(product, p));
  }

  /** One path of the planner's loop, for a path that some rule covers. */
  method PlacePath(codec: Codec, inputs: Inputs, p: Path, sources: map<Path, Source>, placements: Placements)
    returns (r: Option<map<Path, Source>>, placed: Placements)
    requires p in AllPaths(inputs) && !RuleFor(codec, inputs, p).Conflict?
    ensures r.Some? <==> NewSources(codec, inputs, p).Keys !! sources.Keys
    ensures r.Some? ==> r.value == sources + NewSources(codec, inputs, p)
    ensures r.Some? ==> placed == NewPlacements(codec, inputs, p, placements)
  {
    hide RuleFor, Moved, NewSources, Placement, Owns;
    match RuleFor(codec, inputs, p)
    case Apart =>
      r, placed := PlaceApart(codec, inputs, p, sources, placements);
    case One =>
      OneSource(codec, inputs, p);
      var product := if Owns(inputs, Static, p) then Static else Dynamic;
      ClaimOne(sources, p, Source(product, p));
      r := Install(sources, p, product, p);
      placed := placements;
      if Owns(inputs, Static, p) {
        placed := placed.With(Static, p, Some(p));
      }
      if Owns(inputs, Dynamic, p) {
        placed := placed.With(Dynamic, p, Some(p));
      }
    case Entry =>
      EntrySource(codec, inputs, p);
      ClaimOne(sources, p, Source(Dynamic, p));
      r := Install(sources, p, Dynamic, p);
      placed := placements.With(Static, p, None).With(Dynamic, p, Some(p));
  }

  /** The entry rule applies only where both products install different objects. */
  lemma BothOwnEntry(codec: Codec, inputs: Inputs, p: Path)
    requires RuleFor(codec, inputs, p).Entry?
    ensures Owns(inputs, Static, p) && Owns(inputs, Dynamic, p) && p == EntryObject()
  {
    hide ManifestPath, EntryObject, Relocatable;
  }

  lemma SourcesStep(codec: Codec, inputs: Inputs, done: set<Path>, p: Path, sources: map<Path, Source>)
    requires SourcesFor(codec, inputs, done, sources) && p !in done
    requires NewSources(codec, inputs, p).Keys !! sources.Keys
    ensures SourcesFor(codec, inputs, done + {p}, sources + NewSources(codec, inputs, p))
  {
    hide Placement, Owns, RuleFor;
    var added := NewSources(codec, inputs, p);
    NewSourcesAre(codec, inputs, p);
    var all := sources + added;
    forall o, q | q in done + {p} && Installs(codec, inputs, o, q)
      ensures var d := Placement(codec, inputs, o, q).value; d in all && all[d] == Source(o, q)
    {
      if q == p {
        assert Placement(codec, inputs, o, q).value in added;
      }
    }
  }

  lemma NewSourcesAre(codec: Codec, inputs: Inputs, p: Path)
    ensures forall o :: Installs(codec, inputs, o, p) ==>
              var d := Placement(codec, inputs, o, p).value;
              d in NewSources(codec, inputs, p) && NewSources(codec, inputs, p)[d] == Source(o, p)
    ensures forall d :: d in NewSources(codec, inputs, p) ==>
              var s := NewSources(codec, inputs, p)[d];
              s.origin == p && Installs(codec, inputs, s.product, p)
                  && Placement(codec, inputs, s.product, p) == Some(d)
  {
    hide RuleFor, Moved, Owns;
    MovedApart(p, p);
    forall o | Installs(codec, inputs, o, p)
      ensures var d := Placement(codec, inputs, o, p).value;
              d in NewSources(codec, inputs, p) && NewSources(codec, inputs, p)[d] == Source(o, p)
    {
      if o.Static? && RuleFor(codec, inputs, p).Entry? {
        BothOwnEntry(codec, inputs, p);
      }
    }
  }

  lemma PlacementsStep(codec: Codec, inputs: Inputs, done: set<Path>, p: Path, placements: Placements)
    requires PlacementsFor(codec, inputs, done, placements) && !RuleFor(codec, inputs, p).Conflict?
    ensures PlacementsFor(codec, inputs, done + {p}, NewPlacements(codec, inputs, p, placements))
  {
    hide Placement, Owns, RuleFor;
  }

  lemma ClashFound(codec: Codec, inputs: Inputs, done: set<Path>, p: Path, sources: map<Path, Source>)
    requires SourcesFor(codec, inputs, done, sources) && p !in done
    requires !(NewSources(codec, inputs, p).Keys !! sources.Keys)
    ensures !NoClash(codec, inputs)
  {
    hide Placement, Owns, RuleFor, NewSources, Installs;
    NewSourcesAre(codec, inputs, p);
    var d :| d in NewSources(codec, inputs, p) && d in sources;
    var a, b := NewSources(codec, inputs, p)[d], sources[d];
    assert Placement(codec, inputs, a.product, a.origin) == Placement(codec, inputs, b.product, b.origin);
  }

  lemma SourcesMeanNoClash(codec: Codec, inputs: Inputs, sources: map<Path, Source>)
    requires SourcesFor(codec, inputs, AllPaths(inputs), sources)
    ensures NoClash(codec, inputs)
  {
    hide Placement, RuleFor;
    forall o1, p1, o2, p2 | Installs(codec, inputs, o1, p1) && Installs(codec, inputs, o2, p2)
                            && Placement(codec, inputs, o1, p1) == Placement(codec, inputs, o2, p2)
      ensures o1 == o2 && p1 == p2
    {
      assert p1 in AllPaths(inputs) && p2 in AllPaths(inputs);
      var d := Placement(codec, inputs, o1, p1).value;
      assert sources[d] == Source(o1, p1);
      assert sources[d] == Source(o2, p2);
    }
  }

  /**
   * The planner's loop over all paths: succeeds exactly when no rule is missing and no destination is
   * claimed twice.
   */
  method PlaceAll(codec: Codec, inputs: Inputs) returns (r: Option<(map<Path, Source>, Placements)>)
    ensures r.Some? <==> NoConflict(codec, inputs) && NoClash(codec, inputs)
    ensures r.Some? ==> SourcesFor(codec, inputs, AllPaths(inputs), r.value.0)
                        && PlacementsFor(codec, inputs, AllPaths(inputs), r.value.1)
  {
    hide RuleFor, Placement, Installs, NewSources, NewPlacements, NoClash;
    var sources: map<Path, Source> := map[];
    var placements := Placements(map[], map[]);
    var conflicts: set<Path> := {};
    var paths := AllPaths(inputs);
    ghost var done: set<Path> := {};
    while paths != {}
      invariant done + paths == AllPaths(inputs) && done !! paths
      invariant SourcesFor(codec, inputs, done, sources)
      invariant PlacementsFor(codec, inputs, done, placements)
      invariant forall p :: p in conflicts <==> p in done && RuleFor(codec, inputs, p).Conflict?
      decreases paths
    {
      var p :| p in paths;
      if RuleFor(codec, inputs, p).Conflict? {
        conflicts := conflicts + {p};
        ConflictPlacesNothing(codec, inputs, done, p, sources, placements);
      } else {
        var more, placed := PlacePath(codec, inputs, p, sources, placements);
        if more.None? {
          ClashFound(codec, inputs, done, p, sources);
          return None;
        }
        SourcesStep(codec, inputs, done, p, sources);
        PlacementsStep(codec, inputs, done, p, placements);
        sources, placements := more.value, placed;
      }
      paths := paths - {p};
      done := done + {p};
    }
    if conflicts != {} {
      var p :| p in conflicts;
      assert p in AllPaths(inputs);
      return None;
    }
    assert done == AllPaths(inputs);
    SourcesMeanNoClash(codec, inputs, sources);
    r := Some((sources, placements));
  }

  lemma ConflictPlacesNothing(codec: Codec, inputs: Inputs, done: set<Path>, p: Path, sources: map<Path, Source>,
                              placements: Placements)
    requires RuleFor(codec, inputs, p).Conflict?
    requires SourcesFor(codec, inputs, done, sources) && PlacementsFor(codec, inputs, done, placements)
    ensures SourcesFor(codec, inputs, done + {p}, sources) && PlacementsFor(codec, inputs, done + {p}, placements)
  {
    hide RuleFor;
  }

  // ----- Links and ancestors

  method AddLinks(links: map<Path, string>, more: map<Path, string>, sources: map<Path, Source>)
    returns (r: Option<map<Path, string>>)
    ensures r.Some? <==> forall p :: p in more ==> (p in links ==> links[p] == more[p]) && p !in sources
    ensures r.Some? ==> r.value == links + more
  {
    var all := links;
    var left := more.Keys;
    while left != {}
      invariant left <= more.Keys
      invariant forall p :: p in more && p !in left ==> (p in links ==> links[p] == more[p]) && p !in sources
      invariant forall p :: p in all <==> p in links || (p in more && p !in left)
      invariant forall p :: p in all ==> all[p] == if p in more && p !in left then more[p] else links[p]
      decreases left
    {
      var p :| p in left;
      if p !in all {
        all := all[p := more[p]];
      }
      if all[p] != more[p] || p in sources {
        return None;
      }
      left := left - {p};
    }
    r := Some(all);
    assert all == links + more;
  }

  /** The links of both products, which must agree with each other and meet no file. */
  method MergeLinks(inputs: Inputs, sources: map<Path, Source>) returns (r: Option<map<Path, string>>)
    ensures r.Some? <==> LinksAgree(inputs) && sources.Keys !! AllLinks(inputs).Keys
    ensures r.Some? ==> r.value == AllLinks(inputs)
  {
    var first := AddLinks(map[], inputs.staticTree.links, sources);
    if first.None? {
      return None;
    }
    assert first.value == inputs.staticTree.links;
    r := AddLinks(first.value, inputs.dynamicTree.links, sources);
  }

  method NothingBelow(sources: map<Path, Source>, links: map<Path, string>) returns (ok: bool)
    ensures ok <==> forall d, q :: d in sources && q in sources.Keys + links.Keys ==> !Ancestor(q, d)
  {
    var left := sources.Keys;
    while left != {}
      invariant left <= sources.Keys
      invariant forall d, q :: d in sources && d !in left && q in sources.Keys + links.Keys ==> !Ancestor(q, d)
      decreases left
    {
      var d :| d in left;
      if exists q :: q in sources.Keys + links.Keys && Ancestor(q, d) {
        return false;
      }
      left := left - {d};
    }
    ok := true;
  }

  /** The plan exists exactly when the two products can form one exact tree, and it is then the one described. */
  method Plan(codec: Codec, inputs: Inputs) returns (r: Result<Decision>)
    ensures r.Ok? <==> Plannable(codec, inputs)
    ensures r.Ok? ==> Plans(codec, inputs, r.value)
  {
    hide ManifestsAgree, SourcesFor, PlacementsFor, NoConflict, NoClash, Ancestor, ManifestOf, Plannable, LinksAgree,
         AllLinks, AllPaths;
    UnplannableManifests(codec, inputs);
    if !ManifestsAgree(codec, inputs) {
      return Err("product manifests or source seals differ");
    }
    ReadableManifests(codec, inputs);
    var placed := PlaceAll(codec, inputs);
    if placed.None? {
      PlannableIsPlaceable(codec, inputs);
      return Err("static and dynamic products cannot share a path");
    }
    var sources, placements := placed.value.0, placed.value.1;
    PlannableIs(codec, inputs, sources, placements);
    var links := MergeLinks(inputs, sources);
    if links.None? {
      return Err("products disagree on a symlink, or it collides with a regular file");
    }
    var separate := NothingBelow(sources, links.value);
    if !separate {
      return Err("installed path is also an ancestor");
    }
    var manifest := ManifestOf(codec, inputs, Static).value;
    r := Ok(Decision(sources, links.value, placements, manifest.toolchain, manifest.profile));
  }

  lemma UnplannableManifests(codec: Codec, inputs: Inputs)
    ensures Plannable(codec, inputs) ==> ManifestsAgree(codec, inputs)
  {
    hide ManifestsAgree, SourcesFor, PlacementsFor, NoConflict, Placeable, LinksAgree;
  }

  /** With every path placed, only the links can still be in the way. */
  lemma PlannableIs(codec: Codec, inputs: Inputs, sources: map<Path, Source>, placements: Placements)
    requires ManifestsAgree(codec, inputs) && NoConflict(codec, inputs)
    requires SourcesFor(codec, inputs, AllPaths(inputs), sources)
    requires PlacementsFor(codec, inputs, AllPaths(inputs), placements)
    ensures Plannable(codec, inputs) <==> LinksAgree(inputs) && Placeable(sources, AllLinks(inputs))
  {
    hide ManifestsAgree, SourcesFor, PlacementsFor, NoConflict, Placeable, LinksAgree, ManifestOf;
    ReadableManifests(codec, inputs);
    forall d | Plans(codec, inputs, d)
      ensures d.sources == sources
    {
      SourcesAreUnique(codec, inputs, sources, d.sources);
    }
    if LinksAgree(inputs) && Placeable(sources, AllLinks(inputs)) {
      var manifest := ManifestOf(codec, inputs, Static).value;
      assert Plans(codec, inputs, Decision(sources, AllLinks(inputs), placements, manifest.toolchain,
                                           manifest.profile));
    }
  }

  lemma PlannableIsPlaceable(codec: Codec, inputs: Inputs)
    ensures Plannable(codec, inputs) ==> NoConflict(codec, inputs) && NoClash(codec, inputs)
  {
    hide ManifestsAgree, SourcesFor, PlacementsFor, NoConflict, NoClash, Placeable;
    if Plannable(codec, inputs) {
      var d :| Plans(codec, inputs, d);
      SourcesMeanNoClash(codec, inputs, d.sources);
    }
  }

  lemma ReadableManifests(codec: Codec, inputs: Inputs)
    requires ManifestsAgree(codec, inputs)
    ensures ManifestOf(codec, inputs, Static).Some? && ManifestOf(codec, inputs, Dynamic).Some?
  {
    hide SealsMatch, ProductFormat, Target, ManifestPath, StatePath;
  }

  lemma SourcesAreUnique(codec: Codec, inputs: Inputs, a: map<Path, Source>, b: map<Path, Source>)
    requires SourcesFor(codec, inputs, AllPaths(inputs), a) && SourcesFor(codec, inputs, AllPaths(inputs), b)
    ensures a == b
  {
    hide Installs, Placement;
    assert forall d :: d in a ==> d in b && a[d] == b[d];
    assert forall d :: d in b ==> d in a;
  }

  // ----- What a plan guarantees

  /** Each product's files are all accounted for; only the static entry object may be left out. */
  lemma EveryFileIsAccountedFor(codec: Codec, inputs: Inputs, d: Decision, product: Product)
    requires Plans(codec, inputs, d)
    ensures d.placements.Of(product).Keys == inputs.Of(product).files.Keys
    ensures forall p :: p in d.placements.Of(product) && d.placements.Of(product)[p].None?
                    ==> product == Static && p == EntryObject()
  {
    hide ManifestsAgree, SourcesFor, Placeable, Moved, RuleFor;
    assert product.Static? || product.Dynamic?;
    forall p
      ensures p in d.placements.Of(product) <==> p in inputs.Of(product).files
    {
      if p in inputs.Of(product).files {
        assert p in AllPaths(inputs) && Owns(inputs, product, p);
        assert !RuleFor(codec, inputs, p).Conflict?;
      } else {
        assert !Owns(inputs, product, p);
      }
    }
    forall p | p in d.placements.Of(product) && d.placements.Of(product)[p].None?
      ensures product == Static && p == EntryObject()
    {
      assert RuleFor(codec, inputs, p).Entry?;
      BothOwnEntry(codec, inputs, p);
    }
  }

  /** No product is preferred: what stands at a placed path has the digest and mode of every file placed there. */
  lemma PlacedFilesAreTheirOwn(codec: Codec, inputs: Inputs, d: Decision, product: Product, p: Path)
    requires Plans(codec, inputs, d) && Owns(inputs, product, p) && d.placements.Of(product)[p].Some?
    ensures var at := d.placements.Of(product)[p].value;
            && at in d.sources && Owns(inputs, d.sources[at].product, d.sources[at].origin)
            && Identity(codec, inputs, d.sources[at].product, d.sources[at].origin)
               == Identity(codec, inputs, product, p)
  {
    hide ManifestsAgree, Placeable, Moved, ManifestPath, EntryObject, Relocatable, Identity;
    assert p in AllPaths(inputs);
    var at := d.placements.Of(product)[p].value;
    assert Placement(codec, inputs, product, p) == Some(at);
    var owner := if RuleFor(codec, inputs, p).One? && Owns(inputs, Static, p) then Static else product;
    assert Installs(codec, inputs, owner, p);
    assert d.sources[at] == Source(owner, p);
  }

  /** The combined manifest's own path is free, and nothing lies below it. */
  lemma ManifestPlaceIsFree(codec: Codec, inputs: Inputs, d: Decision)
    requires Plans(codec, inputs, d) && inputs.Valid()
    ensures ManifestPath() !in d.sources && ManifestPath() !in d.links
    ensures forall q :: q in d.sources.Keys + d.links.Keys ==>
            !Ancestor(ManifestPath(), q) && !Ancestor(q, ManifestPath())
  {
    hide SourcesFor, PlacementsFor, NoConflict, SealsMatch, ManifestPath, Moved, Safe;
    assert Owns(inputs, Static, ManifestPath()) && Owns(inputs, Dynamic, ManifestPath());
    forall q | q in d.links
      ensures q != ManifestPath() && !Ancestor(ManifestPath(), q) && !Ancestor(q, ManifestPath())
    {
      var tree := if q in inputs.staticTree.links then inputs.staticTree else inputs.dynamicTree;
      assert q in tree.Entries() && ManifestPath() in tree.Entries();
    }
    forall q | q in d.sources
      ensures q != ManifestPath() && !Ancestor(ManifestPath(), q) && !Ancestor(q, ManifestPath())
    {
      DestinationAvoidsManifest(codec, inputs, d, q);
    }
  }

  lemma DestinationAvoidsManifest(codec: Codec, inputs: Inputs, d: Decision, q: Path)
    requires Plans(codec, inputs, d) && inputs.Valid() && q in d.sources
    ensures q != ManifestPath() && !Ancestor(ManifestPath(), q) && !Ancestor(q, ManifestPath())
  {
    hide SealsMatch, ManifestPath, Moved, Safe, Relocatable, Agree, Ancestor, EntryObject;
    var s := d.sources[q];
    assert Placement(codec, inputs, s.product, s.origin) == Some(q);
    if RuleFor(codec, inputs, s.origin).Apart? {
      MovedIsNotManifest(s.product, s.origin);
      MovedAboveManifest(s.product, s.origin);
    } else {
      var tree := inputs.Of(s.product);
      assert q == s.origin && q in tree.Entries();
      assert Owns(inputs, s.product, ManifestPath()) && ManifestPath() in tree.Entries();
    }
  }

  lemma MovedAboveManifest(product: Product, p: Path)
    ensures !Ancestor(Moved(product, p), ManifestPath())
  {
    PrefixFacts();
    hide MetadataPrefix;
    var moved := Moved(product, p);
    assert moved[12] == ProductName(product)[0] && ManifestPath()[12] == 'm';
    assert 12 < |moved| && (|moved| < |ManifestPath()| ==> ManifestPath()[..|moved|][12] == 'm');
  }
}
