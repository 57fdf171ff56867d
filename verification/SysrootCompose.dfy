/**
 * Composition: the planned tree is written step by step and validated. It
 * succeeds exactly when the products can be planned and their manifests are
 * truthful about them.
 */
module SysrootCompose {
  import opened Wrappers
  import opened Paths
  import opened SysrootModel
  import opened SysrootPlan
  import opened SysrootValidate

  // ----- Writing

  /** A file can be written where no directory, link or parent file is in the way. */
  predicate CanWrite(tree: Tree, p: Path) {
    p != "." && p !in tree.links && forall q :: q in tree.Entries() ==> !Ancestor(q, p) && !Ancestor(p, q)
  }

  predicate CanLink(tree: Tree, p: Path, target: string) {
    target != "" && p !in tree.files && CanWrite(tree, p)
  }

  /** A directory being filled, parents of each entry being created on the way. */
  class Root {
    var tree: Tree

    constructor ()
      ensures tree == Tree(map[], map[])
    {
      tree := Tree(map[], map[]);
    }

    method WriteFile(p: Path, file: File) returns (ok: bool)
      modifies this
      ensures ok == CanWrite(old(tree), p)
      ensures tree == if ok then old(tree).(files := old(tree).files[p := file]) else old(tree)
      ensures old(tree).Valid() && Safe(p) ==> tree.Valid()
    {
      ok := CanWrite(tree, p);
      if ok {
        tree := tree.(files := tree.files[p := file]);
      }
    }

    method MakeLink(p: Path, target: string) returns (ok: bool)
      modifies this
      ensures ok == CanLink(old(tree), p, target)
      ensures tree == if ok then old(tree).(links := old(tree).links[p := target]) else old(tree)
      ensures old(tree).Valid() && Safe(p) ==> tree.Valid()
    {
      ok := CanLink(tree, p, target);
      if ok {
        tree := tree.(links := tree.links[p := target]);
      }
    }
  }

  // ----- What is written

  function FileOf(inputs: Inputs, s: Source): File {
    if Owns(inputs, s.product, s.origin) then inputs.Of(s.product).files[s.origin] else File([], false)
  }

  function InstalledFiles(inputs: Inputs, d: Decision): (r: map<Path, File>)
    ensures r.Keys == d.sources.Keys
  {
    map at | at in d.sources :: FileOf(inputs, d.sources[at])
  }

  function ComponentOf(d: Decision, product: Product): Component {
    Component(ProductFormat(product), ComponentManifest(product), d.placements.Of(product))
  }

  function RecordOf(codec: Codec, inputs: Inputs, d: Decision): Record {
    Record(1, CombinedFormat(), Target(), d.toolchain, d.profile, CombinedModes(d.profile),
           map at | at in d.sources :: codec.hash(FileOf(inputs, d.sources[at]).data),
           Listing(set at | at in d.sources && FileOf(inputs, d.sources[at]).executable, true), d.links,
           map[ProductName(Static) := ComponentOf(d, Static), ProductName(Dynamic) := ComponentOf(d, Dynamic)])
  }

  function Composed(codec: Codec, inputs: Inputs, d: Decision): Tree {
    Tree(InstalledFiles(inputs, d)[ManifestPath() := File(codec.writeRecord(RecordOf(codec, inputs, d)), false)],
         d.links)
  }

  /** Each link names a file beside it. */
  ghost predicate LinksNameFiles(d: Decision) {
    forall p :: p in d.links ==> PlainName(d.links[p]) && Sibling(p, d.links[p]) in d.sources
  }

  /** The manifest lists exactly the product's files, with the digest of each installed one. */
  ghost predicate TruthfulManifest(codec: Codec, inputs: Inputs, d: Decision, product: Product) {
    var m := ManifestOf(codec, inputs, product);
    && m.Some? && m.value.schema == 1 && m.value.files.Some?
    && m.value.files.value.Keys + {ManifestPath()} == inputs.Of(product).files.Keys
    && forall p :: p in m.value.files.value && p != ManifestPath() && p in d.placements.Of(product)
                   && d.placements.Of(product)[p].Some?
               ==> p in inputs.Of(product).files
                   && m.value.files.value[p] == codec.hash(inputs.Of(product).files[p].data)
  }

  /** The state file that is installed: the static product's own when both products share one. */
  function InstalledState(codec: Codec, inputs: Inputs): Bytes {
    if Owns(inputs, Static, StatePath()) && Agree(codec, inputs, StatePath()) then
        inputs.staticTree.files[StatePath()].data
    else if Owns(inputs, Dynamic, StatePath()) then inputs.dynamicTree.files[StatePath()].data
    else []
  }

  /** The installed state file carries the seals of the two manifests. */
  predicate SealedState(codec: Codec, inputs: Inputs) {
    var a, b := ManifestOf(codec, inputs, Static), ManifestOf(codec, inputs, Dynamic);
    a.Some? && b.Some? && SealsMatch(a.value, b.value, codec.readState(InstalledState(codec, inputs)))
  }

  ghost predicate Truthful(codec: Codec, inputs: Inputs, d: Decision) {
    && TruthfulManifest(codec, inputs, d, Static) && TruthfulManifest(codec, inputs, d, Dynamic)
    && ManifestOf(codec, inputs, Dynamic).value.symlinks == Some(d.links)
    && LinksNameFiles(d) && SealedState(codec, inputs)
  }

  // ----- Installed names are safe

  lemma {:induction false} ComponentsSplit(piece: string, a: string, b: string)
    ensures Pieces('/', piece, a + "/" + b) == Pieces('/', piece, a) + Pieces('/', "", b)
    decreases |a|
  {
    var s := a + "/" + b;
    if a == "" {
      assert s[1..] == b;
    } else {
      assert s[1..] == a[1..] + "/" + b;
      ComponentsSplit(if a[0] == '/' then "" else piece + [a[0]], a[1..], b);
      assert s[0] == a[0];
    }
  }

  lemma {:induction false} OneComponent(piece: string, a: string)
    requires '/' !in a
    ensures Pieces('/', piece, a) == [piece + a]
    decreases |a|
  {
    if a == "" {
      assert piece + a == piece;
    } else {
      OneComponent(piece + [a[0]], a[1..]);
      assert piece + [a[0]] + a[1..] == piece + a;
    }
  }

  lemma SafeSplit(a: string, b: string)
    ensures Safe(a + "/" + b) <==> Safe(a) && Safe(b)
  {
    hide Pieces;
    ComponentsSplit("", a, b);
    var both := Pieces('/', "", a) + Pieces('/', "", b);
    assert forall c :: c in both <==> c in Pieces('/', "", a) || c in Pieces('/', "", b);
  }

  lemma MovedIsSafe(product: Product, p: Path)
    requires Metadata(p) && Safe(p)
    ensures Safe(Moved(product, p))
  {
    hide Safe;
    var base := "share/crabc";
    PrefixFacts();
    assert MetadataPrefix() == base + "/";
    var tail, name := p[12..], ProductName(product);
    assert p == MetadataPrefix() + tail;
    assert p == base + "/" + tail;
    SafeSplit(base, tail);
    assert Moved(product, p) == base + "/" + (name + "/" + tail);
    SafeSplit(base, name + "/" + tail);
    SafeSplit(name, tail);
    NameIsSafe(product);
  }

  lemma NameIsSafe(product: Product)
    ensures Safe(ProductName(product))
  {
    OneComponent("", ProductName(product));
  }

  lemma DestinationsAreSafe(codec: Codec, inputs: Inputs, d: Decision, at: Path)
    requires Plans(codec, inputs, d) && inputs.Valid() && at in d.sources
    ensures Safe(at)
  {
    hide ManifestsAgree, Placeable, PlacementsFor, Moved, Safe, Agree, ManifestPath, EntryObject, Metadata;
    var s := d.sources[at];
    assert Placement(codec, inputs, s.product, s.origin) == Some(at);
    assert s.origin in inputs.Of(s.product).Entries();
    if RuleFor(codec, inputs, s.origin).Apart? {
      NameFacts();
      MovedIsSafe(s.product, s.origin);
    }
  }

  lemma DotIsUnsafe(p: Path)
    requires Safe(p)
    ensures p != "."
  {
    if '/' !in p {
      OneComponent("", p);
      assert "" + p == p;
      assert p in Pieces('/', "", p);
    }
  }

  // ----- The composed tree is a tree

  lemma LinksAreSeparate(d: Decision, p: Path, q: Path)
    requires Placeable(d.sources, d.links) && LinksNameFiles(d)
    requires p in d.links && q in d.sources.Keys + d.links.Keys
    ensures !Ancestor(q, p)
  {
    hide Ancestor, Sibling, PlainName;
    var beside := Sibling(p, d.links[p]);
    assert !Ancestor(q, beside);
    if Ancestor(q, p) {
      SiblingAncestors(q, p, d.links[p]);
    }
  }

  lemma ComposedIsTree(codec: Codec, inputs: Inputs, d: Decision)
    requires Plans(codec, inputs, d) && inputs.Valid() && LinksNameFiles(d)
    ensures Composed(codec, inputs, d).Valid()
  {
    hide SourcesFor, PlacementsFor, NoConflict, ManifestsAgree, Safe, Ancestor, RecordOf, ManifestPath;
    var tree := Composed(codec, inputs, d);
    ManifestPlaceIsFree(codec, inputs, d);
    forall p | p in tree.Entries()
      ensures Safe(p)
    {
      if p in d.sources {
        DestinationsAreSafe(codec, inputs, d, p);
      } else if p in d.links {
        LinkIsSafe(inputs, p);
      } else {
        ManifestIsSafe(codec, inputs);
      }
    }
    forall p, q | p in tree.Entries() && q in tree.Entries()
      ensures !Ancestor(p, q)
    {
      if p == ManifestPath() && q == ManifestPath() {
        NotOwnAncestor(p);
      } else if q in d.links && p != ManifestPath() {
        LinksAreSeparate(d, q, p);
      }
    }
  }

  lemma NotOwnAncestor(p: Path)
    ensures !Ancestor(p, p)
  {
  }

  lemma LinkIsSafe(inputs: Inputs, p: Path)
    requires inputs.Valid() && p in AllLinks(inputs)
    ensures Safe(p)
  {
    hide Safe;
    assert p in inputs.staticTree.Entries() || p in inputs.dynamicTree.Entries();
  }

  lemma ManifestIsSafe(codec: Codec, inputs: Inputs)
    requires inputs.Valid() && ManifestsAgree(codec, inputs)
    ensures Safe(ManifestPath())
  {
    hide Safe, SealsMatch, ManifestPath;
    assert ManifestPath() in inputs.staticTree.Entries();
  }

  // ----- Validation of the composed tree

  /** Each product's manifest is installed under its component path, unchanged. */
  lemma ManifestIsInstalled(codec: Codec, inputs: Inputs, d: Decision, product: Product)
    requires Plans(codec, inputs, d)
    ensures var at := ComponentManifest(product);
            && at in d.sources && d.sources[at] == Source(product, ManifestPath())
            && d.placements.Of(product)[ManifestPath()] == Some(at)
            && ManifestPath() in inputs.Of(product).files
            && FileOf(inputs, d.sources[at]).data == inputs.Of(product).files[ManifestPath()].data
  {
    hide Placeable, SealsMatch, ManifestPath, ComponentManifest, Moved, Target, ProductFormat;
    assert Owns(inputs, product, ManifestPath());
    assert ManifestPath() in AllPaths(inputs);
    MovedManifest(product);
    assert Placement(codec, inputs, product, ManifestPath()) == Some(ComponentManifest(product));
    assert Installs(codec, inputs, product, ManifestPath());
  }

  lemma ComposedRecord(codec: Codec, inputs: Inputs, d: Decision)
    requires codec.Faithful()
    ensures RecordIn(codec, Composed(codec, inputs, d)) == Some(RecordOf(codec, inputs, d))
    ensures ManifestIdentity(RecordOf(codec, inputs, d))
  {
  }

  lemma ComposedRoster(codec: Codec, inputs: Inputs, d: Decision)
    requires Plans(codec, inputs, d) && inputs.Valid()
    ensures RosterOk(codec, Composed(codec, inputs, d), RecordOf(codec, inputs, d)) <==>
              LinksStayInside(Composed(codec, inputs, d))
  {
    hide Plans, FileOf, LinksStayInside, ManifestPath, CombinedModes, CombinedFormat, Target, ComponentOf;
    ManifestPlaceIsFree(codec, inputs, d);
    var tree, record := Composed(codec, inputs, d), RecordOf(codec, inputs, d);
    assert Digests(codec, tree) == record.files;
    assert Executables(tree) == record.executables.members;
  }

  lemma PlacementsOfRecord(codec: Codec, inputs: Inputs, d: Decision, product: Product)
    ensures PlacementsIn(RecordOf(codec, inputs, d), product) == d.placements.Of(product)
    ensures ComponentIdentity(RecordOf(codec, inputs, d), product)
    ensures RecordOf(codec, inputs, d).products.Keys == {ProductName(Static), ProductName(Dynamic)}
  {
    hide FileOf, ComponentManifest, CombinedModes, CombinedFormat, Target, ProductFormat;
    assert ProductName(Static)[0] != ProductName(Dynamic)[0];
  }

  /** What validation reads back from the composed tree is what the products supplied. */
  lemma ReadBackIs(codec: Codec, inputs: Inputs, d: Decision, product: Product)
    requires Plans(codec, inputs, d) && inputs.Valid()
    ensures var payloads := ReadBack(Composed(codec, inputs, d), RecordOf(codec, inputs, d));
            && ComponentManifest(product) in payloads
            && payloads[ComponentManifest(product)] == inputs.Of(product).files[ManifestPath()].data
            && Embedded(codec, payloads, product) == ManifestOf(codec, inputs, product)
  {
    hide RecordOf, StateDestination, ManifestPath, ComponentManifest, Plans;
    ManifestIsInstalled(codec, inputs, d, product);
    ManifestPlaceIsFree(codec, inputs, d);
  }

  /** The embedded component is in order exactly when its manifest is truthful. */
  lemma ComponentIsTruthful(codec: Codec, inputs: Inputs, d: Decision, product: Product)
    requires Plans(codec, inputs, d) && inputs.Valid()
    ensures var record := RecordOf(codec, inputs, d);
            ComponentOk(codec, record, ReadBack(Composed(codec, inputs, d), record), product) <==>
              TruthfulManifest(codec, inputs, d, product)
              && (product.Dynamic? ==> ManifestOf(codec, inputs, Dynamic).value.symlinks == Some(d.links))
  {
    hide RecordOf, Plans, ManifestPath, ComponentManifest, ReadBack, Composed, PlacementsIn, ComponentIdentity,
         StatePath, Embedded, ManifestOf, EmbeddedIdentity, TruthfulManifest, PlacementRoster, Expected, OriginOk;
    var record := RecordOf(codec, inputs, d);
    var payloads := ReadBack(Composed(codec, inputs, d), record);
    PlacementsOfRecord(codec, inputs, d, product);
    ReadBackIs(codec, inputs, d, product);
    ManifestIsIdentified(codec, inputs, d, product);
    var m := ManifestOf(codec, inputs, product).value;
    IdentityIsTruthful(codec, inputs, d, product);
    if m.files.Some? {
      RosterIsTruthful(codec, inputs, d, product, m.files.value);
      if PlacementRoster(record, product, m.files.value) {
        OriginsAreTruthful(codec, inputs, d, product, m.files.value, payloads);
      }
    }
    TruthfulParts(codec, inputs, d, product);
  }

  lemma ManifestIsIdentified(codec: Codec, inputs: Inputs, d: Decision, product: Product)
    requires Plans(codec, inputs, d)
    ensures var m := ManifestOf(codec, inputs, product);
            m.Some? && Identified(m, product) && m.value.toolchain == d.toolchain && m.value.profile == d.profile
  {
    hide SourcesFor, PlacementsFor, Placeable, ManifestPath, StatePath, ProductFormat, Target, ManifestOf;
  }

  ghost predicate TruthfulDigests(codec: Codec, inputs: Inputs, d: Decision, product: Product,
                                  files: map<Path, Digest>) {
    forall p :: p in files && p != ManifestPath() && p in d.placements.Of(product) && d.placements.Of(product)[p].Some?
            ==> p in inputs.Of(product).files && files[p] == codec.hash(inputs.Of(product).files[p].data)
  }

  lemma TruthfulParts(codec: Codec, inputs: Inputs, d: Decision, product: Product)
    ensures TruthfulManifest(codec, inputs, d, product) <==>
              var m := ManifestOf(codec, inputs, product);
              && m.Some? && m.value.schema == 1 && m.value.files.Some?
              && m.value.files.value.Keys + {ManifestPath()} == inputs.Of(product).files.Keys
              && TruthfulDigests(codec, inputs, d, product, m.value.files.value)
  {
  }

  lemma IdentityIsTruthful(codec: Codec, inputs: Inputs, d: Decision, product: Product)
    requires Plans(codec, inputs, d)
    ensures var m := ManifestOf(codec, inputs, product);
            EmbeddedIdentity(RecordOf(codec, inputs, d), product, m) <==>
              && m.Some? && m.value.schema == 1 && m.value.files.Some?
              && (product.Dynamic? ==> StatePath() in m.value.files.value && m.value.symlinks == Some(d.links))
  {
    hide Plans, ManifestOf, ProductFormat, Target, StatePath, FileOf, CombinedModes, CombinedFormat, ComponentOf;
    ManifestIsIdentified(codec, inputs, d, product);
  }

  lemma RosterIsTruthful(codec: Codec, inputs: Inputs, d: Decision, product: Product, files: map<Path, Digest>)
    requires Plans(codec, inputs, d)
    ensures PlacementRoster(RecordOf(codec, inputs, d), product, files) <==>
              files.Keys + {ManifestPath()} == inputs.Of(product).files.Keys
    ensures product.Dynamic? && files.Keys + {ManifestPath()} == inputs.Of(product).files.Keys ==> StatePath() in files
  {
    hide RecordOf, PlacementsIn, ManifestPath, ComponentManifest, StatePath, SourcesFor, PlacementsFor, Placeable,
         SealsMatch;
    PlacementsOfRecord(codec, inputs, d, product);
    EveryFileIsAccountedFor(codec, inputs, d, product);
    ManifestIsInstalled(codec, inputs, d, product);
    NameFacts();
    assert product.Dynamic? ==> StatePath() in inputs.Of(product).files;
  }

  lemma OriginsAreTruthful(codec: Codec, inputs: Inputs, d: Decision, product: Product, files: map<Path, Digest>,
                           payloads: map<Path, Bytes>)
    requires Plans(codec, inputs, d) && inputs.Valid()
    requires files.Keys + {ManifestPath()} == inputs.Of(product).files.Keys
    requires ComponentManifest(product) in payloads
             && payloads[ComponentManifest(product)] == inputs.Of(product).files[ManifestPath()].data
    ensures var placements := d.placements.Of(product);
            (forall origin :: origin in placements ==>
               OriginOk(RecordOf(codec, inputs, d), product, origin, placements[origin],
                        Expected(codec, payloads, product, files, origin)))
            <==> TruthfulDigests(codec, inputs, d, product, files)
  {
    hide Plans, RecordOf, ManifestPath, ComponentManifest, Expected, OriginOk;
    var placements := d.placements.Of(product);
    EveryFileIsAccountedFor(codec, inputs, d, product);
    forall origin | origin in placements
      ensures OriginOk(RecordOf(codec, inputs, d), product, origin, placements[origin],
                       Expected(codec, payloads, product, files, origin))
              <==> (origin != ManifestPath() && placements[origin].Some? ==>
                      files[origin] == codec.hash(inputs.Of(product).files[origin].data))
    {
      OriginIsTruthful(codec, inputs, d, product, files, payloads, origin);
    }
  }

  lemma OriginIsTruthful(codec: Codec, inputs: Inputs, d: Decision, product: Product, files: map<Path, Digest>,
                         payloads: map<Path, Bytes>, origin: Path)
    requires Plans(codec, inputs, d) && inputs.Valid()
    requires files.Keys + {ManifestPath()} == inputs.Of(product).files.Keys
    requires ComponentManifest(product) in payloads
             && payloads[ComponentManifest(product)] == inputs.Of(product).files[ManifestPath()].data
    requires origin in d.placements.Of(product) && origin in inputs.Of(product).files
    ensures OriginOk(RecordOf(codec, inputs, d), product, origin, d.placements.Of(product)[origin],
                     Expected(codec, payloads, product, files, origin))
            <==> (origin != ManifestPath() && d.placements.Of(product)[origin].Some? ==>
                    files[origin] == codec.hash(inputs.Of(product).files[origin].data))
  {
    hide Plans, ManifestPath, ComponentManifest, CombinedModes, CombinedFormat, Target, ComponentOf, EntryObject;
    EveryFileIsAccountedFor(codec, inputs, d, product);
    if d.placements.Of(product)[origin].Some? {
      PlacedFilesAreTheirOwn(codec, inputs, d, product, origin);
    }
  }

  /** Every installed file is claimed: the file it comes from is placed there. */
  lemma InstalledFilesAreClaimed(codec: Codec, inputs: Inputs, d: Decision, at: Path)
    requires Plans(codec, inputs, d) && at in d.sources
    ensures var record := RecordOf(codec, inputs, d); ClaimedBy(record, Static, at) || ClaimedBy(record, Dynamic, at)
  {
    hide RecordOf, PlacementsIn, ManifestsAgree, Placeable, RuleFor, Placement;
    var s := d.sources[at];
    PlacementsOfRecord(codec, inputs, d, s.product);
    EveryFileIsAccountedFor(codec, inputs, d, s.product);
    assert Placement(codec, inputs, s.product, s.origin) == Some(at);
    assert d.placements.Of(s.product)[s.origin] == Some(at);
    assert ClaimedBy(RecordOf(codec, inputs, d), s.product, at);
  }

  lemma ComposedState(codec: Codec, inputs: Inputs, d: Decision)
    requires Plans(codec, inputs, d) && inputs.Valid()
    ensures var record := RecordOf(codec, inputs, d);
            StateOk(codec, record, ReadBack(Composed(codec, inputs, d), record)) <==> SealedState(codec, inputs)
  {
    hide RecordOf, SealsMatch, ManifestPath, ComponentManifest, StatePath, PlacementsIn, ManifestOf, Moved, Composed,
         InstalledState;
    var record := RecordOf(codec, inputs, d);
    StateIsPlaced(codec, inputs, d);
    ReadBackIs(codec, inputs, d, Static);
    ReadBackIs(codec, inputs, d, Dynamic);
    ReadableManifests(codec, inputs);
    var at := d.placements.dynamicMap[StatePath()].value;
    assert StateDestination(record) == Some(at);
    assert at in Composed(codec, inputs, d).files;
  }

  /** The installed state is the first owner's. */
  lemma StateSource(codec: Codec, inputs: Inputs, d: Decision)
    requires Plans(codec, inputs, d)
    ensures StatePath() in inputs.dynamicTree.files && StatePath() in d.placements.dynamicMap
    ensures var at := d.placements.dynamicMap[StatePath()];
            && at.Some? && at.value in d.sources
            && FileOf(inputs, d.sources[at.value]).data == InstalledState(codec, inputs)
  {
    hide SealsMatch, ManifestPath, StatePath, ManifestOf, EntryObject, Moved, Placeable, LinksAgree;
    NameFacts();
    EveryFileIsAccountedFor(codec, inputs, d, Dynamic);
    assert StatePath() in d.placements.Of(Dynamic);
    var at := d.placements.dynamicMap[StatePath()];
    var owner := if Owns(inputs, Static, StatePath()) && Agree(codec, inputs, StatePath()) then Static else Dynamic;
    assert Installs(codec, inputs, owner, StatePath()) && Placement(codec, inputs, owner, StatePath()) == at;
    assert d.sources[at.value] == Source(owner, StatePath());
  }

  lemma StateIsPlaced(codec: Codec, inputs: Inputs, d: Decision)
    requires Plans(codec, inputs, d) && inputs.Valid()
    ensures StatePath() in inputs.dynamicTree.files && StatePath() in d.placements.dynamicMap
    ensures var at := d.placements.dynamicMap[StatePath()];
            && at.Some? && StateDestination(RecordOf(codec, inputs, d)) == at
            && at.value in Composed(codec, inputs, d).files
            && Composed(codec, inputs, d).files[at.value].data == InstalledState(codec, inputs)
  {
    hide Plans, ManifestPath, ComponentManifest, StatePath, CombinedModes, CombinedFormat, Target, ComponentOf,
         PlacementsIn, InstalledState, FileOf;
    StateSource(codec, inputs, d);
    PlacementsOfRecord(codec, inputs, d, Dynamic);
    ManifestPlaceIsFree(codec, inputs, d);
  }

  /** The seals that planning checked are the installed ones unless two different state files share a digest. */
  lemma PlannedStateIsSealed(codec: Codec, inputs: Inputs, d: Decision)
    requires Plans(codec, inputs, d)
    requires Owns(inputs, Static, StatePath()) && Agree(codec, inputs, StatePath()) ==>
               InstalledState(codec, inputs) == inputs.dynamicTree.files[StatePath()].data
    ensures SealedState(codec, inputs)
  {
    hide SealsMatch, StatePath, SourcesFor, PlacementsFor, Placeable, NoConflict, LinksAgree;
    ReadableManifests(codec, inputs);
  }

  /**
   * The composed tree passes validation exactly when links name files, manifests are truthful and the
   * state is sealed.
   */
  lemma ComposedTreeIsValid(codec: Codec, inputs: Inputs, d: Decision)
    requires Plans(codec, inputs, d) && inputs.Valid() && codec.Faithful()
    ensures Composed(codec, inputs, d).Valid() && ValidTree(codec, Composed(codec, inputs, d)) <==>
            Truthful(codec, inputs, d)
  {
    hide Plans, RecordOf, Composed, ComponentOk, StateOk, ClaimedBy, RosterOk, TruthfulManifest, RecordIdentity,
         ReadBack, RecordIn, ManifestIdentity, ManifestOf, SealedState;
    ComposedRecord(codec, inputs, d);
    ComposedRoster(codec, inputs, d);
    ComponentIsTruthful(codec, inputs, d, Static);
    ComponentIsTruthful(codec, inputs, d, Dynamic);
    ComposedState(codec, inputs, d);
    ComposedIdentity(codec, inputs, d);
    forall at | at in RecordOf(codec, inputs, d).files
      ensures ClaimedBy(RecordOf(codec, inputs, d), Static, at) || ClaimedBy(RecordOf(codec, inputs, d), Dynamic, at)
    {
      InstalledFilesAreClaimed(codec, inputs, d, at);
    }
    LinksOfComposed(codec, inputs, d);
    if LinksNameFiles(d) {
      ComposedIsTree(codec, inputs, d);
    }
  }

  lemma ComposedIdentity(codec: Codec, inputs: Inputs, d: Decision)
    requires Plans(codec, inputs, d)
    ensures RecordIdentity(RecordOf(codec, inputs, d)) && RecordOf(codec, inputs, d).files.Keys == d.sources.Keys
  {
    hide SourcesFor, PlacementsFor, Placeable, ManifestPath, StatePath, CombinedModes, CombinedFormat, Target,
         ManifestOf, ProductFormat, ComponentManifest, NoConflict, LinksAgree, DebugState, DebugStatic, IsSeal,
         DynamicSeal, FileOf, ComponentOf;
    var record := RecordOf(codec, inputs, d);
    assert record.products.Keys == {ProductName(Static), ProductName(Dynamic)};
    assert IsProfile(d.profile) && d.toolchain.Text?;
  }

  /** In a directory tree, links that validation accepts name files beside them, and conversely. */
  lemma LinksOfComposed(codec: Codec, inputs: Inputs, d: Decision)
    requires Plans(codec, inputs, d) && inputs.Valid()
    ensures LinksNameFiles(d) ==> LinksStayInside(Composed(codec, inputs, d))
    ensures LinksStayInside(Composed(codec, inputs, d)) && Composed(codec, inputs, d).Valid() ==> LinksNameFiles(d)
  {
    hide Plans, RecordOf, ManifestPath, Safe;
    var tree := Composed(codec, inputs, d);
    ManifestPlaceIsFree(codec, inputs, d);
    if LinksStayInside(tree) && tree.Valid() {
      forall p | p in d.links
        ensures PlainName(d.links[p]) && Sibling(p, d.links[p]) in d.sources
      {
        PlainWhenBeside(tree, p);
      }
    }
  }

  /** A link to its own directory would need that directory to be a file. */
  lemma PlainWhenBeside(tree: Tree, p: Path)
    requires tree.Valid() && p in tree.links
    requires '/' !in tree.links[p] && Sibling(p, tree.links[p]) in tree.files
    ensures PlainName(tree.links[p])
  {
    var target := tree.links[p];
    var beside := Sibling(p, target);
    assert beside in tree.Entries() && p in tree.Entries();
    DotIsUnsafe(beside);
    if DirectoryLength(p) != 0 {
      ParentIsAncestor(p);
    }
  }

  // ----- The composer

  method WritePlannedFiles(codec: Codec, inputs: Inputs, d: Decision, output: Root) returns (ok: bool)
    requires Plans(codec, inputs, d) && inputs.Valid() && output.tree == Tree(map[], map[])
    modifies output
    ensures ok && output.tree == Tree(InstalledFiles(inputs, d), map[]) && output.tree.Valid()
  {
    hide ManifestsAgree, SourcesFor, PlacementsFor, NoConflict, FileOf, Ancestor, Safe;
    var left := d.sources.Keys;
    while left != {}
      invariant left <= d.sources.Keys
      invariant output.tree.links == map[] && output.tree.files.Keys == d.sources.Keys - left && output.tree.Valid()
      invariant forall at :: at in output.tree.files ==> output.tree.files[at] == FileOf(inputs, d.sources[at])
      decreases left
    {
      var at :| at in left;
      DestinationsAreSafe(codec, inputs, d, at);
      DotIsUnsafe(at);
      var written := output.WriteFile(at, FileOf(inputs, d.sources[at]));
      left := left - {at};
    }
    assert output.tree.files == InstalledFiles(inputs, d);
    ok := true;
  }

  /** Links are made after all files; this can fail only when some link does not name a file beside it. */
  method MakePlannedLinks(codec: Codec, inputs: Inputs, d: Decision, output: Root) returns (ok: bool)
    requires Plans(codec, inputs, d) && inputs.Valid()
    requires output.tree == Tree(InstalledFiles(inputs, d), map[]) && output.tree.Valid()
    modifies output
    ensures LinksNameFiles(d) ==> ok
    ensures ok ==> output.tree == Tree(InstalledFiles(inputs, d), d.links) && output.tree.Valid()
  {
    hide ManifestsAgree, SourcesFor, PlacementsFor, NoConflict, FileOf, Ancestor, Safe, LinksNameFiles;
    var left := d.links.Keys;
    while left != {}
      invariant left <= d.links.Keys
      invariant output.tree.files == InstalledFiles(inputs, d) && output.tree.Valid()
      invariant output.tree.links.Keys == d.links.Keys - left
      invariant forall p :: p in output.tree.links ==> output.tree.links[p] == d.links[p]
      decreases left
    {
      var p :| p in left;
      LinkIsSafe(inputs, p);
      DotIsUnsafe(p);
      if LinksNameFiles(d) {
        LinkFits(d, p, output.tree);
      }
      var made := output.MakeLink(p, d.links[p]);
      if !made {
        return false;
      }
      left := left - {p};
    }
    assert output.tree.links == d.links;
    ok := true;
  }

  lemma LinkFits(d: Decision, p: Path, tree: Tree)
    requires Placeable(d.sources, d.links) && LinksNameFiles(d) && p in d.links
    requires tree.files.Keys == d.sources.Keys && tree.links.Keys <= d.links.Keys
    ensures d.links[p] != "" && p !in tree.files
    ensures forall q :: q in tree.Entries() ==> !Ancestor(q, p) && !Ancestor(p, q)
  {
    hide Ancestor, Sibling;
    forall q | q in tree.Entries()
      ensures !Ancestor(q, p) && !Ancestor(p, q)
    {
      LinksAreSeparate(d, p, q);
      if q in d.links {
        LinksAreSeparate(d, q, p);
      }
    }
  }

  lemma PlansAreUnique(codec: Codec, inputs: Inputs, a: Decision, b: Decision)
    requires Plans(codec, inputs, a) && Plans(codec, inputs, b)
    ensures a == b
  {
    hide ManifestsAgree, Placeable, LinksAgree, SourcesFor, PlacementsFor, NoConflict;
    SourcesAreUnique(codec, inputs, a.sources, b.sources);
    PlacementsAreUnique(codec, inputs, a, b, Static);
    PlacementsAreUnique(codec, inputs, a, b, Dynamic);
  }

  lemma PlacementsAreUnique(codec: Codec, inputs: Inputs, a: Decision, b: Decision, product: Product)
    requires Plans(codec, inputs, a) && Plans(codec, inputs, b)
    ensures a.placements.Of(product) == b.placements.Of(product)
  {
    hide ManifestsAgree, Placeable, LinksAgree, SourcesFor, NoConflict, Placement;
    EveryFileIsAccountedFor(codec, inputs, a, product);
    EveryFileIsAccountedFor(codec, inputs, b, product);
    forall p | p in a.placements.Of(product)
      ensures a.placements.Of(product)[p] == b.placements.Of(product)[p]
    {
      assert a.placements.Of(product)[p] == Placement(codec, inputs, product, p);
      assert b.placements.Of(product)[p] == Placement(codec, inputs, product, p);
    }
  }

  lemma ManifestFits(codec: Codec, inputs: Inputs, d: Decision, tree: Tree)
    requires Plans(codec, inputs, d) && inputs.Valid()
    requires tree.files.Keys == d.sources.Keys && tree.links == d.links
    ensures CanWrite(tree, ManifestPath()) && Safe(ManifestPath())
  {
    hide SourcesFor, PlacementsFor, NoConflict, LinksAgree, Placeable, ManifestPath, Safe, SealsMatch;
    ManifestPlaceIsFree(codec, inputs, d);
    ManifestIsSafe(codec, inputs);
    DotIsUnsafe(ManifestPath());
  }

  /** Composition into a fresh directory succeeds exactly for plannable products with truthful manifests. */
  method Compose(codec: Codec, inputs: Inputs, output: Root) returns (r: Result<Record>)
    requires inputs.Valid() && codec.Faithful()
    requires output.tree == Tree(map[], map[])
    modifies output
    ensures r.Ok? <==> exists d :: Plans(codec, inputs, d) && Truthful(codec, inputs, d)
    ensures r.Ok? ==> ValidTree(codec, output.tree) && output.tree.Valid()
    ensures r.Ok? ==> exists d :: Plans(codec, inputs, d) && output.tree == Composed(codec, inputs, d)
                                  && r.value == RecordOf(codec, inputs, d)
  {
    hide ValidTree, Placeable, ManifestPath, TruthfulManifest, ManifestOf, InstalledFiles, RecordOf, Ancestor,
         LinksNameFiles, SourcesFor, PlacementsFor, ManifestsAgree;
    var planned := Plan(codec, inputs);
    if planned.Err? {
      return Err(planned.reason);
    }
    var d := planned.value;
    forall e | Plans(codec, inputs, e)
      ensures e == d
    {
      PlansAreUnique(codec, inputs, e, d);
    }
    assert Truthful(codec, inputs, d) ==> LinksNameFiles(d);
    var written := WritePlannedFiles(codec, inputs, d, output);
    var linked := MakePlannedLinks(codec, inputs, d, output);
    if !linked {
      return Err("a link could not be created");
    }
    var record := RecordOf(codec, inputs, d);
    ManifestFits(codec, inputs, d, output.tree);
    var manifested := output.WriteFile(ManifestPath(), File(codec.writeRecord(record), false));
    assert output.tree == Composed(codec, inputs, d);
    ComposedTreeIsValid(codec, inputs, d);
    var valid := Validate(codec, output.tree);
    if valid.Err? {
      return Err(valid.reason);
    }
    r := Ok(record);
  }
}
