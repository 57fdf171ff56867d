/**
 * Validation of a combined sysroot: the installed tree is exactly the
 * manifested one, and every installed file is claimed by a placed component
 * file of its own digest.
 */
module SysrootValidate {
  import opened Wrappers
  import opened Paths
  import opened SysrootModel

  // ----- One component's claims

  /** A component as a combined manifest and the embedded payloads present it. */
  function PlacementsIn(record: Record, product: Product): map<Path, Option<Path>> {
    if ProductName(product) in record.products then record.products[ProductName(product)].placements else map[]
  }

  function Embedded(codec: Codec, payloads: map<Path, Bytes>, product: Product): Option<Manifest> {
    if ComponentManifest(product) in payloads then codec.readManifest(payloads[ComponentManifest(product)]) else None
  }

  predicate ComponentIdentity(record: Record, product: Product) {
    && ProductName(product) in record.products
    && record.products[ProductName(product)].format == ProductFormat(product)
    && record.products[ProductName(product)].manifest == ComponentManifest(product)
  }

  predicate EmbeddedIdentity(record: Record, product: Product, m: Option<Manifest>) {
    && m.Some? && m.value.schema == 1 && m.value.format == Text(ProductFormat(product))
       && m.value.target == Text(Target())
    && m.value.profile == record.profile && m.value.toolchain == record.toolchain && m.value.files.Some?
    && (product.Dynamic? ==> StatePath() in m.value.files.value && m.value.symlinks == Some(record.symlinks))
  }

  predicate PlacementRoster(record: Record, product: Product, files: map<Path, Digest>) {
    var placements := PlacementsIn(record, product);
    && placements.Keys == files.Keys + {ManifestPath()}
    && placements[ManifestPath()] == Some(ComponentManifest(product))
  }

  /** The digest a component file must be found with: its manifest entry, or the manifest's own digest. */
  function Expected(codec: Codec, payloads: map<Path, Bytes>, product: Product, files: map<Path, Digest>,
                    origin: Path): Digest {
    if origin == ManifestPath() then
      (if ComponentManifest(product) in payloads then codec.hash(payloads[ComponentManifest(product)]) else "")
    else if origin in files then files[origin] else ""
  }

  /** A component file is installed with its digest, or is the static entry object that is not installed. */
  predicate OriginOk(record: Record, product: Product, origin: Path, placement: Option<Path>, digest: Digest) {
    match placement
    case None => product.Static? && origin == EntryObject()
    case Some(at) => at in record.files && record.files[at] == digest
  }

  ghost predicate ComponentOk(codec: Codec, record: Record, payloads: map<Path, Bytes>, product: Product) {
    var m, placements := Embedded(codec, payloads, product), PlacementsIn(record, product);
    && ComponentIdentity(record, product) && EmbeddedIdentity(record, product, m)
    && PlacementRoster(record, product, m.value.files.value)
    && forall origin :: origin in placements ==>
         OriginOk(record, product, origin, placements[origin],
                  Expected(codec, payloads, product, m.value.files.value, origin))
  }

  ghost predicate ClaimedBy(record: Record, product: Product, at: Path) {
    exists origin :: origin in PlacementsIn(record, product) && PlacementsIn(record, product)[origin] == Some(at)
  }

  predicate RecordIdentity(record: Record) {
    && record.products.Keys == {ProductName(Static), ProductName(Dynamic)} && IsProfile(record.profile)
    && record.schema == 1 && record.target == Target() && record.toolchain.Text?
    && record.modes == CombinedModes(record.profile)
  }

  function StateDestination(record: Record): Option<Path> {
    var placements := PlacementsIn(record, Dynamic);
    if StatePath() in placements && placements[StatePath()].Some? && placements[StatePath()].value in record.files
    then placements[StatePath()] else None
  }

  predicate StateOk(codec: Codec, record: Record, payloads: map<Path, Bytes>) {
    var at := StateDestination(record);
    var a, b := Embedded(codec, payloads, Static), Embedded(codec, payloads, Dynamic);
    && at.Some? && at.value in payloads && a.Some? && b.Some?
    && SealsMatch(a.value, b.value, codec.readState(payloads[at.value]))
  }

  /** Every installed file is claimed, every component file is placed with its own digest, and the seals agree. */
  ghost predicate ClaimsOk(codec: Codec, record: Record, payloads: map<Path, Bytes>) {
    && RecordIdentity(record)
    && ComponentOk(codec, record, payloads, Static) && ComponentOk(codec, record, payloads, Dynamic)
    && (forall at :: at in record.files ==> ClaimedBy(record, Static, at) || ClaimedBy(record, Dynamic, at))
    && StateOk(codec, record, payloads)
  }

  // ----- The claim loop

  /** Every component file is placed with the digest expected of it. */
  ghost predicate OriginsOk(record: Record, product: Product, placements: map<Path, Option<Path>>,
                            digests: map<Path, Digest>)
    requires placements.Keys == digests.Keys
  {
    forall origin :: origin in placements ==> OriginOk(record, product, origin, placements[origin], digests[origin])
  }

  ghost predicate PlacedAt(placements: map<Path, Option<Path>>, at: Path) {
    exists origin :: origin in placements && placements[origin] == Some(at)
  }

  /** The claim loop: one component file after another, each with its expected digest. */
  method ClaimOrigins(record: Record, product: Product, placements: map<Path, Option<Path>>, digests: map<Path, Digest>,
                      before: map<Path, Digest>) returns (r: Option<map<Path, Digest>>)
    requires placements.Keys == digests.Keys
    requires forall at :: at in before ==> at in record.files && before[at] == record.files[at]
    ensures r.Some? <==> OriginsOk(record, product, placements, digests)
    ensures r.Some? ==> forall at :: at in r.value <==> at in before || PlacedAt(placements, at)
    ensures r.Some? ==> forall at :: at in r.value ==> at in record.files && r.value[at] == record.files[at]
  {
    hide EntryObject;
    var claims := before;
    var left := placements.Keys;
    while left != {}
      invariant left <= placements.Keys
      invariant forall origin :: origin in placements && origin !in left ==>
                  OriginOk(record, product, origin, placements[origin], digests[origin])
      invariant forall at :: at in claims ==> at in record.files && claims[at] == record.files[at]
      invariant forall at :: at in before ==> at in claims
      invariant forall origin :: origin in placements && origin !in left && placements[origin].Some?
                             ==> placements[origin].value in claims
      invariant forall at :: at in claims ==> at in before || PlacedAt(placements, at)
      decreases left
    {
      var origin :| origin in left;
      left := left - {origin};
      match placements[origin]
      case None =>
        if !product.Static? || origin != EntryObject() {
          return None;
        }
      case Some(at) =>
        if at !in record.files || record.files[at] != digests[origin] {
          return None;
        }
        if at in claims && claims[at] != digests[origin] {
          return None;
        }
        claims := claims[at := digests[origin]];
    }
    r := Some(claims);
  }

  /** Adds one component's claims; fails exactly when the component is not what its record says. */
  method ClaimComponent(codec: Codec, record: Record, payloads: map<Path, Bytes>, product: Product,
                        before: map<Path, Digest>) returns (r: Option<map<Path, Digest>>)
    requires forall at :: at in before ==> at in record.files && before[at] == record.files[at]
    ensures r.Some? <==> ComponentOk(codec, record, payloads, product)
    ensures r.Some? ==> forall at :: at in r.value <==> at in before || ClaimedBy(record, product, at)
    ensures r.Some? ==> forall at :: at in r.value ==> at in record.files && r.value[at] == record.files[at]
  {
    hide ComponentIdentity, EmbeddedIdentity, Expected, Embedded, PlacementsIn, OriginOk, PlacementRoster;
    var m := Embedded(codec, payloads, product);
    if !ComponentIdentity(record, product) || !EmbeddedIdentity(record, product, m) {
      return None;
    }
    IdentifiedHasFiles(record, product, m);
    var files, placements := m.value.files.value, PlacementsIn(record, product);
    if !PlacementRoster(record, product, files) {
      return None;
    }
    var digests := map origin | origin in placements :: Expected(codec, payloads, product, files, origin);
    r := ClaimOrigins(record, product, placements, digests, before);
    assert OriginsOk(record, product, placements, digests) <==>
           forall origin :: origin in placements ==>
             OriginOk(record, product, origin, placements[origin], Expected(codec, payloads, product, files, origin));
  }

  lemma IdentifiedHasFiles(record: Record, product: Product, m: Option<Manifest>)
    requires EmbeddedIdentity(record, product, m)
    ensures m.Some? && m.value.files.Some?
  {
  }

  lemma SubmapIsWhole(a: map<Path, Digest>, b: map<Path, Digest>)
    requires forall k :: k in a ==> k in b && a[k] == b[k]
    ensures a == b <==> forall k :: k in b ==> k in a
  {
    if forall k :: k in b ==> k in a {
      assert a.Keys == b.Keys;
    }
  }

  method ValidateClaims(codec: Codec, record: Record, payloads: map<Path, Bytes>) returns (ok: bool)
    ensures ok <==> ClaimsOk(codec, record, payloads)
  {
    hide RecordIdentity, ComponentOk, StateOk, ClaimedBy;
    if !RecordIdentity(record) {
      return false;
    }
    var first := ClaimComponent(codec, record, payloads, Static, map[]);
    if first.None? {
      return false;
    }
    var claims := ClaimComponent(codec, record, payloads, Dynamic, first.value);
    if claims.None? {
      return false;
    }
    SubmapIsWhole(claims.value, record.files);
    if claims.value != record.files {
      return false;
    }
    ok := StateOk(codec, record, payloads);
  }

  // ----- The installed tree

  /** Payload of a tree: everything but the combined manifest. */
  function Digests(codec: Codec, tree: Tree): map<Path, Digest> {
    map p | p in tree.files && p != ManifestPath() :: codec.hash(tree.files[p].data)
  }

  function Executables(tree: Tree): set<Path> {
    set p | p in tree.files && p != ManifestPath() && tree.files[p].executable
  }

  predicate LinksStayInside(tree: Tree) {
    forall p :: p in tree.links ==>
      '/' !in tree.links[p] && Sibling(p, tree.links[p]) in tree.files && Sibling(p, tree.links[p]) != ManifestPath()
  }

  function RecordIn(codec: Codec, tree: Tree): Option<Record> {
    if ManifestPath() in tree.files then codec.readRecord(tree.files[ManifestPath()].data) else None
  }

  predicate ManifestIdentity(record: Record) {
    record.schema == 1 && record.format == CombinedFormat() && record.target == Target()
  }

  /** Files, modes and links are exactly the manifested ones. */
  predicate RosterOk(codec: Codec, tree: Tree, record: Record) {
    && ManifestPath() in tree.files && !tree.files[ManifestPath()].executable
    && Digests(codec, tree) == record.files
    && record.executables == Listing(Executables(tree), true)
    && tree.links == record.symlinks && LinksStayInside(tree)
  }

  /** The payloads validation reads: both component manifests and the dynamic state. */
  function ReadBack(tree: Tree, record: Record): map<Path, Bytes> {
    var at := StateDestination(record);
    var wanted := {ComponentManifest(Static), ComponentManifest(Dynamic)} + if at.Some? then {at.value} else {};
    map p | p in wanted && p in tree.files :: tree.files[p].data
  }

  ghost predicate ValidTree(codec: Codec, tree: Tree) {
    var record := RecordIn(codec, tree);
    && record.Some? && ManifestIdentity(record.value) && RosterOk(codec, tree, record.value)
    && ClaimsOk(codec, record.value, ReadBack(tree, record.value))
  }

  method Validate(codec: Codec, tree: Tree) returns (r: Result<Record>)
    ensures r.Ok? <==> ValidTree(codec, tree)
    ensures r.Ok? ==> Some(r.value) == RecordIn(codec, tree)
  {
    hide RecordIn, ManifestIdentity, RosterOk, ClaimsOk, ReadBack;
    var record := RecordIn(codec, tree);
    if record.None? || !ManifestIdentity(record.value) {
      return Err("combined manifest identity differs");
    }
    if !RosterOk(codec, tree, record.value) {
      return Err("installed tree differs from the combined manifest");
    }
    var claimed := ValidateClaims(codec, record.value, ReadBack(tree, record.value));
    if !claimed {
      return Err("combined package components differ");
    }
    r := Ok(record.value);
  }
}
