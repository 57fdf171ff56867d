/**
 * The data of the combined sysroot: installed trees, the manifests found in
 * them, and the rule that both products were built from one source.
 */
module SysrootModel {
  import opened Wrappers
  import opened LittleEndian
  import opened Paths

  type Bytes = seq<byte>
  type Digest = string

  datatype File = File(data: Bytes, executable: bool)

  /** Every regular file and symbolic link below a root. */
  datatype Tree = Tree(files: map<Path, File>, links: map<Path, string>)
  {
    function Entries(): set<Path> { files.Keys + links.Keys }

    /** A directory tree: normalised names, each one entry, and no entry inside a file or link. */
    ghost predicate Valid() {
      && (forall p :: p in Entries() ==> Safe(p))
      && files.Keys !! links.Keys
      && (forall p, q :: p in Entries() && q in Entries() ==> !Ancestor(p, q))
    }
  }

  datatype Product = Static | Dynamic

  function ProductName(product: Product): string {
    match product
    case Static => "static"
    case Dynamic => "dynamic"
  }

  datatype Inputs = Inputs(staticTree: Tree, dynamicTree: Tree)
  {
    function Of(product: Product): Tree { if product.Static? then staticTree else dynamicTree }

    ghost predicate Valid() { staticTree.Valid() && dynamicTree.Valid() }
  }

  // ----- Names

  function MetadataPrefix(): string { "share/crabc/" }

  function ManifestPath(): Path { MetadataPrefix() + "manifest.json" }

  function StatePath(): Path { MetadataPrefix() + "dynamic-product-state.json" }

  function EntryObject(): Path { "usr/lib/Scrt1.o" }

  function DriverModules(): set<Path> {
    {MetadataPrefix() + "crabc_cc_static.py", MetadataPrefix() + "native_runtime_profile.py",
     MetadataPrefix() + "owned_dynamic_receipt.py", MetadataPrefix() + "owned_dynamic_elf.py"}
  }

  function CombinedFormat(): string { "crabc-x86-64-owned-sysroot-v1" }

  function Target(): string { "x86_64-unknown-linux-musl" }

  function StateSchema(): string { "crabc.x86_64-owned-dynamic-materialization/v1" }

  function ProductFormat(product: Product): string {
    match product
    case Static => "crabc-x86-64-owned-static-sysroot-v1"
    case Dynamic => "crabc-x86-64-owned-dynamic-sysroot-v1"
  }

  /** Where metadata of one product moves when the two products cannot share it. */
  function Moved(product: Product, p: Path): Path {
    MetadataPrefix() + ProductName(product) + "/" + if |MetadataPrefix()| <= |p| then p[|MetadataPrefix()|..] else ""
  }

  function ComponentManifest(product: Product): Path {
    MetadataPrefix() + ProductName(product) + "/manifest.json"
  }

  predicate Metadata(p: Path) { MetadataPrefix() <= p }

  predicate Relocatable(p: Path) { Metadata(p) && p !in DriverModules() }

  lemma NameFacts()
    ensures Metadata(ManifestPath()) && Relocatable(StatePath()) && !Metadata(EntryObject())
    ensures ManifestPath() != StatePath() && ManifestPath() != EntryObject() && StatePath() != EntryObject()
  {
    PrefixFacts();
    EntryObjectFacts();
    hide MetadataPrefix, EntryObject;
    assert ManifestPath()[12] == 'm' && StatePath()[12] == 'd';
    assert forall p :: p in DriverModules() ==> p[12] != 'd';
  }

  lemma PrefixFacts()
    ensures |MetadataPrefix()| == 12 && MetadataPrefix()[0] == 's'
  {
  }

  lemma EntryObjectFacts()
    ensures EntryObject() != "" && EntryObject()[0] == 'u'
  {
  }

  lemma MovedManifest(product: Product)
    ensures Moved(product, ManifestPath()) == ComponentManifest(product)
  {
    PrefixFacts();
    hide MetadataPrefix;
    assert ManifestPath()[12..] == "manifest.json";
  }

  /** Moved metadata never takes the place of the combined manifest, nor lies below it. */
  lemma MovedIsNotManifest(product: Product, p: Path)
    ensures Moved(product, p) != ManifestPath() && !Ancestor(ManifestPath(), Moved(product, p))
  {
    PrefixFacts();
    hide MetadataPrefix;
    var moved := Moved(product, p);
    assert moved[12] == ProductName(product)[0] && ManifestPath()[12] == 'm';
    assert 12 < |ManifestPath()| && (|ManifestPath()| < |moved| ==> moved[..|ManifestPath()|][12] == moved[12]);
  }

  // ----- Manifests

  /** A JSON scalar of a manifest: absent, text or truth value. */
  datatype Scalar = Missing | Text(text: string) | Flag(flag: bool)

  function GetOr(value: Scalar, fallback: Scalar): Scalar { if value.Missing? then fallback else value }

  /** The fields of a product manifest that composition reads. */
  datatype Manifest = Manifest(schema: int, format: Scalar, target: Scalar, toolchain: Scalar, profile: Scalar,
                               files: Option<map<Path, Digest>>, symlinks: Option<map<Path, string>>,
                               source: Scalar, buildProfile: Scalar, backend: Scalar, audit: Scalar)

  /** The dynamic product's materialization state. */
  datatype State = State(fields: set<string>, schema: Scalar, source: Scalar, buildProfile: Scalar, backend: Scalar,
                         audit: Scalar, status: Scalar)

  /** One product's part in the combined manifest; an absent placement means "not installed". */
  datatype Component = Component(format: string, manifest: Path, placements: map<Path, Option<Path>>)

  /** A JSON list of paths: its members, and whether it lists them sorted without repetition. */
  datatype Listing = Listing(members: set<Path>, sorted: bool)

  /** The combined manifest. */
  datatype Record = Record(schema: int, format: string, target: string, toolchain: Scalar, profile: Scalar,
                           modes: seq<string>, files: map<Path, Digest>, executables: Listing,
                           symlinks: map<Path, string>, products: map<string, Component>)

  /** Digest and JSON: the digest is any function, and a written manifest reads back as itself. */
  datatype Codec = Codec(hash: Bytes -> Digest, readManifest: Bytes -> Option<Manifest>,
                         readState: Bytes -> Option<State>, readRecord: Bytes -> Option<Record>,
                         writeRecord: Record -> Bytes)
  {
    ghost predicate Faithful() { forall r :: readRecord(writeRecord(r)) == Some(r) }
  }

  // ----- Hardening profiles and source seals

  predicate IsProfile(profile: Scalar) { profile == Text("compatibility") || profile == Text("hardened") }

  function CombinedModes(profile: Scalar): seq<string> {
    if profile == Text("hardened") then ["static-pie", "dynamic-pie", "dynamic-shared-object"]
    else ["static-et-exec", "static-pie", "dynamic-pie", "dynamic-non-pie", "dynamic-shared-object"]
  }

  predicate IsSeal(seal: Scalar) {
    && seal.Text? && |seal.text| == 64
    && forall i :: 0 <= i < 64 ==> '0' <= seal.text[i] <= '9' || 'a' <= seal.text[i] <= 'f'
  }

  predicate DebugBackend(backend: Scalar) {
    backend == Text("accepted-c") || backend == Text("native-shadow") || backend == Text("native")
  }

  predicate DebugState(state: State) {
    && state.fields == {"build_profile", "allocator_backend", "allocator_lifecycle_test_audit", "status"}
    && state.buildProfile == Text("debug") && state.status == Text("materialized-unqualified")
    && DebugBackend(state.backend) && state.audit.Flag?
    && (state.backend != Text("native") || !state.audit.flag)
  }

  predicate DebugStatic(manifest: Manifest) {
    manifest.buildProfile == Text("debug") && DebugBackend(manifest.backend) && manifest.audit.Flag?
  }

  /** Where the dynamic product keeps its seal: in the manifest of a debug build, else in its state. */
  function DynamicSeal(dynamicManifest: Manifest, state: State): Scalar {
    if dynamicManifest.buildProfile == Text("debug") then dynamicManifest.source else state.source
  }

  /** Both products claim one source tree, one profile and one allocator configuration. */
  predicate SealsMatch(staticManifest: Manifest, dynamicManifest: Manifest, state: Option<State>) {
    && IsProfile(staticManifest.profile) && dynamicManifest.profile == staticManifest.profile
       && IsSeal(staticManifest.source)
    && state.Some?
    && (if dynamicManifest.buildProfile == Text("debug") then DebugState(state.value) && DebugStatic(staticManifest)
        else state.value.schema == Text(StateSchema()))
    && IsSeal(DynamicSeal(dynamicManifest, state.value))
       && staticManifest.source == DynamicSeal(dynamicManifest, state.value)
    && GetOr(staticManifest.backend, Text("accepted-c")) == GetOr(state.value.backend, Text("accepted-c"))
    && GetOr(staticManifest.buildProfile, Text("release")) == GetOr(state.value.buildProfile, Text("release"))
    && GetOr(staticManifest.audit, Flag(false)) == GetOr(state.value.audit, Flag(false))
  }
}
