/**
 * Which products composition turns into one sysroot, what it leaves, and that
 * this survives packaging, in the fields and paths of the products.
 */
module SysrootComposition {
  import opened Wrappers
  import opened Paths
  import opened SysrootModel
  import opened SysrootSeals
  import opened SysrootPlan
  import opened SysrootValidate
  import opened SysrootCompose
  import opened SysrootPackage
  import opened SysrootMeaning

  // ----- Which products can be composed

  /** The manifest lists every other file of the product, and the digest of each that has a destination. */
  ghost predicate Lists(codec: Codec, inputs: Inputs, product: Product, m: Manifest) {
    && m.schema == 1 && m.files.Some?
    && m.files.value.Keys + {"share/crabc/manifest.json"} == inputs.Of(product).files.Keys
    && forall p ::
         p in m.files.value && p != "share/crabc/manifest.json" && Destination(codec, inputs, product, p).Some? ==>
           p in inputs.Of(product).files && m.files.value[p] == codec.hash(inputs.Of(product).files[p].data)
  }

  /** Every link of either product names, without a directory, a file beside it that is installed. */
  ghost predicate LinksLead(codec: Codec, inputs: Inputs) {
    forall p :: IsLinked(inputs, p) ==>
      var target := if p in inputs.dynamicTree.links then inputs.dynamicTree.links[p] else inputs.staticTree.links[p];
      target !in {"", "."} && '/' !in target && IsDestination(codec, inputs, Sibling(p, target))
  }

  /** The state file that both products share is the static product's, any other the dynamic product's. */
  ghost predicate StateIs(codec: Codec, inputs: Inputs, s: State) {
    var path := "share/crabc/dynamic-product-state.json";
    if path in inputs.staticTree.files && !Differ(codec, inputs, path)
    then codec.readState(inputs.staticTree.files[path].data) == Some(s)
    else path in inputs.dynamicTree.files && codec.readState(inputs.dynamicTree.files[path].data) == Some(s)
  }

  /** Two products of one build that fit together, whose manifests, links and installed state are truthful. */
  ghost predicate Composes(codec: Codec, inputs: Inputs, a: Manifest, b: Manifest, s: State, installed: State) {
    && ProductsSay(codec, inputs, a, b, s) && PathsFit(codec, inputs)
    && Lists(codec, inputs, Static, a) && Lists(codec, inputs, Dynamic, b)
    && b.symlinks == Some(inputs.staticTree.links + inputs.dynamicTree.links) && LinksLead(codec, inputs)
    && StateIs(codec, inputs, installed) && OneBuild(a, b, installed)
  }

  lemma ManifestsAre(codec: Codec, inputs: Inputs, a: Manifest, b: Manifest, s: State)
    requires ProductsSay(codec, inputs, a, b, s)
    ensures ManifestOf(codec, inputs, Static) == Some(a) && ManifestOf(codec, inputs, Dynamic) == Some(b)
  {
    hide ManifestPath, OneBuild;
    NamesAre();
  }

  lemma ListsExactly(codec: Codec, inputs: Inputs, d: Decision, product: Product, m: Manifest)
    requires Plans(codec, inputs, d) && ManifestOf(codec, inputs, product) == Some(m)
    ensures TruthfulManifest(codec, inputs, d, product) <==> Lists(codec, inputs, product, m)
  {
    hide Plans, ManifestOf, ManifestPath, Destination;
    NamesAre();
    EveryFileIsAccountedFor(codec, inputs, d, product);
    forall p | p in inputs.Of(product).files
      ensures p in d.placements.Of(product) && d.placements.Of(product)[p] == Destination(codec, inputs, product, p)
    {
      PlacedWhere(codec, inputs, d, product, p);
    }
  }

  lemma LinksLeadExactly(codec: Codec, inputs: Inputs, d: Decision)
    requires Plans(codec, inputs, d)
    ensures LinksNameFiles(d) <==> LinksLead(codec, inputs)
  {
    hide ManifestsAgree, SourcesFor, PlacementsFor, Placeable, IsDestination, Sibling;
    assert NoConflict(codec, inputs) && SourcesFor(codec, inputs, AllPaths(inputs), d.sources);
    DestinationsAreSources(codec, inputs, d.sources);
    assert forall p :: p in d.links <==> IsLinked(inputs, p);
  }

  lemma StateExactly(codec: Codec, inputs: Inputs, a: Manifest, b: Manifest)
    requires ManifestOf(codec, inputs, Static) == Some(a) && ManifestOf(codec, inputs, Dynamic) == Some(b)
    requires "share/crabc/dynamic-product-state.json" in inputs.dynamicTree.files
    ensures SealedState(codec, inputs) <==> exists s :: StateIs(codec, inputs, s) && OneBuild(a, b, s)
  {
    hide ManifestOf, StatePath, SealsMatch, OneBuild, Agree, Differ;
    NamesAre();
    AgreeIs(codec, inputs, StatePath());
    var s := codec.readState(InstalledState(codec, inputs));
    SealsMatchExactly(a, b, s);
    assert s.Some? ==> StateIs(codec, inputs, s.value);
  }

  /** Composition succeeds exactly for these products. */
  lemma ComposesExactly(codec: Codec, inputs: Inputs)
    ensures (exists d :: Plans(codec, inputs, d) && Truthful(codec, inputs, d)) <==>
            exists a, b, s, installed :: Composes(codec, inputs, a, b, s, installed)
  {
    hide Plans, ProductsSay, PathsFit, ManifestOf, TruthfulManifest, Lists, LinksNameFiles, LinksLead, SealedState,
         StateIs, OneBuild;
    PlannableExactly(codec, inputs);
    if d :| Plans(codec, inputs, d) && Truthful(codec, inputs, d) {
      assert Plannable(codec, inputs);
      var a, b, s :| ProductsSay(codec, inputs, a, b, s);
      TruthIs(codec, inputs, d, a, b, s);
      var installed :| StateIs(codec, inputs, installed) && OneBuild(a, b, installed);
      assert Composes(codec, inputs, a, b, s, installed);
    }
    if a, b, s, installed :| Composes(codec, inputs, a, b, s, installed) {
      assert Plannable(codec, inputs);
      var d :| Plans(codec, inputs, d);
      TruthIs(codec, inputs, d, a, b, s);
    }
  }

  lemma TruthIs(codec: Codec, inputs: Inputs, d: Decision, a: Manifest, b: Manifest, s: State)
    requires Plans(codec, inputs, d) && ProductsSay(codec, inputs, a, b, s)
    ensures Truthful(codec, inputs, d) <==>
            && Lists(codec, inputs, Static, a) && Lists(codec, inputs, Dynamic, b)
            && b.symlinks == Some(inputs.staticTree.links + inputs.dynamicTree.links) && LinksLead(codec, inputs)
            && exists installed :: StateIs(codec, inputs, installed) && OneBuild(a, b, installed)
  {
    hide ManifestOf, TruthfulManifest, Lists, LinksNameFiles, LinksLead, SealedState, StateIs, OneBuild, SourcesFor,
         PlacementsFor, NoConflict, LinksAgree, Placeable, ManifestsAgree;
    ManifestsAre(codec, inputs, a, b, s);
    ListsExactly(codec, inputs, d, Static, a);
    ListsExactly(codec, inputs, d, Dynamic, b);
    LinksLeadExactly(codec, inputs, d);
    StateExactly(codec, inputs, a, b);
  }

  // ----- What is left

  /**
   * The composed tree: at every destination the bytes, by digest, and the mode
   * of each file that goes there, both products' links, and the manifest.
   */
  lemma ComposedIs(codec: Codec, inputs: Inputs, d: Decision)
    requires Plans(codec, inputs, d) && inputs.Valid()
    ensures var tree := Composed(codec, inputs, d);
            && tree.links == inputs.staticTree.links + inputs.dynamicTree.links
            && (forall at :: at in tree.files <==>
                IsDestination(codec, inputs, at) || at == "share/crabc/manifest.json")
            && (forall product, p, at :: GoesTo(codec, inputs, product, p, at) ==>
                  && at in tree.files
                  && codec.hash(tree.files[at].data) == codec.hash(inputs.Of(product).files[p].data)
                  && tree.files[at].executable == inputs.Of(product).files[p].executable)
  {
    hide ManifestsAgree, SourcesFor, PlacementsFor, Placeable, IsDestination, RecordOf, ManifestPath, GoesTo;
    NamesAre();
    assert NoConflict(codec, inputs) && SourcesFor(codec, inputs, AllPaths(inputs), d.sources);
    DestinationsAreSources(codec, inputs, d.sources);
    ManifestPlaceIsFree(codec, inputs, d);
    forall product, p, at | GoesTo(codec, inputs, product, p, at)
      ensures at in d.sources && at != ManifestPath()
      ensures var file := FileOf(inputs, d.sources[at]);
              && p in inputs.Of(product).files
              && codec.hash(file.data) == codec.hash(inputs.Of(product).files[p].data)
              && file.executable == inputs.Of(product).files[p].executable
    {
      GoesThere(codec, inputs, d, product, p, at);
    }
  }

  lemma GoesThere(codec: Codec, inputs: Inputs, d: Decision, product: Product, p: Path, at: Path)
    requires Plans(codec, inputs, d) && GoesTo(codec, inputs, product, p, at)
    ensures p in inputs.Of(product).files && at in d.sources
    ensures var file := FileOf(inputs, d.sources[at]);
            && codec.hash(file.data) == codec.hash(inputs.Of(product).files[p].data)
            && file.executable == inputs.Of(product).files[p].executable
  {
    hide Plans, Destination;
    PlacedWhere(codec, inputs, d, product, p);
    PlacedFilesAreTheirOwn(codec, inputs, d, product, p);
  }

  /**
   * The manifest of the composed tree: its identity, the toolchain and profile
   * of the static product, the digest and mode of what goes to each
   * destination, both products' links, and each product's destinations.
   */
  lemma ComposedRecordIs(codec: Codec, inputs: Inputs, d: Decision, a: Manifest, b: Manifest, s: State)
    requires Plans(codec, inputs, d) && ProductsSay(codec, inputs, a, b, s)
    ensures var record := RecordOf(codec, inputs, d);
            && record.schema == 1 && record.format == "crabc-x86-64-owned-sysroot-v1"
            && record.target == "x86_64-unknown-linux-musl"
            && record.toolchain == a.toolchain && record.profile == a.profile && record.executables.sorted
            && record.symlinks == inputs.staticTree.links + inputs.dynamicTree.links
            && (forall at :: at in record.files <==> IsDestination(codec, inputs, at))
            && record.executables.members <= record.files.Keys
            && (forall product, p, at :: GoesTo(codec, inputs, product, p, at) ==>
                  && at in record.files && record.files[at] == codec.hash(inputs.Of(product).files[p].data)
                  && (at in record.executables.members <==> inputs.Of(product).files[p].executable))
  {
    hide ManifestsAgree, SourcesFor, PlacementsFor, Placeable, IsDestination, GoesTo, ManifestOf, ProductsSay,
         CombinedFormat, Target, CombinedModes, ComponentOf;
    FormatsAre();
    ManifestsAre(codec, inputs, a, b, s);
    assert NoConflict(codec, inputs) && SourcesFor(codec, inputs, AllPaths(inputs), d.sources);
    DestinationsAreSources(codec, inputs, d.sources);
    forall product, p, at | GoesTo(codec, inputs, product, p, at)
      ensures at in d.sources && p in inputs.Of(product).files
      ensures var file := FileOf(inputs, d.sources[at]);
              && codec.hash(file.data) == codec.hash(inputs.Of(product).files[p].data)
              && file.executable == inputs.Of(product).files[p].executable
    {
      GoesThere(codec, inputs, d, product, p, at);
    }
  }

  /** The manifest places every file of a product at its destination, and no other path. */
  lemma ComposedPlacementsAre(codec: Codec, inputs: Inputs, d: Decision, product: Product, p: Path)
    requires Plans(codec, inputs, d)
    ensures var products := RecordOf(codec, inputs, d).products;
            && products.Keys == {"static", "dynamic"}
            && var placements := products[Name(product)].placements;
            && (p in placements <==> p in inputs.Of(product).files)
            && (p in placements ==> placements[p] == Destination(codec, inputs, product, p))
  {
    hide RecordOf, Destination;
    PlacementsOfRecord(codec, inputs, d, product);
    assert ProductName(product) == Name(product);
    if p in inputs.Of(product).files {
      PlacedWhere(codec, inputs, d, product, p);
    }
    if p in d.placements.Of(product) {
      PlacedIsOwned(codec, inputs, d, product, p);
    }
  }

  lemma PlacedIsOwned(codec: Codec, inputs: Inputs, d: Decision, product: Product, p: Path)
    requires Plans(codec, inputs, d) && p in d.placements.Of(product)
    ensures p in inputs.Of(product).files
  {
    hide ManifestsAgree, SourcesFor, Placeable, RuleFor, Placement;
    assert product.Static? || product.Dynamic?;
    assert Owns(inputs, product, p);
  }

  /** What composition leaves, packaged, extracts to the same tree exactly within the archive limits. */
  lemma ComposedTreeIsExtracted(codec: Codec, inputs: Inputs, d: Decision, members: seq<Member>)
    requires Plans(codec, inputs, d) && Truthful(codec, inputs, d) && inputs.Valid() && codec.Faithful()
    requires PackageOf(Composed(codec, inputs, d), RecordOf(codec, inputs, d), members)
    ensures Publishable(codec, members) <==> |members| <= 4096 && Volume(members) <= 536870912
    ensures Published(members, RecordOf(codec, inputs, d)) == Composed(codec, inputs, d)
  {
    hide Plans, Truthful, Composed, RecordOf, PackageOf, Publishable, Published, ValidTree, RecordIn, TotalSize,
         Volume;
    ComposedTreeIsValid(codec, inputs, d);
    ComposedRecord(codec, inputs, d);
    ExtractionInvertsPackaging(codec, Composed(codec, inputs, d), RecordOf(codec, inputs, d), members);
    VolumeIs(members);
    assert MAX_ARCHIVE_TOTAL_BYTES == 536870912;
  }
}
