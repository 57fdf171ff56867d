/**
 * What planning, validation and packaging of a combined sysroot accept, written
 * out: every name, format, mode, limit and field, down to the installed bytes.
 */
module SysrootMeaning {
  import SysrootCompose
  import opened Wrappers
  import opened Paths
  import opened SysrootModel
  import opened SysrootSeals
  import opened SysrootPlan
  import opened SysrootValidate
  import opened SysrootPackage

  // ----- Names

  lemma NamesAre()
    ensures ManifestPath() == "share/crabc/manifest.json" && StatePath() == "share/crabc/dynamic-product-state.json"
    ensures EntryObject() == "usr/lib/Scrt1.o" && MetadataPrefix() == "share/crabc/" && |MetadataPrefix()| == 12
    ensures forall product: Product :: ComponentManifest(product) == "share/crabc/" + Name(product) + "/manifest.json"
  {
    hide ManifestPath, StatePath;
    ManifestPathIs();
    StatePathIs();
  }

  function Name(product: Product): string { if product.Static? then "static" else "dynamic" }

  lemma ManifestPathIs()
    ensures ManifestPath() == "share/crabc/manifest.json"
  {
  }

  lemma StatePathIs()
    ensures StatePath() == "share/crabc/dynamic-product-state.json"
  {
  }

  lemma FormatsAre()
    ensures ProductFormat(Static) == "crabc-x86-64-owned-static-sysroot-v1"
    ensures ProductFormat(Dynamic) == "crabc-x86-64-owned-dynamic-sysroot-v1"
    ensures Target() == "x86_64-unknown-linux-musl" && CombinedFormat() == "crabc-x86-64-owned-sysroot-v1"
  {
  }

  // ----- Planning

  /** The products are two products of one build, as their own manifests and the dynamic state say. */
  ghost predicate ProductsSay(codec: Codec, inputs: Inputs, a: Manifest, b: Manifest, s: State) {
    && var first, second := inputs.staticTree.files, inputs.dynamicTree.files;
    && "share/crabc/manifest.json" in first && codec.readManifest(first["share/crabc/manifest.json"].data) == Some(a)
    && "share/crabc/manifest.json" in second && codec.readManifest(second["share/crabc/manifest.json"].data) == Some(b)
    && "share/crabc/dynamic-product-state.json" in second
    && codec.readState(second["share/crabc/dynamic-product-state.json"].data) == Some(s)
    && a.format == Text("crabc-x86-64-owned-static-sysroot-v1")
       && b.format == Text("crabc-x86-64-owned-dynamic-sysroot-v1")
    && a.target == b.target == Text("x86_64-unknown-linux-musl")
    && a.toolchain == b.toolchain && a.toolchain.Text?
    && OneBuild(a, b, s)
  }

  lemma ManifestsAgreeExactly(codec: Codec, inputs: Inputs)
    ensures ManifestsAgree(codec, inputs) <==> exists a, b, s :: ProductsSay(codec, inputs, a, b, s)
  {
    hide ManifestPath, StatePath, SealsMatch, OneBuild, ProductFormat, Target;
    NamesAre();
    FormatsAre();
    var a, b := ManifestOf(codec, inputs, Static), ManifestOf(codec, inputs, Dynamic);
    if a.Some? && b.Some? && StatePath() in inputs.dynamicTree.files {
      var s := codec.readState(inputs.dynamicTree.files[StatePath()].data);
      SealsMatchExactly(a.value, b.value, s);
      assert s.Some? ==> (ManifestsAgree(codec, inputs) <==> ProductsSay(codec, inputs, a.value, b.value, s.value));
    }
  }

  /** Both products hold `p`, with different bytes, by digest, or different modes. */
  ghost predicate Differ(codec: Codec, inputs: Inputs, p: Path) {
    && p in inputs.staticTree.files && p in inputs.dynamicTree.files
    && var a, b := inputs.staticTree.files[p], inputs.dynamicTree.files[p];
       codec.hash(a.data) != codec.hash(b.data) || a.executable != b.executable
  }

  ghost predicate MayMove(p: Path) {
    && "share/crabc/" <= p
    && p !in {"share/crabc/" + "crabc_cc_static.py", "share/crabc/" + "native_runtime_profile.py",
              "share/crabc/" + "owned_dynamic_receipt.py", "share/crabc/" + "owned_dynamic_elf.py"}
  }

  /**
   * Where one product's file goes: both manifests, and metadata in which the
   * products differ, below the product's name; the start object in which they
   * differ only for the dynamic product; anything else where it was.
   */
  ghost function Destination(codec: Codec, inputs: Inputs, product: Product, p: Path): Option<Path> {
    if p == "share/crabc/manifest.json" then Some("share/crabc/" + Name(product) + "/manifest.json")
    else if !Differ(codec, inputs, p) then Some(p)
    else if MayMove(p) then Some("share/crabc/" + Name(product) + "/" + p[12..])
    else if product.Dynamic? then Some(p) else None
  }

  ghost predicate GoesTo(codec: Codec, inputs: Inputs, product: Product, p: Path, at: Path) {
    p in inputs.Of(product).files && Destination(codec, inputs, product, p) == Some(at)
  }

  ghost predicate IsDestination(codec: Codec, inputs: Inputs, at: Path) {
    exists product, p :: GoesTo(codec, inputs, product, p, at)
  }

  ghost predicate IsLinked(inputs: Inputs, at: Path) { at in inputs.staticTree.links || at in inputs.dynamicTree.links }

  ghost predicate Below(at: Path, q: Path) { exists rest :: at == q + "/" + rest }

  /** Only metadata and the start object may differ. */
  ghost predicate OnlyMetadataDiffers(codec: Codec, inputs: Inputs) {
    forall p :: Differ(codec, inputs, p) ==> MayMove(p) || p == "usr/lib/Scrt1.o"
  }

  /** Files of different paths have different destinations. */
  ghost predicate DestinationsAreApart(codec: Codec, inputs: Inputs) {
    forall o1, p1, o2, p2, at :: GoesTo(codec, inputs, o1, p1, at) && GoesTo(codec, inputs, o2, p2, at) ==> p1 == p2
  }

  /** The paths of both products fit into one tree: no destination is a link or lies below a destination or a link. */
  ghost predicate PathsFit(codec: Codec, inputs: Inputs) {
    && OnlyMetadataDiffers(codec, inputs) && DestinationsAreApart(codec, inputs)
    && (forall p :: p in inputs.staticTree.links && p in inputs.dynamicTree.links ==>
          inputs.staticTree.links[p] == inputs.dynamicTree.links[p])
    && (forall at :: IsDestination(codec, inputs, at) ==> !IsLinked(inputs, at))
    && (forall at, q :: IsDestination(codec, inputs, at) && (IsDestination(codec, inputs, q) || IsLinked(inputs, q)) ==>
          !Below(at, q))
  }

  lemma ModulesAre(p: Path)
    ensures Relocatable(p) <==> MayMove(p)
  {
    assert MetadataPrefix() == "share/crabc/";
  }

  lemma AgreeIs(codec: Codec, inputs: Inputs, p: Path)
    ensures Agree(codec, inputs, p) <==> !Differ(codec, inputs, p)
  {
  }

  /** The planner has no rule for exactly the paths in which the products must not differ. */
  lemma ConflictExactly(codec: Codec, inputs: Inputs, p: Path)
    ensures RuleFor(codec, inputs, p).Conflict? <==> Differ(codec, inputs, p) && !MayMove(p) && p != "usr/lib/Scrt1.o"
  {
    hide ManifestPath, EntryObject, Relocatable, Agree, Differ, MayMove;
    NamesAre();
    NameFacts();
    ModulesAre(p);
    ModulesAre(ManifestPath());
    AgreeIs(codec, inputs, p);
    ManifestMayMove();
  }

  lemma ManifestMayMove()
    ensures MayMove("share/crabc/manifest.json")
  {
    var p := "share/crabc/manifest.json";
    assert p[..12] == "share/crabc/" && |p| == 25;
    assert |"share/crabc/" + "owned_dynamic_elf.py"| == 32 && |"share/crabc/" + "owned_dynamic_receipt.py"| == 36;
    assert |"share/crabc/" + "crabc_cc_static.py"| == 30 && |"share/crabc/" + "native_runtime_profile.py"| == 37;
  }

  lemma PlacementIs(codec: Codec, inputs: Inputs, product: Product, p: Path)
    requires !RuleFor(codec, inputs, p).Conflict?
    ensures Placement(codec, inputs, product, p) == Destination(codec, inputs, product, p)
  {
    hide ManifestPath, EntryObject, Relocatable, Agree, Differ, MayMove, ComponentManifest, MetadataPrefix;
    NamesAre();
    MovedManifest(product);
    ModulesAre(p);
    AgreeIs(codec, inputs, p);
    MovableIsLong(p);
    assert ProductName(product) == Name(product);
  }

  lemma MovableIsLong(p: Path)
    ensures MayMove(p) ==> |p| >= 12
  {
  }

  lemma NoConflictExactly(codec: Codec, inputs: Inputs)
    ensures NoConflict(codec, inputs) <==> OnlyMetadataDiffers(codec, inputs)
  {
    hide RuleFor, MayMove;
    forall p
      ensures RuleFor(codec, inputs, p).Conflict? <==> Differ(codec, inputs, p) && !MayMove(p) && p != "usr/lib/Scrt1.o"
    {
      ConflictExactly(codec, inputs, p);
    }
    assert forall p :: Differ(codec, inputs, p) ==> p in AllPaths(inputs);
  }

  /** Each file with a destination has an owner that installs it there. */
  lemma Installer(codec: Codec, inputs: Inputs, product: Product, p: Path, at: Path) returns (owner: Product)
    requires !RuleFor(codec, inputs, p).Conflict? && GoesTo(codec, inputs, product, p, at)
    ensures Installs(codec, inputs, owner, p) && Placement(codec, inputs, owner, p) == Some(at)
  {
    PlacementIs(codec, inputs, product, p);
    hide RuleFor, Destination;
    owner := if RuleFor(codec, inputs, p).One? && Owns(inputs, Static, p) then Static else product;
  }

  lemma InstalledGoes(codec: Codec, inputs: Inputs, product: Product, p: Path)
    requires Installs(codec, inputs, product, p)
    ensures GoesTo(codec, inputs, product, p, Placement(codec, inputs, product, p).value)
    ensures !RuleFor(codec, inputs, p).Conflict?
  {
    hide RuleFor, Destination;
    PlacementIs(codec, inputs, product, p);
  }

  lemma DestinationsAreSources(codec: Codec, inputs: Inputs, sources: map<Path, Source>)
    requires NoConflict(codec, inputs) && SourcesFor(codec, inputs, AllPaths(inputs), sources)
    ensures forall at :: at in sources <==> IsDestination(codec, inputs, at)
  {
    hide RuleFor, Destination, Placement, Installs;
    forall at | at in sources
      ensures IsDestination(codec, inputs, at)
    {
      InstalledGoes(codec, inputs, sources[at].product, sources[at].origin);
      assert GoesTo(codec, inputs, sources[at].product, sources[at].origin, at);
    }
    forall at | IsDestination(codec, inputs, at)
      ensures at in sources
    {
      var product, p :| GoesTo(codec, inputs, product, p, at);
      assert p in AllPaths(inputs);
      var owner := Installer(codec, inputs, product, p, at);
    }
  }

  lemma NoClashExactly(codec: Codec, inputs: Inputs)
    requires NoConflict(codec, inputs)
    ensures NoClash(codec, inputs) <==> DestinationsAreApart(codec, inputs)
  {
    hide RuleFor, Destination, Placement, Installs;
    if NoClash(codec, inputs) {
      forall o1, p1, o2, p2, at | GoesTo(codec, inputs, o1, p1, at) && GoesTo(codec, inputs, o2, p2, at)
        ensures p1 == p2
      {
        assert p1 in AllPaths(inputs) && p2 in AllPaths(inputs);
        var i1 := Installer(codec, inputs, o1, p1, at);
        var i2 := Installer(codec, inputs, o2, p2, at);
      }
    }
    if DestinationsAreApart(codec, inputs) {
      forall o1, p1, o2, p2 | Installs(codec, inputs, o1, p1) && Installs(codec, inputs, o2, p2)
                              && Placement(codec, inputs, o1, p1) == Placement(codec, inputs, o2, p2)
        ensures o1 == o2 && p1 == p2
      {
        InstalledGoes(codec, inputs, o1, p1);
        InstalledGoes(codec, inputs, o2, p2);
        assert p1 == p2;
        OneInstaller(codec, inputs, o1, o2, p1);
      }
    }
  }

  lemma OneInstaller(codec: Codec, inputs: Inputs, o1: Product, o2: Product, p: Path)
    requires Installs(codec, inputs, o1, p) && Installs(codec, inputs, o2, p)
    requires Placement(codec, inputs, o1, p) == Placement(codec, inputs, o2, p)
    ensures o1 == o2
  {
    hide RuleFor, Moved;
    MovedApart(p, p);
  }

  lemma {:induction false} SourcesExist(codec: Codec, inputs: Inputs, done: set<Path>)
    returns (sources: map<Path, Source>)
    requires NoClash(codec, inputs)
    ensures SourcesFor(codec, inputs, done, sources)
    decreases done
  {
    hide NoClash, NewSources, Installs, Placement;
    sources := map[];
    if done != {} {
      var p :| p in done;
      var before := SourcesExist(codec, inputs, done - {p});
      if !(NewSources(codec, inputs, p).Keys !! before.Keys) {
        ClashFound(codec, inputs, done - {p}, p, before);
        assert false;
      }
      SourcesStep(codec, inputs, done - {p}, p, before);
      sources := before + NewSources(codec, inputs, p);
      assert done - {p} + {p} == done;
    }
  }

  lemma {:induction false} PlacementsExist(codec: Codec, inputs: Inputs, done: set<Path>)
    returns (placements: Placements)
    requires forall p :: p in done ==> !RuleFor(codec, inputs, p).Conflict?
    ensures PlacementsFor(codec, inputs, done, placements)
    decreases done
  {
    hide RuleFor, NewPlacements, Placement;
    placements := Placements(map[], map[]);
    if done != {} {
      var p :| p in done;
      var before := PlacementsExist(codec, inputs, done - {p});
      PlacementsStep(codec, inputs, done - {p}, p, before);
      placements := NewPlacements(codec, inputs, p, before);
      assert done - {p} + {p} == done;
    }
  }

  lemma PlaceableExactly(codec: Codec, inputs: Inputs, sources: map<Path, Source>)
    requires forall at :: at in sources <==> IsDestination(codec, inputs, at)
    ensures Placeable(sources, AllLinks(inputs)) <==>
            && (forall at :: IsDestination(codec, inputs, at) ==> !IsLinked(inputs, at))
            && (forall at, q ::
                  IsDestination(codec, inputs, at) && (IsDestination(codec, inputs, q) || IsLinked(inputs, q)) ==>
                    !Below(at, q))
  {
    hide IsDestination, Below, Ancestor;
    forall a, p
      ensures Ancestor(a, p) <==> Below(p, a)
    {
      AncestorIsAbove(a, p);
    }
    assert forall at :: at in AllLinks(inputs) <==> IsLinked(inputs, at);
    assert forall q :: q in sources.Keys + AllLinks(inputs).Keys <==>
           IsDestination(codec, inputs, q) || IsLinked(inputs, q);
  }

  lemma AncestorIsAbove(a: Path, p: Path)
    ensures Ancestor(a, p) <==> Below(p, a)
  {
    AncestorExactly(a, p);
  }

  /** A plan exists exactly for two products of one build whose paths fit into one tree. */
  lemma PlannableExactly(codec: Codec, inputs: Inputs)
    ensures Plannable(codec, inputs) <==>
            (exists a, b, s :: ProductsSay(codec, inputs, a, b, s)) && PathsFit(codec, inputs)
  {
    hide ManifestsAgree, SourcesFor, PlacementsFor, NoConflict, NoClash, Placeable, ManifestOf, ProductsSay,
         AllPaths, AllLinks, OnlyMetadataDiffers, DestinationsAreApart, IsDestination, Below, Plannable, IsLinked;
    ManifestsAgreeExactly(codec, inputs);
    NoConflictExactly(codec, inputs);
    UnplannableManifests(codec, inputs);
    PlannableIsPlaceable(codec, inputs);
    if ManifestsAgree(codec, inputs) && NoConflict(codec, inputs) {
      NoClashExactly(codec, inputs);
      if NoClash(codec, inputs) {
        var sources := SourcesExist(codec, inputs, AllPaths(inputs));
        NoneConflicts(codec, inputs);
        var placements := PlacementsExist(codec, inputs, AllPaths(inputs));
        PlannableIs(codec, inputs, sources, placements);
        DestinationsAreSources(codec, inputs, sources);
        PlaceableExactly(codec, inputs, sources);
      }
    }
  }

  lemma NoneConflicts(codec: Codec, inputs: Inputs)
    requires NoConflict(codec, inputs)
    ensures forall p :: p in AllPaths(inputs) ==> !RuleFor(codec, inputs, p).Conflict?
  {
  }

  /** A plan places every file of a product at its destination. */
  lemma PlacedWhere(codec: Codec, inputs: Inputs, d: Decision, product: Product, p: Path)
    requires Plans(codec, inputs, d) && p in inputs.Of(product).files
    ensures p in d.placements.Of(product) && d.placements.Of(product)[p] == Destination(codec, inputs, product, p)
    ensures Differ(codec, inputs, p) ==> MayMove(p) || p == "usr/lib/Scrt1.o"
  {
    hide ManifestsAgree, SourcesFor, Placeable, RuleFor, Placement, Destination, Differ, MayMove;
    assert product.Static? || product.Dynamic?;
    assert p in AllPaths(inputs) && Owns(inputs, product, p);
    assert !RuleFor(codec, inputs, p).Conflict?;
    PlacementIs(codec, inputs, product, p);
    ConflictExactly(codec, inputs, p);
  }

  // ----- Claims

  ghost predicate RecordSays(record: Record) {
    && record.schema == 1 && record.target == "x86_64-unknown-linux-musl" && record.toolchain.Text?
    && record.products.Keys == {"static", "dynamic"}
    && (|| (record.profile == Text("hardened")
            && record.modes == ["static-pie", "dynamic-pie", "dynamic-shared-object"])
        || (record.profile == Text("compatibility") && record.modes
            == ["static-et-exec", "static-pie", "dynamic-pie", "dynamic-non-pie", "dynamic-shared-object"]))
  }

  /**
   * One component: its manifest is found at its own place and speaks for this
   * record; each file it lists is placed at a file of the record with the
   * listed digest, but for the static start object, which may be left out.
   */
  ghost predicate ComponentSays(codec: Codec, record: Record, payloads: map<Path, Bytes>, name: string, format: string,
                                m: Manifest) {
    && var at := "share/crabc/" + name + "/manifest.json";
    && at in payloads && codec.readManifest(payloads[at]) == Some(m)
    && m.schema == 1 && m.format == Text(format) && m.target == Text("x86_64-unknown-linux-musl")
    && m.profile == record.profile && m.toolchain == record.toolchain && m.files.Some?
    && name in record.products && record.products[name].format == format && record.products[name].manifest == at
    && var placements := record.products[name].placements;
    && placements.Keys == m.files.value.Keys + {"share/crabc/manifest.json"}
    && placements["share/crabc/manifest.json"] == Some(at) && at in record.files
       && record.files[at] == codec.hash(payloads[at])
    && forall origin :: origin in m.files.value && origin != "share/crabc/manifest.json" ==>
         match placements[origin] {
           case None => name == "static" && origin == "usr/lib/Scrt1.o"
           case Some(to) => to in record.files && record.files[to] == m.files.value[origin]
         }
  }

  ghost predicate ClaimsSay(codec: Codec, record: Record, payloads: map<Path, Bytes>, a: Manifest, b: Manifest,
                            s: State) {
    && RecordSays(record)
    && ComponentSays(codec, record, payloads, "static", "crabc-x86-64-owned-static-sysroot-v1", a)
    && ComponentSays(codec, record, payloads, "dynamic", "crabc-x86-64-owned-dynamic-sysroot-v1", b)
    && "share/crabc/dynamic-product-state.json" in b.files.value && b.symlinks == Some(record.symlinks)
    && (forall at :: at in record.files ==> Placed(record, "static", at) || Placed(record, "dynamic", at))
    && StateSays(codec, record, payloads, s)
    && OneBuild(a, b, s)
  }

  ghost predicate Placed(record: Record, name: string, at: Path) {
    && name in record.products
    && exists origin ::
         origin in record.products[name].placements && record.products[name].placements[origin] == Some(at)
  }

  ghost predicate StateSays(codec: Codec, record: Record, payloads: map<Path, Bytes>, s: State) {
    && "dynamic" in record.products
    && var placements := record.products["dynamic"].placements;
    && "share/crabc/dynamic-product-state.json" in placements
    && var at := placements["share/crabc/dynamic-product-state.json"];
    && at.Some? && at.value in record.files && at.value in payloads && codec.readState(payloads[at.value]) == Some(s)
  }

  lemma ComponentExactly(codec: Codec, record: Record, payloads: map<Path, Bytes>, product: Product)
    ensures ComponentOk(codec, record, payloads, product) <==>
            && Embedded(codec, payloads, product).Some?
            && var m := Embedded(codec, payloads, product).value;
            && ComponentSays(codec, record, payloads, Name(product), ProductFormat(product), m)
            && (product.Dynamic? ==> "share/crabc/dynamic-product-state.json" in m.files.value
                                     && m.symlinks == Some(record.symlinks))
  {
    hide ManifestPath, StatePath, EntryObject, ComponentManifest, ProductFormat, Target;
    NamesAre();
    FormatsAre();
    assert ProductName(product) == Name(product);
    var m := Embedded(codec, payloads, product);
    if m.Some? && m.value.files.Some? && ComponentManifest(product) in payloads {
      RosterExactly(codec, record, payloads, product, m.value.files.value);
    }
  }

  /** A component's files are placed with their digests, the manifest among them. */
  lemma RosterExactly(codec: Codec, record: Record, payloads: map<Path, Bytes>, product: Product,
                      files: map<Path, Digest>)
    requires ComponentManifest(product) in payloads
    ensures var placements := PlacementsIn(record, product);
            && PlacementRoster(record, product, files)
            && (forall origin :: origin in placements ==>
                  OriginOk(record, product, origin, placements[origin],
                           Expected(codec, payloads, product, files, origin)))
            <==>
            && placements.Keys == files.Keys + {ManifestPath()}
               && placements[ManifestPath()] == Some(ComponentManifest(product))
            && ComponentManifest(product) in record.files
            && record.files[ComponentManifest(product)] == codec.hash(payloads[ComponentManifest(product)])
            && forall origin :: origin in files && origin != ManifestPath() ==>
                 match placements[origin] {
                   case None => product.Static? && origin == EntryObject()
                   case Some(to) => to in record.files && record.files[to] == files[origin]
                 }
  {
    hide ManifestPath, ComponentManifest, EntryObject;
  }

  lemma RecordExactly(record: Record)
    ensures RecordIdentity(record) <==> RecordSays(record)
  {
    hide Target;
    FormatsAre();
    assert |"hardened"| != |"compatibility"|;
    assert {ProductName(Static), ProductName(Dynamic)} == {"static", "dynamic"};
  }

  lemma PlacedExactly(record: Record, product: Product, at: Path)
    ensures ClaimedBy(record, product, at) <==> Placed(record, Name(product), at)
  {
    assert ProductName(product) == Name(product);
    if Name(product) in record.products {
      assert PlacementsIn(record, product) == record.products[Name(product)].placements;
    }
  }

  lemma StateExactly(codec: Codec, record: Record, payloads: map<Path, Bytes>)
    ensures StateOk(codec, record, payloads) <==>
            && Embedded(codec, payloads, Static).Some? && Embedded(codec, payloads, Dynamic).Some?
            && exists s :: StateSays(codec, record, payloads, s)
                           && OneBuild(Embedded(codec, payloads, Static).value,
                                       Embedded(codec, payloads, Dynamic).value, s)
  {
    hide StatePath, SealsMatch, OneBuild, Embedded;
    NamesAre();
    assert ProductName(Dynamic) == "dynamic";
    var at := StateDestination(record);
    var a, b := Embedded(codec, payloads, Static), Embedded(codec, payloads, Dynamic);
    if at.Some? && at.value in payloads && a.Some? && b.Some? {
      var s := codec.readState(payloads[at.value]);
      SealsMatchExactly(a.value, b.value, s);
      assert s.Some? ==> StateSays(codec, record, payloads, s.value);
    }
  }

  lemma ComponentReads(codec: Codec, record: Record, payloads: map<Path, Bytes>, product: Product, format: string,
                       m: Manifest)
    requires ComponentSays(codec, record, payloads, Name(product), format, m)
    ensures Embedded(codec, payloads, product) == Some(m)
  {
    hide ComponentManifest;
    NamesAre();
  }

  /** The claims hold exactly when there are two manifests and a state of one build that say what the record says. */
  lemma ClaimsExactly(codec: Codec, record: Record, payloads: map<Path, Bytes>)
    ensures ClaimsOk(codec, record, payloads) <==> exists a, b, s :: ClaimsSay(codec, record, payloads, a, b, s)
  {
    hide ComponentOk, ComponentSays, StateOk, RecordIdentity, RecordSays, OneBuild, Embedded, StateSays, ClaimedBy,
         Placed, ProductFormat;
    RecordExactly(record);
    FormatsAre();
    ComponentExactly(codec, record, payloads, Static);
    ComponentExactly(codec, record, payloads, Dynamic);
    StateExactly(codec, record, payloads);
    forall at
      ensures ClaimedBy(record, Static, at) <==> Placed(record, "static", at)
      ensures ClaimedBy(record, Dynamic, at) <==> Placed(record, "dynamic", at)
    {
      PlacedExactly(record, Static, at);
      PlacedExactly(record, Dynamic, at);
    }
    if a, b, s :| ClaimsSay(codec, record, payloads, a, b, s) {
      ComponentReads(codec, record, payloads, Static, "crabc-x86-64-owned-static-sysroot-v1", a);
      ComponentReads(codec, record, payloads, Dynamic, "crabc-x86-64-owned-dynamic-sysroot-v1", b);
    }
    if ClaimsOk(codec, record, payloads) {
      var a, b := Embedded(codec, payloads, Static).value, Embedded(codec, payloads, Dynamic).value;
      var s :| StateSays(codec, record, payloads, s) && OneBuild(a, b, s);
      assert ClaimsSay(codec, record, payloads, a, b, s);
    }
  }

  // ----- Installed trees

  function BytesOf(tree: Tree): map<Path, Bytes> { map p | p in tree.files :: tree.files[p].data }

  /**
   * A combined tree: a plain manifest, whose record lists the digest of every
   * other file, the executable ones and the links; links lead to files beside
   * them; and the claims hold of the installed bytes.
   */
  ghost predicate TreeSays(codec: Codec, tree: Tree, record: Record) {
    && "share/crabc/manifest.json" in tree.files && !tree.files["share/crabc/manifest.json"].executable
    && codec.readRecord(tree.files["share/crabc/manifest.json"].data) == Some(record)
    && record.schema == 1 && record.format == "crabc-x86-64-owned-sysroot-v1"
       && record.target == "x86_64-unknown-linux-musl"
    && record.files.Keys == tree.files.Keys - {"share/crabc/manifest.json"}
    && (forall p :: p in record.files ==> record.files[p] == codec.hash(tree.files[p].data))
    && record.executables.sorted
    && (forall p :: p in record.executables.members <==> p in record.files && tree.files[p].executable)
    && record.symlinks == tree.links
    && (forall p :: p in tree.links ==> '/' !in tree.links[p] && Sibling(p, tree.links[p]) in record.files)
    && exists a, b, s :: ClaimsSay(codec, record, BytesOf(tree), a, b, s)
  }

  lemma ComponentIsRead(codec: Codec, tree: Tree, record: Record, product: Product, format: string, m: Manifest)
    ensures ComponentSays(codec, record, ReadBack(tree, record), Name(product), format, m)
       <==> ComponentSays(codec, record, BytesOf(tree), Name(product), format, m)
  {
    hide ComponentManifest, StateDestination;
    NamesAre();
    var read := ReadBack(tree, record);
    assert ComponentManifest(product) in read <==> ComponentManifest(product) in tree.files;
  }

  lemma StateIsRead(codec: Codec, tree: Tree, record: Record, s: State)
    ensures StateSays(codec, record, ReadBack(tree, record), s) <==> StateSays(codec, record, BytesOf(tree), s)
  {
    hide ComponentManifest, StatePath;
    NamesAre();
    assert ProductName(Dynamic) == "dynamic";
  }

  /** Claims read three payloads: both component manifests and the dynamic state. */
  lemma ClaimsRead(codec: Codec, tree: Tree, record: Record, a: Manifest, b: Manifest, s: State)
    ensures ClaimsSay(codec, record, ReadBack(tree, record), a, b, s) <==>
            ClaimsSay(codec, record, BytesOf(tree), a, b, s)
  {
    hide RecordSays, OneBuild, Placed, ReadBack, BytesOf, ComponentSays, StateSays;
    assert Name(Static) == "static" && Name(Dynamic) == "dynamic";
    ComponentIsRead(codec, tree, record, Static, "crabc-x86-64-owned-static-sysroot-v1", a);
    ComponentIsRead(codec, tree, record, Dynamic, "crabc-x86-64-owned-dynamic-sysroot-v1", b);
    StateIsRead(codec, tree, record, s);
  }

  lemma RosterIs(codec: Codec, tree: Tree, record: Record)
    ensures RosterOk(codec, tree, record) <==>
            && ManifestPath() in tree.files && !tree.files[ManifestPath()].executable
            && record.files.Keys == tree.files.Keys - {ManifestPath()}
            && (forall p :: p in record.files ==> record.files[p] == codec.hash(tree.files[p].data))
            && record.executables.sorted
            && (forall p :: p in record.executables.members <==> p in record.files && tree.files[p].executable)
            && record.symlinks == tree.links
            && (forall p :: p in tree.links ==> '/' !in tree.links[p] && Sibling(p, tree.links[p]) in record.files)
  {
    hide ManifestPath, Sibling;
    assert Digests(codec, tree).Keys == tree.files.Keys - {ManifestPath()};
    if record.files.Keys == tree.files.Keys - {ManifestPath()} {
      assert Digests(codec, tree) == record.files <==>
             forall p :: p in record.files ==> record.files[p] == codec.hash(tree.files[p].data);
      assert record.executables == Listing(Executables(tree), true) <==>
             record.executables.sorted
             && forall p :: p in record.executables.members <==> p in record.files && tree.files[p].executable;
    }
  }

  lemma TreeExactly(codec: Codec, tree: Tree, record: Record)
    requires RecordIn(codec, tree) == Some(record)
    ensures ValidTree(codec, tree) <==> TreeSays(codec, tree, record)
  {
    hide ManifestPath, RosterOk, ClaimsOk, ClaimsSay, ReadBack, BytesOf, CombinedFormat, Target, Sibling;
    NamesAre();
    FormatsAre();
    RosterIs(codec, tree, record);
    ClaimsExactly(codec, record, ReadBack(tree, record));
    forall a, b, s
      ensures ClaimsSay(codec, record, ReadBack(tree, record), a, b, s) <==>
              ClaimsSay(codec, record, BytesOf(tree), a, b, s)
    {
      ClaimsRead(codec, tree, record, a, b, s);
    }
  }

  /** Validation accepts exactly the combined trees. */
  lemma ValidTreeExactly(codec: Codec, tree: Tree)
    ensures ValidTree(codec, tree) <==> exists record :: TreeSays(codec, tree, record)
    ensures forall record :: TreeSays(codec, tree, record) ==> RecordIn(codec, tree) == Some(record)
  {
    hide ManifestPath, RosterOk, ClaimsOk, BytesOf, Sibling;
    NamesAre();
    if RecordIn(codec, tree).Some? {
      TreeExactly(codec, tree, RecordIn(codec, tree).value);
    }
  }

  /** What is installed where: the bytes at a placed path have the digest that the component's own manifest lists. */
  lemma InstalledBytesAreListed(codec: Codec, tree: Tree, record: Record, a: Manifest, b: Manifest, s: State,
                                product: Product, origin: Path)
    requires TreeSays(codec, tree, record) && ClaimsSay(codec, record, BytesOf(tree), a, b, s)
    requires var m := if product.Static? then a else b;
             origin in m.files.value && origin != "share/crabc/manifest.json"
    ensures var m := if product.Static? then a else b;
            var at := record.products[Name(product)].placements[origin];
            if at.Some? then at.value in tree.files && codec.hash(tree.files[at.value].data) == m.files.value[origin]
            else product.Static? && origin == "usr/lib/Scrt1.o"
  {
    hide RecordSays, OneBuild, Placed, StateSays, BytesOf;
  }

  // ----- Archives

  ghost predicate MemberSays(codec: Codec, record: Record, m: Member) {
    if m.name in record.symlinks then m.kind.Symlink? && m.linkname == record.symlinks[m.name]
    else
      && m.kind.Regular? && m.mode == (if m.name in record.executables.members then 493 else 420)
      && (m.name == "share/crabc/manifest.json"
          || (m.name in record.files && record.files[m.name] == codec.hash(m.data)))
  }

  /** The sizes of all members together, none counting less than nothing. */
  function Volume(members: seq<Member>): int {
    if members == [] then 0 else (if members[0].size > 0 then members[0].size else 0) + Volume(members[1..])
  }

  /** The bytes of every member that the record does not list as a link. */
  ghost predicate PayloadsAre(members: seq<Member>, record: Record, payloads: map<Path, Bytes>) {
    && (forall p :: p in payloads <==> HasMember(members, p) && p !in record.symlinks)
    && forall m :: m in members && m.name !in record.symlinks ==> m.name in payloads && payloads[m.name] == m.data
  }

  ghost predicate HoldsRecord(codec: Codec, m: Member, record: Record) {
    m.name == "share/crabc/manifest.json" && m.kind.Regular? && codec.readRecord(m.data) == Some(record)
  }

  ghost predicate HasMember(members: seq<Member>, p: Path) { exists m :: m in members && m.name == p }

  /**
   * An archive of a combined tree: at most 4096 members of at most 512 MiB
   * together, each named once and safely; a record among them that names them
   * all; each member as the record says; and the claims hold of the members.
   */
  ghost predicate ArchiveSays(codec: Codec, members: seq<Member>, record: Record) {
    && |members| <= 4096 && Volume(members) <= 536870912
    && (forall i, j :: 0 <= i < j < |members| ==> members[i].name != members[j].name)
    && (forall m :: m in members ==> (m.name == "." || Safe(m.name)) && (m.kind.Regular? || m.kind.Symlink?))
    && (exists m :: m in members && HoldsRecord(codec, m, record))
    && record.format == "crabc-x86-64-owned-sysroot-v1"
    && (forall p :: HasMember(members, p) <==>
        p in record.files || p in record.symlinks || p == "share/crabc/manifest.json")
    && (forall p :: p in record.symlinks ==>
        '/' !in record.symlinks[p] && Sibling(p, record.symlinks[p]) in record.files)
    && (forall m :: m in members ==> MemberSays(codec, record, m))
    && exists payloads, a, b, s :: PayloadsAre(members, record, payloads) && ClaimsSay(codec, record, payloads, a, b, s)
  }

  lemma {:induction false} VolumeOfPrefix(members: seq<Member>, n: nat)
    requires n <= |members|
    ensures TotalSize(members, n) == Volume(members) - Volume(members[n..])
  {
    if n != 0 {
      VolumeOfPrefix(members, n - 1);
      assert members[n - 1..][1..] == members[n..];
    } else {
      assert members[0..] == members;
    }
  }

  lemma VolumeIs(members: seq<Member>)
    ensures TotalSize(members, |members|) == Volume(members)
  {
    VolumeOfPrefix(members, |members|);
    assert members[|members|..] == [];
  }

  lemma PayloadsExactly(members: seq<Member>, record: Record)
    requires DistinctNames(members)
    ensures forall payloads :: PayloadsAre(members, record, payloads) <==>
            payloads == Payloads(members, record, |members|)
  {
    var bytes := Payloads(members, record, |members|);
    PayloadNames(members, record, |members|);
    forall m | m in members && m.name !in record.symlinks
      ensures m.name in bytes && bytes[m.name] == m.data
    {
      var i :| 0 <= i < |members| && members[i] == m;
      PayloadOf(members, record, |members|, i);
    }
    assert forall p :: p in bytes <==> HasMember(members, p) && p !in record.symlinks;
    forall payloads | PayloadsAre(members, record, payloads)
      ensures payloads == bytes
    {
      SamePayloads(members, record, payloads, bytes);
    }
  }

  lemma SamePayloads(members: seq<Member>, record: Record, a: map<Path, Bytes>, b: map<Path, Bytes>)
    requires PayloadsAre(members, record, a) && PayloadsAre(members, record, b)
    ensures a == b
  {
    assert a.Keys == b.Keys;
    forall p | p in a
      ensures a[p] == b[p]
    {
      var m :| m in members && m.name == p;
    }
  }

  lemma MemberExactly(codec: Codec, record: Record, m: Member)
    ensures MemberOk(codec, record, m) <==> MemberSays(codec, record, m)
  {
    hide ManifestPath;
    NamesAre();
  }

  lemma NamesExactly(members: seq<Member>, record: Record)
    ensures RosterMatches(members, record) <==>
            forall p :: HasMember(members, p) <==>
                p in record.files || p in record.symlinks || p == "share/crabc/manifest.json"
  {
    hide ManifestPath;
    NamesAre();
    var listed := record.files.Keys + {ManifestPath()} + record.symlinks.Keys;
    assert forall p :: HasMember(members, p) <==> p in Names(members);
    assert Names(members) == listed <==> forall p :: p in Names(members) <==> p in listed;
    assert (forall p :: HasMember(members, p) <==> p in listed) <==> Names(members) == listed;
  }

  lemma MembersExactly(members: seq<Member>)
    ensures MembersOk(members) <==>
            && (forall i, j :: 0 <= i < j < |members| ==> members[i].name != members[j].name)
            && (forall m :: m in members ==> (m.name == "." || Safe(m.name)) && (m.kind.Regular? || m.kind.Symlink?))
  {
    hide Safe;
    if forall i :: 0 <= i < |members| ==> SafeName(members[i].name) && !members[i].kind.Special? {
      forall m | m in members
        ensures (m.name == "." || Safe(m.name)) && (m.kind.Regular? || m.kind.Symlink?)
      {
        var i :| 0 <= i < |members| && members[i] == m;
      }
    }
  }

  lemma RecordIsPackaged(codec: Codec, members: seq<Member>, record: Record)
    requires DistinctNames(members)
    ensures PackagedRecord(codec, members) == Some(record) <==>
            exists m :: m in members && HoldsRecord(codec, m, record)
  {
    hide ManifestPath, Find;
    NamesAre();
    var found := Find(members, ManifestPath());
    if PackagedRecord(codec, members) == Some(record) {
      assert found.value in members && found.value.name == "share/crabc/manifest.json";
    }
    if m :| m in members && HoldsRecord(codec, m, record) {
      var i :| 0 <= i < |members| && members[i] == m;
      FoundIsMember(members, i);
    }
  }

  lemma ArchiveExactly(codec: Codec, members: seq<Member>, record: Record)
    requires DistinctNames(members) && PackagedRecord(codec, members) == Some(record)
    ensures PackageOk(codec, members) <==> ArchiveSays(codec, members, record)
  {
    hide ClaimsOk, ClaimsSay, Payloads, PayloadsAre, CombinedFormat, TotalSize, Volume, MemberOk, MemberSays, Safe,
         Sibling, PackagedRecord, MembersOk, RosterMatches;
    VolumeIs(members);
    PayloadsExactly(members, record);
    FormatsAre();
    MembersExactly(members);
    RecordIsPackaged(codec, members, record);
    NamesExactly(members, record);
    forall m: Member
      ensures MemberOk(codec, record, m) <==> MemberSays(codec, record, m)
    {
      MemberExactly(codec, record, m);
    }
    ClaimsExactly(codec, record, Payloads(members, record, |members|));
    assert (forall i :: 0 <= i < |members| ==> MemberOk(codec, record, members[i])) <==>
           forall m :: m in members ==> MemberOk(codec, record, m);
    assert MAX_ARCHIVE_TOTAL_BYTES == 536870912;
  }

  /** Reading accepts exactly these archives. */
  lemma PackageExactly(codec: Codec, members: seq<Member>)
    ensures PackageOk(codec, members) <==> exists record :: ArchiveSays(codec, members, record)
    ensures forall record :: ArchiveSays(codec, members, record) ==> PackagedRecord(codec, members) == Some(record)
  {
    hide ArchiveSays, PackagedRecord, PackageOk;
    var record := PackagedRecord(codec, members);
    forall r | ArchiveSays(codec, members, r)
      ensures DistinctNames(members) && PackagedRecord(codec, members) == Some(r)
    {
      SaysPackaged(codec, members, r);
    }
    if PackageOk(codec, members) {
      OkIsPackaged(codec, members);
    }
    if record.Some? && DistinctNames(members) {
      ArchiveExactly(codec, members, record.value);
    }
  }

  lemma SaysPackaged(codec: Codec, members: seq<Member>, record: Record)
    requires ArchiveSays(codec, members, record)
    ensures DistinctNames(members) && PackagedRecord(codec, members) == Some(record)
  {
    hide ClaimsSay, PayloadsAre, Volume, MemberSays, Safe, Sibling, PackagedRecord;
    RecordIsPackaged(codec, members, record);
  }

  lemma OkIsPackaged(codec: Codec, members: seq<Member>)
    requires PackageOk(codec, members)
    ensures DistinctNames(members) && PackagedRecord(codec, members).Some?
  {
    hide ClaimsOk, Payloads, TotalSize, MemberOk, Safe, PackagedRecord, AliasesOk, RosterMatches, CombinedFormat;
  }

  /**
   * The package of a combined tree, member by member: links with mode 0777, files with 0755 or 0644
   * and their bytes.
   */
  lemma PackagedMembers(codec: Codec, tree: Tree, record: Record, members: seq<Member>)
    requires ValidTree(codec, tree) && tree.Valid() && Some(record) == RecordIn(codec, tree)
             && PackageOf(tree, record, members)
    ensures forall p :: HasMember(members, p) <==> p in tree.files || p in tree.links
    ensures forall i, j :: 0 <= i < j < |members| ==> members[i].name != members[j].name
    ensures forall m :: m in members ==>
              if m.name in tree.links then m == Member(m.name, Symlink, 511, 0, tree.links[m.name], [])
              else m.name in tree.files
                   && var file := tree.files[m.name];
                   m == Member(m.name, Regular, if file.executable then 493 else 420, |file.data|, "", file.data)
  {
    hide ValidTree, RecordIn;
    ValidRoster(codec, tree, record);
    assert forall p :: HasMember(members, p) <==> p in Names(members);
    forall m | m in members
      ensures m.name in tree.Entries() && m == MemberFor(tree, record, m.name)
    {
      var i :| 0 <= i < |members| && members[i] == m;
    }
  }

  // ----- Which archives can be extracted

  /** The record lists each path once, and as executable only files. */
  ghost predicate ListsOnce(record: Record) {
    && record.executables.sorted && record.executables.members <= record.files.Keys
    && record.files.Keys !! record.symlinks.Keys && "share/crabc/manifest.json" !in record.files
  }

  /** No member is the root itself or lies below another member. */
  ghost predicate LiesApart(members: seq<Member>) {
    && (forall m :: m in members ==> m.name != ".")
    && forall m, o :: m in members && o in members ==> !Below(m.name, o.name)
  }

  lemma PublishedIs(codec: Codec, members: seq<Member>, record: Record)
    requires ArchiveSays(codec, members, record)
    ensures var tree := Published(members, record);
            && tree.links == record.symlinks
            && (forall p :: p in tree.files <==> HasMember(members, p) && p !in record.symlinks)
            && (forall m :: m in members && m.name !in record.symlinks ==>
                  tree.files[m.name] == File(m.data, m.name in record.executables.members))
            && PayloadsAre(members, record, BytesOf(tree))
  {
    hide ClaimsSay, Volume, MemberSays, Safe, Sibling, HasMember, Payloads;
    PayloadsExactly(members, record);
    var payloads := Payloads(members, record, |members|);
    assert PayloadsAre(members, record, payloads);
    assert BytesOf(Published(members, record)) == payloads;
  }

  lemma ArchiveIsValid(codec: Codec, members: seq<Member>, record: Record)
    requires ArchiveSays(codec, members, record)
    ensures Published(members, record).Valid() <==> LiesApart(members)
  {
    ArchiveEntries(codec, members, record);
    hide ArchiveSays, Published, Below, Ancestor, Safe, HasMember;
    var tree := Published(members, record);
    forall p, q
      ensures Ancestor(p, q) <==> Below(q, p)
    {
      AncestorIsAbove(p, q);
    }
    DotIsNoMember(members, tree);
    NoneBelow(members, tree);
  }

  lemma ArchiveEntries(codec: Codec, members: seq<Member>, record: Record)
    requires ArchiveSays(codec, members, record)
    ensures var tree := Published(members, record);
            (forall p :: p in tree.Entries() <==> HasMember(members, p)) && tree.files.Keys !! tree.links.Keys
    ensures forall m :: m in members ==> m.name == "." || Safe(m.name)
  {
    PublishedIs(codec, members, record);
    ListedAreMembers(codec, members, record);
    hide ArchiveSays, Published, Safe, HasMember, BytesOf, PayloadsAre;
  }

  lemma ListedAreMembers(codec: Codec, members: seq<Member>, record: Record)
    requires ArchiveSays(codec, members, record)
    ensures forall p :: p in record.symlinks ==> HasMember(members, p)
    ensures forall m :: m in members ==> m.name == "." || Safe(m.name)
  {
    hide ClaimsSay, Volume, MemberSays, Safe, Sibling, HoldsRecord, PayloadsAre, HasMember;
  }

  lemma DotIsNoMember(members: seq<Member>, tree: Tree)
    requires forall p :: p in tree.Entries() <==> HasMember(members, p)
    requires forall m :: m in members ==> m.name == "." || Safe(m.name)
    ensures (forall p :: p in tree.Entries() ==> Safe(p)) <==> forall m :: m in members ==> m.name != "."
  {
    hide Safe;
    assert forall m :: m in members ==> HasMember(members, m.name);
    forall p | Safe(p)
      ensures p != "."
    {
      SysrootCompose.DotIsUnsafe(p);
    }
  }

  lemma NoneBelow(members: seq<Member>, tree: Tree)
    requires forall p :: p in tree.Entries() <==> HasMember(members, p)
    ensures (forall p, q :: p in tree.Entries() && q in tree.Entries() ==> !Below(q, p)) <==>
            forall m, o :: m in members && o in members ==> !Below(m.name, o.name)
  {
    hide Below;
    assert forall m :: m in members ==> HasMember(members, m.name);
  }

  /** The files beside the manifest at `path` are the listed ones, with their digests and modes. */
  ghost predicate FilesMatch(codec: Codec, files: map<Path, File>, record: Record, path: Path) {
    && path in files && !files[path].executable && record.files.Keys == files.Keys - {path}
    && (forall p :: p in record.files ==> record.files[p] == codec.hash(files[p].data))
    && (forall p :: p in record.executables.members <==> p in record.files && files[p].executable)
  }

  ghost predicate LinksMatch(record: Record, links: map<Path, string>) {
    record.symlinks == links
    && forall p :: p in links ==> '/' !in links[p] && Sibling(p, links[p]) in record.files
  }

  lemma TreeSaysParts(codec: Codec, tree: Tree, record: Record, path: Path)
    requires path == "share/crabc/manifest.json"
    ensures TreeSays(codec, tree, record) <==>
            && FilesMatch(codec, tree.files, record, path) && codec.readRecord(tree.files[path].data) == Some(record)
            && record.schema == 1 && record.format == "crabc-x86-64-owned-sysroot-v1"
            && record.target == "x86_64-unknown-linux-musl" && record.executables.sorted
            && LinksMatch(record, tree.links)
            && exists a, b, s :: ClaimsSay(codec, record, BytesOf(tree), a, b, s)
  {
    hide ClaimsSay, BytesOf, Sibling;
  }

  lemma ArchiveIsTree(codec: Codec, members: seq<Member>, record: Record)
    requires ArchiveSays(codec, members, record)
    ensures TreeSays(codec, Published(members, record), record) <==> ListsOnce(record)
  {
    var path, tree := "share/crabc/manifest.json", Published(members, record);
    TreeSaysParts(codec, tree, record, path);
    ArchiveClaims(codec, members, record);
    ManifestIsMember(codec, members, record);
    ArchiveRecord(codec, members, record);
    ArchiveFiles(codec, members, record, path);
    hide ArchiveSays, TreeSays, ClaimsSay, Published, BytesOf, FilesMatch, LinksMatch;
  }

  /** Published files are the listed ones exactly when the record lists each path once. */
  lemma FilesOnce(codec: Codec, files: map<Path, File>, record: Record, path: Path)
    requires path !in record.symlinks && path in files
    requires forall p :: p in files <==> p !in record.symlinks && (p in record.files || p == path)
    requires files[path].executable <==> path in record.executables.members
    requires forall p :: p in record.files && p in files && p != path ==>
               && record.files[p] == codec.hash(files[p].data)
               && (files[p].executable <==> p in record.executables.members)
    ensures FilesMatch(codec, files, record, path) <==>
            && record.executables.members <= record.files.Keys
            && record.files.Keys !! record.symlinks.Keys && path !in record.files
  {
    if record.files.Keys !! record.symlinks.Keys && path !in record.files {
      assert record.files.Keys == files.Keys - {path};
    }
  }

  lemma ArchiveRecord(codec: Codec, members: seq<Member>, record: Record)
    requires ArchiveSays(codec, members, record)
    ensures LinksMatch(record, Published(members, record).links) && record.format == "crabc-x86-64-owned-sysroot-v1"
  {
    hide ClaimsSay, Volume, MemberSays, Safe, Sibling, HoldsRecord, PayloadsAre, HasMember;
  }

  lemma ArchiveFiles(codec: Codec, members: seq<Member>, record: Record, path: Path)
    requires ArchiveSays(codec, members, record) && path == "share/crabc/manifest.json"
    ensures FilesMatch(codec, Published(members, record).files, record, path) <==>
            && record.executables.members <= record.files.Keys
            && record.files.Keys !! record.symlinks.Keys && path !in record.files
  {
    hide ClaimsSay, Volume, Safe, Sibling, HoldsRecord, Published, PayloadsAre, BytesOf, FilesMatch;
    PublishedIs(codec, members, record);
    ManifestIsMember(codec, members, record);
    var files := Published(members, record).files;
    forall p | p in record.files && p in files && p != path
      ensures record.files[p] == codec.hash(files[p].data)
      ensures files[p].executable <==> p in record.executables.members
    {
      assert HasMember(members, p);
      var m :| m in members && m.name == p;
      assert MemberSays(codec, record, m);
    }
    FilesOnce(codec, files, record, path);
  }

  lemma ArchiveClaims(codec: Codec, members: seq<Member>, record: Record)
    requires ArchiveSays(codec, members, record)
    ensures record.schema == 1 && record.target == "x86_64-unknown-linux-musl"
    ensures exists a, b, s :: ClaimsSay(codec, record, BytesOf(Published(members, record)), a, b, s)
  {
    hide Volume, MemberSays, Safe, Sibling, Published, HoldsRecord, BytesOf, HasMember, PayloadsAre;
    PublishedIs(codec, members, record);
    var payloads, a, b, s :| PayloadsAre(members, record, payloads) && ClaimsSay(codec, record, payloads, a, b, s);
    SamePayloads(members, record, payloads, BytesOf(Published(members, record)));
    assert RecordSays(record);
    hide ClaimsSay;
  }

  /** The manifest is published with the record's bytes. */
  lemma ManifestIsMember(codec: Codec, members: seq<Member>, record: Record)
    requires ArchiveSays(codec, members, record)
    ensures var files := Published(members, record).files;
            var path := "share/crabc/manifest.json";
            && path in files && codec.readRecord(files[path].data) == Some(record)
            && (files[path].executable <==> path in record.executables.members) && path !in record.symlinks
  {
    var m := ManifestMember(codec, members, record);
    PublishedIs(codec, members, record);
    hide ArchiveSays, Published, PayloadsAre, BytesOf;
    assert HasMember(members, m.name);
  }

  lemma ManifestMember(codec: Codec, members: seq<Member>, record: Record) returns (m: Member)
    requires ArchiveSays(codec, members, record)
    ensures m in members && HoldsRecord(codec, m, record) && m.name !in record.symlinks
  {
    hide ClaimsSay, Volume, Safe, Sibling, PayloadsAre, HasMember;
    m :| m in members && HoldsRecord(codec, m, record);
    assert MemberSays(codec, record, m);
  }

  /** Extraction succeeds exactly for these archives. */
  lemma PublishableExactly(codec: Codec, members: seq<Member>)
    ensures Publishable(codec, members) <==>
            exists record :: ArchiveSays(codec, members, record) && LiesApart(members) && ListsOnce(record)
  {
    hide ArchiveSays, PackagedRecord, PackageOk, LiesApart, ListsOnce, Published, ValidTree, TreeSays;
    PackageExactly(codec, members);
    forall record | ArchiveSays(codec, members, record)
      ensures Publishable(codec, members) <==> LiesApart(members) && ListsOnce(record)
    {
      var tree := Published(members, record);
      ArchiveIsValid(codec, members, record);
      ArchiveIsTree(codec, members, record);
      ManifestIsMember(codec, members, record);
      ManifestPathIs();
      assert PackagedRecord(codec, members) == Some(record);
      RecordIsIn(codec, tree, record);
      TreeExactly(codec, tree, record);
    }
  }

  lemma RecordIsIn(codec: Codec, tree: Tree, record: Record)
    requires "share/crabc/manifest.json" in tree.files
    requires codec.readRecord(tree.files["share/crabc/manifest.json"].data) == Some(record)
    ensures RecordIn(codec, tree) == Some(record)
  {
    hide ManifestPath;
    ManifestPathIs();
  }
}
