/**
 * Packages of a combined sysroot: writing the archive of a validated tree,
 * reading an arbitrary archive, extracting it, and comparing two trees.
 */
module SysrootPackage {
  import opened Sequences
  import opened Wrappers
  import opened Paths
  import opened SysrootModel
  import opened SysrootSeals
  import opened SysrootValidate
  import opened SysrootCompose

  datatype MemberKind = Regular | Symlink | Special

  datatype Member = Member(name: string, kind: MemberKind, mode: nat, size: int, linkname: string, data: Bytes)

  const MAX_ARCHIVE_MEMBERS := 4096
  const MAX_ARCHIVE_TOTAL_BYTES := 512 * 1024 * 1024
  const EXECUTABLE_MODE := 493  // 0o755
  const PLAIN_MODE := 420       // 0o644
  const LINK_MODE := 511        // 0o777

  // ----- Reading an archive

  /** Relative, normalised and free of parent references; the root itself passes this test. */
  predicate SafeName(name: string) { name == "." || Safe(name) }

  function TotalSize(members: seq<Member>, n: nat): int
    requires n <= |members|
  {
    if n == 0 then 0 else TotalSize(members, n - 1) + if members[n - 1].size < 0 then 0 else members[n - 1].size
  }

  predicate WithinLimits(members: seq<Member>) {
    |members| <= MAX_ARCHIVE_MEMBERS && TotalSize(members, |members|) <= MAX_ARCHIVE_TOTAL_BYTES
  }

  ghost predicate DistinctNames(members: seq<Member>) {
    forall i, j :: 0 <= i < j < |members| ==> members[i].name != members[j].name
  }

  function Names(members: seq<Member>): set<string> { set m | m in members :: m.name }

  ghost predicate MembersOk(members: seq<Member>) {
    DistinctNames(members) && forall i :: 0 <= i < |members| ==> SafeName(members[i].name) && !members[i].kind.Special?
  }

  /** The first member of that name. */
  function Find(members: seq<Member>, name: string): (r: Option<Member>)
    ensures r.Some? ==> r.value in members && r.value.name == name
    ensures r.None? ==> forall m :: m in members ==> m.name != name
  {
    if members == [] then None else if members[0].name == name then Some(members[0]) else Find(members[1..], name)
  }

  function PackagedRecord(codec: Codec, members: seq<Member>): Option<Record> {
    var m := Find(members, ManifestPath());
    if m.Some? && m.value.kind.Regular? then codec.readRecord(m.value.data) else None
  }

  predicate AliasesOk(record: Record) {
    forall p :: p in record.symlinks ==> '/' !in record.symlinks[p] && Sibling(p, record.symlinks[p]) in record.files
  }

  function ModeFor(record: Record, name: string): nat {
    if name in record.executables.members then EXECUTABLE_MODE else PLAIN_MODE
  }

  predicate MemberOk(codec: Codec, record: Record, m: Member) {
    if m.name in record.symlinks then m.kind.Symlink? && m.linkname == record.symlinks[m.name]
    else m.kind.Regular? && m.mode == ModeFor(record, m.name)
         && (m.name != ManifestPath() ==> m.name in record.files && codec.hash(m.data) == record.files[m.name])
  }

  /** Bytes of the first `n` members that are no links, by name. */
  function Payloads(members: seq<Member>, record: Record, n: nat): map<Path, Bytes>
    requires n <= |members|
  {
    if n == 0 then map[]
    else
      var m, before := members[n - 1], Payloads(members, record, n - 1);
      if m.name in record.symlinks then before else before[m.name := m.data]
  }

  ghost predicate RosterMatches(members: seq<Member>, record: Record) {
    Names(members) == record.files.Keys + {ManifestPath()} + record.symlinks.Keys
  }

  /** The archive keeps the complete package contract. */
  ghost predicate PackageOk(codec: Codec, members: seq<Member>) {
    && WithinLimits(members) && MembersOk(members)
    && var record := PackagedRecord(codec, members);
    && record.Some? && record.value.format == CombinedFormat()
    && RosterMatches(members, record.value) && AliasesOk(record.value)
    && (forall i :: 0 <= i < |members| ==> MemberOk(codec, record.value, members[i]))
    && ClaimsOk(codec, record.value, Payloads(members, record.value, |members|))
  }

  method AddSizes(members: seq<Member>) returns (total: int)
    ensures total == TotalSize(members, |members|)
  {
    total := 0;
    for i := 0 to |members|
      invariant total == TotalSize(members, i)
    {
      total := total + if members[i].size < 0 then 0 else members[i].size;
    }
  }

  method CheckMembers(members: seq<Member>) returns (ok: bool)
    ensures ok <==> MembersOk(members)
  {
    hide SafeName;
    var seen: set<string> := {};
    for i := 0 to |members|
      invariant forall j :: 0 <= j < i ==> SafeName(members[j].name) && !members[j].kind.Special?
      invariant forall name :: name in seen <==> exists j :: 0 <= j < i && members[j].name == name
      invariant forall j, k :: 0 <= j < k < i ==> members[j].name != members[k].name
    {
      if members[i].name in seen || !SafeName(members[i].name) || members[i].kind.Special? {
        return false;
      }
      seen := seen + {members[i].name};
    }
    ok := true;
  }

  method CollectPayloads(codec: Codec, members: seq<Member>, record: Record) returns (r: Option<map<Path, Bytes>>)
    ensures r.Some? <==> forall i :: 0 <= i < |members| ==> MemberOk(codec, record, members[i])
    ensures r.Some? ==> r.value == Payloads(members, record, |members|)
  {
    hide MemberOk;
    var payloads: map<Path, Bytes> := map[];
    for i := 0 to |members|
      invariant forall j :: 0 <= j < i ==> MemberOk(codec, record, members[j])
      invariant payloads == Payloads(members, record, i)
    {
      if !MemberOk(codec, record, members[i]) {
        return None;
      }
      if members[i].name !in record.symlinks {
        payloads := payloads[members[i].name := members[i].data];
      }
    }
    r := Some(payloads);
  }

  method ReadPackage(codec: Codec, members: seq<Member>) returns (r: Result<(Record, map<Path, Bytes>)>)
    ensures r.Ok? <==> PackageOk(codec, members)
    ensures r.Ok? ==> Some(r.value.0) == PackagedRecord(codec, members)
                      && r.value.1 == Payloads(members, r.value.0, |members|)
  {
    hide MembersOk, PackagedRecord, AliasesOk, MemberOk, ClaimsOk, CombinedFormat, TotalSize, ManifestPath;
    var total := AddSizes(members);
    if |members| > MAX_ARCHIVE_MEMBERS || total > MAX_ARCHIVE_TOTAL_BYTES {
      return Err("combined package safety limit");
    }
    var named := CheckMembers(members);
    if !named {
      return Err("duplicate, unsafe or non-regular package member");
    }
    var record := PackagedRecord(codec, members);
    if record.None? || record.value.format != CombinedFormat() {
      return Err("wrong combined package contract");
    }
    if Names(members) != record.value.files.Keys + {ManifestPath()} + record.value.symlinks.Keys {
      return Err("combined package roster differs from its manifest");
    }
    if !AliasesOk(record.value) {
      return Err("unsafe package alias target");
    }
    var payloads := CollectPayloads(codec, members, record.value);
    if payloads.None? {
      return Err("combined package member differs");
    }
    var claimed := ValidateClaims(codec, record.value, payloads.value);
    if !claimed {
      return Err("combined package components differ");
    }
    r := Ok((record.value, payloads.value));
  }

  // ----- Extraction

  /** The tree an archive describes. */
  function Published(members: seq<Member>, record: Record): Tree {
    var payloads := Payloads(members, record, |members|);
    Tree(map p | p in payloads :: File(payloads[p], p in record.executables.members), record.symlinks)
  }

  /** Nothing published is inside something else, and what is published validates. */
  ghost predicate Publishable(codec: Codec, members: seq<Member>) {
    && PackageOk(codec, members)
    && var tree := Published(members, PackagedRecord(codec, members).value); tree.Valid() && ValidTree(codec, tree)
  }

  method WritePayloads(files: map<Path, File>, staged: Root) returns (ok: bool)
    requires staged.tree == Tree(map[], map[])
    requires forall p :: p in files ==> SafeName(p)
    modifies staged
    ensures ok ==> staged.tree == Tree(files, map[]) && staged.tree.Valid()
    ensures Tree(files, map[]).Valid() ==> ok
  {
    hide Safe, Ancestor;
    var left := files.Keys;
    while left != {}
      invariant left <= files.Keys
      invariant staged.tree.links == map[] && staged.tree.files.Keys == files.Keys - left && staged.tree.Valid()
      invariant forall p :: p in staged.tree.files ==> staged.tree.files[p] == files[p]
      decreases left
    {
      var p :| p in left;
      if Tree(files, map[]).Valid() {
        assert p in Tree(files, map[]).Entries();
        DotIsUnsafe(p);
        assert forall q :: q in staged.tree.Entries() ==> q in Tree(files, map[]).Entries();
      }
      var written := staged.WriteFile(p, files[p]);
      if !written {
        return false;
      }
      left := left - {p};
    }
    assert staged.tree.files == files;
    ok := true;
  }

  method WriteLinks(files: map<Path, File>, links: map<Path, string>, staged: Root) returns (ok: bool)
    requires staged.tree == Tree(files, map[]) && staged.tree.Valid()
    requires forall p :: p in links ==> SafeName(p)
    modifies staged
    ensures ok ==> staged.tree == Tree(files, links) && staged.tree.Valid()
    ensures Tree(files, links).Valid() && (forall p :: p in links ==> links[p] != "") ==> ok
  {
    hide Safe, Ancestor;
    var left := links.Keys;
    while left != {}
      invariant left <= links.Keys
      invariant staged.tree.files == files && staged.tree.links.Keys == links.Keys - left && staged.tree.Valid()
      invariant forall p :: p in staged.tree.links ==> staged.tree.links[p] == links[p]
      decreases left
    {
      var p :| p in left;
      if Tree(files, links).Valid() {
        assert p in Tree(files, links).Entries();
        DotIsUnsafe(p);
        assert forall q :: q in staged.tree.Entries() ==> q in Tree(files, links).Entries();
      }
      var made := staged.MakeLink(p, links[p]);
      if !made {
        return false;
      }
      left := left - {p};
    }
    assert staged.tree.links == links;
    ok := true;
  }

  /** Extraction publishes exactly what a publishable archive describes, and nothing for any other archive. */
  method Extract(codec: Codec, members: seq<Member>, staged: Root) returns (r: Result<Record>)
    requires staged.tree == Tree(map[], map[])
    modifies staged
    ensures r.Ok? <==> Publishable(codec, members)
    ensures r.Ok? ==> Some(r.value) == PackagedRecord(codec, members) && staged.tree == Published(members, r.value)
  {
    hide PackageOk, PackagedRecord, ValidTree, Payloads;
    var read := ReadPackage(codec, members);
    if read.Err? {
      return Err(read.reason);
    }
    var record, payloads := read.value.0, read.value.1;
    PublishedNames(codec, members, record);
    var files := map p | p in payloads :: File(payloads[p], p in record.executables.members);
    assert Published(members, record) == Tree(files, record.symlinks);
    FilesOfTree(Tree(files, record.symlinks));
    var written := WritePayloads(files, staged);
    if !written {
      return Err("extraction failed");
    }
    if Tree(files, record.symlinks).Valid() {
      PublishedLinksAreNamed(codec, members, record);
    }
    var linked := WriteLinks(files, record.symlinks, staged);
    if !linked {
      return Err("extraction failed");
    }
    var valid := Validate(codec, staged.tree);
    if valid.Err? {
      return Err(valid.reason);
    }
    r := Ok(record);
  }

  lemma FilesOfTree(tree: Tree)
    ensures tree.Valid() ==> Tree(tree.files, map[]).Valid()
  {
    hide Safe, Ancestor;
    var files := Tree(tree.files, map[]);
    assert forall p :: p in files.Entries() ==> p in tree.Entries();
  }

  lemma {:induction false} PayloadNames(members: seq<Member>, record: Record, n: nat)
    requires n <= |members|
    ensures forall p :: p in Payloads(members, record, n) <==>
              p !in record.symlinks && exists i :: 0 <= i < n && members[i].name == p
  {
    if n != 0 {
      PayloadNames(members, record, n - 1);
      var m := members[n - 1];
      forall p | p in Payloads(members, record, n)
        ensures p !in record.symlinks && exists i :: 0 <= i < n && members[i].name == p
      {
        if p == m.name && p !in record.symlinks {
          assert members[n - 1].name == p;
        } else {
          var i :| 0 <= i < n - 1 && members[i].name == p;
        }
      }
    }
  }

  lemma PublishedNames(codec: Codec, members: seq<Member>, record: Record)
    requires PackageOk(codec, members) && Some(record) == PackagedRecord(codec, members)
    ensures forall p :: p in Payloads(members, record, |members|) ==> SafeName(p)
    ensures forall p :: p in record.symlinks ==> SafeName(p)
    ensures forall p :: p in Published(members, record).Entries() <==> p in Names(members)
  {
    hide WithinLimits, SafeName, AliasesOk, MemberOk, ClaimsOk, CombinedFormat, ManifestPath, PackagedRecord;
    PayloadNames(members, record, |members|);
    forall p | p in record.symlinks
      ensures SafeName(p)
    {
      assert p in Names(members);
      var m :| m in members && m.name == p;
      var i :| 0 <= i < |members| && members[i] == m;
    }
  }

  /** No link of a publishable tree is empty: an empty target would name the link's own directory. */
  lemma PublishedLinksAreNamed(codec: Codec, members: seq<Member>, record: Record)
    requires PackageOk(codec, members) && Some(record) == PackagedRecord(codec, members)
    requires Published(members, record).Valid()
    ensures forall p :: p in record.symlinks ==> record.symlinks[p] != ""
  {
    hide WithinLimits, MembersOk, MemberOk, ClaimsOk, CombinedFormat, ManifestPath, PackagedRecord, Published, Safe,
         Names;
    PublishedNames(codec, members, record);
    var tree := Published(members, record);
    forall p | p in record.symlinks
      ensures record.symlinks[p] != ""
    {
      var beside := Sibling(p, record.symlinks[p]);
      assert beside in Names(members) && p in Names(members);
      assert beside in tree.Entries() && p in tree.Entries();
      DotIsUnsafe(beside);
      if DirectoryLength(p) != 0 {
        ParentIsAncestor(p);
      }
    }
  }

  // ----- What a successful extraction guarantees of any archive

  /**
   * Member names are unique, relative and free of parent references; every
   * member is published under its name with its bytes and mode, or its target;
   * nothing else is published.
   */
  lemma ExtractedMembersArePublished(codec: Codec, members: seq<Member>, record: Record, m: Member)
    requires Publishable(codec, members) && Some(record) == PackagedRecord(codec, members) && m in members
    ensures Safe(m.name) && forall o :: o in members && o.name == m.name ==> o == m
    ensures var tree := Published(members, record);
            && tree.Entries() == Names(members)
            && (m.kind.Symlink? ==> m.name in tree.links && tree.links[m.name] == m.linkname)
            && (m.kind.Regular? ==> m.name in tree.files && tree.files[m.name].data == m.data
                                    && (tree.files[m.name].executable <==> m.mode == EXECUTABLE_MODE))
  {
    hide WithinLimits, Safe, SafeName, AliasesOk, CombinedFormat, ManifestPath, PackagedRecord, ValidTree, ClaimsOk,
         RosterMatches, Payloads, Ancestor;
    var i :| 0 <= i < |members| && members[i] == m;
    PublishedNames(codec, members, record);
    assert m.name in Names(members);
    assert m.name in Published(members, record).Entries();
    assert MemberOk(codec, record, members[i]);
    if m.kind.Regular? {
      PayloadOf(members, record, |members|, i);
    }
  }

  /** Every published payload but the manifest is claimed by a placed component file of its own digest. */
  lemma ExtractedPayloadsAreClaimed(codec: Codec, members: seq<Member>, record: Record, p: Path)
    requires Publishable(codec, members) && Some(record) == PackagedRecord(codec, members)
    requires p in Published(members, record).files && p != ManifestPath()
    ensures p in record.files && codec.hash(Published(members, record).files[p].data) == record.files[p]
    ensures ClaimedBy(record, Static, p) || ClaimedBy(record, Dynamic, p)
  {
    hide WithinLimits, MembersOk, SafeName, AliasesOk, CombinedFormat, ManifestPath, PackagedRecord,
         ManifestIdentity, ComponentOk, RecordIdentity, ClaimedBy, StateOk, LinksStayInside, Published, MemberOk,
         Payloads, RosterMatches;
    var tree := Published(members, record);
    PublishedRecord(codec, members, record);
    assert p in Digests(codec, tree);
  }

  /** The published tree's manifest is the packaged one. */
  lemma PublishedRecord(codec: Codec, members: seq<Member>, record: Record)
    requires PackageOk(codec, members) && Some(record) == PackagedRecord(codec, members)
    requires ManifestPath() in Published(members, record).files
    ensures RecordIn(codec, Published(members, record)) == Some(record)
  {
    hide WithinLimits, SafeName, AliasesOk, CombinedFormat, ManifestPath, MemberOk, ClaimsOk, RosterMatches;
    var m := Find(members, ManifestPath()).value;
    var i :| 0 <= i < |members| && members[i] == m;
    PayloadNames(members, record, |members|);
    PayloadOf(members, record, |members|, i);
  }

  /** The two embedded products claim one source, profile and allocator configuration. */
  lemma ExtractedSealsAgree(codec: Codec, members: seq<Member>, record: Record)
    requires Publishable(codec, members) && Some(record) == PackagedRecord(codec, members)
    ensures var files := Published(members, record).files;
            var at := StateDestination(record);
            && ComponentManifest(Static) in files && ComponentManifest(Dynamic) in files && at.Some?
               && at.value in files
            && var a, b := codec.readManifest(files[ComponentManifest(Static)].data),
                           codec.readManifest(files[ComponentManifest(Dynamic)].data);
            && a.Some? && b.Some?
            && var s := codec.readState(files[at.value].data); s.Some? && OneBuild(a.value, b.value, s.value)
  {
    hide WithinLimits, MembersOk, AliasesOk, CombinedFormat, ManifestPath, PackagedRecord, ValidTree, ComponentOk,
         MemberOk, RecordIdentity, ClaimedBy, SealsMatch, OneBuild, StateDestination, ComponentManifest,
         RosterMatches, Payloads;
    var payloads := Payloads(members, record, |members|);
    assert StateOk(codec, record, payloads);
    assert ComponentManifest(Static) in payloads && ComponentManifest(Dynamic) in payloads;
    var a, b := Embedded(codec, payloads, Static).value, Embedded(codec, payloads, Dynamic).value;
    SealsMatchExactly(a, b, codec.readState(payloads[StateDestination(record).value]));
  }

  lemma {:induction false} PayloadOf(members: seq<Member>, record: Record, n: nat, i: nat)
    requires i < n <= |members| && DistinctNames(members) && members[i].name !in record.symlinks
    ensures members[i].name in Payloads(members, record, n)
            && Payloads(members, record, n)[members[i].name] == members[i].data
  {
    if i < n - 1 {
      PayloadOf(members, record, n - 1, i);
    }
  }

  // ----- Packaging

  function MemberFor(tree: Tree, record: Record, p: Path): Member
    requires p in tree.Entries()
  {
    if p in record.symlinks then Member(p, Symlink, LINK_MODE, 0, record.symlinks[p], [])
    else if p in tree.files then
      Member(p, Regular, ModeFor(record, p), |tree.files[p].data|, "", tree.files[p].data)
    else Member(p, Symlink, LINK_MODE, 0, "", [])
  }

  /** One member for each entry of the tree. */
  ghost predicate PackageOf(tree: Tree, record: Record, members: seq<Member>) {
    && DistinctNames(members) && Names(members) == tree.Entries()
    && forall i :: 0 <= i < |members| ==> members[i].name in tree.Entries()
                                          && members[i] == MemberFor(tree, record, members[i].name)
  }

  function NameList(members: seq<Member>): seq<Path> {
    seq(|members|, i requires 0 <= i < |members| => members[i].name)
  }

  /** The archive of a validated tree, its members in the order of their names. */
  method Package(codec: Codec, tree: Tree) returns (r: Result<seq<Member>>)
    ensures r.Ok? <==> ValidTree(codec, tree)
    ensures r.Ok? ==> PackageOf(tree, RecordIn(codec, tree).value, r.value) && Ascending(NameList(r.value))
  {
    hide ValidTree, MemberFor, RecordIn, Ascending, Before;
    var valid := Validate(codec, tree);
    if valid.Err? {
      return Err(valid.reason);
    }
    ValidRoster(codec, tree, valid.value);
    var members: seq<Member> := [];
    var left := valid.value.files.Keys + {ManifestPath()} + valid.value.symlinks.Keys;
    NoNames();
    while left != {}
      invariant left <= tree.Entries()
      invariant Ascending(NameList(members)) && forall p, q :: p in NameList(members) && q in left ==> Before(p, q)
      invariant Names(members) == tree.Entries() - left && DistinctNames(members)
      invariant forall i :: 0 <= i < |members| ==> members[i].name in tree.Entries()
                                                   && members[i] == MemberFor(tree, valid.value, members[i].name)
      decreases left
    {
      var p := Least(left);
      var m := MemberFor(tree, valid.value, p);
      MemberName(tree, valid.value, p);
      assert forall i :: 0 <= i < |members| ==> members[i].name in Names(members);
      NamesSnoc(members, m);
      assert NameList(members + [m]) == NameList(members) + [p];
      AppendName(NameList(members), p);
      members := members + [m];
      left := left - {p};
    }
    r := Ok(members);
  }

  lemma NoNames()
    ensures NameList([]) == [] && Ascending([])
  {
  }

  /** A tree has one archive whose members are in the order of their names. */
  lemma PackageIsUnique(tree: Tree, record: Record, a: seq<Member>, b: seq<Member>)
    requires PackageOf(tree, record, a) && PackageOf(tree, record, b)
    requires Ascending(NameList(a)) && Ascending(NameList(b))
    ensures a == b
  {
    hide Ascending, MemberFor, Distinct;
    forall p
      ensures p in NameList(a) <==> p in NameList(b)
    {
      ListedIsNamed(a, p);
      ListedIsNamed(b, p);
    }
    assert Elements(NameList(a)) == Elements(NameList(b));
    OrderIsUnique(NameList(a), NameList(b));
    assert |NameList(a)| == |a| && |NameList(b)| == |b|;
    forall i | 0 <= i < |a|
      ensures a[i] == b[i]
    {
      assert NameList(a)[i] == a[i].name && NameList(b)[i] == b[i].name;
    }
  }

  lemma ListedIsNamed(members: seq<Member>, p: Path)
    ensures p in NameList(members) <==> p in Names(members)
  {
    if p in NameList(members) {
      var i :| 0 <= i < |members| && NameList(members)[i] == p;
      assert members[i] in members;
    }
    if p in Names(members) {
      var m :| m in members && m.name == p;
      var i :| 0 <= i < |members| && members[i] == m;
      assert NameList(members)[i] == p;
    }
  }

  lemma MemberName(tree: Tree, record: Record, p: Path)
    requires p in tree.Entries()
    ensures MemberFor(tree, record, p).name == p
  {
  }

  lemma NamesSnoc(members: seq<Member>, m: Member)
    ensures Names(members + [m]) == Names(members) + {m.name}
  {
    var all := members + [m];
    assert forall x :: x in all <==> x in members || x == m;
    assert m in all;
  }

  /** A validated tree's entries are its manifested files, its manifest and its links. */
  lemma ValidRoster(codec: Codec, tree: Tree, record: Record)
    requires ValidTree(codec, tree) && Some(record) == RecordIn(codec, tree)
    ensures record.files.Keys + {ManifestPath()} + record.symlinks.Keys == tree.Entries()
    ensures record.symlinks == tree.links && ManifestPath() in tree.files
    ensures forall p :: p in tree.files ==> (p in record.executables.members <==> tree.files[p].executable)
  {
    hide RecordIn, ClaimsOk, ManifestIdentity, LinksStayInside, ManifestPath, ReadBack;
    assert Digests(codec, tree).Keys == tree.files.Keys - {ManifestPath()};
  }

  /** The payloads of the archive of a tree are the tree's files. */
  lemma PackagedFiles(codec: Codec, tree: Tree, record: Record, members: seq<Member>)
    requires ValidTree(codec, tree) && tree.Valid() && Some(record) == RecordIn(codec, tree)
    requires PackageOf(tree, record, members)
    ensures Published(members, record) == tree
  {
    hide ValidTree, RecordIn, ManifestPath, Payloads, MemberFor, Safe, Ancestor;
    ValidRoster(codec, tree, record);
    var payloads := Payloads(members, record, |members|);
    PayloadNames(members, record, |members|);
    assert forall p :: p in payloads ==> p in tree.files;
    forall p | p in tree.files
      ensures p in payloads && payloads[p] == tree.files[p].data
    {
      var i := MemberAt(tree, record, members, p);
      PayloadOf(members, record, |members|, i);
    }
    hide PackageOf;
    assert Published(members, record).files == tree.files;
  }

  lemma PackagedPayloads(codec: Codec, tree: Tree, record: Record, members: seq<Member>)
    requires ValidTree(codec, tree) && tree.Valid() && Some(record) == RecordIn(codec, tree)
    requires PackageOf(tree, record, members)
    ensures Published(members, record) == tree
    ensures PackagedRecord(codec, members) == Some(record)
  {
    hide ValidTree, RecordIn, ManifestPath, Payloads, MemberFor, Safe, Ancestor, Published, Find;
    PackagedFiles(codec, tree, record, members);
    ValidRoster(codec, tree, record);
    var i := MemberAt(tree, record, members, ManifestPath());
    FoundIsMember(members, i);
    RecordInIs(codec, tree);
  }

  lemma RecordInIs(codec: Codec, tree: Tree)
    requires ManifestPath() in tree.files
    ensures RecordIn(codec, tree) == codec.readRecord(tree.files[ManifestPath()].data)
  {
  }

  lemma MemberAt(tree: Tree, record: Record, members: seq<Member>, p: Path) returns (i: nat)
    requires PackageOf(tree, record, members) && p in tree.files && tree.Valid() && record.symlinks == tree.links
    ensures i < |members|
            && members[i] == Member(p, Regular, ModeFor(record, p), |tree.files[p].data|, "", tree.files[p].data)
    ensures p !in record.symlinks
  {
    assert p in Names(members);
    var m :| m in members && m.name == p;
    i :| 0 <= i < |members| && members[i] == m;
  }

  lemma {:induction false} FoundIsMember(members: seq<Member>, i: nat)
    requires i < |members| && DistinctNames(members)
    ensures Find(members, members[i].name) == Some(members[i])
  {
    if i != 0 {
      FoundIsMember(members[1..], i - 1);
    }
  }

  // ----- Claims depend on three payloads only

  lemma ClaimsNeedThreePayloads(codec: Codec, record: Record, some: map<Path, Bytes>, all: map<Path, Bytes>)
    requires ClaimsOk(codec, record, some)
    requires forall p :: p in some ==> p in all && all[p] == some[p]
    ensures ClaimsOk(codec, record, all)
  {
    hide PlacementsIn, ComponentIdentity, EmbeddedIdentity, PlacementRoster, OriginOk, ClaimedBy, RecordIdentity,
         SealsMatch, ComponentManifest, ManifestPath, StatePath;
    ComponentNeedsItsManifest(codec, record, some, all, Static);
    ComponentNeedsItsManifest(codec, record, some, all, Dynamic);
  }

  lemma ComponentNeedsItsManifest(codec: Codec, record: Record, some: map<Path, Bytes>, all: map<Path, Bytes>,
                                  product: Product)
    requires ComponentOk(codec, record, some, product)
    requires forall p :: p in some ==> p in all && all[p] == some[p]
    ensures ComponentOk(codec, record, all, product) && Embedded(codec, all, product) == Embedded(codec, some, product)
  {
    hide PlacementsIn, ComponentIdentity, EmbeddedIdentity, PlacementRoster, OriginOk, ComponentManifest,
         ManifestPath;
    assert ComponentManifest(product) in some by {
      if ComponentManifest(product) !in some {
        assert Embedded(codec, some, product) == None;
        NoIdentityWithoutManifest(record, product);
      }
    }
    var m := Embedded(codec, some, product);
    IdentifiedHasFiles(record, product, m);
    assert forall origin :: Expected(codec, all, product, m.value.files.value, origin)
                         == Expected(codec, some, product, m.value.files.value, origin);
  }

  lemma NoIdentityWithoutManifest(record: Record, product: Product)
    ensures !EmbeddedIdentity(record, product, None)
  {
  }

  // ----- The round trip

  lemma PackageIsOk(codec: Codec, tree: Tree, record: Record, members: seq<Member>)
    requires ValidTree(codec, tree) && tree.Valid() && Some(record) == RecordIn(codec, tree)
    requires PackageOf(tree, record, members)
    ensures PackageOk(codec, members) <==> WithinLimits(members)
  {
    hide WithinLimits, Safe, ClaimsOk, RecordIn, ReadBack, Payloads, PackagedRecord, ManifestPath, CombinedFormat,
         Target;
    PackagedPayloads(codec, tree, record, members);
    ValidRoster(codec, tree, record);
    forall i | 0 <= i < |members|
      ensures SafeName(members[i].name) && !members[i].kind.Special? && MemberOk(codec, record, members[i])
    {
      PackagedMemberIsOk(codec, tree, record, members[i]);
    }
    PackagedClaims(codec, tree, record, members);
  }

  lemma PackagedMemberIsOk(codec: Codec, tree: Tree, record: Record, m: Member)
    requires ValidTree(codec, tree) && tree.Valid() && Some(record) == RecordIn(codec, tree)
    requires m.name in tree.Entries() && m == MemberFor(tree, record, m.name)
    ensures SafeName(m.name) && !m.kind.Special? && MemberOk(codec, record, m)
  {
    hide Safe, ClaimsOk, RecordIn, ReadBack, ManifestPath, ManifestIdentity;
    ValidRoster(codec, tree, record);
    if m.name in tree.files && m.name != ManifestPath() {
      assert m.name in Digests(codec, tree);
    }
  }

  lemma PackagedClaims(codec: Codec, tree: Tree, record: Record, members: seq<Member>)
    requires ValidTree(codec, tree) && tree.Valid() && Some(record) == RecordIn(codec, tree)
    requires PackageOf(tree, record, members) && Published(members, record) == tree
    ensures ClaimsOk(codec, record, Payloads(members, record, |members|))
  {
    hide ClaimsOk, RecordIn, RosterOk, ManifestIdentity, PackageOf, Payloads, StateDestination;
    var some, all := ReadBack(tree, record), Payloads(members, record, |members|);
    forall p | p in some
      ensures p in all && all[p] == some[p]
    {
      assert p in tree.files && tree.files[p].data == some[p];
      assert p in Published(members, record).files && Published(members, record).files[p].data == all[p];
    }
    ClaimsNeedThreePayloads(codec, record, some, all);
  }

  /** Extracting the package of a validated tree succeeds exactly within the archive limits, and yields that tree. */
  lemma ExtractionInvertsPackaging(codec: Codec, tree: Tree, record: Record, members: seq<Member>)
    requires ValidTree(codec, tree) && tree.Valid() && Some(record) == RecordIn(codec, tree)
    requires PackageOf(tree, record, members)
    ensures Publishable(codec, members) <==> WithinLimits(members)
    ensures PackagedRecord(codec, members) == Some(record) && Published(members, record) == tree
  {
    hide ValidTree, PackageOk, WithinLimits, PackageOf, Published, PackagedRecord, RecordIn;
    PackageIsOk(codec, tree, record, members);
    PackagedPayloads(codec, tree, record, members);
  }

  // ----- Comparison

  /** Two builds compare equal exactly when both are valid and they are the same tree. */
  method Compare(codec: Codec, first: Tree, second: Tree) returns (ok: bool)
    ensures ok <==> ValidTree(codec, first) && ValidTree(codec, second) && first == second
  {
    hide ValidTree, ManifestPath;
    var a := Validate(codec, first);
    var b := Validate(codec, second);
    if a.Err? || b.Err? {
      return false;
    }
    ValidRoster(codec, first, a.value);
    ValidRoster(codec, second, b.value);
    if first.files[ManifestPath()].data != second.files[ManifestPath()].data {
      return false;
    }
    assert a.value == b.value;
    FilesOfRecord(codec, first, a.value);
    FilesOfRecord(codec, second, b.value);
    var left := a.value.files.Keys;
    while left != {}
      invariant left <= a.value.files.Keys
      invariant forall p :: p in a.value.files && p !in left ==> first.files[p].data == second.files[p].data
      decreases left
    {
      var p :| p in left;
      if first.files[p].data != second.files[p].data {
        return false;
      }
      left := left - {p};
    }
    forall p | p in first.files
      ensures first.files[p] == second.files[p]
    {
      assert p == ManifestPath() || p in a.value.files;
    }
    assert first.files == second.files;
    ok := true;
  }

  lemma FilesOfRecord(codec: Codec, tree: Tree, record: Record)
    requires ValidTree(codec, tree) && Some(record) == RecordIn(codec, tree)
    ensures record.files.Keys + {ManifestPath()} == tree.files.Keys
  {
    hide RecordIn, ClaimsOk, ManifestIdentity, LinksStayInside, ManifestPath, ReadBack;
    assert Digests(codec, tree).Keys == tree.files.Keys - {ManifestPath()};
  }
}
