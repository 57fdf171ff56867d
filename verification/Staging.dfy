/**
 * The owned test launcher: libc aliases beside the debug runtime and a copy of
 * the loader at its canonical path exist for the duration of one command, and
 * the directory is given back as it was found.
 */
module Staging {
  import opened Sequences
  import opened Wrappers
  import opened LittleEndian

  type Bytes = seq<byte>

  datatype Entry = File(content: Bytes) | Link(target: string) | Directory

  type Entries = map<string, Entry>

  /** What stands at the canonical loader path, links being followed. */
  datatype Canonical = Absent | Regular(content: Bytes) | LinkTo(content: Bytes) | Dangling | Folder

  datatype Snapshot = Snapshot(runtime: Entries, canonical: Canonical)

  const LIBC := "libc.so"

  // ----- Resolving names

  /** The entry a name stands for once links are followed; none for a missing name or a loop. */
  function Resolve(entries: Entries, name: string, visited: set<string>): Option<string>
    decreases entries.Keys - visited
  {
    if name !in entries || name in visited then None
    else match entries[name]
         case Link(target) => Resolve(entries, target, visited + {name})
         case _ => Some(name)
  }

  predicate IsRegular(entries: Entries, name: string) {
    var found := Resolve(entries, name, {});
    found.Some? && found.value in entries && entries[found.value].File?
  }

  /** Whether the alias is still the link that was staged, and still leads to the same libc. */
  predicate Intact(entries: Entries, alias: string, libc: string) {
    alias in entries && entries[alias] == Link(LIBC) && Resolve(entries, alias, {}) == Some(libc)
  }

  lemma {:induction false} ResolveWithMore(entries: Entries, more: Entries, name: string, visited: set<string>)
    requires forall n :: n in entries ==> n in more && more[n] == entries[n]
    requires Resolve(entries, name, visited).Some?
    ensures Resolve(more, name, visited) == Resolve(entries, name, visited)
    decreases entries.Keys - visited
  {
    if entries[name].Link? {
      ResolveWithMore(entries, more, entries[name].target, visited + {name});
    }
  }

  /** A resolution that succeeds never passes through a visited name. */
  lemma {:induction false} ResolveWithout(entries: Entries, gone: string, name: string, visited: set<string>)
    requires gone in visited && Resolve(entries, name, visited).Some?
    ensures Resolve(entries - {gone}, name, visited - {gone}) == Resolve(entries, name, visited)
    decreases entries.Keys - visited
  {
    assert name != gone;
    if entries[name].Link? {
      ResolveWithout(entries, gone, entries[name].target, visited + {name});
      assert visited + {name} - {gone} == visited - {gone} + {name};
    }
  }

  /** Once libc has been passed, a resolution that succeeds avoids every link back to it. */
  lemma {:induction false} ResolveAvoids(entries: Entries, alias: string, name: string, visited: set<string>)
    requires alias in entries && entries[alias] == Link(LIBC) && LIBC in visited
    requires Resolve(entries, name, visited).Some?
    ensures Resolve(entries, name, visited + {alias}) == Resolve(entries, name, visited)
    decreases entries.Keys - visited
  {
    assert name != alias;
    if entries[name].Link? {
      ResolveAvoids(entries, alias, entries[name].target, visited + {name});
      assert visited + {name} + {alias} == visited + {alias} + {name};
    }
  }

  /** Removing an intact alias leaves every other alias as intact as it was. */
  lemma RemovalKeepsOthers(entries: Entries, gone: string, alias: string, libc: string)
    requires Intact(entries, gone, libc) && gone != alias && gone != LIBC
    ensures Intact(entries - {gone}, alias, libc) <==> Intact(entries, alias, libc)
  {
    assert {} + {gone} == {gone} && {gone} - {gone} == {};
    ResolveWithout(entries, gone, LIBC, {gone});
    var rest := entries - {gone};
    assert Resolve(rest, LIBC, {}) == Some(libc);
    if Intact(entries, alias, libc) {
      AliasResolves(rest, alias, libc);
    }
    if Intact(rest, alias, libc) {
      ResolveWithMore(rest, entries, alias, {});
    }
  }

  /** A link to a libc that resolves resolves to the same. */
  lemma AliasResolves(entries: Entries, alias: string, libc: string)
    requires alias in entries && entries[alias] == Link(LIBC) && Resolve(entries, LIBC, {}) == Some(libc)
    ensures Resolve(entries, alias, {}) == Some(libc)
  {
    assert {} + {alias} == {alias} && {} + {LIBC} == {LIBC};
    if entries[LIBC].Link? {
      ResolveAvoids(entries, alias, entries[LIBC].target, {LIBC});
      assert {LIBC} + {alias} == {alias} + {LIBC};
    }
  }

  // ----- Specification of a run

  predicate IsAlias(installed: Entries, n: string) {
    n in installed && n != LIBC && installed[n].Link? && Resolve(installed, n, {}) == Resolve(installed, LIBC, {})
  }

  /** The installed links to the installed libc. */
  function Aliases(installed: Entries): set<string> { set n | n in installed && IsAlias(installed, n) }

  /** The aliases can be listed: libc is a file, every link leads somewhere, and some link leads to libc. */
  predicate Listable(installed: Entries) {
    && IsRegular(installed, LIBC) && Aliases(installed) != {}
    && forall n :: n in installed && n != LIBC && installed[n].Link? ==> Resolve(installed, n, {}).Some?
  }

  /** The directory with one more link to libc for each name. */
  function WithAliases(entries: Entries, names: set<string>): Entries {
    entries + map n | n in names :: Link(LIBC)
  }

  /** What unwinding leaves: every intact alias is gone, everything else stays. */
  function WithoutIntact(entries: Entries, names: set<string>, libc: string): Entries {
    entries - set n | n in names && Intact(entries, n, libc)
  }

  /** The loader's bytes, when its name still leads to a file. */
  function LoaderBytes(entries: Entries, loader: string): Option<Bytes> {
    var found := Resolve(entries, loader, {});
    if found.Some? && found.value in entries && entries[found.value].File? then Some(entries[found.value].content)
        else None
  }

  /** Leaving the loader's scope: an unchanged copy is removed, a changed one is kept and reported. */
  function LeaveLoader(canonical: Canonical, loader: Option<Bytes>, hash: Bytes -> string): (Canonical, bool) {
    match canonical
    case Absent => (Absent, true)
    case Dangling => (Dangling, true)
    case Folder => (Folder, false)
    case Regular(content) =>
      if loader.Some? && hash(content) == hash(loader.value) then (Absent, true) else (canonical, false)
    case LinkTo(content) =>
      if loader.Some? && hash(content) == hash(loader.value) then (Absent, true) else (canonical, false)
  }

  /** Everything staging needs: a regular loader and libc, new alias names, root, and a free canonical path. */
  predicate Ready(runtime: Entries, canonical: Canonical, loader: string, isRoot: bool, names: set<string>) {
    IsRegular(runtime, loader) && IsRegular(runtime, LIBC) && names !! runtime.Keys && isRoot && canonical.Absent?
  }

  /** What the command finds. */
  function Entered(runtime: Entries, names: set<string>, loader: string): Snapshot {
    Snapshot(WithAliases(runtime, names),
             if LoaderBytes(runtime, loader).Some? then Regular(LoaderBytes(runtime, loader).value) else Absent)
  }

  /** What is left after a command that leaves `after`. */
  function Left(after: Snapshot, names: set<string>, libc: string, loader: string, hash: Bytes -> string): Snapshot {
    Snapshot(WithoutIntact(after.runtime, names, libc),
             LeaveLoader(after.canonical, LoaderBytes(after.runtime, loader), hash).0)
  }

  /** Nothing is kept and reported. */
  predicate Clean(after: Snapshot, names: set<string>, libc: string, loader: string, hash: Bytes -> string) {
    && (forall n :: n in names ==> Intact(after.runtime, n, libc))
    && LeaveLoader(after.canonical, LoaderBytes(after.runtime, loader), hash).1
  }

  // ----- Listing, staging and unwinding

  /** Installed links that resolve to the installed libc; an unresolvable link or an empty list is an error. */
  method InstalledAliases(installed: Entries) returns (r: Result<seq<string>>)
    ensures r.Ok? <==> Listable(installed)
    ensures r.Ok? ==> Elements(r.value) == Aliases(installed) && Distinct(r.value)
  {
    hide Resolve, IsRegular;
    if !IsRegular(installed, LIBC) {
      return Err("installed libc must be a regular file");
    }
    var names: seq<string> := [];
    var left := installed.Keys;
    while left != {}
      invariant left <= installed.Keys
      invariant forall n :: n in installed && n !in left && n != LIBC && installed[n].Link? ==>
                Resolve(installed, n, {}).Some?
      invariant forall n :: n in names <==> n !in left && IsAlias(installed, n)
      invariant Distinct(names)
      decreases left
    {
      var n :| n in left;
      if n != LIBC && installed[n].Link? {
        if Resolve(installed, n, {}).None? {
          return Err("installed library alias is not resolvable");
        }
        if Resolve(installed, n, {}) == Resolve(installed, LIBC, {}) {
          assert n !in names;
          names := names + [n];
        }
      }
      left := left - {n};
    }
    assert Elements(names) == Aliases(installed);
    if names == [] {
      return Err("installed sysroot has no deliberate libc aliases");
    }
    assert names[0] in Elements(names);
    r := Ok(names);
  }

  lemma OneMoreAlias(entries: Entries, names: seq<string>, name: string)
    requires Elements(names) !! entries.Keys && Distinct(names) && name !in WithAliases(entries, Elements(names))
    ensures Elements(names + [name]) !! entries.Keys && Distinct(names + [name])
    ensures WithAliases(entries, Elements(names))[name := Link(LIBC)] == WithAliases(entries, Elements(names + [name]))
  {
    assert Elements(names + [name]) == Elements(names) + {name};
    assert forall i :: 0 <= i < |names| ==> names[i] in Elements(names);
    WithOneMore(entries, Elements(names), name);
    hide Elements, WithAliases;
    assert name !in Elements(names);
  }

  lemma WithOneMore(entries: Entries, names: set<string>, name: string)
    ensures WithAliases(entries, names)[name := Link(LIBC)] == WithAliases(entries, names + {name})
    ensures name !in WithAliases(entries, names) <==> name !in entries && name !in names
  {
  }

  lemma NoAliases(entries: Entries)
    ensures Elements<string>([]) == {} && WithAliases(entries, {}) == entries && Distinct<string>([])
  {
  }

  /** Freshly staged aliases are intact, so unwinding them restores the directory. */
  lemma StagedAreIntact(entries: Entries, names: set<string>, libc: string)
    requires names !! entries.Keys && Resolve(entries, LIBC, {}) == Some(libc)
    ensures LIBC !in names
    ensures forall n :: n in names ==> Intact(WithAliases(entries, names), n, libc)
    ensures WithoutIntact(WithAliases(entries, names), names, libc) == entries
  {
    var all := WithAliases(entries, names);
    assert LIBC !in names;
    ResolveWithMore(entries, all, LIBC, {});
    forall n | n in names
      ensures Intact(all, n, libc)
    {
      AliasResolves(all, n, libc);
    }
    hide Intact, Resolve;
    assert WithoutIntact(all, names, libc) == entries;
  }

  /** Staging ends early only at a name that was there before. */
  lemma NotFresh(entries: Entries, names: seq<string>, staged: seq<string>)
    requires staged <= names && Distinct(names)
    requires |staged| < |names| ==> names[|staged|] in WithAliases(entries, Elements(staged))
    ensures |staged| < |names| ==> !(Elements(names) !! entries.Keys)
  {
    if |staged| < |names| {
      var name := names[|staged|];
      assert name in Elements(names);
      assert name !in Elements(staged);
      assert name in entries;
    }
  }

  lemma LoaderIsKept(entries: Entries, names: set<string>, loader: string)
    requires names !! entries.Keys && IsRegular(entries, loader)
    ensures LoaderBytes(WithAliases(entries, names), loader) == LoaderBytes(entries, loader)
    ensures LoaderBytes(entries, loader).Some?
  {
    ResolveWithMore(entries, WithAliases(entries, names), loader, {});
  }

  datatype Outcome = Refused | Finished(status: int) | Retained

  class Host {
    var runtime: Entries
    var canonical: Canonical

    /** Stages aliases one by one; a name that exists already ends staging at that point. */
    method StageAliases(names: seq<string>) returns (staged: seq<string>)
      modifies this`runtime
      ensures staged <= names && Elements(staged) !! old(runtime).Keys && Distinct(staged)
      ensures runtime == WithAliases(old(runtime), Elements(staged))
      ensures |staged| < |names| ==> names[|staged|] in runtime
    {
      hide Distinct;
      staged := [];
      NoAliases(runtime);
      hide WithAliases, Elements;
      while |staged| < |names|
        invariant staged <= names && Elements(staged) !! old(runtime).Keys && Distinct(staged)
        invariant runtime == WithAliases(old(runtime), Elements(staged))
      {
        var name := names[|staged|];
        if name in runtime {
          return;
        }
        OneMoreAlias(old(runtime), staged, name);
        runtime := runtime[name := Link(LIBC)];
        staged := staged + [name];
      }
    }

    /** Unwinds staged aliases in reverse; one that is no longer intact is kept and reported. */
    method UnstageAliases(staged: seq<string>, libc: string) returns (unexpected: seq<string>)
      requires LIBC !in staged && Distinct(staged)
      modifies this`runtime
      ensures runtime == WithoutIntact(old(runtime), Elements(staged), libc)
      ensures forall n :: n in unexpected <==> n in staged && !Intact(old(runtime), n, libc)
    {
      hide Intact;
      unexpected := [];
      var k := |staged|;
      while 0 < k
        invariant 0 <= k <= |staged|
        invariant runtime == WithoutIntact(old(runtime), Elements(staged[k..]), libc)
        invariant forall i :: 0 <= i < k ==>
                  (Intact(runtime, staged[i], libc) <==> Intact(old(runtime), staged[i], libc))
        invariant forall n :: n in unexpected <==> n in staged[k..] && !Intact(old(runtime), n, libc)
      {
        k := k - 1;
        var alias := staged[k];
        assert staged[k..] == [alias] + staged[k + 1..];
        if Intact(runtime, alias, libc) {
          forall i | 0 <= i < k
            ensures Intact(runtime - {alias}, staged[i], libc) <==> Intact(old(runtime), staged[i], libc)
          {
            assert staged[i] != alias && alias in staged;
            RemovalKeepsOthers(runtime, alias, staged[i], libc);
          }
          runtime := runtime - {alias};
        } else {
          unexpected := unexpected + [alias];
        }
      }
      assert staged[0..] == staged;
    }

    /**
     * One command inside both scopes: refused without a trace exactly when the
     * aliases cannot be listed or staged, and else run and unwound as specified.
     */
    method Run(installed: Entries, loader: string, isRoot: bool, hash: Bytes -> string,
               command: Snapshot -> (Snapshot, int))
      returns (outcome: Outcome)
      modifies this
      ensures !outcome.Refused? <==>
                Listable(installed) && Ready(old(runtime), old(canonical), loader, isRoot, Aliases(installed))
      ensures outcome.Refused? ==> runtime == old(runtime) && canonical == old(canonical)
      ensures !outcome.Refused? ==>
                var libc, names := Resolve(old(runtime), LIBC, {}).value, Aliases(installed);
                var after := command(Entered(old(runtime), names, loader));
                && Snapshot(runtime, canonical) == Left(after.0, names, libc, loader, hash)
                && outcome == if Clean(after.0, names, libc, loader, hash) then Finished(after.1) else Retained
    {
      hide WithAliases, WithoutIntact, Intact, Resolve, Listable, Aliases;
      if !IsRegular(runtime, loader) || !IsRegular(runtime, LIBC) {
        return Refused;
      }
      var libc := Resolve(runtime, LIBC, {}).value;
      var aliases := InstalledAliases(installed);
      if aliases.Err? {
        return Refused;
      }
      var before := runtime;
      var staged := StageAliases(aliases.value);
      StagedAreIntact(before, Elements(staged), libc);
      if |staged| < |aliases.value| || !isRoot || !canonical.Absent? {
        NotFresh(before, aliases.value, staged);
        var unexpected := UnstageAliases(staged, libc);
        return Refused;
      }
      assert staged == aliases.value;
      LoaderIsKept(before, Elements(staged), loader);
      canonical := Regular(LoaderBytes(runtime, loader).value);
      var result := command(Snapshot(runtime, canonical));
      runtime, canonical := result.0.runtime, result.0.canonical;
      var leaving := LeaveLoader(canonical, LoaderBytes(runtime, loader), hash);
      canonical := leaving.0;
      var unexpected := UnstageAliases(staged, libc);
      assert unexpected == [] <==> forall n :: n in Elements(staged) ==> Intact(result.0.runtime, n, libc) by {
        assert unexpected != [] ==> unexpected[0] in unexpected;
      }
      outcome := if unexpected == [] && leaving.1 then Finished(result.1) else Retained;
    }
  }

  // ----- What staging promises

  /** A command that leaves the staged entries alone leaves behind exactly its own changes. */
  lemma StagingIsTransactional(before: Entries, names: set<string>, loader: string, hash: Bytes -> string,
                               after: Snapshot)
    requires Ready(before, Absent, loader, true, names)
    requires after.canonical == Entered(before, names, loader).canonical
    requires LoaderBytes(after.runtime, loader) == LoaderBytes(before, loader)
    requires Resolve(after.runtime, LIBC, {}) == Resolve(before, LIBC, {})
    requires forall n :: n in names ==> n in after.runtime && after.runtime[n] == Link(LIBC)
    ensures var libc := Resolve(before, LIBC, {}).value;
            && Clean(after, names, libc, loader, hash)
            && Left(after, names, libc, loader, hash) == Snapshot(after.runtime - names, Absent)
            && (after == Entered(before, names, loader) ==>
                Left(after, names, libc, loader, hash) == Snapshot(before, Absent))
  {
    var libc := Resolve(before, LIBC, {}).value;
    LoaderIsKept(before, names, loader);
    forall n | n in names
      ensures Intact(after.runtime, n, libc)
    {
      AliasResolves(after.runtime, n, libc);
    }
    StagedAreIntact(before, names, libc);
    hide Intact, Resolve;
    assert WithoutIntact(after.runtime, names, libc) == after.runtime - names;
  }

  /** A tampered alias is kept and reported; every other alias is still removed. */
  lemma TamperedAliasIsKept(names: set<string>, libc: string, loader: string, hash: Bytes -> string, after: Snapshot,
                            n: string)
    requires n in names && !Intact(after.runtime, n, libc)
    ensures !Clean(after, names, libc, loader, hash)
    ensures n in after.runtime ==> var left := Left(after, names, libc, loader, hash).runtime;
                                   n in left && left[n] == after.runtime[n]
    ensures forall m :: m in names && Intact(after.runtime, m, libc) ==>
            m !in Left(after, names, libc, loader, hash).runtime
  {
  }

  /**
   * A clean exit leaves the canonical path free, except that a command which
   * replaced the loader by a dangling link goes unnoticed.
   */
  lemma CleanExitFreesCanonicalPath(names: set<string>, libc: string, loader: string, hash: Bytes -> string,
                                    after: Snapshot)
    requires Clean(after, names, libc, loader, hash)
    ensures Left(after, names, libc, loader, hash).canonical.Absent? <==> !after.canonical.Dangling?
    ensures Left(after, names, libc, loader, hash).runtime == after.runtime - names
  {
    hide Intact, LoaderBytes;
    assert WithoutIntact(after.runtime, names, libc) == after.runtime - names;
  }

  const DEBUG_RUNTIME: Entries := map["libc.so" := File([1]), "ld.so" := File([2])]
  const SYSROOT: Entries := map["libc.so" := File([1]), "libm.so" := Link("libc.so")]

  /**
   * A host, an installed sysroot and a command whose dangling link at the canonical path a clean exit
   * leaves behind.
   */
  lemma DanglingLoaderIsLeft(hash: Bytes -> string)
    ensures Listable(SYSROOT) && Ready(DEBUG_RUNTIME, Absent, "ld.so", true, Aliases(SYSROOT))
    ensures var names := Aliases(SYSROOT);
            var after := Entered(DEBUG_RUNTIME, names, "ld.so").(canonical := Dangling);
            && Clean(after, names, LIBC, "ld.so", hash)
            && Left(after, names, LIBC, "ld.so", hash) == Snapshot(DEBUG_RUNTIME, Dangling)
  {
    assert Resolve(SYSROOT, LIBC, {}) == Some(LIBC);
    assert SYSROOT["libm.so"] == Link(LIBC);
    AliasResolves(SYSROOT, "libm.so", LIBC);
    assert IsAlias(SYSROOT, "libm.so");
    assert Aliases(SYSROOT) == {"libm.so"};
    StagedAreIntact(DEBUG_RUNTIME, {"libm.so"}, LIBC);
  }
}
