/**
 * What a staged run does to a host, in entries, link chains and bytes: which
 * names are aliases, what the command finds, and what is removed, kept and
 * reported afterwards.
 */
module StagingMeaning {
  import opened Sequences
  import opened Wrappers
  import opened Staging

  /** Names that lead from link to link, without a repetition, to an entry that is no link. */
  ghost predicate Chain(entries: Entries, chain: seq<string>) {
    && 0 < |chain| && Distinct(chain)
    && (forall i :: 0 <= i < |chain| - 1 ==> chain[i] in entries && entries[chain[i]] == Link(chain[i + 1]))
    && chain[|chain| - 1] in entries && !entries[chain[|chain| - 1]].Link?
  }

  ghost predicate ChainTo(entries: Entries, name: string, end: string, chain: seq<string>) {
    Chain(entries, chain) && chain[0] == name && chain[|chain| - 1] == end
  }

  ghost predicate Leads(entries: Entries, name: string, end: string) {
    exists chain :: ChainTo(entries, name, end, chain)
  }

  ghost predicate LeadsToFile(entries: Entries, name: string, content: Bytes) {
    exists end :: Leads(entries, name, end) && end in entries && entries[end] == File(content)
  }

  // ----- Resolution is a chain of links

  lemma {:induction false} ChainOfResolve(entries: Entries, name: string, visited: set<string>)
    returns (chain: seq<string>)
    requires Resolve(entries, name, visited).Some?
    ensures ChainTo(entries, name, Resolve(entries, name, visited).value, chain)
    ensures forall n :: n in chain ==> n !in visited
    decreases entries.Keys - visited
  {
    chain := [name];
    if entries[name].Link? {
      var rest := ChainOfResolve(entries, entries[name].target, visited + {name});
      assert name !in rest;
      chain := [name] + rest;
      assert forall i :: 0 < i < |chain| ==> chain[i] == rest[i - 1];
    }
  }

  lemma {:induction false} ResolveOfChain(entries: Entries, name: string, end: string, chain: seq<string>,
                                          visited: set<string>)
    requires ChainTo(entries, name, end, chain) && forall n :: n in chain ==> n !in visited
    ensures Resolve(entries, name, visited) == Some(end)
    decreases |chain|
  {
    assert name in chain;
    if 1 < |chain| {
      var rest := chain[1..];
      assert forall i :: 0 <= i < |rest| ==> rest[i] == chain[i + 1];
      assert entries[chain[0]] == Link(chain[1]);
      forall n | n in rest
        ensures n !in visited + {name}
      {
        assert n in chain;
      }
      ResolveOfChain(entries, chain[1], end, rest, visited + {name});
    }
  }

  lemma ResolvesExactly(entries: Entries, name: string)
    ensures forall end :: Resolve(entries, name, {}) == Some(end) <==> Leads(entries, name, end)
  {
    if Resolve(entries, name, {}).Some? {
      var chain := ChainOfResolve(entries, name, {});
    }
    forall end | Leads(entries, name, end)
      ensures Resolve(entries, name, {}) == Some(end)
    {
      var chain :| ChainTo(entries, name, end, chain);
      ResolveOfChain(entries, name, end, chain, {});
    }
  }

  lemma FilesExactly(entries: Entries, name: string)
    ensures IsRegular(entries, name) <==> exists content :: LeadsToFile(entries, name, content)
    ensures forall content :: LoaderBytes(entries, name) == Some(content) <==> LeadsToFile(entries, name, content)
  {
    hide Leads, Resolve;
    ResolvesExactly(entries, name);
    if IsRegular(entries, name) {
      var end := Resolve(entries, name, {}).value;
      assert LeadsToFile(entries, name, entries[end].content);
    }
  }

  // ----- Before the command

  /** A link of the sysroot, other than libc itself, that leads where libc leads. */
  ghost predicate LinksToLibc(installed: Entries, n: string) {
    && n in installed && n != "libc.so" && installed[n].Link?
    && exists end :: Leads(installed, n, end) && Leads(installed, "libc.so", end)
  }

  /**
   * The aliases are the links to libc, and they can be listed when libc is a file, no link is broken
   * and there is one.
   */
  lemma AliasesExactly(installed: Entries)
    ensures Listable(installed) <==>
            && (exists content :: LeadsToFile(installed, "libc.so", content))
            && (forall n :: n in installed && n != "libc.so" && installed[n].Link? ==>
                exists end :: Leads(installed, n, end))
            && exists n :: LinksToLibc(installed, n)
    ensures Listable(installed) ==> forall n :: n in Aliases(installed) <==> LinksToLibc(installed, n)
  {
    hide Leads, Resolve, LeadsToFile, IsRegular;
    FilesExactly(installed, "libc.so");
    ResolvesExactly(installed, "libc.so");
    forall n
      ensures forall end :: Resolve(installed, n, {}) == Some(end) <==> Leads(installed, n, end)
    {
      ResolvesExactly(installed, n);
    }
    forall n
      ensures Resolve(installed, "libc.so", {}).Some? ==> (n in Aliases(installed) <==> LinksToLibc(installed, n))
    {
    }
    assert IsRegular(installed, "libc.so") ==> Resolve(installed, "libc.so", {}).Some? by {
      if content :| LeadsToFile(installed, "libc.so", content) {
        FileResolves(installed, "libc.so", content);
      }
    }
    if n :| LinksToLibc(installed, n) {
      assert Resolve(installed, "libc.so", {}).Some? ==> n in Aliases(installed);
    }
  }

  lemma FileResolves(entries: Entries, name: string, content: Bytes)
    requires LeadsToFile(entries, name, content)
    ensures Resolve(entries, name, {}).Some?
  {
    ResolvesExactly(entries, name);
  }

  /** The command finds one new link to libc for each alias, every other entry as it was, and the loader's bytes. */
  lemma EnteredExactly(before: Entries, canonical: Canonical, loader: string, isRoot: bool, names: set<string>)
    ensures Ready(before, canonical, loader, isRoot, names) <==>
            && (exists content :: LeadsToFile(before, loader, content))
               && (exists content :: LeadsToFile(before, "libc.so", content))
            && (forall n :: n in names ==> n !in before) && isRoot && canonical == Absent
    ensures Ready(before, canonical, loader, isRoot, names) ==>
            && var found := Entered(before, names, loader);
            && found.runtime.Keys == before.Keys + names
            && (forall n :: n in names ==> found.runtime[n] == Link("libc.so"))
            && (forall n :: n in before ==> found.runtime[n] == before[n])
            && found.canonical.Regular? && LeadsToFile(before, loader, found.canonical.content)
  {
    hide LeadsToFile, Resolve;
    FilesExactly(before, loader);
    FilesExactly(before, "libc.so");
    if Ready(before, canonical, loader, isRoot, names) {
      LoaderIsKept(before, names, loader);
    }
  }

  // ----- After the command

  /** The alias is still the link that was made, and leads to the libc it led to. */
  ghost predicate Unchanged(entries: Entries, alias: string, libc: string) {
    alias in entries && entries[alias] == Link("libc.so") && Leads(entries, alias, libc)
  }

  /** The bytes at the canonical path have the digest of what the loader's name now leads to. */
  ghost predicate SameLoader(after: Snapshot, loader: string, hash: Bytes -> string)
    requires after.canonical.Regular? || after.canonical.LinkTo?
  {
    exists content :: LeadsToFile(after.runtime, loader, content) && hash(after.canonical.content) == hash(content)
  }

  /** Something stands at the canonical path and is not the loader. */
  ghost predicate LoaderChanged(after: Snapshot, loader: string, hash: Bytes -> string) {
    after.canonical.Folder? || ((after.canonical.Regular? || after.canonical.LinkTo?)
                                && !SameLoader(after, loader, hash))
  }

  /** A loader that changed is kept and reported; one that did not is removed, and a dangling link goes unseen. */
  lemma ChangedLoaderIsKept(after: Snapshot, names: set<string>, libc: string, loader: string, hash: Bytes -> string)
    ensures LoaderChanged(after, loader, hash) ==>
            Left(after, names, libc, loader, hash).canonical == after.canonical
                && !Clean(after, names, libc, loader, hash)
    ensures !LoaderChanged(after, loader, hash) ==>
            Left(after, names, libc, loader, hash).canonical == if after.canonical.Dangling? then Dangling else Absent
  {
    hide LeadsToFile, Resolve;
    FilesExactly(after.runtime, loader);
  }

  /**
   * What is left, and when nothing is reported, whatever the command did: unchanged
   * aliases are removed, and every other entry stays as the command left it.
   */
  lemma LeftExactly(after: Snapshot, names: set<string>, libc: string, loader: string, hash: Bytes -> string)
    ensures var left := Left(after, names, libc, loader, hash).runtime;
            && (forall n :: n in left <==> n in after.runtime && !(n in names && Unchanged(after.runtime, n, libc)))
            && (forall n :: n in left ==> left[n] == after.runtime[n])
    ensures Clean(after, names, libc, loader, hash) <==>
            (forall n :: n in names ==> Unchanged(after.runtime, n, libc)) && !LoaderChanged(after, loader, hash)
  {
    hide LeadsToFile, Leads, Resolve;
    FilesExactly(after.runtime, loader);
    forall n
      ensures Intact(after.runtime, n, libc) <==> Unchanged(after.runtime, n, libc)
    {
      ResolvesExactly(after.runtime, n);
    }
  }
}
