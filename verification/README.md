# crabc: a verified model of its build and evidence core

crabc is a libc with its own start objects, builtins, unwinder and loader. Its
scripts split musl's combined assembly into objects, read ELF files, compose two
product trees into one installed sysroot, stage a test host and guard the
exported symbols. This project models the logic of those parts in Dafny and
proves what their documentation and tests rely on.

| files | what they model |
|---|---|
| `AssemblyText`, `AssemblyPartition`, `AssemblyLink`, `AssemblySemantics`, `AssemblyEquivalence`, `AssemblyReading`, `AssemblyLimits` | the partition of one combined musl translation into source objects (`libc/build.rs`), and what an assembler and a linker make of both forms |
| `GotLabels`, `GotSoundness`, `GotAcceptance` | the check that drops `_Unwind_*$got` labels (`unwinder/cleanup.py`), against a model of dynamic relocation |
| `LittleEndian`, `ElfObject`, `ElfMeaning`, `ElfWriter`, `ElfRoundTrip` | the two ELF object readers (`crt/build_x86_64.py`, `crt/build.py`), the file format they read and a reference writer |
| `Paths`, `SysrootModel`, `SysrootSeals`, `SysrootPlan`, `SysrootValidate`, `SysrootCompose`, `SysrootPackage`, `SysrootMeaning`, `SysrootComposition` | planning, composing, validating, packaging, extracting and comparing the combined sysroot |
| `Staging`, `StagingMeaning` | aliases and loader staged around one test command (`scripts/run_owned_test_suite.py`) |
| `SymbolReport`, `Ratchet` | the symbol report and the compatibility ratchet |
| `CpuSet` | the CPU-set macros of `sched.h` |
| `LinkArguments`, `LinkMeaning` | the linker-argument translation of the cleanup fixture |
| `HashInputs` | the byte streams behind two source-tree digests |
| `NamesPath` | paths padded to an exact length |

`Wrappers` and `Sequences` hold what the others share. The modules named
`...Meaning`, `...Semantics`, `...Reading`, `...Seals`, `...Acceptance` and
`...Composition` say once more what the operations decide, in directives,
characters, bytes, fields, paths and file-system entries, and prove that it is
the same.

Loops that update variables, arrays or file systems are methods (`Host` and
`Root` are classes), each proved against a specification; expressions are
functions. Raised errors are the `Err` case of a `Result`, or `None`. A library
hash, JSON, the file system's bytes and the commands that are run appear as
parameters.

## What is proved, in short

- **The partition links alike.** For whatever the header and the chunks declare,
  `Split.LinkingIsExact` and `Split.ExportsAreRouted` say exactly, read off the
  routed lines, when the objects link to the definitions of the combined file
  and export the same. For a header that declares nothing and declarations that
  name no private copy the conditions are short: whatever an object mentions is
  bindable at home and not declared local where it is mentioned
  (`Split.LinkingIsPreserved`); for the mentions that routing leaves alone only
  exported symbols can fail, since the others are promoted
  (`Split.UnroutedLinkingIsPreserved`); no proper symbol is newly exported, and
  the exports are the same if and only if `KeepsExports` holds. `AssemblyLimits`
  gives a text, with its source markers and the partitioner's own routing, for
  each way in which these conditions fail.
- **An accepted GOT label is sound in every run of the dynamic linker**, for any
  load base, order of rows and contents of the other rows, if and only if no
  relocation wider than a word reaches the slot from outside the window that the
  check looks at (`AcceptanceIsExact`); `WideRowIsOverlooked` is an image, a load
  and a run where one does.
  So every unwind name of an admitted binary is a provider's or leads to one
  (`AdmittedNamesAreOwned`).
- **Reading inverts writing** for every well-formed ELF object, and the two-pass
  reader accepts exactly the one-pass reader's files whose relocations resolve.
- **Composition meets validation**: which products can be planned and composed is
  stated in their fields and paths (`ComposesExactly`); the composed tree is valid if and only if
  the product manifests are truthful, links name files beside them and the
  state file that is installed carries the manifests' seals;
  extraction inverts packaging if and only if the archive limits are kept; and
  whatever `extract` publishes is exactly what the archive records.
- **Staging is transactional** for every alias list and every command that leaves
  the staged entries alone; for any other command, tampered aliases are kept and
  reported, and a clean exit frees the canonical loader path unless the command
  left a dangling link there (`CleanExitFreesCanonicalPath`,
  `DanglingLoaderIsLeft`).
- **What is accepted is stated from the input, in both directions.** Which labels
  are dropped (`GotAcceptance.UnwindSymbols`), which files are ELF objects and
  what they say (`TwoPassExactly`, `OnePassExactly`), which products form one
  build (`SealsMatchExactly`), can be planned (`PlannableExactly`) and composed
  (`ComposesExactly`), which trees and archives are combined sysroots
  (`ValidTreeExactly`, `PackageExactly`) and can be extracted
  (`PublishableExactly`), what a command finds and what is kept
  after it (`EnteredExactly`, `LeftExactly`), and which linker arguments are
  refused, replaced or passed (`RolesExactly`) are if-and-only-if theorems over
  facts a reader can check in the input.
- **The ratchet is monotone over every history** of passing check-then-snapshot
  steps.

## Model

| member | source | states |
|---|---|---|
| `AssemblyText.FindPublic` | libc/build.rs:154-160 | the public function a private copy stands for, or none when no listed name fits |
| `AssemblyText.PublicIsUnique` | libc/build.rs:136-160 | whatever the order of the list, the search finds the only name that fits |
| `AssemblyText.FlushWords` | libc/build.rs:151-173 | the character loop with its token buffer computes the word-by-word rewrite |
| `AssemblyText.RoutePublic` | libc/build.rs:143-174 | labels and protected directives are returned unchanged, every other line is rewritten word by word |
| `AssemblyText.RewriteIsHomomorphic` | libc/build.rs:151-173 | the words of the result are the words of the line mapped one by one, and the separators between them are the same |
| `AssemblyText.RoutingPublicTwice` | libc/build.rs:143-174 | routing a routed line again changes nothing, with the guard for protected lines and the partitioner's own names |
| `AssemblyText.TokensOfRouted` | libc/build.rs:143-174 | a routed line mentions exactly the symbols of the line, each on its own mapped, and those of a protected line unchanged |
| `AssemblyText.RewriteDirective` | libc/build.rs:68-78 | rewriting a directive line rewrites the symbol it names and keeps the directive |
| `AssemblyPartition.FindMarkers` | libc/build.rs:95-97 | lists every marker at the start of a line, in order, although the search skips each occurrence |
| `AssemblyPartition.CutAtMarkers` | libc/build.rs:101-111 | header and pieces together are the text, the header holds no marker, each piece holds one, at its start, and each cut is at a line start |
| `AssemblyPartition.CutIsUnique` | libc/build.rs:95-111 | a text has only one such cut |
| `AssemblyPartition.NotesAreRemoved` | libc/build.rs:102-106 | deleting the stack note deletes it from the end of every line that ends in it, joining the next line, and touches no other line |
| `AssemblyPartition.NoteLinesAreRemoved` | libc/build.rs:102-106 | so exactly the lines that are the note go if and only if no line ends in it after something else |
| `AssemblyPartition.LinesMentionTheSameTokens` | libc/build.rs:62-67 | reading a body line by line mentions the same symbols as reading it whole |
| `AssemblyPartition.InsertNames` | libc/build.rs:124-128 | definitions are recorded for the chunk unless another chunk recorded one of them |
| `AssemblyPartition.CollectSymbols` | libc/build.rs:112-130 | each defined name has its one chunk and exported names are all declared ones; fails if and only if two chunks define one name |
| `AssemblyPartition.CollectShared` | libc/build.rs:179-187 | the shared symbols are exactly the unexported ones defined here and mentioned in another chunk |
| `AssemblyPartition.EmitObject` | libc/build.rs:188-201 | the object is header, routed lines without the `.local` of shared symbols, one hidden global for each shared symbol in the order of their names, and the trailer |
| `AssemblyPartition.SplitObjects` | libc/build.rs:112-209 | one object for each chunk as specified, or failure exactly on a double definition |
| `AssemblyPartition.PartitionText` | libc/build.rs:91-211 | from the text of one translation, by its one cut, to the objects of its pieces, shared symbols in order, or failure exactly on a double definition |
| `AssemblyLink.RoutedLabel` | libc/build.rs:120-122 | routing keeps the label of a line, and makes none |
| `AssemblyLink.ObjectFacts` | libc/build.rs:188-201 | what an object defines and declares, for any header and lines: the header's own, the routed lines', and a hidden global for each shared symbol in the place of its `.local` |
| `AssemblyLink.ObjectTokens` | libc/build.rs:188-201 | what an object mentions before its stack note: the header, the routed lines it keeps, and its promotions |
| `AssemblyLink.RoutedSetDefinesPublicName` | libc/build.rs:143-150 | a `.set` of a private copy makes the object define the public function instead |
| `AssemblySemantics.DirectivesAreRead` | libc/build.rs:112-130 | the partitioner's lists of directives read a file as the assembler does: global or weak, local, hidden, common and defined symbols |
| `AssemblySemantics.CollectedSymbols` | libc/build.rs:112-130 | the exported names are exactly those of a `.globl`, `.global` or `.weak` line, the defined ones those of a label or a `.set`, `.equ`, `.comm` or `.lcomm` line, each with its one chunk |
| `AssemblySemantics.DefinedTwiceExactly` | libc/build.rs:124-128 | the partitioner gives up exactly when two chunks hold a label or a defining directive of one name |
| `AssemblyReading.TokensAreRuns` | libc/build.rs:61-67 | a text mentions exactly its longest runs of symbol characters, but for `.L` labels |
| `AssemblyReading.DirectiveIsRead` | libc/build.rs:68-78 | a line names a symbol by a directive exactly when it is white space, the directive, a blank or tab and more white space, and the name up to a comma or white space |
| `AssemblyReading.LabelIsRead` | libc/build.rs:120-122 | a line is a label exactly when it is a symbol, not one of `.L`, and a colon |
| `AssemblyReading.ChunkIsRead` | libc/build.rs:102-116 | a piece, with or without a break after its last line, is read as its lines without its stack notes, each line without a carriage return before its break, when each note stands on its own line |
| `AssemblyReading.PieceIsRead` | libc/build.rs:102-116 | any piece, whatever stands before its stack notes: each note goes with its line break, so that its line goes on in the next, and nothing else goes |
| `AssemblyReading.EveryPieceHasLines` | libc/build.rs:116-116 | every text is such lines and a last one, so the two statements above are about all pieces |
| `AssemblyReading.IndentedNoteIsRead` | libc/build.rs:102-106 | a piece that ends in an indented stack note keeps its other lines, and the indentation as its last line |
| `AssemblyReading.RoutedWord` | libc/build.rs:136-162 | a word is routed to `n` exactly when it is `crabc_x86_`, anything, `_elementary_` or `_provider_`, and a public `n` |
| `AssemblyReading.GuardedLine` | libc/build.rs:143-150 | routing leaves alone exactly the lines that open with one of six directives or end in a colon |
| `AssemblyReading.ObjectIsWritten` | libc/build.rs:179-201 | each object line by line; it promotes exactly the symbols it defines, no chunk declares global or weak, and another chunk mentions |
| `AssemblyReading.ObjectsAreDetermined` | libc/build.rs:91-211 | a text determines every line of every object |
| `AssemblyReading.PublicFunctions` | libc/build.rs:136-142 | the public functions are the forty-seven that musl's sources call |
| `AssemblyEquivalence.Split.ObjectSays` | libc/build.rs:178-201 | what each object defines and declares, read off the header and the routed lines of its chunk |
| `AssemblyEquivalence.Split.ObjectIs` | libc/build.rs:178-201 | when routing leaves declarations alone, the object defines the chunk's symbols and declares exactly the shared ones in addition |
| `AssemblyEquivalence.Split.ObjectMentions` | libc/build.rs:178-201 | what an object mentions, in terms of its chunk and its shared symbols |
| `AssemblyEquivalence.Split.CombinedProviders` | libc/build.rs:50-54 | in the combined file a mention reaches a definition exactly when the header or a chunk holds one |
| `AssemblyEquivalence.Split.ProvidersAreReached` | libc/build.rs:178-201 | which objects a mention of any name reaches, read off the routed lines, for any header and chunks |
| `AssemblyEquivalence.Split.LinkingIsExact` | libc/build.rs:50-54 | for any header and chunks, all mentions of all objects reach the definitions of the combined file if and only if the routed lines let them |
| `AssemblyEquivalence.Split.Resolution` | libc/build.rs:50-54 | when routing leaves declarations alone, which object a mention of any name reaches from any object |
| `AssemblyEquivalence.Split.LinkingIsPreserved` | libc/build.rs:50-54 | all mentions of all objects reach the definitions of the combined file if and only if each is bindable at home and not declared local where it is mentioned |
| `AssemblyEquivalence.Split.UnroutedLinkingIsPreserved` | libc/build.rs:50-54 | the translation's own mentions that routing leaves alone do so if and only if the exported ones are bindable at home and none is declared local where it is mentioned |
| `AssemblyEquivalence.Split.CombinedExports` | libc/build.rs:50-54 | when the combined file exports a symbol by default, for any header and chunks |
| `AssemblyEquivalence.Split.ObjectsExport` | libc/build.rs:178-201 | when the objects export a symbol by default, read off the routed lines, for any header and chunks |
| `AssemblyEquivalence.Split.ExportsAreRouted` | libc/build.rs:50-54 | for any header and chunks, the default exports are the same if and only if these two conditions agree on every name |
| `AssemblyEquivalence.Split.PartitionExports` | libc/build.rs:50-54 | when routing leaves declarations alone, when the objects export a symbol by default, in terms of its home chunk |
| `AssemblyEquivalence.Split.ExportsNothingNew` | libc/build.rs:50-54 | a default export of the partition is one of the combined file, unless it is unexported and a chunk declares it local; for a proper symbol always |
| `AssemblyEquivalence.Split.ExportsAreExact` | libc/build.rs:50-54 | the default exports are the same if and only if exported symbols are bindable at home and an unexported common symbol is mentioned elsewhere exactly when it is declared local |
| `AssemblyEquivalence.Split.ObjectsAreCoherent` | libc/build.rs:189-200 | no object declares a symbol both local and global when the combined file does not |
| `AssemblyEquivalence.PartitionIsSplit` | libc/build.rs:136-174 | objects written with the partitioner's own routing are a split that the theorems are about |
| `AssemblyEquivalence.SplitTranslation` | libc/build.rs:60-211 | one musl translation, with the source's marker, note and public names, yields such a split of its one cut, shared symbols in order, or fails exactly on a double definition |
| `AssemblyLimits.TranslationIsCut` | libc/build.rs:95-111 | the text of two marked sources is cut into exactly these, with their lines as bodies |
| `AssemblyLimits.DeclaredElsewhereIsLost` | libc/build.rs:117-119 | a text in which a symbol is declared global only in another source: neither linked nor exported alike |
| `AssemblyLimits.PromotedCommonIsHidden` | libc/build.rs:183-200 | a text in which a common symbol that another source calls loses its default export |
| `AssemblyLimits.RoutedCallIsLost` | libc/build.rs:153-162 | for a public function such as `sin`, whose name is no word of the marker lines, a text whose routed call of it reaches no object: promotion looks at the names before routing |
| `AssemblyLimits.LocalMentionIsLost` | libc/build.rs:189-197 | a text in which a source that declares another's symbol local loses its link to it |
| `AssemblyLimits.UnseenLocalIsExported` | libc/build.rs:61-67 | a text in which a common name outside the symbol characters, declared local by another source, is a new export |
| `GotLabels.ReadRows` | unwinder/cleanup.py:65-73 | the relocation rows of all allocated RELA sections, or an error exactly when one is malformed |
| `GotAcceptance.LabelNames` | unwinder/cleanup.py:61-61 | a label is a provider's name and `$got` |
| `GotAcceptance.RowIsRead` | unwinder/cleanup.py:72-73 | a row is three words of the file, the last one signed |
| `GotAcceptance.RowsAreReadable` | unwinder/cleanup.py:68-71 | the rows can be read exactly when every allocated section of kind 4 holds whole 24-byte entries inside the file |
| `GotAcceptance.RowsExactly` | unwinder/cleanup.py:67-73 | the rows are those of the allocated sections of kind 4 in turn, each at its place in the file |
| `GotAcceptance.AcceptsPairExactly` | unwinder/cleanup.py:80-105 | a label and its function are accepted exactly in three cases: an executable without a row near the slot that holds the function, a position-independent image whose only row there rebases it, or one whose only row there imports the function's own definition |
| `GotAcceptance.AcceptsExactly` | unwinder/cleanup.py:66-106 | a name is dropped exactly when the image has no other relocation format and the name and its function are each one defined symbol that is so accepted |
| `GotAcceptance.AcceptsFailsExactly` | unwinder/cleanup.py:75-94 | the check fails on a name exactly when a symbol is defined twice, or the slot's bytes or the imported symbol it reads are not in the file |
| `GotAcceptance.UnwindSymbols` | unwinder/cleanup.py:58-107 | a name is dropped exactly when it is a provider's name and `$got`, the image has no other relocation format, and label and function are each one defined symbol, accepted over the image's rows; it fails exactly when there is a label and the rows, a symbol, a slot or an import cannot be read |
| `GotAcceptance.AdmitBinary` | unwinder/cleanup.py:110-116 | a binary is admitted exactly when its facts can be read, every unwind name that is not so dropped is a provider's, and the three executed ones are there |
| `GotAcceptance.AdmittedNamesAreOwned` | unwinder/cleanup.py:58-116 | every unwind name of an admitted binary is a provider's, or labels a slot that in every run of word-sized relocations holds the address of the provider it is named after |
| `GotSoundness.WordsOutsideTheWindowMiss` | unwinder/cleanup.py:83-83 | a write of at most eight bytes outside the window of fifteen offsets misses the slot |
| `GotSoundness.AcceptedSlotIsSound` | unwinder/cleanup.py:83-106 | in every run the slot of an accepted label holds the run-time address of its function |
| `GotSoundness.AcceptanceIsExact` | unwinder/cleanup.py:83-106 | it does so in all runs, each applying every row once, if and only if no wider relocation reaches the slot unseen |
| `GotSoundness.DroppedNamesAreSlots` | unwinder/cleanup.py:74-106 | every dropped name labels a slot that holds the address of the function it is named after |
| `GotSoundness.WideRowIsOverlooked` | unwinder/cleanup.py:83-86 | a concrete image, with the row in its own RELA section, whose label is accepted, and a load and a run in which a two-word relocation overwrites the slot |
| `ElfObject.CString` | crt/build_x86_64.py:424-430 | the bytes up to the first NUL, or an error exactly when there is none |
| `ElfObject.ReadSections` | crt/build_x86_64.py:435-468 | the named sections, or an error exactly when header, table or names are malformed |
| `ElfObject.ReadAllSymbols` | crt/build_x86_64.py:470-495 | all symbols and each table's own |
| `ElfObject.ReadResolved` | crt/build_x86_64.py:497-521 | each relocation with the symbol its index names, or an error exactly when one does not resolve |
| `ElfObject.ParseTwoPass` | crt/build_x86_64.py:433-522 | accepts exactly the well-formed files and returns their sections, symbols and resolved relocations |
| `ElfObject.ParseOnePass` | crt/build.py:294-370 | the same for the reader without symbol resolution |
| `ElfObject.TwoPassRefinesOnePass` | crt/build_x86_64.py:470-522 | accepts exactly what the one-pass reader accepts and whose relocations resolve, with equal sections and symbols, and equal relocations once symbols are dropped |
| `ElfObject.AcceptedReadsLieInside` | crt/build_x86_64.py:449-522 | in every accepted file each header, name, symbol entry and relocation entry lies inside the file |
| `ElfMeaning.SectionsExactly` | crt/build_x86_64.py:433-468 | header, section table and names are accepted exactly when the bytes at their places say so, machine and type included, and the sections are what those bytes say |
| `ElfMeaning.TwoPassExactly` | crt/build_x86_64.py:433-522 | the x86-64 reader accepts a file and reports an object exactly when the file says that object, number by number |
| `ElfMeaning.OnePassExactly` | crt/build.py:294-370 | so does the AArch64 reader, for relocations without their symbols |
| `ElfRoundTrip.ReadingInvertsWriting` | crt/build_x86_64.py:433-522 | reading what the reference writer laid out returns exactly the sections, symbols and relocations written |
| `ElfRoundTrip.OnePassInvertsWriting` | crt/build.py:294-370 | so does the one-pass reader, up to the relocations' symbols |
| `Paths.SafeExactly` | scripts/build_x86_64_owned_combined_sysroot.py:425-428 | a safe member path is split at its slashes into names, none empty, `.` or `..`, so it is relative and normalised |
| `Paths.SiblingExactly` | scripts/build_x86_64_owned_combined_sysroot.py:378-380 | a link's target is the file of that name beside the link |
| `SysrootSeals.SealsMatchExactly` | scripts/build_x86_64_owned_combined_sysroot.py:122-172 | the seal check accepts exactly two manifests and a state with one profile, one source of 64 hexadecimal digits and one configuration after defaults, for debug and other builds |
| `SysrootPlan.PlacePath` | scripts/build_x86_64_owned_combined_sysroot.py:211-224 | one path's sources and placements by its rule, or failure exactly when a destination is taken |
| `SysrootPlan.PlaceAll` | scripts/build_x86_64_owned_combined_sysroot.py:200-226 | destinations and placements of all paths; fails exactly on a path without rule or a destination claimed twice |
| `SysrootPlan.AddLinks` | scripts/build_x86_64_owned_combined_sysroot.py:228-232 | links are merged unless two differ or one meets a file |
| `SysrootPlan.NothingBelow` | scripts/build_x86_64_owned_combined_sysroot.py:233-236 | no destination lies below another destination or a link |
| `SysrootPlan.Plan` | scripts/build_x86_64_owned_combined_sysroot.py:185-245 | a plan is returned exactly when one exists, and it is the one described |
| `SysrootPlan.EveryFileIsAccountedFor` | scripts/build_x86_64_owned_combined_sysroot.py:200-226 | each product's placements cover exactly its files, and only the static `Scrt1.o` may be left out |
| `SysrootPlan.PlacedFilesAreTheirOwn` | scripts/build_x86_64_owned_combined_sysroot.py:210-224 | what stands at a placed path has the digest and mode of every file placed there |
| `SysrootPlan.ManifestPlaceIsFree` | scripts/build_x86_64_owned_combined_sysroot.py:204-236 | the combined manifest's path is no destination and no link, and nothing lies above or below it |
| `SysrootMeaning.ConflictExactly` | scripts/build_x86_64_owned_combined_sysroot.py:211-226 | a path has no rule exactly when the products differ in it and it is neither metadata that may move nor `usr/lib/Scrt1.o` |
| `SysrootMeaning.PlannableExactly` | scripts/build_x86_64_owned_combined_sysroot.py:185-245 | a plan exists exactly for two products of one build, field by field, that differ in nothing else, whose links agree, whose files of different paths have different destinations, and where no destination is a link or lies below a destination or a link |
| `SysrootMeaning.PlacedWhere` | scripts/build_x86_64_owned_combined_sysroot.py:210-224 | a plan places each file of each product at the destination that its path and the products' difference give it |
| `SysrootValidate.ClaimOrigins` | scripts/build_x86_64_owned_combined_sysroot.py:343-353 | claims grow by exactly the placed files, each with its recorded digest, or fail |
| `SysrootValidate.ClaimComponent` | scripts/build_x86_64_owned_combined_sysroot.py:304-353 | fails exactly when the component is not what its record says |
| `SysrootValidate.ValidateClaims` | scripts/build_x86_64_owned_combined_sysroot.py:289-357 | accepts exactly when both components are in order, the seals match and every file is claimed |
| `SysrootValidate.Validate` | scripts/build_x86_64_owned_combined_sysroot.py:360-387 | accepts exactly the valid trees and returns the embedded record |
| `SysrootMeaning.ClaimsExactly` | scripts/build_x86_64_owned_combined_sysroot.py:289-357 | the claims hold exactly when there are two manifests and a state of one build that list and place what the record says, field by field |
| `SysrootMeaning.ValidTreeExactly` | scripts/build_x86_64_owned_combined_sysroot.py:360-387 | validation accepts exactly the trees whose record lists the digest of every file, the executable ones and the links, and whose installed bytes bear the claims out |
| `SysrootMeaning.InstalledBytesAreListed` | scripts/build_x86_64_owned_combined_sysroot.py:343-353 | the bytes at each placed path have the digest that the component's own manifest lists for them |
| `SysrootCompose.InstalledFilesAreClaimed` | scripts/build_x86_64_owned_combined_sysroot.py:248-264 | every installed file is claimed by a placed component file |
| `SysrootCompose.ComponentIsTruthful` | scripts/build_x86_64_owned_combined_sysroot.py:304-353 | the embedded component passes if and only if its manifest lists exactly its files and digests |
| `SysrootCompose.ComposedTreeIsValid` | scripts/build_x86_64_owned_combined_sysroot.py:267-286 | a composed tree is valid if and only if the manifests are truthful, links name files beside them and the installed state is sealed; for any digest function |
| `SysrootCompose.PlannedStateIsSealed` | scripts/build_x86_64_owned_combined_sysroot.py:185-198 | the installed state is sealed whenever planning succeeds, unless two different state files share a digest |
| `SysrootCompose.Root.WriteFile` | scripts/build_x86_64_owned_combined_sysroot.py:273-277 | writes one file where a directory tree admits it, and nothing else |
| `SysrootCompose.Root.MakeLink` | scripts/build_x86_64_owned_combined_sysroot.py:278-281 | makes one link where a directory tree admits it, and nothing else |
| `SysrootCompose.Compose` | scripts/build_x86_64_owned_combined_sysroot.py:267-286 | succeeds exactly for plannable products with truthful manifests, and leaves the valid composed tree |
| `SysrootComposition.ComposesExactly` | scripts/build_x86_64_owned_combined_sysroot.py:185-286 | these are exactly the products of one build whose paths fit, whose manifests list their files and digests, whose dynamic manifest lists both products' links, whose links name installed files beside them, and whose installed state is of that build |
| `SysrootComposition.ComposedIs` | scripts/build_x86_64_owned_combined_sysroot.py:248-286 | the composed tree has exactly the destinations and the manifest as files, each with the digest and mode of every file that goes there, and both products' links |
| `SysrootComposition.ComposedRecordIs` | scripts/build_x86_64_owned_combined_sysroot.py:237-264 | the manifest it writes: identity, toolchain and profile, the digest and mode of what goes to each destination, and the links |
| `SysrootComposition.ComposedPlacementsAre` | scripts/build_x86_64_owned_combined_sysroot.py:242-263 | the manifest places exactly the files of each product, each at its destination |
| `SysrootPackage.Package` | scripts/build_x86_64_owned_combined_sysroot.py:390-410 | one member for each entry of a valid tree, in the order of their names |
| `SysrootPackage.PackageIsUnique` | scripts/build_x86_64_owned_combined_sysroot.py:395-409 | a tree has only one such package |
| `SysrootPackage.ReadPackage` | scripts/build_x86_64_owned_combined_sysroot.py:413-459 | accepts exactly the archives in order and returns record and payloads |
| `SysrootPackage.Extract` | scripts/build_x86_64_owned_combined_sysroot.py:462-479 | publishes exactly what a publishable archive describes, and reports failure for any other |
| `SysrootPackage.ExtractedMembersArePublished` | scripts/build_x86_64_owned_combined_sysroot.py:413-479 | member names are unique and safe, and the tree is exactly the members' bytes, modes and links |
| `SysrootPackage.ExtractedPayloadsAreClaimed` | scripts/build_x86_64_owned_combined_sysroot.py:289-357 | every published payload has its recorded digest and is claimed by a placed component file |
| `SysrootPackage.ExtractedSealsAgree` | scripts/build_x86_64_owned_combined_sysroot.py:122-172 | the two embedded products and the state agree on their source |
| `SysrootPackage.ExtractionInvertsPackaging` | scripts/build_x86_64_owned_combined_sysroot.py:390-479 | extracting the package of a valid tree succeeds if and only if it keeps the archive limits, and yields the same tree |
| `SysrootComposition.ComposedTreeIsExtracted` | scripts/build_x86_64_owned_combined_sysroot.py:267-479 | what composition leaves, packaged, extracts to the same tree exactly when it has at most 4096 members of at most 512 MiB |
| `SysrootPackage.Compare` | scripts/build_x86_64_owned_combined_sysroot.py:482-491 | equal exactly when both trees are valid and the same |
| `SysrootMeaning.PackageExactly` | scripts/build_x86_64_owned_combined_sysroot.py:413-459 | reading accepts exactly the archives within 4096 members and 512 MiB whose members are, one by one, what their record says, and bear its claims out |
| `SysrootMeaning.PublishableExactly` | scripts/build_x86_64_owned_combined_sysroot.py:413-479 | extraction succeeds exactly for those archives in which no member is the root or lies below another, and whose record lists no path twice and only files as executable |
| `SysrootMeaning.PackagedMembers` | scripts/build_x86_64_owned_combined_sysroot.py:397-409 | a package holds each entry of the tree once, links with mode 0777 and files with 0755 or 0644 and their bytes |
| `Staging.InstalledAliases` | scripts/run_owned_test_suite.py:55-74 | lists exactly the links that resolve to libc, each once, or fails exactly when libc or a link does not resolve or there is none |
| `Staging.Host.StageAliases` | scripts/run_owned_test_suite.py:85-90 | adds fresh links only, up to the first name that exists |
| `Staging.Host.UnstageAliases` | scripts/run_owned_test_suite.py:93-106 | removes exactly the intact aliases and reports exactly the others |
| `Staging.Host.Run` | scripts/run_owned_test_suite.py:77-157 | refused, without a trace, exactly when the aliases cannot be listed or staged; else run on the staged host and unwound as specified |
| `Staging.RemovalKeepsOthers` | scripts/run_owned_test_suite.py:94-106 | removing an intact alias leaves every other alias as intact as it was |
| `Staging.StagingIsTransactional` | scripts/run_owned_test_suite.py:77-130 | a command that leaves staged entries alone leaves only its own changes, and one that changes nothing leaves the host as it was |
| `Staging.TamperedAliasIsKept` | scripts/run_owned_test_suite.py:93-109 | a tampered alias is kept and reported while all others are removed |
| `Staging.CleanExitFreesCanonicalPath` | scripts/run_owned_test_suite.py:124-130 | a clean exit frees the loader path if and only if the command did not leave a dangling link there |
| `StagingMeaning.ResolvesExactly` | scripts/run_owned_test_suite.py:48-52 | a name resolves to an entry exactly when a chain of links without repetition leads there |
| `StagingMeaning.AliasesExactly` | scripts/run_owned_test_suite.py:55-74 | the aliases are the links that lead where `libc.so` leads; they can be listed exactly when that is a file, no link is broken and there is one |
| `StagingMeaning.EnteredExactly` | scripts/run_owned_test_suite.py:77-122 | when a command is run at all, and that it finds one new link for each alias, every other entry as it was, and the loader's bytes |
| `StagingMeaning.ChangedLoaderIsKept` | scripts/run_owned_test_suite.py:124-130 | a loader whose digest differs is kept and reported, one whose digest does not is removed |
| `StagingMeaning.LeftExactly` | scripts/run_owned_test_suite.py:92-130 | whatever the command did, exactly the unchanged aliases are removed, every other entry stays as it is, and nothing is reported exactly when all aliases and the loader are unchanged |
| `Staging.DanglingLoaderIsLeft` | scripts/run_owned_test_suite.py:124-130 | a host and a command whose dangling link a clean exit leaves behind |
| `SymbolReport.DynamicSymbols` | scripts/check_symbols.py:96-120 | the set of records, or an error exactly when one name has two of them |
| `SymbolReport.ReadBack` | scripts/check_compat_ratchet.py:31-48 | a manifest of consistent records, in any order, reads back as exactly those records |
| `SymbolReport.ReadNames` | scripts/check_compat_ratchet.py:31-48 | any rows: the names read are exactly those of the rows |
| `SymbolReport.ReadLast` | scripts/check_compat_ratchet.py:31-48 | any rows: each name has the entry of its last row |
| `Ratchet.CurrentState` | scripts/check_compat_ratchet.py:51-82 | missing, unexpected, matched and mismatched names by their meaning, or an error exactly on an empty manifest |
| `Ratchet.StateIsPartition` | scripts/check_compat_ratchet.py:59-74 | every expected name is missing, matched or mismatched, and only one of them |
| `Ratchet.RegressionsAreImplied` | scripts/check_compat_ratchet.py:124-133 | the regressed matches are exactly the baseline's matches among the new missing and new mismatched names |
| `Ratchet.ViolationsAreFound` | scripts/check_compat_ratchet.py:122-131 | the four lists by what the reference, the recorded candidate and the new candidate hold |
| `Ratchet.CheckExactly` | scripts/check_compat_ratchet.py:102-131 | the check fails exactly when the references of the two states differ in a name or a record, and else returns those four lists, each in its place |
| `Ratchet.PassesExactly` | scripts/check_compat_ratchet.py:102-147 | it passes exactly when the reference is the same, no name is lost, none is gained that the reference lacks, and no record is newly wrong |
| `Ratchet.PassingIsImproving` | scripts/check_compat_ratchet.py:102-147 | a check passes if and only if the reference is the same and the state improves on the baseline |
| `Ratchet.RatchetIsMonotone` | scripts/check_compat_ratchet.py:85-147 | over any history, faults only shrink, matches only grow, a missing name returns only as matched, and each state passes against each earlier one |
| `Ratchet.LatestBaselineSuffices` | scripts/check_compat_ratchet.py:102-147 | passing against the latest baseline is passing against all earlier ones |
| `Ratchet.Report` | scripts/check_symbols.py:145-170 | the report's missing, unexpected and mismatched names |
| `Ratchet.ReportAgreesWithState` | scripts/check_symbols.py:141-170 | they are the lists that the ratchet computes from the manifests read back |
| `CpuSet.Insert` | include/sched.h:87-90 | inserts the CPU if the size covers it, and changes no other bit |
| `CpuSet.Remove` | include/sched.h:87-91 | removes the CPU if the size covers it, and changes no other bit |
| `CpuSet.Contains` | include/sched.h:87-96 | membership, false at an index the size does not cover |
| `CpuSet.MembersAre` | include/sched.h:86-87 | the members behind these are bits: a one shifted left by `i % 64` in word `i / 64` |
| `CpuSet.CombineSets` | include/sched.h:98-113 | intersection, union or symmetric difference of the whole words, also when the destination is a source; later bytes are kept |
| `CpuSet.WholeWordsExactly` | include/sched.h:98-109 | the loops compute the set operation for all contents if and only if the size is a whole number of words |
| `CpuSet.AllocSizeIsExact` | include/sched.h:118-119 | the size covers every index below `n`, and is the least whole number of words that does |
| `LinkArguments.Translate` | unwinder/cleanup_link.py:53-82 | succeeds exactly on admissible arguments and returns their translation; else says why, as `ExplainsExactly` spells it |
| `LinkArguments.TranslationIsExact` | unwinder/cleanup_link.py:53-82 | passed arguments keep their order, the archive stands once at the first request, the length drops by the number of requests, and everything else is harmless |
| `LinkArguments.TranslationIsFinal` | unwinder/cleanup_link.py:53-82 | translating a translation again always fails |
| `LinkMeaning.RolesExactly` | unwinder/cleanup_link.py:23-74 | which arguments are refused, requests, the stock archive or passed on, by their prefixes, path components and forwarded options |
| `LinkMeaning.AdmissibleExactly` | unwinder/cleanup_link.py:53-82 | the linker is called exactly when nothing is refused, some library is requested and exactly one argument is the stock archive |
| `LinkMeaning.ReasonsExactly` | unwinder/cleanup_link.py:60-74 | what is said of a refused argument, by its class |
| `LinkMeaning.ExplainsExactly` | unwinder/cleanup_link.py:60-81 | a failure says why the first refused argument is refused, or else that a request is missing, or else that the stock archive is not there once |
| `HashInputs.TreeStream` | builtins/generate_x86_64_binary80.py:25-32 | the loop feeds the framed files in order, and fails exactly when a name has 2^32 bytes or more, or its data 2^64 or more |
| `HashInputs.BytesSpelled` | builtins/generate_x86_64_binary80.py:30-31 | a length is written in four or eight bytes, the highest first, digit by digit |
| `HashInputs.StreamSpelled` | builtins/generate_x86_64_binary80.py:27-31 | the stream of one more file is the stream before it, its name's length, its name, its data's length and its data, in bytes |
| `HashInputs.DecodeOfStream` | builtins/generate_x86_64_binary80.py:29-31 | the length-prefixed stream decodes to the files that were fed |
| `HashInputs.DistinctTreesFeedDistinctStreams` | builtins/generate_x86_64_binary80.py:25-32 | equal streams come from the same tree, listed in the same order |
| `HashInputs.SourceText` | scripts/build_owned_sysroot.py:176-194 | the loop feeds one record for each listed name that is there, at the places of these names in order and each once, and counts them |
| `HashInputs.TextSpelled` | scripts/build_owned_sysroot.py:181-194 | the text of one more name is the text before it and, if something is there, its record in bytes |
| `HashInputs.RecordSpelled` | scripts/build_owned_sysroot.py:185-193 | a link's record spells its name, `symlink` and its target, a file's its name, `file` and its digest, each ended by a NUL |
| `HashInputs.ReadOfText` | scripts/build_owned_sysroot.py:185-193 | the NUL-terminated text decodes to the records that were fed |
| `HashInputs.DistinctCheckoutsFeedDistinctTexts` | scripts/build_owned_sysroot.py:176-194 | checkouts that feed the same text have the same names, link targets and file digests |
| `NamesPath.Padded` | crt/x86_64_owned_dynamic_startup.py:120-138 | a path of exactly the requested length, padded with directories of 200 letters but for the last, and with 199 before a last one of a single letter, as soon as two characters of room remain; the final check never fails |
| `NamesPath.PaddedIsUnique` | crt/x86_64_owned_dynamic_startup.py:120-138 | there is only one such path |
| `NamesPath.BuildLayout` | crt/x86_64_owned_dynamic_startup.py:141-172 | every entry is the path its request asks for, and its length does not depend on the root |
| `NamesPath.LayoutFits` | crt/x86_64_owned_dynamic_startup.py:144-171 | the layout fits exactly the roots of at most 184 characters |
| `NamesPath.LayoutLengths` | crt/x86_64_owned_dynamic_startup.py:144-171 | the layout has exactly nineteen keys, each with its length |
| `NamesPath.NamesLayout` | crt/x86_64_owned_dynamic_startup.py:141-172 | the layout is built exactly below roots of at most 184 characters, and its nineteen entries are these: which group, length and file name under each key, and what is in or of the short directory |

## Left out

- File and module names of the partition's objects (`libc/build.rs:107-109, 202-210`): tags, collisions between them and the generated Rust are not modelled.
- Assembly beyond the directives read here: one symbol per directive line as the partitioner reads it, `.L` labels, clashes between different translations and application overrides.
- Characters: text is a sequence of characters and names are not decoded from UTF-8.
- The `Elf` class behind the label check and the parsing of `nm` output: sections and symbols of an image are given as facts beside its bytes. Addresses do not wrap except in relocated words, and the width of relocation types other than RELATIVE and GLOB_DAT is a parameter.
- GotSoundness.AcceptedSlotIsSound: takes it that a GLOB_DAT reference to a function the image defines binds to that definition, which interposition could change.
- AssemblyEquivalence.Split.ObjectIs: is for a header that declares nothing and declarations that name no private copy; `ObjectSays` is for all, and `HeaderDefinesEverywhere` and `RoutedSetDefinesPublicName` show what the others do.
- AssemblyEquivalence.Split.Resolution: is for a header that declares nothing and declarations that name no private copy; `ProvidersAreReached` is for all.
- AssemblyEquivalence.Split.PartitionExports: is for a header that declares nothing and declarations that name no private copy; `ObjectsExport` is for all.
- AssemblyEquivalence.Split.ExportsNothingNew: is for a header that declares nothing and declarations that name no private copy; `ExportsAreRouted` is for all.
- AssemblyEquivalence.Split.ExportsAreExact: is for a header that declares nothing and declarations that name no private copy; `ExportsAreRouted` is for all.
- AssemblyEquivalence.Split.ObjectsAreCoherent: is for a header that declares nothing and declarations that name no private copy.
- AssemblyEquivalence.Split.LinkingIsPreserved: is for a header that declares nothing and declarations that name no private copy; `LinkingIsExact` is for all. Both are about the directives and labels that `AssemblySemantics` names, not about everything an assembler accepts.
- AssemblyEquivalence.Split.UnroutedLinkingIsPreserved: is for a header that declares nothing and declarations that name no private copy.
- The x86-64 and AArch64 machine numbers are one parameter of each reader; instruction audits, symbol rosters and contract fields of the start objects are not modelled.
- SHA-256, JSON and the byte format of archives: a digest is any function, a written record reads back as itself, an archive is a sequence of members. The `executables` list of a record is its members and whether it is sorted.
- Directories: a tree is its files and links; writing through a linked directory is a failure, and modes are the executable bit.
- SysrootCompose.Compose: the output directory starts fresh; the refusal of one that exists is not modelled.
- SysrootPackage.Extract: the staging directory is fresh and its final rename is the success result.
- Staging.Host.Run: the command is a function of the staged host; creation of the loader's parent directory, permissions and concurrent processes are not modelled.
- SymbolReport.DynamicSymbols: `readelf` output and the choice of public rows come before it, and the sorted order of rows is any order.
- Ratchet.Report: lists are sets of names; their text form is not modelled.
- CpuSet.Insert: the index is a natural number, so a negative `int` converted to unsigned is not modelled; the same holds for `Remove` and `Contains`.
- `CPU_COUNT`, `CPU_ZERO`, `CPU_EQUAL` and allocation itself are not modelled.
- LinkArguments.Translate: reading the environment, calling the linker and checking its trace are not modelled.
- HashInputs.TreeStream: the walk's sorted order is any listing of the tree; following links while reading is not modelled.
- HashInputs.SourceText: the sorted listing is any list of names.
- NamesPath.BuildLayout: the layout's dictionary literal and loop are one list of requests; characters stand for bytes.
- The headers other than `sched.h`, the libc-test runner, `sha256_tree` and the orchestration of compilers, containers and locks.
