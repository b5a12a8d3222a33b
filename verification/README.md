# Verified model of azldev's cores

azldev builds distribution packages and images by driving external programs. The code between those
programs decides what is built, from which sources, whether anything changed, and what two package
repositories differ in. This project models the self-contained parts of that code in Dafny and proves
what they promise. `dafny verify dfyconfig.toml` checks all of it.

One module stands for one part of the program.

| module | part of the program |
|---|---|
| `Fingerprint`, `LocalIdentity`, `Decimal` | the byte streams whose digests identify a component, its resolution and its local sources |
| `Lockfile`, `LockStores`, `LockConcurrency` | lock files and the cache over them, first as an object used sequentially, then as interleaved steps of several goroutines |
| `IncludeLoader`, `ComponentMerge`, `CustomScripts` | recursive loading of config files, merging of groups with their reverse index, commit pins and their provenance, the scripts of local components |
| `TestReferences`, `ComponentTests`, `RepoRules`, `Resources`, `PublishChannel` | validators, and the later code that relies on them |
| `SourceManagers` | acquiring source files from lookaside, providers and origins |
| `RepoMetadata`, `RepoReports`, `RepoCompare`, `RepoInventories` | comparing two package inventories |
| `Hardware`, `OutputTails`, `StructuralSpecs` | hardware constraints of test plans, the bounded output tail, the spec line buffer |
| `Strings`, `Paths`, `FileUtils`, `Wrappers` | byte order, sorting, key enumeration; path segments and base names; the file name rule; results and options |

A Go string is a Dafny `string` with one char for each byte, so a theorem about all strings covers all
byte strings. Ranging over a Go map is a loop that takes any remaining key, so what is proved holds for
every iteration order. A Go error is the failure case of a `Result`. Code that updates fields, buffers or
shared sets is a class or a method with loops, proved against a function of its inputs; code made of
expressions is a function. SHA-256, config hashing, file reading, URL parsing, glob results, RPM version
parsing and the network are parameters or unconstrained choices.

## Where the code and its promises part

Each of these comes with a theorem that says when the promise holds, exactly where it says "if and only if", and with a
witness for the failing side.

- The `Store` documentation says its methods are safe for concurrent use and a double load is harmless. At some moment of a
  run the calls in flight can be finished so that a name's cached lock is wrong with nobody in a call, if and only if at some
  moment a call carries a lock for that name that its file does not hold (`LockConcurrency.RunCanEndStaleIff`,
  `LockConcurrency.CanEndStaleIff`). That takes a `Get` or a `Save` overlapping a `Save` or a `Remove` of the same name, and
  each of the four kinds of pairs has a run that ends so (`LockConcurrency.GetDuringSaveEndsStale`,
  `GetDuringRemoveEndsStale`, `SaveDuringSaveEndsStale`, `SaveDuringRemoveEndsStale`), or a lock of another version. When no
  writer is halfway while another call carries a different lock for the name, its cached lock is what its file parses to,
  whatever other names and `Exists` do (`LockConcurrency.QuiescentCacheIsTheFile`).
- `Store.Save` accepts a lock of any version. The name is then in step with its file if and only if the version is the
  current one; otherwise `Get` answers with a lock that a new store refuses to parse (`LockStores.Store.Save`,
  `LockStores.SaveChangeRead`, `LockConcurrency.ForeignVersionEndsStale`).
- A write that fails may leave the file cut short while the old lock stays cached. The name is then in step if and only if what
  is left is still that very lock (`LockStores.CutShortIsOutOfStep`); `LockStores.Store.Save` promises the cache and all
  other files.
- `PruneOrphans` lists orphans that `LockPath` refuses, such as `a b.lock`. It can succeed only if every orphan has a
  valid name, and a valid one is left only by a fault (`LockStores.Store.PruneOrphans`, `LockStores.UnprunableOrphan`).
- Test references are validated as components list them, and resolved after inheritance. In an accepted project a
  component's tests resolve if and only if all references it inherits do, and are pairwise distinct if and only if the
  inherited ones are and it lists none of them again (`ComponentTests.AcceptedComponentResolvesIff`,
  `ComponentTests.UndefinedInheritedTest`, `ComponentTests.RepeatedInheritedTest`).
- Source file names are checked for uniqueness file by file, and over the merged list only in lock-file-free mode. Two
  config files may declare one name with different hashes; both are accepted and no disk satisfies both
  (`SourceManagers.ConflictingFilesAreAccepted`). What a successful run does guarantee is the last fetched entry of each
  name (`SourceManagers.SourceManager.FetchFiles`); that covers all entries, whatever the hashing and the disk, if and only if
  the last of each name agrees with every hash declared under that name (`SourceManagers.AllVerifiedIff`).
- A SKU group may not be listed twice in one reference, but the empty one is not looked at. A repeated SKU group is
  accepted if and only if the reference stands for no test (`TestReferences.LoneReferenceAcceptedIff`,
  `TestReferences.EmptySKUGroupsTwice`).
- The include loader reports a circular include for every file reached twice, so a diamond without a cycle is
  refused (`IncludeLoader.Load`, `IncludeLoader.DiamondIsRefused`).
- A failed `downloadAndValidate` is documented to clean up its partial file. The error of the last removal is ignored: a file
  that can be removed is gone, one that cannot stays if there was one (`SourceManagers.SourceManager.DownloadAndValidate`,
  `SourceManagers.LockedFileStays`).
- Recording which file pinned a commit is meant to survive later partial definitions, and does while files are merged
  (`ComponentMerge.MergeAllWithOverride`). Inheritance then loses it, because the record is a private field that
  `MergeUpdatesFrom` does not copy: a pinned component names the last file that mentions it, which is the pinning file if
  and only if its last definition sets a commit (`ComponentMerge.MergeAndResolve`,
  `ComponentMerge.LaterMentionTakesProvenance`).
- Serialising an opened spec is not idempotent for lines that end in two carriage returns, and is for all others
  (`StructuralSpecs.IdempotentIff`, `StructuralSpecs.TwoCRsAreNotIdempotent`).
- A local source tree of two or more files has the same identity stream as some tree of one file whose name contains
  newlines (`LocalIdentity.EveryTreeCollidesWithOneFile`).
- With NUL bytes in package fields, architectures can differ while no identity does; XML metadata cannot contain
  them (section 2.2 of XML 1.0), and without them it is impossible (`RepoInventories.ArchesDifferNeverAlone`,
  `RepoInventories.NulMakesArchesDifferAlone`).
- Hardware keys that contain a dot render like nested keys, and one constraint can come twice
  (`Hardware.DottedKeysCollide`); clean keys never collide (`Hardware.CleanConstraintsAreDistinct`).

## Model

| member | source | states |
|---|---|---|
| Decimal.ValueOfDigits | internal/fingerprint/fingerprint.go:156-158 | the decimal rendering of a number has that number as its value |
| Decimal.ItoaIsInjective | internal/fingerprint/fingerprint.go:158-158 | signed renderings determine the number |
| Strings.ToLowerFolds | internal/utils/fileutils/hash.go:82-88 | two ASCII strings are equal in lower case iff they are, letter by letter, equal but for case |
| Paths.Segments | internal/projectconfig/resources.go:885-892 | splitting at slashes gives slash-free segments that joined again are the path |
| Paths.BaseNameIs | internal/projectconfig/component.go:93-99 | the base name of a path is its last non-empty segment, whatever directory it is in and however many slashes follow |
| FileUtils.ValidatesExactly | internal/utils/fileutils/file.go:83-130 | the checks, in their order, accept exactly the ASCII names without slash, backslash, NUL or whitespace that are not `.` or `..`, whatever `filepath.Clean` does to longer paths |
| Fingerprint.DecodeOfEncode | internal/fingerprint/fingerprint.go:178-183 | a decoder reads any list of length-prefixed label and value records back, whatever bytes they hold |
| Fingerprint.EncodeIsInjective | internal/fingerprint/fingerprint.go:178-183 | the byte stream determines the whole list of records |
| Fingerprint.Hasher.WriteField | internal/fingerprint/fingerprint.go:179-183 | appends exactly one record; all bytes written so far stay the encoding of all records so far |
| Fingerprint.WriteOverlays | internal/fingerprint/fingerprint.go:161-173 | writes one record for each overlay in increasing key order, for every map iteration order |
| Fingerprint.CombineInputs | internal/fingerprint/fingerprint.go:151-176 | hashes one stream determined by the inputs, whatever order the overlay map is ranged over |
| Fingerprint.CombinedStreamIsInjective | internal/fingerprint/fingerprint.go:151-183 | equal streams mean equal config hash, source identity, bump, release version and overlay map |
| Fingerprint.ComputeResolutionHash | internal/fingerprint/fingerprint.go:219-231 | hashes the seven resolution inputs as one stream |
| Fingerprint.ResolutionStreamIsInjective | internal/fingerprint/fingerprint.go:219-231 | equal resolution streams mean equal inputs |
| Fingerprint.StreamsNeverMeet | internal/fingerprint/fingerprint.go:151-231 | no resolution stream is a fingerprint stream, nor is either kind a prefix of the other |
| Fingerprint.ComputeIdentity | internal/fingerprint/fingerprint.go:77-149 | each refusal happens for its own reason, the first in the order of the checks and of the files; on success the reported inputs are the bump, identity, release version, normalised config hash and the position-keyed overlay hashes, and the fingerprint is the digest of their stream |
| Fingerprint.EqualStreamsEqualInputs | internal/fingerprint/fingerprint.go:77-183 | two accepted components with one stream agree in every input, overlay by overlay |
| Fingerprint.PlaceIsInvisible | internal/fingerprint/fingerprint.go:105-140 | for a component seen from two checkouts what is config-hashed is the same, and so is each overlay's identity |
| Fingerprint.FingerprintInTwoPlaces | internal/fingerprint/fingerprint.go:77-149 | a component gets the same fingerprint from the same inputs, or the same refusal, wherever its project is checked out |
| Fingerprint.OverlayIdentityIsInjective | internal/projectconfig/overlay.go:75-104 | an overlay's identity determines its destination name and its content hash when hashes have one width, colons in names included |
| LocalIdentity.SortUnderPrefix | internal/providers/sourceproviders/localidentity.go:52-53 | sorting full paths below one directory equals sorting relative paths |
| LocalIdentity.CollectFiles | internal/providers/sourceproviders/localidentity.go:29-46 | every non-directory in walk order, or nothing if the walk reports an error |
| LocalIdentity.ResolveLocalSourceIdentity | internal/providers/sourceproviders/localidentity.go:24-75 | fails exactly for the stated reasons; otherwise hashes the stream of the map from relative path to content hash that the walk describes, also when the path is a single file |
| LocalIdentity.IndependentOfOrderAndPlace | internal/providers/sourceproviders/localidentity.go:24-75 | the stream depends neither on the walk order nor on where the tree is checked out |
| LocalIdentity.IdentityStreamIsInjective | internal/providers/sourceproviders/localidentity.go:57-72 | the stream determines the map, for newline-free names and fixed-width newline-free hashes |
| LocalIdentity.EveryTreeCollidesWithOneFile | internal/providers/sourceproviders/localidentity.go:57-72 | without that condition every tree of two or more files shares its stream with another tree |
| IncludeLoader.LoadWithIncludes | internal/projectconfig/loader.go:437-504 | on success the preorder of the include tree, disjoint from what was seen and exactly what is added to it; on failure a repetition or an unloadable file in the tree; terminates |
| IncludeLoader.Load | internal/projectconfig/loader.go:437-504 | succeeds iff every reachable file loads and none is reached along two walks; the result lists each reachable file once, in preorder |
| IncludeLoader.TwoWalksOf | internal/projectconfig/loader.go:442-450 | a file listed twice in the include tree is reached by two different walks |
| IncludeLoader.TwoWalksAreListed | internal/projectconfig/loader.go:442-450 | two different walks to a file list it twice in the include tree |
| IncludeLoader.DiamondHasNoCycle | internal/projectconfig/loader.go:442-450 | in a diamond every include leads strictly down |
| IncludeLoader.DiamondIsRefused | internal/projectconfig/loader.go:442-450 | loading a diamond fails as a circular include although no file includes itself and every file loads |
| ComponentMerge.ProjectConfig.MergeComponentGroups | internal/projectconfig/loader.go:221-238 | fails iff a group is already defined; the reverse index lists each group under each member as often as the group names it, also after a failure halfway |
| ComponentMerge.ProjectConfig.AddGroup | internal/projectconfig/loader.go:229-235 | one more group with the index kept exact |
| ComponentMerge.ProjectConfig.MergeConfigFiles | internal/projectconfig/loader.go:221-238 | over any sequence of files the index stays exact; success iff no group is defined twice, and then all groups are there; after a failure those of the files before the duplicate and of the part of its file merged so far |
| ComponentMerge.ResolveComponentConfig | internal/projectconfig/component.go:582-619 | merges distro defaults, project defaults, groups in sorted order and the component, with the first error, and then resolves script paths |
| ComponentMerge.IndexedMembershipResolves | internal/projectconfig/component.go:582-619 | membership taken from the index never names a missing group |
| ComponentMerge.MergeOrderIsInvisible | internal/projectconfig/component.go:582-619 | any two indexes of the same groups give the same resolved config |
| ComponentMerge.FileOrderIsInvisible | internal/projectconfig/loader.go:221-238 | in any order the same files are all accepted or not, and define the same groups |
| ComponentMerge.LoadInTwoOrders | internal/projectconfig/component.go:582-619 | loading the same files in two orders fails both times iff a group is defined twice, and otherwise resolves a component alike and never misses a group |
| ComponentMerge.ResolvedComponents.MergeComponentsWithOverride | internal/projectconfig/loader.go:285-311 | after each file every component is pinned by the last file that set a commit, in whatever order the file's components come |
| ComponentMerge.MergeAllWithOverride | internal/projectconfig/component.go:507-564 | before inheritance, over any sequence of files the commit and its recorded file are those of the last file that set a commit; provenance iff pinned |
| ComponentMerge.LastPinIsLast | internal/projectconfig/component.go:507-564 | the pin comes from some file and no later file sets a commit |
| ComponentMerge.ResolvedPin | internal/projectconfig/component.go:464-484 | inheritance keeps a component's own commit, or gives that of its last non-empty default, and leaves the component's own config file as provenance |
| ComponentMerge.LastDefinitionDecides | internal/projectconfig/loader.go:285-311 | the pinning file is the last to mention a component iff the component's last definition sets a commit |
| ComponentMerge.MergeAndResolve | internal/projectconfig/component.go:558-619 | from the files to the resolved component: the commit is the last one set, and its provenance the last file that mentions the component, the right one iff the last definition sets a commit; an inherited commit names the component's own file |
| ComponentMerge.LaterMentionTakesProvenance | internal/projectconfig/loader.go:291-296 | a generated pin and a later partial definition: the right commit with the wrong file |
| ComponentMerge.MergesAreMonoids | internal/projectconfig/component.go:464-556 | merging a config that says nothing changes nothing, and merges may be grouped as one likes |
| CustomScripts.ResolveLocalCustomScriptPaths | internal/projectconfig/component.go:486-499 | rewrites the custom scripts of a local component that has a spec, and nothing else |
| CustomScripts.LocalScriptsTwice | internal/projectconfig/loader.go:61-64 | doing it when loading and again after inheritance is doing it once, and leaves what the fingerprint sees of each script |
| CustomScripts.ResolveSources | internal/projectconfig/component.go:582-619 | a resolved component has the inherited source files, layer by layer, in front of its own; if it is local every named custom script among them lies beside its spec, wherever its entry was declared, and otherwise all stay as they are |
| Lockfile.FindOrphanLockFiles | internal/lockfile/lockfile.go:256-301 | exactly the names with a visible lock file and no component, sorted, for every directory listing order; a missing directory has none, and only a fault makes it fail |
| LockStores.Store.Get | internal/lockfile/store.go:93-123 | for a name in step answers as the directory alone would, for any cached name as cached; the returned object is fresh and never a cached one; what was read is cached; no name falls out of step; an I/O error is always a fault met in this very call |
| LockStores.Store.GetOrNew | internal/lockfile/store.go:128-147 | for a name in step a new lock exactly when the file is missing; an unreadable file stays an error, and an I/O error is a fault met in this call |
| LockStores.NewLockParses | internal/lockfile/lockfile.go:69-73 | a new lock is the empty lock of a version that parses |
| LockStores.NewLockIsReadBack | internal/lockfile/store.go:128-171 | a component without a lock file gets a new lock; once saved its name is in step and another store reads that very lock, and without a fault all of this happens |
| LockStores.Store.Save | internal/lockfile/store.go:152-171 | a failure leaves the cache and all other files alone; a success writes the file and caches a copy, and leaves the name in step iff the version is current; other names stay as they were |
| LockStores.Store.Exists | internal/lockfile/store.go:174-185 | for a name in step answers as the directory alone would; true for any cached name |
| LockStores.Store.Remove | internal/lockfile/store.go:188-201 | removes file and cache entry together and so leaves the name in step, or changes nothing |
| LockStores.Store.PruneOrphans | internal/lockfile/store.go:228-263 | removes orphan locks and nothing else and counts them; a listed orphan stays only if its name is invalid or its own removal met a fault, so one failure stops no other; without an error all are gone |
| LockStores.Store.RemoveEach | internal/lockfile/store.go:242-256 | every name is either removed or counted as an error, and then it is invalid, has no file, or its own removal met a fault |
| LockStores.CutShortIsOutOfStep | internal/lockfile/store.go:152-171 | after a failed write a cached lock is in step iff what is left of the file is still that lock |
| LockStores.UnprunableOrphan | internal/lockfile/lockfile.go:256-301 | an orphan lock file whose name is not a valid component name |
| LockStores.NoOrphansLeft | internal/lockfile/store.go:228-263 | a second prune would find nothing |
| LockStores.ReadChangeRead | internal/lockfile/store.go:93-123 | changing a returned lock does not change what is read next |
| LockStores.SaveChangeRead | internal/lockfile/store.go:152-171 | changing a lock after saving it does not change what is read back, whatever its version; with another version than the current one a new store would refuse the file |
| LockConcurrency.UninterruptedIsSequential | internal/lockfile/store.go:93-201 | the steps of a call that nothing interrupts do exactly what the sequential store does: one answer from the cache, or one from the file which is then cached, or a file written or removed together with its cache entry, or an error and nothing |
| LockConcurrency.AllTraced | internal/lockfile/store.go:56-64 | in every interleaving all cached, carried and returned locks were file contents at some moment |
| LockConcurrency.ReturnedLocksWereOnDisk | internal/lockfile/store.go:93-201 | in every interleaving each lock `Get` returned was its file's content at some moment of the run |
| LockConcurrency.AllCoherent | internal/lockfile/store.go:93-201 | per name: unless a writer is halfway while another call carries a different lock for it, what is cached and carried agrees with its file except for a writer halfway |
| LockConcurrency.QuiescentCacheIsTheFile | internal/lockfile/store.go:93-201 | per name: under the same condition the cached lock is what the file parses to whenever no Save or Remove of the name is halfway |
| LockConcurrency.CanEndStaleIff | internal/lockfile/store.go:93-201 | while a name's cache is right, finishing the calls in flight can leave it stale iff one of them carries a lock its file does not hold |
| LockConcurrency.CacheOkUntilMismatch | internal/lockfile/store.go:93-201 | the cache is right up to the first such mismatch of a run |
| LockConcurrency.RunCanEndStaleIff | internal/lockfile/store.go:56-64 | for every run and name: at some moment it could be finished stale iff at some moment a call carried a lock its file did not hold |
| LockConcurrency.GetDuringSaveEndsStale | internal/lockfile/store.go:93-171 | a run of one Get and one Save that is over and leaves a wrong cached lock |
| LockConcurrency.GetDuringRemoveEndsStale | internal/lockfile/store.go:93-201 | the same for a Get and a Remove |
| LockConcurrency.SaveDuringSaveEndsStale | internal/lockfile/store.go:152-171 | the same for two Saves, without any Get |
| LockConcurrency.SaveDuringRemoveEndsStale | internal/lockfile/store.go:152-201 | the same for a Save and a Remove |
| LockConcurrency.ForeignVersionEndsStale | internal/lockfile/store.go:152-171 | one Save of another version is enough, without any overlap |
| SourceManagers.SourceManager.DownloadAndValidate | internal/providers/sourceproviders/sourcemanager.go:572-606 | one to maxAttempts downloads of the one URL, of which only the last can have brought an acceptable file, and did iff it succeeds; gives up before maxAttempts only when cancelled; touches only its destination; after a failure a removable file is gone, and another stays iff there was one |
| SourceManagers.SourceManager.ValidateFileHash | internal/utils/fileutils/hash.go:62-91 | passes iff the file is there and has the declared hash, case aside, or nothing was really done |
| SourceManagers.SourceManager.TrySourceFileLookaside | internal/providers/sourceproviders/sourcemanager.go:430-520 | asks lookaside iff the file is not custom, declares a hash and an URL can be built |
| SourceManagers.SourceManager.TryFileProviders | internal/providers/sourceproviders/sourcemanager.go:456-487 | asks providers in order while they decline; one that produces a file with the declared hash serves it, one that fails or produces another file ends the search |
| SourceManagers.SourceManager.FetchFromDownloadOrigin | internal/providers/sourceproviders/sourcemanager.go:522-570 | asks the origin iff it is a download with an URI, and no other kind succeeds |
| SourceManagers.SourceManager.FetchSourceFile | internal/providers/sourceproviders/sourcemanager.go:370-428 | asks the permitted places in priority order, going on only while none has the file; succeeds iff the last one asked served it, fails iff one ended the search or all were asked |
| SourceManagers.SourceManager.PlacesAreRestricted | internal/providers/sourceproviders/sourcemanager.go:405-454 | lookaside is a place iff not custom and hashed, the origin one iff origins are enabled and it is a download |
| SourceManagers.SourceManager.ChainIsAllowed | internal/providers/sourceproviders/sourcemanager.go:370-428 | every call that goes out for a file is a download of its lookaside URL or origin, where that is a permitted place, or a question to a registered provider |
| SourceManagers.SourceManager.FetchFiles | internal/providers/sourceproviders/sourcemanager.go:327-368 | for every list, after a successful real run the last fetched entry of each name that declares a hash has it on disk, and every entry has if the last of each name agrees with the others; file by file, each is served, or the last one looked at is given up because its name is invalid, nothing can make it, a place ended the search or no place is left; only permitted calls went out and other paths are untouched |
| SourceManagers.LastVerifiedStep | internal/providers/sourceproviders/sourcemanager.go:344-365 | fetching an entry disturbs only earlier entries of its name |
| SourceManagers.AgreeingAreVerified | internal/providers/sourceproviders/sourcemanager.go:344-365 | when the last entry of each name agrees with every hash declared under it, verifying it verifies all |
| SourceManagers.AllVerifiedIff | internal/providers/sourceproviders/sourcemanager.go:344-365 | exactly then: otherwise some hashing and disk verify the last of each name and not every entry |
| SourceManagers.LockedFileStays | internal/providers/sourceproviders/sourcemanager.go:598-603 | a failed download leaves a file that cannot be removed |
| SourceManagers.ConflictIsNeverVerified | internal/providers/sourceproviders/sourcemanager.go:344-365 | two same-named fetched entries with different hashes of one type cannot both be verified |
| SourceManagers.ValidateSourceFiles | internal/projectconfig/configfile.go:526-579 | accepts iff names are valid and pairwise distinct and each entry obeys its rules |
| SourceManagers.ValidateSources | internal/projectconfig/project.go:92-106 | each file's list is validated by itself, the merged list only in lock-file-free mode |
| SourceManagers.ValidateThenFetch | internal/projectconfig/component.go:464-484 | of an accepted component every own entry that is the last of its name and declares a hash has it on disk after a successful real run, with inherited entries in front; in lock-file-free mode every own entry has |
| SourceManagers.ConflictingFilesAreAccepted | internal/projectconfig/configfile.go:101-128 | two config files with one name and different hashes are each accepted, and no disk satisfies the merged list |
| TestReferences.SeenTests.DedupTestRefSKUGroups | internal/projectconfig/configfile.go:502-517 | passes iff every pair of the test and a group is new |
| TestReferences.ValidateTestGroupMembers | internal/projectconfig/configfile.go:270-330 | accepts iff members are distinct defined tests by name only |
| TestReferences.CheckUniqueSKUGroups | internal/projectconfig/configfile.go:378-405 | accepts iff non-empty SKU groups are pairwise different |
| TestReferences.ValidateTestRef | internal/projectconfig/configfile.go:409-498 | one reference passes iff it is well formed and all pairs it expands to are new |
| TestReferences.ValidateTestRefList | internal/projectconfig/configfile.go:409-498 | accepts iff all references are well formed and no pair of test and SKU group repeats in the whole expansion |
| TestReferences.ValidateNewTestReferences | internal/projectconfig/configfile.go:232-268 | accepts exactly the configurations whose groups, components and images are acceptable, in every map order |
| TestReferences.ResolveTestRefs | internal/projectconfig/tests.go:196-243 | succeeds iff every reference resolves; the result is the expansion in order |
| TestReferences.DedupeResolvedTestsByName | internal/projectconfig/tests.go:292-307 | keeps the first test of each name, in order |
| TestReferences.FirstOccurrencesProperties | internal/projectconfig/tests.go:290-307 | each name once, none lost, in the order of first occurrence |
| TestReferences.ResolveImageTests | internal/projectconfig/tests.go:277-288 | the expansion without repeats, in first-occurrence order |
| TestReferences.AcceptedRefsResolve | internal/projectconfig/configfile.go:409-498 | what the validator accepts always resolves |
| TestReferences.PlainExpansion | internal/projectconfig/configfile.go:493-517 | without SKU groups, distinct pairs are distinct test names |
| TestReferences.ResolveAccepted | internal/projectconfig/tests.go:277-316 | the lists that were validated cannot fail to resolve, and a component's own list gives pairwise distinct tests |
| TestReferences.AllKeysDistinctIff | internal/projectconfig/configfile.go:502-517 | no pair of test and SKU group repeats iff neither list repeats or there is no test |
| TestReferences.LoneReferenceAcceptedIff | internal/projectconfig/configfile.go:378-405 | a well-formed reference alone is accepted iff it stands for no test or neither its tests nor its SKU groups repeat |
| TestReferences.EmptySKUGroupsTwice | internal/projectconfig/configfile.go:378-405 | the empty SKU group listed twice is refused for a test and accepted for a group without members |
| ComponentTests.EffectiveRefs | internal/projectconfig/component.go:582-619 | the effective references are those of the distro, the project and the sorted groups, followed by the component's own |
| ComponentTests.ResolveComponentTests | internal/projectconfig/tests.go:309-316 | succeeds iff every reference of the block resolves |
| ComponentTests.ResolveEffectiveTests | internal/app/azldev/core/components/resolver.go:852-893 | inheritance and expansion succeed iff the groups exist and every effective reference resolves; the result is the whole expansion |
| ComponentTests.AcceptedComponentResolvesIff | internal/projectconfig/project.go:120-122 | in an accepted configuration a component's tests resolve iff all inherited references do, and are distinct iff the inherited ones are and are not listed again |
| ComponentTests.UndefinedInheritedTest | internal/projectconfig/project.go:120-122 | an accepted configuration whose component cannot resolve its tests |
| ComponentTests.RepeatedInheritedTest | internal/projectconfig/project.go:120-122 | an accepted configuration whose component resolves one test twice |
| RepoRules.ScanURIScheme | internal/projectconfig/resources.go:541-567 | the scan finds a scheme iff the grammar of section 3.1 of RFC 3986 followed by a colon does |
| RepoRules.ValidateRemoteURI | internal/projectconfig/resources.go:369-402 | the checks in their order accept exactly the one-line http(s) URIs with a host |
| RepoRules.ValidateGPGKey | internal/projectconfig/resources.go:416-471 | accepts exactly bare paths, http(s) URIs with a host and file URIs with an absolute path and none |
| RepoRules.ValidateRpmRepo | internal/projectconfig/resources.go:244-309 | accepts exactly repositories of a known type with one remote source and a key unless signatures are off |
| RepoRules.ValidateRpmRepoName | internal/projectconfig/resources.go:318-334 | matches the name pattern character by character |
| Resources.ValidateRpmRepoSetTemplate | internal/projectconfig/resources.go:950-1000 | accepts iff there are sub-repos, all valid, with distinct names |
| Resources.BuildSubrepoAllowlist | internal/projectconfig/resources.go:829-863 | accepts iff the list names template sub-repos, each once |
| Resources.ExpandRpmRepoSet | internal/projectconfig/resources.go:754-814 | succeeds iff the set is expandable; one repository for each included sub-repo, in template order, which `Resources.ExpansionStandsFor` describes |
| Resources.ExpansionKeepsKey | internal/projectconfig/resources.go:754-814 | synthesized repositories have valid names and the set's key and signature setting |
| Resources.SynthesizedIff | internal/projectconfig/resources.go:780-795 | a sub-repo stands for a repository iff its subpath is relative, without parent segments, query and fragment, the base URI takes paths and the prefixed name is valid |
| Resources.ExpansionStandsFor | internal/projectconfig/resources.go:786-910 | the i-th repository has the i-th included sub-repo's subpath below the base URI without its final slashes, and its name behind the prefix; different subpaths give different URIs |
| Resources.EffectiveReposHaveSources | internal/projectconfig/resources.go:262-287 | every repository of the effective map has one source, and each written out one has it at an http(s) URI with a host |
| Resources.EffectiveRpmRepos | internal/projectconfig/resources.go:699-742 | succeeds iff all sets expand and no name collides, in every map order |
| Resources.AddExpanded | internal/projectconfig/resources.go:722-736 | reports a collision iff some name of the set repeats or is taken |
| Resources.AddEntriesIsDisjointUnion | internal/projectconfig/resources.go:699-742 | the effective map is the disjoint union of the explicit repositories and all expansions |
| Resources.Emitted.Emit | internal/projectconfig/resources.go:1034-1047 | appends a repository name iff it is new |
| Resources.Emitted.EmitAll | internal/projectconfig/resources.go:1083-1087 | appends a whole expansion iff nothing in it repeats |
| Resources.EffectiveInputRepos | internal/projectconfig/resources.go:1028-1093 | succeeds iff every entry resolves and no repository is produced twice; the concatenation of the entries' expansions |
| Resources.ValidateVersion | internal/projectconfig/project.go:313-362 | accepts iff both lists are valid, all names are in the effective map and no rpm-build key is local |
| Resources.ValidateDistroVersionInputs | internal/projectconfig/project.go:313-362 | accepts iff every version of every distro is valid, in every order |
| Resources.ValidateProject | internal/projectconfig/project.go:92-148 | the repository checks together accept exactly the valid projects |
| Resources.EffectiveReposAreSigned | internal/projectconfig/resources.go:699-742 | every repository of the effective map obeys the signature rule, synthesized ones included |
| Resources.ValidatedInputsAreUsable | internal/projectconfig/project.go:313-362 | in a validated project every rpm-build and image-build list is duplicate-free and known, and every rpm-build repository that checks signatures has a remote key |
| Resources.NonLocalKeyIsRemote | internal/projectconfig/resources.go:416-491 | a valid key that is not local is an http(s) URI with a host |
| PublishChannel.ContainsRPMSegment | internal/projectconfig/component.go:677-698 | finds a segment iff some occurrence, overlapping ones included, is followed by the end or a hyphen |
| PublishChannel.IsDebugInfoPackage | internal/projectconfig/component.go:669-675 | true iff the name has a debuginfo or debugsource segment |
| PublishChannel.ValidatePackageGroupMembership | internal/projectconfig/project.go:395-416 | accepts iff no package is in two groups, in every map order; an error names two groups that share the package |
| PublishChannel.ResolvePackagePublishChannel | internal/projectconfig/component.go:711-761 | the highest-priority non-empty layer; after validation the same for every map order |
| PublishChannel.AnswerIsUnique | internal/projectconfig/component.go:731-740 | with unambiguous groups all iteration orders give one answer |
| PublishChannel.AmbiguityShows | internal/projectconfig/component.go:731-740 | with a package in two groups two orders can disagree |
| PublishChannel.ChannelKind | internal/projectconfig/component.go:711-761 | a debug package gets a debug channel of one of its layers, any other package an RPM channel, the deprecated one only where that is empty |
| PublishChannel.OverrideDecides | internal/projectconfig/component.go:742-761 | a package override of the package's kind decides, and nothing is found only if no layer has a channel of that kind |
| RepoMetadata.SplitAtFirst | internal/repo/repocompare/metadata.go:51-55 | the part in front of the first separator is determined |
| RepoMetadata.IdentityMeans | internal/repo/repocompare/metadata.go:51-55 | NUL-free packages have one identity iff all its parts agree, no epoch being epoch 0 |
| RepoMetadata.KindAndArchKeyMeans | internal/repo/repocompare/diff.go:372-374 | NUL-free packages share the key iff they share kind and architecture |
| RepoMetadata.EVRMeans | internal/repo/repocompare/metadata.go:67-85 | packages with RPM's fields share EVR iff they share epoch, version and release, and NEVR iff also the name |
| RepoMetadata.VersionAndKindKeyMeans | internal/repo/repocompare/diff.go:448-469 | packages share the key iff they share epoch, version, release and kind |
| RepoReports.HasStatusIffListed | internal/repo/repocompare/diff.go:539-550 | searching the joined summary for a status equals membership in the status list |
| RepoReports.MemberIsFound | internal/repo/repocompare/diff.go:539-550 | every list element is found between separators |
| RepoReports.FoundIsMember | internal/repo/repocompare/diff.go:539-550 | what is found between separators is a list element, for comma-free elements |
| RepoCompare.GroupBy | internal/repo/repocompare/diff.go:385-392 | maps each key to the packages with it, in order |
| RepoCompare.IdentitySet | internal/repo/repocompare/diff.go:376-383 | the set of identities |
| RepoCompare.HasSetDifference | internal/repo/repocompare/diff.go:425-433 | true iff the left set is not contained in the right |
| RepoCompare.LatestVersionsByKindAndArch | internal/repo/repocompare/diff.go:352-370 | succeeds iff all versions parse; for NUL-free packages each package's entry is the latest version among those of its own kind and architecture |
| RepoCompare.HasUnignoredRightAddition | internal/repo/repocompare/diff.go:318-350 | for NUL-free packages an addition counts iff some new right package is at least as new as every left one of the same kind and the same architecture; with older ones ignored it fails iff a left version does not parse or an unparsable new right package precedes the first new enough one |
| RepoCompare.ArchesByVersionAndKind | internal/repo/repocompare/diff.go:448-469 | the sorted architectures of each version and kind |
| RepoCompare.DetectArchitecturesDiffer | internal/repo/repocompare/diff.go:435-446 | true iff some shared key has different architectures; with RPM's fields a key is epoch, version, release and kind |
| RepoCompare.AnalyzeIdentity | internal/repo/repocompare/diff.go:246-286 | content differs iff under one shared algorithm checksums and sizes differ, and is not comparable iff the sides share no single algorithm |
| RepoCompare.VariantMeans | internal/repo/repocompare/diff.go:246-300 | under one algorithm the joined variant is checksum and size, whatever bytes they hold |
| RepoCompare.AnalyzeContent | internal/repo/repocompare/diff.go:233-289 | the two content flags are true iff some shared identity differs or is not comparable |
| RepoInventories.ListedIffDue | internal/repo/repocompare/diff.go:190-231 | a status is listed iff its condition holds |
| RepoInventories.PackageStatuses | internal/repo/repocompare/diff.go:190-231 | the statuses due, in their fixed order; fails iff looking for additions does |
| RepoInventories.SortedNEVRs | internal/repo/repocompare/diff.go:471-508 | succeeds iff the first package of each NEVR has a version, with RPM's fields iff all versions parse; each NEVR once, newer packages first |
| RepoInventories.CompareWithOptions | internal/repo/repocompare/diff.go:87-126 | one report for each name with a status, in increasing name order, with its joined statuses and the sorted NEVRs of both sides; it fails iff on some name looking for additions fails or a version to sort does not parse |
| RepoInventories.Summarize | internal/repo/repocompare/diff.go:129-155 | counts for each status the reports whose summary has it |
| RepoInventories.CountIsTally | internal/repo/repocompare/diff.go:87-155 | the reports whose joined summary shows a status are as many as the names it is due for |
| RepoInventories.CompareBothWays | internal/repo/repocompare/diff.go:87-155 | each way it succeeds iff no name is unreportable and counts for each status the names it is due for; swapping the sides swaps the missing and added counts and keeps the others |
| RepoInventories.ArchesDifferNeverAlone | internal/repo/repocompare/diff.go:435-469 | differing architectures imply a missing or an added identity, for NUL-free packages |
| RepoInventories.NulMakesArchesDifferAlone | internal/repo/repocompare/metadata.go:51-55 | NUL bytes break that |
| RepoInventories.ReportedIffIdentitiesDiffer | internal/repo/repocompare/diff.go:190-231 | with default options a name has a status iff its identity sets differ |
| RepoInventories.EntriesAreNames | internal/repo/repocompare/diff.go:98-123 | reports are exactly the names with a status, with that status list |
| RepoInventories.EntriesIncrease | internal/repo/repocompare/diff.go:519-537 | reports come in strictly increasing name order |
| RepoInventories.IdentitiesByName | internal/repo/repocompare/diff.go:82-126 | inventories have the same identities iff every name has |
| RepoInventories.Compare | internal/repo/repocompare/diff.go:82-84 | in strictly increasing order exactly the names whose identity sets differ, so empty iff the inventories have equal identities; architectures never differ alone |
| RepoInventories.ReportedWithIffDue | internal/repo/repocompare/diff.go:87-155 | a report's joined summary shows a status for a name iff the condition of that status holds for it |
| RepoInventories.CompareIgnoringOlder | internal/repo/repocompare/diff.go:318-370 | with all versions parsing both comparisons succeed; ignoring older additions only takes "added" away, and keeps it iff some new right package is at least as new as every left one of the same name, kind and architecture, in these words for NUL-free packages |
| Hardware.FlattenHardwareConstraints | internal/tmt/component.go:893-959 | fails iff a boolean group, an unsupported value or a keyless scalar occurs at some depth; otherwise one constraint for each leaf, in canonical order |
| Hardware.LeavesAreTheLeaves | internal/tmt/component.go:900-944 | the flattened leaves are exactly the leaves a path leads to, in strictly increasing path order, so each once |
| Hardware.SuffixIsInjective | internal/tmt/component.go:917-937 | a clean path can be read back from its rendering |
| Hardware.RenderIsInjective | internal/tmt/component.go:917-937 | rendered clean paths determine the path, even with a value after them |
| Hardware.CleanConstraintsAreDistinct | internal/tmt/component.go:900-959 | in a clean block rendered paths, and constraints, are pairwise distinct |
| Hardware.CleanRejection | internal/tmt/component.go:900-959 | a clean block is refused only for a boolean group or an unsupported value |
| Hardware.DottedKeysCollide | internal/tmt/component.go:917-920 | an accepted block with a dotted key whose flattening gives one constraint twice |
| Hardware.NoBootMethodLeft | internal/tmt/component.go:879-886 | filtering keeps exactly the constraints about anything else |
| Hardware.MergePlanHardwareArgs | internal/tmt/component.go:872-891 | exactly one argument is about the boot method, the last; all other constraints keep their order; fails as flattening does |
| Hardware.OnlyBootMethodIsDropped | internal/tmt/component.go:879-886 | in a clean block what is dropped is the constraint on the path boot, method and no other |
| OutputTails.OutputTail.Write | internal/providers/sourceproviders/customsourceprovider.go:336-353 | reports the full length; the buffer holds the last bytes of everything written, at most the limit, and the flag tells whether more was written |
| OutputTails.OutputTail.AppendShort | internal/providers/sourceproviders/customsourceprovider.go:344-352 | data shorter than the limit pushes out exactly the overflow |
| OutputTails.OutputTail.String | internal/providers/sourceproviders/customsourceprovider.go:355-361 | the retained bytes, after a notice iff something was dropped |
| OutputTails.ShiftLeft | internal/providers/sourceproviders/customsourceprovider.go:346-347 | moves the retained bytes to the front, in place |
| OutputTails.LastOfLast | internal/providers/sourceproviders/customsourceprovider.go:336-353 | of the past only the retained bytes matter |
| OutputTails.WriteAll | internal/providers/sourceproviders/customsourceprovider.go:326-361 | over any sequence of writes only the concatenation counts |
| StructuralSpecs.OpenStructuralSpec | internal/rpm/spec/structural_spec.go:138-155 | fails iff some line is too long for the scanner; otherwise the lines, each less one carriage return |
| StructuralSpecs.StructuralSpec.Serialize | internal/rpm/spec/structural_spec.go:157-174 | every line followed by a newline |
| StructuralSpecs.StructuralSpec.ReplaceLine | internal/rpm/spec/structural_spec.go:176-179 | replaces one line; clean lines stay clean if the new one is |
| StructuralSpecs.StructuralSpec.RemoveLine | internal/rpm/spec/structural_spec.go:181-184 | removes one line and keeps the others in order |
| StructuralSpecs.StructuralSpec.RemoveLines | internal/rpm/spec/structural_spec.go:186-189 | removes a range and keeps the others in order |
| StructuralSpecs.StructuralSpec.InsertLinesAt | internal/rpm/spec/structural_spec.go:191-194 | inserts lines and keeps the others in order |
| StructuralSpecs.InsertThenRemove | internal/rpm/spec/structural_spec.go:186-194 | removing what was inserted restores the buffer |
| StructuralSpecs.RoundTripIff | internal/rpm/spec/structural_spec.go:138-174 | writing and reading a buffer returns it iff its lines have no newline, no final carriage return and fit the scanner |
| StructuralSpecs.LinesOfNormalized | internal/rpm/spec/structural_spec.go:138-174 | a normalised text is readable again and its lines are the original ones less one carriage return each |
| StructuralSpecs.IdempotentIff | internal/rpm/spec/structural_spec.go:138-174 | normalising twice equals once iff no line ends in two carriage returns |
| StructuralSpecs.TwoCRsAreNotIdempotent | internal/rpm/spec/structural_spec.go:138-174 | a text on which it is not |

## Left out

- SHA-256, `hashstructure` and file hashing are parameters; the theorems are about the streams that are hashed and the guards in front.
- `mergo` and deep copies: a component merge is a parameter of `ComponentMerge.ResolveComponentConfig`; for commit pins, tests and source files only the fields concerned are modelled, with override if not empty and lists appended. A merge is taken to leave private fields alone, as Go's reflection does, and default configs to record no pin file in that field.
- ComponentTests.ResolveEffectiveTests: takes each layer's tests block as a value. The source holds it by pointer and merges into a copy that may share it, so whether what one resolution appends can reach the block another component inherits is not modelled.
- TOML, XML and JSON decoding, `url.Parse`, glob matching and regular expressions: parsed values, match lists and URI parts are inputs. "%v" of a JSON number is part of the number in `Hardware.Json`.
- `go-rpm-version`: parsing and comparison are a parameter; comparison is any total preorder.
- `retry.Do`: at least one attempt, stop at the first success, possible cancellation between attempts; delays are not modelled. A download or provider may write anything, at its own destination only.
- SourceManagers.SourceManager.DownloadAndValidate: the temporary file that a download writes beside its destination on a host filesystem, and leaves there after a failure, is not part of the modelled disk, so "only its destination" holds of the finished files.
- Git, mock, pip, LISA, tmt and pytest runs, HTTP, logging, progress display and command wiring.
- Legacy spec editing, section parsing and `Visit`, which need the RPM spec grammar.
- `validateConsistency` and `ValidateUpstreamCommit` in lockfile.go; `mergeComponentsAdditively`; `ResolveTestSelectors`; `MissingFromRight` lists and the text of content differences: single filters and loops that would only add easy members.
- The `DisableSSLVerify` field of a repository set and the text of error messages are not part of `Resources`; the em dash in a set's description is written "-" there.
- ComponentMerge.ResolvedComponents.MergeComponentsWithOverride: merges the three fields a commit pin needs; the other fields of a component play no part in it.
- SourceManagers.ValidateSourceFiles: the replacement, origin and custom script rules of one entry are the parameter `otherRules`; each looks at a few fields of one entry and would only add easy members.
- StructuralSpecs.OpenStructuralSpec: the reader is a text that can be read to its end; an error of the reader itself is passed on by the code and not modelled.
- StructuralSpecs.StructuralSpec.Serialize: the writer takes everything; an error of the writer is passed on by the code and not modelled.
- LocalIdentity.ResolveLocalSourceIdentity: takes the walk as a list in which no path comes twice and every path starts with the directory, because that is what a walk of a directory delivers, or as the path itself when that is a file.
- LockStores.Store.PruneOrphans: the joined texts of removal errors are only counted.
- In the interleaved model of the store `PruneOrphans` and `GetOrNew` are sequences of the modelled calls, and a file write is one atomic step that happens wholly or not at all; a write cut short is part of the sequential model only.
- SourceManagers.ValidateThenFetch: takes the inherited entries as a list; `CustomScripts.ResolveSources` says that they come in front of the component's own.
- `filepath.Clean`, `filepath.Dir` and `filepath.Join` are parameters: cleaning leaves a single name alone, joining puts a name into the directory.
- RepoInventories.SortedNEVRs: names whose versions compare equal come in any order, as the library's sort leaves it.
- RepoCompare.AnalyzeContent: the list of content differences is left out, only the two flags are modelled; the list repeats the packages of each differing identity and would only add easy members.
- RepoInventories.PackageStatuses: the list of content differences is left out.
- RepoInventories.CompareWithOptions: the list of content differences attached to a report is left out.
- Hardware.MergePlanHardwareArgs: how the plan's hardware block is exported by tmt is not modelled.
