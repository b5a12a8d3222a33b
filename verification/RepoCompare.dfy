/** internal/repo/repocompare/diff.go: comparing two package inventories name by name. */
module RepoCompare {
  import opened Wrappers
  import opened Strings
  import opened Decimal
  import opened RepoMetadata
  import opened RepoReports

  // ---------- Versions ----------

  /** RPM version parsing and comparison, as the version library provides them. */
  datatype Versions<!V> = Versions(parse: (string, string, string) -> Option<V>, compare: (V, V) -> int)

  ghost predicate TotalPreorder<V(!new)>(versions: Versions<V>) {
    && (forall x, y :: versions.compare(x, y) > 0 <==> versions.compare(y, x) < 0)
    && (forall x, y, z :: versions.compare(x, y) >= 0 && versions.compare(y, z) >= 0 ==> versions.compare(x, z) >= 0)
  }

  function VersionOf<V>(p: Package, versions: Versions<V>): Option<V> {
    versions.parse(NormalizedEpoch(p.epoch), p.version, p.release)
  }

  ghost predicate AllParse<V(!new)>(packages: seq<Package>, versions: Versions<V>) {
    forall i :: 0 <= i < |packages| ==> VersionOf(packages[i], versions).Some?
  }

  // ---------- What the statuses mean ----------

  datatype Options = Options(ignoreOlderAddedInRight: bool, compareChecksums: bool)

  ghost function Identities(packages: seq<Package>): set<string> {
    set p | p in packages :: Identity(p)
  }

  ghost predicate HasMissing(left: seq<Package>, right: seq<Package>) {
    exists p :: p in left && Identity(p) !in Identities(right)
  }

  /** p is at least as new as every package of its kind and architecture. */
  ghost predicate NewEnough<V(!new)>(packages: seq<Package>, p: Package, versions: Versions<V>) {
    VersionOf(p, versions).Some? && forall q :: q in packages && KindAndArchKey(q) == KindAndArchKey(p) && VersionOf(q, versions).Some? ==>
      versions.compare(VersionOf(p, versions).value, VersionOf(q, versions).value) >= 0
  }

  /** The version the library makes of a package's epoch, version and release, no epoch being epoch 0. */
  ghost function Parsed<V>(p: Package, versions: Versions<V>): Option<V> {
    versions.parse(if p.epoch == "" then "0" else p.epoch, p.version, p.release)
  }

  /** NewEnough in plain terms. */
  ghost predicate AtLeastAsNew<V(!new)>(packages: seq<Package>, p: Package, versions: Versions<V>) {
    && Parsed(p, versions).Some?
    && forall q :: q in packages && q.kind == p.kind && q.arch == p.arch && Parsed(q, versions).Some? ==>
         versions.compare(Parsed(p, versions).value, Parsed(q, versions).value) >= 0
  }

  /** NUL-free packages are compared with those of their own kind and architecture. */
  lemma NewEnoughMeans<V(!new)>(packages: seq<Package>, p: Package, versions: Versions<V>)
    requires AllNulFree(packages) && NulFree(p)
    ensures NewEnough(packages, p, versions) <==> AtLeastAsNew(packages, p, versions)
  {
    hide KindAndArchKey, NulFree;
    forall q | q in packages ensures KindAndArchKey(q) == KindAndArchKey(p) <==> q.kind == p.kind && q.arch == p.arch {
      KindAndArchKeyMeans(q, p);
    }
  }

  ghost predicate HasAdded<V(!new)>(left: seq<Package>, right: seq<Package>, ignoreOlder: bool, versions: Versions<V>) {
    if ignoreOlder then exists p :: p in right && Identity(p) !in Identities(left) && NewEnough(left, p, versions)
    else HasMissing(right, left)
  }

  /** Some right package that the left does not have is at least as new as all of its kind and architecture. */
  ghost predicate HasNewerAddition<V(!new)>(left: seq<Package>, right: seq<Package>, versions: Versions<V>) {
    exists p :: p in right && Identity(p) !in Identities(left) && AtLeastAsNew(left, p, versions)
  }

  lemma NewerAddition<V(!new)>(left: seq<Package>, right: seq<Package>, versions: Versions<V>)
    requires AllNulFree(left) && AllNulFree(right)
    ensures HasAdded(left, right, true, versions) <==> HasNewerAddition(left, right, versions)
  {
    hide NewEnough, AtLeastAsNew, NulFree, Identity;
    forall p | p in right ensures NewEnough(left, p, versions) <==> AtLeastAsNew(left, p, versions) {
      NewEnoughMeans(left, p, versions);
    }
  }

  ghost function ArchesOf(packages: seq<Package>, key: string): set<string> {
    set p | p in packages && VersionAndKindKey(p) == key :: p.arch
  }

  /** Some version and kind is on both sides, for different architectures. */
  ghost predicate ArchesDiffer(left: seq<Package>, right: seq<Package>) {
    exists key :: ArchesOf(left, key) != {} && ArchesOf(right, key) != {} && ArchesOf(left, key) != ArchesOf(right, key)
  }

  /** The architectures of the packages with p's version and kind. */
  ghost function ArchesLike(packages: seq<Package>, p: Package): set<string> {
    set q | q in packages && SameVersion(q, p) && q.kind == p.kind :: q.arch
  }

  /** Some version and kind of the left is on the right as well, for different architectures. */
  ghost predicate ArchesDifferFor(left: seq<Package>, right: seq<Package>) {
    exists p :: p in left && ArchesLike(right, p) != {} && ArchesLike(left, p) != ArchesLike(right, p)
  }

  lemma ArchesLikeMeans(packages: seq<Package>, p: Package)
    requires AllNulFree(packages) && AllRpmFields(packages) && NulFree(p) && RpmFields(p)
    ensures ArchesOf(packages, VersionAndKindKey(p)) == ArchesLike(packages, p)
  {
    hide VersionAndKindKey, SameVersion, NulFree, RpmFields;
    forall q | q in packages ensures VersionAndKindKey(q) == VersionAndKindKey(p) <==> SameVersion(q, p) && q.kind == p.kind {
      VersionAndKindKeyMeans(q, p);
    }
  }

  /** For NUL-free packages with RPM's fields the key is the version, release included, and the kind. */
  lemma ArchesDifferMeans(left: seq<Package>, right: seq<Package>)
    requires AllNulFree(left) && AllRpmFields(left) && AllNulFree(right) && AllRpmFields(right)
    ensures ArchesDiffer(left, right) <==> ArchesDifferFor(left, right)
  {
    hide VersionAndKindKey, SameVersion, NulFree, RpmFields, ArchesLike;
    forall p | p in left
      ensures ArchesOf(left, VersionAndKindKey(p)) == ArchesLike(left, p) && ArchesOf(right, VersionAndKindKey(p)) == ArchesLike(right, p)
    {
      ArchesLikeMeans(left, p);
      ArchesLikeMeans(right, p);
    }
    if key :| ArchesOf(left, key) != {} && ArchesOf(right, key) != {} && ArchesOf(left, key) != ArchesOf(right, key) {
      var p :| p in left && VersionAndKindKey(p) == key;
    }
    if p :| p in left && ArchesLike(right, p) != {} && ArchesLike(left, p) != ArchesLike(right, p) {
      assert p.arch in ArchesOf(left, VersionAndKindKey(p));
    }
  }

  // ---------- Grouping ----------

  /** The packages with a given key, in order. */
  function Filtered(packages: seq<Package>, key: Package -> string, k: string): (selected: seq<Package>)
    ensures forall p :: p in selected <==> p in packages && key(p) == k
  {
    if packages == [] then []
    else
      var last := packages[|packages| - 1];
      assert packages == packages[..|packages| - 1] + [last];
      Filtered(packages[..|packages| - 1], key, k) + if key(last) == k then [last] else []
  }

  ghost function KeysOf(packages: seq<Package>, key: Package -> string): set<string> {
    set p | p in packages :: key(p)
  }

  ghost predicate Grouped(groups: map<string, seq<Package>>, packages: seq<Package>, key: Package -> string) {
    && groups.Keys == KeysOf(packages, key)
    && (forall k :: k in groups ==> groups[k] == Filtered(packages, key, k))
  }

  /** groupByName and packagesByIdentity. */
  method GroupBy(packages: seq<Package>, key: Package -> string) returns (groups: map<string, seq<Package>>)
    ensures Grouped(groups, packages, key)
  {
    hide Grouped;
    groups := map[];
    NothingGrouped(key);
    for i := 0 to |packages|
      invariant Grouped(groups, packages[..i], key)
    {
      var p := packages[i];
      assert packages[..i + 1] == packages[..i] + [p];
      GroupStep(groups, packages[..i], key, p);
      var known := if key(p) in groups then groups[key(p)] else [];
      groups := groups[key(p) := known + [p]];
    }
    assert packages[..|packages|] == packages;
  }

  lemma NothingGrouped(key: Package -> string)
    ensures Grouped(map[], [], key)
  {
  }

  lemma GroupStep(groups: map<string, seq<Package>>, packages: seq<Package>, key: Package -> string, p: Package)
    requires Grouped(groups, packages, key)
    ensures var known := if key(p) in groups then groups[key(p)] else [];
            Grouped(groups[key(p) := known + [p]], packages + [p], key)
  {
    hide Filtered, KeysOf;
    var known := if key(p) in groups then groups[key(p)] else [];
    GroupLookup(groups, packages, key, key(p));
    KeysStep(packages, key, p);
    forall k | k in groups[key(p) := known + [p]]
      ensures groups[key(p) := known + [p]][k] == Filtered(packages + [p], key, k)
    {
      FilteredStep(packages, key, p, k);
    }
  }

  lemma KeysStep(packages: seq<Package>, key: Package -> string, p: Package)
    ensures KeysOf(packages + [p], key) == KeysOf(packages, key) + {key(p)}
  {
  }

  lemma FilteredStep(packages: seq<Package>, key: Package -> string, p: Package, k: string)
    ensures Filtered(packages + [p], key, k) == Filtered(packages, key, k) + if key(p) == k then [p] else []
  {
    assert (packages + [p])[..|packages + [p]| - 1] == packages;
  }

  /** Looking a key up, with a missing entry read as an empty list. */
  lemma GroupLookup(groups: map<string, seq<Package>>, packages: seq<Package>, key: Package -> string, k: string)
    requires Grouped(groups, packages, key)
    ensures Filtered(packages, key, k) == if k in groups then groups[k] else []
    ensures k in groups <==> Filtered(packages, key, k) != []
  {
    var selected := Filtered(packages, key, k);
    if selected != [] {
      assert selected[0] in selected;
    }
    if k in groups {
      var p :| p in packages && key(p) == k;
      assert p in selected;
    }
  }

  method IdentitySet(packages: seq<Package>) returns (ids: set<string>)
    ensures ids == Identities(packages)
  {
    ids := {};
    for i := 0 to |packages|
      invariant ids == Identities(packages[..i])
    {
      assert packages[..i + 1] == packages[..i] + [packages[i]];
      ids := ids + {Identity(packages[i])};
    }
    assert packages[..|packages|] == packages;
  }

  method HasSetDifference(left: set<string>, right: set<string>) returns (differs: bool)
    ensures differs <==> !(left <= right)
  {
    var rest := left;
    while rest != {}
      invariant rest <= left && left - rest <= right
      decreases rest
    {
      var identity :| identity in rest;
      if identity !in right {
        return true;
      }
      rest := rest - {identity};
    }
    differs := false;
  }

  lemma MissingIsSetDifference(left: seq<Package>, right: seq<Package>)
    ensures HasMissing(left, right) <==> !(Identities(left) <= Identities(right))
  {
  }

  // ---------- Additions ----------

  datatype CompareError = InvalidEVR(p: Package)

  /** m maps each kind and architecture in the list to its latest version. */
  ghost predicate IsLatest<V(!new)>(m: map<string, V>, packages: seq<Package>, versions: Versions<V>) {
    && (forall q :: q in packages ==>
          && KindAndArchKey(q) in m && VersionOf(q, versions).Some?
          && versions.compare(m[KindAndArchKey(q)], VersionOf(q, versions).value) >= 0)
    && (forall k :: k in m ==> exists q :: q in packages && KindAndArchKey(q) == k && VersionOf(q, versions) == Some(m[k]))
  }

  /** The latest version of p's kind and architecture in the list. */
  ghost predicate IsLatestLike<V(!new)>(latest: V, p: Package, packages: seq<Package>, versions: Versions<V>) {
    && (exists q :: q in packages && q.kind == p.kind && q.arch == p.arch && VersionOf(q, versions) == Some(latest))
    && (forall q :: q in packages && q.kind == p.kind && q.arch == p.arch && VersionOf(q, versions).Some? ==>
          versions.compare(latest, VersionOf(q, versions).value) >= 0)
  }

  lemma LatestOfKindAndArch<V(!new)>(m: map<string, V>, packages: seq<Package>, versions: Versions<V>)
    requires AllNulFree(packages) && IsLatest(m, packages, versions)
    ensures forall p :: p in packages ==> KindAndArchKey(p) in m && IsLatestLike(m[KindAndArchKey(p)], p, packages, versions)
  {
    hide KindAndArchKey, NulFree, VersionOf;
    forall p, q | p in packages && q in packages
      ensures KindAndArchKey(q) == KindAndArchKey(p) <==> q.kind == p.kind && q.arch == p.arch
    {
      KindAndArchKeyMeans(q, p);
    }
  }

  method LatestVersionsByKindAndArch<V(!new)>(packages: seq<Package>, versions: Versions<V>)
    returns (r: Result<map<string, V>, CompareError>)
    requires TotalPreorder(versions)
    ensures r.Success? <==> AllParse(packages, versions)
    ensures r.Success? ==> IsLatest(r.value, packages, versions)
    ensures r.Success? && AllNulFree(packages) ==>
              forall p :: p in packages ==> KindAndArchKey(p) in r.value && IsLatestLike(r.value[KindAndArchKey(p)], p, packages, versions)
  {
    hide IsLatestLike, AllNulFree, KindAndArchKey;
    var latest: map<string, V> := map[];
    for i := 0 to |packages|
      invariant AllParse(packages[..i], versions) && IsLatest(latest, packages[..i], versions)
    {
      var p := packages[i];
      assert packages[..i + 1] == packages[..i] + [p];
      var version := VersionOf(p, versions);
      if version.None? {
        return Failure(InvalidEVR(p));
      }
      LatestStep(latest, packages[..i], versions, p);
      var key := KindAndArchKey(p);
      if key !in latest || versions.compare(version.value, latest[key]) > 0 {
        latest := latest[key := version.value];
      }
    }
    assert packages[..|packages|] == packages;
    if AllNulFree(packages) {
      LatestOfKindAndArch(latest, packages, versions);
    }
    r := Success(latest);
  }

  lemma LatestStep<V(!new)>(latest: map<string, V>, packages: seq<Package>, versions: Versions<V>, p: Package)
    requires TotalPreorder(versions) && IsLatest(latest, packages, versions) && VersionOf(p, versions).Some?
    ensures var v, key := VersionOf(p, versions).value, KindAndArchKey(p);
            IsLatest(if key !in latest || versions.compare(v, latest[key]) > 0 then latest[key := v] else latest,
                     packages + [p], versions)
  {
    var v, key := VersionOf(p, versions).value, KindAndArchKey(p);
    var newer := key !in latest || versions.compare(v, latest[key]) > 0;
    var next := if newer then latest[key := v] else latest;
    forall q | q in packages + [p]
      ensures KindAndArchKey(q) in next && VersionOf(q, versions).Some?
              && versions.compare(next[KindAndArchKey(q)], VersionOf(q, versions).value) >= 0
    {
      assert versions.compare(v, v) >= 0;
      if q in packages && KindAndArchKey(q) == key && newer {
        assert versions.compare(v, latest[key]) >= 0 && versions.compare(latest[key], VersionOf(q, versions).value) >= 0;
      }
    }
    forall k | k in next ensures exists q :: q in packages + [p] && KindAndArchKey(q) == k && VersionOf(q, versions) == Some(next[k]) {
      if newer && k == key {
        assert p in packages + [p];
      } else {
        var q :| q in packages && KindAndArchKey(q) == k && VersionOf(q, versions) == Some(latest[k]);
        assert q in packages + [p];
      }
    }
  }

  lemma NewEnoughIffLatest<V(!new)>(latest: map<string, V>, packages: seq<Package>, versions: Versions<V>, p: Package)
    requires TotalPreorder(versions) && IsLatest(latest, packages, versions) && VersionOf(p, versions).Some?
    ensures NewEnough(packages, p, versions) <==>
              KindAndArchKey(p) !in latest || versions.compare(VersionOf(p, versions).value, latest[KindAndArchKey(p)]) >= 0
  {
  }

  /** A right package that the left does not have. */
  ghost predicate IsNew(left: seq<Package>, p: Package) {
    Identity(p) !in Identities(left)
  }

  /** When ignoring older additions fails: some left version does not parse, or one of a new right package
      that comes before the first new enough one. */
  ghost predicate AdditionFails<V(!new)>(left: seq<Package>, right: seq<Package>, versions: Versions<V>) {
    || !AllParse(left, versions)
    || exists i :: 0 <= i < |right| && UnparsedAt(left, right, i, versions)
  }

  ghost predicate UnparsedAt<V(!new)>(left: seq<Package>, right: seq<Package>, i: int, versions: Versions<V>) {
    && 0 <= i < |right| && IsNew(left, right[i]) && VersionOf(right[i], versions).None?
    && forall j :: 0 <= j < i ==> !(IsNew(left, right[j]) && NewEnough(left, right[j], versions))
  }

  /** With "ignoreOlder", a name counts as added exactly when some right package that the left does
      not have is at least as new as every left package of its kind and architecture. */
  method HasUnignoredRightAddition<V(!new)>(left: seq<Package>, right: seq<Package>, leftIdentities: set<string>,
                                            ignoreOlder: bool, versions: Versions<V>)
    returns (r: Result<bool, CompareError>)
    requires TotalPreorder(versions) && leftIdentities == Identities(left)
    ensures r.Success? ==> (r.value <==> HasAdded(left, right, ignoreOlder, versions))
    ensures r.Success? && ignoreOlder && AllNulFree(left) && AllNulFree(right) ==> (r.value <==> HasNewerAddition(left, right, versions))
    ensures r.Failure? <==> ignoreOlder && AdditionFails(left, right, versions)
    ensures r.Failure? ==> VersionOf(r.error.p, versions).None? && (r.error.p in left || r.error.p in right)
  {
    hide TotalPreorder, IsLatest, NewEnough, Identity, Identities, KindAndArchKey, VersionOf, AdditionFails, UnparsedAt,
      AllNulFree, HasNewerAddition;
    if AllNulFree(left) && AllNulFree(right) {
      NewerAddition(left, right, versions);
    }
    if !ignoreOlder {
      var rightIdentities := IdentitySet(right);
      var differs := HasSetDifference(rightIdentities, leftIdentities);
      MissingIsSetDifference(right, left);
      return Success(differs);
    }
    var latestLeft := LatestVersionsByKindAndArch(left, versions);
    if latestLeft.Failure? {
      LeftFails(left, right, versions);
      var i :| 0 <= i < |left| && VersionOf(left[i], versions).None?;
      return Failure(InvalidEVR(left[i]));
    }
    for i := 0 to |right|
      invariant forall j :: 0 <= j < i ==> !(IsNew(left, right[j]) && NewEnough(left, right[j], versions))
      invariant forall j :: 0 <= j < i ==> !(IsNew(left, right[j]) && VersionOf(right[j], versions).None?)
    {
      var p := right[i];
      if Identity(p) in leftIdentities {
        continue;
      }
      var version := VersionOf(p, versions);
      if version.None? {
        RightFails(left, right, i, versions);
        return Failure(InvalidEVR(p));
      }
      NewEnoughIffLatest(latestLeft.value, left, versions, p);
      var key := KindAndArchKey(p);
      if key !in latestLeft.value || versions.compare(version.value, latestLeft.value[key]) >= 0 {
        NothingFails(left, right, i, versions);
        return Success(true);
      }
    }
    NothingFails(left, right, |right|, versions);
    r := Success(false);
  }

  lemma LeftFails<V(!new)>(left: seq<Package>, right: seq<Package>, versions: Versions<V>)
    requires !AllParse(left, versions)
    ensures AdditionFails(left, right, versions)
  {
  }

  lemma RightFails<V(!new)>(left: seq<Package>, right: seq<Package>, i: nat, versions: Versions<V>)
    requires i < |right| && IsNew(left, right[i]) && VersionOf(right[i], versions).None?
    requires forall j :: 0 <= j < i ==> !(IsNew(left, right[j]) && NewEnough(left, right[j], versions))
    ensures AdditionFails(left, right, versions)
  {
    hide IsNew, VersionOf, NewEnough;
    assert UnparsedAt(left, right, i, versions);
  }

  lemma NothingFails<V(!new)>(left: seq<Package>, right: seq<Package>, n: nat, versions: Versions<V>)
    requires AllParse(left, versions) && n <= |right|
    requires forall j :: 0 <= j < n ==> !(IsNew(left, right[j]) && VersionOf(right[j], versions).None?)
    requires n < |right| ==> IsNew(left, right[n]) && VersionOf(right[n], versions).Some? && NewEnough(left, right[n], versions)
    ensures !AdditionFails(left, right, versions)
  {
    hide IsNew, VersionOf, NewEnough;
  }

  // ---------- Architectures ----------

  method ArchesByVersionAndKind(packages: seq<Package>) returns (arches: map<string, seq<string>>)
    ensures forall k :: k in arches <==> ArchesOf(packages, k) != {}
    ensures forall k :: k in arches ==> arches[k] == Ascending(ArchesOf(packages, k))
  {
    hide Ascending, SortStrings, VersionAndKindKey, ArchesOf;
    NoArches(packages);
    var sets: map<string, set<string>> := map[];
    for i := 0 to |packages|
      invariant forall k :: k in sets <==> ArchesOf(packages[..i], k) != {}
      invariant forall k :: k in sets ==> sets[k] == ArchesOf(packages[..i], k)
    {
      var p := packages[i];
      var key := VersionAndKindKey(p);
      ArchesStep(packages[..i], p);
      assert packages[..i + 1] == packages[..i] + [p];
      sets := sets[key := (if key in sets then sets[key] else {}) + {p.arch}];
    }
    assert packages[..|packages|] == packages;
    arches := map[];
    var rest := sets.Keys;
    while rest != {}
      invariant rest <= sets.Keys && arches.Keys == sets.Keys - rest
      invariant forall k :: k in arches ==> arches[k] == Ascending(sets[k])
      decreases rest
    {
      var key :| key in rest;
      var collected := CollectKeys(sets[key]);
      AscendingIsTheSortOf(sets[key], collected);
      arches := arches[key := SortStrings(collected)];
      rest := rest - {key};
    }
  }

  lemma NoArches(packages: seq<Package>)
    ensures forall k :: ArchesOf(packages[..0], k) == {}
  {
  }

  lemma ArchesStep(packages: seq<Package>, p: Package)
    ensures forall k :: ArchesOf(packages + [p], k)
                     == ArchesOf(packages, k) + if k == VersionAndKindKey(p) then {p.arch} else {}
  {
    hide VersionAndKindKey;
    forall k ensures ArchesOf(packages + [p], k) == ArchesOf(packages, k) + if k == VersionAndKindKey(p) then {p.arch} else {} {
      assert p in packages + [p];
      assert forall q :: q in packages ==> q in packages + [p];
    }
  }

  lemma AscendingIsInjective(S: set<string>, T: set<string>)
    requires Ascending(S) == Ascending(T)
    ensures S == T
  {
    AscendingProperties(S);
    AscendingProperties(T);
  }

  method DetectArchitecturesDiffer(left: seq<Package>, right: seq<Package>) returns (differ: bool)
    ensures differ <==> ArchesDiffer(left, right)
    ensures AllNulFree(left) && AllRpmFields(left) && AllNulFree(right) && AllRpmFields(right) ==>
              (differ <==> ArchesDifferFor(left, right))
  {
    hide Ascending, ArchesOf, AllNulFree, AllRpmFields, ArchesDifferFor;
    if AllNulFree(left) && AllRpmFields(left) && AllNulFree(right) && AllRpmFields(right) {
      ArchesDifferMeans(left, right);
    }
    var leftArches := ArchesByVersionAndKind(left);
    var rightArches := ArchesByVersionAndKind(right);
    var rest := leftArches.Keys;
    while rest != {}
      invariant rest <= leftArches.Keys
      invariant forall k :: k in leftArches.Keys - rest && k in rightArches ==> ArchesOf(left, k) == ArchesOf(right, k)
      decreases rest
    {
      var key :| key in rest;
      if key in rightArches {
        if leftArches[key] != rightArches[key] {
          return true;
        }
        AscendingIsInjective(ArchesOf(left, key), ArchesOf(right, key));
      }
      rest := rest - {key};
    }
    differ := false;
  }

  // ---------- Content ----------

  function Variant(p: Package): string {
    p.checksumType + ":" + p.checksum + ":" + Digits(p.size)
  }

  ghost function Algorithms(packages: seq<Package>): set<string> {
    set p | p in packages :: p.checksumType
  }

  ghost function Variants(packages: seq<Package>): set<string> {
    set p | p in packages :: Variant(p)
  }

  /** What can be told of the packages' content: their checksums and sizes. */
  ghost function Contents(packages: seq<Package>): set<(string, nat)> {
    set p | p in packages :: (p.checksum, p.size)
  }

  /** Under one checksum algorithm the joined variant is checksum and size, whatever bytes they hold. */
  lemma VariantMeans(p: Package, q: Package)
    requires p.checksumType == q.checksumType
    ensures Variant(p) == Variant(q) <==> p.checksum == q.checksum && p.size == q.size
  {
    hide Digits;
    if Variant(p) == Variant(q) {
      assert Variant(p)[|p.checksumType| + 1..] == p.checksum + ":" + Digits(p.size);
      assert Variant(q)[|p.checksumType| + 1..] == q.checksum + ":" + Digits(q.size);
      NoColon(Digits(p.size));
      NoColon(Digits(q.size));
      SplitAtLast(':', p.checksum, Digits(p.size), q.checksum, Digits(q.size));
      ValueOfDigits(p.size);
      ValueOfDigits(q.size);
    }
  }

  lemma NoColon(digits: string)
    requires AllDigits(digits)
    ensures ':' !in digits
  {
  }

  lemma VariantsMean(left: seq<Package>, right: seq<Package>, algorithm: string)
    requires forall p :: p in left || p in right ==> p.checksumType == algorithm
    ensures Variants(left) == Variants(right) <==> Contents(left) == Contents(right)
  {
    hide Variant;
    forall p, q | (p in left || p in right) && (q in left || q in right)
      ensures Variant(p) == Variant(q) <==> p.checksum == q.checksum && p.size == q.size
    {
      VariantMeans(p, q);
    }
    VariantsFollow(left, right);
    VariantsFollow(right, left);
  }

  lemma VariantsFollow(left: seq<Package>, right: seq<Package>)
    requires forall p, q :: p in left && q in right ==>
               (Variant(p) == Variant(q) <==> p.checksum == q.checksum && p.size == q.size)
    ensures Variants(left) <= Variants(right) <==> Contents(left) <= Contents(right)
  {
    hide Variant;
    if Variants(left) <= Variants(right) {
      forall c | c in Contents(left) ensures c in Contents(right) {
        var p :| p in left && c == (p.checksum, p.size);
        assert Variant(p) in Variants(right);
      }
    }
    if Contents(left) <= Contents(right) {
      forall v | v in Variants(left) ensures v in Variants(right) {
        var p :| p in left && v == Variant(p);
        assert (p.checksum, p.size) in Contents(right);
      }
    }
  }

  lemma AlgorithmOf(packages: seq<Package>, algorithm: string)
    requires Ascending(Algorithms(packages)) == [algorithm]
    ensures forall p :: p in packages ==> p.checksumType == algorithm
  {
    AscendingProperties(Algorithms(packages));
    forall p | p in packages ensures p.checksumType == algorithm {
      assert p.checksumType in Algorithms(packages);
    }
  }

  ghost function WithIdentity(packages: seq<Package>, id: string): seq<Package> {
    Filtered(packages, Identity, id)
  }

  ghost predicate Shared(left: seq<Package>, right: seq<Package>, id: string) {
    WithIdentity(left, id) != [] && WithIdentity(right, id) != []
  }

  /** Both sides use one checksum algorithm, the same. */
  ghost predicate Comparable(left: seq<Package>, right: seq<Package>, id: string) {
    |Algorithms(WithIdentity(left, id))| == 1 && Algorithms(WithIdentity(left, id)) == Algorithms(WithIdentity(right, id))
  }

  ghost predicate DiffersAt(left: seq<Package>, right: seq<Package>, id: string) {
    && Shared(left, right, id) && Comparable(left, right, id)
    && Contents(WithIdentity(left, id)) != Contents(WithIdentity(right, id))
  }

  ghost predicate SkippedAt(left: seq<Package>, right: seq<Package>, id: string) {
    Shared(left, right, id) && !Comparable(left, right, id)
  }

  ghost predicate ContentDiffers(left: seq<Package>, right: seq<Package>) {
    exists id :: DiffersAt(left, right, id)
  }

  ghost predicate ContentSkipped(left: seq<Package>, right: seq<Package>) {
    exists id :: SkippedAt(left, right, id)
  }

  method ChecksumAlgorithms(packages: seq<Package>) returns (algorithms: seq<string>)
    ensures algorithms == Ascending(Algorithms(packages))
  {
    hide Ascending, SortStrings;
    var values: set<string> := {};
    for i := 0 to |packages|
      invariant values == Algorithms(packages[..i])
    {
      assert packages[..i + 1] == packages[..i] + [packages[i]];
      values := values + {packages[i].checksumType};
    }
    assert packages[..|packages|] == packages;
    var collected := CollectKeys(values);
    AscendingIsTheSortOf(values, collected);
    algorithms := SortStrings(collected);
  }

  method ChecksumVariants(packages: seq<Package>) returns (variants: seq<string>)
    ensures variants == Ascending(Variants(packages))
  {
    hide Ascending, SortStrings, Variant;
    var values: set<string> := {};
    for i := 0 to |packages|
      invariant values == Variants(packages[..i])
    {
      assert packages[..i + 1] == packages[..i] + [packages[i]];
      values := values + {Variant(packages[i])};
    }
    assert packages[..|packages|] == packages;
    var collected := CollectKeys(values);
    AscendingIsTheSortOf(values, collected);
    variants := SortStrings(collected);
  }

  /** The loop body of analyzeContent, for one identity. */
  method AnalyzeIdentity(left: seq<Package>, right: seq<Package>, id: string,
                         leftPackages: seq<Package>, rightPackages: seq<Package>)
    returns (different: bool, skipped: bool)
    requires leftPackages == WithIdentity(left, id) != [] && rightPackages == WithIdentity(right, id)
    ensures different <==> DiffersAt(left, right, id)
    ensures skipped <==> SkippedAt(left, right, id)
  {
    hide Ascending, Algorithms, Variants, WithIdentity;
    if |rightPackages| == 0 {
      return false, false;
    }
    var leftAlgorithms := ChecksumAlgorithms(leftPackages);
    var rightAlgorithms := ChecksumAlgorithms(rightPackages);
    OneAlgorithm(Algorithms(leftPackages), Algorithms(rightPackages));
    if |leftAlgorithms| != 1 || |rightAlgorithms| != 1 || leftAlgorithms[0] != rightAlgorithms[0] {
      return false, true;
    }
    var leftVariants := ChecksumVariants(leftPackages);
    var rightVariants := ChecksumVariants(rightPackages);
    if leftVariants == rightVariants {
      AscendingIsInjective(Variants(leftPackages), Variants(rightPackages));
    }
    AlgorithmOf(leftPackages, leftAlgorithms[0]);
    AlgorithmOf(rightPackages, leftAlgorithms[0]);
    VariantsMean(leftPackages, rightPackages, leftAlgorithms[0]);
    different, skipped := leftVariants != rightVariants, false;
  }

  /** The two flags of analyzeContent, over the identities in any order. */
  method AnalyzeContent(left: seq<Package>, right: seq<Package>, enabled: bool) returns (different: bool, skipped: bool)
    ensures different <==> enabled && ContentDiffers(left, right)
    ensures skipped <==> enabled && ContentSkipped(left, right)
  {
    hide Identity, Filtered, DiffersAt, SkippedAt, Grouped;
    different, skipped := false, false;
    if !enabled {
      return;
    }
    var leftByIdentity := GroupBy(left, Identity);
    var rightByIdentity := GroupBy(right, Identity);
    var rest := leftByIdentity.Keys;
    while rest != {}
      invariant rest <= leftByIdentity.Keys
      invariant different <==> exists id :: id in leftByIdentity.Keys - rest && DiffersAt(left, right, id)
      invariant skipped <==> exists id :: id in leftByIdentity.Keys - rest && SkippedAt(left, right, id)
      decreases rest
    {
      var identity :| identity in rest;
      GroupLookup(leftByIdentity, left, Identity, identity);
      GroupLookup(rightByIdentity, right, Identity, identity);
      var differs, skips := AnalyzeIdentity(left, right, identity, leftByIdentity[identity],
                                            if identity in rightByIdentity then rightByIdentity[identity] else []);
      rest := rest - {identity};
      different, skipped := different || differs, skipped || skips;
    }
    forall id | DiffersAt(left, right, id) || SkippedAt(left, right, id) ensures id in leftByIdentity {
      OnlyShared(left, right, id);
      GroupLookup(leftByIdentity, left, Identity, id);
    }
  }

  lemma OnlyShared(left: seq<Package>, right: seq<Package>, id: string)
    requires DiffersAt(left, right, id) || SkippedAt(left, right, id)
    ensures Filtered(left, Identity, id) != []
  {
  }

  lemma OneAlgorithm(S: set<string>, T: set<string>)
    ensures (|Ascending(S)| == 1 && |Ascending(T)| == 1 && Ascending(S)[0] == Ascending(T)[0]) <==> |S| == 1 && S == T
  {
    hide Ascending;
    AscendingProperties(S);
    AscendingProperties(T);
    if |Ascending(S)| == 1 && |Ascending(T)| == 1 && Ascending(S)[0] == Ascending(T)[0] {
      assert Ascending(S) == Ascending(T);
    }
  }
}
