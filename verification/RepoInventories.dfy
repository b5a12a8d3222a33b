/** internal/repo/repocompare/diff.go: reports over whole inventories, and their summary counts. */
module RepoInventories {
  import opened Wrappers
  import opened Strings
  import opened RepoMetadata
  import opened RepoReports
  import opened RepoCompare

  // ---------- Statuses of one name ----------

  ghost function If<T>(condition: bool, x: T): seq<T> {
    if condition then [x] else []
  }

  ghost function StatusList<V(!new)>(left: seq<Package>, right: seq<Package>, options: Options, versions: Versions<V>): seq<Status> {
    If(HasMissing(left, right), MissingFromRight)
    + If(HasAdded(left, right, options.ignoreOlderAddedInRight, versions), AddedInRight)
    + If(ArchesDiffer(left, right), ArchitecturesDiffer)
    + If(options.compareChecksums && ContentDiffers(left, right), ContentDifferent)
    + If(options.compareChecksums && ContentSkipped(left, right), ContentComparisonSkipped)
  }

  /** When a status is due. */
  ghost predicate Due<V(!new)>(s: Status, left: seq<Package>, right: seq<Package>, options: Options, versions: Versions<V>) {
    match s
    case MissingFromRight => HasMissing(left, right)
    case AddedInRight => HasAdded(left, right, options.ignoreOlderAddedInRight, versions)
    case ArchitecturesDiffer => ArchesDiffer(left, right)
    case ContentDifferent => options.compareChecksums && ContentDiffers(left, right)
    case ContentComparisonSkipped => options.compareChecksums && ContentSkipped(left, right)
  }

  lemma ListedIffDue<V(!new)>(left: seq<Package>, right: seq<Package>, options: Options, versions: Versions<V>)
    ensures forall s :: s in StatusList(left, right, options, versions) <==> Due(s, left, right, options, versions)
    ensures StatusList(left, right, options, versions) != [] <==>
              || Due(MissingFromRight, left, right, options, versions)
              || Due(AddedInRight, left, right, options, versions)
              || Due(ArchitecturesDiffer, left, right, options, versions)
              || Due(ContentDifferent, left, right, options, versions)
              || Due(ContentComparisonSkipped, left, right, options, versions)
  {
    hide HasMissing, HasAdded, ArchesDiffer, ContentDiffers, ContentSkipped;
    var list := StatusList(left, right, options, versions);
    assert forall s :: s in list <==> Due(s, left, right, options, versions);
    assert list != [] ==> Due(list[0], left, right, options, versions);
  }

  method PackageStatuses<V(!new)>(left: seq<Package>, right: seq<Package>, options: Options, versions: Versions<V>)
    returns (r: Result<seq<Status>, CompareError>)
    requires TotalPreorder(versions)
    ensures r.Success? ==> r.value == StatusList(left, right, options, versions)
    ensures r.Failure? <==> options.ignoreOlderAddedInRight && AdditionFails(left, right, versions)
    ensures r.Failure? ==> VersionOf(r.error.p, versions).None? && (r.error.p in left || r.error.p in right)
  {
    hide HasMissing, HasAdded, ArchesDiffer, ContentDiffers, ContentSkipped, TotalPreorder, Identities, VersionOf, Identity,
      KindAndArchKey, NormalizedEpoch, AllParse, AdditionFails;
    var leftIdentities := IdentitySet(left);
    var rightIdentities := IdentitySet(right);
    var statuses: seq<Status> := [];
    var missing := HasSetDifference(leftIdentities, rightIdentities);
    MissingIsSetDifference(left, right);
    if missing {
      statuses := statuses + [MissingFromRight];
    }
    ghost var list := If(missing, MissingFromRight);
    assert statuses == list;
    var added := HasUnignoredRightAddition(left, right, leftIdentities, options.ignoreOlderAddedInRight, versions);
    if added.Failure? {
      return Failure(added.error);
    }
    if added.value {
      statuses := statuses + [AddedInRight];
    }
    list := list + If(added.value, AddedInRight);
    assert statuses == list;
    var arches := DetectArchitecturesDiffer(left, right);
    if arches {
      statuses := statuses + [ArchitecturesDiffer];
    }
    list := list + If(arches, ArchitecturesDiffer);
    assert statuses == list;
    var different, skipped := AnalyzeContent(left, right, options.compareChecksums);
    if different {
      statuses := statuses + [ContentDifferent];
    }
    list := list + If(different, ContentDifferent);
    assert statuses == list;
    if skipped {
      statuses := statuses + [ContentComparisonSkipped];
    }
    r := Success(statuses);
  }

  // ---------- Sorted NEVRs ----------

  /** The version of the first package in the list with a given NEVR. */
  function FirstVersion<V>(packages: seq<Package>, nevr: string, versions: Versions<V>): Option<V> {
    if packages == [] then None
    else if NEVR(packages[0]) == nevr then VersionOf(packages[0], versions)
    else FirstVersion(packages[1..], nevr, versions)
  }

  ghost function NEVRs(packages: seq<Package>): set<string> {
    set p | p in packages :: NEVR(p)
  }

  /** The first package of each NEVR has a version that parses. */
  ghost predicate Sortable<V(!new)>(packages: seq<Package>, versions: Versions<V>) {
    forall n :: n in NEVRs(packages) ==> FirstVersion(packages, n, versions).Some?
  }

  lemma {:induction false} FirstVersionSnoc<V(!new)>(packages: seq<Package>, p: Package, n: string, versions: Versions<V>)
    ensures FirstVersion(packages + [p], n, versions)
         == if n in NEVRs(packages) then FirstVersion(packages, n, versions)
            else if NEVR(p) == n then VersionOf(p, versions) else None
  {
    hide VersionOf, NEVR;
    if packages != [] {
      assert (packages + [p])[1..] == packages[1..] + [p];
      assert packages == [packages[0]] + packages[1..];
      assert NEVRs(packages) == {NEVR(packages[0])} + NEVRs(packages[1..]);
      FirstVersionSnoc(packages[1..], p, n, versions);
    }
  }

  ghost predicate Descending<V(!new)>(names: seq<string>, m: map<string, V>, versions: Versions<V>) {
    && (forall n :: n in names ==> n in m)
    && forall i, j :: 0 <= i < j < |names| ==> versions.compare(m[names[i]], m[names[j]]) >= 0
  }

  function InsertByVersion<V(!new)>(n: string, sorted: seq<string>, m: map<string, V>, versions: Versions<V>): (r: seq<string>)
    requires TotalPreorder(versions) && n in m && Descending(sorted, m, versions)
    ensures Descending(r, m, versions) && multiset(r) == multiset{n} + multiset(sorted)
  {
    if sorted == [] then [n]
    else if versions.compare(m[n], m[sorted[0]]) >= 0 then
      InsertFirstByVersion(n, sorted, m, versions);
      [n] + sorted
    else
      TailDescends(sorted, m, versions);
      var rest := InsertByVersion(n, sorted[1..], m, versions);
      InsertLaterByVersion(n, sorted, rest, m, versions);
      [sorted[0]] + rest
  }

  lemma TailDescends<V(!new)>(sorted: seq<string>, m: map<string, V>, versions: Versions<V>)
    requires Descending(sorted, m, versions) && sorted != []
    ensures Descending(sorted[1..], m, versions)
  {
  }

  lemma InsertFirstByVersion<V(!new)>(n: string, sorted: seq<string>, m: map<string, V>, versions: Versions<V>)
    requires TotalPreorder(versions) && n in m && Descending(sorted, m, versions)
    requires sorted != [] && versions.compare(m[n], m[sorted[0]]) >= 0
    ensures Descending([n] + sorted, m, versions)
  {
    forall x | x in sorted ensures x in m && versions.compare(m[n], m[x]) >= 0 {
      if x != sorted[0] {
        FirstIsNewest(sorted, x, m, versions);
        assert versions.compare(m[sorted[0]], m[x]) >= 0;
      }
    }
    PrependDescending(n, sorted, m, versions);
  }

  lemma InsertLaterByVersion<V(!new)>(n: string, sorted: seq<string>, rest: seq<string>, m: map<string, V>, versions: Versions<V>)
    requires TotalPreorder(versions) && n in m && Descending(sorted, m, versions) && Descending(rest, m, versions)
    requires sorted != [] && versions.compare(m[n], m[sorted[0]]) < 0
    requires multiset(rest) == multiset{n} + multiset(sorted[1..])
    ensures Descending([sorted[0]] + rest, m, versions)
    ensures multiset([sorted[0]] + rest) == multiset{n} + multiset(sorted)
  {
    assert versions.compare(m[sorted[0]], m[n]) > 0;
    hide TotalPreorder;
    assert sorted == [sorted[0]] + sorted[1..];
    forall x | x in rest ensures x in m && versions.compare(m[sorted[0]], m[x]) >= 0 {
      assert x in multiset(rest);
      if x != n {
        FirstIsNewest(sorted, x, m, versions);
      }
    }
    PrependDescending(sorted[0], rest, m, versions);
  }

  lemma FirstIsNewest<V(!new)>(sorted: seq<string>, x: string, m: map<string, V>, versions: Versions<V>)
    requires Descending(sorted, m, versions) && sorted != [] && x in sorted[1..]
    ensures x in m && versions.compare(m[sorted[0]], m[x]) >= 0
  {
    var j :| 0 <= j < |sorted| - 1 && sorted[1..][j] == x;
    assert sorted[j + 1] == x;
  }

  lemma PrependDescending<V(!new)>(n: string, sorted: seq<string>, m: map<string, V>, versions: Versions<V>)
    requires Descending(sorted, m, versions) && n in m
    requires forall x :: x in sorted ==> x in m && versions.compare(m[n], m[x]) >= 0
    ensures Descending([n] + sorted, m, versions)
  {
  }

  function SortByVersion<V(!new)>(names: seq<string>, m: map<string, V>, versions: Versions<V>): (r: seq<string>)
    requires TotalPreorder(versions) && forall n :: n in names ==> n in m
    ensures Descending(r, m, versions) && multiset(r) == multiset(names)
  {
    if names == [] then []
    else
      assert names == [names[0]] + names[1..];
      InsertByVersion(names[0], SortByVersion(names[1..], m, versions), m, versions)
  }

  /** The distinct NEVRs, newest first; those whose versions compare equal come in any order. */
  ghost predicate NewestFirst<V(!new)>(nevrs: seq<string>, packages: seq<Package>, versions: Versions<V>) {
    && NoDuplicates(nevrs) && multiset(nevrs) == multiset(NEVRs(packages))
    && (forall i :: 0 <= i < |nevrs| ==> FirstVersion(packages, nevrs[i], versions).Some?)
    && forall i, j :: 0 <= i < j < |nevrs| ==>
         versions.compare(FirstVersion(packages, nevrs[i], versions).value, FirstVersion(packages, nevrs[j], versions).value) >= 0
  }

  method SortedNEVRs<V(!new)>(packages: seq<Package>, versions: Versions<V>) returns (r: Result<seq<string>, CompareError>)
    requires TotalPreorder(versions)
    ensures r.Success? <==> Sortable(packages, versions)
    ensures r.Success? ==> NewestFirst(r.value, packages, versions)
    ensures AllRpmFields(packages) ==> (r.Success? <==> AllParse(packages, versions))
    ensures r.Success? && AllRpmFields(packages) ==> NewerBefore(r.value, packages, versions)
  {
    hide TotalPreorder, SortByVersion, NEVR, VersionOf, FirstVersion, AllRpmFields, AllParse, NewerBefore;
    if AllRpmFields(packages) {
      SortableMeans(packages, versions);
    }
    var found: map<string, V> := map[];
    for i := 0 to |packages|
      invariant found.Keys == NEVRs(packages[..i])
      invariant forall n :: n in found ==> FirstVersion(packages[..i], n, versions) == Some(found[n])
    {
      var p := packages[i];
      var nevr := NEVR(p);
      assert packages[..i + 1] == packages[..i] + [p] && packages == packages[..i + 1] + packages[i + 1..];
      assert NEVRs(packages[..i + 1]) == NEVRs(packages[..i]) + {nevr};
      forall n ensures FirstVersion(packages[..i + 1], n, versions)
                    == if n in NEVRs(packages[..i]) then FirstVersion(packages[..i], n, versions)
                       else if nevr == n then VersionOf(p, versions) else None
      {
        FirstVersionSnoc(packages[..i], p, n, versions);
      }
      if nevr in found {
        continue;
      }
      var version := VersionOf(p, versions);
      if version.None? {
        FirstVersionStays(packages, i + 1, nevr, versions);
        return Failure(InvalidEVR(p));
      }
      found := found[nevr := version.value];
    }
    assert packages[..|packages|] == packages;
    var collected := CollectKeys(found.Keys);
    assert forall n :: n in collected <==> n in multiset(collected);
    var names := SortByVersion(collected, found, versions);
    MultisetSetNoDuplicates(found.Keys, names);
    DescendingIsNewestFirst(names, found, packages, versions);
    if AllRpmFields(packages) {
      NewestFirstMeans(names, packages, versions);
    }
    r := Success(names);
  }

  /** A package listed before another is at least as new. */
  ghost predicate NewerBefore<V(!new)>(nevrs: seq<string>, packages: seq<Package>, versions: Versions<V>) {
    forall p, q, i, j :: p in packages && q in packages && 0 <= i < j < |nevrs| && nevrs[i] == NEVR(p) && nevrs[j] == NEVR(q) ==>
      && VersionOf(p, versions).Some? && VersionOf(q, versions).Some?
      && versions.compare(VersionOf(p, versions).value, VersionOf(q, versions).value) >= 0
  }

  /** With RPM's fields every package of one NEVR has one version. */
  lemma {:induction false} OwnVersion<V(!new)>(packages: seq<Package>, p: Package, versions: Versions<V>)
    requires p in packages && forall q :: q in packages ==> RpmFields(q)
    ensures FirstVersion(packages, NEVR(p), versions) == VersionOf(p, versions)
  {
    hide NEVR, RpmFields, SameVersion;
    EVRMeans(packages[0], p);
    if NEVR(packages[0]) == NEVR(p) {
      SameVersionParses(packages[0], p, versions);
    } else {
      assert packages == [packages[0]] + packages[1..];
      OwnVersion(packages[1..], p, versions);
    }
  }

  lemma SameVersionParses<V>(p: Package, q: Package, versions: Versions<V>)
    requires SameVersion(p, q)
    ensures VersionOf(p, versions) == VersionOf(q, versions)
  {
  }

  lemma SortableMeans<V(!new)>(packages: seq<Package>, versions: Versions<V>)
    requires AllRpmFields(packages)
    ensures Sortable(packages, versions) <==> AllParse(packages, versions)
  {
    hide NEVR, FirstVersion, VersionOf, RpmFields;
    forall p | p in packages ensures FirstVersion(packages, NEVR(p), versions) == VersionOf(p, versions) {
      OwnVersion(packages, p, versions);
    }
    forall i | 0 <= i < |packages| ensures packages[i] in packages && NEVR(packages[i]) in NEVRs(packages) {
    }
  }

  lemma NewestFirstMeans<V(!new)>(nevrs: seq<string>, packages: seq<Package>, versions: Versions<V>)
    requires AllRpmFields(packages) && NewestFirst(nevrs, packages, versions)
    ensures NewerBefore(nevrs, packages, versions)
  {
    hide NEVR, FirstVersion, VersionOf, RpmFields;
    forall p | p in packages ensures FirstVersion(packages, NEVR(p), versions) == VersionOf(p, versions) {
      OwnVersion(packages, p, versions);
    }
  }

  lemma DescendingIsNewestFirst<V(!new)>(names: seq<string>, found: map<string, V>, packages: seq<Package>, versions: Versions<V>)
    requires Descending(names, found, versions) && NoDuplicates(names) && multiset(names) == multiset(NEVRs(packages))
    requires forall n :: n in found ==> FirstVersion(packages, n, versions) == Some(found[n])
    ensures NewestFirst(names, packages, versions)
  {
    hide NEVRs, FirstVersion;
    assert forall i :: 0 <= i < |names| ==> names[i] in names;
  }

  /** A column of a report: the NEVRs of one side, newest first, joined. */
  ghost predicate NEVRColumn<V(!new)>(column: string, packages: seq<Package>, versions: Versions<V>) {
    exists nevrs :: NewestFirst(nevrs, packages, versions) && column == Join(nevrs, ", ")
  }

  lemma JoinedColumn<V(!new)>(nevrs: seq<string>, packages: seq<Package>, versions: Versions<V>)
    requires NewestFirst(nevrs, packages, versions)
    ensures NEVRColumn(Join(nevrs, ", "), packages, versions)
  {
  }

  lemma {:induction false} FirstVersionStays<V(!new)>(packages: seq<Package>, i: nat, n: string, versions: Versions<V>)
    requires i <= |packages| && n in NEVRs(packages[..i])
    ensures FirstVersion(packages, n, versions) == FirstVersion(packages[..i], n, versions) && n in NEVRs(packages)
    decreases |packages| - i
  {
    hide FirstVersion, NEVRs;
    if i == |packages| {
      assert packages[..i] == packages;
    } else {
      assert packages[..i + 1] == packages[..i] + [packages[i]];
      FirstVersionSnoc(packages[..i], packages[i], n, versions);
      NEVRsGrow(packages[..i], packages[i], n);
      FirstVersionStays(packages, i + 1, n, versions);
    }
  }

  lemma NEVRsGrow(packages: seq<Package>, p: Package, n: string)
    requires n in NEVRs(packages)
    ensures n in NEVRs(packages + [p])
  {
    hide NEVR;
    var q :| q in packages && NEVR(q) == n;
    assert q in packages + [p];
  }

  // ---------- Comparing inventories ----------

  function NameOf(p: Package): string {
    p.name
  }

  ghost function Named(packages: seq<Package>, name: string): seq<Package> {
    Filtered(packages, NameOf, name)
  }

  ghost function AllNames(left: seq<Package>, right: seq<Package>): set<string> {
    KeysOf(left, NameOf) + KeysOf(right, NameOf)
  }

  ghost function StatusesOf<V(!new)>(left: seq<Package>, right: seq<Package>, name: string, options: Options,
                                     versions: Versions<V>): seq<Status>
  {
    StatusList(Named(left, name), Named(right, name), options, versions)
  }

  /** The names with a status, in the order of "names", each with its statuses. */
  ghost function Reported<V(!new)>(names: seq<string>, left: seq<Package>, right: seq<Package>, options: Options,
                                   versions: Versions<V>): seq<(string, seq<Status>)>
  {
    if names == [] then []
    else
      var last := names[|names| - 1];
      var statuses := StatusesOf(left, right, last, options, versions);
      Reported(names[..|names| - 1], left, right, options, versions) + If(statuses != [], (last, statuses))
  }

  ghost predicate Describe(reports: seq<PackageReport>, entries: seq<(string, seq<Status>)>) {
    && |reports| == |entries|
    && forall i :: 0 <= i < |reports| ==>
         entries[i].1 != [] && reports[i].name == entries[i].0 && reports[i].summary == JoinStatuses(entries[i].1)
  }

  ghost predicate BothSortable<V(!new)>(left: seq<Package>, right: seq<Package>, name: string, versions: Versions<V>) {
    Sortable(Named(left, name), versions) && Sortable(Named(right, name), versions)
  }

  ghost predicate NameFails<V(!new)>(left: seq<Package>, right: seq<Package>, name: string, versions: Versions<V>) {
    AdditionFails(Named(left, name), Named(right, name), versions)
  }

  /** A name that cannot be reported: ignoring older additions fails on it, or it has a status and one of
      the versions to sort does not parse. */
  ghost predicate Unreportable<V(!new)>(left: seq<Package>, right: seq<Package>, name: string, options: Options, versions: Versions<V>) {
    && name in AllNames(left, right)
    && (|| (options.ignoreOlderAddedInRight && NameFails(left, right, name, versions))
        || (StatusesOf(left, right, name, options, versions) != [] && !BothSortable(left, right, name, versions)))
  }

  /** Each report shows the NEVRs of its name on either side. */
  ghost predicate Columns<V(!new)>(reports: seq<PackageReport>, left: seq<Package>, right: seq<Package>, versions: Versions<V>) {
    forall report :: report in reports ==>
      && NEVRColumn(report.leftNEVRs, Named(left, report.name), versions)
      && NEVRColumn(report.rightNEVRs, Named(right, report.name), versions)
  }

  method UnionNames(left: map<string, seq<Package>>, right: map<string, seq<Package>>) returns (names: seq<string>)
    ensures names == Ascending(left.Keys + right.Keys)
  {
    hide Ascending, SortStrings;
    var collected := CollectKeys(left.Keys + right.Keys);
    AscendingIsTheSortOf(left.Keys + right.Keys, collected);
    names := SortStrings(collected);
  }

  ghost predicate Unparsed<V(!new)>(packages: seq<Package>, versions: Versions<V>) {
    exists p :: p in packages && VersionOf(p, versions).None?
  }

  lemma UnsortableIsUnparsed<V(!new)>(packages: seq<Package>, versions: Versions<V>)
    ensures !Sortable(packages, versions) ==> Unparsed(packages, versions)
  {
    hide VersionOf, NEVR;
    if !Sortable(packages, versions) {
      var n :| n in NEVRs(packages) && FirstVersion(packages, n, versions).None?;
      UnversionedIsUnparsed(packages, n, versions);
    }
  }

  lemma {:induction false} UnversionedIsUnparsed<V(!new)>(packages: seq<Package>, n: string, versions: Versions<V>)
    requires n in NEVRs(packages) && FirstVersion(packages, n, versions).None?
    ensures Unparsed(packages, versions)
  {
    hide VersionOf, NEVR;
    if NEVR(packages[0]) != n {
      assert packages == [packages[0]] + packages[1..];
      UnversionedIsUnparsed(packages[1..], n, versions);
    }
  }

  lemma FoundUnparsed<V(!new)>(p: Package, left: seq<Package>, right: seq<Package>, versions: Versions<V>)
    requires (p in left || p in right) && VersionOf(p, versions).None?
    ensures Unparsed(left, versions) || Unparsed(right, versions)
  {
    hide VersionOf;
  }

  lemma NamedUnparsed<V(!new)>(packages: seq<Package>, n: string, versions: Versions<V>)
    ensures Unparsed(Named(packages, n), versions) ==> Unparsed(packages, versions)
  {
    hide VersionOf;
  }

  /** The body of the loop over names: nothing for a name without a status. */
  method ReportOn<V(!new)>(name: string, left: seq<Package>, right: seq<Package>, options: Options, versions: Versions<V>)
    returns (r: Result<Option<PackageReport>, CompareError>)
    requires TotalPreorder(versions)
    ensures r.Success? ==> (r.value.None? <==> StatusList(left, right, options, versions) == [])
    ensures r.Success? && r.value.Some? ==>
              && Sortable(left, versions) && Sortable(right, versions) && r.value.value.name == name
              && r.value.value.summary == JoinStatuses(StatusList(left, right, options, versions))
              && NEVRColumn(r.value.value.leftNEVRs, left, versions) && NEVRColumn(r.value.value.rightNEVRs, right, versions)
    ensures r.Failure? <==>
              || (options.ignoreOlderAddedInRight && AdditionFails(left, right, versions))
              || (StatusList(left, right, options, versions) != [] && !(Sortable(left, versions) && Sortable(right, versions)))
    ensures r.Failure? ==> Unparsed(left, versions) || Unparsed(right, versions)
  {
    hide *;
    UnsortableIsUnparsed(left, versions);
    UnsortableIsUnparsed(right, versions);
    var statuses := PackageStatuses(left, right, options, versions);
    if statuses.Failure? {
      FoundUnparsed(statuses.error.p, left, right, versions);
      return Failure(statuses.error);
    }
    if |statuses.value| == 0 {
      return Success(None);
    }
    var leftNEVRs := SortedNEVRs(left, versions);
    if leftNEVRs.Failure? {
      return Failure(leftNEVRs.error);
    }
    var rightNEVRs := SortedNEVRs(right, versions);
    if rightNEVRs.Failure? {
      return Failure(rightNEVRs.error);
    }
    JoinedColumn(leftNEVRs.value, left, versions);
    JoinedColumn(rightNEVRs.value, right, versions);
    r := Success(Some(PackageReport(name, JoinStatuses(statuses.value),
                                    Join(leftNEVRs.value, ", "), Join(rightNEVRs.value, ", "))));
  }

  /** One report for each name with a status, in increasing order of names; fails exactly when some name
      cannot be reported. */
  method CompareWithOptions<V(!new)>(left: seq<Package>, right: seq<Package>, options: Options, versions: Versions<V>)
    returns (r: Result<seq<PackageReport>, CompareError>)
    requires TotalPreorder(versions)
    ensures r.Success? ==> Describe(r.value, Reported(Ascending(AllNames(left, right)), left, right, options, versions))
    ensures r.Success? ==> Columns(r.value, left, right, versions)
    ensures r.Failure? <==> exists n :: Unreportable(left, right, n, options, versions)
    ensures r.Failure? ==> Unparsed(left, versions) || Unparsed(right, versions)
  {
    hide *;
    var leftByName := GroupBy(left, NameOf);
    var rightByName := GroupBy(right, NameOf);
    GroupedNames(leftByName, rightByName, left, right);
    var names := UnionNames(leftByName, rightByName);
    var reports: seq<PackageReport> := [];
    NothingReported(names, left, right, options, versions);
    NoColumns(left, right, versions);
    for i := 0 to |names|
      invariant ReportedSoFar(reports, names[..i], left, right, options, versions) && Columns(reports, left, right, versions)
    {
      var name := names[i];
      var leftPackages := if name in leftByName then leftByName[name] else [];
      var rightPackages := if name in rightByName then rightByName[name] else [];
      var report := ReportOn(name, leftPackages, rightPackages, options, versions);
      NamedLookup(leftByName, rightByName, left, right, name, options, versions);
      if report.Failure? {
        FoundUnreportable(left, right, names, i, options, versions);
        NamedUnparsed(left, name, versions);
        NamedUnparsed(right, name, versions);
        return Failure(report.error);
      }
      ReportStep(reports, names, i, report.value, left, right, options, versions);
      if report.value.Some? {
        ColumnsStep(reports, report.value.value, left, right, versions);
        reports := reports + [report.value.value];
      }
    }
    assert names[..|names|] == names;
    OnlyNamesAreUnreportable(reports, names, left, right, options, versions);
    r := Success(reports);
  }

  ghost predicate ReportedSoFar<V(!new)>(reports: seq<PackageReport>, names: seq<string>, left: seq<Package>, right: seq<Package>,
                                         options: Options, versions: Versions<V>)
  {
    && Describe(reports, Reported(names, left, right, options, versions))
    && forall n :: n in names ==> !Unreportable(left, right, n, options, versions)
  }

  lemma NothingReported<V(!new)>(names: seq<string>, left: seq<Package>, right: seq<Package>, options: Options, versions: Versions<V>)
    ensures ReportedSoFar([], names[..0], left, right, options, versions)
  {
  }

  lemma NoColumns<V(!new)>(left: seq<Package>, right: seq<Package>, versions: Versions<V>)
    ensures Columns([], left, right, versions)
  {
  }

  lemma ColumnsStep<V(!new)>(reports: seq<PackageReport>, report: PackageReport, left: seq<Package>, right: seq<Package>,
                             versions: Versions<V>)
    requires Columns(reports, left, right, versions)
    requires NEVRColumn(report.leftNEVRs, Named(left, report.name), versions)
    requires NEVRColumn(report.rightNEVRs, Named(right, report.name), versions)
    ensures Columns(reports + [report], left, right, versions)
  {
    hide NEVRColumn, Named;
  }

  lemma ReportStep<V(!new)>(reports: seq<PackageReport>, names: seq<string>, i: nat, report: Option<PackageReport>,
                            left: seq<Package>, right: seq<Package>, options: Options, versions: Versions<V>)
    requires i < |names| && ReportedSoFar(reports, names[..i], left, right, options, versions)
    requires report.None? <==> StatusesOf(left, right, names[i], options, versions) == []
    requires !(options.ignoreOlderAddedInRight && NameFails(left, right, names[i], versions))
    requires report.Some? ==> report.value.name == names[i] && BothSortable(left, right, names[i], versions)
                              && report.value.summary == JoinStatuses(StatusesOf(left, right, names[i], options, versions))
    ensures ReportedSoFar(if report.Some? then reports + [report.value] else reports, names[..i + 1], left, right, options, versions)
  {
    hide JoinStatuses, StatusesOf, BothSortable, NameFails;
    assert names[..i + 1][..i] == names[..i];
    assert names[..i + 1] == names[..i] + [names[i]];
  }

  lemma OnlyNamesAreUnreportable<V(!new)>(reports: seq<PackageReport>, names: seq<string>, left: seq<Package>, right: seq<Package>,
                                          options: Options, versions: Versions<V>)
    requires names == Ascending(AllNames(left, right)) && ReportedSoFar(reports, names, left, right, options, versions)
    ensures Describe(reports, Reported(names, left, right, options, versions))
    ensures forall n :: !Unreportable(left, right, n, options, versions)
  {
    hide StatusesOf, BothSortable, AllNames, Ascending, Describe, Reported, NameFails;
    AscendingProperties(AllNames(left, right));
  }

  lemma FoundUnreportable<V(!new)>(left: seq<Package>, right: seq<Package>, names: seq<string>, i: nat, options: Options,
                                   versions: Versions<V>)
    requires names == Ascending(AllNames(left, right)) && i < |names|
    requires || (options.ignoreOlderAddedInRight && NameFails(left, right, names[i], versions))
             || (StatusesOf(left, right, names[i], options, versions) != [] && !BothSortable(left, right, names[i], versions))
    ensures exists n :: Unreportable(left, right, n, options, versions)
  {
    hide StatusesOf, BothSortable, AllNames, Ascending, NameFails;
    AscendingProperties(AllNames(left, right));
    assert names[i] in names;
    assert Unreportable(left, right, names[i], options, versions);
  }

  lemma GroupedNames(leftByName: map<string, seq<Package>>, rightByName: map<string, seq<Package>>,
                     left: seq<Package>, right: seq<Package>)
    requires Grouped(leftByName, left, NameOf) && Grouped(rightByName, right, NameOf)
    ensures leftByName.Keys + rightByName.Keys == AllNames(left, right)
  {
  }

  lemma NamedLookup<V(!new)>(leftByName: map<string, seq<Package>>, rightByName: map<string, seq<Package>>,
                             left: seq<Package>, right: seq<Package>, name: string, options: Options, versions: Versions<V>)
    requires Grouped(leftByName, left, NameOf) && Grouped(rightByName, right, NameOf)
    ensures var leftPackages := if name in leftByName then leftByName[name] else [];
            var rightPackages := if name in rightByName then rightByName[name] else [];
            && StatusesOf(left, right, name, options, versions) == StatusList(leftPackages, rightPackages, options, versions)
            && (BothSortable(left, right, name, versions) <==> Sortable(leftPackages, versions) && Sortable(rightPackages, versions))
            && (NameFails(left, right, name, versions) <==> AdditionFails(leftPackages, rightPackages, versions))
            && leftPackages == Named(left, name) && rightPackages == Named(right, name)
  {
    hide Grouped, StatusList, Sortable, Filtered, AdditionFails;
    GroupLookup(leftByName, left, NameOf, name);
    GroupLookup(rightByName, right, NameOf, name);
  }

  // ---------- Summaries ----------

  datatype DiffStat = DiffStat(
    missingFromRight: nat,
    addedInRight: nat,
    architecturesDiffer: nat,
    contentDifferent: nat,
    contentComparisonSkipped: nat,
    total: nat)

  ghost function Count(reports: seq<PackageReport>, status: Status): nat {
    if reports == [] then 0
    else Count(reports[..|reports| - 1], status) + if HasStatus(reports[|reports| - 1].summary, status) then 1 else 0
  }

  method Summarize(reports: seq<PackageReport>) returns (stat: DiffStat)
    ensures stat == DiffStat(Count(reports, MissingFromRight), Count(reports, AddedInRight), Count(reports, ArchitecturesDiffer),
                             Count(reports, ContentDifferent), Count(reports, ContentComparisonSkipped), |reports|)
  {
    hide HasStatus;
    stat := DiffStat(0, 0, 0, 0, 0, |reports|);
    for i := 0 to |reports|
      invariant stat == DiffStat(Count(reports[..i], MissingFromRight), Count(reports[..i], AddedInRight),
                                 Count(reports[..i], ArchitecturesDiffer), Count(reports[..i], ContentDifferent),
                                 Count(reports[..i], ContentComparisonSkipped), |reports|)
    {
      assert reports[..i + 1][..i] == reports[..i];
      var summary := reports[i].summary;
      if HasStatus(summary, MissingFromRight) {
        stat := stat.(missingFromRight := stat.missingFromRight + 1);
      }
      if HasStatus(summary, AddedInRight) {
        stat := stat.(addedInRight := stat.addedInRight + 1);
      }
      if HasStatus(summary, ArchitecturesDiffer) {
        stat := stat.(architecturesDiffer := stat.architecturesDiffer + 1);
      }
      if HasStatus(summary, ContentDifferent) {
        stat := stat.(contentDifferent := stat.contentDifferent + 1);
      }
      if HasStatus(summary, ContentComparisonSkipped) {
        stat := stat.(contentComparisonSkipped := stat.contentComparisonSkipped + 1);
      }
    }
    assert reports[..|reports|] == reports;
  }

  // ---------- Swapping the sides ----------

  function Mirrored(s: Status): Status {
    match s
    case MissingFromRight => AddedInRight
    case AddedInRight => MissingFromRight
    case _ => s
  }

  lemma StatusesMirror<V(!new)>(left: seq<Package>, right: seq<Package>, options: Options, versions: Versions<V>, s: Status)
    requires !options.ignoreOlderAddedInRight
    ensures s in StatusList(left, right, options, versions) <==> Mirrored(s) in StatusList(right, left, options, versions)
    ensures StatusList(left, right, options, versions) == [] <==> StatusList(right, left, options, versions) == []
  {
    hide HasMissing, ContentDiffers, ContentSkipped, ArchesDiffer, StatusList;
    ContentIsSymmetric(left, right);
    ArchesDifferIsSymmetric(left, right);
    ListedIffDue(left, right, options, versions);
    ListedIffDue(right, left, options, versions);
    forall t: Status ensures Due(t, left, right, options, versions) <==> Due(Mirrored(t), right, left, options, versions) {
    }
  }

  lemma ArchesDifferIsSymmetric(left: seq<Package>, right: seq<Package>)
    ensures ArchesDiffer(left, right) <==> ArchesDiffer(right, left)
  {
    hide ArchesOf;
  }

  lemma ContentIsSymmetric(left: seq<Package>, right: seq<Package>)
    ensures ContentDiffers(left, right) <==> ContentDiffers(right, left)
    ensures ContentSkipped(left, right) <==> ContentSkipped(right, left)
  {
    hide WithIdentity, Algorithms, Variants;
    forall id ensures (DiffersAt(left, right, id) <==> DiffersAt(right, left, id))
                   && (SkippedAt(left, right, id) <==> SkippedAt(right, left, id)) {
    }
  }

  lemma {:induction false} ReportedMirror<V(!new)>(names: seq<string>, left: seq<Package>, right: seq<Package>, options: Options,
                                                   versions: Versions<V>)
    requires !options.ignoreOlderAddedInRight
    ensures var one, other := Reported(names, left, right, options, versions), Reported(names, right, left, options, versions);
            && |one| == |other|
            && forall i, s :: 0 <= i < |one| ==> (s in one[i].1 <==> Mirrored(s) in other[i].1)
  {
    hide StatusList, Named;
    if names != [] {
      var last := names[|names| - 1];
      ReportedMirror(names[..|names| - 1], left, right, options, versions);
      forall s {
        StatusesMirror(Named(left, last), Named(right, last), options, versions, s);
      }
      StatusesMirror(Named(left, last), Named(right, last), options, versions, MissingFromRight);
    }
  }

  lemma {:induction false} CountsMirror(one: seq<PackageReport>, other: seq<PackageReport>, s: Status)
    requires |one| == |other|
    requires forall i :: 0 <= i < |one| ==> (HasStatus(one[i].summary, s) <==> HasStatus(other[i].summary, Mirrored(s)))
    ensures Count(one, s) == Count(other, Mirrored(s))
  {
    hide HasStatus;
    if one != [] {
      CountsMirror(one[..|one| - 1], other[..|other| - 1], s);
    }
  }

  lemma MirroredReports<V(!new)>(one: seq<PackageReport>, other: seq<PackageReport>, left: seq<Package>, right: seq<Package>,
                                 names: seq<string>, options: Options, versions: Versions<V>, s: Status)
    requires !options.ignoreOlderAddedInRight
    requires Describe(one, Reported(names, left, right, options, versions))
    requires Describe(other, Reported(names, right, left, options, versions))
    ensures |one| == |other| && Count(one, s) == Count(other, Mirrored(s))
  {
    hide HasStatus, Reported, JoinStatuses;
    ReportedMirror(names, left, right, options, versions);
    var entries, swapped := Reported(names, left, right, options, versions), Reported(names, right, left, options, versions);
    forall i | 0 <= i < |one| ensures HasStatus(one[i].summary, s) <==> HasStatus(other[i].summary, Mirrored(s)) {
      HasStatusIffListed(entries[i].1, s);
      HasStatusIffListed(swapped[i].1, Mirrored(s));
    }
    CountsMirror(one, other, s);
  }

  /** The summary says of how many names a status is due, and how many have one at all. */
  ghost predicate Tallies<V(!new)>(stat: DiffStat, left: seq<Package>, right: seq<Package>, options: Options, versions: Versions<V>) {
    && stat.missingFromRight == Tally(AllNames(left, right), MissingFromRight, left, right, options, versions)
    && stat.addedInRight == Tally(AllNames(left, right), AddedInRight, left, right, options, versions)
    && stat.architecturesDiffer == Tally(AllNames(left, right), ArchitecturesDiffer, left, right, options, versions)
    && stat.contentDifferent == Tally(AllNames(left, right), ContentDifferent, left, right, options, versions)
    && stat.contentComparisonSkipped == Tally(AllNames(left, right), ContentComparisonSkipped, left, right, options, versions)
    && stat.total == |NamesWithStatus(AllNames(left, right), left, right, options, versions)|
  }

  ghost function Selected(names: set<string>, p: string -> bool): set<string> {
    set n | n in names && p(n)
  }

  ghost function DueFor<V(!new)>(s: Status, left: seq<Package>, right: seq<Package>, options: Options, versions: Versions<V>): string -> bool {
    n => Due(s, Named(left, n), Named(right, n), options, versions)
  }

  ghost function AnyDueFor<V(!new)>(left: seq<Package>, right: seq<Package>, options: Options, versions: Versions<V>): string -> bool {
    n => exists s: Status :: Due(s, Named(left, n), Named(right, n), options, versions)
  }

  ghost function Tally<V(!new)>(names: set<string>, s: Status, left: seq<Package>, right: seq<Package>, options: Options,
                                versions: Versions<V>): nat
  {
    |Selected(names, DueFor(s, left, right, options, versions))|
  }

  ghost function NamesWithStatus<V(!new)>(names: set<string>, left: seq<Package>, right: seq<Package>, options: Options,
                                          versions: Versions<V>): set<string>
  {
    Selected(names, AnyDueFor(left, right, options, versions))
  }

  lemma {:induction false} CountIsTally<V(!new)>(reports: seq<PackageReport>, names: seq<string>, left: seq<Package>,
                                                 right: seq<Package>, options: Options, versions: Versions<V>, s: Status)
    requires NoDuplicates(names) && Describe(reports, Reported(names, left, right, options, versions))
    ensures Count(reports, s) == Tally(Elements(names), s, left, right, options, versions)
    ensures |reports| == |NamesWithStatus(Elements(names), left, right, options, versions)|
    decreases |names|
  {
    hide StatusList, Due, HasStatus, JoinStatuses, Named, Describe, Tally, NamesWithStatus, Elements, NoDuplicates;
    if names == [] {
      NothingDescribed(reports);
      NothingToTally(s, left, right, options, versions);
    } else {
      var front, last := names[..|names| - 1], names[|names| - 1];
      var statuses := StatusesOf(left, right, last, options, versions);
      ListedIffDue(Named(left, last), Named(right, last), options, versions);
      assert statuses != [] <==> exists t: Status :: t in statuses by {
        assert statuses != [] ==> statuses[0] in statuses;
      }
      var earlier := Reported(front, left, right, options, versions);
      var before := DescribeFront(reports, earlier, last, statuses);
      FrontIsDistinct(names);
      CountIsTally(before, front, left, right, options, versions, s);
      if statuses != [] {
        HasStatusIffListed(statuses, s);
      }
      assert names == front + [last];
      TallySnoc(front, last, s, left, right, options, versions);
    }
  }

  lemma NothingDescribed(reports: seq<PackageReport>)
    ensures Describe(reports, []) ==> reports == []
  {
  }

  lemma FrontIsDistinct(names: seq<string>)
    requires NoDuplicates(names) && names != []
    ensures NoDuplicates(names[..|names| - 1]) && names[|names| - 1] !in names[..|names| - 1]
  {
  }

  lemma DescribeFront(reports: seq<PackageReport>, entries: seq<(string, seq<Status>)>, last: string, statuses: seq<Status>)
    returns (before: seq<PackageReport>)
    requires Describe(reports, entries + If(statuses != [], (last, statuses)))
    ensures Describe(before, entries)
    ensures if statuses == [] then before == reports
            else reports != [] && before == reports[..|reports| - 1] && reports[|reports| - 1].summary == JoinStatuses(statuses)
  {
    hide JoinStatuses;
    var all := entries + If(statuses != [], (last, statuses));
    assert forall i :: 0 <= i < |entries| ==> all[i] == entries[i];
    if statuses == [] {
      assert all == entries;
      before := reports;
    } else {
      assert all[|entries|] == (last, statuses);
      before := reports[..|reports| - 1];
    }
  }

  lemma NothingToTally<V(!new)>(s: Status, left: seq<Package>, right: seq<Package>, options: Options, versions: Versions<V>)
    ensures Tally(Elements([]), s, left, right, options, versions) == 0
    ensures NamesWithStatus(Elements([]), left, right, options, versions) == {}
  {
    assert Elements<string>([]) == {};
  }

  lemma TallySnoc<V(!new)>(front: seq<string>, last: string, s: Status, left: seq<Package>, right: seq<Package>,
                           options: Options, versions: Versions<V>)
    requires NoDuplicates(front + [last])
    ensures Tally(Elements(front + [last]), s, left, right, options, versions)
         == Tally(Elements(front), s, left, right, options, versions)
            + if Due(s, Named(left, last), Named(right, last), options, versions) then 1 else 0
    ensures |NamesWithStatus(Elements(front + [last]), left, right, options, versions)|
         == |NamesWithStatus(Elements(front), left, right, options, versions)|
            + if exists t: Status :: Due(t, Named(left, last), Named(right, last), options, versions) then 1 else 0
  {
    hide Due, Named, NoDuplicates, Elements;
    FrontIsDistinct(front + [last]);
    assert (front + [last])[..|front|] == front;
    ElementsSnoc(front, last);
    NotAnElement(front, last);
    SelectOneMore(Elements(front), last, DueFor(s, left, right, options, versions));
    SelectOneMore(Elements(front), last, AnyDueFor(left, right, options, versions));
  }

  lemma NotAnElement(names: seq<string>, n: string)
    requires n !in names
    ensures n !in Elements(names)
  {
  }

  lemma SelectOneMore(names: set<string>, last: string, p: string -> bool)
    requires last !in names
    ensures |Selected(names + {last}, p)| == |Selected(names, p)| + if p(last) then 1 else 0
  {
    assert Selected(names + {last}, p) == Selected(names, p) + if p(last) then {last} else {};
  }

  lemma CountsTally<V(!new)>(reports: seq<PackageReport>, stat: DiffStat, left: seq<Package>, right: seq<Package>,
                             options: Options, versions: Versions<V>)
    requires Describe(reports, Reported(Ascending(AllNames(left, right)), left, right, options, versions))
    requires stat == DiffStat(Count(reports, MissingFromRight), Count(reports, AddedInRight), Count(reports, ArchitecturesDiffer),
                              Count(reports, ContentDifferent), Count(reports, ContentComparisonSkipped), |reports|)
    ensures Tallies(stat, left, right, options, versions)
  {
    hide Reported, Describe, Ascending, AllNames, Tally, NamesWithStatus, Count;
    var names := Ascending(AllNames(left, right));
    AscendingProperties(AllNames(left, right));
    assert Elements(names) == AllNames(left, right);
    CountIsTally(reports, names, left, right, options, versions, MissingFromRight);
    CountIsTally(reports, names, left, right, options, versions, AddedInRight);
    CountIsTally(reports, names, left, right, options, versions, ArchitecturesDiffer);
    CountIsTally(reports, names, left, right, options, versions, ContentDifferent);
    CountIsTally(reports, names, left, right, options, versions, ContentComparisonSkipped);
  }

  /** Comparing the other way round succeeds exactly when comparing this way does, swaps the missing
      and added counts and keeps every other count, with or without comparing checksums. */
  method CompareBothWays<V(!new)>(left: seq<Package>, right: seq<Package>, compareChecksums: bool, versions: Versions<V>)
    returns (oneWay: Option<DiffStat>, otherWay: Option<DiffStat>)
    requires TotalPreorder(versions)
    ensures oneWay.Some? <==> forall n :: !Unreportable(left, right, n, Options(false, compareChecksums), versions)
    ensures oneWay.Some? ==> Tallies(oneWay.value, left, right, Options(false, compareChecksums), versions)
    ensures oneWay.Some? <==> otherWay.Some?
    ensures oneWay.Some? ==>
              otherWay.value == oneWay.value.(missingFromRight := oneWay.value.addedInRight,
                                              addedInRight := oneWay.value.missingFromRight)
  {
    hide TotalPreorder, Ascending, Reported, Describe, StatusesOf, Unreportable, Tallies, Count, AllNames, Columns;
    var options := Options(false, compareChecksums);
    var one := CompareWithOptions(left, right, options, versions);
    var other := CompareWithOptions(right, left, options, versions);
    assert AllNames(left, right) == AllNames(right, left) by {
      BothSidesNamed(left, right);
    }
    forall n {
      BothWaysAlike(left, right, n, options, versions);
    }
    oneWay, otherWay := None, None;
    if one.Success? {
      var stat := Summarize(one.value);
      CountsTally(one.value, stat, left, right, options, versions);
      oneWay := Some(stat);
    }
    if other.Success? {
      var stat := Summarize(other.value);
      otherWay := Some(stat);
    }
    if one.Success? && other.Success? {
      var names := Ascending(AllNames(left, right));
      forall s: Status {
        MirroredReports(one.value, other.value, left, right, names, options, versions, s);
      }
      assert Count(one.value, MissingFromRight) == Count(other.value, Mirrored(MissingFromRight));
      assert Count(one.value, AddedInRight) == Count(other.value, Mirrored(AddedInRight));
      assert Count(one.value, ArchitecturesDiffer) == Count(other.value, Mirrored(ArchitecturesDiffer));
      assert Count(one.value, ContentDifferent) == Count(other.value, Mirrored(ContentDifferent));
      assert Count(one.value, ContentComparisonSkipped) == Count(other.value, Mirrored(ContentComparisonSkipped));
    }
  }

  lemma BothSidesNamed(left: seq<Package>, right: seq<Package>)
    ensures AllNames(left, right) == AllNames(right, left)
  {
  }

  lemma BothWaysAlike<V(!new)>(left: seq<Package>, right: seq<Package>, n: string, options: Options, versions: Versions<V>)
    requires !options.ignoreOlderAddedInRight
    ensures StatusesOf(left, right, n, options, versions) == [] <==> StatusesOf(right, left, n, options, versions) == []
    ensures Unreportable(left, right, n, options, versions) <==> Unreportable(right, left, n, options, versions)
  {
    hide StatusList, Sortable;
    StatusesMirror(Named(left, n), Named(right, n), options, versions, MissingFromRight);
  }

  // ---------- Reports and identities ----------

  /** Differing architectures never come alone: some identity is missing on one side. */
  lemma ArchesDifferNeverAlone(left: seq<Package>, right: seq<Package>)
    requires AllNulFree(left) && AllNulFree(right) && ArchesDiffer(left, right)
    ensures HasMissing(left, right) || HasMissing(right, left)
  {
    hide Identity, VersionAndKindKey;
    var key :| ArchesOf(left, key) != {} && ArchesOf(right, key) != {} && ArchesOf(left, key) != ArchesOf(right, key);
    if !HasMissing(left, right) && !HasMissing(right, left) {
      ArchesCarryOver(left, right, key);
      ArchesCarryOver(right, left, key);
    }
  }

  lemma ArchesCarryOver(left: seq<Package>, right: seq<Package>, key: string)
    requires AllNulFree(left) && AllNulFree(right) && !HasMissing(left, right)
    ensures ArchesOf(left, key) <= ArchesOf(right, key)
  {
    hide Identity, NulFree, VersionAndKindKey, SameVersion;
    forall a | a in ArchesOf(left, key) ensures a in ArchesOf(right, key) {
      var p :| p in left && VersionAndKindKey(p) == key && p.arch == a;
      assert Identity(p) in Identities(right);
      var q :| q in right && Identity(q) == Identity(p);
      IdentityMeans(p, q);
      SameKey(p, q);
    }
  }

  lemma SameKey(p: Package, q: Package)
    requires SameVersion(p, q) && p.kind == q.kind
    ensures VersionAndKindKey(p) == VersionAndKindKey(q)
  {
  }

  /** NUL bytes would break that: equal identity sets, yet differing architectures. */
  lemma NulMakesArchesDifferAlone()
    ensures var p := Package("n", "", "1", "2", "x\0a", "k", "", "", 0);
            var q := Package("n", "", "1", "2\0x", "a", "k", "", "", 0);
            var s := Package("n", "", "1", "2", "z", "k", "", "", 0);
            ArchesDiffer([p, s], [q, s]) && !HasMissing([p, s], [q, s]) && !HasMissing([q, s], [p, s])
  {
    var p := Package("n", "", "1", "2", "x\0a", "k", "", "", 0);
    var q := Package("n", "", "1", "2\0x", "a", "k", "", "", 0);
    var s := Package("n", "", "1", "2", "z", "k", "", "", 0);
    assert Identity(p) == Identity(q) by {
      assert "2" + "\0" + ("x\0a" + "\0" + "k") == "2\0x" + "\0" + ("a" + "\0" + "k");
    }
    assert VersionAndKindKey(p) == VersionAndKindKey(s);
    SameIdentitySets(p, q, s);
    var key := VersionAndKindKey(s);
    assert "x\0a" != "a" && "x\0a" != "z" by {
      assert |"x\0a"| == 3;
    }
    hide Identity, VersionAndKindKey;
    ArchesShow(p, q, s, key);
  }

  lemma SameIdentitySets(p: Package, q: Package, s: Package)
    requires Identity(p) == Identity(q)
    ensures !HasMissing([p, s], [q, s]) && !HasMissing([q, s], [p, s])
  {
    hide Identity;
    assert q in [q, s] && s in [q, s] && p in [p, s] && s in [p, s];
  }

  lemma ArchesShow(p: Package, q: Package, s: Package, key: string)
    requires VersionAndKindKey(p) == VersionAndKindKey(s) == key && p.arch != q.arch && p.arch != s.arch
    ensures ArchesDiffer([p, s], [q, s])
  {
    hide VersionAndKindKey;
    assert p in [p, s] && s in [p, s] && s in [q, s];
    assert p.arch in ArchesOf([p, s], key) && s.arch in ArchesOf([q, s], key);
    assert p.arch !in ArchesOf([q, s], key);
  }

  ghost const DEFAULT_OPTIONS := Options(false, false)

  /** With default options a name is reported exactly when its identity sets differ. */
  lemma ReportedIffIdentitiesDiffer<V(!new)>(left: seq<Package>, right: seq<Package>, versions: Versions<V>)
    requires AllNulFree(left) && AllNulFree(right)
    ensures StatusList(left, right, DEFAULT_OPTIONS, versions) == [] <==> Identities(left) == Identities(right)
  {
    hide Identity, ArchesDiffer, ContentDiffers, ContentSkipped, NulFree, StatusList;
    ListedIffDue(left, right, DEFAULT_OPTIONS, versions);
    MissingIsSetDifference(left, right);
    MissingIsSetDifference(right, left);
    if ArchesDiffer(left, right) {
      ArchesDifferNeverAlone(left, right);
    }
  }

  /** A report entry is a name with its statuses, of which there are some. */
  lemma {:induction false} EntriesAreNames<V(!new)>(names: seq<string>, left: seq<Package>, right: seq<Package>, options: Options,
                                                    versions: Versions<V>)
    ensures forall e :: e in Reported(names, left, right, options, versions) <==>
              e.0 in names && e.1 == StatusesOf(left, right, e.0, options, versions) != []
  {
    hide StatusesOf;
    if names != [] {
      var front, last := names[..|names| - 1], names[|names| - 1];
      EntriesAreNames(front, left, right, options, versions);
      assert names == front + [last];
    }
  }

  ghost predicate Increasing(entries: seq<(string, seq<Status>)>) {
    forall i, j :: 0 <= i < j < |entries| ==> Less(entries[i].0, entries[j].0)
  }

  lemma {:induction false} EntriesIncrease<V(!new)>(names: seq<string>, left: seq<Package>, right: seq<Package>, options: Options,
                                                    versions: Versions<V>)
    requires StrictlySorted(names)
    ensures Increasing(Reported(names, left, right, options, versions))
  {
    hide StatusesOf, Less, Increasing, StrictlySorted;
    if names == [] {
      NothingIncreases();
    } else {
      var front, last := names[..|names| - 1], names[|names| - 1];
      FrontIsSorted(names);
      EntriesIncrease(front, left, right, options, versions);
      EntriesAreNames(front, left, right, options, versions);
      var before := Reported(front, left, right, options, versions);
      forall e | e in before ensures Less(e.0, last) {
        LastIsGreatest(names, e.0);
      }
      IncreasingSnoc(before, last, StatusesOf(left, right, last, options, versions));
    }
  }

  lemma NothingIncreases()
    ensures Increasing([])
  {
  }

  lemma FrontIsSorted(names: seq<string>)
    requires StrictlySorted(names) && names != []
    ensures StrictlySorted(names[..|names| - 1])
  {
  }

  lemma IncreasingSnoc(before: seq<(string, seq<Status>)>, last: string, statuses: seq<Status>)
    requires Increasing(before) && forall e :: e in before ==> Less(e.0, last)
    ensures Increasing(before + If(statuses != [], (last, statuses)))
  {
    hide Less;
    assert forall i :: 0 <= i < |before| ==> before[i] in before;
  }

  lemma NamesOfReports<V(!new)>(reports: seq<PackageReport>, names: seq<string>, left: seq<Package>, right: seq<Package>,
                                options: Options, versions: Versions<V>, n: string)
    requires Describe(reports, Reported(names, left, right, options, versions))
    ensures (exists i :: 0 <= i < |reports| && reports[i].name == n)
       <==> n in names && StatusesOf(left, right, n, options, versions) != []
  {
    hide StatusesOf, Reported;
    EntriesAreNames(names, left, right, options, versions);
    var entries := Reported(names, left, right, options, versions);
    if i :| 0 <= i < |reports| && reports[i].name == n {
      assert entries[i] in entries;
    }
    if n in names && StatusesOf(left, right, n, options, versions) != [] {
      var i :| 0 <= i < |entries| && entries[i] == (n, StatusesOf(left, right, n, options, versions));
      assert reports[i].name == n;
    }
  }

  lemma LastIsGreatest(names: seq<string>, n: string)
    requires StrictlySorted(names) && names != [] && n in names[..|names| - 1]
    ensures Less(n, names[|names| - 1])
  {
    var k :| 0 <= k < |names| - 1 && names[..|names| - 1][k] == n;
    assert names[k] == n;
  }

  /** With default options the reports name, in strictly increasing order, exactly the names whose
      identity sets differ; so there are none if and only if the inventories have equal identities. */
  method Compare<V(!new)>(left: seq<Package>, right: seq<Package>, versions: Versions<V>)
    returns (r: Result<seq<PackageReport>, CompareError>)
    requires TotalPreorder(versions) && AllNulFree(left) && AllNulFree(right)
    ensures r.Success? <==> forall n :: !Unreportable(left, right, n, DEFAULT_OPTIONS, versions)
    ensures r.Success? ==> forall i, j :: 0 <= i < j < |r.value| ==> Less(r.value[i].name, r.value[j].name)
    ensures r.Success? ==> forall n ::
              (exists i :: 0 <= i < |r.value| && r.value[i].name == n) <==> Identities(Named(left, n)) != Identities(Named(right, n))
    ensures r.Success? ==> (r.value == [] <==> Identities(left) == Identities(right))
    ensures r.Success? ==> forall i :: 0 <= i < |r.value| && HasStatus(r.value[i].summary, ArchitecturesDiffer) ==>
              HasStatus(r.value[i].summary, MissingFromRight) || HasStatus(r.value[i].summary, AddedInRight)
  {
    hide TotalPreorder, Ascending, Reported, Named, Identities, StatusesOf, Unreportable, JoinStatuses, HasStatus, AllNames;
    r := CompareWithOptions(left, right, Options(false, false), versions);
    if r.Success? {
      AscendingProperties(AllNames(left, right));
      EntriesIncrease(Ascending(AllNames(left, right)), left, right, DEFAULT_OPTIONS, versions);
      EntriesAreNames(Ascending(AllNames(left, right)), left, right, DEFAULT_OPTIONS, versions);
      forall n ensures (exists i :: 0 <= i < |r.value| && r.value[i].name == n)
                  <==> Identities(Named(left, n)) != Identities(Named(right, n))
      {
        NamesOfReports(r.value, Ascending(AllNames(left, right)), left, right, DEFAULT_OPTIONS, versions, n);
        NameReportedIff(left, right, n, versions);
      }
      ghost var entries := Reported(Ascending(AllNames(left, right)), left, right, DEFAULT_OPTIONS, versions);
      IdentitiesByName(left, right);
      forall i | 0 <= i < |r.value| && HasStatus(r.value[i].summary, ArchitecturesDiffer)
        ensures HasStatus(r.value[i].summary, MissingFromRight) || HasStatus(r.value[i].summary, AddedInRight)
      {
        assert entries[i] in entries;
        ArchesStatusNeverAlone(left, right, entries[i].0, versions);
        HasStatusIffListed(entries[i].1, ArchitecturesDiffer);
        HasStatusIffListed(entries[i].1, MissingFromRight);
        HasStatusIffListed(entries[i].1, AddedInRight);
      }
      if r.value != [] {
        ghost var first := r.value[0].name;
        assert r.value[0].name == first;
        assert Identities(Named(left, first)) != Identities(Named(right, first));
      }
    }
  }

  lemma NamedIsNulFree(packages: seq<Package>, n: string)
    requires AllNulFree(packages)
    ensures AllNulFree(Named(packages, n))
  {
  }

  lemma ArchesStatusNeverAlone<V(!new)>(left: seq<Package>, right: seq<Package>, n: string, versions: Versions<V>)
    requires AllNulFree(left) && AllNulFree(right)
    ensures var statuses := StatusesOf(left, right, n, DEFAULT_OPTIONS, versions);
            ArchitecturesDiffer in statuses ==> MissingFromRight in statuses || AddedInRight in statuses
  {
    hide Named, HasMissing, ArchesDiffer, ContentDiffers, ContentSkipped, StatusList;
    NamedIsNulFree(left, n);
    NamedIsNulFree(right, n);
    ListedIffDue(Named(left, n), Named(right, n), DEFAULT_OPTIONS, versions);
    if ArchesDiffer(Named(left, n), Named(right, n)) {
      ArchesDifferNeverAlone(Named(left, n), Named(right, n));
    }
  }

  lemma NameReportedIff<V(!new)>(left: seq<Package>, right: seq<Package>, n: string, versions: Versions<V>)
    requires AllNulFree(left) && AllNulFree(right)
    ensures StatusesOf(left, right, n, DEFAULT_OPTIONS, versions) != [] <==> Identities(Named(left, n)) != Identities(Named(right, n))
    ensures n !in AllNames(left, right) ==> Identities(Named(left, n)) == Identities(Named(right, n))
  {
    hide StatusList, Identities, Identity;
    NamedIsNulFree(left, n);
    NamedIsNulFree(right, n);
    ReportedIffIdentitiesDiffer(Named(left, n), Named(right, n), versions);
    if n !in AllNames(left, right) {
      NoneNamed(left, n);
      NoneNamed(right, n);
    }
  }

  lemma SelectedKeyIsAKey(packages: seq<Package>, n: string)
    ensures Named(packages, n) != [] ==> n in KeysOf(packages, NameOf)
  {
    var selected := Named(packages, n);
    if selected != [] {
      var p := selected[0];
      assert p in packages && NameOf(p) == n;
    }
  }

  lemma NoneNamed(packages: seq<Package>, n: string)
    requires n !in KeysOf(packages, NameOf)
    ensures Named(packages, n) == []
  {
    SelectedKeyIsAKey(packages, n);
  }

  /** Inventories have the same identities exactly when every name does. */
  lemma IdentitiesByName(left: seq<Package>, right: seq<Package>)
    requires AllNulFree(left) && AllNulFree(right)
    ensures Identities(left) == Identities(right) <==> forall n :: Identities(Named(left, n)) == Identities(Named(right, n))
  {
    hide Identity, NulFree, Filtered;
    if Identities(left) == Identities(right) {
      forall n ensures Identities(Named(left, n)) == Identities(Named(right, n)) {
        NamedIdentitiesCarryOver(left, right, n);
        NamedIdentitiesCarryOver(right, left, n);
      }
    }
    if forall n :: Identities(Named(left, n)) == Identities(Named(right, n)) {
      IdentitiesCarryOver(left, right);
      IdentitiesCarryOver(right, left);
    }
  }

  lemma NamedIdentitiesCarryOver(left: seq<Package>, right: seq<Package>, n: string)
    requires AllNulFree(left) && AllNulFree(right) && Identities(left) <= Identities(right)
    ensures Identities(Named(left, n)) <= Identities(Named(right, n))
  {
    hide Identity, NulFree;
    forall id | id in Identities(Named(left, n)) ensures id in Identities(Named(right, n)) {
      var p :| p in Named(left, n) && Identity(p) == id;
      assert id in Identities(left);
      var q :| q in right && Identity(q) == id;
      IdentityMeans(p, q);
      assert q in Named(right, n);
    }
  }

  lemma IdentitiesCarryOver(left: seq<Package>, right: seq<Package>)
    requires forall n :: Identities(Named(left, n)) == Identities(Named(right, n))
    ensures Identities(left) <= Identities(right)
  {
    hide Identity;
    forall id | id in Identities(left) ensures id in Identities(right) {
      var p :| p in left && Identity(p) == id;
      assert p in Named(left, p.name);
      assert id in Identities(Named(right, p.name));
    }
  }

  // ---------- Ignoring older additions ----------

  ghost predicate ReportedWith(reports: seq<PackageReport>, n: string, s: Status) {
    exists i :: 0 <= i < |reports| && reports[i].name == n && HasStatus(reports[i].summary, s)
  }

  /** A name is reported with a status, as its joined summary shows it, exactly when that is due. */
  lemma ReportedWithIffDue<V(!new)>(reports: seq<PackageReport>, left: seq<Package>, right: seq<Package>, options: Options,
                                    versions: Versions<V>, n: string, s: Status)
    requires Describe(reports, Reported(Ascending(AllNames(left, right)), left, right, options, versions))
    ensures ReportedWith(reports, n, s)
       <==> n in AllNames(left, right) && Due(s, Named(left, n), Named(right, n), options, versions)
  {
    hide HasStatus, JoinStatuses, Reported, Ascending, StatusList, Due, Named, AllNames;
    var names := Ascending(AllNames(left, right));
    AscendingProperties(AllNames(left, right));
    EntriesAreNames(names, left, right, options, versions);
    ListedIffDue(Named(left, n), Named(right, n), options, versions);
    var entries := Reported(names, left, right, options, versions);
    if i :| 0 <= i < |reports| && reports[i].name == n && HasStatus(reports[i].summary, s) {
      assert entries[i] in entries;
      HasStatusIffListed(entries[i].1, s);
    }
    if n in names && s in StatusesOf(left, right, n, options, versions) {
      var i :| 0 <= i < |entries| && entries[i] == (n, StatusesOf(left, right, n, options, versions));
      HasStatusIffListed(entries[i].1, s);
      assert reports[i].name == n && HasStatus(reports[i].summary, s);
    }
  }

  /** With every version parsing, comparing with and without the option succeeds. Ignoring older
      additions only takes "added" away: it stays exactly where some new right package is at least as
      new as every left package of its name, kind and architecture. */
  method CompareIgnoringOlder<V(!new)>(left: seq<Package>, right: seq<Package>, compareChecksums: bool, versions: Versions<V>)
    returns (plain: Result<seq<PackageReport>, CompareError>, ignoring: Result<seq<PackageReport>, CompareError>)
    requires TotalPreorder(versions)
    ensures !Unparsed(left, versions) && !Unparsed(right, versions) ==> plain.Success? && ignoring.Success?
    ensures plain.Success? <==> forall n :: !Unreportable(left, right, n, Options(false, compareChecksums), versions)
    ensures ignoring.Success? <==> forall n :: !Unreportable(left, right, n, Options(true, compareChecksums), versions)
    ensures plain.Success? ==> forall n, s :: ReportedWith(plain.value, n, s) <==>
              n in AllNames(left, right) && Due(s, Named(left, n), Named(right, n), Options(false, compareChecksums), versions)
    ensures plain.Success? && ignoring.Success? ==>
              forall n, s :: ReportedWith(ignoring.value, n, s) ==> ReportedWith(plain.value, n, s)
    ensures plain.Success? && ignoring.Success? ==>
              forall n, s :: s != AddedInRight && ReportedWith(plain.value, n, s) ==> ReportedWith(ignoring.value, n, s)
    ensures ignoring.Success? ==>
              forall n :: ReportedWith(ignoring.value, n, AddedInRight) <==>
                exists p :: p in Named(right, n) && Identity(p) !in Identities(Named(left, n)) && NewEnough(Named(left, n), p, versions)
    ensures ignoring.Success? && AllNulFree(left) && AllNulFree(right) ==>
              forall n :: ReportedWith(ignoring.value, n, AddedInRight) <==> HasNewerAddition(Named(left, n), Named(right, n), versions)
  {
    hide *;
    plain := CompareWithOptions(left, right, Options(false, compareChecksums), versions);
    ignoring := CompareWithOptions(left, right, Options(true, compareChecksums), versions);
    if plain.Success? {
      forall n, s ensures ReportedWith(plain.value, n, s) <==>
        n in AllNames(left, right) && Due(s, Named(left, n), Named(right, n), Options(false, compareChecksums), versions)
      {
        ReportedWithIffDue(plain.value, left, right, Options(false, compareChecksums), versions, n, s);
      }
    }
    if ignoring.Success? {
      forall n ensures ReportedWith(ignoring.value, n, AddedInRight) <==>
        exists p :: p in Named(right, n) && Identity(p) !in Identities(Named(left, n)) && NewEnough(Named(left, n), p, versions)
      {
        ReportedWithIffDue(ignoring.value, left, right, Options(true, compareChecksums), versions, n, AddedInRight);
        AddedIsDue(left, right, n, compareChecksums, versions);
      }
      if AllNulFree(left) && AllNulFree(right) {
        forall n ensures ReportedWith(ignoring.value, n, AddedInRight) <==> HasNewerAddition(Named(left, n), Named(right, n), versions) {
          ReportedWithIffDue(ignoring.value, left, right, Options(true, compareChecksums), versions, n, AddedInRight);
          NamedNewerAddition(left, right, n, compareChecksums, versions);
        }
      }
    }
    if plain.Success? && ignoring.Success? {
      forall n, s ensures (ReportedWith(ignoring.value, n, s) ==> ReportedWith(plain.value, n, s))
                       && (s != AddedInRight && ReportedWith(plain.value, n, s) ==> ReportedWith(ignoring.value, n, s))
      {
        ReportedWithIffDue(plain.value, left, right, Options(false, compareChecksums), versions, n, s);
        ReportedWithIffDue(ignoring.value, left, right, Options(true, compareChecksums), versions, n, s);
        IgnoringOlderOnlyRemovesAdded(Named(left, n), Named(right, n), compareChecksums, versions, s);
      }
    }
  }

  lemma AddedIsDue<V(!new)>(left: seq<Package>, right: seq<Package>, n: string, checksums: bool, versions: Versions<V>)
    ensures n in AllNames(left, right) && Due(AddedInRight, Named(left, n), Named(right, n), Options(true, checksums), versions)
       <==> exists p :: p in Named(right, n) && Identity(p) !in Identities(Named(left, n)) && NewEnough(Named(left, n), p, versions)
  {
    hide Identity, NewEnough;
    if p :| p in Named(right, n) && Identity(p) !in Identities(Named(left, n)) && NewEnough(Named(left, n), p, versions) {
      assert p in right && NameOf(p) == n;
    }
  }

  lemma NamedNewerAddition<V(!new)>(left: seq<Package>, right: seq<Package>, n: string, checksums: bool, versions: Versions<V>)
    requires AllNulFree(left) && AllNulFree(right)
    ensures n in AllNames(left, right) && Due(AddedInRight, Named(left, n), Named(right, n), Options(true, checksums), versions)
       <==> HasNewerAddition(Named(left, n), Named(right, n), versions)
  {
    hide Identity, NewEnough, AtLeastAsNew, NulFree;
    NamedIsNulFree(left, n);
    NamedIsNulFree(right, n);
    NewerAddition(Named(left, n), Named(right, n), versions);
    if Named(right, n) == [] {
      assert !HasNewerAddition(Named(left, n), Named(right, n), versions);
    } else {
      SelectedKeyIsAKey(right, n);
    }
  }

  /** For one name: a status due when older additions are ignored is due anyway, and only "added" may
      be dropped. */
  lemma IgnoringOlderOnlyRemovesAdded<V(!new)>(left: seq<Package>, right: seq<Package>, checksums: bool, versions: Versions<V>, s: Status)
    ensures var ignoring, plain := Due(s, left, right, Options(true, checksums), versions),
                                   Due(s, left, right, Options(false, checksums), versions);
            (ignoring ==> plain) && (s != AddedInRight ==> (plain ==> ignoring))
  {
    hide Identity, NewEnough, ArchesDiffer, ContentDiffers, ContentSkipped;
  }
}
