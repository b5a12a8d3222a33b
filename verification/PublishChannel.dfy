/** internal/projectconfig/component.go and project.go: the publish channel of a binary package. */
module PublishChannel {
  import opened Wrappers
  import opened Strings

  // ---------- Debug packages ----------

  /** An occurrence of the segment that ends the name or is followed by a hyphen. */
  predicate SegmentAt(name: string, segment: string, i: int) {
    OccursAt(name, segment, i) && (i + |segment| == |name| || name[i + |segment|] == '-')
  }

  predicate HasSegment(name: string, segment: string) {
    exists i :: 0 <= i <= |name| && SegmentAt(name, segment, i)
  }

  /** strings.Index on name[from:], as a position in the name; -1 when there is none. */
  function IndexFrom(name: string, segment: string, from: nat): (i: int)
    requires from <= |name|
    ensures i == -1 || (from <= i && OccursAt(name, segment, i))
    ensures forall j :: from <= j && (i == -1 || j < i) ==> !OccursAt(name, segment, j)
    decreases |name| - from
  {
    if OccursAt(name, segment, from) then from
    else if from == |name| then -1
    else IndexFrom(name, segment, from + 1)
  }

  /** The restarting search misses no occurrence, overlapping ones included. */
  method ContainsRPMSegment(pkgName: string, segment: string) returns (found: bool)
    ensures found <==> HasSegment(pkgName, segment)
  {
    var searchStart := 0;
    while true
      invariant 0 <= searchStart <= |pkgName|
      invariant forall i :: 0 <= i < searchStart ==> !SegmentAt(pkgName, segment, i)
      decreases |pkgName| - searchStart
    {
      var idx := IndexFrom(pkgName, segment, searchStart);
      if idx < 0 {
        return false;
      }
      var end := idx + |segment|;
      if end == |pkgName| || pkgName[end] == '-' {
        assert SegmentAt(pkgName, segment, idx);
        return true;
      }
      searchStart := idx + 1;
    }
  }

  predicate IsDebugInfo(pkgName: string) {
    HasSegment(pkgName, "-debuginfo") || HasSegment(pkgName, "-debugsource")
  }

  method IsDebugInfoPackage(pkgName: string) returns (debug: bool)
    ensures debug <==> IsDebugInfo(pkgName)
  {
    debug := ContainsRPMSegment(pkgName, "-debuginfo");
    if !debug {
      debug := ContainsRPMSegment(pkgName, "-debugsource");
    }
  }

  // ---------- Configuration ----------

  datatype PackagePublish = PackagePublish(rpmChannel: string, debugInfoChannel: string, deprecatedChannel: string)

  datatype PackageGroup = PackageGroup(packages: seq<string>, publish: PackagePublish)

  /** A resolved component: its own channels and its per-package overrides. */
  datatype Component = Component(rpmChannel: string, debugInfoChannel: string, packages: map<string, PackagePublish>)

  datatype Project = Project(defaultPublish: PackagePublish, groups: map<string, PackageGroup>)

  /** packagePublishChannel, with EffectiveRPMChannel's fallback to the deprecated field. */
  function PackagePublishChannel(publish: PackagePublish, debug: bool): string {
    if debug then publish.debugInfoChannel
    else if publish.rpmChannel != "" then publish.rpmChannel
    else publish.deprecatedChannel
  }

  // ---------- Group membership ----------

  datatype MembershipError = InTwoGroups(package: string, first: string, second: string)

  ghost predicate Lists(groups: map<string, PackageGroup>, g: string, pkg: string) {
    g in groups && pkg in groups[g].packages
  }

  /** No package is in two groups; repeats inside one group are harmless. */
  ghost predicate Unambiguous(groups: map<string, PackageGroup>) {
    forall g, h, pkg :: Lists(groups, g, pkg) && Lists(groups, h, pkg) ==> g == h
  }

  /** What the validator has seen: each package of the finished groups, with the one group it is in. */
  ghost predicate SeenIn(seenIn: map<string, string>, groups: map<string, PackageGroup>, done: set<string>) {
    && (forall pkg :: pkg in seenIn ==> seenIn[pkg] in done && Lists(groups, seenIn[pkg], pkg))
    && (forall g, pkg :: g in done && Lists(groups, g, pkg) ==> pkg in seenIn && seenIn[pkg] == g)
  }

  /** Groups come in any order. */
  method ValidatePackageGroupMembership(groups: map<string, PackageGroup>) returns (error: Option<MembershipError>)
    ensures error.None? <==> Unambiguous(groups)
    ensures error.Some? ==> var e := error.value;
              e.first != e.second && Lists(groups, e.first, e.package) && Lists(groups, e.second, e.package)
  {
    var seenIn: map<string, string> := map[];
    var rest := groups.Keys;
    while rest != {}
      invariant rest <= groups.Keys && SeenIn(seenIn, groups, groups.Keys - rest)
      decreases rest
    {
      var groupName :| groupName in rest;
      var packages := groups[groupName].packages;
      ghost var before := seenIn;
      for i := 0 to |packages|
        invariant forall pkg :: pkg in seenIn <==> pkg in before || pkg in packages[..i]
        invariant forall pkg :: pkg in before ==> seenIn[pkg] == before[pkg]
        invariant forall pkg :: pkg in packages[..i] ==> seenIn[pkg] == groupName
      {
        var pkg := packages[i];
        assert packages[..i + 1] == packages[..i] + [pkg];
        if pkg in seenIn && seenIn[pkg] != groupName {
          assert Lists(groups, seenIn[pkg], pkg) && Lists(groups, groupName, pkg);
          return Some(InTwoGroups(pkg, seenIn[pkg], groupName));
        }
        seenIn := seenIn[pkg := groupName];
      }
      assert packages[..|packages|] == packages;
      rest := rest - {groupName};
    }
    error := None;
  }

  // ---------- Resolution ----------

  /** The group layer that some iteration order finds first: any group with the package, or none. */
  ghost predicate GroupLayer(groups: map<string, PackageGroup>, pkg: string, debug: bool, channel: string) {
    || (exists g :: Lists(groups, g, pkg) && channel == PackagePublishChannel(groups[g].publish, debug))
    || (channel == "" && forall g :: !Lists(groups, g, pkg))
  }

  /** The layers, highest priority first. */
  function Layers(pkg: string, comp: Component, proj: Project, group: string): seq<string> {
    var debug := IsDebugInfo(pkg);
    [ if pkg in comp.packages then PackagePublishChannel(comp.packages[pkg], debug) else "",
      group,
      if debug then comp.debugInfoChannel else comp.rpmChannel,
      PackagePublishChannel(proj.defaultPublish, debug) ]
  }

  /** The first non-empty layer, or nothing when all are empty. */
  ghost predicate HighestNonEmpty(layers: seq<string>, channel: string) {
    || (channel == "" && forall i :: 0 <= i < |layers| ==> layers[i] == "")
    || (exists i :: 0 <= i < |layers| && layers[i] == channel != "" && forall j :: 0 <= j < i ==> layers[j] == "")
  }

  lemma HighestIsUnique(layers: seq<string>, a: string, b: string)
    requires HighestNonEmpty(layers, a) && HighestNonEmpty(layers, b)
    ensures a == b
  {
  }

  /** What some iteration order may answer. */
  ghost predicate Answer(pkg: string, comp: Component, proj: Project, channel: string) {
    exists group :: GroupLayer(proj.groups, pkg, IsDebugInfo(pkg), group) && HighestNonEmpty(Layers(pkg, comp, proj, group), channel)
  }

  /** Groups come in any order and the search stops at the first one with the package, even when that
      group sets no channel. */
  method ResolvePackagePublishChannel(pkgName: string, comp: Component, proj: Project) returns (channel: string)
    ensures Answer(pkgName, comp, proj, channel)
    ensures Unambiguous(proj.groups) ==> forall other :: Answer(pkgName, comp, proj, other) ==> other == channel
  {
    hide IsDebugInfo, HighestNonEmpty, Unambiguous;
    var isDebugInfo := IsDebugInfoPackage(pkgName);
    channel := PackagePublishChannel(proj.defaultPublish, isDebugInfo);
    var compChannel := if isDebugInfo then comp.debugInfoChannel else comp.rpmChannel;
    if compChannel != "" {
      channel := compChannel;
    }
    ghost var group := "";
    ghost var found := false;
    ghost var base := channel;
    var rest := proj.groups.Keys;
    while rest != {}
      invariant rest <= proj.groups.Keys && !found && group == "" && channel == base
      invariant forall g :: g in proj.groups.Keys - rest ==> !Lists(proj.groups, g, pkgName)
      decreases rest
    {
      var g :| g in rest;
      if pkgName in proj.groups[g].packages {
        var groupChannel := PackagePublishChannel(proj.groups[g].publish, isDebugInfo);
        if groupChannel != "" {
          channel := groupChannel;
        }
        group, found := groupChannel, true;
        assert Lists(proj.groups, g, pkgName);
        break;
      }
      rest := rest - {g};
    }
    assert GroupLayer(proj.groups, pkgName, isDebugInfo, group);
    assert channel == if group != "" then group else base;
    if pkgName in comp.packages {
      var pkgChannel := PackagePublishChannel(comp.packages[pkgName], isDebugInfo);
      if pkgChannel != "" {
        channel := pkgChannel;
      }
    }
    LastOverrideWins(Layers(pkgName, comp, proj, group), channel);
    if Unambiguous(proj.groups) {
      forall other | Answer(pkgName, comp, proj, other) ensures other == channel {
        AnswerIsUnique(pkgName, comp, proj, channel, other);
      }
    }
  }

  lemma LastOverrideWins(layers: seq<string>, channel: string)
    requires |layers| == 4
    requires channel == if layers[0] != "" then layers[0] else if layers[1] != "" then layers[1]
                        else if layers[2] != "" then layers[2] else layers[3]
    ensures HighestNonEmpty(layers, channel)
  {
  }

  /** After validation no iteration order matters. */
  lemma AnswerIsUnique(pkg: string, comp: Component, proj: Project, a: string, b: string)
    requires Unambiguous(proj.groups) && Answer(pkg, comp, proj, a) && Answer(pkg, comp, proj, b)
    ensures a == b
  {
    hide IsDebugInfo, HighestNonEmpty, Layers;
    var x :| GroupLayer(proj.groups, pkg, IsDebugInfo(pkg), x) && HighestNonEmpty(Layers(pkg, comp, proj, x), a);
    var y :| GroupLayer(proj.groups, pkg, IsDebugInfo(pkg), y) && HighestNonEmpty(Layers(pkg, comp, proj, y), b);
    assert x == y;
    HighestIsUnique(Layers(pkg, comp, proj, x), a, b);
  }

  /** Without validation two orders may disagree. */
  lemma AmbiguityShows()
    ensures var one, two := PackageGroup(["p"], PackagePublish("one", "", "")), PackageGroup(["p"], PackagePublish("two", "", ""));
            var proj := Project(PackagePublish("", "", ""), map["g" := one, "h" := two]);
            var comp := Component("", "", map[]);
            Answer("p", comp, proj, "one") && Answer("p", comp, proj, "two") && !Unambiguous(proj.groups)
  {
    var one, two := PackageGroup(["p"], PackagePublish("one", "", "")), PackageGroup(["p"], PackagePublish("two", "", ""));
    var proj := Project(PackagePublish("", "", ""), map["g" := one, "h" := two]);
    var comp := Component("", "", map[]);
    hide HighestNonEmpty, HasSegment;
    assert "g" != "h";
    assert Lists(proj.groups, "g", "p") && Lists(proj.groups, "h", "p");
    NoSegment("p", "-debuginfo");
    NoSegment("p", "-debugsource");
    LastOverrideWins(Layers("p", comp, proj, "one"), "one");
    LastOverrideWins(Layers("p", comp, proj, "two"), "two");
    assert GroupLayer(proj.groups, "p", false, "one") && GroupLayer(proj.groups, "p", false, "two");
  }

  // ---------- Debug channels and RPM channels ----------

  /** The publish settings that may speak for a package, beside the component's own. */
  ghost function Settings(pkg: string, comp: Component, proj: Project): set<PackagePublish> {
    {proj.defaultPublish} + (set g | g in proj.groups && Lists(proj.groups, g, pkg) :: proj.groups[g].publish)
    + if pkg in comp.packages then {comp.packages[pkg]} else {}
  }

  /** The channel for RPM packages; the deprecated field stands in when it is empty. */
  ghost predicate IsRpmChannel(publish: PackagePublish, channel: string) {
    channel == publish.rpmChannel || (publish.rpmChannel == "" && channel == publish.deprecatedChannel)
  }

  /** A debug package gets a debug channel of one of its layers and any other package an RPM channel. */
  lemma ChannelKind(pkg: string, comp: Component, proj: Project, channel: string)
    requires Answer(pkg, comp, proj, channel) && channel != ""
    ensures IsDebugInfo(pkg) ==>
              channel == comp.debugInfoChannel || exists p :: p in Settings(pkg, comp, proj) && channel == p.debugInfoChannel
    ensures !IsDebugInfo(pkg) ==>
              channel == comp.rpmChannel || exists p :: p in Settings(pkg, comp, proj) && IsRpmChannel(p, channel)
  {
    hide IsDebugInfo;
    var debug := IsDebugInfo(pkg);
    var group :| GroupLayer(proj.groups, pkg, debug, group) && HighestNonEmpty(Layers(pkg, comp, proj, group), channel);
    var layers := Layers(pkg, comp, proj, group);
    assert channel == layers[0] || channel == layers[1] || channel == layers[2] || channel == layers[3];
    if channel == layers[0] {
      assert comp.packages[pkg] in Settings(pkg, comp, proj);
    } else if channel == layers[1] {
      var g :| Lists(proj.groups, g, pkg) && group == PackagePublishChannel(proj.groups[g].publish, debug);
      assert proj.groups[g].publish in Settings(pkg, comp, proj);
    } else if channel == layers[3] {
      assert proj.defaultPublish in Settings(pkg, comp, proj);
    }
  }

  /** A package override of its kind decides, and nothing is found only if no layer has a channel of that kind. */
  lemma OverrideDecides(pkg: string, comp: Component, proj: Project, channel: string)
    requires Answer(pkg, comp, proj, channel)
    ensures pkg in comp.packages && IsDebugInfo(pkg) && comp.packages[pkg].debugInfoChannel != "" ==>
              channel == comp.packages[pkg].debugInfoChannel
    ensures pkg in comp.packages && !IsDebugInfo(pkg) && comp.packages[pkg].rpmChannel != "" ==> channel == comp.packages[pkg].rpmChannel
    ensures channel == "" ==>
              if IsDebugInfo(pkg) then comp.debugInfoChannel == proj.defaultPublish.debugInfoChannel == ""
              else comp.rpmChannel == proj.defaultPublish.rpmChannel == proj.defaultPublish.deprecatedChannel == ""
  {
    hide IsDebugInfo;
    var group :| GroupLayer(proj.groups, pkg, IsDebugInfo(pkg), group) && HighestNonEmpty(Layers(pkg, comp, proj, group), channel);
    var layers := Layers(pkg, comp, proj, group);
    assert layers[0] != "" ==> channel == layers[0];
    assert channel == "" ==> layers[2] == "" && layers[3] == "";
  }

  lemma NoSegment(name: string, segment: string)
    requires |segment| > |name|
    ensures !HasSegment(name, segment)
  {
  }
}
