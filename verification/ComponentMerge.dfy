/** internal/projectconfig/loader.go and component.go: merging component groups with their reverse
    index, resolving a component against its groups, and merging commit pins with provenance. */
module ComponentMerge {
  import opened Wrappers
  import opened Strings

  // ---------- Component groups and their reverse index ----------

  datatype Group<C> = Group(components: seq<string>, defaults: C)

  datatype MergeError = DuplicateGroup(name: string)

  /** How often group g is listed under component c in the reverse index. */
  ghost function Listed(index: map<string, seq<string>>, c: string, g: string): nat {
    if c in index then multiset(index[c])[g] else 0
  }

  /** How often group g names component c as a member. */
  ghost function Declared<C>(groups: map<string, Group<C>>, g: string, c: string): nat {
    if g in groups then multiset(groups[g].components)[c] else 0
  }

  /** The reverse index and the groups tell the same story, with multiplicities. */
  ghost predicate Indexed<C>(groups: map<string, Group<C>>, index: map<string, seq<string>>) {
    forall c, g :: Listed(index, c, g) == Declared(groups, g, c)
  }

  class ProjectConfig<C> {
    var ComponentGroups: map<string, Group<C>>
    var GroupsByComponent: map<string, seq<string>>

    ghost predicate Valid()
      reads this
    {
      Indexed(ComponentGroups, GroupsByComponent)
    }

    constructor ()
      ensures Valid() && ComponentGroups == map[]
    {
      ComponentGroups, GroupsByComponent := map[], map[];
    }

    /** Ranges over the file's groups in any order and stops at a duplicate; what was merged before
        that ("merged") stays merged, and is fully indexed. */
    method MergeComponentGroups(loaded: map<string, Group<C>>) returns (r: Result<(), MergeError>, ghost merged: set<string>)
      requires Valid()
      modifies this
      ensures Valid() && merged <= loaded.Keys - old(ComponentGroups.Keys)
      ensures ComponentGroups == old(ComponentGroups) + Select(loaded, merged)
      ensures r.Success? <==> loaded.Keys !! old(ComponentGroups.Keys)
      ensures r.Success? ==> ComponentGroups == old(ComponentGroups) + loaded
      ensures r.Failure? ==> r.error.name in loaded && r.error.name in old(ComponentGroups)
    {
      merged := {};
      var rest := loaded.Keys;
      while rest != {}
        invariant Valid() && merged + rest == loaded.Keys && merged !! rest
        invariant merged !! old(ComponentGroups.Keys)
        invariant ComponentGroups == old(ComponentGroups) + Select(loaded, merged)
        decreases rest
      {
        var groupName :| groupName in rest;
        if groupName in ComponentGroups {
          return Failure(DuplicateGroup(groupName)), merged;
        }
        AddGroup(groupName, loaded[groupName]);
        rest, merged := rest - {groupName}, merged + {groupName};
      }
      r := Success(());
    }

    /** One round of MergeComponentGroups: records the group, then lists it under each member. */
    method AddGroup(groupName: string, group: Group<C>)
      requires Valid() && groupName !in ComponentGroups
      modifies this
      ensures Valid() && ComponentGroups == old(ComponentGroups)[groupName := group]
    {
      ghost var before := ComponentGroups;
      ComponentGroups := ComponentGroups[groupName := group];
      for i := 0 to |group.components|
        invariant ComponentGroups == before[groupName := group]
        invariant Indexed(before[groupName := Group(group.components[..i], group.defaults)], GroupsByComponent)
      {
        var member := group.components[i];
        IndexOneMore(before, GroupsByComponent, groupName, group, i);
        var known := if member in GroupsByComponent then GroupsByComponent[member] else [];
        GroupsByComponent := GroupsByComponent[member := known + [groupName]];
      }
      assert group.components[..|group.components|] == group.components;
      assert Group(group.components, group.defaults) == group;
    }

    /** Merges file after file until one fails, the one after "done" files, of which "merged" names the
        groups merged before the duplicate; the index is right either way. */
    method MergeConfigFiles(files: seq<map<string, Group<C>>>)
      returns (r: Result<(), MergeError>, ghost done: nat, ghost merged: set<string>)
      requires Valid()
      modifies this
      ensures Valid()
      ensures r.Success? <==> AllDisjoint(old(ComponentGroups.Keys), files)
      ensures r.Success? ==> ComponentGroups == Together(old(ComponentGroups), files)
      ensures r.Failure? ==>
                && done < |files| && AllDisjoint(old(ComponentGroups.Keys), files[..done]) && r.error.name in files[done]
                && r.error.name in Together(old(ComponentGroups), files[..done])
                && ComponentGroups == Together(old(ComponentGroups), files[..done]) + Select(files[done], merged)
    {
      hide Indexed, AllDisjoint, Together;
      NoFilesYet(ComponentGroups);
      for i := 0 to |files|
        invariant Valid()
        invariant AllDisjoint(old(ComponentGroups.Keys), files[..i])
        invariant ComponentGroups == Together(old(ComponentGroups), files[..i])
      {
        OneMoreFile(old(ComponentGroups), files, i);
        r, merged := MergeComponentGroups(files[i]);
        if r.Failure? {
          done := i;
          return;
        }
      }
      assert files[..|files|] == files;
      r, done, merged := Success(()), |files|, {};
    }
  }

  function Select<V>(m: map<string, V>, keys: set<string>): map<string, V> {
    map k | k in keys && k in m :: m[k]
  }

  /** Some groups with those of further files added. */
  function Together<V>(known: map<string, V>, files: seq<map<string, V>>): map<string, V> {
    if files == [] then known else Together(known, files[..|files| - 1]) + files[|files| - 1]
  }

  lemma {:induction false} TogetherKeys<V>(known: map<string, V>, files: seq<map<string, V>>)
    ensures forall g :: g in Together(known, files) <==> g in known || exists i :: 0 <= i < |files| && g in files[i]
  {
    if files != [] {
      var front := files[..|files| - 1];
      TogetherKeys(known, front);
      forall g | exists i :: 0 <= i < |files| && g in files[i] ensures g in Together(known, files) {
        var i :| 0 <= i < |files| && g in files[i];
        assert i < |front| ==> front[i] == files[i];
      }
    }
  }

  /** No group is defined twice, neither before nor in two of the files. */
  ghost predicate AllDisjoint<V>(known: set<string>, files: seq<map<string, V>>) {
    && (forall i :: 0 <= i < |files| ==> files[i].Keys !! known)
    && (forall i, j :: 0 <= i < j < |files| ==> files[i].Keys !! files[j].Keys)
  }

  lemma NoFilesYet<V>(known: map<string, V>)
    ensures AllDisjoint<V>(known.Keys, []) && Together(known, []) == known
  {
  }

  lemma OneMoreFile<V>(known: map<string, V>, files: seq<map<string, V>>, i: nat)
    requires i < |files| && AllDisjoint(known.Keys, files[..i])
    ensures Together(known, files[..i + 1]) == Together(known, files[..i]) + files[i]
    ensures AllDisjoint(known.Keys, files[..i + 1]) <==> files[i].Keys !! Together(known, files[..i]).Keys
    ensures AllDisjoint(known.Keys, files) ==> AllDisjoint(known.Keys, files[..i + 1])
  {
    hide AllDisjoint, Together;
    TogetherSnoc(known, files, i);
    DisjointSnoc(known, files, i);
    DisjointPrefix(known.Keys, files, i + 1);
  }

  lemma TogetherSnoc<V>(known: map<string, V>, files: seq<map<string, V>>, i: nat)
    requires i < |files|
    ensures Together(known, files[..i + 1]) == Together(known, files[..i]) + files[i]
  {
    assert files[..i + 1][..i] == files[..i];
  }

  lemma DisjointPrefix<V>(known: set<string>, files: seq<map<string, V>>, i: nat)
    requires i <= |files|
    ensures AllDisjoint(known, files) ==> AllDisjoint(known, files[..i])
  {
  }

  lemma DisjointSnoc<V>(known: map<string, V>, files: seq<map<string, V>>, i: nat)
    requires i < |files| && AllDisjoint(known.Keys, files[..i])
    ensures AllDisjoint(known.Keys, files[..i + 1]) <==> files[i].Keys !! Together(known, files[..i]).Keys
  {
    hide Together;
    TogetherKeys(known, files[..i]);
    var front, last := files[..i], files[i];
    assert files[..i + 1] == front + [last];
    if last.Keys !! Together(known, front).Keys {
      forall j | 0 <= j < i ensures files[j].Keys !! last.Keys {
        assert front[j] == files[j];
      }
    }
    if AllDisjoint(known.Keys, front + [last]) {
      assert (front + [last])[i] == last;
      forall g | g in last ensures g !in Together(known, front) {
        forall j | 0 <= j < i ensures g !in front[j] {
          assert (front + [last])[j] == front[j];
        }
      }
    }
  }

  lemma IndexOneMore<C>(before: map<string, Group<C>>, index: map<string, seq<string>>, name: string, group: Group<C>, i: nat)
    requires i < |group.components|
    requires Indexed(before[name := Group(group.components[..i], group.defaults)], index)
    ensures var member := group.components[i];
            var known := if member in index then index[member] else [];
            Indexed(before[name := Group(group.components[..i + 1], group.defaults)], index[member := known + [name]])
  {
    hide Listed, Declared;
    var member := group.components[i];
    var known := if member in index then index[member] else [];
    var shorter := before[name := Group(group.components[..i], group.defaults)];
    var longer := before[name := Group(group.components[..i + 1], group.defaults)];
    forall c, g ensures Listed(index[member := known + [name]], c, g) == Declared(longer, g, c) {
      assert Listed(index, c, g) == Declared(shorter, g, c);
      ListedOneMore(index, member, name, c, g);
      DeclaredOneMore(before, name, group, i, c, g);
    }
  }

  lemma ListedOneMore(index: map<string, seq<string>>, member: string, name: string, c: string, g: string)
    ensures var known := if member in index then index[member] else [];
            Listed(index[member := known + [name]], c, g) == Listed(index, c, g) + if c == member && g == name then 1 else 0
  {
  }

  lemma DeclaredOneMore<C>(before: map<string, Group<C>>, name: string, group: Group<C>, i: nat, c: string, g: string)
    requires i < |group.components|
    ensures Declared(before[name := Group(group.components[..i + 1], group.defaults)], g, c)
         == Declared(before[name := Group(group.components[..i], group.defaults)], g, c)
            + if c == group.components[i] && g == name then 1 else 0
  {
    assert group.components[..i + 1] == group.components[..i] + [group.components[i]];
  }

  // ---------- ResolveComponentConfig ----------

  datatype ResolveError<E> = GroupNotFound(name: string) | MergeFailed(error: E)

  /** ComponentConfig.MergeUpdatesFrom: a config updated with another one, or an error. */
  type Merge<!C, !E> = (C, C) -> Result<C, E>

  function ApplyGroups<C, E>(merged: C, groups: map<string, Group<C>>, names: seq<string>, merge: Merge<C, E>)
    : Result<C, ResolveError<E>>
  {
    if names == [] then Success(merged)
    else if names[0] !in groups then Failure(GroupNotFound(names[0]))
    else
      match merge(merged, groups[names[0]].defaults)
      case Failure(e) => Failure(MergeFailed(e))
      case Success(next) => ApplyGroups(next, groups, names[1..], merge)
  }

  /** Distro defaults, then project defaults, then the groups in sorted order, then the component;
      "finish" is resolveLocalCustomScriptPaths. */
  function Resolved<C, E>(comp: C, projectDefaults: C, distroDefaults: C, groups: map<string, Group<C>>,
                          sortedGroups: seq<string>, merge: Merge<C, E>, finish: C -> C): Result<C, ResolveError<E>>
  {
    match merge(distroDefaults, projectDefaults)
    case Failure(e) => Failure(MergeFailed(e))
    case Success(base) =>
      match ApplyGroups(base, groups, sortedGroups, merge)
      case Failure(e) => Failure(e)
      case Success(grouped) =>
        match merge(grouped, comp)
        case Failure(e) => Failure(MergeFailed(e))
        case Success(result) => Success(finish(result))
  }

  method ResolveComponentConfig<C, E>(comp: C, projectDefaults: C, distroDefaults: C, groups: map<string, Group<C>>,
                                      groupMembership: seq<string>, merge: Merge<C, E>, finish: C -> C)
    returns (r: Result<C, ResolveError<E>>)
    ensures r == Resolved(comp, projectDefaults, distroDefaults, groups, SortStrings(groupMembership), merge, finish)
  {
    var step := merge(distroDefaults, projectDefaults);
    if step.Failure? {
      return Failure(MergeFailed(step.error));
    }
    var merged := step.value;
    var sortedGroups := SortStrings(groupMembership);
    ghost var base := merged;
    for i := 0 to |sortedGroups|
      invariant ApplyGroups(base, groups, sortedGroups, merge) == ApplyGroups(merged, groups, sortedGroups[i..], merge)
    {
      if sortedGroups[i] !in groups {
        return Failure(GroupNotFound(sortedGroups[i]));
      }
      step := merge(merged, groups[sortedGroups[i]].defaults);
      if step.Failure? {
        return Failure(MergeFailed(step.error));
      }
      merged := step.value;
      assert sortedGroups[i..][1..] == sortedGroups[i + 1..];
    }
    step := merge(merged, comp);
    if step.Failure? {
      return Failure(MergeFailed(step.error));
    }
    r := Success(finish(step.value));
  }

  ghost function MembershipOf(index: map<string, seq<string>>, c: string): seq<string> {
    if c in index then index[c] else []
  }

  /** Membership taken from the index never names a missing group, so that error cannot arise. */
  lemma IndexedMembershipResolves<C, E>(comp: C, projectDefaults: C, distroDefaults: C,
                                        groups: map<string, Group<C>>, index: map<string, seq<string>>, c: string,
                                        merge: Merge<C, E>, finish: C -> C)
    requires Indexed(groups, index)
    ensures forall g :: g in MembershipOf(index, c) ==> g in groups
    ensures var r := Resolved(comp, projectDefaults, distroDefaults, groups, SortStrings(MembershipOf(index, c)), merge, finish);
            r.Success? || r.error.MergeFailed?
  {
    var names := MembershipOf(index, c);
    forall g | g in names ensures g in groups {
      assert g in multiset(names);
      assert Listed(index, c, g) > 0;
      assert Declared(groups, g, c) > 0;
    }
    forall g | g in SortStrings(names) ensures g in groups {
      assert g in multiset(SortStrings(names));
    }
    if merge(distroDefaults, projectDefaults).Success? {
      GroupsResolve(merge(distroDefaults, projectDefaults).value, groups, SortStrings(names), merge);
    }
  }

  lemma {:induction false} GroupsResolve<C, E>(merged: C, groups: map<string, Group<C>>, names: seq<string>, merge: Merge<C, E>)
    requires forall g :: g in names ==> g in groups
    ensures var r := ApplyGroups(merged, groups, names, merge); r.Success? || r.error.MergeFailed?
  {
    if names != [] {
      var step := merge(merged, groups[names[0]].defaults);
      if step.Success? {
        GroupsResolve(step.value, groups, names[1..], merge);
      }
    }
  }

  /** Any two indexes of the same groups give every component the same sorted membership, hence the
      same resolved config. */
  lemma MergeOrderIsInvisible<C, E>(comp: C, projectDefaults: C, distroDefaults: C, groups: map<string, Group<C>>,
                                    one: map<string, seq<string>>, other: map<string, seq<string>>, c: string,
                                    merge: Merge<C, E>, finish: C -> C)
    requires Indexed(groups, one) && Indexed(groups, other)
    ensures SortStrings(MembershipOf(one, c)) == SortStrings(MembershipOf(other, c))
    ensures Resolved(comp, projectDefaults, distroDefaults, groups, SortStrings(MembershipOf(one, c)), merge, finish)
         == Resolved(comp, projectDefaults, distroDefaults, groups, SortStrings(MembershipOf(other, c)), merge, finish)
  {
    var a, b := MembershipOf(one, c), MembershipOf(other, c);
    forall g ensures multiset(a)[g] == multiset(b)[g] {
      assert Listed(one, c, g) == Declared(groups, g, c) == Listed(other, c, g);
    }
    SortedIsUnique(SortStrings(a), SortStrings(b));
  }

  /** Disjointness does not depend on the order of the files. */
  lemma DisjointInAnyOrder<V>(known: set<string>, files: seq<map<string, V>>, others: seq<map<string, V>>)
    requires multiset(files) == multiset(others) && AllDisjoint(known, files)
    ensures AllDisjoint(known, others)
  {
    forall i | 0 <= i < |others| ensures others[i].Keys !! known {
      assert others[i] in multiset(files);
    }
    forall i, j | 0 <= i < j < |others| ensures others[i].Keys !! others[j].Keys {
      assert others[i] in multiset(files) && others[j] in multiset(files);
      if others[i] == others[j] {
        RepeatCounts(others, i, j);
        var a, b := TwoPlaces(files, others[i]);
      } else {
        var a :| 0 <= a < |files| && files[a] == others[i];
        var b :| 0 <= b < |files| && files[b] == others[j];
        assert a < b || b < a;
      }
    }
  }

  lemma {:induction false} TwoPlaces<T>(s: seq<T>, x: T) returns (i: nat, j: nat)
    requires multiset(s)[x] >= 2
    ensures i < j < |s| && s[i] == x && s[j] == x
  {
    assert s == [s[0]] + s[1..];
    if s[0] == x {
      assert x in multiset(s[1..]);
      i := 0;
      j :| 0 < j < |s| && s[j] == x;
    } else {
      i, j := TwoPlaces(s[1..], x);
      i, j := i + 1, j + 1;
    }
  }

  /** With disjoint files, what a group is comes from the one place that defines it. */
  lemma {:induction false} TogetherLookup<V>(known: map<string, V>, files: seq<map<string, V>>, g: string)
    requires AllDisjoint(known.Keys, files)
    ensures g in known ==> g in Together(known, files) && Together(known, files)[g] == known[g]
    ensures forall i :: 0 <= i < |files| && g in files[i] ==> g in Together(known, files) && Together(known, files)[g] == files[i][g]
  {
    if files != [] {
      var front, last := files[..|files| - 1], files[|files| - 1];
      TogetherLookup(known, front, g);
      forall i | 0 <= i < |files| && g in files[i]
        ensures g in Together(known, files) && Together(known, files)[g] == files[i][g]
      {
        if i < |front| {
          assert front[i] == files[i] && files[i].Keys !! last.Keys;
        }
      }
    }
  }

  /** The order of the files is not observable: in any order they are all accepted or not, and then
      define the same groups. */
  lemma FileOrderIsInvisible<V>(known: map<string, V>, files: seq<map<string, V>>, others: seq<map<string, V>>)
    requires multiset(files) == multiset(others)
    ensures AllDisjoint(known.Keys, files) <==> AllDisjoint(known.Keys, others)
    ensures AllDisjoint(known.Keys, files) ==> Together(known, files) == Together(known, others)
  {
    hide AllDisjoint, Together;
    if AllDisjoint(known.Keys, files) {
      DisjointInAnyOrder(known.Keys, files, others);
      var one, other := Together(known, files), Together(known, others);
      TogetherKeys(known, files);
      TogetherKeys(known, others);
      forall g ensures (g in one <==> g in other) && (g in one ==> one[g] == other[g]) {
        SameLookup(known, files, others, g);
        SameLookup(known, others, files, g);
      }
    }
    if AllDisjoint(known.Keys, others) {
      DisjointInAnyOrder(known.Keys, others, files);
    }
  }

  lemma SameLookup<V>(known: map<string, V>, files: seq<map<string, V>>, others: seq<map<string, V>>, g: string)
    requires multiset(files) == multiset(others) && AllDisjoint(known.Keys, files) && AllDisjoint(known.Keys, others)
    ensures g in Together(known, files) ==> g in Together(known, others) && Together(known, others)[g] == Together(known, files)[g]
  {
    hide AllDisjoint, Together;
    TogetherKeys(known, files);
    TogetherLookup(known, files, g);
    TogetherLookup(known, others, g);
    if g !in known && g in Together(known, files) {
      var i :| 0 <= i < |files| && g in files[i];
      assert files[i] in multiset(others);
      var j :| 0 <= j < |others| && others[j] == files[i];
      assert g in others[j];
    }
  }

  /** End to end: two loads of the same files in different orders either both fail or resolve every
      component alike. */
  method LoadInTwoOrders<C, E>(files: seq<map<string, Group<C>>>, others: seq<map<string, Group<C>>>, c: string, comp: C,
                               projectDefaults: C, distroDefaults: C, merge: Merge<C, E>, finish: C -> C)
    returns (one: Option<Result<C, ResolveError<E>>>, other: Option<Result<C, ResolveError<E>>>)
    requires multiset(files) == multiset(others)
    ensures one == other && (one.Some? <==> AllDisjoint({}, files))
    ensures one.Some? && one.value.Failure? ==> one.value.error.MergeFailed?
  {
    hide Indexed, AllDisjoint, Together, Resolved, SortStrings;
    one, other := None, None;
    var first := new ProjectConfig<C>();
    var second := new ProjectConfig<C>();
    FileOrderIsInvisible(first.ComponentGroups, files, others);
    assert first.ComponentGroups.Keys == {};
    var r, _, _ := first.MergeConfigFiles(files);
    var s, _, _ := second.MergeConfigFiles(others);
    if r.Success? {
      var member := if c in first.GroupsByComponent then first.GroupsByComponent[c] else [];
      var x := ResolveComponentConfig(comp, projectDefaults, distroDefaults, first.ComponentGroups, member, merge, finish);
      one := Some(x);
      IndexedMembershipResolves(comp, projectDefaults, distroDefaults, first.ComponentGroups, first.GroupsByComponent, c, merge, finish);
    }
    if s.Success? {
      var member := if c in second.GroupsByComponent then second.GroupsByComponent[c] else [];
      var x := ResolveComponentConfig(comp, projectDefaults, distroDefaults, second.ComponentGroups, member, merge, finish);
      other := Some(x);
    }
    if r.Success? && s.Success? {
      MergeOrderIsInvisible(comp, projectDefaults, distroDefaults, first.ComponentGroups,
                            first.GroupsByComponent, second.GroupsByComponent, c, merge, finish);
    }
  }

  // ---------- Commit pins in lock-file-free mode ----------

  /** The fields of a component that matter for its pin; files are known by their paths. */
  datatype Component = Component(
    upstreamCommit: string,
    sourceConfigFile: Option<string>,
    upstreamCommitConfigFile: Option<string>)

  /** A config file with the upstream commit each of its component definitions gives ("" for none). */
  datatype ConfigFile = ConfigFile(sourcePath: string, components: map<string, string>)

  /** ComponentConfig.MergeOverridesFrom: non-empty values override. */
  function MergeOverrides(c: Component, other: Component): Component {
    Component(
      if other.upstreamCommit != "" then other.upstreamCommit else c.upstreamCommit,
      if other.sourceConfigFile.Some? then other.sourceConfigFile else c.sourceConfigFile,
      if other.upstreamCommitConfigFile.Some? then other.upstreamCommitConfigFile else c.upstreamCommitConfigFile)
  }

  /** ComponentConfig.UpstreamCommitConfigFile. */
  function UpstreamCommitConfigFile(c: Component): Option<string> {
    if c.upstreamCommitConfigFile.None? && c.upstreamCommit != "" then c.sourceConfigFile else c.upstreamCommitConfigFile
  }

  /** The commit of the last file that sets one for the component, with that file. */
  function LastPin(files: seq<ConfigFile>, name: string): Option<(string, string)> {
    if files == [] then None
    else
      var last := files[|files| - 1];
      if name in last.components && last.components[name] != ""
      then Some((last.components[name], last.sourcePath))
      else LastPin(files[..|files| - 1], name)
  }

  /** The last file that mentions the component at all. */
  function LastMention(files: seq<ConfigFile>, name: string): Option<string> {
    if files == [] then None
    else if name in files[|files| - 1].components then Some(files[|files| - 1].sourcePath)
    else LastMention(files[..|files| - 1], name)
  }

  ghost predicate PinnedBy(c: Component, files: seq<ConfigFile>, name: string) {
    && c.sourceConfigFile == LastMention(files, name)
    && match LastPin(files, name)
       case Some((commit, path)) => c.upstreamCommit == commit && c.upstreamCommitConfigFile == Some(path)
       case None => c.upstreamCommit == "" && c.upstreamCommitConfigFile == None
  }

  ghost predicate MergedFrom(components: map<string, Component>, files: seq<ConfigFile>) {
    && (forall name :: name in components <==> LastMention(files, name).Some?)
    && (forall name :: name in components ==> PinnedBy(components[name], files, name))
  }

  lemma {:induction false} NeverMentioned(files: seq<ConfigFile>, name: string)
    requires LastMention(files, name).None?
    ensures LastPin(files, name).None?
  {
    if files != [] {
      NeverMentioned(files[..|files| - 1], name);
    }
  }

  /** The components resolved so far, and the files they were merged from. */
  class ResolvedComponents {
    var Components: map<string, Component>
    ghost var files: seq<ConfigFile>

    ghost predicate Valid()
      reads this
    {
      MergedFrom(Components, files)
    }

    constructor ()
      ensures Valid() && files == []
    {
      Components, files := map[], [];
    }

    /** Merges one more file, its definitions in any order. */
    method MergeComponentsWithOverride(loaded: ConfigFile)
      requires Valid()
      modifies this
      ensures Valid() && files == old(files) + [loaded]
    {
      ghost var all := files + [loaded];
      assert all[..|all| - 1] == files;
      var rest := loaded.components.Keys;
      while rest != {}
        invariant rest <= loaded.components.Keys && files == old(files)
        invariant forall name :: name in Components <==> name in old(Components) || name in loaded.components.Keys - rest
        invariant forall name :: name in Components ==>
          if name in loaded.components.Keys - rest then PinnedBy(Components[name], all, name)
          else name in old(Components) && Components[name] == old(Components)[name]
        decreases rest
      {
        var componentName :| componentName in rest;
        var commit := loaded.components[componentName];
        var component := Component(commit, Some(loaded.sourcePath), if commit != "" then Some(loaded.sourcePath) else None);
        if componentName in Components {
          Components := Components[componentName := MergeOverrides(Components[componentName], component)];
        } else {
          NeverMentioned(files, componentName);
          Components := Components[componentName := component];
        }
        rest := rest - {componentName};
      }
      files := all;
    }
  }

  /** After any sequence of merges, and before inheritance, a component is pinned to the commit of the
      last file that set one, and its provenance is that same file, whatever files mentioned it later. */
  method MergeAllWithOverride(files: seq<ConfigFile>) returns (components: map<string, Component>)
    ensures MergedFrom(components, files)
    ensures forall name :: name in components <==> LastMention(files, name).Some?
    ensures forall name :: name in components ==>
              match LastPin(files, name)
              case Some((commit, path)) => components[name].upstreamCommit == commit
                                        && UpstreamCommitConfigFile(components[name]) == Some(path)
              case None => components[name].upstreamCommit == "" && UpstreamCommitConfigFile(components[name]) == None
  {
    var resolved := new ResolvedComponents();
    for i := 0 to |files|
      invariant resolved.Valid() && resolved.files == files[..i]
    {
      resolved.MergeComponentsWithOverride(files[i]);
    }
    assert files[..|files|] == files;
    components := resolved.Components;
  }

  /** LastPin is the last one: it is set by some file, and no later file sets a commit. */
  lemma {:induction false} LastPinIsLast(files: seq<ConfigFile>, name: string) returns (i: int)
    ensures LastPin(files, name).None? ==> i == -1
    ensures LastPin(files, name).Some? ==>
              0 <= i < |files| && name in files[i].components
              && LastPin(files, name) == Some((files[i].components[name], files[i].sourcePath))
              && files[i].components[name] != ""
    ensures forall j :: i < j < |files| && name in files[j].components ==> j < 0 || files[j].components[name] == ""
  {
    if files == [] {
      i := -1;
    } else {
      var last := files[|files| - 1];
      if name in last.components && last.components[name] != "" {
        i := |files| - 1;
      } else {
        i := LastPinIsLast(files[..|files| - 1], name);
      }
    }
  }

  // ---------- Commit pins after inheritance ----------

  /** ComponentConfig.MergeUpdatesFrom on the same fields: it copies the config file of the other config,
      but the pin's own file is a private field that it does not copy. */
  function MergeUpdates(c: Component, other: Component): Result<Component, ()> {
    Success(Component(
      if other.upstreamCommit != "" then other.upstreamCommit else c.upstreamCommit,
      if other.sourceConfigFile.Some? then other.sourceConfigFile else c.sourceConfigFile,
      c.upstreamCommitConfigFile))
  }

  /** Merging has a neutral config, and may be grouped as one likes. */
  lemma MergesAreMonoids(a: Component, b: Component, c: Component)
    ensures var none := Component("", None, None);
            && MergeOverrides(a, none) == MergeOverrides(none, a) == a && MergeUpdates(a, none) == Success(a)
            && MergeUpdates(none, a) == Success(a.(upstreamCommitConfigFile := None))
    ensures MergeOverrides(MergeOverrides(a, b), c) == MergeOverrides(a, MergeOverrides(b, c))
    ensures MergeUpdates(MergeUpdates(a, b).value, c) == MergeUpdates(a, MergeUpdates(b, c).value)
  {
  }

  /** The pin's own file is a private field, which loading never sets in default configs. */
  predicate NoFiles(c: Component) {
    c.upstreamCommitConfigFile.None?
  }

  ghost predicate GroupsWithoutFiles(groups: map<string, Group<Component>>) {
    forall g :: g in groups ==> NoFiles(groups[g].defaults)
  }

  /** The commit the last non-empty default gives, in sorted group order; "" when there is none. */
  ghost function GroupCommit(commit: string, groups: map<string, Group<Component>>, names: seq<string>): string
    decreases names
  {
    if names == [] then commit
    else
      GroupCommit(if names[0] in groups && groups[names[0]].defaults.upstreamCommit != ""
                  then groups[names[0]].defaults.upstreamCommit else commit,
                  groups, names[1..])
  }

  ghost function DefaultCommit(projectDefaults: Component, distroDefaults: Component, groups: map<string, Group<Component>>,
                               membership: seq<string>): string
  {
    GroupCommit(if projectDefaults.upstreamCommit != "" then projectDefaults.upstreamCommit else distroDefaults.upstreamCommit,
                groups, SortStrings(membership))
  }

  lemma {:induction false} DefaultsStayWithoutFiles(base: Component, groups: map<string, Group<Component>>, names: seq<string>)
    requires NoFiles(base) && GroupsWithoutFiles(groups) && forall g :: g in names ==> g in groups
    ensures var r := ApplyGroups(base, groups, names, MergeUpdates);
            r.Success? && NoFiles(r.value) && r.value.upstreamCommit == GroupCommit(base.upstreamCommit, groups, names)
    decreases names
  {
    if names != [] {
      DefaultsStayWithoutFiles(MergeUpdates(base, groups[names[0]].defaults).value, groups, names[1..]);
    }
  }

  /** What inheritance leaves of a component's pin: its own commit if it has one and otherwise the one of
      its defaults, and as provenance, if there is a commit, the component's own config file. */
  lemma ResolvedPin(comp: Component, projectDefaults: Component, distroDefaults: Component, groups: map<string, Group<Component>>,
                    membership: seq<string>)
    requires NoFiles(projectDefaults) && NoFiles(distroDefaults) && GroupsWithoutFiles(groups)
    requires comp.sourceConfigFile.Some? && forall g :: g in membership ==> g in groups
    ensures var r := Resolved(comp, projectDefaults, distroDefaults, groups, SortStrings(membership), MergeUpdates, x => x);
            var inherited := DefaultCommit(projectDefaults, distroDefaults, groups, membership);
            && r.Success?
            && r.value.upstreamCommit == (if comp.upstreamCommit != "" then comp.upstreamCommit else inherited)
            && UpstreamCommitConfigFile(r.value) == if r.value.upstreamCommit != "" then comp.sourceConfigFile else None
  {
    hide SortStrings, ApplyGroups, GroupCommit;
    var names := SortStrings(membership);
    forall g | g in names ensures g in groups {
      assert g in multiset(names);
    }
    DefaultsStayWithoutFiles(MergeUpdates(distroDefaults, projectDefaults).value, groups, names);
  }

  /** From the files to the resolved component. A pinned component keeps the commit of the last file that
      set one, but its provenance is the last file that mentions it. With no file loaded twice that is
      the right file if and only if the component's last definition sets a commit. A component that
      inherits its commit names its own file. */
  method MergeAndResolve(files: seq<ConfigFile>, name: string, projectDefaults: Component, distroDefaults: Component,
                         groups: map<string, Group<Component>>, membership: seq<string>)
    returns (r: Option<Component>)
    requires NoFiles(projectDefaults) && NoFiles(distroDefaults) && GroupsWithoutFiles(groups)
    requires forall g :: g in membership ==> g in groups
    ensures r.Some? <==> LastMention(files, name).Some?
    ensures r.Some? && LastPin(files, name).Some? ==>
              var (commit, path) := LastPin(files, name).value;
              && r.value.upstreamCommit == commit
              && UpstreamCommitConfigFile(r.value) == LastMention(files, name)
              && (DistinctPaths(files) ==> (UpstreamCommitConfigFile(r.value) == Some(path) <==> LastDefinitionPins(files, name)))
    ensures r.Some? && LastPin(files, name).None? ==>
              var inherited := DefaultCommit(projectDefaults, distroDefaults, groups, membership);
              && r.value.upstreamCommit == inherited
              && UpstreamCommitConfigFile(r.value) == if inherited != "" then LastMention(files, name) else None
  {
    hide Resolved, LastPin, LastMention, DefaultCommit, SortStrings, DistinctPaths, LastDefinitionPins;
    var components := MergeAllWithOverride(files);
    if name !in components {
      return None;
    }
    ResolvedPin(components[name], projectDefaults, distroDefaults, groups, membership);
    PinIsNotEmpty(files, name);
    if DistinctPaths(files) && LastPin(files, name).Some? {
      LastDefinitionDecides(files, name);
    }
    var resolved := ResolveComponentConfig(components[name], projectDefaults, distroDefaults, groups, membership, MergeUpdates, x => x);
    r := Some(resolved.value);
  }

  lemma {:induction false} PinIsNotEmpty(files: seq<ConfigFile>, name: string)
    ensures LastPin(files, name).Some? ==> LastPin(files, name).value.0 != ""
  {
    if files != [] {
      PinIsNotEmpty(files[..|files| - 1], name);
    }
  }

  /** No file is loaded twice. */
  ghost predicate DistinctPaths(files: seq<ConfigFile>) {
    forall i, j :: 0 <= i < j < |files| ==> files[i].sourcePath != files[j].sourcePath
  }

  /** The last definition of the component sets a commit. */
  predicate LastDefinitionPins(files: seq<ConfigFile>, name: string) {
    files != []
    && if name in files[|files| - 1].components then files[|files| - 1].components[name] != ""
       else LastDefinitionPins(files[..|files| - 1], name)
  }

  lemma {:induction false} PinIsSomeFile(files: seq<ConfigFile>, name: string)
    ensures LastPin(files, name).Some? ==> exists i :: 0 <= i < |files| && files[i].sourcePath == LastPin(files, name).value.1
  {
    if files != [] {
      var front := files[..|files| - 1];
      PinIsSomeFile(front, name);
      if i :| 0 <= i < |front| && LastPin(front, name).Some? && front[i].sourcePath == LastPin(front, name).value.1 {
        assert files[i] == front[i];
      }
      assert files[|files| - 1].sourcePath == files[|files| - 1].sourcePath;
    }
  }

  /** The pinning file is the last to mention the component exactly when the last mention is a pin. */
  lemma {:induction false} LastDefinitionDecides(files: seq<ConfigFile>, name: string)
    requires DistinctPaths(files) && LastPin(files, name).Some?
    ensures LastMention(files, name) == Some(LastPin(files, name).value.1) <==> LastDefinitionPins(files, name)
  {
    var front, last := files[..|files| - 1], files[|files| - 1];
    if name in last.components {
      if last.components[name] == "" {
        PinIsSomeFile(front, name);
        var i :| 0 <= i < |front| && front[i].sourcePath == LastPin(front, name).value.1;
        assert files[i] == front[i];
      }
    } else {
      LastDefinitionDecides(front, name);
    }
  }

  /** A generated pin followed by a partial definition: the commit is right, and its provenance is not. */
  method LaterMentionTakesProvenance(commit: string) returns (r: Option<Component>)
    requires commit != ""
    ensures var files := [ConfigFile("generated.toml", map["c" := commit]), ConfigFile("partial.toml", map["c" := ""])];
            LastPin(files, "c") == Some((commit, "generated.toml"))
    ensures r.Some? && r.value.upstreamCommit == commit && UpstreamCommitConfigFile(r.value) == Some("partial.toml")
  {
    var files := [ConfigFile("generated.toml", map["c" := commit]), ConfigFile("partial.toml", map["c" := ""])];
    assert files[..1] == [files[0]];
    assert LastPin(files, "c") == LastPin([files[0]], "c") == Some((commit, "generated.toml"));
    var none := Component("", None, None);
    r := MergeAndResolve(files, "c", none, none, map[], []);
  }
}
