/** internal/projectconfig/resources.go and project.go: RPM repositories, repository sets and the
    inputs of distro versions.

    Sets expand into repositories; validation of the whole project is shown to guarantee what the
    build relies on for every repository a version's inputs end up naming. */
module Resources {
  import opened Wrappers
  import opened Strings
  import opened Paths
  import opened RepoRules

  // ---------- The configuration ----------

  datatype ResourcesConfig = ResourcesConfig(
    rpmRepos: map<string, RpmRepo>,
    rpmRepoSetTemplates: map<string, seq<SubrepoSpec>>,
    rpmRepoSets: map<string, RpmRepoSet>)

  datatype ConfigError =
    | InvalidRepoName(name: string)
    | InvalidRepo(name: string)
    | InvalidTemplate(name: string)
    | InvalidSet(name: string)
    | UndefinedTemplate(name: string)
    | BadAllowlist(name: string)
    | BadSubpath(name: string)
    | NameCollision(setName: string, name: string)
    | InvalidInput(index: nat)
    | UndefinedSet(name: string)
    | DuplicateInput(name: string)
    | UndefinedRepo(name: string)
    | LocalKeyForRpmBuild(name: string)

  function SubrepoNames(subs: seq<SubrepoSpec>): (names: seq<string>)
    ensures |names| == |subs| && forall i :: 0 <= i < |subs| ==> names[i] == subs[i].name
  {
    seq(|subs|, i requires 0 <= i < |subs| => subs[i].name)
  }

  ghost predicate ValidTemplate(subs: seq<SubrepoSpec>, rules: TextRules) {
    && subs != [] && NoDuplicates(SubrepoNames(subs))
    && forall i :: 0 <= i < |subs| ==> ValidSubrepo(subs[i], rules)
  }

  method ValidateRpmRepoSetTemplate(subs: seq<SubrepoSpec>, rules: TextRules) returns (ok: bool)
    ensures ok <==> ValidTemplate(subs, rules)
  {
    hide ValidRpmRepoName, ValidKindAndSubpath, ValidateRpmRepoName, ValidateKindAndSubpath;
    if |subs| == 0 {
      return false;
    }
    var seen: set<string> := {};
    ghost var names := SubrepoNames(subs);
    for i := 0 to |subs|
      invariant forall j :: 0 <= j < i ==> ValidSubrepo(subs[j], rules)
      invariant Fresh(names[..i], {}) && seen == Elements(names[..i])
    {
      var sub := subs[i];
      if ValidateRpmRepoName(sub.name).Some? {
        return false;
      }
      if sub.name in seen {
        ghost var j :| 0 <= j < i && names[j] == sub.name;
        return false;
      }
      FreshAppend(names[..i], [sub.name], {});
      assert names[..i + 1] == names[..i] + [sub.name];
      seen := seen + {sub.name};
      if ValidateKindAndSubpath(sub, rules).Some? {
        return false;
      }
    }
    assert names[..|subs|] == names;
    ok := true;
  }

  // ---------- Expanding a set ----------

  datatype ExpandedRepo = ExpandedRepo(name: string, repo: RpmRepo)

  function JoinSetBaseURI(baseURI: string, subpath: string, rules: TextRules): Option<string> {
    if subpath == "" || "/" <= subpath || ".." in Segments(subpath) || '?' in subpath || '#' in subpath then None
    else
      match rules.parse(baseURI)
      case None => None
      case Some(u) =>
        if u.rawQuery != "" || u.fragment != "" then None else Some(TrimSlashes(baseURI) + "/" + subpath)
  }

  function ExpandedDescription(s: RpmRepoSet, sub: SubrepoSpec): string {
    var kind := if sub.kind == "" then "binary" else sub.kind;
    (if s.description != "" then s.description + " - " else "expanded from rpm-repo-set, ")
    + "subrepo \"" + sub.name + "\" (kind=" + kind + ")"
  }

  /** The repository one sub-repo of a set stands for, if it can be made. */
  function Synthesized(s: RpmRepoSet, sub: SubrepoSpec, rules: TextRules): Option<ExpandedRepo> {
    match JoinSetBaseURI(s.baseURI, sub.subpath, rules)
    case None => None
    case Some(baseURI) =>
      if ValidateRpmRepoName(s.namePrefix + sub.name).Some? then None
      else Some(ExpandedRepo(s.namePrefix + sub.name,
                             RpmRepo(ExpandedDescription(s, sub), "rpm-md", baseURI, "", s.disableGPGCheck, s.gpgKey, s.arches)))
  }

  predicate Included(s: RpmRepoSet, sub: SubrepoSpec) {
    s.subrepos == [] || sub.name in s.subrepos
  }

  /** The included sub-repos, in template order. */
  function IncludedSubrepos(s: RpmRepoSet, subs: seq<SubrepoSpec>): seq<SubrepoSpec> {
    if subs == [] then []
    else IncludedSubrepos(s, subs[..|subs| - 1]) + if Included(s, subs[|subs| - 1]) then [subs[|subs| - 1]] else []
  }

  /** An allowlist names sub-repos of the template, each once; empty means all. */
  ghost predicate ValidAllowlist(s: RpmRepoSet, subs: seq<SubrepoSpec>) {
    NoDuplicates(s.subrepos) && forall n :: n in s.subrepos ==> n in SubrepoNames(subs)
  }

  ghost predicate Expandable(s: RpmRepoSet, templates: map<string, seq<SubrepoSpec>>, rules: TextRules) {
    && ValidRpmRepoSet(s, rules) && s.template in templates && ValidAllowlist(s, templates[s.template])
    && forall sub :: sub in IncludedSubrepos(s, templates[s.template]) ==> Synthesized(s, sub, rules).Some?
  }

  function SynthesizeAll(s: RpmRepoSet, subs: seq<SubrepoSpec>, rules: TextRules): (entries: seq<ExpandedRepo>)
    requires forall sub :: sub in subs ==> Synthesized(s, sub, rules).Some?
    ensures |entries| == |subs|
    ensures forall i :: 0 <= i < |subs| ==> entries[i] == Synthesized(s, subs[i], rules).value
  {
    seq(|subs|, i requires 0 <= i < |subs| => Synthesized(s, subs[i], rules).value)
  }

  ghost function Expansion(s: RpmRepoSet, templates: map<string, seq<SubrepoSpec>>, rules: TextRules): seq<ExpandedRepo>
    requires Expandable(s, templates, rules)
  {
    SynthesizeAll(s, IncludedSubrepos(s, templates[s.template]), rules)
  }

  method BuildSubrepoAllowlist(s: RpmRepoSet, subs: seq<SubrepoSpec>) returns (ok: bool, allowlist: Option<set<string>>)
    ensures ok <==> ValidAllowlist(s, subs)
    ensures ok ==> allowlist == if s.subrepos == [] then None else Some(Elements(s.subrepos))
  {
    if |s.subrepos| == 0 {
      return true, None;
    }
    var known: set<string> := {};
    ghost var names := SubrepoNames(subs);
    for i := 0 to |subs|
      invariant known == Elements(names[..i])
    {
      ElementsSnoc(names[..i], names[i]);
      assert names[..i + 1] == names[..i] + [names[i]];
      known := known + {subs[i].name};
    }
    assert names[..|subs|] == names;
    var allowed: set<string> := {};
    for i := 0 to |s.subrepos|
      invariant Fresh(s.subrepos[..i], {}) && allowed == Elements(s.subrepos[..i])
      invariant forall j :: 0 <= j < i ==> s.subrepos[j] in names
    {
      var name := s.subrepos[i];
      if name !in known {
        return false, None;
      }
      if name in allowed {
        ghost var j :| 0 <= j < i && s.subrepos[..i][j] == name;
        return false, None;
      }
      FreshAppend(s.subrepos[..i], [name], {});
      assert s.subrepos[..i + 1] == s.subrepos[..i] + [name];
      allowed := allowed + {name};
    }
    assert s.subrepos[..|s.subrepos|] == s.subrepos;
    return true, Some(allowed);
  }

  method ExpandRpmRepoSet(setName: string, s: RpmRepoSet, templates: map<string, seq<SubrepoSpec>>, rules: TextRules)
    returns (r: Result<seq<ExpandedRepo>, ConfigError>)
    ensures r.Success? <==> Expandable(s, templates, rules)
    ensures r.Success? ==> r.value == Expansion(s, templates, rules)
  {
    hide Synthesized, ValidRpmRepoSet, IncludedSubrepos, SynthesizeAll, NoDuplicates, SubrepoNames;
    if ValidateRpmRepoSet(s, rules).Some? {
      return Failure(InvalidSet(setName));
    }
    if s.template !in templates {
      return Failure(UndefinedTemplate(s.template));
    }
    var subs := templates[s.template];
    var ok, allowlist := BuildSubrepoAllowlist(s, subs);
    if !ok {
      return Failure(BadAllowlist(setName));
    }
    var out: seq<ExpandedRepo> := [];
    NoneIncluded(s, subs, rules);
    for i := 0 to |subs|
      invariant forall sub :: sub in IncludedSubrepos(s, subs[..i]) ==> Synthesized(s, sub, rules).Some?
      invariant out == SynthesizeAll(s, IncludedSubrepos(s, subs[..i]), rules)
    {
      var sub := subs[i];
      IncludedStep(s, subs, i);
      if allowlist.Some? && sub.name !in allowlist.value {
        continue;
      }
      IncludedSubreposGrow(s, subs, i + 1);
      assert Included(s, sub) && sub in IncludedSubrepos(s, subs[..i + 1]);
      var entry := Synthesized(s, sub, rules);
      if entry.None? {
        return Failure(BadSubpath(sub.name));
      }
      out := out + [entry.value];
    }
    assert subs[..|subs|] == subs;
    r := Success(out);
  }

  lemma NoneIncluded(s: RpmRepoSet, subs: seq<SubrepoSpec>, rules: TextRules)
    ensures IncludedSubrepos(s, subs[..0]) == [] && SynthesizeAll(s, [], rules) == []
  {
  }

  lemma IncludedStep(s: RpmRepoSet, subs: seq<SubrepoSpec>, i: nat)
    requires i < |subs|
    ensures Included(s, subs[i]) ==> IncludedSubrepos(s, subs[..i + 1]) == IncludedSubrepos(s, subs[..i]) + [subs[i]]
    ensures !Included(s, subs[i]) ==> IncludedSubrepos(s, subs[..i + 1]) == IncludedSubrepos(s, subs[..i])
  {
    hide Included;
    assert subs[..i + 1][..i] == subs[..i];
  }

  lemma {:induction false} IncludedSubreposGrow(s: RpmRepoSet, subs: seq<SubrepoSpec>, i: nat)
    requires i <= |subs|
    ensures forall sub :: sub in IncludedSubrepos(s, subs[..i]) ==> sub in IncludedSubrepos(s, subs)
  {
    if i == |subs| {
      assert subs[..i] == subs;
    } else {
      IncludedSubreposGrow(s, subs[..|subs| - 1], i);
      assert subs[..|subs| - 1][..i] == subs[..i];
    }
  }

  /** What a set's repositories take over from it. */
  lemma ExpansionKeepsKey(s: RpmRepoSet, templates: map<string, seq<SubrepoSpec>>, rules: TextRules)
    requires Expandable(s, templates, rules)
    ensures forall e :: e in Expansion(s, templates, rules) ==>
              e.repo.gpgKey == s.gpgKey && e.repo.disableGPGCheck == s.disableGPGCheck && ValidRpmRepoName(e.name)
              && ValidGPG(e.repo.disableGPGCheck, e.repo.gpgKey, rules)
  {
  }

  /** A subpath that stays below the base URI: relative, without parent segments, query or fragment. */
  predicate StaysBelow(subpath: string) {
    && subpath != "" && subpath[0] != '/' && '?' !in subpath && '#' !in subpath
    && forall i :: 0 <= i < |Segments(subpath)| ==> Segments(subpath)[i] != ".."
  }

  /** A sub-repo stands for a repository exactly when its subpath stays below a base URI to which paths
      can be added, and its prefixed name is a repository name. */
  lemma SynthesizedIff(s: RpmRepoSet, sub: SubrepoSpec, rules: TextRules)
    ensures Synthesized(s, sub, rules).Some? <==>
              && StaysBelow(sub.subpath) && ValidRpmRepoName(s.namePrefix + sub.name)
              && exists u :: rules.parse(s.baseURI) == Some(u) && u.rawQuery == u.fragment == ""
  {
    hide ValidRpmRepoName, ValidateRpmRepoName;
  }

  /** The repository of a sub-repo: the subpath below the base URI without its final slashes, the name
      behind the prefix, and everything else as the set has it. */
  ghost predicate StandsFor(e: ExpandedRepo, s: RpmRepoSet, sub: SubrepoSpec) {
    && e.name == s.namePrefix + sub.name
    && e.repo.baseURI == TrimSlashes(s.baseURI) + "/" + sub.subpath && StaysBelow(sub.subpath)
    && e.repo.repoType == "rpm-md" && e.repo.metalink == "" && e.repo.arches == s.arches
    && e.repo.gpgKey == s.gpgKey && e.repo.disableGPGCheck == s.disableGPGCheck
    && HasPrefix(e.repo.description, if s.description != "" then s.description + " - " else "expanded from rpm-repo-set, ")
    && HasSuffix(e.repo.description,
                 "subrepo \"" + sub.name + "\" (kind=" + (if sub.kind == "" then "binary" else sub.kind) + ")")
  }

  lemma SynthesizedStandsFor(s: RpmRepoSet, sub: SubrepoSpec, rules: TextRules)
    requires Synthesized(s, sub, rules).Some?
    ensures StandsFor(Synthesized(s, sub, rules).value, s, sub)
  {
    hide ValidRpmRepoName, ValidateRpmRepoName, Segments, ExpandedDescription, HasPrefix, HasSuffix, TrimSlashes;
    DescriptionParts(s, sub);
  }

  lemma DescriptionParts(s: RpmRepoSet, sub: SubrepoSpec)
    ensures HasPrefix(ExpandedDescription(s, sub), if s.description != "" then s.description + " - " else "expanded from rpm-repo-set, ")
    ensures HasSuffix(ExpandedDescription(s, sub),
                      "subrepo \"" + sub.name + "\" (kind=" + (if sub.kind == "" then "binary" else sub.kind) + ")")
  {
    var kind := if sub.kind == "" then "binary" else sub.kind;
    var start := if s.description != "" then s.description + " - " else "expanded from rpm-repo-set, ";
    var end := "subrepo \"" + sub.name + "\" (kind=" + kind + ")";
    assert ExpandedDescription(s, sub) == start + end;
    assert (start + end)[|start|..] == end;
  }

  /** The i-th repository of a set is that of its i-th included sub-repo, and two sub-repos share a URI or a
      name only if they share the subpath or the name. */
  lemma ExpansionStandsFor(s: RpmRepoSet, templates: map<string, seq<SubrepoSpec>>, rules: TextRules, i: nat, j: nat)
    requires Expandable(s, templates, rules)
    requires i < |Expansion(s, templates, rules)| && j < |Expansion(s, templates, rules)|
    ensures var subs, entries := IncludedSubrepos(s, templates[s.template]), Expansion(s, templates, rules);
            && |entries| == |subs| && StandsFor(entries[i], s, subs[i])
            && (entries[i].repo.baseURI == entries[j].repo.baseURI <==> subs[i].subpath == subs[j].subpath)
            && (entries[i].name == entries[j].name <==> subs[i].name == subs[j].name)
  {
    hide Synthesized, ValidRpmRepoName, ValidateRpmRepoName, ValidRpmRepoSet, TrimSlashes, StaysBelow;
    var subs, entries := IncludedSubrepos(s, templates[s.template]), Expansion(s, templates, rules);
    var root := TrimSlashes(s.baseURI) + "/";
    SynthesizedStandsFor(s, subs[i], rules);
    SynthesizedStandsFor(s, subs[j], rules);
    SamePrefix(root, subs[i].subpath, subs[j].subpath);
    SamePrefix(s.namePrefix, subs[i].name, subs[j].name);
  }

  lemma SamePrefix(p: string, a: string, b: string)
    ensures p + a == p + b <==> a == b
  {
    assert (p + a)[|p|..] == a && (p + b)[|p|..] == b;
  }

  // ---------- The effective map ----------

  function EntryNames(entries: seq<ExpandedRepo>): (names: seq<string>)
    ensures |names| == |entries| && forall i :: 0 <= i < |entries| ==> names[i] == entries[i].name
  {
    seq(|entries|, i requires 0 <= i < |entries| => entries[i].name)
  }

  ghost predicate AllExpandable(r: ResourcesConfig, setNames: seq<string>, rules: TextRules) {
    forall n :: n in setNames ==> n in r.rpmRepoSets && Expandable(r.rpmRepoSets[n], r.rpmRepoSetTemplates, rules)
  }

  /** The expansions of several sets, one after the other. */
  ghost function Expansions(r: ResourcesConfig, setNames: seq<string>, rules: TextRules): seq<ExpandedRepo>
    requires AllExpandable(r, setNames, rules)
  {
    if setNames == [] then []
    else
      assert setNames[|setNames| - 1] in setNames;
      Expansions(r, setNames[..|setNames| - 1], rules)
      + Expansion(r.rpmRepoSets[setNames[|setNames| - 1]], r.rpmRepoSetTemplates, rules)
  }

  function AddEntries(repos: map<string, RpmRepo>, entries: seq<ExpandedRepo>): map<string, RpmRepo> {
    if entries == [] then repos
    else AddEntries(repos, entries[..|entries| - 1])[entries[|entries| - 1].name := entries[|entries| - 1].repo]
  }

  lemma {:induction false} AddEntriesAppends(repos: map<string, RpmRepo>, a: seq<ExpandedRepo>, b: seq<ExpandedRepo>)
    ensures AddEntries(repos, a + b) == AddEntries(AddEntries(repos, a), b)
  {
    if b == [] {
      assert a + b == a;
    } else {
      var last := b[|b| - 1];
      assert (a + b)[..|a + b| - 1] == a + b[..|b| - 1] && (a + b)[|a + b| - 1] == last;
      AddEntriesAppends(repos, a, b[..|b| - 1]);
    }
  }

  lemma {:induction false} AddEntriesKeys(repos: map<string, RpmRepo>, entries: seq<ExpandedRepo>)
    ensures AddEntries(repos, entries).Keys == repos.Keys + Elements(EntryNames(entries))
  {
    if entries != [] {
      var front, last := entries[..|entries| - 1], entries[|entries| - 1];
      AddEntriesKeys(repos, front);
      assert EntryNames(entries) == EntryNames(front) + [last.name];
      ElementsSnoc(EntryNames(front), last.name);
    }
  }

  /** No synthesized name repeats, or is that of an explicit repository. */
  ghost predicate NoCollisions(r: ResourcesConfig, rules: TextRules)
    requires AllExpandable(r, Ascending(r.rpmRepoSets.Keys), rules)
  {
    Fresh(EntryNames(Expansions(r, Ascending(r.rpmRepoSets.Keys), rules)), r.rpmRepos.Keys)
  }

  ghost predicate Effective(r: ResourcesConfig, rules: TextRules) {
    AllExpandable(r, Ascending(r.rpmRepoSets.Keys), rules) && NoCollisions(r, rules)
  }

  ghost function EffectiveMap(r: ResourcesConfig, rules: TextRules): map<string, RpmRepo>
    requires Effective(r, rules)
  {
    AddEntries(r.rpmRepos, Expansions(r, Ascending(r.rpmRepoSets.Keys), rules))
  }

  method EffectiveRpmRepos(r: ResourcesConfig, rules: TextRules) returns (result: Result<map<string, RpmRepo>, ConfigError>)
    ensures result.Success? <==> Effective(r, rules)
    ensures result.Success? ==> result.value == EffectiveMap(r, rules)
  {
    hide Expandable, Ascending, SortStrings, Fresh, Sorted, StrictlySorted, NoDuplicates, AddEntries, Expansions, Expansion;
    var effective := r.rpmRepos;
    var collected := CollectKeys(r.rpmRepoSets.Keys);
    var setNames := SortStrings(collected);
    AscendingIsTheSortOf(r.rpmRepoSets.Keys, collected);
    AscendingProperties(r.rpmRepoSets.Keys);
    NoSetsYet(r, rules);
    for i := 0 to |setNames|
      invariant AllExpandable(r, setNames[..i], rules)
      invariant Fresh(EntryNames(Expansions(r, setNames[..i], rules)), r.rpmRepos.Keys)
      invariant effective == AddEntries(r.rpmRepos, Expansions(r, setNames[..i], rules))
    {
      var setName := setNames[i];
      var expanded := ExpandRpmRepoSet(setName, r.rpmRepoSets[setName], r.rpmRepoSetTemplates, rules);
      if expanded.Failure? {
        assert setName in setNames;
        return Failure(expanded.error);
      }
      OneMoreSet(r, rules, setNames, i);
      var collision, merged := AddExpanded(effective, expanded.value);
      if collision.Some? {
        CollisionsLast(r, rules, setNames, i);
        return Failure(NameCollision(setName, collision.value));
      }
      effective := merged;
    }
    assert setNames[..|setNames|] == setNames;
    result := Success(effective);
  }

  /** The inner loop of EffectiveRpmRepos: adds one set's entries, or reports the first collision. */
  method AddExpanded(effective: map<string, RpmRepo>, expanded: seq<ExpandedRepo>)
    returns (collision: Option<string>, merged: map<string, RpmRepo>)
    ensures collision.None? <==> Fresh(EntryNames(expanded), effective.Keys)
    ensures collision.None? ==> merged == AddEntries(effective, expanded)
  {
    hide Fresh;
    merged := effective;
    ghost var names := EntryNames(expanded);
    AlwaysFresh<string>(effective.Keys);
    for i := 0 to |expanded|
      invariant Fresh(names[..i], effective.Keys) && merged == AddEntries(effective, expanded[..i])
      invariant EntryNames(expanded[..i]) == names[..i]
    {
      var entry := expanded[i];
      assert names[..i + 1] == names[..i] + [entry.name] && names == names[..i + 1] + names[i + 1..];
      assert expanded[..i + 1][..i] == expanded[..i];
      FreshAppend(names[..i], [entry.name], effective.Keys);
      FreshAppend(names[..i + 1], names[i + 1..], effective.Keys);
      AddEntriesKeys(effective, expanded[..i]);
      FreshOne(entry.name, effective.Keys + Elements(names[..i]));
      if entry.name in merged {
        return Some(entry.name), merged;
      }
      merged := merged[entry.name := entry.repo];
    }
    assert names[..|expanded|] == names && expanded[..|expanded|] == expanded;
    collision := None;
  }

  lemma NoSetsYet(r: ResourcesConfig, rules: TextRules)
    ensures AllExpandable(r, [], rules) && Expansions(r, [], rules) == []
    ensures Fresh(EntryNames(Expansions(r, [], rules)), r.rpmRepos.Keys)
    ensures AddEntries(r.rpmRepos, []) == r.rpmRepos
  {
    AlwaysFresh<string>(r.rpmRepos.Keys);
  }

  lemma OneMoreSet(r: ResourcesConfig, rules: TextRules, setNames: seq<string>, i: nat)
    requires i < |setNames| && AllExpandable(r, setNames[..i], rules)
    requires setNames[i] in r.rpmRepoSets && Expandable(r.rpmRepoSets[setNames[i]], r.rpmRepoSetTemplates, rules)
    requires Fresh(EntryNames(Expansions(r, setNames[..i], rules)), r.rpmRepos.Keys)
    ensures AllExpandable(r, setNames[..i + 1], rules)
    ensures var more := Expansion(r.rpmRepoSets[setNames[i]], r.rpmRepoSetTemplates, rules);
            var effective := AddEntries(r.rpmRepos, Expansions(r, setNames[..i], rules));
            && (Fresh(EntryNames(Expansions(r, setNames[..i + 1], rules)), r.rpmRepos.Keys)
                <==> Fresh(EntryNames(more), effective.Keys))
            && AddEntries(r.rpmRepos, Expansions(r, setNames[..i + 1], rules)) == AddEntries(effective, more)
  {
    hide Expandable, Fresh, AddEntries, Expansion;
    var done := Expansions(r, setNames[..i], rules);
    var more := Expansion(r.rpmRepoSets[setNames[i]], r.rpmRepoSetTemplates, rules);
    assert setNames[..i + 1] == setNames[..i] + [setNames[i]] && setNames[..i + 1][..i] == setNames[..i];
    assert AllExpandable(r, setNames[..i + 1], rules);
    assert Expansions(r, setNames[..i + 1], rules) == done + more;
    AddEntriesKeys(r.rpmRepos, done);
    AddEntriesAppends(r.rpmRepos, done, more);
    assert EntryNames(done + more) == EntryNames(done) + EntryNames(more);
    FreshAppend(EntryNames(done), EntryNames(more), r.rpmRepos.Keys);
  }

  lemma FreshOne<T>(x: T, seen: set<T>)
    ensures Fresh([x], seen) <==> x !in seen
  {
    assert x in [x];
  }

  lemma {:induction false} ExpansionsGrow(r: ResourcesConfig, setNames: seq<string>, rules: TextRules, i: nat)
    requires AllExpandable(r, setNames, rules) && i <= |setNames|
    ensures AllExpandable(r, setNames[..i], rules)
    ensures Expansions(r, setNames[..i], rules) <= Expansions(r, setNames, rules)
  {
    if i == |setNames| {
      assert setNames[..i] == setNames;
    } else {
      ExpansionsGrow(r, setNames[..|setNames| - 1], rules, i);
      assert setNames[..|setNames| - 1][..i] == setNames[..i];
    }
  }

  /** A collision among the first sets is a collision. */
  lemma CollisionsLast(r: ResourcesConfig, rules: TextRules, setNames: seq<string>, i: nat)
    requires setNames == Ascending(r.rpmRepoSets.Keys) && i < |setNames| && AllExpandable(r, setNames[..i + 1], rules)
    requires !Fresh(EntryNames(Expansions(r, setNames[..i + 1], rules)), r.rpmRepos.Keys)
    ensures !Effective(r, rules)
  {
    hide Expandable, Ascending, Fresh, Expansions, Expansion, AddEntries;
    if AllExpandable(r, setNames, rules) {
      ExpansionsGrow(r, setNames, rules, i + 1);
      var part, whole := Expansions(r, setNames[..i + 1], rules), Expansions(r, setNames, rules);
      assert whole == part + whole[|part|..];
      assert EntryNames(whole) == EntryNames(part) + EntryNames(whole[|part|..]);
      FreshAppend(EntryNames(part), EntryNames(whole[|part|..]), r.rpmRepos.Keys);
    }
  }

  lemma AddLast(repos: map<string, RpmRepo>, entries: seq<ExpandedRepo>)
    ensures entries == [] ==> AddEntries(repos, entries) == repos
    ensures entries != [] ==>
              AddEntries(repos, entries)
              == AddEntries(repos, entries[..|entries| - 1])[entries[|entries| - 1].name := entries[|entries| - 1].repo]
  {
  }

  lemma LastEntryIsFresh(entries: seq<ExpandedRepo>, taken: set<string>)
    requires entries != [] && Fresh(EntryNames(entries), taken)
    ensures var front, last := entries[..|entries| - 1], entries[|entries| - 1];
            Fresh(EntryNames(front), taken) && last.name !in taken && forall i :: 0 <= i < |front| ==> front[i].name != last.name
  {
    hide Fresh;
    var front, last := entries[..|entries| - 1], entries[|entries| - 1];
    assert EntryNames(entries) == EntryNames(front) + [last.name];
    FreshAppend(EntryNames(front), [last.name], taken);
    FreshOne(last.name, taken + Elements(EntryNames(front)));
    forall i | 0 <= i < |front| ensures front[i].name != last.name {
      assert EntryNames(front)[i] == front[i].name;
    }
  }

  /** The effective map is a disjoint union: every name comes from exactly one source, and maps to
      that source's repository. */
  lemma {:induction false} AddEntriesIsDisjointUnion(repos: map<string, RpmRepo>, entries: seq<ExpandedRepo>)
    requires Fresh(EntryNames(entries), repos.Keys)
    ensures forall n :: n in repos ==> n in AddEntries(repos, entries) && AddEntries(repos, entries)[n] == repos[n]
    ensures forall i :: 0 <= i < |entries| ==>
              entries[i].name !in repos
              && entries[i].name in AddEntries(repos, entries) && AddEntries(repos, entries)[entries[i].name] == entries[i].repo
    ensures forall n :: n in AddEntries(repos, entries) ==>
              n in repos || exists i :: 0 <= i < |entries| && entries[i].name == n
  {
    hide Fresh, EntryNames, AddEntries;
    AddLast(repos, entries);
    if entries != [] {
      var front, last := entries[..|entries| - 1], entries[|entries| - 1];
      LastEntryIsFresh(entries, repos.Keys);
      AddEntriesIsDisjointUnion(repos, front);
      forall n | n in AddEntries(repos, entries) && n !in repos
        ensures exists i :: 0 <= i < |entries| && entries[i].name == n
      {
        if n == last.name {
          assert entries[|entries| - 1].name == n;
        } else {
          var i :| 0 <= i < |front| && front[i].name == n;
          assert entries[i].name == n;
        }
      }
    }
  }

  // ---------- Inputs of a distro version ----------

  datatype Input = Input(repo: string, setName: string)

  ghost predicate ResolvableInput(entry: Input, resources: Option<ResourcesConfig>, rules: TextRules) {
    && (entry.repo != "") != (entry.setName != "")
    && (entry.setName != "" ==>
          && resources.Some? && entry.setName in resources.value.rpmRepoSets
          && Expandable(resources.value.rpmRepoSets[entry.setName], resources.value.rpmRepoSetTemplates, rules))
  }

  /** The repository names one input stands for, in order. */
  ghost function InputNames(entry: Input, resources: Option<ResourcesConfig>, rules: TextRules): seq<string>
    requires ResolvableInput(entry, resources, rules)
  {
    if entry.repo != "" then [entry.repo]
    else EntryNames(Expansion(resources.value.rpmRepoSets[entry.setName], resources.value.rpmRepoSetTemplates, rules))
  }

  ghost predicate AllResolvable(inputs: seq<Input>, resources: Option<ResourcesConfig>, rules: TextRules) {
    forall i :: 0 <= i < |inputs| ==> ResolvableInput(inputs[i], resources, rules)
  }

  ghost function AllNames(inputs: seq<Input>, resources: Option<ResourcesConfig>, rules: TextRules): seq<string>
    requires AllResolvable(inputs, resources, rules)
  {
    if inputs == [] then []
    else AllNames(inputs[..|inputs| - 1], resources, rules) + InputNames(inputs[|inputs| - 1], resources, rules)
  }

  ghost predicate ValidInputs(inputs: seq<Input>, resources: Option<ResourcesConfig>, rules: TextRules) {
    AllResolvable(inputs, resources, rules) && NoDuplicates(AllNames(inputs, resources, rules))
  }

  /** The list being built and the names in it, as the emit closure shares them. */
  class Emitted {
    var out: seq<string>
    var seen: set<string>

    ghost predicate Valid()
      reads this
    {
      Fresh(out, {}) && seen == Elements(out)
    }

    constructor ()
      ensures Valid() && out == []
    {
      out, seen := [], {};
    }

    method Emit(repoName: string) returns (ok: bool)
      requires Valid()
      modifies this
      ensures Valid()
      ensures ok <==> Fresh(old(out) + [repoName], {})
      ensures out == if ok then old(out) + [repoName] else old(out)
    {
      FreshAppend(out, [repoName], {});
      FreshOne(repoName, {} + Elements(out));
      ElementsSnoc(out, repoName);
      if repoName in seen {
        return false;
      }
      seen, out := seen + {repoName}, out + [repoName];
      ok := true;
    }

    /** The loop over one set's expansion. */
    method EmitAll(names: seq<string>) returns (duplicate: Option<string>)
      requires Valid()
      modifies this
      ensures Valid()
      ensures duplicate.None? <==> Fresh(old(out) + names, {})
      ensures duplicate.None? ==> out == old(out) + names
    {
      hide Fresh;
      for i := 0 to |names|
        invariant Valid() && out == old(out) + names[..i]
      {
        assert names == names[..i + 1] + names[i + 1..] && names[..i + 1] == names[..i] + [names[i]];
        assert out + [names[i]] == old(out) + names[..i + 1];
        assert old(out) + names == (old(out) + names[..i + 1]) + names[i + 1..];
        FreshAppend(old(out) + names[..i + 1], names[i + 1..], {});
        var ok := Emit(names[i]);
        if !ok {
          return Some(names[i]);
        }
      }
      assert names[..|names|] == names;
      duplicate := None;
    }
  }

  /** Succeeds exactly when every entry resolves and no repository is produced twice; the result is
      the concatenation of the entries' expansions, in order. */
  method EffectiveInputRepos(inputs: seq<Input>, resources: Option<ResourcesConfig>, rules: TextRules)
    returns (r: Result<seq<string>, ConfigError>)
    ensures r.Success? <==> ValidInputs(inputs, resources, rules)
    ensures r.Success? ==> r.value == AllNames(inputs, resources, rules)
  {
    hide Fresh, Expandable;
    var emitted := new Emitted();
    for i := 0 to |inputs|
      invariant fresh(emitted) && emitted.Valid()
      invariant AllResolvable(inputs[..i], resources, rules) && emitted.out == AllNames(inputs[..i], resources, rules)
    {
      var entry := inputs[i];
      if (entry.repo != "") == (entry.setName != "") {
        assert !ResolvableInput(inputs[i], resources, rules);
        return Failure(InvalidInput(i + 1));
      }
      var names;
      if entry.repo != "" {
        names := [entry.repo];
      } else {
        if resources.None? || entry.setName !in resources.value.rpmRepoSets {
          assert !ResolvableInput(inputs[i], resources, rules);
          return Failure(UndefinedSet(entry.setName));
        }
        var expanded := ExpandRpmRepoSet(entry.setName, resources.value.rpmRepoSets[entry.setName],
                                         resources.value.rpmRepoSetTemplates, rules);
        if expanded.Failure? {
          assert !ResolvableInput(inputs[i], resources, rules);
          return Failure(expanded.error);
        }
        names := EntryNames(expanded.value);
      }
      assert ResolvableInput(entry, resources, rules) && names == InputNames(entry, resources, rules);
      OneMoreInput(inputs, resources, rules, i);
      var duplicate := emitted.EmitAll(names);
      if duplicate.Some? {
        return Failure(DuplicateInput(duplicate.value));
      }
    }
    assert inputs[..|inputs|] == inputs;
    FreshFromNothing(emitted.out);
    r := Success(emitted.out);
  }

  lemma {:induction false} AllNamesGrow(inputs: seq<Input>, resources: Option<ResourcesConfig>, rules: TextRules, i: nat)
    requires AllResolvable(inputs, resources, rules) && i <= |inputs|
    ensures AllNames(inputs[..i], resources, rules) <= AllNames(inputs, resources, rules)
  {
    hide Expandable;
    if i == |inputs| {
      assert inputs[..i] == inputs;
    } else {
      AllNamesGrow(inputs[..|inputs| - 1], resources, rules, i);
      assert inputs[..|inputs| - 1][..i] == inputs[..i];
    }
  }

  lemma OneMoreInput(inputs: seq<Input>, resources: Option<ResourcesConfig>, rules: TextRules, i: nat)
    requires i < |inputs| && AllResolvable(inputs[..i], resources, rules) && ResolvableInput(inputs[i], resources, rules)
    ensures AllResolvable(inputs[..i + 1], resources, rules)
    ensures AllNames(inputs[..i + 1], resources, rules)
         == AllNames(inputs[..i], resources, rules) + InputNames(inputs[i], resources, rules)
    ensures ValidInputs(inputs, resources, rules) ==> Fresh(AllNames(inputs[..i + 1], resources, rules), {})
  {
    hide ResolvableInput, InputNames, Fresh;
    assert inputs[..i + 1] == inputs[..i] + [inputs[i]] && inputs[..i + 1][..i] == inputs[..i];
    if ValidInputs(inputs, resources, rules) {
      AllNamesGrow(inputs, resources, rules, i + 1);
      var part, whole := AllNames(inputs[..i + 1], resources, rules), AllNames(inputs, resources, rules);
      assert whole == part + whole[|part|..];
      FreshFromNothing(whole);
      FreshAppend(part, whole[|part|..], {});
    }
  }

  // ---------- Project validation ----------

  datatype VersionInputs = VersionInputs(rpmBuild: seq<Input>, imageBuild: seq<Input>)

  /** The inputs of every version of every distro, by distro and version name. */
  type Distros = map<(string, string), VersionInputs>

  ghost predicate ValidVersion(v: VersionInputs, r: ResourcesConfig, effective: map<string, RpmRepo>, rules: TextRules) {
    && ValidInputs(v.rpmBuild, Some(r), rules) && ValidInputs(v.imageBuild, Some(r), rules)
    && (forall n :: n in AllNames(v.rpmBuild, Some(r), rules) ==> n in effective && !IsLocalGPGKey(effective[n].gpgKey, rules))
    && (forall n :: n in AllNames(v.imageBuild, Some(r), rules) ==> n in effective)
  }

  method ValidateVersion(v: VersionInputs, r: ResourcesConfig, effective: map<string, RpmRepo>, rules: TextRules)
    returns (result: Result<(), ConfigError>)
    ensures result.Success? <==> ValidVersion(v, r, effective, rules)
  {
    hide ValidInputs, AllResolvable, AllNames, IsLocalGPGKey;
    var rpmBuild := EffectiveInputRepos(v.rpmBuild, Some(r), rules);
    if rpmBuild.Failure? {
      return Failure(rpmBuild.error);
    }
    ResolvableIfValid(v.rpmBuild, Some(r), rules);
    for i := 0 to |rpmBuild.value|
      invariant forall j :: 0 <= j < i ==>
        rpmBuild.value[j] in effective && !IsLocalGPGKey(effective[rpmBuild.value[j]].gpgKey, rules)
    {
      var name := rpmBuild.value[i];
      if name !in effective {
        return Failure(UndefinedRepo(name));
      }
      if IsLocalGPGKey(effective[name].gpgKey, rules) {
        return Failure(LocalKeyForRpmBuild(name));
      }
    }
    var imageBuild := EffectiveInputRepos(v.imageBuild, Some(r), rules);
    if imageBuild.Failure? {
      return Failure(imageBuild.error);
    }
    ResolvableIfValid(v.imageBuild, Some(r), rules);
    for i := 0 to |imageBuild.value|
      invariant forall j :: 0 <= j < i ==> imageBuild.value[j] in effective
    {
      if imageBuild.value[i] !in effective {
        return Failure(UndefinedRepo(imageBuild.value[i]));
      }
    }
    result := Success(());
  }

  lemma ResolvableIfValid(inputs: seq<Input>, resources: Option<ResourcesConfig>, rules: TextRules)
    requires ValidInputs(inputs, resources, rules)
    ensures AllResolvable(inputs, resources, rules)
  {
  }

  method ValidateDistroVersionInputs(distros: Distros, r: ResourcesConfig, effective: map<string, RpmRepo>, rules: TextRules)
    returns (result: Result<(), ConfigError>)
    ensures result.Success? <==> forall d :: d in distros ==> ValidVersion(distros[d], r, effective, rules)
  {
    hide ValidVersion;
    var rest := distros.Keys;
    while rest != {}
      invariant rest <= distros.Keys
      invariant forall d :: d in distros.Keys - rest ==> ValidVersion(distros[d], r, effective, rules)
      decreases rest
    {
      var d :| d in rest;
      result := ValidateVersion(distros[d], r, effective, rules);
      if result.Failure? {
        return;
      }
      rest := rest - {d};
    }
    result := Success(());
  }

  ghost predicate ValidProject(distros: Distros, r: ResourcesConfig, rules: TextRules) {
    && (forall n :: n in r.rpmRepos ==> ValidRpmRepoName(n) && ValidRpmRepo(r.rpmRepos[n], rules))
    && (forall n :: n in r.rpmRepoSetTemplates ==> ValidRpmRepoName(n) && ValidTemplate(r.rpmRepoSetTemplates[n], rules))
    && (forall n :: n in r.rpmRepoSets ==> ValidRpmRepoName(n))
    && Effective(r, rules)
    && forall d :: d in distros ==> ValidVersion(distros[d], r, EffectiveMap(r, rules), rules)
  }

  method ValidateRpmRepos(repos: map<string, RpmRepo>, rules: TextRules) returns (result: Result<(), ConfigError>)
    ensures result.Success? <==> forall n :: n in repos ==> ValidRpmRepoName(n) && ValidRpmRepo(repos[n], rules)
  {
    hide ValidRpmRepoName, ValidRpmRepo;
    var rest := repos.Keys;
    while rest != {}
      invariant rest <= repos.Keys
      invariant forall n :: n in repos.Keys - rest ==> ValidRpmRepoName(n) && ValidRpmRepo(repos[n], rules)
      decreases rest
    {
      var name :| name in rest;
      if ValidateRpmRepoName(name).Some? {
        return Failure(InvalidRepoName(name));
      }
      if ValidateRpmRepo(repos[name], rules).Some? {
        return Failure(InvalidRepo(name));
      }
      rest := rest - {name};
    }
    result := Success(());
  }

  method ValidateRpmRepoSetTemplates(templates: map<string, seq<SubrepoSpec>>, rules: TextRules)
    returns (result: Result<(), ConfigError>)
    ensures result.Success? <==> forall n :: n in templates ==> ValidRpmRepoName(n) && ValidTemplate(templates[n], rules)
  {
    hide ValidRpmRepoName, ValidTemplate;
    var rest := templates.Keys;
    while rest != {}
      invariant rest <= templates.Keys
      invariant forall n :: n in templates.Keys - rest ==> ValidRpmRepoName(n) && ValidTemplate(templates[n], rules)
      decreases rest
    {
      var name :| name in rest;
      if ValidateRpmRepoName(name).Some? {
        return Failure(InvalidRepoName(name));
      }
      var ok := ValidateRpmRepoSetTemplate(templates[name], rules);
      if !ok {
        return Failure(InvalidTemplate(name));
      }
      rest := rest - {name};
    }
    result := Success(());
  }

  /** The repository part of ProjectConfig.validate, its checks in their order. */
  method ValidateProject(distros: Distros, r: ResourcesConfig, rules: TextRules) returns (result: Result<(), ConfigError>)
    ensures result.Success? <==> ValidProject(distros, r, rules)
  {
    hide ValidRpmRepoName, ValidRpmRepo, ValidTemplate, ValidVersion, Effective, EffectiveMap;
    result := ValidateRpmRepos(r.rpmRepos, rules);
    if result.Failure? {
      return;
    }
    result := ValidateRpmRepoSetTemplates(r.rpmRepoSetTemplates, rules);
    if result.Failure? {
      return;
    }
    var rest := r.rpmRepoSets.Keys;
    while rest != {}
      invariant rest <= r.rpmRepoSets.Keys
      invariant forall n :: n in r.rpmRepoSets.Keys - rest ==> ValidRpmRepoName(n)
      decreases rest
    {
      var name :| name in rest;
      if ValidateRpmRepoName(name).Some? {
        return Failure(InvalidRepoName(name));
      }
      rest := rest - {name};
    }
    var effective := EffectiveRpmRepos(r, rules);
    if effective.Failure? {
      return Failure(effective.error);
    }
    result := ValidateDistroVersionInputs(distros, r, effective.value, rules);
  }

  // ---------- What validation guarantees ----------

  /** Every repository of the effective map, written out or synthesized, obeys the signature rule. */
  lemma EffectiveReposAreSigned(r: ResourcesConfig, rules: TextRules)
    requires Effective(r, rules) && forall n :: n in r.rpmRepos ==> ValidRpmRepo(r.rpmRepos[n], rules)
    ensures forall n :: n in EffectiveMap(r, rules) ==>
              ValidGPG(EffectiveMap(r, rules)[n].disableGPGCheck, EffectiveMap(r, rules)[n].gpgKey, rules)
  {
    hide ValidGPG, Ascending, Expandable, Fresh;
    var entries := Expansions(r, Ascending(r.rpmRepoSets.Keys), rules);
    AddEntriesIsDisjointUnion(r.rpmRepos, entries);
    ExpansionsAreSigned(r, Ascending(r.rpmRepoSets.Keys), rules);
    forall n | n in EffectiveMap(r, rules)
      ensures ValidGPG(EffectiveMap(r, rules)[n].disableGPGCheck, EffectiveMap(r, rules)[n].gpgKey, rules)
    {
      if n in r.rpmRepos {
        RepoIsSigned(r.rpmRepos[n], rules);
      } else {
        var i :| 0 <= i < |entries| && entries[i].name == n;
        assert entries[i] in entries;
      }
    }
  }

  lemma RepoIsSigned(repo: RpmRepo, rules: TextRules)
    requires ValidRpmRepo(repo, rules)
    ensures ValidGPG(repo.disableGPGCheck, repo.gpgKey, rules)
  {
  }

  lemma {:induction false} ExpansionsAreSigned(r: ResourcesConfig, setNames: seq<string>, rules: TextRules)
    requires AllExpandable(r, setNames, rules)
    ensures forall e :: e in Expansions(r, setNames, rules) ==> ValidGPG(e.repo.disableGPGCheck, e.repo.gpgKey, rules)
  {
    hide ValidGPG, Expandable, Expansion;
    if setNames != [] {
      var last := setNames[|setNames| - 1];
      assert last in setNames;
      ExpansionsAreSigned(r, setNames[..|setNames| - 1], rules);
      ExpansionKeepsKey(r.rpmRepoSets[last], r.rpmRepoSetTemplates, rules);
    }
  }

  /** Exactly one source, a base URI or a metalink. */
  ghost predicate HasOneSource(repo: RpmRepo) {
    repo.repoType in ["", "rpm-md"] && (repo.baseURI != "") != (repo.metalink != "")
  }

  /** Every repository of the effective map has one source; a written out one has it at an http(s) URI with
      a host. */
  lemma EffectiveReposHaveSources(r: ResourcesConfig, rules: TextRules)
    requires Effective(r, rules) && forall n :: n in r.rpmRepos ==> ValidRpmRepo(r.rpmRepos[n], rules)
    ensures forall n :: n in EffectiveMap(r, rules) ==> HasOneSource(EffectiveMap(r, rules)[n])
    ensures forall n :: n in r.rpmRepos ==>
              var repo := r.rpmRepos[n];
              n in EffectiveMap(r, rules) && EffectiveMap(r, rules)[n] == repo
              && IsRemote(if repo.baseURI != "" then repo.baseURI else repo.metalink, rules)
  {
    hide Ascending, Expandable, Fresh, ValidGPG, IsRemote, HasOneSource;
    var entries := Expansions(r, Ascending(r.rpmRepoSets.Keys), rules);
    AddEntriesIsDisjointUnion(r.rpmRepos, entries);
    ExpansionsHaveSources(r, Ascending(r.rpmRepoSets.Keys), rules);
    forall n | n in r.rpmRepos
      ensures HasOneSource(r.rpmRepos[n])
      ensures IsRemote(if r.rpmRepos[n].baseURI != "" then r.rpmRepos[n].baseURI else r.rpmRepos[n].metalink, rules)
    {
      RepoHasSource(r.rpmRepos[n], rules);
    }
    forall n | n in EffectiveMap(r, rules) && n !in r.rpmRepos ensures HasOneSource(EffectiveMap(r, rules)[n]) {
      var i :| 0 <= i < |entries| && entries[i].name == n;
      assert entries[i] in entries;
    }
  }

  lemma RepoHasSource(repo: RpmRepo, rules: TextRules)
    requires ValidRpmRepo(repo, rules)
    ensures HasOneSource(repo) && IsRemote(if repo.baseURI != "" then repo.baseURI else repo.metalink, rules)
  {
    hide ToLower;
  }

  lemma {:induction false} ExpansionsHaveSources(r: ResourcesConfig, setNames: seq<string>, rules: TextRules)
    requires AllExpandable(r, setNames, rules)
    ensures forall e :: e in Expansions(r, setNames, rules) ==> HasOneSource(e.repo)
  {
    hide Expandable, Expansion, HasOneSource, StandsFor, IncludedSubrepos;
    if setNames != [] {
      var last := setNames[|setNames| - 1];
      assert last in setNames;
      ExpansionsHaveSources(r, setNames[..|setNames| - 1], rules);
      var s := r.rpmRepoSets[last];
      var entries := Expansion(s, r.rpmRepoSetTemplates, rules);
      forall i | 0 <= i < |entries| ensures HasOneSource(entries[i].repo) {
        ExpandedHasSource(s, r.rpmRepoSetTemplates, rules, i);
      }
    }
  }

  lemma ExpandedHasSource(s: RpmRepoSet, templates: map<string, seq<SubrepoSpec>>, rules: TextRules, i: nat)
    requires Expandable(s, templates, rules) && i < |Expansion(s, templates, rules)|
    ensures HasOneSource(Expansion(s, templates, rules)[i].repo)
  {
    hide Expandable, Expansion, IncludedSubrepos, TrimSlashes, StaysBelow;
    ExpansionStandsFor(s, templates, rules, i, i);
  }

  /** If the project validates, then for every distro version: the rpm-build and image-build lists
      are duplicate-free, every name in them is in the effective map, no rpm-build repository has a
      local key, and each one that checks signatures has a key at an http(s) URI with a host. */
  lemma ValidatedInputsAreUsable(distros: Distros, r: ResourcesConfig, rules: TextRules, d: (string, string))
    requires ValidProject(distros, r, rules) && d in distros
    ensures var v, repos := distros[d], EffectiveMap(r, rules);
            && ValidInputs(v.rpmBuild, Some(r), rules) && ValidInputs(v.imageBuild, Some(r), rules)
            && (forall n :: n in AllNames(v.imageBuild, Some(r), rules) ==> n in repos)
            && forall n :: n in AllNames(v.rpmBuild, Some(r), rules) ==>
                 && n in repos && !IsLocalGPGKey(repos[n].gpgKey, rules)
                 && (!repos[n].disableGPGCheck ==> IsRemoteKey(repos[n].gpgKey, rules))
  {
    hide ValidInputs, AllNames, Effective, EffectiveMap, ValidTemplate, ValidRpmRepo, ValidRpmRepoName;
    var v, repos := distros[d], EffectiveMap(r, rules);
    EffectiveReposAreSigned(r, rules);
    ResolvableIfValid(v.rpmBuild, Some(r), rules);
    ResolvableIfValid(v.imageBuild, Some(r), rules);
    assert ValidVersion(v, r, repos, rules);
    forall n | n in AllNames(v.rpmBuild, Some(r), rules) && !repos[n].disableGPGCheck
      ensures IsRemoteKey(repos[n].gpgKey, rules)
    {
      NonLocalKeyIsRemote(repos[n].gpgKey, rules);
    }
  }

  lemma NonLocalKeyIsRemote(key: string, rules: TextRules)
    requires key != "" && ValidGPGKey(key, rules) && !IsLocalGPGKey(key, rules)
    ensures IsRemoteKey(key, rules)
  {
  }
}
