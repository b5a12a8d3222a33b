/** internal/projectconfig/component.go and tests.go, internal/app/azldev/core/components/resolver.go:
    the tests a component runs once its configuration has been inherited.

    Validation looks at the references a component itself lists. What is resolved later is that list
    behind the ones inherited from the distro, the project and the component's groups, and those no
    check looks at. */
module ComponentTests {
  import opened Wrappers
  import opened Strings
  import opened TestReferences
  import opened ComponentMerge

  /** A "tests" block; None when there is none. */
  type Block = Option<seq<TestRef>>

  datatype EffectiveError = MissingGroup(name: string) | BadTests(error: TestError)

  function Refs(block: Block): seq<TestRef> {
    if block.None? then [] else block.value
  }

  /** What merging configs does to their blocks: lists are appended. */
  function AppendBlocks(a: Block, b: Block): Result<Block, ()> {
    Success(if b.None? then a else Some(Refs(a) + b.value))
  }

  /** The references the named groups contribute, in order. */
  ghost function GroupRefs(groups: map<string, Group<Block>>, names: seq<string>): seq<TestRef> {
    if names == [] then []
    else (if names[0] in groups then Refs(groups[names[0]].defaults) else []) + GroupRefs(groups, names[1..])
  }

  /** Everything a component inherits. */
  ghost function Inherited(projectDefaults: Block, distroDefaults: Block, groups: map<string, Group<Block>>,
                           membership: seq<string>): seq<TestRef>
  {
    Refs(distroDefaults) + Refs(projectDefaults) + GroupRefs(groups, SortStrings(membership))
  }

  ghost predicate AllResolvable<D>(refs: seq<TestRef>, tests: map<string, D>, testGroups: Groups) {
    forall i :: 0 <= i < |refs| ==> Resolvable(refs[i], tests, testGroups)
  }

  lemma {:induction false} BlocksOfGroups(block: Block, groups: map<string, Group<Block>>, names: seq<string>)
    requires forall g :: g in names ==> g in groups
    ensures var r := ApplyGroups(block, groups, names, AppendBlocks);
            r.Success? && Refs(r.value) == Refs(block) + GroupRefs(groups, names)
    decreases names
  {
    hide Refs, AppendBlocks;
    if names == [] {
      assert Refs(block) + [] == Refs(block);
    } else {
      var defaults := groups[names[0]].defaults;
      AppendedRefs(block, defaults);
      var next := AppendBlocks(block, defaults).value;
      BlocksOfGroups(next, groups, names[1..]);
      assert Refs(block) + Refs(defaults) + GroupRefs(groups, names[1..])
          == Refs(block) + (Refs(defaults) + GroupRefs(groups, names[1..]));
    }
  }

  lemma AppendedRefs(a: Block, b: Block)
    ensures AppendBlocks(a, b).Success? && Refs(AppendBlocks(a, b).value) == Refs(a) + Refs(b)
  {
  }

  /** The effective list is the inherited references followed by the component's own. */
  lemma EffectiveRefs(own: Block, projectDefaults: Block, distroDefaults: Block, groups: map<string, Group<Block>>,
                      membership: seq<string>)
    requires forall g :: g in membership ==> g in groups
    ensures var r := Resolved(own, projectDefaults, distroDefaults, groups, SortStrings(membership), AppendBlocks, x => x);
            r.Success? && Refs(r.value) == Inherited(projectDefaults, distroDefaults, groups, membership) + Refs(own)
  {
    hide SortStrings, GroupRefs;
    var names := SortStrings(membership);
    forall g | g in names ensures g in groups {
      assert g in multiset(names);
    }
    var base := AppendBlocks(distroDefaults, projectDefaults).value;
    assert Refs(base) == Refs(distroDefaults) + Refs(projectDefaults);
    BlocksOfGroups(base, groups, names);
    var grouped := ApplyGroups(base, groups, names, AppendBlocks).value;
    assert Refs(AppendBlocks(grouped, own).value) == Refs(grouped) + Refs(own);
  }

  lemma {:induction false} MissingGroupFails(block: Block, groups: map<string, Group<Block>>, names: seq<string>)
    requires exists g :: g in names && g !in groups
    ensures var r := ApplyGroups(block, groups, names, AppendBlocks);
            r.Failure? && r.error.GroupNotFound? && r.error.name in names && r.error.name !in groups
    decreases names
  {
    if names[0] in groups {
      assert names == [names[0]] + names[1..];
      MissingGroupFails(AppendBlocks(block, groups[names[0]].defaults).value, groups, names[1..]);
    }
  }

  /** ResolveComponentTests. */
  method ResolveComponentTests<D>(block: Block, tests: map<string, D>, testGroups: Groups)
    returns (r: Result<seq<ResolvedTest<D>>, TestError>)
    ensures r.Success? <==> AllResolvable(Refs(block), tests, testGroups)
    ensures r.Success? ==> ResolvesTo(r.value, TestNames(Refs(block), testGroups), tests)
  {
    if block.None? {
      return Success([]);
    }
    r := ResolveTestRefs(block.value, tests, testGroups);
  }

  /** Inheritance and expansion together: succeeds exactly when the groups exist and every effective
      reference resolves. */
  method ResolveEffectiveTests<D>(own: Block, projectDefaults: Block, distroDefaults: Block, groups: map<string, Group<Block>>,
                                  membership: seq<string>, tests: map<string, D>, testGroups: Groups)
    returns (r: Result<seq<ResolvedTest<D>>, EffectiveError>)
    ensures var effective := Inherited(projectDefaults, distroDefaults, groups, membership) + Refs(own);
            && (r.Success? <==> (forall g :: g in membership ==> g in groups) && AllResolvable(effective, tests, testGroups))
            && (r.Success? ==> ResolvesTo(r.value, TestNames(effective, testGroups), tests))
    ensures r.Failure? && r.error.MissingGroup? ==> r.error.name in membership && r.error.name !in groups
  {
    hide SortStrings, Inherited, AllResolvable, ResolvesTo, TestNames;
    var config := ResolveComponentConfig(own, projectDefaults, distroDefaults, groups, membership, AppendBlocks, x => x);
    if config.Failure? {
      MembershipFailure(own, projectDefaults, distroDefaults, groups, membership);
      return Failure(MissingGroup(config.error.name));
    }
    MembershipFailure(own, projectDefaults, distroDefaults, groups, membership);
    EffectiveRefs(own, projectDefaults, distroDefaults, groups, membership);
    var resolved := ResolveComponentTests(config.value, tests, testGroups);
    r := if resolved.Success? then Success(resolved.value) else Failure(BadTests(resolved.error));
  }

  lemma MembershipFailure(own: Block, projectDefaults: Block, distroDefaults: Block, groups: map<string, Group<Block>>,
                          membership: seq<string>)
    ensures var r := Resolved(own, projectDefaults, distroDefaults, groups, SortStrings(membership), AppendBlocks, x => x);
            && (r.Success? <==> forall g :: g in membership ==> g in groups)
            && (r.Failure? ==> r.error.GroupNotFound? && r.error.name in membership && r.error.name !in groups)
  {
    hide SortStrings;
    var names := SortStrings(membership);
    assert forall g :: g in names <==> g in multiset(names);
    assert forall g :: g in membership <==> g in multiset(membership);
    if forall g :: g in membership ==> g in groups {
      EffectiveRefs(own, projectDefaults, distroDefaults, groups, membership);
    } else {
      MissingGroupFails(AppendBlocks(distroDefaults, projectDefaults).value, groups, names);
    }
  }

  // ---------- What validation leaves open ----------

  lemma {:induction false} TestNamesAppend(a: seq<TestRef>, b: seq<TestRef>, testGroups: Groups)
    ensures TestNames(a + b, testGroups) == TestNames(a, testGroups) + TestNames(b, testGroups)
  {
    hide TestsOf;
    if b == [] {
      assert a + b == a;
    } else {
      assert (a + b)[..|a + b| - 1] == a + b[..|b| - 1] && (a + b)[|a + b| - 1] == b[|b| - 1];
      TestNamesAppend(a, b[..|b| - 1], testGroups);
    }
  }

  ghost function OwnBlock(components: RefTable, name: string): Block {
    if name in components then components[name] else None
  }

  /** In an accepted configuration a component's tests resolve if and only if all inherited references
      do, and they are pairwise distinct if and only if the inherited ones are and the component lists
      none of them again. */
  lemma AcceptedComponentResolvesIff<D>(tests: map<string, D>, testGroups: Groups, components: RefTable, images: RefTable,
                                        name: string, inherited: seq<TestRef>)
    requires AcceptableConfig(tests, testGroups, components, images)
    ensures name in components ==> OwnBlock(components, name) == components[name]
    ensures var own := Refs(OwnBlock(components, name));
            && (AllResolvable(inherited + own, tests, testGroups) <==> AllResolvable(inherited, tests, testGroups))
            && (NoDuplicates(TestNames(inherited + own, testGroups)) <==>
                  && NoDuplicates(TestNames(inherited, testGroups))
                  && Elements(TestNames(own, testGroups)) !! Elements(TestNames(inherited, testGroups)))
  {
    hide WellFormedGroup, Resolvable, TestNames, Fresh;
    var own := Refs(OwnBlock(components, name));
    OwnListResolves(tests, testGroups, components, images, name);
    TestNamesAppend(inherited, own, testGroups);
    AllResolvableAppend(inherited, own, tests, testGroups);
    var a, b := TestNames(inherited, testGroups), TestNames(own, testGroups);
    DistinctAppend(a, b);
  }

  lemma AllResolvableAppend<D>(a: seq<TestRef>, b: seq<TestRef>, tests: map<string, D>, testGroups: Groups)
    ensures AllResolvable(a + b, tests, testGroups) <==> AllResolvable(a, tests, testGroups) && AllResolvable(b, tests, testGroups)
  {
    hide Resolvable;
    var all := a + b;
    if AllResolvable(all, tests, testGroups) {
      assert forall i :: 0 <= i < |a| ==> a[i] == all[i];
      assert forall i :: 0 <= i < |b| ==> b[i] == all[|a| + i];
    }
  }

  lemma DistinctAppend(a: seq<string>, b: seq<string>)
    requires NoDuplicates(b)
    ensures NoDuplicates(a + b) <==> NoDuplicates(a) && Elements(b) !! Elements(a)
  {
    hide NoDuplicates;
    FreshFromNothing(a + b);
    FreshFromNothing(a);
    FreshAppend(a, b, {});
  }

  lemma OwnListResolves<D>(tests: map<string, D>, testGroups: Groups, components: RefTable, images: RefTable, name: string)
    requires AcceptableConfig(tests, testGroups, components, images)
    ensures AllResolvable(Refs(OwnBlock(components, name)), tests, testGroups)
    ensures NoDuplicates(TestNames(Refs(OwnBlock(components, name)), testGroups))
  {
    hide WellFormedGroup, Resolvable, AcceptableRefs;
    var own := OwnBlock(components, name);
    if own.Some? {
      AcceptedRefsResolve(own.value, tests, testGroups, false);
      AcceptedNamesDistinct(own.value, tests, testGroups);
    }
  }

  lemma AcceptedNamesDistinct<D>(refs: seq<TestRef>, tests: map<string, D>, testGroups: Groups)
    requires AcceptableRefs(refs, tests, testGroups, false)
    ensures NoDuplicates(TestNames(refs, testGroups))
  {
    hide Expansion, TestNames;
    assert forall i :: 0 <= i < |refs| ==> WellFormedRef(refs[i], tests, testGroups, false);
    PlainExpansion(refs, testGroups);
    var names, pairs := TestNames(refs, testGroups), Expansion(refs, testGroups);
    forall i, j | 0 <= i < j < |names| ensures names[i] != names[j] {
      assert pairs[i] != pairs[j];
    }
  }

  /** An accepted configuration whose component inherits an undefined test from its group: it cannot
      resolve. */
  method UndefinedInheritedTest<D>() returns (r: Result<seq<ResolvedTest<D>>, EffectiveError>)
    ensures AcceptableConfig<D>(map[], map[], map["c" := None], map[])
    ensures r.Failure? && r.error.BadTests?
  {
    var missing := TestRef("missing", "", None);
    var groups: map<string, Group<Block>> := map["g" := Group(["c"], Some([missing]))];
    r := ResolveEffectiveTests<D>(None, None, None, groups, ["g"], map[], map[]);
    OneGroup(groups, "g");
    assert Inherited(None, None, groups, ["g"])[0] == missing;
    assert !Resolvable<D>(missing, map[], map[]);
  }

  /** One whose component lists a test it inherits as well: it is resolved twice. */
  method RepeatedInheritedTest<D>(definition: D) returns (r: Result<seq<ResolvedTest<D>>, EffectiveError>)
    ensures AcceptableConfig(map["t" := definition], map[], map["c" := Some([TestRef("t", "", None)])], map[])
    ensures r == Success([ResolvedTest("t", definition), ResolvedTest("t", definition)])
  {
    var t := TestRef("t", "", None);
    var tests := map["t" := definition];
    var groups: map<string, Group<Block>> := map["g" := Group(["c"], Some([t]))];
    r := ResolveEffectiveTests(Some([t]), None, None, groups, ["g"], tests, map[]);
    hide *;
    OneGroup(groups, "g");
    OneReference(t, tests);
    TwiceInARow(t, tests);
    JustThese([t]);
    var effective := Inherited(None, None, groups, ["g"]) + Refs(Some([t]));
    assert effective == [t] + [t];
    assert r.Success?;
    TwoResolved(r.value, "t", tests);
    OneComponent("c", t, tests);
  }

  lemma TwiceInARow<D>(t: TestRef, tests: map<string, D>)
    requires t.name != "" && Resolvable(t, tests, map[])
    ensures AllResolvable([t] + [t], tests, map[]) && TestNames([t] + [t], map[]) == [t.name, t.name]
  {
    TestNamesAppend([t], [t], map[]);
    assert [t][..0] == [];
    assert TestNames([t], map[]) == [t.name];
  }

  lemma TwoResolved<D>(resolved: seq<ResolvedTest<D>>, name: string, tests: map<string, D>)
    requires ResolvesTo(resolved, [name, name], tests)
    ensures name in tests && resolved == [ResolvedTest(name, tests[name]), ResolvedTest(name, tests[name])]
  {
    assert [name, name][0] == name && [name, name][1] == name;
  }

  lemma JustThese(refs: seq<TestRef>)
    ensures Refs(Some(refs)) == refs
  {
  }

  lemma OneComponent<D>(c: string, t: TestRef, tests: map<string, D>)
    requires AcceptableRefs([t], tests, map[], false)
    ensures AcceptableConfig(tests, map[], map[c := Some([t])], map[])
  {
    hide AcceptableRefs;
  }

  lemma OneGroup(groups: map<string, Group<Block>>, g: string)
    requires g in groups
    ensures Inherited(None, None, groups, [g]) == Refs(groups[g].defaults)
  {
    hide SortStrings;
    var names := SortStrings([g]);
    assert multiset(names) == multiset{g};
    assert |names| == |multiset(names)| == 1 && names[0] in multiset(names);
    assert names == [g] && [g][1..] == [];
    assert GroupRefs(groups, [g]) == Refs(groups[g].defaults) + GroupRefs(groups, []);
  }

  lemma OneReference<D>(t: TestRef, tests: map<string, D>)
    requires t.name != "" && t.group == "" && t.skuGroups == None && t.name in tests
    ensures AcceptableRefs([t], tests, map[], false) && Resolvable(t, tests, map[])
  {
    LoneReferenceAcceptedIff(t, tests, map[], false);
  }
}
