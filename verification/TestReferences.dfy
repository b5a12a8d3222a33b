/** internal/projectconfig/configfile.go and tests.go: references to tests and test groups.

    Load-time validation of the references and their later expansion are separate code. Here the
    validator is characterised exactly, and what it accepts can always be expanded. */
module TestReferences {
  import opened Wrappers
  import opened Strings

  /** skuGroups is None when the key is absent, which differs from an empty list. */
  datatype TestRef = TestRef(name: string, group: string, skuGroups: Option<seq<string>>)

  datatype TestError =
    | InvalidTestRef
    | NestedTestGroupReference
    | SKUGroupNotAllowed
    | UndefinedTest
    | UndefinedTestGroup
    | DuplicateTestRef

  type Groups = map<string, seq<TestRef>>

  /** A test run under a SKU group ("" for none): what must not be listed twice. */
  type Key = (string, string)

  // ---------- What references expand to ----------

  function SkuGroups(ref: TestRef): seq<string> {
    if ref.skuGroups.None? || ref.skuGroups.value == [] then [""] else ref.skuGroups.value
  }

  function Names(refs: seq<TestRef>): (names: seq<string>)
    ensures |names| == |refs| && forall i :: 0 <= i < |refs| ==> names[i] == refs[i].name
  {
    seq(|refs|, i requires 0 <= i < |refs| => refs[i].name)
  }

  /** The tests a reference stands for, in order. */
  function TestsOf(ref: TestRef, groups: Groups): seq<string> {
    if ref.name != "" then [ref.name] else if ref.group in groups then Names(groups[ref.group]) else []
  }

  function Keys(test: string, skuGroups: seq<string>): (keys: seq<Key>)
    ensures |keys| == |skuGroups| && forall i :: 0 <= i < |skuGroups| ==> keys[i] == (test, skuGroups[i])
  {
    seq(|skuGroups|, i requires 0 <= i < |skuGroups| => (test, skuGroups[i]))
  }

  function AllKeys(tests: seq<string>, skuGroups: seq<string>): seq<Key> {
    if tests == [] then [] else AllKeys(tests[..|tests| - 1], skuGroups) + Keys(tests[|tests| - 1], skuGroups)
  }

  function KeysOf(ref: TestRef, groups: Groups): seq<Key> {
    AllKeys(TestsOf(ref, groups), SkuGroups(ref))
  }

  /** Every (test, SKU group) pair the references expand to. */
  function Expansion(refs: seq<TestRef>, groups: Groups): seq<Key> {
    if refs == [] then [] else Expansion(refs[..|refs| - 1], groups) + KeysOf(refs[|refs| - 1], groups)
  }

  // ---------- Noticing repeated keys ----------

  /** The keys seen while one list of references is checked. */
  class SeenTests {
    var keys: set<Key>

    constructor ()
      ensures keys == {}
    {
      keys := {};
    }

    method CheckDuplicateTestRef(testName: string, skuGroup: string) returns (ok: bool)
      modifies this
      ensures ok <==> (testName, skuGroup) !in old(keys)
      ensures keys == old(keys) + {(testName, skuGroup)}
    {
      ok := (testName, skuGroup) !in keys;
      keys := keys + {(testName, skuGroup)};
    }

    /** Records one test under each SKU group, and notices any pair that is not new. */
    method DedupTestRefSKUGroups(testName: string, skuGroups: seq<string>) returns (ok: bool)
      modifies this
      ensures ok <==> Fresh(Keys(testName, skuGroups), old(keys))
      ensures ok ==> keys == old(keys) + Elements(Keys(testName, skuGroups))
    {
      ghost var all := Keys(testName, skuGroups);
      for i := 0 to |skuGroups|
        invariant Fresh(all[..i], old(keys)) && keys == old(keys) + Elements(all[..i])
      {
        FreshAppend(all[..i], [all[i]], old(keys));
        assert all[..i + 1] == all[..i] + [all[i]];
        FreshAppend(all[..i + 1], all[i + 1..], old(keys));
        assert all == all[..i + 1] + all[i + 1..];
        ok := CheckDuplicateTestRef(testName, skuGroups[i]);
        if !ok {
          assert all[i] in [all[i]];
          return;
        }
      }
      assert all[..|skuGroups|] == all;
      ok := true;
    }
  }

  // ---------- Validation ----------

  ghost predicate WellFormedMember<D>(ref: TestRef, tests: map<string, D>) {
    ref.name != "" && ref.group == "" && ref.skuGroups.None? && ref.name in tests
  }

  /** A group is a list of distinct defined tests, by name only. */
  ghost predicate WellFormedGroup<D>(refs: seq<TestRef>, tests: map<string, D>) {
    && (forall i :: 0 <= i < |refs| ==> WellFormedMember(refs[i], tests))
    && NoDuplicates(Names(refs))
  }

  method ValidateTestGroupMembers<D>(refs: seq<TestRef>, tests: map<string, D>) returns (r: Result<(), TestError>)
    ensures r.Success? <==> WellFormedGroup(refs, tests)
  {
    var seenRefs: set<string> := {};
    for i := 0 to |refs|
      invariant forall j :: 0 <= j < i ==> WellFormedMember(refs[j], tests)
      invariant Fresh(Names(refs)[..i], {}) && seenRefs == Elements(Names(refs)[..i])
    {
      var ref := refs[i];
      if (ref.name != "") == (ref.group != "") {
        return Failure(InvalidTestRef);
      }
      if ref.group != "" {
        return Failure(NestedTestGroupReference);
      }
      if ref.skuGroups.Some? {
        return Failure(SKUGroupNotAllowed);
      }
      if ref.name !in tests {
        return Failure(UndefinedTest);
      }
      ghost var names := Names(refs);
      if ref.name in seenRefs {
        ghost var j :| 0 <= j < i && names[j] == ref.name;
        return Failure(DuplicateTestRef);
      }
      assert names[..i + 1] == names[..i] + [ref.name];
      FreshAppend(names[..i], [ref.name], {});
      seenRefs := seenRefs + {ref.name};
    }
    assert Names(refs)[..|refs|] == Names(refs);
    r := Success(());
  }

  /** Non-empty SKU groups of one reference are pairwise different; empty ones are not looked at. */
  ghost predicate UniqueSKUGroups(skuGroups: seq<string>) {
    forall i, j :: 0 <= i < j < |skuGroups| && skuGroups[i] != "" ==> skuGroups[i] != skuGroups[j]
  }

  method CheckUniqueSKUGroups(skuGroups: seq<string>) returns (ok: bool)
    ensures ok <==> UniqueSKUGroups(skuGroups)
  {
    var seen: set<string> := {};
    for i := 0 to |skuGroups|
      invariant UniqueSKUGroups(skuGroups[..i])
      invariant forall s :: s in seen <==> s != "" && s in skuGroups[..i]
    {
      if skuGroups[i] != "" {
        if skuGroups[i] in seen {
          ghost var j :| 0 <= j < i && skuGroups[..i][j] == skuGroups[i];
          return false;
        }
        seen := seen + {skuGroups[i]};
      }
    }
    assert skuGroups[..|skuGroups|] == skuGroups;
    ok := true;
  }

  /** The rules about one reference by itself. */
  ghost predicate WellFormedRef<D>(ref: TestRef, tests: map<string, D>, groups: Groups, allowSKUGroup: bool) {
    && (ref.name != "") != (ref.group != "")
    && (ref.skuGroups.Some? ==> allowSKUGroup && ref.skuGroups.value != [])
    && UniqueSKUGroups(SkuGroups(ref))
    && (if ref.name != "" then ref.name in tests else ref.group in groups)
  }

  ghost predicate AcceptableRefs<D>(refs: seq<TestRef>, tests: map<string, D>, groups: Groups, allowSKUGroup: bool) {
    && (forall i :: 0 <= i < |refs| ==> WellFormedRef(refs[i], tests, groups, allowSKUGroup))
    && NoDuplicates(Expansion(refs, groups))
  }

  /** Accepts exactly the lists whose references are well formed and whose expansion never repeats a
      (test, SKU group) pair. */
  method ValidateTestRefList<D>(refs: seq<TestRef>, tests: map<string, D>, groups: Groups, allowSKUGroup: bool)
    returns (r: Result<(), TestError>)
    ensures r.Success? <==> AcceptableRefs(refs, tests, groups, allowSKUGroup)
    ensures r.Failure? ==> r.error in {DuplicateTestRef, InvalidTestRef, SKUGroupNotAllowed, UndefinedTest, UndefinedTestGroup}
    ensures r == Failure(SKUGroupNotAllowed) ==> !allowSKUGroup
  {
    hide *;
    var seenTests := new SeenTests();
    NothingExpands(refs, tests, groups, allowSKUGroup);
    for i := 0 to |refs|
      invariant fresh(seenTests)
      invariant AcceptableRefs(refs[..i], tests, groups, allowSKUGroup)
      invariant seenTests.keys == Elements(Expansion(refs[..i], groups))
    {
      OneMoreRef(refs, tests, groups, allowSKUGroup, i);
      var checked := ValidateTestRef(seenTests, refs[i], tests, groups, allowSKUGroup);
      if checked.Failure? {
        return Failure(checked.error);
      }
    }
    assert refs[..|refs|] == refs;
    r := Success(());
  }

  lemma NothingExpands<D>(refs: seq<TestRef>, tests: map<string, D>, groups: Groups, allowSKUGroup: bool)
    ensures AcceptableRefs(refs[..0], tests, groups, allowSKUGroup) && Elements(Expansion(refs[..0], groups)) == {}
  {
  }

  /** The body of that loop. */
  method ValidateTestRef<D>(seenTests: SeenTests, ref: TestRef, tests: map<string, D>, groups: Groups, allowSKUGroup: bool)
    returns (r: Result<(), TestError>)
    modifies seenTests
    ensures r.Success? <==> WellFormedRef(ref, tests, groups, allowSKUGroup) && Fresh(KeysOf(ref, groups), old(seenTests.keys))
    ensures r.Success? ==> seenTests.keys == old(seenTests.keys) + Elements(KeysOf(ref, groups))
    ensures r.Failure? ==> r.error in {DuplicateTestRef, InvalidTestRef, SKUGroupNotAllowed, UndefinedTest, UndefinedTestGroup}
    ensures r == Failure(SKUGroupNotAllowed) ==> !allowSKUGroup
  {
    hide AllKeys, Fresh, UniqueSKUGroups, Elements, Keys;
    if (ref.name != "") == (ref.group != "") {
      return Failure(InvalidTestRef);
    }
    if !allowSKUGroup && ref.skuGroups.Some? {
      return Failure(SKUGroupNotAllowed);
    }
    if ref.skuGroups == Some([]) {
      return Failure(InvalidTestRef);
    }
    var skuGroups := SkuGroups(ref);
    var unique := CheckUniqueSKUGroups(skuGroups);
    if !unique {
      return Failure(DuplicateTestRef);
    }
    var ok;
    if ref.name != "" {
      if ref.name !in tests {
        return Failure(UndefinedTest);
      }
      OneTest(ref.name, skuGroups);
      ok := seenTests.DedupTestRefSKUGroups(ref.name, skuGroups);
    } else {
      if ref.group !in groups {
        return Failure(UndefinedTestGroup);
      }
      ok := DedupGroup(seenTests, groups[ref.group], skuGroups);
    }
    if !ok {
      return Failure(DuplicateTestRef);
    }
    r := Success(());
  }

  /** The loop over the members of a referenced group. */
  method DedupGroup(seenTests: SeenTests, members: seq<TestRef>, skuGroups: seq<string>) returns (ok: bool)
    modifies seenTests
    ensures ok <==> Fresh(AllKeys(Names(members), skuGroups), old(seenTests.keys))
    ensures ok ==> seenTests.keys == old(seenTests.keys) + Elements(AllKeys(Names(members), skuGroups))
  {
    hide Fresh;
    ghost var names := Names(members);
    NothingIsFresh<Key>();
    AlwaysFresh<Key>(seenTests.keys);
    for i := 0 to |members|
      invariant Fresh(AllKeys(names[..i], skuGroups), old(seenTests.keys))
      invariant seenTests.keys == old(seenTests.keys) + Elements(AllKeys(names[..i], skuGroups))
    {
      AllKeysSplit(names, skuGroups, i);
      FreshAppend(AllKeys(names[..i], skuGroups), Keys(names[i], skuGroups), old(seenTests.keys));
      ghost var later := AllKeys(names, skuGroups)[|AllKeys(names[..i + 1], skuGroups)|..];
      FreshAppend(AllKeys(names[..i + 1], skuGroups), later, old(seenTests.keys));
      ok := seenTests.DedupTestRefSKUGroups(members[i].name, skuGroups);
      if !ok {
        return;
      }
    }
    assert names[..|members|] == names;
    ok := true;
  }

  lemma {:induction false} AllKeysGrow(names: seq<string>, skuGroups: seq<string>, i: nat)
    requires i <= |names|
    ensures AllKeys(names[..i], skuGroups) <= AllKeys(names, skuGroups)
  {
    if i == |names| {
      assert names[..i] == names;
    } else {
      AllKeysGrow(names[..|names| - 1], skuGroups, i);
      assert names[..|names| - 1][..i] == names[..i];
    }
  }

  lemma AllKeysSplit(names: seq<string>, skuGroups: seq<string>, i: nat)
    requires i < |names|
    ensures AllKeys(names[..i + 1], skuGroups) == AllKeys(names[..i], skuGroups) + Keys(names[i], skuGroups)
    ensures var done := AllKeys(names[..i + 1], skuGroups);
            |done| <= |AllKeys(names, skuGroups)| && AllKeys(names, skuGroups) == done + AllKeys(names, skuGroups)[|done|..]
  {
    assert names[..i + 1][..i] == names[..i];
    AllKeysGrow(names, skuGroups, i + 1);
  }

  lemma OneTest(name: string, skuGroups: seq<string>)
    ensures AllKeys([name], skuGroups) == Keys(name, skuGroups)
  {
    assert [name][..0] == [];
    assert AllKeys([], skuGroups) == [];
  }

  lemma {:induction false} ExpansionGrows(refs: seq<TestRef>, groups: Groups, i: nat)
    requires i <= |refs|
    ensures Expansion(refs[..i], groups) <= Expansion(refs, groups)
  {
    if i == |refs| {
      assert refs[..i] == refs;
    } else {
      ExpansionGrows(refs[..|refs| - 1], groups, i);
      assert refs[..|refs| - 1][..i] == refs[..i];
    }
  }

  /** What checking one more reference decides about the whole list. */
  lemma OneMoreRef<D>(refs: seq<TestRef>, tests: map<string, D>, groups: Groups, allowSKUGroup: bool, i: nat)
    requires i < |refs| && AcceptableRefs(refs[..i], tests, groups, allowSKUGroup)
    ensures var done, keys := Expansion(refs[..i], groups), KeysOf(refs[i], groups);
            && (AcceptableRefs(refs[..i + 1], tests, groups, allowSKUGroup) <==>
                  WellFormedRef(refs[i], tests, groups, allowSKUGroup) && Fresh(keys, Elements(done)))
            && Elements(Expansion(refs[..i + 1], groups)) == Elements(done) + Elements(keys)
    ensures AcceptableRefs(refs, tests, groups, allowSKUGroup) ==> AcceptableRefs(refs[..i + 1], tests, groups, allowSKUGroup)
  {
    hide KeysOf, Fresh, WellFormedRef;
    var done, keys := Expansion(refs[..i], groups), KeysOf(refs[i], groups);
    assert refs[..i + 1][..i] == refs[..i];
    assert Expansion(refs[..i + 1], groups) == done + keys;
    FreshAppend(done, keys, {});
    assert {} + Elements(done) == Elements(done);
    FreshFromNothing(done);
    FreshFromNothing(done + keys);
    DistinctSoFar(refs, groups, i + 1);
    assert forall j :: 0 <= j < i ==> refs[..i + 1][j] == refs[..i][j];
  }

  lemma DistinctSoFar(refs: seq<TestRef>, groups: Groups, i: nat)
    requires i <= |refs|
    ensures NoDuplicates(Expansion(refs, groups)) ==> NoDuplicates(Expansion(refs[..i], groups))
  {
    hide Expansion;
    ExpansionGrows(refs, groups, i);
    var done, whole := Expansion(refs[..i], groups), Expansion(refs, groups);
    assert forall j :: 0 <= j < |done| ==> done[j] == whole[j];
  }

  // ---------- The whole configuration ----------

  /** The test references of components and images; None when the section is absent. */
  type RefTable = map<string, Option<seq<TestRef>>>

  ghost predicate AcceptableTable<D>(table: RefTable, tests: map<string, D>, groups: Groups, allowSKUGroup: bool) {
    forall n :: n in table && table[n].Some? ==> AcceptableRefs(table[n].value, tests, groups, allowSKUGroup)
  }

  ghost predicate AcceptableConfig<D>(tests: map<string, D>, groups: Groups, components: RefTable, images: RefTable) {
    && (forall g :: g in groups ==> WellFormedGroup(groups[g], tests))
    && AcceptableTable(components, tests, groups, false)
    && AcceptableTable(images, tests, groups, true)
  }

  method ValidateRefTable<D>(table: RefTable, tests: map<string, D>, groups: Groups, allowSKUGroup: bool)
    returns (r: Result<(), TestError>)
    ensures r.Success? <==> AcceptableTable(table, tests, groups, allowSKUGroup)
  {
    hide AcceptableRefs;
    var rest := table.Keys;
    while rest != {}
      invariant rest <= table.Keys
      invariant forall n :: n in table.Keys - rest && table[n].Some? ==> AcceptableRefs(table[n].value, tests, groups, allowSKUGroup)
      decreases rest
    {
      var name :| name in rest;
      if table[name].Some? {
        r := ValidateTestRefList(table[name].value, tests, groups, allowSKUGroup);
        if r.Failure? {
          return;
        }
      }
      rest := rest - {name};
    }
    r := Success(());
  }

  /** Whatever order the maps are ranged over, exactly the acceptable configurations pass. */
  method ValidateNewTestReferences<D>(tests: map<string, D>, groups: Groups, components: RefTable, images: RefTable)
    returns (r: Result<(), TestError>)
    ensures r.Success? <==> AcceptableConfig(tests, groups, components, images)
  {
    hide WellFormedGroup, AcceptableTable;
    var rest := groups.Keys;
    while rest != {}
      invariant rest <= groups.Keys
      invariant forall g :: g in groups.Keys - rest ==> WellFormedGroup(groups[g], tests)
      decreases rest
    {
      var name :| name in rest;
      r := ValidateTestGroupMembers(groups[name], tests);
      if r.Failure? {
        return;
      }
      rest := rest - {name};
    }
    r := ValidateRefTable(components, tests, groups, false);
    if r.Failure? {
      return;
    }
    r := ValidateRefTable(images, tests, groups, true);
  }

  // ---------- Expansion ----------

  datatype ResolvedTest<D> = ResolvedTest(name: string, definition: D)

  ghost predicate Resolvable<D>(ref: TestRef, tests: map<string, D>, groups: Groups) {
    && (ref.name != "") != (ref.group != "")
    && (ref.name != "" ==> ref.name in tests)
    && (ref.group != "" ==> ref.group in groups && GroupResolvable(groups[ref.group], tests))
  }

  ghost predicate GroupResolvable<D>(members: seq<TestRef>, tests: map<string, D>) {
    forall i :: 0 <= i < |members| ==> members[i].group == "" && members[i].name in tests
  }

  function TestNames(refs: seq<TestRef>, groups: Groups): seq<string> {
    if refs == [] then [] else TestNames(refs[..|refs| - 1], groups) + TestsOf(refs[|refs| - 1], groups)
  }

  ghost predicate ResolvesTo<D>(resolved: seq<ResolvedTest<D>>, names: seq<string>, tests: map<string, D>) {
    && |resolved| == |names|
    && forall i :: 0 <= i < |names| ==> names[i] in tests && resolved[i] == ResolvedTest(names[i], tests[names[i]])
  }

  /** The loop over the members of one referenced group. */
  method ResolveMembers<D>(members: seq<TestRef>, tests: map<string, D>) returns (r: Result<seq<ResolvedTest<D>>, TestError>)
    ensures r.Success? <==> GroupResolvable(members, tests)
    ensures r.Success? ==> ResolvesTo(r.value, Names(members), tests)
  {
    var resolved: seq<ResolvedTest<D>> := [];
    for k := 0 to |members|
      invariant forall j :: 0 <= j < k ==> members[j].group == "" && members[j].name in tests
      invariant ResolvesTo(resolved, Names(members)[..k], tests)
    {
      if members[k].group != "" {
        return Failure(NestedTestGroupReference);
      }
      if members[k].name !in tests {
        return Failure(UndefinedTest);
      }
      resolved := resolved + [ResolvedTest(members[k].name, tests[members[k].name])];
    }
    assert Names(members)[..|members|] == Names(members);
    r := Success(resolved);
  }

  method ResolveTestRefs<D>(refs: seq<TestRef>, tests: map<string, D>, groups: Groups)
    returns (r: Result<seq<ResolvedTest<D>>, TestError>)
    ensures r.Success? <==> forall i :: 0 <= i < |refs| ==> Resolvable(refs[i], tests, groups)
    ensures r.Success? ==> ResolvesTo(r.value, TestNames(refs, groups), tests)
  {
    var resolved: seq<ResolvedTest<D>> := [];
    for i := 0 to |refs|
      invariant forall j :: 0 <= j < i ==> Resolvable(refs[j], tests, groups)
      invariant ResolvesTo(resolved, TestNames(refs[..i], groups), tests)
    {
      var ref := refs[i];
      assert refs[..i + 1][..i] == refs[..i];
      if ref.name != "" && ref.group != "" {
        return Failure(InvalidTestRef);
      } else if ref.name != "" {
        if ref.name !in tests {
          return Failure(UndefinedTest);
        }
        resolved := resolved + [ResolvedTest(ref.name, tests[ref.name])];
      } else if ref.group != "" {
        if ref.group !in groups {
          return Failure(UndefinedTestGroup);
        }
        var members := ResolveMembers(groups[ref.group], tests);
        if members.Failure? {
          return Failure(members.error);
        }
        resolved := resolved + members.value;
      } else {
        return Failure(InvalidTestRef);
      }
    }
    assert refs[..|refs|] == refs;
    r := Success(resolved);
  }

  /** The elements of s at their first occurrence. */
  function FirstOccurrences(s: seq<string>): seq<string> {
    if s == [] then []
    else
      var front, last := FirstOccurrences(s[..|s| - 1]), s[|s| - 1];
      if last in s[..|s| - 1] then front else front + [last]
  }

  function ResolvedNames<D>(tests: seq<ResolvedTest<D>>): (names: seq<string>)
    ensures |names| == |tests| && forall i :: 0 <= i < |tests| ==> names[i] == tests[i].name
  {
    seq(|tests|, i requires 0 <= i < |tests| => tests[i].name)
  }

  /** Where x first occurs in s. */
  function IndexOf(s: seq<string>, x: string): (i: nat)
    requires x in s
    ensures i < |s| && s[i] == x && x !in s[..i]
  {
    if s[0] == x then 0
    else
      var i := 1 + IndexOf(s[1..], x);
      assert s[..i] == [s[0]] + s[1..][..i - 1];
      i
  }

  lemma FirstIndexIsUnique(s: seq<string>, x: string, i: nat)
    requires i < |s| && s[i] == x && x !in s[..i]
    ensures IndexOf(s, x) == i
  {
    assert !(IndexOf(s, x) < i) && !(i < IndexOf(s, x));
  }

  method DedupeResolvedTestsByName<D>(tests: seq<ResolvedTest<D>>) returns (deduped: seq<ResolvedTest<D>>)
    ensures ResolvedNames(deduped) == FirstOccurrences(ResolvedNames(tests))
    ensures forall t :: t in deduped ==>
              t.name in ResolvedNames(tests) && t == tests[IndexOf(ResolvedNames(tests), t.name)]
  {
    hide FirstOccurrences, ResolvedNames, IndexOf;
    var seen: set<string> := {};
    deduped := [];
    ghost var names := ResolvedNames(tests);
    NothingOccurs(names);
    NamesOfNothing<D>();
    for i := 0 to |tests|
      invariant seen == Elements(names[..i])
      invariant ResolvedNames(deduped) == FirstOccurrences(names[..i])
      invariant forall t :: t in deduped ==> t.name in names && t == tests[IndexOf(names, t.name)]
    {
      FirstOccurrencesStep(names, i);
      ResolvedNamesSnoc(deduped, tests[i]);
      if tests[i].name !in seen {
        FirstIndexIsUnique(names, tests[i].name, i);
        seen := seen + {tests[i].name};
        deduped := deduped + [tests[i]];
      }
    }
    assert names[..|tests|] == names;
  }

  lemma NothingOccurs(names: seq<string>)
    ensures FirstOccurrences(names[..0]) == [] && Elements(names[..0]) == {}
  {
  }

  lemma NamesOfNothing<D>()
    ensures ResolvedNames<D>([]) == []
  {
  }

  lemma FirstOccurrencesStep(names: seq<string>, i: nat)
    requires i < |names|
    ensures FirstOccurrences(names[..i + 1])
         == if names[i] in Elements(names[..i]) then FirstOccurrences(names[..i]) else FirstOccurrences(names[..i]) + [names[i]]
    ensures Elements(names[..i + 1]) == Elements(names[..i]) + {names[i]}
  {
    assert names[..i + 1][..i] == names[..i];
    assert names[..i + 1] == names[..i] + [names[i]];
    ElementsSnoc(names[..i], names[i]);
  }

  lemma ResolvedNamesSnoc<D>(tests: seq<ResolvedTest<D>>, t: ResolvedTest<D>)
    ensures ResolvedNames(tests + [t]) == ResolvedNames(tests) + [t.name]
  {
  }

  /** Each element appears once, nothing is lost, and the order is that of first occurrence. */
  lemma {:induction false} FirstOccurrencesProperties(s: seq<string>)
    ensures forall x :: x in FirstOccurrences(s) <==> x in s
    ensures forall i, j :: 0 <= i < j < |FirstOccurrences(s)| ==>
              FirstOccurrences(s)[i] in s && FirstOccurrences(s)[j] in s
              && IndexOf(s, FirstOccurrences(s)[i]) < IndexOf(s, FirstOccurrences(s)[j])
  {
    if s != [] {
      var front, last := s[..|s| - 1], s[|s| - 1];
      FirstOccurrencesProperties(front);
      assert s == front + [last];
      var kept := FirstOccurrences(front);
      forall x | x in front ensures IndexOf(s, x) == IndexOf(front, x) {
        FirstIndexIsUnique(s, x, IndexOf(front, x));
      }
      if last !in front {
        FirstIndexIsUnique(s, last, |s| - 1);
      }
    }
  }

  // ---------- Validated references always expand ----------

  lemma AcceptedRefsResolve<D>(refs: seq<TestRef>, tests: map<string, D>, groups: Groups, allowSKUGroup: bool)
    requires forall g :: g in groups ==> WellFormedGroup(groups[g], tests)
    requires AcceptableRefs(refs, tests, groups, allowSKUGroup)
    ensures forall i :: 0 <= i < |refs| ==> Resolvable(refs[i], tests, groups)
  {
    forall i | 0 <= i < |refs| ensures Resolvable(refs[i], tests, groups) {
      assert WellFormedRef(refs[i], tests, groups, allowSKUGroup);
      if refs[i].group != "" {
        assert WellFormedGroup(groups[refs[i].group], tests);
        assert forall k :: 0 <= k < |groups[refs[i].group]| ==> WellFormedMember(groups[refs[i].group][k], tests);
      }
    }
  }

  lemma {:induction false} PlainExpansion(refs: seq<TestRef>, groups: Groups)
    requires forall i :: 0 <= i < |refs| ==> refs[i].skuGroups.None?
    ensures |Expansion(refs, groups)| == |TestNames(refs, groups)|
    ensures forall i :: 0 <= i < |TestNames(refs, groups)| ==> Expansion(refs, groups)[i] == (TestNames(refs, groups)[i], "")
  {
    if refs != [] {
      PlainExpansion(refs[..|refs| - 1], groups);
      PlainKeys(TestsOf(refs[|refs| - 1], groups));
    }
  }

  lemma {:induction false} PlainKeys(tests: seq<string>)
    ensures |AllKeys(tests, [""])| == |tests|
    ensures forall i :: 0 <= i < |tests| ==> AllKeys(tests, [""])[i] == (tests[i], "")
  {
    if tests != [] {
      PlainKeys(tests[..|tests| - 1]);
    }
  }

  /** ResolveImageTests, for an image with a tests section. */
  method ResolveImageTests<D>(refs: seq<TestRef>, tests: map<string, D>, groups: Groups)
    returns (r: Result<seq<ResolvedTest<D>>, TestError>)
    ensures r.Success? <==> forall i :: 0 <= i < |refs| ==> Resolvable(refs[i], tests, groups)
    ensures r.Success? ==> ResolvedNames(r.value) == FirstOccurrences(TestNames(refs, groups))
    ensures r.Success? ==> forall t :: t in r.value ==> t.name in tests && t.definition == tests[t.name]
  {
    r := ResolveTestRefs(refs, tests, groups);
    if r.Success? {
      ghost var resolved := r.value;
      assert ResolvedNames(resolved) == TestNames(refs, groups);
      var deduped := DedupeResolvedTestsByName(r.value);
      r := Success(deduped);
      forall t | t in deduped ensures t.name in tests && t.definition == tests[t.name] {
        assert resolved[IndexOf(ResolvedNames(resolved), t.name)] == t;
      }
    }
  }

  /** The lists that were validated cannot fail to resolve: a component's own list gives pairwise distinct
      tests, an image's list its expansion without repeats. What a component inherits is another matter:
      see ComponentTests. */
  method ResolveAccepted<D>(tests: map<string, D>, groups: Groups, components: RefTable, images: RefTable, name: string)
    returns (component: Option<seq<ResolvedTest<D>>>, image: Option<seq<ResolvedTest<D>>>)
    requires AcceptableConfig(tests, groups, components, images)
    ensures component.Some? <==> name in components && components[name].Some?
    ensures component.Some? ==>
              var names := TestNames(components[name].value, groups);
              ResolvesTo(component.value, names, tests) && NoDuplicates(names)
    ensures image.Some? <==> name in images && images[name].Some?
    ensures image.Some? ==> ResolvedNames(image.value) == FirstOccurrences(TestNames(images[name].value, groups))
  {
    component, image := None, None;
    if name in components && components[name].Some? {
      var refs := components[name].value;
      AcceptedRefsResolve(refs, tests, groups, false);
      var r := ResolveTestRefs(refs, tests, groups);
      component := Some(r.value);
      assert forall i :: 0 <= i < |refs| ==> WellFormedRef(refs[i], tests, groups, false);
      PlainExpansion(refs, groups);
    }
    if name in images && images[name].Some? {
      AcceptedRefsResolve(images[name].value, tests, groups, true);
      var r := ResolveImageTests(images[name].value, tests, groups);
      image := Some(r.value);
    }
  }

  lemma {:induction false} AllKeysContents(tests: seq<string>, skuGroups: seq<string>)
    ensures forall k :: k in AllKeys(tests, skuGroups) <==> k.0 in tests && k.1 in skuGroups
  {
    if tests != [] {
      var front, last := tests[..|tests| - 1], tests[|tests| - 1];
      AllKeysContents(front, skuGroups);
      assert tests == front + [last];
      KeysContents(last, skuGroups);
    }
  }

  lemma KeysContents(test: string, skuGroups: seq<string>)
    ensures forall k :: k in Keys(test, skuGroups) <==> k.0 == test && k.1 in skuGroups
    ensures NoDuplicates(Keys(test, skuGroups)) <==> NoDuplicates(skuGroups)
  {
    var keys := Keys(test, skuGroups);
    forall k: Key | k.0 == test && k.1 in skuGroups ensures k in keys {
      var i :| 0 <= i < |skuGroups| && skuGroups[i] == k.1;
      assert keys[i] == k;
    }
    if NoDuplicates(keys) {
      forall i, j | 0 <= i < j < |skuGroups| ensures skuGroups[i] != skuGroups[j] {
        assert keys[i] != keys[j];
      }
    }
  }

  /** No pair repeats exactly when neither a test nor a SKU group does, or there is no test at all. */
  lemma {:induction false} AllKeysDistinctIff(tests: seq<string>, skuGroups: seq<string>)
    requires skuGroups != []
    ensures NoDuplicates(AllKeys(tests, skuGroups)) <==> tests == [] || (NoDuplicates(tests) && NoDuplicates(skuGroups))
  {
    hide Fresh, Keys;
    if tests != [] {
      var front, last := tests[..|tests| - 1], tests[|tests| - 1];
      var before, keys := AllKeys(front, skuGroups), Keys(last, skuGroups);
      AllKeysDistinctIff(front, skuGroups);
      FreshFromNothing(before + keys);
      FreshFromNothing(before);
      FreshAppend(before, keys, {});
      KeysAreNew(front, last, skuGroups);
      DistinctSnoc(front, last);
      assert tests == front + [last];
    }
  }

  lemma KeysAreNew(front: seq<string>, last: string, skuGroups: seq<string>)
    requires skuGroups != []
    ensures Fresh(Keys(last, skuGroups), {} + Elements(AllKeys(front, skuGroups))) <==> NoDuplicates(skuGroups) && last !in front
  {
    hide AllKeys, Keys, NoDuplicates;
    AllKeysContents(front, skuGroups);
    KeysContents(last, skuGroups);
    var shared := (last, skuGroups[0]);
    assert shared in Keys(last, skuGroups);
    assert last in front ==> shared in Elements(AllKeys(front, skuGroups));
  }

  lemma DistinctSnoc<T>(front: seq<T>, last: T)
    ensures NoDuplicates(front + [last]) <==> NoDuplicates(front) && last !in front
  {
    var all := front + [last];
    if NoDuplicates(all) {
      assert forall i :: 0 <= i < |front| ==> all[i] == front[i] && all[i] != all[|front|];
    }
  }

  /** A well-formed reference alone is accepted exactly when it stands for no test, or neither its tests
      nor its SKU groups repeat. So a repeated SKU group, which can only be the empty one, passes exactly
      when the reference stands for no test. */
  lemma LoneReferenceAcceptedIff<D>(ref: TestRef, tests: map<string, D>, groups: Groups, allowSKUGroup: bool)
    requires WellFormedRef(ref, tests, groups, allowSKUGroup)
    ensures AcceptableRefs([ref], tests, groups, allowSKUGroup)
       <==> TestsOf(ref, groups) == [] || (NoDuplicates(TestsOf(ref, groups)) && NoDuplicates(SkuGroups(ref)))
  {
    hide WellFormedRef, NoDuplicates, AllKeys, TestsOf;
    assert [ref][..0] == [] && Expansion([], groups) == [];
    assert Expansion([ref], groups) == KeysOf(ref, groups);
    AllKeysDistinctIff(TestsOf(ref, groups), SkuGroups(ref));
  }

  /** Two empty SKU groups: refused for a test, accepted for a reference to a group without members. */
  lemma EmptySKUGroupsTwice<D>(tests: map<string, D>, test: string, group: string)
    requires test in tests && test != "" && group != ""
    ensures !AcceptableRefs([TestRef(test, "", Some(["", ""]))], tests, map[group := []], true)
    ensures AcceptableRefs([TestRef("", group, Some(["", ""]))], tests, map[group := []], true)
  {
    hide AcceptableRefs;
    var groups: Groups := map[group := []];
    LoneReferenceAcceptedIff(TestRef(test, "", Some(["", ""])), tests, groups, true);
    LoneReferenceAcceptedIff(TestRef("", group, Some(["", ""])), tests, groups, true);
    assert ["", ""][0] == ["", ""][1];
    assert Names([]) == [];
  }
}
