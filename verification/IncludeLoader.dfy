/** internal/projectconfig/loader.go: recursive loading of config files and their includes.

    One mutable set of visited files is shared by the whole recursion. Loading succeeds exactly
    when every file reached can be loaded and none is reached along two different include walks,
    so a diamond is refused like a cycle; the result is then the preorder of the include tree. */
module IncludeLoader {
  import opened Wrappers
  import opened Strings

  /** An absolute path. */
  type Path = string

  /** One entry of "includes": what its glob matches (None: the glob fails), in the order the
      glob reports, and whether the entry contains a pattern character. */
  datatype Include = Include(isPattern: bool, matches: Option<seq<Path>>)

  /** The files that open, decode and validate. */
  type FileSystem = map<Path, seq<Include>>

  datatype ConfigFile = ConfigFile(sourcePath: Path, includes: seq<Include>)

  datatype LoadError =
    | CircularInclude(path: Path)
    | Unloadable(path: Path)
    | GlobFailed(path: Path, index: nat)
    | IncludeNotFound(path: Path, index: nat)

  function Paths(cfgs: seq<ConfigFile>): (paths: seq<Path>)
    ensures |paths| == |cfgs| && forall i :: 0 <= i < |cfgs| ==> paths[i] == cfgs[i].sourcePath
  {
    seq(|cfgs|, i requires 0 <= i < |cfgs| => cfgs[i].sourcePath)
  }

  // ---------- The include tree ----------

  /** The files one file includes, in order. */
  function Children(includes: seq<Include>): seq<Path> {
    if includes == [] then []
    else (if includes[0].matches.Some? then includes[0].matches.value else []) + Children(includes[1..])
  }

  predicate IncludeResolves(i: Include) {
    i.matches.Some? && (i.matches.value == [] ==> i.isPattern)
  }

  ghost predicate Loadable(fs: FileSystem, f: Path) {
    f in fs && forall i :: 0 <= i < |fs[f]| ==> IncludeResolves(fs[f][i])
  }

  /** The include tree of f down to depth n, in preorder, repetitions and all. */
  function Unfold(fs: FileSystem, n: nat, f: Path): seq<Path>
    decreases n, 1, 0
  {
    if n == 0 then []
    else if f !in fs then [f]
    else [f] + UnfoldAll(fs, n - 1, Children(fs[f]))
  }

  function UnfoldAll(fs: FileSystem, n: nat, files: seq<Path>): seq<Path>
    decreases n, 2, |files|
  {
    if files == [] then [] else Unfold(fs, n, files[0]) + UnfoldAll(fs, n, files[1..])
  }

  lemma {:induction false} UnfoldAllAppends(fs: FileSystem, n: nat, a: seq<Path>, b: seq<Path>)
    ensures UnfoldAll(fs, n, a + b) == UnfoldAll(fs, n, a) + UnfoldAll(fs, n, b)
  {
    if a == [] {
      assert a + b == b;
    } else {
      assert (a + b)[1..] == a[1..] + b;
      UnfoldAllAppends(fs, n, a[1..], b);
    }
  }

  lemma UnfoldCounts(fs: FileSystem, n: nat, f: Path)
    requires n > 0 && f in fs
    ensures multiset(Unfold(fs, n, f)) == multiset{f} + multiset(UnfoldAll(fs, n - 1, Children(fs[f])))
  {
    hide UnfoldAll, Children;
  }

  lemma UnfoldAllCounts(fs: FileSystem, n: nat, files: seq<Path>)
    requires files != []
    ensures multiset(UnfoldAll(fs, n, files))
         == multiset(Unfold(fs, n, files[0])) + multiset(UnfoldAll(fs, n, files[1..]))
  {
    hide Unfold;
  }

  /** Looking deeper only adds files. */
  lemma {:induction false} UnfoldGrows(fs: FileSystem, n: nat, m: nat, f: Path)
    requires n <= m
    ensures multiset(Unfold(fs, n, f)) <= multiset(Unfold(fs, m, f))
    decreases n, 1, 0
  {
    hide UnfoldAll, Children;
    if n > 0 && f in fs {
      UnfoldAllGrows(fs, n - 1, m - 1, Children(fs[f]));
    }
  }

  lemma {:induction false} UnfoldAllGrows(fs: FileSystem, n: nat, m: nat, files: seq<Path>)
    requires n <= m
    ensures multiset(UnfoldAll(fs, n, files)) <= multiset(UnfoldAll(fs, m, files))
    decreases n, 2, |files|
  {
    if files != [] {
      UnfoldGrows(fs, n, m, files[0]);
      UnfoldAllGrows(fs, n, m, files[1..]);
    }
  }

  // ---------- What loading is meant to check ----------

  /** Following a walk: at each step take the child with the given index. */
  function Follow(fs: FileSystem, f: Path, walk: seq<nat>): Option<Path>
    decreases |walk|
  {
    if walk == [] then Some(f)
    else if f !in fs || walk[0] >= |Children(fs[f])| then None
    else Follow(fs, Children(fs[f])[walk[0]], walk[1..])
  }

  ghost predicate Reachable(fs: FileSystem, root: Path, f: Path) {
    exists walk :: Follow(fs, root, walk) == Some(f)
  }

  ghost predicate ReachedTwice(fs: FileSystem, root: Path) {
    exists v, w :: v != w && Follow(fs, root, v).Some? && Follow(fs, root, v) == Follow(fs, root, w)
  }

  lemma {:induction false} WalkOf(fs: FileSystem, n: nat, f: Path, g: Path) returns (w: seq<nat>)
    requires g in Unfold(fs, n, f)
    ensures Follow(fs, f, w) == Some(g)
    decreases n, 1, 0
  {
    if f == g {
      w := [];
    } else {
      var k, v := ChildWalkOf(fs, n - 1, Children(fs[f]), g);
      w := [k] + v;
      assert w[1..] == v;
    }
  }

  lemma {:induction false} ChildWalkOf(fs: FileSystem, n: nat, files: seq<Path>, g: Path) returns (k: nat, w: seq<nat>)
    requires g in UnfoldAll(fs, n, files)
    ensures k < |files| && Follow(fs, files[k], w) == Some(g)
    decreases n, 2, |files|
  {
    if g in Unfold(fs, n, files[0]) {
      k := 0;
      w := WalkOf(fs, n, files[0], g);
    } else {
      k, w := ChildWalkOf(fs, n, files[1..], g);
      k := k + 1;
    }
  }

  /** A file listed twice in an unfolding is reached by two different walks ... */
  lemma {:induction false} TwoWalksOf(fs: FileSystem, n: nat, f: Path, g: Path) returns (v: seq<nat>, w: seq<nat>)
    requires multiset(Unfold(fs, n, f))[g] >= 2
    ensures v != w && Follow(fs, f, v) == Follow(fs, f, w) == Some(g)
    decreases n, 1, 0
  {
    var children := Children(fs[f]);
    if f == g {
      var k, u := ChildWalkOf(fs, n - 1, children, g);
      v, w := [], [k] + u;
      assert w[1..] == u;
    } else {
      var j, x, k, y := TwoChildWalksOf(fs, n - 1, children, g);
      v, w := [j] + x, [k] + y;
      assert v[1..] == x && w[1..] == y && v[0] == j && w[0] == k;
    }
  }

  lemma {:induction false} TwoChildWalksOf(fs: FileSystem, n: nat, files: seq<Path>, g: Path)
    returns (j: nat, v: seq<nat>, k: nat, w: seq<nat>)
    requires multiset(UnfoldAll(fs, n, files))[g] >= 2
    ensures j < |files| && k < |files| && (j != k || v != w)
    ensures Follow(fs, files[j], v) == Follow(fs, files[k], w) == Some(g)
    decreases n, 2, |files|
  {
    var first, rest := Unfold(fs, n, files[0]), UnfoldAll(fs, n, files[1..]);
    if multiset(first)[g] >= 2 {
      j, k := 0, 0;
      v, w := TwoWalksOf(fs, n, files[0], g);
    } else if multiset(first)[g] == 1 {
      assert multiset(rest)[g] >= 1;
      assert g in first && g in rest;
      j := 0;
      v := WalkOf(fs, n, files[0], g);
      k, w := ChildWalkOf(fs, n, files[1..], g);
      k := k + 1;
    } else {
      j, v, k, w := TwoChildWalksOf(fs, n, files[1..], g);
      j, k := j + 1, k + 1;
    }
  }

  lemma {:induction false} SegmentOf(fs: FileSystem, n: nat, files: seq<Path>, k: nat)
    requires k < |files|
    ensures multiset(Unfold(fs, n, files[k])) <= multiset(UnfoldAll(fs, n, files))
  {
    hide Unfold, UnfoldAll;
    UnfoldAllCounts(fs, n, files);
    if k > 0 {
      SegmentOf(fs, n, files[1..], k - 1);
    }
  }

  lemma {:induction false} TwoSegmentsOf(fs: FileSystem, n: nat, files: seq<Path>, j: nat, k: nat)
    requires j < k < |files|
    ensures multiset(Unfold(fs, n, files[j])) + multiset(Unfold(fs, n, files[k])) <= multiset(UnfoldAll(fs, n, files))
  {
    hide Unfold, UnfoldAll;
    UnfoldAllCounts(fs, n, files);
    if j == 0 {
      SegmentOf(fs, n, files[1..], k - 1);
    } else {
      TwoSegmentsOf(fs, n, files[1..], j - 1, k - 1);
    }
  }

  lemma {:induction false} WalkIsListed(fs: FileSystem, n: nat, f: Path, w: seq<nat>)
    requires Follow(fs, f, w).Some? && |w| < n
    ensures Follow(fs, f, w).value in multiset(Unfold(fs, n, f))
    decreases |w|
  {
    if w != [] {
      StepIsListed(fs, n, f, w);
    }
  }

  lemma {:induction false} StepIsListed(fs: FileSystem, n: nat, f: Path, w: seq<nat>)
    requires Follow(fs, f, w).Some? && 0 < |w| < n
    ensures f in fs && Follow(fs, f, w).value in multiset(UnfoldAll(fs, n - 1, Children(fs[f])))
    ensures multiset(Unfold(fs, n, f)) == multiset{f} + multiset(UnfoldAll(fs, n - 1, Children(fs[f])))
    decreases |w|, 0
  {
    hide Unfold, UnfoldAll, Children;
    var children := Children(fs[f]);
    UnfoldCounts(fs, n, f);
    WalkIsListed(fs, n - 1, children[w[0]], w[1..]);
    SegmentOf(fs, n - 1, children, w[0]);
  }

  /** ... and conversely two different walks to one file list it twice. */
  lemma {:induction false} TwoWalksAreListed(fs: FileSystem, n: nat, f: Path, v: seq<nat>, w: seq<nat>)
    requires v != w && Follow(fs, f, v).Some? && Follow(fs, f, v) == Follow(fs, f, w)
    requires |v| < n && |w| < n
    ensures multiset(Unfold(fs, n, f))[Follow(fs, f, v).value] >= 2
    decreases |v|
  {
    hide Unfold, UnfoldAll, Children;
    if v == [] {
      StepIsListed(fs, n, f, w);
    } else if w == [] {
      StepIsListed(fs, n, f, v);
    } else {
      UnfoldCounts(fs, n, f);
      if v[0] == w[0] {
        var children := Children(fs[f]);
        assert v[1..] != w[1..] by {
          assert v == [v[0]] + v[1..] && w == [w[0]] + w[1..];
        }
        TwoWalksAreListed(fs, n - 1, children[v[0]], v[1..], w[1..]);
        SegmentOf(fs, n - 1, children, v[0]);
      } else if v[0] < w[0] {
        TwoBranchesAreListed(fs, n, f, v, w);
      } else {
        TwoBranchesAreListed(fs, n, f, w, v);
      }
    }
  }

  lemma TwoBranchesAreListed(fs: FileSystem, n: nat, f: Path, v: seq<nat>, w: seq<nat>)
    requires v != [] && w != [] && v[0] < w[0]
    requires Follow(fs, f, v).Some? && Follow(fs, f, v) == Follow(fs, f, w)
    requires |v| < n && |w| < n
    ensures multiset(UnfoldAll(fs, n - 1, Children(fs[f])))[Follow(fs, f, v).value] >= 2
  {
    hide Unfold, UnfoldAll, Children;
    var children := Children(fs[f]);
    WalkIsListed(fs, n - 1, children[v[0]], v[1..]);
    WalkIsListed(fs, n - 1, children[w[0]], w[1..]);
    TwoSegmentsOf(fs, n - 1, children, v[0], w[0]);
  }

  // ---------- Loading ----------

  /** l is the whole include tree of f in preorder: no depth lists more. */
  ghost predicate IsPreorder(fs: FileSystem, f: Path, l: seq<Path>) {
    forall n: nat :: n >= |l| ==> Unfold(fs, n, f) == l
  }

  ghost predicate ArePreorders(fs: FileSystem, files: seq<Path>, l: seq<Path>) {
    forall n: nat :: n >= |l| ==> UnfoldAll(fs, n, files) == l
  }

  /** Some file of l was seen before, or l lists a file twice. */
  ghost predicate Repeats(l: seq<Path>, seen: set<Path>) {
    exists x :: x in l && (x in seen || multiset(l)[x] >= 2)
  }

  /** Why loading f failed: a repetition or an unloadable file, at some depth of its tree. */
  ghost predicate Explains(fs: FileSystem, f: Path, seen: set<Path>, e: LoadError) {
    exists n: nat ::
      if e.CircularInclude? then Repeats(Unfold(fs, n, f), seen)
      else exists g :: g in Unfold(fs, n, f) && !Loadable(fs, g)
  }

  /** The set of visited files, shared by the whole recursion. */
  class Seen {
    var paths: set<Path>

    constructor ()
      ensures paths == {}
    {
      paths := {};
    }
  }

  method LoadWithIncludes(fs: FileSystem, f: Path, seen: Seen) returns (r: Result<seq<ConfigFile>, LoadError>)
    modifies seen
    decreases fs.Keys - seen.paths
    ensures old(seen.paths) <= seen.paths
    ensures r.Success? ==>
              && IsPreorder(fs, f, Paths(r.value)) && !Repeats(Paths(r.value), old(seen.paths))
              && seen.paths == old(seen.paths) + Elements(Paths(r.value))
              && forall c :: c in r.value ==> Loadable(fs, c.sourcePath) && c.includes == fs[c.sourcePath]
    ensures r.Failure? ==> Explains(fs, f, old(seen.paths), r.error)
  {
    hide Unfold, UnfoldAll, Repeats, IsPreorder, ArePreorders, Paths, Progress, Children, Explains;
    ghost var before := seen.paths;
    if f in seen.paths {
      RepetitionExplains(fs, f, before);
      return Failure(CircularInclude(f));
    }
    seen.paths := seen.paths + {f};
    if f !in fs {
      UnloadableExplains(fs, f, before, Unloadable(f));
      return Failure(Unloadable(f));
    }
    var includes := fs[f];
    var allCfgs := [ConfigFile(f, includes)];
    ghost var done: seq<Path>, listed: seq<Path> := [], [];
    NoProgressYet(fs, f, before);
    for i := 0 to |includes|
      invariant before <= seen.paths && f in seen.paths
      invariant Progress(fs, f, before, seen.paths, allCfgs, done, listed)
      invariant Children(includes) == done + Children(includes[i..])
      invariant forall j :: 0 <= j < i ==> IncludeResolves(includes[j])
    {
      if includes[i].matches.None? {
        DeadIncludeExplains(fs, f, i, before, GlobFailed(f, i));
        return Failure(GlobFailed(f, i));
      }
      var matches := includes[i].matches.value;
      if |matches| == 0 && !includes[i].isPattern {
        DeadIncludeExplains(fs, f, i, before, IncludeNotFound(f, i));
        return Failure(IncludeNotFound(f, i));
      }
      ChildrenStep(includes, i);
      ghost var later := Children(includes[i + 1..]);
      for j := 0 to |matches|
        invariant before <= seen.paths && f in seen.paths
        invariant Progress(fs, f, before, seen.paths, allCfgs, done, listed)
        invariant Children(includes) == done + (matches[j..] + later)
      {
        ghost var seenThen := seen.paths;
        ghost var rest := matches[j + 1..] + later;
        assert matches[j..] + later == [matches[j]] + rest;
        assert done + ([matches[j]] + rest) == done + [matches[j]] + rest;
        ProgressSeen(fs, f, before, seen.paths, allCfgs, done, listed);
        var included := LoadWithIncludes(fs, matches[j], seen);
        if included.Failure? {
          FailureSpreads(fs, f, before, listed, done, matches[j], rest, included.error);
          return Failure(included.error);
        }
        ProgressStep(fs, f, before, seenThen, seen.paths, allCfgs, done, listed, matches[j], included.value);
        done, listed := done + [matches[j]], listed + Paths(included.value);
        allCfgs := allCfgs + included.value;
      }
      assert matches[|matches|..] + later == later;
    }
    ProgressDone(fs, f, before, seen.paths, allCfgs, done, listed);
    r := Success(allCfgs);
  }

  lemma RepetitionExplains(fs: FileSystem, f: Path, before: set<Path>)
    requires f in before
    ensures Explains(fs, f, before, CircularInclude(f))
  {
    assert f in Unfold(fs, 1, f);
    assert Repeats(Unfold(fs, 1, f), before);
  }

  lemma UnloadableExplains(fs: FileSystem, f: Path, before: set<Path>, e: LoadError)
    requires !Loadable(fs, f) && !e.CircularInclude?
    ensures Explains(fs, f, before, e)
  {
    assert f in Unfold(fs, 1, f);
  }

  lemma DeadIncludeExplains(fs: FileSystem, f: Path, i: nat, before: set<Path>, e: LoadError)
    requires f in fs && i < |fs[f]| && !IncludeResolves(fs[f][i]) && !e.CircularInclude?
    ensures Explains(fs, f, before, e)
  {
    assert !Loadable(fs, f);
    UnloadableExplains(fs, f, before, e);
  }

  lemma ChildrenStep(includes: seq<Include>, i: nat)
    requires i < |includes| && includes[i].matches.Some?
    ensures Children(includes[i..]) == includes[i].matches.value + Children(includes[i + 1..])
  {
    assert includes[i..][0] == includes[i] && includes[i..][1..] == includes[i + 1..];
  }

  lemma NoProgressYet(fs: FileSystem, f: Path, before: set<Path>)
    requires f in fs && f !in before
    ensures Progress(fs, f, before, before + {f}, [ConfigFile(f, fs[f])], [], [])
    ensures Children(fs[f]) == [] + Children(fs[f][0..])
  {
    assert fs[f][0..] == fs[f];
    assert [f] + [] == [f];
    assert multiset([f])[f] == 1;
    assert Elements([f]) == {f};
  }

  lemma ProgressSeen(fs: FileSystem, f: Path, before: set<Path>, seen: set<Path>, cfgs: seq<ConfigFile>,
                     done: seq<Path>, listed: seq<Path>)
    requires Progress(fs, f, before, seen, cfgs, done, listed)
    ensures f in fs && ArePreorders(fs, done, listed) && seen == before + Elements([f] + listed)
  {
  }

  lemma ProgressDone(fs: FileSystem, f: Path, before: set<Path>, seen: set<Path>, cfgs: seq<ConfigFile>,
                     done: seq<Path>, listed: seq<Path>)
    requires Progress(fs, f, before, seen, cfgs, done, listed)
    requires done + Children(fs[f][|fs[f]|..]) == Children(fs[f])
    requires forall j :: 0 <= j < |fs[f]| ==> IncludeResolves(fs[f][j])
    ensures IsPreorder(fs, f, Paths(cfgs)) && !Repeats(Paths(cfgs), before)
    ensures seen == before + Elements(Paths(cfgs))
    ensures forall c :: c in cfgs ==> Loadable(fs, c.sourcePath) && c.includes == fs[c.sourcePath]
  {
    hide Repeats, ArePreorders, IsPreorder, IncludeResolves;
    assert fs[f][|fs[f]|..] == [];
    assert done == Children(fs[f]);
    PreorderOfParent(fs, f, listed);
    assert cfgs[0].sourcePath == f;
    forall c | c in cfgs ensures Loadable(fs, c.sourcePath) {
      var i :| 0 <= i < |cfgs| && cfgs[i] == c;
      if i == 0 {
        assert c.sourcePath == f;
      }
    }
  }

  /** The loop invariant: what the files included so far have contributed. */
  ghost predicate Progress(fs: FileSystem, f: Path, before: set<Path>, seen: set<Path>, cfgs: seq<ConfigFile>,
                           done: seq<Path>, listed: seq<Path>) {
    && f in fs
    && Paths(cfgs) == [f] + listed
    && ArePreorders(fs, done, listed)
    && !Repeats([f] + listed, before)
    && seen == before + Elements([f] + listed)
    && (forall i :: 1 <= i < |cfgs| ==> Loadable(fs, cfgs[i].sourcePath))
    && (forall c :: c in cfgs ==> c.sourcePath in fs && c.includes == fs[c.sourcePath])
  }

  lemma NoRepeatsOfAppend(a: seq<Path>, b: seq<Path>, before: set<Path>)
    requires !Repeats(a, before) && !Repeats(b, before + Elements(a))
    ensures !Repeats(a + b, before)
  {
    forall x | x in a + b ensures x !in before && multiset(a + b)[x] < 2 {
      assert x in a ==> x in Elements(a);
      assert multiset(a + b)[x] == multiset(a)[x] + multiset(b)[x];
      assert x in multiset(a) <==> x in a;
      assert x in multiset(b) <==> x in b;
    }
  }

  lemma ProgressStep(fs: FileSystem, f: Path, before: set<Path>, seenThen: set<Path>, seenNow: set<Path>,
                     cfgs: seq<ConfigFile>, done: seq<Path>, listed: seq<Path>, child: Path, more: seq<ConfigFile>)
    requires Progress(fs, f, before, seenThen, cfgs, done, listed)
    requires IsPreorder(fs, child, Paths(more)) && !Repeats(Paths(more), seenThen)
    requires seenNow == seenThen + Elements(Paths(more))
    requires forall c :: c in more ==> Loadable(fs, c.sourcePath) && c.includes == fs[c.sourcePath]
    ensures Progress(fs, f, before, seenNow, cfgs + more, done + [child], listed + Paths(more))
  {
    hide ArePreorders, IsPreorder, Repeats, Loadable, Paths;
    var l := Paths(more);
    PreordersGrow(fs, done, listed, child, l);
    NoRepeatsOfAppend([f] + listed, l, before);
    assert [f] + listed + l == [f] + (listed + l);
    PathsAppend(cfgs, more);
    assert Elements([f] + (listed + l)) == Elements([f] + listed) + Elements(l);
    forall c | c in cfgs + more ensures c.sourcePath in fs && c.includes == fs[c.sourcePath] {
      if c in more {
        assert Loadable(fs, c.sourcePath);
        LoadableExists(fs, c.sourcePath);
      }
    }
    forall i | 1 <= i < |cfgs + more| ensures Loadable(fs, (cfgs + more)[i].sourcePath) {
      if i >= |cfgs| {
        assert (cfgs + more)[i] == more[i - |cfgs|];
      }
    }
  }

  lemma LoadableExists(fs: FileSystem, f: Path)
    requires Loadable(fs, f)
    ensures f in fs
  {
  }

  lemma PathsAppend(a: seq<ConfigFile>, b: seq<ConfigFile>)
    ensures Paths(a + b) == Paths(a) + Paths(b)
  {
  }

  lemma PreordersGrow(fs: FileSystem, done: seq<Path>, listed: seq<Path>, child: Path, l: seq<Path>)
    requires ArePreorders(fs, done, listed) && IsPreorder(fs, child, l)
    ensures ArePreorders(fs, done + [child], listed + l)
  {
    hide Unfold, UnfoldAll;
    forall n: nat | n >= |listed + l| ensures UnfoldAll(fs, n, done + [child]) == listed + l {
      UnfoldAllAppends(fs, n, done, [child]);
      UnfoldOne(fs, n, child);
      assert Unfold(fs, n, child) == l;
    }
  }

  lemma UnfoldOne(fs: FileSystem, n: nat, child: Path)
    ensures UnfoldAll(fs, n, [child]) == Unfold(fs, n, child)
  {
    assert [child][1..] == [];
    assert UnfoldAll(fs, n, []) == [];
  }

  lemma PreorderOfParent(fs: FileSystem, f: Path, listed: seq<Path>)
    requires f in fs && ArePreorders(fs, Children(fs[f]), listed)
    ensures IsPreorder(fs, f, [f] + listed)
  {
    forall n: nat | n >= |[f] + listed| ensures Unfold(fs, n, f) == [f] + listed {
      assert UnfoldAll(fs, n - 1, Children(fs[f])) == listed;
    }
  }

  /** A failure below a file explains the failure of that file. */
  lemma FailureSpreads(fs: FileSystem, f: Path, before: set<Path>, listed: seq<Path>, done: seq<Path>, child: Path,
                       rest: seq<Path>, e: LoadError)
    requires f in fs && Children(fs[f]) == done + [child] + rest && ArePreorders(fs, done, listed)
    requires Explains(fs, child, before + Elements([f] + listed), e)
    ensures Explains(fs, f, before, e)
  {
    var seen := before + Elements([f] + listed);
    var n: nat :| if e.CircularInclude? then Repeats(Unfold(fs, n, child), seen)
                  else exists g :: g in Unfold(fs, n, child) && !Loadable(fs, g);
    var m := if n > |listed| then n else |listed|;
    TreeAround(fs, f, listed, done, child, rest, n, m);
    var small, big := Unfold(fs, n, child), Unfold(fs, m + 1, f);
    if e.CircularInclude? {
      var x :| x in small && (x in seen || multiset(small)[x] >= 2);
      SpreadRepeat(f, before, listed, small, big, x);
      assert Repeats(big, before);
    } else {
      var g :| g in small && !Loadable(fs, g);
      assert g in multiset(big);
      assert g in big;
    }
  }

  lemma TreeAround(fs: FileSystem, f: Path, listed: seq<Path>, done: seq<Path>, child: Path, rest: seq<Path>,
                   n: nat, m: nat)
    requires f in fs && Children(fs[f]) == done + [child] + rest && ArePreorders(fs, done, listed)
    requires n <= m && |listed| <= m
    ensures multiset([f] + listed) + multiset(Unfold(fs, n, child)) <= multiset(Unfold(fs, m + 1, f))
  {
    UnfoldGrows(fs, n, m, child);
    UnfoldAllAppends(fs, m, done + [child], rest);
    UnfoldAllAppends(fs, m, done, [child]);
    UnfoldOne(fs, m, child);
    assert Unfold(fs, m + 1, f) == [f] + (listed + Unfold(fs, m, child) + UnfoldAll(fs, m, rest));
  }

  lemma SpreadRepeat(f: Path, before: set<Path>, listed: seq<Path>, small: seq<Path>, big: seq<Path>, x: Path)
    requires multiset([f] + listed) + multiset(small) <= multiset(big)
    requires x in small && (x in before + Elements([f] + listed) || multiset(small)[x] >= 2)
    ensures x in big && (x in before || multiset(big)[x] >= 2)
  {
    assert x in multiset(small);
    assert x in multiset(big);
    if x !in before && multiset(small)[x] < 2 {
      assert x in multiset([f] + listed);
    }
  }

  /** Loading a root file, with nothing seen yet. */
  method Load(fs: FileSystem, root: Path) returns (r: Result<seq<ConfigFile>, LoadError>)
    ensures r.Success? <==>
              (forall f :: Reachable(fs, root, f) ==> Loadable(fs, f)) && !ReachedTwice(fs, root)
    ensures r.Success? ==>
              && IsPreorder(fs, root, Paths(r.value)) && NoDuplicates(Paths(r.value))
              && forall f :: f in Paths(r.value) <==> Reachable(fs, root, f)
    ensures r.Failure? ==>
              if r.error.CircularInclude? then ReachedTwice(fs, root)
              else exists f :: Reachable(fs, root, f) && !Loadable(fs, f)
  {
    var seen := new Seen();
    r := LoadWithIncludes(fs, root, seen);
    if r.Success? {
      SuccessMeans(fs, root, r.value);
    } else {
      FailureMeans(fs, root, r.error);
    }
  }

  lemma FailureMeans(fs: FileSystem, root: Path, e: LoadError)
    requires Explains(fs, root, {}, e)
    ensures if e.CircularInclude? then ReachedTwice(fs, root)
            else exists f :: Reachable(fs, root, f) && !Loadable(fs, f)
  {
    hide Unfold, Loadable;
    var n: nat :| if e.CircularInclude? then Repeats(Unfold(fs, n, root), {})
                  else exists g :: g in Unfold(fs, n, root) && !Loadable(fs, g);
    if e.CircularInclude? {
      var x :| x in Unfold(fs, n, root) && multiset(Unfold(fs, n, root))[x] >= 2;
      var v, w := TwoWalksOf(fs, n, root, x);
    } else {
      var g :| g in Unfold(fs, n, root) && !Loadable(fs, g);
      var w := WalkOf(fs, n, root, g);
      assert Reachable(fs, root, g);
    }
  }

  lemma SuccessMeans(fs: FileSystem, root: Path, cfgs: seq<ConfigFile>)
    requires IsPreorder(fs, root, Paths(cfgs)) && !Repeats(Paths(cfgs), {})
    requires forall c :: c in cfgs ==> Loadable(fs, c.sourcePath)
    ensures NoDuplicates(Paths(cfgs)) && !ReachedTwice(fs, root)
    ensures forall f :: f in Paths(cfgs) <==> Reachable(fs, root, f)
    ensures forall f :: Reachable(fs, root, f) ==> Loadable(fs, f)
  {
    hide Unfold, Loadable;
    var l := Paths(cfgs);
    forall i, j | 0 <= i < j < |l| ensures l[i] != l[j] {
      if l[i] == l[j] {
        RepeatCounts(l, i, j);
      }
    }
    forall v, w | v != w && Follow(fs, root, v).Some? ensures Follow(fs, root, v) != Follow(fs, root, w) {
      if Follow(fs, root, v) == Follow(fs, root, w) {
        var n := |l| + |v| + |w| + 1;
        TwoWalksAreListed(fs, n, root, v, w);
      }
    }
    forall f ensures f in l <==> Reachable(fs, root, f) {
      if f in l {
        var w := WalkOf(fs, |l|, root, f);
      }
      if Reachable(fs, root, f) {
        var w :| Follow(fs, root, w) == Some(f);
        WalkIsListed(fs, |l| + |w| + 1, root, w);
      }
    }
    forall f | Reachable(fs, root, f) ensures Loadable(fs, f) {
      assert f in l;
      var i :| 0 <= i < |l| && l[i] == f;
      assert cfgs[i] in cfgs;
    }
  }

  // ---------- Diamonds ----------

  function Diamond(): FileSystem {
    map["/a" := [Include(false, Some(["/b"])), Include(false, Some(["/c"]))],
        "/b" := [Include(false, Some(["/d"]))],
        "/c" := [Include(false, Some(["/d"]))],
        "/d" := []]
  }

  lemma DiamondChildren()
    ensures var fs := Diamond();
            && Children(fs["/a"]) == ["/b", "/c"] && Children(fs["/b"]) == ["/d"]
            && Children(fs["/c"]) == ["/d"] && Children(fs["/d"]) == []
            && forall f :: f in fs ==> Loadable(fs, f)
  {
    var fs := Diamond();
    assert fs["/a"][1..] == [Include(false, Some(["/c"]))];
    assert Children(fs["/a"][1..]) == ["/c"] + Children([]);
    assert Children(fs["/b"]) == ["/d"] + Children([]);
    assert Children(fs["/c"]) == ["/d"] + Children([]);
  }

  function Height(f: Path): nat {
    if f == "/a" then 2 else if f == "/b" || f == "/c" then 1 else 0
  }

  /** Every step goes down, so no file includes itself, however indirectly. */
  lemma {:induction false} DiamondHasNoCycle(f: Path, walk: seq<nat>)
    requires walk != [] && Follow(Diamond(), f, walk).Some?
    ensures Follow(Diamond(), f, walk) != Some(f) && Height(Follow(Diamond(), f, walk).value) < Height(f)
    ensures Follow(Diamond(), f, walk).value in Diamond()
    decreases |walk|
  {
    hide Children, Follow, Loadable;
    StepDown(f, walk);
    if |walk| > 1 {
      DiamondHasNoCycle(Children(Diamond()[f])[walk[0]], walk[1..]);
    }
  }

  lemma StepDown(f: Path, walk: seq<nat>)
    requires walk != [] && Follow(Diamond(), f, walk).Some?
    ensures f in Diamond() && walk[0] < |Children(Diamond()[f])|
    ensures var child := Children(Diamond()[f])[walk[0]];
            && Height(child) < Height(f) && child in Diamond()
            && Follow(Diamond(), f, walk) == Follow(Diamond(), child, walk[1..])
            && (|walk| == 1 ==> Follow(Diamond(), f, walk) == Some(child))
  {
    hide Children, Loadable;
    DiamondChildren();
    assert f == "/a" || f == "/b" || f == "/c" || f == "/d";
  }

  /** A diamond is refused as a circular include although it has no cycle and every file loads. */
  method DiamondIsRefused() returns (r: Result<seq<ConfigFile>, LoadError>)
    ensures r.Failure? && r.error.CircularInclude?
    ensures forall f, walk :: walk != [] ==> Follow(Diamond(), f, walk) != Some(f)
    ensures forall f :: f in Diamond() ==> Loadable(Diamond(), f)
  {
    hide Children, Follow, Loadable, Diamond;
    r := Load(Diamond(), "/a");
    DiamondChildren();
    DiamondReachedTwice();
    forall f, walk | walk != [] ensures Follow(Diamond(), f, walk) != Some(f) {
      if Follow(Diamond(), f, walk).Some? {
        DiamondHasNoCycle(f, walk);
      }
    }
    forall f | Reachable(Diamond(), "/a", f) ensures Loadable(Diamond(), f) {
      var walk :| Follow(Diamond(), "/a", walk) == Some(f);
      ReachedIsKnown(walk);
    }
  }

  lemma ReachedIsKnown(walk: seq<nat>)
    requires Follow(Diamond(), "/a", walk).Some?
    ensures Follow(Diamond(), "/a", walk).value in Diamond()
  {
    if walk != [] {
      DiamondHasNoCycle("/a", walk);
    }
  }

  lemma DiamondReachedTwice()
    ensures ReachedTwice(Diamond(), "/a")
  {
    hide Children, Loadable;
    DiamondChildren();
    var fs := Diamond();
    assert Follow(fs, "/d", []) == Some("/d");
    assert [0, 0][1..] == [0] && [1, 0][1..] == [0] && [0][1..] == [];
    assert Follow(fs, "/b", [0]) == Some("/d") && Follow(fs, "/c", [0]) == Some("/d");
    assert Follow(fs, "/a", [0, 0]) == Some("/d") && Follow(fs, "/a", [1, 0]) == Some("/d");
    assert [0, 0][0] != [1, 0][0];
  }
}
