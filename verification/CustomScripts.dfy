/** internal/projectconfig/component.go: where the generation scripts of custom source files are looked for.

    A local component's scripts lie beside its spec, wherever the entry that names them was declared.
    Loading puts them there, and inheritance does so again for entries that come from defaults. */
module CustomScripts {
  import opened Wrappers
  import opened Strings
  import opened Paths
  import opened ComponentMerge
  import Fingerprint

  /** Merging these fields cannot fail. */
  type NoError = ()

  datatype SourceFile = SourceFile(filename: string, custom: bool, script: string)

  /** The fields of a component that matter for its scripts. */
  datatype Sources = Sources(sourceType: string, specPath: string, sourceFiles: seq<SourceFile>)

  /** filepath.Dir and filepath.Join. */
  datatype PathRules = PathRules(dir: string -> string, join: (string, string) -> string)

  predicate IsName(name: string) {
    name != "" && name != "." && name != ".." && '/' !in name
  }

  /** Joining a directory and a name gives a path to something of that name. */
  ghost predicate JoinsNames(paths: PathRules) {
    forall dir, name :: IsName(name) ==> Names(paths.join(dir, name), name)
  }

  predicate IsLocal(c: Sources) {
    c.sourceType == "local" && c.specPath != ""
  }

  /** The script of a file, as a local component with its spec in "dir" wants it. */
  function ScriptIn(dir: string, f: SourceFile, paths: PathRules): SourceFile {
    if f.custom && f.script != "" then f.(script := paths.join(dir, Fingerprint.EffectiveScriptName(f.script))) else f
  }

  function LocalScripts(c: Sources, paths: PathRules): (r: Sources)
    ensures |r.sourceFiles| == |c.sourceFiles|
  {
    if !IsLocal(c) then c
    else
      c.(sourceFiles := seq(|c.sourceFiles|, i requires 0 <= i < |c.sourceFiles| =>
        ScriptIn(paths.dir(c.specPath), c.sourceFiles[i], paths)))
  }

  method ResolveLocalCustomScriptPaths(c: Sources, paths: PathRules) returns (r: Sources)
    ensures r == LocalScripts(c, paths)
  {
    if c.sourceType != "local" || c.specPath == "" {
      return c;
    }
    var scriptDir := paths.dir(c.specPath);
    var files := c.sourceFiles;
    for i := 0 to |files|
      invariant |files| == |c.sourceFiles|
      invariant forall j :: 0 <= j < |files| ==>
        files[j] == if j < i then LocalScripts(c, paths).sourceFiles[j] else c.sourceFiles[j]
    {
      if files[i].custom && files[i].script != "" {
        files := files[i := files[i].(script := paths.join(scriptDir, Fingerprint.EffectiveScriptName(files[i].script)))];
      }
    }
    r := c.(sourceFiles := files);
    assert r.sourceFiles == LocalScripts(c, paths).sourceFiles;
  }

  /** Files whose scripts, if any, have a name. */
  ghost predicate NamedScripts(files: seq<SourceFile>) {
    forall i :: 0 <= i < |files| && files[i].custom && files[i].script != "" ==>
      exists name :: IsName(name) && Names(files[i].script, name)
  }

  /** A script keeps its name, and with it what the fingerprint sees of it. */
  lemma ScriptKeepsName(dir: string, f: SourceFile, paths: PathRules, name: string)
    requires JoinsNames(paths) && f.custom && IsName(name) && Names(f.script, name)
    ensures f.script != "" && ScriptIn(dir, f, paths).script == paths.join(dir, name)
    ensures Fingerprint.EffectiveScriptName(ScriptIn(dir, f, paths).script) == Fingerprint.EffectiveScriptName(f.script) == name
  {
    hide Fingerprint.EffectiveScriptName;
    var none := Fingerprint.Overlay("", "");
    Fingerprint.EffectiveNames(f.script, none, name);
    Fingerprint.EffectiveNames(paths.join(dir, name), none, name);
  }

  /** Doing it twice, once when loading and once after inheritance, is doing it once. */
  lemma LocalScriptsTwice(c: Sources, paths: PathRules)
    requires JoinsNames(paths) && NamedScripts(c.sourceFiles)
    ensures LocalScripts(LocalScripts(c, paths), paths) == LocalScripts(c, paths)
    ensures forall i :: 0 <= i < |c.sourceFiles| ==>
              Fingerprint.EffectiveScriptName(LocalScripts(c, paths).sourceFiles[i].script)
              == Fingerprint.EffectiveScriptName(c.sourceFiles[i].script)
  {
    hide Names, IsName;
    hide Fingerprint.EffectiveScriptName;
    var once := LocalScripts(c, paths);
    forall i | 0 <= i < |c.sourceFiles|
      ensures LocalScripts(once, paths).sourceFiles[i] == once.sourceFiles[i]
      ensures Fingerprint.EffectiveScriptName(once.sourceFiles[i].script)
           == Fingerprint.EffectiveScriptName(c.sourceFiles[i].script)
    {
      var dir, f := paths.dir(c.specPath), c.sourceFiles[i];
      if IsLocal(c) && f.custom && f.script != "" {
        var name :| IsName(name) && Names(f.script, name);
        ScriptKeepsName(dir, f, paths, name);
        ScriptKeepsName(dir, ScriptIn(dir, f, paths), paths, name);
      }
    }
    assert LocalScripts(once, paths).sourceFiles == once.sourceFiles;
  }

  // ---------- After inheritance ----------

  /** ComponentConfig.MergeUpdatesFrom on these fields: non-empty values override, lists are appended. */
  function MergeSources(c: Sources, other: Sources): Result<Sources, NoError> {
    Success(Sources(if other.sourceType != "" then other.sourceType else c.sourceType,
                    if other.specPath != "" then other.specPath else c.specPath,
                    c.sourceFiles + other.sourceFiles))
  }

  lemma MergeSourcesIsAMonoid(a: Sources, b: Sources, c: Sources)
    ensures var none := Sources("", "", []); MergeSources(a, none) == MergeSources(none, a) == Success(a)
    ensures MergeSources(MergeSources(a, b).value, c) == MergeSources(a, MergeSources(b, c).value)
  {
    assert a.sourceFiles + [] == [] + a.sourceFiles == a.sourceFiles;
    assert (a.sourceFiles + b.sourceFiles) + c.sourceFiles == a.sourceFiles + (b.sourceFiles + c.sourceFiles);
  }

  /** The source files several groups give, in order. */
  ghost function GroupFiles(groups: map<string, Group<Sources>>, names: seq<string>): seq<SourceFile> {
    if names == [] then []
    else (if names[0] in groups then groups[names[0]].defaults.sourceFiles else []) + GroupFiles(groups, names[1..])
  }

  lemma {:induction false} GroupsAppend(base: Sources, groups: map<string, Group<Sources>>, names: seq<string>)
    requires forall g :: g in names ==> g in groups
    ensures var r := ApplyGroups(base, groups, names, MergeSources);
            r.Success? && r.value.sourceFiles == base.sourceFiles + GroupFiles(groups, names)
    decreases |names|
  {
    if names != [] {
      GroupsAppend(MergeSources(base, groups[names[0]].defaults).value, groups, names[1..]);
    }
  }

  ghost function InheritedFiles(projectDefaults: Sources, distroDefaults: Sources, groups: map<string, Group<Sources>>,
                                membership: seq<string>): seq<SourceFile>
  {
    distroDefaults.sourceFiles + projectDefaults.sourceFiles + GroupFiles(groups, SortStrings(membership))
  }

  /** The resolved component has the inherited source files, layer by layer, in front of its own. If it is
      local and has a spec, every named custom script among them is sought beside that spec, wherever its
      entry was declared; otherwise all scripts stay where they are. */
  method ResolveSources(comp: Sources, projectDefaults: Sources, distroDefaults: Sources, groups: map<string, Group<Sources>>,
                        membership: seq<string>, paths: PathRules)
    returns (r: Result<Sources, ResolveError<NoError>>)
    requires JoinsNames(paths) && forall g :: g in membership ==> g in groups
    ensures r.Success?
    ensures comp.sourceType != "" ==> r.value.sourceType == comp.sourceType
    ensures comp.specPath != "" ==> r.value.specPath == comp.specPath
    ensures var files := InheritedFiles(projectDefaults, distroDefaults, groups, membership) + comp.sourceFiles;
            && |r.value.sourceFiles| == |files|
            && (forall i :: 0 <= i < |files| ==> r.value.sourceFiles[i].filename == files[i].filename)
            && (!IsLocal(r.value) ==> r.value.sourceFiles == files)
            && (forall i :: 0 <= i < |files| && (!files[i].custom || files[i].script == "") ==>
                  r.value.sourceFiles[i] == files[i])
            && (forall i, name :: 0 <= i < |files| && files[i].custom && IsName(name) && Names(files[i].script, name)
                                  && IsLocal(r.value) ==>
                  r.value.sourceFiles[i].script == paths.join(paths.dir(r.value.specPath), name))
  {
    hide SortStrings, ApplyGroups, GroupFiles, Names, IsName, JoinsNames;
    hide Fingerprint.EffectiveScriptName;
    var names := SortStrings(membership);
    forall g | g in names ensures g in groups {
      assert g in multiset(names);
    }
    var base := MergeSources(distroDefaults, projectDefaults).value;
    GroupsAppend(base, groups, names);
    ghost var grouped := ApplyGroups(base, groups, names, MergeSources).value;
    ghost var merged := MergeSources(grouped, comp).value;
    ghost var files := InheritedFiles(projectDefaults, distroDefaults, groups, membership) + comp.sourceFiles;
    assert merged.sourceFiles == files;
    r := ResolveComponentConfig(comp, projectDefaults, distroDefaults, groups, membership, MergeSources,
                                c => LocalScripts(c, paths));
    assert r == Success(LocalScripts(merged, paths));
    forall i, name | 0 <= i < |files| && files[i].custom && IsName(name) && Names(files[i].script, name) && IsLocal(r.value)
      ensures r.value.sourceFiles[i].script == paths.join(paths.dir(r.value.specPath), name)
    {
      ScriptKeepsName(paths.dir(merged.specPath), files[i], paths, name);
    }
  }
}
