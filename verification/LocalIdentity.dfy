/** internal/providers/sourceproviders/localidentity.go: the content identity of a spec directory.

    One line "<relative path>=<file hash>\n" per file, in the order of the full paths. The stream
    depends only on the map from relative path to hash, and determines that map when names are
    free of newlines. */
module LocalIdentity {
  import opened Wrappers
  import opened Strings

  // ---------- The stream ----------

  function Line(rel: string, hash: string): string {
    rel + "=" + hash + "\n"
  }

  function Lines(rels: seq<string>, hashes: map<string, string>): string
    requires forall r :: r in rels ==> r in hashes
  {
    if rels == [] then "" else Line(rels[0], hashes[rels[0]]) + Lines(rels[1..], hashes)
  }

  ghost function IdentityStream(files: map<string, string>): string {
    AscendingProperties(files.Keys);
    Lines(Ascending(files.Keys), files)
  }

  lemma {:induction false} LinesSnoc(rels: seq<string>, last: string, hashes: map<string, string>)
    requires last in hashes && forall r :: r in rels ==> r in hashes
    ensures Lines(rels + [last], hashes) == Lines(rels, hashes) + Line(last, hashes[last])
  {
    if rels == [] {
      assert Lines([last], hashes) == Line(last, hashes[last]) + Lines([], hashes);
    } else {
      assert (rels + [last])[1..] == rels[1..] + [last];
      LinesSnoc(rels[1..], last, hashes);
    }
  }

  // ---------- Sorting full paths sorts relative paths ----------

  function Prefixed(base: string, rels: seq<string>): (paths: seq<string>)
    ensures |paths| == |rels| && forall i :: 0 <= i < |rels| ==> paths[i] == base + rels[i]
  {
    seq(|rels|, i requires 0 <= i < |rels| => base + rels[i])
  }

  lemma PrefixedIsSorted(base: string, rels: seq<string>)
    requires Sorted(rels)
    ensures Sorted(Prefixed(base, rels))
  {
    forall i, j | 0 <= i < j < |rels| ensures !Less(base + rels[j], base + rels[i]) {
      LessUnderPrefix(base, rels[j], rels[i]);
    }
  }

  lemma PrefixedTail(base: string, s: seq<string>)
    requires s != []
    ensures Prefixed(base, s) != [] && Prefixed(base, s)[0] == base + s[0] && Prefixed(base, s)[1..] == Prefixed(base, s[1..])
  {
  }

  lemma PrefixedCons(base: string, x: string, s: seq<string>)
    ensures Prefixed(base, [x] + s) == [base + x] + Prefixed(base, s)
  {
  }

  lemma TailIsSorted(s: seq<string>)
    requires Sorted(s) && s != []
    ensures Sorted(s[1..])
  {
  }

  lemma {:induction false} InsertUnderPrefix(base: string, x: string, s: seq<string>)
    requires Sorted(s) && Sorted(Prefixed(base, s))
    ensures Insert(base + x, Prefixed(base, s)) == Prefixed(base, Insert(x, s))
  {
    hide Prefixed, Less, Sorted;
    if s == [] {
      PrefixedCons(base, x, []);
      assert [x] + [] == [x] && |Prefixed(base, [])| == 0;
    } else {
      LessUnderPrefix(base, s[0], x);
      PrefixedTail(base, s);
      TailIsSorted(s);
      TailIsSorted(Prefixed(base, s));
      if Less(s[0], x) {
        InsertUnderPrefix(base, x, s[1..]);
        PrefixedCons(base, s[0], Insert(x, s[1..]));
      } else {
        PrefixedCons(base, x, s);
      }
    }
  }

  /** Sorting under a common prefix equals sorting without it. */
  lemma {:induction false} SortUnderPrefix(base: string, rels: seq<string>)
    ensures SortStrings(Prefixed(base, rels)) == Prefixed(base, SortStrings(rels))
  {
    if rels != [] {
      assert Prefixed(base, rels)[1..] == Prefixed(base, rels[1..]);
      SortUnderPrefix(base, rels[1..]);
      PrefixedIsSorted(base, SortStrings(rels[1..]));
      InsertUnderPrefix(base, rels[0], SortStrings(rels[1..]));
    }
  }

  // ---------- ResolveLocalSourceIdentity ----------

  /** What a directory walk reports, in its own order; "Unreadable" is a walk error. */
  datatype WalkEntry = Directory(path: string) | File(path: string) | Unreadable

  datatype IdentityError = NoDirectoryGiven | WalkFailed | NoFiles | HashFailed(path: string)

  function FilePaths(walk: seq<WalkEntry>): seq<string> {
    if walk == [] then []
    else FileOf(walk[0]) + FilePaths(walk[1..])
  }

  function FileOf(e: WalkEntry): seq<string> {
    if e.File? then [e.path] else []
  }

  lemma {:induction false} FilePathsSnoc(walk: seq<WalkEntry>, e: WalkEntry)
    ensures FilePaths(walk + [e]) == FilePaths(walk) + FileOf(e)
  {
    hide FileOf;
    if walk == [] {
      assert (walk + [e])[1..] == [];
      assert FilePaths([]) == [] && FilePaths([e]) == FileOf(e) + [];
    } else {
      assert (walk + [e])[1..] == walk[1..] + [e];
      FilePathsSnoc(walk[1..], e);
      assert FileOf(walk[0]) + (FilePaths(walk[1..]) + FileOf(e)) == FileOf(walk[0]) + FilePaths(walk[1..]) + FileOf(e);
    }
  }

  /** "files" maps exactly the relative names below "base" found by the walk to their hashes. */
  ghost predicate Describes(files: map<string, string>, base: string, paths: seq<string>,
                            hashFile: string -> Option<string>) {
    && (forall p :: p in paths ==> base <= p && p[|base|..] in files)
    && (forall r :: r in files ==> base + r in paths && hashFile(base + r) == Some(files[r]))
  }

  /** The walk callback: every non-directory, in walk order; nothing if the walk reports an error. */
  method CollectFiles(walk: seq<WalkEntry>) returns (filePaths: Option<seq<string>>)
    ensures filePaths == if Unreadable in walk then None else Some(FilePaths(walk))
  {
    var found: seq<string> := [];
    for i := 0 to |walk|
      invariant Unreadable !in walk[..i]
      invariant found == FilePaths(walk[..i])
    {
      assert walk[..i + 1] == walk[..i] + [walk[i]];
      FilePathsSnoc(walk[..i], walk[i]);
      if walk[i].Unreadable? {
        return None;
      }
      if walk[i].File? {
        found := found + [walk[i].path];
      }
    }
    assert walk[..|walk|] == walk;
    filePaths := Some(found);
  }

  /** The walk of a file: just that file, whose path relative to itself is ".". */
  ghost predicate DescribesFile(files: map<string, string>, path: string, hashFile: string -> Option<string>) {
    files.Keys == {"."} && hashFile(path) == Some(files["."])
  }

  lemma OneLine(hash: string)
    ensures IdentityStream(map["." := hash]) == "." + "=" + hash + "\n"
  {
    var files := map["." := hash];
    hide Ascending;
    AscendingProperties(files.Keys);
    var ks := Ascending(files.Keys);
    assert |ks| == 1 && ks[0] in ks;
    assert ks == ["."] && ks[1..] == [];
    assert Lines([], files) == "";
  }

  /** "base" is what the walk puts in front of every name below the directory (the cleaned
      directory path and a slash), so the relative path is the rest; a walk visits a path once. */
  method ResolveLocalSourceIdentity(specDir: string, base: string, walk: seq<WalkEntry>,
                                    hashFile: string -> Option<string>, digest: string -> string)
    returns (r: Result<string, IdentityError>, ghost files: map<string, string>)
    requires (Below(base, FilePaths(walk)) && NoDuplicates(FilePaths(walk))) || FilePaths(walk) == [specDir]
    ensures r == Failure(NoDirectoryGiven) <==> specDir == ""
    ensures r == Failure(WalkFailed) <==> specDir != "" && Unreadable in walk
    ensures r == Failure(NoFiles) <==> specDir != "" && Unreadable !in walk && FilePaths(walk) == []
    ensures r.Failure? && r.error.HashFailed? ==> r.error.path in FilePaths(walk) && hashFile(r.error.path).None?
    ensures r.Success? ==>
              && (if FilePaths(walk) == [specDir] then DescribesFile(files, specDir, hashFile)
                  else Describes(files, base, FilePaths(walk), hashFile))
              && r.value == "sha256:" + digest(IdentityStream(files))
  {
    hide FilePaths, SortStrings, Sorted, NoDuplicates, Ascending, Describes, IdentityStream, HashedSoFar;
    files := map[];
    if specDir == "" {
      return Failure(NoDirectoryGiven), files;
    }
    var walked := CollectFiles(walk);
    if walked.None? {
      return Failure(WalkFailed), files;
    }
    var filePaths := walked.value;
    if |filePaths| == 0 {
      return Failure(NoFiles), files;
    }
    if filePaths == [specDir] {
      var hash := hashFile(specDir);
      if hash.None? {
        return Failure(HashFailed(specDir)), files;
      }
      files := map["." := hash.value];
      OneLine(hash.value);
      return Success("sha256:" + digest("." + "=" + hash.value + "\n")), files;
    }
    var sorted := SortStrings(filePaths);
    ghost var rels := SortStrings(Relative(base, filePaths));
    SortRelative(base, filePaths);
    var written := "";
    NothingHashedYet(base, hashFile);
    for i := 0 to |sorted|
      invariant HashedSoFar(files, base, rels[..i], hashFile, written)
    {
      var fileHash := hashFile(sorted[i]);
      if fileHash.None? {
        assert sorted[i] in multiset(filePaths);
        return Failure(HashFailed(sorted[i])), files;
      }
      var rel := sorted[i][|base|..];
      assert rel == rels[i] && rels[..i + 1] == rels[..i] + [rel];
      NotSeenBefore(rels, i);
      HashOneMore(files, base, rels[..i], hashFile, written, rel);
      files := files[rel := fileHash.value];
      written := written + (rel + "=" + fileHash.value + "\n");
    }
    assert rels[..|rels|] == rels;
    DescribedByRelativePaths(files, base, filePaths, rels, hashFile, written);
    r := Success("sha256:" + digest(written));
  }

  /** The loop invariant of the hashing loop. */
  ghost predicate HashedSoFar(files: map<string, string>, base: string, done: seq<string>,
                              hashFile: string -> Option<string>, written: string) {
    && files.Keys == (set r | r in done)
    && (forall r :: r in files ==> hashFile(base + r) == Some(files[r]))
    && written == Lines(done, files)
  }

  lemma NothingHashedYet(base: string, hashFile: string -> Option<string>)
    ensures HashedSoFar(map[], base, [], hashFile, "")
  {
  }

  lemma HashOneMore(files: map<string, string>, base: string, done: seq<string>,
                    hashFile: string -> Option<string>, written: string, rel: string)
    requires HashedSoFar(files, base, done, hashFile, written)
    requires rel !in done && hashFile(base + rel).Some?
    ensures var hash := hashFile(base + rel).value;
            HashedSoFar(files[rel := hash], base, done + [rel], hashFile, written + (rel + "=" + hash + "\n"))
  {
    var hash := hashFile(base + rel).value;
    LinesIgnoreOtherKeys(done, files, files[rel := hash]);
    LinesSnoc(done, rel, files[rel := hash]);
  }

  lemma DescribedByRelativePaths(files: map<string, string>, base: string, paths: seq<string>, rels: seq<string>,
                                 hashFile: string -> Option<string>, written: string)
    requires HashedSoFar(files, base, rels, hashFile, written)
    requires Sorted(rels) && NoDuplicates(rels)
    requires forall p :: p in paths <==> base <= p && p[|base|..] in rels
    ensures Describes(files, base, paths, hashFile) && written == IdentityStream(files)
  {
    hide Ascending, Lines, Sorted, NoDuplicates;
    RelativePathsAreAscending(files, rels);
    forall r | r in files ensures base + r in paths {
      assert (base + r)[|base|..] == r;
    }
  }

  ghost predicate Below(base: string, paths: seq<string>) {
    forall i :: 0 <= i < |paths| ==> base <= paths[i]
  }

  /** filepath.Rel on each path. */
  function Relative(base: string, paths: seq<string>): (rels: seq<string>)
    requires Below(base, paths)
    ensures |rels| == |paths| && forall i :: 0 <= i < |paths| ==> base + rels[i] == paths[i]
  {
    seq(|paths|, i requires 0 <= i < |paths| => paths[i][|base|..])
  }

  lemma NotSeenBefore<T>(s: seq<T>, i: nat)
    requires NoDuplicates(s) && i < |s|
    ensures s[i] !in s[..i]
  {
  }

  lemma SortRelative(base: string, paths: seq<string>)
    requires Below(base, paths) && NoDuplicates(paths)
    ensures var rels := SortStrings(Relative(base, paths));
            && SortStrings(paths) == Prefixed(base, rels)
            && Sorted(rels) && NoDuplicates(rels)
            && forall p :: p in paths <==> base <= p && p[|base|..] in rels
  {
    hide SortStrings, Sorted, Relative;
    var cut := Relative(base, paths);
    assert Prefixed(base, cut) == paths;
    SortUnderPrefix(base, cut);
    RelativeIsDistinct(base, paths);
    PermutationKeepsDistinct(cut, SortStrings(cut));
    forall p ensures p in paths <==> base <= p && p[|base|..] in SortStrings(cut) {
      if base <= p {
        var r := p[|base|..];
        assert r in SortStrings(cut) <==> r in multiset(cut);
        assert base + r == p;
        if p in paths {
          var i :| 0 <= i < |paths| && paths[i] == p;
          assert (base + cut[i])[|base|..] == cut[i];
        }
      }
    }
  }

  lemma RelativeIsDistinct(base: string, paths: seq<string>)
    requires Below(base, paths) && NoDuplicates(paths)
    ensures NoDuplicates(Relative(base, paths))
  {
    var cut := Relative(base, paths);
    forall i, j | 0 <= i < j < |cut| ensures cut[i] != cut[j] {
      assert base + cut[i] != base + cut[j];
    }
  }

  lemma {:induction false} LinesIgnoreOtherKeys(rels: seq<string>, m: map<string, string>, n: map<string, string>)
    requires forall r :: r in rels ==> r in m && r in n && m[r] == n[r]
    ensures Lines(rels, m) == Lines(rels, n)
  {
    if rels != [] {
      LinesIgnoreOtherKeys(rels[1..], m, n);
    }
  }

  lemma RelativePathsAreAscending(files: map<string, string>, rels: seq<string>)
    requires Sorted(rels) && NoDuplicates(rels) && files.Keys == set r | r in rels
    ensures rels == Ascending(files.Keys)
  {
    forall x ensures multiset(rels)[x] == multiset(files.Keys)[x] {
      DistinctCountsOnce(rels, x);
    }
    SortedIsUnique(rels, Ascending(files.Keys));
  }

  /** Neither the order of the walk nor where the tree is checked out matters: two walks whose
      files agree by relative path and content hash describe one map, hence one stream. */
  lemma IndependentOfOrderAndPlace(f: map<string, string>, baseF: string, pathsF: seq<string>, hashF: string -> Option<string>,
                                   g: map<string, string>, baseG: string, pathsG: seq<string>, hashG: string -> Option<string>)
    requires Describes(f, baseF, pathsF, hashF) && Describes(g, baseG, pathsG, hashG)
    requires forall r :: baseF + r in pathsF <==> baseG + r in pathsG
    requires forall r :: baseF + r in pathsF ==> hashF(baseF + r) == hashG(baseG + r)
    ensures f == g && IdentityStream(f) == IdentityStream(g)
  {
    forall r ensures (r in f <==> r in g) && (r in f && r in g ==> f[r] == g[r]) {
      assert (baseF + r)[|baseF|..] == r && (baseG + r)[|baseG|..] == r;
      assert r in f <==> baseF + r in pathsF;
      assert r in g <==> baseG + r in pathsG;
    }
    assert f.Keys == g.Keys;
  }

  // ---------- Injectivity ----------

  predicate NewlineFree(s: string) {
    '\n' !in s
  }

  ghost predicate WellFormed(files: map<string, string>, width: nat) {
    forall r :: r in files ==> NewlineFree(r) && NewlineFree(files[r]) && |files[r]| == width
  }

  /** Reads one line back: the hash is its last "width" bytes, the name what precedes the '='. */
  function ReadLine(s: string, width: nat): (r: Option<(string, string, string)>)
    ensures r.Some? ==> |r.value.2| < |s|
  {
    var end := FirstNewline(s);
    if end == |s| || end < width + 1 then None
    else Some((s[..end - width - 1], s[end - width..end], s[end + 1..]))
  }

  function ReadLines(s: string, width: nat): Option<seq<(string, string)>>
    decreases |s|
  {
    if s == "" then Some([])
    else
      match ReadLine(s, width)
      case None => None
      case Some((rel, hash, rest)) =>
        match ReadLines(rest, width)
        case None => None
        case Some(more) => Some([(rel, hash)] + more)
  }

  lemma ReadLineOfLine(rel: string, hash: string, rest: string)
    requires NewlineFree(rel) && NewlineFree(hash)
    ensures ReadLine(Line(rel, hash) + rest, |hash|) == Some((rel, hash, rest))
  {
    hide FirstNewline;
    var body := rel + "=" + hash;
    var s := body + "\n" + rest;
    assert Line(rel, hash) + rest == s;
    FirstNewlineAt(body, rest);
    assert |s| == |body| + 1 + |rest|;
    assert s[..|rel|] == rel;
    assert s[|body| - |hash|..|body|] == hash;
    assert s[|body| + 1..] == rest;
  }

  function Pairs(rels: seq<string>, files: map<string, string>): (pairs: seq<(string, string)>)
    requires forall r :: r in rels ==> r in files
    ensures |pairs| == |rels| && forall i :: 0 <= i < |rels| ==> pairs[i] == (rels[i], files[rels[i]])
  {
    seq(|rels|, i requires 0 <= i < |rels| => (rels[i], files[rels[i]]))
  }

  lemma {:induction false} ReadLinesOfLines(rels: seq<string>, files: map<string, string>, width: nat)
    requires WellFormed(files, width) && forall r :: r in rels ==> r in files
    ensures ReadLines(Lines(rels, files), width) == Some(Pairs(rels, files))
  {
    hide Line, ReadLine;
    if rels != [] {
      var rel, tail := rels[0], Lines(rels[1..], files);
      var s := Line(rel, files[rel]) + tail;
      ReadLineOfLine(rel, files[rel], tail);
      ReadLinesOfLines(rels[1..], files, width);
      assert Lines(rels, files) == s && s != "";
      assert [(rel, files[rel])] + Pairs(rels[1..], files) == Pairs(rels, files);
    }
  }

  /** The stream determines the map from name to hash, for newline-free names (which may contain
      '=') and newline-free hashes of one width. */
  lemma IdentityStreamIsInjective(m: map<string, string>, n: map<string, string>, width: nat)
    requires WellFormed(m, width) && WellFormed(n, width)
    requires IdentityStream(m) == IdentityStream(n)
    ensures m == n
  {
    hide Lines, ReadLines, Ascending, Sorted, StrictlySorted, NoDuplicates, Pairs;
    AscendingProperties(m.Keys);
    AscendingProperties(n.Keys);
    var ks, ls := Ascending(m.Keys), Ascending(n.Keys);
    ReadLinesOfLines(ks, m, width);
    ReadLinesOfLines(ls, n, width);
    var pairs := Pairs(ks, m);
    assert pairs == Pairs(ls, n);
    forall i | 0 <= i < |ks| ensures ks[i] == ls[i] && m[ks[i]] == n[ks[i]] {
      assert pairs[i] == (ks[i], m[ks[i]]) == (ls[i], n[ls[i]]);
    }
    assert ks == ls;
    assert m.Keys == n.Keys;
  }

  /** The newline condition cannot be dropped: every directory of two or more files has the same
      stream as some directory holding a single file, whose name contains a newline. */
  lemma EveryTreeCollidesWithOneFile(m: map<string, string>) returns (name: string, hash: string)
    requires |m| >= 2
    ensures '\n' in name
    ensures map[name := hash] != m && IdentityStream(map[name := hash]) == IdentityStream(m)
  {
    hide Ascending, Sorted, StrictlySorted, NoDuplicates, Lines, Line;
    AscendingProperties(m.Keys);
    var ks := Ascending(m.Keys);
    var front, last := ks[..|ks| - 1], ks[|ks| - 1];
    assert ks == front + [last];
    LinesSnoc(front, last, m);
    name, hash := Lines(front, m) + last, m[last];
    LinesHaveNewlines(front, m);
    LineAbsorbs(Lines(front, m), last, hash);
    OneFileStream(name, hash);
    assert |map[name := hash]| == 1;
  }

  lemma LineAbsorbs(before: string, rel: string, hash: string)
    ensures before + Line(rel, hash) == Line(before + rel, hash)
  {
    assert before + (rel + "=" + hash + "\n") == (before + rel) + "=" + hash + "\n";
  }

  lemma LinesHaveNewlines(rels: seq<string>, m: map<string, string>)
    requires rels != [] && forall r :: r in rels ==> r in m
    ensures '\n' in Lines(rels, m)
  {
    var line := Line(rels[0], m[rels[0]]);
    assert line[|line| - 1] == '\n';
    assert '\n' in line;
  }

  lemma OneFileStream(name: string, hash: string)
    ensures IdentityStream(map[name := hash]) == Line(name, hash)
  {
    var one := map[name := hash];
    AscendingProperties(one.Keys);
    var ks := Ascending(one.Keys);
    assert |ks| == 1 && ks[0] in ks;
    assert ks == [name];
    assert Lines([name], one) == Line(name, hash) + Lines([], one);
  }
}
