/** path/filepath and strings.Split on slash-separated paths. */
module Paths {
  import opened Strings

  /** strings.Split(path, "/"): slash-free segments which, joined again, are the path. */
  function Segments(path: string): (segments: seq<string>)
    ensures segments != [] && forall s :: s in segments ==> '/' !in s
    ensures Join(segments, "/") == path
  {
    if path == "" then [""]
    else
      var rest := Segments(path[1..]);
      assert path == [path[0]] + path[1..];
      if path[0] == '/' then
        assert ([""] + rest)[1..] == rest;
        [""] + rest
      else
        assert ([[path[0]] + rest[0]] + rest[1..])[1..] == rest[1..];
        JoinLonger(path[0], rest);
        [[path[0]] + rest[0]] + rest[1..]
  }

  lemma JoinLonger(c: char, segments: seq<string>)
    requires segments != []
    ensures Join([[c] + segments[0]] + segments[1..], "/") == [c] + Join(segments, "/")
  {
    var longer := [[c] + segments[0]] + segments[1..];
    assert longer[1..] == segments[1..];
    if |segments| > 1 {
      assert [c] + segments[0] + "/" + Join(segments[1..], "/") == [c] + (segments[0] + "/" + Join(segments[1..], "/"));
    }
  }

  function AfterLastSlash(path: string): (rest: string)
    ensures '/' !in rest && HasSuffix(path, rest)
    ensures |rest| < |path| ==> path[|path| - |rest| - 1] == '/'
  {
    if path == "" || path[|path| - 1] == '/' then ""
    else AfterLastSlash(path[..|path| - 1]) + [path[|path| - 1]]
  }

  /** filepath.Base. */
  function BaseName(path: string): string {
    if path == "" then "."
    else
      var p := TrimSlashes(path);
      if p == "" then "/" else AfterLastSlash(p)
  }

  /** A path to a file or directory of this name: the name itself, or the name in some directory. */
  predicate Names(path: string, name: string) {
    && name != "" && '/' !in name
    && (path == name || HasSuffix(path, "/" + name))
  }

  lemma InDirectory(dir: string, name: string)
    requires name != "" && '/' !in name
    ensures Names(dir + "/" + name, name) && Names(name, name)
  {
    assert (dir + "/" + name)[|dir|..] == "/" + name;
  }

  /** The base name is the last segment that is not empty. */
  lemma BaseNameIs(path: string, name: string, slashes: string)
    requires Names(path, name) && forall i :: 0 <= i < |slashes| ==> slashes[i] == '/'
    ensures BaseName(path + slashes) == name
  {
    var full := path + slashes;
    assert path[|path| - |name|..] == name;
    assert full[|path| - 1] == name[|name| - 1] != '/';
    var p := TrimSlashes(full);
    TrimmedAt(full, |path|);
    assert p == path;
    SameLastSegment(path, AfterLastSlash(path), name);
  }

  lemma TrimmedAt(s: string, n: nat)
    requires 0 < n <= |s| && s[n - 1] != '/' && forall i :: n <= i < |s| ==> s[i] == '/'
    ensures TrimSlashes(s) == s[..n]
  {
    var p := TrimSlashes(s);
    assert p == s[..|p|];
    assert |p| <= n ==> |p| == n;
    assert p != "" ==> s[|p| - 1] != '/';
  }

  lemma SameLastSegment(path: string, a: string, b: string)
    requires '/' !in a && '/' !in b && HasSuffix(path, a) && HasSuffix(path, b)
    requires |a| < |path| ==> path[|path| - |a| - 1] == '/'
    requires |b| < |path| ==> path[|path| - |b| - 1] == '/'
    ensures a == b
  {
    if |a| < |b| {
      NoSlashInside(path, b, |path| - |a| - 1);
    } else if |b| < |a| {
      NoSlashInside(path, a, |path| - |b| - 1);
    }
  }

  lemma NoSlashInside(path: string, segment: string, k: int)
    requires '/' !in segment && HasSuffix(path, segment) && |path| - |segment| <= k < |path| && 0 <= k
    ensures path[k] != '/'
  {
    assert path[k] == segment[k - (|path| - |segment|)];
  }

  lemma NoBaseName(slashes: string)
    requires forall i :: 0 <= i < |slashes| ==> slashes[i] == '/'
    ensures BaseName(slashes) == if slashes == "" then "." else "/"
  {
    PrefixOfSlashes(TrimSlashes(slashes), slashes);
  }

  lemma PrefixOfSlashes(p: string, slashes: string)
    requires p <= slashes && forall i :: 0 <= i < |slashes| ==> slashes[i] == '/'
    ensures forall i :: 0 <= i < |p| ==> p[i] == '/'
  {
    assert forall i :: 0 <= i < |p| ==> p[i] == slashes[i];
  }

  /** Only a name is its own base name, apart from the path of one slash. */
  lemma BaseNameHasNoSlash(path: string)
    ensures BaseName(path) != "" && ('/' !in BaseName(path) || BaseName(path) == "/")
    ensures path != "" && '/' !in path ==> BaseName(path) == path
  {
    if path != "" && '/' !in path {
      assert path + "" == path;
      BaseNameIs(path, path, "");
    }
  }
}
