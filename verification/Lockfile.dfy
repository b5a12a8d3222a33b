/** internal/lockfile/lockfile.go: lock files, their names and the directory they live in. */
module Lockfile {
  import opened Wrappers
  import opened Strings
  import opened FileUtils

  const CURRENT_VERSION := 1
  const LOCK_FILE_EXTENSION := ".lock"

  datatype LockData = LockData(
    version: int,
    importCommit: string,
    upstreamCommit: string,
    manualBump: int,
    inputFingerprint: string,
    resolutionInputHash: string)

  /** A lock as callers hold it: an object they may change. */
  class ComponentLock {
    var fields: LockData

    constructor (fields: LockData)
      ensures this.fields == fields
    {
      this.fields := fields;
    }
  }

  function NewLock(): LockData {
    LockData(CURRENT_VERSION, "", "", 0, "", "")
  }

  datatype LockError =
    | InvalidName
    | NotFound
    | Unparsable
    | UnsupportedVersion(version: int)
    | NilLock
    | IOFault
    | PruneFailed(count: nat)

  /** What a file holds: TOML that decodes to a lock, or bytes that do not decode. */
  datatype Content = Toml(lock: LockData) | Garbage(bytes: string)

  datatype Entry = File(content: Content) | Directory

  function Parse(content: Content): Result<LockData, LockError> {
    if content.Garbage? then Failure(Unparsable)
    else if content.lock.version != CURRENT_VERSION then Failure(UnsupportedVersion(content.lock.version))
    else Success(content.lock)
  }

  /** LockPath, relative to the lock directory. */
  function LockPath(componentName: string): Result<string, LockError> {
    if ValidFilename(componentName) then Success(componentName + LOCK_FILE_EXTENSION) else Failure(InvalidName)
  }

  /** One more fault, if that is what came of accessing a path. */
  ghost function Faulted<T>(faults: seq<string>, path: string, r: Result<T, LockError>): seq<string> {
    if r.Failure? && r.error.IOFault? then faults + [path] else faults
  }

  /** The lock directory on disk. A call may fail for outside reasons (IOFault); then it has changed
      nothing, except that a failed write may leave its own file cut short. */
  class LockDirectory {
    var present: bool
    var entries: map<string, Entry>
    /** The paths whose access met a fault, in order; "." is the directory itself. */
    ghost var faults: seq<string>

    constructor (entries: map<string, Entry>)
      ensures Valid() && this.entries == entries
    {
      this.present, this.entries, this.faults := true, entries, [];
    }

    ghost predicate Valid()
      reads this
    {
      !present ==> entries == map[]
    }

    method ReadFile(path: string) returns (r: Result<Content, LockError>)
      modifies this`faults
      ensures faults == Faulted(old(faults), path, r)
      ensures r.Success? ==> path in entries && entries[path] == File(r.value)
      ensures r.Failure? ==> r.error.IOFault? || (r.error.NotFound? && (path in entries ==> entries[path].Directory?))
    {
      if * {
        faults := faults + [path];
        return Failure(IOFault);
      }
      if path in entries && entries[path].File? {
        r := Success(entries[path].content);
      } else {
        r := Failure(NotFound);
      }
    }

    /** MkdirAll and WriteFile. */
    method WriteFile(path: string, content: Content) returns (r: Result<(), LockError>)
      requires Valid()
      modifies this
      ensures Valid() && faults == Faulted(old(faults), path, r)
      ensures r.Success? ==> entries == old(entries)[path := File(content)] && (path in old(entries) ==> old(entries)[path].File?)
      ensures r.Failure? ==> r.error.IOFault? && entries - {path} == old(entries) - {path}
      ensures r.Failure? && entries != old(entries) ==> path in entries && entries[path].File?
    {
      if path in entries && entries[path].Directory? {
        faults := faults + [path];
        return Failure(IOFault);
      }
      present := true;
      if * {
        if * {
          var left: Content := *;
          entries := entries[path := File(left)];
        }
        faults := faults + [path];
        return Failure(IOFault);
      }
      entries := entries[path := File(content)];
      r := Success(());
    }

    method FileExists(path: string) returns (r: Result<bool, LockError>)
      modifies this`faults
      ensures faults == Faulted(old(faults), path, r)
      ensures r == Failure(IOFault) || r == Success(path in entries)
    {
      if * {
        faults := faults + [path];
        return Failure(IOFault);
      }
      r := Success(path in entries);
    }

    /** Removes a file, or a directory if the system agrees; a missing path is an error. */
    method Remove(path: string) returns (r: Result<(), LockError>)
      requires Valid()
      modifies this
      ensures Valid()
      ensures r.Success? ==> path in old(entries) && entries == old(entries) - {path}
      ensures r.Failure? ==> entries == old(entries)
      ensures r.Failure? ==> r.error.IOFault? || (r.error.NotFound? && path !in entries)
      ensures faults == Faulted(old(faults), path, r)
    {
      if * {
        faults := faults + [path];
        return Failure(IOFault);
      }
      if path !in entries {
        return Failure(NotFound);
      }
      entries := entries - {path};
      r := Success(());
    }

    /** The names in the directory, each once, in no particular order. */
    method ReadDir() returns (r: Result<seq<string>, LockError>)
      requires Valid()
      modifies this`faults
      ensures faults == Faulted(old(faults), ".", r)
      ensures r.Success? ==> multiset(r.value) == multiset(entries.Keys)
      ensures r.Failure? ==> r.error.IOFault? || (r.error.NotFound? && !present)
    {
      if * {
        faults := faults + ["."];
        return Failure(IOFault);
      }
      if !present {
        return Failure(NotFound);
      }
      var names := CollectKeys(entries.Keys);
      r := Success(names);
    }

    method DirExists() returns (r: Result<bool, LockError>)
      modifies this`faults
      ensures faults == Faulted(old(faults), ".", r)
      ensures r == Failure(IOFault) || r == Success(present)
    {
      if * {
        faults := faults + ["."];
        return Failure(IOFault);
      }
      r := Success(present);
    }
  }

  // ---------- Orphans ----------

  /** A directory entry that is a lock file by name. */
  predicate IsLockFile(entryName: string, e: Entry) {
    e.File? && HasSuffix(entryName, LOCK_FILE_EXTENSION) && !HasPrefix(entryName, ".")
  }

  function TrimExtension(entryName: string): string
    requires HasSuffix(entryName, LOCK_FILE_EXTENSION)
  {
    entryName[..|entryName| - |LOCK_FILE_EXTENSION|]
  }

  lemma TrimThenAppend(entryName: string)
    requires HasSuffix(entryName, LOCK_FILE_EXTENSION)
    ensures TrimExtension(entryName) + LOCK_FILE_EXTENSION == entryName
  {
  }

  /** The names with a lock file but no component. */
  ghost function Orphans(entries: map<string, Entry>, components: set<string>): (names: set<string>)
    ensures forall n :: n in names <==>
              && n + ".lock" in entries && entries[n + ".lock"].File?
              && n != "" && n[0] != '.' && n !in components
  {
    assert forall n: string :: (n + ".lock")[0] == if n == "" then '.' else n[0];
    var names := set e | e in entries && IsLockFile(e, entries[e]) && TrimExtension(e) !in components :: TrimExtension(e);
    assert forall n :: n + LOCK_FILE_EXTENSION in entries && IsLockFile(n + LOCK_FILE_EXTENSION, entries[n + LOCK_FILE_EXTENSION]) ==>
                         TrimExtension(n + LOCK_FILE_EXTENSION) == n;
    assert forall e :: e in entries && IsLockFile(e, entries[e]) ==> TrimExtension(e) + LOCK_FILE_EXTENSION == e;
    names
  }

  /** The orphans in increasing order, whatever order the directory is listed in. Only a fault makes it fail,
      and a missing directory has none. */
  method FindOrphanLockFiles(dir: LockDirectory, components: set<string>) returns (r: Result<seq<string>, LockError>)
    requires dir.Valid()
    modifies dir`faults
    ensures old(dir.faults) <= dir.faults
    ensures r.Failure? ==> r.error.IOFault? && dir.faults != old(dir.faults)
    ensures r.Success? && dir.present ==> dir.faults == old(dir.faults)
    ensures r.Success? ==> r.value == Ascending(Orphans(dir.entries, components))
  {
    hide Ascending, SortStrings, Orphans;
    var listing := dir.ReadDir();
    if listing.Failure? {
      var found := dir.DirExists();
      if found.Failure? {
        return Failure(IOFault);
      }
      if !found.value {
        NoFileNoOrphan(dir.entries, components);
        AscendingProperties({});
        return Success([]);
      }
      return Failure(IOFault);
    }
    var names := listing.value;
    MultisetSetNoDuplicates(dir.entries.Keys, names);
    assert forall n :: n in names <==> n in multiset(names);
    var orphans: seq<string> := [];
    for i := 0 to |names|
      invariant NoDuplicates(orphans) && dir.faults == old(dir.faults)
      invariant forall n :: n in orphans <==> n in Orphans(dir.entries, components) && n + LOCK_FILE_EXTENSION in names[..i]
    {
      var entryName := names[i];
      assert entryName in names;
      if IsLockFile(entryName, dir.entries[entryName]) {
        var componentName := TrimExtension(entryName);
        TrimThenAppend(entryName);
        if componentName !in components {
          assert entryName !in names[..i];
          orphans := orphans + [componentName];
        }
      }
    }
    assert names[..|names|] == names;
    SortOfDistinct(orphans, Orphans(dir.entries, components));
    r := Success(SortStrings(orphans));
  }

  lemma NoFileNoOrphan(entries: map<string, Entry>, components: set<string>)
    ensures entries == map[] ==> Orphans(entries, components) == {}
  {
  }

  lemma SortOfDistinct(s: seq<string>, S: set<string>)
    requires NoDuplicates(s) && forall n :: n in s <==> n in S
    ensures SortStrings(s) == Ascending(S)
  {
    forall x ensures multiset(s)[x] == multiset(S)[x] {
      DistinctCountsOnce(s, x);
    }
    AscendingIsTheSortOf(S, s);
  }
}
