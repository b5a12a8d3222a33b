/** internal/lockfile/store.go: a lazily filled cache over the lock directory.

    Sequentially the store answers as if it had no cache: for a name whose cached lock is in step with
    its file, every answer is what the directory alone gives, or an I/O fault. Which names are in step is
    followed name by name. Cached objects are never shared with callers. */
module LockStores {
  import opened Wrappers
  import opened Strings
  import opened FileUtils
  import opened Lockfile

  // ---------- The answers of a store without a cache ----------

  function PlainGet(entries: map<string, Entry>, name: string): Result<LockData, LockError> {
    if !ValidFilename(name) then Failure(InvalidName)
    else
      var path := name + LOCK_FILE_EXTENSION;
      if path in entries && entries[path].File? then Parse(entries[path].content) else Failure(NotFound)
  }

  function PlainExists(entries: map<string, Entry>, name: string): Result<bool, LockError> {
    if !ValidFilename(name) then Failure(InvalidName) else Success(name + LOCK_FILE_EXTENSION in entries)
  }

  /** Only a missing file yields a new lock; an unreadable one is an error. */
  function PlainGetOrNew(entries: map<string, Entry>, name: string): Result<LockData, LockError> {
    var r := PlainGet(entries, name);
    if r.Failure? && ValidFilename(name) && name + LOCK_FILE_EXTENSION !in entries then Success(NewLock()) else r
  }

  ghost predicate Answers(r: Result<ComponentLock, LockError>, plain: Result<LockData, LockError>)
    reads if r.Success? then {r.value} else {}
  {
    match r
    case Success(lock) => plain == Success(lock.fields)
    case Failure(e) => e.IOFault? || plain == Failure(e)
  }

  class Store {
    const dir: LockDirectory
    var cache: map<string, ComponentLock>

    /** The objects the cache holds. */
    ghost function Cached(): set<ComponentLock>
      reads this
    {
      set n | n in cache :: cache[n]
    }

    ghost predicate Valid()
      reads this, dir
    {
      dir.Valid()
    }

    /** What is cached for a name, if anything, is what its file parses to. */
    ghost predicate InStep(name: string)
      reads this, dir, Cached()
    {
      name in cache ==> PlainGet(dir.entries, name) == Success(cache[name].fields)
    }

    constructor (dir: LockDirectory)
      requires dir.Valid()
      ensures Valid() && this.dir == dir && cache == map[]
    {
      this.dir := dir;
      cache := map[];
    }

    /** A cached name is answered from the cache, any other from the directory; either way the names in
        step stay so, and a name read from the directory becomes one. */
    method Get(name: string) returns (r: Result<ComponentLock, LockError>)
      requires Valid()
      modifies this`cache, dir`faults
      ensures dir.faults == Faulted(old(dir.faults), name + LOCK_FILE_EXTENSION, r)
      ensures Valid() && fresh(Cached() - old(Cached()))
      ensures forall n :: old(InStep(n)) ==> InStep(n)
      ensures name in old(cache) ==> r.Success? && r.value.fields == old(cache[name].fields) && cache == old(cache)
      ensures name !in old(cache) ==> Answers(r, PlainGet(dir.entries, name)) && InStep(name)
      ensures old(InStep(name)) ==> Answers(r, PlainGet(dir.entries, name))
      ensures r.Success? ==> fresh(r.value) && r.value !in Cached()
      ensures r.Failure? ==> cache == old(cache)
      ensures r.Success? ==> cache.Keys == old(cache.Keys) + {name} && cache[name].fields == r.value.fields
      ensures forall n :: n in old(cache) ==> n in cache && cache[n] == old(cache[n])
    {
      if name in cache {
        var cp := new ComponentLock(cache[name].fields);
        return Success(cp);
      }
      var path := LockPath(name);
      if path.Failure? {
        return Failure(path.error);
      }
      var content := dir.ReadFile(path.value);
      if content.Failure? {
        return Failure(content.error);
      }
      var parsed := Parse(content.value);
      if parsed.Failure? {
        return Failure(parsed.error);
      }
      var lock := new ComponentLock(parsed.value);
      cache := cache[name := lock];
      var cp := new ComponentLock(lock.fields);
      r := Success(cp);
    }

    method Exists(name: string) returns (r: Result<bool, LockError>)
      requires Valid()
      modifies dir`faults
      ensures dir.faults == Faulted(old(dir.faults), name + LOCK_FILE_EXTENSION, r)
      ensures name in cache ==> r == Success(true)
      ensures name !in cache || InStep(name) ==> r == Failure(IOFault) || r == PlainExists(dir.entries, name)
    {
      if name in cache {
        return Success(true);
      }
      var path := LockPath(name);
      if path.Failure? {
        return Failure(path.error);
      }
      r := dir.FileExists(path.value);
    }

    method GetOrNew(name: string) returns (r: Result<ComponentLock, LockError>)
      requires Valid()
      modifies this`cache, dir`faults
      ensures old(dir.faults) <= dir.faults && (r.Failure? && r.error.IOFault? ==> dir.faults != old(dir.faults))
      ensures Valid() && fresh(Cached() - old(Cached()))
      ensures forall n :: old(InStep(n)) ==> InStep(n)
      ensures name in old(cache) ==> r.Success? && r.value.fields == old(cache[name].fields)
      ensures old(InStep(name)) ==> Answers(r, PlainGetOrNew(dir.entries, name))
      ensures r.Success? ==> fresh(r.value) && r.value !in Cached()
    {
      r := Get(name);
      if r.Failure? {
        var onDisk := Exists(name);
        if onDisk.Failure? {
          return Failure(onDisk.error);
        }
        if onDisk.value {
          return;
        }
        var lock := new ComponentLock(NewLock());
        r := Success(lock);
      }
    }

    /** A failed save leaves the cache and all other files alone; only a failing write can have cut the
        file short. A successful one leaves the saved name in step if and only if the lock carries the
        current version: any other version is cached as given, while its file no longer parses. Other
        names stay as they were. */
    method Save(name: string, lock: ComponentLock?) returns (r: Result<(), LockError>)
      requires Valid()
      modifies this`cache, dir
      ensures Valid()
      ensures forall n :: n != name ==> InStep(n) == old(InStep(n))
      ensures dir.entries - {name + LOCK_FILE_EXTENSION} == old(dir.entries) - {name + LOCK_FILE_EXTENSION}
      ensures dir.faults == Faulted(old(dir.faults), name + LOCK_FILE_EXTENSION, r)
      ensures r.Failure? ==> cache == old(cache)
      ensures r.Failure? && dir.entries == old(dir.entries) ==> InStep(name) == old(InStep(name))
      ensures r.Failure? ==> match r.error
                             case NilLock => lock == null && dir.entries == old(dir.entries)
                             case InvalidName => lock != null && !ValidFilename(name) && dir.entries == old(dir.entries)
                             case e => e.IOFault? && lock != null && ValidFilename(name)
      ensures r.Success? ==>
                && lock != null && ValidFilename(name)
                && dir.entries == old(dir.entries)[name + LOCK_FILE_EXTENSION := File(Toml(lock.fields))]
                && name in cache && cache[name].fields == lock.fields && fresh(cache[name])
                && cache == old(cache)[name := cache[name]]
                && (InStep(name) <==> lock.fields.version == CURRENT_VERSION)
    {
      hide PlainGet, ValidFilename, Parse;
      if lock == null {
        return Failure(NilLock);
      }
      PathOf(name);
      var path := LockPath(name);
      if path.Failure? {
        return Failure(path.error);
      }
      var written := dir.WriteFile(path.value, Toml(lock.fields));
      forall n | n != name ensures PlainGet(dir.entries, n) == PlainGet(old(dir.entries), n) {
        OtherFileSame(old(dir.entries), dir.entries, name, n);
      }
      if written.Failure? {
        return Failure(written.error);
      }
      var cp := new ComponentLock(lock.fields);
      cache := cache[name := cp];
      SavedParses(dir.entries, name, lock.fields);
      r := Success(());
    }

    method Remove(name: string) returns (r: Result<(), LockError>)
      requires Valid()
      modifies this`cache, dir
      ensures Valid()
      ensures forall n :: n != name ==> InStep(n) == old(InStep(n))
      ensures old(InStep(name)) ==> InStep(name)
      ensures r.Success? ==>
                && ValidFilename(name) && name + LOCK_FILE_EXTENSION in old(dir.entries)
                && dir.entries == old(dir.entries) - {name + LOCK_FILE_EXTENSION}
                && cache == old(cache) - {name} && InStep(name)
      ensures r.Failure? ==> dir.entries == old(dir.entries) && cache == old(cache)
      ensures dir.faults == Faulted(old(dir.faults), name + LOCK_FILE_EXTENSION, r)
      ensures r.Failure? ==> match r.error
                             case InvalidName => !ValidFilename(name)
                             case NotFound => name + LOCK_FILE_EXTENSION !in dir.entries
                             case e => e.IOFault?
    {
      hide PlainGet, ValidFilename, Parse;
      PathOf(name);
      var path := LockPath(name);
      if path.Failure? {
        return Failure(path.error);
      }
      var removed := dir.Remove(path.value);
      if removed.Failure? {
        return Failure(removed.error);
      }
      cache := cache - {name};
      forall n | n != name ensures PlainGet(dir.entries, n) == PlainGet(old(dir.entries), n) {
        OtherFileSame(old(dir.entries), dir.entries, name, n);
      }
      r := Success(());
    }

    /** Removes orphan lock files and nothing else. "removed" names those that went; without an
        error these are all orphans, and none is left. An orphan whose name LockPath refuses can never
        be removed, so then there is always an error; any other one is left only if removing it was
        tried and met a fault. */
    method PruneOrphans(components: set<string>)
      returns (pruned: nat, r: Result<(), LockError>, ghost removed: set<string>)
      requires Valid()
      modifies this`cache, dir
      ensures Valid() && pruned == |removed| && removed <= Orphans(old(dir.entries), components) && old(dir.faults) <= dir.faults
      ensures forall n :: old(InStep(n)) ==> InStep(n)
      ensures forall n :: n in removed ==> ValidFilename(n)
      ensures dir.entries == old(dir.entries) - FilesOf(removed) && cache == old(cache) - removed
      ensures r.Success? ==> removed == Orphans(old(dir.entries), components) && Orphans(dir.entries, components) == {}
      ensures r.Success? ==> forall n :: n in Orphans(old(dir.entries), components) ==> ValidFilename(n)
      ensures r.Success? || r.error.PruneFailed? ==>
                forall n :: n in Orphans(old(dir.entries), components) - removed ==>
                  !ValidFilename(n) || n + LOCK_FILE_EXTENSION in dir.faults[|old(dir.faults)|..]
      ensures r.Failure? ==>
                if r.error.PruneFailed?
                then r.error.count > 0 && pruned + r.error.count == |Orphans(old(dir.entries), components)|
                else r.error.IOFault? && removed == {} && dir.faults != old(dir.faults)
    {
      hide Orphans, Ascending, FilesOf, Elements, NoDuplicates, PlainGet, ValidFilename;
      ghost var orphaned, before := Orphans(dir.entries, components), dir.entries;
      var found := FindOrphanLockFiles(dir, components);
      FilesOfNone(dir.entries);
      if found.Failure? {
        return 0, Failure(found.error), {};
      }
      var orphans := found.value;
      ElementsOfAscending(Orphans(dir.entries, components));
      NoOrphansLeft(dir.entries, components);
      if |orphans| == 0 {
        return 0, Success(()), {};
      }
      var errs;
      pruned, errs, removed := RemoveEach(orphans);
      if errs > 0 {
        return pruned, Failure(PruneFailed(errs)), removed;
      }
      r := Success(());
    }

    /** The removal loop of PruneOrphans: goes on after a failure and counts both outcomes. A name that
        stays is invalid, or has no file, or its removal met a fault. */
    method RemoveEach(names: seq<string>) returns (pruned: nat, errs: nat, ghost removed: set<string>)
      requires Valid() && NoDuplicates(names)
      modifies this`cache, dir
      ensures Valid() && pruned == |removed| && pruned + errs == |names|
      ensures forall n :: old(InStep(n)) ==> InStep(n)
      ensures forall n :: n in removed ==> ValidFilename(n)
      ensures dir.entries == old(dir.entries) - FilesOf(removed) && cache == old(cache) - removed
      ensures removed <= Elements(names) && (errs == 0 ==> removed == Elements(names))
      ensures old(dir.faults) <= dir.faults
      ensures forall n :: n in Elements(names) - removed ==> Excused(n, old(dir.entries), dir.faults[|old(dir.faults)|..])
    {
      hide Elements, NoDuplicates, PlainGet, InStep, ValidFilename, FilesOf, Progress;
      pruned, errs, removed := 0, 0, {};
      ghost var met: seq<string> := [];
      NothingYet(names, dir.entries);
      for i := 0 to |names|
        invariant Valid() && cache == old(cache) - removed && dir.faults == old(dir.faults) + met
        invariant forall n :: old(InStep(n)) ==> InStep(n)
        invariant Progress(names, i, old(dir.entries), dir.entries, removed, pruned, errs, met)
      {
        ghost var before := dir.entries;
        var result := Remove(names[i]);
        if result.Failure? {
          ghost var more := if result.error.IOFault? then [names[i] + LOCK_FILE_EXTENSION] else [];
          NameStays(names, i, old(dir.entries), before, removed, pruned, errs, met, result.error, more);
          errs, met := errs + 1, met + more;
        } else {
          NameGoes(names, i, old(dir.entries), before, removed, pruned, errs, met);
          pruned, removed := pruned + 1, removed + {names[i]};
        }
      }
      AllNamesDone(names, old(dir.entries), dir.entries, removed, pruned, errs, met);
      assert dir.faults[|old(dir.faults)|..] == met;
    }
  }

  /** Where the removal loop stands after i names; "faults" are those it has met. */
  ghost predicate Progress(names: seq<string>, i: nat, before: map<string, Entry>, now: map<string, Entry>, removed: set<string>,
                           pruned: nat, errs: nat, faults: seq<string>)
  {
    && i <= |names| && pruned == |removed| && pruned + errs == i && now == before - FilesOf(removed)
    && removed <= Elements(names[..i]) && (errs == 0 ==> removed == Elements(names[..i]))
    && (forall n :: n in removed ==> ValidFilename(n))
    && forall n :: n in Elements(names[..i]) - removed ==> Excused(n, before, faults)
  }

  lemma NothingYet(names: seq<string>, entries: map<string, Entry>)
    ensures Progress(names, 0, entries, entries, {}, 0, 0, [])
  {
    assert names[..0] == [];
    FilesOfNone(entries);
  }

  lemma NameStays(names: seq<string>, i: nat, before: map<string, Entry>, now: map<string, Entry>, removed: set<string>,
                  pruned: nat, errs: nat, faults: seq<string>, e: LockError, more: seq<string>)
    requires NoDuplicates(names) && i < |names| && Progress(names, i, before, now, removed, pruned, errs, faults)
    requires more == if e.IOFault? then [names[i] + LOCK_FILE_EXTENSION] else []
    requires match e
             case InvalidName => !ValidFilename(names[i])
             case NotFound => names[i] + LOCK_FILE_EXTENSION !in now
             case _ => e.IOFault?
    ensures Progress(names, i + 1, before, now, removed, pruned, errs + 1, faults + more)
  {
    hide Elements, FilesOf, ValidFilename, Excused;
    NextName(names, i);
    FailureExcused(names[i], before, removed, e, faults, more);
    forall n | Excused(n, before, faults) ensures Excused(n, before, faults + more) {
      MoreExcused(n, before, faults, more);
    }
  }

  lemma NameGoes(names: seq<string>, i: nat, before: map<string, Entry>, now: map<string, Entry>, removed: set<string>,
                 pruned: nat, errs: nat, faults: seq<string>)
    requires NoDuplicates(names) && i < |names| && Progress(names, i, before, now, removed, pruned, errs, faults)
    requires ValidFilename(names[i])
    ensures Progress(names, i + 1, before, now - {names[i] + LOCK_FILE_EXTENSION}, removed + {names[i]}, pruned + 1, errs, faults)
  {
    hide Elements, FilesOf, ValidFilename, Excused;
    NextName(names, i);
    FilesOfMore(before, removed, names[i]);
  }

  lemma AllNamesDone(names: seq<string>, before: map<string, Entry>, now: map<string, Entry>, removed: set<string>,
                     pruned: nat, errs: nat, faults: seq<string>)
    requires Progress(names, |names|, before, now, removed, pruned, errs, faults)
    ensures pruned == |removed| && pruned + errs == |names| && now == before - FilesOf(removed)
    ensures removed <= Elements(names) && (errs == 0 ==> removed == Elements(names))
    ensures forall n :: n in removed ==> ValidFilename(n)
    ensures forall n :: n in Elements(names) - removed ==> Excused(n, before, faults)
  {
    assert names[..|names|] == names;
  }

  /** A reason for a name to stay. */
  ghost predicate Excused(name: string, entries: map<string, Entry>, faults: seq<string>) {
    !ValidFilename(name) || name + LOCK_FILE_EXTENSION !in entries || name + LOCK_FILE_EXTENSION in faults
  }

  lemma MoreExcused(name: string, entries: map<string, Entry>, faults: seq<string>, more: seq<string>)
    requires Excused(name, entries, faults)
    ensures Excused(name, entries, faults + more)
  {
  }

  lemma FailureExcused(name: string, entries: map<string, Entry>, removed: set<string>, e: LockError, faults: seq<string>,
                       more: seq<string>)
    requires name !in removed && more == if e.IOFault? then [name + LOCK_FILE_EXTENSION] else []
    requires match e
             case InvalidName => !ValidFilename(name)
             case NotFound => name + LOCK_FILE_EXTENSION !in entries - FilesOf(removed)
             case _ => e.IOFault?
    ensures Excused(name, entries, faults + more)
  {
    if name + LOCK_FILE_EXTENSION in FilesOf(removed) {
      var n :| n in removed && n + LOCK_FILE_EXTENSION == name + LOCK_FILE_EXTENSION;
      DifferentFiles(n, name);
    }
  }

  /** After a write that failed and left something behind, a cached lock is in step exactly when what is
      left is still that very lock, of the current version; cut short it hardly is. */
  lemma CutShortIsOutOfStep(entries: map<string, Entry>, name: string, left: Content, cached: LockData)
    requires ValidFilename(name)
    ensures PlainGet(entries[name + LOCK_FILE_EXTENSION := File(left)], name) == Success(cached)
       <==> left == Toml(cached) && cached.version == CURRENT_VERSION
  {
    hide ValidFilename;
  }

  lemma PathOf(name: string)
    ensures LockPath(name) == if ValidFilename(name) then Success(name + LOCK_FILE_EXTENSION) else Failure(InvalidName)
  {
  }

  lemma OtherFileSame(before: map<string, Entry>, after: map<string, Entry>, name: string, n: string)
    requires before - {name + LOCK_FILE_EXTENSION} == after - {name + LOCK_FILE_EXTENSION} && n != name
    ensures PlainGet(after, n) == PlainGet(before, n)
  {
    hide ValidFilename, Parse;
    DifferentFiles(n, name);
    var path, gone := n + LOCK_FILE_EXTENSION, {name + LOCK_FILE_EXTENSION};
    assert path in before <==> path in before - gone;
    assert path in after <==> path in after - gone;
    assert path in before ==> (before - gone)[path] == before[path];
    assert path in after ==> (after - gone)[path] == after[path];
  }

  lemma SavedParses(entries: map<string, Entry>, name: string, data: LockData)
    requires ValidFilename(name) && name + LOCK_FILE_EXTENSION in entries && entries[name + LOCK_FILE_EXTENSION] == File(Toml(data))
    ensures PlainGet(entries, name) == if data.version == CURRENT_VERSION then Success(data) else Failure(UnsupportedVersion(data.version))
  {
    hide ValidFilename;
  }

  lemma NextName(names: seq<string>, i: nat)
    requires NoDuplicates(names) && i < |names|
    ensures names[i] !in Elements(names[..i]) && Elements(names[..i + 1]) == Elements(names[..i]) + {names[i]}
  {
    assert names[..i + 1] == names[..i] + [names[i]];
    ElementsSnoc(names[..i], names[i]);
  }

  /** A caller that scribbles on the lock it got does not disturb the store. */
  method ReadChangeRead(store: Store, name: string, scribble: LockData) returns (again: Result<ComponentLock, LockError>)
    requires store.Valid() && store.InStep(name)
    modifies store`cache, store.dir`faults
    ensures store.Valid() && store.InStep(name) && Answers(again, PlainGet(store.dir.entries, name))
  {
    hide PlainGet, Answers;
    var first := store.Get(name);
    if first.Success? {
      first.value.fields := scribble;
    }
    again := store.Get(name);
  }

  /** Nor does one that scribbles on a lock after saving it: the saved fields are what is read, whatever
      their version. For another version than the current one they are what no new store would read. */
  method SaveChangeRead(store: Store, name: string, lock: ComponentLock, scribble: LockData)
    returns (saved: Result<(), LockError>, again: Result<ComponentLock, LockError>)
    requires store.Valid() && lock !in store.Cached()
    modifies store`cache, store.dir, lock
    ensures saved.Success? ==> again.Success? && again.value.fields == old(lock.fields)
    ensures saved.Success? && old(lock.fields.version) != CURRENT_VERSION ==>
              PlainGet(store.dir.entries, name) == Failure(UnsupportedVersion(old(lock.fields.version)))
    ensures saved.Success? && old(lock.fields.version) == CURRENT_VERSION ==> Answers(again, PlainGet(store.dir.entries, name))
  {
    hide PlainGet, Answers, ValidFilename;
    saved := store.Save(name, lock);
    if saved.Success? {
      SavedParses(store.dir.entries, name, lock.fields);
    }
    lock.fields := scribble;
    again := store.Get(name);
  }

  /** A lock no older file stands behind has nothing in it but a version every store can read. */
  lemma NewLockParses()
    ensures Parse(Toml(NewLock())) == Success(NewLock())
    ensures forall lock: LockData :: Parse(Toml(lock)).Success? ==>
              lock == NewLock().(importCommit := lock.importCommit, upstreamCommit := lock.upstreamCommit, manualBump := lock.manualBump,
                                 inputFingerprint := lock.inputFingerprint, resolutionInputHash := lock.resolutionInputHash)
    ensures NewLock().importCommit == NewLock().upstreamCommit == NewLock().inputFingerprint == NewLock().resolutionInputHash == ""
    ensures NewLock().manualBump == 0
  {
  }

  /** A component without a lock file gets a new lock; once saved, its name is in step and every other
      store over the directory reads that very lock. */
  method NewLockIsReadBack(store: Store, name: string)
    returns (saved: Result<(), LockError>, other: Store, again: Result<ComponentLock, LockError>)
    requires store.Valid() && store.InStep(name) && ValidFilename(name) && name + LOCK_FILE_EXTENSION !in store.dir.entries
    modifies store`cache, store.dir
    ensures saved.Success? ==>
              && store.InStep(name) && PlainGet(store.dir.entries, name) == Success(NewLock())
              && Answers(again, Success(NewLock()))
    ensures fresh(other) && other.dir == store.dir
    ensures saved.Success? && again.Success? ==> name in other.cache
    ensures saved.Failure? ==> saved.error.IOFault?
    ensures store.dir.faults == old(store.dir.faults) ==> saved.Success? && again.Success?
  {
    hide PlainGet, ValidFilename;
    other := new Store(store.dir);
    again := store.GetOrNew(name);
    NothingSaved(store.dir.entries, name);
    if again.Failure? {
      return Failure(again.error), other, again;
    }
    NewLockParses();
    saved := store.Save(name, again.value);
    if saved.Success? {
      SavedParses(store.dir.entries, name, NewLock());
      again := other.Get(name);
    }
  }

  lemma NothingSaved(entries: map<string, Entry>, name: string)
    requires ValidFilename(name) && name + LOCK_FILE_EXTENSION !in entries
    ensures PlainGetOrNew(entries, name) == Success(NewLock()) && PlainGet(entries, name) == Failure(NotFound)
  {
    hide ValidFilename;
  }

  lemma ElementsOfAscending(S: set<string>)
    ensures Elements(Ascending(S)) == S && (Ascending(S) == [] ==> S == {})
    ensures NoDuplicates(Ascending(S)) && |Ascending(S)| == |S|
  {
    AscendingProperties(S);
  }

  lemma FilesOfNone(entries: map<string, Entry>)
    ensures entries - FilesOf({}) == entries
  {
  }

  lemma FilesOfMore(entries: map<string, Entry>, names: set<string>, name: string)
    ensures entries - FilesOf(names) - {name + LOCK_FILE_EXTENSION} == entries - FilesOf(names + {name})
  {
    assert FilesOf(names + {name}) == FilesOf(names) + {name + LOCK_FILE_EXTENSION};
  }

  /** An orphan that can never be pruned: a component name may not contain a space, a file name may. */
  lemma UnprunableOrphan(entries: map<string, Entry>)
    requires "a b.lock" in entries && IsLockFile("a b.lock", entries["a b.lock"])
    ensures "a b" in Orphans(entries, {}) && !ValidFilename("a b")
  {
    assert "a b" + LOCK_FILE_EXTENSION == "a b.lock";
    assert "a b"[1] == ' ' && ' ' in " \t\n\r";
  }

  /** A second prune would find nothing. */
  lemma NoOrphansLeft(entries: map<string, Entry>, components: set<string>)
    ensures Orphans(entries - FilesOf(Orphans(entries, components)), components) == {}
  {
    var rest := entries - FilesOf(Orphans(entries, components));
    forall n ensures n !in Orphans(rest, components) {
      assert n in Orphans(rest, components) ==> n in Orphans(entries, components);
    }
  }

  function FilesOf(names: set<string>): set<string> {
    set n | n in names :: n + LOCK_FILE_EXTENSION
  }

  lemma DifferentFiles(a: string, b: string)
    requires a != b
    ensures a + LOCK_FILE_EXTENSION != b + LOCK_FILE_EXTENSION
  {
    var x, y := a + LOCK_FILE_EXTENSION, b + LOCK_FILE_EXTENSION;
    assert |a| == |b| ==> x[..|a|] == a && y[..|b|] == b;
  }
}
