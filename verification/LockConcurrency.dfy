/** internal/lockfile/store.go under several goroutines: each call is a sequence of atomic steps
    on the shared cache and on the files, and the steps of different calls interleave freely. A call that
    nothing interrupts does what the sequential store does. */
module LockConcurrency {
  import opened Wrappers
  import opened Lockfile

  /** Where a goroutine stands inside a call. */
  datatype Phase =
    | Idle
    | GetMissed(name: string)                       // Get: not cached, about to read the file
    | GetLoaded(name: string, data: LockData)       // Get: file read and parsed, about to cache it
    | SaveWritten(name: string, data: LockData)     // Save: file written, about to cache the copy
    | RemoveDeleted(name: string)                   // Remove: file deleted, about to evict
    | ExistsMissed(name: string)                    // Exists: not cached, about to look at the file

  datatype State = State(
    disk: map<string, Content>,
    cache: map<string, LockData>,
    threads: seq<Phase>,
    returned: set<(string, LockData)>,              // every lock a Get has returned, with its name
    reported: set<string>)                          // every name Exists has answered "true" for

  ghost predicate Init(s: State) {
    && s.cache == map[] && s.returned == {} && s.reported == {}
    && forall t :: 0 <= t < |s.threads| ==> s.threads[t] == Idle
  }

  function At(s: State, t: nat, p: Phase): State
    requires t < |s.threads|
  {
    s.(threads := s.threads[t := p])
  }

  ghost predicate GetStep(s: State, s': State, t: nat, n: string)
    requires t < |s.threads|
  {
    match s.threads[t]
    case Idle =>
      if n in s.cache then s' == s.(returned := s.returned + {(n, s.cache[n])}) else s' == At(s, t, GetMissed(n))
    case GetMissed(m) =>
      || s' == At(s, t, Idle)                       // missing, unreadable or unparsable
      || (m in s.disk && Parse(s.disk[m]).Success? && s' == At(s, t, GetLoaded(m, Parse(s.disk[m]).value)))
    case GetLoaded(m, data) =>
      s' == At(s, t, Idle).(cache := s.cache[m := data], returned := s.returned + {(m, data)})
    case _ => false
  }

  ghost predicate SaveStep(s: State, s': State, t: nat, n: string, data: LockData)
    requires t < |s.threads|
  {
    match s.threads[t]
    case Idle => s' == s || s' == At(s, t, SaveWritten(n, data)).(disk := s.disk[n := Toml(data)])
    case SaveWritten(m, d) => s' == At(s, t, Idle).(cache := s.cache[m := d])
    case _ => false
  }

  ghost predicate RemoveStep(s: State, s': State, t: nat, n: string)
    requires t < |s.threads|
  {
    match s.threads[t]
    case Idle => s' == s || (n in s.disk && s' == At(s, t, RemoveDeleted(n)).(disk := s.disk - {n}))
    case RemoveDeleted(m) => s' == At(s, t, Idle).(cache := s.cache - {m})
    case _ => false
  }

  ghost predicate ExistsStep(s: State, s': State, t: nat, n: string)
    requires t < |s.threads|
  {
    match s.threads[t]
    case Idle => if n in s.cache then s' == s.(reported := s.reported + {n}) else s' == At(s, t, ExistsMissed(n))
    case ExistsMissed(m) =>
      || s' == At(s, t, Idle)
      || (m in s.disk && s' == At(s, t, Idle).(reported := s.reported + {m}))
    case _ => false
  }

  datatype Call = Get(name: string) | Save(name: string, data: LockData) | Remove(name: string) | Exists(name: string)

  ghost predicate Step(s: State, s': State, t: nat, c: Call)
    requires t < |s.threads|
  {
    match c
    case Get(n) => GetStep(s, s', t, n)
    case Save(n, data) => SaveStep(s, s', t, n, data)
    case Remove(n) => RemoveStep(s, s', t, n)
    case Exists(n) => ExistsStep(s, s', t, n)
  }

  ghost predicate Next(s: State, s': State) {
    exists t: nat, c :: t < |s.threads| && Step(s, s', t, c)
  }

  ghost predicate Run(run: seq<State>) {
    && run != [] && Init(run[0])
    && forall i :: 0 <= i < |run| - 1 ==> Next(run[i], run[i + 1])
  }

  // ---------- Calls that nothing interrupts ----------

  /** A call of thread t from its first step to its last, with no step of another in between. */
  ghost predicate Uninterrupted(s: State, s': State, t: nat, c: Call)
    requires t < |s.threads|
  {
    && s.threads[t].Idle? && t < |s'.threads| && s'.threads[t].Idle?
    && (|| Step(s, s', t, c)
        || (exists a :: Midway(s, a, t, c) && Step(a, s', t, c))
        || (exists a, b :: Midway(s, a, t, c) && Midway(a, b, t, c) && Step(b, s', t, c)))
  }

  ghost predicate Midway(s: State, s': State, t: nat, c: Call)
    requires t < |s.threads|
  {
    Step(s, s', t, c) && t < |s'.threads| && !s'.threads[t].Idle?
  }

  /** What the sequential store does: it answers from the cache, or from the file and then caches that,
      or a file is written or removed together with its cache entry; or, for an error, nothing happens. */
  ghost predicate Sequential(s: State, s': State, c: Call) {
    match c
    case Get(n) =>
      if n in s.cache then s' == s.(returned := s.returned + {(n, s.cache[n])})
      else s' == s || (n in s.disk && Parse(s.disk[n]).Success?
                       && var data := Parse(s.disk[n]).value;
                          s' == s.(cache := s.cache[n := data], returned := s.returned + {(n, data)}))
    case Save(n, data) => s' == s || s' == s.(disk := s.disk[n := Toml(data)], cache := s.cache[n := data])
    case Remove(n) => s' == s || (n in s.disk && s' == s.(disk := s.disk - {n}, cache := s.cache - {n}))
    case Exists(n) =>
      if n in s.cache then s' == s.(reported := s.reported + {n})
      else s' == s || (n in s.disk && s' == s.(reported := s.reported + {n}))
  }

  /** Uninterrupted calls do exactly what the sequential store does. */
  lemma UninterruptedIsSequential(s: State, s': State, t: nat, c: Call)
    requires t < |s.threads| && s.threads[t].Idle?
    ensures Uninterrupted(s, s', t, c) <==> Sequential(s, s', c)
  {
    if Uninterrupted(s, s', t, c) {
      AsSequential(s, s', t, c);
    }
    if Sequential(s, s', c) {
      match c
      case Get(n) => GetAlone(s, s', t, n);
      case Save(n, data) => SaveAlone(s, s', t, n, data);
      case Remove(n) => RemoveAlone(s, s', t, n);
      case Exists(n) => ExistsAlone(s, s', t, n);
    }
  }

  lemma BackAgain(s: State, t: nat, p: Phase, q: Phase)
    requires t < |s.threads|
    ensures At(At(s, t, p), t, q) == At(s, t, q)
    ensures s.threads[t] == q ==> At(s, t, q) == s
  {
    assert s.threads[t := p][t := q] == s.threads[t := q];
    assert s.threads[t] == q ==> s.threads[t := q] == s.threads;
  }

  lemma AsSequential(s: State, s': State, t: nat, c: Call)
    requires t < |s.threads| && Uninterrupted(s, s', t, c)
    ensures Sequential(s, s', c)
  {
    hide Step, Sequential;
    if Step(s, s', t, c) {
      OneStep(s, s', t, c);
    } else if a :| Midway(s, a, t, c) && Step(a, s', t, c) {
      TwoSteps(s, a, s', t, c);
    } else {
      var a, b :| Midway(s, a, t, c) && Midway(a, b, t, c) && Step(b, s', t, c);
      ThreeSteps(s, a, b, s', t, c);
    }
  }

  lemma OneStep(s: State, s': State, t: nat, c: Call)
    requires t < |s.threads| && s.threads[t].Idle? && Step(s, s', t, c) && t < |s'.threads| && s'.threads[t].Idle?
    ensures Sequential(s, s', c)
  {
    hide Parse;
  }

  lemma TwoSteps(s: State, a: State, s': State, t: nat, c: Call)
    requires t < |s.threads| && s.threads[t].Idle? && Midway(s, a, t, c)
    requires Step(a, s', t, c) && t < |s'.threads| && s'.threads[t].Idle?
    ensures Sequential(s, s', c)
  {
    hide Parse;
    assert s.threads[t := a.threads[t]][t := Idle] == s.threads;
  }

  lemma ThreeSteps(s: State, a: State, b: State, s': State, t: nat, c: Call)
    requires t < |s.threads| && s.threads[t].Idle? && Midway(s, a, t, c) && Midway(a, b, t, c)
    requires Step(b, s', t, c) && t < |s'.threads| && s'.threads[t].Idle?
    ensures Sequential(s, s', c)
  {
    hide Parse;
    assert s.threads[t := a.threads[t]][t := b.threads[t]][t := Idle] == s.threads;
  }

  lemma GetAlone(s: State, s': State, t: nat, n: string)
    requires t < |s.threads| && s.threads[t].Idle? && Sequential(s, s', Get(n))
    ensures Uninterrupted(s, s', t, Get(n))
  {
    hide Parse;
    if n !in s.cache {
      var a := At(s, t, GetMissed(n));
      assert Midway(s, a, t, Get(n));
      BackAgain(s, t, GetMissed(n), Idle);
      if s' != s {
        var data := Parse(s.disk[n]).value;
        var b := At(a, t, GetLoaded(n, data));
        assert Midway(a, b, t, Get(n));
        BackAgain(s, t, GetMissed(n), GetLoaded(n, data));
        BackAgain(s, t, GetLoaded(n, data), Idle);
        assert Step(b, s', t, Get(n));
      }
    }
  }

  lemma SaveAlone(s: State, s': State, t: nat, n: string, data: LockData)
    requires t < |s.threads| && s.threads[t].Idle? && Sequential(s, s', Save(n, data))
    ensures Uninterrupted(s, s', t, Save(n, data))
  {
    if s' != s {
      var a := At(s, t, SaveWritten(n, data)).(disk := s.disk[n := Toml(data)]);
      assert Midway(s, a, t, Save(n, data));
      BackAgain(s, t, SaveWritten(n, data), Idle);
      assert Step(a, s', t, Save(n, data));
    }
  }

  lemma RemoveAlone(s: State, s': State, t: nat, n: string)
    requires t < |s.threads| && s.threads[t].Idle? && Sequential(s, s', Remove(n))
    ensures Uninterrupted(s, s', t, Remove(n))
  {
    if s' != s {
      var a := At(s, t, RemoveDeleted(n)).(disk := s.disk - {n});
      assert Midway(s, a, t, Remove(n));
      BackAgain(s, t, RemoveDeleted(n), Idle);
      assert Step(a, s', t, Remove(n));
    }
  }

  lemma ExistsAlone(s: State, s': State, t: nat, n: string)
    requires t < |s.threads| && s.threads[t].Idle? && Sequential(s, s', Exists(n))
    ensures Uninterrupted(s, s', t, Exists(n))
  {
    if n !in s.cache {
      var a := At(s, t, ExistsMissed(n));
      assert Midway(s, a, t, Exists(n));
      BackAgain(s, t, ExistsMissed(n), Idle);
      assert Step(a, s', t, Exists(n));
    }
  }

  // ---------- Every lock handed out was on disk at some moment ----------

  ghost predicate WasOnDisk(run: seq<State>, n: string, data: LockData) {
    exists i :: 0 <= i < |run| && n in run[i].disk && run[i].disk[n] == Toml(data)
  }

  ghost predicate HadAFile(run: seq<State>, n: string) {
    exists i :: 0 <= i < |run| && n in run[i].disk
  }

  ghost predicate Traced(run: seq<State>, s: State) {
    && (forall n :: n in s.cache ==> WasOnDisk(run, n, s.cache[n]))
    && (forall p :: p in s.returned ==> WasOnDisk(run, p.0, p.1))
    && (forall n :: n in s.reported ==> HadAFile(run, n))
    && (forall t :: 0 <= t < |s.threads| ==>
          match s.threads[t]
          case GetLoaded(n, data) => WasOnDisk(run, n, data)
          case SaveWritten(n, data) => WasOnDisk(run, n, data)
          case _ => true)
  }

  lemma LongerRun(run: seq<State>, s: State)
    ensures forall n, data :: WasOnDisk(run, n, data) ==> WasOnDisk(run + [s], n, data)
    ensures forall n :: HadAFile(run, n) ==> HadAFile(run + [s], n)
    ensures forall n :: n in s.disk ==> HadAFile(run + [s], n)
    ensures forall n :: n in s.disk && s.disk[n].Toml? ==> WasOnDisk(run + [s], n, s.disk[n].lock)
  {
    var longer := run + [s];
    forall n, data | WasOnDisk(run, n, data) ensures WasOnDisk(longer, n, data) {
      var i :| 0 <= i < |run| && n in run[i].disk && run[i].disk[n] == Toml(data);
      assert longer[i] == run[i];
    }
    forall n | HadAFile(run, n) ensures HadAFile(longer, n) {
      var i :| 0 <= i < |run| && n in run[i].disk;
      assert longer[i] == run[i];
    }
    assert longer[|run|] == s;
  }

  lemma LastOnDisk(run: seq<State>)
    requires run != []
    ensures var s := run[|run| - 1];
            forall n :: n in s.disk ==> HadAFile(run, n) && (s.disk[n].Toml? ==> WasOnDisk(run, n, s.disk[n].lock))
    ensures forall n, data :: WasOnDisk(run, n, data) ==> HadAFile(run, n)
  {
  }

  lemma CarriedWasOnDisk(run: seq<State>, s': State, t: nat, c: Call)
    requires run != [] && Traced(run, run[|run| - 1])
    requires t < |run[|run| - 1].threads| && Step(run[|run| - 1], s', t, c)
    requires s'.threads[t].GetLoaded? || s'.threads[t].SaveWritten?
    ensures WasOnDisk(run + [s'], s'.threads[t].name, s'.threads[t].data)
  {
    hide WasOnDisk, HadAFile;
    LongerRun(run, s');
    LastOnDisk(run);
    var s := run[|run| - 1];
    if c.Save? && s' != s {
      assert s'.threads[t] == SaveWritten(c.name, c.data);
      assert s'.disk[c.name] == Toml(c.data);
    }
  }

  /** A step caches and hands out only what a thread carried, or what was cached before. */
  lemma HandedOutWasOnDisk(run: seq<State>, s': State, t: nat, c: Call)
    requires run != [] && Traced(run, run[|run| - 1])
    requires t < |run[|run| - 1].threads| && Step(run[|run| - 1], s', t, c)
    ensures forall n :: n in s'.cache ==> WasOnDisk(run + [s'], n, s'.cache[n])
    ensures forall p :: p in s'.returned ==> WasOnDisk(run + [s'], p.0, p.1)
  {
    hide WasOnDisk, HadAFile;
    LongerRun(run, s');
  }

  lemma ReportedHadAFile(run: seq<State>, s': State, t: nat, c: Call)
    requires run != [] && Traced(run, run[|run| - 1])
    requires t < |run[|run| - 1].threads| && Step(run[|run| - 1], s', t, c)
    ensures forall n :: n in s'.reported ==> HadAFile(run + [s'], n)
  {
    hide WasOnDisk, HadAFile;
    var s := run[|run| - 1];
    LongerRun(run, s');
    LastOnDisk(run);
    forall n | n in s'.reported ensures HadAFile(run + [s'], n) {
      if n !in s.reported && n in s.cache {
        assert WasOnDisk(run, n, s.cache[n]);
      }
    }
  }

  lemma OthersStand(s: State, s': State, t: nat, c: Call)
    requires t < |s.threads| && Step(s, s', t, c)
    ensures |s'.threads| == |s.threads| && forall u :: 0 <= u < |s.threads| && u != t ==> s'.threads[u] == s.threads[u]
  {
  }

  lemma TracedStep(run: seq<State>, s': State)
    requires run != [] && Traced(run, run[|run| - 1]) && Next(run[|run| - 1], s')
    ensures Traced(run + [s'], s')
  {
    hide WasOnDisk, HadAFile, Step;
    var s := run[|run| - 1];
    var t: nat, c :| t < |s.threads| && Step(s, s', t, c);
    LongerRun(run, s');
    HandedOutWasOnDisk(run, s', t, c);
    ReportedHadAFile(run, s', t, c);
    OthersStand(s, s', t, c);
    forall u | 0 <= u < |s'.threads| && (s'.threads[u].GetLoaded? || s'.threads[u].SaveWritten?)
      ensures WasOnDisk(run + [s'], s'.threads[u].name, s'.threads[u].data)
    {
      if u == t {
        CarriedWasOnDisk(run, s', t, c);
      }
    }
  }

  lemma {:induction false} AllTraced(run: seq<State>)
    requires Run(run)
    ensures Traced(run, run[|run| - 1])
  {
    if |run| > 1 {
      var front := run[..|run| - 1];
      AllTraced(front);
      assert Next(run[|run| - 2], run[|run| - 1]);
      assert run == front + [run[|run| - 1]];
      TracedStep(front, run[|run| - 1]);
    }
  }

  /** In every interleaving, each lock Get returned for a name was that name's file content at some
      moment of the run, and each name Exists vouched for had a file at some moment. */
  lemma ReturnedLocksWereOnDisk(run: seq<State>)
    requires Run(run)
    ensures forall p :: p in run[|run| - 1].returned ==> WasOnDisk(run, p.0, p.1)
    ensures forall n :: n in run[|run| - 1].reported ==> HadAFile(run, n)
  {
    AllTraced(run);
  }

  // ---------- When the cache agrees with the files ----------

  /** A Save or Remove of n that has changed the file and not yet the cache. */
  predicate Writing(p: Phase, n: string) {
    (p.SaveWritten? || p.RemoveDeleted?) && p.name == n
  }

  /** A Get or Save of n that is about to cache what it read or wrote. */
  predicate Carrying(p: Phase, n: string) {
    (p.GetLoaded? || p.SaveWritten?) && p.name == n
  }

  /** A Save halfway has written the very lock that p carries; a Remove has written none. */
  predicate Agrees(writer: Phase, p: Phase) {
    writer.SaveWritten? && (p.GetLoaded? || p.SaveWritten?) && writer.data == p.data
  }

  /** No Save or Remove of n is halfway while another call carries a different lock for n. Other calls,
      and calls on other names, may overlap as they like. */
  ghost predicate NoOverlap(s: State, n: string) {
    forall t, u :: 0 <= t < |s.threads| && 0 <= u < |s.threads| && t != u && Writing(s.threads[t], n) ==>
      (Carrying(s.threads[u], n) ==> Agrees(s.threads[t], s.threads[u]))
  }

  /** Every lock being saved under n has the current version. */
  ghost predicate CurrentVersion(s: State, n: string) {
    forall t :: 0 <= t < |s.threads| && s.threads[t].SaveWritten? && s.threads[t].name == n ==>
      s.threads[t].data.version == CURRENT_VERSION
  }

  ghost predicate OnDisk(s: State, n: string, data: LockData) {
    n in s.disk && Parse(s.disk[n]) == Success(data)
  }

  /** A call carries along what the file of n holds. */
  ghost predicate CarriesFile(s: State, p: Phase, n: string) {
    Carrying(p, n) ==> OnDisk(s, n, p.data)
  }

  /** The cached entry of n, if any, is what its file parses to, unless a writer is halfway. */
  ghost predicate CacheOk(s: State, n: string) {
    n in s.cache ==> OnDisk(s, n, s.cache[n]) || exists t :: 0 <= t < |s.threads| && Writing(s.threads[t], n)
  }

  /** Some call on n carries a lock that its file does not hold. */
  ghost predicate Mismatched(s: State, n: string) {
    exists u :: 0 <= u < |s.threads| && !CarriesFile(s, s.threads[u], n)
  }

  ghost predicate Coherent(s: State, n: string) {
    CacheOk(s, n) && !Mismatched(s, n)
  }

  lemma CoherentStep(s: State, s': State, n: string)
    requires Coherent(s, n) && Next(s, s') && NoOverlap(s', n) && CurrentVersion(s', n)
    ensures Coherent(s', n)
  {
    hide Step, OnDisk, CarriesFile, Writing, CacheOk;
    var t: nat, c :| t < |s.threads| && Step(s, s', t, c);
    OthersStand(s, s', t, c);
    CacheStaysOk(s, s', t, c, n);
    forall u | 0 <= u < |s'.threads| ensures CarriesFile(s', s'.threads[u], n) {
      assert CarriesFile(s, s.threads[u], n);
      if u == t {
        CarriedByStep(s, s', t, c, n);
      } else {
        CarriedStays(s, s', t, c, u, n);
      }
    }
  }

  lemma CarriedByStep(s: State, s': State, t: nat, c: Call, n: string)
    requires t < |s.threads| && Step(s, s', t, c) && CarriesFile(s, s.threads[t], n) && CurrentVersion(s', n)
    ensures t < |s'.threads| && CarriesFile(s', s'.threads[t], n)
  {
  }

  /** The file of n changes only in a step that leaves its thread writing n. */
  lemma FileChangesByWriting(s: State, s': State, t: nat, c: Call, n: string)
    requires t < |s.threads| && Step(s, s', t, c)
    ensures t < |s'.threads|
    ensures !Writing(s'.threads[t], n) || s.threads[t] == s'.threads[t] ==>
              (n in s'.disk <==> n in s.disk) && (n in s.disk ==> s'.disk[n] == s.disk[n])
    ensures Writing(s'.threads[t], n) && s'.threads[t].SaveWritten? && s.threads[t] != s'.threads[t] ==>
              n in s'.disk && s'.disk[n] == Toml(s'.threads[t].data)
  {
  }

  lemma CarriedStays(s: State, s': State, t: nat, c: Call, u: nat, n: string)
    requires NoOverlap(s', n) && CurrentVersion(s', n) && t < |s.threads| && Step(s, s', t, c)
    requires u < |s.threads| && u != t && CarriesFile(s, s.threads[u], n)
    ensures u < |s'.threads| && CarriesFile(s', s'.threads[u], n)
  {
    hide Step, Parse;
    OthersStand(s, s', t, c);
    FileChangesByWriting(s, s', t, c, n);
    if Carrying(s'.threads[u], n) && Writing(s'.threads[t], n) {
      assert Agrees(s'.threads[t], s'.threads[u]);
      CurrentParses(s'.threads[t].data);
    }
  }

  lemma CurrentParses(data: LockData)
    ensures data.version == CURRENT_VERSION <==> Parse(Toml(data)) == Success(data)
  {
  }

  /** A step caches n only from what its own thread carried; ending a Remove uncaches it. */
  lemma CacheChangesByCarrying(s: State, s': State, t: nat, c: Call, n: string)
    requires t < |s.threads| && Step(s, s', t, c) && n in s'.cache
    ensures t < |s'.threads|
    ensures (Carrying(s.threads[t], n) && s'.cache[n] == s.threads[t].data)
            || (n in s.cache && s'.cache[n] == s.cache[n] && (Writing(s.threads[t], n) ==> Writing(s'.threads[t], n)))
  {
  }

  /** The cache stays right in every step from a state without a mismatch, whatever the step. */
  lemma CacheStaysOk(s: State, s': State, t: nat, c: Call, n: string)
    requires Coherent(s, n) && t < |s.threads| && Step(s, s', t, c)
    ensures CacheOk(s', n)
  {
    hide Step, Writing;
    if n in s'.cache {
      OthersStand(s, s', t, c);
      FileChangesByWriting(s, s', t, c, n);
      CacheChangesByCarrying(s, s', t, c, n);
      if !Writing(s'.threads[t], n) {
        if Carrying(s.threads[t], n) && s'.cache[n] == s.threads[t].data {
          assert CarriesFile(s, s.threads[t], n);
        } else if !OnDisk(s, n, s.cache[n]) {
          var u :| 0 <= u < |s.threads| && Writing(s.threads[u], n);
          assert Writing(s'.threads[u], n);
        }
      }
    }
  }

  /** If only current versions are saved under n and no overlap of that kind occurs for n, every run
      keeps n coherent, whatever happens to other names. */
  lemma {:induction false} AllCoherent(run: seq<State>, n: string)
    requires Run(run)
    requires forall i :: 0 <= i < |run| ==> NoOverlap(run[i], n) && CurrentVersion(run[i], n)
    ensures Coherent(run[|run| - 1], n)
  {
    hide Next, NoOverlap, CurrentVersion;
    if |run| > 1 {
      var front := run[..|run| - 1];
      AllCoherent(front, n);
      assert Next(run[|run| - 2], run[|run| - 1]);
      CoherentStep(run[|run| - 2], run[|run| - 1], n);
    }
  }

  /** The cache holds something else than what the file parses to. */
  ghost predicate Stale(s: State, n: string) {
    n in s.cache && !OnDisk(s, n, s.cache[n])
  }

  /** Then n is stale at most while a Save or Remove of n is halfway. */
  lemma QuiescentCacheIsTheFile(run: seq<State>, n: string)
    requires Run(run)
    requires forall i :: 0 <= i < |run| ==> NoOverlap(run[i], n) && CurrentVersion(run[i], n)
    requires var s := run[|run| - 1]; forall t :: 0 <= t < |s.threads| ==> !Writing(s.threads[t], n)
    ensures !Stale(run[|run| - 1], n)
  {
    hide Run, NoOverlap, CurrentVersion, OnDisk;
    AllCoherent(run, n);
  }

  // ---------- Exactly when a name can end stale ----------

  /** A step of a call in flight; none is started. */
  ghost predicate FinishStep(s: State, s': State) {
    exists t: nat, c :: t < |s.threads| && !s.threads[t].Idle? && Step(s, s', t, c)
  }

  /** A way to finish the calls in flight in s, with nobody left in a call. */
  ghost predicate Finishing(run: seq<State>, s: State) {
    && run != [] && run[0] == s
    && (forall i :: 0 <= i < |run| - 1 ==> FinishStep(run[i], run[i + 1]))
    && AllIdle(run[|run| - 1])
  }

  ghost predicate AllIdle(s: State) {
    forall t :: 0 <= t < |s.threads| ==> s.threads[t].Idle?
  }

  ghost predicate CanEndStale(s: State, n: string) {
    exists run :: Finishing(run, s) && Stale(run[|run| - 1], n)
  }

  lemma {:induction false} FinishingKeepsCoherent(run: seq<State>, s: State, n: string, i: nat)
    requires Finishing(run, s) && Coherent(s, n) && i < |run|
    ensures Coherent(run[i], n)
  {
    hide FinishStep, CacheOk, Mismatched;
    if i > 0 {
      FinishingKeepsCoherent(run, s, n, i - 1);
      assert FinishStep(run[i - 1], run[(i - 1) + 1]);
      FinishStepKeepsCoherent(run[i - 1], run[i], n);
    }
  }

  lemma FinishStepKeepsCoherent(s: State, s': State, n: string)
    requires Coherent(s, n) && FinishStep(s, s')
    ensures Coherent(s', n)
  {
    hide Step, CacheOk, CarriesFile;
    var t: nat, c :| t < |s.threads| && !s.threads[t].Idle? && Step(s, s', t, c);
    CacheStaysOk(s, s', t, c, n);
    OthersStand(s, s', t, c);
    FinishStepKeepsFiles(s, s', t, c, n);
    forall u | 0 <= u < |s'.threads| ensures CarriesFile(s', s'.threads[u], n) {
      assert CarriesFile(s, s.threads[u], n);
      SameFileSameCarried(s, s', s'.threads[u], n);
    }
  }

  /** Finishing changes no file, and what its thread then carries is what it has just read. */
  lemma FinishStepKeepsFiles(s: State, s': State, t: nat, c: Call, n: string)
    requires t < |s.threads| && !s.threads[t].Idle? && Step(s, s', t, c)
    ensures s'.disk == s.disk && t < |s'.threads| && CarriesFile(s', s'.threads[t], n)
  {
  }

  lemma SameFileSameCarried(s: State, s': State, p: Phase, n: string)
    requires s'.disk == s.disk
    ensures CarriesFile(s, p, n) <==> CarriesFile(s', p, n)
  {
  }

  /** The state after thread t has finished its call, by its last step or, before that, by a failure. */
  function Finished(s: State, t: nat): State
    requires t < |s.threads|
  {
    match s.threads[t]
    case GetLoaded(m, data) => At(s, t, Idle).(cache := s.cache[m := data], returned := s.returned + {(m, data)})
    case SaveWritten(m, data) => At(s, t, Idle).(cache := s.cache[m := data])
    case RemoveDeleted(m) => At(s, t, Idle).(cache := s.cache - {m})
    case _ => At(s, t, Idle)
  }

  lemma FinishedByAStep(s: State, t: nat)
    requires t < |s.threads| && !s.threads[t].Idle?
    ensures FinishStep(s, Finished(s, t))
  {
    var c := match s.threads[t]
             case SaveWritten(m, data) => Save(m, data)
             case RemoveDeleted(m) => Remove(m)
             case ExistsMissed(m) => Exists(m)
             case GetMissed(m) => Get(m)
             case GetLoaded(m, _) => Get(m)
             case Idle => Get("");
    assert Step(s, Finished(s, t), t, c);
  }

  /** The run finishes thread u last, and no file changes. */
  ghost predicate FinishesLast(run: seq<State>, s: State, u: nat) {
    && Finishing(run, s)
    && exists before: State :: LastBefore(before, s, u) && run[|run| - 1] == Finished(before, u)
  }

  predicate LastBefore(before: State, s: State, u: nat) {
    u < |s.threads| == |before.threads| && before.threads[u] == s.threads[u] && before.disk == s.disk
  }

  /** One after the other, every thread from k on except u finishes, and then u. */
  lemma {:induction false} FinishLast(s: State, u: nat, k: nat) returns (run: seq<State>)
    requires u < |s.threads| && !s.threads[u].Idle? && k <= |s.threads|
    requires forall t :: 0 <= t < k && t != u ==> s.threads[t].Idle?
    ensures FinishesLast(run, s, u)
    decreases |s.threads| - k
  {
    hide FinishStep, FinishesLast, Finished;
    if k == |s.threads| {
      run := [s, Finished(s, u)];
      LastOne(s, u);
    } else if k == u || s.threads[k].Idle? {
      run := FinishLast(s, u, k + 1);
    } else {
      FinishedLeavesOthers(s, k);
      FinishedByAStep(s, k);
      var rest := FinishLast(Finished(s, k), u, k + 1);
      run := [s] + rest;
      OneStepFirst(s, Finished(s, k), rest, u);
    }
  }

  lemma FinishedLeavesOthers(s: State, t: nat)
    requires t < |s.threads|
    ensures Finished(s, t).disk == s.disk && |Finished(s, t).threads| == |s.threads| && Finished(s, t).threads[t].Idle?
    ensures forall u :: 0 <= u < |s.threads| && u != t ==> Finished(s, t).threads[u] == s.threads[u]
  {
  }

  lemma LastOne(s: State, u: nat)
    requires u < |s.threads| && !s.threads[u].Idle? && forall t :: 0 <= t < |s.threads| && t != u ==> s.threads[t].Idle?
    ensures FinishesLast([s, Finished(s, u)], s, u)
  {
    hide FinishStep, Finished;
    FinishedLeavesOthers(s, u);
    FinishedByAStep(s, u);
    assert LastBefore(s, s, u);
  }

  lemma OneStepFirst(s: State, next: State, rest: seq<State>, u: nat)
    requires FinishStep(s, next) && FinishesLast(rest, next, u) && LastBefore(next, s, u)
    ensures FinishesLast([s] + rest, s, u)
  {
    hide FinishStep, Finished, AllIdle;
    var run := [s] + rest;
    forall i | 0 <= i < |run| - 1 ensures FinishStep(run[i], run[i + 1]) {
      if i > 0 {
        assert run[i] == rest[i - 1] && run[i + 1] == rest[(i - 1) + 1];
      }
    }
    var before: State :| LastBefore(before, next, u) && rest[|rest| - 1] == Finished(before, u);
    assert LastBefore(before, s, u);
  }

  /** From a state whose cache is right, finishing the calls in flight can leave n stale if and only if
      one of them carries a lock that the file of n does not hold. */
  lemma CanEndStaleIff(s: State, n: string)
    requires CacheOk(s, n)
    ensures CanEndStale(s, n) <==> Mismatched(s, n)
  {
    hide FinishStep, Finished;
    if u: nat :| u < |s.threads| && !CarriesFile(s, s.threads[u], n) {
      var run := FinishLast(s, u, 0);
      var before: State :| LastBefore(before, s, u) && run[|run| - 1] == Finished(before, u);
      FinishedMismatch(s, before, u, n);
    }
    if !Mismatched(s, n) {
      forall run | Finishing(run, s) ensures !Stale(run[|run| - 1], n) {
        FinishingKeepsCoherent(run, s, n, |run| - 1);
      }
    }
  }

  lemma FinishedMismatch(s: State, before: State, u: nat, n: string)
    requires LastBefore(before, s, u) && !CarriesFile(s, s.threads[u], n)
    ensures Stale(Finished(before, u), n)
  {
    hide Parse;
  }

  /** The cache is right up to and including the first mismatch of a run. */
  lemma {:induction false} CacheOkUntilMismatch(run: seq<State>, n: string, i: nat)
    requires Run(run) && i < |run| && forall j :: 0 <= j < i ==> !Mismatched(run[j], n)
    ensures CacheOk(run[i], n)
  {
    hide Next, Mismatched, CacheOk;
    if i == 0 {
      NothingCached(run[0], n);
    } else {
      CacheOkUntilMismatch(run, n, i - 1);
      assert Next(run[i - 1], run[(i - 1) + 1]);
      NextKeepsCacheOk(run[i - 1], run[i], n);
    }
  }

  lemma NothingCached(s: State, n: string)
    requires Init(s)
    ensures CacheOk(s, n)
  {
  }

  lemma NextKeepsCacheOk(s: State, s': State, n: string)
    requires Coherent(s, n) && Next(s, s')
    ensures CacheOk(s', n)
  {
    hide Step, CacheOk, Mismatched;
    var t: nat, c :| t < |s.threads| && Step(s, s', t, c);
    CacheStaysOk(s, s', t, c, n);
  }

  /** For every run and every name: the calls in flight at some moment of it could have been finished so
      that n is stale with nobody in a call, if and only if at some moment a call carried a lock for n
      that the file of n did not hold. */
  lemma RunCanEndStaleIff(run: seq<State>, n: string)
    requires Run(run)
    ensures (exists i :: 0 <= i < |run| && CanEndStale(run[i], n)) <==> (exists i :: 0 <= i < |run| && Mismatched(run[i], n))
  {
    hide Run, CanEndStale, Mismatched, CacheOk;
    if exists i :: 0 <= i < |run| && Mismatched(run[i], n) {
      var i := FirstMismatch(run, n, 0);
      CacheOkUntilMismatch(run, n, i);
      CanEndStaleIff(run[i], n);
    } else {
      forall i | 0 <= i < |run| ensures !CanEndStale(run[i], n) {
        CacheOkUntilMismatch(run, n, i);
        CanEndStaleIff(run[i], n);
      }
    }
  }

  lemma {:induction false} FirstMismatch(run: seq<State>, n: string, k: nat) returns (i: nat)
    requires k <= |run| && (forall j :: 0 <= j < k ==> !Mismatched(run[j], n))
    requires exists j :: 0 <= j < |run| && Mismatched(run[j], n)
    ensures i < |run| && Mismatched(run[i], n) && forall j :: 0 <= j < i ==> !Mismatched(run[j], n)
    decreases |run| - k
  {
    hide Mismatched;
    if Mismatched(run[k], n) {
      i := k;
    } else {
      i := FirstMismatch(run, n, k + 1);
    }
  }

  // ---------- Every kind of overlap can end stale ----------

  lemma Took(s: State, s': State, t: nat, c: Call)
    requires t < |s.threads| && Step(s, s', t, c)
    ensures Next(s, s')
  {
  }

  /** A run of calls of some kinds only, all over at the end, with the cache wrong for good. */
  ghost predicate EndsStale(run: seq<State>, n: string, gets: bool, saves: bool, removes: bool) {
    && Run(run) && run[|run| - 1].threads == [Idle, Idle] && Stale(run[|run| - 1], n)
    && forall i, t :: 0 <= i < |run| && 0 <= t < |run[i].threads| ==> OfKind(run[i].threads[t], gets, saves, removes)
  }

  predicate OfKind(p: Phase, gets: bool, saves: bool, removes: bool) {
    p.Idle? || (gets && (p.GetMissed? || p.GetLoaded?)) || (saves && p.SaveWritten?) || (removes && p.RemoveDeleted?)
  }

  lemma FourSteps(s0: State, s1: State, s2: State, s3: State, s4: State)
    requires Init(s0) && Next(s0, s1) && Next(s1, s2) && Next(s2, s3) && Next(s3, s4)
    ensures Run([s0, s1, s2, s3, s4])
  {
    hide Init, Next;
    var run := [s0, s1, s2, s3, s4];
    forall i | 0 <= i < |run| - 1 ensures Next(run[i], run[i + 1]) {
      assert i == 0 || i == 1 || i == 2 || i == 3;
    }
  }

  lemma OneMoreStep(run: seq<State>, s: State)
    requires Run(run) && Next(run[|run| - 1], s)
    ensures Run(run + [s])
  {
    hide Init, Next;
    var longer := run + [s];
    forall i | 0 <= i < |longer| - 1 ensures Next(longer[i], longer[i + 1]) {
      if i < |run| - 1 {
        assert longer[i] == run[i] && longer[i + 1] == run[i + 1];
      }
    }
  }

  /** A Get that read the old file caches it after a Save has finished. */
  lemma GetDuringSaveEndsStale(n: string, before: LockData, after: LockData) returns (run: seq<State>)
    requires before.version == CURRENT_VERSION && before != after
    ensures EndsStale(run, n, true, true, false)
  {
    hide Run, Next;
    var s0 := State(map[n := Toml(before)], map[], [Idle, Idle], {}, {});
    var s1 := At(s0, 0, GetMissed(n));
    var s2 := At(s1, 0, GetLoaded(n, before));
    var s3 := At(s2, 1, SaveWritten(n, after)).(disk := s2.disk[n := Toml(after)]);
    var s4 := At(s3, 1, Idle).(cache := s3.cache[n := after]);
    var s5 := At(s4, 0, Idle).(cache := s4.cache[n := before], returned := {(n, before)});
    Took(s0, s1, 0, Get(n));
    Took(s1, s2, 0, Get(n));
    Took(s2, s3, 1, Save(n, after));
    Took(s3, s4, 1, Save(n, after));
    Took(s4, s5, 0, Get(n));
    FourSteps(s0, s1, s2, s3, s4);
    OneMoreStep([s0, s1, s2, s3, s4], s5);
    run := [s0, s1, s2, s3, s4] + [s5];
  }

  /** A Get that read a file caches it after the file has been removed. */
  lemma GetDuringRemoveEndsStale(n: string, data: LockData) returns (run: seq<State>)
    requires data.version == CURRENT_VERSION
    ensures EndsStale(run, n, true, false, true)
  {
    hide Run, Next;
    var s0 := State(map[n := Toml(data)], map[], [Idle, Idle], {}, {});
    var s1 := At(s0, 0, GetMissed(n));
    var s2 := At(s1, 0, GetLoaded(n, data));
    var s3 := At(s2, 1, RemoveDeleted(n)).(disk := s2.disk - {n});
    var s4 := At(s3, 1, Idle).(cache := s3.cache - {n});
    var s5 := At(s4, 0, Idle).(cache := s4.cache[n := data], returned := {(n, data)});
    Took(s0, s1, 0, Get(n));
    Took(s1, s2, 0, Get(n));
    Took(s2, s3, 1, Remove(n));
    Took(s3, s4, 1, Remove(n));
    Took(s4, s5, 0, Get(n));
    FourSteps(s0, s1, s2, s3, s4);
    OneMoreStep([s0, s1, s2, s3, s4], s5);
    run := [s0, s1, s2, s3, s4] + [s5];
  }

  /** Of two Saves one writes the file last and the other the cache, without any Get. */
  lemma SaveDuringSaveEndsStale(n: string, first: LockData, second: LockData) returns (run: seq<State>)
    requires first != second
    ensures EndsStale(run, n, false, true, false)
  {
    hide Run, Next;
    var s0 := State(map[], map[], [Idle, Idle], {}, {});
    var s1 := At(s0, 0, SaveWritten(n, first)).(disk := map[n := Toml(first)]);
    var s2 := At(s1, 1, SaveWritten(n, second)).(disk := s1.disk[n := Toml(second)]);
    var s3 := At(s2, 1, Idle).(cache := s2.cache[n := second]);
    var s4 := At(s3, 0, Idle).(cache := s3.cache[n := first]);
    Took(s0, s1, 0, Save(n, first));
    Took(s1, s2, 1, Save(n, second));
    Took(s2, s3, 1, Save(n, second));
    Took(s3, s4, 0, Save(n, first));
    FourSteps(s0, s1, s2, s3, s4);
    run := [s0, s1, s2, s3, s4];
  }

  /** A Save caches its lock after its file has been removed again. */
  lemma SaveDuringRemoveEndsStale(n: string, data: LockData) returns (run: seq<State>)
    ensures EndsStale(run, n, false, true, true)
  {
    hide Run, Next;
    var s0 := State(map[], map[], [Idle, Idle], {}, {});
    var s1 := At(s0, 0, SaveWritten(n, data)).(disk := map[n := Toml(data)]);
    var s2 := At(s1, 1, RemoveDeleted(n)).(disk := s1.disk - {n});
    var s3 := At(s2, 1, Idle).(cache := s2.cache - {n});
    var s4 := At(s3, 0, Idle).(cache := s3.cache[n := data]);
    Took(s0, s1, 0, Save(n, data));
    Took(s1, s2, 1, Remove(n));
    Took(s2, s3, 1, Remove(n));
    Took(s3, s4, 0, Save(n, data));
    FourSteps(s0, s1, s2, s3, s4);
    run := [s0, s1, s2, s3, s4];
  }

  /** One Save of another version is enough. */
  lemma ForeignVersionEndsStale(n: string, data: LockData) returns (run: seq<State>)
    requires data.version != CURRENT_VERSION
    ensures EndsStale(run, n, false, true, false)
    ensures forall i :: 0 <= i < |run| ==> NoOverlap(run[i], n)
  {
    hide Run, Next;
    var s0 := State(map[], map[], [Idle, Idle], {}, {});
    var s1 := At(s0, 0, SaveWritten(n, data)).(disk := map[n := Toml(data)]);
    var s2 := At(s1, 0, Idle).(cache := map[n := data]);
    Took(s0, s1, 0, Save(n, data));
    Took(s1, s2, 0, Save(n, data));
    NoStep(s0);
    OneMoreStep([s0], s1);
    OneMoreStep([s0] + [s1], s2);
    run := [s0] + [s1] + [s2];
  }

  lemma NoStep(s: State)
    requires Init(s)
    ensures Run([s])
  {
  }
}
