/** internal/providers/sourceproviders/sourcemanager.go: acquiring a component's source files.

    Each file comes from the lookaside cache, a file provider or its configured origin, in that
    order. The network and the providers may do anything, but only to the file they were asked
    for; what is proved is what a whole successful run leaves on disk in spite of them. */
module SourceManagers {
  import opened Wrappers
  import opened Strings
  import opened FileUtils

  datatype OriginType = NoOrigin | Download | Custom | Overlay | OtherOrigin(name: string)

  datatype SourceFileReference = SourceFileReference(
    filename: string,
    hash: string,
    hashType: string,
    originType: OriginType,
    originUri: string)
  {
    predicate HasHash() {
      hash != "" && hashType != ""
    }
  }

  datatype FetchError =
    | InvalidFilename(filename: string)
    | NoProviderForCustom(filename: string)
    | ProviderFailed(filename: string)
    | HashMismatch(filename: string)
    | OriginsDisabled(filename: string)
    | NoOriginConfigured(filename: string)
    | NoUri(filename: string)
    | UnsupportedOrigin(filename: string)
    | LookasideUnavailable(filename: string)
    | DownloadFailed(filename: string)

  /** Where a file is asked for. */
  datatype Via = Lookaside | Provider(index: nat) | Origin

  /** Served: the file is there and, if it declares a hash, has it. Fatal: no other place is asked. */
  datatype Answer = Served | NotServed | Fatal

  /** A provider makes the file, does not know it, or fails. */
  datatype Outcome = Produced | Declined | Failed

  /** What goes out to the world: one download attempt, or one question to a provider, with what came
      back and what was "left" at the destination. */
  datatype Call =
    | HttpGet(url: string, ok: bool, left: Option<string>)
    | AskProvider(index: nat, ref: SourceFileReference, outcome: Outcome, left: Option<string>)

  /** A place asked for a file, what came of it, and the calls it took. */
  datatype Request = Request(ref: SourceFileReference, via: Via, answer: Answer, calls: seq<Call>)

  /** All the calls of some requests, in order. */
  ghost function Made(asked: seq<Request>): seq<Call> {
    if asked == [] then [] else Made(asked[..|asked| - 1]) + asked[|asked| - 1].calls
  }

  lemma {:induction false} MadeAppend(a: seq<Request>, b: seq<Request>)
    ensures Made(a + b) == Made(a) + Made(b)
  {
    if b == [] {
      assert a + b == a;
    } else {
      assert (a + b)[..|a + b| - 1] == a + b[..|b| - 1] && (a + b)[|a + b| - 1] == b[|b| - 1];
      MadeAppend(a, b[..|b| - 1]);
    }
  }

  lemma MadeOne(q: Request)
    ensures Made([q]) == q.calls && Made([]) == []
  {
    assert [q][..0] == [];
  }

  /** The requests of several files, one after the other. */
  ghost function Flat(chains: seq<seq<Request>>): seq<Request> {
    if chains == [] then [] else Flat(chains[..|chains| - 1]) + chains[|chains| - 1]
  }

  lemma FlatSnoc(chains: seq<seq<Request>>, last: seq<Request>)
    ensures Flat(chains + [last]) == Flat(chains) + last
  {
    assert (chains + [last])[..|chains|] == chains;
  }

  function DestPath(destDir: string, filename: string): string {
    destDir + "/" + filename
  }

  // ---------- The filesystem ----------

  /** Files by path. Removing a path in "locked" is refused. */
  class FileSystem {
    var files: map<string, string>
    const locked: set<string>

    constructor (files: map<string, string>, locked: set<string>)
      ensures this.files == files && this.locked == locked
    {
      this.files, this.locked := files, locked;
    }

    /** Fails, changing nothing, when there is no such file or removing it is refused. */
    method Remove(path: string) returns (ok: bool)
      modifies this
      ensures ok <==> path in old(files) && path !in locked
      ensures files == if ok then old(files) - {path} else old(files)
    {
      ok := path in files && path !in locked;
      if ok {
        files := files - {path};
      }
    }
  }

  /** Nothing but "path" differs between two states of the disk. */
  ghost predicate OnlyAt(path: string, before: map<string, string>, after: map<string, string>) {
    before - {path} == after - {path}
  }

  lemma OnlyAtItself(path: string, files: map<string, string>)
    ensures OnlyAt(path, files, files)
  {
  }

  lemma RemovedOnlyAt(path: string, before: map<string, string>, after: map<string, string>)
    requires after == before || after == before - {path}
    ensures OnlyAt(path, before, after)
  {
  }

  lemma OnlyAtTwice(path: string, first: map<string, string>, second: map<string, string>, third: map<string, string>)
    requires OnlyAt(path, first, second) && OnlyAt(path, second, third)
    ensures OnlyAt(path, first, third)
  {
  }

  lemma OnlyAtElsewhere(path: string, before: map<string, string>, after: map<string, string>, other: string)
    requires OnlyAt(path, before, after) && other != path
    ensures other in after <==> other in before
    ensures other in before ==> after[other] == before[other]
  {
    assert other in before <==> other in before - {path};
    assert other in after <==> other in after - {path};
    assert other in before ==> (before - {path})[other] == before[other];
    assert other in after ==> (after - {path})[other] == after[other];
  }

  // ---------- Hashes ----------

  function ContentAt(files: map<string, string>, path: string): Option<string> {
    if path in files then Some(files[path]) else None
  }

  /** The content has the hash the reference declares; "hashOf" computes hashes by type. */
  ghost predicate Matches(hashOf: (string, string) -> Option<string>, content: string, ref: SourceFileReference) {
    var actual := hashOf(ref.hashType, content);
    actual.Some? && ToLower(actual.value) == ToLower(ref.hash)
  }

  /** A hash could be computed and is the expected one, case aside. */
  ghost predicate HashIs(actual: Option<string>, expected: string) {
    actual.Some? && EqualFold(actual.value, expected)
  }

  /** The file has the hash the reference declares. */
  ghost predicate Verified(hashOf: (string, string) -> Option<string>, files: map<string, string>, path: string,
                           ref: SourceFileReference) {
    path in files && Matches(hashOf, files[path], ref)
  }

  /** Every entry that is fetched and declares a hash has it on disk. */
  ghost predicate AllVerified(hashOf: (string, string) -> Option<string>, files: map<string, string>, destDir: string,
                              refs: seq<SourceFileReference>) {
    forall i :: 0 <= i < |refs| && refs[i].originType != Overlay && refs[i].HasHash() ==>
      Verified(hashOf, files, DestPath(destDir, refs[i].filename), refs[i])
  }

  // ---------- The manager ----------

  /** retry.normalizeConfig makes the number of attempts positive. */
  type Attempts = n: nat | n > 0 witness 3

  class SourceManager {
    const fs: FileSystem
    const hashOf: (string, string) -> Option<string>
    const fileProviders: nat                         // how many are registered
    const lookasideUrl: SourceFileReference -> Option<string>   // None: not configured, or no URL can be built
    const disableOrigins: bool
    const dryRun: bool
    const maxAttempts: Attempts
    ghost var calls: seq<Call>                       // everything that went out, in order
    ghost var cancellations: nat                     // how often the caller cancelled a wait

    constructor (fs: FileSystem, hashOf: (string, string) -> Option<string>, fileProviders: nat,
                 lookasideUrl: SourceFileReference -> Option<string>, disableOrigins: bool, dryRun: bool, maxAttempts: int)
      ensures this.fs == fs && this.hashOf == hashOf && this.disableOrigins == disableOrigins && this.dryRun == dryRun
      ensures this.fileProviders == fileProviders && this.lookasideUrl == lookasideUrl && calls == [] && cancellations == 0
      ensures this.maxAttempts == if maxAttempts > 0 then maxAttempts else 3
    {
      this.fs, this.hashOf, this.fileProviders, this.lookasideUrl := fs, hashOf, fileProviders, lookasideUrl;
      this.disableOrigins, this.dryRun := disableOrigins, dryRun;
      this.maxAttempts := if maxAttempts > 0 then maxAttempts else 3;
      calls, cancellations := [], 0;
    }

    /** One HTTP download: writes anything at its destination, or fails. */
    method HttpDownload(url: string, destPath: string) returns (ok: bool)
      modifies fs, this`calls
      ensures OnlyAt(destPath, old(fs.files), fs.files) && calls == old(calls) + [HttpGet(url, ok, ContentAt(fs.files, destPath))]
      ensures destPath in old(fs.files) ==> destPath in fs.files
      ensures dryRun ==> ok && fs.files == old(fs.files)
    {
      ok := *;
      if dryRun {
        ok := true;
      } else if * {
        var content: string := *;
        fs.files := fs.files[destPath := content];
      }
      calls := calls + [HttpGet(url, ok, ContentAt(fs.files, destPath))];
    }

    /** The wait before another attempt, which the caller may cancel. */
    method Wait() returns (cancelled: bool)
      modifies this`cancellations
      ensures cancellations == old(cancellations) + if cancelled then 1 else 0
    {
      cancelled := *;
      if cancelled {
        cancellations := cancellations + 1;
      }
    }

    /** A registered provider: produces the file, declines it, or fails; it writes nothing else. */
    method ProviderGetFile(index: nat, ref: SourceFileReference, destPath: string) returns (outcome: Outcome)
      modifies fs, this`calls
      ensures OnlyAt(destPath, old(fs.files), fs.files)
      ensures calls == old(calls) + [AskProvider(index, ref, outcome, ContentAt(fs.files, destPath))]
    {
      if * {
        var content: string := *;
        fs.files := fs.files[destPath := content];
      }
      outcome := *;
      calls := calls + [AskProvider(index, ref, outcome, ContentAt(fs.files, destPath))];
    }

    method ValidateFileHash(ref: SourceFileReference, path: string) returns (ok: bool)
      ensures ok <==> dryRun || Verified(hashOf, fs.files, path, ref)
      ensures ok && !dryRun ==> path in fs.files && HashIs(hashOf(ref.hashType, fs.files[path]), ref.hash)
      ensures !ok && path in fs.files ==> !HashIs(hashOf(ref.hashType, fs.files[path]), ref.hash)
    {
      if dryRun {
        return true;
      }
      if path !in fs.files {
        return false;
      }
      var actual := hashOf(ref.hashType, fs.files[path]);
      if actual.Some? {
        ToLowerFolds(actual.value, ref.hash);
      }
      ok := actual.Some? && ToLower(actual.value) == ToLower(ref.hash);
    }

    /** What was left is as the reference wants it: a declared hash counts, except in a dry run. */
    ghost predicate Acceptable(ref: SourceFileReference, left: Option<string>) {
      dryRun || !ref.HasHash() || (left.Some? && Matches(hashOf, left.value, ref))
    }

    ghost predicate Good(ref: SourceFileReference, c: Call) {
      c.HttpGet? && c.ok && Acceptable(ref, c.left)
    }

    /** Between one and maxAttempts downloads of one URL, of which only the last can be good. */
    ghost predicate Attempted(url: string, ref: SourceFileReference, made: seq<Call>, ok: bool) {
      && 0 < |made| <= maxAttempts && (ok <==> Good(ref, made[|made| - 1]))
      && forall k :: 0 <= k < |made| ==> made[k].HttpGet? && made[k].url == url && (k < |made| - 1 ==> !Good(ref, made[k]))
    }

    lemma {:induction false} OneMoreAttempt(url: string, ref: SourceFileReference, made: seq<Call>, got: bool, left: Option<string>)
      requires |made| < maxAttempts && (made == [] || Attempted(url, ref, made, false))
      ensures Attempted(url, ref, made + [HttpGet(url, got, left)], got && Acceptable(ref, left))
    {
      hide Acceptable;
    }

    /** What becomes of a file after a provider's outcome. */
    ghost function AnswerFor(ref: SourceFileReference, c: Call): Answer
      requires c.AskProvider?
    {
      match c.outcome
      case Produced => if Acceptable(ref, c.left) then Served else Fatal
      case Declined => NotServed
      case Failed => Fatal
    }

    /** Retries up to maxAttempts times, unless cancelled, and cleans up after the last failure. A file that can be removed
        is then gone; one that cannot be removed stays if it was there before, or if a download
        ("wrote") left one. */
    method DownloadAndValidate(url: string, destPath: string, ref: SourceFileReference)
      returns (ok: bool, ghost wrote: bool, ghost made: seq<Call>)
      modifies fs, this`calls, this`cancellations
      ensures OnlyAt(destPath, old(fs.files), fs.files)
      ensures calls == old(calls) + made && Attempted(url, ref, made, ok)
      ensures !ok ==> |made| == maxAttempts || cancellations > old(cancellations)
      ensures ok && !dryRun && ref.HasHash() ==> Verified(hashOf, fs.files, destPath, ref)
      ensures !ok && destPath !in fs.locked ==> destPath !in fs.files
      ensures !ok && destPath in fs.locked && destPath in old(fs.files) ==> destPath in fs.files
      ensures !ok ==> (destPath in fs.files <==> destPath in fs.locked && (destPath in old(fs.files) || wrote))
    {
      hide Matches, OnlyAt, Attempted;
      wrote, made := false, [];
      var attempt := 0;
      ok := false;
      OnlyAtItself(destPath, fs.files);
      while attempt < maxAttempts && !ok
        invariant attempt <= maxAttempts && (ok ==> attempt > 0) && cancellations == old(cancellations)
        invariant OnlyAt(destPath, old(fs.files), fs.files)
        invariant calls == old(calls) + made && |made| == attempt && (made == [] || Attempted(url, ref, made, ok))
        invariant ok && !dryRun && ref.HasHash() ==> Verified(hashOf, fs.files, destPath, ref)
        invariant destPath in fs.locked ==> (destPath in fs.files <==> destPath in old(fs.files) || wrote)
        invariant destPath in fs.files ==> destPath in old(fs.files) || wrote
        decreases maxAttempts - attempt, !ok
      {
        attempt := attempt + 1;
        ghost var start := fs.files;
        var removed := fs.Remove(destPath);
        RemovedOnlyAt(destPath, start, fs.files);
        ghost var before := fs.files;
        ok := HttpDownload(url, destPath);
        OnlyAtTwice(destPath, start, before, fs.files);
        OnlyAtTwice(destPath, old(fs.files), start, fs.files);
        OneMoreAttempt(url, ref, made, ok, ContentAt(fs.files, destPath));
        made := made + [HttpGet(url, ok, ContentAt(fs.files, destPath))];
        wrote := wrote || (destPath !in before && destPath in fs.files);
        if ok && ref.HasHash() {
          ok := ValidateFileHash(ref, destPath);
        }
        if !ok && attempt < maxAttempts {
          var cancelled := Wait();
          if cancelled {
            break;
          }
        }
      }
      if !ok {
        ghost var start := fs.files;
        var removed := fs.Remove(destPath);
        RemovedOnlyAt(destPath, start, fs.files);
        OnlyAtTwice(destPath, old(fs.files), start, fs.files);
      }
    }

    // ---------- The places a file may be asked for, in order ----------

    predicate LookedUp(ref: SourceFileReference) {
      ref.originType != Custom && ref.HasHash() && lookasideUrl(ref).Some?
    }

    predicate HasOrigin(ref: SourceFileReference) {
      !disableOrigins && ref.originType == Download && ref.originUri != ""
    }

    ghost function Vias(ref: SourceFileReference): seq<Via> {
      (if LookedUp(ref) then [Lookaside] else [])
      + seq(fileProviders, i requires 0 <= i < fileProviders => Provider(i))
      + (if HasOrigin(ref) then [Origin] else [])
    }

    ghost predicate OneProvider(q: Request, index: nat) {
      && |q.calls| == 1 && q.calls[0].AskProvider? && q.calls[0].index == index && q.calls[0].ref == q.ref
      && q.answer == AnswerFor(q.ref, q.calls[0])
    }

    /** The calls a request makes, and the answer they add up to: downloads of the URL of its place, or one
        question to its provider. A failure of the lookaside cache never ends the search. */
    ghost predicate Through(q: Request) {
      match q.via
      case Lookaside =>
        && lookasideUrl(q.ref).Some? && Attempted(lookasideUrl(q.ref).value, q.ref, q.calls, q.answer == Served)
        && q.answer != Fatal
      case Provider(index) => OneProvider(q, index)
      case Origin => Attempted(q.ref.originUri, q.ref, q.calls, q.answer == Served) && q.answer != NotServed
    }

    /** The requests made for one file: an initial part of its places, where only the last one asked
        can have served it or have ended the search. */
    ghost predicate Chain(ref: SourceFileReference, asked: seq<Request>) {
      && |asked| <= |Vias(ref)|
      && forall i :: 0 <= i < |asked| ==>
           && asked[i].ref == ref && asked[i].via == Vias(ref)[i] && Through(asked[i])
           && (i < |asked| - 1 ==> asked[i].answer == NotServed)
    }

    ghost predicate LastAnswer(asked: seq<Request>, answer: Answer) {
      asked != [] && asked[|asked| - 1].answer == answer
    }

    /** Every permitted place was asked, and none had the file. */
    ghost predicate Exhausted(ref: SourceFileReference, asked: seq<Request>) {
      |asked| == |Vias(ref)| && (asked != [] ==> LastAnswer(asked, NotServed))
    }

    /** Custom files, and files without hash information, are never looked up. */
    method TrySourceFileLookaside(ref: SourceFileReference, destPath: string) returns (ok: bool, ghost asked: seq<Request>)
      modifies fs, this`calls, this`cancellations
      ensures OnlyAt(destPath, old(fs.files), fs.files)
      ensures ok ==> LookedUp(ref) && (!dryRun ==> Verified(hashOf, fs.files, destPath, ref))
      ensures calls == old(calls) + Made(asked) && |asked| == (if LookedUp(ref) then 1 else 0)
      ensures forall q :: q in asked ==>
                q.ref == ref && q.via == Lookaside && q.answer == (if ok then Served else NotServed) && Through(q)
    {
      hide Verified, OnlyAt, Attempted;
      asked := [];
      OnlyAtItself(destPath, fs.files);
      if ref.originType == Custom || ref.hash == "" || ref.hashType == "" {
        return false, asked;
      }
      var url := lookasideUrl(ref);
      if url.None? {
        return false, asked;
      }
      ghost var wrote, made;
      ok, wrote, made := DownloadAndValidate(url.value, destPath, ref);
      asked := [Request(ref, Lookaside, if ok then Served else NotServed, made)];
      MadeOne(asked[0]);
    }

    /** What one provider's answer is recorded as. */
    ghost predicate ProviderChain(ref: SourceFileReference, asked: seq<Request>) {
      && |asked| <= fileProviders
      && forall i :: 0 <= i < |asked| ==>
           && asked[i].ref == ref && asked[i].via == Provider(i) && Through(asked[i])
           && (i < |asked| - 1 ==> asked[i].answer == NotServed)
    }

    lemma {:induction false} NextProvider(ref: SourceFileReference, asked: seq<Request>, q: Request)
      requires ProviderChain(ref, asked) && |asked| < fileProviders && (asked != [] ==> LastAnswer(asked, NotServed))
      requires q.ref == ref && q.via == Provider(|asked|) && OneProvider(q, |asked|)
      ensures ProviderChain(ref, asked + [q]) && Made(asked + [q]) == Made(asked) + q.calls
    {
      hide Made;
      MadeAppend(asked, [q]);
      MadeOne(q);
    }

    /** Providers in turn; the hash of what one produced is checked here. */
    method TryFileProviders(ref: SourceFileReference, destPath: string)
      returns (r: Result<bool, FetchError>, ghost asked: seq<Request>)
      modifies fs, this`calls, this`cancellations
      ensures OnlyAt(destPath, old(fs.files), fs.files)
      ensures r == Success(true) ==> !dryRun && ref.HasHash() ==> Verified(hashOf, fs.files, destPath, ref)
      ensures calls == old(calls) + Made(asked) && ProviderChain(ref, asked)
      ensures match r
              case Success(true) => LastAnswer(asked, Served)
              case Success(false) => |asked| == fileProviders && (asked != [] ==> LastAnswer(asked, NotServed))
              case Failure(_) => LastAnswer(asked, Fatal)
    {
      hide Matches, OnlyAt, Made, ProviderChain;
      asked := [];
      NoProviderYet(ref);
      OnlyAtItself(destPath, fs.files);
      for i := 0 to fileProviders
        invariant OnlyAt(destPath, old(fs.files), fs.files)
        invariant calls == old(calls) + Made(asked) && |asked| == i
        invariant ProviderChain(ref, asked) && (asked != [] ==> LastAnswer(asked, NotServed))
      {
        ghost var start := fs.files;
        var outcome := ProviderGetFile(i, ref, destPath);
        OnlyAtTwice(destPath, old(fs.files), start, fs.files);
        ghost var call := AskProvider(i, ref, outcome, ContentAt(fs.files, destPath));
        ghost var q := Request(ref, Provider(i), AnswerFor(ref, call), [call]);
        NextProvider(ref, asked, q);
        asked := asked + [q];
        match outcome
        case Produced =>
          if ref.HasHash() {
            var valid := ValidateFileHash(ref, destPath);
            if !valid {
              return Failure(HashMismatch(ref.filename)), asked;
            }
          }
          return Success(true), asked;
        case Declined =>
        case Failed =>
          return Failure(ProviderFailed(ref.filename)), asked;
      }
      r := Success(false);
    }

    lemma {:induction false} NoProviderYet(ref: SourceFileReference)
      ensures ProviderChain(ref, []) && Made([]) == []
    {
    }

    method FetchFromDownloadOrigin(ref: SourceFileReference, destPath: string)
      returns (r: Result<(), FetchError>, ghost asked: seq<Request>)
      modifies fs, this`calls, this`cancellations
      ensures OnlyAt(destPath, old(fs.files), fs.files)
      ensures r.Success? ==> ref.originType == Download && ref.originUri != ""
      ensures r.Success? && !dryRun && ref.HasHash() ==> Verified(hashOf, fs.files, destPath, ref)
      ensures calls == old(calls) + Made(asked)
      ensures |asked| == (if ref.originType == Download && ref.originUri != "" then 1 else 0)
      ensures forall q :: q in asked ==>
                q.ref == ref && q.via == Origin && q.answer == (if r.Success? then Served else Fatal) && Through(q)
    {
      hide Verified, OnlyAt, Attempted;
      asked := [];
      OnlyAtItself(destPath, fs.files);
      match ref.originType
      case Download =>
        if ref.originUri == "" {
          return Failure(NoUri(ref.filename)), asked;
        }
        var ok;
        ghost var wrote, made;
        ok, wrote, made := DownloadAndValidate(ref.originUri, destPath, ref);
        asked := [Request(ref, Origin, if ok then Served else Fatal, made)];
        MadeOne(asked[0]);
        r := if ok then Success(()) else Failure(DownloadFailed(ref.filename));
      case Custom =>
        r := Failure(NoProviderForCustom(ref.filename));
      case _ =>
        r := Failure(UnsupportedOrigin(ref.filename));
    }

    /** Asks the permitted places in priority order and stops at the first that serves the file or
        ends the search; succeeds exactly when the last place asked served it. */
    method FetchSourceFile(ref: SourceFileReference, destDir: string) returns (r: Result<(), FetchError>, ghost asked: seq<Request>)
      modifies fs, this`calls, this`cancellations
      ensures OnlyAt(DestPath(destDir, ref.filename), old(fs.files), fs.files)
      ensures calls == old(calls) + Made(asked) && Chain(ref, asked)
      ensures !ValidFilename(ref.filename) ==> r == Failure(InvalidFilename(ref.filename))
      ensures !ValidFilename(ref.filename) || ref.originType == Overlay ==> asked == [] && fs.files == old(fs.files)
      ensures ValidFilename(ref.filename) && ref.originType == Overlay ==> r.Success?
      ensures ValidFilename(ref.filename) && ref.originType != Overlay ==>
                if r.Success? then LastAnswer(asked, Served) else LastAnswer(asked, Fatal) || Exhausted(ref, asked)
      ensures r.Success? && ref.originType != Overlay && !dryRun && ref.HasHash() ==>
                Verified(hashOf, fs.files, DestPath(destDir, ref.filename), ref)
    {
      hide Verified, OnlyAt, Through, Made, Chain, ProviderChain, Vias;
      asked := [];
      NothingAsked(ref);
      OnlyAtItself(DestPath(destDir, ref.filename), fs.files);
      if !ValidFilename(ref.filename) {
        return Failure(InvalidFilename(ref.filename)), asked;
      }
      var destPath := DestPath(destDir, ref.filename);
      if ref.originType == Overlay {
        return Success(()), asked;
      }
      ghost var start := fs.files;
      var cached;
      ghost var lookaside;
      cached, lookaside := TrySourceFileLookaside(ref, destPath);
      NoProviderYet(ref);
      Places(ref, lookaside, [], []);
      asked := lookaside;
      assert lookaside + [] + [] == lookaside;
      if cached {
        return Success(()), asked;
      }
      ghost var middle := fs.files;
      var provided;
      ghost var fromProviders;
      provided, fromProviders := TryFileProviders(ref, destPath);
      OnlyAtTwice(destPath, start, middle, fs.files);
      Places(ref, lookaside, fromProviders, []);
      asked := lookaside + fromProviders;
      assert lookaside + fromProviders + [] == asked;
      if provided.Failure? {
        return Failure(provided.error), asked;
      }
      if provided.value {
        return Success(()), asked;
      }
      if disableOrigins {
        return Failure(OriginsDisabled(ref.filename)), asked;
      }
      if ref.originType == NoOrigin {
        return Failure(NoOriginConfigured(ref.filename)), asked;
      }
      middle := fs.files;
      ghost var fromOrigin;
      r, fromOrigin := FetchFromDownloadOrigin(ref, destPath);
      OnlyAtTwice(destPath, start, middle, fs.files);
      Places(ref, lookaside, fromProviders, fromOrigin);
      asked := lookaside + fromProviders + fromOrigin;
    }

    lemma {:induction false} NothingAsked(ref: SourceFileReference)
      ensures Chain(ref, []) && Made([]) == []
    {
    }

    /** The three stages line up with the places of the file. */
    lemma {:induction false} Places(ref: SourceFileReference, lookaside: seq<Request>, fromProviders: seq<Request>, fromOrigin: seq<Request>)
      requires |lookaside| == (if LookedUp(ref) then 1 else 0) && ProviderChain(ref, fromProviders)
      requires forall q :: q in lookaside ==> q.ref == ref && q.via == Lookaside && Through(q)
      requires forall q :: q in fromOrigin ==> q.ref == ref && q.via == Origin && Through(q)
      requires fromProviders != [] || fromOrigin != [] ==> forall q :: q in lookaside ==> q.answer == NotServed
      requires fromOrigin != [] ==>
                 |fromOrigin| == 1 && HasOrigin(ref) && |fromProviders| == fileProviders
                 && (fromProviders != [] ==> LastAnswer(fromProviders, NotServed))
      ensures var asked := lookaside + fromProviders + fromOrigin;
              && Chain(ref, asked) && Made(asked) == Made(lookaside) + Made(fromProviders) + Made(fromOrigin)
              && (asked != [] ==> asked[|asked| - 1] == if fromOrigin != [] then fromOrigin[0]
                                                        else if fromProviders != [] then fromProviders[|fromProviders| - 1]
                                                        else lookaside[0])
              && (|asked| == |Vias(ref)| <==>
                    |fromProviders| == fileProviders && (HasOrigin(ref) ==> fromOrigin != []))
    {
      hide Through, Made, Chain, Vias, LookedUp, HasOrigin;
      MadeAppend(lookaside + fromProviders, fromOrigin);
      MadeAppend(lookaside, fromProviders);
      PlacesInOrder(ref, lookaside, fromProviders, fromOrigin);
      CountOfPlaces(ref);
    }

    lemma {:induction false} CountOfPlaces(ref: SourceFileReference)
      ensures |Vias(ref)| == (if LookedUp(ref) then 1 else 0) + fileProviders + (if HasOrigin(ref) then 1 else 0)
    {
    }

    lemma {:induction false} PlacesInOrder(ref: SourceFileReference, lookaside: seq<Request>, fromProviders: seq<Request>, fromOrigin: seq<Request>)
      requires |lookaside| == (if LookedUp(ref) then 1 else 0) && ProviderChain(ref, fromProviders)
      requires forall q :: q in lookaside ==> q.ref == ref && q.via == Lookaside && Through(q)
      requires forall q :: q in fromOrigin ==> q.ref == ref && q.via == Origin && Through(q)
      requires fromProviders != [] || fromOrigin != [] ==> forall q :: q in lookaside ==> q.answer == NotServed
      requires fromOrigin != [] ==>
                 |fromOrigin| == 1 && HasOrigin(ref) && |fromProviders| == fileProviders
                 && (fromProviders != [] ==> LastAnswer(fromProviders, NotServed))
      ensures Chain(ref, lookaside + fromProviders + fromOrigin)
    {
      hide Through, LookedUp, HasOrigin, Vias;
      var asked := lookaside + fromProviders + fromOrigin;
      CountOfPlaces(ref);
      forall i | 0 <= i < |asked|
        ensures asked[i].ref == ref && asked[i].via == Vias(ref)[i] && Through(asked[i])
                && (i < |asked| - 1 ==> asked[i].answer == NotServed)
      {
        PlaceAt(ref, i);
        if i < |lookaside| {
          assert asked[i] == lookaside[i] && lookaside[i] in lookaside;
        } else if i < |lookaside| + |fromProviders| {
          assert asked[i] == fromProviders[i - |lookaside|];
        } else {
          assert asked[i] == fromOrigin[i - |lookaside| - |fromProviders|] && fromOrigin[0] in fromOrigin;
        }
      }
    }

    lemma {:induction false} PlaceAt(ref: SourceFileReference, i: nat)
      requires i < |Vias(ref)|
      ensures var first := if LookedUp(ref) then 1 else 0;
              Vias(ref)[i] == if i < first then Lookaside else if i < first + fileProviders then Provider(i - first) else Origin
    {
    }

    /** What a call may be made for: the lookaside URL or the origin of a fetched file with that place,
        or a registered provider. */
    ghost predicate Allowed(c: Call, refs: seq<SourceFileReference>) {
      exists ref :: ref in refs && ref.originType != Overlay
        && match c
           case HttpGet(url, _, _) => (LookedUp(ref) && lookasideUrl(ref) == Some(url)) || (HasOrigin(ref) && ref.originUri == url)
           case AskProvider(index, asked, _, _) => asked == ref && index < fileProviders
    }

    lemma {:induction false} ChainIsAllowed(ref: SourceFileReference, asked: seq<Request>, refs: seq<SourceFileReference>)
      requires Chain(ref, asked) && ref in refs && ref.originType != Overlay
      ensures forall c :: c in Made(asked) ==> Allowed(c, refs)
      decreases |asked|
    {
      if asked != [] {
        var front, last := asked[..|asked| - 1], asked[|asked| - 1];
        assert forall i :: 0 <= i < |front| ==> front[i] == asked[i];
        ChainIsAllowed(ref, front, refs);
        PlacesAreRestricted(ref);
        assert last.via in Vias(ref);
        forall c | c in last.calls ensures Allowed(c, refs) {
        }
      }
    }

    /** A custom file that nothing can make or check. */
    predicate Unprovided(ref: SourceFileReference) {
      ref.originType == Custom && fileProviders == 0 && !ref.HasHash()
    }

    /** A file is done: one that is not fetched without asking anybody, any other by the last place asked. */
    ghost predicate Finished(ref: SourceFileReference, asks: seq<Request>) {
      && ValidFilename(ref.filename) && !Unprovided(ref) && Chain(ref, asks)
      && if ref.originType == Overlay then asks == [] else LastAnswer(asks, Served)
    }

    /** A reason to give up on a file: it has no valid name, nothing can make it, a place ended the search,
        or no place is left. */
    ghost predicate GivenUp(ref: SourceFileReference, asks: seq<Request>) {
      if Unprovided(ref) || !ValidFilename(ref.filename) then asks == []
      else ref.originType != Overlay && Chain(ref, asks) && (LastAnswer(asks, Fatal) || Exhausted(ref, asks))
    }

    lemma {:induction false} EitherFinishedOrGivenUp(ref: SourceFileReference, asks: seq<Request>, ok: bool)
      requires Chain(ref, asks) && !Unprovided(ref)
      requires !ValidFilename(ref.filename) ==> !ok && asks == []
      requires ValidFilename(ref.filename) && ref.originType == Overlay ==> ok && asks == []
      requires ValidFilename(ref.filename) && ref.originType != Overlay ==>
                 if ok then LastAnswer(asks, Served) else LastAnswer(asks, Fatal) || Exhausted(ref, asks)
      ensures if ok then Finished(ref, asks) else GivenUp(ref, asks)
    {
      hide Chain, Exhausted, LastAnswer, Unprovided, ValidFilename;
    }

    /** Whatever the list, after a successful run each fetched entry that is the last of its name, and
        declares a hash, has it on disk, whichever way the file came. "chains" are the requests file by
        file: every file is finished, or the last one looked at is given up for a reason. */
    method FetchFiles(sourceFiles: seq<SourceFileReference>, destDir: string)
      returns (r: Result<(), FetchError>, ghost asked: seq<Request>, ghost chains: seq<seq<Request>>)
      modifies fs, this`calls, this`cancellations
      ensures asked == Flat(chains) && |chains| <= |sourceFiles|
      ensures forall i :: 0 <= i < |chains| && (r.Success? || i < |chains| - 1) ==> Finished(sourceFiles[i], chains[i])
      ensures r.Success? ==> |chains| == |sourceFiles|
      ensures r.Failure? ==> chains != [] && GivenUp(sourceFiles[|chains| - 1], chains[|chains| - 1])
      ensures r.Success? && !dryRun ==> LastVerified(hashOf, fs.files, destDir, sourceFiles)
      ensures r.Success? && !dryRun && LastAgrees(sourceFiles) ==> AllVerified(hashOf, fs.files, destDir, sourceFiles)
      ensures calls == old(calls) + Made(asked) && forall c :: c in Made(asked) ==> Allowed(c, sourceFiles)
      ensures r.Success? ==> forall ref :: ref in sourceFiles && ref.originType != Overlay ==>
                exists q :: q in asked && q.ref == ref && q.answer == Served
      ensures ElsewhereSame(old(fs.files), fs.files, destDir, sourceFiles)
    {
      hide *;
      asked, chains := [], [];
      NothingFetched(fs.files, destDir, sourceFiles);
      for i := 0 to |sourceFiles|
        invariant !dryRun ==> LastVerified(hashOf, fs.files, destDir, sourceFiles[..i])
        invariant calls == old(calls) + Made(asked) && forall c :: c in Made(asked) ==> Allowed(c, sourceFiles)
        invariant AllServed(sourceFiles[..i], asked)
        invariant asked == Flat(chains) && |chains| == i && forall j :: 0 <= j < i ==> Finished(sourceFiles[j], chains[j])
        invariant ElsewhereSame(old(fs.files), fs.files, destDir, sourceFiles)
      {
        var ref := sourceFiles[i];
        if ref.originType == Custom && fileProviders == 0 && !ref.HasHash() {
          NothingAskedFor(chains, ref);
          return Failure(NoProviderForCustom(ref.filename)), asked, chains + [[]];
        }
        Provided(ref);
        ghost var before, earlier := fs.files, asked;
        ghost var asks;
        r, asks := FetchSourceFile(ref, destDir);
        FlatSnoc(chains, asks);
        asked, chains := earlier + asks, chains + [asks];
        MadeAppend(earlier, asks);
        EitherFinishedOrGivenUp(ref, asks, r.Success?);
        AllowedStep(ref, asks, sourceFiles);
        ElsewhereStep(old(fs.files), before, fs.files, destDir, sourceFiles, i);
        if r.Failure? {
          return;
        }
        ServedStep(sourceFiles, i, earlier, asks);
        if !dryRun {
          LastVerifiedStep(hashOf, before, fs.files, destDir, sourceFiles, i);
        }
      }
      assert sourceFiles[..|sourceFiles|] == sourceFiles;
      EachServed(sourceFiles, asked);
      if LastAgrees(sourceFiles) && !dryRun {
        AgreeingAreVerified(hashOf, fs.files, destDir, sourceFiles);
      }
      r := Success(());
    }

    lemma {:induction false} Provided(ref: SourceFileReference)
      ensures Unprovided(ref) <==> ref.originType == Custom && fileProviders == 0 && !ref.HasHash()
    {
    }

    lemma {:induction false} NothingAskedFor(chains: seq<seq<Request>>, ref: SourceFileReference)
      requires ref.originType == Custom && fileProviders == 0 && !ref.HasHash()
      ensures GivenUp(ref, []) && Flat(chains + [[]]) == Flat(chains)
    {
      FlatSnoc(chains, []);
    }

    lemma {:induction false} NothingFetched(files: map<string, string>, destDir: string, refs: seq<SourceFileReference>)
      ensures LastVerified(hashOf, files, destDir, refs[..0]) && AllServed(refs[..0], []) && Made([]) == [] && Flat([]) == []
      ensures ElsewhereSame(files, files, destDir, refs)
    {
    }

    lemma {:induction false} AllowedStep(ref: SourceFileReference, asks: seq<Request>, refs: seq<SourceFileReference>)
      requires Chain(ref, asks) && ref in refs && (ref.originType == Overlay ==> asks == [])
      ensures forall c :: c in Made(asks) ==> Allowed(c, refs)
    {
      if ref.originType != Overlay {
        ChainIsAllowed(ref, asks, refs);
      }
    }

    lemma {:induction false} ServedStep(refs: seq<SourceFileReference>, i: nat, earlier: seq<Request>, asks: seq<Request>)
      requires i < |refs| && AllServed(refs[..i], earlier) && Chain(refs[i], asks)
      requires refs[i].originType != Overlay ==> LastAnswer(asks, Served)
      ensures AllServed(refs[..i + 1], earlier + asks)
    {
      assert refs[..i + 1] == refs[..i] + [refs[i]];
      forall ref | ref in refs[..i + 1] && ref.originType != Overlay
        ensures exists q :: q in earlier + asks && q.ref == ref && q.answer == Served
      {
        if ref in refs[..i] {
          var q :| q in earlier && q.ref == ref && q.answer == Served;
          assert q in earlier + asks;
        } else {
          assert asks[|asks| - 1] in earlier + asks;
        }
      }
    }

    /** A custom file is never looked up, and no origin is asked for when origins are disabled. */
    lemma {:induction false} PlacesAreRestricted(ref: SourceFileReference)
      ensures Lookaside in Vias(ref) <==> ref.originType != Custom && ref.HasHash() && lookasideUrl(ref).Some?
      ensures Origin in Vias(ref) <==> !disableOrigins && ref.originType == Download && ref.originUri != ""
    {
      var vias := Vias(ref);
      if LookedUp(ref) {
        assert vias[0] == Lookaside;
      }
      if HasOrigin(ref) {
        assert vias[|vias| - 1] == Origin;
      }
    }
  }

  /** What the ignored error of the last removal leaves behind: a file that was there and cannot be
      removed stays, although no download of it can ever be valid. */
  method LockedFileStays(m: SourceManager, url: string, destPath: string, ref: SourceFileReference) returns (ok: bool)
    requires !m.dryRun && ref.HasHash() && destPath in m.fs.files && destPath in m.fs.locked
    requires forall content :: m.hashOf(ref.hashType, content).None?
    modifies m.fs, m`calls, m`cancellations
    ensures !ok && destPath in m.fs.files
  {
    ghost var wrote, made;
    ok, wrote, made := m.DownloadAndValidate(url, destPath, ref);
  }

  // ---------- Several entries, some with the same name ----------

  /** Every fetched file was served by some place. */
  ghost predicate AllServed(refs: seq<SourceFileReference>, asked: seq<Request>) {
    forall ref :: ref in refs && ref.originType != Overlay ==> exists q :: q in asked && q.ref == ref && q.answer == Served
  }

  lemma EachServed(refs: seq<SourceFileReference>, asked: seq<Request>)
    requires AllServed(refs, asked)
    ensures forall ref :: ref in refs && ref.originType != Overlay ==> exists q :: q in asked && q.ref == ref && q.answer == Served
  {
  }

  /** Paths of no entry are untouched. */
  ghost predicate ElsewhereSame(before: map<string, string>, after: map<string, string>, destDir: string,
                                refs: seq<SourceFileReference>) {
    forall p :: (forall i :: 0 <= i < |refs| ==> p != DestPath(destDir, refs[i].filename)) ==>
      (p in after <==> p in before) && (p in after ==> after[p] == before[p])
  }

  lemma ElsewhereStep(first: map<string, string>, before: map<string, string>, after: map<string, string>, destDir: string,
                      refs: seq<SourceFileReference>, i: nat)
    requires i < |refs| && ElsewhereSame(first, before, destDir, refs)
    requires OnlyAt(DestPath(destDir, refs[i].filename), before, after)
    ensures ElsewhereSame(first, after, destDir, refs)
  {
    hide DestPath, OnlyAt;
    forall p | forall j :: 0 <= j < |refs| ==> p != DestPath(destDir, refs[j].filename)
      ensures (p in after <==> p in first) && (p in after ==> after[p] == first[p])
    {
      OnlyAtElsewhere(DestPath(destDir, refs[i].filename), before, after, p);
    }
  }

  ghost predicate Fetched(refs: seq<SourceFileReference>, i: int) {
    0 <= i < |refs| && refs[i].originType != Overlay
  }

  /** No later entry that is fetched has the name of entry i. */
  ghost predicate LastOfItsName(refs: seq<SourceFileReference>, i: int) {
    Fetched(refs, i) && forall j :: i < j && Fetched(refs, j) ==> refs[j].filename != refs[i].filename
  }

  ghost predicate LastVerified(hashOf: (string, string) -> Option<string>, files: map<string, string>, destDir: string,
                               refs: seq<SourceFileReference>) {
    forall i :: LastOfItsName(refs, i) && refs[i].HasHash() ==>
      Verified(hashOf, files, DestPath(destDir, refs[i].filename), refs[i])
  }

  /** Fetching entry k disturbs only what had its name, and that is no longer the last of its name. */
  lemma LastVerifiedStep(hashOf: (string, string) -> Option<string>, before: map<string, string>, after: map<string, string>,
                         destDir: string, refs: seq<SourceFileReference>, k: nat)
    requires k < |refs| && LastVerified(hashOf, before, destDir, refs[..k])
    requires OnlyAt(DestPath(destDir, refs[k].filename), before, after)
    requires refs[k].originType == Overlay ==> after == before
    requires refs[k].originType != Overlay && refs[k].HasHash() ==>
               Verified(hashOf, after, DestPath(destDir, refs[k].filename), refs[k])
    ensures LastVerified(hashOf, after, destDir, refs[..k + 1])
  {
    hide Verified, DestPath, OnlyAt;
    var shorter, longer := refs[..k], refs[..k + 1];
    forall i | LastOfItsName(longer, i) && longer[i].HasHash()
      ensures Verified(hashOf, after, DestPath(destDir, longer[i].filename), longer[i])
    {
      assert longer[i] == refs[i];
      if i < k {
        StillLast(refs, k, i);
        assert Verified(hashOf, before, DestPath(destDir, shorter[i].filename), shorter[i]);
        if Fetched(refs, k) {
          assert Fetched(longer, k) && longer[k] == refs[k];
          VerifiedElsewhere(hashOf, before, after, destDir, refs[k].filename, refs[i]);
        }
      }
    }
  }

  lemma StillLast(refs: seq<SourceFileReference>, k: nat, i: nat)
    requires i < k < |refs| && LastOfItsName(refs[..k + 1], i)
    ensures LastOfItsName(refs[..k], i) && refs[..k][i] == refs[i]
  {
    forall j | i < j && Fetched(refs[..k], j) ensures refs[..k][j].filename != refs[..k][i].filename {
      assert Fetched(refs[..k + 1], j) && refs[..k + 1][j] == refs[..k][j];
    }
  }

  lemma VerifiedElsewhere(hashOf: (string, string) -> Option<string>, before: map<string, string>, after: map<string, string>,
                          destDir: string, changed: string, ref: SourceFileReference)
    requires OnlyAt(DestPath(destDir, changed), before, after) && ref.filename != changed
    requires Verified(hashOf, before, DestPath(destDir, ref.filename), ref)
    ensures Verified(hashOf, after, DestPath(destDir, ref.filename), ref)
  {
    hide DestPath, OnlyAt;
    DifferentPaths(destDir, ref.filename, changed);
    OnlyAtElsewhere(DestPath(destDir, changed), before, after, DestPath(destDir, ref.filename));
  }

  lemma DifferentPaths(destDir: string, a: string, b: string)
    requires a != b
    ensures DestPath(destDir, a) != DestPath(destDir, b)
  {
    var x, y := DestPath(destDir, a), DestPath(destDir, b);
    assert x[|destDir| + 1..] == a && y[|destDir| + 1..] == b;
  }

  /** The same hash type and the same hash, case aside. */
  predicate SameDigest(a: SourceFileReference, b: SourceFileReference) {
    a.hashType == b.hashType && ToLower(a.hash) == ToLower(b.hash)
  }

  /** Every fetched entry that declares a hash declares that of the last fetched entry of its name. */
  ghost predicate LastAgrees(refs: seq<SourceFileReference>) {
    forall i, j :: Fetched(refs, i) && refs[i].HasHash() && LastOfItsName(refs, j) && refs[i].filename == refs[j].filename ==>
      SameDigest(refs[i], refs[j])
  }

  ghost predicate DistinctNames(refs: seq<SourceFileReference>) {
    forall i, j :: 0 <= i < j < |refs| ==> refs[i].filename != refs[j].filename
  }

  lemma {:induction false} LastWithName(refs: seq<SourceFileReference>, i: int) returns (j: int)
    requires Fetched(refs, i)
    ensures LastOfItsName(refs, j) && refs[j].filename == refs[i].filename
    decreases |refs| - i
  {
    if LastOfItsName(refs, i) {
      j := i;
    } else {
      var k :| i < k && Fetched(refs, k) && refs[k].filename == refs[i].filename;
      j := LastWithName(refs, k);
    }
  }

  /** When the last entry of each name agrees with the others, verifying it verifies all. */
  lemma AgreeingAreVerified(hashOf: (string, string) -> Option<string>, files: map<string, string>, destDir: string,
                            refs: seq<SourceFileReference>)
    requires LastVerified(hashOf, files, destDir, refs) && LastAgrees(refs)
    ensures AllVerified(hashOf, files, destDir, refs)
  {
    hide DestPath, ToLower;
    forall i | 0 <= i < |refs| && refs[i].originType != Overlay && refs[i].HasHash()
      ensures Verified(hashOf, files, DestPath(destDir, refs[i].filename), refs[i])
    {
      assert Fetched(refs, i);
      var j := LastWithName(refs, i);
      assert SameDigest(refs[i], refs[j]);
      assert |ToLower(refs[i].hash)| == |refs[i].hash| && |ToLower(refs[j].hash)| == |refs[j].hash|;
    }
  }

  /** A disk on which each entry's file contains just the entry's name. */
  ghost function NamesOnDisk(destDir: string, refs: seq<SourceFileReference>): map<string, string> {
    if refs == [] then map[]
    else
      var last := refs[|refs| - 1].filename;
      NamesOnDisk(destDir, refs[..|refs| - 1])[DestPath(destDir, last) := last]
  }

  lemma {:induction false} NameIsOnDisk(destDir: string, refs: seq<SourceFileReference>, i: nat)
    requires i < |refs|
    ensures var path := DestPath(destDir, refs[i].filename);
            path in NamesOnDisk(destDir, refs) && NamesOnDisk(destDir, refs)[path] == refs[i].filename
  {
    hide DestPath;
    var front, last := refs[..|refs| - 1], refs[|refs| - 1];
    if i < |front| {
      NameIsOnDisk(destDir, front, i);
      if front[i].filename != last.filename {
        DifferentPaths(destDir, front[i].filename, last.filename);
      }
    }
  }

  /** Hashing that knows of each such file just the hash its last entry declares. */
  ghost function DeclaredHash(refs: seq<SourceFileReference>, hashType: string, content: string): Option<string> {
    if j :| LastOfItsName(refs, j) && refs[j].filename == content && refs[j].hashType == hashType then Some(refs[j].hash) else None
  }

  ghost function Declared(refs: seq<SourceFileReference>): (string, string) -> Option<string> {
    (hashType, content) => DeclaredHash(refs, hashType, content)
  }

  lemma LastIsUnique(refs: seq<SourceFileReference>, i: int, j: int)
    requires LastOfItsName(refs, i) && LastOfItsName(refs, j) && refs[i].filename == refs[j].filename
    ensures i == j
  {
  }

  /** What that hashing verifies: the entries that agree with the last of their name. */
  lemma DeclaredVerifies(destDir: string, refs: seq<SourceFileReference>, i: nat, j: int)
    requires Fetched(refs, i) && LastOfItsName(refs, j) && refs[j].filename == refs[i].filename
    ensures Verified(Declared(refs), NamesOnDisk(destDir, refs), DestPath(destDir, refs[i].filename), refs[i])
       <==> SameDigest(refs[i], refs[j])
  {
    hide DestPath, ToLower, NamesOnDisk;
    NameIsOnDisk(destDir, refs, i);
    forall k | LastOfItsName(refs, k) && refs[k].filename == refs[i].filename ensures k == j {
      LastIsUnique(refs, k, j);
    }
  }

  /** Exactly then: unless the last entry of each name agrees with the others, some hashing and some disk
      verify the last of each name and still not every entry. */
  lemma AllVerifiedIff(destDir: string, refs: seq<SourceFileReference>)
    ensures LastAgrees(refs) <==>
              forall hashOf: (string, string) -> Option<string>, files ::
                LastVerified(hashOf, files, destDir, refs) ==> AllVerified(hashOf, files, destDir, refs)
  {
    hide DestPath, Verified, SameDigest, NamesOnDisk, Declared;
    if LastAgrees(refs) {
      forall hashOf: (string, string) -> Option<string>, files | LastVerified(hashOf, files, destDir, refs)
        ensures AllVerified(hashOf, files, destDir, refs)
      {
        AgreeingAreVerified(hashOf, files, destDir, refs);
      }
    } else {
      var i, j :| Fetched(refs, i) && refs[i].HasHash() && LastOfItsName(refs, j) && refs[i].filename == refs[j].filename
                  && !SameDigest(refs[i], refs[j]);
      DeclaredIsLastVerified(destDir, refs);
      DeclaredVerifies(destDir, refs, i, j);
      assert !AllVerified(Declared(refs), NamesOnDisk(destDir, refs), destDir, refs);
    }
  }

  lemma DeclaredIsLastVerified(destDir: string, refs: seq<SourceFileReference>)
    ensures LastVerified(Declared(refs), NamesOnDisk(destDir, refs), destDir, refs)
  {
    hide DestPath, Verified, NamesOnDisk, Declared, ToLower;
    forall i | LastOfItsName(refs, i) && refs[i].HasHash()
      ensures Verified(Declared(refs), NamesOnDisk(destDir, refs), DestPath(destDir, refs[i].filename), refs[i])
    {
      DeclaredVerifies(destDir, refs, i, i);
    }
  }

  /** Two same-named entries with different hashes of one type cannot both be verified, on any disk. */
  lemma ConflictIsNeverVerified(hashOf: (string, string) -> Option<string>, files: map<string, string>, destDir: string,
                                refs: seq<SourceFileReference>, i: int, j: int)
    requires Fetched(refs, i) && Fetched(refs, j) && refs[i].filename == refs[j].filename
    requires refs[i].HasHash() && refs[j].HasHash() && refs[i].hashType == refs[j].hashType && !SameDigest(refs[i], refs[j])
    ensures !AllVerified(hashOf, files, destDir, refs)
  {
    hide DestPath, Verified, SameDigest;
    NotBothVerified(hashOf, files, DestPath(destDir, refs[i].filename), refs[i], refs[j]);
  }

  lemma NotBothVerified(hashOf: (string, string) -> Option<string>, files: map<string, string>, path: string,
                        a: SourceFileReference, b: SourceFileReference)
    requires a.hashType == b.hashType && !SameDigest(a, b)
    ensures !(Verified(hashOf, files, path, a) && Verified(hashOf, files, path, b))
  {
    hide ToLower;
  }

  // ---------- Validation of the configuration, and the two together ----------

  datatype ValidationError =
    | BadFilename(filename: string)
    | DuplicateFilename(filename: string)
    | UnsupportedHashType(filename: string)
    | HashWithoutType(filename: string)
    | BadEntry(filename: string)

  const ALLOWED_HASH_TYPES := {"SHA256", "SHA512"}

  /** No MD5. */
  predicate AllowedHashType(t: string) {
    t in ALLOWED_HASH_TYPES
  }

  lemma AllowedHashTypes(t: string)
    ensures AllowedHashType(t) <==> t == "SHA256" || t == "SHA512"
  {
  }

  predicate ValidReference(ref: SourceFileReference, otherRules: SourceFileReference -> bool) {
    && ValidFilename(ref.filename)
    && (ref.hashType != "" ==> AllowedHashType(ref.hashType))
    && (ref.hash != "" ==> ref.hashType != "")
    && otherRules(ref)
  }

  ghost predicate ValidList(refs: seq<SourceFileReference>, otherRules: SourceFileReference -> bool) {
    DistinctNames(refs) && forall i :: 0 <= i < |refs| ==> ValidReference(refs[i], otherRules)
  }

  /** internal/projectconfig/configfile.go, validateSourceFiles; "otherRules" are the rules about one
      entry's replacement, origin and custom script fields. */
  method ValidateSourceFiles(sourceFiles: seq<SourceFileReference>, otherRules: SourceFileReference -> bool)
    returns (r: Result<(), ValidationError>)
    ensures r.Success? <==> ValidList(sourceFiles, otherRules)
  {
    var seen: set<string> := {};
    for i := 0 to |sourceFiles|
      invariant seen == set j | 0 <= j < i :: sourceFiles[j].filename
      invariant DistinctNames(sourceFiles[..i])
      invariant forall j :: 0 <= j < i ==> ValidReference(sourceFiles[j], otherRules)
    {
      var ref := sourceFiles[i];
      if !ValidFilename(ref.filename) {
        return Failure(BadFilename(ref.filename));
      }
      if ref.filename in seen {
        return Failure(DuplicateFilename(ref.filename));
      }
      seen := seen + {ref.filename};
      if ref.hashType != "" && !AllowedHashType(ref.hashType) {
        return Failure(UnsupportedHashType(ref.filename));
      }
      if ref.hash != "" && ref.hashType == "" {
        return Failure(HashWithoutType(ref.filename));
      }
      if !otherRules(ref) {
        return Failure(BadEntry(ref.filename));
      }
    }
    assert sourceFiles[..|sourceFiles|] == sourceFiles;
    r := Success(());
  }

  function Concat(lists: seq<seq<SourceFileReference>>): seq<SourceFileReference> {
    if lists == [] then [] else Concat(lists[..|lists| - 1]) + lists[|lists| - 1]
  }

  /** The validation of one component's entries, which may come from several config files: each file's
      list by itself, and the merged list only in lock-file-free mode ("mergedRules" then apply). */
  method ValidateSources(perFile: seq<seq<SourceFileReference>>, otherRules: SourceFileReference -> bool,
                         withoutLockfile: bool, mergedRules: SourceFileReference -> bool) returns (r: Result<(), ValidationError>)
    ensures r.Success? <==> (forall i :: 0 <= i < |perFile| ==> ValidList(perFile[i], otherRules))
                            && (withoutLockfile ==> ValidList(Concat(perFile), mergedRules))
  {
    hide ValidList;
    for i := 0 to |perFile|
      invariant forall j :: 0 <= j < i ==> ValidList(perFile[j], otherRules)
    {
      r := ValidateSourceFiles(perFile[i], otherRules);
      if r.Failure? {
        return;
      }
    }
    r := Success(());
    if withoutLockfile {
      r := ValidateSourceFiles(Concat(perFile), mergedRules);
    }
  }

  /** An entry whose declared hash needs no separate hash type: validation makes one come with it. */
  lemma {:induction false} ValidatedHashesHaveTypes(perFile: seq<seq<SourceFileReference>>, otherRules: SourceFileReference -> bool)
    requires forall i :: 0 <= i < |perFile| ==> ValidList(perFile[i], otherRules)
    ensures forall ref :: ref in Concat(perFile) ==> (ref.hash != "" <==> ref.HasHash())
  {
    if perFile != [] {
      ValidatedHashesHaveTypes(perFile[..|perFile| - 1], otherRules);
      assert ValidList(perFile[|perFile| - 1], otherRules);
    }
  }

  /** Fetching starts if and only if validation accepts, and ends with every file finished or with one given
      up for a reason. What a component that passed gets from a successful real run: its entries are those it
      inherits, which nothing validates, followed by those of its config files. Every own entry that
      declares a hash and is the last of its name has it on disk; all entries have if the last of each
      name agrees with the others. In lock-file-free mode no two own entries share a name, so every own entry has its hash. */
  method ValidateThenFetch(m: SourceManager, inherited: seq<SourceFileReference>, perFile: seq<seq<SourceFileReference>>,
                           otherRules: SourceFileReference -> bool, withoutLockfile: bool,
                           mergedRules: SourceFileReference -> bool, destDir: string)
    returns (accepted: bool, fetched: bool, ghost chains: seq<seq<Request>>)
    modifies m.fs, m`calls, m`cancellations
    ensures accepted <==> (forall i :: 0 <= i < |perFile| ==> ValidList(perFile[i], otherRules))
                          && (withoutLockfile ==> ValidList(Concat(perFile), mergedRules))
    ensures fetched ==> accepted
    ensures accepted ==>
              var all := inherited + Concat(perFile);
              && |chains| <= |all| && (if fetched then |chains| == |all| else chains != [])
              && (forall i :: 0 <= i < |chains| && (fetched || i < |chains| - 1) ==> m.Finished(all[i], chains[i]))
              && (!fetched ==> m.GivenUp(all[|chains| - 1], chains[|chains| - 1]))
    ensures accepted && fetched && !m.dryRun ==>
              var own, all := Concat(perFile), inherited + Concat(perFile);
              && LastVerified(m.hashOf, m.fs.files, destDir, all)
              && (LastAgrees(all) ==> AllVerified(m.hashOf, m.fs.files, destDir, all))
              && (forall i :: LastOfItsName(own, i) && own[i].hash != "" ==>
                    Verified(m.hashOf, m.fs.files, DestPath(destDir, own[i].filename), own[i]))
              && (withoutLockfile ==> forall i :: Fetched(own, i) && own[i].hash != "" ==>
                    Verified(m.hashOf, m.fs.files, DestPath(destDir, own[i].filename), own[i]))
    ensures !accepted ==> m.fs.files == old(m.fs.files) && m.calls == old(m.calls)
  {
    hide Verified, DestPath, AllVerified, LastAgrees, ValidList, Concat, LastVerified;
    fetched, chains := false, [];
    var valid := ValidateSources(perFile, otherRules, withoutLockfile, mergedRules);
    accepted := valid.Success?;
    if accepted {
      var r;
      ghost var asked;
      r, asked, chains := m.FetchFiles(inherited + Concat(perFile), destDir);
      fetched := r.Success?;
      if fetched && !m.dryRun {
        ValidatedHashesHaveTypes(perFile, otherRules);
        OwnEntriesVerified(m.hashOf, m.fs.files, destDir, inherited, Concat(perFile));
        if withoutLockfile {
          DistinctAreLast(Concat(perFile), mergedRules);
        }
      }
    }
  }

  /** Own entries come last, so being the last of its name among them is enough. */
  lemma OwnEntriesVerified(hashOf: (string, string) -> Option<string>, files: map<string, string>, destDir: string,
                           inherited: seq<SourceFileReference>, own: seq<SourceFileReference>)
    requires LastVerified(hashOf, files, destDir, inherited + own)
    requires forall ref :: ref in own ==> (ref.hash != "" <==> ref.HasHash())
    ensures forall i :: LastOfItsName(own, i) && own[i].hash != "" ==>
              Verified(hashOf, files, DestPath(destDir, own[i].filename), own[i])
  {
    hide Verified, DestPath;
    var all := inherited + own;
    forall i | LastOfItsName(own, i) && own[i].hash != ""
      ensures Verified(hashOf, files, DestPath(destDir, own[i].filename), own[i])
    {
      var k := |inherited| + i;
      assert all[k] == own[i] && own[i] in own;
      forall j | k < j && Fetched(all, j) ensures all[j].filename != all[k].filename {
        assert all[j] == own[j - |inherited|] && Fetched(own, j - |inherited|);
      }
      assert LastOfItsName(all, k);
    }
  }

  lemma DistinctAreLast(refs: seq<SourceFileReference>, rules: SourceFileReference -> bool)
    requires ValidList(refs, rules)
    ensures forall i :: Fetched(refs, i) ==> LastOfItsName(refs, i)
  {
  }

  /** In the default mode two config files may declare one name with different hashes. Each is accepted,
      and then no disk can satisfy both entries. */
  lemma ConflictingFilesAreAccepted(name: string, one: string, other: string, hashOf: (string, string) -> Option<string>,
                                    files: map<string, string>, destDir: string)
    requires ValidFilename(name) && one != "" && other != "" && ToLower(one) != ToLower(other)
    ensures var a, b := SourceFileReference(name, one, "SHA256", Download, "https://one"),
                        SourceFileReference(name, other, "SHA256", Download, "https://other");
            && ValidList([a], ref => true) && ValidList([b], ref => true)
            && !AllVerified(hashOf, files, destDir, Concat([[a], [b]]))
  {
    hide ToLower, DestPath, AllVerified;
    var a, b := SourceFileReference(name, one, "SHA256", Download, "https://one"),
                SourceFileReference(name, other, "SHA256", Download, "https://other");
    assert [[a], [b]][..1] == [[a]] && [[a]][..0] == [];
    assert Concat([[a]]) == Concat([]) + [a] == [a];
    assert Concat([[a], [b]]) == [a] + [b];
    ConflictIsNeverVerified(hashOf, files, destDir, [a] + [b], 0, 1);
  }
}
