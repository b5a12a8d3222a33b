/** internal/fingerprint/fingerprint.go: the byte streams fed to SHA-256.

    A field is written as "<len(label)>:<label>=<len(value)>:<value>\n". The main results say
    that a stream determines every input that went into it, for arbitrary bytes in the values,
    so a changed input can only be hidden by a collision of the hash itself. */
module Fingerprint {
  import opened Wrappers
  import opened Strings
  import opened Decimal
  import opened Paths

  // ---------- Records and their encoding ----------

  datatype Field = Field(name: string, value: string)

  function Chunk(s: string): string {
    Digits(|s|) + ":" + s
  }

  function EncodeField(f: Field): string {
    Chunk(f.name) + "=" + Chunk(f.value) + "\n"
  }

  function Encode(fields: seq<Field>): string {
    if fields == [] then "" else EncodeField(fields[0]) + Encode(fields[1..])
  }

  lemma {:induction false} EncodeAppends(a: seq<Field>, b: seq<Field>)
    ensures Encode(a + b) == Encode(a) + Encode(b)
  {
    if a == [] {
      assert a + b == b;
    } else {
      assert (a + b)[1..] == a[1..] + b;
      EncodeAppends(a[1..], b);
    }
  }

  // ---------- A decoder, written from the format alone ----------

  function LeadingDigits(s: string): (n: nat)
    ensures n <= |s| && AllDigits(s[..n])
    ensures n < |s| ==> !IsDigit(s[n])
  {
    if s == "" || !IsDigit(s[0]) then 0
    else
      var n := 1 + LeadingDigits(s[1..]);
      assert s[..n] == [s[0]] + s[1..][..n - 1];
      n
  }

  /** Reads "<length>:<that many bytes>"; returns the bytes and what follows them. */
  function ReadChunk(s: string): (r: Option<(string, string)>)
    ensures r.Some? ==> |r.value.1| < |s|
    ensures r.Some? ==> exists k :: 0 < k < |s| && AllDigits(s[..k]) && Value(s[..k]) == |r.value.0|
                          && s == s[..k] + ":" + r.value.0 + r.value.1
  {
    var k := LeadingDigits(s);
    if k == 0 || k == |s| || s[k] != ':' then None
    else
      var n, body := Value(s[..k]), s[k + 1..];
      if |body| < n then None else Some((body[..n], body[n..]))
  }

  function Expect(s: string, c: char): (r: Option<string>)
    ensures r.Some? <==> s != "" && s[0] == c
    ensures r.Some? ==> s == [c] + r.value
  {
    if s == "" || s[0] != c then None else Some(s[1..])
  }

  function ReadField(s: string): (r: Option<(Field, string)>)
    ensures r.Some? ==> |r.value.1| < |s|
  {
    match ReadChunk(s)
    case None => None
    case Some((name, rest)) =>
      match Expect(rest, '=')
      case None => None
      case Some(rest) =>
        match ReadChunk(rest)
        case None => None
        case Some((value, rest)) =>
          match Expect(rest, '\n')
          case None => None
          case Some(rest) => Some((Field(name, value), rest))
  }

  function Decode(s: string): Option<seq<Field>>
    decreases |s|
  {
    if s == "" then Some([])
    else
      match ReadField(s)
      case None => None
      case Some((f, rest)) =>
        match Decode(rest)
        case None => None
        case Some(fields) => Some([f] + fields)
  }

  // ---------- Round trip ----------

  lemma {:induction false} DigitsLead(d: string, rest: string)
    requires AllDigits(d) && (rest == "" || !IsDigit(rest[0]))
    ensures LeadingDigits(d + rest) == |d|
  {
    if d == "" {
      assert d + rest == rest;
    } else {
      assert (d + rest)[1..] == d[1..] + rest;
      DigitsLead(d[1..], rest);
    }
  }

  lemma ReadChunkOfChunk(x: string, rest: string)
    ensures ReadChunk(Chunk(x) + rest) == Some((x, rest))
  {
    var d := Digits(|x|);
    var s := Chunk(x) + rest;
    assert s == d + (":" + x + rest);
    DigitsLead(d, ":" + x + rest);
    assert s[..|d|] == d;
    ValueOfDigits(|x|);
    assert s[|d| + 1..] == x + rest;
  }

  lemma ReadFieldOfEncodeField(f: Field, rest: string)
    ensures ReadField(EncodeField(f) + rest) == Some((f, rest))
  {
    hide Chunk, ReadChunk;
    var name, value := Chunk(f.name), Chunk(f.value);
    assert EncodeField(f) + rest == name + ("=" + (value + ("\n" + rest)));
    ReadChunkOfChunk(f.name, "=" + (value + ("\n" + rest)));
    ReadChunkOfChunk(f.value, "\n" + rest);
    assert ("=" + (value + ("\n" + rest)))[1..] == value + ("\n" + rest);
    assert ("\n" + rest)[1..] == rest;
  }

  /** Decoding undoes encoding, for every list of fields and every content. */
  lemma {:induction false} DecodeOfEncode(fields: seq<Field>)
    ensures Decode(Encode(fields)) == Some(fields)
  {
    hide EncodeField, ReadField;
    if fields != [] {
      var s := EncodeField(fields[0]) + Encode(fields[1..]);
      ReadFieldOfEncodeField(fields[0], Encode(fields[1..]));
      DecodeOfEncode(fields[1..]);
      assert Encode(fields) == s && s != "";
      assert [fields[0]] + fields[1..] == fields;
    }
  }

  lemma EncodeIsInjective(a: seq<Field>, b: seq<Field>)
    requires Encode(a) == Encode(b)
    ensures a == b
  {
    DecodeOfEncode(a);
    DecodeOfEncode(b);
  }

  // ---------- The hasher ----------

  /** A hash under construction: everything written to it so far, and the fields that amounts to. */
  class Hasher {
    var written: string
    ghost var fields: seq<Field>

    ghost predicate Valid()
      reads this
    {
      written == Encode(fields)
    }

    constructor ()
      ensures Valid() && fields == []
    {
      written, fields := "", [];
    }

    method WriteField(name: string, value: string)
      requires Valid()
      modifies this
      ensures Valid() && fields == old(fields) + [Field(name, value)]
      ensures written == old(written) + EncodeField(Field(name, value))
    {
      EncodeAppends(fields, [Field(name, value)]);
      assert Encode([Field(name, value)]) == EncodeField(Field(name, value)) + Encode([]);
      written := written + (Digits(|name|) + ":" + name + "=" + (Digits(|value|) + ":" + value) + "\n");
      fields := fields + [Field(name, value)];
    }
  }

  // ---------- combineInputs ----------

  datatype ComponentInputs = ComponentInputs(
    configHash: nat,
    sourceIdentity: string,
    overlayFileHashes: map<string, string>,
    manualBump: int,
    releaseVer: string)

  function OverlayFields(keys: seq<string>, hashes: map<string, string>): (fields: seq<Field>)
    requires forall k :: k in keys ==> k in hashes
    ensures |fields| == |keys|
    ensures forall i :: 0 <= i < |keys| ==> fields[i] == Field("overlay:" + keys[i], hashes[keys[i]])
  {
    seq(|keys|, i requires 0 <= i < |keys| => Field("overlay:" + keys[i], hashes[keys[i]]))
  }

  lemma OverlayFieldsStep(keys: seq<string>, i: nat, hashes: map<string, string>)
    requires i < |keys| && forall k :: k in keys ==> k in hashes
    ensures OverlayFields(keys[..i + 1], hashes)
         == OverlayFields(keys[..i], hashes) + [Field("overlay:" + keys[i], hashes[keys[i]])]
  {
  }

  lemma NoOverlayFields(hashes: map<string, string>)
    ensures OverlayFields([], hashes) == []
    ensures |hashes| == 0 ==> Ascending(hashes.Keys) == []
  {
  }

  ghost function CombinedFields(inputs: ComponentInputs): seq<Field> {
    AscendingProperties(inputs.overlayFileHashes.Keys);
    [Field("config_hash", Digits(inputs.configHash)),
     Field("source_identity", inputs.sourceIdentity),
     Field("manual_bump", Itoa(inputs.manualBump)),
     Field("release_ver", inputs.releaseVer)]
    + OverlayFields(Ascending(inputs.overlayFileHashes.Keys), inputs.overlayFileHashes)
  }

  ghost function CombinedStream(inputs: ComponentInputs): string {
    Encode(CombinedFields(inputs))
  }

  /** The sorted loop over the overlay map. */
  method WriteOverlays(hasher: Hasher, hashes: map<string, string>)
    requires hasher.Valid()
    modifies hasher
    ensures hasher.Valid()
    ensures forall k :: k in Ascending(hashes.Keys) ==> k in hashes
    ensures hasher.fields == old(hasher.fields) + OverlayFields(Ascending(hashes.Keys), hashes)
  {
    hide EncodeField, Encode, Ascending, SortStrings, Sorted, StrictlySorted, NoDuplicates, OverlayFields, Less;
    AscendingProperties(hashes.Keys);
    NoOverlayFields(hashes);
    if |hashes| > 0 {
      var collected := CollectKeys(hashes.Keys);
      var keys := SortStrings(collected);
      AscendingIsTheSortOf(hashes.Keys, collected);
      for i := 0 to |keys|
        invariant hasher.Valid() && hasher.fields == old(hasher.fields) + OverlayFields(keys[..i], hashes)
      {
        OverlayFieldsStep(keys, i, hashes);
        hasher.WriteField("overlay:" + keys[i], hashes[keys[i]]);
      }
      assert keys[..|keys|] == keys;
    }
  }

  /** Hashes one stream, the one CombinedStream gives, whatever order the map is ranged over. */
  method CombineInputs(inputs: ComponentInputs, digest: string -> string) returns (fingerprint: string)
    ensures fingerprint == "sha256:" + digest(CombinedStream(inputs))
  {
    hide EncodeField, Encode, Ascending, Itoa, Digits, OverlayFields;
    var hasher := new Hasher();
    hasher.WriteField("config_hash", Digits(inputs.configHash));
    hasher.WriteField("source_identity", inputs.sourceIdentity);
    hasher.WriteField("manual_bump", Itoa(inputs.manualBump));
    hasher.WriteField("release_ver", inputs.releaseVer);
    WriteOverlays(hasher, inputs.overlayFileHashes);
    assert hasher.fields == CombinedFields(inputs);
    fingerprint := "sha256:" + digest(hasher.written);
  }

  /** The stream determines the config hash, source identity, bump, release version and the
      whole overlay map, for any bytes in the strings and any number of overlays. */
  lemma CombinedStreamIsInjective(a: ComponentInputs, b: ComponentInputs)
    requires CombinedStream(a) == CombinedStream(b)
    ensures a == b
  {
    hide Encode, Ascending, Digits, Itoa, Value;
    EncodeIsInjective(CombinedFields(a), CombinedFields(b));
    var fa, fb := CombinedFields(a), CombinedFields(b);
    assert fa[0].value == fb[0].value && fa[1].value == fb[1].value
        && fa[2].value == fb[2].value && fa[3].value == fb[3].value;
    ValueOfDigits(a.configHash);
    ValueOfDigits(b.configHash);
    ItoaIsInjective(a.manualBump, b.manualBump);
    assert fa[4..] == fb[4..];
    AscendingProperties(a.overlayFileHashes.Keys);
    AscendingProperties(b.overlayFileHashes.Keys);
    OverlayFieldsAreInjective(a.overlayFileHashes, b.overlayFileHashes);
  }

  lemma OverlayFieldsAreInjective(m: map<string, string>, n: map<string, string>)
    requires (forall k :: k in Ascending(m.Keys) ==> k in m) && (forall k :: k in Ascending(n.Keys) ==> k in n)
    requires OverlayFields(Ascending(m.Keys), m) == OverlayFields(Ascending(n.Keys), n)
    ensures m == n
  {
    hide Ascending, OverlayFields, Sorted, StrictlySorted, NoDuplicates;
    AscendingProperties(m.Keys);
    AscendingProperties(n.Keys);
    KeysAndValuesAgree(Ascending(m.Keys), m, Ascending(n.Keys), n);
    assert m.Keys == n.Keys;
  }

  lemma KeysAndValuesAgree(ks: seq<string>, m: map<string, string>, ls: seq<string>, n: map<string, string>)
    requires (forall k :: k in ks ==> k in m) && (forall k :: k in ls ==> k in n)
    requires OverlayFields(ks, m) == OverlayFields(ls, n)
    ensures ks == ls && forall k :: k in ks ==> m[k] == n[k]
  {
    hide OverlayFields;
    var fields := OverlayFields(ks, m);
    assert |ks| == |fields| == |ls|;
    forall i | 0 <= i < |ks| ensures ks[i] == ls[i] && m[ks[i]] == n[ks[i]] {
      assert fields[i].name[|"overlay:"|..] == ks[i];
      assert fields[i].name[|"overlay:"|..] == ls[i];
    }
  }

  // ---------- ComputeResolutionHash ----------

  datatype ResolutionInputs = ResolutionInputs(
    snapshot: string,
    distroName: string,
    distroVersion: string,
    distGitBranch: string,
    distGitBaseURI: string,
    upstreamCommitPin: string,
    upstreamName: string)

  function ResolutionFields(r: ResolutionInputs): seq<Field> {
    [Field("snapshot", r.snapshot), Field("distro_name", r.distroName), Field("distro_version", r.distroVersion),
     Field("dist_git_branch", r.distGitBranch), Field("dist_git_base_uri", r.distGitBaseURI),
     Field("upstream_commit_pin", r.upstreamCommitPin), Field("upstream_name", r.upstreamName)]
  }

  function ResolutionStream(r: ResolutionInputs): string {
    Encode(ResolutionFields(r))
  }

  method ComputeResolutionHash(r: ResolutionInputs, digest: string -> string) returns (hash: string)
    ensures hash == "sha256:" + digest(ResolutionStream(r))
  {
    hide EncodeField, Encode;
    var hasher := new Hasher();
    hasher.WriteField("snapshot", r.snapshot);
    hasher.WriteField("distro_name", r.distroName);
    hasher.WriteField("distro_version", r.distroVersion);
    hasher.WriteField("dist_git_branch", r.distGitBranch);
    hasher.WriteField("dist_git_base_uri", r.distGitBaseURI);
    hasher.WriteField("upstream_commit_pin", r.upstreamCommitPin);
    hasher.WriteField("upstream_name", r.upstreamName);
    assert hasher.fields == ResolutionFields(r);
    hash := "sha256:" + digest(hasher.written);
  }

  lemma ResolutionStreamIsInjective(a: ResolutionInputs, b: ResolutionInputs)
    requires ResolutionStream(a) == ResolutionStream(b)
    ensures a == b
  {
    EncodeIsInjective(ResolutionFields(a), ResolutionFields(b));
    var fa, fb := ResolutionFields(a), ResolutionFields(b);
    assert forall i :: 0 <= i < 7 ==> fa[i].value == fb[i].value;
    assert fa[0].value == a.snapshot && fa[1].value == a.distroName && fa[2].value == a.distroVersion
        && fa[3].value == a.distGitBranch && fa[4].value == a.distGitBaseURI && fa[5].value == a.upstreamCommitPin;
  }

  /** Domain separation: no resolution stream is a fingerprint stream, or a prefix of one or the other. */
  lemma StreamsNeverMeet(r: ResolutionInputs, inputs: ComponentInputs, suffix: string)
    ensures ResolutionStream(r) + suffix != CombinedStream(inputs)
    ensures ResolutionStream(r) != CombinedStream(inputs) + suffix
  {
    hide EncodeField, ReadField, Ascending, OverlayFields;
    var rf, cf := ResolutionFields(r), CombinedFields(inputs);
    var rTail, cTail := Encode(rf[1..]), Encode(cf[1..]);
    ReadFieldOfEncodeField(rf[0], rTail + suffix);
    ReadFieldOfEncodeField(cf[0], cTail);
    ReadFieldOfEncodeField(rf[0], rTail);
    ReadFieldOfEncodeField(cf[0], cTail + suffix);
    assert ResolutionStream(r) + suffix == EncodeField(rf[0]) + (rTail + suffix);
    assert CombinedStream(inputs) + suffix == EncodeField(cf[0]) + (cTail + suffix);
    assert "snapshot" != "config_hash" by {
      assert |"snapshot"| != |"config_hash"|;
    }
  }

  // ---------- ComputeIdentity ----------

  datatype SourceFile = SourceFile(filename: string, hash: string, script: string)

  datatype Overlay = Overlay(source: string, filename: string)

  /** A resolved component; "settings" stands for every other field the config hash covers. */
  datatype Component = Component(
    sourceType: string,
    sourceFiles: seq<SourceFile>,
    overlays: seq<Overlay>,
    settings: string)

  datatype IdentityOptions = IdentityOptions(manualBump: int, sourceIdentity: string)

  datatype ComponentIdentity = ComponentIdentity(fingerprint: string, inputs: ComponentInputs)

  datatype IdentityError =
    | SourceIdentityRequired
    | SourceFileHasNoHash(filename: string)
    | ConfigNotHashable
    | OverlayNotHashable(index: nat)

  function EffectiveScriptName(script: string): string {
    if script == "" then "" else BaseName(script)
  }

  function EffectiveSourceName(o: Overlay): string {
    if o.source == "" then "" else if o.filename != "" then o.filename else BaseName(o.source)
  }

  /** ComponentOverlay.SourceContentIdentity; hashFile gives the hash of a file's content, if readable. */
  function SourceContentIdentity(o: Overlay, hashFile: string -> Option<string>): Option<string> {
    var name := EffectiveSourceName(o);
    if name == "" then Some("")
    else
      match hashFile(o.source)
      case None => None
      case Some(hash) => Some(name + ":" + hash)
  }

  /** The component as the config hash sees it: script paths reduced to their checkout-independent names. */
  function Normalized(c: Component): Component {
    c.(sourceFiles := seq(|c.sourceFiles|, i requires 0 <= i < |c.sourceFiles| =>
      c.sourceFiles[i].(script := EffectiveScriptName(c.sourceFiles[i].script))))
  }

  ghost predicate FirstUnhashed(files: seq<SourceFile>, i: int) {
    0 <= i < |files| && files[i].hash == "" && forall j :: 0 <= j < i ==> files[j].hash != ""
  }

  ghost predicate OverlayMapOf(overlays: seq<Overlay>, hashFile: string -> Option<string>, m: map<string, string>) {
    && (forall i :: 0 <= i < |overlays| ==> SourceContentIdentity(overlays[i], hashFile).Some?)
    && (forall i :: 0 <= i < |overlays| ==>
          var id := SourceContentIdentity(overlays[i], hashFile).value;
          (Itoa(i) in m <==> id != "") && (id != "" ==> m[Itoa(i)] == id))
    && (forall k :: k in m ==> exists i :: 0 <= i < |overlays| && k == Itoa(i))
  }

  /** Nothing the fingerprint needs is missing or unreadable. */
  ghost predicate Complete(c: Component, opts: IdentityOptions, hashConfig: Component -> Option<nat>,
                           hashFile: string -> Option<string>) {
    && (opts.sourceIdentity != "" || c.sourceType == "")
    && (forall i :: 0 <= i < |c.sourceFiles| ==> c.sourceFiles[i].hash != "")
    && hashConfig(Normalized(c)).Some?
    && forall i :: 0 <= i < |c.overlays| && c.overlays[i].source != "" ==> hashFile(c.overlays[i].source).Some?
  }

  /** Fails exactly when an input is missing or unreadable, the first reason in the order of the
      checks, and otherwise reports the inputs together with the digest of their stream. */
  method ComputeIdentity(component: Component, releaseVer: string, opts: IdentityOptions,
                         hashConfig: Component -> Option<nat>, hashFile: string -> Option<string>,
                         digest: string -> string)
    returns (r: Result<ComponentIdentity, IdentityError>)
    ensures r.Success? <==> Complete(component, opts, hashConfig, hashFile)
    ensures r.Failure? && r.error.SourceIdentityRequired? <==> opts.sourceIdentity == "" && component.sourceType != ""
    ensures r.Failure? && r.error.SourceFileHasNoHash? ==>
              exists i :: FirstUnhashed(component.sourceFiles, i) && component.sourceFiles[i].filename == r.error.filename
    ensures r.Failure? && (r.error.ConfigNotHashable? || r.error.OverlayNotHashable?) ==>
              (forall f :: f in component.sourceFiles ==> f.hash != "")
              && (r.error.ConfigNotHashable? <==> hashConfig(Normalized(component)).None?)
    ensures r.Failure? && r.error.OverlayNotHashable? ==>
              r.error.index < |component.overlays|
              && SourceContentIdentity(component.overlays[r.error.index], hashFile).None?
              && forall j :: 0 <= j < r.error.index ==> SourceContentIdentity(component.overlays[j], hashFile).Some?
    ensures r.Success? ==>
              && (forall f :: f in component.sourceFiles ==> f.hash != "")
              && var inputs := r.value.inputs;
              && hashConfig(Normalized(component)) == Some(inputs.configHash)
              && inputs.sourceIdentity == opts.sourceIdentity
              && inputs.manualBump == opts.manualBump
              && inputs.releaseVer == releaseVer
              && OverlayMapOf(component.overlays, hashFile, inputs.overlayFileHashes)
              && (forall i :: 0 <= i < |component.overlays| ==>
                    (Itoa(i) in inputs.overlayFileHashes <==> component.overlays[i].source != ""))
              && r.value.fingerprint == "sha256:" + digest(CombinedStream(inputs))
  {
    hide OverlayMapOf, SourceContentIdentity, Itoa, EffectiveScriptName, CombinedStream;
    NoOverlaysYet(component.overlays, hashFile);
    if opts.sourceIdentity == "" && component.sourceType != "" {
      return Failure(SourceIdentityRequired);
    }
    for i := 0 to |component.sourceFiles|
      invariant forall j :: 0 <= j < i ==> component.sourceFiles[j].hash != ""
    {
      if component.sourceFiles[i].hash == "" {
        assert FirstUnhashed(component.sourceFiles, i);
        return Failure(SourceFileHasNoHash(component.sourceFiles[i].filename));
      }
    }
    var cloned := component.sourceFiles;
    for i := 0 to |cloned|
      invariant |cloned| == |component.sourceFiles|
      invariant forall j :: 0 <= j < |cloned| ==>
        cloned[j] == if j < i then Normalized(component).sourceFiles[j] else component.sourceFiles[j]
    {
      cloned := cloned[i := cloned[i].(script := EffectiveScriptName(cloned[i].script))];
    }
    assert component.(sourceFiles := cloned) == Normalized(component);
    var configHash := hashConfig(component.(sourceFiles := cloned));
    if configHash.None? {
      return Failure(ConfigNotHashable);
    }
    var overlayHashes: map<string, string> := map[];
    for i := 0 to |component.overlays|
      invariant OverlayMapOf(component.overlays[..i], hashFile, overlayHashes)
      invariant forall j :: 0 <= j < i && component.overlays[j].source != "" ==> hashFile(component.overlays[j].source).Some?
      invariant forall j :: 0 <= j < i ==> SourceContentIdentity(component.overlays[j], hashFile).Some?
    {
      var identity := SourceContentIdentity(component.overlays[i], hashFile);
      IdentityOfSource(component.overlays[i], hashFile);
      if identity.None? {
        return Failure(OverlayNotHashable(i));
      }
      ExtendOverlayMap(component.overlays[..i], component.overlays[i], hashFile, overlayHashes);
      assert component.overlays[..i + 1] == component.overlays[..i] + [component.overlays[i]];
      if identity.value != "" {
        overlayHashes := overlayHashes[Itoa(i) := identity.value];
      }
    }
    assert component.overlays[..|component.overlays|] == component.overlays;
    OnlySourcesAreMapped(component.overlays, hashFile, overlayHashes);
    var inputs := ComponentInputs(configHash.value, opts.sourceIdentity, overlayHashes, opts.manualBump, releaseVer);
    var fingerprint := CombineInputs(inputs, digest);
    return Success(ComponentIdentity(fingerprint, inputs));
  }

  /** An overlay without a source has no identity; one with a source has its name and its content's hash. */
  lemma IdentityOfSource(o: Overlay, hashFile: string -> Option<string>)
    ensures SourceContentIdentity(o, hashFile)
         == if o.source == "" then Some("")
            else if hashFile(o.source).None? then None
            else Some((if o.filename != "" then o.filename else BaseName(o.source)) + ":" + hashFile(o.source).value)
  {
    hide BaseName;
    BaseNameHasNoSlash(o.source);
  }

  lemma OnlySourcesAreMapped(overlays: seq<Overlay>, hashFile: string -> Option<string>, m: map<string, string>)
    requires OverlayMapOf(overlays, hashFile, m)
    ensures forall i :: 0 <= i < |overlays| ==> (Itoa(i) in m <==> overlays[i].source != "")
  {
    hide SourceContentIdentity, Itoa, BaseName;
    forall i | 0 <= i < |overlays| ensures Itoa(i) in m <==> overlays[i].source != "" {
      IdentityOfSource(overlays[i], hashFile);
    }
  }

  lemma NoOverlaysYet(overlays: seq<Overlay>, hashFile: string -> Option<string>)
    ensures OverlayMapOf(overlays[..0], hashFile, map[])
  {
  }

  lemma ExtendOverlayMap(overlays: seq<Overlay>, o: Overlay, hashFile: string -> Option<string>, m: map<string, string>)
    requires OverlayMapOf(overlays, hashFile, m) && SourceContentIdentity(o, hashFile).Some?
    ensures var id := SourceContentIdentity(o, hashFile).value;
            OverlayMapOf(overlays + [o], hashFile, if id != "" then m[Itoa(|overlays|) := id] else m)
  {
    hide Itoa, SourceContentIdentity;
    var id := SourceContentIdentity(o, hashFile).value;
    var n := if id != "" then m[Itoa(|overlays|) := id] else m;
    var all := overlays + [o];
    forall k | k in n ensures exists i :: 0 <= i < |all| && k == Itoa(i) {
      if k in m {
        var i :| 0 <= i < |overlays| && k == Itoa(i);
        assert i < |all|;
      } else {
        assert k == Itoa(|overlays|);
      }
    }
    NoIdentityBeyond(overlays, hashFile, m, |overlays|);
    forall i | 0 <= i < |all|
      ensures var e := SourceContentIdentity(all[i], hashFile).value;
              (Itoa(i) in n <==> e != "") && (e != "" ==> n[Itoa(i)] == e)
    {
      if i < |overlays| {
        assert all[i] == overlays[i];
        DifferentPositions(i, |overlays|);
      }
    }
  }

  lemma DifferentPositions(i: nat, j: nat)
    requires i != j
    ensures Itoa(i) != Itoa(j)
  {
    hide Itoa;
    if Itoa(i) == Itoa(j) {
      ItoaIsInjective(i, j);
    }
  }

  ghost function IdentityAt(overlays: seq<Overlay>, hashFile: string -> Option<string>, i: nat): Option<string> {
    if i < |overlays| then SourceContentIdentity(overlays[i], hashFile) else Some("")
  }

  // ---------- One project in two places ----------

  /** Both absent, or paths to files of one name. */
  ghost predicate SameFile(x: string, y: string) {
    x == y == "" || exists name :: Names(x, name) && Names(y, name)
  }

  /** One component as two checkouts see it: paths may differ in their directories, and what an overlay's
      source contains is the same. */
  ghost predicate SameButPlace(a: Component, b: Component, hashA: string -> Option<string>, hashB: string -> Option<string>) {
    && a.sourceType == b.sourceType && a.settings == b.settings
    && |a.sourceFiles| == |b.sourceFiles| && |a.overlays| == |b.overlays|
    && (forall i :: 0 <= i < |a.sourceFiles| ==>
          && a.sourceFiles[i].filename == b.sourceFiles[i].filename && a.sourceFiles[i].hash == b.sourceFiles[i].hash
          && SameFile(a.sourceFiles[i].script, b.sourceFiles[i].script))
    && (forall i :: 0 <= i < |a.overlays| ==>
          && a.overlays[i].filename == b.overlays[i].filename && SameFile(a.overlays[i].source, b.overlays[i].source)
          && (a.overlays[i].source != "" ==> hashA(a.overlays[i].source) == hashB(b.overlays[i].source)))
  }

  /** The config hash leaves out overlay sources, which are tagged so. */
  ghost predicate IgnoresOverlaySources(hashConfig: Component -> Option<nat>) {
    forall a, b :: SameButOverlaySources(a, b) ==> hashConfig(a) == hashConfig(b)
  }

  ghost predicate SameButOverlaySources(a: Component, b: Component) {
    && a.sourceType == b.sourceType && a.settings == b.settings && a.sourceFiles == b.sourceFiles
    && |a.overlays| == |b.overlays| && forall i :: 0 <= i < |a.overlays| ==> a.overlays[i].filename == b.overlays[i].filename
  }

  lemma EffectiveNames(script: string, o: Overlay, name: string)
    ensures Names(script, name) ==> EffectiveScriptName(script) == name
    ensures Names(o.source, name) ==> EffectiveSourceName(o) == if o.filename != "" then o.filename else name
    ensures EffectiveScriptName("") == "" && (o.source == "" ==> EffectiveSourceName(o) == "")
  {
    hide BaseName;
    assert script + "" == script && o.source + "" == o.source;
    if Names(script, name) {
      BaseNameIs(script, name, "");
    }
    if Names(o.source, name) {
      BaseNameIs(o.source, name, "");
    }
  }

  /** In particular a script keeps its name when its directory moves, and so does an overlay's source. */
  lemma MovedFile(dirA: string, dirB: string, name: string)
    requires name != "" && '/' !in name
    ensures EffectiveScriptName(dirA + "/" + name) == name && EffectiveSourceName(Overlay(dirA + "/" + name, "")) == name
    ensures SameFile(dirA + "/" + name, dirB + "/" + name)
  {
    hide BaseName, Names;
    InDirectory(dirA, name);
    InDirectory(dirB, name);
    EffectiveNames(dirA + "/" + name, Overlay(dirA + "/" + name, ""), name);
  }

  lemma SameFileSameNames(x: string, y: string, p: Overlay, q: Overlay)
    ensures SameFile(x, y) ==> EffectiveScriptName(x) == EffectiveScriptName(y)
    ensures p.filename == q.filename && SameFile(p.source, q.source) ==> EffectiveSourceName(p) == EffectiveSourceName(q)
  {
    hide EffectiveScriptName, EffectiveSourceName, Names;
    if name :| Names(x, name) && Names(y, name) {
      EffectiveNames(x, p, name);
      EffectiveNames(y, q, name);
    }
    if name :| Names(p.source, name) && Names(q.source, name) {
      EffectiveNames(x, p, name);
      EffectiveNames(y, q, name);
    }
    EffectiveNames(x, p, "");
    EffectiveNames(y, q, "");
  }

  lemma NoSourceInBoth(x: string, y: string)
    requires SameFile(x, y)
    ensures x == "" <==> y == ""
  {
  }

  /** What is hashed, and each overlay's identity, do not depend on the place. */
  lemma PlaceIsInvisible(a: Component, b: Component, hashA: string -> Option<string>, hashB: string -> Option<string>)
    requires SameButPlace(a, b, hashA, hashB)
    ensures SameButOverlaySources(Normalized(a), Normalized(b))
    ensures forall i :: 0 <= i < |a.overlays| ==>
              SourceContentIdentity(a.overlays[i], hashA) == SourceContentIdentity(b.overlays[i], hashB)
  {
    hide EffectiveScriptName, EffectiveSourceName, SameFile;
    var none := Overlay("", "");
    forall i | 0 <= i < |a.sourceFiles|
      ensures EffectiveScriptName(a.sourceFiles[i].script) == EffectiveScriptName(b.sourceFiles[i].script)
    {
      SameFileSameNames(a.sourceFiles[i].script, b.sourceFiles[i].script, none, none);
    }
    forall i | 0 <= i < |a.overlays|
      ensures SourceContentIdentity(a.overlays[i], hashA) == SourceContentIdentity(b.overlays[i], hashB)
    {
      SameFileSameNames("", "", a.overlays[i], b.overlays[i]);
      NoSourceInBoth(a.overlays[i].source, b.overlays[i].source);
      IdentityOfSource(a.overlays[i], hashA);
      IdentityOfSource(b.overlays[i], hashB);
    }
  }

  lemma SameOverlayMaps(p: seq<Overlay>, hashP: string -> Option<string>, m: map<string, string>,
                        q: seq<Overlay>, hashQ: string -> Option<string>, n: map<string, string>)
    requires OverlayMapOf(p, hashP, m) && OverlayMapOf(q, hashQ, n) && |p| == |q|
    requires forall i :: 0 <= i < |p| ==> SourceContentIdentity(p[i], hashP) == SourceContentIdentity(q[i], hashQ)
    ensures m == n
  {
    hide SourceContentIdentity, Itoa;
    assert forall i :: 0 <= i < |p| ==> (Itoa(i) in m <==> Itoa(i) in n) && (Itoa(i) in m ==> m[Itoa(i)] == n[Itoa(i)]);
    forall k ensures k in m <==> k in n {
    }
    forall k | k in m ensures m[k] == n[k] {
      var i :| 0 <= i < |p| && k == Itoa(i);
    }
  }

  /** A component gets one answer wherever its project is checked out: the same fingerprint from the same
      inputs, or the same refusal. */
  method FingerprintInTwoPlaces(a: Component, b: Component, releaseVer: string, opts: IdentityOptions,
                                hashConfig: Component -> Option<nat>,
                                hashA: string -> Option<string>, hashB: string -> Option<string>, digest: string -> string)
    returns (r: Result<ComponentIdentity, IdentityError>, s: Result<ComponentIdentity, IdentityError>)
    requires SameButPlace(a, b, hashA, hashB) && IgnoresOverlaySources(hashConfig)
    ensures r == s && (r.Success? <==> Complete(a, opts, hashConfig, hashA))
    ensures r.Success? ==> r.value.fingerprint == "sha256:" + digest(CombinedStream(r.value.inputs))
  {
    hide SourceContentIdentity, Itoa, Normalized, OverlayMapOf, CombinedStream, SameFile;
    r := ComputeIdentity(a, releaseVer, opts, hashConfig, hashA, digest);
    s := ComputeIdentity(b, releaseVer, opts, hashConfig, hashB, digest);
    PlaceIsInvisible(a, b, hashA, hashB);
    assert hashConfig(Normalized(a)) == hashConfig(Normalized(b));
    assert forall i :: FirstUnhashed(a.sourceFiles, i) <==> FirstUnhashed(b.sourceFiles, i);
    OneFirstUnhashed(a.sourceFiles);
    OneFirstUnhashed(b.sourceFiles);
    if exists i :: FirstUnhashed(a.sourceFiles, i) {
      assert r == s;
    } else if hashConfig(Normalized(a)).Some? {
      MappedAreReadable(a.overlays, hashA);
      MappedAreReadable(b.overlays, hashB);
    }
    if r.Success? && s.Success? {
      SameOverlayMaps(a.overlays, hashA, r.value.inputs.overlayFileHashes, b.overlays, hashB, s.value.inputs.overlayFileHashes);
    }
  }

  lemma MappedAreReadable(overlays: seq<Overlay>, hashFile: string -> Option<string>)
    ensures (exists m :: OverlayMapOf(overlays, hashFile, m)) ==>
              forall i :: 0 <= i < |overlays| ==> SourceContentIdentity(overlays[i], hashFile).Some?
  {
    hide SourceContentIdentity;
  }

  lemma OneFirstUnhashed(files: seq<SourceFile>)
    ensures forall i, j :: FirstUnhashed(files, i) && FirstUnhashed(files, j) ==> i == j
    ensures (exists i :: FirstUnhashed(files, i)) ==> exists f :: f in files && f.hash == ""
  {
  }

  /** End to end: when two components are accepted and their streams coincide, every input agrees,
      down to the destination name and content hash of each overlay, position by position. */
  lemma EqualStreamsEqualInputs(a: Component, b: Component, x: ComponentInputs, y: ComponentInputs,
                                hashA: string -> Option<string>, hashB: string -> Option<string>, i: nat)
    requires OverlayMapOf(a.overlays, hashA, x.overlayFileHashes)
    requires OverlayMapOf(b.overlays, hashB, y.overlayFileHashes)
    requires CombinedStream(x) == CombinedStream(y)
    ensures x == y
    ensures IdentityAt(a.overlays, hashA, i) == IdentityAt(b.overlays, hashB, i)
    ensures i < |a.overlays| && i < |b.overlays| ==>
              SourceContentIdentity(a.overlays[i], hashA) == SourceContentIdentity(b.overlays[i], hashB)
  {
    CombinedStreamIsInjective(x, y);
    NoIdentityBeyond(a.overlays, hashA, x.overlayFileHashes, i);
    NoIdentityBeyond(b.overlays, hashB, y.overlayFileHashes, i);
  }

  lemma NoIdentityBeyond(overlays: seq<Overlay>, hashFile: string -> Option<string>, m: map<string, string>, i: nat)
    requires OverlayMapOf(overlays, hashFile, m)
    ensures Itoa(i) in m <==> i < |overlays| && SourceContentIdentity(overlays[i], hashFile) != Some("")
  {
    if i >= |overlays| && Itoa(i) in m {
      var j :| 0 <= j < |overlays| && Itoa(i) == Itoa(j);
      ItoaIsInjective(i, j);
    }
  }

  /** One overlay's identity "name:hash" determines both parts when hashes have one fixed width,
      even if the name itself contains colons. */
  lemma OverlayIdentityIsInjective(p: Overlay, q: Overlay,
                                   hashA: string -> Option<string>, hashB: string -> Option<string>, width: nat)
    requires EffectiveSourceName(p) != "" && EffectiveSourceName(q) != ""
    requires hashA(p.source).Some? && |hashA(p.source).value| == width
    requires hashB(q.source).Some? && |hashB(q.source).value| == width
    requires SourceContentIdentity(p, hashA) == SourceContentIdentity(q, hashB)
    ensures EffectiveSourceName(p) == EffectiveSourceName(q) && hashA(p.source) == hashB(q.source)
  {
    var s := SourceContentIdentity(p, hashA).value;
    var cut := |s| - width;
    assert s[cut..] == hashA(p.source).value && s[cut..] == hashB(q.source).value;
    assert s[..cut - 1] == EffectiveSourceName(p) && s[..cut - 1] == EffectiveSourceName(q);
  }
}
