/** internal/repo/repocompare/metadata.go: packages and the keys they are compared by. */
module RepoMetadata {
  datatype Package = Package(
    name: string,
    epoch: string,
    version: string,
    release: string,
    arch: string,
    kind: string,
    checksumType: string,
    checksum: string,
    size: nat)

  function NormalizedEpoch(epoch: string): string {
    if epoch == "" then "0" else epoch
  }

  /** The NUL-separated key that identifies a package. */
  function Identity(p: Package): string {
    p.name + "\0" + (NormalizedEpoch(p.epoch) + "\0" + (p.version + "\0" + (p.release + "\0" + (p.arch + "\0" + p.kind))))
  }

  function EVR(p: Package): string {
    var epoch := NormalizedEpoch(p.epoch);
    (if epoch != "0" then epoch + ":" else "") + p.version + "-" + p.release
  }

  function NEVR(p: Package): string {
    p.name + "-" + EVR(p)
  }

  function KindAndArchKey(p: Package): string {
    p.kind + "\0" + p.arch
  }

  function VersionAndKindKey(p: Package): string {
    EVR(p) + "\0" + p.kind
  }

  /** XML metadata cannot contain NUL (production Char in section 2.2 of XML 1.0). */
  predicate NulFree(p: Package) {
    '\0' !in p.name && '\0' !in p.epoch && '\0' !in p.version && '\0' !in p.release && '\0' !in p.arch && '\0' !in p.kind
  }

  ghost predicate AllNulFree(packages: seq<Package>) {
    forall p :: p in packages ==> NulFree(p)
  }

  /** RPM keeps these separators out of the fields. */
  predicate RpmFields(p: Package) {
    '-' !in p.version && '-' !in p.release && '-' !in p.epoch && ':' !in p.epoch && ':' !in p.version
  }

  ghost predicate AllRpmFields(packages: seq<Package>) {
    forall p :: p in packages ==> RpmFields(p)
  }

  lemma AnOrdinaryPackage()
    ensures var p := Package("a-b", "1", "2", "3.c", "d", "", "", "", 0); NulFree(p) && RpmFields(p)
  {
  }

  /** No epoch is epoch 0. */
  predicate SameEpoch(a: string, b: string) {
    a == b || (a in ["", "0"] && b in ["", "0"])
  }

  predicate SameVersion(p: Package, q: Package) {
    SameEpoch(p.epoch, q.epoch) && p.version == q.version && p.release == q.release
  }

  lemma NormalizedEpochs(a: string, b: string)
    ensures NormalizedEpoch(a) == NormalizedEpoch(b) <==> SameEpoch(a, b)
    ensures NormalizedEpoch(a) == "0" <==> SameEpoch(a, "0")
  {
  }

  lemma {:induction false} SplitAtFirst(c: char, a: string, x: string, b: string, y: string)
    requires c !in a && c !in b && a + [c] + x == b + [c] + y
    ensures a == b && x == y
  {
    var s, t := a + [c] + x, b + [c] + y;
    if a == "" || b == "" {
      assert s[0] == t[0];
      assert a == b == "";
      assert s[1..] == x && t[1..] == y;
    } else {
      assert s[0] == a[0] && t[0] == b[0];
      assert s[1..] == a[1..] + [c] + x && t[1..] == b[1..] + [c] + y;
      SplitAtFirst(c, a[1..], x, b[1..], y);
      assert a == [a[0]] + a[1..] && b == [b[0]] + b[1..];
    }
  }

  lemma {:induction false} SplitAtLast(c: char, a: string, x: string, b: string, y: string)
    requires c !in x && c !in y && a + [c] + x == b + [c] + y
    ensures a == b && x == y
  {
    var s, t := a + [c] + x, b + [c] + y;
    if x == "" || y == "" {
      assert s[|s| - 1] == t[|t| - 1];
      assert x == y == "";
      assert s[..|s| - 1] == a && t[..|t| - 1] == b;
    } else {
      assert s[|s| - 1] == x[|x| - 1] && t[|t| - 1] == y[|y| - 1];
      assert s[..|s| - 1] == a + [c] + x[..|x| - 1] && t[..|t| - 1] == b + [c] + y[..|y| - 1];
      SplitAtLast(c, a, x[..|x| - 1], b, y[..|y| - 1]);
      assert x == x[..|x| - 1] + [x[|x| - 1]] && y == y[..|y| - 1] + [y[|y| - 1]];
    }
  }

  /** For NUL-free packages the identity is every part of the package but its content, no epoch being epoch 0. */
  lemma IdentityMeans(p: Package, q: Package)
    requires NulFree(p) && NulFree(q)
    ensures Identity(p) == Identity(q) <==> p.name == q.name && SameVersion(p, q) && p.arch == q.arch && p.kind == q.kind
  {
    NormalizedEpochs(p.epoch, q.epoch);
    if Identity(p) == Identity(q) {
      var p5, q5 := p.arch + "\0" + p.kind, q.arch + "\0" + q.kind;
      var p4, q4 := p.release + "\0" + p5, q.release + "\0" + q5;
      var p3, q3 := p.version + "\0" + p4, q.version + "\0" + q4;
      var p2, q2 := NormalizedEpoch(p.epoch) + "\0" + p3, NormalizedEpoch(q.epoch) + "\0" + q3;
      SplitAtFirst('\0', p.name, p2, q.name, q2);
      SplitAtFirst('\0', NormalizedEpoch(p.epoch), p3, NormalizedEpoch(q.epoch), q3);
      SplitAtFirst('\0', p.version, p4, q.version, q4);
      SplitAtFirst('\0', p.release, p5, q.release, q5);
      SplitAtFirst('\0', p.arch, p.kind, q.arch, q.kind);
    }
  }

  lemma KindAndArchKeyMeans(p: Package, q: Package)
    requires NulFree(p) && NulFree(q)
    ensures KindAndArchKey(p) == KindAndArchKey(q) <==> p.kind == q.kind && p.arch == q.arch
  {
    if KindAndArchKey(p) == KindAndArchKey(q) {
      SplitAtFirst('\0', p.kind, p.arch, q.kind, q.arch);
    }
  }

  /** Epoch and version as EVR shows them, before the release. */
  function EpochAndVersion(p: Package): string {
    (if SameEpoch(p.epoch, "0") then "" else p.epoch + ":") + p.version
  }

  lemma EVRParts(p: Package)
    ensures EVR(p) == EpochAndVersion(p) + "-" + p.release
    ensures NEVR(p) == (p.name + "-" + EpochAndVersion(p)) + "-" + p.release
  {
    NormalizedEpochs(p.epoch, "0");
    assert "" + p.version == p.version;
    assert p.name + "-" + (EpochAndVersion(p) + "-" + p.release) == (p.name + "-" + EpochAndVersion(p)) + "-" + p.release;
  }

  lemma SameEpochAndVersion(p: Package, q: Package)
    requires RpmFields(p) && RpmFields(q)
    ensures EpochAndVersion(p) == EpochAndVersion(q) <==> SameEpoch(p.epoch, q.epoch) && p.version == q.version
    ensures '-' !in EpochAndVersion(p)
  {
    ColonIffEpoch(p);
    ColonIffEpoch(q);
    if EpochAndVersion(p) == EpochAndVersion(q) && ':' in EpochAndVersion(p) {
      SplitAtFirst(':', p.epoch, p.version, q.epoch, q.version);
    }
  }

  lemma ColonIffEpoch(p: Package)
    requires RpmFields(p)
    ensures ':' in EpochAndVersion(p) <==> !SameEpoch(p.epoch, "0")
    ensures EpochAndVersion(p) == if ':' in EpochAndVersion(p) then p.epoch + ":" + p.version else p.version
  {
    assert "" + p.version == p.version;
    assert !SameEpoch(p.epoch, "0") ==> EpochAndVersion(p)[|p.epoch|] == ':';
  }

  /** What EVR, and with the name NEVR, stand for. */
  lemma EVRMeans(p: Package, q: Package)
    requires RpmFields(p) && RpmFields(q)
    ensures EVR(p) == EVR(q) <==> SameVersion(p, q)
    ensures NEVR(p) == NEVR(q) <==> p.name == q.name && SameVersion(p, q)
  {
    hide EVR, NEVR, SameEpoch, EpochAndVersion;
    EVRParts(p);
    EVRParts(q);
    SameEpochAndVersion(p, q);
    SameEpochAndVersion(q, p);
    if EVR(p) == EVR(q) {
      SplitAtLast('-', EpochAndVersion(p), p.release, EpochAndVersion(q), q.release);
    }
    if NEVR(p) == NEVR(q) {
      SplitAtLast('-', p.name + "-" + EpochAndVersion(p), p.release, q.name + "-" + EpochAndVersion(q), q.release);
      SplitAtLast('-', p.name, EpochAndVersion(p), q.name, EpochAndVersion(q));
    }
  }

  lemma VersionAndKindKeyMeans(p: Package, q: Package)
    requires NulFree(p) && NulFree(q) && RpmFields(p) && RpmFields(q)
    ensures VersionAndKindKey(p) == VersionAndKindKey(q) <==> SameVersion(p, q) && p.kind == q.kind
  {
    hide SameEpoch;
    EVRMeans(p, q);
    assert '\0' !in EVR(p) && '\0' !in EVR(q);
    if VersionAndKindKey(p) == VersionAndKindKey(q) {
      SplitAtFirst('\0', EVR(p), p.kind, EVR(q), q.kind);
    }
  }
}
