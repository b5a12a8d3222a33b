/** internal/projectconfig/resources.go: the rules for single repositories, sets and keys, as the code
    checks them one after the other, and what they amount to. */
module RepoRules {
  import opened Wrappers
  import opened Strings

  // ---------- Characters ----------

  predicate IsAlpha(c: char) {
    'a' <= c <= 'z' || 'A' <= c <= 'Z'
  }

  predicate AlphaNumeric(c: char) {
    IsAlpha(c) || '0' <= c <= '9'
  }

  predicate IsSchemeChar(c: char) {
    IsAlpha(c) || '0' <= c <= '9' || c == '+' || c == '-' || c == '.'
  }

  predicate IsNameChar(c: char) {
    AlphaNumeric(c) || c in "_.:-"
  }

  /** The characters by their ASCII codes: letters, digits, "+" (43), "-" (45), "." (46), ":" (58), "_" (95). */
  lemma CharacterCodes(c: char)
    ensures IsAlpha(c) <==> 65 <= c as int <= 90 || 97 <= c as int <= 122
    ensures AlphaNumeric(c) <==> IsAlpha(c) || 48 <= c as int <= 57
    ensures IsSchemeChar(c) <==> AlphaNumeric(c) || c as int in {43, 45, 46}
    ensures IsNameChar(c) <==> AlphaNumeric(c) || c as int in {45, 46, 58, 95}
  {
    assert c in "_.:-" <==> c == '_' || c == '.' || c == ':' || c == '-';
  }

  // ---------- URIs and keys ----------

  /** The parts url.Parse splits a URI into. */
  datatype Uri = Uri(scheme: string, nonHierarchical: string, host: string, path: string, rawQuery: string, fragment: string)

  /** Text rules of other packages: url.Parse, and the check for line breaks and NUL. */
  datatype TextRules = TextRules(parse: string -> Option<Uri>, singleLine: string -> bool)

  /** The scheme rule of section 3.1 of RFC 3986, followed by a colon. */
  predicate HasURIScheme(s: string) {
    exists i :: 0 < i < |s| && s[i] == ':' && IsAlpha(s[0]) && forall j :: 0 < j < i ==> IsSchemeChar(s[j])
  }

  /** The scan hasURIScheme makes finds a scheme exactly when the grammar has one. */
  method ScanURIScheme(s: string) returns (found: bool)
    ensures found <==> HasURIScheme(s)
  {
    for i := 0 to |s|
      invariant i > 0 ==> IsAlpha(s[0])
      invariant forall j :: 0 < j < i ==> IsSchemeChar(s[j]) && s[j] != ':'
    {
      if i == 0 {
        if !IsAlpha(s[0]) {
          return false;
        }
      } else if s[i] == ':' {
        return true;
      } else if !IsSchemeChar(s[i]) {
        return false;
      }
    }
    found := false;
  }

  predicate ValidRemoteURI(raw: string, rules: TextRules) {
    && rules.singleLine(raw)
    && rules.parse(raw).Some?
    && var u := rules.parse(raw).value;
    && ToLower(u.scheme) in ["http", "https"] && u.nonHierarchical == "" && u.host != ""
  }

  predicate ValidGPGKey(raw: string, rules: TextRules) {
    && rules.singleLine(raw)
    && (HasURIScheme(raw) ==>
          && rules.parse(raw).Some?
          && var u := rules.parse(raw).value;
             var scheme := ToLower(u.scheme);
          && scheme in ["http", "https", "file"] && u.nonHierarchical == ""
          && if scheme == "file" then u.host == "" && "/" <= u.path else u.host != "")
  }

  predicate IsLocalGPGKey(key: string, rules: TextRules) {
    if key == "" then false
    else if !HasURIScheme(key) then true
    else
      match rules.parse(key)
      case None => false
      case Some(u) => ToLower(u.scheme) == "file"
  }

  /** A local key is a bare path or a file URI. */
  lemma LocalKeyMeans(key: string, rules: TextRules)
    ensures IsLocalGPGKey(key, rules) <==>
              key != "" && (!HasURIScheme(key) || (rules.parse(key).Some? && ToLower(rules.parse(key).value.scheme) == "file"))
  {
    hide HasURIScheme, ToLower;
  }

  /** An http(s) URI with a host, on one line. */
  ghost predicate IsRemote(raw: string, rules: TextRules) {
    rules.singleLine(raw) && exists u :: rules.parse(raw) == Some(u) && u.nonHierarchical == "" && u.host != ""
                               && (ToLower(u.scheme) == "http" || ToLower(u.scheme) == "https")
  }

  /** An http(s) URI with a host. */
  ghost predicate IsRemoteKey(key: string, rules: TextRules) {
    && HasURIScheme(key) && rules.parse(key).Some?
    && ToLower(rules.parse(key).value.scheme) in ["http", "https"] && rules.parse(key).value.host != ""
  }

  // ---------- Repositories, templates and sets ----------

  datatype RpmRepo = RpmRepo(
    description: string,
    repoType: string,
    baseURI: string,
    metalink: string,
    disableGPGCheck: bool,
    gpgKey: string,
    arches: seq<string>)

  datatype SubrepoSpec = SubrepoSpec(name: string, subpath: string, kind: string)

  datatype RpmRepoSet = RpmRepoSet(
    description: string,
    template: string,
    baseURI: string,
    namePrefix: string,
    gpgKey: string,
    disableGPGCheck: bool,
    arches: seq<string>,
    subrepos: seq<string>)

  /** ^[A-Za-z0-9][A-Za-z0-9_.:-]*$ */
  predicate ValidRpmRepoName(name: string) {
    && name != "" && AlphaNumeric(name[0])
    && forall i :: 0 < i < |name| ==> IsNameChar(name[i])
  }

  /** Signature checking is on unless disabled, and then needs a key; a key must be well formed. */
  predicate ValidGPG(disableGPGCheck: bool, gpgKey: string, rules: TextRules) {
    (disableGPGCheck || gpgKey != "") && (gpgKey != "" ==> ValidGPGKey(gpgKey, rules))
  }

  predicate ValidRpmRepo(repo: RpmRepo, rules: TextRules) {
    && repo.repoType in ["", "rpm-md"]
    && rules.singleLine(repo.description)
    && (repo.baseURI != "") != (repo.metalink != "")
    && (repo.baseURI != "" ==> ValidRemoteURI(repo.baseURI, rules))
    && (repo.metalink != "" ==> ValidRemoteURI(repo.metalink, rules))
    && ValidGPG(repo.disableGPGCheck, repo.gpgKey, rules)
  }

  predicate ValidRpmRepoSet(s: RpmRepoSet, rules: TextRules) {
    && s.template != ""
    && s.baseURI != "" && ValidRemoteURI(s.baseURI, rules)
    && ValidGPG(s.disableGPGCheck, s.gpgKey, rules)
  }

  predicate ValidSubrepo(sub: SubrepoSpec, rules: TextRules) {
    ValidRpmRepoName(sub.name) && ValidKindAndSubpath(sub, rules)
  }

  predicate ValidKindAndSubpath(sub: SubrepoSpec, rules: TextRules) {
    && sub.kind in ["", "binary", "debug", "source"]
    && sub.subpath != "" && !("/" <= sub.subpath)
    && rules.singleLine(sub.subpath)
  }

  // ---------- The checks, in the order of the code ----------

  datatype RuleError =
    | UnsafeCharacters
    | NotAUri
    | UnsupportedScheme
    | NotHierarchical
    | HostMissing
    | UnexpectedHost
    | RelativePath
    | UnsupportedType
    | SourceMissing
    | TwoSources
    | TemplateMissing
    | KeyMissing
    | BadName

  function ValidateRemoteURI(raw: string, rules: TextRules): (r: Option<RuleError>)
    ensures r.None? <==> ValidRemoteURI(raw, rules)
  {
    if !rules.singleLine(raw) then Some(UnsafeCharacters)
    else
      match rules.parse(raw)
      case None => Some(NotAUri)
      case Some(u) =>
        var scheme := ToLower(u.scheme);
        if scheme != "http" && scheme != "https" then Some(UnsupportedScheme)
        else if u.nonHierarchical != "" then Some(NotHierarchical)
        else if u.host == "" then Some(HostMissing)
        else None
  }

  function ValidateGPGKey(raw: string, rules: TextRules): (r: Option<RuleError>)
    ensures r.None? <==> ValidGPGKey(raw, rules)
  {
    if !rules.singleLine(raw) then Some(UnsafeCharacters)
    else if !HasURIScheme(raw) then None
    else
      match rules.parse(raw)
      case None => Some(NotAUri)
      case Some(u) =>
        var scheme := ToLower(u.scheme);
        if scheme != "http" && scheme != "https" && scheme != "file" then Some(UnsupportedScheme)
        else if u.nonHierarchical != "" then Some(NotHierarchical)
        else if scheme != "file" then (if u.host == "" then Some(HostMissing) else None)
        else if u.host != "" then Some(UnexpectedHost)
        else if u.path == "" || u.path[0] != '/' then Some(RelativePath)
        else None
  }

  function ValidateGPG(disableGPGCheck: bool, gpgKey: string, rules: TextRules): (r: Option<RuleError>)
    ensures r.None? <==> ValidGPG(disableGPGCheck, gpgKey, rules)
  {
    if !disableGPGCheck && gpgKey == "" then Some(KeyMissing)
    else if gpgKey == "" then None
    else ValidateGPGKey(gpgKey, rules)
  }

  function ValidateRpmRepoSource(repo: RpmRepo, rules: TextRules): Option<RuleError> {
    if repo.baseURI == "" && repo.metalink == "" then Some(SourceMissing)
    else if repo.baseURI != "" && repo.metalink != "" then Some(TwoSources)
    else
      var first := if repo.baseURI != "" then ValidateRemoteURI(repo.baseURI, rules) else None;
      if first.Some? then first
      else if repo.metalink != "" then ValidateRemoteURI(repo.metalink, rules)
      else None
  }

  function ValidateRpmRepo(repo: RpmRepo, rules: TextRules): (r: Option<RuleError>)
    ensures r.None? <==> ValidRpmRepo(repo, rules)
  {
    if repo.repoType != "" && repo.repoType != "rpm-md" then Some(UnsupportedType)
    else if !rules.singleLine(repo.description) then Some(UnsafeCharacters)
    else
      var source := ValidateRpmRepoSource(repo, rules);
      if source.Some? then source else ValidateGPG(repo.disableGPGCheck, repo.gpgKey, rules)
  }

  function ValidateRpmRepoSet(s: RpmRepoSet, rules: TextRules): (r: Option<RuleError>)
    ensures r.None? <==> ValidRpmRepoSet(s, rules)
  {
    if s.template == "" then Some(TemplateMissing)
    else if s.baseURI == "" then Some(SourceMissing)
    else
      var uri := ValidateRemoteURI(s.baseURI, rules);
      if uri.Some? then uri else ValidateGPG(s.disableGPGCheck, s.gpgKey, rules)
  }

  /** The pattern's loop over the characters after the first. */
  predicate AllNameChars(s: string) {
    s == "" || (IsNameChar(s[0]) && AllNameChars(s[1..]))
  }

  lemma {:induction false} AllNameCharsMeans(s: string)
    ensures AllNameChars(s) <==> forall i :: 0 <= i < |s| ==> IsNameChar(s[i])
  {
    hide IsNameChar;
    if s != "" {
      AllNameCharsMeans(s[1..]);
      assert forall i :: 0 < i < |s| ==> s[i] == s[1..][i - 1];
      assert AllNameChars(s) ==> forall i :: 0 <= i < |s| - 1 ==> IsNameChar(s[1..][i]);
      assert (forall i :: 0 <= i < |s| ==> IsNameChar(s[i])) ==> forall i :: 0 <= i < |s| - 1 ==> s[1..][i] == s[i + 1];
    }
  }

  function ValidateRpmRepoName(name: string): (r: Option<RuleError>)
    ensures r.None? <==> ValidRpmRepoName(name)
  {
    if name == "" then Some(BadName)
    else
      AllNameCharsMeans(name[1..]);
      assert forall i :: 0 < i < |name| ==> name[i] == name[1..][i - 1];
      if AlphaNumeric(name[0]) && AllNameChars(name[1..]) then None else Some(BadName)
  }

  /** What the loop over a template's sub-repos checks after a name and its uniqueness. */
  function ValidateKindAndSubpath(sub: SubrepoSpec, rules: TextRules): (r: Option<RuleError>)
    ensures r.None? <==> ValidKindAndSubpath(sub, rules)
  {
    if sub.kind != "" && sub.kind != "binary" && sub.kind != "debug" && sub.kind != "source" then Some(UnsupportedType)
    else if sub.subpath == "" then Some(SourceMissing)
    else if sub.subpath[0] == '/' then Some(RelativePath)
    else if !rules.singleLine(sub.subpath) then Some(UnsafeCharacters)
    else None
  }
}
