/** The string logic of the React app creator: checking the project name,
    turning the `--scripts-version` and `--template` options into package
    specifiers, reading a package's name and version off a specifier, and
    building the package manager's argument list. The regular expressions
    the tool applies are simulated with JavaScript's backtracking semantics. */
module CreateApp {
  import opened Wrappers
  import opened Text

  // ---------------------------------------------------------------------
  // Project name

  datatype NameError =
    | NamingRestriction   // npm would refuse the name for a new package
    | DependencyName      // the name of one of the app's own dependencies

  /** The names a new app cannot take because it depends on them. */
  const ReservedNames: set<string> := {"react", "react-dom", "react-scripts"}

  /** `checkAppName`; `validForNewPackages` stands for the npm name
      validator. Both failures exit with code 1. */
  function CheckAppName(appName: string, validForNewPackages: string -> bool): (r: Result<(), NameError>)
    ensures r.Success? <==> validForNewPackages(appName) && appName !in ReservedNames
    ensures !validForNewPackages(appName) ==> r == Failure(NamingRestriction)
    ensures validForNewPackages(appName) && appName in ReservedNames ==> r == Failure(DependencyName)
  {
    if !validForNewPackages(appName) then Failure(NamingRestriction)
    else if appName in ReservedNames then Failure(DependencyName)
    else Success(())
  }

  // ---------------------------------------------------------------------
  // Shared regular expressions

  /** The first index at or after `p` holding `c`, or the length. */
  function IndexFrom(t: string, c: char, p: nat): (q: nat)
    requires p <= |t|
    ensures p <= q <= |t|
    ensures q < |t| ==> t[q] == c
    ensures forall k :: p <= k < q ==> t[k] != c
    decreases |t| - p
  {
    if p == |t| || t[p] == c then p else IndexFrom(t, c, p + 1)
  }

  /** `s.match(/^file:(.*)?$/)[1] || ''`: the text after `file:`, or the
      empty string when a line terminator stops `.` from reaching the end. */
  function FilePath(s: string): (path: string)
    requires StartsWith(s, "file:")
    ensures NoLineTerminator(s[5..]) ==> path == s[5..]
    ensures !NoLineTerminator(s[5..]) ==> path == []
  {
    if NoLineTerminator(s[5..]) then s[5..] else []
  }

  /** `/^.+\.(tgz|tar\.gz)$/`: at least one character (no line terminator)
      before the archive suffix. */
  predicate IsArchive(t: string) {
    NoLineTerminator(t) &&
    ((|t| > 4 && EndsWith(t, ".tgz")) || (|t| > 7 && EndsWith(t, ".tar.gz")))
  }

  // ---------------------------------------------------------------------
  // Scripts package

  datatype Exit = Declined   // the user refuses the deprecated scripts package: exit code 0

  /** `getInstallPackage`. `valid` stands for `semver.valid` (the cleaned
      version, or None), `resolve` for `path.resolve`, `useScript` for the
      answer to the prompt about the deprecated TypeScript scripts. */
  function GetInstallPackage(version: string, originalDirectory: string,
                             valid: string -> Option<string>, resolve: (string, string) -> string,
                             useScript: bool): (r: Result<string, Exit>)
    ensures var p := InstallPackage(version, originalDirectory, valid, resolve);
      r.Failure? <==> StartsWith(p, "react-scripts-ts") && !useScript
    ensures r.Success? ==> r.value == InstallPackage(version, originalDirectory, valid, resolve)
  {
    var p := InstallPackage(version, originalDirectory, valid, resolve);
    if StartsWith(p, "react-scripts-ts") && !useScript then Failure(Declined) else Success(p)
  }

  /** The package to install before the prompt: a valid version pins the
      scripts package; a tag without a slash is appended to it; a `file:`
      specifier is resolved against the original directory; anything else
      is installed as given; no version means the latest scripts package. */
  function InstallPackage(version: string, originalDirectory: string,
                          valid: string -> Option<string>, resolve: (string, string) -> string): (p: string)
    ensures valid(version).Some? ==> p == "react-scripts@" + valid(version).value
    ensures valid(version).None? && version == [] ==> p == "react-scripts"
    ensures valid(version).None? && version != [] && version[0] == '@' && '/' !in version ==>
      p == "react-scripts" + version
    ensures valid(version).None? && version != [] && !(version[0] == '@' && '/' !in version) ==>
      (StartsWith(version, "file:") ==> p == "file:" + resolve(originalDirectory, FilePath(version))) &&
      (!StartsWith(version, "file:") ==> p == version)
  {
    match valid(version)
    case Some(v) => "react-scripts" + "@" + v
    case None =>
      if version == [] then "react-scripts"
      else if version[0] == '@' && '/' !in version then "react-scripts" + version
      else if StartsWith(version, "file:") then "file:" + resolve(originalDirectory, FilePath(version))
      else version
  }

  /** A pinned, tagged or latest scripts package is never the deprecated
      TypeScript one, so only a specifier given verbatim can prompt. */
  lemma ScriptsPackageNeverPrompts(version: string, originalDirectory: string,
                                   valid: string -> Option<string>, resolve: (string, string) -> string)
    requires valid(version).Some? || version == [] || (version[0] == '@' && '/' !in version)
    ensures !StartsWith(InstallPackage(version, originalDirectory, valid, resolve), "react-scripts-ts")
  {
    var p := InstallPackage(version, originalDirectory, valid, resolve);
    if |p| >= 16 {
      assert p[13] == '@';
      assert "react-scripts-ts"[13] == '-';
    }
  }

  // ---------------------------------------------------------------------
  // Template package

  /** A scope `@<name>/`, with at least one character and no slash in the name. */
  predicate ScopeShape(s: string) {
    s == [] || (|s| >= 3 && s[0] == '@' && s[|s| - 1] == '/' && forall k :: 1 <= k < |s| - 1 ==> s[k] != '/')
  }

  /** A package name: no `@`. */
  predicate NameShape(n: string) {
    forall k :: 0 <= k < |n| ==> n[k] != '@'
  }

  /** A version or tag: `@` followed by at least one character and no line
      terminator. */
  predicate VersionShape(v: string) {
    v == [] || (|v| >= 2 && v[0] == '@' && NoLineTerminator(v[1..]))
  }

  /** `t` splits into an optional scope, an optional name and an optional
      version, as `/^(@[^/]+\/)?([^@]+)?(@.+)?$/` requires. */
  predicate Decomposes(t: string, s: string, n: string, v: string) {
    t == s + n + v && ScopeShape(s) && NameShape(n) && VersionShape(v)
  }

  /** `([^@]+)?(@.+)?$` from position `p`: the name runs to the next `@`,
      and the version is the rest, if it is a valid version. */
  function MatchRest(t: string, p: nat): (r: Option<(string, string)>)
    requires p <= |t|
  {
    var q := IndexFrom(t, '@', p);
    var rest := t[q..];
    if rest == [] then Some((t[p..q], []))
    else if |rest| >= 2 && NoLineTerminator(rest[1..]) then Some((t[p..q], rest))
    else None
  }

  /** `t.match(/^(@[^/]+\/)?([^@]+)?(@.+)?$/)`: the groups as scope, name
      and version (empty when a group does not take part), or None when
      the whole text does not match. The scope is tried first; only when
      the rest cannot match after it is the match retried without one. */
  function MatchTemplateSpec(t: string): (r: Option<(string, string, string)>)
  {
    var k := if |t| > 0 then IndexFrom(t, '/', 1) else 0;
    var scoped := if |t| > 0 && t[0] == '@' && 2 <= k < |t| then MatchRest(t, k + 1) else None;
    var unscoped := MatchRest(t, 0);
    if scoped.Some? then Some((t[..k + 1], scoped.value.0, scoped.value.1))
    else if unscoped.Some? then Some(([], unscoped.value.0, unscoped.value.1))
    else None
  }

  lemma MatchRestSound(t: string, p: nat)
    requires p <= |t| && MatchRest(t, p).Some?
    ensures var (n, v) := MatchRest(t, p).value; t[p..] == n + v && NameShape(n) && VersionShape(v)
  {
    var q := IndexFrom(t, '@', p);
    assert t[p..] == t[p..q] + t[q..];
  }

  /** The name and version after a fixed scope are determined by the text. */
  lemma MatchRestComplete(t: string, p: nat, n: string, v: string)
    requires p <= |t| && t[p..] == n + v && NameShape(n) && VersionShape(v)
    ensures MatchRest(t, p) == Some((n, v))
  {
    var q := IndexFrom(t, '@', p);
    forall k | p <= k < p + |n| ensures t[k] != '@' {
      assert t[k] == t[p..][k - p] == n[k - p];
    }
    if v != [] {
      assert t[p + |n|] == t[p..][|n|] == v[0];
    }
    assert q == p + |n|;
    assert t[p..q] == n by {
      assert t[p..q] == t[p..][..|n|];
    }
    assert t[q..] == v by {
      assert t[q..] == t[p..][|n|..];
    }
  }

  /** A scope up to the first slash, followed by a name and a version, is
      a decomposition. */
  lemma ScopedMatchSound(t: string, k: nat, n: string, v: string)
    requires 2 <= k < |t| && t[0] == '@' && t[k] == '/'
    requires forall j :: 1 <= j < k ==> t[j] != '/'
    requires t[k + 1..] == n + v && NameShape(n) && VersionShape(v)
    ensures Decomposes(t, t[..k + 1], n, v)
  {
    var s := t[..k + 1];
    assert ScopeShape(s) by {
      assert s[0] == '@' && s[|s| - 1] == '/';
      forall j | 1 <= j < |s| - 1 ensures s[j] != '/' {
        assert s[j] == t[j];
      }
    }
    assert t == s + t[k + 1..];
    assert s + (n + v) == s + n + v;
  }

  /** A matching rest from the start is a decomposition without a scope. */
  lemma UnscopedMatchSound(t: string)
    requires MatchRest(t, 0).Some?
    ensures Decomposes(t, [], MatchRest(t, 0).value.0, MatchRest(t, 0).value.1)
  {
    var (n, v) := MatchRest(t, 0).value;
    MatchRestSound(t, 0);
    assert t[0..] == t;
    assert t == n + v;
    assert [] + n == n;
    assert ScopeShape([]);
  }

  /** Whatever the matcher returns is a decomposition of the text. */
  lemma MatchTemplateSpecSound(t: string)
    requires MatchTemplateSpec(t).Some?
    ensures var (s, n, v) := MatchTemplateSpec(t).value; Decomposes(t, s, n, v)
  {
    var r := MatchTemplateSpec(t).value;
    var k := if |t| > 0 then IndexFrom(t, '/', 1) else 0;
    if |t| > 0 && t[0] == '@' && 2 <= k < |t| && MatchRest(t, k + 1).Some? {
      var rest := MatchRest(t, k + 1).value;
      assert r == (t[..k + 1], rest.0, rest.1);
      MatchRestSound(t, k + 1);
      ScopedMatchSound(t, k, rest.0, rest.1);
    } else {
      var rest := MatchRest(t, 0).value;
      assert r == ([], rest.0, rest.1);
      UnscopedMatchSound(t);
    }
  }

  /** Every decomposable text matches; a decomposition with a scope is the
      one the matcher returns; one without a scope is returned unless the
      text also decomposes with a scope. */
  lemma MatchTemplateSpecComplete(t: string, s: string, n: string, v: string)
    requires Decomposes(t, s, n, v)
    ensures MatchTemplateSpec(t).Some?
    ensures s != [] ==> MatchTemplateSpec(t) == Some((s, n, v))
    ensures s == [] && MatchTemplateSpec(t).value.0 == [] ==> MatchTemplateSpec(t) == Some((s, n, v))
  {
    if s != [] {
      ScopeFound(t, s, n + v);
      MatchRestComplete(t, |s|, n, v);
    } else {
      assert t[0..] == n + v;
      MatchRestComplete(t, 0, n, v);
    }
  }

  /** The first slash after the `@` of a scope closes it. */
  lemma ScopeFound(t: string, s: string, rest: string)
    requires t == s + rest && s != [] && ScopeShape(s)
    ensures t[0] == '@' && 2 <= |s| - 1 < |t| && IndexFrom(t, '/', 1) == |s| - 1
    ensures t[..|s|] == s && t[|s|..] == rest
  {
    forall j | 1 <= j < |s| - 1 ensures t[j] != '/' {
      assert t[j] == s[j];
    }
    assert t[|s| - 1] == s[|s| - 1];
  }

  /** The official template package. */
  const DefaultTemplate: string := "cra-template"

  /** `getTemplateInstallPackage`. A `file:` template is resolved against
      the original directory; a URL or an archive is used as given; a name
      is prefixed with `cra-template-` unless it already is the official
      package or one of its variants; a bare scope gets the official
      package within it. */
  function GetTemplateInstallPackage(template: string, originalDirectory: string,
                                     resolve: (string, string) -> string): (p: string)
    ensures template == [] ==> p == DefaultTemplate
    ensures StartsWith(template, "file:") ==> p == "file:" + resolve(originalDirectory, FilePath(template))
    ensures template != [] && !StartsWith(template, "file:") && (Contains(template, "://") || IsArchive(template)) ==>
      p == template
  {
    if template == [] then DefaultTemplate
    else if StartsWith(template, "file:") then "file:" + resolve(originalDirectory, FilePath(template))
    else if Contains(template, "://") || IsArchive(template) then template
    else
      var (scope, name, version) := MatchTemplateSpec(template).GetOr(([], [], []));
      if name == DefaultTemplate || StartsWith(name, DefaultTemplate + "-") then scope + name + version
      else if version != [] && scope == [] && name == [] then version + "/" + DefaultTemplate
      else scope + DefaultTemplate + "-" + name + version
  }

  /** A specifier the name branch handles: not a file, a URL or an archive. */
  predicate NamedTemplate(t: string) {
    t != [] && !StartsWith(t, "file:") && !Contains(t, "://") && !IsArchive(t)
  }

  /** The official package and its variants keep their own name. */
  lemma OfficialTemplateKept(s: string, n: string, v: string, dir: string, resolve: (string, string) -> string)
    requires Decomposes(s + n + v, s, n, v) && NamedTemplate(s + n + v)
    requires n == DefaultTemplate || StartsWith(n, DefaultTemplate + "-")
    ensures GetTemplateInstallPackage(s + n + v, dir, resolve) == s + n + v
  {
    var t := s + n + v;
    MatchTemplateSpecComplete(t, s, n, v);
    if s == [] {
      assert t[0] == n[0] == 'c';
    }
  }

  /** Any other name becomes a `cra-template-` package in the same scope,
      with the same version; a scope with no name (`@org/`, `@org/@1`)
      gets a `cra-template-` package with an empty suffix. */
  lemma ShortTemplateExpanded(s: string, n: string, v: string, dir: string, resolve: (string, string) -> string)
    requires Decomposes(s + n + v, s, n, v) && NamedTemplate(s + n + v)
    requires (n != [] || s != []) && n != DefaultTemplate && !StartsWith(n, DefaultTemplate + "-")
    ensures GetTemplateInstallPackage(s + n + v, dir, resolve) == s + DefaultTemplate + "-" + n + v
  {
    var t := s + n + v;
    MatchTemplateSpecComplete(t, s, n, v);
    if s == [] {
      assert t[0] == n[0] && n[0] != '@';
    }
  }

  /** A name the pattern does not match at all (a version that is a bare
      `@` or holds a line break) leaves every part empty: the package is
      `cra-template-`. */
  lemma UnmatchedTemplateExpanded(t: string, dir: string, resolve: (string, string) -> string)
    requires NamedTemplate(t) && MatchTemplateSpec(t).None?
    ensures GetTemplateInstallPackage(t, dir, resolve) == DefaultTemplate + "-"
  {
  }

  /** A bare scope `@x` names the official package within that scope. */
  lemma BareScopeTemplate(x: string, dir: string, resolve: (string, string) -> string)
    requires x != [] && NoLineTerminator(x) && '/' !in x && NamedTemplate("@" + x)
    ensures GetTemplateInstallPackage("@" + x, dir, resolve) == "@" + x + "/" + DefaultTemplate
  {
    var t := "@" + x;
    assert t[1..] == x;
    assert Decomposes(t, [], [], t);
    var k := IndexFrom(t, '/', 1);
    forall j | 1 <= j < |t| ensures t[j] != '/' {
      assert t[j] == x[j - 1];
    }
    assert k == |t|;
    MatchTemplateSpecComplete(t, [], [], t);
  }

  // ---------------------------------------------------------------------
  // Package name and version

  /** A package's name and, when known, its version. */
  datatype PackageInfo = PackageInfo(name: string, version: Option<string>)

  /** `/.+@/`: some `@` after at least one character that is not a line
      terminator. */
  predicate HasVersionSuffix(t: string) {
    exists k :: 1 <= k < |t| && t[k] == '@' && !IsLineTerminator(t[k - 1])
  }

  /** `(p.match(/^file:(.*)?$/) || [])[1]` is a string: the optional group
      takes part only when it matches at least one character, and `.` only
      when no line terminator follows `file:`. Otherwise the path is
      undefined and reading the manifest throws. */
  predicate IsFilePath(rest: string) {
    rest != [] && NoLineTerminator(rest)
  }

  /** A specifier with a version holds `@` after its first character. */
  lemma VersionSuffixHasAt(t: string)
    requires HasVersionSuffix(t)
    ensures |Split(t, "@")| >= 2 && |Split(t[1..], "@")| >= 2
  {
    var k :| 1 <= k < |t| && t[k] == '@' && !IsLineTerminator(t[k - 1]);
    assert t[1..][k - 1] == '@';
    SplitAtPresentChar(t, '@');
    SplitAtPresentChar(t[1..], '@');
  }

  /** `([^/]+)\.git(#.*)?$` matching `t[i..]` with the name group `t[i..e]`. */
  predicate GitMatchAt(t: string, i: int, e: int) {
    0 <= i < e && OccursAt(t, ".git", e) &&
    (forall k :: i <= k < e ==> t[k] != '/') && GitTail(t[e + 4..])
  }

  /** `(#.*)?$`: nothing, or a fragment without line terminators. */
  predicate GitTail(h: string) {
    h == [] || (h[0] == '#' && NoLineTerminator(h[1..]))
  }

  /** The longest name group ending at or before `e` for a match at `i`. */
  function LongestGitEnd(t: string, i: nat, e: nat): (r: Option<nat>)
    ensures r.Some? ==> r.value <= e && GitMatchAt(t, i, r.value)
    ensures r.Some? ==> forall e' :: r.value < e' <= e ==> !GitMatchAt(t, i, e')
    ensures r.None? ==> forall e' :: e' <= e ==> !GitMatchAt(t, i, e')
  {
    if e <= i then None
    else if GitMatchAt(t, i, e) then Some(e)
    else LongestGitEnd(t, i, e - 1)
  }

  /** The leftmost match at or after `i`, with its longest name group. */
  function FirstGitMatch(t: string, i: nat): (r: Option<(nat, nat)>)
    ensures r.Some? ==> i <= r.value.0 && GitMatchAt(t, r.value.0, r.value.1)
    ensures r.Some? ==> forall e' :: r.value.1 < e' ==> !GitMatchAt(t, r.value.0, e')
    ensures r.Some? ==> forall i', e' :: i <= i' < r.value.0 ==> !GitMatchAt(t, i', e')
    ensures r.None? ==> forall i', e' :: i <= i' ==> !GitMatchAt(t, i', e')
    decreases |t| - i
  {
    if i >= |t| then None
    else match LongestGitEnd(t, i, |t|)
      case Some(e) => Some((i, e))
      case None => FirstGitMatch(t, i + 1)
  }

  /** `(t.match(/([^/]+)\.git(#.*)?$/) || [])[1] || ''` */
  function GitName(t: string): string {
    match FirstGitMatch(t, 0)
    case Some((i, e)) => t[i..e]
    case None => []
  }

  /** A name group starting before the last slash of `<base>/...` is
      followed by something other than a fragment when the base holds no `#`. */
  lemma NoGitMatchInBase(t: string, base: string, rest: string, i: int, e: int)
    requires t == base + "/" + rest && '#' !in base
    requires 0 <= i <= |base| && i < e && e + 4 <= |t|
    requires forall k :: i <= k < e ==> t[k] != '/'
    requires t[e..e + 4] == ".git"
    ensures e + 4 < |t| && t[e + 4] != '#'
  {
    assert t[|base|] == '/';
    assert e <= |base|;
    forall j | e <= j < e + 4 ensures t[j] != '/' {
      assert t[j] == t[e..e + 4][j - e];
    }
    assert e + 4 <= |base|;
    assert e + 4 < |base| ==> t[e + 4] == base[e + 4];
  }

  /** After a `.git` suffix, no `.git` starts again unless the rest holds one. */
  lemma NoLaterGitSuffix(t: string, prefix: string, rest: string, e: int)
    requires t == prefix + ".git" + rest && !Contains(rest, ".git")
    requires |prefix| < e
    ensures !OccursAt(t, ".git", e)
  {
    if e + 4 > |t| {
      return;
    }
    if e < |prefix| + 4 {
      assert t[e] == ".git"[e - |prefix|];
    } else {
      var j := e - |prefix| - 4;
      forall k | e <= k < e + 4 ensures t[k] == rest[k - |prefix| - 4] {
      }
      assert t[e..e + 4] == rest[j..j + 4];
      assert !OccursAt(rest, ".git", j);
    }
  }

  /** A repository URL `<base>/<name>.git`, optionally followed by a
      `#<fragment>`, yields the repository name, as long as the base holds
      no `#` and the fragment does not itself mention `.git`. */
  lemma GitNameOfRepository(base: string, name: string, fragment: string)
    requires '#' !in base && name != [] && '/' !in name
    requires GitTail(fragment) && !Contains(fragment, ".git")
    ensures GitName(base + "/" + name + ".git" + fragment) == name
  {
    var t := base + "/" + name + ".git" + fragment;
    var i := |base| + 1;
    var e := i + |name|;
    assert t[i..e] == name;
    assert t[e..e + 4] == ".git";
    assert t[e + 4..] == fragment;
    assert GitMatchAt(t, i, e);
    NoGitMatchBefore(t, base, name + ".git" + fragment);
    NoGitMatchAfter(t, base + "/" + name, fragment);
    GitNameAt(t, i, e);
  }

  /** No name group of `<base>/...` starts inside the base. */
  lemma NoGitMatchBefore(t: string, base: string, rest: string)
    requires t == base + "/" + rest && '#' !in base
    ensures forall i', e' :: 0 <= i' < |base| + 1 ==> !GitMatchAt(t, i', e')
  {
    forall i', e' | 0 <= i' < |base| + 1 ensures !GitMatchAt(t, i', e') {
      if i' < e' && OccursAt(t, ".git", e') && (forall k :: i' <= k < e' ==> t[k] != '/') {
        NoGitMatchInBase(t, base, rest, i', e');
      }
    }
  }

  /** No name group ends after the last `.git` of `t`. */
  lemma NoGitMatchAfter(t: string, prefix: string, rest: string)
    requires t == prefix + ".git" + rest && !Contains(rest, ".git")
    ensures forall i', e' :: |prefix| < e' ==> !GitMatchAt(t, i', e')
  {
    forall i', e' | |prefix| < e' ensures !GitMatchAt(t, i', e') {
      NoLaterGitSuffix(t, prefix, rest, e');
    }
  }

  /** The leftmost match, with the longest name group, is the one the
      pattern reports. */
  lemma GitNameAt(t: string, i: nat, e: nat)
    requires GitMatchAt(t, i, e)
    requires forall i', e' :: 0 <= i' < i ==> !GitMatchAt(t, i', e')
    requires forall e' :: e < e' ==> !GitMatchAt(t, i, e')
    ensures GitName(t) == t[i..e]
  {
    var r := FirstGitMatch(t, 0);
    assert r.Some?;
    var (i0, e0) := r.value;
    assert i0 <= i;
    assert i <= i0;
    assert e <= e0;
    assert e0 <= e;
  }

  /** `getPackageInfo` as written. `archive` stands for reading the
      manifest inside an archive (or the name guessed from its file name),
      `manifest` for reading the manifest of a local directory; a `file:`
      specifier whose path is empty or cut off by a line terminator makes
      the read throw. For a
      specifier with a version, the version is the text after the first
      `@` of the whole specifier, which for a scoped package is the scope's
      name. */
  function GetPackageInfoAsWritten(p: string, archive: string -> PackageInfo,
                                   manifest: string -> PackageInfo): (r: Option<PackageInfo>)
    ensures r.None? <==>
      !IsArchive(p) && !StartsWith(p, "git+") && !HasVersionSuffix(p) && StartsWith(p, "file:") && !IsFilePath(p[5..])
  {
    if IsArchive(p) then Some(archive(p))
    else if StartsWith(p, "git+") then Some(PackageInfo(GitName(p), None))
    else if HasVersionSuffix(p) then
      VersionSuffixHasAt(p);
      Some(PackageInfo([p[0]] + Split(p[1..], "@")[0], Some(Split(p, "@")[1])))
    else if StartsWith(p, "file:") then
      (if IsFilePath(p[5..]) then Some(manifest(p[5..])) else None)
    else Some(PackageInfo(p, None))
  }

  /** For a scoped specifier `@<scope>/<name>@<version>`, the version branch
      reads `<scope>/<name>` as the version. */
  lemma ScopedVersionMisread(scoped: string, version: string, archive: string -> PackageInfo,
                             manifest: string -> PackageInfo)
    requires scoped != [] && '@' !in scoped && '@' !in version && !IsLineTerminator(scoped[|scoped| - 1])
    requires !IsArchive("@" + scoped + "@" + version)
    ensures GetPackageInfoAsWritten("@" + scoped + "@" + version, archive, manifest)
      == Some(PackageInfo("@" + scoped, Some(scoped)))
  {
    var p := "@" + scoped + "@" + version;
    assert p[|scoped| + 1] == '@' && p[|scoped|] == scoped[|scoped| - 1];
    assert HasVersionSuffix(p);
    assert !StartsWith(p, "git+") by {
      assert p[0] == '@';
    }
    assert p[1..] == scoped + "@" + version;
    SplitAtFirst(scoped, '@', version);
    SplitWithoutSeparator(version, '@');
    assert p == [] + "@" + (scoped + "@" + version);
    SplitAtFirst([], '@', scoped + "@" + version);
    assert [p[0]] + scoped == "@" + scoped;
  }

  /** The example specifier ends in neither archive suffix. */
  lemma ExampleNotArchive()
    ensures !IsArchive("@scope/pkg@1.0.0")
  {
    var p := "@scope/pkg@1.0.0";
    assert p[|p| - 4..][1] == p[13] == '0';
    assert p[|p| - 7..][0] == p[9] == 'g';
  }

  /** The smallest scoped example: the version of `@scope/pkg@1.0.0` is read
      as `scope/pkg`. */
  lemma ScopedVersionExample(archive: string -> PackageInfo, manifest: string -> PackageInfo)
    ensures GetPackageInfoAsWritten("@scope/pkg@1.0.0", archive, manifest)
      == Some(PackageInfo("@scope/pkg", Some("scope/pkg")))
  {
    var p := "@scope/pkg@1.0.0";
    ExampleNotArchive();
    var scoped, version := "scope/pkg", "1.0.0";
    assert p == "@" + scoped + "@" + version;
    assert "@" + scoped == "@scope/pkg";
    ScopedVersionMisread(scoped, version, archive, manifest);
  }

  /** `getPackageInfo` with the version read after the name, as the
      comment on the branch intends: the first character is part of the
      name even when it is a scope's `@`. */
  function GetPackageInfo(p: string, archive: string -> PackageInfo,
                          manifest: string -> PackageInfo): (r: Option<PackageInfo>)
    ensures r.None? <==>
      !IsArchive(p) && !StartsWith(p, "git+") && !HasVersionSuffix(p) && StartsWith(p, "file:") && !IsFilePath(p[5..])
    ensures !IsArchive(p) && !StartsWith(p, "git+") && !HasVersionSuffix(p) && !StartsWith(p, "file:") ==>
      r == Some(PackageInfo(p, None))
  {
    if IsArchive(p) then Some(archive(p))
    else if StartsWith(p, "git+") then Some(PackageInfo(GitName(p), None))
    else if HasVersionSuffix(p) then
      VersionSuffixHasAt(p);
      var parts := Split(p[1..], "@");
      Some(PackageInfo([p[0]] + parts[0], Some(parts[1])))
    else if StartsWith(p, "file:") then
      (if IsFilePath(p[5..]) then Some(manifest(p[5..])) else None)
    else Some(PackageInfo(p, None))
  }

  /** A name (possibly scoped) and a version without `@` come back apart. */
  lemma PackageInfoRoundTrip(name: string, version: string, archive: string -> PackageInfo,
                             manifest: string -> PackageInfo)
    requires |name| >= 1 && '@' !in name[1..] && !IsLineTerminator(name[|name| - 1])
    requires '@' !in version
    requires !IsArchive(name + "@" + version) && !StartsWith(name + "@" + version, "git+")
    ensures GetPackageInfo(name + "@" + version, archive, manifest) == Some(PackageInfo(name, Some(version)))
  {
    var p := name + "@" + version;
    assert p[|name|] == '@' && p[|name| - 1] == name[|name| - 1];
    assert HasVersionSuffix(p);
    assert p[1..] == name[1..] + "@" + version;
    SplitAtFirst(name[1..], '@', version);
    SplitWithoutSeparator(version, '@');
    assert [p[0]] + name[1..] == name;
  }

  /** For an unscoped name the corrected reading agrees with the original. */
  lemma PackageInfoUnscopedUnchanged(name: string, version: string, archive: string -> PackageInfo,
                                     manifest: string -> PackageInfo)
    requires |name| >= 1 && '@' !in name && !IsLineTerminator(name[|name| - 1])
    requires '@' !in version
    requires !IsArchive(name + "@" + version) && !StartsWith(name + "@" + version, "git+")
    ensures GetPackageInfoAsWritten(name + "@" + version, archive, manifest)
      == GetPackageInfo(name + "@" + version, archive, manifest)
  {
    var p := name + "@" + version;
    PackageInfoRoundTrip(name, version, archive, manifest);
    assert p[|name|] == '@' && p[|name| - 1] == name[|name| - 1];
    assert HasVersionSuffix(p);
    assert '@' !in name[1..];
    SplitOnce(name, '@', version);
    assert p[1..] == name[1..] + "@" + version;
    SplitOnce(name[1..], '@', version);
    assert [p[0]] + name[1..] == name;
  }

  // ---------------------------------------------------------------------
  // Package manager arguments

  /** The command `install` spawns, and its arguments. Yarn pins exact
      versions, falls back to its cache when offline, and is told the
      project directory; npm pins exact versions, skips the audit and only
      logs errors, and ignores the offline flag. */
  function InstallCommand(root: string, useYarn: bool, dependencies: seq<string>,
                          verbose: bool, isOnline: bool): (string, seq<string>)
  {
    var extra := if verbose then ["--verbose"] else [];
    if useYarn then
      ("yarnpkg", ["add", "--exact"] + (if isOnline then [] else ["--offline"]) + dependencies + ["--cwd", root] + extra)
    else
      ("npm", ["install", "--no-audit", "--save", "--save-exact", "--loglevel", "error"] + dependencies + extra)
  }

  /** `install` building its argument list one push at a time. */
  method InstallArguments(root: string, useYarn: bool, dependencies: seq<string>, verbose: bool, isOnline: bool)
    returns (command: string, args: seq<string>)
    ensures (command, args) == InstallCommand(root, useYarn, dependencies, verbose, isOnline)
  {
    if useYarn {
      command := "yarnpkg";
      args := ["add", "--exact"];
      if !isOnline {
        args := args + ["--offline"];
      }
      assert args == ["add", "--exact"] + (if isOnline then [] else ["--offline"]);
      args := args + dependencies;
      ghost var head := args;
      args := args + ["--cwd"];
      args := args + [root];
      assert args == head + ["--cwd", root];
    } else {
      command := "npm";
      args := ["install", "--no-audit", "--save", "--save-exact", "--loglevel", "error"] + dependencies;
    }
    ghost var body := args;
    if verbose {
      args := args + ["--verbose"];
    }
    assert args == body + (if verbose then ["--verbose"] else []);
  }

  /** Where everything sits in the argument list: the fixed flags first
      (with `--offline` third for yarn when offline), then the dependencies
      exactly as given and in order, then yarn's `--cwd <root>`, then
      `--verbose` last when asked for. */
  lemma InstallArgumentsLayout(root: string, useYarn: bool, dependencies: seq<string>,
                               verbose: bool, isOnline: bool)
    ensures var (command, args) := InstallCommand(root, useYarn, dependencies, verbose, isOnline);
      var start := if useYarn then (if isOnline then 2 else 3) else 6;
      var end := start + |dependencies|;
      |args| == end + (if useYarn then 2 else 0) + (if verbose then 1 else 0) &&
      args[start..end] == dependencies &&
      (verbose ==> args[|args| - 1] == "--verbose") &&
      (useYarn ==>
        command == "yarnpkg" && args[..2] == ["add", "--exact"] && (!isOnline ==> args[2] == "--offline") &&
        args[end..end + 2] == ["--cwd", root]) &&
      (!useYarn ==>
        command == "npm" && args[..6] == ["install", "--no-audit", "--save", "--save-exact", "--loglevel", "error"])
  {
  }

  /** npm's arguments do not depend on whether the network is reachable. */
  lemma NpmIgnoresOffline(root: string, dependencies: seq<string>, verbose: bool)
    ensures InstallCommand(root, false, dependencies, verbose, true) == InstallCommand(root, false, dependencies, verbose, false)
  {
  }

  // ---------------------------------------------------------------------
  // Dependencies installed by `run`

  /** The minimum scripts version that takes templates. */
  const TemplatesVersionMinimum: string := "3.3.0"

  /** React, React DOM and the scripts package, plus the template package
      when the scripts package supports templates. `coerced` is the version
      semver reads out of the scripts package's version (None when it reads
      none, in which case the minimum is taken); `atLeastMinimum` stands
      for comparing a version with the minimum. */
  function RunDependencies(packageToInstall: string, templateToInstall: string,
                           coerced: Option<string>, atLeastMinimum: string -> bool): (deps: seq<string>)
    ensures |deps| >= 3 && deps[..3] == ["react", "react-dom", packageToInstall]
    ensures |deps| == 4 <==> coerced.None? || atLeastMinimum(coerced.value)
    ensures |deps| == 4 ==> deps[3] == templateToInstall
  {
    var supportsTemplates := match coerced
      case None => true
      case Some(v) => atLeastMinimum(v);
    ["react", "react-dom", packageToInstall] + (if supportsTemplates then [templateToInstall] else [])
  }
}
