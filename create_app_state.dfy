/** The parts of the React app creator that change things in place: the
    target directory, whose leftover error logs the safety check deletes and
    whose generated files an aborted installation removes, and the
    dependencies of the new app's package manifest, whose React versions
    are widened to caret ranges. */
module CreateAppState {
  import opened Wrappers
  import opened Text
  import H0Utils

  // ---------------------------------------------------------------------
  // Target directory

  /** Entries that may already sit in the target directory. */
  const ValidFiles: set<string> := {
    ".DS_Store", ".git", ".gitattributes", ".gitignore", ".gitlab-ci.yml", ".hg", ".hgcheck",
    ".hgignore", ".idea", ".npmignore", ".travis.yml", "docs", "LICENSE", "README.md",
    "mkdocs.yml", "Thumbs.db"
  }

  /** Prefixes of the logs a failed earlier installation leaves behind. */
  const ErrorLogPatterns: seq<string> := ["npm-debug.log", "yarn-error.log", "yarn-debug.log"]

  predicate IsErrorLog(file: string) {
    exists i :: 0 <= i < |ErrorLogPatterns| && StartsWith(file, ErrorLogPatterns[i])
  }

  /** An entry that could conflict with the new project: not allowed, not
      an IntelliJ module file, not an error log. */
  predicate IsConflict(file: string) {
    file !in ValidFiles && !EndsWith(file, ".iml") && !IsErrorLog(file)
  }

  function Conflicts(entries: set<string>): set<string> {
    set f | f in entries && IsConflict(f)
  }

  function ErrorLogs(entries: set<string>): set<string> {
    set f | f in entries && IsErrorLog(f)
  }

  /** The files an aborted installation removes again. */
  const KnownGeneratedFiles: seq<string> := ["package.json", "node_modules"]

  /** A directory on disk: whether it exists, and the names it holds. */
  class ProjectDirectory {
    var present: bool
    var entries: set<string>

    constructor (entries: set<string>)
      ensures present && this.entries == entries
    {
      present := true;
      this.entries := entries;
    }

    /** `isSafeToCreateProjectIn`: unsafe, and untouched, when some entry
        conflicts; otherwise every error log is deleted, one entry at a
        time, and everything else stays. */
    method IsSafeToCreateProjectIn() returns (safe: bool)
      modifies this
      ensures safe <==> Conflicts(old(entries)) == {}
      ensures !safe ==> entries == old(entries)
      ensures safe ==> entries == old(entries) - ErrorLogs(old(entries))
      ensures present == old(present)
    {
      if Conflicts(entries) != {} {
        return false;
      }
      ghost var before := entries;
      var listing := entries;
      while listing != {}
        invariant listing <= before
        invariant forall f :: f in entries <==> f in before && (f in listing || !IsErrorLog(f))
        invariant present == old(present)
        decreases |listing|
      {
        var file :| file in listing;
        if IsErrorLog(file) {
          entries := entries - {file};
        }
        listing := listing - {file};
      }
      assert entries == before - ErrorLogs(before);
      return true;
    }

    /** The cleanup when a step after installation throws: every current
        entry that is a known generated file is removed, and the directory
        itself is removed when nothing is left in it. */
    method RemoveGeneratedFiles()
      requires present
      modifies this
      ensures entries == set f | f in old(entries) && f !in KnownGeneratedFiles
      ensures present <==> entries != {}
      ensures !present <==> forall f :: f in old(entries) ==> f in KnownGeneratedFiles
    {
      ghost var before := entries;
      var currentFiles := entries;
      while currentFiles != {}
        invariant currentFiles <= before
        invariant forall f :: f in entries <==> f in before && (f in currentFiles || f !in KnownGeneratedFiles)
        invariant present
        decreases |currentFiles|
      {
        var file :| file in currentFiles;
        ghost var entering := entries;
        var j := 0;
        while j < |KnownGeneratedFiles|
          invariant 0 <= j <= |KnownGeneratedFiles|
          invariant forall f :: f in entries <==> f in entering && (f != file || file !in KnownGeneratedFiles[..j])
          invariant present
        {
          if file == KnownGeneratedFiles[j] {
            entries := entries - {file};
          }
          j := j + 1;
        }
        assert KnownGeneratedFiles[..j] == KnownGeneratedFiles;
        currentFiles := currentFiles - {file};
      }
      assert entries == set f | f in before && f !in KnownGeneratedFiles;
      if entries == {} {
        present := false;
      }
    }
  }

  /** The check passes exactly when every entry is benign. */
  lemma SafeIffBenign(entries: set<string>)
    ensures Conflicts(entries) == {} <==>
      forall f :: f in entries ==> f in ValidFiles || EndsWith(f, ".iml") || IsErrorLog(f)
  {
    if Conflicts(entries) == {} {
      forall f | f in entries ensures f in ValidFiles || EndsWith(f, ".iml") || IsErrorLog(f) {
        assert f !in Conflicts(entries);
      }
    }
  }

  /** A directory the template creator accepts, an empty one, is accepted
      here too. */
  lemma EmptyDirectoryIsSafe(entries: set<string>)
    requires H0Utils.IsSafeToCreateProjectIn(entries)
    ensures Conflicts(entries) == {} && ErrorLogs(entries) == {}
  {
  }

  /** After a passing check, checking again passes and deletes nothing. */
  lemma SafeCheckIdempotent(entries: set<string>)
    requires Conflicts(entries) == {}
    ensures var after := entries - ErrorLogs(entries);
      Conflicts(after) == {} && ErrorLogs(after) == {}
  {
    var after := entries - ErrorLogs(entries);
    forall f | f in after ensures !IsConflict(f) && !IsErrorLog(f) {
      assert f !in Conflicts(entries);
    }
  }

  /** Error logs never count as conflicts, whatever else the directory holds. */
  lemma ErrorLogsNeverConflict(entries: set<string>, logs: set<string>)
    requires forall f :: f in logs ==> IsErrorLog(f)
    ensures Conflicts(entries + logs) == Conflicts(entries)
  {
  }

  // ---------------------------------------------------------------------
  // Package manifest

  datatype ManifestError =
    | NoDependencies               // the manifest has no dependencies object
    | MissingPackage(name: string) // the scripts package is not among the dependencies
    | MissingDependency(name: string)

  /** The version written for a runtime dependency: a caret range when
      that is a valid range, otherwise the version unchanged.
      `validRange` stands for `semver.validRange`. */
  function Caret(version: string, validRange: string -> bool): (v: string)
    ensures v == "^" + version || v == version
    ensures EndsWith(v, version)
  {
    var patched := "^" + version;
    assert patched[|patched| - |version|..] == version;
    if validRange(patched) then patched else version
  }

  /** The dependencies after both runtime dependencies are widened. */
  function RuntimeCaret(d: map<string, string>, validRange: string -> bool): map<string, string>
    requires "react" in d && "react-dom" in d
  {
    d["react" := Caret(d["react"], validRange)]["react-dom" := Caret(d["react-dom"], validRange)]
  }

  /** Widening touches only the two runtime dependencies and keeps every
      version it touches, with or without a caret in front. */
  lemma RuntimeCaretTouchesOnlyReact(d: map<string, string>, validRange: string -> bool)
    requires "react" in d && "react-dom" in d
    ensures RuntimeCaret(d, validRange).Keys == d.Keys
    ensures forall k :: k in d && k != "react" && k != "react-dom" ==> RuntimeCaret(d, validRange)[k] == d[k]
    ensures var v := RuntimeCaret(d, validRange)["react"]; v == d["react"] || v == "^" + d["react"]
    ensures var v := RuntimeCaret(d, validRange)["react-dom"]; v == d["react-dom"] || v == "^" + d["react-dom"]
  {
    assert |"react"| != |"react-dom"|;
    var _ := Caret(d["react"], validRange);
    var _ := Caret(d["react-dom"], validRange);
  }

  /** One widening step changes the version exactly when `^version` is a
      valid range. */
  lemma CaretKeepsVersion(version: string, validRange: string -> bool)
    ensures validRange("^" + version) <==> Caret(version, validRange) != version
  {
    if validRange("^" + version) {
      assert |Caret(version, validRange)| == |version| + 1;
    }
  }

  /** The app's `package.json`: its dependencies as held in memory, and as
      last written to disk. A missing dependencies object is None. */
  class PackageManifest {
    var dependencies: Option<map<string, string>>
    var saved: Option<map<string, string>>

    constructor (dependencies: Option<map<string, string>>)
      ensures this.dependencies == dependencies && saved == dependencies
    {
      this.dependencies := dependencies;
      saved := dependencies;
    }

    /** `makeCaretRange`: a missing dependency is a fatal error; otherwise
        its version becomes `Caret` of the old one and no other entry
        changes. */
    method MakeCaretRange(name: string, validRange: string -> bool) returns (r: Result<(), ManifestError>)
      requires dependencies.Some?
      modifies this
      ensures name !in old(dependencies).value ==>
        r == Failure(MissingDependency(name)) && dependencies == old(dependencies)
      ensures name in old(dependencies).value ==>
        r.Success? &&
        dependencies == Some(old(dependencies).value[name := Caret(old(dependencies).value[name], validRange)])
      ensures saved == old(saved)
    {
      var d := dependencies.value;
      if name !in d {
        return Failure(MissingDependency(name));
      }
      var version := d[name];
      var patchedVersion := "^" + version;
      if !validRange(patchedVersion) {
        patchedVersion := version;
      }
      dependencies := Some(d[name := patchedVersion]);
      return Success(());
    }

    /** `setCaretRangeForRuntimeDeps`: the manifest must have dependencies
        and list the scripts package; then both runtime dependencies are
        widened and the manifest is written. Any failure exits before the
        write, so what is on disk is unchanged. */
    method SetCaretRangeForRuntimeDeps(packageName: string, validRange: string -> bool)
      returns (r: Result<(), ManifestError>)
      modifies this
      ensures r.Success? <==>
        old(dependencies).Some? && packageName in old(dependencies).value &&
        "react" in old(dependencies).value && "react-dom" in old(dependencies).value
      ensures r.Success? ==>
        dependencies == saved == Some(RuntimeCaret(old(dependencies).value, validRange))
      ensures r.Failure? ==> saved == old(saved)
      ensures old(dependencies).None? ==> r == Failure(NoDependencies) && dependencies.None?
      ensures old(dependencies).Some? && packageName !in old(dependencies).value ==>
        r == Failure(MissingPackage(packageName)) && dependencies == old(dependencies)
    {
      if dependencies.None? {
        return Failure(NoDependencies);
      }
      if packageName !in dependencies.value {
        return Failure(MissingPackage(packageName));
      }
      r := MakeCaretRange("react", validRange);
      if r.Failure? {
        return;
      }
      r := MakeCaretRange("react-dom", validRange);
      if r.Failure? {
        return;
      }
      saved := dependencies;
    }
  }
}
