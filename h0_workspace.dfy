/** The file-system side of the H0 template generator: rewriting the
    placeholders in a copied template, copying the template into the new
    page directory, overwriting the injected files, and the checks that run
    before any of that. */
module H0Workspace {
  import opened Wrappers
  import opened Text
  import opened BabelTree
  import opened H0Utils
  import opened RouteInjection
  import opened H0Template

  /** A directory's files, by path relative to the directory. */
  type Tree = map<string, string>

  const ListFile: string := "list/listPage.tsx"
  const DsFile: string := "list/listPageDs.ts"

  datatype RunError =
    | MissingTemplate            // no template directory: an error is logged, nothing is written
    | MissingFile(path: string)  // reading a template file throws
    | Unsafe                     // the page directory is not empty: exit code 1
    | NpmCannotReadCwd           // npm reports another working directory: exit code 1
    | NoPageDirectory            // the template is in neither family: ensuring the empty path throws
    | Template(cause: TemplateError)

  /** `dst` after `fs.copySync(src, dst)`. */
  function CopyInto(dirs: map<string, Tree>, src: string, dst: string): map<string, Tree>
    requires src in dirs
  {
    var existing := if dst in dirs then dirs[dst] else map[];
    dirs[dst := existing + dirs[src]]
  }

  /** Copying creates `dst` if it is missing and writes every file of `src`
      over it; the other files of `dst` and every other directory stay. */
  lemma CopyIntoContents(dirs: map<string, Tree>, src: string, dst: string)
    requires src in dirs
    ensures var r := CopyInto(dirs, src, dst);
      && r.Keys == dirs.Keys + {dst}
      && (forall d :: d in dirs && d != dst ==> r[d] == dirs[d])
      && r[dst].Keys == dirs[src].Keys + (if dst in dirs then dirs[dst].Keys else {})
      && (forall f :: f in dirs[src] ==> r[dst][f] == dirs[src][f])
      && (dst in dirs ==> forall f :: f in dirs[dst] && f !in dirs[src] ==> r[dst][f] == dirs[dst][f])
  {
  }

  /** Copying into an empty or missing directory gives a copy of the source. */
  lemma CopyIntoEmpty(dirs: map<string, Tree>, src: string, dst: string)
    requires src in dirs && src != dst && (dst !in dirs || dirs[dst] == map[])
    ensures CopyInto(dirs, src, dst)[dst] == dirs[src]
  {
    assert map[] + dirs[src] == dirs[src];
  }

  /** Writing the files in order: each path holds what was written last. */
  function WriteAll(files: map<string, string>, writes: seq<InjectFile>): (r: map<string, string>)
    ensures files.Keys <= r.Keys
    ensures forall i :: 0 <= i < |writes| ==> writes[i].path in r
  {
    if writes == [] then files
    else
      var w := writes[|writes| - 1];
      var init := WriteAll(files, writes[..|writes| - 1]);
      assert forall i :: 0 <= i < |writes| - 1 ==> writes[..|writes| - 1][i] == writes[i];
      init[w.path := w.code]
  }

  /** Writing adds exactly the written paths. */
  lemma {:induction false} WriteAllKeys(files: map<string, string>, writes: seq<InjectFile>)
    ensures WriteAll(files, writes).Keys == files.Keys + set i | 0 <= i < |writes| :: writes[i].path
    decreases |writes|
  {
    if writes != [] {
      var n := |writes| - 1;
      WriteAllKeys(files, writes[..n]);
      PathsStep(writes, writes[..n]);
    }
  }

  /** The paths of a list of writes: those before the last, and the last. */
  lemma PathsStep(writes: seq<InjectFile>, init: seq<InjectFile>)
    requires writes != [] && init == writes[..|writes| - 1]
    ensures (set i | 0 <= i < |writes| :: writes[i].path)
      == (set i | 0 <= i < |init| :: init[i].path) + {writes[|writes| - 1].path}
  {
    var n := |writes| - 1;
    var before := set i | 0 <= i < |init| :: init[i].path;
    var after := set i | 0 <= i < |writes| :: writes[i].path;
    forall p | p in after ensures p in before + {writes[n].path} {
      var i :| 0 <= i < |writes| && writes[i].path == p;
      if i < n {
        assert init[i] == writes[i];
      }
    }
    forall p | p in before ensures p in after {
      var i :| 0 <= i < |init| && init[i].path == p;
      assert init[i] == writes[i];
    }
  }

  /** Where a path was written, it holds the code of the last write to it;
      elsewhere the old content remains. */
  lemma {:induction false} WriteAllLastWins(files: map<string, string>, writes: seq<InjectFile>, k: nat)
    requires k < |writes|
    requires forall j :: k < j < |writes| ==> writes[j].path != writes[k].path
    ensures WriteAll(files, writes)[writes[k].path] == writes[k].code
    decreases |writes|
  {
    var n := |writes| - 1;
    if k < n {
      var init := writes[..n];
      forall j | k < j < |init| ensures init[j].path != init[k].path {
        assert init[j] == writes[j];
      }
      WriteAllLastWins(files, init, k);
      assert init[k] == writes[k];
    }
  }

  lemma {:induction false} WriteAllElsewhere(files: map<string, string>, writes: seq<InjectFile>, p: string)
    requires p in files
    requires forall j :: 0 <= j < |writes| ==> writes[j].path != p
    ensures WriteAll(files, writes)[p] == files[p]
    decreases |writes|
  {
    if writes != [] {
      var init := writes[..|writes| - 1];
      forall j | 0 <= j < |init| ensures init[j].path != p {
        assert init[j] == writes[j];
      }
      WriteAllElsewhere(files, init, p);
    }
  }

  class Workspace {
    /** The directories the tool copies, by absolute path. */
    var dirs: map<string, Tree>
    /** The files the tool overwrites by absolute path. */
    var files: map<string, string>

    constructor(dirs: map<string, Tree>, files: map<string, string>)
      ensures this.dirs == dirs && this.files == files
    {
      this.dirs := dirs;
      this.files := files;
    }

    /** `injectH0TemplateFile`: for the list page, read both template files
        of `dir` (a missing one throws before anything is written), then
        write back the list page and the data-set file with their
        placeholders substituted. Other templates are left alone. */
    method InjectH0TemplateFile(dir: string, template: TemplateName, appName: string, subModule: string)
      returns (r: Result<(), RunError>)
      modifies this
      ensures files == old(files)
      ensures dirs.Keys == old(dirs).Keys
      ensures template != ListPage ==> r.Success? && dirs == old(dirs)
      ensures template == ListPage && dir !in old(dirs) ==> r == Failure(MissingFile(ListFile)) && dirs == old(dirs)
      ensures template == ListPage && dir in old(dirs) ==>
        var t := old(dirs)[dir];
        (ListFile !in t ==> r == Failure(MissingFile(ListFile)) && dirs == old(dirs)) &&
        (ListFile in t && DsFile !in t ==> r == Failure(MissingFile(DsFile)) && dirs == old(dirs)) &&
        (ListFile in t && DsFile in t ==>
           r.Success? &&
           dirs == old(dirs)[dir := t[ListFile := RewriteListFile(t[ListFile], appName, subModule)]
                                    [DsFile := RewriteDsFile(t[DsFile], appName, subModule)]])
    {
      if template != ListPage {
        return Success(());
      }
      if dir !in dirs || ListFile !in dirs[dir] {
        return Failure(MissingFile(ListFile));
      }
      var listFile := dirs[dir][ListFile];
      if DsFile !in dirs[dir] {
        return Failure(MissingFile(DsFile));
      }
      var dsFile := dirs[dir][DsFile];
      var newListFile := RewriteListFile(listFile, appName, subModule);
      var newDsFile := RewriteDsFile(dsFile, appName, subModule);
      dirs := dirs[dir := dirs[dir][ListFile := newListFile]];
      dirs := dirs[dir := dirs[dir][DsFile := newDsFile]];
      r := Success(());
    }

    /** `injectTemplateFile`: only H0 templates have files to rewrite. */
    method InjectTemplateFile(dir: string, template: TemplateName, appName: string, subModule: string,
                              h0Templates: set<TemplateName>)
      returns (r: Result<(), RunError>)
      modifies this
      ensures files == old(files)
      ensures dirs.Keys == old(dirs).Keys
      ensures !NeedsListFiles(template, h0Templates) ==> r.Success? && dirs == old(dirs)
      ensures r.Failure? ==> dirs == old(dirs) && r.error.MissingFile?
      ensures forall d :: d in old(dirs) && d != dir ==> dirs[d] == old(dirs)[d]
      ensures r.Failure? <==>
        NeedsListFiles(template, h0Templates) &&
        !(dir in old(dirs) && ListFile in old(dirs)[dir] && DsFile in old(dirs)[dir])
      ensures r.Success? && NeedsListFiles(template, h0Templates) ==>
        dir in old(dirs) && ListFile in old(dirs)[dir] && DsFile in old(dirs)[dir] &&
        dirs == old(dirs)[dir := Instantiate(old(dirs)[dir], template, appName, subModule, h0Templates)]
    {
      if template in h0Templates {
        r := InjectH0TemplateFile(dir, template, appName, subModule);
      } else {
        r := Success(());
      }
    }

    /** Overwrite the injected files one after the other. */
    method WriteFiles(writes: seq<InjectFile>)
      modifies this
      ensures dirs == old(dirs)
      ensures files == WriteAll(old(files), writes)
    {
      var i := 0;
      while i < |writes|
        invariant 0 <= i <= |writes|
        invariant dirs == old(dirs)
        invariant files == WriteAll(old(files), writes[..i])
      {
        assert writes[..i + 1][..i] == writes[..i];
        files := files[writes[i].path := writes[i].code];
        i := i + 1;
      }
      assert writes[..|writes|] == writes;
    }

    /** The first half of `run`: make sure the scratch directory exists,
        copy the template into it and substitute its placeholders there.
        Only the scratch directory changes. */
    method StageTemplate(appName: string, template: TemplateName, subModule: string,
                         templateDir: string, tempDir: string, h0Templates: set<TemplateName>)
      returns (r: Result<(), RunError>)
      requires templateDir in dirs
      modifies this
      ensures files == old(files)
      ensures tempDir in dirs
      ensures r.Failure? ==> r.error.MissingFile?
      ensures forall d :: d in old(dirs) && d != tempDir ==> d in dirs && dirs[d] == old(dirs)[d]
      ensures (tempDir !in old(dirs) || old(dirs)[tempDir] == map[]) && tempDir != templateDir ==>
        var t := old(dirs)[templateDir];
        (r.Failure? <==> NeedsListFiles(template, h0Templates) && !(ListFile in t && DsFile in t)) &&
        (r.Success? ==> dirs[tempDir] == Instantiate(t, template, appName, subModule, h0Templates))
    {
      if tempDir !in dirs {
        dirs := dirs[tempDir := map[]];
      }
      ghost var scratch := dirs;
      dirs := CopyInto(dirs, templateDir, tempDir);
      if tempDir != templateDir && scratch[tempDir] == map[] {
        CopyIntoEmpty(scratch, templateDir, tempDir);
      }
      ghost var copied := dirs;
      r := InjectTemplateFile(tempDir, template, appName, subModule, h0Templates);
      forall d | d in old(dirs) && d != tempDir ensures d in dirs && dirs[d] == old(dirs)[d] {
        assert dirs[d] == copied[d] == scratch[d];
      }
    }

    /** `run`: without the template directory nothing changes. Otherwise the
        template is copied into the scratch directory, its placeholders are
        substituted there, the scratch directory is copied into the page
        directory and emptied, and the injected files are written. */
    method Run(appName: string, template: TemplateName, appPath: string, injectArgs: seq<InjectFile>,
               subModule: string, templateDir: string, tempDir: string, h0Templates: set<TemplateName>)
      returns (r: Result<(), RunError>)
      modifies this
      ensures templateDir !in old(dirs) ==>
        r == Failure(MissingTemplate) && dirs == old(dirs) && files == old(files)
      ensures r.Failure? ==> files == old(files) && (r.error == MissingTemplate || r.error.MissingFile?)
      ensures r.Success? ==> templateDir in old(dirs)
      ensures r.Success? ==> files == WriteAll(old(files), injectArgs)
      ensures r.Success? ==> tempDir in dirs && dirs[tempDir] == map[] && appPath in dirs
      ensures templateDir in old(dirs) && CleanScratch(old(dirs), templateDir, tempDir, appPath) ==>
        var t := old(dirs)[templateDir];
        (r.Failure? <==> NeedsListFiles(template, h0Templates) && !(ListFile in t && DsFile in t)) &&
        (r.Success? ==>
          forall f :: f in t ==>
            f in dirs[appPath] && dirs[appPath][f] == Instantiate(t, template, appName, subModule, h0Templates)[f])
      ensures forall d :: d in old(dirs) && d != tempDir && d != appPath ==> d in dirs && dirs[d] == old(dirs)[d]
    {
      if templateDir !in dirs {
        return Failure(MissingTemplate);
      }
      r := StageTemplate(appName, template, subModule, templateDir, tempDir, h0Templates);
      if r.Failure? {
        return;
      }
      ghost var staged := dirs;
      ghost var instantiated := dirs[tempDir];
      dirs := CopyInto(dirs, tempDir, appPath);
      assert forall f :: f in instantiated ==> dirs[appPath][f] == instantiated[f];
      dirs := dirs[tempDir := map[]];
      forall d | d in old(dirs) && d != tempDir && d != appPath ensures d in dirs && dirs[d] == old(dirs)[d] {
        assert d in staged && staged[d] == old(dirs)[d];
      }
      WriteFiles(injectArgs);
    }

    /** The first steps of `injectTemplate`: the page directory and the
        files to inject, from the template's family. A template in neither
        family leaves the page directory the empty path, which cannot be
        created. */
    method PrepareInjection(appName: string, template: TemplateName, cliVersion: Option<string>, env: Environment,
                            h0Templates: set<TemplateName>, pdaTemplates: set<TemplateName>,
                            resolve: (string, string) -> string, generate: Node -> string)
      returns (r: Result<Injection, RunError>)
      ensures r == Prepared(appName, template, cliVersion, env, h0Templates, pdaTemplates, resolve, generate)
    {
      if template in h0Templates {
        var injection := InjectH0Template(env.root, appName, cliVersion, env.present, env.routeAst, resolve, generate);
        if injection.Failure? {
          return Failure(Template(injection.error));
        }
        r := Success(injection.value);
      } else if template in pdaTemplates {
        var injection := InjectPDATemplate(env.root, appName, env.present, resolve);
        if injection.Failure? {
          return Failure(Template(injection.error));
        }
        r := Success(injection.value);
      } else {
        r := Failure(NoPageDirectory);
      }
    }

    /** `injectTemplate`, after the Node.js version warning: prepare the
        injection for the template's family, make sure the page directory
        exists, refuse a non-empty page directory and a working directory
        npm cannot read, then run. */
    method InjectTemplate(appName: string, template: TemplateName, cliVersion: Option<string>,
                          subModule: string, env: Environment,
                          h0Templates: set<TemplateName>, pdaTemplates: set<TemplateName>,
                          resolve: (string, string) -> string, generate: Node -> string)
      returns (r: Result<(), RunError>)
      modifies this
      ensures var p := Prepared(appName, template, cliVersion, env, h0Templates, pdaTemplates, resolve, generate);
        p.Failure? ==> r == Failure(p.error) && dirs == old(dirs) && files == old(files)
      ensures r.Failure? ==> files == old(files)
      ensures r.Success? ==> NpmCanReadCwd(env.npmOutput, env.cwd)
      ensures var p := Prepared(appName, template, cliVersion, env, h0Templates, pdaTemplates, resolve, generate);
        r == Failure(Unsafe) ==> p.Success? && dirs.Keys == old(dirs).Keys + {p.value.appPath}
      ensures var p := Prepared(appName, template, cliVersion, env, h0Templates, pdaTemplates, resolve, generate);
        r.Success? ==>
          p.Success? &&
          (p.value.appPath !in old(dirs) || IsSafeToCreateProjectIn(old(dirs)[p.value.appPath].Keys)) &&
          files == WriteAll(old(files), p.value.files) &&
          env.tempDir in dirs && dirs[env.tempDir] == map[] && p.value.appPath in dirs
      ensures var p := Prepared(appName, template, cliVersion, env, h0Templates, pdaTemplates, resolve, generate);
        r.Success? && p.Success? && env.templateDir in old(dirs) && env.templateDir != p.value.appPath &&
        CleanScratch(old(dirs), env.templateDir, env.tempDir, p.value.appPath) ==>
          var t := old(dirs)[env.templateDir];
          (NeedsListFiles(template, h0Templates) ==> ListFile in t && DsFile in t) &&
          forall f :: f in t ==>
            f in dirs[p.value.appPath] &&
            dirs[p.value.appPath][f] == Instantiate(t, template, appName, subModule, h0Templates)[f]
      ensures var p := Prepared(appName, template, cliVersion, env, h0Templates, pdaTemplates, resolve, generate);
        p.Success? ==>
          forall d :: d in old(dirs) && d != env.tempDir && d != p.value.appPath ==> d in dirs && dirs[d] == old(dirs)[d]
    {
      var prepared := PrepareInjection(appName, template, cliVersion, env, h0Templates, pdaTemplates, resolve, generate);
      if prepared.Failure? {
        return Failure(prepared.error);
      }
      var appPath := prepared.value.appPath;
      var code := prepared.value.files;
      ghost var before := dirs;
      if appPath !in dirs {
        dirs := dirs[appPath := map[]];
      }
      if !IsSafeToCreateProjectIn(dirs[appPath].Keys) {
        return Failure(Unsafe);
      }
      if !NpmCanReadCwd(env.npmOutput, env.cwd) {
        return Failure(NpmCannotReadCwd);
      }
      if env.templateDir in before && env.templateDir != appPath {
        assert dirs[env.templateDir] == before[env.templateDir];
        assert CleanScratch(before, env.templateDir, env.tempDir, appPath) ==>
               CleanScratch(dirs, env.templateDir, env.tempDir, appPath);
      }
      r := Run(appName, template, appPath, code, subModule, env.templateDir, env.tempDir, h0Templates);
    }
  }

  /** The list page is the one template whose files are rewritten. */
  predicate NeedsListFiles(template: TemplateName, h0Templates: set<TemplateName>) {
    template in h0Templates && template == ListPage
  }

  /** The template's files as they land in the page directory. */
  function Instantiate(t: Tree, template: TemplateName, appName: string, subModule: string,
                       h0Templates: set<TemplateName>): (r: Tree)
    requires NeedsListFiles(template, h0Templates) ==> ListFile in t && DsFile in t
    ensures r.Keys == t.Keys
    ensures !NeedsListFiles(template, h0Templates) ==> r == t
    ensures forall f :: f in t && f != ListFile && f != DsFile ==> r[f] == t[f]
  {
    if NeedsListFiles(template, h0Templates) then
      t[ListFile := RewriteListFile(t[ListFile], appName, subModule)][DsFile := RewriteDsFile(t[DsFile], appName, subModule)]
    else t
  }

  /** The scratch directory starts empty and is distinct from the template
      and page directories. */
  predicate CleanScratch(dirs: map<string, Tree>, templateDir: string, tempDir: string, appPath: string) {
    (tempDir !in dirs || dirs[tempDir] == map[]) &&
    tempDir != templateDir && tempDir != appPath
  }

  /** What the tool finds around it: the working directory's absolute path,
      the paths that exist relative to it, the parsed route file, npm's
      output (None when npm cannot be spawned), and where its own template
      and scratch directories are. */
  datatype Environment = Environment(
    root: string, present: set<string>, routeAst: Node,
    npmOutput: Option<string>, cwd: string,
    templateDir: string, tempDir: string)

  /** What `injectTemplate` prepares before touching the file system: the
      page directory and the files to write for the template's family, or
      why it stops. H0 templates need `src/pages` and inject the route entry
      when the route file exists; PDA templates need `src/modules` and
      inject nothing; any other template has no page directory. */
  function Prepared(appName: string, template: TemplateName, cliVersion: Option<string>, env: Environment,
                    h0Templates: set<TemplateName>, pdaTemplates: set<TemplateName>,
                    resolve: (string, string) -> string, generate: Node -> string): (r: Result<Injection, RunError>)
    ensures r == Failure(NoPageDirectory) <==> template !in h0Templates && template !in pdaTemplates
    ensures r.Failure? && r.error != NoPageDirectory ==> r.error.Template?
    ensures r.Success? && template in h0Templates ==>
      "src/pages" in env.present && r.value.appPath == resolve(env.root, "src/pages/" + appName) && |r.value.files| <= 1
    ensures r.Success? && template !in h0Templates ==>
      template in pdaTemplates && "src/modules" in env.present &&
      r.value == Injection(resolve(env.root, "src/modules/" + appName), [])
  {
    var family: Option<Result<Injection, TemplateError>> :=
      if template in h0Templates then Some(H0Injection(env.root, appName, cliVersion, env.present, env.routeAst, resolve, generate))
      else if template in pdaTemplates then Some(InjectPDATemplate(env.root, appName, env.present, resolve))
      else None;
    match family
    case None => Failure(NoPageDirectory)
    case Some(Failure(e)) => Failure(Template(e))
    case Some(Success(injection)) => Success(injection)
  }
}
