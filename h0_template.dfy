/** The H0 template generator: picking the route file and key, building the
    route entry for a new page, injecting it into the parsed route file,
    rewriting quotes in the generated code, and substituting the module
    placeholders in the list-page template. */
module H0Template {
  import opened Wrappers
  import opened Text
  import opened BabelTree
  import opened RouteInjection
  import opened H0Utils

  datatype TemplateName = ListPage | FilterList | HeadLineList

  /** `getNameByTemplate`: a list page's component name starts upper-case. */
  function GetNameByTemplate(appName: string, template: TemplateName): (name: string)
    ensures |name| == |appName|
    ensures template != ListPage ==> name == appName
    ensures template == ListPage && appName != [] ==>
      name[0] == ToUpper(appName[0]) && name[1..] == appName[1..]
  {
    if template == ListPage then UpperFirst(appName) else appName
  }

  // ---------------------------------------------------------------------
  // Route file, key and layout

  /** The CLI flavour used when none is given. */
  const DefaultCli: string := "hzeroJs"

  /** Where the routes live, under which key, and which visitor finds them. */
  datatype RouteTarget = RouteTarget(file: string, key: string, layout: Layout)

  /** The route file and key for a CLI flavour: `hzeroJs`, also the default,
      keeps its routes in a `defineConfig` call in `config/config.ts`; every
      other flavour declares a `config` array in `src/config/routers.ts`. */
  function SelectRoute(cliVersion: Option<string>): (t: RouteTarget)
    ensures t.layout == CallLayout <==> cliVersion.GetOr(DefaultCli) == "hzeroJs"
    ensures t.layout == CallLayout ==> t.file == "config/config.ts" && t.key == "routes"
    ensures t.layout == DeclarationLayout ==> t.file == "src/config/routers.ts" && t.key == "config"
  {
    if cliVersion.GetOr(DefaultCli) == "hzeroJs" then RouteTarget("config/config.ts", "routes", CallLayout)
    else RouteTarget("src/config/routers.ts", "config", DeclarationLayout)
  }

  lemma DefaultIsCallLayout()
    ensures SelectRoute(None) == SelectRoute(Some("hzeroJs"))
    ensures SelectRoute(None).layout == CallLayout
  {
  }

  // ---------------------------------------------------------------------
  // Route entry

  function RoutePath(appName: string): string {
    "/aps/" + appName
  }

  /** The route object handed to the synthesiser: the page's path and one
      child route for its list view. */
  function RouteDescriptor(appName: string): Fields {
    [("path", Str(RoutePath(appName))),
     ("routes", Items([[("path", RoutePath(appName) + "/list"),
                        ("component", "@/pages/" + appName + "/list/listPage")]]))]
  }

  /** The object literal the synthesiser builds from the route object. */
  function RouteEntry(appName: string): (entry: Node)
    ensures Inert(entry)
  {
    var obj := RouteDescriptor(appName);
    InjectedInert(obj);
    ObjectExpression(Reverse(ArrayProperties(obj)) + ScalarProperties(obj))
  }

  /** The entry lists the child routes first (array fields are unshifted),
      then the path; the single child route has the list path and the list
      page component. */
  lemma RouteEntryShape(appName: string)
    ensures RouteEntry(appName) == ObjectExpression([
      Property("routes", ArrayExpression([ObjectExpression([
        Property("path", StringLiteral("/aps/" + appName + "/list")),
        Property("component", StringLiteral("@/pages/" + appName + "/list/listPage"))])])),
      Property("path", StringLiteral("/aps/" + appName))])
  {
    var item := [("path", RoutePath(appName) + "/list"), ("component", "@/pages/" + appName + "/list/listPage")];
    RouteDescriptorProperties(appName, item);
    assert ItemNode(item).properties == [
      Property("path", StringLiteral(RoutePath(appName) + "/list")),
      Property("component", StringLiteral("@/pages/" + appName + "/list/listPage"))];
    assert RoutePath(appName) + "/list" == "/aps/" + appName + "/list";
  }

  /** The route object's path field is its one scalar property and its
      child routes its one array property. */
  lemma RouteDescriptorProperties(appName: string, item: seq<(string, string)>)
    requires item == [("path", RoutePath(appName) + "/list"), ("component", "@/pages/" + appName + "/list/listPage")]
    ensures ScalarProperties(RouteDescriptor(appName)) == [Property("path", StringLiteral(RoutePath(appName)))]
    ensures Reverse(ArrayProperties(RouteDescriptor(appName))) == [Property("routes", ArrayExpression([ItemNode(item)]))]
  {
    var obj := RouteDescriptor(appName);
    assert ItemNodes([item]) == [ItemNode(item)];
    CollectPair(obj, ScalarProperty);
    CollectPair(obj, ArrayProperty);
    assert ScalarProperty(obj[1]) == [] && ArrayProperty(obj[0]) == [];
  }

  // ---------------------------------------------------------------------
  // Quote rewrite

  /** `code.replaceAll('"', "'")`: every double quote becomes a single quote
      and every other character stays where it is. */
  function QuoteRewrite(code: string): (r: string)
    ensures |r| == |code|
    ensures forall i :: 0 <= i < |code| ==> r[i] == (if code[i] == '"' then '\'' else code[i])
    ensures '"' !in r
  {
    ReplaceAllChar(code, '"', '\'');
    ReplaceAll(code, "\"", "'")
  }

  // ---------------------------------------------------------------------
  // Injection

  datatype InjectFile = InjectFile(path: string, code: string)

  /** The page directory to create and the files to overwrite. */
  datatype Injection = Injection(appPath: string, files: seq<InjectFile>)

  datatype TemplateError =
    | WrongStructure             // the page directory is missing: exit code 1
    | RouteError(cause: InjectError)

  /** `injectH0Route`, on the parsed route file: synthesise the entry and run
      the visitor the CLI flavour selects. The entry holds no call and no
      declaration; the injection fails exactly where a visitor throws; the
      declaration layout never throws; every site's array ends with the
      entry, and dropping it again gives back the parsed file. */
  method InjectH0Route(ast: Node, cliVersion: string, routeObj: Fields) returns (r: Result<Node, InjectError>)
    ensures var t := SelectRoute(Some(cliVersion));
      var entry := ObjectExpression(Reverse(ArrayProperties(routeObj)) + ScalarProperties(routeObj));
      && Inert(entry)
      && r == Visit(t.layout, ast, t.key, entry)
      && (r.Failure? <==> Throws(t.layout, ast, t.key))
      && (t.layout == DeclarationLayout ==> r.Success?)
      && (r.Success? ==> EndsWithAtSites(t.layout, r.value, t.key, entry))
      && (r.Success? ==> Strip(t.layout, r.value, t.key) == ast)
  {
    var t := SelectRoute(Some(cliVersion));
    var entry := InjectObj(routeObj);
    InjectedInert(routeObj);
    r := Visit(t.layout, ast, t.key, entry);
    VisitFailsIffThrows(t.layout, ast, t.key, entry);
    if t.layout == DeclarationLayout {
      DeclarationLayoutNeverThrows(ast, t.key);
    }
    if r.Success? {
      VisitEndsWithEntry(t.layout, ast, t.key, entry);
      StripUndoesVisit(t.layout, ast, t.key, entry);
    }
  }

  /** What `injectH0Template` yields. `present` holds the paths, relative
      to the working directory, that exist; `routeAst` is the parsed route
      file; `resolve` stands for `path.resolve` and `generate` for Babel's
      code generator. A missing page directory is fatal; a missing route
      file leaves only the page directory to create; otherwise the route
      file is rewritten with the entry for the new page, double quotes
      turned single. */
  function H0Injection(root: string, appName: string, cliVersion: Option<string>,
                       present: set<string>, routeAst: Node,
                       resolve: (string, string) -> string, generate: Node -> string): (r: Result<Injection, TemplateError>)
    ensures var t := SelectRoute(cliVersion);
      r.Failure? <==>
        ("src/pages" !in present || (t.file in present && Visit(t.layout, routeAst, t.key, RouteEntry(appName)).Failure?))
    ensures "src/pages" !in present ==> r == Failure(WrongStructure)
    ensures r.Failure? && "src/pages" in present ==> r.error.RouteError?
    ensures r.Success? ==>
      r.value.appPath == resolve(root, "src/pages/" + appName) &&
      (r.value.files == [] <==> SelectRoute(cliVersion).file !in present) && |r.value.files| <= 1
    ensures r.Success? && r.value.files != [] ==>
      r.value.files[0].path == resolve(root, SelectRoute(cliVersion).file)
  {
    var t := SelectRoute(cliVersion);
    var appPath := resolve(root, "src/pages/" + appName);
    if "src/pages" !in present then Failure(WrongStructure)
    else if t.file !in present then Success(Injection(appPath, []))
    else
      var v := Visit(t.layout, routeAst, t.key, RouteEntry(appName));
      if v.Failure? then Failure(RouteError(v.error))
      else Success(Injection(appPath, [InjectFile(resolve(root, t.file), QuoteRewrite(generate(v.value)))]))
  }

  /** `injectH0Template`, step by step as the source does it. */
  method InjectH0Template(root: string, appName: string, cliVersion: Option<string>,
                          present: set<string>, routeAst: Node,
                          resolve: (string, string) -> string, generate: Node -> string)
    returns (r: Result<Injection, TemplateError>)
    ensures r == H0Injection(root, appName, cliVersion, present, routeAst, resolve, generate)
  {
    var pageDir := "src/pages";
    var t := SelectRoute(cliVersion);
    var appPath := resolve(root, pageDir + "/" + appName);
    assert pageDir + "/" + appName == "src/pages/" + appName;
    ghost var expected := H0Injection(root, appName, cliVersion, present, routeAst, resolve, generate);
    if pageDir !in present {
      return Failure(WrongStructure);
    }
    if t.file !in present {
      return Success(Injection(appPath, []));
    }
    var routeFile := resolve(root, t.file);
    var ast := InjectH0Route(routeAst, cliVersion.GetOr(DefaultCli), RouteDescriptor(appName));
    assert ast == Visit(t.layout, routeAst, t.key, RouteEntry(appName)) by {
      assert SelectRoute(Some(cliVersion.GetOr(DefaultCli))) == t;
    }
    if ast.Failure? {
      return Failure(RouteError(ast.error));
    }
    var code := generate(ast.value);
    r := Success(Injection(appPath, [InjectFile(routeFile, QuoteRewrite(code))]));
  }

  /** `injectPDATemplate`: only the module directory is checked; nothing is
      injected. */
  function InjectPDATemplate(root: string, appName: string, present: set<string>,
                             resolve: (string, string) -> string): (r: Result<Injection, TemplateError>)
    ensures r.Success? <==> "src/modules" in present
    ensures r.Failure? ==> r.error == WrongStructure
    ensures r.Success? ==> r.value.files == [] && r.value.appPath == resolve(root, "src/modules/" + appName)
  {
    if "src/modules" !in present then Failure(WrongStructure)
    else Success(Injection(resolve(root, "src/modules/" + appName), []))
  }

  // ---------------------------------------------------------------------
  // Placeholder substitution

  /** The translation-key placeholder for "sub-module name.feature name". */
  const FeaturePlaceholder: string := "子模块名称.功能名称"
  /** The placeholder for "sub-module name". */
  const ModulePlaceholder: string := "子模块名称"

  /** The translation namespace of a page: `<subModule>.<appName>` with the
      first letter of the page name lower-cased. */
  function Namespace(subModule: string, appName: string): string {
    subModule + "." + LowerFirst(appName)
  }

  /** The list page: feature keys become the page's namespace, and then the
      remaining module placeholders become the sub-module. */
  function RewriteListFile(listFile: string, appName: string, subModule: string): string {
    ReplaceAll(ReplaceAll(listFile, FeaturePlaceholder, Namespace(subModule, appName)), ModulePlaceholder, subModule)
  }

  /** The data-set file: only feature keys are rewritten. */
  function RewriteDsFile(dsFile: string, appName: string, subModule: string): string {
    ReplaceAll(dsFile, FeaturePlaceholder, Namespace(subModule, appName))
  }

  /** Text containing a pattern contains the pattern's first character. */
  lemma ContainsFirstChar(s: string, p: string)
    requires p != [] && Contains(s, p)
    ensures p[0] in s
  {
    var i :| 0 <= i <= |s| - |p| && OccursAt(s, p, i);
    assert OccursAt(s, p, i);
    assert s[i] == s[i..i + |p|][0];
  }

  /** Text containing the feature placeholder contains the module placeholder. */
  lemma FeatureContainsModule(s: string)
    requires Contains(s, FeaturePlaceholder)
    ensures Contains(s, ModulePlaceholder)
  {
    var i :| 0 <= i <= |s| - |FeaturePlaceholder| && OccursAt(s, FeaturePlaceholder, i);
    assert OccursAt(s, FeaturePlaceholder, i);
    assert s[i..i + |ModulePlaceholder|] == s[i..i + |FeaturePlaceholder|][..|ModulePlaceholder|];
    assert OccursAt(s, ModulePlaceholder, i);
  }

  lemma LowerFirstKeeps(s: string, c: char)
    requires c !in s && !('A' <= c <= 'Z') && !('a' <= c <= 'z')
    ensures c !in LowerFirst(s)
  {
    if s != [] {
      assert LowerFirst(s)[1..] == s[1..];
      forall i | 0 <= i < |LowerFirst(s)| ensures LowerFirst(s)[i] != c {
        if i > 0 {
          assert LowerFirst(s)[i] == s[i];
        }
      }
    }
  }

  /** With a sub-module name that does not start with a placeholder
      character, never contains the placeholders' first character and has
      no `$` for replaceAll to expand, the rewritten list page holds no
      placeholder at all. */
  lemma ListFileFreeOfPlaceholders(listFile: string, appName: string, subModule: string)
    requires subModule != [] && subModule[0] !in ModulePlaceholder && '子' !in subModule
    requires '$' !in subModule
    ensures !Contains(RewriteListFile(listFile, appName, subModule), ModulePlaceholder)
    ensures !Contains(RewriteListFile(listFile, appName, subModule), FeaturePlaceholder)
  {
    var mid := ReplaceAll(listFile, FeaturePlaceholder, Namespace(subModule, appName));
    ReplaceAllRemovesPattern(mid, ModulePlaceholder, subModule);
    if Contains(RewriteListFile(listFile, appName, subModule), FeaturePlaceholder) {
      FeatureContainsModule(RewriteListFile(listFile, appName, subModule));
    }
  }

  /** Under the same conditions, and with a page name free of the
      placeholders' first character and of `$`, the data-set file holds no
      feature key. */
  lemma DsFileFreeOfFeatureKeys(dsFile: string, appName: string, subModule: string)
    requires subModule != [] && subModule[0] !in FeaturePlaceholder && '子' !in subModule
    requires '子' !in appName
    requires '$' !in subModule && '$' !in appName
    ensures !Contains(RewriteDsFile(dsFile, appName, subModule), FeaturePlaceholder)
  {
    var ns := Namespace(subModule, appName);
    LowerFirstKeeps(appName, '子');
    LowerFirstKeeps(appName, '$');
    assert ns[0] == subModule[0];
    assert '子' !in ns && '$' !in ns by {
      forall i | 0 <= i < |ns| ensures ns[i] != '子' && ns[i] != '$' {
        if i < |subModule| {
          assert ns[i] == subModule[i];
        } else if i > |subModule| {
          assert ns[i] == LowerFirst(appName)[i - |subModule| - 1];
        }
      }
    }
    ReplaceAllRemovesPattern(dsFile, FeaturePlaceholder, ns);
  }

  /** A sub-module named `$&` makes replaceAll put each module placeholder
      back, so the rewritten list page still holds one. */
  lemma MatchPatternKeepsPlaceholder(appName: string)
    ensures Contains(RewriteListFile(ModulePlaceholder, appName, "$&"), ModulePlaceholder)
  {
    assert !Contains(ModulePlaceholder, FeaturePlaceholder);
    ReplaceAllAbsent(ModulePlaceholder, FeaturePlaceholder, Namespace("$&", appName));
    ReplaceAllWithMatch(ModulePlaceholder, ModulePlaceholder);
    assert OccursAt(ModulePlaceholder, ModulePlaceholder, 0);
  }

  /** Text without the module placeholder is not rewritten. */
  lemma RewriteWithoutPlaceholders(file: string, appName: string, subModule: string)
    requires !Contains(file, ModulePlaceholder)
    ensures RewriteListFile(file, appName, subModule) == file
    ensures RewriteDsFile(file, appName, subModule) == file
  {
    if Contains(file, FeaturePlaceholder) {
      FeatureContainsModule(file);
    }
    ReplaceAllAbsent(file, FeaturePlaceholder, Namespace(subModule, appName));
    ReplaceAllAbsent(file, ModulePlaceholder, subModule);
  }

  /** The list page's component name is upper-cased first, but its namespace
      uses the name lower-cased first, so it does not depend on that step. */
  lemma ListPageNamespace(appName: string, subModule: string)
    ensures Namespace(subModule, GetNameByTemplate(appName, ListPage)) == Namespace(subModule, appName)
  {
    LowerFirstAfterUpperFirst(appName);
  }
}
