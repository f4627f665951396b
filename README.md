# create-h0-template, modelled in Dafny

This project models the deterministic core of two scaffolding tools.

**`create-h0-template`** adds a page to an existing H0 front-end project. It:

- copies a page template into `src/pages/<app>` or `src/modules/<app>`;
- substitutes the translation-key placeholders of the list-page template;
- registers the new page in the project's route file. The route file is parsed, and a route object literal is appended to the routes array of every matching call or declaration. The tree is then printed back with single quotes.

**`create-app`** is a clone of `create-react-app`. The model covers its string logic:

- the app-name check;
- which scripts and template packages to install;
- reading a package name and version out of an install specifier;
- the package-manager argument list and the dependency list.

It also covers the parts that change state in place:

- the target-directory safety check, which deletes leftover error logs;
- the cleanup when a step after installation throws;
- widening `react`/`react-dom` to caret ranges in the manifest.

Modules, in dependency order:

- `Wrappers`: `Option` and `Result`.
- `Text`: the JavaScript string operations the tools use. These are `startsWith`, `endsWith`, `includes`, `split`, `join` and `replaceAll` with a literal pattern, plus first-character case mapping. `replaceAll` expands the `$$`, `$&`, `` $` `` and `$'` patterns of its replacement. Case mapping covers ASCII letters only. The lemmas about them are used throughout.
- `BabelTree`: the Babel syntax tree as one `Node` datatype. It has a uniform view of a node's children and the relation "same skeleton down to depth d".
- `RouteInjection`: the two route visitors of `injectH0Route`, run as one pre-order traversal. An inverse walk (`Strip`) serves as its partner.
- `H0Utils`: `getNodeVersion`, the empty-directory check, the npm working-directory check and `injectObj`.
- `H0Template`: route file and key selection, the route entry, the quote rewrite, `injectH0Route`, `injectH0Template`, `injectPDATemplate`, `getNameByTemplate` and the placeholder substitution.
- `H0Workspace`: `injectH0TemplateFile`, `injectTemplateFile`, `run` and `injectTemplate` over a `Workspace` class. The class holds the tool's directories and the project files it overwrites.
- `CreateApp`: the pure parts of `creat-app.ts`.
- `CreateAppState`: `ProjectDirectory` (safety check and cleanup) and `PackageManifest` (`makeCaretRange`, `setCaretRangeForRuntimeDeps`). Both are classes updated in place.

Library calls the model cannot see are function parameters:

- `semver.valid`, `semver.validRange` and the `semver.gte` comparison against the template minimum;
- `validate-npm-package-name`;
- `path.resolve`;
- Babel's code generator;
- reading an archive's or a local directory's `package.json`.

File-system facts are inputs: the set of existing paths, directory listings, npm's output, and the parsed route file.

### Behaviour worth knowing

- **Package-manager failure does not trigger cleanup.** In `create-app`, `run` awaits `install(...)` before its `try` block (`packages/create-app/creat-app.ts:354-361`). A failing package manager therefore rejects out of `run` without reaching the cleanup in the `catch` (`:386`).
- **Only thrown errors reach the cleanup.** The cleanup (`CreateAppState.ProjectDirectory.RemoveGeneratedFiles`) runs when a step after installation throws or rejects. Examples are `require` failing on a missing or malformed `package.json` (`packages/create-app/creat-app.ts:744`) and a failing init script (`:365-375`). The failures that the Node.js check and `setCaretRangeForRuntimeDeps` detect themselves call `process.exit(1)` (`:716`, `:725`, `:748`, `:754`), so they never reach the `catch`.
- **`$` in a name is expanded.** The placeholder substitution passes the sub-module and page names to `replaceAll` as replacement strings (`packages/create-h0-template/create-h0-template.ts:249-251`). A `$&` in them puts the placeholder back, and `$$` becomes a single `$` (`H0Template.MatchPatternKeepsPlaceholder`).
- **A template in neither family fails.** `injectTemplate` leaves the page directory as the empty path for such a template, and `fs.ensureDirSync('')` throws (`packages/create-h0-template/create-h0-template.ts:116-125`). Nothing is written.
- **The H0 safety check has no allow-list.** `create-h0-template` refuses any non-empty page directory (`packages/create-h0-template/utils/utils.ts:21-32`). Only `create-app` has the allow-list of benign files.
- **A missing template directory is not a fatal exit.** `run` logs an error and returns; it does not exit with status 1 (`packages/create-h0-template/create-h0-template.ts:286-291`).

## Model

| member | source | states |
|---|---|---|
| Text.SubstitutePlain | packages/create-h0-template/create-h0-template.ts:249-251 | a replacement without `$` is inserted as written at each match |
| Text.ReplaceAllIsSplitJoin | packages/create-h0-template/create-h0-template.ts:249-251 | with a replacement free of `$`, `replaceAll` equals splitting at the pattern and joining with the replacement |
| Text.ReplaceAllWithItself | packages/create-h0-template/create-h0-template.ts:249-251 | replacing a pattern free of `$` by itself leaves the text unchanged |
| Text.ReplaceAllWithMatch | packages/create-h0-template/create-h0-template.ts:249-251 | a replacement of `$&` puts every match back: the text is unchanged |
| Text.SplitJoinRoundTrip | packages/create-h0-template/utils/utils.ts:45 | joining the pieces of `split(p)` with `p` gives the text back |
| Text.SplitHeadIsPrefix | packages/create-h0-template/utils/utils.ts:17 | the first piece of a split is a prefix of the text |
| Text.SplitPiecesAvoidPattern | packages/create-h0-template/utils/utils.ts:45 | no piece of a split contains the separator |
| Text.SplitFirstPiece | packages/create-h0-template/utils/utils.ts:17 | the first piece of a one-character split is the text before the first separator |
| Text.SplitAtFirst | packages/create-app/creat-app.ts:605-606 | splitting at the first separator gives the text before it, then the split of the rest |
| Text.SplitAtPresentChar | packages/create-app/creat-app.ts:605-606 | text holding the separator splits into at least two pieces, so `split('@')[1]` exists |
| Text.SplitWithoutSeparator | packages/create-app/creat-app.ts:605-606 | text without the separator splits into itself alone |
| Text.ReplaceAllChar | packages/create-h0-template/create-h0-template.ts:179 | a one-character `replaceAll` is a character-wise map of the same length, even when the replacement is `$` |
| Text.ReplaceAllAbsent | packages/create-h0-template/create-h0-template.ts:249-251 | text without the pattern is not rewritten, whatever the replacement |
| Text.JoinAvoidsPattern | packages/create-h0-template/create-h0-template.ts:249-251 | joining pattern-free pieces with a separator that cannot overlap the pattern creates no occurrence |
| Text.ReplaceAllRemovesPattern | packages/create-h0-template/create-h0-template.ts:249-251 | after `replaceAll` the pattern is gone, if the replacement has no `$` and cannot overlap it |
| Text.LowerFirstAfterUpperFirst | packages/create-h0-template/create-h0-template.ts:248 | lower-casing the first character undoes an earlier upper-casing of it |
| BabelTree.WithChildrenTwice | packages/create-h0-template/create-h0-template.ts:226 | replacing a node's children twice keeps only the second replacement |
| BabelTree.EchoTransitive | packages/create-h0-template/create-h0-template.ts:226 | skeleton equality to a depth is transitive |
| BabelTree.EchoWithChildren | packages/create-h0-template/create-h0-template.ts:226 | replacing children by skeleton-equal children keeps the node's skeleton one level deeper |
| RouteInjection.FindFirst | packages/create-h0-template/create-h0-template.ts:204 | `find` yields the first index satisfying the predicate; no earlier item satisfies it; None when no item does |
| RouteInjection.AtSite | packages/create-h0-template/create-h0-template.ts:208 | rewriting the array at a site keeps the node's kind; a node that is not a site is returned unchanged |
| RouteInjection.FirstError | packages/create-h0-template/create-h0-template.ts:226 | the traversal reports an error exactly when some child's walk failed |
| RouteInjection.VisitFailsIffThrows | packages/create-h0-template/create-h0-template.ts:196-226 | the traversal (`Visit`) fails exactly when some node, in pre-order, makes the visitor throw (`Throws`) |
| RouteInjection.AtSiteEcho | packages/create-h0-template/create-h0-template.ts:208 | changing a site's array keeps the node's skeleton above the array |
| RouteInjection.MatchesEcho | packages/create-h0-template/create-h0-template.ts:204 | skeleton-equal properties or declarators are targets, and hold arrays, alike |
| RouteInjection.SiteKept | packages/create-h0-template/create-h0-template.ts:202-208 | skeleton-equal nodes have the same target and raise the same error, so growing arrays below cannot move a site |
| RouteInjection.VisitEcho | packages/create-h0-template/create-h0-template.ts:196-226 | a successful injection keeps the tree's skeleton above the arrays it grows |
| RouteInjection.DropAfterAppend | packages/create-h0-template/create-h0-template.ts:208 | dropping the last element of a site's array undoes appending to it |
| RouteInjection.StripUndoesVisit | packages/create-h0-template/create-h0-template.ts:196-226 | round trip: removing the last element at every site of the injected tree gives back the parsed tree, so only site arrays change and each gains one element at the end |
| RouteInjection.VisitEndsWithEntry | packages/create-h0-template/create-h0-template.ts:208 | after injection, every site's array ends with the entry |
| RouteInjection.DeclarationLayoutNeverThrows | packages/create-h0-template/create-h0-template.ts:211-224 | the declaration visitor never raises: a target without an array initialiser is skipped |
| RouteInjection.VisitWithoutSites | packages/create-h0-template/create-h0-template.ts:205-207 | a tree with no site comes back unchanged |
| H0Utils.Decimal | packages/create-h0-template/utils/utils.ts:18 | a number's decimal notation is a non-empty run of digits |
| H0Utils.DecimalValue | packages/create-h0-template/utils/utils.ts:18 | reading a number's decimal notation back gives the number |
| H0Utils.JsNumber | packages/create-h0-template/utils/utils.ts:18 | on the major component of a Node.js version, `Number(s)` is a number exactly for a run of digits, and 0 for the empty string |
| H0Utils.GetNodeVersion | packages/create-h0-template/utils/utils.ts:15-19 | the version string is returned unchanged; the major is a number iff the text before the first `.` is all digits |
| H0Utils.NodeMajorOfRelease | packages/create-h0-template/utils/utils.ts:15-19 | the version `<major>.<rest>` yields major number `major` |
| H0Utils.IsSafeToCreateProjectIn | packages/create-h0-template/utils/utils.ts:21-32 | safe exactly when the directory holds no entry |
| H0Utils.FirstLineWith | packages/create-h0-template/utils/utils.ts:47 | the first line starting with the prefix; no earlier line does; None when no line does |
| H0Utils.NpmCanReadCwd | packages/create-h0-template/utils/utils.ts:34-81 | passes when npm cannot be run; otherwise fails exactly when the first `; cwd = ` line names another directory |
| H0Utils.SplitJoinedLines | packages/create-h0-template/utils/utils.ts:45 | lines without newlines, joined with newlines, split back into the same lines |
| H0Utils.NpmCheckOnLines | packages/create-h0-template/utils/utils.ts:45-54 | for output made of lines: passes exactly when no line reports a cwd or the first one equals `; cwd = ` + cwd |
| H0Utils.ItemNode | packages/create-h0-template/utils/utils.ts:97-102 | an array item becomes an object literal with one property per field |
| H0Utils.ItemNodes | packages/create-h0-template/utils/utils.ts:96-103 | an array field becomes as many object literals as it has items, item by item |
| H0Utils.Reverse | packages/create-h0-template/utils/utils.ts:104 | repeated `unshift` reverses order: element i is the input's element from the end |
| H0Utils.FieldStep | packages/create-h0-template/utils/utils.ts:89-104 | one more field extends the scalar properties at the end and the array properties at the front |
| H0Utils.ItemObject | packages/create-h0-template/utils/utils.ts:97-101 | the inner loop builds exactly `ItemNode` of the item |
| H0Utils.ItemsArray | packages/create-h0-template/utils/utils.ts:96-103 | the `map` builds exactly `ItemNodes` of the items |
| H0Utils.InjectObj | packages/create-h0-template/utils/utils.ts:85-108 | the loop yields the array fields' properties last-first, then the scalar fields' properties in field order |
| H0Utils.ScalarPropertiesContents | packages/create-h0-template/utils/utils.ts:89-94 | the scalar properties are exactly those of the string, number and boolean fields |
| H0Utils.ArrayPropertiesContents | packages/create-h0-template/utils/utils.ts:95-104 | the array properties are exactly those of the array fields |
| H0Utils.ReverseContents | packages/create-h0-template/utils/utils.ts:104 | reversing keeps the same elements |
| H0Utils.InjectedContents | packages/create-h0-template/utils/utils.ts:85-108 | the object holds a property exactly for each supported field; unsupported fields give none |
| H0Utils.InjectedCount | packages/create-h0-template/utils/utils.ts:83-107 | the property count equals the number of string, number, boolean and array fields |
| H0Utils.ItemNodeInert | packages/create-h0-template/utils/utils.ts:97-102 | an item's object literal holds no call and no declaration |
| H0Utils.FieldPropertyInert | packages/create-h0-template/utils/utils.ts:89-104 | no field's property holds a call or a declaration |
| H0Utils.InjectedInert | packages/create-h0-template/utils/utils.ts:85-108 | the synthesised object holds no call and no declaration, so no route visitor fires inside it |
| H0Template.GetNameByTemplate | packages/create-h0-template/create-h0-template.ts:86-91 | for the list page the first character is upper-cased and the rest kept; other templates keep the name |
| H0Template.SelectRoute | packages/create-h0-template/create-h0-template.ts:148-151 | `hzeroJs` selects `config/config.ts`, key `routes` and the call layout; any other flavour selects `src/config/routers.ts`, key `config` and the declaration layout |
| H0Template.DefaultIsCallLayout | packages/create-h0-template/create-h0-template.ts:148 | without a CLI flavour the `hzeroJs` route file and key are used |
| H0Template.RouteEntry | packages/create-h0-template/create-h0-template.ts:165-174 | the route entry holds no call and no declaration |
| H0Template.RouteEntryShape | packages/create-h0-template/create-h0-template.ts:165-174 | the entry is the child-route array, with one route of path `/aps/<app>/list` and component `@/pages/<app>/list/listPage`, then path `/aps/<app>` |
| H0Template.QuoteRewrite | packages/create-h0-template/create-h0-template.ts:179 | same length; every `"` becomes `'`; every other character is kept; no `"` remains |
| H0Template.InjectH0Route | packages/create-h0-template/create-h0-template.ts:186-228 | fails exactly where a visitor throws; never fails in the declaration layout; on success every site ends with the entry and stripping it gives back the parsed file |
| H0Template.H0Injection | packages/create-h0-template/create-h0-template.ts:145-184 | fails iff `src/pages` is missing (WrongStructure) or the route file exists and the visitor throws (its error); on success the page directory is `src/pages/<app>` and the one file to write, if any, is the route file, written exactly when it exists |
| H0Template.InjectH0Template | packages/create-h0-template/create-h0-template.ts:145-184 | the step-by-step injection yields exactly `H0Injection` |
| H0Template.InjectPDATemplate | packages/create-h0-template/create-h0-template.ts:230-240 | succeeds iff `src/modules` exists, with the module path and no file to write |
| H0Template.ContainsFirstChar | packages/create-h0-template/create-h0-template.ts:249-251 | text containing a placeholder contains its first character |
| H0Template.FeatureContainsModule | packages/create-h0-template/create-h0-template.ts:249-251 | text containing the feature placeholder contains the module placeholder |
| H0Template.LowerFirstKeeps | packages/create-h0-template/create-h0-template.ts:248 | lower-casing the first letter introduces no non-letter character |
| H0Template.ListFileFreeOfPlaceholders | packages/create-h0-template/create-h0-template.ts:249-250 | with a sub-module name that has no `$` and cannot overlap the placeholders, the rewritten list page holds neither placeholder |
| H0Template.DsFileFreeOfFeatureKeys | packages/create-h0-template/create-h0-template.ts:251 | under the same conditions, with a page name free of `$` and of the placeholders' first character, the data-set file holds no feature placeholder |
| H0Template.MatchPatternKeepsPlaceholder | packages/create-h0-template/create-h0-template.ts:249-250 | a sub-module named `$&` leaves the module placeholder in the list page |
| H0Template.RewriteWithoutPlaceholders | packages/create-h0-template/create-h0-template.ts:249-251 | a file without placeholders is not rewritten |
| H0Template.ListPageNamespace | packages/create-h0-template/create-h0-template.ts:248 | the translation namespace does not depend on the list page's upper-cased component name |
| H0Workspace.CopyIntoContents | packages/create-h0-template/create-h0-template.ts:278 | `copySync` creates the target if needed and overwrites it with every source file; other directories and other target files stay |
| H0Workspace.WriteAll | packages/create-h0-template/create-h0-template.ts:283-285 | existing paths and written paths are all present afterwards |
| H0Workspace.WriteAllKeys | packages/create-h0-template/create-h0-template.ts:283-285 | writing adds exactly the written paths |
| H0Workspace.WriteAllLastWins | packages/create-h0-template/create-h0-template.ts:283-285 | a written path holds the code of its last write |
| H0Workspace.WriteAllElsewhere | packages/create-h0-template/create-h0-template.ts:283-285 | a path not written keeps its content |
| H0Workspace.Instantiate | packages/create-h0-template/create-h0-template.ts:242-255 | the template keeps its file set; only the list page and data-set files of the list-page template change |
| H0Workspace.Workspace.InjectH0TemplateFile | packages/create-h0-template/create-h0-template.ts:242-255 | for the list page, both files are read first (a missing one fails with nothing changed), then both are rewritten; other templates change nothing |
| H0Workspace.Workspace.InjectTemplateFile | packages/create-h0-template/create-h0-template.ts:257-261 | fails iff the list page lacks a template file; on success the directory is the instantiated template |
| H0Workspace.Workspace.WriteFiles | packages/create-h0-template/create-h0-template.ts:283-285 | the files become `WriteAll` of the writes; directories are untouched |
| H0Workspace.Workspace.Run | packages/create-h0-template/create-h0-template.ts:263-293 | a missing template changes nothing; on success the page directory holds the instantiated template, the scratch directory is empty and the injected files are written; every other directory is unchanged |
| H0Workspace.Workspace.StageTemplate | packages/create-h0-template/create-h0-template.ts:277-279 | only the scratch directory changes; from a clean scratch directory it fails iff the list page lacks a template file, and otherwise holds the instantiated template |
| H0Workspace.Prepared | packages/create-h0-template/create-h0-template.ts:116-125 | a template in neither family fails; H0 templates use `src/pages/<app>`, PDA templates `src/modules/<app>` with nothing to inject; other failures come from the family's injector |
| H0Workspace.Workspace.PrepareInjection | packages/create-h0-template/create-h0-template.ts:116-123 | the dispatch on the template's family yields exactly `Prepared` |
| H0Workspace.Workspace.InjectTemplate | packages/create-h0-template/create-h0-template.ts:113-143 | a failed preparation changes nothing; success needs an empty or new page directory and an npm that reads the working directory, and then the injected files are `WriteAll` of the prepared files, the scratch directory is empty and the page directory holds the instantiated template; a failure writes no project file; every directory other than the scratch and page directories is unchanged |
| CreateApp.CheckAppName | packages/create-app/creat-app.ts:144-177 | succeeds iff the name is valid for new packages and not `react`, `react-dom` or `react-scripts`, with the matching error otherwise |
| CreateApp.InstallPackage | packages/create-app/creat-app.ts:481-498 | valid semver gives `react-scripts@v`; `@tag` without `/` gives `react-scripts@tag`; `file:` is resolved; empty gives `react-scripts`; anything else is verbatim |
| CreateApp.GetInstallPackage | packages/create-app/creat-app.ts:481-527 | fails only when a `react-scripts-ts` package is declined; otherwise the package chosen |
| CreateApp.ScriptsPackageNeverPrompts | packages/create-app/creat-app.ts:499-524 | the default scripts package and its versions never prompt |
| CreateApp.MatchTemplateSpecSound | packages/create-app/creat-app.ts:543-546 | a match of the template regex decomposes the spec into scope, name and version |
| CreateApp.MatchTemplateSpecComplete | packages/create-app/creat-app.ts:543-546 | a spec that has a decomposition is matched, preferring the scoped one |
| CreateApp.GetTemplateInstallPackage | packages/create-app/creat-app.ts:529-562 | no template gives `cra-template`; `file:` is resolved; URLs and archives are verbatim |
| CreateApp.OfficialTemplateKept | packages/create-app/creat-app.ts:548-552 | `cra-template` and `cra-template-*` names keep scope, name and version |
| CreateApp.ShortTemplateExpanded | packages/create-app/creat-app.ts:555-557 | any other name, or a scope with no name, gets `cra-template-` put in front of it, keeping scope and version |
| CreateApp.UnmatchedTemplateExpanded | packages/create-app/creat-app.ts:543-557 | a name the pattern does not match gives the package `cra-template-` |
| CreateApp.BareScopeTemplate | packages/create-app/creat-app.ts:553-554 | a bare scope `@x` gives `@x/cra-template` |
| CreateApp.LongestGitEnd | packages/create-app/creat-app.ts:600 | for a fixed start, the longest name group that the regex can match, and none longer |
| CreateApp.FirstGitMatch | packages/create-app/creat-app.ts:600 | the git regex's match: leftmost start, longest name, `.git` then optional `#...` to the end |
| CreateApp.GitNameOfRepository | packages/create-app/creat-app.ts:598-601 | `<base>/<name>.git#<ref>` yields `name` |
| CreateApp.VersionSuffixHasAt | packages/create-app/creat-app.ts:602-606 | a specifier matching `/.+@/` has a second `@`-piece, both whole and without its first character |
| CreateApp.GetPackageInfoAsWritten | packages/create-app/creat-app.ts:564-617 | the specifier branches as written, version `split('@')[1]`; a `file:` path that does not match throws |
| CreateApp.ScopedVersionMisread | packages/create-app/creat-app.ts:602-607 | as written, `@scope/pkg@v` reports the scope path as its version |
| CreateApp.ScopedVersionExample | packages/create-app/creat-app.ts:602-607 | `@scope/pkg@1.0.0` gives name `@scope/pkg` and version `scope/pkg` |
| CreateApp.GetPackageInfo | packages/create-app/creat-app.ts:564-617 | the specifier branches with the version read after the name's `@` |
| CreateApp.PackageInfoRoundTrip | packages/create-app/creat-app.ts:602-607 | `name@version`, scoped or not, gives back `name` and `version` |
| CreateApp.PackageInfoUnscopedUnchanged | packages/create-app/creat-app.ts:602-607 | for unscoped specifiers the corrected version agrees with the code as written |
| CreateApp.InstallArguments | packages/create-app/creat-app.ts:427-466 | the pushes build exactly the command and arguments `InstallCommand` describes |
| CreateApp.InstallArgumentsLayout | packages/create-app/creat-app.ts:431-465 | yarn: `add --exact [--offline] <deps> --cwd <root>`; npm: `install --no-audit --save --save-exact --loglevel error <deps>`; `--verbose` last when asked |
| CreateApp.NpmIgnoresOffline | packages/create-app/creat-app.ts:452-461 | npm's arguments do not depend on being online |
| CreateApp.RunDependencies | packages/create-app/creat-app.ts:319-336 | `react`, `react-dom`, the scripts package, then the template only when templates are supported |
| CreateAppState.ProjectDirectory.IsSafeToCreateProjectIn | packages/create-app/creat-app.ts:179-244 | unsafe iff some entry conflicts, and then nothing is deleted; when safe, exactly the error logs are deleted |
| CreateAppState.ProjectDirectory.RemoveGeneratedFiles | packages/create-app/creat-app.ts:398-420 | exactly `package.json` and `node_modules` are removed; the directory is removed iff nothing else was in it |
| CreateAppState.SafeIffBenign | packages/create-app/creat-app.ts:206-213 | no conflict iff every entry is allowed, an `.iml` file or an error log |
| CreateAppState.EmptyDirectoryIsSafe | packages/create-app/creat-app.ts:206-213 | a directory the H0 check accepts is safe and has no logs to delete |
| CreateAppState.SafeCheckIdempotent | packages/create-app/creat-app.ts:237-243 | after a passing check the directory passes again and has nothing left to delete |
| CreateAppState.ErrorLogsNeverConflict | packages/create-app/creat-app.ts:203-213 | adding error logs never adds a conflict |
| CreateAppState.Caret | packages/create-app/creat-app.ts:728-739 | the new version is `^version` or `version`, and always ends with the old version |
| CreateAppState.CaretKeepsVersion | packages/create-app/creat-app.ts:728-739 | the version changes iff `^version` is a valid range |
| CreateAppState.RuntimeCaretTouchesOnlyReact | packages/create-app/creat-app.ts:757-758 | widening keeps the keys, changes no dependency but `react` and `react-dom`, and each of those keeps its version, with or without a caret |
| CreateAppState.PackageManifest.MakeCaretRange | packages/create-app/creat-app.ts:720-740 | a missing dependency fails with nothing changed; otherwise only its entry becomes `Caret` of its version |
| CreateAppState.PackageManifest.SetCaretRangeForRuntimeDeps | packages/create-app/creat-app.ts:742-761 | succeeds iff the manifest has dependencies listing the scripts package, `react` and `react-dom`; then both are widened and saved; a failure saves nothing |

## Left out

- Parsing the route file and printing it back (Babel `parse` and `generate`). The parsed tree is an input and the generator a function parameter. Only the tree and the appends are modelled.
- Mutation of Babel's tree in place. The traversal is modelled on tree values, so aliasing between nodes is not captured. Babel visits a pushed entry after the site's children, while the model appends without visiting it. The two agree because the entry is proved to hold no call or declaration.
- `semver`, `validate-npm-package-name`, `path.resolve`, `path.join` and `basename`. These are function parameters, not models.
- The interactive `react-scripts-ts` prompt. The user's answer is a parameter.
- Reading package manifests inside archives and local directories (`packages/create-app/creat-app.ts:565-597`, `:608-615`). Downloading, extracting and the archive-name fallback regex are together one function parameter.
- Process plumbing: command-line parsing, coloured console output and log messages, and `process.exit`. Exits are error results.
- `checkIfOnline`, `getProxy`, `checkNpmVersion`, `checkNodeVersion`, `executeNodeScript`, `createApp` and `init`. Whether the machine is online is a parameter.
- Spawning the package manager in `install` and its exit status. Only the command and argument list are modelled.
- The Node.js version warning in `injectTemplate` (`packages/create-h0-template/create-h0-template.ts:101-112`). It only prints.
- The order of directory listings. Listings are sets, and that order only affects log output.
- The log lines listing conflicting files.
- `injectObj` with non-string item values: array items are modelled with string fields only. Numbers are integers; floating-point values are not modelled.
- `for...in` order. An object's fields are a sequence in their enumeration order.
- H0Workspace.Workspace: directories copied wholesale and files written by path are separate maps. A written file that lies inside a copied directory is not related to it.
- Empty subdirectories: a directory is its set of files. This holds for the template and for the page directory, so a page directory holding only empty subdirectories counts as empty here, while `readdirSync` (packages/create-h0-template/utils/utils.ts:21) lists them and the source refuses it.
- Serialisation of `package.json` by `JSON.stringify`. The saved manifest is its dependency map.
- H0Template.ListFileFreeOfPlaceholders: proved only for sub-module names that cannot overlap the placeholders and hold no `$`. With an empty sub-module name the rewrite can re-create a placeholder, and with `$&` it puts one back (`H0Template.MatchPatternKeepsPlaceholder`).
- H0Template.DsFileFreeOfFeatureKeys: proved only for sub-module and page names without `$`, for the same reason.
- Text.ReplaceAllIsSplitJoin: holds only for replacements without `$`. A `$` pattern in the replacement is expanded at each match, which split and join do not do.
- Text.ReplaceAllWithItself: holds only for patterns without `$`. For example, `$$` replaced by itself becomes `$`.
- Text.ReplaceAllRemovesPattern: proved only for replacements without `$`, since `$&` or `` $` `` can re-insert the pattern.
- Text.Substitute: `replaceAll` with a string pattern has no capture groups, so `$1`–`$99` and `$<` are kept literally. Replacer functions are not modelled, because the code passes only strings.
- Text.LowerFirstAfterUpperFirst: proved for ASCII case mapping only. JavaScript's `toUpperCase` and `toLowerCase` follow Unicode, where, for example, `ß` upper-cases to `SS`.
- H0Template.GetNameByTemplate: its length guarantee relies on ASCII case mapping. In JavaScript `ß` upper-cases to two characters.
- H0Template.LowerFirstKeeps: proved for ASCII case mapping only. In JavaScript `İ` lower-cases to two characters, one of which is not a letter.
- H0Template.ListPageNamespace: proved for ASCII case mapping only. In JavaScript the list page `ßa` gets the namespace `<sub-module>.sSa`, because its upper-cased name `SSa` is lower-cased again.
- H0Utils.JsNumber: covers `Number` only on the major component of a Node.js version, which is a run of digits. `Number` also accepts surrounding white space, signs, hexadecimal, exponents and fractions, which the model reads as NaN.

## Findings

| source | as written | input that shows it | evidently intended | confidence | as-written member | corrected member |
|---|---|---|---|---|---|---|
| packages/create-app/creat-app.ts:602-607 | the version of a specifier with an `@` after the first character is `split('@')[1]` | `@scope/pkg@1.0.0` gives name `@scope/pkg` and version `scope/pkg` | the version is the text after the name's own `@`, here `1.0.0` | not executed | CreateApp.ScopedVersionMisread | CreateApp.PackageInfoRoundTrip |
