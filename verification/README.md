# cjs2web in Dafny

cjs2web bundles CommonJS modules for the browser. It starts from an entry
file and reads every file that the entry requires, directly or indirectly.
Each `require("…")` call becomes a reference to a global object named after
the required module. Each module's code is wrapped in a factory function
whose result is assigned to that object. On request the modules are joined
into one script, optionally wrapped in a function expression.

The repository holds two generations of this logic, and both are modelled
here side by side:

- **The older pipeline, `src/transformer.js`** (module `Transformer`).
  - A module record is a `class ModuleRecord`, whose `code` and
    `dependencies` fields are rewritten in place by
    `ReplaceAndLogDependencies` and `WrapModuleCode`.
  - The discovery work list is the `Discover` method, a `while` loop.
  - The file system is a map from file names to contents. A name the map
    lacks is a failed read.
- **The newer split modules.**
  - `ModuleFactory` builds a module record as a value.
  - `FilesystemUtils` and `FileUtils` are the pure path helpers.
  - `ModuleSorter` sorts a copy of the module list in an array, with the
    comparator as written.
  - Three output assemblers: `OutputProcessor`, `GenerateOutput` and
    `PostProcessing`.

Supporting modules:

- `Common`: options, results, errors and output shapes.
- `JsText`: the exact behaviour of the regular expressions the code uses.
- `NodePath`: POSIX `path.extname`, `path.dirname` and `path.join`.

Where the code does something else than its own tests or its evident
purpose call for, the model follows the code:

- `unifyFileName` is not idempotent: a name that starts with two `./`
  loses only one per call. `FilesystemUtils.UnifyFileNameNotIdempotent`
  shows this.
- The tests of the newer generation expect every module after the modules
  it requires: `src/cjs2web.spec.js:479-483` and `src/cjs2web.spec.js:514-518`.
  `sortByDependency` compares dependency counts first, so a module with
  fewer dependencies can come before a module it requires; see Findings.
- The test at `src/cjs2web.spec.js:521-541` expects a circular dependency
  to fail. The older `transform` has no cycle detection: a cycle simply
  ends, because every name is processed at most once.
- That is every name, not every file. The older `transform` queues the
  entry under the name it is given (`src/transformer.js:11`), but a
  required file under its unified name (`src/transformer.js:18`). An entry
  given as `./a.js`, which `b.js` requires back as `a.js`, is read twice,
  and its module is emitted twice: `Transformer.DiscoveredTwice` shows
  this.
- `wrapModuleCode` puts the `exports` alias in front of the whole code,
  so a `"use strict"` pragma the code starts with is no longer its first
  statement.

## Model

| member | source | states |
|---|---|---|
| JsText.ReplaceChar | src/transformer.js:81-83 | a global one-character `replace` keeps the length and changes exactly the positions holding the replaced character |
| JsText.StripCurrentDirectory | src/filesystemUtils.js:66 | `/^\.?\//` removes one leading `./` or else one leading `/`, and nothing otherwise |
| JsText.SkipWhitespace | src/transformer.js:167 | `\s*` consumes the longest run of whitespace and stops at the first non-whitespace character |
| FileUtils.WithoutFileExtension | src/fileUtils.js:43-45 | the result is a prefix shorter by the extension's length; with no extension it is the input; for a name not ending in `/`, result plus extension is the input |
| FileUtils.OnlyLastExtensionRemoved | src/fileUtils.js:44 | what is cut off holds exactly one dot, at its start, so earlier dots are kept |
| FileUtils.DropJsExtension | src/fileUtils.js:43-45 | any name that does not end in `/`, followed by `.js`, loses exactly the `.js` (so `foo.bar.js` becomes `foo.bar`) |
| FilesystemUtils.WithoutFileExtension | src/filesystemUtils.js:43-45 | the result is a prefix shorter by the extension's length; with no extension it is the input; for a name not ending in `/`, result plus extension is the input |
| FilesystemUtils.DropJsExtension | src/filesystemUtils.js:43-45 | a name ending in `.js` (after a non-empty last segment) loses exactly `.js` |
| FilesystemUtils.UnifySlashes | src/filesystemUtils.js:62-64 | the length is kept, no backslash remains, and every other character is unchanged |
| FilesystemUtils.Unprefixed | src/filesystemUtils.js:55-57 | slashes unified and the leading `./` or `/` removed: no backslash remains and nothing is added |
| FilesystemUtils.UnifyPath | src/filesystemUtils.js:47-53 | the result ends in `/` and has no backslash; `/` is appended exactly when the unified name does not already end in one |
| FilesystemUtils.UnifyFileName | src/filesystemUtils.js:55-60 | no backslash remains; `.js` is appended exactly when the unified name has an empty extension, otherwise the name is kept |
| FilesystemUtils.ExtensionRoundTrip | src/filesystemUtils.js:55-60 | removing the extension after unifying gives the same name as removing it before, so the appended `.js` is undone |
| FilesystemUtils.UnprefixedWithoutBackslash | src/filesystemUtils.js:62-64 | a name without backslashes only loses its leading `./` or `/` |
| FilesystemUtils.UnifiedJsName | src/filesystemUtils.js:55-60 | a name that does not start with `/` or `.`, holds no `\` and does not end in `/`, followed by `.js`, is left as it is |
| FilesystemUtils.SpellingsOfOneFile | src/filesystemUtils.js:55-60 | for every plain name `a` (no `/`, `\` or `.`), `./a.js`, `a.js` and `a` all unify to `a.js` |
| FilesystemUtils.UnifyFileNameNotIdempotent | src/filesystemUtils.js:55-60 | for every plain name `a`, `././a` unifies to `./a.js`, which unifies again to `a.js`: the function is not idempotent |
| FilesystemUtils.BackslashesUnified | src/filesystemUtils.js:55-60 | a folder that does not start with `/` or `.` and a file name without separators, joined by `\`, unify to the same names joined by `/` (`path/to\a.js` to `path/to/a.js`) |
| ModuleFactory.WithoutBasePath | src/moduleFactory.js:17-19 | with a non-empty base path that starts the name, base path plus result is the name; otherwise the name is kept |
| ModuleFactory.GetModuleName | src/moduleFactory.js:15-22 | the result is a prefix of the name without base path, shorter by exactly that name's extension; when the base path starts the name, base path plus result starts the name |
| ModuleFactory.MapSafe | src/moduleFactory.js:25 | each character is mapped on its own, keeping the length |
| ModuleFactory.GetSafeObjectName | src/moduleFactory.js:24-26 | prefix followed by the module name mapped character by character (`/` to `_`, `.` and `-` to `$`); the mapped part holds no `/`, `.` or `-`, and the length is prefix plus name |
| ModuleFactory.CreateModule | src/moduleFactory.js:5-13 | the unified file name, the module name from it, the object name from that; code empty when absent or empty and else code plus a line break; `main` exactly when the raw name is the entry name |
| ModuleFactory.PrefixOnlyInObjectName | src/moduleFactory.js:5-13 | changing the prefix changes the object name only, and only in front of the mapped module name |
| ModuleFactory.SameObjectName | src/moduleFactory.js:24-26 | two module names share an object name exactly when they agree character by character after mapping |
| ModuleFactory.SafeNameMapsEachChar | src/moduleFactory.js:25 | the two `replace` passes equal one character-wise mapping |
| ModuleFactory.SameSafeCharCollides | src/moduleFactory.js:24-26 | two module names that differ in one character share their object name whenever the replacements map both characters to the same one |
| ModuleFactory.NestedNamesCollide | src/moduleFactory.js:24-26 | any two module names that differ only in one `/` against `_` share their object name (`path/to/a` and `path_to/a` both become `path_to_a`) |
| ModuleFactory.DotAndHyphenCollide | src/moduleFactory.js:24-26 | any two module names that differ only in one `.` against `-` share their object name (`foo.bar` and `foo-bar` both become `foo$bar`) |
| ModuleFactory.EntryModule | src/moduleFactory.js:5-13 | the entry file `s.js`, for every name `s` that unification leaves alone, is the main module `s` whose object name is `s` mapped character by character, with empty code (`foo.bar.js` gives `foo.bar` and `foo$bar`) |
| ModuleFactory.ModuleNameBelowBasePath | src/moduleFactory.js:15-22 | below any non-empty base path, the file `<base><name>.js` is the module `<name>` (`path/to/a.js` below `path/to/` is `a`) |
| ModuleSorter.AnyHasName | src/moduleSorter.js:19-21 | `dependsOn` holds exactly when some dependency record carries the other module's name |
| ModuleSorter.Compare | src/moduleSorter.js:3-15 | fewer dependencies sort first; with equal counts `first` goes after `second` exactly when it depends on it; never 0; `circular dependency` exactly when counts are equal and each depends on the other |
| ModuleSorter.CompareAntisymmetry | src/moduleSorter.js:3-15 | the comparator answers consistently in both argument orders, except that two equal-count independent modules each ask to go first |
| ModuleSorter.SortByDependency | src/moduleSorter.js:1-17 | the in-place insertion sort over a copy returns the result of the sort function: a permutation of the input, every neighbour pair in comparator order, or the cycle error |
| ModuleSorter.InsertElement | src/moduleSorter.js:3-15 | one pass moves `a[i]` left past the sorted elements the comparator puts after it, and fails where the comparator throws |
| ModuleSorter.SortIsOrderedPermutation | src/moduleSorter.js:1-17 | the sort gives a permutation whose neighbours are in comparator order; its only error is the cycle error |
| ModuleSorter.OrderedCountsAscend | src/moduleSorter.js:4-5 | along a sorted list dependency counts never decrease |
| ModuleSorter.SortSucceeds | src/moduleSorter.js:8-12 | if no pair of modules makes the comparator throw, the sort succeeds |
| ModuleSorter.MutualDependencyFails | src/moduleSorter.js:8-11 | two equal-count modules that require each other make the sort fail in either input order |
| ModuleSorter.ThreeModulesByCount | src/moduleSorter.js:3-15 | three modules with 0, 1 and 2 dependencies come out in that order, whatever the input order |
| ModuleSorter.DependentPlacedFirst | src/moduleSorter.js:4-5 | a module with fewer dependencies is placed before a module it depends on |
| ModuleSorter.DependentPlacedFirstWitness | src/moduleSorter.js:4-5 | such a pair exists: `c` requires `d`, and `d` requires `e` and `f` |
| ModuleSorter.SortTopologically | src/moduleSorter.js:1-17 | the corrected sort: a permutation in which no module depends on itself or on a later one; it fails exactly when the modules hold a non-empty group each of whose members depends on a member of the group |
| OutputProcessor.AssignmentEnd | src/outputProcessor.js:20 | the lazy `.*?\s*=\s*` ends past an `=` within the first line and its trailing whitespace; without an `=` there is no match |
| OutputProcessor.RemoveVariableAssignment | src/outputProcessor.js:19-21 | the result is a suffix of the code; code not starting with `var`, or holding no `=`, is unchanged |
| OutputProcessor.DeclarationRemoved | src/outputProcessor.js:19-21 | `var <name> = <value>` with a one-word name keeps only the value |
| OutputProcessor.Contribution | src/outputProcessor.js:14 | only the main module of a wrapped run loses anything; every other module contributes its code verbatim |
| OutputProcessor.Combine | src/outputProcessor.js:12-17 | the empty list gives `''`; otherwise the script ends in a line break and has at least one character per module |
| OutputProcessor.WrapInFunctionExpression | src/outputProcessor.js:23-25 | the script sits between `(function() {\n` and `\n}());` |
| OutputProcessor.UnwrapInverts | src/outputProcessor.js:23-25 | wrapping is undone by unwrapping, and only wrapped texts unwrap |
| OutputProcessor.Process | src/outputProcessor.js:1-10 | without `combine`, the list itself; with it, the combined script, which unwraps to the combination when `iife` is set |
| OutputProcessor.CombineAppend | src/outputProcessor.js:12-17 | combining a concatenation is concatenating the combinations |
| OutputProcessor.CombineOne | src/outputProcessor.js:12-17 | a single module contributes its code and a line break |
| OutputProcessor.CombineWithoutIife | src/outputProcessor.js:12-17 | without `iife` the script is the plain concatenation the other assemblers build |
| OutputProcessor.CombineWithoutMain | src/outputProcessor.js:14 | with `iife` but no main module, the script is the plain concatenation |
| OutputProcessor.MainBindingStripped | src/outputProcessor.js:12-21 | for `b` then main `a = var a = <value>`, the wrapped script holds `b`'s code, then `<value>` alone |
| GenerateOutput.Combine | src/generateOutput.js:12-14 | the empty list gives `''`; otherwise the script ends in a line break |
| GenerateOutput.CombinedLength | src/generateOutput.js:13 | the script is as long as all code plus one character per module |
| GenerateOutput.CombineAppend | src/generateOutput.js:12-14 | combining a concatenation is concatenating the combinations |
| GenerateOutput.CodeInPlace | src/generateOutput.js:12-14 | module `i`'s code sits right after the combination of the modules before it, followed by a line break |
| GenerateOutput.WrapScriptInFunctionExpression | src/generateOutput.js:16-18 | the script sits between `(function() {\n` and `}());` |
| GenerateOutput.WrapInjective | src/generateOutput.js:16-18 | different scripts stay different once wrapped |
| GenerateOutput.UnwrapInverts | src/generateOutput.js:16-18 | taking the wrapper off a wrapped script gives the script back, and only wrapped scripts unwrap |
| GenerateOutput.Generate | src/generateOutput.js:3-10 | without `combine`, the list itself, even with `iife`; with `combine`, the combination; with `iife` as well, a text that starts with `(function() {\n`, ends with `}());`, unwraps to the combination, and is as long as head plus all code plus one per module plus tail |
| PostProcessing.Combine | src/postProcessing.js:14-16 | the empty list gives `''`; otherwise the script ends in a line break |
| PostProcessing.CombinedLength | src/postProcessing.js:15 | the script is as long as all code plus one character per module |
| PostProcessing.CombineAppend | src/postProcessing.js:14-16 | combining a concatenation is concatenating the combinations |
| PostProcessing.WrapInIife | src/postProcessing.js:18-20 | the script sits between `(function() {\n` and `}());` |
| PostProcessing.WrappedInIife | src/postProcessing.js:18-20 | `wrapInIife` wraps as `wrapScriptInFunctionExpression` does, so the script can be read back |
| PostProcessing.ProcessOutput | src/postProcessing.js:3-12 | without `combine`, the list itself; with it, the combination; with `iife` as well, a text that starts with `(function() {\n`, ends with `}());` and unwraps to the combination |
| PostProcessing.SameAsGenerateOutput | src/postProcessing.js:3-20 | `processOutput` and `generateOutput` give the same output for the same options |
| PostProcessing.SameCombine | src/postProcessing.js:14-16 | the two `combine` functions agree on every list |
| Transformer.AddDefaultOptions | src/transformer.js:36-43 | each option given keeps its value; each missing one takes `''` or `false`; no options object means all defaults |
| Transformer.DefaultsKeepGivenOptions | src/transformer.js:36-43 | complete options come back unchanged, and no options equal empty options |
| Transformer.UnifySlashes | src/transformer.js:81-83 | the length is kept, no backslash remains, and every other character is unchanged |
| Transformer.PrepareBasePath | src/transformer.js:45-53 | an empty base path stays empty; any other one is unified, without backslash and ending in `/`, as `unifyPath` of the newer generation |
| Transformer.GetUnifiedFileName | src/transformer.js:74-79 | no backslash remains; `.js` is appended exactly when the unified name has no extension |
| Transformer.SameAsUnifyFileName | src/transformer.js:74-79 | both generations unify file names alike |
| Transformer.BackslashedEntry | src/transformer.js:74-92 | for every folder not starting with `/` or `.` and file name without separators, the entry `<dir>\<name>.js` is the file `<dir>/<name>.js` and the module `<dir>/<name>` (`path/to\a.js` gives `path/to/a`) |
| Transformer.ModuleBelowBasePath | src/transformer.js:85-92 | a base path not starting with `/` or `.` and not ending in `/` is prepared by appending `/`, and below it `<base>/<name>.js` is the module `<name>` (`path/to` and `path/to/a.js` give `a`) |
| Transformer.GetModuleName | src/transformer.js:85-92 | the name without a leading base path is cut by exactly its extension |
| Transformer.GetSafeObjectName | src/transformer.js:94-96 | prefix followed by the module name with `/` to `_` and `.` to `$`, same length; it holds a dot exactly when the prefix does |
| Transformer.CreateModuleEntry | src/transformer.js:65-72 | the unified file name, its module name and object name, and the code or `''` |
| Transformer.ResolvedDot | src/transformer.js:104-107 | whatever is required, the dependency's object name holds a dot exactly when the prefix does, so the error depends on the prefix alone |
| Transformer.RequireOpening | src/transformer.js:167 | a match of `require\s*\(\s*` ends at an opening quote |
| Transformer.ClosingQuote | src/transformer.js:167 | the lazy group ends at the first same quote followed by `\s*\)`, without crossing a line end |
| Transformer.CallAt | src/transformer.js:167 | a call found at `p` starts with `require` there and ends after its `)` |
| Transformer.NextCall | src/transformer.js:101 | the global scan finds the first call at or after `p`, and none before it |
| Transformer.RequiredFrom | src/transformer.js:101-112 | the list of required entries is empty exactly when no call is left from the position on |
| Transformer.RewriteFrom | src/transformer.js:101-112 | text with no call left is kept as it is |
| Transformer.RewriteWithoutRequire | src/transformer.js:101-112 | code without `require` calls is not changed |
| Transformer.RewriteFirstCall | src/transformer.js:101-112 | the text before the first call is kept, the call becomes the object name, and the rest is rewritten on its own |
| Transformer.FileNames | src/transformer.js:18 | the file names of the entries, position by position |
| Transformer.DependencyAlreadyAdded | src/transformer.js:115-117 | true exactly when some logged entry has the same file name |
| Transformer.LogStep | src/transformer.js:108-110 | one logging step keeps the earlier entries in order, logs the file, and adds nothing else |
| Transformer.LogAllExtends | src/transformer.js:108-110 | logging keeps the earlier entries as a prefix and never logs a file name twice |
| Transformer.LogAllKeeps | src/transformer.js:108-110 | a logged file stays logged |
| Transformer.LogAllComplete | src/transformer.js:108-110 | every required file ends up logged |
| Transformer.LogAllSound | src/transformer.js:108-110 | nothing but required entries is logged |
| Transformer.ExportsDefinitionInert | src/transformer.js:122 | the added `var exports = module.exports;` does not itself count as a use of `exports` |
| Transformer.EmptyCodeNoExports | src/transformer.js:122 | empty code gets no definition of `exports` |
| Transformer.WrappedCode | src/transformer.js:119-129 | the wrapped code starts with the wrapper head `var <object> = (function(module) {`, ends with the line breaks, `return module.exports;` and the call, and holds in between the code, behind `var exports = module.exports;` exactly when `exports.` or `exports[` occurs in the code in any letter case |
| Transformer.UnwrapWrappedCode | src/transformer.js:119-129 | the module's code can be read back from the wrapped code |
| Transformer.ReplaceRequires | src/transformer.js:98-113 | every call replaced by its object name and every file logged once in first-seen order; a dotted prefix fails at the first call, leaving the log as it was |
| Transformer.ModuleRecord.constructor | src/transformer.js:65-72 | the record holds the entry's fields and an empty dependency list |
| Transformer.ModuleRecord.ReplaceAndLogDependencies | src/transformer.js:98-113 | names kept; on success the code is rewritten and the dependencies logged against the module's folder; the error happens exactly when the prefix has a dot and the code a call, and then nothing changes |
| Transformer.ModuleRecord.WrapModuleCode | src/transformer.js:119-129 | the code becomes its wrapped form; names and dependencies are kept |
| Transformer.Transformation | src/transformer.js:55-63 | the record of a transformed file logs no file twice |
| Transformer.TransformSingleFile | src/transformer.js:55-63 | an unknown name is a failed read; a known file fails exactly when the prefix has a dot and the code a call; otherwise a new record equal to the transformation |
| Transformer.Unseen | src/transformer.js:19-21 | keeps exactly the names not yet seen, and repeats none when the input repeats none |
| Transformer.MatchesStep | src/transformer.js:16-17 | putting the new module in front keeps the reverse correspondence between modules and processed files |
| Transformer.ClosedStep | src/transformer.js:18-22 | after the new dependencies are queued, every dependency is processed or waiting |
| Transformer.GatherStep | src/transformer.js:13-22 | one turn of the work list keeps all that it has gathered |
| Transformer.FewerLeft | src/transformer.js:13-22 | each turn leaves fewer known files unprocessed, so the work list ends |
| Transformer.EntryLast | src/transformer.js:16 | the module of the first processed file, the entry, is the last of the list |
| Transformer.Discover | src/transformer.js:9-31 | the run succeeds exactly when every file of the finished work list (`WorkList`) is transformable (`Succeeds`). On success the files are processed in exactly that order: the entry first, then in queue order, turn by turn, the files each processed module requires that were neither processed nor waiting, so each name at most once; modules in reverse processing order; every dependency processed. On failure the run stopped at the first waiting file of a partial work list, which is not transformable, with the error `transformSingleFile` gives for it: a failed read of that very name, or the dotted prefix (`StoppedAt`). Every processed file is transformable |
| Transformer.WorkListStep | src/transformer.js:13-22 | one turn: the first waiting file is processed, and the files its module requires that are not yet queued join the end of the queue, in their order |
| Transformer.ProgressStep | src/transformer.js:13-22 | one turn keeps both what has been gathered and the turn record, and leaves fewer known files unprocessed |
| Transformer.WorkListUnique | src/transformer.js:9-31 | the work list is determined by the entry and the modules: two finished runs process the same files in the same order |
| Transformer.WorkListReached | src/transformer.js:18-22 | only the entry and files it requires, directly or through earlier processed files, are processed: each later file is a dependency of one processed before it |
| Transformer.WorkListAlone | src/transformer.js:9-31 | an entry whose module requires nothing is the only file processed |
| Transformer.WorkListChain | src/transformer.js:9-31 | when `a` requires only `b`, `b` only `c`, and `c` nothing, the files are processed as `a`, `b`, `c` |
| Transformer.DiscoveredAlone | src/transformer.spec.js:34-36 | a run whose entry requires nothing gives a single module, the entry's |
| Transformer.DiscoveredChain | src/transformer.js:9-31 | for the chain `a`, `b`, `c`, the modules are those of `c`, `b` and `a`, in that order |
| Transformer.DiscoveredShared | src/transformer.spec.js:341-373 | when `a` requires `b` and `c` and `b` requires `c` too, `c` is processed once and the modules are those of `c`, `b`, `a` |
| Transformer.WorkListSoFarWithin | src/transformer.js:9-31 | a work list under way is a beginning of the finished one: the files processed and waiting are the first files the finished run processes, in order |
| Transformer.Stuck | src/transformer.js:13-14 | a run held up at a file that is not transformable has no finished work list of transformable files, so the failure is not a spurious one |
| Transformer.WorkListRevisits | src/transformer.js:11-22 | when the entry `e` requires `b`, which requires `a`, and `a` requires `b` as the entry does, the files are processed as `e`, `b`, `a`: the new name `a` is processed although the entry is the same file |
| Transformer.SameFileSameModule | src/transformer.js:55-63 | two names with the same contents and the same unified name give the same module |
| Transformer.DotSlashSpelling | src/filesystemUtils.js:55-60 | for every plain name `a`, `./a.js` and `a.js` have the unified name `a.js` |
| Transformer.DiscoveredTwice | src/transformer.js:11-22 | an entry `e` with the same file under the name `a` (as `./a.js` and `a.js`), required back by `b`: the files are processed as `e`, `b`, `a`, and the first and last of the three modules are the same |
| Transformer.Codes | src/transformer.js:153 | the code of each module, position by position |
| Transformer.Combine | src/transformer.js:152-154 | the empty list gives `''`; otherwise the script ends in a line break |
| Transformer.CombineSnoc | src/transformer.js:153 | one more module appends its code and a line break |
| Transformer.CombineAppend | src/transformer.js:152-154 | combining a concatenation is concatenating the combinations |
| Transformer.SameAsGenerateOutput | src/transformer.js:152-154 | the older generation joins code exactly as `generateOutput` does |
| Transformer.WrapScript | src/transformer.js:156-158 | the script sits between `(function() {\n` and `}());` |
| Transformer.UnwrapScriptInverts | src/transformer.js:156-158 | wrapping is undone by unwrapping, and only wrapped texts unwrap |
| Transformer.PrepareOutput | src/transformer.js:131-139 | without `combine`, the module list; with it, the combined code, which unwraps to the combination when `iife` is set |
| Transformer.PrepareOptions | src/transformer.js:7-8 | the defaults added and the base path prepared |
| Transformer.Transform | src/transformer.js:6-34 | succeeds exactly when every file of the finished work list is transformable; an unknown entry is a failed read; a dotted prefix with a call in the entry fails; a failure names the first waiting file of a partial work list, which is not transformable; on success the modules gathered in exactly the work-list order go through `prepareOutput` |

## Left out

- Reading, writing and watching files, and the promises around them. The file system is a map from names to contents. A rejected read is a name the map lacks, and the reader's own error value is not modelled.
- The `output` and `watch` options of `prepareOutput` (writing the result and re-running on change).
- The command line, `index.js` and the build file.
- `path` of Node. It is modelled by POSIX `extname`, `dirname` and `join` in `NodePath`. Windows drive letters and `\` separators are not interpreted.
- `withoutJsExtension`. `moduleFactory.js` calls `filesystemUtils.withoutJsExtension`, which `filesystemUtils.js` does not define. The model assumes it is `withoutFileExtension`.
- The base-path regular expressions. `new RegExp('^' + basePath)` is modelled as a literal prefix test. Base paths holding regular-expression metacharacters (a `.` matches any character there) are not modelled.
- `Array.prototype.sort`. It is modelled as the insertion sort V8 runs on short arrays. Other engines, and longer arrays, may compare in another order.
- ModuleSorter.SortByDependency: the input list being left alone by `slice(0)` is stated only through the value semantics of `seq`.
- The message texts of thrown errors. `new Error(msg, relativeFileName)` drops its second argument, so `UnsafeObjectName` carries no file name.
- `addDefaultOptions` changes the options object it is given. The model returns new options instead.
- `createModule` leaves `dependencies` unset. The sorter's records carry the dependency records some other code attaches; that orchestrator is not part of this model.
- Transformer.Discover: it does not state freshness of the returned records.
- Transformer.Discover: a failed read names the file it could not read, but not the module that required it.
- Transformer.Discover: it promises each name at most one turn, not each file. Two names of one file, such as an entry given as `./a.js` and a dependency resolved to `a.js`, are two turns, as in the code (`Transformer.DiscoveredTwice`).
- ReplaceAndLogDependencies: the `replace` callback pushes dependencies one by one. The model commits the logged list after the scan. Failure is all-or-nothing, because only the prefix can put a dot into an object name, so the result is the same.
- Tests that contradict the code are not encoded:
  - the deliberately failing test at `src/transformer.spec.js:11-15`;
  - string dependencies at `src/transformer.spec.js:175-177`;
  - the `__` default prefix at `src/cjs2web.spec.js:659-672`;
  - the `.name` field the older tests read, where the records have `moduleName`.
- The whole-run examples of the tests are stated over the dependency
  structure, not over file contents: `Transformer.DiscoveredAlone` and
  `Transformer.DiscoveredChain` take the files each module requires as
  given, rather than deriving them from the `require` calls of concrete
  source texts.

## Findings

| source | as written | input that shows it | evidently intended | confidence | as-written member | corrected member |
|---|---|---|---|---|---|---|
| src/moduleSorter.js:3-15 | the comparator looks at dependency counts before dependencies, so a module with fewer dependencies is placed before a module it requires | `c` requires `d`, and `d` requires `e` and `f`: `c` has one dependency and `d` two, so `[d, c]` sorts to `[c, d]`, with `c` ahead of its dependency | every module after the modules it depends on, and a failure exactly when the dependencies form a cycle | not executed | ModuleSorter.DependentPlacedFirst | ModuleSorter.SortTopologically |
