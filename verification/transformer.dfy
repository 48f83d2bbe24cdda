/** `src/transformer.js`: the older, self-contained bundler. It reads the
    entry file and every file it requires, rewrites each `require` call into
    a reference to the required module's object, wraps each module's code in
    a factory function and, on request, joins the modules into one script. */
module Transformer {
  import opened Common
  import opened JsText
  import NodePath
  import FileUtils
  import FilesystemUtils
  import GenerateOutput

  /** The options a caller passes; `None` is a property left out or `null`. */
  datatype RawOptions = RawOptions(prefix: Option<string>, basePath: Option<string>, combine: Option<bool>, iife: Option<bool>)

  /** The options after `addDefaultOptions`. */
  datatype Options = Options(prefix: string, basePath: string, combine: bool, iife: bool)

  /** A module entry as `createModuleEntry` builds it; the entries logged as
      dependencies keep this shape. */
  datatype Entry = Entry(fileName: string, moduleName: string, objectName: string, code: string)

  /** One `require` call found in a module's code: where it starts and ends,
      and the text between its quotes. */
  datatype Call = Call(start: nat, end: nat, literal: string)

  // The pieces `codeTemplates` puts around a module's code.
  const WrapperStart: string := "(function(module) {\n"
  const ExportsDefinition: string := "var exports = module.exports;\n"
  const ReturnValue: string := "return module.exports;\n"
  const WrapperEnd: string := "}({exports: {}}));"

  /** The code given to the entries of required modules. */
  const Reference: string := "[reference]"

  // The pieces `wrapScriptInFunctionExpression` puts around the script.
  const ScriptHead: string := "(function() {\n"
  const ScriptTail: string := "}());"

  function Given<T>(o: Option<T>, default: T): T
  {
    if o.Some? then o.value else default
  }

  /** `addDefaultOptions`: a missing options object is an empty one, and each
      property left out or `null` takes its default (`''` or `false`). */
  function AddDefaultOptions(options: Option<RawOptions>): (r: Options)
    ensures options.None? ==> r == Options("", "", false, false)
    ensures options.Some? && options.value.prefix.Some? ==> r.prefix == options.value.prefix.value
    ensures options.Some? && options.value.prefix.None? ==> r.prefix == ""
    ensures options.Some? && options.value.basePath.Some? ==> r.basePath == options.value.basePath.value
    ensures options.Some? && options.value.basePath.None? ==> r.basePath == ""
    ensures options.Some? && options.value.combine.Some? ==> r.combine == options.value.combine.value
    ensures options.Some? && options.value.combine.None? ==> !r.combine
    ensures options.Some? && options.value.iife.Some? ==> r.iife == options.value.iife.value
    ensures options.Some? && options.value.iife.None? ==> !r.iife
  {
    var o := if options.Some? then options.value else RawOptions(None, None, None, None);
    Options(Given(o.prefix, ""), Given(o.basePath, ""), Given(o.combine, false), Given(o.iife, false))
  }

  /** Defaults fill in only what is missing: options given in full come back
      as they are, and no options are the same as empty ones. */
  lemma DefaultsKeepGivenOptions(o: Options)
    ensures AddDefaultOptions(Some(RawOptions(Some(o.prefix), Some(o.basePath), Some(o.combine), Some(o.iife)))) == o
    ensures AddDefaultOptions(None) == AddDefaultOptions(Some(RawOptions(None, None, None, None)))
  {
  }

  /** `unifySlashes`: every backslash becomes a slash, nothing else changes. */
  function UnifySlashes(input: string): (r: string)
    ensures |r| == |input|
    ensures '\\' !in r
    ensures forall i :: 0 <= i < |input| && input[i] != '\\' ==> r[i] == input[i]
  {
    ReplaceChar(input, '\\', '/')
  }

  /** `prepareBasePath`: an empty base path stays empty; any other is unified
      and comes back ending in a slash. */
  function PrepareBasePath(basePath: string): (r: string)
    ensures basePath == [] <==> r == []
    ensures r != [] ==> r[|r| - 1] == '/' && '\\' !in r
    ensures basePath != [] ==> r == FilesystemUtils.UnifyPath(basePath)
  {
    if basePath == [] then basePath
    else
      var b := StripCurrentDirectory(UnifySlashes(basePath));
      assert b == FilesystemUtils.Unprefixed(basePath);
      if b != [] && b[|b| - 1] == '/' then b else b + "/"
  }

  /** `getUnifiedFileName`: slashes unified, one leading `./` or `/` removed,
      and `.js` appended exactly when the name has no extension. */
  function GetUnifiedFileName(fileName: string): (r: string)
    ensures '\\' !in r
    ensures var s := StripCurrentDirectory(UnifySlashes(fileName));
            (NodePath.ExtName(s) == [] ==> r == s + ".js") && (NodePath.ExtName(s) != [] ==> r == s)
  {
    var s := StripCurrentDirectory(UnifySlashes(fileName));
    assert '\\' !in s by {
      var u := UnifySlashes(fileName);
      if s == u {} else if "/" + s == u { assert u[1..] == s; } else { assert u[2..] == s; }
    }
    s + (if NodePath.ExtName(s) == [] then ".js" else "")
  }

  /** The older and the newer generation name files alike. */
  lemma SameAsUnifyFileName(fileName: string)
    ensures GetUnifiedFileName(fileName) == FilesystemUtils.UnifyFileName(fileName)
  {
  }

  /** `getModuleName`: the file name without a leading base path (when one
      is set) and without its extension. */
  function GetModuleName(fileName: string, basePath: string): (r: string)
    ensures var s := if basePath != [] && basePath <= fileName then fileName[|basePath|..] else fileName;
            r <= s && |s| - |r| == |NodePath.ExtName(s)|
    ensures basePath != [] && basePath <= fileName ==> basePath + r <= fileName
    ensures !(basePath != [] && basePath <= fileName) ==> r <= fileName
  {
    var s := if basePath != [] && basePath <= fileName then fileName[|basePath|..] else fileName;
    FileUtils.WithoutFileExtension(s)
  }

  /** `path/to\a.js` is the file `path/to/a.js` of the module `path/to/a`,
      and so for every settled folder and file name. */
  lemma {:induction false} BackslashedEntry(dir: string, name: string)
    requires dir != [] && dir[0] != '/' && dir[0] != '.' && '\\' !in dir
    requires name != [] && '/' !in name && '\\' !in name
    ensures GetUnifiedFileName(dir + "\\" + name + ".js") == dir + "/" + name + ".js"
    ensures GetModuleName(dir + "/" + name + ".js", "") == dir + "/" + name
  {
    SameAsUnifyFileName(dir + "\\" + name + ".js");
    FilesystemUtils.BackslashesUnified(dir, name);
    assert name[|name| - 1] in name;
    FileUtils.DropJsExtension(dir + "/" + name);
  }

  /** The base path `path/to` is prepared to `path/to/`, below which the file
      `path/to/a.js` is the module `a`; and so for every settled base path. */
  lemma {:induction false} ModuleBelowBasePath(base: string, name: string)
    requires base != [] && base[0] != '/' && base[0] != '.' && '\\' !in base && base[|base| - 1] != '/'
    requires name != [] && name[|name| - 1] != '/'
    ensures PrepareBasePath(base) == base + "/"
    ensures GetModuleName(base + "/" + name + ".js", base + "/") == name
  {
    PreparedSettledBase(base);
    NameBelowBase(base + "/", name);
  }

  lemma PreparedSettledBase(base: string)
    requires base != [] && base[0] != '/' && base[0] != '.' && '\\' !in base && base[|base| - 1] != '/'
    ensures PrepareBasePath(base) == base + "/"
  {
    ReplaceAbsentChar(base, '\\', '/');
    assert StripCurrentDirectory(base) == base;
  }

  lemma NameBelowBase(base: string, name: string)
    requires base != []
    requires name != [] && name[|name| - 1] != '/'
    ensures GetModuleName(base + name + ".js", base) == name
  {
    var f := base + name + ".js";
    assert base <= f && f[|base|..] == name + ".js";
    FileUtils.DropJsExtension(name);
  }

  /** What a module-name character becomes in an object name here: only `/`
      and `.` are replaced. */
  function ObjectChar(c: char): char
  {
    if c == '/' then '_' else if c == '.' then '$' else c
  }

  /** `getSafeObjectName`: the prefix followed by the module name, each `/`
      turned into `_` and each `.` into `$`. A dot can therefore only come
      from the prefix. */
  function GetSafeObjectName(moduleName: string, prefix: string): (o: string)
    ensures |o| == |prefix| + |moduleName|
    ensures o[..|prefix|] == prefix
    ensures forall i :: 0 <= i < |moduleName| ==> o[|prefix| + i] == ObjectChar(moduleName[i])
    ensures '.' in o <==> '.' in prefix
  {
    var mapped := ReplaceChar(ReplaceChar(moduleName, '/', '_'), '.', '$');
    var o := prefix + mapped;
    assert '.' !in mapped;
    assert '.' in o ==> '.' in prefix by {
      if '.' in o {
        var i :| 0 <= i < |o| && o[i] == '.';
        if i >= |prefix| { assert o[i] == mapped[i - |prefix|]; } else { assert prefix[i] == o[i]; }
      }
    }
    assert '.' in prefix ==> '.' in o by {
      if '.' in prefix {
        var i :| 0 <= i < |prefix| && prefix[i] == '.';
        assert o[i] == '.';
      }
    }
    o
  }

  /** `createModuleEntry`; `code || ''` turns absent or empty code into `''`. */
  function CreateModuleEntry(fileName: string, code: Option<string>, options: Options): (e: Entry)
    ensures e.fileName == GetUnifiedFileName(fileName) && '\\' !in e.fileName
    ensures e.moduleName == GetModuleName(e.fileName, options.basePath)
    ensures e.objectName == GetSafeObjectName(e.moduleName, options.prefix)
    ensures '.' in e.objectName <==> '.' in options.prefix
    ensures e.code == if code.Some? then code.value else ""
  {
    var fileName := GetUnifiedFileName(fileName);
    var moduleName := GetModuleName(fileName, options.basePath);
    Entry(fileName, moduleName, GetSafeObjectName(moduleName, options.prefix), if code.Some? then code.value else "")
  }

  /** The entry `replaceAndLogDependencies` creates for a required name,
      resolved against the folder of the requiring module. */
  function DependencyEntry(folder: string, literal: string, options: Options): Entry
  {
    CreateModuleEntry(NodePath.Join(folder, literal), Some(Reference), options)
  }

  /** The callback `replaceAndLogDependencies` hands to `replace`, as the
      map from a required name to the entry whose object name replaces the
      call. */
  function Resolver(folder: string, options: Options): string -> Entry
  {
    literal => DependencyEntry(folder, literal, options)
  }

  /** Whatever is required, the object name holds a dot exactly when the
      prefix does. */
  lemma ResolvedDot(folder: string, options: Options, literal: string)
    ensures '.' in Resolver(folder, options)(literal).objectName <==> '.' in options.prefix
  {
  }

  // ---------------------------------------------------------------------
  // The regular expression `require\s*\(\s*(('(.*?)')|("(.*?)"))\s*\)`,
  // applied with the `g` flag.

  /** `require`, whitespace, `(` and whitespace starting at `p`: the index of
      the opening quote that follows. */
  function RequireOpening(s: string, p: nat): (q: Option<nat>)
    requires p <= |s|
    ensures q.Some? ==> p + 7 < q.value < |s| && (s[q.value] == '\'' || s[q.value] == '"')
  {
    if p + 7 <= |s| && s[p..p + 7] == "require" then
      var i := SkipWhitespace(s, p + 7);
      if i < |s| && s[i] == '(' then
        var j := SkipWhitespace(s, i + 1);
        if j < |s| && (s[j] == '\'' || s[j] == '"') then Some(j) else None
      else None
    else None
  }

  /** The lazy `(.*?)` from `j`: the first position holding `quote` that is
      followed by whitespace and `)`, reached without crossing a line end. */
  function ClosingQuote(s: string, quote: char, j: nat): (c: Option<nat>)
    requires j <= |s|
    ensures c.Some? ==> j <= c.value < |s| && s[c.value] == quote
    ensures c.Some? ==> SkipWhitespace(s, c.value + 1) < |s| && s[SkipWhitespace(s, c.value + 1)] == ')'
    ensures c.Some? ==> forall k :: j <= k < c.value ==> !IsLineTerminator(s[k])
    decreases |s| - j
  {
    if j == |s| then None
    else if s[j] == quote && SkipWhitespace(s, j + 1) < |s| && s[SkipWhitespace(s, j + 1)] == ')' then Some(j)
    else if IsLineTerminator(s[j]) then None
    else ClosingQuote(s, quote, j + 1)
  }

  /** The `require` call that starts at `p`, if one does. */
  function CallAt(s: string, p: nat): (c: Option<Call>)
    requires p <= |s|
    ensures c.Some? ==> c.value.start == p && p < c.value.end <= |s|
    ensures c.Some? ==> p + 7 <= |s| && s[p..p + 7] == "require"
  {
    match RequireOpening(s, p)
    case None => None
    case Some(q) =>
      match ClosingQuote(s, s[q], q + 1)
      case None => None
      case Some(c) => Some(Call(p, SkipWhitespace(s, c + 1) + 1, s[q + 1..c]))
  }

  /** The first `require` call at or after `p`. */
  function NextCall(s: string, p: nat): (c: Option<Call>)
    requires p <= |s|
    ensures c.Some? ==> p <= c.value.start < c.value.end <= |s| && CallAt(s, c.value.start) == c
    ensures c.Some? ==> forall k :: p <= k < c.value.start ==> CallAt(s, k).None?
    ensures c.None? ==> forall k :: p <= k <= |s| ==> CallAt(s, k).None?
    decreases |s| - p
  {
    if p == |s| then None
    else if CallAt(s, p).Some? then CallAt(s, p)
    else NextCall(s, p + 1)
  }

  /** The entries `resolve` gives for the calls from `p` on, in order of
      appearance, one per call. */
  function RequiredFrom(s: string, p: nat, resolve: string -> Entry): (r: seq<Entry>)
    requires p <= |s|
    ensures NextCall(s, p).None? <==> r == []
    decreases |s| - p
  {
    match NextCall(s, p)
    case None => []
    case Some(c) => [resolve(c.literal)] + RequiredFrom(s, c.end, resolve)
  }

  /** The text from `p` on with every `require` call replaced by the object
      name of the entry `resolve` gives for it. */
  function RewriteFrom(s: string, p: nat, resolve: string -> Entry): (r: string)
    requires p <= |s|
    ensures NextCall(s, p).None? ==> r == s[p..]
    decreases |s| - p
  {
    match NextCall(s, p)
    case None => s[p..]
    case Some(c) => s[p..c.start] + resolve(c.literal).objectName + RewriteFrom(s, c.end, resolve)
  }

  /** Whether a module's code holds a `require` call. */
  predicate HasRequire(code: string)
  {
    NextCall(code, 0).Some?
  }

  /** The entries of the modules a module's code requires. */
  function Required(code: string, resolve: string -> Entry): seq<Entry>
  {
    RequiredFrom(code, 0, resolve)
  }

  /** A module's code with its `require` calls replaced. */
  function Rewrite(code: string, resolve: string -> Entry): string
  {
    RewriteFrom(code, 0, resolve)
  }

  /** Code without `require` calls is left as it is. */
  lemma RewriteWithoutRequire(code: string, resolve: string -> Entry)
    requires !HasRequire(code)
    ensures Rewrite(code, resolve) == code
  {
  }

  /** Rewriting is local: the text before the first call is kept, the call
      becomes the required module's object name, and the rest is rewritten
      on its own. */
  lemma {:induction false} RewriteFirstCall(code: string, resolve: string -> Entry)
    requires NextCall(code, 0).Some?
    ensures var c := NextCall(code, 0).value;
            Required(code, resolve) == [resolve(c.literal)] + RequiredFrom(code, c.end, resolve)
            && Rewrite(code, resolve)
               == code[..c.start] + resolve(c.literal).objectName
                  + RewriteFrom(code, c.end, resolve)
            && code[c.start..c.start + 7] == "require"
  {
  }

  /** One call consumed: both scans continue after its end. */
  lemma ScanStep(s: string, p: nat, resolve: string -> Entry)
    requires p <= |s| && NextCall(s, p).Some?
    ensures var c := NextCall(s, p).value;
            RewriteFrom(s, p, resolve)
              == s[p..c.start] + resolve(c.literal).objectName + RewriteFrom(s, c.end, resolve)
            && RequiredFrom(s, p, resolve)
              == [resolve(c.literal)] + RequiredFrom(s, c.end, resolve)
  {
  }

  /** The loop of `replaceAndLogDependencies` keeps its invariants when it
      replaces the call at `p` and logs its entry. */
  lemma ReplaceStep(s: string, p: nat, resolve: string -> Entry, target: string, rewritten: string, logged: seq<Entry>, deps: seq<Entry>)
    requires p <= |s| && NextCall(s, p).Some?
    requires target == rewritten + RewriteFrom(s, p, resolve)
    requires logged == LogAll(deps, RequiredFrom(s, p, resolve))
    ensures var c := NextCall(s, p).value;
            var d := resolve(c.literal);
            target == (rewritten + s[p..c.start] + d.objectName) + RewriteFrom(s, c.end, resolve)
            && logged == LogAll(Log(deps, d), RequiredFrom(s, c.end, resolve))
  {
    var c := NextCall(s, p).value;
    var d := resolve(c.literal);
    ScanStep(s, p, resolve);
    LogAllCons(deps, d, RequiredFrom(s, c.end, resolve));
    assert rewritten + (s[p..c.start] + d.objectName + RewriteFrom(s, c.end, resolve))
        == (rewritten + s[p..c.start] + d.objectName) + RewriteFrom(s, c.end, resolve);
  }

  // ---------------------------------------------------------------------
  // The dependency log.

  /** The file names of a list of entries. */
  function FileNames(deps: seq<Entry>): (r: seq<string>)
    ensures |r| == |deps|
    ensures forall i :: 0 <= i < |deps| ==> r[i] == deps[i].fileName
  {
    if deps == [] then [] else [deps[0].fileName] + FileNames(deps[1..])
  }

  /** `dependencyAlreadyAdded`: some logged entry has the same file name. */
  function DependencyAlreadyAdded(deps: seq<Entry>, dependency: Entry): (b: bool)
    ensures b <==> exists i :: 0 <= i < |deps| && deps[i].fileName == dependency.fileName
  {
    if deps == [] then false
    else if deps[0].fileName == dependency.fileName then true
    else
      var b := DependencyAlreadyAdded(deps[1..], dependency);
      assert b ==> exists i :: 0 <= i < |deps| && deps[i].fileName == dependency.fileName by {
        if b {
          var i :| 0 <= i < |deps[1..]| && deps[1..][i].fileName == dependency.fileName;
          assert deps[i + 1].fileName == dependency.fileName;
        }
      }
      assert (exists i :: 0 <= i < |deps| && deps[i].fileName == dependency.fileName) ==> b by {
        if exists i :: 0 <= i < |deps| && deps[i].fileName == dependency.fileName {
          var i :| 0 <= i < |deps| && deps[i].fileName == dependency.fileName;
          assert i != 0;
          assert deps[1..][i - 1].fileName == dependency.fileName;
        }
      }
      b
  }

  /** One call logged: the entry is appended unless its file is already there. */
  function Log(deps: seq<Entry>, dependency: Entry): seq<Entry>
  {
    if DependencyAlreadyAdded(deps, dependency) then deps else deps + [dependency]
  }

  /** The entries `ds` logged in order. */
  function LogAll(deps: seq<Entry>, ds: seq<Entry>): seq<Entry>
    decreases |ds|
  {
    if ds == [] then deps else LogAll(Log(deps, ds[0]), ds[1..])
  }

  /** One logging step keeps the earlier entries and their order, logs the
      new file, adds nothing else, and never logs a file twice. */
  lemma LogStep(deps: seq<Entry>, d: Entry)
    ensures deps <= Log(deps, d)
    ensures DependencyAlreadyAdded(Log(deps, d), d)
    ensures forall k :: 0 <= k < |Log(deps, d)| ==> Log(deps, d)[k] in deps || Log(deps, d)[k] == d
    ensures Distinct(FileNames(deps)) ==> Distinct(FileNames(Log(deps, d)))
  {
    var next := Log(deps, d);
    if !DependencyAlreadyAdded(deps, d) {
      assert next[|deps|] == d;
    }
    if !DependencyAlreadyAdded(deps, d) && Distinct(FileNames(deps)) {
      var f := FileNames(next);
      forall i, j | 0 <= i < j < |f|
        ensures f[i] != f[j]
      {
        if j == |deps| {
          assert f[i] == deps[i].fileName;
        } else {
          assert f[i] == FileNames(deps)[i] && f[j] == FileNames(deps)[j];
        }
      }
    }
  }

  lemma LogAllCons(deps: seq<Entry>, d: Entry, ds: seq<Entry>)
    ensures LogAll(deps, [d] + ds) == LogAll(Log(deps, d), ds)
  {
    assert ([d] + ds)[1..] == ds;
  }

  /** Logging keeps what was logged before, in its order, and never logs a
      file twice. */
  lemma {:induction false} LogAllExtends(deps: seq<Entry>, ds: seq<Entry>)
    requires Distinct(FileNames(deps))
    ensures deps <= LogAll(deps, ds)
    ensures Distinct(FileNames(LogAll(deps, ds)))
    decreases |ds|
  {
    if ds != [] {
      LogStep(deps, ds[0]);
      LogAllExtends(Log(deps, ds[0]), ds[1..]);
    }
  }

  /** A logged file stays logged. */
  lemma {:induction false} LogAllKeeps(deps: seq<Entry>, e: Entry, ds: seq<Entry>)
    requires DependencyAlreadyAdded(deps, e)
    ensures DependencyAlreadyAdded(LogAll(deps, ds), e)
    decreases |ds|
  {
    if ds != [] {
      var next := Log(deps, ds[0]);
      LogStep(deps, ds[0]);
      var i :| 0 <= i < |deps| && deps[i].fileName == e.fileName;
      assert next[i] == deps[i];
      LogAllKeeps(next, e, ds[1..]);
    }
  }

  /** Every entry's file ends up logged. */
  lemma {:induction false} LogAllComplete(deps: seq<Entry>, ds: seq<Entry>)
    ensures forall i :: 0 <= i < |ds| ==> DependencyAlreadyAdded(LogAll(deps, ds), ds[i])
    decreases |ds|
  {
    if ds != [] {
      var next := Log(deps, ds[0]);
      LogStep(deps, ds[0]);
      LogAllKeeps(next, ds[0], ds[1..]);
      LogAllComplete(next, ds[1..]);
      forall i | 1 <= i < |ds|
        ensures DependencyAlreadyAdded(LogAll(deps, ds), ds[i])
      {
        assert ds[i] == ds[1..][i - 1];
      }
    }
  }

  /** Nothing but the given entries is added to the log. */
  lemma {:induction false} LogAllSound(deps: seq<Entry>, ds: seq<Entry>)
    ensures forall e :: e in LogAll(deps, ds) ==> e in deps || e in ds
    decreases |ds|
  {
    if ds != [] {
      var next := Log(deps, ds[0]);
      LogStep(deps, ds[0]);
      LogAllSound(next, ds[1..]);
      forall e | e in LogAll(deps, ds)
        ensures e in deps || e in ds
      {
        if e in ds[1..] {
          var i :| 0 <= i < |ds[1..]| && ds[1..][i] == e;
          assert ds[i + 1] == e;
        } else if e in next && e !in deps {
          var j :| 0 <= j < |next| && next[j] == e;
        }
      }
    }
  }

  // ---------------------------------------------------------------------
  // The regular expression `exports(\.|\[).*` with the `i` flag.

  /** `exports`, in any mix of ASCII cases, followed by `.` or `[` at `i`. */
  predicate ExportsAt(s: string, i: nat)
    requires i + 8 <= |s|
  {
    LowerAscii(s[i]) == 'e' && LowerAscii(s[i + 1]) == 'x' && LowerAscii(s[i + 2]) == 'p'
    && LowerAscii(s[i + 3]) == 'o' && LowerAscii(s[i + 4]) == 'r' && LowerAscii(s[i + 5]) == 't'
    && LowerAscii(s[i + 6]) == 's' && (s[i + 7] == '.' || s[i + 7] == '[')
  }

  /** `exportsRegex.test(code)`. */
  predicate UsesExports(s: string)
  {
    exists i: nat :: i + 8 <= |s| && ExportsAt(s, i)
  }

  /** The definition of `exports` that the wrapper may add does not itself
      count as a use of `exports`. */
  lemma {:induction false} ExportsDefinitionInert(x: string)
    ensures UsesExports(ExportsDefinition + x) <==> UsesExports(x)
  {
    var s := ExportsDefinition + x;
    var n := |ExportsDefinition|;
    DefinitionChars();
    if UsesExports(x) {
      var i: nat :| i + 8 <= |x| && ExportsAt(x, i);
      UseShifts(ExportsDefinition, x, i);
    }
    if UsesExports(s) {
      var i: nat :| i + 8 <= |s| && ExportsAt(s, i);
      if i < n {
        NoUseInDefinition(s, i);
        assert false;
      }
      UseShifts(ExportsDefinition, x, i - n);
    }
  }

  /** A use of `exports` in `x` is one in `d + x`, shifted by `|d|`. */
  lemma UseShifts(d: string, x: string, i: nat)
    requires i + 8 <= |x|
    ensures ExportsAt(d + x, |d| + i) <==> ExportsAt(x, i)
  {
    var s := d + x;
    assert s[|d| + i..|d| + i + 8] == x[i..i + 8];
  }

  lemma DefinitionChars()
    ensures |ExportsDefinition| == 30
    ensures ExportsDefinition[13] == ' ' && ExportsDefinition[29] == '\n'
    ensures forall k :: 0 <= k < 30 && (ExportsDefinition[k] == '.' || ExportsDefinition[k] == '[') ==> k == 20
    ensures forall k :: 23 <= k < 30 ==> LowerAscii(ExportsDefinition[k]) != 'e'
  {
  }

  /** No use of `exports` starts inside the added definition. */
  lemma NoUseInDefinition(s: string, i: nat)
    requires ExportsDefinition <= s && i < |ExportsDefinition| && i + 8 <= |s|
    ensures !ExportsAt(s, i)
  {
    DefinitionChars();
    if i + 7 < 30 {
      assert s[i + 7] == ExportsDefinition[i + 7];
      assert s[13] == ExportsDefinition[13];
    } else {
      assert s[i] == ExportsDefinition[i];
    }
  }

  /** Code that is empty before wrapping does not use `exports`. */
  lemma EmptyCodeNoExports()
    ensures !UsesExports("" + "\n")
  {
  }

  // ---------------------------------------------------------------------
  // Wrapping.

  /** The text in front of a module's code once wrapped. */
  function WrapperHead(objectName: string): string
  {
    "var " + objectName + " = " + WrapperStart
  }

  /** What follows a module's code once wrapped; the code itself gained a
      line break first. */
  const WrapperTail: string := "\n" + "\n" + ReturnValue + WrapperEnd

  /** The code `wrapModuleCode` leaves: the wrapper's head, then the
      definition of `exports` exactly when the code uses `exports`, then the
      code, then the wrapper's tail. */
  function WrappedCode(objectName: string, code: string): (r: string)
    ensures |r| >= |WrapperHead(objectName)| + |WrapperTail|
    ensures r[..|WrapperHead(objectName)|] == WrapperHead(objectName)
    ensures r[|r| - |WrapperTail|..] == WrapperTail
    ensures r[|WrapperHead(objectName)|..|r| - |WrapperTail|]
            == (if UsesExports(code + "\n") then ExportsDefinition else "") + code
  {
    var definitions := if UsesExports(code + "\n") then ExportsDefinition else "";
    FramedParts(WrapperHead(objectName), definitions + code, WrapperTail);
    WrapperHead(objectName) + (definitions + code) + WrapperTail
  }

  lemma Regrouped<T>(head: seq<T>, d: seq<T>, c: seq<T>, nl: seq<T>, r: seq<T>, e: seq<T>)
    ensures head + d + (c + nl) + nl + r + e == head + (d + c) + (nl + nl + r + e)
  {
  }

  /** The module code inside wrapped code, with the added definition of
      `exports` taken off again. */
  function UnwrapModuleCode(objectName: string, text: string): Option<string>
  {
    var h := |WrapperHead(objectName)|;
    var t := |WrapperTail|;
    if |text| >= h + t && text[..h] == WrapperHead(objectName) && text[|text| - t..] == WrapperTail then
      var middle := text[h..|text| - t];
      var d := |ExportsDefinition|;
      if |middle| >= d && middle[..d] == ExportsDefinition && UsesExports(middle[d..] + "\n")
      then Some(middle[d..])
      else Some(middle)
    else None
  }

  /** Wrapping loses nothing: the module's code can be read back. */
  lemma {:induction false} UnwrapWrappedCode(objectName: string, code: string)
    ensures UnwrapModuleCode(objectName, WrappedCode(objectName, code)) == Some(code)
  {
    MiddleUnwraps(code);
  }

  /** The parts of a framed text can be read back by their lengths. */
  lemma FramedParts(head: string, middle: string, tail: string)
    ensures var text := head + middle + tail;
            |text| >= |head| + |tail|
            && text[..|head|] == head && text[|text| - |tail|..] == tail
            && text[|head|..|text| - |tail|] == middle
  {
    var text := head + middle + tail;
    assert text[..|head|] == head;
    assert text[|text| - |tail|..] == tail;
    assert text[|head|..|text| - |tail|] == middle;
  }

  /** The definition of `exports` is taken off exactly when it was added. */
  lemma MiddleUnwraps(code: string)
    ensures var defs := if UsesExports(code + "\n") then ExportsDefinition else "";
            var middle := defs + code;
            var d := |ExportsDefinition|;
            (if |middle| >= d && middle[..d] == ExportsDefinition && UsesExports(middle[d..] + "\n")
             then middle[d..] else middle) == code
  {
    var d := |ExportsDefinition|;
    if UsesExports(code + "\n") {
      var middle := ExportsDefinition + code;
      assert middle[..d] == ExportsDefinition;
      assert middle[d..] == code;
    } else {
      var middle := "" + code;
      assert middle == code;
      if |code| >= d && code[..d] == ExportsDefinition {
        var x := code[d..] + "\n";
        assert code + "\n" == ExportsDefinition + x;
        ExportsDefinitionInert(x);
      }
    }
  }

  // ---------------------------------------------------------------------
  // The module record and the steps that change it.

  /** The `replace` call of `replaceAndLogDependencies` over `source`, with
      `deps` the dependency list its callback appends to. */
  method ReplaceRequires(source: string, folder: string, options: Options, deps: seq<Entry>)
    returns (rewritten: string, logged: seq<Entry>, failure: Option<Error>)
    ensures failure.Some? <==> '.' in options.prefix && HasRequire(source)
    ensures failure.Some? ==> failure.value == UnsafeObjectName && logged == deps
    ensures failure.None? ==> rewritten == Rewrite(source, Resolver(folder, options))
    ensures failure.None? ==> logged == LogAll(deps, Required(source, Resolver(folder, options)))
  {
    var resolve := Resolver(folder, options);
    ghost var target := Rewrite(source, resolve);
    ghost var all := LogAll(deps, Required(source, resolve));
    rewritten := "";
    logged := deps;
    var p := 0;
    while NextCall(source, p).Some?
      invariant p <= |source|
      invariant target == rewritten + RewriteFrom(source, p, resolve)
      invariant all == LogAll(logged, RequiredFrom(source, p, resolve))
      invariant '.' in options.prefix ==> p == 0 && logged == deps
      decreases |source| - p
    {
      var call := NextCall(source, p).value;
      var dependency := resolve(call.literal);
      ResolvedDot(folder, options, call.literal);
      if '.' in dependency.objectName {
        return rewritten, logged, Some(UnsafeObjectName);
      }
      ReplaceStep(source, p, resolve, target, rewritten, all, logged);
      if !DependencyAlreadyAdded(logged, dependency) {
        logged := logged + [dependency];
      }
      rewritten := rewritten + source[p..call.start] + dependency.objectName;
      p := call.end;
    }
    rewritten := rewritten + source[p..];
    return rewritten, logged, None;
  }

  /** A module record of the transformation: `createModuleEntry` fills in
      its names and code, `replaceAndLogDependencies` rewrites the code and
      logs the dependencies, and `wrapModuleCode` wraps the code. */
  class ModuleRecord {
    var fileName: string
    var moduleName: string
    var objectName: string
    var code: string
    var dependencies: seq<Entry>

    /** The record of a fresh entry; its dependency list starts empty
        (`module.dependencies || []`). */
    constructor (e: Entry)
      ensures fileName == e.fileName && moduleName == e.moduleName && objectName == e.objectName
      ensures code == e.code && dependencies == []
    {
      fileName := e.fileName;
      moduleName := e.moduleName;
      objectName := e.objectName;
      code := e.code;
      dependencies := [];
    }

    /** `replaceAndLogDependencies`: every `require` call in the code becomes
        the object name of the module it requires, resolved against this
        module's folder, and each required file is logged once, in order of
        first appearance. An object name with a dot aborts the replacement
        at the first call; since only the prefix can put a dot there, either
        every call fails or none does, and a failure leaves the record as it
        was. */
    method ReplaceAndLogDependencies(options: Options) returns (failure: Option<Error>)
      modifies this
      ensures fileName == old(fileName) && moduleName == old(moduleName) && objectName == old(objectName)
      ensures failure.Some? <==> '.' in options.prefix && HasRequire(old(code))
      ensures failure.Some? ==> failure.value == UnsafeObjectName
      ensures failure.Some? ==> code == old(code) && dependencies == old(dependencies)
      ensures failure.None? ==> code == Rewrite(old(code), Resolver(NodePath.DirName(fileName), options))
      ensures failure.None? ==>
                dependencies == LogAll(old(dependencies), Required(old(code), Resolver(NodePath.DirName(fileName), options)))
    {
      var source, folder := code, NodePath.DirName(fileName);
      var rewritten, logged;
      rewritten, logged, failure := ReplaceRequires(source, folder, options, dependencies);
      if failure.None? {
        code, dependencies := rewritten, logged;
      }
    }

    /** `wrapModuleCode`: the code, followed by a line break, becomes the
        body of a factory whose result is assigned to the module's object. */
    method WrapModuleCode(options: Options)
      modifies this
      ensures fileName == old(fileName) && moduleName == old(moduleName) && objectName == old(objectName)
      ensures dependencies == old(dependencies)
      ensures code == WrappedCode(GetSafeObjectName(moduleName, options.prefix), old(code))
    {
      var name := GetSafeObjectName(moduleName, options.prefix);
      ghost var original := code;
      code := code + "\n";
      var definitions := if UsesExports(code) then ExportsDefinition else "";
      code := "var " + name + " = " + WrapperStart + definitions + code + "\n" + ReturnValue + WrapperEnd;
      Regrouped("var " + name + " = " + WrapperStart, definitions, original, "\n", ReturnValue, WrapperEnd);
    }
  }

  // ---------------------------------------------------------------------
  // One file, and the work list over all files.

  /** The fields of a module record, as a value. */
  datatype Record = Record(fileName: string, moduleName: string, objectName: string, code: string, dependencies: seq<Entry>)

  function Snapshot(m: ModuleRecord): Record
    reads m
  {
    Record(m.fileName, m.moduleName, m.objectName, m.code, m.dependencies)
  }

  /** What `transformSingleFile` makes of the file `name` read as `code`:
      the entry `createModuleEntry` builds, its `require` calls replaced and
      logged against its folder, and its code wrapped. No file is logged
      twice. */
  function Transformation(name: string, code: string, options: Options): (r: Record)
    ensures Distinct(FileNames(r.dependencies))
  {
    var e := CreateModuleEntry(name, Some(code), options);
    var resolve := Resolver(NodePath.DirName(e.fileName), options);
    LogAllExtends([], Required(code, resolve));
    Record(e.fileName, e.moduleName, e.objectName, WrappedCode(e.objectName, Rewrite(code, resolve)),
           LogAll([], Required(code, resolve)))
  }

  /** `Transformation` for every file of `files`. */
  function Transformations(files: map<string, string>, options: Options): string -> Record
  {
    name => if name in files then Transformation(name, files[name], options) else Record("", "", "", "", [])
  }

  /** `transformSingleFile`, with the file system given as the map `files`
      from names to contents: a name it lacks is a failed read. */
  method TransformSingleFile(name: string, files: map<string, string>, options: Options) returns (r: Result<ModuleRecord>)
    ensures name !in files ==> r == Err(ReadFailed(name))
    ensures name in files ==> (r.Err? <==> '.' in options.prefix && HasRequire(files[name]))
    ensures name in files && r.Err? ==> r.error == UnsafeObjectName
    ensures r.Ok? ==> fresh(r.value) && name in files && Snapshot(r.value) == Transformation(name, files[name], options)
  {
    if name !in files {
      return Err(ReadFailed(name));
    }
    var e := CreateModuleEntry(name, Some(files[name]), options);
    var m := new ModuleRecord(e);
    var failure := m.ReplaceAndLogDependencies(options);
    if failure.Some? {
      return Err(failure.value);
    }
    m.WrapModuleCode(options);
    return Ok(m);
  }

  /** The names in `names` that `seen` lacks, in their order: the `filter`
      that keeps known files out of the work list. */
  function Unseen(names: seq<string>, seen: seq<string>): (r: seq<string>)
    ensures forall n :: n in r <==> n in names && n !in seen
    ensures Distinct(names) ==> Distinct(r)
  {
    if names == [] then []
    else
      var rest := Unseen(names[1..], seen);
      assert Distinct(names) ==> Distinct(names[1..]) && names[0] !in names[1..];
      (if names[0] in seen then [] else [names[0]]) + rest
  }

  /** Two lists without repetitions and without a shared element join into
      one without repetitions. */
  lemma DistinctJoin(a: seq<string>, b: seq<string>)
    requires Distinct(a) && Distinct(b)
    requires forall n :: n in b ==> n !in a
    ensures Distinct(a + b)
  {
    var c := a + b;
    forall i, j | 0 <= i < j < |c|
      ensures c[i] != c[j]
    {
      if j >= |a| && i < |a| {
        assert c[j] == b[j - |a|] && c[i] == a[i];
        assert c[j] in b;
      } else if i >= |a| {
        assert c[i] == b[i - |a|] && c[j] == b[j - |a|];
      }
    }
  }

  /** `modules` holds, most recent first, what `spec` gives for each file
      in `processed`. */
  predicate Matches(modules: seq<ModuleRecord>, processed: seq<string>, spec: string -> Record)
    reads modules
  {
    |modules| == |processed|
    && forall i :: 0 <= i < |processed| ==> Snapshot(modules[|modules| - 1 - i]) == spec(processed[i])
  }

  /** Every file some module depends on is in `names`. */
  predicate Closed(modules: seq<ModuleRecord>, names: seq<string>)
    reads modules
  {
    forall i, d :: 0 <= i < |modules| && d in modules[i].dependencies ==> d.fileName in names
  }

  /** What the work list of `transform` has gathered: the module `spec`
      gives for each processed file, which the reader knows, no file
      processed or waiting twice, and every file a module depends on
      processed or waiting. */
  predicate Gathered(modules: seq<ModuleRecord>, processed: seq<string>, pending: seq<string>,
                     files: map<string, string>, spec: string -> Record)
    reads modules
  {
    Matches(modules, processed, spec) && (forall n :: n in processed ==> n in files)
    && Distinct(processed + pending) && Closed(modules, processed + pending)
  }

  /** The module of the first file processed, the entry file, is the last
      one of the list. */
  lemma EntryLast(modules: seq<ModuleRecord>, processed: seq<string>, spec: string -> Record)
    requires Matches(modules, processed, spec) && processed != []
    ensures Snapshot(modules[|modules| - 1]) == spec(processed[0])
  {
  }

  /** The module of a new file goes in front of the list. */
  lemma MatchesStep(modules: seq<ModuleRecord>, done: seq<string>, name: string, m: ModuleRecord, spec: string -> Record)
    requires Matches(modules, done, spec)
    requires Snapshot(m) == spec(name)
    ensures Matches([m] + modules, done + [name], spec)
  {
    var modules' := [m] + modules;
    var done' := done + [name];
    forall i | 0 <= i < |done'|
      ensures Snapshot(modules'[|modules'| - 1 - i]) == spec(done'[i])
    {
      if i < |done| {
        assert modules'[|modules'| - 1 - i] == modules[|modules| - 1 - i];
      }
    }
  }

  /** The dependencies of the new module are waiting or known. */
  lemma ClosedStep(modules: seq<ModuleRecord>, names: seq<string>, m: ModuleRecord, unseen: seq<string>)
    requires Closed(modules, names)
    requires forall n :: n in FileNames(m.dependencies) ==> n in names || n in unseen
    ensures Closed([m] + modules, names + unseen)
  {
    var modules' := [m] + modules;
    forall i, d | 0 <= i < |modules'| && d in modules'[i].dependencies
      ensures d.fileName in names + unseen
    {
      if i == 0 {
        var k :| 0 <= k < |m.dependencies| && m.dependencies[k] == d;
        assert FileNames(m.dependencies)[k] == d.fileName;
      } else {
        assert modules'[i] == modules[i - 1];
      }
    }
  }

  /** One turn of the work list keeps what it has gathered: the module of
      the first waiting file goes in front, that file counts as processed,
      and the files it depends on that are new join the end of the list. */
  lemma GatherStep(modules: seq<ModuleRecord>, done: seq<string>, queue: seq<string>, m: ModuleRecord,
                   files: map<string, string>, spec: string -> Record)
    requires Gathered(modules, done, queue, files, spec)
    requires queue != [] && queue[0] in files && Snapshot(m) == spec(queue[0])
    requires Distinct(FileNames(m.dependencies))
    ensures Gathered([m] + modules, done + [queue[0]],
                     queue[1..] + Unseen(FileNames(m.dependencies), done + queue), files, spec)
  {
    var unseen := Unseen(FileNames(m.dependencies), done + queue);
    assert (done + [queue[0]]) + queue[1..] == done + queue;
    MatchesStep(modules, done, queue[0], m, spec);
    DistinctJoin(done + queue, unseen);
    ClosedStep(modules, done + queue, m, unseen);
    assert (done + [queue[0]]) + (queue[1..] + unseen) == (done + queue) + unseen;
  }

  /** The first waiting file is not processed yet, so processing a known
      one leaves fewer known files unprocessed. */
  lemma FewerLeft(keys: set<string>, done: seq<string>, queue: seq<string>)
    requires queue != [] && queue[0] in keys && Distinct(done + queue)
    ensures keys - (set n | n in done + [queue[0]]) < keys - (set n | n in done)
  {
    forall i | 0 <= i < |done|
      ensures done[i] != queue[0]
    {
      assert (done + queue)[i] == done[i] && (done + queue)[|done|] == queue[0];
    }
    assert queue[0] in keys - (set n | n in done);
  }

  /** The files each turn of the work list queued, one batch per turn, in
      order. */
  function Flatten(batches: seq<seq<string>>): (r: seq<string>)
    ensures batches == [] ==> r == []
  {
    if batches == [] then [] else Flatten(batches[..|batches| - 1]) + batches[|batches| - 1]
  }

  lemma FlattenSnoc(batches: seq<seq<string>>, b: seq<string>)
    ensures Flatten(batches + [b]) == Flatten(batches) + b
  {
    assert (batches + [b])[..|batches|] == batches;
  }

  /** What the earlier turns queued is a prefix of what all turns queued. */
  lemma {:induction false} FlattenPrefix(batches: seq<seq<string>>, j: nat)
    requires j <= |batches|
    ensures Flatten(batches[..j]) <= Flatten(batches)
    decreases |batches|
  {
    if j < |batches| {
      var init := batches[..|batches| - 1];
      assert batches[..j] == init[..j];
      FlattenPrefix(init, j);
    } else {
      assert batches[..j] == batches;
    }
  }

  /** The turn that queued position `i` of the work list's tail. */
  lemma {:induction false} FlattenLocate(batches: seq<seq<string>>, i: nat) returns (j: nat)
    requires i < |Flatten(batches)|
    ensures j < |batches|
    ensures |Flatten(batches[..j])| <= i < |Flatten(batches[..j])| + |batches[j]|
    ensures Flatten(batches)[i] == batches[j][i - |Flatten(batches[..j])|]
    decreases |batches|
  {
    var init := batches[..|batches| - 1];
    var last := batches[|batches| - 1];
    if i < |Flatten(init)| {
      j := FlattenLocate(init, i);
      assert init[..j] == batches[..j] && init[j] == batches[j];
    } else {
      j := |batches| - 1;
      assert batches[..j] == init;
    }
  }

  /** The work list of `transform` step by step, as the ghost record
      `batches` of what each turn queued: the entry is queued first, the
      turn for the `j`th processed file queues, in order, the files its
      module depends on that were not queued before, and the `j`th file is
      processed only once it has been queued. */
  ghost predicate WorkListSoFar(processed: seq<string>, queue: seq<string>, batches: seq<seq<string>>,
                                entry: string, spec: string -> Record)
  {
    Turns(processed, batches, entry, spec) && processed + queue == [entry] + Flatten(batches)
  }

  /** Each processed file had its turn, in order. */
  ghost predicate Turns(processed: seq<string>, batches: seq<seq<string>>, entry: string, spec: string -> Record)
  {
    |batches| == |processed|
    && forall j :: 0 <= j < |processed| ==> Turn(processed[j], batches[..j], batches[j], entry, spec)
  }

  /** The turn for `name`, after the turns `before`: `name` was queued by
      then, and the turn queues `batch`. */
  ghost predicate Turn(name: string, before: seq<seq<string>>, batch: seq<string>, entry: string, spec: string -> Record)
  {
    |before| < 1 + |Flatten(before)|
    && batch == Unseen(FileNames(spec(name).dependencies), [entry] + Flatten(before))
  }

  /** The finished work list: nothing is left waiting. */
  ghost predicate WorkList(processed: seq<string>, batches: seq<seq<string>>, entry: string, spec: string -> Record)
  {
    Turns(processed, batches, entry, spec) && processed == [entry] + Flatten(batches)
  }

  /** One turn of the work list: the first waiting file is processed, and
      the files its module needs that are not yet queued join the end. */
  lemma WorkListStep(done: seq<string>, queue: seq<string>, batches: seq<seq<string>>,
                     entry: string, spec: string -> Record)
    requires WorkListSoFar(done, queue, batches, entry, spec) && queue != []
    ensures var unseen := Unseen(FileNames(spec(queue[0]).dependencies), done + queue);
            WorkListSoFar(done + [queue[0]], queue[1..] + unseen, batches + [unseen], entry, spec)
  {
    var unseen := Unseen(FileNames(spec(queue[0]).dependencies), done + queue);
    FlattenSnoc(batches, unseen);
    Requeued(done, queue, unseen);
    Associate([entry], Flatten(batches), unseen);
    assert Turn(queue[0], batches, unseen, entry, spec);
    TurnsSnoc(done, batches, queue[0], unseen, entry, spec);
  }

  lemma Requeued(done: seq<string>, queue: seq<string>, unseen: seq<string>)
    requires queue != []
    ensures (done + [queue[0]]) + (queue[1..] + unseen) == (done + queue) + unseen
  {
    assert queue == [queue[0]] + queue[1..];
  }

  /** A turn added to turns had in order. */
  lemma TurnsSnoc(done: seq<string>, batches: seq<seq<string>>, name: string, batch: seq<string>,
                  entry: string, spec: string -> Record)
    requires Turns(done, batches, entry, spec) && Turn(name, batches, batch, entry, spec)
    ensures Turns(done + [name], batches + [batch], entry, spec)
  {
    var done' := done + [name];
    var batches' := batches + [batch];
    forall j | 0 <= j < |done'|
      ensures Turn(done'[j], batches'[..j], batches'[j], entry, spec)
    {
      if j < |done| {
        assert batches'[..j] == batches[..j] && batches'[j] == batches[j] && done'[j] == done[j];
      } else {
        assert batches'[..j] == batches;
      }
    }
  }

  /** The work list is determined by the entry and the modules: two
      finished runs process the same files in the same order. */
  lemma {:induction false} WorkListUnique(p: seq<string>, b: seq<seq<string>>, q: seq<string>, c: seq<seq<string>>,
                                          entry: string, spec: string -> Record)
    requires WorkList(p, b, entry, spec) && WorkList(q, c, entry, spec)
    ensures p == q
  {
    var n := if |p| <= |q| then |p| else |q|;
    Complete(p, b, entry, spec);
    Complete(q, c, entry, spec);
    AgreeUpTo(p, [], b, q, [], c, entry, spec, n);
    if |p| <= |q| {
      NoTurnBeyond(p, b, q, c, entry, spec);
    } else {
      NoTurnBeyond(q, c, p, b, entry, spec);
    }
    assert p == p[..n] && q == q[..n];
  }

  lemma Complete(p: seq<string>, b: seq<seq<string>>, entry: string, spec: string -> Record)
    requires WorkList(p, b, entry, spec)
    ensures WorkListSoFar(p, [], b, entry, spec)
  {
    assert p + [] == p;
  }

  /** Two runs, finished or not, agree on their first `k` turns. */
  lemma {:induction false} AgreeUpTo(p: seq<string>, pq: seq<string>, b: seq<seq<string>>,
                                     q: seq<string>, qq: seq<string>, c: seq<seq<string>>,
                                     entry: string, spec: string -> Record, k: nat)
    requires WorkListSoFar(p, pq, b, entry, spec) && WorkListSoFar(q, qq, c, entry, spec)
    requires k <= |p| && k <= |q|
    ensures b[..k] == c[..k] && p[..k] == q[..k]
  {
    if k > 0 {
      AgreeUpTo(p, pq, b, q, qq, c, entry, spec, k - 1);
      SameTurn(p, pq, b, q, qq, c, entry, spec, k - 1);
      PrefixGrows(b, c, k);
      PrefixGrows(p, q, k);
    }
  }

  lemma PrefixGrows<T>(x: seq<T>, y: seq<T>, k: nat)
    requires 0 < k <= |x| && k <= |y|
    requires x[..k - 1] == y[..k - 1] && x[k - 1] == y[k - 1]
    ensures x[..k] == y[..k]
  {
    assert x[..k] == x[..k - 1] + [x[k - 1]];
    assert y[..k] == y[..k - 1] + [y[k - 1]];
  }

  /** Two runs that agree on their first `k` turns agree on the next one. */
  lemma SameTurn(p: seq<string>, pq: seq<string>, b: seq<seq<string>>,
                 q: seq<string>, qq: seq<string>, c: seq<seq<string>>,
                 entry: string, spec: string -> Record, k: nat)
    requires WorkListSoFar(p, pq, b, entry, spec) && WorkListSoFar(q, qq, c, entry, spec)
    requires k < |p| && k < |q| && b[..k] == c[..k]
    ensures p[k] == q[k] && b[k] == c[k]
  {
    TurnAt(p, b, entry, spec, k);
    TurnAt(q, c, entry, spec, k);
    FlattenPrefix(b, k);
    FlattenPrefix(c, k);
    assert p[k] == (p + pq)[k] == ([entry] + Flatten(b))[k] == ([entry] + Flatten(b[..k]))[k];
    assert q[k] == (q + qq)[k] == ([entry] + Flatten(c))[k] == ([entry] + Flatten(c[..k]))[k];
  }

  /** A finished run cannot be a strict beginning of another: once nothing
      waits, no further turn has a file to process. */
  lemma NoTurnBeyond(p: seq<string>, b: seq<seq<string>>, q: seq<string>, c: seq<seq<string>>,
                     entry: string, spec: string -> Record)
    requires WorkList(p, b, entry, spec) && WorkList(q, c, entry, spec)
    requires |p| <= |q| && b == c[..|p|]
    ensures |p| == |q|
  {
  }

  /** Nor can a run still under way have gone past a finished one. */
  lemma NoPartialBeyond(p: seq<string>, b: seq<seq<string>>, done: seq<string>, queue: seq<string>,
                        batches: seq<seq<string>>, entry: string, spec: string -> Record)
    requires WorkList(p, b, entry, spec) && WorkListSoFar(done, queue, batches, entry, spec)
    requires |p| <= |done| && b == batches[..|p|]
    ensures |p| == |done|
  {
  }

  /** A run still under way is a beginning of the finished run: what it
      has processed and what waits is what the finished run processes
      first, in the same order. */
  lemma {:induction false} WorkListSoFarWithin(done: seq<string>, queue: seq<string>, batches: seq<seq<string>>,
                                               p: seq<string>, b: seq<seq<string>>, entry: string, spec: string -> Record)
    requires WorkListSoFar(done, queue, batches, entry, spec) && WorkList(p, b, entry, spec)
    ensures done + queue <= p
  {
    var n := if |done| <= |p| then |done| else |p|;
    Complete(p, b, entry, spec);
    AgreeUpTo(done, queue, batches, p, [], b, entry, spec, n);
    if |p| <= |done| {
      assert b == b[..|p|];
      NoPartialBeyond(p, b, done, queue, batches, entry, spec);
    }
    assert batches == batches[..|done|] == b[..|done|];
    FlattenPrefix(b, |done|);
    PrefixAfter([entry], Flatten(batches), Flatten(b));
  }

  lemma PrefixAfter<T>(x: seq<T>, y: seq<T>, z: seq<T>)
    requires y <= z
    ensures x + y <= x + z
  {
    assert x + z == (x + y) + z[|y|..];
  }

  /** Only the entry and the files it requires, directly or through other
      processed files, are processed: each file after the entry is a
      dependency of a file processed before it. */
  lemma WorkListReached(p: seq<string>, b: seq<seq<string>>, entry: string, spec: string -> Record, k: nat)
    requires WorkList(p, b, entry, spec) && 0 < k < |p|
    ensures p[0] == entry
    ensures exists j :: 0 <= j < k && p[k] in FileNames(spec(p[j]).dependencies)
  {
    var j := QueuedBy(p, b, entry, k);
    TurnAt(p, b, entry, spec, j);
    assert p[k] in Unseen(FileNames(spec(p[j]).dependencies), [entry] + Flatten(b[..j]));
  }

  /** The turn `j` that queued the `k`th processed file; it comes before
      the file's own turn when each turn's file was queued before it. */
  lemma QueuedBy(p: seq<string>, b: seq<seq<string>>, entry: string, k: nat) returns (j: nat)
    requires p == [entry] + Flatten(b) && 0 < k < |p|
    ensures j < |b| && p[k] in b[j] && |Flatten(b[..j])| < k
  {
    j := FlattenLocate(b, k - 1);
    assert p[k] == Flatten(b)[k - 1];
  }

  /** An entry whose module requires nothing is the only file processed. */
  lemma WorkListAlone(p: seq<string>, b: seq<seq<string>>, entry: string, spec: string -> Record)
    requires WorkList(p, b, entry, spec)
    requires FileNames(spec(entry).dependencies) == []
    ensures p == [entry]
  {
    assert p[0] == entry;
    TurnAt(p, b, entry, spec, 0);
    if |p| > 1 {
      FlattenOne(b);
      TurnAt(p, b, entry, spec, 1);
    }
  }

  lemma TurnAt(p: seq<string>, b: seq<seq<string>>, entry: string, spec: string -> Record, j: int)
    requires Turns(p, b, entry, spec) && 0 <= j < |p|
    ensures j < 1 + |Flatten(b[..j])|
    ensures b[j] == Unseen(FileNames(spec(p[j]).dependencies), [entry] + Flatten(b[..j]))
  {
    assert Turn(p[j], b[..j], b[j], entry, spec);
  }

  lemma FlattenOne(b: seq<seq<string>>)
    requires b != []
    ensures Flatten(b[..1]) == b[0]
  {
    assert b[..1] == [] + [b[0]];
    FlattenSnoc([], b[0]);
  }

  /** A chain: the entry `a` requires only `b`, which requires only `c`,
      which requires nothing. The files are processed as `a`, `b`, `c`,
      so the modules come out as `c`, `b`, `a`. */
  lemma WorkListChain(p: seq<string>, bs: seq<seq<string>>, a: string, b: string, c: string, spec: string -> Record)
    requires WorkList(p, bs, a, spec)
    requires a != b && b != c && a != c
    requires FileNames(spec(a).dependencies) == [b]
    requires FileNames(spec(b).dependencies) == [c]
    requires FileNames(spec(c).dependencies) == []
    ensures p == [a, b, c]
  {
    var turns: seq<seq<string>> := [[b], [c], []];
    ChainTurns(a, b, c, spec);
    WorkListUnique(p, bs, [a, b, c], turns, a, spec);
  }

  /** The modules of a finished run whose entry requires nothing: the
      entry's module alone. */
  lemma DiscoveredAlone(modules: seq<ModuleRecord>, processed: seq<string>, batches: seq<seq<string>>,
                        entry: string, files: map<string, string>, spec: string -> Record)
    requires Gathered(modules, processed, [], files, spec) && WorkList(processed, batches, entry, spec)
    requires FileNames(spec(entry).dependencies) == []
    ensures |modules| == 1 && Snapshot(modules[0]) == spec(entry)
  {
    WorkListAlone(processed, batches, entry, spec);
  }

  /** The modules of a finished run over the chain `a` requires `b`
      requires `c`: those of `c`, `b` and `a`, in that order. */
  lemma DiscoveredChain(modules: seq<ModuleRecord>, processed: seq<string>, batches: seq<seq<string>>,
                        a: string, b: string, c: string, files: map<string, string>, spec: string -> Record)
    requires Gathered(modules, processed, [], files, spec) && WorkList(processed, batches, a, spec)
    requires a != b && b != c && a != c
    requires FileNames(spec(a).dependencies) == [b]
    requires FileNames(spec(b).dependencies) == [c]
    requires FileNames(spec(c).dependencies) == []
    ensures |modules| == 3
    ensures Snapshot(modules[0]) == spec(c) && Snapshot(modules[1]) == spec(b) && Snapshot(modules[2]) == spec(a)
  {
    WorkListChain(processed, batches, a, b, c, spec);
    assert processed[0] == a && processed[1] == b && processed[2] == c;
  }

  /** The entry `a` requires `b` and then `c`, `b` requires `c` as well,
      and `c` requires nothing: `c` is processed once, and the modules
      come out as `c`, `b`, `a`. */
  lemma DiscoveredShared(modules: seq<ModuleRecord>, processed: seq<string>, batches: seq<seq<string>>,
                         a: string, b: string, c: string, files: map<string, string>, spec: string -> Record)
    requires Gathered(modules, processed, [], files, spec) && WorkList(processed, batches, a, spec)
    requires a != b && b != c && a != c
    requires FileNames(spec(a).dependencies) == [b, c]
    requires FileNames(spec(b).dependencies) == [c]
    requires FileNames(spec(c).dependencies) == []
    ensures |modules| == 3
    ensures Snapshot(modules[0]) == spec(c) && Snapshot(modules[1]) == spec(b) && Snapshot(modules[2]) == spec(a)
  {
    SharedTurns(a, b, c, spec);
    WorkListUnique(processed, batches, [a, b, c], [[b, c], [], []], a, spec);
    assert processed[0] == a && processed[1] == b && processed[2] == c;
  }

  lemma SharedTurns(a: string, b: string, c: string, spec: string -> Record)
    requires a != b && b != c && a != c
    requires FileNames(spec(a).dependencies) == [b, c]
    requires FileNames(spec(b).dependencies) == [c]
    requires FileNames(spec(c).dependencies) == []
    ensures WorkList([a, b, c], [[b, c], [], []], a, spec)
  {
    SharedFlatten(b, c);
    SharedUnseen(a, b, c);
    assert Turn(a, [], [b, c], a, spec);
    TurnsSnoc([], [], a, [b, c], a, spec);
    assert Turn(b, [[b, c]], [], a, spec);
    TurnsSnoc([a], [[b, c]], b, [], a, spec);
    assert Turn(c, [[b, c], []], [], a, spec);
    TurnsSnoc([a, b], [[b, c], []], c, [], a, spec);
  }

  lemma SharedFlatten(b: string, c: string)
    ensures Flatten([]) == []
    ensures Flatten([[b, c]]) == [b, c]
    ensures Flatten([[b, c], []]) == [b, c]
    ensures Flatten([[b, c], [], []]) == [b, c]
    ensures [] + [[b, c]] == [[b, c]] && [[b, c]] + [[]] == [[b, c], []] && [[b, c], []] + [[]] == [[b, c], [], []]
  {
    FlattenSnoc([], [b, c]);
    assert [] + [[b, c]] == [[b, c]];
    FlattenSnoc([[b, c]], []);
    assert [[b, c]] + [[]] == [[b, c], []];
    FlattenSnoc([[b, c], []], []);
    assert [[b, c], []] + [[]] == [[b, c], [], []];
  }

  lemma SharedUnseen(a: string, b: string, c: string)
    requires a != b && b != c && a != c
    ensures Unseen([b, c], [a]) == [b, c] && [a] + [] == [a]
    ensures Unseen([c], [a] + [b, c]) == []
    ensures Unseen([], [a] + [b, c]) == []
    ensures [] + [a] == [a] && [a] + [b] == [a, b] && [a, b] + [c] == [a, b, c] && [a] + [b, c] == [a, b, c]
  {
    assert Unseen([c], [a]) == [c] by { assert [c][1..] == []; }
    assert Unseen([b, c], [a]) == [b, c] by { assert [b, c][1..] == [c]; }
    assert Unseen([c], [a] + [b, c]) == [] by {
      assert [c][1..] == [] && ([a] + [b, c])[2] == c;
    }
  }

  lemma ChainTurns(a: string, b: string, c: string, spec: string -> Record)
    requires a != b && b != c && a != c
    requires FileNames(spec(a).dependencies) == [b]
    requires FileNames(spec(b).dependencies) == [c]
    requires FileNames(spec(c).dependencies) == []
    ensures WorkList([a, b, c], [[b], [c], []], a, spec)
  {
    ChainFlatten(b, c);
    ChainUnseen(a, b, c);
    assert Turn(a, [], [b], a, spec);
    TurnsSnoc([], [], a, [b], a, spec);
    assert Turn(b, [[b]], [c], a, spec);
    TurnsSnoc([a], [[b]], b, [c], a, spec);
    assert Turn(c, [[b], [c]], [], a, spec);
    TurnsSnoc([a, b], [[b], [c]], c, [], a, spec);
  }

  lemma ChainFlatten(b: string, c: string)
    ensures Flatten([]) == []
    ensures Flatten([[b]]) == [b]
    ensures Flatten([[b], [c]]) == [b, c]
    ensures Flatten([[b], [c], []]) == [b, c]
    ensures [] + [[b]] == [[b]] && [[b]] + [[c]] == [[b], [c]] && [[b], [c]] + [[]] == [[b], [c], []]
  {
    FlattenSnoc([], [b]);
    assert [] + [[b]] == [[b]];
    FlattenSnoc([[b]], [c]);
    assert [[b]] + [[c]] == [[b], [c]];
    FlattenSnoc([[b], [c]], []);
    assert [[b], [c]] + [[]] == [[b], [c], []];
  }

  lemma ChainUnseen(a: string, b: string, c: string)
    requires a != b && b != c && a != c
    ensures Unseen([b], [a]) == [b]
    ensures Unseen([c], [a] + [b]) == [c]
    ensures Unseen([], [a] + [b, c]) == []
    ensures [] + [a] == [a] && [a] + [b] == [a, b] && [a, b] + [c] == [a, b, c]
  {
    assert Unseen([b], [a]) == [b] by { assert [b][1..] == []; }
    assert Unseen([c], [a] + [b]) == [c] by { assert [c][1..] == []; }
  }

  /** The entry is queued under the name it is given, but the files a module
      requires under their unified names. When the entry `e` requires `b`,
      which requires `a`, the unified name of the entry, and `a` requires
      `b` as the entry does, `a` is a name the work list has not seen: the
      entry file is processed a second time. */
  lemma WorkListRevisits(p: seq<string>, bs: seq<seq<string>>, e: string, a: string, b: string, spec: string -> Record)
    requires WorkList(p, bs, e, spec)
    requires e != a && e != b && a != b
    requires FileNames(spec(e).dependencies) == [b]
    requires FileNames(spec(b).dependencies) == [a]
    requires FileNames(spec(a).dependencies) == [b]
    ensures p == [e, b, a]
  {
    RevisitTurns(e, b, a, spec);
    WorkListUnique(p, bs, [e, b, a], [[b], [a], []], e, spec);
  }

  lemma RevisitTurns(e: string, b: string, a: string, spec: string -> Record)
    requires e != a && e != b && a != b
    requires FileNames(spec(e).dependencies) == [b]
    requires FileNames(spec(b).dependencies) == [a]
    requires FileNames(spec(a).dependencies) == [b]
    ensures WorkList([e, b, a], [[b], [a], []], e, spec)
  {
    ChainFlatten(b, a);
    ChainUnseen(e, b, a);
    assert Unseen([b], [e] + [b, a]) == [] by { assert [b][1..] == []; assert b in [e] + [b, a]; }
    assert Turn(e, [], [b], e, spec);
    TurnsSnoc([], [], e, [b], e, spec);
    assert Turn(b, [[b]], [a], e, spec);
    TurnsSnoc([e], [[b]], b, [a], e, spec);
    assert Turn(a, [[b], [a]], [], e, spec);
    TurnsSnoc([e, b], [[b], [a]], a, [], e, spec);
  }

  /** Two names of one file, with the same contents and the same unified
      name, give the same module. */
  lemma SameFileSameModule(x: string, y: string, files: map<string, string>, options: Options)
    requires x in files && y in files && files[x] == files[y]
    requires GetUnifiedFileName(x) == GetUnifiedFileName(y)
    ensures Transformations(files, options)(x) == Transformations(files, options)(y)
  {
  }

  /** `./a.js` and `a.js` are two names of the file `a.js`. */
  lemma DotSlashSpelling(s: string)
    requires FilesystemUtils.PlainName(s)
    ensures GetUnifiedFileName("./" + s + ".js") == GetUnifiedFileName(s + ".js") == s + ".js"
  {
    SameAsUnifyFileName("./" + s + ".js");
    SameAsUnifyFileName(s + ".js");
    FilesystemUtils.SpellingsOfOneFile(s);
  }

  /** An entry given as `./a.js` whose dependency `b.js` requires `a.js`
      back: `./a.js` and `a.js` name one file, which is read twice, and its
      module comes out twice, first and last. */
  lemma DiscoveredTwice(modules: seq<ModuleRecord>, processed: seq<string>, batches: seq<seq<string>>,
                        e: string, a: string, b: string, files: map<string, string>, options: Options)
    requires Gathered(modules, processed, [], files, Transformations(files, options))
    requires WorkList(processed, batches, e, Transformations(files, options))
    requires e != a && e != b && a != b
    requires e in files && a in files && files[e] == files[a] && GetUnifiedFileName(e) == GetUnifiedFileName(a)
    requires FileNames(Transformations(files, options)(e).dependencies) == [b]
    requires FileNames(Transformations(files, options)(b).dependencies) == [a]
    ensures processed == [e, b, a]
    ensures |modules| == 3 && Snapshot(modules[0]) == Snapshot(modules[2])
  {
    SameFileSameModule(e, a, files, options);
    GatheredTwice(modules, processed, batches, e, a, b, files, Transformations(files, options));
  }

  lemma GatheredTwice(modules: seq<ModuleRecord>, processed: seq<string>, batches: seq<seq<string>>,
                      e: string, a: string, b: string, files: map<string, string>, spec: string -> Record)
    requires Gathered(modules, processed, [], files, spec) && WorkList(processed, batches, e, spec)
    requires e != a && e != b && a != b && spec(a) == spec(e)
    requires FileNames(spec(e).dependencies) == [b]
    requires FileNames(spec(b).dependencies) == [a]
    ensures processed == [e, b, a]
    ensures |modules| == 3 && Snapshot(modules[0]) == Snapshot(modules[2])
  {
    WorkListRevisits(processed, batches, e, a, b, spec);
    assert processed[0] == e && processed[2] == a;
  }

  /** What the work list has gathered, and the turns that led there. */
  ghost predicate Progress(modules: seq<ModuleRecord>, done: seq<string>, queue: seq<string>, batches: seq<seq<string>>,
                     entry: string, files: map<string, string>, spec: string -> Record)
    reads modules
  {
    Gathered(modules, done, queue, files, spec) && WorkListSoFar(done, queue, batches, entry, spec)
  }

  /** One turn of `Discover` keeps its invariant and leaves fewer known
      files unprocessed. */
  lemma ProgressStep(modules: seq<ModuleRecord>, done: seq<string>, queue: seq<string>, batches: seq<seq<string>>,
                     m: ModuleRecord, entry: string, files: map<string, string>, spec: string -> Record)
    requires Progress(modules, done, queue, batches, entry, files, spec)
    requires queue != [] && queue[0] in files && Snapshot(m) == spec(queue[0])
    requires Distinct(FileNames(m.dependencies))
    ensures var unseen := Unseen(FileNames(m.dependencies), done + queue);
            Progress([m] + modules, done + [queue[0]], queue[1..] + unseen, batches + [unseen], entry, files, spec)
    ensures files.Keys - (set n | n in done + [queue[0]]) < files.Keys - (set n | n in done)
  {
    assert m.dependencies == spec(queue[0]).dependencies;
    GatherStep(modules, done, queue, m, files, spec);
    WorkListStep(done, queue, batches, entry, spec);
    FewerLeft(files.Keys, done, queue);
  }

  /** Nothing left waiting: the work list is finished. */
  lemma Finished(modules: seq<ModuleRecord>, done: seq<string>, batches: seq<seq<string>>,
                 entry: string, files: map<string, string>, spec: string -> Record)
    requires Progress(modules, done, [], batches, entry, files, spec)
    ensures Gathered(modules, done, [], files, spec) && WorkList(done, batches, entry, spec)
  {
    assert done + [] == done;
  }

  /** The files `transformSingleFile` turns into a module: a known file,
      and no `require` call when the prefix holds a dot. */
  predicate Transformable(name: string, files: map<string, string>, options: Options)
  {
    name in files && !('.' in options.prefix && HasRequire(files[name]))
  }

  /** Every file of `names` is transformable. */
  ghost predicate AllTransformable(names: seq<string>, files: map<string, string>, options: Options)
  {
    forall i :: 0 <= i < |names| ==> Transformable(names[i], files, options)
  }

  /** The work list of `transform`: the entry file first, then every file
      the processed modules require that is neither processed nor waiting,
      in order of discovery; each module is put in front of the list. The
      first failing file ends the run, with the files processed so far and
      the files still waiting, the failing one first. The run succeeds
      exactly when every file of the finished work list is transformable. */
  method Discover(entry: string, files: map<string, string>, options: Options)
    returns (r: Result<seq<ModuleRecord>>, ghost processed: seq<string>, ghost pending: seq<string>,
             ghost batches: seq<seq<string>>)
    ensures entry !in files ==> r == Err(ReadFailed(entry))
    ensures entry in files && '.' in options.prefix && HasRequire(files[entry]) ==> r == Err(UnsafeObjectName)
    ensures r.Err? ==> (r.error.ReadFailed? && r.error.fileName !in files) || (r.error == UnsafeObjectName && '.' in options.prefix)
    ensures r.Ok? ==> Gathered(r.value, processed, [], files, Transformations(files, options))
    ensures r.Ok? ==> WorkList(processed, batches, entry, Transformations(files, options))
    ensures r.Ok? ==> processed != [] && processed[0] == entry && pending == []
    ensures AllTransformable(processed, files, options)
    ensures r.Err? ==> StoppedAt(r.error, processed, pending, batches, entry, files, options)
    ensures r.Ok? <==> Succeeds(entry, files, options)
  {
    var modules: seq<ModuleRecord> := [];
    var done: seq<string> := [];
    var queue := [entry];
    ghost var spec := Transformations(files, options);
    batches := [];
    while queue != []
      invariant Progress(modules, done, queue, batches, entry, files, spec)
      invariant AllTransformable(done, files, options)
      invariant done == [] ==> queue == [entry]
      invariant done != [] ==> done[0] == entry
      decreases files.Keys - (set n | n in done), |queue|
    {
      var current := queue[0];
      var t := TransformSingleFile(current, files, options);
      if t.Err? {
        Stuck(t.error, done, queue, batches, entry, files, options);
        return Err(t.error), done, queue, batches;
      }
      var m := t.value;
      var unseen := Unseen(FileNames(m.dependencies), done + queue);
      ProgressStep(modules, done, queue, batches, m, entry, files, spec);
      TransformableSnoc(done, current, files, options);
      modules := [m] + modules;
      done := done + [current];
      queue := queue[1..] + unseen;
      batches := batches + [unseen];
    }
    Finished(modules, done, batches, entry, files, spec);
    Succeeded(done, batches, entry, files, options);
    return Ok(modules), done, [], batches;
  }

  /** One more transformable file processed. */
  lemma TransformableSnoc(done: seq<string>, name: string, files: map<string, string>, options: Options)
    requires AllTransformable(done, files, options) && Transformable(name, files, options)
    ensures AllTransformable(done + [name], files, options)
  {
    assert forall i :: 0 <= i < |done| ==> (done + [name])[i] == done[i];
  }

  /** A finished work list of transformable files witnesses success. */
  lemma Succeeded(p: seq<string>, b: seq<seq<string>>, entry: string, files: map<string, string>, options: Options)
    requires WorkList(p, b, entry, Transformations(files, options)) && AllTransformable(p, files, options)
    ensures Succeeds(entry, files, options)
  {
  }

  /** The run stopped at the first waiting file, `pending[0]`, which is not
      transformable: after the turns `batches` for the files `processed`,
      with `error` the failure `transformSingleFile` reports for it. */
  ghost predicate StoppedAt(error: Error, processed: seq<string>, pending: seq<string>, batches: seq<seq<string>>,
                            entry: string, files: map<string, string>, options: Options)
  {
    WorkListSoFar(processed, pending, batches, entry, Transformations(files, options))
    && pending != [] && !Transformable(pending[0], files, options)
    && (pending[0] !in files ==> error == ReadFailed(pending[0]))
    && (pending[0] in files ==> error == UnsafeObjectName)
  }

  /** The finished work list from `entry` consists of transformable files. */
  ghost predicate Succeeds(entry: string, files: map<string, string>, options: Options)
  {
    exists p, b :: WorkList(p, b, entry, Transformations(files, options)) && AllTransformable(p, files, options)
  }

  /** A run held up at a file that is not transformable has no finished
      work list made of transformable files. */
  lemma Stuck(error: Error, done: seq<string>, queue: seq<string>, batches: seq<seq<string>>,
              entry: string, files: map<string, string>, options: Options)
    requires WorkListSoFar(done, queue, batches, entry, Transformations(files, options))
    requires queue != [] && !Transformable(queue[0], files, options)
    requires queue[0] !in files ==> error == ReadFailed(queue[0])
    requires queue[0] in files ==> error == UnsafeObjectName
    ensures StoppedAt(error, done, queue, batches, entry, files, options)
    ensures !Succeeds(entry, files, options)
  {
    forall p, b | WorkList(p, b, entry, Transformations(files, options))
      ensures !AllTransformable(p, files, options)
    {
      WorkListSoFarWithin(done, queue, batches, p, b, entry, Transformations(files, options));
      assert p[|done|] == (done + queue)[|done|] == queue[0];
    }
  }

  // ---------------------------------------------------------------------
  // The output.

  /** The code of each module, in order. */
  function Codes(modules: seq<ModuleRecord>): (r: seq<string>)
    reads modules
    ensures |r| == |modules|
    ensures forall i :: 0 <= i < |modules| ==> r[i] == modules[i].code
  {
    if modules == [] then [] else [modules[0].code] + Codes(modules[1..])
  }

  /** `combineModulesToSingleScript`: the `reduce` from the left that appends
      each module's code and a line break. */
  function Combine(codes: seq<string>): (r: string)
    ensures codes == [] ==> r == ""
    ensures |r| >= |codes|
    ensures codes != [] ==> r[|r| - 1] == '\n'
  {
    if codes == [] then ""
    else Combine(codes[..|codes| - 1]) + codes[|codes| - 1] + "\n"
  }

  lemma CombineSnoc(codes: seq<string>, c: string)
    ensures Combine(codes + [c]) == Combine(codes) + c + "\n"
  {
    assert (codes + [c])[..|codes|] == codes;
  }

  /** Combining maps list concatenation to text concatenation. */
  lemma {:induction false} CombineAppend(a: seq<string>, b: seq<string>)
    ensures Combine(a + b) == Combine(a) + Combine(b)
    decreases |b|
  {
    if b == [] {
      assert a + b == a;
    } else {
      var b' := b[..|b| - 1];
      var c := b[|b| - 1];
      assert a + b == (a + b') + [c];
      assert b == b' + [c];
      CombineAppend(a, b');
      CombineSnoc(a + b', c);
      CombineSnoc(b', c);
    }
  }

  /** The older generation joins modules exactly as the newer one does. */
  lemma {:induction false} SameAsGenerateOutput(codes: seq<string>, modules: seq<GenerateOutput.Module>)
    requires |codes| == |modules|
    requires forall i :: 0 <= i < |codes| ==> codes[i] == modules[i].code
    ensures Combine(codes) == GenerateOutput.Combine(modules)
    decreases |codes|
  {
    if codes != [] {
      SameAsGenerateOutput(codes[..|codes| - 1], modules[..|modules| - 1]);
    }
  }

  /** `wrapScriptInFunctionExpression`. */
  function WrapScript(code: string): (r: string)
    ensures |r| == |ScriptHead| + |code| + |ScriptTail|
    ensures r[..|ScriptHead|] == ScriptHead
    ensures r[|ScriptHead|..|ScriptHead| + |code|] == code
    ensures r[|ScriptHead| + |code|..] == ScriptTail
  {
    var r := ScriptHead + code + ScriptTail;
    assert r[..|ScriptHead|] == ScriptHead;
    assert r[|ScriptHead|..|ScriptHead| + |code|] == code;
    r
  }

  /** The wrapper taken off again, if `text` has the shape `WrapScript` gives. */
  function UnwrapScript(text: string): Option<string>
  {
    var h := |ScriptHead|;
    var t := |ScriptTail|;
    if |text| >= h + t && text[..h] == ScriptHead && text[|text| - t..] == ScriptTail
    then Some(text[h..|text| - t])
    else None
  }

  /** Wrapping is undone by `UnwrapScript`, which accepts wrapped scripts only. */
  lemma {:induction false} UnwrapScriptInverts(code: string, text: string)
    ensures UnwrapScript(WrapScript(code)) == Some(code)
    ensures UnwrapScript(text) == Some(code) ==> WrapScript(code) == text
  {
    var w := WrapScript(code);
    assert w[|w| - |ScriptTail|..] == ScriptTail;
    if UnwrapScript(text) == Some(code) {
      var h := |ScriptHead|;
      var t := |ScriptTail|;
      assert text == text[..h] + text[h..|text| - t] + text[|text| - t..];
    }
  }

  /** `prepareOutput` without watching and writing: the module list, or the
      combined script, wrapped on request. */
  function PrepareOutput(modules: seq<ModuleRecord>, options: Options): (r: Output<ModuleRecord>)
    reads modules
    ensures !options.combine ==> r == ModuleList(modules)
    ensures options.combine ==> r.Script?
    ensures options.combine && !options.iife ==> r.text == Combine(Codes(modules))
    ensures options.combine && options.iife ==> UnwrapScript(r.text) == Some(Combine(Codes(modules)))
  {
    if !options.combine then ModuleList(modules)
    else
      var result := Combine(Codes(modules));
      if options.iife then
        UnwrapScriptInverts(result, "");
        Script(WrapScript(result))
      else Script(result)
  }

  /** The options `transform` works with: the defaults added, and the base
      path prepared. */
  function PrepareOptions(given: Option<RawOptions>): (o: Options)
    ensures var d := AddDefaultOptions(given);
            o.prefix == d.prefix && o.combine == d.combine && o.iife == d.iife
            && o.basePath == PrepareBasePath(d.basePath)
  {
    var d := AddDefaultOptions(given);
    d.(basePath := PrepareBasePath(d.basePath))
  }

  /** `transform`: the work list from the entry file, then the output. */
  method Transform(entry: string, files: map<string, string>, given: Option<RawOptions>)
    returns (r: Result<Output<ModuleRecord>>, ghost modules: seq<ModuleRecord>, ghost processed: seq<string>,
             ghost pending: seq<string>, ghost batches: seq<seq<string>>)
    ensures entry !in files ==> r == Err(ReadFailed(entry))
    ensures entry in files && '.' in PrepareOptions(given).prefix && HasRequire(files[entry]) ==> r == Err(UnsafeObjectName)
    ensures r.Err? ==> (r.error.ReadFailed? && r.error.fileName !in files)
                       || (r.error == UnsafeObjectName && '.' in PrepareOptions(given).prefix)
    ensures r.Ok? ==> Gathered(modules, processed, [], files, Transformations(files, PrepareOptions(given)))
                      && processed != [] && processed[0] == entry
    ensures r.Ok? ==> WorkList(processed, batches, entry, Transformations(files, PrepareOptions(given)))
    ensures r.Ok? ==> r.value == PrepareOutput(modules, PrepareOptions(given)) && pending == []
    ensures AllTransformable(processed, files, PrepareOptions(given))
    ensures r.Err? ==> StoppedAt(r.error, processed, pending, batches, entry, files, PrepareOptions(given))
    ensures r.Ok? <==> Succeeds(entry, files, PrepareOptions(given))
  {
    var options := PrepareOptions(given);
    var found;
    found, processed, pending, batches := Discover(entry, files, options);
    if found.Err? {
      return Err(found.error), [], processed, pending, batches;
    }
    var gathered := found.value;
    return Ok(PrepareOutput(gathered, options)), gathered, processed, pending, batches;
  }
}
