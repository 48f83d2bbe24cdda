/** `src/moduleFactory.js`: the module record of the newer generation,
    built from a file name, its source text and the run's options. */
module ModuleFactory {
  import opened Common
  import opened JsText
  import NodePath
  import FilesystemUtils

  /** The options `createModule` reads. `basePath` is `""` when it is unset
      (any falsy value); `fileName` is the entry file the run started from. */
  datatype Options = Options(fileName: Option<string>, basePath: string, prefix: string)

  /** A module record. `createModule` leaves `dependencies` unset; the
      records the sorter works on carry the dependency records found for
      them. */
  datatype Module = Module(
    fileName: string,
    moduleName: string,
    objectName: string,
    code: string,
    main: bool,
    dependencies: seq<Module>)

  /** The name with a leading base path removed, when one is set and the name
      starts with it. */
  function WithoutBasePath(fileName: string, basePath: string): (r: string)
    ensures basePath != [] && basePath <= fileName ==> basePath + r == fileName
    ensures !(basePath != [] && basePath <= fileName) ==> r == fileName
  {
    if basePath != [] && basePath <= fileName then fileName[|basePath|..] else fileName
  }

  /** `getModuleName`: the file name without the base path in front and
      without its extension at the end. */
  function GetModuleName(fileName: string, basePath: string): (r: string)
    ensures r <= WithoutBasePath(fileName, basePath)
    ensures |WithoutBasePath(fileName, basePath)| - |r| == |NodePath.ExtName(WithoutBasePath(fileName, basePath))|
    ensures basePath != [] && basePath <= fileName ==> basePath + r <= fileName
  {
    FilesystemUtils.WithoutFileExtension(WithoutBasePath(fileName, basePath))
  }

  /** What a module-name character becomes in an object name. */
  function SafeChar(c: char): char
  {
    if c == '/' then '_' else if c == '.' || c == '-' then '$' else c
  }

  /** The module name with every character passed through `SafeChar`. */
  function MapSafe(s: string): (r: string)
    ensures |r| == |s|
    ensures forall i :: 0 <= i < |s| ==> r[i] == SafeChar(s[i])
  {
    if s == [] then [] else [SafeChar(s[0])] + MapSafe(s[1..])
  }

  /** `getSafeObjectName`: the prefix followed by the module name, each `/`
      turned into `_` and each `.` and `-` into `$`. */
  function GetSafeObjectName(moduleName: string, prefix: string): (o: string)
    ensures |o| == |prefix| + |moduleName|
    ensures o[..|prefix|] == prefix
    ensures forall i :: 0 <= i < |moduleName| ==> o[|prefix| + i] == SafeChar(moduleName[i])
    ensures '/' !in o[|prefix|..] && '.' !in o[|prefix|..] && '-' !in o[|prefix|..]
  {
    var o := prefix + ReplaceChar(ReplaceChar(ReplaceChar(moduleName, '/', '_'), '.', '$'), '-', '$');
    assert forall i :: 0 <= i < |moduleName| ==> o[|prefix|..][i] == o[|prefix| + i];
    o
  }

  /** `createModule`. */
  function CreateModule(fileName: string, code: Option<string>, options: Options): (m: Module)
    ensures m.fileName == FilesystemUtils.UnifyFileName(fileName) && '\\' !in m.fileName
    ensures m.moduleName == GetModuleName(m.fileName, options.basePath)
    ensures m.objectName == GetSafeObjectName(m.moduleName, options.prefix)
    ensures |m.objectName| == |options.prefix| + |m.moduleName|
    ensures m.code == [] <==> code == None || code == Some([])
    ensures code.Some? && code.value != [] ==> m.code == code.value + "\n"
    ensures m.main <==> options.fileName == Some(fileName)
    ensures m.dependencies == []
  {
    var unified := FilesystemUtils.UnifyFileName(fileName);
    var moduleName := GetModuleName(unified, options.basePath);
    Module(
      unified,
      moduleName,
      GetSafeObjectName(moduleName, options.prefix),
      if code.Some? && code.value != [] then code.value + "\n" else "",
      options.fileName == Some(fileName),
      [])
  }

  /** The prefix reaches the object name only: two runs that differ in their
      prefix give a module the same file name, module name, code and flag. */
  lemma {:induction false} PrefixOnlyInObjectName(fileName: string, code: Option<string>, options: Options, prefix: string)
    ensures var m := CreateModule(fileName, code, options);
            var n := CreateModule(fileName, code, options.(prefix := prefix));
            m.(objectName := n.objectName) == n
            && m.objectName[|options.prefix|..] == n.objectName[|prefix|..]
  {
    var m := CreateModule(fileName, code, options);
    var n := CreateModule(fileName, code, options.(prefix := prefix));
    var a := m.objectName[|options.prefix|..];
    var b := n.objectName[|prefix|..];
    assert |a| == |b| == |m.moduleName|;
    forall i | 0 <= i < |a|
      ensures a[i] == b[i]
    {
      assert a[i] == m.objectName[|options.prefix| + i];
      assert b[i] == n.objectName[|prefix| + i];
    }
  }

  /** Two module names give the same object name exactly when they have the
      same length and agree character by character up to `SafeChar`, so
      names that differ only in `/` against `_` or in `.` against `-` and
      `$` collide. */
  lemma {:induction false} SameObjectName(a: string, b: string, prefix: string)
    ensures GetSafeObjectName(a, prefix) == GetSafeObjectName(b, prefix)
            <==> |a| == |b| && forall i :: 0 <= i < |a| ==> SafeChar(a[i]) == SafeChar(b[i])
  {
    var x := GetSafeObjectName(a, prefix);
    var y := GetSafeObjectName(b, prefix);
    if x == y {
      forall i | 0 <= i < |a|
        ensures SafeChar(a[i]) == SafeChar(b[i])
      {
        assert x[|prefix| + i] == y[|prefix| + i];
      }
    }
    if |a| == |b| && forall i :: 0 <= i < |a| ==> SafeChar(a[i]) == SafeChar(b[i]) {
      assert |x| == |y|;
      forall k | 0 <= k < |x|
        ensures x[k] == y[k]
      {
        if k < |prefix| {
          assert x[k] == x[..|prefix|][k] && y[k] == y[..|prefix|][k];
        } else {
          assert x[|prefix| + (k - |prefix|)] == y[|prefix| + (k - |prefix|)];
        }
      }
    }
  }

  /** The two `replace` passes act on each character on its own. */
  lemma SafeNameMapsEachChar(moduleName: string, prefix: string)
    ensures GetSafeObjectName(moduleName, prefix) == prefix + MapSafe(moduleName)
  {
    var o := GetSafeObjectName(moduleName, prefix);
    var e := prefix + MapSafe(moduleName);
    forall k | 0 <= k < |o|
      ensures o[k] == e[k]
    {
      if k < |prefix| {
        assert o[k] == o[..|prefix|][k];
      } else {
        assert o[|prefix| + (k - |prefix|)] == SafeChar(moduleName[k - |prefix|]);
      }
    }
  }

  /** Two module names that differ in one character share their object
      name when `SafeChar` maps both characters alike. */
  lemma {:induction false} SameSafeCharCollides(a: string, b: string, c: char, d: char, prefix: string)
    requires SafeChar(c) == SafeChar(d)
    ensures GetSafeObjectName(a + [c] + b, prefix) == GetSafeObjectName(a + [d] + b, prefix)
  {
    var x := a + [c] + b;
    var y := a + [d] + b;
    forall i | 0 <= i < |x|
      ensures SafeChar(x[i]) == SafeChar(y[i])
    {
      if i < |a| {
        assert x[i] == a[i] == y[i];
      } else if i > |a| {
        assert x[i] == b[i - |a| - 1] == y[i];
      }
    }
    SameObjectName(x, y, prefix);
  }

  /** `path/to/a` and `path_to/a` share the object name `path_to_a`: a
      folder separator and an underscore cannot be told apart. */
  lemma NestedNamesCollide(a: string, b: string, prefix: string)
    ensures GetSafeObjectName(a + "/" + b, prefix) == GetSafeObjectName(a + "_" + b, prefix)
  {
    SameSafeCharCollides(a, b, '/', '_', prefix);
  }

  /** `foo.bar` and `foo-bar` both become `foo$bar`. */
  lemma DotAndHyphenCollide(a: string, b: string, prefix: string)
    ensures GetSafeObjectName(a + "." + b, prefix) == GetSafeObjectName(a + "-" + b, prefix)
  {
    SameSafeCharCollides(a, b, '.', '-', prefix);
  }

  /** The entry file `foo.bar.js` is the main module `foo.bar` with the
      object name `foo$bar` and empty code; and so for every settled name. */
  lemma {:induction false} EntryModule(s: string)
    requires FilesystemUtils.Settled(s)
    ensures var m := CreateModule(s + ".js", Some(""), Options(Some(s + ".js"), "", ""));
            m.fileName == s + ".js" && m.moduleName == s && m.objectName == MapSafe(s)
            && m.code == "" && m.main
  {
    FilesystemUtils.UnifiedJsName(s);
    FilesystemUtils.DropJsExtension(s);
    SafeNameMapsEachChar(s, "");
  }

  /** With the base path `path/to/`, the file `path/to/a.js` is the module
      `a`; and so for every base path and name. */
  lemma {:induction false} ModuleNameBelowBasePath(base: string, name: string)
    requires base != []
    requires name != [] && name[|name| - 1] != '/'
    ensures GetModuleName(base + name + ".js", base) == name
  {
    var f := base + name + ".js";
    assert base <= f && f[|base|..] == name + ".js";
    FilesystemUtils.DropJsExtension(name);
  }
}
