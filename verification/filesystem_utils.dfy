/** The pure path helpers of `src/filesystemUtils.js`; its reading, writing
    and watching of files are not part of this model. */
module FilesystemUtils {
  import opened JsText
  import NodePath

  /** `withoutFileExtension`: the name with its extension cut off the end. */
  function WithoutFileExtension(fileName: string): (r: string)
    ensures r <= fileName
    ensures |fileName| - |r| == |NodePath.ExtName(fileName)|
    ensures NodePath.ExtName(fileName) == [] ==> r == fileName
    ensures (fileName == [] || fileName[|fileName| - 1] != '/') ==> r + NodePath.ExtName(fileName) == fileName
  {
    NodePath.SplitAtExtName(fileName);
    fileName[..|fileName| - |NodePath.ExtName(fileName)|]
  }

  /** A name ending in `.js` loses exactly those three characters. */
  lemma {:induction false} DropJsExtension(s: string)
    requires s != [] && s[|s| - 1] != '/'
    ensures WithoutFileExtension(s + ".js") == s
  {
    NodePath.ExtNameOfJsSuffix(s);
    assert (s + ".js")[..|s|] == s;
  }

  /** `unifySlashes`: every backslash becomes a slash, nothing else changes. */
  function UnifySlashes(input: string): (r: string)
    ensures |r| == |input|
    ensures '\\' !in r
    ensures forall i :: 0 <= i < |input| && input[i] != '\\' ==> r[i] == input[i]
  {
    ReplaceChar(input, '\\', '/')
  }

  /** The name `unifyFileName` and `unifyPath` work on: slashes unified and
      one leading `./` or `/` removed. */
  function Unprefixed(name: string): (s: string)
    ensures '\\' !in s
    ensures |s| <= |name|
  {
    var u := UnifySlashes(name);
    var s := StripCurrentDirectory(u);
    assert forall c :: c in s ==> c in u by {
      if s == u {} else if "/" + s == u { assert u[1..] == s; } else { assert u[2..] == s; }
    }
    s
  }

  /** `unifyPath`: a directory name that always ends in a slash. */
  function UnifyPath(path: string): (r: string)
    ensures r != [] && r[|r| - 1] == '/'
    ensures '\\' !in r
    ensures r == Unprefixed(path) || r == Unprefixed(path) + "/"
    ensures r == Unprefixed(path) <==> (Unprefixed(path) != [] && Unprefixed(path)[|Unprefixed(path)| - 1] == '/')
  {
    var output := Unprefixed(path);
    if output != [] && output[|output| - 1] == '/' then output else output + "/"
  }

  /** `unifyFileName`: slashes unified, one leading `./` or `/` removed, and
      `.js` appended exactly when the name has no extension. */
  function UnifyFileName(fileName: string): (r: string)
    ensures '\\' !in r
    ensures NodePath.ExtName(Unprefixed(fileName)) == [] ==> r == Unprefixed(fileName) + ".js"
    ensures NodePath.ExtName(Unprefixed(fileName)) != [] ==> r == Unprefixed(fileName)
  {
    var s := Unprefixed(fileName);
    s + (if NodePath.ExtName(s) == [] then ".js" else "")
  }

  /** Appending the default extension is undone by removing the extension:
      the module name of a unified file name is that of the name itself. */
  lemma {:induction false} ExtensionRoundTrip(fileName: string)
    requires Unprefixed(fileName) != [] && Unprefixed(fileName)[|Unprefixed(fileName)| - 1] != '/'
    ensures WithoutFileExtension(UnifyFileName(fileName)) == WithoutFileExtension(Unprefixed(fileName))
  {
    var s := Unprefixed(fileName);
    if NodePath.ExtName(s) == [] {
      NodePath.ExtNameOfJsSuffix(s);
      assert UnifyFileName(fileName) == s + ".js";
    }
  }

  /** A name without backslashes only loses its leading `./` or `/`. */
  lemma UnprefixedWithoutBackslash(name: string)
    requires '\\' !in name
    ensures Unprefixed(name) == StripCurrentDirectory(name)
  {
    ReplaceAbsentChar(name, '\\', '/');
  }

  /** A name that unifies to itself once it ends in `.js`: not empty, no
      backslash, no leading `.` or `/`, and no trailing `/`. */
  predicate Settled(s: string)
  {
    s != [] && s[0] != '/' && s[0] != '.' && '\\' !in s && s[|s| - 1] != '/'
  }

  /** A name of one segment without extension: not empty, and without
      slash, backslash or dot. */
  predicate PlainName(s: string)
  {
    s != [] && '/' !in s && '\\' !in s && '.' !in s
  }

  /** A settled name with `.js` is already unified. */
  lemma {:induction false} UnifiedJsName(s: string)
    requires Settled(s)
    ensures UnifyFileName(s + ".js") == s + ".js"
  {
    var p := s + ".js";
    UnprefixedWithoutBackslash(p);
    assert p[0] == s[0];
    NodePath.ExtNameOfJsSuffix(s);
  }

  /** A leading `./` is dropped. */
  lemma {:induction false} UnifiedDotSlashJsName(s: string)
    requires s != [] && '\\' !in s && s[|s| - 1] != '/'
    ensures UnifyFileName("./" + s + ".js") == s + ".js"
  {
    var p := "./" + (s + ".js");
    assert p == "./" + s + ".js";
    UnprefixedWithoutBackslash(p);
    DotSlashPrefix(s + ".js");
    NodePath.ExtNameOfJsSuffix(s);
  }

  /** A plain name gets `.js`. */
  lemma {:induction false} UnifiedPlainName(s: string)
    requires PlainName(s)
    ensures UnifyFileName(s) == s + ".js"
  {
    UnprefixedWithoutBackslash(s);
    assert s[0] in s;
    NodePath.ExtNameOfDotlessName(s);
  }

  /** `./a.js`, `a.js` and `a` all name the file `a.js`, and so for every
      plain name in place of `a`. */
  lemma SpellingsOfOneFile(s: string)
    requires PlainName(s)
    ensures UnifyFileName("./" + s + ".js") == s + ".js"
    ensures UnifyFileName(s + ".js") == s + ".js"
    ensures UnifyFileName(s) == s + ".js"
  {
    assert s[0] in s && s[|s| - 1] in s;
    UnifiedDotSlashJsName(s);
    UnifiedJsName(s);
    UnifiedPlainName(s);
  }

  /** Unifying a file name is not idempotent: a name that starts with two
      `./` loses only one per call, so `././a` becomes `./a.js` and only a
      second call gives `a.js`. */
  lemma {:induction false} UnifyFileNameNotIdempotent(s: string)
    requires PlainName(s)
    ensures UnifyFileName("././" + s) == "./" + s + ".js"
    ensures UnifyFileName(UnifyFileName("././" + s)) == s + ".js"
    ensures UnifyFileName(UnifyFileName("././" + s)) != UnifyFileName("././" + s)
  {
    UnifiedDoubleDotSlash(s);
    assert s[|s| - 1] in s;
    UnifiedDotSlashJsName(s);
    assert |s + ".js"| != |"./" + s + ".js"|;
  }

  lemma UnifiedDoubleDotSlash(s: string)
    requires PlainName(s)
    ensures UnifyFileName("././" + s) == "./" + s + ".js"
  {
    var p := "./" + ("./" + s);
    assert p == "././" + s;
    UnprefixedWithoutBackslash(p);
    DotSlashPrefix("./" + s);
    NodePath.ExtNameOfDotlessSegment(".", s);
    assert "." + "/" + s == "./" + s;
  }

  /** A text behind `./` starts with `./` and loses exactly it. */
  lemma DotSlashPrefix(x: string)
    ensures "./" <= "./" + x && ("./" + x)[2..] == x
  {
  }

  /** Backslashes become slashes: `path/to\a.js` is `path/to/a.js`, and so
      for every settled folder and file name. */
  lemma {:induction false} BackslashesUnified(dir: string, name: string)
    requires dir != [] && dir[0] != '/' && dir[0] != '.' && '\\' !in dir
    requires name != [] && '/' !in name && '\\' !in name
    ensures UnifyFileName(dir + "\\" + name + ".js") == dir + "/" + name + ".js"
  {
    var p := dir + "\\" + name + ".js";
    var u := dir + "/" + name + ".js";
    ReplaceSingleChar(dir, name + ".js", '\\', '/');
    assert dir + ['\\'] + (name + ".js") == p;
    assert dir + ['/'] + (name + ".js") == u;
    assert u[0] == dir[0];
    assert StripCurrentDirectory(u) == u;
    assert Unprefixed(p) == u;
    assert name[|name| - 1] in name;
    NodePath.ExtNameOfJsSuffix(dir + "/" + name);
  }
}
