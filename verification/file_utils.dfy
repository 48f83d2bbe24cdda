/** The one pure helper of `src/fileUtils.js`; its reading, writing and
    watching of files are not part of this model. */
module FileUtils {
  import NodePath

  /** `withoutFileExtension`: the name with its extension cut off the end. */
  function WithoutFileExtension(fileName: string): (r: string)
    ensures r <= fileName
    ensures |fileName| - |r| == |NodePath.ExtName(fileName)|
    ensures NodePath.ExtName(fileName) == [] ==> r == fileName
    ensures (fileName == [] || fileName[|fileName| - 1] != '/') ==> r + NodePath.ExtName(fileName) == fileName
  {
    NodePath.SplitAtExtName(fileName);
    fileName[..|fileName| - |NodePath.ExtName(fileName)|]
  }

  /** Only the last extension goes: what is cut off holds exactly one dot, at
      its start, so every earlier dot of the name is kept. */
  lemma OnlyLastExtensionRemoved(fileName: string)
    requires fileName != [] && fileName[|fileName| - 1] != '/'
    requires NodePath.ExtName(fileName) != []
    ensures var r := WithoutFileExtension(fileName);
            fileName[|r|] == '.' && '.' !in fileName[|r| + 1..]
  {
    var r := WithoutFileExtension(fileName);
    DotStartsTail(fileName, r, NodePath.ExtName(fileName));
  }

  lemma DotStartsTail(s: string, r: string, e: string)
    requires s == r + e && e != [] && e[0] == '.' && '.' !in e[1..]
    ensures s[|r|] == '.' && '.' !in s[|r| + 1..]
  {
    assert s[|r| + 1..] == e[1..];
  }

  /** A name ending in `.js` after a non-empty last segment loses exactly
      `.js`; earlier dots, as in `foo.bar.js`, stay. */
  lemma {:induction false} DropJsExtension(s: string)
    requires s != [] && s[|s| - 1] != '/'
    ensures WithoutFileExtension(s + ".js") == s
  {
    NodePath.ExtNameOfJsSuffix(s);
    assert (s + ".js")[..|s|] == s;
  }
}
