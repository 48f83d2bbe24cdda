/** The POSIX behaviour of Node's `path.extname`, `path.dirname` and
    `path.join`, which the bundler uses to name files and resolve
    `require` specifiers. These follow Node's algorithms for `/`-separated
    paths; Windows drive letters and `\` separators are not interpreted. */
module NodePath {

  /** Index of the last occurrence of `c` in `s`, or -1 when there is none. */
  function LastIndexOf(s: string, c: char): (r: int)
    ensures -1 <= r < |s|
    ensures r >= 0 ==> s[r] == c
    ensures forall k :: r < k < |s| ==> s[k] != c
  {
    if s == [] then -1
    else if s[|s| - 1] == c then |s| - 1
    else LastIndexOf(s[..|s| - 1], c)
  }

  /** The path without its trailing slashes (empty when it is all slashes). */
  function TrimTrailingSlashes(p: string): (r: string)
    ensures r <= p
    ensures r == [] || r[|r| - 1] != '/'
    ensures forall k :: |r| <= k < |p| ==> p[k] == '/'
  {
    if p != [] && p[|p| - 1] == '/' then TrimTrailingSlashes(p[..|p| - 1]) else p
  }

  /** The last segment of the path, trailing slashes ignored. */
  function Basename(p: string): (b: string)
    ensures '/' !in b
    ensures |b| <= |TrimTrailingSlashes(p)|
    ensures b == TrimTrailingSlashes(p)[|TrimTrailingSlashes(p)| - |b|..]
  {
    var t := TrimTrailingSlashes(p);
    t[LastIndexOf(t, '/') + 1..]
  }

  /** `path.extname`: from the last `.` of the last segment to its end, except
      when that dot starts the segment or the segment is `..`. */
  function ExtName(p: string): (e: string)
    ensures e == [] || (e[0] == '.' && '.' !in e[1..] && '/' !in e)
    ensures |e| <= |TrimTrailingSlashes(p)|
    ensures e == TrimTrailingSlashes(p)[|TrimTrailingSlashes(p)| - |e|..]
    ensures |e| < |Basename(p)| || e == []
  {
    var b := Basename(p);
    var d := LastIndexOf(b, '.');
    if d <= 0 || b == ".." then "" else b[d..]
  }

  /** The path is its stem followed by its extension, when it does not end
      in a slash. */
  lemma SplitAtExtName(p: string)
    ensures |ExtName(p)| <= |p|
    ensures p == [] || p[|p| - 1] != '/' ==> p[..|p| - |ExtName(p)|] + ExtName(p) == p
  {
    if p != [] && p[|p| - 1] != '/' {
      NoTrailingSlash(p);
      SplitTail(p, ExtName(p));
    }
  }

  lemma NoTrailingSlash(p: string)
    requires p != [] && p[|p| - 1] != '/'
    ensures TrimTrailingSlashes(p) == p
  {
  }

  lemma SplitTail(p: string, e: string)
    requires |e| <= |p| && e == p[|p| - |e|..]
    ensures p[..|p| - |e|] + e == p
  {
    assert p == p[..|p| - |e|] + p[|p| - |e|..];
  }

  /** Appending `.js` to a name whose last segment is not empty gives it the extension `.js`. */
  lemma ExtNameOfJsSuffix(s: string)
    requires s != [] && s[|s| - 1] != '/'
    ensures ExtName(s + ".js") == ".js"
  {
    var p := s + ".js";
    assert p[|p| - 1] == 's';
    assert TrimTrailingSlashes(p) == p;
    var k := LastIndexOf(p, '/');
    assert p[|s| - 1] == s[|s| - 1];
    assert p[|s|] == '.' && p[|s| + 1] == 'j' && p[|s| + 2] == 's';
    assert k < |s| - 1;
    var b := Basename(p);
    assert b == p[k + 1..];
    var n := |b|;
    assert n >= 4;
    assert b[n - 3] == '.' && b[n - 2] == 'j' && b[n - 1] == 's';
    LastIndexOfIs(b, '.', n - 3);
  }

  /** The postconditions of `LastIndexOf` determine it. */
  lemma LastIndexOfIs(s: string, c: char, i: nat)
    requires i < |s| && s[i] == c
    requires forall k :: i < k < |s| ==> s[k] != c
    ensures LastIndexOf(s, c) == i
  {
  }

  lemma LastIndexOfNone(s: string, c: char)
    requires c !in s
    ensures LastIndexOf(s, c) == -1
  {
  }

  /** The extension of a name without slashes, read off its last dot. */
  lemma ExtNameOfPlainName(s: string, i: nat)
    requires '/' !in s && 0 < i < |s| && s[i] == '.' && '.' !in s[i + 1..] && s != ".."
    ensures ExtName(s) == s[i..]
  {
    assert s[|s| - 1] in s;
    assert TrimTrailingSlashes(s) == s;
    LastIndexOfNone(s, '/');
    assert Basename(s) == s;
    assert forall k :: i < k < |s| ==> s[k] in s[i + 1..];
    LastIndexOfIs(s, '.', i);
  }

  /** A name without slashes or dots has no extension. */
  lemma ExtNameOfDotlessName(s: string)
    requires '/' !in s && '.' !in s
    ensures ExtName(s) == []
  {
    if s != [] { assert s[|s| - 1] in s; }
    assert TrimTrailingSlashes(s) == s;
    LastIndexOfNone(s, '/');
    LastIndexOfNone(s, '.');
  }

  /** A last segment without dots gives no extension, whatever the folder. */
  lemma ExtNameOfDotlessSegment(dir: string, s: string)
    requires s != [] && '/' !in s && '.' !in s
    ensures ExtName(dir + "/" + s) == []
  {
    var p := dir + "/" + s;
    assert p[|p| - 1] == s[|s| - 1] && s[|s| - 1] in s;
    assert TrimTrailingSlashes(p) == p;
    assert forall k :: |dir| < k < |p| ==> p[k] == s[k - |dir| - 1];
    LastIndexOfIs(p, '/', |dir|);
    assert Basename(p) == s;
    LastIndexOfNone(s, '.');
  }

  /** Scans from `i` down to 1 for the slash that ends the directory part,
      skipping the trailing slashes while `matchedSlash` holds. */
  function DirEnd(p: string, i: int, matchedSlash: bool): (r: int)
    requires i < |p|
    ensures r == -1 || (1 <= r <= i && p[r] == '/')
    decreases i
  {
    if i < 1 then -1
    else if p[i] == '/' then (if !matchedSlash then i else DirEnd(p, i - 1, matchedSlash))
    else DirEnd(p, i - 1, false)
  }

  /** `path.dirname`. */
  function DirName(p: string): (r: string)
    ensures r != []
  {
    if p == [] then "."
    else
      var end := DirEnd(p, |p| - 1, true);
      if end == -1 then (if p[0] == '/' then "/" else ".")
      else if p[0] == '/' && end == 1 then "//"
      else p[..end]
  }

  /** `s.split('/')`. */
  function Split(s: string): (r: seq<string>)
    ensures |r| >= 1
    ensures forall k :: 0 <= k < |r| ==> '/' !in r[k]
    decreases |s|
  {
    var k := LastIndexOf(s, '/');
    if k < 0 then [s] else Split(s[..k]) + [s[k + 1..]]
  }

  /** One step of Node's segment resolution: `.` and empty segments vanish,
      `..` removes the previous segment (or stays, above a relative root). */
  function ResolveStep(acc: seq<string>, seg: string, allowAboveRoot: bool): seq<string>
  {
    if seg == "" || seg == "." then acc
    else if seg == ".." then
      (if acc != [] && acc[|acc| - 1] != ".." then acc[..|acc| - 1]
       else if allowAboveRoot then acc + [".."]
       else acc)
    else acc + [seg]
  }

  function Resolve(segs: seq<string>, allowAboveRoot: bool): seq<string>
  {
    if segs == [] then []
    else ResolveStep(Resolve(segs[..|segs| - 1], allowAboveRoot), segs[|segs| - 1], allowAboveRoot)
  }

  function JoinSegments(segs: seq<string>): string
  {
    if segs == [] then ""
    else if |segs| == 1 then segs[0]
    else JoinSegments(segs[..|segs| - 1]) + "/" + segs[|segs| - 1]
  }

  /** `path.normalize`. */
  function Normalize(path: string): (r: string)
    ensures r != []
  {
    if path == [] then "."
    else
      var isAbsolute := path[0] == '/';
      var trailingSeparator := path[|path| - 1] == '/';
      var n := JoinSegments(Resolve(Split(path), !isAbsolute));
      if n == [] then (if isAbsolute then "/" else if trailingSeparator then "./" else ".")
      else
        var withTrailing := if trailingSeparator then n + "/" else n;
        if isAbsolute then "/" + withTrailing else withTrailing
  }

  /** `path.join(a, b)`: the non-empty arguments joined by `/`, then normalised. */
  function Join(a: string, b: string): (r: string)
    ensures r != []
  {
    if a == [] && b == [] then "."
    else Normalize(if a == [] then b else if b == [] then a else a + "/" + b)
  }
}
