/** `src/generateOutput.js`: an assembler of the newer generation that joins
    the modules into one script and can wrap it in a function expression. */
module GenerateOutput {
  import opened Common
  import ModuleFactory

  /** The module records of `src/moduleFactory.js`. */
  type Module = ModuleFactory.Module

  /** The options `generateOutput` reads. */
  datatype Options = Options(combine: bool, iife: bool)

  const WrapperHead: string := "(function() {\n"
  const WrapperTail: string := "}());"

  /** `combineModulesToSingleScript`: each module's code and a line break, in
      list order (a `reduce` from the left). */
  function Combine(modules: seq<Module>): (r: string)
    ensures modules == [] ==> r == ""
    ensures |r| >= |modules|
    ensures modules != [] ==> r[|r| - 1] == '\n'
  {
    if modules == [] then ""
    else Combine(modules[..|modules| - 1]) + modules[|modules| - 1].code + "\n"
  }

  /** The total length of the modules' code. */
  function CodeLength(modules: seq<Module>): nat
  {
    if modules == [] then 0 else CodeLength(modules[..|modules| - 1]) + |modules[|modules| - 1].code|
  }

  /** The script is as long as all code together plus one line break per module. */
  lemma {:induction false} CombinedLength(modules: seq<Module>)
    ensures |Combine(modules)| == CodeLength(modules) + |modules|
    decreases |modules|
  {
    if modules != [] {
      CombinedLength(modules[..|modules| - 1]);
    }
  }

  /** Combining is a homomorphism from list concatenation to text concatenation. */
  lemma {:induction false} CombineAppend(a: seq<Module>, b: seq<Module>)
    ensures Combine(a + b) == Combine(a) + Combine(b)
    decreases |b|
  {
    if b == [] {
      assert a + b == a;
    } else {
      var b', m := b[..|b| - 1], b[|b| - 1];
      SplitLast(a, b);
      CombineAppend(a, b');
      CombineSnoc(a + b', m);
      CombineSnoc(b', m);
      Associate(Combine(a), Combine(b'), m.code + "\n");
    }
  }

  lemma CombineSnoc(s: seq<Module>, m: Module)
    ensures Combine(s + [m]) == Combine(s) + (m.code + "\n")
  {
    assert (s + [m])[..|s|] == s;
  }

  /** Each module's code sits in the script right after the code before it:
      module `i` occupies the stretch after `Combine(modules[..i])`. */
  lemma {:induction false} CodeInPlace(modules: seq<Module>, i: nat)
    requires i < |modules|
    ensures var p := |Combine(modules[..i])|;
            var s := Combine(modules);
            p + |modules[i].code| < |s|
            && s[p..p + |modules[i].code|] == modules[i].code
            && s[p + |modules[i].code|] == '\n'
  {
    var pre, m, post := modules[..i], modules[i], modules[i + 1..];
    SplitAt(modules, i);
    CombineAppend(pre, [m] + post);
    CombineAppend([m], post);
    CombineOne(m);
    PieceAt(Combine(modules), Combine(pre), m.code, Combine(post));
  }

  lemma CombineOne(m: Module)
    ensures Combine([m]) == m.code + "\n"
  {
    assert [m][..0] == [];
  }

  lemma PieceAt(s: string, a: string, code: string, c: string)
    requires s == a + ((code + "\n") + c)
    ensures |a| + |code| < |s| && s[|a|..|a| + |code|] == code && s[|a| + |code|] == '\n'
  {
    assert s[|a|..|a| + |code|] == code;
  }

  /** `wrapScriptInFunctionExpression`. */
  function WrapScriptInFunctionExpression(code: string): (r: string)
    ensures |r| == |WrapperHead| + |code| + |WrapperTail|
    ensures r[..|WrapperHead|] == WrapperHead
    ensures r[|WrapperHead|..|WrapperHead| + |code|] == code
    ensures r[|WrapperHead| + |code|..] == WrapperTail
  {
    var r := WrapperHead + code + WrapperTail;
    assert r[..|WrapperHead|] == WrapperHead;
    assert r[|WrapperHead|..|WrapperHead| + |code|] == code;
    r
  }

  /** Different scripts stay different once wrapped. */
  lemma WrapInjective(a: string, b: string)
    requires WrapScriptInFunctionExpression(a) == WrapScriptInFunctionExpression(b)
    ensures a == b
  {
    var h := |WrapperHead|;
    assert a == WrapScriptInFunctionExpression(a)[h..h + |a|];
  }

  /** The wrapper taken off again: the script inside, if `text` has the
      shape `wrapScriptInFunctionExpression` gives. */
  function Unwrap(text: string): Option<string>
  {
    var h := |WrapperHead|;
    var t := |WrapperTail|;
    if |text| >= h + t && text[..h] == WrapperHead && text[|text| - t..] == WrapperTail
    then Some(text[h..|text| - t])
    else None
  }

  /** Wrapping is undone by `Unwrap`, and `Unwrap` accepts wrapped scripts
      only. */
  lemma {:induction false} UnwrapInverts(code: string, text: string)
    ensures Unwrap(WrapScriptInFunctionExpression(code)) == Some(code)
    ensures Unwrap(text) == Some(code) ==> WrapScriptInFunctionExpression(code) == text
  {
    var w := WrapScriptInFunctionExpression(code);
    assert w[|w| - |WrapperTail|..] == WrapperTail;
    if Unwrap(text) == Some(code) {
      var h := |WrapperHead|;
      var t := |WrapperTail|;
      assert text == text[..h] + text[h..|text| - t] + text[|text| - t..];
    }
  }

  /** `generateOutput`. */
  function Generate(modules: seq<Module>, options: Options): (r: Output<Module>)
    ensures !options.combine ==> r == ModuleList(modules)
    ensures options.combine ==> r.Script?
    ensures options.combine && !options.iife ==> r.text == Combine(modules)
    ensures options.combine && options.iife ==>
              |r.text| == |WrapperHead| + CodeLength(modules) + |modules| + |WrapperTail|
              && r.text[..|WrapperHead|] == WrapperHead
              && r.text[|r.text| - |WrapperTail|..] == WrapperTail
              && Unwrap(r.text) == Some(Combine(modules))
  {
    if options.combine then
      var output := Combine(modules);
      CombinedLength(modules);
      if options.iife then
        UnwrapInverts(output, "");
        Script(WrapScriptInFunctionExpression(output))
      else Script(output)
    else ModuleList(modules)
  }
}
