/** `src/postProcessing.js`: the third assembler of the newer generation,
    which behaves as `src/generateOutput.js` does. */
module PostProcessing {
  import opened Common
  import ModuleFactory
  import GenerateOutput

  /** The module records of `src/moduleFactory.js`. */
  type Module = ModuleFactory.Module

  /** The options `processOutput` reads. */
  datatype Options = Options(combine: bool, iife: bool)

  /** `combine`: each module's code and a line break, in list order. */
  function Combine(modules: seq<Module>): (r: string)
    ensures modules == [] ==> r == ""
    ensures |r| >= |modules|
    ensures modules != [] ==> r[|r| - 1] == '\n'
  {
    if modules == [] then ""
    else Combine(modules[..|modules| - 1]) + modules[|modules| - 1].code + "\n"
  }

  /** The script is as long as all code together plus one line break per module. */
  lemma {:induction false} CombinedLength(modules: seq<Module>)
    ensures |Combine(modules)| == GenerateOutput.CodeLength(modules) + |modules|
    decreases |modules|
  {
    if modules != [] {
      CombinedLength(modules[..|modules| - 1]);
    }
  }

  /** Combining is a homomorphism from list concatenation to text concatenation. */
  lemma {:induction false} CombineAppend(a: seq<Module>, b: seq<Module>)
    ensures Combine(a + b) == Combine(a) + Combine(b)
    decreases |b|
  {
    if b == [] {
      assert a + b == a;
    } else {
      var b', m := b[..|b| - 1], b[|b| - 1];
      SplitLast(a, b);
      CombineAppend(a, b');
      CombineSnoc(a + b', m);
      CombineSnoc(b', m);
      Associate(Combine(a), Combine(b'), m.code + "\n");
    }
  }

  lemma CombineSnoc(s: seq<Module>, m: Module)
    ensures Combine(s + [m]) == Combine(s) + (m.code + "\n")
  {
    assert (s + [m])[..|s|] == s;
  }

  /** `wrapInIife`. */
  function WrapInIife(code: string): (r: string)
    ensures |r| == |GenerateOutput.WrapperHead| + |code| + |GenerateOutput.WrapperTail|
    ensures r[..|GenerateOutput.WrapperHead|] == GenerateOutput.WrapperHead
    ensures r[|GenerateOutput.WrapperHead|..|GenerateOutput.WrapperHead| + |code|] == code
    ensures r[|GenerateOutput.WrapperHead| + |code|..] == GenerateOutput.WrapperTail
  {
    var h := GenerateOutput.WrapperHead;
    var r := h + code + GenerateOutput.WrapperTail;
    assert r[..|h|] == h;
    assert r[|h|..|h| + |code|] == code;
    r
  }

  /** `processOutput`. */
  function ProcessOutput(modules: seq<Module>, options: Options): (r: Output<Module>)
    ensures !options.combine ==> r == ModuleList(modules)
    ensures options.combine ==> r.Script?
    ensures options.combine && !options.iife ==> r.text == Combine(modules)
    ensures options.combine && options.iife ==>
              |r.text| == |GenerateOutput.WrapperHead| + |Combine(modules)| + |GenerateOutput.WrapperTail|
              && r.text[..|GenerateOutput.WrapperHead|] == GenerateOutput.WrapperHead
              && r.text[|r.text| - |GenerateOutput.WrapperTail|..] == GenerateOutput.WrapperTail
              && GenerateOutput.Unwrap(r.text) == Some(Combine(modules))
  {
    if options.combine then
      var output := Combine(modules);
      if options.iife then
        WrappedInIife(output);
        Script(WrapInIife(output))
      else Script(output)
    else ModuleList(modules)
  }

  /** `wrapInIife` wraps as `wrapScriptInFunctionExpression` does, so the
      script inside can be read back. */
  lemma WrappedInIife(code: string)
    ensures WrapInIife(code) == GenerateOutput.WrapScriptInFunctionExpression(code)
    ensures GenerateOutput.Unwrap(WrapInIife(code)) == Some(code)
  {
    GenerateOutput.UnwrapInverts(code, "");
  }

  /** The two assemblers produce the same output for the same options. */
  lemma {:induction false} SameAsGenerateOutput(modules: seq<Module>, combine: bool, iife: bool)
    ensures ProcessOutput(modules, Options(combine, iife))
            == GenerateOutput.Generate(modules, GenerateOutput.Options(combine, iife))
  {
    SameCombine(modules);
  }

  lemma {:induction false} SameCombine(modules: seq<Module>)
    ensures Combine(modules) == GenerateOutput.Combine(modules)
    decreases |modules|
  {
    if modules != [] {
      SameCombine(modules[..|modules| - 1]);
    }
  }
}
