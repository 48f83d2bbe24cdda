/** `src/outputProcessor.js`: the assembler of the newer generation that also
    strips the main module's `var … =` binding when the script is wrapped. */
module OutputProcessor {
  import opened Common
  import opened JsText
  import ModuleFactory
  import GenerateOutput

  /** The module records of `src/moduleFactory.js`. */
  type Module = ModuleFactory.Module

  /** The options `process` reads. */
  datatype Options = Options(combine: bool, iife: bool)

  /** The text in front of and behind the combined script of a wrapped run. */
  const WrapperHead: string := "(function() {\n"
  const WrapperTail: string := "\n}());"

  // The pattern `^var\s*.*?\s*=\s*` of `removeVariableAssignment` after its
  // `var` and the whitespace behind it: the lazy `.*?` tries ever longer
  // stretches from `k`, within the first line, until whitespace and an `=`
  // follow. The result is the end of the match, past the whitespace after
  // the `=`.
  function AssignmentEnd(s: string, k: nat): (e: Option<nat>)
    requires k <= |s|
    ensures e.Some? ==> k < e.value <= |s| && '=' in s[k..e.value]
    ensures e.Some? ==> e.value == |s| || !IsWhitespace(s[e.value])
    ensures '=' !in s[k..] ==> e == None
    decreases |s| - k
  {
    var q := SkipWhitespace(s, k);
    if q < |s| && s[q] == '=' then
      assert s[q] == s[k..SkipWhitespace(s, q + 1)][q - k];
      Some(SkipWhitespace(s, q + 1))
    else if k < |s| && !IsLineTerminator(s[k]) then
      var e := AssignmentEnd(s, k + 1);
      assert e.Some? ==> s[k + 1..e.value] == s[k..e.value][1..];
      assert '=' !in s[k..] ==> s[k + 1..] == s[k..][1..];
      e
    else None
  }

  // `removeVariableAssignment`: the first match of `^var\s*.*?\s*=\s*`
  // replaced by nothing.
  function RemoveVariableAssignment(code: string): (r: string)
    ensures |r| <= |code| && r == code[|code| - |r|..]
    ensures !("var" <= code) ==> r == code
    ensures '=' !in code ==> r == code
  {
    if |code| >= 3 && code[..3] == "var" then
      var k := SkipWhitespace(code, 3);
      assert '=' !in code ==> '=' !in code[k..] by {
        if '=' in code[k..] {
          var i :| 0 <= i < |code[k..]| && code[k..][i] == '=';
          assert code[k + i] == '=';
        }
      }
      match AssignmentEnd(code, k)
      case Some(e) => code[e..]
      case None => code
    else code
  }

  /** A binding `var <name> = <rest>` loses everything up to its value, when
      the name is one word and the value does not start with whitespace. */
  lemma {:induction false} DeclarationRemoved(name: string, rest: string)
    requires name != []
    requires forall i :: 0 <= i < |name| ==> !IsWhitespace(name[i]) && name[i] != '='
    requires rest == [] || !IsWhitespace(rest[0])
    ensures RemoveVariableAssignment("var " + name + " = " + rest) == rest
  {
    var code := "var " + name + " = " + rest;
    var n := |name|;
    assert code[..3] == "var";
    assert code[3] == ' ' && IsWhitespace(code[3]);
    assert code[4] == name[0];
    assert SkipWhitespace(code, 4) == 4;
    assert SkipWhitespace(code, 3) == 4;
    assert code[4 + n] == ' ' && code[5 + n] == '=' && code[6 + n] == ' ';
    assert SkipWhitespace(code, 4 + n) == 5 + n;
    assert SkipWhitespace(code, 7 + n) == 7 + n by {
      if 7 + n < |code| { assert code[7 + n] == rest[0]; }
    }
    assert SkipWhitespace(code, 6 + n) == 7 + n;
    assert AssignmentEnd(code, 4 + n) == Some(7 + n);
    var k := 4 + n;
    while k > 4
      invariant 4 <= k <= 4 + n
      invariant AssignmentEnd(code, k) == Some(7 + n)
      decreases k
    {
      k := k - 1;
      assert code[k] == name[k - 4];
      assert SkipWhitespace(code, k) == k;
    }
    assert code[7 + n..] == rest;
  }

  /** The text one module contributes to the combined script. */
  function Contribution(m: Module, iife: bool): (c: string)
    ensures !(m.main && iife) ==> c == m.code
    ensures |c| <= |m.code|
  {
    if m.main && iife then RemoveVariableAssignment(m.code) else m.code
  }

  /** `combineModulesToSingleScript`: the `reduce` from the left that appends
      each module's contribution and a line break. */
  function Combine(modules: seq<Module>, iife: bool): (r: string)
    ensures modules == [] ==> r == ""
    ensures |r| >= |modules|
    ensures modules != [] ==> r[|r| - 1] == '\n'
  {
    if modules == [] then ""
    else Combine(modules[..|modules| - 1], iife) + Contribution(modules[|modules| - 1], iife) + "\n"
  }

  /** `wrapInFunctionExpression`. */
  function WrapInFunctionExpression(code: string): (r: string)
    ensures |r| == |WrapperHead| + |code| + |WrapperTail|
    ensures r[..|WrapperHead|] == WrapperHead
    ensures r[|WrapperHead|..|WrapperHead| + |code|] == code
    ensures r[|WrapperHead| + |code|..] == WrapperTail
  {
    var r := WrapperHead + code + WrapperTail;
    assert r[..|WrapperHead|] == WrapperHead;
    assert r[|WrapperHead|..|WrapperHead| + |code|] == code;
    r
  }

  /** The wrapper taken off again: the script inside, if `text` has the shape
      `wrapInFunctionExpression` gives. */
  function Unwrap(text: string): (r: Option<string>)
  {
    var h := |WrapperHead|;
    var t := |WrapperTail|;
    if |text| >= h + t && text[..h] == WrapperHead && text[|text| - t..] == WrapperTail
    then Some(text[h..|text| - t])
    else None
  }

  /** Wrapping is undone by `Unwrap`, and `Unwrap` accepts wrapped scripts only. */
  lemma {:induction false} UnwrapInverts(code: string, text: string)
    ensures Unwrap(WrapInFunctionExpression(code)) == Some(code)
    ensures Unwrap(text) == Some(code) ==> WrapInFunctionExpression(code) == text
  {
    var w := WrapInFunctionExpression(code);
    assert w[|w| - |WrapperTail|..] == WrapperTail;
    if Unwrap(text) == Some(code) {
      var h := |WrapperHead|;
      var t := |WrapperTail|;
      assert text == text[..h] + text[h..|text| - t] + text[|text| - t..];
    }
  }

  /** `process`. */
  function Process(modules: seq<Module>, options: Options): (r: Output<Module>)
    ensures !options.combine ==> r == ModuleList(modules)
    ensures options.combine ==> r.Script?
    ensures options.combine && !options.iife ==> r.text == Combine(modules, false)
    ensures options.combine && options.iife ==> Unwrap(r.text) == Some(Combine(modules, true))
  {
    if !options.combine then ModuleList(modules)
    else
      var result := Combine(modules, options.iife);
      if options.iife then
        UnwrapInverts(result, "");
        Script(WrapInFunctionExpression(result))
      else Script(result)
  }

  /** Combining is a homomorphism from list concatenation to text concatenation. */
  lemma {:induction false} CombineAppend(a: seq<Module>, b: seq<Module>, iife: bool)
    ensures Combine(a + b, iife) == Combine(a, iife) + Combine(b, iife)
    decreases |b|
  {
    if b == [] {
      assert a + b == a;
    } else {
      var b' := b[..|b| - 1];
      var m := b[|b| - 1];
      SplitLast(a, b);
      CombineAppend(a, b', iife);
      CombineSnoc(a + b', m, iife);
      CombineSnoc(b', m, iife);
      Associate(Combine(a, iife), Combine(b', iife), Contribution(m, iife) + "\n");
    }
  }

  lemma CombineSnoc(s: seq<Module>, m: Module, iife: bool)
    ensures Combine(s + [m], iife) == Combine(s, iife) + (Contribution(m, iife) + "\n")
  {
    assert (s + [m])[..|s|] == s;
  }

  /** One module contributes its code and a line break; only the main module
      of a wrapped run has its binding stripped. */
  lemma CombineOne(m: Module, iife: bool)
    ensures Combine([m], iife) == Contribution(m, iife) + "\n"
    ensures !m.main || !iife ==> Combine([m], iife) == m.code + "\n"
  {
    assert [m][..0] == [];
  }

  /** Without `iife` nothing is stripped, and the script is the one the other
      assemblers build. */
  lemma {:induction false} CombineWithoutIife(modules: seq<Module>)
    ensures Combine(modules, false) == GenerateOutput.Combine(modules)
    decreases |modules|
  {
    if modules != [] {
      CombineWithoutIife(modules[..|modules| - 1]);
    }
  }

  /** With `iife`, a script without a main module is the plain concatenation. */
  lemma {:induction false} CombineWithoutMain(modules: seq<Module>)
    requires forall i :: 0 <= i < |modules| ==> !modules[i].main
    ensures Combine(modules, true) == GenerateOutput.Combine(modules)
    decreases |modules|
  {
    if modules != [] {
      CombineWithoutMain(modules[..|modules| - 1]);
    }
  }

  /** The wrapped two-module script of the combined `iife` run: the main module
      `a`, declared as `var a = …`, keeps only its value, and the dependency
      `b` keeps its declaration. */
  lemma MainBindingStripped(a: Module, b: Module, value: string)
    requires a.main && !b.main
    requires a.code == "var a = " + value
    requires value == [] || !IsWhitespace(value[0])
    ensures Combine([b, a], true) == b.code + "\n" + value + "\n"
  {
    AssignmentOfA(a.code, value);
    assert [b, a] == [b] + [a];
    CombineSnoc([b], a, true);
    CombineOne(b, true);
  }

  lemma AssignmentOfA(code: string, value: string)
    requires code == "var a = " + value
    requires value == [] || !IsWhitespace(value[0])
    ensures RemoveVariableAssignment(code) == value
  {
    OneWordA();
    DeclarationRemoved("a", value);
    SpelledOut(value);
  }

  lemma OneWordA()
    ensures forall i :: 0 <= i < |"a"| ==> !IsWhitespace("a"[i]) && "a"[i] != '='
  {
  }

  lemma SpelledOut(value: string)
    ensures "var " + "a" + " = " + value == "var a = " + value
  {
  }
}
