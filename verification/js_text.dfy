/** The JavaScript string and regular-expression behaviour the bundler relies
    on, restricted to the patterns it actually uses. */
module JsText {

  /** The character class `\s` of JavaScript regular expressions. */
  predicate IsWhitespace(c: char)
  {
    c == ' ' || c == '\t' || c == '\n' || c == '\r' || c == '\U{B}' || c == '\U{C}'
    || c == '\U{A0}' || c == '\U{1680}' || ('\U{2000}' <= c <= '\U{200A}')
    || c == '\U{2028}' || c == '\U{2029}' || c == '\U{202F}' || c == '\U{205F}'
    || c == '\U{3000}' || c == '\U{FEFF}'
  }

  /** The characters that `.` does not match. */
  predicate IsLineTerminator(c: char)
  {
    c == '\n' || c == '\r' || c == '\U{2028}' || c == '\U{2029}'
  }

  /** Case folding of a regular expression with the `i` flag and without `u`:
      only ASCII letters fold onto ASCII letters. */
  function LowerAscii(c: char): char
  {
    if 'A' <= c <= 'Z' then (c as int + 32) as char else c
  }

  /** `s.replace(/x/g, y)` for a one-character pattern `x` and replacement `y`. */
  function ReplaceChar(s: string, from: char, to: char): (r: string)
    ensures |r| == |s|
    ensures forall i :: 0 <= i < |s| ==> r[i] == (if s[i] == from then to else s[i])
  {
    if s == [] then [] else [if s[0] == from then to else s[0]] + ReplaceChar(s[1..], from, to)
  }

  /** Replacing a character that does not occur changes nothing. */
  lemma ReplaceAbsentChar(s: string, from: char, to: char)
    requires from !in s
    ensures ReplaceChar(s, from, to) == s
  {
    var r := ReplaceChar(s, from, to);
    assert forall i :: 0 <= i < |s| ==> r[i] == s[i];
  }

  /** Replacing the only occurrence of a character changes that position alone. */
  lemma ReplaceSingleChar(a: string, b: string, from: char, to: char)
    requires from !in a && from !in b
    ensures ReplaceChar(a + [from] + b, from, to) == a + [to] + b
  {
    var s := a + [from] + b;
    var r := ReplaceChar(s, from, to);
    var e := a + [to] + b;
    forall i | 0 <= i < |s|
      ensures r[i] == e[i]
    {
      if i < |a| {
        assert s[i] == a[i] && e[i] == a[i];
      } else if i > |a| {
        assert s[i] == b[i - |a| - 1] && e[i] == b[i - |a| - 1];
      }
    }
  }

  /** `s.replace(/^\.?\//, '')`: removes one leading `./` or `/`, if there is one. */
  function StripCurrentDirectory(s: string): (r: string)
    ensures r == s || "/" + r == s || "./" + r == s
    ensures "./" <= s ==> "./" + r == s
    ensures "/" <= s ==> "/" + r == s
    ensures !("./" <= s) && !("/" <= s) ==> r == s
  {
    if |s| >= 2 && s[0] == '.' && s[1] == '/' then s[2..]
    else if |s| >= 1 && s[0] == '/' then s[1..]
    else s
  }

  /** Index of the first non-whitespace character at or after `i`. */
  function SkipWhitespace(s: string, i: nat): (j: nat)
    requires i <= |s|
    ensures i <= j <= |s|
    ensures forall k :: i <= k < j ==> IsWhitespace(s[k])
    ensures j == |s| || !IsWhitespace(s[j])
    decreases |s| - i
  {
    if i < |s| && IsWhitespace(s[i]) then SkipWhitespace(s, i + 1) else i
  }
}
