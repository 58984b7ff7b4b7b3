/**
  The part of JavaScript's `String.prototype.trim` that the task board relies
  on: which characters count as white space, and what remains of a string once
  they are stripped from both ends.
 */
module JsString {

  /** ECMAScript's WhiteSpace and LineTerminator code points, which `trim` strips:
      TAB, VT, FF, ZWNBSP, the Unicode space separators (category Zs) and
      LF, CR, LS, PS. */
  predicate IsWhitespace(c: char)
  {
    || c == '\U{0009}' || c == '\U{000B}' || c == '\U{000C}' || c == '\U{FEFF}'
    || c == '\U{0020}' || c == '\U{00A0}' || c == '\U{1680}'
    || ('\U{2000}' <= c <= '\U{200A}')
    || c == '\U{202F}' || c == '\U{205F}' || c == '\U{3000}'
    || c == '\U{000A}' || c == '\U{000D}' || c == '\U{2028}' || c == '\U{2029}'
  }

  predicate AllWhitespace(s: string)
  {
    forall i :: 0 <= i < |s| ==> IsWhitespace(s[i])
  }

  /** `s` without its leading white space: the longest suffix of `s` that does
      not start with white space. */
  function TrimStart(s: string): (r: string)
    ensures |r| <= |s| && r == s[|s| - |r|..]
    ensures forall i :: 0 <= i < |s| - |r| ==> IsWhitespace(s[i])
    ensures r != [] ==> !IsWhitespace(r[0])
    decreases |s|
  {
    if s != [] && IsWhitespace(s[0]) then TrimStart(s[1..]) else s
  }

  /** `s` without its trailing white space: the longest prefix of `s` that does
      not end with white space. */
  function TrimEnd(s: string): (r: string)
    ensures |r| <= |s| && r == s[..|r|]
    ensures forall i :: |r| <= i < |s| ==> IsWhitespace(s[i])
    ensures r != [] ==> !IsWhitespace(r[|r| - 1])
    decreases |s|
  {
    if s != [] && IsWhitespace(s[|s| - 1]) then TrimEnd(s[..|s| - 1]) else s
  }

  /** `s.trim()`: the slice of `s` left once the white space at both ends is
      removed; it neither starts nor ends with white space. */
  function Trim(s: string): (r: string)
    ensures exists k ::
      && 0 <= k <= |s| - |r| && r == s[k..k + |r|]
      && AllWhitespace(s[..k]) && AllWhitespace(s[k + |r|..])
    ensures r != [] ==> !IsWhitespace(r[0]) && !IsWhitespace(r[|r| - 1])
  {
    var t := TrimStart(s);
    var r := TrimEnd(t);
    var k := |s| - |t|;
    assert r == s[k..k + |r|];
    assert AllWhitespace(s[..k]) by {
      forall i | 0 <= i < k ensures IsWhitespace(s[..k][i]) {
        assert s[..k][i] == s[i];
      }
    }
    var rest := s[k + |r|..];
    assert AllWhitespace(rest) by {
      forall i | 0 <= i < |rest| ensures IsWhitespace(rest[i]) {
        assert rest[i] == t[|r| + i];
      }
    }
    assert 0 <= k <= |s| - |r| && r == s[k..k + |r|]
      && AllWhitespace(s[..k]) && AllWhitespace(s[k + |r|..]);
    r
  }

  /** The guard `!s.trim()`: the trimmed string is the empty, falsy string. */
  predicate IsBlank(s: string)
  {
    Trim(s) == ""
  }

  /** A string trims to nothing exactly when every one of its characters is
      white space; in particular the empty string is blank. */
  lemma BlankIffAllWhitespace(s: string)
    ensures IsBlank(s) <==> AllWhitespace(s)
  {
    var t := TrimStart(s);
    if IsBlank(s) {
      assert t == [];
    }
    if AllWhitespace(s) {
      assert t == [];
    }
  }
}
