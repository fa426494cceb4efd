/**
 The part of JavaScript's `String.prototype.trim` that the to-do screen relies
 on: removing white space and line terminators from both ends of a string, and
 the "is the trimmed draft empty" test that guards adding a task.

 Characters are Unicode scalar values; the white-space set is the one the
 ECMAScript language defines for `trim` (the WhiteSpace and LineTerminator
 productions), all of whose members lie in the Basic Multilingual Plane.
 */
module JsString {

  /** ECMAScript WhiteSpace (TAB, VT, FF, ZWNBSP and every Space_Separator)
      together with LineTerminator (LF, CR, LS, PS). */
  predicate IsWhitespace(c: char)
  {
    || c == '\U{0009}' || c == '\U{000B}' || c == '\U{000C}' || c == '\U{FEFF}'
    || c == ' ' || c == '\U{00A0}' || c == '\U{1680}'
    || ('\U{2000}' <= c <= '\U{200A}')
    || c == '\U{202F}' || c == '\U{205F}' || c == '\U{3000}'
    || c == '\U{000A}' || c == '\U{000D}' || c == '\U{2028}' || c == '\U{2029}'
  }

  /** Every character of `s` is white space (vacuously true of ""). */
  predicate AllWhitespace(s: string)
  {
    forall i :: 0 <= i < |s| ==> IsWhitespace(s[i])
  }

  /** Drops the longest white-space prefix. */
  function TrimStart(s: string): (r: string)
    ensures |r| <= |s| && r == s[|s| - |r|..]
    ensures forall i :: 0 <= i < |s| - |r| ==> IsWhitespace(s[i])
    ensures r != [] ==> !IsWhitespace(r[0])
  {
    if s != [] && IsWhitespace(s[0]) then TrimStart(s[1..]) else s
  }

  /** Drops the longest white-space suffix. */
  function TrimEnd(s: string): (r: string)
    ensures |r| <= |s| && r == s[..|r|]
    ensures forall i :: |r| <= i < |s| ==> IsWhitespace(s[i])
    ensures r != [] ==> !IsWhitespace(r[|r| - 1])
  {
    if s != [] && IsWhitespace(s[|s| - 1]) then TrimEnd(s[..|s| - 1]) else s
  }

  /** `s.trim()`: the result is `s` with exactly its leading and trailing
      white space removed. It is the contiguous piece of `s` between an
      all-white-space prefix and an all-white-space suffix, it neither starts
      nor ends with white space, and it is empty exactly when `s` is all
      white space. */
  function Trim(s: string): (r: string)
    ensures exists lo ::
              && 0 <= lo <= |s| - |r|
              && r == s[lo..lo + |r|]
              && AllWhitespace(s[..lo])
              && AllWhitespace(s[lo + |r|..])
    ensures r != [] ==> !IsWhitespace(r[0]) && !IsWhitespace(r[|r| - 1])
    ensures r == [] <==> AllWhitespace(s)
  {
    var t := TrimStart(s);
    var r := TrimEnd(t);
    TrimmedPieces(s, t, r);
    r
  }

  /** A string cut as `s = (white space) + r + (white space)`, where `t` is
      the suffix of `s` that starts at `r`, `r` is a prefix of `t`, and
      neither `t` nor `r` starts, or `r` ends, with white space. */
  lemma TrimmedPieces(s: string, t: string, r: string)
    requires |t| <= |s| && t == s[|s| - |t|..] && |r| <= |t| && r == t[..|r|]
    requires forall i :: 0 <= i < |s| - |t| ==> IsWhitespace(s[i])
    requires forall i :: |r| <= i < |t| ==> IsWhitespace(t[i])
    requires t != [] ==> !IsWhitespace(t[0])
    requires r != [] ==> !IsWhitespace(r[|r| - 1])
    ensures exists lo ::
              && 0 <= lo <= |s| - |r|
              && r == s[lo..lo + |r|]
              && AllWhitespace(s[..lo])
              && AllWhitespace(s[lo + |r|..])
    ensures r != [] ==> !IsWhitespace(r[0]) && !IsWhitespace(r[|r| - 1])
    ensures r == [] <==> AllWhitespace(s)
  {
    var lo := |s| - |t|;
    assert r == s[lo..lo + |r|];
    assert s[lo + |r|..] == t[|r|..];
    forall i | 0 <= i < |t| - |r| ensures IsWhitespace(t[|r|..][i]) {
      assert t[|r|..][i] == t[|r| + i];
    }
    assert AllWhitespace(s[..lo]) by {
      forall i | 0 <= i < lo ensures IsWhitespace(s[..lo][i]) {
        assert s[..lo][i] == s[i];
      }
    }
    if r == [] {
      assert t == [];
      assert AllWhitespace(s);
    } else {
      assert r[0] == t[0] == s[lo];
    }
  }

  /** The JavaScript test `!s.trim()`: the trimmed string is the empty, falsy
      string. */
  predicate IsBlank(s: string)
    ensures IsBlank(s) <==> AllWhitespace(s)
  {
    Trim(s) == ""
  }
}
