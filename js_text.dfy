/**
  The two pieces of the JavaScript / Node.js runtime that the paste validation
  relies on: `String.prototype.trim` (which removes the ECMAScript WhiteSpace and
  LineTerminator code points from both ends) and `Buffer.byteLength(s, "utf8")`
  (the length of the UTF-8 encoding of a string).

  Strings are sequences of Unicode scalar values (Dafny's `char`).
*/
module JsText {

  /** WhiteSpace and LineTerminator code points of the ECMAScript language
      specification (the "White Space" and "Line Terminators" sections):
      TAB, LF, VT, FF, CR, SPACE, NBSP, the other Space_Separator code points
      (U+1680, U+2000..U+200A, U+202F, U+205F, U+3000), LS, PS and ZWNBSP. */
  function IsJsWhitespace(c: char): (w: bool)
    ensures (c as int) < 0x80 ==> (w <==> c in {'\t', '\n', '\U{B}', '\U{C}', '\r', ' '})
    ensures w ==> (c as int) <= 0xFEFF
  {
    var n := c as int;
    (0x09 <= n <= 0x0D) || n == 0x20 || n == 0xA0 || n == 0x1680 ||
    (0x2000 <= n <= 0x200A) || n == 0x2028 || n == 0x2029 || n == 0x202F ||
    n == 0x205F || n == 0x3000 || n == 0xFEFF
  }

  /** Every code point of `s` is whitespace (vacuously so for the empty string). */
  predicate IsBlank(s: string) {
    forall i :: 0 <= i < |s| ==> IsJsWhitespace(s[i])
  }

  /** Drops the leading whitespace: the result is the longest suffix of `s`
      that does not start with whitespace. */
  function TrimStart(s: string): (r: string)
    ensures |r| <= |s| && r == s[|s| - |r|..]
    ensures IsBlank(s[..|s| - |r|])
    ensures r == [] || !IsJsWhitespace(r[0])
    decreases |s|
  {
    if |s| > 0 && IsJsWhitespace(s[0]) then
      var r := TrimStart(s[1..]);
      assert s[..|s| - |r|] == [s[0]] + s[1..][..|s| - 1 - |r|];
      r
    else
      s
  }

  /** Drops the trailing whitespace: the result is the longest prefix of `s`
      that does not end with whitespace. */
  function TrimEnd(s: string): (r: string)
    ensures |r| <= |s| && r == s[..|r|]
    ensures IsBlank(s[|r|..])
    ensures r == [] || !IsJsWhitespace(r[|r| - 1])
    decreases |s|
  {
    if |s| > 0 && IsJsWhitespace(s[|s| - 1]) then
      var r := TrimEnd(s[..|s| - 1]);
      assert s[|r|..] == s[..|s| - 1][|r|..] + [s[|s| - 1]];
      r
    else
      s
  }

  /** `String.prototype.trim`: a contiguous piece of `s` with only
      whitespace cut off on either side, that neither starts nor ends with
      whitespace. */
  function Trim(s: string): (r: string)
    ensures |r| <= |s|
    ensures r == [] || (!IsJsWhitespace(r[0]) && !IsJsWhitespace(r[|r| - 1]))
    ensures exists k :: 0 <= k <= |s| - |r| && r == s[k..k + |r|] && IsBlank(s[..k]) && IsBlank(s[k + |r|..])
  {
    var t := TrimStart(s);
    var r := TrimEnd(t);
    var k := |s| - |t|;
    assert r == s[k..k + |r|];
    assert s[k + |r|..] == t[|r|..];
    r
  }

  /** `s.trim() === ""` holds exactly when every code point of `s` is whitespace. */
  lemma TrimEmptyIffBlank(s: string)
    ensures Trim(s) == [] <==> IsBlank(s)
  {
  }

  /** Number of bytes UTF-8 uses for one code point. */
  function Utf8Width(c: char): (w: nat)
    ensures 1 <= w <= 4
    ensures w == 1 <==> (c as int) < 0x80
  {
    if (c as int) < 0x80 then 1
    else if (c as int) < 0x800 then 2
    else if (c as int) < 0x1_0000 then 3
    else 4
  }

  /** `Buffer.byteLength(s, "utf8")`: one to four bytes per code point. */
  function Utf8Len(s: string): (n: nat)
    ensures |s| <= n <= 4 * |s|
  {
    if s == [] then 0 else Utf8Width(s[0]) + Utf8Len(s[1..])
  }

  /** The byte length equals the number of code points exactly when every
      code point is ASCII. */
  lemma {:induction false} Utf8LenIsLengthIffAscii(s: string)
    ensures Utf8Len(s) == |s| <==> forall i :: 0 <= i < |s| ==> (s[i] as int) < 0x80
    decreases |s|
  {
    if s != [] {
      Utf8LenIsLengthIffAscii(s[1..]);
      if Utf8Len(s) == |s| {
        forall i | 0 <= i < |s| ensures (s[i] as int) < 0x80 {
          if i > 0 {
            assert s[i] == s[1..][i - 1];
          }
        }
      } else if forall i :: 0 <= i < |s| ==> (s[i] as int) < 0x80 {
        forall i | 0 <= i < |s| - 1 ensures (s[1..][i] as int) < 0x80 {
          assert s[1..][i] == s[i + 1];
        }
      }
    }
  }
}
