/**
 The parts of java.lang.String and java.lang.Character that StringUtils relies on,
 over strings represented as sequences of UTF-16 code units.
 */
module JavaString {
  import opened Wrappers

  /** A Java `char`: one UTF-16 code unit. */
  newtype CodeUnit = c: int | 0 <= c < 0x1_0000

  /** A non-null Java `String`. */
  type JString = seq<CodeUnit>

  const SPACE: CodeUnit := 0x20
  const TAB: CodeUnit := 0x09

  /** Membership in the regular-expression class `\s`, which Java defines as `[ \t\n\x0B\f\r]`. */
  predicate IsWhitespace(c: CodeUnit) {
    c == SPACE || 0x09 <= c <= 0x0D
  }

  /** The separator of `split(" ")`. */
  predicate IsSpace(c: CodeUnit) {
    c == SPACE
  }

  /** The code units `String.trim()` strips: everything up to and including the space. */
  predicate IsBlank(c: CodeUnit) {
    c <= SPACE
  }

  predicate IsAsciiUpper(c: CodeUnit) { 'A' as CodeUnit <= c <= 'Z' as CodeUnit }
  predicate IsAsciiLower(c: CodeUnit) { 'a' as CodeUnit <= c <= 'z' as CodeUnit }

  /** `Character.toUpperCase(char)`, restricted to the ASCII letters. */
  function ToUpper(c: CodeUnit): (u: CodeUnit)
    ensures IsAsciiLower(c) ==> IsAsciiUpper(u) && u + 0x20 == c
    ensures !IsAsciiLower(c) ==> u == c
  {
    if IsAsciiLower(c) then c - 0x20 else c
  }

  /** `Character.toLowerCase(char)`, restricted to the ASCII letters. */
  function ToLower(c: CodeUnit): (l: CodeUnit)
    ensures IsAsciiUpper(c) ==> IsAsciiLower(l) && l == c + 0x20
    ensures !IsAsciiUpper(c) ==> l == c
  {
    if IsAsciiUpper(c) then c + 0x20 else c
  }

  /** `String.toLowerCase()`, one code unit at a time. */
  function LowerCase(s: JString): (r: JString)
    ensures |r| == |s|
    ensures forall i :: 0 <= i < |s| ==> r[i] == ToLower(s[i])
    ensures forall i :: 0 <= i < |r| ==> !IsAsciiUpper(r[i])
  {
    seq(|s|, i requires 0 <= i < |s| => ToLower(s[i]))
  }

  /** `String.substring(begin, end)`, which throws on bounds outside `0 <= begin <= end <= length()`. */
  function Substring(s: JString, begin: int, end: int): (r: Result<JString>)
    ensures r.Ok? <==> 0 <= begin <= end <= |s|
    ensures r.Ok? ==> |r.value| == end - begin
                      && forall k :: 0 <= k < end - begin ==> r.value[k] == s[begin + k]
    ensures r.Threw? ==> r.exception == StringIndexOutOfBoundsException
  {
    if 0 <= begin <= end <= |s| then Ok(s[begin..end]) else Threw(StringIndexOutOfBoundsException)
  }

  /** `String.indexOf(int ch)` for a BMP code unit: the first position holding `c`, or -1. */
  function IndexOf(s: JString, c: CodeUnit): (r: int)
    ensures -1 <= r < |s|
    ensures r == -1 <==> c !in s
    ensures r >= 0 ==> s[r] == c && c !in s[..r]
  {
    if |s| == 0 then -1
    else if s[0] == c then 0
    else
      var k := IndexOf(s[1..], c);
      assert s[1..][..if k < 0 then 0 else k] == s[1..1 + if k < 0 then 0 else k];
      if k == -1 then -1 else k + 1
  }

  /** The number of blank code units at the front of `s`: the start index `String.trim()` keeps. */
  function BlankPrefix(s: JString): (n: nat)
    ensures n <= |s|
    ensures forall k :: 0 <= k < n ==> IsBlank(s[k])
    ensures n < |s| ==> !IsBlank(s[n])
  {
    if |s| == 0 || !IsBlank(s[0]) then 0 else 1 + BlankPrefix(s[1..])
  }

  /** The number of blank code units at the back of `s`. */
  function BlankSuffix(s: JString): (n: nat)
    ensures n <= |s|
    ensures forall k :: |s| - n <= k < |s| ==> IsBlank(s[k])
    ensures n < |s| ==> !IsBlank(s[|s| - 1 - n])
  {
    if |s| == 0 || !IsBlank(s[|s| - 1]) then 0 else 1 + BlankSuffix(s[..|s| - 1])
  }

  /**
   `String.trim()`: the slice of `s` left after dropping blank code units from both ends.
   The result is a slice whose outside is all blank and whose ends are not blank.
   */
  function Trim(s: JString): (r: JString)
    ensures |r| <= |s|
    ensures |r| > 0 ==> !IsBlank(r[0]) && !IsBlank(r[|r| - 1])
    ensures var a := BlankPrefix(s);
              && a + |r| <= |s|
              && r == s[a..a + |r|]
              && (forall k :: 0 <= k < a ==> IsBlank(s[k]))
              && (forall k :: a + |r| <= k < |s| ==> IsBlank(s[k]))
  {
    var a := BlankPrefix(s);
    var t := s[a..];
    var r := t[..|t| - BlankSuffix(t)];
    assert r == s[a..a + |r|];
    r
  }

  /** A string with no blank code unit other than the space itself. */
  predicate FreeOfControls(s: JString) {
    forall i :: 0 <= i < |s| ==> s[i] == SPACE || !IsBlank(s[i])
  }

  /** `s` never holds two spaces in a row. */
  predicate NoDoubleSpace(s: JString) {
    forall i :: 0 <= i < |s| - 1 ==> !(s[i] == SPACE && s[i + 1] == SPACE)
  }
}
