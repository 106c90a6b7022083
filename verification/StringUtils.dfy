/**
 The six operations of the `StringUtils` helper class, each a pure function of
 its arguments, with the properties they guarantee.
 */
module StringUtils {
  import opened Wrappers
  import opened JavaString
  import opened Split
  import opened Utf16

  // ---------------------------------------------------------------- reverseString

  /** `reverseString`: null stays null; otherwise the `StringBuilder` reversal. */
  function ReverseString(input: Option<JString>): (r: Option<JString>)
    ensures r.None? <==> input.None?
    ensures input.Some? ==> |r.value| == |input.value| && multiset(r.value) == multiset(input.value)
    ensures input.Some? && SurrogateFree(input.value) ==>
              forall i :: 0 <= i < |input.value| ==> r.value[i] == input.value[|input.value| - 1 - i]
  {
    match input
    case None => None
    case Some(s) => Some(BuilderReverse(s))
  }

  /** On well-formed UTF-16 the result encodes the input's code points in reverse order. */
  lemma ReverseStringCodePoints(s: JString)
    requires WellFormed(s)
    ensures WellFormed(ReverseString(Some(s)).value)
    ensures Decode(ReverseString(Some(s)).value) == Reverse(Decode(s))
  {
    BuilderReverseCodePoints(s);
    DecodeEncode(Reverse(Decode(s)));
  }

  /** Reversing a well-formed string twice gives it back. */
  lemma ReverseStringInvolution(s: JString)
    requires WellFormed(s)
    ensures ReverseString(ReverseString(Some(s))) == Some(s)
  {
    BuilderReverseInvolution(s);
  }

  /** A lone low surrogate followed by a lone high one is not restored by a second reversal. */
  lemma ReverseStringNotInvolutive()
    ensures var s: JString := [0xDC00, 0xD800];
            ReverseString(ReverseString(Some(s))) != Some(s)
  {
    BuilderReverseNotInvolutive();
  }

  // ---------------------------------------------------------------- isPalindrome

  /** The text `isPalindrome` compares with its reversal: lower-cased, whitespace removed. */
  function Normalize(s: JString): (r: JString)
    ensures |r| <= |s|
    ensures FreeOf(r, IsWhitespace)
    ensures forall i :: 0 <= i < |r| ==> !IsAsciiUpper(r[i])
  {
    Without(LowerCase(s), IsWhitespace)
  }

  /** Normalizing normalized text changes nothing. */
  lemma NormalizeIdempotent(s: JString)
    ensures Normalize(Normalize(s)) == Normalize(s)
  {
    var n := Normalize(s);
    assert LowerCase(n) == n;
    WithoutFreeOf(n, IsWhitespace);
  }

  /** `s` reads the same from both ends. */
  predicate IsMirror<T(==)>(s: seq<T>) {
    forall i :: 0 <= i < |s| ==> s[i] == s[|s| - 1 - i]
  }

  /** `isPalindrome`: false for null or empty text, else whether the normalized text equals its reversal. */
  function IsPalindrome(text: Option<JString>): (r: bool)
    ensures text.None? ==> !r
    ensures text.Some? && |text.value| == 0 ==> !r
  {
    match text
    case None => false
    case Some(s) =>
      if |s| == 0 then false
      else
        var n := Normalize(s);
        n == BuilderReverse(n)
  }

  lemma NormalizeSurrogateFree(s: JString)
    requires SurrogateFree(s)
    ensures SurrogateFree(Normalize(s))
  {
    var l := LowerCase(s);
    assert SurrogateFree(l);
    WithoutKeepsProperty(l, IsWhitespace, c => !IsSurrogate(c));
  }

  lemma {:induction false} WithoutKeepsProperty(s: JString, isSep: CodeUnit -> bool, p: CodeUnit -> bool)
    requires forall i :: 0 <= i < |s| ==> p(s[i])
    ensures forall i :: 0 <= i < |Without(s, isSep)| ==> p(Without(s, isSep)[i])
  {
    if |s| > 0 {
      WithoutKeepsProperty(s[1..], isSep, p);
    }
  }

  /** On surrogate-free text, `isPalindrome` holds exactly when the normalized text mirrors itself. */
  lemma IsPalindromeSurrogateFree(s: JString)
    requires |s| > 0 && SurrogateFree(s)
    ensures IsPalindrome(Some(s)) <==> IsMirror(Normalize(s))
  {
    var n := Normalize(s);
    NormalizeSurrogateFree(s);
    if IsMirror(n) {
      assert n == BuilderReverse(n);
    }
  }

  /** On well-formed UTF-16, `isPalindrome` holds exactly when the normalized code points mirror themselves. */
  lemma IsPalindromeCodePoints(s: JString)
    requires |s| > 0 && WellFormed(s)
    ensures WellFormed(Normalize(s))
    ensures IsPalindrome(Some(s)) <==> IsMirror(Decode(Normalize(s)))
  {
    LowerCaseWellFormed(s);
    WellFormedFilter(LowerCase(s), IsWhitespace);
    var n := Normalize(s);
    var cs := Decode(n);
    BuilderReverseCodePoints(n);
    EncodeDecode(n);
    DecodeEncode(Reverse(cs));
    if IsPalindrome(Some(s)) {
      assert cs == Reverse(cs);
    }
    if IsMirror(cs) {
      assert cs == Reverse(cs);
    }
  }

  lemma {:induction false} LowerCaseWellFormed(s: JString)
    requires WellFormed(s)
    ensures WellFormed(LowerCase(s))
    decreases |s|
  {
    if |s| > 0 {
      var n := UnitLength(s);
      LowerCaseWellFormed(s[n..]);
      assert LowerCase(s)[n..] == LowerCase(s[n..]);
    }
  }

  /** Text made only of whitespace is a palindrome as soon as it is non-empty. */
  lemma AllWhitespaceIsPalindrome(s: JString)
    requires |s| > 0
    requires forall i :: 0 <= i < |s| ==> IsWhitespace(s[i])
    ensures IsPalindrome(Some(s))
  {
    AllSeparators(LowerCase(s), IsWhitespace);
  }

  lemma {:induction false} AllSeparators(s: JString, isSep: CodeUnit -> bool)
    requires forall i :: 0 <= i < |s| ==> isSep(s[i])
    ensures Without(s, isSep) == []
  {
    if |s| > 0 {
      AllSeparators(s[1..], isSep);
    }
  }

  // ---------------------------------------------------------------- truncate

  const ELLIPSIS: JString := [0x2E, 0x2E, 0x2E]

  /**
   `truncate`: text longer than `maxLength` is cut to its first `maxLength` code
   units and `"..."` is appended. A null input throws when its length is read; a
   negative `maxLength` always reaches `substring`, which throws.
   */
  function Truncate(input: Option<JString>, maxLength: int): (r: Result<JString>)
    ensures input.None? ==> r == Threw(NullPointerException)
    ensures input.Some? && |input.value| <= maxLength ==> r == Ok(input.value)
    ensures input.Some? && maxLength < 0 ==> r == Threw(StringIndexOutOfBoundsException)
    ensures input.Some? && 0 <= maxLength < |input.value| ==>
              && r.Ok?
              && |r.value| == maxLength + 3
              && r.value[..maxLength] == input.value[..maxLength]
              && r.value[maxLength..] == ELLIPSIS
  {
    match input
    case None => Threw(NullPointerException)
    case Some(s) =>
      if |s| > maxLength then
        match Substring(s, 0, maxLength)
        case Ok(head) => Ok(head + ELLIPSIS)
        case Threw(e) => Threw(e)
      else Ok(s)
  }

  /** Truncating a truncated text again with the same bound changes nothing. */
  lemma TruncateIdempotent(s: JString, maxLength: int)
    requires maxLength >= 0
    ensures Truncate(Some(s), maxLength).Ok?
    ensures Truncate(Some(Truncate(Some(s), maxLength).value), maxLength) == Truncate(Some(s), maxLength)
  {
    var t := Truncate(Some(s), maxLength).value;
    if |s| > maxLength {
      assert t == t[..maxLength] + ELLIPSIS;
    }
  }

  // ---------------------------------------------------------------- splitIntoWords

  /** `splitIntoWords`: the non-empty tokens between whitespace runs; null gives no words. */
  function SplitIntoWords(text: Option<JString>): (r: seq<JString>)
    ensures text.None? ==> r == []
    ensures forall i :: 0 <= i < |r| ==> |r[i]| > 0 && FreeOf(r[i], IsWhitespace)
    ensures text.Some? ==> Concat(r) == Without(text.value, IsWhitespace)
  {
    match text
    case None => []
    case Some(s) =>
      WordsConcat(s, IsWhitespace);
      Words(s, IsWhitespace)
  }

  /** Splitting words joined by any whitespace code unit gives the words back. */
  lemma SplitIntoWordsOfJoin(words: seq<JString>, sep: CodeUnit)
    requires IsWhitespace(sep)
    requires forall i :: 0 <= i < |words| ==> |words[i]| > 0 && FreeOf(words[i], IsWhitespace)
    ensures SplitIntoWords(Some(JoinWith(words, sep))) == words
  {
    WordsOfJoin(words, sep, IsWhitespace);
  }

  /**
   Every text is its whitespace-free fields joined by single whitespace code
   units (`JoinByOfFields`); splitting any such join keeps exactly the non-empty
   fields, in order.
   */
  lemma SplitIntoWordsOfJoinBy(parts: seq<JString>, seps: JString)
    requires |parts| == |seps| + 1
    requires forall i :: 0 <= i < |seps| ==> IsWhitespace(seps[i])
    requires forall i :: 0 <= i < |parts| ==> FreeOf(parts[i], IsWhitespace)
    ensures SplitIntoWords(Some(JoinBy(parts, seps))) == NonEmpty(parts)
  {
    FieldsOfJoinBy(parts, seps, IsWhitespace);
  }

  // ---------------------------------------------------------------- capitalizeWords

  /** One token as the loop appends it: first code unit upper-cased, the rest lower-cased. */
  function CapitalizeWord(w: JString): (r: JString)
    requires |w| > 0
    ensures |r| == |w|
    ensures r[0] == ToUpper(w[0])
    ensures forall k :: 1 <= k < |w| ==> r[k] == ToLower(w[k])
  {
    [ToUpper(w[0])] + (if |w| > 1 then LowerCase(w[1..]) else [])
  }

  /** The contents of the `StringBuilder` after the loop: each non-empty token capitalised and followed by a space. */
  function Appended(tokens: seq<JString>): (r: JString)
    ensures |r| == 0 <==> forall i :: 0 <= i < |tokens| ==> |tokens[i]| == 0
    ensures |r| > 0 ==> r[|r| - 1] == SPACE
  {
    if |tokens| == 0 then []
    else (if |tokens[0]| > 0 then CapitalizeWord(tokens[0]) + [SPACE] else []) + Appended(tokens[1..])
  }

  /**
   `capitalizeWords`: null and empty text come back unchanged; otherwise the
   space-separated tokens are capitalised, joined, and the result trimmed.
   */
  function CapitalizeWords(input: Option<JString>): (r: Option<JString>)
    ensures r.None? <==> input.None?
    ensures input.Some? && |input.value| == 0 ==> r == input
    ensures r.Some? && |r.value| > 0 ==> !IsBlank(r.value[0]) && !IsBlank(r.value[|r.value| - 1])
    ensures r.Some? ==> NoDoubleSpace(r.value)
  {
    match input
    case None => None
    case Some(s) =>
      if |s| == 0 then input
      else
        var built := Appended(Fields(s, IsSpace));
        AppendedShape(Fields(s, IsSpace));
        TrimKeepsNoDoubleSpace(built);
        Some(Trim(built))
  }

  lemma CapitalizeWordKeepsSpaceFree(w: JString)
    requires |w| > 0 && FreeOf(w, IsSpace)
    ensures FreeOf(CapitalizeWord(w), IsSpace)
  {
  }

  /** The builder never holds two spaces in a row, and when not empty it starts with a non-space. */
  lemma {:induction false} AppendedShape(tokens: seq<JString>)
    requires forall i :: 0 <= i < |tokens| ==> FreeOf(tokens[i], IsSpace)
    ensures NoDoubleSpace(Appended(tokens))
    ensures |Appended(tokens)| > 0 ==> Appended(tokens)[0] != SPACE
  {
    if |tokens| > 0 {
      AppendedShape(tokens[1..]);
      var rest := Appended(tokens[1..]);
      if |tokens[0]| > 0 {
        var w := CapitalizeWord(tokens[0]);
        CapitalizeWordKeepsSpaceFree(tokens[0]);
        var a := w + [SPACE] + rest;
        assert Appended(tokens) == a;
        forall i | 0 <= i < |a| - 1
          ensures !(a[i] == SPACE && a[i + 1] == SPACE)
        {
          if i < |w| {
            assert a[i] == w[i];
          } else {
            assert a[i + 1] == rest[i - |w|];
          }
        }
      }
    }
  }

  /** Trimming cuts out a slice, so it cannot create two spaces in a row. */
  lemma TrimKeepsNoDoubleSpace(s: JString)
    requires NoDoubleSpace(s)
    ensures NoDoubleSpace(Trim(s))
  {
    var r := Trim(s);
    var a := BlankPrefix(s);
    forall i | 0 <= i < |r| - 1
      ensures !(r[i] == SPACE && r[i + 1] == SPACE)
    {
      assert r[i] == s[a + i] && r[i + 1] == s[a + i + 1];
    }
  }

  /** Every word capitalised, in order. */
  function CapitalizeAll(words: seq<JString>): (r: seq<JString>)
    requires forall i :: 0 <= i < |words| ==> |words[i]| > 0
    ensures |r| == |words|
    ensures forall i :: 0 <= i < |r| ==> r[i] == CapitalizeWord(words[i])
  {
    if |words| == 0 then []
    else
      var first, rest := CapitalizeWord(words[0]), CapitalizeAll(words[1..]);
      assert forall i :: 1 <= i < |words| ==> rest[i - 1] == CapitalizeWord(words[i]);
      [first] + rest
  }

  /** Empty tokens add nothing to the builder. */
  lemma {:induction false} AppendedSkipsEmpty(tokens: seq<JString>)
    ensures Appended(tokens) == Appended(NonEmpty(tokens))
  {
    if |tokens| > 0 {
      AppendedSkipsEmpty(tokens[1..]);
      if |tokens[0]| > 0 {
        assert NonEmpty(tokens) == [tokens[0]] + NonEmpty(tokens[1..]);
        assert ([tokens[0]] + NonEmpty(tokens[1..]))[1..] == NonEmpty(tokens[1..]);
      } else {
        assert NonEmpty(tokens) == NonEmpty(tokens[1..]);
      }
    }
  }

  /** For non-empty words the builder holds their capitalised join plus one trailing space. */
  lemma {:induction false} AppendedIsJoin(words: seq<JString>)
    requires |words| > 0
    requires forall i :: 0 <= i < |words| ==> |words[i]| > 0
    ensures Appended(words) == JoinWith(CapitalizeAll(words), SPACE) + [SPACE]
  {
    var caps := CapitalizeAll(words);
    if |words| == 1 {
      assert words[1..] == [];
      assert Appended(words) == CapitalizeWord(words[0]) + [SPACE] + [];
    } else {
      AppendedIsJoin(words[1..]);
      assert caps[1..] == CapitalizeAll(words[1..]);
      assert JoinWith(caps, SPACE) == caps[0] + [SPACE] + JoinWith(caps[1..], SPACE);
    }
  }

  /** No code unit of `s` is blank. */
  predicate NonBlank(s: JString) {
    forall k :: 0 <= k < |s| ==> !IsBlank(s[k])
  }

  lemma CapitalizeWordKeepsNonBlank(w: JString)
    requires |w| > 0 && NonBlank(w)
    ensures NonBlank(CapitalizeWord(w))
  {
  }

  /** Joining non-blank words with spaces gives text whose only blanks are the joining spaces. */
  lemma {:induction false} JoinOfNonBlank(words: seq<JString>)
    requires |words| > 0
    requires forall i :: 0 <= i < |words| ==> |words[i]| > 0 && NonBlank(words[i])
    ensures var j := JoinWith(words, SPACE);
            |j| > 0 && !IsBlank(j[0]) && !IsBlank(j[|j| - 1]) && FreeOfControls(j)
  {
    if |words| > 1 {
      JoinOfNonBlank(words[1..]);
      var tail := JoinWith(words[1..], SPACE);
      var j := words[0] + [SPACE] + tail;
      assert JoinWith(words, SPACE) == j;
      forall k | 0 <= k < |j| ensures j[k] == SPACE || !IsBlank(j[k]) {
        if k < |words[0]| {
          assert j[k] == words[0][k];
        } else if k > |words[0]| {
          assert j[k] == tail[k - |words[0]| - 1];
        }
      }
    }
  }

  /** Trimming text with non-blank ends and one extra trailing space removes just that space. */
  lemma TrimTrailingSpace(x: JString)
    requires |x| > 0 && !IsBlank(x[0]) && !IsBlank(x[|x| - 1])
    ensures Trim(x + [SPACE]) == x
  {
    var t := x + [SPACE];
    assert BlankPrefix(t) == 0;
    assert t[..|t| - 1] == x;
    assert BlankSuffix(t) == 1 + BlankSuffix(x);
    assert BlankSuffix(x) == 0;
    assert t[0..] == t;
  }

  /** Words of text without control characters contain only non-blank code units. */
  lemma WordsNonBlank(s: JString)
    requires FreeOfControls(s)
    ensures forall i :: 0 <= i < |Words(s, IsSpace)| ==> NonBlank(Words(s, IsSpace)[i])
  {
    var ws := Words(s, IsSpace);
    forall i | 0 <= i < |ws| ensures NonBlank(ws[i]) {
      WordCodeUnitsFrom(s, IsSpace);
    }
  }

  /** Every code unit of every field comes from the text. */
  lemma {:induction false} FieldCodeUnitsFrom(s: JString, isSep: CodeUnit -> bool)
    ensures forall i, k :: 0 <= i < |Fields(s, isSep)| && 0 <= k < |Fields(s, isSep)[i]| ==>
              Fields(s, isSep)[i][k] in s
    decreases |s|
  {
    if |s| > 0 {
      FieldCodeUnitsFrom(s[1..], isSep);
      var rest := Fields(s[1..], isSep);
      var f := Fields(s, isSep);
      forall i, k | 0 <= i < |f| && 0 <= k < |f[i]| ensures f[i][k] in s {
        if isSep(s[0]) {
          assert i > 0 ==> f[i] == rest[i - 1];
          assert f[i][k] in s[1..];
        } else if i == 0 {
          if k > 0 {
            assert f[0][k] == rest[0][k - 1];
            assert f[0][k] in s[1..];
          }
        } else {
          assert f[i] == rest[i];
          assert f[i][k] in s[1..];
        }
      }
    }
  }

  lemma WordCodeUnitsFrom(s: JString, isSep: CodeUnit -> bool)
    ensures forall i, k :: 0 <= i < |Words(s, isSep)| && 0 <= k < |Words(s, isSep)[i]| ==>
              Words(s, isSep)[i][k] in s
  {
    FieldCodeUnitsFrom(s, isSep);
  }

  /**
   For any non-empty text, the builder holds the capitalised non-empty
   space-separated tokens joined by single spaces, plus one trailing space,
   and the result is that text trimmed.
   */
  lemma CapitalizeWordsBuilds(s: JString)
    requires |s| > 0
    ensures var ws := Words(s, IsSpace);
            CapitalizeWords(Some(s)) ==
              Some(Trim(if |ws| == 0 then [] else JoinWith(CapitalizeAll(ws), SPACE) + [SPACE]))
  {
    var ws := Words(s, IsSpace);
    AppendedSkipsEmpty(Fields(s, IsSpace));
    if |ws| > 0 {
      AppendedIsJoin(ws);
    }
  }

  /**
   On text without control characters, `capitalizeWords` is exactly the
   capitalised non-empty space-separated tokens joined by single spaces.
   */
  lemma CapitalizeWordsIsJoin(s: JString)
    requires |s| > 0 && FreeOfControls(s)
    ensures CapitalizeWords(Some(s)) == Some(JoinWith(CapitalizeAll(Words(s, IsSpace)), SPACE))
  {
    var ws := Words(s, IsSpace);
    CapitalizeWordsBuilds(s);
    if |ws| > 0 {
      WordsNonBlank(s);
      var caps := CapitalizeAll(ws);
      forall i | 0 <= i < |caps| ensures |caps[i]| > 0 && NonBlank(caps[i]) {
        CapitalizeWordKeepsNonBlank(ws[i]);
      }
      JoinOfNonBlank(caps);
      TrimTrailingSpace(JoinWith(caps, SPACE));
    }
  }

  /** Splitting the result on spaces gives back the capitalised words of the input. */
  lemma CapitalizeWordsKeepsWords(s: JString)
    requires |s| > 0 && FreeOfControls(s)
    ensures Words(CapitalizeWords(Some(s)).value, IsSpace) == CapitalizeAll(Words(s, IsSpace))
  {
    CapitalizeWordsIsJoin(s);
    var caps := CapitalizeAll(Words(s, IsSpace));
    forall i | 0 <= i < |caps| ensures |caps[i]| > 0 && FreeOf(caps[i], IsSpace) {
      CapitalizeWordKeepsSpaceFree(Words(s, IsSpace)[i]);
    }
    WordsOfJoin(caps, SPACE, IsSpace);
  }

  lemma {:induction false} CapitalizeAllIdempotent(words: seq<JString>)
    requires forall i :: 0 <= i < |words| ==> |words[i]| > 0
    ensures CapitalizeAll(CapitalizeAll(words)) == CapitalizeAll(words)
  {
    var once := CapitalizeAll(words);
    var twice := CapitalizeAll(once);
    forall i | 0 <= i < |words| ensures twice[i] == once[i] {
      var w := words[i];
      assert CapitalizeWord(CapitalizeWord(w)) == CapitalizeWord(w);
    }
  }

  /** On text without control characters, capitalising twice is capitalising once. */
  lemma CapitalizeWordsIdempotent(s: JString)
    requires FreeOfControls(s)
    ensures CapitalizeWords(CapitalizeWords(Some(s))) == CapitalizeWords(Some(s))
  {
    if |s| > 0 {
      CapitalizeWordsIsJoin(s);
      var ws := Words(s, IsSpace);
      var caps := CapitalizeAll(ws);
      var r := JoinWith(caps, SPACE);
      if |ws| > 0 {
        WordsNonBlank(s);
        forall i | 0 <= i < |caps| ensures |caps[i]| > 0 && NonBlank(caps[i]) {
          CapitalizeWordKeepsNonBlank(ws[i]);
        }
        JoinOfNonBlank(caps);
        CapitalizeWordsIsJoin(r);
        CapitalizeWordsKeepsWords(s);
        CapitalizeAllIdempotent(ws);
      }
    }
  }

  /**
   A control character in front of a word defeats capitalisation: the control
   character is taken as the token's first code unit, the rest is lower-cased,
   and `trim` then removes the control character.
   */
  lemma CapitalizeWordsAfterTab()
    ensures CapitalizeWords(Some([TAB, 'x' as CodeUnit])) == Some(['x' as CodeUnit])
  {
    var x: JString := ['x' as CodeUnit];
    var s: JString := [TAB] + x;
    var empty: JString := [];
    assert x[1..] == empty && Fields(empty, IsSpace) == [empty];
    assert !IsSpace(x[0]);
    assert [x[0]] + empty == x;
    assert [empty][1..] == [];
    assert Fields(x, IsSpace) == [[x[0]] + empty] + [empty][1..];
    assert Fields(x, IsSpace) == [x];
    assert s[1..] == x;
    assert Fields(s, IsSpace) == [s];
    var built := CapitalizeWord(s) + [SPACE];
    assert Appended([s]) == built + [];
    assert built + [] == built;
    assert Appended(Fields(s, IsSpace)) == built;
    assert built == [TAB, 'x' as CodeUnit, SPACE];
    assert BlankPrefix(built) == 1 by {
      assert BlankPrefix(built[1..]) == 0;
    }
    var t := built[1..];
    assert BlankSuffix(t) == 1 by {
      assert t[..|t| - 1] == x;
    }
    assert Trim(built) == t[..1] == x;
    assert s == [TAB, 'x' as CodeUnit];
    assert CapitalizeWords(Some(s)) == Some(Trim(Appended(Fields(s, IsSpace))));
  }

  // ---------------------------------------------------------------- countVowels

  const VOWELS: JString := [
    'a' as CodeUnit, 'e' as CodeUnit, 'i' as CodeUnit, 'o' as CodeUnit, 'u' as CodeUnit,
    'A' as CodeUnit, 'E' as CodeUnit, 'I' as CodeUnit, 'O' as CodeUnit, 'U' as CodeUnit]

  /** The test `vowels.indexOf(c) != -1`, which is membership in the vowel list. */
  function IsVowel(c: CodeUnit): (b: bool)
    ensures b <==> c in VOWELS
  {
    IndexOf(VOWELS, c) != -1
  }

  /** The positions below `n` whose code unit satisfies `p`. */
  ghost function Positions(s: JString, n: nat, p: CodeUnit -> bool): set<nat>
    requires n <= |s|
  {
    set k: nat | k < n && p(s[k])
  }

  /** The positions below `n` that hold a vowel. */
  ghost function VowelPositions(s: JString, n: nat): set<nat>
    requires n <= |s|
  {
    Positions(s, n, IsVowel)
  }

  /** The number of code units of `s` satisfying `p`, counted from the back. */
  function CountWhere(s: JString, p: CodeUnit -> bool): nat {
    if |s| == 0 then 0 else CountWhere(s[..|s| - 1], p) + (if p(s[|s| - 1]) then 1 else 0)
  }

  /** A reference count of the vowels, one code unit at a time. */
  function VowelCount(s: JString): nat {
    CountWhere(s, IsVowel)
  }

  /** Advancing one position adds that position exactly when its code unit satisfies `p`. */
  lemma PositionsStep(s: JString, n: nat, p: CodeUnit -> bool)
    requires n < |s|
    ensures |Positions(s, n + 1, p)| == |Positions(s, n, p)| + (if p(s[n]) then 1 else 0)
  {
    var before, after := Positions(s, n, p), Positions(s, n + 1, p);
    assert n !in before;
    if p(s[n]) {
      assert after == before + {n};
    } else {
      assert after == before;
    }
  }

  /** Extending a prefix by one code unit adds one exactly when that code unit satisfies `p`. */
  lemma CountWhereStep(s: JString, n: nat, p: CodeUnit -> bool)
    requires n < |s|
    ensures CountWhere(s[..n + 1], p) == CountWhere(s[..n], p) + (if p(s[n]) then 1 else 0)
  {
    assert s[..n + 1][..n] == s[..n];
  }

  /** The count of a prefix is the number of positions in it that satisfy `p`. */
  lemma {:induction false} CountWhereIsPositions(s: JString, n: nat, p: CodeUnit -> bool)
    requires n <= |s|
    ensures CountWhere(s[..n], p) == |Positions(s, n, p)|
  {
    if n == 0 {
      assert Positions(s, 0, p) == {};
    } else {
      CountWhereIsPositions(s, n - 1, p);
      CountWhereStep(s, n - 1, p);
      PositionsStep(s, n - 1, p);
    }
  }

  /**
   `countVowels`: the number of positions holding a vowel. Reading the length
   of a null text throws.
   */
  method CountVowels(text: Option<JString>) returns (r: Result<int>)
    ensures text.None? <==> r.Threw?
    ensures text.None? ==> r.exception == NullPointerException
    ensures text.Some? ==> && r.value == |VowelPositions(text.value, |text.value|)|
                           && r.value == VowelCount(text.value)
                           && 0 <= r.value <= |text.value|
  {
    if text.None? {
      return Threw(NullPointerException);
    }
    var t := text.value;
    var count := 0;
    var i := 0;
    while i < |t|
      invariant 0 <= i <= |t|
      invariant count == VowelCount(t[..i])
      invariant count <= i
    {
      CountWhereStep(t, i, IsVowel);
      if IsVowel(t[i]) {
        count := count + 1;
      }
      i := i + 1;
    }
    assert t[..i] == t;
    CountWhereIsPositions(t, i, IsVowel);
    return Ok(count);
  }

  /** A vowel is a vowel in either case, and only ASCII letters are vowels. */
  lemma IsVowelIgnoresCase(c: CodeUnit)
    ensures IsVowel(c) <==> IsVowel(ToLower(c))
    ensures IsVowel(c) ==> IsAsciiUpper(c) || IsAsciiLower(c)
  {
  }

  /** The count of a concatenation is the sum of the counts. */
  lemma {:induction false} CountWhereAdditive(a: JString, b: JString, p: CodeUnit -> bool)
    ensures CountWhere(a + b, p) == CountWhere(a, p) + CountWhere(b, p)
    decreases |b|
  {
    if |b| == 0 {
      assert a + b == a;
    } else {
      var ab := a + b;
      assert ab[..|ab| - 1] == a + b[..|b| - 1];
      CountWhereAdditive(a, b[..|b| - 1], p);
    }
  }

  /** No text has more matching code units than code units, and the empty text has none. */
  lemma {:induction false} CountWhereBounds(s: JString, p: CodeUnit -> bool)
    ensures CountWhere(s, p) <= |s|
    ensures |s| == 0 ==> CountWhere(s, p) == 0
  {
    if |s| > 0 {
      CountWhereBounds(s[..|s| - 1], p);
    }
  }
}
