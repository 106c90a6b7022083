/** The behaviour of StringUtils on concrete inputs. */
module Examples {
  import opened Wrappers
  import opened JavaString
  import opened Split
  import opened Utf16
  import opened StringUtils

  /**
   The Java string literal spelled by ASCII text. Each character is taken
   modulo 128, which leaves the ASCII characters used here unchanged.
   */
  function FromAscii(s: string): (r: JString)
    ensures |r| == |s|
    ensures forall i :: 0 <= i < |s| && s[i] as int < 0x80 ==> r[i] as int == s[i] as int
  {
    seq(|s|, i requires 0 <= i < |s| => (s[i] as int % 0x80) as CodeUnit)
  }

  lemma TruncateExamples()
    ensures Truncate(Some(FromAscii("hello")), 10) == Ok(FromAscii("hello"))
    ensures Truncate(Some(FromAscii("hello world")), 5) == Ok(FromAscii("hello..."))
  {
    var h := FromAscii("hello world");
    assert h[..5] == FromAscii("hello");
    assert FromAscii("hello") + ELLIPSIS == FromAscii("hello...");
  }

  lemma PalindromeRaceCar()
    ensures IsPalindrome(Some(FromAscii("Race car")))
  {
    var race := FromAscii("Race car");
    RaceCarNormalized();
    RaceCarLetters();
    IsPalindromeSurrogateFree(race);
  }

  /** "Race car" is free of surrogates, and "racecar" reads the same from both ends. */
  lemma RaceCarLetters()
    ensures SurrogateFree(FromAscii("Race car"))
    ensures IsMirror(FromAscii("racecar"))
  {
  }

  /** Normalizing two whitespace-free halves around a space lower-cases and concatenates them. */
  lemma NormalizeAroundSpace(a: JString, b: JString)
    requires FreeOf(LowerCase(a), IsWhitespace) && FreeOf(LowerCase(b), IsWhitespace)
    ensures Normalize(a + [SPACE] + b) == LowerCase(a) + LowerCase(b)
  {
    LowerCaseAroundSpace(a, b);
    WithoutAroundSeparator(LowerCase(a), SPACE, LowerCase(b), IsWhitespace);
  }

  lemma WithoutAroundSeparator(x: JString, sep: CodeUnit, y: JString, isSep: CodeUnit -> bool)
    requires isSep(sep) && FreeOf(x, isSep) && FreeOf(y, isSep)
    ensures Without(x + [sep] + y, isSep) == x + y
  {
    var one: JString := [sep];
    assert Without(one, isSep) == [] by {
      assert one[1..] == [];
    }
    WithoutAppend(x, one, isSep);
    WithoutFreeOf(x, isSep);
    assert Without(x + one, isSep) == x;
    WithoutAppend(x + one, y, isSep);
    WithoutFreeOf(y, isSep);
  }

  lemma LowerCaseAroundSpace(a: JString, b: JString)
    ensures LowerCase(a + [SPACE] + b) == LowerCase(a) + [SPACE] + LowerCase(b)
  {
  }

  lemma RaceCarNormalized()
    ensures Normalize(FromAscii("Race car")) == FromAscii("racecar")
  {
    RaceCarHalves();
    NormalizeAroundSpace(FromAscii("Race"), FromAscii("car"));
  }

  lemma RaceCarHalves()
    ensures FromAscii("Race car") == FromAscii("Race") + [SPACE] + FromAscii("car")
    ensures LowerCase(FromAscii("Race")) + LowerCase(FromAscii("car")) == FromAscii("racecar")
    ensures FreeOf(LowerCase(FromAscii("Race")), IsWhitespace)
    ensures FreeOf(LowerCase(FromAscii("car")), IsWhitespace)
  {
  }

  lemma PalindromeHello()
    ensures !IsPalindrome(None)
    ensures !IsPalindrome(Some([]))
    ensures !IsPalindrome(Some(FromAscii("hello")))
  {
    var hello := FromAscii("hello");
    assert LowerCase(hello) == hello;
    WithoutFreeOf(hello, IsWhitespace);
    assert !IsMirror(Normalize(hello)) by {
      assert Normalize(hello)[0] != Normalize(hello)[4];
    }
    assert SurrogateFree(hello);
    IsPalindromeSurrogateFree(hello);
  }

  lemma VowelExamples()
    ensures VowelCount([]) == 0
    ensures VowelCount(FromAscii("Hello World")) == 3
  {
    var a, b, c, d := FromAscii("He"), FromAscii("llo"), FromAscii(" Wo"), FromAscii("rld");
    HelloWorldPieces();
    CountWhereAdditive(a + b + c, d, IsVowel);
    CountWhereAdditive(a + b, c, IsVowel);
    CountWhereAdditive(a, b, IsVowel);
    PiecesSpelled();
    VowelsInHe(a);
    VowelsInLlo(b);
    VowelsInWo(c);
    VowelsInRld(d);
  }

  lemma HelloWorldPieces()
    ensures FromAscii("Hello World") == FromAscii("He") + FromAscii("llo") + FromAscii(" Wo") + FromAscii("rld")
  {
  }

  /** The code units of the four pieces of "Hello World". */
  lemma PiecesSpelled()
    ensures var s := FromAscii("He"); |s| == 2 && s[0] == 0x48 && s[1] == 0x65
    ensures var s := FromAscii("llo"); |s| == 3 && s[0] == 0x6C && s[1] == 0x6C && s[2] == 0x6F
    ensures var s := FromAscii(" Wo"); |s| == 3 && s[0] == 0x20 && s[1] == 0x57 && s[2] == 0x6F
    ensures var s := FromAscii("rld"); |s| == 3 && s[0] == 0x72 && s[1] == 0x6C && s[2] == 0x64
  {
  }

  lemma VowelsInHe(s: JString)
    requires |s| == 2 && s[0] == 0x48 && s[1] == 0x65
    ensures VowelCount(s) == 1
  {
    VowelsByMembership(s);
  }

  lemma VowelsInLlo(s: JString)
    requires |s| == 3 && s[0] == 0x6C && s[1] == 0x6C && s[2] == 0x6F
    ensures VowelCount(s) == 1
  {
    VowelsByMembership(s);
  }

  lemma VowelsInWo(s: JString)
    requires |s| == 3 && s[0] == 0x20 && s[1] == 0x57 && s[2] == 0x6F
    ensures VowelCount(s) == 1
  {
    VowelsByMembership(s);
  }

  lemma VowelsInRld(s: JString)
    requires |s| == 3 && s[0] == 0x72 && s[1] == 0x6C && s[2] == 0x64
    ensures VowelCount(s) == 0
  {
    VowelsByMembership(s);
  }

  function Bit(b: bool): nat {
    if b then 1 else 0
  }

  /** The count over a string of two or three code units, position by position. */
  lemma CountOfShort(s: JString, p: CodeUnit -> bool)
    requires 2 <= |s| <= 3
    ensures CountWhere(s, p) == Bit(p(s[0])) + Bit(p(s[1])) + (if |s| == 3 then Bit(p(s[2])) else 0)
  {
    var p1, p2 := s[..1], s[..2];
    assert p1[..0] == [];
    assert CountWhere(p1, p) == Bit(p(s[0]));
    assert p2[..1] == p1;
    assert CountWhere(p2, p) == CountWhere(p1, p) + Bit(p(s[1]));
    if |s| == 3 {
      assert s[..2] == p2;
    } else {
      assert s == p2;
    }
  }

  /** The vowel count of a short string, read off the vowel list. */
  lemma VowelsByMembership(s: JString)
    requires 2 <= |s| <= 3
    ensures VowelCount(s) == Bit(s[0] in VOWELS) + Bit(s[1] in VOWELS) + (if |s| == 3 then Bit(s[2] in VOWELS) else 0)
  {
    CountOfShort(s, IsVowel);
  }

  lemma SplitExamples()
    ensures SplitIntoWords(None) == []
    ensures SplitIntoWords(Some(FromAscii("  a  b "))) == [FromAscii("a"), FromAscii("b")]
  {
    SpacedABSpelled();
    WordsAmidSpaces(FromAscii("a"), FromAscii("b"));
  }

  lemma SpacedABSpelled()
    ensures FromAscii("  a  b ") == [SPACE, SPACE] + FromAscii("a") + [SPACE, SPACE] + FromAscii("b") + [SPACE]
    ensures |FromAscii("a")| > 0 && FreeOf(FromAscii("a"), IsWhitespace)
    ensures |FromAscii("b")| > 0 && FreeOf(FromAscii("b"), IsWhitespace)
  {
  }

  /** Two words with two spaces before them, two between them and one after split into just the two words. */
  lemma WordsAmidSpaces(a: JString, b: JString)
    requires |a| > 0 && FreeOf(a, IsWhitespace)
    requires |b| > 0 && FreeOf(b, IsWhitespace)
    ensures Words([SPACE, SPACE] + a + [SPACE, SPACE] + b + [SPACE], IsWhitespace) == [a, b]
  {
    var e: JString := [];
    var parts := [e, e, a, e, b, e];
    JoinWithGaps(parts);
    FieldsOfJoin(parts, SPACE, IsWhitespace);
    NonEmptyOfGaps(parts);
  }

  lemma NonEmptyOfGaps(parts: seq<JString>)
    requires |parts| == 6 && parts[0] == parts[1] == parts[3] == parts[5] == []
    requires |parts[2]| > 0 && |parts[4]| > 0
    ensures NonEmpty(parts) == [parts[2], parts[4]]
  {
    var e: JString, x, y := [], parts[2], parts[4];
    var t5: seq<JString> := [e];
    var t4 := [y] + t5;
    var t3 := [e] + t4;
    var t2 := [x] + t3;
    var t1 := [e] + t2;
    assert parts == [e] + t1;
    NonEmptyCons(y, t5);
    NonEmptyCons(e, t4);
    NonEmptyCons(x, t3);
    NonEmptyCons(e, t2);
    NonEmptyCons(e, t1);
  }

  lemma NonEmptyCons(head: JString, tail: seq<JString>)
    ensures NonEmpty([head] + tail) == (if |head| > 0 then [head] else []) + NonEmpty(tail)
  {
    var l := [head] + tail;
    assert l[1..] == tail;
  }

  lemma JoinWithGaps(parts: seq<JString>)
    requires |parts| == 6 && parts[0] == parts[1] == parts[3] == parts[5] == []
    ensures JoinWith(parts, SPACE) == [SPACE, SPACE] + parts[2] + [SPACE, SPACE] + parts[4] + [SPACE]
  {
    var j5 := JoinWith(parts[5..], SPACE);
    var j4 := JoinWith(parts[4..], SPACE);
    assert j4 == parts[4] + [SPACE] + j5;
    var j3 := JoinWith(parts[3..], SPACE);
    assert j3 == parts[3] + [SPACE] + j4;
    var j2 := JoinWith(parts[2..], SPACE);
    assert j2 == parts[2] + [SPACE] + j3;
    var j1 := JoinWith(parts[1..], SPACE);
    assert j1 == parts[1] + [SPACE] + j2;
    assert JoinWith(parts, SPACE) == parts[0] + [SPACE] + j1;
  }

  lemma CapitalizeExamples()
    ensures CapitalizeWords(None) == None
    ensures CapitalizeWords(Some([])) == Some([])
    ensures CapitalizeWords(Some(FromAscii("hello world"))) == Some(FromAscii("Hello World"))
  {
    HelloWorldSpelled();
    HelloWorldWords();
    CapitalizeTwoWords(FromAscii("hello"), FromAscii("world"));
  }

  lemma HelloWorldSpelled()
    ensures FromAscii("hello world") == FromAscii("hello") + [SPACE] + FromAscii("world")
    ensures FromAscii("Hello World") == FromAscii("Hello") + [SPACE] + FromAscii("World")
    ensures |FromAscii("hello")| > 0 && FreeOfControls(FromAscii("hello")) && FreeOf(FromAscii("hello"), IsSpace)
    ensures |FromAscii("world")| > 0 && FreeOfControls(FromAscii("world")) && FreeOf(FromAscii("world"), IsSpace)
  {
  }

  lemma HelloWorldWords()
    ensures CapitalizeWord(FromAscii("hello")) == FromAscii("Hello")
    ensures CapitalizeWord(FromAscii("world")) == FromAscii("World")
  {
    CapitalizedFive(FromAscii("hello"), FromAscii("Hello"));
    CapitalizedFive(FromAscii("world"), FromAscii("World"));
  }

  /** A five-letter word against its capitalized form, letter by letter. */
  lemma CapitalizedFive(w: JString, c: JString)
    requires |w| == 5 && |c| == 5
    requires c[0] == ToUpper(w[0])
    requires forall k :: 1 <= k < 5 ==> c[k] == ToLower(w[k])
    ensures CapitalizeWord(w) == c
  {
  }

  /** Two words separated by one space come out capitalized, still separated by one space. */
  lemma CapitalizeTwoWords(a: JString, b: JString)
    requires |a| > 0 && FreeOfControls(a) && FreeOf(a, IsSpace)
    requires |b| > 0 && FreeOfControls(b) && FreeOf(b, IsSpace)
    ensures CapitalizeWords(Some(a + [SPACE] + b)) == Some(CapitalizeWord(a) + [SPACE] + CapitalizeWord(b))
  {
    var s, ws := a + [SPACE] + b, [a, b];
    TwoWordJoin(ws, s);
    WordsOfJoin(ws, SPACE, IsSpace);
    SpacedFreeOfControls(a, b);
    CapitalizeWordsIsJoin(s);
    CapitalizeBoth(a, b);
  }

  lemma SpacedFreeOfControls(a: JString, b: JString)
    requires FreeOfControls(a) && FreeOfControls(b)
    ensures FreeOfControls(a + [SPACE] + b)
  {
    var s := a + [SPACE] + b;
    forall i | 0 <= i < |s|
      ensures s[i] == SPACE || !IsBlank(s[i])
    {
      if i > |a| {
        assert s[i] == b[i - |a| - 1];
      }
    }
  }

  lemma CapitalizeBoth(a: JString, b: JString)
    requires |a| > 0 && |b| > 0
    ensures JoinWith(CapitalizeAll([a, b]), SPACE) == CapitalizeWord(a) + [SPACE] + CapitalizeWord(b)
  {
    var caps := CapitalizeAll([a, b]);
    assert caps == [CapitalizeWord(a), CapitalizeWord(b)];
    TwoWordJoin(caps, CapitalizeWord(a) + [SPACE] + CapitalizeWord(b));
  }

  lemma TwoWordJoin(ws: seq<JString>, s: JString)
    requires |ws| == 2 && s == ws[0] + [SPACE] + ws[1]
    ensures JoinWith(ws, SPACE) == s
  {
    assert ws[1..][1..] == [];
  }
}
