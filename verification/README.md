# StringUtils in Dafny

This project models `com.acme.StringUtils`, a stateless Java helper class with
six text operations: `reverseString`, `isPalindrome`, `truncate`,
`splitIntoWords`, `capitalizeWords` and `countVowels`. Each operation becomes a
pure Dafny function (or, for the counting loop, a method), and the properties
the class promises its callers are proved about them.

How Java is represented:

- A Java `String` is a sequence of UTF-16 code units (`JavaString.CodeUnit`,
  0 to 0xFFFF). Surrogates are ordinary code units, as they are in Java.
  Dafny's `char` is used only for decoded code points.
- A nullable `String` argument is an `Option`. A call that throws is a
  `Result` whose `Threw` case names the exception: `NullPointerException`
  when a null is dereferenced, and `StringIndexOutOfBoundsException` when
  `substring` gets bad bounds.
- `new StringBuilder(s).reverse()` reverses the code units and then swaps
  every reversed surrogate pair back into high-then-low order, as the JDK
  does (`Utf16.BuilderReverse`). So reversal is an involution on well-formed
  UTF-16 but not on text with lone surrogates, and both facts are proved.
- `split("\\s+")` and `split(" ")` are modelled as the fields between
  separator code units (`Split.Fields`) followed by the callers' own filter
  that drops empty fields (`Split.NonEmpty`). Java's regex split also merges
  separator runs and drops trailing empty fields. Both of those only remove
  empty fields, which the callers discard anyway, so the outcome is the same.
- `\s` is Java's `[ \t\n\x0B\f\r]`. `trim()` strips every code unit up to
  and including the space (0x20) from both ends.

Modules:

- `Wrappers`: `Option`, `Result`, and the Java exceptions.
- `JavaString`: the `String` and `Character` methods the class calls.
- `Split`: fields, the empty-field filter, joins, and deleting separators.
- `Utf16`: surrogates, decoding and encoding, and `StringBuilder.reverse()`.
- `StringUtils`: the six operations and their properties.
- `Examples`: the behaviour on concrete inputs.

## Model

| member | source | states |
|---|---|---|
| StringUtils.ReverseString | gradle-basic/src/main/java/com/acme/StringUtils.java:8-14 | null gives null; otherwise the result has the input's length and the same code units (as a multiset), and on text without surrogates position i holds the input's code unit at length-1-i |
| Utf16.BuilderReverse | gradle-basic/src/main/java/com/acme/StringUtils.java:13 | `StringBuilder.reverse()` keeps the length and the multiset of code units, and on surrogate-free text it is plain reversal |
| Utf16.BuilderReverseCodePoints | gradle-basic/src/main/java/com/acme/StringUtils.java:13 | on well-formed UTF-16 the builder's reversal is the UTF-16 encoding of the input's code points in reverse order |
| Utf16.BuilderReverseInvolution | gradle-basic/src/main/java/com/acme/StringUtils.java:13 | on well-formed UTF-16 the reversal is again well-formed, and reversing twice gives the input back |
| Utf16.BuilderReverseNotInvolutive | gradle-basic/src/main/java/com/acme/StringUtils.java:13 | the two units 0xDC00 then 0xD800 reverse to 0xD800 then 0xDC00, and reversing that leaves it as it is, so two reversals do not restore this input |
| StringUtils.ReverseStringCodePoints | gradle-basic/src/main/java/com/acme/StringUtils.java:8-14 | for well-formed input the result is well-formed and decodes to the input's code points reversed |
| StringUtils.ReverseStringInvolution | gradle-basic/src/main/java/com/acme/StringUtils.java:8-14 | `reverseString(reverseString(s)) == s` for every well-formed `s` |
| StringUtils.ReverseStringNotInvolutive | gradle-basic/src/main/java/com/acme/StringUtils.java:8-14 | there is a string (one lone low surrogate before one lone high surrogate) that two reversals do not restore |
| StringUtils.IsPalindrome | gradle-basic/src/main/java/com/acme/StringUtils.java:16-23 | null and empty text are never palindromes |
| StringUtils.IsPalindromeSurrogateFree | gradle-basic/src/main/java/com/acme/StringUtils.java:16-23 | for non-empty surrogate-free text, the answer is true exactly when the lower-cased, whitespace-free text reads the same from both ends |
| StringUtils.IsPalindromeCodePoints | gradle-basic/src/main/java/com/acme/StringUtils.java:20-22 | for non-empty well-formed text, the normalized text is well-formed, and the answer is true exactly when its code points read the same from both ends |
| StringUtils.AllWhitespaceIsPalindrome | gradle-basic/src/main/java/com/acme/StringUtils.java:17-22 | non-empty text made only of whitespace is a palindrome, because normalizing leaves nothing |
| JavaString.LowerCase | gradle-basic/src/main/java/com/acme/StringUtils.java:20 | lower-casing keeps the length, lower-cases each ASCII capital, and leaves no ASCII capital behind |
| StringUtils.Normalize | gradle-basic/src/main/java/com/acme/StringUtils.java:20 | the normalized text is no longer than the input, holds no whitespace and no ASCII capital |
| StringUtils.NormalizeIdempotent | gradle-basic/src/main/java/com/acme/StringUtils.java:20 | normalizing already normalized text changes nothing |
| Split.Without | gradle-basic/src/main/java/com/acme/StringUtils.java:20 | deleting the whitespace leaves no whitespace, never lengthens the text, and keeps only code units of the input |
| JavaString.Substring | gradle-basic/src/main/java/com/acme/StringUtils.java:27 | `substring(begin, end)` succeeds exactly when `0 <= begin <= end <= length`, then holds the code units from `begin` on; otherwise it throws `StringIndexOutOfBoundsException` |
| StringUtils.Truncate | gradle-basic/src/main/java/com/acme/StringUtils.java:25-30 | null throws `NullPointerException`; text no longer than the bound is returned as is; a negative bound throws `StringIndexOutOfBoundsException`; otherwise the result is the first `maxLength` code units followed by `"..."`, length `maxLength + 3` |
| StringUtils.TruncateIdempotent | gradle-basic/src/main/java/com/acme/StringUtils.java:25-30 | with a non-negative bound truncation never throws, and truncating its result again with the same bound changes nothing |
| Split.Fields | gradle-basic/src/main/java/com/acme/StringUtils.java:37 | splitting yields at least one field, and no field holds a separator |
| Split.Separators | gradle-basic/src/main/java/com/acme/StringUtils.java:37 | a string has exactly one separator fewer than it has fields, and they are all separators |
| Split.JoinByOfFields | gradle-basic/src/main/java/com/acme/StringUtils.java:37 | every string is its fields joined by its own separators, so splitting loses nothing but the separators |
| Split.FieldsOfJoinBy | gradle-basic/src/main/java/com/acme/StringUtils.java:37 | separator-free parts joined by any separator code units split back into exactly those parts |
| Split.NonEmpty | gradle-basic/src/main/java/com/acme/StringUtils.java:38-42 | the filter keeps only non-empty fields, each one taken from the input list, and never more than there were; every non-empty field is kept; a single field is kept exactly when it is non-empty |
| Split.NonEmptyAppend | gradle-basic/src/main/java/com/acme/StringUtils.java:38-42 | filtering a concatenation of field lists is filtering each list and concatenating, so with the single-field case the filter keeps every non-empty field, in order, and nothing else |
| Split.Words | gradle-basic/src/main/java/com/acme/StringUtils.java:37-42 | splitting then filtering yields only non-empty words that contain no separator |
| Split.WordsConcat | gradle-basic/src/main/java/com/acme/StringUtils.java:37-42 | the kept words, written one after another, are the text with its separators deleted |
| StringUtils.SplitIntoWords | gradle-basic/src/main/java/com/acme/StringUtils.java:32-44 | null gives no words; every word is non-empty and whitespace-free; the words concatenated are the text with all whitespace deleted |
| StringUtils.SplitIntoWordsOfJoinBy | gradle-basic/src/main/java/com/acme/StringUtils.java:37-42 | whitespace-free parts joined by any whitespace code units split into exactly the non-empty parts, in order |
| StringUtils.SplitIntoWordsOfJoin | gradle-basic/src/main/java/com/acme/StringUtils.java:32-44 | non-empty whitespace-free words joined by one whitespace code unit split back into those words |
| Split.JoinOfFields | gradle-basic/src/main/java/com/acme/StringUtils.java:50 | the fields of `split(" ")` joined with single spaces give the input back |
| JavaString.ToUpper | gradle-basic/src/main/java/com/acme/StringUtils.java:54 | `Character.toUpperCase` turns an ASCII lower-case letter into its capital, 0x20 below it, and leaves every other code unit alone |
| StringUtils.CapitalizeWord | gradle-basic/src/main/java/com/acme/StringUtils.java:53-57 | a token keeps its length; its first code unit is upper-cased and every later one lower-cased |
| StringUtils.CapitalizeAll | gradle-basic/src/main/java/com/acme/StringUtils.java:52-60 | capitalizing a word list keeps its length and capitalizes each word in place |
| StringUtils.Appended | gradle-basic/src/main/java/com/acme/StringUtils.java:51-60 | the builder stays empty exactly when every token is empty, and otherwise ends with the space appended after the last word |
| StringUtils.AppendedShape | gradle-basic/src/main/java/com/acme/StringUtils.java:51-60 | the builder never holds two spaces in a row and never starts with a space |
| StringUtils.AppendedSkipsEmpty | gradle-basic/src/main/java/com/acme/StringUtils.java:52-53 | empty tokens add nothing to the builder |
| StringUtils.AppendedIsJoin | gradle-basic/src/main/java/com/acme/StringUtils.java:51-60 | for non-empty words the builder holds the capitalized words joined by single spaces, plus one trailing space |
| JavaString.Trim | gradle-basic/src/main/java/com/acme/StringUtils.java:61 | `trim()` returns a slice of the text whose ends are not blank and whose outside is all blank |
| StringUtils.TrimKeepsNoDoubleSpace | gradle-basic/src/main/java/com/acme/StringUtils.java:61 | trimming cannot create two spaces in a row |
| StringUtils.TrimTrailingSpace | gradle-basic/src/main/java/com/acme/StringUtils.java:58-61 | trimming text with non-blank ends plus the builder's last space removes exactly that space |
| StringUtils.CapitalizeWords | gradle-basic/src/main/java/com/acme/StringUtils.java:46-62 | null gives null and empty gives empty; the result has no blank at either end and never two spaces in a row |
| StringUtils.CapitalizeWordsBuilds | gradle-basic/src/main/java/com/acme/StringUtils.java:46-61 | for any non-empty text, the result is the trimmed text of the capitalized non-empty space-separated tokens, joined by single spaces and followed by one space; empty tokens contribute nothing |
| StringUtils.CapitalizeWordsIsJoin | gradle-basic/src/main/java/com/acme/StringUtils.java:46-62 | for non-empty text without control characters, the result is the capitalized non-empty space-separated words joined by single spaces |
| StringUtils.CapitalizeWordsKeepsWords | gradle-basic/src/main/java/com/acme/StringUtils.java:46-62 | for text without control characters, splitting the result on spaces gives the input's words, capitalized |
| StringUtils.CapitalizeWordsIdempotent | gradle-basic/src/main/java/com/acme/StringUtils.java:46-62 | for text without control characters, capitalizing twice gives the same as capitalizing once |
| StringUtils.CapitalizeWordsAfterTab | gradle-basic/src/main/java/com/acme/StringUtils.java:50-61 | a tab before a word is taken as the token's first code unit, so the word is lower-cased and the tab is then trimmed: tab then "x" gives "x" |
| JavaString.IndexOf | gradle-basic/src/main/java/com/acme/StringUtils.java:68 | `indexOf` is -1 exactly when the code unit is absent; otherwise it is the first position that holds it |
| StringUtils.IsVowel | gradle-basic/src/main/java/com/acme/StringUtils.java:66-68 | `vowels.indexOf(c) != -1` holds exactly when `c` is one of the ten code units of `aeiouAEIOU` |
| StringUtils.IsVowelIgnoresCase | gradle-basic/src/main/java/com/acme/StringUtils.java:66-68 | a code unit is a vowel exactly when its lower-case form is, and only ASCII letters are vowels |
| StringUtils.CountVowels | gradle-basic/src/main/java/com/acme/StringUtils.java:64-73 | null throws `NullPointerException`; otherwise the count is the number of positions holding one of `aeiouAEIOU`, equals the reference count, and lies between 0 and the length |
| StringUtils.CountWhereIsPositions | gradle-basic/src/main/java/com/acme/StringUtils.java:67-71 | the count over a prefix is the number of its positions that satisfy the test |
| StringUtils.CountWhereAdditive | gradle-basic/src/main/java/com/acme/StringUtils.java:67-71 | the count of a concatenation is the sum of the counts of its parts; with the vowel test this is the additivity of the vowel count |
| StringUtils.CountWhereBounds | gradle-basic/src/main/java/com/acme/StringUtils.java:65-72 | no text has more counted code units than code units, and empty text counts zero |
| Examples.TruncateExamples | gradle-basic/src/main/java/com/acme/StringUtils.java:25-30 | "hello" with bound 10 is unchanged; "hello world" with bound 5 becomes "hello..." |
| Examples.PalindromeRaceCar | gradle-basic/src/main/java/com/acme/StringUtils.java:16-23 | "Race car" is a palindrome |
| Examples.PalindromeHello | gradle-basic/src/main/java/com/acme/StringUtils.java:16-23 | null, empty text and "hello" are not palindromes |
| Examples.SplitExamples | gradle-basic/src/main/java/com/acme/StringUtils.java:32-44 | null gives no words; "  a  b " gives the words "a" and "b" |
| Examples.CapitalizeExamples | gradle-basic/src/main/java/com/acme/StringUtils.java:46-62 | null and empty text come back unchanged; "hello world" becomes "Hello World" |
| Examples.VowelExamples | gradle-basic/src/main/java/com/acme/StringUtils.java:64-73 | empty text has no vowels; "Hello World" has three |

## Left out

- JavaString.LowerCase, JavaString.ToLower and JavaString.ToUpper map only the ASCII letters. Java's `toLowerCase()` follows the default locale and full Unicode case mapping, which can change other letters and even the length. Unicode tables are outside this model.
- The regular-expression engine behind `split("\\s+")` and `replaceAll("\\s+", "")` is not modelled. Only its effect for the class `\s` is: deleting, or splitting at, each whitespace code unit.
- Java's `split` removes trailing empty strings. This is not modelled, because both callers drop every empty field anyway.
- The unused local variable in `reverseString` (line 12) has no effect and is left out.
- `ArrayList` and `StringBuilder` are modelled by their contents only: a sequence of words and the appended text. Their capacity growth and `OutOfMemoryError` are left out.
- Java `int` is 32-bit, but all lengths, counts and indexes here are unbounded integers. A Java string holds at most 2^31-1 code units, and `CountVowels` proves its count never exceeds the length, so the counter cannot overflow. The `maxLength` of `truncate` is an unbounded integer too, and for every value a Java `int` can take the outcome is the same.
- The JDK source of `AbstractStringBuilder.reverse` is not part of this model. `Utf16.BuilderReverse` follows the behaviour the JDK specifies for it: reverse the code units, then restore each surrogate pair.
- ReverseString states position-by-position reversal only for text without surrogates, because `StringBuilder.reverse()` keeps each valid surrogate pair in high-then-low order. `ReverseStringCodePoints` covers well-formed UTF-16.
- ReverseStringInvolution holds only for well-formed UTF-16, which is weaker than "reversing twice restores any string". `ReverseStringNotInvolutive` shows that the weaker statement is the true one.
- IsPalindromeSurrogateFree characterizes the answer index by index only for surrogate-free text. `IsPalindromeCodePoints` covers well-formed UTF-16. Text with lone surrogates has no characterization beyond the definition.
- CapitalizeWordsIsJoin, CapitalizeWordsKeepsWords and CapitalizeWordsIdempotent hold only for text whose blank code units are all spaces. A leading control character defeats capitalization, as `CapitalizeWordsAfterTab` shows, so the unrestricted statements are false.
