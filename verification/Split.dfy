/**
 Splitting a string into the fields between separator code units, and the
 filtering of empty fields that both splitting callers of StringUtils perform.
 */
module Split {
  import opened JavaString

  /** The code units of `s` that are separators are absent from `s`. */
  predicate FreeOf(s: JString, isSep: CodeUnit -> bool) {
    forall k :: 0 <= k < |s| ==> !isSep(s[k])
  }

  /**
   The fields of `String.split` for a separator class: the runs between
   consecutive separator code units, empty runs included. Java additionally
   drops trailing empty fields and, for a pattern such as `\s+`, merges a run
   of separators into one; neither changes the non-empty fields, which are
   all that the callers keep.
   */
  function Fields(s: JString, isSep: CodeUnit -> bool): (r: seq<JString>)
    ensures |r| >= 1
    ensures forall i :: 0 <= i < |r| ==> FreeOf(r[i], isSep)
    decreases |s|
  {
    if |s| == 0 then [[]]
    else
      var rest := Fields(s[1..], isSep);
      if isSep(s[0]) then [[]] + rest
      else [[s[0]] + rest[0]] + rest[1..]
  }

  /** The loop that keeps only fields with `length() > 0`, in their original order. */
  function NonEmpty(parts: seq<JString>): (r: seq<JString>)
    ensures |r| <= |parts|
    ensures forall i :: 0 <= i < |r| ==> |r[i]| > 0 && r[i] in parts
    ensures forall i :: 0 <= i < |parts| && |parts[i]| > 0 ==> parts[i] in r
    ensures |parts| == 1 ==> r == (if |parts[0]| > 0 then parts else [])
  {
    if |parts| == 0 then []
    else (if |parts[0]| > 0 then [parts[0]] else []) + NonEmpty(parts[1..])
  }

  /**
   The filter works part by part: filtering a concatenation filters each half.
   With the single-part case of `NonEmpty`'s contract this fixes the filter
   completely: every non-empty part is kept, in order, and nothing else.
   */
  lemma {:induction false} NonEmptyAppend(a: seq<JString>, b: seq<JString>)
    ensures NonEmpty(a + b) == NonEmpty(a) + NonEmpty(b)
    decreases |a|
  {
    if |a| == 0 {
      assert a + b == b;
    } else {
      assert (a + b)[1..] == a[1..] + b;
      NonEmptyAppend(a[1..], b);
      var head: seq<JString> := if |a[0]| > 0 then [a[0]] else [];
      assert NonEmpty(a + b) == head + (NonEmpty(a[1..]) + NonEmpty(b));
      assert head + (NonEmpty(a[1..]) + NonEmpty(b)) == (head + NonEmpty(a[1..])) + NonEmpty(b);
    }
  }

  /** The non-empty fields of `s`. */
  function Words(s: JString, isSep: CodeUnit -> bool): (r: seq<JString>)
    ensures forall i :: 0 <= i < |r| ==> |r[i]| > 0 && FreeOf(r[i], isSep)
  {
    NonEmpty(Fields(s, isSep))
  }

  /** All parts written one after another. */
  function Concat(parts: seq<JString>): JString {
    if |parts| == 0 then [] else parts[0] + Concat(parts[1..])
  }

  /** `s` with every separator code unit deleted. */
  function Without(s: JString, isSep: CodeUnit -> bool): (r: JString)
    ensures |r| <= |s|
    ensures FreeOf(r, isSep)
    ensures forall i :: 0 <= i < |r| ==> r[i] in s
  {
    if |s| == 0 then []
    else (if isSep(s[0]) then [] else [s[0]]) + Without(s[1..], isSep)
  }

  lemma {:induction false} WithoutAppend(a: JString, b: JString, isSep: CodeUnit -> bool)
    ensures Without(a + b, isSep) == Without(a, isSep) + Without(b, isSep)
  {
    if |a| == 0 {
      assert a + b == b;
    } else {
      assert (a + b)[1..] == a[1..] + b;
      WithoutAppend(a[1..], b, isSep);
    }
  }

  /** Deleting separators from a string that has none changes nothing. */
  lemma {:induction false} WithoutFreeOf(s: JString, isSep: CodeUnit -> bool)
    requires FreeOf(s, isSep)
    ensures Without(s, isSep) == s
  {
    if |s| > 0 {
      WithoutFreeOf(s[1..], isSep);
    }
  }

  /** The parts with one `sep` between neighbours. */
  function JoinWith(parts: seq<JString>, sep: CodeUnit): JString {
    if |parts| == 0 then []
    else if |parts| == 1 then parts[0]
    else parts[0] + [sep] + JoinWith(parts[1..], sep)
  }

  /** The fields hold exactly the non-separator code units of `s`, in order. */
  lemma {:induction false} ConcatFields(s: JString, isSep: CodeUnit -> bool)
    ensures Concat(Fields(s, isSep)) == Without(s, isSep)
    decreases |s|
  {
    if |s| > 0 {
      var rest := Fields(s[1..], isSep);
      ConcatFields(s[1..], isSep);
      if !isSep(s[0]) {
        calc {
          Concat(Fields(s, isSep));
          Concat([[s[0]] + rest[0]] + rest[1..]);
          [s[0]] + rest[0] + Concat(rest[1..]);
          { assert Concat(rest) == rest[0] + Concat(rest[1..]); }
          [s[0]] + Concat(rest);
        }
      }
    }
  }

  /** Dropping empty parts does not change their concatenation. */
  lemma {:induction false} ConcatNonEmpty(parts: seq<JString>)
    ensures Concat(NonEmpty(parts)) == Concat(parts)
  {
    if |parts| > 0 {
      ConcatNonEmpty(parts[1..]);
      var head := if |parts[0]| > 0 then [parts[0]] else [];
      ConcatAppend(head, NonEmpty(parts[1..]));
    }
  }

  lemma {:induction false} ConcatAppend(a: seq<JString>, b: seq<JString>)
    ensures Concat(a + b) == Concat(a) + Concat(b)
  {
    if |a| == 0 {
      assert a + b == b;
    } else {
      assert (a + b)[1..] == a[1..] + b;
      ConcatAppend(a[1..], b);
    }
  }

  /** The words, written one after another, are `s` with its separators deleted. */
  lemma WordsConcat(s: JString, isSep: CodeUnit -> bool)
    ensures Concat(Words(s, isSep)) == Without(s, isSep)
  {
    ConcatNonEmpty(Fields(s, isSep));
    ConcatFields(s, isSep);
  }

  /** A separator-free prefix extends the first field. */
  lemma {:induction false} FieldsOfPrefix(w: JString, s: JString, isSep: CodeUnit -> bool)
    requires FreeOf(w, isSep)
    ensures Fields(w + s, isSep) == [w + Fields(s, isSep)[0]] + Fields(s, isSep)[1..]
    decreases |w|
  {
    if |w| == 0 {
      var f := Fields(s, isSep);
      assert w + s == s && w + f[0] == f[0];
      assert [f[0]] + f[1..] == f;
    } else {
      assert (w + s)[1..] == w[1..] + s;
      FieldsOfPrefix(w[1..], s, isSep);
      assert [w[0]] + (w[1..] + Fields(s, isSep)[0]) == w + Fields(s, isSep)[0];
    }
  }

  /** Splitting a join of separator-free parts gives the parts back, empty ones included. */
  lemma {:induction false} FieldsOfJoin(parts: seq<JString>, sep: CodeUnit, isSep: CodeUnit -> bool)
    requires |parts| > 0
    requires isSep(sep)
    requires forall i :: 0 <= i < |parts| ==> FreeOf(parts[i], isSep)
    ensures Fields(JoinWith(parts, sep), isSep) == parts
  {
    if |parts| == 1 {
      FieldsOfPrefix(parts[0], [], isSep);
      assert parts[0] + [] == parts[0];
    } else {
      var tail := JoinWith(parts[1..], sep);
      FieldsOfJoin(parts[1..], sep, isSep);
      assert ([sep] + tail)[1..] == tail;
      assert Fields([sep] + tail, isSep) == [[]] + parts[1..];
      assert parts[0] + [sep] + tail == parts[0] + ([sep] + tail);
      FieldsOfPrefix(parts[0], [sep] + tail, isSep);
      assert parts[0] + [] == parts[0];
    }
  }

  /** Joining the fields with the single separator gives the string back. */
  lemma {:induction false} JoinOfFields(s: JString, sep: CodeUnit, isSep: CodeUnit -> bool)
    requires forall c :: isSep(c) <==> c == sep
    ensures JoinWith(Fields(s, isSep), sep) == s
    decreases |s|
  {
    if |s| > 0 {
      var rest := Fields(s[1..], isSep);
      JoinOfFields(s[1..], sep, isSep);
      if isSep(s[0]) {
        assert JoinWith([[]] + rest, sep) == [] + [sep] + JoinWith(rest, sep);
      } else if |rest| == 1 {
        assert Fields(s, isSep) == [[s[0]] + rest[0]];
      } else {
        assert Fields(s, isSep)[1..] == rest[1..];
        assert JoinWith(rest, sep) == rest[0] + [sep] + JoinWith(rest[1..], sep);
      }
    }
  }

  /** The parts with the given separators between neighbours, `seps[i]` after `parts[i]`. */
  function JoinBy(parts: seq<JString>, seps: JString): (r: JString)
    requires |parts| == |seps| + 1
    decreases |seps|
  {
    if |seps| == 0 then parts[0]
    else parts[0] + [seps[0]] + JoinBy(parts[1..], seps[1..])
  }

  /** The separator code units of `s`, in order: one fewer than there are fields. */
  function Separators(s: JString, isSep: CodeUnit -> bool): (r: JString)
    ensures |r| + 1 == |Fields(s, isSep)|
    ensures forall i :: 0 <= i < |r| ==> isSep(r[i])
    decreases |s|
  {
    if |s| == 0 then []
    else (if isSep(s[0]) then [s[0]] else []) + Separators(s[1..], isSep)
  }

  /** Splitting separator-free parts joined by any separators gives the parts back. */
  lemma {:induction false} FieldsOfJoinBy(parts: seq<JString>, seps: JString, isSep: CodeUnit -> bool)
    requires |parts| == |seps| + 1
    requires forall i :: 0 <= i < |seps| ==> isSep(seps[i])
    requires forall i :: 0 <= i < |parts| ==> FreeOf(parts[i], isSep)
    ensures Fields(JoinBy(parts, seps), isSep) == parts
    decreases |seps|
  {
    if |seps| == 0 {
      FieldsOfPrefix(parts[0], [], isSep);
      assert parts[0] + [] == parts[0];
    } else {
      var sep, tail := seps[0], JoinBy(parts[1..], seps[1..]);
      FieldsOfJoinBy(parts[1..], seps[1..], isSep);
      assert ([sep] + tail)[1..] == tail;
      assert Fields([sep] + tail, isSep) == [[]] + parts[1..];
      assert parts[0] + [sep] + tail == parts[0] + ([sep] + tail);
      FieldsOfPrefix(parts[0], [sep] + tail, isSep);
      assert parts[0] + [] == parts[0];
    }
  }

  /** Every string is its fields joined by its separators. */
  lemma {:induction false} JoinByOfFields(s: JString, isSep: CodeUnit -> bool)
    ensures JoinBy(Fields(s, isSep), Separators(s, isSep)) == s
    decreases |s|
  {
    if |s| > 0 {
      var rest, seps := Fields(s[1..], isSep), Separators(s[1..], isSep);
      JoinByOfFields(s[1..], isSep);
      if isSep(s[0]) {
        assert Separators(s, isSep) == [s[0]] + seps;
        assert ([[]] + rest)[1..] == rest && ([s[0]] + seps)[1..] == seps;
        assert JoinBy([[]] + rest, [s[0]] + seps) == [] + [s[0]] + JoinBy(rest, seps);
      } else if |seps| == 0 {
        assert Separators(s, isSep) == [];
        assert Fields(s, isSep) == [[s[0]] + rest[0]];
      } else {
        assert Separators(s, isSep) == seps;
        assert Fields(s, isSep)[1..] == rest[1..];
        assert JoinBy(rest, seps) == rest[0] + [seps[0]] + JoinBy(rest[1..], seps[1..]);
      }
    }
  }

  /** Keeping the non-empty parts keeps a list that has no empty part. */
  lemma {:induction false} NonEmptyOfNonEmpty(parts: seq<JString>)
    requires forall i :: 0 <= i < |parts| ==> |parts[i]| > 0
    ensures NonEmpty(parts) == parts
  {
    if |parts| > 0 {
      NonEmptyOfNonEmpty(parts[1..]);
    }
  }

  /**
   Splitting undoes joining: the words of non-empty, separator-free parts
   joined by a separator are those parts.
   */
  lemma WordsOfJoin(parts: seq<JString>, sep: CodeUnit, isSep: CodeUnit -> bool)
    requires isSep(sep)
    requires forall i :: 0 <= i < |parts| ==> |parts[i]| > 0 && FreeOf(parts[i], isSep)
    ensures Words(JoinWith(parts, sep), isSep) == parts
  {
    if |parts| > 0 {
      FieldsOfJoin(parts, sep, isSep);
    }
    NonEmptyOfNonEmpty(parts);
  }
}
