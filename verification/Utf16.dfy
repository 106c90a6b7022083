/**
 UTF-16 structure of Java strings and `StringBuilder.reverse()`, which reverses
 the code units of a string but keeps every valid surrogate pair in its
 high-then-low order.
 */
module Utf16 {
  import opened JavaString
  import Split

  predicate IsHighSurrogate(c: CodeUnit) { 0xD800 <= c <= 0xDBFF }
  predicate IsLowSurrogate(c: CodeUnit) { 0xDC00 <= c <= 0xDFFF }
  predicate IsSurrogate(c: CodeUnit) { 0xD800 <= c <= 0xDFFF }

  predicate SurrogateFree(s: JString) {
    forall i :: 0 <= i < |s| ==> !IsSurrogate(s[i])
  }

  /**
   Well-formed UTF-16: `s` is a run of units, each either one non-surrogate code
   unit or a high surrogate followed by a low one.
   */
  predicate WellFormed(s: JString)
    decreases |s|
  {
    if |s| == 0 then true
    else if IsHighSurrogate(s[0]) then |s| >= 2 && IsLowSurrogate(s[1]) && WellFormed(s[2..])
    else !IsLowSurrogate(s[0]) && WellFormed(s[1..])
  }

  /** The mirror image of `WellFormed`: every surrogate pair stands low-then-high. */
  predicate ReversedWellFormed(s: JString)
    decreases |s|
  {
    if |s| == 0 then true
    else if IsLowSurrogate(s[0]) then |s| >= 2 && IsHighSurrogate(s[1]) && ReversedWellFormed(s[2..])
    else !IsHighSurrogate(s[0]) && ReversedWellFormed(s[1..])
  }

  /** The length of the unit that starts `s`: two for a surrogate pair, one otherwise. */
  function UnitLength(s: JString): (n: nat)
    requires WellFormed(s) && |s| > 0
    ensures n <= |s| && WellFormed(s[n..])
    ensures n == 2 <==> IsHighSurrogate(s[0])
  {
    if IsHighSurrogate(s[0]) then 2 else 1
  }

  /** The supplementary code point a surrogate pair stands for. */
  function PairToChar(high: CodeUnit, low: CodeUnit): (c: char)
    requires IsHighSurrogate(high) && IsLowSurrogate(low)
    ensures 0x10000 <= c as int < 0x110000
  {
    (0x10000 + (high as int - 0xD800) * 0x400 + (low as int - 0xDC00)) as char
  }

  /** The code points a well-formed string encodes. */
  function Decode(s: JString): (r: string)
    requires WellFormed(s)
    decreases |s|
  {
    if |s| == 0 then []
    else if IsHighSurrogate(s[0]) then [PairToChar(s[0], s[1])] + Decode(s[2..])
    else [s[0] as int as char] + Decode(s[1..])
  }

  /** The UTF-16 encoding of one code point. */
  function EncodeChar(c: char): (r: JString)
    ensures |r| == 1 <==> c as int < 0x10000
  {
    var v := c as int;
    if v < 0x10000 then [v as CodeUnit]
    else [(0xD800 + (v - 0x10000) / 0x400) as CodeUnit, (0xDC00 + (v - 0x10000) % 0x400) as CodeUnit]
  }

  /** The UTF-16 encoding of a sequence of code points. */
  function Encode(cs: string): JString {
    if |cs| == 0 then [] else EncodeChar(cs[0]) + Encode(cs[1..])
  }

  /** Reversal of a sequence, element by element. */
  function Reverse<T>(s: seq<T>): (r: seq<T>)
    ensures |r| == |s|
    ensures forall i :: 0 <= i < |s| ==> r[i] == s[|s| - 1 - i]
  {
    if |s| == 0 then [] else Reverse(s[1..]) + [s[0]]
  }

  /**
   The JDK's second pass of `StringBuilder.reverse()`: scanning left to right,
   every low surrogate directly followed by a high surrogate is swapped with
   it. (The JDK runs this pass only when the first pass met a surrogate; when it
   met none the pass changes nothing, so it is run unconditionally here.)
   */
  function SwapReversedPairs(s: JString): (r: JString)
    ensures |r| == |s|
    decreases |s|
  {
    if |s| < 2 then s
    else if IsLowSurrogate(s[0]) && IsHighSurrogate(s[1]) then [s[1], s[0]] + SwapReversedPairs(s[2..])
    else [s[0]] + SwapReversedPairs(s[1..])
  }

  lemma {:induction false} SwapMultiset(s: JString)
    ensures multiset(SwapReversedPairs(s)) == multiset(s)
    decreases |s|
  {
    if |s| >= 2 {
      var a, b := s[0], s[1];
      var swap := IsLowSurrogate(a) && IsHighSurrogate(b);
      var n := if swap then 2 else 1;
      var head, rest := s[..n], s[n..];
      var moved: JString := if swap then [b, a] else [a];
      assert SwapReversedPairs(s) == moved + SwapReversedPairs(rest);
      SwapMultiset(rest);
      assert multiset(moved) == multiset(head) by {
        if swap {
          assert head == [a, b];
        } else {
          assert head == [a];
        }
      }
      MultisetSplice(s, head, rest, moved, SwapReversedPairs(rest));
    }
  }

  /** Replacing both parts of a split by rearrangements of them rearranges the whole. */
  lemma MultisetSplice(s: JString, head: JString, rest: JString, head2: JString, rest2: JString)
    requires s == head + rest
    requires multiset(head2) == multiset(head) && multiset(rest2) == multiset(rest)
    ensures multiset(head2 + rest2) == multiset(s)
  {
  }

  lemma {:induction false} SwapSurrogateFree(s: JString)
    requires SurrogateFree(s)
    ensures SwapReversedPairs(s) == s
    decreases |s|
  {
    if |s| >= 2 {
      assert !IsLowSurrogate(s[0]);
      assert SurrogateFree(s[1..]);
      SwapSurrogateFree(s[1..]);
    }
  }

  /** `new StringBuilder(s).reverse().toString()`. */
  function BuilderReverse(s: JString): (r: JString)
    ensures |r| == |s|
    ensures multiset(r) == multiset(s)
    ensures SurrogateFree(s) ==> forall i :: 0 <= i < |s| ==> r[i] == s[|s| - 1 - i]
  {
    var raw := Reverse(s);
    ReverseMultiset(s);
    SwapMultiset(raw);
    if SurrogateFree(s) then
      assert SurrogateFree(raw) by {
        forall i | 0 <= i < |raw| ensures !IsSurrogate(raw[i]) {
          assert raw[i] == s[|s| - 1 - i];
        }
      }
      SwapSurrogateFree(raw);
      SwapReversedPairs(raw)
    else
      SwapReversedPairs(raw)
  }

  lemma {:induction false} ReverseMultiset<T>(s: seq<T>)
    ensures multiset(Reverse(s)) == multiset(s)
  {
    if |s| > 0 {
      ReverseMultiset(s[1..]);
      assert s == [s[0]] + s[1..];
    }
  }

  lemma {:induction false} ReverseAppend<T>(a: seq<T>, b: seq<T>)
    ensures Reverse(a + b) == Reverse(b) + Reverse(a)
    decreases |a|
  {
    if |a| == 0 {
      assert a + b == b;
    } else {
      assert (a + b)[1..] == a[1..] + b;
      ReverseAppend(a[1..], b);
      SeqAssoc(Reverse(b), Reverse(a[1..]), [a[0]]);
    }
  }

  lemma {:induction false} ReverseReverse<T>(s: seq<T>)
    ensures Reverse(Reverse(s)) == s
    decreases |s|
  {
    if |s| > 0 {
      ReverseAppend(Reverse(s[1..]), [s[0]]);
      ReverseReverse(s[1..]);
      assert Reverse([s[0]]) == [s[0]];
      assert s == [s[0]] + s[1..];
    }
  }

  // ---- decoding and encoding are inverse ----

  lemma {:induction false} EncodeAppend(a: string, b: string)
    ensures Encode(a + b) == Encode(a) + Encode(b)
  {
    if |a| == 0 {
      assert a + b == b;
    } else {
      assert (a + b)[1..] == a[1..] + b;
      EncodeAppend(a[1..], b);
    }
  }

  /** One code point encodes to one well-formed unit that decodes back to it. */
  lemma EncodeCharRoundTrip(c: char)
    ensures WellFormed(EncodeChar(c))
    ensures Decode(EncodeChar(c)) == [c]
  {
    var v := c as int;
    if v >= 0x10000 {
      var e := EncodeChar(c);
      var q := (v - 0x10000) / 0x400;
      var m := (v - 0x10000) % 0x400;
      assert v - 0x10000 == q * 0x400 + m;
      assert e[2..] == [];
      assert PairToChar(e[0], e[1]) as int == v;
    }
  }

  lemma {:induction false} WellFormedAppend(a: JString, b: JString)
    requires WellFormed(a) && WellFormed(b)
    ensures WellFormed(a + b)
    decreases |a|
  {
    var ab := a + b;
    if |a| == 0 {
      assert ab == b;
    } else {
      var n := UnitLength(a);
      assert ab[0] == a[0];
      assert ab[n..] == a[n..] + b;
      WellFormedAppend(a[n..], b);
      if n == 2 {
        assert ab[1] == a[1];
      }
    }
  }

  lemma {:induction false} DecodeAppend(a: JString, b: JString)
    requires WellFormed(a) && WellFormed(b)
    ensures WellFormed(a + b)
    ensures Decode(a + b) == Decode(a) + Decode(b)
    decreases |a|
  {
    WellFormedAppend(a, b);
    if |a| == 0 {
      assert a + b == b;
    } else if IsHighSurrogate(a[0]) {
      DecodeAppend(a[2..], b);
      DecodeAppendPair(a, b);
    } else {
      DecodeAppend(a[1..], b);
      DecodeAppendSingle(a, b);
    }
  }

  /** The inductive step of `DecodeAppend` when `a` starts with a surrogate pair. */
  lemma DecodeAppendPair(a: JString, b: JString)
    requires WellFormed(a) && WellFormed(b) && |a| > 0 && IsHighSurrogate(a[0])
    requires WellFormed(a[2..] + b) && Decode(a[2..] + b) == Decode(a[2..]) + Decode(b)
    ensures WellFormed(a + b)
    ensures Decode(a + b) == Decode(a) + Decode(b)
  {
    assert |a| >= 2 && IsLowSurrogate(a[1]) && WellFormed(a[2..]);
    var high, low, rest := a[0], a[1], a[2..];
    var front: JString := [high, low];
    assert a == front + rest;
    DecodePair(high, low, rest);
    DecodePair(high, low, rest + b);
    SeqAssoc(front, rest, b);
    SeqAssoc([PairToChar(high, low)], Decode(rest), Decode(b));
  }

  lemma SeqAssoc<T>(x: seq<T>, y: seq<T>, z: seq<T>)
    ensures x + y + z == x + (y + z)
  {
  }

  /** The inductive step of `DecodeAppend` when `a` starts with a single code unit. */
  lemma DecodeAppendSingle(a: JString, b: JString)
    requires WellFormed(a) && WellFormed(b) && |a| > 0 && !IsHighSurrogate(a[0])
    requires WellFormed(a[1..] + b) && Decode(a[1..] + b) == Decode(a[1..]) + Decode(b)
    ensures WellFormed(a + b)
    ensures Decode(a + b) == Decode(a) + Decode(b)
  {
    assert !IsLowSurrogate(a[0]) && WellFormed(a[1..]);
    var unit, rest := a[0], a[1..];
    var front: JString := [unit];
    assert a == front + rest;
    DecodeSingle(unit, rest);
    DecodeSingle(unit, rest + b);
    SeqAssoc(front, rest, b);
    SeqAssoc([unit as int as char], Decode(rest), Decode(b));
  }

  /** A surrogate pair in front of well-formed text decodes to its code point in front. */
  lemma DecodePair(high: CodeUnit, low: CodeUnit, rest: JString)
    requires IsHighSurrogate(high) && IsLowSurrogate(low) && WellFormed(rest)
    ensures WellFormed([high, low] + rest)
    ensures Decode([high, low] + rest) == [PairToChar(high, low)] + Decode(rest)
  {
    var s := [high, low] + rest;
    assert s[0] == high && s[1] == low && s[2..] == rest;
  }

  /** A non-surrogate code unit in front of well-formed text decodes to itself in front. */
  lemma DecodeSingle(unit: CodeUnit, rest: JString)
    requires !IsSurrogate(unit) && WellFormed(rest)
    ensures WellFormed([unit] + rest)
    ensures Decode([unit] + rest) == [unit as int as char] + Decode(rest)
  {
    var s := [unit] + rest;
    assert s[0] == unit && s[1..] == rest;
  }

  /** Encoding produces well-formed UTF-16, and decoding it gives the code points back. */
  lemma {:induction false} DecodeEncode(cs: string)
    ensures WellFormed(Encode(cs))
    ensures Decode(Encode(cs)) == cs
  {
    if |cs| > 0 {
      EncodeCharRoundTrip(cs[0]);
      DecodeEncode(cs[1..]);
      DecodeAppend(EncodeChar(cs[0]), Encode(cs[1..]));
    }
  }

  /** The leading unit of a well-formed string is the encoding of its first code point. */
  lemma LeadingUnit(s: JString)
    requires WellFormed(s) && |s| > 0
    ensures EncodeChar(Decode(s)[0]) == s[..UnitLength(s)]
    ensures Decode(s)[1..] == Decode(s[UnitLength(s)..])
  {
    if IsHighSurrogate(s[0]) {
      var v := PairToChar(s[0], s[1]) as int;
      assert (v - 0x10000) / 0x400 == s[0] as int - 0xD800;
      assert (v - 0x10000) % 0x400 == s[1] as int - 0xDC00;
    }
  }

  /** Decoding loses nothing: encoding the decoded code points gives the string back. */
  lemma {:induction false} EncodeDecode(s: JString)
    requires WellFormed(s)
    ensures Encode(Decode(s)) == s
    decreases |s|
  {
    if |s| > 0 {
      var n := UnitLength(s);
      LeadingUnit(s);
      EncodeDecode(s[n..]);
      assert s == s[..n] + s[n..];
    }
  }

  // ---- StringBuilder.reverse on well-formed strings ----

  lemma {:induction false} ReversedWellFormedAppend(a: JString, b: JString)
    requires ReversedWellFormed(a) && ReversedWellFormed(b)
    ensures ReversedWellFormed(a + b)
    decreases |a|
  {
    if |a| == 0 {
      assert a + b == b;
    } else {
      var n := if IsLowSurrogate(a[0]) then 2 else 1;
      assert (a + b)[n..] == a[n..] + b;
      ReversedWellFormedAppend(a[n..], b);
    }
  }

  /** Reversing a well-formed string turns every pair around and nothing else. */
  lemma {:induction false} ReverseOfWellFormed(s: JString)
    requires WellFormed(s)
    ensures ReversedWellFormed(Reverse(s))
    decreases |s|
  {
    if |s| > 0 {
      var n := UnitLength(s);
      ReverseOfWellFormed(s[n..]);
      assert s == s[..n] + s[n..];
      ReverseAppend(s[..n], s[n..]);
      var u := Reverse(s[..n]);
      assert ReversedWellFormed(u) by {
        if n == 2 {
          assert u == [s[1], s[0]];
          assert u[2..] == [];
        } else {
          assert u == [s[0]];
        }
      }
      ReversedWellFormedAppend(Reverse(s[n..]), u);
    }
  }

  /** The swapping pass passes over a leading code unit that is not a low surrogate. */
  lemma SwapSkips(s: JString)
    requires |s| > 0 && !IsLowSurrogate(s[0])
    ensures SwapReversedPairs(s) == [s[0]] + SwapReversedPairs(s[1..])
  {
    if |s| == 1 {
      assert s[1..] == [];
    }
  }

  lemma {:induction false} SwapAppend(a: JString, b: JString)
    requires ReversedWellFormed(a)
    ensures SwapReversedPairs(a + b) == SwapReversedPairs(a) + SwapReversedPairs(b)
    decreases |a|
  {
    var ab := a + b;
    if |a| == 0 {
      assert ab == b;
    } else if IsLowSurrogate(a[0]) {
      assert ab[0] == a[0] && ab[1] == a[1];
      assert ab[2..] == a[2..] + b;
      SwapAppend(a[2..], b);
    } else {
      assert ab[0] == a[0];
      assert ab[1..] == a[1..] + b;
      SwapAppend(a[1..], b);
      SwapSkips(ab);
      SwapSkips(a);
    }
  }

  /**
   On well-formed UTF-16, `StringBuilder.reverse()` reverses the code points:
   surrogate pairs move as a whole and keep their order.
   */
  lemma {:induction false} BuilderReverseCodePoints(s: JString)
    requires WellFormed(s)
    ensures BuilderReverse(s) == Encode(Reverse(Decode(s)))
    decreases |s|
  {
    if |s| > 0 {
      var n := UnitLength(s);
      var u, rest := s[..n], s[n..];
      assert s == u + rest;
      BuilderReverseCodePoints(rest);
      LeadingUnit(s);
      var ds := Decode(s);
      assert ds == [ds[0]] + Decode(rest);
      ReverseAppend([ds[0]], Decode(rest));
      EncodeAppend(Reverse(Decode(rest)), [ds[0]]);
      assert Encode([ds[0]]) == u by {
        assert Encode([ds[0]]) == EncodeChar(ds[0]) + Encode([]);
      }
      ReverseAppend(u, rest);
      ReverseOfWellFormed(rest);
      SwapAppend(Reverse(rest), Reverse(u));
      assert SwapReversedPairs(Reverse(u)) == u by {
        if n == 2 {
          assert Reverse(u) == [s[1], s[0]];
        } else {
          assert Reverse(u) == [s[0]];
        }
      }
    }
  }

  /** On well-formed UTF-16, `StringBuilder.reverse()` applied twice changes nothing. */
  lemma BuilderReverseInvolution(s: JString)
    requires WellFormed(s)
    ensures WellFormed(BuilderReverse(s))
    ensures BuilderReverse(BuilderReverse(s)) == s
  {
    var cs := Reverse(Decode(s));
    BuilderReverseCodePoints(s);
    DecodeEncode(cs);
    BuilderReverseCodePoints(Encode(cs));
    ReverseReverse(Decode(s));
    EncodeDecode(s);
  }

  /**
   Without well-formedness the involution fails: a lone low surrogate followed
   by a lone high one comes back as a valid pair.
   */
  lemma BuilderReverseNotInvolutive()
    ensures var s: JString := [0xDC00, 0xD800];
            BuilderReverse(BuilderReverse(s)) == [0xD800, 0xDC00] != s
  {
    ReversedPairFlips(0xDC00, 0xD800);
  }

  /**
   A low surrogate followed by a high one is not a character; reversing it
   twice leaves the two code units swapped.
   */
  lemma ReversedPairFlips(low: CodeUnit, high: CodeUnit)
    requires IsLowSurrogate(low) && IsHighSurrogate(high)
    ensures BuilderReverse(BuilderReverse([low, high])) == [high, low]
  {
    ReversedPairKept(low, high);
    PairKept(low, high);
  }

  /** The reversal of a reversed pair is the pair in order. */
  lemma ReversedPairKept(low: CodeUnit, high: CodeUnit)
    requires IsLowSurrogate(low) && IsHighSurrogate(high)
    ensures BuilderReverse([low, high]) == [high, low]
  {
    var t: JString := [high, low];
    ReverseTwo(low, high);
    assert SwapReversedPairs(t) == [high] + SwapReversedPairs(t[1..]);
  }

  /** The reversal of a pair in order is the pair in order again. */
  lemma PairKept(low: CodeUnit, high: CodeUnit)
    requires IsLowSurrogate(low) && IsHighSurrogate(high)
    ensures BuilderReverse([high, low]) == [high, low]
  {
    var s: JString := [low, high];
    ReverseTwo(high, low);
    assert SwapReversedPairs(s) == [high, low] + SwapReversedPairs(s[2..]);
  }

  lemma ReverseTwo<T>(a: T, b: T)
    ensures Reverse([a, b]) == [b, a]
  {
    assert Reverse([a, b]) == Reverse([b]) + [a];
  }

  /** Deleting non-surrogate code units keeps a string well-formed. */
  lemma {:induction false} WellFormedFilter(s: JString, drop: CodeUnit -> bool)
    requires WellFormed(s)
    requires forall c :: drop(c) ==> !IsSurrogate(c)
    ensures WellFormed(Split.Without(s, drop))
    decreases |s|
  {
    if |s| > 0 {
      var n := UnitLength(s);
      WellFormedFilter(s[n..], drop);
      if n == 2 {
        WellFormedFilterPair(s, drop);
      } else {
        WellFormedFilterSingle(s, drop);
      }
    }
  }

  /** The step of `WellFormedFilter` over a leading surrogate pair, which is never dropped. */
  lemma WellFormedFilterPair(s: JString, drop: CodeUnit -> bool)
    requires |s| >= 2 && IsHighSurrogate(s[0]) && IsLowSurrogate(s[1])
    requires !drop(s[0]) && !drop(s[1])
    requires WellFormed(Split.Without(s[2..], drop))
    ensures WellFormed(Split.Without(s, drop))
  {
    var rest := Split.Without(s[2..], drop);
    var pair: JString := [s[0], s[1]];
    assert Split.Without(s, drop) == pair + rest by {
      var tail := s[1..];
      assert tail[0] == s[1] && tail[1..] == s[2..];
      assert Split.Without(tail, drop) == [s[1]] + rest;
      assert [s[0]] + ([s[1]] + rest) == pair + rest;
    }
    assert WellFormed(pair) by {
      assert pair[2..] == [];
    }
    WellFormedAppend(pair, rest);
  }

  /** The step of `WellFormedFilter` over a leading code unit that is not a surrogate. */
  lemma WellFormedFilterSingle(s: JString, drop: CodeUnit -> bool)
    requires |s| >= 1 && !IsSurrogate(s[0])
    requires WellFormed(Split.Without(s[1..], drop))
    ensures WellFormed(Split.Without(s, drop))
  {
    var rest := Split.Without(s[1..], drop);
    var head: JString := if drop(s[0]) then [] else [s[0]];
    assert Split.Without(s, drop) == head + rest;
    assert WellFormed(head) by {
      if |head| == 1 {
        assert head[1..] == [];
      }
    }
    WellFormedAppend(head, rest);
  }
}
