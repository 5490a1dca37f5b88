/** The two string extensions of the program: `GetReadable`, which cuts a
    registry string at its first control character, and `ContainsGeneralized`,
    the loose name match used to pick icon files. */
module StringExtensions {
  import opened Text

  /** `char.IsControl`: the C0 block U+0000..U+001F and U+007F..U+009F. */
  predicate IsControl(c: char)
  {
    c as int <= 0x1F || (0x7F <= c as int <= 0x9F)
  }

  /** The longest prefix of `s` that holds no control character. */
  function Readable(s: string): (r: string)
    ensures |r| <= |s| && r == s[..|r|]
    ensures forall k :: 0 <= k < |r| ==> !IsControl(r[k])
    ensures |r| == |s| || IsControl(s[|r|])
  {
    if s == [] || IsControl(s[0]) then [] else [s[0]] + Readable(s[1..])
  }

  /** `GetReadable`: appends characters until the first control character. */
  method GetReadable(input: string) returns (result: string)
    ensures result == Readable(input)
  {
    result := [];
    var i := 0;
    while i < |input|
      invariant 0 <= i <= |input|
      invariant result == input[..i]
      invariant forall k :: 0 <= k < i ==> !IsControl(input[k])
    {
      var c := input[i];
      if IsControl(c) {
        break;
      }
      result := result + [c];
      i := i + 1;
    }
  }

  /** A string without control characters is already readable. */
  lemma ReadableOfControlFree(s: string)
    requires forall k :: 0 <= k < |s| ==> !IsControl(s[k])
    ensures Readable(s) == s
  {
  }

  /** Readable text stays as it is: `GetReadable` is idempotent. */
  lemma ReadableIdempotent(s: string)
    ensures Readable(Readable(s)) == Readable(s)
  {
    ReadableOfControlFree(Readable(s));
  }

  /** The white space the regular expression `\s` matches in .NET:
      `[\f\n\r\t\v\x85\p{Z}]`. */
  predicate IsWhiteSpace(c: char)
  {
    var n := c as int;
    (0x09 <= n <= 0x0D) || n == 0x20 || n == 0x85 || n == 0xA0 || n == 0x1680
    || (0x2000 <= n <= 0x200A) || n == 0x2028 || n == 0x2029 || n == 0x202F
    || n == 0x205F || n == 0x3000
  }

  /** `Regex("\\s+").Replace(s, "")`: `s` with all white space removed. */
  function RemoveWhiteSpace(s: string): (r: string)
    ensures forall k :: 0 <= k < |r| ==> !IsWhiteSpace(r[k])
  {
    if s == [] then []
    else if IsWhiteSpace(s[0]) then RemoveWhiteSpace(s[1..])
    else [s[0]] + RemoveWhiteSpace(s[1..])
  }

  /** Lower-casing of one character (ASCII letters only). */
  function LowerChar(c: char): char
  {
    if 'A' <= c <= 'Z' then (c as int + 32) as char else c
  }

  /** `s.ToLower()`, restricted to ASCII letters. */
  function ToLower(s: string): (r: string)
    ensures |r| == |s|
  {
    seq(|s|, k requires 0 <= k < |s| => LowerChar(s[k]))
  }

  /** The form both arguments of `ContainsGeneralized` are compared in. */
  function Generalize(s: string): string
  {
    ToLower(RemoveWhiteSpace(s))
  }

  /** `hay.Contains(needle)` (ordinal): some window of `hay` equals `needle`. */
  predicate IsSubstring(needle: string, hay: string)
  {
    exists i | 0 <= i <= |hay| - |needle| :: OccursAt(hay, needle, i)
  }

  /** `string1.ContainsGeneralized(string2)`: after removing white space and
      lower-casing, either string contains the other. */
  function ContainsGeneralized(string1: string, string2: string): bool
  {
    var g1 := Generalize(string1);
    var g2 := Generalize(string2);
    IsSubstring(g2, g1) || IsSubstring(g1, g2)
  }

  lemma EmptyIsSubstring(hay: string)
    ensures IsSubstring([], hay)
  {
    assert OccursAt(hay, [], 0);
  }

  lemma SubstringOfItself(s: string)
    ensures IsSubstring(s, s)
  {
    assert OccursAt(s, s, 0);
  }

  /** The match is symmetric in its two arguments. */
  lemma ContainsGeneralizedSymmetric(a: string, b: string)
    ensures ContainsGeneralized(a, b) == ContainsGeneralized(b, a)
  {
  }

  /** Every string matches itself. */
  lemma ContainsGeneralizedReflexive(s: string)
    ensures ContainsGeneralized(s, s)
  {
    SubstringOfItself(Generalize(s));
  }

  /** An empty or all-white-space argument matches every string. */
  lemma ContainsGeneralizedBlank(blank: string, other: string)
    requires forall k :: 0 <= k < |blank| ==> IsWhiteSpace(blank[k])
    ensures ContainsGeneralized(blank, other) && ContainsGeneralized(other, blank)
  {
    RemoveAllWhiteSpace(blank);
    EmptyIsSubstring(Generalize(other));
  }

  lemma {:induction false} RemoveAllWhiteSpace(s: string)
    requires forall k :: 0 <= k < |s| ==> IsWhiteSpace(s[k])
    ensures RemoveWhiteSpace(s) == []
  {
    if s != [] {
      RemoveAllWhiteSpace(s[1..]);
    }
  }

  lemma {:induction false} RemoveWhiteSpaceAppend(a: string, b: string)
    ensures RemoveWhiteSpace(a + b) == RemoveWhiteSpace(a) + RemoveWhiteSpace(b)
  {
    if a == [] {
      assert a + b == b;
    } else {
      assert (a + b)[0] == a[0] && (a + b)[1..] == a[1..] + b;
      RemoveWhiteSpaceAppend(a[1..], b);
      if !IsWhiteSpace(a[0]) {
        assert [a[0]] + (RemoveWhiteSpace(a[1..]) + RemoveWhiteSpace(b))
            == ([a[0]] + RemoveWhiteSpace(a[1..])) + RemoveWhiteSpace(b);
      }
    }
  }

  /** Inserting white space anywhere in an argument leaves the generalized form unchanged. */
  lemma GeneralizeIgnoresWhiteSpace(a: string, ws: string, b: string)
    requires forall k :: 0 <= k < |ws| ==> IsWhiteSpace(ws[k])
    ensures Generalize(a + ws + b) == Generalize(a + b)
  {
    RemoveWhiteSpaceAppend(a + ws, b);
    RemoveWhiteSpaceAppend(a, ws);
    RemoveWhiteSpaceAppend(a, b);
    RemoveAllWhiteSpace(ws);
  }

  /** Adding or removing white space in either argument does not change the match. */
  lemma ContainsGeneralizedIgnoresWhiteSpace(a: string, ws: string, b: string, other: string)
    requires forall k :: 0 <= k < |ws| ==> IsWhiteSpace(ws[k])
    ensures ContainsGeneralized(a + ws + b, other) == ContainsGeneralized(a + b, other)
    ensures ContainsGeneralized(other, a + ws + b) == ContainsGeneralized(other, a + b)
  {
    GeneralizeIgnoresWhiteSpace(a, ws, b);
  }

  /** Two strings that differ only in the case of ASCII letters. */
  predicate SameIgnoringCase(a: string, b: string)
  {
    |a| == |b| && forall k :: 0 <= k < |a| ==> LowerChar(a[k]) == LowerChar(b[k])
  }

  lemma WhiteSpaceIsCaseless(c: char)
    ensures IsWhiteSpace(LowerChar(c)) == IsWhiteSpace(c)
  {
  }

  /** Removing white space and lower-casing commute. */
  lemma {:induction false} RemoveWhiteSpaceToLower(s: string)
    ensures RemoveWhiteSpace(ToLower(s)) == ToLower(RemoveWhiteSpace(s))
  {
    if s != [] {
      var t := ToLower(s);
      assert t[0] == LowerChar(s[0]) && t[1..] == ToLower(s[1..]);
      WhiteSpaceIsCaseless(s[0]);
      RemoveWhiteSpaceToLower(s[1..]);
      if !IsWhiteSpace(s[0]) {
        assert ToLower([s[0]] + RemoveWhiteSpace(s[1..]))
            == [LowerChar(s[0])] + ToLower(RemoveWhiteSpace(s[1..]));
      }
    }
  }

  /** Changing the case of letters in an argument leaves the generalized form unchanged. */
  lemma GeneralizeIgnoresCase(a: string, b: string)
    requires SameIgnoringCase(a, b)
    ensures Generalize(a) == Generalize(b)
  {
    assert ToLower(a) == ToLower(b);
    RemoveWhiteSpaceToLower(a);
    RemoveWhiteSpaceToLower(b);
  }

  /** Changing the case of letters in either argument does not change the match. */
  lemma ContainsGeneralizedIgnoresCase(a: string, b: string, other: string)
    requires SameIgnoringCase(a, b)
    ensures ContainsGeneralized(a, other) == ContainsGeneralized(b, other)
    ensures ContainsGeneralized(other, a) == ContainsGeneralized(other, b)
  {
    GeneralizeIgnoresCase(a, b);
  }
}
