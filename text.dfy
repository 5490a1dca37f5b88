/** The ordinal `System.String` operations the modelled code relies on:
    searching from the end, trimming one character, and splitting on and
    joining with one separator character. */
module Text {
  import opened Wrappers

  /** `string.IsNullOrEmpty`, with `None` for null. */
  predicate IsNullOrEmpty(v: Option<string>)
  {
    v.None? || v.value == ""
  }

  /** `s.LastIndexOf(c)`: the last position of `c`, or -1. */
  function LastIndexOf(s: string, c: char): (r: int)
    ensures -1 <= r < |s|
    ensures r >= 0 ==> s[r] == c
    ensures forall k :: r < k < |s| ==> s[k] != c
    ensures r == -1 <==> c !in s
  {
    if s == [] then -1
    else if s[|s| - 1] == c then |s| - 1
    else LastIndexOf(s[..|s| - 1], c)
  }

  /** A position holding `c` with no `c` after it is the last position of `c`. */
  lemma LastIndexOfAt(s: string, c: char, t: nat)
    requires t < |s| && s[t] == c && forall k :: t < k < |s| ==> s[k] != c
    ensures LastIndexOf(s, c) == t
  {
  }

  /** Positions of a suffix past `u` that avoid `c` avoid it in the whole string too. */
  lemma SuffixAfter(s: string, suffix: string, c: char, u: nat)
    requires |suffix| <= |s| && suffix == s[|s| - |suffix|..] && u < |suffix|
    requires suffix[u] == c && forall j :: u < j < |suffix| ==> suffix[j] != c
    ensures s[|s| - |suffix| + u] == c
    ensures forall k :: |s| - |suffix| + u < k < |s| ==> s[k] != c
  {
    var start := |s| - |suffix|;
    assert s[start + u] == suffix[u];
    forall k | start + u < k < |s|
      ensures s[k] != c
    {
      assert s[k] == suffix[k - start];
    }
  }

  /** When `c` occurs in a suffix, its last position is found in that suffix. */
  lemma LastIndexOfInSuffix(s: string, suffix: string, c: char)
    requires |suffix| <= |s| && suffix == s[|s| - |suffix|..] && c in suffix
    ensures LastIndexOf(s, c) == |s| - |suffix| + LastIndexOf(suffix, c)
  {
    var start := |s| - |suffix|;
    var u := LastIndexOf(suffix, c);
    assert 0 <= u < |suffix| && suffix[u] == c;
    assert forall j :: u < j < |suffix| ==> suffix[j] != c;
    var t := start + u;
    SuffixAfter(s, suffix, c, u);
    LastIndexOfAt(s, c, t);
  }

  /** With no `c` from position `start` on, the last `c` comes before `start`. */
  lemma LastIndexOfBefore(s: string, c: char, start: nat)
    requires forall k :: start <= k < |s| ==> s[k] != c
    ensures LastIndexOf(s, c) < start
  {
  }

  /** A suffix without `c` leaves the positions it covers without `c`. */
  lemma SuffixWithout(s: string, suffix: string, c: char)
    requires |suffix| <= |s| && suffix == s[|s| - |suffix|..] && c !in suffix
    ensures forall k :: |s| - |suffix| <= k < |s| ==> s[k] != c
  {
    var start := |s| - |suffix|;
    forall k | start <= k < |s|
      ensures s[k] != c
    {
      assert s[k] == suffix[k - start];
    }
  }

  /** When `c` does not occur in a suffix, its last position comes before it. */
  lemma LastIndexOfNotInSuffix(s: string, suffix: string, c: char)
    requires |suffix| <= |s| && suffix == s[|s| - |suffix|..] && c !in suffix
    ensures LastIndexOf(s, c) < |s| - |suffix|
  {
    SuffixWithout(s, suffix, c);
    LastIndexOfBefore(s, c, |s| - |suffix|);
  }

  /** True when `t` occurs in `s` starting at position `i`. */
  predicate OccursAt(s: string, t: string, i: int)
  {
    0 <= i && i + |t| <= |s| && s[i..i + |t|] == t
  }

  /** Searches the start positions `k - 1`, `k - 2`, ..., 0 for an occurrence of `t`. */
  function LastOccurrenceBefore(s: string, t: string, k: nat): (r: int)
    requires k + |t| <= |s| + 1
    ensures -1 <= r < k
    ensures r >= 0 ==> OccursAt(s, t, r)
    ensures forall j :: r < j < k ==> !OccursAt(s, t, j)
  {
    if k == 0 then -1
    else if s[k - 1..k - 1 + |t|] == t then k - 1
    else LastOccurrenceBefore(s, t, k - 1)
  }

  /** `s.LastIndexOf(t)` as .NET 5 and later define it: the last start
      position of `t` in `s`, `|s|` when `t` is empty, and -1 when absent. */
  function LastIndexOfString(s: string, t: string): (r: int)
    ensures t == [] ==> r == |s|
    ensures t != [] ==> -1 <= r && (r >= 0 ==> OccursAt(s, t, r))
    ensures t != [] ==> forall j :: r < j ==> !OccursAt(s, t, j)
  {
    if t == [] then |s|
    else if |t| > |s| then -1
    else LastOccurrenceBefore(s, t, |s| - |t| + 1)
  }

  /** `s.TrimStart(c)`. */
  function TrimStart(s: string, c: char): (r: string)
    ensures |r| <= |s| && r == s[|s| - |r|..]
    ensures forall k :: 0 <= k < |s| - |r| ==> s[k] == c
    ensures r == [] || r[0] != c
    ensures (s == [] || s[0] != c) ==> r == s
  {
    if s != [] && s[0] == c then
      var r := TrimStart(s[1..], c);
      assert r == s[|s| - |r|..] by {
        assert s[1..][|s| - 1 - |r|..] == s[|s| - |r|..];
      }
      assert forall k :: 1 <= k < |s| - |r| ==> s[k] == s[1..][k - 1];
      r
    else s
  }

  /** `s.TrimEnd(c)`. */
  function TrimEnd(s: string, c: char): (r: string)
    ensures |r| <= |s| && r == s[..|r|]
    ensures forall k :: |r| <= k < |s| ==> s[k] == c
    ensures r == [] || r[|r| - 1] != c
    ensures (s == [] || s[|s| - 1] != c) ==> r == s
  {
    if s != [] && s[|s| - 1] == c then
      var r := TrimEnd(s[..|s| - 1], c);
      assert r == s[..|r|] by {
        assert s[..|s| - 1][..|r|] == s[..|r|];
      }
      assert forall k :: |r| <= k < |s| - 1 ==> s[k] == s[..|s| - 1][k];
      r
    else s
  }

  /** `s.Trim(c)`: every leading and every trailing `c` removed. */
  function Trim(s: string, c: char): (r: string)
    ensures exists i, j :: 0 <= i <= j <= |s| && r == s[i..j]
                           && (forall k :: 0 <= k < i ==> s[k] == c)
                           && (forall k :: j <= k < |s| ==> s[k] == c)
    ensures r == [] || (r[0] != c && r[|r| - 1] != c)
    ensures (s == [] || (s[0] != c && s[|s| - 1] != c)) ==> r == s
  {
    var t := TrimStart(s, c);
    var r := TrimEnd(t, c);
    assert r != [] ==> r[0] == t[0];
    TrimWitness(s, c, t, r);
    r
  }

  /** The slice that trimming both ends leaves, with only `c` cut from
      either side. */
  lemma TrimWitness(s: string, c: char, t: string, r: string)
    requires |t| <= |s| && t == s[|s| - |t|..] && forall k :: 0 <= k < |s| - |t| ==> s[k] == c
    requires |r| <= |t| && r == t[..|r|] && forall k :: |r| <= k < |t| ==> t[k] == c
    ensures exists i, j :: 0 <= i <= j <= |s| && r == s[i..j]
                           && (forall k :: 0 <= k < i ==> s[k] == c)
                           && (forall k :: j <= k < |s| ==> s[k] == c)
  {
    TrimmedSlice(s, c, t, r);
    var i := |s| - |t|;
    assert 0 <= i <= i + |r| <= |s| && r == s[i..i + |r|]
           && (forall k :: 0 <= k < i ==> s[k] == c)
           && (forall k :: i + |r| <= k < |s| ==> s[k] == c);
  }

  /** Trimming the end of what trimming the start left is a slice of the
      original with only `c` around it. */
  lemma TrimmedSlice(s: string, c: char, t: string, r: string)
    requires |t| <= |s| && t == s[|s| - |t|..]
    requires |r| <= |t| && r == t[..|r|] && forall k :: |r| <= k < |t| ==> t[k] == c
    ensures r == s[|s| - |t|..|s| - |t| + |r|]
    ensures forall k :: |s| - |t| + |r| <= k < |s| ==> s[k] == c
  {
    var i := |s| - |t|;
    forall k | i + |r| <= k < |s|
      ensures s[k] == c
    {
      assert s[k] == t[k - i];
    }
  }

  /** The number of occurrences of `c` in `s`. */
  function Count(s: string, c: char): nat
  {
    if s == [] then 0 else Count(s[..|s| - 1], c) + (if s[|s| - 1] == c then 1 else 0)
  }

  lemma {:induction false} CountAppend(a: string, b: string, c: char)
    ensures Count(a + b, c) == Count(a, c) + Count(b, c)
    decreases |b|
  {
    if b == [] {
      assert a + b == a;
    } else {
      assert (a + b)[..|a + b| - 1] == a + b[..|b| - 1];
      CountAppend(a, b[..|b| - 1], c);
    }
  }

  lemma {:induction false} CountAbsent(s: string, c: char)
    requires c !in s
    ensures Count(s, c) == 0
  {
    if s != [] {
      CountAbsent(s[..|s| - 1], c);
    }
  }

  /** `s.Split(sep)`: the pieces between occurrences of `sep`; always at
      least one piece, and `Count(s, sep) + 1` pieces in all. */
  function Split(s: string, sep: char): (parts: seq<string>)
    ensures |parts| >= 1
    ensures forall k :: 0 <= k < |parts| ==> sep !in parts[k]
  {
    if s == [] then [""]
    else
      var rest := Split(s[1..], sep);
      if s[0] == sep then [""] + rest
      else [[s[0]] + rest[0]] + rest[1..]
  }

  /** `string.Join(sep, parts)`. */
  function Join(parts: seq<string>, sep: char): string
  {
    if |parts| == 0 then ""
    else if |parts| == 1 then parts[0]
    else parts[0] + [sep] + Join(parts[1..], sep)
  }

  /** Splitting a piece that holds no separator yields that piece alone. */
  lemma {:induction false} SplitNoSeparator(a: string, sep: char)
    requires sep !in a
    ensures Split(a, sep) == [a]
  {
    if a != [] {
      SplitNoSeparator(a[1..], sep);
      assert [a[0]] + a[1..] == a;
    }
  }

  /** A separator after a separator-free piece starts a new part. */
  lemma {:induction false} SplitAfterPiece(a: string, sep: char, rest: string)
    requires sep !in a
    ensures Split(a + [sep] + rest, sep) == [a] + Split(rest, sep)
  {
    if a == [] {
      assert a + [sep] + rest == [sep] + rest;
      assert ([sep] + rest)[1..] == rest;
    } else {
      var s := a + [sep] + rest;
      assert s[0] == a[0];
      assert s[1..] == a[1..] + [sep] + rest;
      SplitAfterPiece(a[1..], sep, rest);
      assert [a[0]] + a[1..] == a;
    }
  }

  /** Splitting undoes joining when no part holds the separator. */
  lemma {:induction false} SplitJoin(parts: seq<string>, sep: char)
    requires |parts| >= 1
    requires forall k :: 0 <= k < |parts| ==> sep !in parts[k]
    ensures Split(Join(parts, sep), sep) == parts
  {
    if |parts| == 1 {
      SplitNoSeparator(parts[0], sep);
    } else {
      SplitJoin(parts[1..], sep);
      SplitAfterPiece(parts[0], sep, Join(parts[1..], sep));
      assert [parts[0]] + parts[1..] == parts;
    }
  }

  /** Joining `n` parts writes at least `n - 1` separators. */
  lemma {:induction false} CountJoin(parts: seq<string>, sep: char)
    requires |parts| >= 1
    ensures Count(Join(parts, sep), sep) >= |parts| - 1
  {
    if |parts| > 1 {
      CountJoin(parts[1..], sep);
      CountAppend(parts[0] + [sep], Join(parts[1..], sep), sep);
      CountAppend(parts[0], [sep], sep);
      assert [sep][..0] == [];
    }
  }

  /** There is one more part than there are separators. */
  lemma {:induction false} SplitCount(s: string, sep: char)
    ensures |Split(s, sep)| == Count(s, sep) + 1
  {
    if s != [] {
      SplitCount(s[1..], sep);
      assert s == [s[0]] + s[1..];
      CountAppend([s[0]], s[1..], sep);
      assert [s[0]][..0] == [];
    }
  }

  /** Splitting at a separator splits both sides apart. */
  lemma {:induction false} SplitConcat(a: string, sep: char, b: string)
    ensures Split(a + [sep] + b, sep) == Split(a, sep) + Split(b, sep)
  {
    if a == [] {
      assert a + [sep] + b == [sep] + b;
      assert ([sep] + b)[1..] == b;
    } else {
      var s := a + [sep] + b;
      assert s[0] == a[0];
      assert s[1..] == a[1..] + [sep] + b;
      SplitConcat(a[1..], sep, b);
    }
  }
}
