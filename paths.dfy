/** The part of `System.IO.Path` on Windows that the icon loader and the
    fallback resolver use: file names, extensions, directory names and
    joining. Paths are plain strings; nothing here touches a file system. */
module Paths {
  import opened Wrappers
  import opened Text

  /** `\` and `/` both separate directories on Windows. */
  predicate IsDirectorySeparator(c: char) { c == '\\' || c == '/' }

  predicate IsDriveLetter(c: char) { ('A' <= c <= 'Z') || ('a' <= c <= 'z') }

  /** The last position of a directory separator in `p`, or -1. */
  function LastSeparator(p: string): (r: int)
    ensures -1 <= r < |p|
    ensures r >= 0 ==> IsDirectorySeparator(p[r])
    ensures forall k :: r < k < |p| ==> !IsDirectorySeparator(p[k])
  {
    if p == [] then -1
    else if IsDirectorySeparator(p[|p| - 1]) then |p| - 1
    else LastSeparator(p[..|p| - 1])
  }

  /** `Path.GetFileName`: the text after the last directory separator. */
  function FileName(p: string): string
  {
    p[LastSeparator(p) + 1..]
  }

  /** The file name is the suffix of the path after its last separator. */
  lemma FileNameFacts(p: string)
    ensures var r := FileName(p);
      |r| <= |p| && r == p[|p| - |r|..]
      && (forall k :: 0 <= k < |r| ==> !IsDirectorySeparator(r[k]))
      && (|r| < |p| ==> IsDirectorySeparator(p[|p| - |r| - 1]))
  {
    var r := FileName(p);
    var s := LastSeparator(p);
    assert |r| == |p| - s - 1;
    forall k | 0 <= k < |r|
      ensures !IsDirectorySeparator(r[k])
    {
      assert r[k] == p[s + 1 + k];
    }
  }

  /** `Path.GetExtension`: from the last `.` of the file name to the end,
      or empty when the file name has no `.` or ends with it. */
  function Extension(p: string): string
  {
    var f := FileName(p);
    var d := LastIndexOf(f, '.');
    if d < 0 || d == |f| - 1 then "" else f[d..]
  }

  /** The extension is a suffix of the path, starting at its only `.`,
      with at least one character after the `.` and no separator. */
  lemma ExtensionFacts(p: string)
    ensures var r := Extension(p);
      |r| <= |p| && r == p[|p| - |r|..]
      && (r != [] ==> |r| >= 2 && r[0] == '.' && '.' !in r[1..])
      && (forall k :: 0 <= k < |r| ==> !IsDirectorySeparator(r[k]))
  {
    FileNameFacts(p);
    var f := FileName(p);
    var d := LastIndexOf(f, '.');
    var r := Extension(p);
    if r != [] {
      assert r == f[d..];
      assert r[1..] == f[d + 1..];
      assert forall k :: 0 <= k < |r| ==> r[k] == f[d + k];
    }
  }

  /** The extension is empty exactly when the file name has no `.` or ends with one. */
  lemma ExtensionEmpty(p: string)
    ensures Extension(p) == [] <==>
              '.' !in FileName(p) || FileName(p)[|FileName(p)| - 1] == '.'
  {
  }

  /** `Path.GetFileNameWithoutExtension`: the file name cut at its last `.`. */
  function FileNameWithoutExtension(p: string): string
  {
    CutAtLastDot(FileName(p))
  }

  /** A name cut before its last `.`, or the whole name when it has none. */
  function CutAtLastDot(f: string): string
  {
    var d := LastIndexOf(f, '.');
    if d < 0 then f else f[..d]
  }

  /** The name without extension is a prefix of the file name, and all of
      it only when the file name has no `.`. */
  lemma CutAtLastDotPrefix(f: string)
    ensures var r := CutAtLastDot(f);
      |r| <= |f| && r == f[..|r|] && (|r| == |f| <==> '.' !in f)
  {
  }

  /** A shorter name without extension stops at the last `.` of the file name. */
  lemma CutAtLastDotAtDot(f: string)
    ensures var r := CutAtLastDot(f);
      |r| < |f| ==> f[|r|] == '.' && '.' !in f[|r| + 1..]
  {
    var d := LastIndexOf(f, '.');
    if d >= 0 {
      var t := f[d + 1..];
      forall k | 0 <= k < |t|
        ensures t[k] != '.'
      {
        assert t[k] == f[d + 1 + k];
      }
    }
  }

  /** The length of the root of `p`: `X:\` (3), `X:` (2), a leading separator (1), or none. */
  function RootLength(p: string): (n: nat)
    ensures n <= |p|
  {
    if |p| >= 2 && IsDriveLetter(p[0]) && p[1] == ':' then
      (if |p| >= 3 && IsDirectorySeparator(p[2]) then 3 else 2)
    else if |p| >= 1 && IsDirectorySeparator(p[0]) then 1
    else 0
  }

  /** `Path.IsPathRooted`: a leading separator or a drive letter and colon. */
  predicate IsPathRooted(p: string)
  {
    (|p| >= 1 && IsDirectorySeparator(p[0])) || (|p| >= 2 && IsDriveLetter(p[0]) && p[1] == ':')
  }

  /** An empty path or one made only of spaces. */
  predicate IsEffectivelyEmpty(p: string)
  {
    forall k :: 0 <= k < |p| ==> p[k] == ' '
  }

  /** Steps back over the separators directly before `end`, never below `root`. */
  function TrimSeparatorsBefore(p: string, root: nat, end: nat): (r: nat)
    requires root <= end <= |p|
    ensures root <= r <= end
    ensures forall j :: r <= j < end ==> IsDirectorySeparator(p[j])
    ensures r == root || !IsDirectorySeparator(p[r - 1])
  {
    if end > root && IsDirectorySeparator(p[end - 1]) then TrimSeparatorsBefore(p, root, end - 1) else end
  }

  /** Where `Path.GetDirectoryName` cuts `p`, or -1 for an empty path or a
      bare root: before the last separator, with the separators directly
      before it removed, but never less than the root. */
  function DirectoryNameEnd(p: string): (n: int)
    ensures n < 0 <==> IsEffectivelyEmpty(p) || |p| <= RootLength(p)
    ensures n >= 0 ==> RootLength(p) <= n < |p|
    ensures n >= 0 && LastSeparator(p) < RootLength(p) ==> n == RootLength(p)
    ensures n >= 0 && LastSeparator(p) >= RootLength(p) ==>
              n <= LastSeparator(p)
              && (forall j :: n <= j <= LastSeparator(p) ==> IsDirectorySeparator(p[j]))
              && (n == RootLength(p) || !IsDirectorySeparator(p[n - 1]))
  {
    var root := RootLength(p);
    if IsEffectivelyEmpty(p) || |p| <= root then -1
    else
      var s := LastSeparator(p);
      var end := if s >= root then s else root;
      TrimSeparatorsBefore(p, root, end)
  }

  /** `Path.GetDirectoryName`: `None` for an empty path or a bare root;
      otherwise the text before `DirectoryNameEnd`, with its separators
      normalized as `NormalizeDirectorySeparators` does. */
  function DirectoryName(p: string): (r: Option<string>)
    ensures r.None? <==> IsEffectivelyEmpty(p) || |p| <= RootLength(p)
    ensures r.Some? ==> |r.value| < |p|
  {
    var n := DirectoryNameEnd(p);
    if n < 0 then None
    else
      NormalizeShape(p[..n]);
      Some(NormalizeSeparators(p[..n]))
  }

  /** The directory name is the path up to the cut, with only its
      separators changed: no `/` is left and no separator is doubled after
      the first position. */
  lemma DirectoryNameSpec(p: string)
    requires DirectoryName(p).Some?
    ensures var d := DirectoryName(p).value;
      Normalized(d) && NonSeparators(d) == NonSeparators(p[..DirectoryNameEnd(p)])
  {
    NormalizeShape(p[..DirectoryNameEnd(p)]);
  }

  /** A cut that is already normalized is returned as it is. */
  lemma DirectoryNameOfNormalized(p: string)
    requires DirectoryName(p).Some? && Normalized(p[..DirectoryNameEnd(p)])
    ensures DirectoryName(p).value == p[..DirectoryNameEnd(p)]
  {
    NormalizeOfNormalized(p[..DirectoryNameEnd(p)]);
  }

  /** `Path.GetDirectoryName(p) ?? string.Empty`. */
  function DirectoryNameOrEmpty(p: string): (r: string)
    ensures r == [] || |r| < |p|
  {
    DirectoryName(p).GetOr("")
  }

  // ---------------------------------------------------------------------
  // Separator normalization

  /** The characters of `s` other than separators, in order. */
  function NonSeparators(s: string): string
  {
    if s == [] then []
    else (if IsDirectorySeparator(s[0]) then [] else [s[0]]) + NonSeparators(s[1..])
  }

  /** No `/`, and no two separators in a row. */
  predicate Collapsed(s: string)
  {
    (forall k :: 0 <= k < |s| ==> s[k] != '/')
    && (forall k :: 0 <= k < |s| - 1 ==> !(IsDirectorySeparator(s[k]) && IsDirectorySeparator(s[k + 1])))
  }

  /** No `/`, and no two separators in a row after the first position,
      where a UNC prefix `\\` keeps its two. */
  predicate Normalized(s: string)
  {
    (forall k :: 0 <= k < |s| ==> s[k] != '/')
    && (forall k :: 1 <= k < |s| - 1 ==> !(IsDirectorySeparator(s[k]) && IsDirectorySeparator(s[k + 1])))
  }

  /** The loop of `NormalizeDirectorySeparators`: a separator followed by
      another is dropped, and every other separator becomes `\`. */
  function CollapseSeparators(s: string): string
  {
    if s == [] then []
    else if |s| >= 2 && IsDirectorySeparator(s[0]) && IsDirectorySeparator(s[1]) then CollapseSeparators(s[1..])
    else [if IsDirectorySeparator(s[0]) then '\\' else s[0]] + CollapseSeparators(s[1..])
  }

  /** `PathInternal.NormalizeDirectorySeparators`: a leading separator is
      kept as `\` whatever follows it; the rest is collapsed. */
  function NormalizeSeparators(s: string): string
  {
    if s == [] then []
    else if IsDirectorySeparator(s[0]) then "\\" + CollapseSeparators(s[1..])
    else CollapseSeparators(s)
  }

  lemma NonSeparatorsAppend(a: string, b: string)
    ensures NonSeparators(a + b) == NonSeparators(a) + NonSeparators(b)
  {
    if a == [] {
      assert a + b == b;
    } else {
      assert (a + b)[1..] == a[1..] + b;
      NonSeparatorsAppend(a[1..], b);
    }
  }

  /** Collapsing leaves no `/` and no doubled separator, keeps every other
      character in order, and starts with a separator exactly when the
      input does. */
  lemma CollapseShape(s: string)
    ensures Collapsed(CollapseSeparators(s))
    ensures |CollapseSeparators(s)| <= |s|
    ensures NonSeparators(CollapseSeparators(s)) == NonSeparators(s)
    ensures (CollapseSeparators(s) == []) == (s == [])
    ensures s != [] ==> (IsDirectorySeparator(CollapseSeparators(s)[0]) <==> IsDirectorySeparator(s[0]))
  {
    CollapseLength(s);
    CollapseKeepsNonSeparators(s);
    CollapseLeavesCollapsed(s);
  }

  lemma {:induction false} CollapseLength(s: string)
    ensures |CollapseSeparators(s)| <= |s|
    ensures (CollapseSeparators(s) == []) == (s == [])
    ensures s != [] ==> (IsDirectorySeparator(CollapseSeparators(s)[0]) <==> IsDirectorySeparator(s[0]))
  {
    if s != [] {
      CollapseLength(s[1..]);
    }
  }

  lemma {:induction false} CollapseKeepsNonSeparators(s: string)
    ensures NonSeparators(CollapseSeparators(s)) == NonSeparators(s)
  {
    if s != [] {
      CollapseKeepsNonSeparators(s[1..]);
      if !(|s| >= 2 && IsDirectorySeparator(s[0]) && IsDirectorySeparator(s[1])) {
        var c := if IsDirectorySeparator(s[0]) then '\\' else s[0];
        NonSeparatorsAppend([c], CollapseSeparators(s[1..]));
        assert NonSeparators([c]) == NonSeparators([s[0]]);
      }
    }
  }

  lemma {:induction false} CollapseLeavesCollapsed(s: string)
    ensures Collapsed(CollapseSeparators(s))
  {
    if s != [] {
      CollapseLeavesCollapsed(s[1..]);
      CollapseLength(s[1..]);
      var t := CollapseSeparators(s[1..]);
      if !(|s| >= 2 && IsDirectorySeparator(s[0]) && IsDirectorySeparator(s[1])) {
        var c := if IsDirectorySeparator(s[0]) then '\\' else s[0];
        var r := [c] + t;
        forall k | 0 <= k < |r| - 1
          ensures !(IsDirectorySeparator(r[k]) && IsDirectorySeparator(r[k + 1]))
        {
          if k > 0 { assert r[k] == t[k - 1] && r[k + 1] == t[k]; }
        }
        assert forall k :: 1 <= k < |r| ==> r[k] == t[k - 1];
      }
    }
  }

  /** One step of collapsing: a character in front of `s` is dropped when
      it and the first of `s` are both separators, and kept otherwise
      (as `\\` when it is a separator). */
  lemma CollapseCons(c: char, s: string)
    ensures s != [] && IsDirectorySeparator(c) && IsDirectorySeparator(s[0]) ==>
              CollapseSeparators([c] + s) == CollapseSeparators(s)
    ensures !(s != [] && IsDirectorySeparator(c) && IsDirectorySeparator(s[0])) ==>
              CollapseSeparators([c] + s) == [if IsDirectorySeparator(c) then '\\' else c] + CollapseSeparators(s)
  {
    assert ([c] + s)[1..] == s;
  }

  /** Normalizing leaves a normalized string of no greater length, with
      only its separators changed. */
  lemma NormalizeShape(s: string)
    ensures Normalized(NormalizeSeparators(s))
    ensures |NormalizeSeparators(s)| <= |s|
    ensures NonSeparators(NormalizeSeparators(s)) == NonSeparators(s)
  {
    if s != [] && IsDirectorySeparator(s[0]) {
      CollapseShape(s[1..]);
      var t := CollapseSeparators(s[1..]);
      NonSeparatorsAppend("\\", t);
      var r := "\\" + t;
      assert forall k :: 1 <= k < |r| ==> r[k] == t[k - 1];
    } else {
      CollapseShape(s);
    }
  }

  /** A collapsed string is its own collapse. */
  lemma {:induction false} CollapseOfCollapsed(s: string)
    requires Collapsed(s)
    ensures CollapseSeparators(s) == s
  {
    if s != [] {
      assert Collapsed(s[1..]) by {
        assert forall k :: 0 <= k < |s| - 1 ==> s[1..][k] == s[k + 1];
      }
      CollapseOfCollapsed(s[1..]);
      assert s == [s[0]] + s[1..];
    }
  }

  /** A normalized string is its own normalization. */
  lemma NormalizeOfNormalized(s: string)
    requires Normalized(s)
    ensures NormalizeSeparators(s) == s
  {
    if s != [] {
      assert Collapsed(s[1..]) by {
        assert forall k :: 0 <= k < |s| - 1 ==> s[1..][k] == s[k + 1];
      }
      if IsDirectorySeparator(s[0]) {
        CollapseOfCollapsed(s[1..]);
        assert s == "\\" + s[1..];
      } else {
        assert Collapsed(s);
        CollapseOfCollapsed(s);
      }
    }
  }

  /** A string whose only separator is one `\\` is normalized. */
  lemma OneSeparatorNormalized(s: string, i: nat)
    requires i < |s| && s[i] == '\\'
    requires forall k :: 0 <= k < |s| && k != i ==> !IsDirectorySeparator(s[k])
    ensures Normalized(s)
  {
  }

  /** Normalizing twice is normalizing once. */
  lemma NormalizeIdempotent(s: string)
    ensures NormalizeSeparators(NormalizeSeparators(s)) == NormalizeSeparators(s)
  {
    NormalizeShape(s);
    NormalizeOfNormalized(NormalizeSeparators(s));
  }

  /** `Path.Combine(a, b)`: `b` alone when it is rooted or `a` is empty,
      otherwise `a` and `b` joined by one separator unless `a` ends in one. */
  function Combine(a: string, b: string): (r: string)
  {
    if b == [] then a
    else if a == [] || IsPathRooted(b) then b
    else if IsDirectorySeparator(a[|a| - 1]) then a + b
    else a + "\\" + b
  }

  /** Joining a plain name to a directory gives a path inside that directory
      whose file name is the name. */
  lemma CombineName(a: string, b: string)
    requires a != [] && b != [] && !IsPathRooted(b)
    requires forall k :: 0 <= k < |b| ==> !IsDirectorySeparator(b[k])
    ensures Combine(a, b)[..|a|] == a
    ensures FileName(Combine(a, b)) == b
  {
    var r := Combine(a, b);
    assert r[|r| - |b|..] == b;
    assert IsDirectorySeparator(r[|r| - |b| - 1]);
    assert LastSeparator(r) == |r| - |b| - 1;
  }

  /** The directory, extension and bare name of an application file. */
  lemma ApplicationPathExample()
    ensures DirectoryName("C:\\Apps\\tool.exe") == Some("C:\\Apps")
    ensures Extension("C:\\Apps\\tool.exe") == ".exe"
    ensures FileNameWithoutExtension("C:\\Apps\\tool.exe") == "tool"
  {
    ApplicationDirectoryExample();
    ApplicationFileNameExample();
  }

  lemma ApplicationFileNameExample()
    ensures Extension("C:\\Apps\\tool.exe") == ".exe"
    ensures FileNameWithoutExtension("C:\\Apps\\tool.exe") == "tool"
  {
    var p := "C:\\Apps\\tool.exe";
    assert p[7] == '\\';
    assert LastSeparator(p) == 7;
    assert FileName(p) == "tool.exe";
    assert LastIndexOf("tool.exe", '.') == 4;
  }

  lemma ApplicationDirectoryExample()
    ensures DirectoryName("C:\\Apps\\tool.exe") == Some("C:\\Apps")
  {
    var p := "C:\\Apps\\tool.exe";
    assert p[7] == '\\';
    assert LastSeparator(p) == 7;
    assert !IsEffectivelyEmpty(p) by { assert p[0] != ' '; }
    assert RootLength(p) == 3;
    assert TrimSeparatorsBefore(p, 3, 7) == 7;
    assert DirectoryNameEnd(p) == 7;
    var d := p[..7];
    assert d == "C:\\Apps";
    OneSeparatorNormalized(d, 2);
    DirectoryNameOfNormalized(p);
  }

  /** A doubled separator inside the directory is collapsed to one. */
  lemma DoubledSeparatorExample()
    ensures DirectoryName("C:\\A\\\\B\\app.exe") == Some("C:\\A\\B")
  {
    DoubledSeparatorCut();
    DoubledSeparatorNormalized();
  }

  lemma DoubledSeparatorCut()
    ensures var p := "C:\\A\\\\B\\app.exe"; DirectoryNameEnd(p) == 7 && p[..7] == "C:\\A\\\\B"
  {
    var p := "C:\\A\\\\B\\app.exe";
    assert p[7] == '\\';
    assert LastSeparator(p) == 7;
    assert !IsEffectivelyEmpty(p) by { assert p[0] != ' '; }
    assert RootLength(p) == 3;
    assert TrimSeparatorsBefore(p, 3, 7) == 7;
  }

  lemma DoubledSeparatorNormalized()
    ensures NormalizeSeparators("C:\\A\\\\B") == "C:\\A\\B"
  {
    var t1 := "\\" + "B";
    CollapseCons('B', []);
    CollapseCons('\\', "B");
    assert CollapseSeparators(t1) == t1;
    var t2 := "\\" + t1;
    CollapseCons('\\', t1);
    var t3 := "A" + t2;
    CollapseCons('A', t2);
    var t4 := "\\" + t3;
    CollapseCons('\\', t3);
    var t5 := ":" + t4;
    CollapseCons(':', t4);
    var d := "C" + t5;
    CollapseCons('C', t5);
    assert d == "C:\\A\\\\B";
    assert CollapseSeparators(d) == "C:\\A\\B";
  }

  /** A file at the root of a drive lies in the root; the root itself has no directory. */
  lemma DriveRootExample()
    ensures DirectoryName("C:\\tool.exe") == Some("C:\\")
    ensures DirectoryName("C:\\") == None
  {
    var q := "C:\\tool.exe";
    assert q[2] == '\\';
    assert LastSeparator(q) == 2;
    assert !IsEffectivelyEmpty(q) by { assert q[0] != ' '; }
    assert RootLength(q) == 3;
    assert TrimSeparatorsBefore(q, 3, 3) == 3;
    assert q[..3] == "C:\\";
    OneSeparatorNormalized("C:\\", 2);
    DirectoryNameOfNormalized(q);
    assert RootLength("C:\\") == 3;
  }
}
