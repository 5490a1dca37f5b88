/** Icon lookup for an installed program: the display-icon path first, then
    the Windows Installer cache, then the install directory. Decoding,
    existence checks and directory listings are asked of a `Machine`. */
module IconLoader {
  import opened Wrappers
  import opened Text
  import opened Paths
  import opened StringExtensions
  import opened Oracles

  // ---------------------------------------------------------------------
  // RemoveIconIndex

  /** `RemoveIconIndex`: strips a trailing `,<index>` from an icon path.
      Written as in the source: it cuts at the last comma unless that comma
      lies before the last character of the extension (the extension
      itself cut at its last comma). */
  function RemoveIconIndex(filePath: string): Result<string>
  {
    var fullExtension := Extension(filePath);
    var extension := if ',' in fullExtension then fullExtension[..LastIndexOf(fullExtension, ',')] else fullExtension;
    var extensionIndex := LastIndexOfString(filePath, extension) + |extension| - 1;
    var index := LastIndexOf(filePath, ',');
    if index < extensionIndex then Ok(filePath)
    else if index < 0 then Err(ArgumentOutOfRange)
    else Ok(filePath[..index])
  }

  /** Only an empty path makes `RemoveIconIndex` throw; otherwise it keeps a
      prefix: up to the last comma when the extension holds a comma, the
      whole path when the extension holds none, and, for a path without
      extension, the path less a trailing comma. */
  lemma RemoveIconIndexSpec(filePath: string)
    ensures var r := RemoveIconIndex(filePath);
      (r.Err? <==> filePath == [])
      && (r.Ok? ==> |r.value| <= |filePath| && r.value == filePath[..|r.value|])
      && (',' in Extension(filePath) ==> r == Ok(filePath[..LastIndexOf(filePath, ',')]))
      && (Extension(filePath) != [] && ',' !in Extension(filePath) ==> r == Ok(filePath))
      && (Extension(filePath) == [] && filePath != [] ==>
            r == Ok(if filePath[|filePath| - 1] == ',' then filePath[..|filePath| - 1] else filePath))
  {
    var fullExtension := Extension(filePath);
    var extension := if ',' in fullExtension then fullExtension[..LastIndexOf(fullExtension, ',')] else fullExtension;
    var extensionIndex := LastIndexOfString(filePath, extension) + |extension| - 1;
    var index := LastIndexOf(filePath, ',');
    ExtensionFacts(filePath);
    RemoveIconIndexFacts(filePath, fullExtension, extension, extensionIndex, index);
  }

  /** The positions `RemoveIconIndex` compares, worked out case by case for
      an extension `e` of `p`. */
  lemma RemoveIconIndexFacts(p: string, e: string, extension: string, extensionIndex: int, index: int)
    requires |e| <= |p| && e == p[|p| - |e|..]
    requires e != [] ==> e[0] == '.' && '.' !in e[1..]
    requires extension == (if ',' in e then e[..LastIndexOf(e, ',')] else e)
    requires extensionIndex == LastIndexOfString(p, extension) + |extension| - 1
    requires index == LastIndexOf(p, ',')
    ensures ',' in e ==> 0 <= extensionIndex < index
    ensures e != [] && ',' !in e ==> index < extensionIndex
    ensures e == [] ==> extensionIndex == |p| - 1
  {
    if e != [] {
      if ',' in e {
        CommaInExtension(p, e, extension);
      } else {
        DotStartsLastOccurrence(p, e, e);
        LastIndexOfNotInSuffix(p, e, ',');
      }
    }
  }

  /** With a comma in the extension `e`, the cut extension ends just before
      the last comma of the path. */
  lemma CommaInExtension(p: string, e: string, cut: string)
    requires |e| <= |p| && e == p[|p| - |e|..] && e != [] && e[0] == '.' && '.' !in e[1..]
    requires ',' in e && cut == e[..LastIndexOf(e, ',')]
    ensures LastIndexOfString(p, cut) + |cut| - 1 < LastIndexOf(p, ',')
    ensures 0 <= LastIndexOfString(p, cut) + |cut| - 1
  {
    assert LastIndexOf(e, ',') >= 1 by { assert e[0] == '.'; }
    DotStartsLastOccurrence(p, e, cut);
    LastIndexOfInSuffix(p, e, ',');
  }

  /** In a suffix `e` that starts with its only `.`, a non-empty prefix of
      `e` occurs last where `e` starts. */
  lemma DotStartsLastOccurrence(p: string, e: string, prefix: string)
    requires |e| <= |p| && e == p[|p| - |e|..] && e != [] && e[0] == '.' && '.' !in e[1..]
    requires prefix != [] && |prefix| <= |e| && prefix == e[..|prefix|]
    ensures LastIndexOfString(p, prefix) == |p| - |e|
  {
    var start := |p| - |e|;
    assert OccursAt(p, prefix, start) by {
      assert p[start..start + |prefix|] == e[..|prefix|];
    }
    var r := LastIndexOfString(p, prefix);
    assert p[r] == '.' by {
      assert OccursAt(p, prefix, r);
      assert p[r..r + |prefix|][0] == p[r];
    }
  }

  /** An icon index after the extension is removed. */
  lemma RemoveIconIndexStripsIndex()
    ensures RemoveIconIndex("a\\b.exe,0") == Ok("a\\b.exe")
  {
    var p := "a\\b.exe,0";
    assert LastSeparator(p) == 1 by { assert p[1] == '\\'; }
    assert FileName(p) == "b.exe,0";
    var f := "b.exe,0";
    assert f[1] == '.';
    assert LastIndexOf(f, '.') == 1;
    assert f[1..] == ".exe,0";
    assert Extension(p) == ".exe,0";
    assert ',' in Extension(p) by { assert Extension(p)[4] == ','; }
    assert LastIndexOf(p, ',') == 7 by { assert p[7] == ','; }
    assert p[..7] == "a\\b.exe";
    RemoveIconIndexSpec(p);
  }

  /** A comma before the file name is kept. */
  lemma RemoveIconIndexKeepsEarlierComma()
    ensures RemoveIconIndex("a,b\\c.exe") == Ok("a,b\\c.exe")
  {
    var q := "a,b\\c.exe";
    assert LastSeparator(q) == 3 by { assert q[3] == '\\'; }
    assert FileName(q) == "c.exe";
    assert LastIndexOf("c.exe", '.') == 1;
    assert Extension(q) == ".exe";
    assert ',' !in Extension(q);
    RemoveIconIndexSpec(q);
  }

  // ---------------------------------------------------------------------
  // Candidate files and their order

  /** The entries of `s` that satisfy `keep`, in their order. */
  function Filter(s: seq<FileEntry>, keep: FileEntry -> bool): (r: seq<FileEntry>)
    ensures |r| <= |s|
    ensures forall k :: 0 <= k < |r| ==> keep(r[k]) && r[k] in s
    ensures forall x :: x in s && keep(x) ==> x in r
  {
    if s == [] then []
    else if keep(s[0]) then [s[0]] + Filter(s[1..], keep)
    else Filter(s[1..], keep)
  }

  predicate SortedByLengthDescending(s: seq<FileEntry>)
  {
    forall i, j :: 0 <= i < j < |s| ==> s[i].length >= s[j].length
  }

  /** Inserts `x` before the first entry that is not longer than it. */
  function InsertByLength(x: FileEntry, s: seq<FileEntry>): (r: seq<FileEntry>)
    requires SortedByLengthDescending(s)
    ensures SortedByLengthDescending(r)
    ensures multiset(r) == multiset(s) + multiset{x}
    ensures |r| == |s| + 1 && (r[0] == x || (s != [] && r[0] == s[0]))
  {
    if s == [] || s[0].length <= x.length then [x] + s
    else
      var rest := InsertByLength(x, s[1..]);
      assert s == [s[0]] + s[1..];
      assert rest[0].length <= s[0].length;
      [s[0]] + rest
  }

  /** `OrderByDescending(x => x.Length)`: a stable sort, longest first. */
  function OrderByLengthDescending(s: seq<FileEntry>): (r: seq<FileEntry>)
    ensures SortedByLengthDescending(r)
    ensures multiset(r) == multiset(s)
  {
    if s == [] then []
    else
      assert s == [s[0]] + s[1..];
      InsertByLength(s[0], OrderByLengthDescending(s[1..]))
  }

  predicate HasLength(n: nat, f: FileEntry) { f.length == n }

  lemma {:induction false} InsertByLengthStable(x: FileEntry, s: seq<FileEntry>, n: nat)
    requires SortedByLengthDescending(s)
    ensures Filter(InsertByLength(x, s), f => HasLength(n, f)) == Filter([x] + s, f => HasLength(n, f))
  {
    if s != [] && s[0].length > x.length {
      InsertByLengthStable(x, s[1..], n);
      assert ([x] + s)[1..] == s;
      assert ([x] + s[1..])[1..] == s[1..];
    }
  }

  /** The sort is stable: entries of equal length keep their relative order. */
  lemma {:induction false} OrderByLengthDescendingStable(s: seq<FileEntry>, n: nat)
    ensures Filter(OrderByLengthDescending(s), f => HasLength(n, f)) == Filter(s, f => HasLength(n, f))
  {
    if s != [] {
      OrderByLengthDescendingStable(s[1..], n);
      InsertByLengthStable(s[0], OrderByLengthDescending(s[1..]), n);
      assert ([s[0]] + OrderByLengthDescending(s[1..]))[1..] == OrderByLengthDescending(s[1..]);
    }
  }

  /** `GetFiles("*.ico")` keeps these. */
  predicate IsIco(f: FileEntry) { ToLower(Extension(f.fullName)) == ".ico" }

  /** `GetFiles("*.exe")` and `EnumerateFiles(.., "*.exe", ..)` keep these. */
  predicate IsExe(f: FileEntry) { ToLower(Extension(f.fullName)) == ".exe" }

  /** `string.IsNullOrEmpty(x.Extension)`. */
  predicate HasNoExtension(f: FileEntry) { Extension(f.fullName) == "" }

  /** `GetIconPathFromDirectoryIco`'s candidates: the `.ico` files, longest first. */
  function IcoFiles(all: seq<FileEntry>): seq<FileEntry>
  {
    OrderByLengthDescending(Filter(all, IsIco))
  }

  /** `GetIconPathFromDirectoryExe`'s candidates: the `.exe` files, longest first. */
  function ExeFiles(all: seq<FileEntry>): seq<FileEntry>
  {
    OrderByLengthDescending(Filter(all, IsExe))
  }

  /** `GetIconPathFromDirectoryNoExt`'s candidates: the files without extension, as listed. */
  function NoExtensionFiles(all: seq<FileEntry>): seq<FileEntry>
  {
    Filter(all, HasNoExtension)
  }

  // ---------------------------------------------------------------------
  // Name matching. The selection code below takes the name test as a
  // value `similar`; the icon steps pass `SimilarTo(displayName)`.

  /** A file whose name without extension loosely matches the display name. */
  predicate Similar(f: FileEntry, displayName: string)
  {
    ContainsGeneralized(FileNameWithoutExtension(f.fullName), displayName)
  }

  /** The name test `FindSimilarDisplayName` applies to each file. */
  function SimilarTo(displayName: string): FileEntry -> bool
  {
    f => Similar(f, displayName)
  }

  /** The position of the first file that passes the name test, if any. */
  function FirstSimilarIndex(files: seq<FileEntry>, similar: FileEntry -> bool): (r: Option<nat>)
    ensures r.Some? ==> r.value < |files| && similar(files[r.value])
    ensures r.Some? ==> forall j :: 0 <= j < r.value ==> !similar(files[j])
    ensures r.None? <==> forall j :: 0 <= j < |files| ==> !similar(files[j])
  {
    if files == [] then None
    else if similar(files[0]) then Some(0)
    else match FirstSimilarIndex(files[1..], similar)
      case None => None
      case Some(i) => Some(i + 1)
  }

  /** The first file, in array order, that passes the name test. */
  function FirstSimilar(files: seq<FileEntry>, similar: FileEntry -> bool): (r: Option<FileEntry>)
  {
    match FirstSimilarIndex(files, similar)
    case None => None
    case Some(i) => Some(files[i])
  }

  /** With the display-name test, the first match is a file similar to the
      display name, and no earlier file is. */
  lemma FirstSimilarToDisplayName(files: seq<FileEntry>, displayName: string)
    ensures var r := FirstSimilarIndex(files, SimilarTo(displayName));
      (r.Some? ==> Similar(files[r.value], displayName)
                   && forall j :: 0 <= j < r.value ==> !Similar(files[j], displayName))
      && (r.None? ==> forall j :: 0 <= j < |files| ==> !Similar(files[j], displayName))
  {
    var similar := SimilarTo(displayName);
    var r := FirstSimilarIndex(files, similar);
    if r.Some? {
      assert similar(files[r.value]);
      forall j | 0 <= j < r.value
        ensures !Similar(files[j], displayName)
      {
        assert !similar(files[j]);
      }
    } else {
      forall j | 0 <= j < |files|
        ensures !Similar(files[j], displayName)
      {
        assert !similar(files[j]);
      }
    }
  }

  /** `FindSimilarDisplayName`: scans the files in order and stops at the first similar one. */
  method FindSimilarDisplayName(files: seq<FileEntry>, similar: FileEntry -> bool) returns (similarFile: Option<FileEntry>)
    ensures similarFile == FirstSimilar(files, similar)
  {
    similarFile := None;
    var i := 0;
    while i < |files|
      invariant 0 <= i <= |files|
      invariant forall j :: 0 <= j < i ==> !similar(files[j])
    {
      if similar(files[i]) {
        similarFile := Some(files[i]);
        break;
      }
      i := i + 1;
    }
  }

  /** What `GetIconFileFromFiles` returns: nothing for no files, otherwise
      the first similar file, or failing that the first file. */
  function IconFileFromFiles(files: seq<FileEntry>, similar: FileEntry -> bool): (r: Option<string>)
    ensures r.None? <==> files == []
    ensures r.Some? ==> exists k :: 0 <= k < |files| && files[k].fullName == r.value
  {
    if files == [] then None
    else match FirstSimilar(files, similar)
      case Some(f) => Some(f.fullName)
      case None => Some(files[0].fullName)
  }

  /** A similar file is preferred; without one, the first file is taken. */
  lemma IconFileFromFilesChoice(files: seq<FileEntry>, similar: FileEntry -> bool)
    requires files != []
    ensures (exists k :: 0 <= k < |files| && similar(files[k])) ==>
              IconFileFromFiles(files, similar) == Some(files[FirstSimilarIndex(files, similar).value].fullName)
    ensures (forall k :: 0 <= k < |files| ==> !similar(files[k])) ==>
              IconFileFromFiles(files, similar) == Some(files[0].fullName)
  {
  }

  /** `GetIconFileFromFiles`. */
  method GetIconFileFromFiles(files: seq<FileEntry>, similar: FileEntry -> bool) returns (path: Option<string>)
    ensures path == IconFileFromFiles(files, similar)
  {
    path := None;
    if |files| != 0 {
      var file := FindSimilarDisplayName(files, similar);
      if file.None? {
        file := Some(files[0]);
      }
      path := Some(file.value.fullName);
    }
  }

  /** Without a similar file among sorted candidates, a longest one is taken. */
  lemma LongestWithoutMatch(s: seq<FileEntry>, similar: FileEntry -> bool)
    requires s != []
    requires forall k :: 0 <= k < |OrderByLengthDescending(s)| ==> !similar(OrderByLengthDescending(s)[k])
    ensures exists f :: f in s && IconFileFromFiles(OrderByLengthDescending(s), similar) == Some(f.fullName)
              && forall g :: g in s ==> g.length <= f.length
  {
    var sorted := OrderByLengthDescending(s);
    assert |sorted| == |s| by {
      assert |multiset(sorted)| == |multiset(s)|;
    }
    IconFileFromFilesChoice(sorted, similar);
    FirstOfSortedIsLongest(sorted, s);
  }

  /** The head of a longest-first ordering of `s` is an element of `s` no
      shorter than any other. */
  lemma FirstOfSortedIsLongest(sorted: seq<FileEntry>, s: seq<FileEntry>)
    requires sorted != [] && SortedByLengthDescending(sorted)
    requires multiset(sorted) == multiset(s)
    ensures sorted[0] in s && forall g :: g in s ==> g.length <= sorted[0].length
  {
    assert sorted[0] in multiset(s) by {
      assert sorted[0] in multiset(sorted);
    }
    forall g | g in s
      ensures g.length <= sorted[0].length
    {
      assert g in multiset(sorted);
      var k :| 0 <= k < |sorted| && sorted[k] == g;
      if k > 0 {
        assert sorted[0].length >= sorted[k].length;
      }
    }
  }

  // ---------------------------------------------------------------------
  // The display-icon step

  /** How the display-icon step treats a path, by its lower-cased extension. */
  datatype IconKind = IconFile | Picture | OtherFile

  function KindOf(displayIcon: string): IconKind
  {
    var extension := ToLower(Extension(displayIcon));
    if IsSubstring(".ico", extension) || IsSubstring(".exe", extension) then IconFile
    else if IsSubstring(".jpg", extension) || IsSubstring(".jpeg", extension) || IsSubstring(".png", extension) then Picture
    else OtherFile
  }

  /** The icon or executable a display-icon value names: index removed, quotes trimmed. */
  function CleanIconPath(displayIcon: string): Result<string>
  {
    match RemoveIconIndex(displayIcon)
    case Ok(p) => Ok(Trim(p, '"'))
    case Err(e) => Err(e)
  }

  lemma ContainsNonEmpty(needle: string, hay: string)
    requires needle != [] && IsSubstring(needle, hay)
    ensures hay != []
  {
  }

  /** A path with an icon or executable extension is not empty. */
  lemma IconFileNotEmpty(displayIcon: string)
    requires KindOf(displayIcon) == IconFile
    ensures displayIcon != [] && CleanIconPath(displayIcon).Ok?
  {
    RemoveIconIndexSpec(displayIcon);
    var extension := ToLower(Extension(displayIcon));
    if IsSubstring(".ico", extension) {
      ContainsNonEmpty(".ico", extension);
    } else {
      ContainsNonEmpty(".exe", extension);
    }
  }

  /** `GetIconFromDisplayIconPath`. */
  function FromDisplayIconPath(displayIcon: string, m: Machine): Result<Option<Bitmap>>
  {
    var kind := KindOf(displayIcon);
    if kind == IconFile then
      IconFileNotEmpty(displayIcon);
      var iconPath := CleanIconPath(displayIcon).value;
      if iconPath in m.files then
        match m.DecodeIcon(iconPath, None)
        case Ok(b) => Ok(Some(b))
        case Err(e) => Err(e)
      else Ok(None)
    else if kind == Picture then
      if displayIcon in m.files then
        match m.DecodeImage(displayIcon)
        case Ok(b) => Ok(Some(b))
        case Err(e) => Err(e)
      else Ok(None)
    else Ok(None)
  }

  /** An icon or executable is decoded from the cleaned path, a picture from
      the path as given, anything else gives nothing; a file that does not
      exist gives nothing, and the only exception is a decoding failure. */
  lemma FromDisplayIconPathFacts(displayIcon: string, m: Machine)
    ensures var r := FromDisplayIconPath(displayIcon, m);
      (KindOf(displayIcon) == OtherFile ==> r == Ok(None))
      && (KindOf(displayIcon) == IconFile ==> CleanIconPath(displayIcon).Ok?)
      && (KindOf(displayIcon) == IconFile && CleanIconPath(displayIcon).value !in m.files ==> r == Ok(None))
      && (KindOf(displayIcon) == Picture && displayIcon !in m.files ==> r == Ok(None))
      && (r.Ok? && r.value.Some? ==>
            (KindOf(displayIcon) == IconFile && CleanIconPath(displayIcon).value in m.files
             && m.DecodeIcon(CleanIconPath(displayIcon).value, None) == Ok(r.value.value))
            || (KindOf(displayIcon) == Picture && displayIcon in m.files
                && m.DecodeImage(displayIcon) == Ok(r.value.value)))
      && (r.Err? ==> r.error == DecodeFailure)
  {
    if KindOf(displayIcon) == IconFile {
      IconFileNotEmpty(displayIcon);
    }
  }

  // ---------------------------------------------------------------------
  // The Windows Installer cache step

  /** `<Windows directory>\Installer\<guid>`, the Windows directory being the
      parent of the system folder. */
  function InstallerPath(guid: string, m: Machine): string
  {
    Combine(Combine(DirectoryNameOrEmpty(m.systemFolder), "Installer"), guid)
  }

  /** The candidate the cache step decodes: from the `.ico` files if there
      are any, else from the `.exe` files, else from the files without extension. */
  function CacheCandidate(all: seq<FileEntry>, similar: FileEntry -> bool): Option<string>
  {
    var ico := IconFileFromFiles(IcoFiles(all), similar);
    if ico.Some? then ico
    else
      var exe := IconFileFromFiles(ExeFiles(all), similar);
      if exe.Some? then exe
      else IconFileFromFiles(NoExtensionFiles(all), similar)
  }

  /** The `.exe` files are searched only without `.ico` files, and the files
      without extension only when there are neither. */
  lemma CacheCandidateFacts(all: seq<FileEntry>, similar: FileEntry -> bool)
    ensures var r := CacheCandidate(all, similar);
      (r.None? <==> IcoFiles(all) == [] && ExeFiles(all) == [] && NoExtensionFiles(all) == [])
      && (IcoFiles(all) != [] ==> r == IconFileFromFiles(IcoFiles(all), similar))
      && (IcoFiles(all) == [] && ExeFiles(all) != [] ==> r == IconFileFromFiles(ExeFiles(all), similar))
      && (IcoFiles(all) == [] && ExeFiles(all) == [] ==> r == IconFileFromFiles(NoExtensionFiles(all), similar))
  {
  }

  /** Without a similar name among the `.ico` files, the largest `.ico` file is taken. */
  lemma LargestIcoWithoutMatch(all: seq<FileEntry>, similar: FileEntry -> bool)
    requires IcoFiles(all) != []
    requires forall k :: 0 <= k < |IcoFiles(all)| ==> !similar(IcoFiles(all)[k])
    ensures exists f :: f in Filter(all, IsIco) && CacheCandidate(all, similar) == Some(f.fullName)
              && forall g :: g in Filter(all, IsIco) ==> g.length <= f.length
  {
    CacheCandidateFacts(all, similar);
    LongestWithoutMatch(Filter(all, IsIco), similar);
  }

  /** The type the cache step forces: `.ico` for a file without extension. */
  function ForcedType(iconPath: string): Option<string>
  {
    if Extension(iconPath) == "" then Some(".ico") else None
  }

  /** `GetIconFromWindowsInstallerCache`. */
  function InstallerCacheIcon(guid: string, displayName: string, m: Machine): Result<Option<Bitmap>>
  {
    var installerPath := InstallerPath(guid, m);
    if installerPath !in m.directories then Ok(None)
    else
      match m.Listing(installerPath)
      case Err(e) => Err(e)
      case Ok(all) => DecodeCandidate(CacheCandidate(all, SimilarTo(displayName)), m)
  }

  /** Decodes the chosen cache file, forcing `.ico` for a file without
      extension; a missing file or a failure to decode gives nothing. */
  function DecodeCandidate(candidate: Option<string>, m: Machine): (r: Result<Option<Bitmap>>)
    ensures r.Ok?
    ensures r.value.Some? <==>
              candidate.Some? && candidate.value in m.files && m.DecodeIcon(candidate.value, ForcedType(candidate.value)).Ok?
    ensures r.value.Some? ==> m.DecodeIcon(candidate.value, ForcedType(candidate.value)) == Ok(r.value.value)
  {
    match candidate
    case None => Ok(None)
    case Some(iconPath) =>
      if iconPath !in m.files then Ok(None)
      else
        match m.DecodeIcon(iconPath, ForcedType(iconPath))
        case Ok(b) => Ok(Some(b))
        case Err(_) => Ok(None)
  }

  /** Nothing unless the cache directory exists; the only exception is a
      failure to list it; an icon is the decoded cache candidate. */
  lemma InstallerCacheIconFacts(guid: string, displayName: string, m: Machine)
    ensures var r := InstallerCacheIcon(guid, displayName, m);
      (InstallerPath(guid, m) !in m.directories ==> r == Ok(None))
      && (r.Err? ==> m.Listing(InstallerPath(guid, m)).Err? && r.error == m.Listing(InstallerPath(guid, m)).error)
      && (r.Ok? && r.value.Some? ==>
            m.Listing(InstallerPath(guid, m)).Ok?
            && var c := CacheCandidate(m.Listing(InstallerPath(guid, m)).value, SimilarTo(displayName));
               c.Some? && c.value in m.files && m.DecodeIcon(c.value, ForcedType(c.value)) == Ok(r.value.value))
  {
  }

  /** `GetIconPathFromDirectoryIco`, `..Exe` and `..NoExt`: list the directory,
      pick the candidates of one category and choose among them. */
  method GetIconPathFromDirectory(directoryPath: string, similar: FileEntry -> bool, m: Machine,
                                  candidates: seq<FileEntry> -> seq<FileEntry>)
    returns (iconPath: Result<Option<string>>)
    ensures m.Listing(directoryPath).Err? ==> iconPath == Err(m.Listing(directoryPath).error)
    ensures m.Listing(directoryPath).Ok? ==>
              iconPath == Ok(IconFileFromFiles(candidates(m.Listing(directoryPath).value), similar))
  {
    match m.Listing(directoryPath)
    case Err(e) =>
      iconPath := Err(e);
    case Ok(all) =>
      var path := GetIconFileFromFiles(candidates(all), similar);
      iconPath := Ok(path);
  }

  /** `GetIconFromWindowsInstallerCache`, step by step as in the source. */
  method GetIconFromWindowsInstallerCache(guid: string, displayName: string, m: Machine)
    returns (icon: Result<Option<Bitmap>>)
    ensures icon == InstallerCacheIcon(guid, displayName, m)
  {
    var windowsPath := DirectoryNameOrEmpty(m.systemFolder);
    var installerPath := Combine(Combine(windowsPath, "Installer"), guid);
    if installerPath !in m.directories {
      return Ok(None);
    }
    assert installerPath == InstallerPath(guid, m);
    var similar := SimilarTo(displayName);
    var iconPath := GetIconPathFromDirectory(installerPath, similar, m, IcoFiles);
    if iconPath.Ok? && iconPath.value.None? {
      iconPath := GetIconPathFromDirectory(installerPath, similar, m, ExeFiles);
    }
    if iconPath.Ok? && iconPath.value.None? {
      iconPath := GetIconPathFromDirectory(installerPath, similar, m, NoExtensionFiles);
    }
    if iconPath.Err? {
      return Err(iconPath.error);
    }
    CacheCandidateFacts(m.Listing(installerPath).value, similar);
    if iconPath.value.Some? && iconPath.value.value in m.files {
      var path := iconPath.value.value;
      var extension: Option<string> := None;
      if Extension(path) == "" {
        extension := Some(".ico");
      }
      assert extension == ForcedType(path);
      var decoded := m.DecodeIcon(path, extension);
      if decoded.Ok? {
        return Ok(Some(decoded.value));
      }
      return Ok(None);
    }
    return Ok(None);
  }

  // ---------------------------------------------------------------------
  // The install-directory step

  /** `GetIconFromAppDirectory`: the icon of the first `.exe` below the install
      location whose name matches the display name, or nothing. */
  function AppDirectoryIcon(installLocation: string, displayName: string, m: Machine): Result<Option<Bitmap>>
  {
    match m.Tree(installLocation)
    case Err(e) => Err(e)
    case Ok(all) =>
      match FirstSimilar(Filter(all, IsExe), SimilarTo(displayName))
      case None => Ok(None)
      case Some(f) =>
        match m.DecodeIcon(f.fullName, None)
        case Ok(b) => Ok(Some(b))
        case Err(e) => Err(e)
  }

  /** A failure to list the tree or to decode the chosen executable is an
      exception; without a similar executable there is no icon. */
  lemma AppDirectoryIconFacts(installLocation: string, displayName: string, m: Machine)
    ensures var r := AppDirectoryIcon(installLocation, displayName, m);
      (m.Tree(installLocation).Err? ==> r == Err(m.Tree(installLocation).error))
      && ((m.Tree(installLocation).Ok? &&
           FirstSimilar(Filter(m.Tree(installLocation).value, IsExe), SimilarTo(displayName)).None?) ==> r == Ok(None))
      && (r.Ok? && r.value.Some? ==>
            m.Tree(installLocation).Ok?
            && var f := FirstSimilar(Filter(m.Tree(installLocation).value, IsExe), SimilarTo(displayName));
               f.Some? && m.DecodeIcon(f.value.fullName, None) == Ok(r.value.value))
  {
  }

  /** `GetIconFromAppDirectory`: the scan for the first similar executable
      is the one `FindSimilarDisplayName` performs; its icon is decoded. */
  method GetIconFromAppDirectory(installLocation: string, displayName: string, m: Machine)
    returns (icon: Result<Option<Bitmap>>)
    ensures icon == AppDirectoryIcon(installLocation, displayName, m)
  {
    var tree := m.Tree(installLocation);
    if tree.Err? {
      return Err(tree.error);
    }
    var file := FindSimilarDisplayName(Filter(tree.value, IsExe), SimilarTo(displayName));
    if file.None? {
      return Ok(None);
    }
    var decoded := m.DecodeIcon(file.value.fullName, None);
    if decoded.Err? {
      return Err(decoded.error);
    }
    return Ok(Some(decoded.value));
  }

  // ---------------------------------------------------------------------
  // The chain

  /** The inputs of an `IconLoader`: its four properties, each possibly null. */
  datatype Loader = Loader(id: Option<string>, displayIcon: Option<string>,
                           installLocation: Option<string>, displayName: Option<string>)

  /** The three ways of finding an icon, in the order they are tried. */
  datatype Step = DisplayIconPath | WindowsInstallerCache | AppDirectory

  function StepRank(s: Step): nat
  {
    match s
    case DisplayIconPath => 0
    case WindowsInstallerCache => 1
    case AppDirectory => 2
  }

  /** One step that ran and what it gave. */
  datatype Attempt = Attempt(step: Step, outcome: Result<Option<Bitmap>>)

  /** An outcome after which no further step runs: an icon or an exception. */
  predicate Final(o: Result<Option<Bitmap>>) { o.Err? || o.value.Some? }

  /** An id that names a Windows Installer product: `{...}`. */
  predicate IsInstallerId(id: Option<string>)
  {
    !IsNullOrEmpty(id) && id.value[0] == '{' && id.value[|id.value| - 1] == '}'
  }

  /** What each of the three steps would give for a loader, were it run. */
  datatype Outcomes = Outcomes(fromDisplayIcon: Result<Option<Bitmap>>,
                               fromInstallerCache: Result<Option<Bitmap>>,
                               fromAppDirectory: Result<Option<Bitmap>>)

  function StepOutcomes(l: Loader, m: Machine): Outcomes
  {
    var displayName := l.displayName.GetOr("");
    Outcomes(FromDisplayIconPath(l.displayIcon.GetOr(""), m),
             InstallerCacheIcon(l.id.GetOr(""), displayName, m),
             AppDirectoryIcon(l.installLocation.GetOr(""), displayName, m))
  }

  /** The steps `GetIcon` runs for a loader, with their outcomes, in order. */
  function Attempts(l: Loader, o: Outcomes): seq<Attempt>
  {
    var first := if !IsNullOrEmpty(l.displayIcon) then [Attempt(DisplayIconPath, o.fromDisplayIcon)] else [];
    if (first != [] && Final(first[0].outcome)) || IsNullOrEmpty(l.displayName) then first
    else
      var second := if IsInstallerId(l.id) then [Attempt(WindowsInstallerCache, o.fromInstallerCache)] else [];
      if second != [] && Final(second[0].outcome) then first + second
      else if !IsNullOrEmpty(l.installLocation) then first + second + [Attempt(AppDirectory, o.fromAppDirectory)]
      else first + second
  }

  /** The outcome of the last step that ran, or nothing when none ran. */
  function LastOutcome(attempts: seq<Attempt>): Result<Option<Bitmap>>
  {
    if attempts == [] then Ok(None) else attempts[|attempts| - 1].outcome
  }

  /** What `GetIcon` gives for a loader on a machine. */
  function IconChain(l: Loader, m: Machine): Result<Option<Bitmap>>
  {
    LastOutcome(Attempts(l, StepOutcomes(l, m)))
  }

  predicate Ran(attempts: seq<Attempt>, s: Step)
  {
    exists k :: 0 <= k < |attempts| && attempts[k].step == s
  }

  /** The steps run in the fixed order, each at most once, and every step
      but the last gave nothing. */
  lemma AttemptsOrdered(l: Loader, o: Outcomes)
    ensures var a := Attempts(l, o);
      (forall i, j :: 0 <= i < j < |a| ==> StepRank(a[i].step) < StepRank(a[j].step))
      && (forall i :: 0 <= i < |a| - 1 ==> a[i].outcome == Ok(None))
  {
  }

  /** The display-icon step runs exactly when `DisplayIcon` is set, and then first. */
  lemma DisplayIconStepFirst(l: Loader, o: Outcomes)
    ensures Ran(Attempts(l, o), DisplayIconPath) <==> !IsNullOrEmpty(l.displayIcon)
    ensures !IsNullOrEmpty(l.displayIcon) ==> Attempts(l, o)[0] == Attempt(DisplayIconPath, o.fromDisplayIcon)
  {
    var a := Attempts(l, o);
    if !IsNullOrEmpty(l.displayIcon) {
      assert a[0].step == DisplayIconPath;
    }
  }

  /** The cache step runs exactly when the display-icon step gave nothing,
      the display name is set and the id is `{...}`. */
  lemma InstallerCacheStepGate(l: Loader, o: Outcomes)
    ensures Ran(Attempts(l, o), WindowsInstallerCache) <==>
              !IsNullOrEmpty(l.displayName) && IsInstallerId(l.id)
              && (IsNullOrEmpty(l.displayIcon) || o.fromDisplayIcon == Ok(None))
  {
    var a := Attempts(l, o);
    if !IsNullOrEmpty(l.displayName) && IsInstallerId(l.id)
       && (IsNullOrEmpty(l.displayIcon) || o.fromDisplayIcon == Ok(None)) {
      var k := if IsNullOrEmpty(l.displayIcon) then 0 else 1;
      assert a[k].step == WindowsInstallerCache;
    }
  }

  /** The install-directory step runs exactly when the earlier steps gave
      nothing and both the display name and the install location are set. */
  lemma AppDirectoryStepGate(l: Loader, o: Outcomes)
    ensures Ran(Attempts(l, o), AppDirectory) <==>
              !IsNullOrEmpty(l.displayName) && !IsNullOrEmpty(l.installLocation)
              && (IsNullOrEmpty(l.displayIcon) || o.fromDisplayIcon == Ok(None))
              && (!IsInstallerId(l.id) || o.fromInstallerCache == Ok(None))
  {
    var a := Attempts(l, o);
    if Ran(a, AppDirectory) {
      var k :| 0 <= k < |a| && a[k].step == AppDirectory;
    }
    if !IsNullOrEmpty(l.displayName) && !IsNullOrEmpty(l.installLocation)
              && (IsNullOrEmpty(l.displayIcon) || o.fromDisplayIcon == Ok(None))
              && (!IsInstallerId(l.id) || o.fromInstallerCache == Ok(None)) {
      assert a[|a| - 1].step == AppDirectory;
    }
  }

  /** The icon is the first icon a step finds, or the first exception. */
  lemma IconChainIsFirstFinal(l: Loader, o: Outcomes)
    ensures var a := Attempts(l, o);
      (LastOutcome(a) != Ok(None) ==> a != [] && Final(a[|a| - 1].outcome))
      && (forall i :: 0 <= i < |a| - 1 ==> !Final(a[i].outcome))
  {
  }

  /** With neither a display icon nor a display name there is no icon. */
  lemma NoIconWithoutIconOrName(l: Loader, m: Machine)
    requires IsNullOrEmpty(l.displayIcon) && IsNullOrEmpty(l.displayName)
    ensures IconChain(l, m) == Ok(None)
  {
  }

  /** `o` is what the three steps give for the loader `l` on `m`. The
      quantifier only fires where the steps' outcomes are already at hand,
      so the chain's case analysis does not unfold the three steps. */
  predicate OutcomesOf(o: Outcomes, l: Loader, m: Machine)
  {
    forall l' {:trigger StepOutcomes(l', m)} :: l' == l ==> StepOutcomes(l', m) == o
  }

  /** `GetIcon`: the chain, with the local `icon` reassigned step by step;
      an exception from a step ends the chain. */
  method GetIcon(l: Loader, m: Machine) returns (icon: Result<Option<Bitmap>>)
    ensures icon == IconChain(l, m)
  {
    ghost var o := StepOutcomes(l, m);
    icon := RunSteps(l, m, o);
  }

  /** The body of `GetIcon`, against the outcomes `o` of the steps. */
  method RunSteps(l: Loader, m: Machine, ghost o: Outcomes) returns (icon: Result<Option<Bitmap>>)
    requires OutcomesOf(o, l, m)
    ensures icon == LastOutcome(Attempts(l, o))
  {
    icon := Ok(None);
    if !IsNullOrEmpty(l.displayIcon) {
      icon := DisplayIconStep(l, m, o);
      if icon.Err? {
        return;
      }
    }
    if icon.value.None? && !IsNullOrEmpty(l.displayName) {
      if IsInstallerId(l.id) {
        icon := InstallerCacheStep(l, m, o);
        if icon.Err? {
          return;
        }
      }
      if icon.value.None? && !IsNullOrEmpty(l.installLocation) {
        icon := AppDirectoryStep(l, m, o);
      }
    }
  }

  /** The display-icon step of `GetIcon`. */
  method DisplayIconStep(l: Loader, m: Machine, ghost o: Outcomes) returns (icon: Result<Option<Bitmap>>)
    requires OutcomesOf(o, l, m) && !IsNullOrEmpty(l.displayIcon)
    ensures icon == o.fromDisplayIcon
  {
    icon := FromDisplayIconPath(l.displayIcon.value, m);
    assert StepOutcomes(l, m) == o;
  }

  /** The installer-cache step of `GetIcon`. */
  method InstallerCacheStep(l: Loader, m: Machine, ghost o: Outcomes) returns (icon: Result<Option<Bitmap>>)
    requires OutcomesOf(o, l, m) && IsInstallerId(l.id) && !IsNullOrEmpty(l.displayName)
    ensures icon == o.fromInstallerCache
  {
    icon := GetIconFromWindowsInstallerCache(l.id.value, l.displayName.value, m);
    assert StepOutcomes(l, m) == o;
  }

  /** The application-directory step of `GetIcon`. */
  method AppDirectoryStep(l: Loader, m: Machine, ghost o: Outcomes) returns (icon: Result<Option<Bitmap>>)
    requires OutcomesOf(o, l, m) && !IsNullOrEmpty(l.installLocation) && !IsNullOrEmpty(l.displayName)
    ensures icon == o.fromAppDirectory
  {
    icon := GetIconFromAppDirectory(l.installLocation.value, l.displayName.value, m);
    assert StepOutcomes(l, m) == o;
  }
}
