/** The fallback resolver for a raw record: an install directory derived
    from an executable display icon, and an estimated size recomputed from
    the files under the install directory; and the guarded icon lookup. */
module ProgramRegInfoService {
  import opened Wrappers
  import opened Text
  import opened Numbers
  import opened Paths
  import opened StringExtensions
  import opened Oracles
  import opened ProgramRegInfoData
  import IconLoader

  // ---------------------------------------------------------------------
  // Total size of a directory walk

  /** The exact number of bytes in `files`. */
  function SumLengths(files: seq<FileEntry>): nat
  {
    if files == [] then 0 else SumLengths(files[..|files| - 1]) + files[|files| - 1].length
  }

  /** The `long totalSize` after adding every length in order, unchecked. */
  function TotalSize(files: seq<FileEntry>): int
  {
    if files == [] then 0 else Wrap64(TotalSize(files[..|files| - 1]) + files[|files| - 1].length)
  }

  /** One more file adds its length, unchecked. */
  lemma TotalSizeStep(files: seq<FileEntry>, i: nat)
    requires i < |files|
    ensures TotalSize(files[..i + 1]) == Wrap64(TotalSize(files[..i]) + files[i].length)
  {
    assert files[..i + 1][..i] == files[..i];
  }

  /** Wrapping after every addition is wrapping the exact sum once. */
  lemma {:induction false} TotalSizeIsWrappedSum(files: seq<FileEntry>)
    ensures TotalSize(files) == Wrap64(SumLengths(files))
  {
    if files != [] {
      var init := files[..|files| - 1];
      TotalSizeIsWrappedSum(init);
      Wrap64Add(SumLengths(init), files[|files| - 1].length);
    }
  }

  /** Below 2^63 bytes the `long` sum is the exact sum. */
  lemma TotalSizeExact(files: seq<FileEntry>)
    requires SumLengths(files) < TWO_63
    ensures TotalSize(files) == SumLengths(files)
  {
    TotalSizeIsWrappedSum(files);
  }

  /** `(totalSize / 1024).ToString()`. */
  function SizeText(files: seq<FileEntry>): string
  {
    IntToString(TruncDiv(TotalSize(files), 1024))
  }

  /** Below 2^63 bytes the size text is the decimal number of whole kilobytes. */
  lemma SizeTextIsKilobytes(files: seq<FileEntry>)
    requires SumLengths(files) < TWO_63
    ensures SizeText(files) == NatToString(SumLengths(files) / 1024)
  {
    TotalSizeExact(files);
  }

  // ---------------------------------------------------------------------
  // The two fallback rules

  /** The lower-cased extension of the display icon names an executable. */
  predicate IconIsExecutable(displayIcon: string)
  {
    IsSubstring(".exe", ToLower(Extension(displayIcon)))
  }

  /** The directory of the display icon once its index is removed and its
      quotes are trimmed. */
  function IconDirectory(displayIcon: string): string
    requires displayIcon != []
  {
    RemoveIconIndexOk(displayIcon);
    DirectoryNameOrEmpty(Trim(IconLoader.RemoveIconIndex(displayIcon).value, '"'))
  }

  lemma RemoveIconIndexOk(displayIcon: string)
    requires displayIcon != []
    ensures IconLoader.RemoveIconIndex(displayIcon).Ok?
  {
    IconLoader.RemoveIconIndexSpec(displayIcon);
  }

  /** The first rule: an empty install location is taken from an executable display icon. */
  function LocationFromIcon(v: RegValues): RegValues
    requires Complete(v)
  {
    if IsNullOrEmpty(v[InstallLocation]) && !IsNullOrEmpty(v[DisplayIcon])
       && IconIsExecutable(v[DisplayIcon].value)
    then v[InstallLocation := Some(IconDirectory(v[DisplayIcon].value))]
    else v
  }

  /** The second rule: an empty or zero estimated size is recomputed from
      the walk of the install location, unless the walk fails. */
  function SizeFromFiles(v: RegValues, m: Machine): RegValues
    requires Complete(v)
  {
    if (IsNullOrEmpty(v[EstimatedSize]) || v[EstimatedSize] == Some("0"))
       && !IsNullOrEmpty(v[InstallLocation])
    then
      match m.Tree(v[InstallLocation].value)
      case Ok(files) => v[EstimatedSize := Some(SizeText(files))]
      case Err(_) => v
    else v
  }

  /** The record after `FetchFallbackValues`: the location rule, then the size rule. */
  function FallbackValues(v: RegValues, m: Machine): RegValues
    requires Complete(v)
  {
    SizeFromFiles(LocationFromIcon(v), m)
  }

  /** `FetchFallbackValues`: overwrites the install location and the
      estimated size of the record in place, the location first. */
  method FetchFallbackValues(record: ProgramRegInfo, m: Machine)
    requires record.Valid()
    modifies record
    ensures record.Valid()
    ensures record.values == FallbackValues(old(record.values), m)
  {
    FetchInstallLocation(record);
    FetchEstimatedSize(record, m);
  }

  /** The first rule of `FetchFallbackValues`, in place. */
  method FetchInstallLocation(record: ProgramRegInfo)
    requires record.Valid()
    modifies record
    ensures record.Valid()
    ensures record.values == LocationFromIcon(old(record.values))
  {
    if IsNullOrEmpty(record.values[InstallLocation]) && !IsNullOrEmpty(record.values[DisplayIcon]) {
      var displayIcon := record.values[DisplayIcon].value;
      RemoveIconIndexOk(displayIcon);
      var iconPath := IconLoader.RemoveIconIndex(displayIcon).value;
      iconPath := Trim(iconPath, '"');
      var extension := ToLower(Extension(displayIcon));
      assert IconIsExecutable(displayIcon) == IsSubstring(".exe", extension);
      if IsSubstring(".exe", extension) {
        record.Set(InstallLocation, Some(DirectoryNameOrEmpty(iconPath)));
      }
    }
  }

  /** The second rule of `FetchFallbackValues`, in place: the walk sums the
      file lengths in a `long`; a failing walk is swallowed. */
  method FetchEstimatedSize(record: ProgramRegInfo, m: Machine)
    requires record.Valid()
    modifies record
    ensures record.Valid()
    ensures record.values == SizeFromFiles(old(record.values), m)
  {
    if (IsNullOrEmpty(record.values[EstimatedSize]) || record.values[EstimatedSize] == Some("0"))
       && !IsNullOrEmpty(record.values[InstallLocation]) {
      var fileInfos := m.Tree(record.values[InstallLocation].value);
      if fileInfos.Ok? {
        var files := fileInfos.value;
        var totalSize := 0;
        var i := 0;
        while i < |files|
          invariant 0 <= i <= |files|
          invariant totalSize == TotalSize(files[..i])
          invariant unchanged(record)
        {
          TotalSizeStep(files, i);
          totalSize := Wrap64(totalSize + files[i].length);
          i := i + 1;
        }
        assert files[..i] == files;
        record.Set(EstimatedSize, Some(IntToString(TruncDiv(totalSize, 1024))));
      }
    }
  }

  // ---------------------------------------------------------------------
  // What the fallback resolver promises

  /** Only the install location and the estimated size can change. */
  lemma FallbackChangesTwoFields(v: RegValues, m: Machine, f: RegField)
    requires Complete(v)
    requires f != InstallLocation && f != EstimatedSize
    ensures Complete(FallbackValues(v, m))
    ensures FallbackValues(v, m)[f] == v[f]
  {
  }

  /** A set install location is never changed; an empty one changes exactly
      when the display icon is set and names an executable, and then becomes
      the icon's directory. */
  lemma FallbackInstallLocation(v: RegValues, m: Machine)
    requires Complete(v)
    ensures var r := FallbackValues(v, m);
      (!IsNullOrEmpty(v[InstallLocation]) ==> r[InstallLocation] == v[InstallLocation])
      && (IsNullOrEmpty(v[InstallLocation]) && !IsNullOrEmpty(v[DisplayIcon])
          && IconIsExecutable(v[DisplayIcon].value)
          ==> r[InstallLocation] == Some(IconDirectory(v[DisplayIcon].value)))
      && ((IsNullOrEmpty(v[DisplayIcon]) || !IconIsExecutable(v[DisplayIcon].value))
          ==> r[InstallLocation] == v[InstallLocation])
  {
    var l := LocationFromIcon(v);
    assert FallbackValues(v, m)[InstallLocation] == l[InstallLocation];
  }

  /** An estimated size other than empty or `"0"` is never changed. */
  lemma FallbackKeepsKnownSize(v: RegValues, m: Machine)
    requires Complete(v)
    requires !IsNullOrEmpty(v[EstimatedSize]) && v[EstimatedSize] != Some("0")
    ensures FallbackValues(v, m)[EstimatedSize] == v[EstimatedSize]
  {
  }

  /** A missing size is recomputed from the walk of the install location as
      it stands after the location rule, so that a location derived from the
      icon is the one walked; a failing walk leaves the size as it was. */
  lemma FallbackSize(v: RegValues, m: Machine)
    requires Complete(v)
    requires IsNullOrEmpty(v[EstimatedSize]) || v[EstimatedSize] == Some("0")
    ensures var location := LocationFromIcon(v)[InstallLocation];
      var r := FallbackValues(v, m);
      (IsNullOrEmpty(location) ==> r[EstimatedSize] == v[EstimatedSize])
      && (!IsNullOrEmpty(location) && m.Tree(location.value).Err? ==> r[EstimatedSize] == v[EstimatedSize])
      && (!IsNullOrEmpty(location) && m.Tree(location.value).Ok? ==>
            r[EstimatedSize] == Some(SizeText(m.Tree(location.value).value)))
  {
  }

  /** The size is whole kilobytes: 512 and 1536 bytes give `"2"`. */
  lemma FallbackSizeExample(v: RegValues, m: Machine)
    requires Complete(v)
    requires v[InstallLocation] == Some("C:\\App") && v[EstimatedSize] == Some("0")
    requires m.Tree("C:\\App") == Ok([FileEntry("C:\\App\\a.exe", 512), FileEntry("C:\\App\\b.dll", 1536)])
    ensures FallbackValues(v, m)[EstimatedSize] == Some("2")
  {
    var files := [FileEntry("C:\\App\\a.exe", 512), FileEntry("C:\\App\\b.dll", 1536)];
    assert files[..1] == [files[0]];
    assert [files[0]][..0] == [];
    assert SumLengths(files) == 2048;
    SizeTextIsKilobytes(files);
    assert NatToString(2) == "2";
  }

  // ---------------------------------------------------------------------
  // The guarded icon lookup

  /** The icon loader for a record: its id, display icon, install location and display name. */
  function LoaderOf(v: RegValues): IconLoader.Loader
    requires Complete(v)
  {
    IconLoader.Loader(v[Id], v[DisplayIcon], v[InstallLocation], v[DisplayName])
  }

  /** `GetIcon`: the icon chain's icon, or none when a step throws. The
      record is only read. */
  method GetIcon(record: ProgramRegInfo, m: Machine) returns (icon: Option<Bitmap>)
    requires record.Valid()
    ensures var chain := IconLoader.IconChain(LoaderOf(record.values), m);
      (chain.Ok? ==> icon == chain.value) && (chain.Err? ==> icon == None)
  {
    var result := IconLoader.GetIcon(LoaderOf(record.values), m);
    if result.Err? {
      return None;
    }
    return result.value;
  }
}
