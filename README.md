# Windows Programs Reader — a verified Dafny model of its core

Windows Programs Reader lists the programs installed on a Windows machine.
It reads the four uninstall locations of the registry. For each subkey it
builds a raw record (`ProgramRegInfoData`) and merges the records that share
a display name. It fills in a missing install location and size from the file
system, loads an icon through a chain of fallbacks, and converts each raw
record into a typed presentation record (`ProgramInfoData`). That record
raises property-changed notifications, can be updated from another record,
and can uninstall or modify its program. A language table, kept as a
`;`-separated CSV resource, maps registry language codes to LCID codes.

This project models that core in Dafny 4.11, one module per source file:

| module | source file | form |
|---|---|---|
| `StringExtensions` | `Extensions/StringExtensions.cs` | functions, and a method for the loop of `GetReadable` |
| `ProgramRegInfoData` | `Data/ProgramRegInfoData.cs` | a class whose 34 string properties are one `map` field |
| `ProgramInfoLocation` | `Data/ProgramInfoLocation.cs` | a datatype |
| `ProgramRegInfoRepository` | `Repository/ProgramRegInfo/ProgramRegInfoRepository.cs` | methods with loops over the records, proved against functions |
| `ProgramRegInfoFusion` | `FuseAllDuplicates` / `FuseDuplicates` of the same file | in-place fusion methods proved against `FuseAll` / `FuseGroup` |
| `ProgramRegInfoService` | `Service/ProgramRegInfo/ProgramRegInfoService.cs` | in-place methods proved against `FallbackValues` |
| `IconLoader` | `Utility/IconLoader.cs` | functions for the choices, and methods for the loops and the chain |
| `ProgramInfoData` | `Data/ProgramInfoData.cs` | a class with the property values and a log of notifications |
| `ProgramInfoRepository` | `Repository/ProgramInfo/ProgramInfoRepository.cs` | methods that build records, proved against `Converted` / `Presentations` |
| `ProgramInfoService` | `Service/ProgramInfo/ProgramInfoService.cs` | methods on the record, and an oracle for processes |
| `WindowsLanguageData`, `WindowsLanguageService` | `Data/WindowsLanguageData.cs`, `Service/WindowsLanguage/WindowsLanguageService.cs` | a datatype, and the parse loop proved against `ParseLines` |

Four helper modules hold the parts of .NET that the core relies on:

- `Text`: ordinal string search, `Trim`, `Split` and `Join`.
- `Numbers`: `int`/`long` wrap-around, decimal rendering, `TryParse`.
- `Paths`: the Windows `System.IO.Path` subset.
- `Oracles`: the registry and the machine as values.

`Wrappers` and `Collections` are small support modules. An exception is
modelled as an `Err` of a `Result`. A `try { } catch { }` becomes a match
on that `Err`.

The registry is a value `Registry`. It gives the subkey names of a key, and
a key's value map or the `NullReferenceException` that `GetRegKeyValues`
causes on a key it cannot open. The machine is a value `Machine`. It gives
the system folder, directory listings and recursive walks (each may fail
with an I/O error), file existence, and the outcome of decoding an icon or
an image. Decoded bitmaps are opaque handles, and decoding the same file
twice gives the same handle.

## Model


| member | source | states |
|---|---|---|
| StringExtensions.Readable | Windows_Programs_Reader/Extensions/StringExtensions.cs:13-26 | the readable text is the longest prefix of the input without a control character: a prefix, control-free, and stopped only at the end or at a control character |
| StringExtensions.GetReadable | Windows_Programs_Reader/Extensions/StringExtensions.cs:15-25 | the append-until-control-character loop returns exactly `Readable(input)` |
| StringExtensions.ReadableOfControlFree | Windows_Programs_Reader/Extensions/StringExtensions.cs:17-23 | text without control characters is returned unchanged |
| StringExtensions.ReadableIdempotent | Windows_Programs_Reader/Extensions/StringExtensions.cs:13-26 | applying `GetReadable` twice equals applying it once |
| StringExtensions.RemoveWhiteSpace | Windows_Programs_Reader/Extensions/StringExtensions.cs:36-43 | the `\s+` replacement leaves no white space character |
| StringExtensions.ContainsGeneralizedSymmetric | Windows_Programs_Reader/Extensions/StringExtensions.cs:34-40 | the loose match is symmetric: either string may contain the other |
| StringExtensions.ContainsGeneralizedReflexive | Windows_Programs_Reader/Extensions/StringExtensions.cs:34-40 | every string matches itself |
| StringExtensions.ContainsGeneralizedBlank | Windows_Programs_Reader/Extensions/StringExtensions.cs:34-40 | an empty or all-white-space string matches every string, in both argument orders |
| StringExtensions.RemoveWhiteSpaceAppend | Windows_Programs_Reader/Extensions/StringExtensions.cs:36-37 | removing white space distributes over concatenation |
| StringExtensions.GeneralizeIgnoresWhiteSpace | Windows_Programs_Reader/Extensions/StringExtensions.cs:36-37 | inserting white space anywhere leaves the generalized form unchanged |
| StringExtensions.ContainsGeneralizedIgnoresWhiteSpace | Windows_Programs_Reader/Extensions/StringExtensions.cs:34-40 | adding or removing white space in either argument does not change the match |
| StringExtensions.RemoveWhiteSpaceToLower | Windows_Programs_Reader/Extensions/StringExtensions.cs:36-37 | removing white space and lower-casing commute |
| StringExtensions.GeneralizeIgnoresCase | Windows_Programs_Reader/Extensions/StringExtensions.cs:36-37 | strings that differ only in letter case have the same generalized form |
| StringExtensions.ContainsGeneralizedIgnoresCase | Windows_Programs_Reader/Extensions/StringExtensions.cs:34-40 | changing letter case in either argument does not change the match |
| ProgramRegInfoData.AllRegFields | Windows_Programs_Reader/Data/ProgramRegInfoData.cs:14-179 | reflection yields each of the 34 properties exactly once, at its declaration position |
| ProgramRegInfoData.FieldIndex | Windows_Programs_Reader/Data/ProgramRegInfoData.cs:14-179 | each property has a position below 34 |
| ProgramRegInfoData.GetProperty | Windows_Programs_Reader/Repository/ProgramRegInfo/ProgramRegInfoRepository.cs:38 | `GetProperty(name)` finds the property with exactly that name, and finds none when no property has it |
| ProgramRegInfoData.SignatureIdentifiesField | Windows_Programs_Reader/Data/ProgramRegInfoData.cs:14-179 | a property name's length, second character and last three characters identify the property |
| ProgramRegInfoData.FieldNameInjective | Windows_Programs_Reader/Data/ProgramRegInfoData.cs:14-179 | no two properties share a name, so a value name fills at most one property |
| ProgramRegInfoData.EmptyRegValues | Windows_Programs_Reader/Data/ProgramRegInfoData.cs:14-179 | every property of a new record is the empty string |
| ProgramRegInfoData.ProgramRegInfo.constructor | Windows_Programs_Reader/Data/ProgramRegInfoData.cs:187-192 | a new record holds the empty string in every property |
| ProgramRegInfoData.ProgramRegInfo.Set | Windows_Programs_Reader/Data/ProgramRegInfoData.cs:14-179 | an auto-property setter changes its own property and nothing else |
| ProgramRegInfoData.ProgramRegInfo.ToString | Windows_Programs_Reader/Data/ProgramRegInfoData.cs:205 | the record prints as its display name |
| ProgramInfoLocation.AllLocations | Windows_Programs_Reader/Data/ProgramInfoLocation.cs:6-12 | the enumeration yields the four locations once each, in declaration order |
| ProgramInfoLocation.Ordinal | Windows_Programs_Reader/Data/ProgramInfoLocation.cs:6-12 | each location has a position below four |
| ProgramRegInfoRepository.LocationPathShape | Windows_Programs_Reader/Repository/ProgramRegInfo/ProgramRegInfoRepository.cs:14-17 | each path is its hive's software key plus the uninstall key; the 32-bit paths go through `Wow6432Node`; each path ends in `\` |
| ProgramRegInfoRepository.LocationPathsDistinct | Windows_Programs_Reader/Repository/ProgramRegInfo/ProgramRegInfoRepository.cs:62-76 | the switch maps the four locations to four different paths |
| ProgramRegInfoRepository.KeyId | Windows_Programs_Reader/Repository/ProgramRegInfo/ProgramRegInfoRepository.cs:31 | the id is the longest suffix of the key path without `\`; it is the whole path when the path has no `\` |
| ProgramRegInfoRepository.KeyIdOfSubkey | Windows_Programs_Reader/Repository/ProgramRegInfo/ProgramRegInfoRepository.cs:31 | the key of a subkey has the subkey's name as its id |
| ProgramRegInfoRepository.TrimKeepsControlFree | Windows_Programs_Reader/Repository/ProgramRegInfo/ProgramRegInfoRepository.cs:36-37 | trimming quotes off readable text leaves readable text with no quote at either end |
| ProgramRegInfoRepository.CleanValueSpec | Windows_Programs_Reader/Repository/ProgramRegInfo/ProgramRegInfoRepository.cs:35-37 | a null value stays null; a stored value has no control character; it is the readable prefix, or it is unquoted at both ends |
| ProgramRegInfoRepository.CleanValueUnquoted | Windows_Programs_Reader/Repository/ProgramRegInfo/ProgramRegInfoRepository.cs:35-37 | readable text that is not quoted at both ends is stored as it is |
| ProgramRegInfoRepository.CleanValueIdempotent | Windows_Programs_Reader/Repository/ProgramRegInfo/ProgramRegInfoRepository.cs:35-37 | cleaning a cleaned value changes nothing |
| ProgramRegInfoRepository.InitialValues | Windows_Programs_Reader/Repository/ProgramRegInfo/ProgramRegInfoRepository.cs:31-32 | the starting record has `Id` and `RegKey` from the key path and every other property empty |
| ProgramRegInfoRepository.StoredFieldsSpec | Windows_Programs_Reader/Repository/ProgramRegInfo/ProgramRegInfoRepository.cs:33-39 | a stored property holds the cleaned value of its name, and every other property keeps its initial value |
| ProgramRegInfoRepository.RecordValuesSpec | Windows_Programs_Reader/Repository/ProgramRegInfo/ProgramRegInfoRepository.cs:29-41 | each property of the built record is the cleaned value of its name when the key has one, and its initial value otherwise |
| ProgramRegInfoRepository.StoreStep | Windows_Programs_Reader/Repository/ProgramRegInfo/ProgramRegInfoRepository.cs:35-38 | storing one more value name sets only the property of that name, if there is one |
| ProgramRegInfoRepository.StoredAll | Windows_Programs_Reader/Repository/ProgramRegInfo/ProgramRegInfoRepository.cs:33-40 | once every value name is stored, in any order, the record is the one `Get` promises |
| ProgramRegInfoRepository.StoreValue | Windows_Programs_Reader/Repository/ProgramRegInfo/ProgramRegInfoRepository.cs:35-38 | one pass of the loop stores the cleaned value in the property of that name |
| ProgramRegInfoRepository.NewRecord | Windows_Programs_Reader/Repository/ProgramRegInfo/ProgramRegInfoRepository.cs:31-32 | a fresh record whose values are `InitialValues(regKey)` |
| ProgramRegInfoRepository.Get | Windows_Programs_Reader/Repository/ProgramRegInfo/ProgramRegInfoRepository.cs:29-41 | returns a fresh, valid record whose values are `RecordValues(keys, regKey)` |
| ProgramRegInfoRepository.StoreValues | Windows_Programs_Reader/Repository/ProgramRegInfo/ProgramRegInfoRepository.cs:33-39 | the loop stores every value name of the key |
| ProgramRegInfoRepository.GetIdAndRegKey | Windows_Programs_Reader/Repository/ProgramRegInfo/ProgramRegInfoRepository.cs:31-38 | `Id` and `RegKey` come from the key path unless a value of that name overrides them |
| ProgramRegInfoRepository.GetOtherFields | Windows_Programs_Reader/Repository/ProgramRegInfo/ProgramRegInfoRepository.cs:32-38 | every other property is empty unless a value of its name fills it |
| ProgramRegInfoRepository.GetIgnoresUnknownNames | Windows_Programs_Reader/Repository/ProgramRegInfo/ProgramRegInfoRepository.cs:38 | a value whose name matches no property is ignored |
| ProgramRegInfoRepository.RecordsFromOk | Windows_Programs_Reader/Repository/ProgramRegInfo/ProgramRegInfoRepository.cs:78-85 | reading a location succeeds exactly when every subkey's values can be read |
| ProgramRegInfoRepository.RecordsFromValues | Windows_Programs_Reader/Repository/ProgramRegInfo/ProgramRegInfoRepository.cs:80-84 | the record at position `i` is the one `Get` builds from subkey `i` |
| ProgramRegInfoRepository.SubkeyValuesErr | Windows_Programs_Reader/Repository/ProgramRegInfo/ProgramRegInfoRepository.cs:80-84 | a failed read fails with the error of the first unreadable subkey |
| ProgramRegInfoRepository.ReadAbortsLater | Windows_Programs_Reader/Repository/ProgramRegInfo/ProgramRegInfoRepository.cs:80-84 | once a prefix of the subkeys fails, the whole read fails the same way |
| ProgramRegInfoRepository.GetAllFromLocation | Windows_Programs_Reader/Repository/ProgramRegInfo/ProgramRegInfoRepository.cs:62-86 | one fresh, distinct record per subkey, in listing order, equal to `LocationRecords`; or that read's error |
| ProgramRegInfoRepository.AddRecord | Windows_Programs_Reader/Repository/ProgramRegInfo/ProgramRegInfoRepository.cs:82-83 | adding the record built from one more readable subkey extends the read by that record |
| ProgramRegInfoRepository.RecordsInStep | Windows_Programs_Reader/Repository/ProgramRegInfo/ProgramRegInfoRepository.cs:50-54 | reading one more location appends its records, or fails with its error |
| ProgramRegInfoRepository.RecordsInAbortsLater | Windows_Programs_Reader/Repository/ProgramRegInfo/ProgramRegInfoRepository.cs:50-54 | a failing location aborts the read of all locations |
| ProgramRegInfoRepository.ReadLocations | Windows_Programs_Reader/Repository/ProgramRegInfo/ProgramRegInfoRepository.cs:49-54 | the location loop returns fresh, distinct records equal to `RecordsIn`, or its error |
| ProgramRegInfoRepository.Append | Windows_Programs_Reader/Repository/ProgramRegInfo/ProgramRegInfoRepository.cs:53 | `AddRange` concatenates the records and their values, which stay distinct |
| ProgramRegInfoRepository.WithDisplayNameSpec | Windows_Programs_Reader/Repository/ProgramRegInfo/ProgramRegInfoRepository.cs:56 | a record is kept exactly when it is in the list and its display name is not empty |
| ProgramRegInfoRepository.WithDisplayNameAppend | Windows_Programs_Reader/Repository/ProgramRegInfo/ProgramRegInfoRepository.cs:56 | the name filter can be applied list by list |
| ProgramRegInfoRepository.KeepWithDisplayName | Windows_Programs_Reader/Repository/ProgramRegInfo/ProgramRegInfoRepository.cs:56 | the filter keeps, in order, the records whose display name is neither null nor empty |
| ProgramRegInfoRepository.GetAll | Windows_Programs_Reader/Repository/ProgramRegInfo/ProgramRegInfoRepository.cs:47-60 | the result's values are `Programs(reg)`: all locations read, unnamed records dropped, duplicates fused; a registry error escapes |
| ProgramRegInfoRepository.ProgramsNames | Windows_Programs_Reader/Repository/ProgramRegInfo/ProgramRegInfoRepository.cs:47-60 | the programs have pairwise different display names, and these are exactly the non-empty names found in any location |
| ProgramRegInfoRepository.RecordsInPrefix | Windows_Programs_Reader/Repository/ProgramRegInfo/ProgramRegInfoRepository.cs:50-54 | a successful read of the locations starts with the read of any prefix of them |
| ProgramRegInfoRepository.GroupWithDisplayName | Windows_Programs_Reader/Repository/ProgramRegInfo/ProgramRegInfoRepository.cs:56-57 | dropping unnamed records does not change the group of a non-empty display name |
| ProgramRegInfoRepository.PrefixWins | Windows_Programs_Reader/Repository/ProgramRegInfo/ProgramRegInfoRepository.cs:53-57 | a field that an earlier record of a name sets is decided by the earlier records alone |
| ProgramRegInfoRepository.LocationRecordsIn | Windows_Programs_Reader/Repository/ProgramRegInfo/ProgramRegInfoRepository.cs:50-54 | a location's record appears in the read of the locations up to it, which is a prefix of the full read |
| ProgramRegInfoRepository.LocationPrecedence | Windows_Programs_Reader/Repository/ProgramRegInfo/ProgramRegInfoRepository.cs:50-57 | location precedence (LM 64-bit, LM 32-bit, CU 64-bit, CU 32-bit): a field a record of location `i` sets is decided by the records of locations up to `i`; no later location changes it |
| ProgramRegInfoFusion.FuseGroup | Windows_Programs_Reader/Repository/ProgramRegInfo/ProgramRegInfoRepository.cs:113-127 | the fused record fills each property of the first record from every member of the group, in order |
| ProgramRegInfoFusion.FirstSetOrLastSpec | Windows_Programs_Reader/Repository/ProgramRegInfo/ProgramRegInfoRepository.cs:118-124 | the reference reading is the first set value of a column, or its last value when none is set |
| ProgramRegInfoFusion.FuseColumnKeepsSet | Windows_Programs_Reader/Repository/ProgramRegInfo/ProgramRegInfoRepository.cs:122-123 | a property that is set is never overwritten |
| ProgramRegInfoFusion.FuseColumnFirstSet | Windows_Programs_Reader/Repository/ProgramRegInfo/ProgramRegInfoRepository.cs:118-124 | filling one column agrees with the reference reading |
| ProgramRegInfoFusion.FuseGroupField | Windows_Programs_Reader/Repository/ProgramRegInfo/ProgramRegInfoRepository.cs:113-127 | each fused property is the first value any member sets, or the last member's value when none does |
| ProgramRegInfoFusion.FuseSingleton | Windows_Programs_Reader/Repository/ProgramRegInfo/ProgramRegInfoRepository.cs:103-106 | a group of one record is that record |
| ProgramRegInfoFusion.FuseGroupName | Windows_Programs_Reader/Repository/ProgramRegInfo/ProgramRegInfoRepository.cs:96-99 | records that share a display name keep it when fused |
| ProgramRegInfoFusion.GroupSpec | Windows_Programs_Reader/Repository/ProgramRegInfo/ProgramRegInfoRepository.cs:96 | a group holds exactly the records of its display name |
| ProgramRegInfoFusion.GroupAppend | Windows_Programs_Reader/Repository/ProgramRegInfo/ProgramRegInfoRepository.cs:96 | the group of a concatenation is the concatenation of the groups |
| ProgramRegInfoFusion.GroupOfFirst | Windows_Programs_Reader/Repository/ProgramRegInfo/ProgramRegInfoRepository.cs:96-117 | the group of a name's first record starts with that record |
| ProgramRegInfoFusion.FirstIndices | Windows_Programs_Reader/Repository/ProgramRegInfo/ProgramRegInfoRepository.cs:92-95 | the kept positions are increasing, and each is the first record of its name |
| ProgramRegInfoFusion.FirstIndicesComplete | Windows_Programs_Reader/Repository/ProgramRegInfo/ProgramRegInfoRepository.cs:92-108 | every first record of a name is kept |
| ProgramRegInfoFusion.FuseAllDistinct | Windows_Programs_Reader/Repository/ProgramRegInfo/ProgramRegInfoRepository.cs:88-111 | the fused list has one record per display name |
| ProgramRegInfoFusion.FuseAllNameSet | Windows_Programs_Reader/Repository/ProgramRegInfo/ProgramRegInfoRepository.cs:88-111 | fusion loses no display name and invents none |
| ProgramRegInfoFusion.FuseAllGroups | Windows_Programs_Reader/Repository/ProgramRegInfo/ProgramRegInfoRepository.cs:94-106 | each kept record is the whole group of its name, fused |
| ProgramRegInfoFusion.FuseAllOfDistinct | Windows_Programs_Reader/Repository/ProgramRegInfo/ProgramRegInfoRepository.cs:103-106 | a list whose display names are distinct is left as it is |
| ProgramRegInfoFusion.FuseAllIdempotent | Windows_Programs_Reader/Repository/ProgramRegInfo/ProgramRegInfoRepository.cs:88-111 | fusing twice gives the same list as fusing once |
| ProgramRegInfoFusion.EarlierRecordsWin | Windows_Programs_Reader/Repository/ProgramRegInfo/ProgramRegInfoRepository.cs:113-127 | a field an earlier record of a name sets is the same after later records are added |
| ProgramRegInfoFusion.FillFrom | Windows_Programs_Reader/Repository/ProgramRegInfo/ProgramRegInfoRepository.cs:120-124 | every null or empty property of the target takes the source's value, even when the source is the target |
| ProgramRegInfoFusion.FuseDuplicates | Windows_Programs_Reader/Repository/ProgramRegInfo/ProgramRegInfoRepository.cs:113-127 | null for an empty group; otherwise the first record, now holding `FuseGroup` of the old values |
| ProgramRegInfoFusion.Where | Windows_Programs_Reader/Repository/ProgramRegInfo/ProgramRegInfoRepository.cs:96 | the filter returns, in order, the records at the positions of one display name |
| ProgramRegInfoFusion.ProgressStep | Windows_Programs_Reader/Repository/ProgramRegInfo/ProgramRegInfoRepository.cs:92-109 | visiting one more record changes at most that record, and only when it is the first of its name |
| ProgramRegInfoFusion.ProgressGroup | Windows_Programs_Reader/Repository/ProgramRegInfo/ProgramRegInfoRepository.cs:96 | the in-place edits never touch a group whose first record is still unvisited |
| ProgramRegInfoFusion.KeepFirst | Windows_Programs_Reader/Repository/ProgramRegInfo/ProgramRegInfoRepository.cs:96-106 | the first record of a name is kept, and it is fused with its whole group |
| ProgramRegInfoFusion.TrackedSkip | Windows_Programs_Reader/Repository/ProgramRegInfo/ProgramRegInfoRepository.cs:94-95 | a record whose name was already checked is not the first of its name and is skipped |
| ProgramRegInfoFusion.TrackedKeep | Windows_Programs_Reader/Repository/ProgramRegInfo/ProgramRegInfoRepository.cs:94-108 | a record whose name is unchecked is the first of its name; it is kept and its name checked |
| ProgramRegInfoFusion.Visit | Windows_Programs_Reader/Repository/ProgramRegInfo/ProgramRegInfoRepository.cs:92-109 | one pass of the loop advances the in-place state and the kept list by one record |
| ProgramRegInfoFusion.FuseAllDuplicates | Windows_Programs_Reader/Repository/ProgramRegInfo/ProgramRegInfoRepository.cs:88-111 | the result's values are `FuseAll` of the old values; the result is distinct records drawn from the input |
| ProgramRegInfoService.TotalSizeIsWrappedSum | Windows_Programs_Reader/Service/ProgramRegInfo/ProgramRegInfoService.cs:25-28 | the unchecked `long` sum equals the exact sum wrapped once to 64 bits |
| ProgramRegInfoService.TotalSizeExact | Windows_Programs_Reader/Service/ProgramRegInfo/ProgramRegInfoService.cs:25-28 | below 2^63 bytes the `long` sum is exact |
| ProgramRegInfoService.SizeTextIsKilobytes | Windows_Programs_Reader/Service/ProgramRegInfo/ProgramRegInfoService.cs:29 | below 2^63 bytes the size text is the decimal number of whole kilobytes |
| ProgramRegInfoService.RemoveIconIndexOk | Windows_Programs_Reader/Service/ProgramRegInfo/ProgramRegInfoService.cs:11-13 | removing the index of a non-empty display icon cannot throw |
| ProgramRegInfoService.FetchFallbackValues | Windows_Programs_Reader/Service/ProgramRegInfo/ProgramRegInfoService.cs:9-33 | the record now holds `FallbackValues` of its old values: the location rule first, then the size rule |
| ProgramRegInfoService.FetchInstallLocation | Windows_Programs_Reader/Service/ProgramRegInfo/ProgramRegInfoService.cs:11-18 | the first rule, applied in place |
| ProgramRegInfoService.FetchEstimatedSize | Windows_Programs_Reader/Service/ProgramRegInfo/ProgramRegInfoService.cs:20-32 | the second rule, in place: the walk's `long` sum is stored in kilobytes, and a failing walk changes nothing |
| ProgramRegInfoService.FallbackChangesTwoFields | Windows_Programs_Reader/Service/ProgramRegInfo/ProgramRegInfoService.cs:9-33 | only the install location and the estimated size can change |
| ProgramRegInfoService.FallbackInstallLocation | Windows_Programs_Reader/Service/ProgramRegInfo/ProgramRegInfoService.cs:11-18 | a set location is kept; an empty one becomes the directory of an executable display icon; otherwise it is unchanged |
| ProgramRegInfoService.FallbackKeepsKnownSize | Windows_Programs_Reader/Service/ProgramRegInfo/ProgramRegInfoService.cs:20 | a size other than empty or `"0"` is never changed |
| ProgramRegInfoService.FallbackSize | Windows_Programs_Reader/Service/ProgramRegInfo/ProgramRegInfoService.cs:20-32 | an empty or zero size is recomputed from the walk of the location the first rule left; no location or a failing walk keeps it |
| ProgramRegInfoService.FallbackSizeExample | Windows_Programs_Reader/Service/ProgramRegInfo/ProgramRegInfoService.cs:24-29 | 512 and 1536 bytes give the size `"2"` |
| ProgramRegInfoService.GetIcon | Windows_Programs_Reader/Service/ProgramRegInfo/ProgramRegInfoService.cs:35-43 | the icon chain's icon, or null when a step throws |
| IconLoader.RemoveIconIndexSpec | Windows_Programs_Reader/Utility/IconLoader.cs:183-191 | only an empty path throws; otherwise the result is the path cut at its last comma when the extension holds a comma, the whole path when it holds none, and the path without a trailing comma when there is no extension |
| IconLoader.RemoveIconIndexFacts | Windows_Programs_Reader/Utility/IconLoader.cs:185-190 | the positions the method compares, worked out for each shape of extension |
| IconLoader.RemoveIconIndexStripsIndex | Windows_Programs_Reader/Utility/IconLoader.cs:183-191 | `a\b.exe,0` loses its index |
| IconLoader.RemoveIconIndexKeepsEarlierComma | Windows_Programs_Reader/Utility/IconLoader.cs:183-191 | a comma before the file name is kept |
| IconLoader.OrderByLengthDescending | Windows_Programs_Reader/Utility/IconLoader.cs:118 | the ordering is longest first and a permutation of the files |
| IconLoader.OrderByLengthDescendingStable | Windows_Programs_Reader/Utility/IconLoader.cs:118 | the ordering is stable: files of equal length keep their order |
| IconLoader.FirstSimilarIndex | Windows_Programs_Reader/Utility/IconLoader.cs:152-164 | the first file that passes the name test, with none before it; none only when no file passes |
| IconLoader.FirstSimilarToDisplayName | Windows_Programs_Reader/Utility/IconLoader.cs:155-161 | the file found is the first whose name without extension loosely matches the display name |
| IconLoader.FindSimilarDisplayName | Windows_Programs_Reader/Utility/IconLoader.cs:152-164 | the scan returns the first similar file, or null |
| IconLoader.IconFileFromFiles | Windows_Programs_Reader/Utility/IconLoader.cs:135-144 | null exactly for no files; otherwise the path of one of the files |
| IconLoader.IconFileFromFilesChoice | Windows_Programs_Reader/Utility/IconLoader.cs:139-141 | a similar file is preferred, and without one the first file is taken |
| IconLoader.GetIconFileFromFiles | Windows_Programs_Reader/Utility/IconLoader.cs:135-144 | the method returns `IconFileFromFiles` |
| IconLoader.LongestWithoutMatch | Windows_Programs_Reader/Utility/IconLoader.cs:116-144 | without a similar candidate, a longest file is taken |
| IconLoader.FirstOfSortedIsLongest | Windows_Programs_Reader/Utility/IconLoader.cs:118 | the head of the ordering is a file no shorter than any other |
| IconLoader.IconFileNotEmpty | Windows_Programs_Reader/Utility/IconLoader.cs:55-59 | a path with an icon or executable extension is not empty, so removing its index cannot throw |
| IconLoader.FromDisplayIconPathFacts | Windows_Programs_Reader/Utility/IconLoader.cs:52-69 | an icon or executable is decoded from the cleaned path and a picture from the path as given; a missing file or other extension gives nothing; only decoding throws |
| IconLoader.CacheCandidateFacts | Windows_Programs_Reader/Utility/IconLoader.cs:93-95 | executables are searched only when there is no `.ico` file, and files without extension only when there are neither |
| IconLoader.LargestIcoWithoutMatch | Windows_Programs_Reader/Utility/IconLoader.cs:93 | without a similar `.ico` file, the largest `.ico` file is taken |
| IconLoader.DecodeCandidate | Windows_Programs_Reader/Utility/IconLoader.cs:97-113 | never throws; an icon exactly when the candidate exists and decodes, with `.ico` forced for a file without extension |
| IconLoader.InstallerCacheIconFacts | Windows_Programs_Reader/Utility/IconLoader.cs:86-114 | nothing unless the cache directory exists; only a failed listing throws; an icon is the decoded candidate |
| IconLoader.GetIconPathFromDirectory | Windows_Programs_Reader/Utility/IconLoader.cs:116-133 | a failed listing throws; otherwise the choice among the candidates of one category |
| IconLoader.GetIconFromWindowsInstallerCache | Windows_Programs_Reader/Utility/IconLoader.cs:86-114 | the method returns `InstallerCacheIcon` |
| IconLoader.AppDirectoryIconFacts | Windows_Programs_Reader/Utility/IconLoader.cs:71-84 | a failed walk or decode throws; without a similar executable there is no icon |
| IconLoader.GetIconFromAppDirectory | Windows_Programs_Reader/Utility/IconLoader.cs:71-84 | the method returns `AppDirectoryIcon` |
| IconLoader.AttemptsOrdered | Windows_Programs_Reader/Utility/IconLoader.cs:36-50 | the steps run in the fixed order, each at most once, and every step before the last gave nothing |
| IconLoader.DisplayIconStepFirst | Windows_Programs_Reader/Utility/IconLoader.cs:39-40 | the display-icon step runs exactly when `DisplayIcon` is set, and then first |
| IconLoader.InstallerCacheStepGate | Windows_Programs_Reader/Utility/IconLoader.cs:41-44 | the cache step runs exactly when the display name is set, the id is `{...}`, and the display-icon step did not run or gave nothing |
| IconLoader.AppDirectoryStepGate | Windows_Programs_Reader/Utility/IconLoader.cs:41-46 | the directory step runs exactly when the earlier steps gave nothing and the display name and install location are set |
| IconLoader.IconChainIsFirstFinal | Windows_Programs_Reader/Utility/IconLoader.cs:36-50 | the result is the first icon found or the first exception; every earlier step gave nothing |
| IconLoader.NoIconWithoutIconOrName | Windows_Programs_Reader/Utility/IconLoader.cs:39-47 | with neither a display icon nor a display name there is no icon |
| IconLoader.GetIcon | Windows_Programs_Reader/Utility/IconLoader.cs:36-50 | the method returns `IconChain` |
| IconLoader.RunSteps | Windows_Programs_Reader/Utility/IconLoader.cs:38-49 | the chain's body returns the outcome of the last step that ran |
| ProgramInfoData.AllProps | Windows_Programs_Reader/Data/ProgramInfoData.cs:17-179 | reflection yields each of the 28 properties once, at its declaration position |
| ProgramInfoData.AllPropsDistinct | Windows_Programs_Reader/Data/ProgramInfoData.cs:229 | no property is listed twice |
| ProgramInfoData.Get | Windows_Programs_Reader/Data/ProgramInfoData.cs:17-179 | each property reads as a value of its declared type |
| ProgramInfoData.GetWith | Windows_Programs_Reader/Data/ProgramInfoData.cs:17-179 | setting a property changes that property and no other |
| ProgramInfoData.WithGet | Windows_Programs_Reader/Data/ProgramInfoData.cs:17-179 | setting a property to its current value gives the same record |
| ProgramInfoData.PropertiesExtensional | Windows_Programs_Reader/Data/ProgramInfoData.cs:17-179 | records equal in every property are the same record |
| ProgramInfoData.ValueTypesNeverNull | Windows_Programs_Reader/Data/ProgramInfoData.cs:101-113 | the `bool` and `long` properties are never null |
| ProgramInfoData.DefaultsSpec | Windows_Programs_Reader/Data/ProgramInfoData.cs:17-179 | a new record has `Id` empty, the other strings and the icon null, the flags false, and the numbers 0 |
| ProgramInfoData.SameExceptIconSpec | Windows_Programs_Reader/Data/ProgramInfoData.cs:229-235 | agreeing on every property but the icon is being equal once the icons are made equal |
| ProgramInfoData.LongHash | Windows_Programs_Reader/Data/ProgramInfoData.cs:251 | a `long`'s hash is an `int` |
| ProgramInfoData.HashCodeIgnoresIcon | Windows_Programs_Reader/Data/ProgramInfoData.cs:239-256 | records equal except for the icon hash alike; the hash is an `int` |
| ProgramInfoData.HashOverStep | Windows_Programs_Reader/Data/ProgramInfoData.cs:245-252 | each property but the icon folds in as `hash * 23 + valueHash`, unchecked |
| ProgramInfoData.EqualsIsInverted | Windows_Programs_Reader/Data/ProgramInfoData.cs:224-237 | as written, `Equals` is true exactly when some property but the icon differs, and a record is not equal to itself |
| ProgramInfoData.EqualsCounterexample | Windows_Programs_Reader/Data/ProgramInfoData.cs:224-237 | two new records hash alike but are not equal, and a new record equals one with a different display name |
| ProgramInfoData.SameExceptIconIsEquivalence | Windows_Programs_Reader/Data/ProgramInfoData.cs:224-256 | the intended equality is reflexive, symmetric and transitive, and equal records hash alike |
| ProgramInfoData.ProgramInfo.constructor | Windows_Programs_Reader/Data/ProgramInfoData.cs:193-198 | a new record holds the defaults and has raised no notification |
| ProgramInfoData.ProgramInfo.Set | Windows_Programs_Reader/Data/ProgramInfoData.cs:17-179 | an equal value changes nothing and raises nothing; a different value is stored and raises one notification for that property |
| ProgramInfoData.ProgramInfo.Equals | Windows_Programs_Reader/Data/ProgramInfoData.cs:224-237 | false for null and other types; for a record, the inverted answer `DiffersExceptIcon` |
| ProgramInfoData.ProgramInfo.GetHashCode | Windows_Programs_Reader/Data/ProgramInfoData.cs:239-256 | the loop computes `HashCode` of the record's values |
| ProgramInfoData.ProgramInfo.FoldHash | Windows_Programs_Reader/Data/ProgramInfoData.cs:245-253 | the loop folds the given properties as `HashOver` does |
| ProgramInfoData.ProgramInfo.ToString | Windows_Programs_Reader/Data/ProgramInfoData.cs:258 | the record prints as its display name |
| ProgramInfoRepository.FirstLanguageSpec | Windows_Programs_Reader/Repository/ProgramInfo/ProgramInfoRepository.cs:120 | `FirstOrDefault` gives the first entry whose decimal code prints as the code, or none when no entry does |
| ProgramInfoRepository.BytesOf | Windows_Programs_Reader/Repository/ProgramInfo/ProgramInfoRepository.cs:115-116 | the size in bytes is a `long` |
| ProgramInfoRepository.ConversionSpec | Windows_Programs_Reader/Repository/ProgramInfo/ProgramInfoRepository.cs:78-131 | a flag is set exactly when its raw string is `"1"`; the install directory wins over the install location when set; the size is the parsed kilobytes times 1024, unchecked, else 0; the versions come from `VersionMajor`/`VersionMinor`, else 0; the other strings are copied |
| ProgramInfoRepository.ConvertedLanguage | Windows_Programs_Reader/Repository/ProgramInfo/ProgramInfoRepository.cs:118-122 | the language is null for an empty code or a code no entry has, and otherwise the LCID code of the first matching entry |
| ProgramInfoRepository.LanguageOfTableCode | Windows_Programs_Reader/Repository/ProgramInfo/ProgramInfoRepository.cs:120-121 | a code written as an entry's decimal code selects that entry's LCID code |
| ProgramInfoRepository.RecomputedSizeInBytes | Windows_Programs_Reader/Repository/ProgramInfo/ProgramInfoRepository.cs:115-116 | a recomputed size reads back as the total file length rounded down to whole kilobytes |
| ProgramInfoRepository.FromProgramRegInfo | Windows_Programs_Reader/Repository/ProgramInfo/ProgramInfoRepository.cs:78-131 | a fresh record whose values are `Converted` of the raw values, with the record's icon |
| ProgramInfoRepository.Convert | Windows_Programs_Reader/Repository/ProgramInfo/ProgramInfoRepository.cs:80-130 | a fresh record whose values are `Converted` of the raw values and the given icon |
| ProgramInfoRepository.Initialized | Windows_Programs_Reader/Repository/ProgramInfo/ProgramInfoRepository.cs:80-113 | the object initializer assigns the copied properties; the size, language and versions keep their defaults |
| ProgramInfoRepository.AssignParsed | Windows_Programs_Reader/Repository/ProgramInfo/ProgramInfoRepository.cs:115-128 | the parsed size, language and versions replace their defaults |
| ProgramInfoRepository.AssignSize | Windows_Programs_Reader/Repository/ProgramInfo/ProgramInfoRepository.cs:115-116 | a parsable size is stored times 1024, unchecked; otherwise the record is unchanged |
| ProgramInfoRepository.AssignLanguage | Windows_Programs_Reader/Repository/ProgramInfo/ProgramInfoRepository.cs:118-122 | a non-empty code stores the matching LCID code, or null; an empty code changes nothing |
| ProgramInfoRepository.AssignVersionMajor | Windows_Programs_Reader/Repository/ProgramInfo/ProgramInfoRepository.cs:124-125 | a parsable major version is stored; otherwise nothing changes |
| ProgramInfoRepository.AssignVersionMinor | Windows_Programs_Reader/Repository/ProgramInfo/ProgramInfoRepository.cs:127-128 | a parsable minor version is stored; otherwise nothing changes |
| ProgramInfoRepository.Present | Windows_Programs_Reader/Repository/ProgramInfo/ProgramInfoRepository.cs:62-63 | the raw record is left holding `FallbackValues` of its old values, and the new record holds `Presentation` of those old values |
| ProgramInfoRepository.GetAll | Windows_Programs_Reader/Repository/ProgramInfo/ProgramInfoRepository.cs:53-71 | the listing's values are the presentations of `Programs(reg)`, minus those the callback throws on, in order; a registry error escapes |
| ProgramInfoRepository.PresentAll | Windows_Programs_Reader/Repository/ProgramInfo/ProgramInfoRepository.cs:57-68 | the loop keeps, in order, the presentations the callback does not throw on, and leaves every raw record holding its fallback values |
| ProgramInfoRepository.PresentOne | Windows_Programs_Reader/Repository/ProgramInfo/ProgramInfoRepository.cs:60-67 | one pass extends the kept list by the `i`th presentation, unless the callback throws, and completes the `i`th raw record |
| ProgramInfoRepository.Keep | Windows_Programs_Reader/Repository/ProgramInfo/ProgramInfoRepository.cs:64-67 | a record is added unless the callback throws on it |
| ProgramInfoRepository.KeptAppend | Windows_Programs_Reader/Repository/ProgramInfo/ProgramInfoRepository.cs:58-68 | the kept records keep their order across runs of records |
| ProgramInfoRepository.KeptMembers | Windows_Programs_Reader/Repository/ProgramInfo/ProgramInfoRepository.cs:60-67 | a presentation is kept exactly when the callback does not throw on it |
| ProgramInfoRepository.KeptWithoutAction | Windows_Programs_Reader/Repository/ProgramInfo/ProgramInfoRepository.cs:64 | without a callback, or with one that never throws, every record is kept, in order |
| ProgramInfoService.CopyOverSpec | Windows_Programs_Reader/Service/ProgramInfo/ProgramInfoService.cs:35-41 | a copied property holds the source's value when that is not null, and keeps the target's otherwise |
| ProgramInfoService.UpdatedSpec | Windows_Programs_Reader/Service/ProgramInfo/ProgramInfoService.cs:33-42 | after the update every non-null source value is in the target, including the icon; `bool` and `long` values are always copied |
| ProgramInfoService.UpdateFromComplete | Windows_Programs_Reader.Test/Service/ProgramInfo/ProgramInfoServiceTest.cs:13-33 | a source without a null property is copied whole |
| ProgramInfoService.UpdateKeepsNonNull | Windows_Programs_Reader.Test/Service/ProgramInfo/ProgramInfoServiceTest.cs:36-50 | a target without a null property keeps none, whatever the source |
| ProgramInfoService.UpdatedIdempotent | Windows_Programs_Reader/Service/ProgramInfo/ProgramInfoService.cs:33-42 | updating twice from a source is updating once, and a self-update changes nothing |
| ProgramInfoService.RaisedSpec | Windows_Programs_Reader/Service/ProgramInfo/ProgramInfoService.cs:37-40 | a property is notified exactly when it is copied, its source value is not null, and it differs from the target's |
| ProgramInfoService.UpdateNotifications | Windows_Programs_Reader/Service/ProgramInfo/ProgramInfoService.cs:33-42 | the update notifies exactly the properties it changes, and a self-update notifies none |
| ProgramInfoService.UpdateFromDifferent | Windows_Programs_Reader/Service/ProgramInfo/ProgramInfoService.cs:33-42 | the target's values become `Updated`, and its log grows by `Raised`, in declaration order |
| ProgramInfoService.UpdateOver | Windows_Programs_Reader/Service/ProgramInfo/ProgramInfoService.cs:35-41 | the loop over the given properties copies and notifies as `CopyOver` and `Raised` say |
| ProgramInfoService.UpdatedSelf | Windows_Programs_Reader/Service/ProgramInfo/ProgramInfoService.cs:35-41 | copying a record's values onto themselves changes nothing |
| ProgramInfoService.ModifyArgumentsSpec | Windows_Programs_Reader/Service/ProgramInfo/ProgramInfoService.cs:55-57 | the modify path alone, or followed by a space and the extra arguments; a null path concatenates as empty |
| ProgramInfoService.Uninstall | Windows_Programs_Reader/Service/ProgramInfo/ProgramInfoService.cs:44-51 | runs `cmd.exe` with the quiet or the normal uninstall string |
| ProgramInfoService.Modify | Windows_Programs_Reader/Service/ProgramInfo/ProgramInfoService.cs:53-60 | runs `cmd.exe` with `ModifyArguments` |
| ProgramInfoService.RegJump.OpenAt | Windows_Programs_Reader/Service/ProgramInfo/ProgramInfoService.cs:62 | one more request, answered by the tool |
| ProgramInfoService.OpenRegistry | Windows_Programs_Reader/Service/ProgramInfo/ProgramInfoService.cs:62 | false without asking the tool when there is no registry key; otherwise the tool's answer for the key |
| ProgramInfoService.RunProcess | Windows_Programs_Reader/Service/ProgramInfo/ProgramInfoService.cs:64-84 | true exactly when starting and awaiting the shell-executed, window-less `runas` request for that program and arguments does not throw |
| ProgramInfoService.RunProcessNullArguments | Windows_Programs_Reader/Service/ProgramInfo/ProgramInfoService.cs:69 | null arguments start the same process as empty arguments |
| WindowsLanguageData.Normalized | Windows_Programs_Reader/Data/WindowsLanguageData.cs:46 | the record as its CSV line renders it: every null text field becomes empty |
| WindowsLanguageData.ToCsvSplits | Windows_Programs_Reader/Data/WindowsLanguageData.cs:46 | when no text field holds `;`, the line splits back into its six pieces |
| WindowsLanguageData.ToCsvSeparators | Windows_Programs_Reader/Data/WindowsLanguageData.cs:46 | every line holds at least five separators and so splits into at least six parts |
| WindowsLanguageService.GetAll | Windows_Programs_Reader/Service/WindowsLanguage/WindowsLanguageService.cs:22-44 | the read loop returns `ParseLines(lines)` |
| WindowsLanguageService.AbortsLater | Windows_Programs_Reader/Service/WindowsLanguage/WindowsLanguageService.cs:28-42 | a line that cannot be indexed ends the whole read with its exception |
| WindowsLanguageService.ParseLineSpec | Windows_Programs_Reader/Service/WindowsLanguage/WindowsLanguageService.cs:30-39 | a line parses exactly when it has at least five separators, and fails otherwise with `IndexOutOfRangeException`; parts 0, 1, 2 and 4 are copied, and parts 3 and 5 are parsed as `uint` or 0 |
| WindowsLanguageService.ParseLineIgnoresExtraParts | Windows_Programs_Reader/Service/WindowsLanguage/WindowsLanguageService.cs:30-39 | parts after the sixth are ignored |
| WindowsLanguageService.ParseLinesOk | Windows_Programs_Reader/Service/WindowsLanguage/WindowsLanguageService.cs:28-43 | a read succeeds exactly when every line parses |
| WindowsLanguageService.ParseLinesValues | Windows_Programs_Reader/Service/WindowsLanguage/WindowsLanguageService.cs:28-43 | a successful read holds one record per line, in line order |
| WindowsLanguageService.ParseLinesFails | Windows_Programs_Reader/Service/WindowsLanguage/WindowsLanguageService.cs:28-43 | a failed read has a line that does not parse |
| WindowsLanguageService.ParseToCsv | Windows_Programs_Reader/Service/WindowsLanguage/WindowsLanguageService.cs:30-39 | a `ToCsv` line reads back as its record, with null text read as empty, when no text field holds `;` |
| WindowsLanguageService.ParseLinesOfCsv | Windows_Programs_Reader.Test/Service/WindowsLanguage/WindowsLanguageServiceTest.cs:12-48 | a table written with `ToCsv` reads back as that table, with null text read as empty |
| Text.LastIndexOf | Windows_Programs_Reader/Repository/ProgramRegInfo/ProgramRegInfoRepository.cs:31 | the last position of the character, or -1 exactly when it does not occur |
| Text.LastIndexOfString | Windows_Programs_Reader/Utility/IconLoader.cs:188 | the last start of the search string, -1 when none, and the length for the empty string |
| Text.Trim | Windows_Programs_Reader/Repository/ProgramRegInfo/ProgramRegInfoRepository.cs:37 | a slice of the input with the character at neither end; unchanged when neither end holds it |
| Text.Split | Windows_Programs_Reader/Service/WindowsLanguage/WindowsLanguageService.cs:30 | at least one part, and no part holds the separator |
| Text.SplitCount | Windows_Programs_Reader/Service/WindowsLanguage/WindowsLanguageService.cs:30 | there is one more part than separators |
| Text.SplitJoin | Windows_Programs_Reader/Service/WindowsLanguage/WindowsLanguageService.cs:30 | splitting undoes joining when no part holds the separator |
| Text.SplitConcat | Windows_Programs_Reader/Service/WindowsLanguage/WindowsLanguageService.cs:30 | splitting at a separator splits the two sides independently |
| Numbers.Wrap64 | Windows_Programs_Reader/Service/ProgramRegInfo/ProgramRegInfoService.cs:28 | the unchecked `long` result: in range, congruent modulo 2^64, and exact when in range |
| Numbers.Wrap32 | Windows_Programs_Reader/Data/ProgramInfoData.cs:243-253 | the unchecked `int` result: in range, congruent modulo 2^32, and exact when in range |
| Numbers.Wrap64Add | Windows_Programs_Reader/Service/ProgramRegInfo/ProgramRegInfoService.cs:27-28 | wrapping after each addition equals wrapping the exact sum once |
| Numbers.TruncDiv | Windows_Programs_Reader/Service/ProgramRegInfo/ProgramRegInfoService.cs:29 | C# division truncates toward zero |
| Numbers.NatToStringInjective | Windows_Programs_Reader/Repository/ProgramInfo/ProgramInfoRepository.cs:120 | two numbers with the same decimal rendering are equal |
| Numbers.TryParseUInt32OfNatToString | Windows_Programs_Reader/Service/WindowsLanguage/WindowsLanguageService.cs:36-38 | `uint.TryParse` reads back what `ToString` rendered |
| Numbers.TryParseInt64OfIntToString | Windows_Programs_Reader/Repository/ProgramInfo/ProgramInfoRepository.cs:115-128 | `long.TryParse` reads back what `ToString` rendered |
| Numbers.TryParseUInt32 | Windows_Programs_Reader/Service/WindowsLanguage/WindowsLanguageService.cs:36-38 | a parsed `uint` is in range |
| Numbers.TryParseInt64 | Windows_Programs_Reader/Repository/ProgramInfo/ProgramInfoRepository.cs:115-128 | a parsed `long` is in range |
| Numbers.ParseIntegerOfNatToString | Windows_Programs_Reader/Repository/ProgramInfo/ProgramInfoRepository.cs:120 | the decimal rendering of a number parses back to it |
| Paths.FileNameFacts | Windows_Programs_Reader/Utility/IconLoader.cs:76 | the file name is the suffix of the path after its last separator |
| Paths.ExtensionFacts | Windows_Programs_Reader/Utility/IconLoader.cs:185 | the extension is a suffix of the file name that starts at its only `.` |
| Paths.ExtensionEmpty | Windows_Programs_Reader/Utility/IconLoader.cs:55 | the extension is empty exactly when the file name has no `.` or ends in one |
| Paths.DirectoryNameEnd | Windows_Programs_Reader/Service/ProgramRegInfo/ProgramRegInfoService.cs:17 | where `GetDirectoryName` cuts: -1 exactly for an empty path or a bare root; otherwise at least the root length and before the end, at the root when no separator follows the root, else before the last separator with the separators directly before it dropped |
| Paths.DirectoryName | Windows_Programs_Reader/Service/ProgramRegInfo/ProgramRegInfoService.cs:17 | none exactly for an empty path or a bare root; otherwise a value shorter than the path |
| Paths.DirectoryNameSpec | Windows_Programs_Reader/Service/ProgramRegInfo/ProgramRegInfoService.cs:17 | the directory name is the text before the cut with its separators normalized: no `/`, no doubled separator past the first position, every other character kept in order |
| Paths.DirectoryNameOfNormalized | Windows_Programs_Reader/Service/ProgramRegInfo/ProgramRegInfoService.cs:17 | when the text before the cut is already normalized, the directory name is exactly that prefix |
| Paths.CollapseShape | Windows_Programs_Reader/Service/ProgramRegInfo/ProgramRegInfoService.cs:17 | collapsing separators leaves no `/` and no doubled separator, is no longer than its input, keeps every other character in order, and starts with a separator exactly when the input does |
| Paths.NormalizeShape | Windows_Programs_Reader/Service/ProgramRegInfo/ProgramRegInfoService.cs:17 | normalizing separators gives a normalized string no longer than its input with the same characters other than separators |
| Paths.NormalizeOfNormalized | Windows_Programs_Reader/Service/ProgramRegInfo/ProgramRegInfoService.cs:17 | a normalized string is left unchanged by normalizing |
| Paths.NormalizeIdempotent | Windows_Programs_Reader/Service/ProgramRegInfo/ProgramRegInfoService.cs:17 | normalizing twice is the same as normalizing once |
| Paths.DoubledSeparatorExample | Windows_Programs_Reader/Service/ProgramRegInfo/ProgramRegInfoService.cs:17 | the directory of `C:\A\\B\app.exe` is `C:\A\B`: the doubled separator becomes one |
| Paths.ApplicationDirectoryExample | Windows_Programs_Reader/Service/ProgramRegInfo/ProgramRegInfoService.cs:17 | the directory of `C:\Apps\tool.exe` is `C:\Apps` |
| Paths.DriveRootExample | Windows_Programs_Reader/Service/ProgramRegInfo/ProgramRegInfoService.cs:17 | `C:\tool.exe` has directory `C:\`, and `C:\` has none |
| Paths.CombineName | Windows_Programs_Reader/Utility/IconLoader.cs:89 | joining a plain name to a directory gives a path in that directory with that name |
| Paths.ApplicationPathExample | Windows_Programs_Reader/Service/ProgramRegInfo/ProgramRegInfoService.cs:15-17 | `C:\Apps\tool.exe` has directory `C:\Apps`, extension `.exe` and bare name `tool` |
| Paths.ApplicationFileNameExample | Windows_Programs_Reader/Utility/IconLoader.cs:76 | `C:\Apps\tool.exe` has extension `.exe` and bare name `tool` |

## Left out

- I/O and the operating system are oracles, not code:
  - the registry (`RegistryHelper`);
  - the file system (`File.Exists`, `Directory.Exists`, listings and walks);
  - icon and image decoding (`IconData`, `new Bitmap`);
  - process start and exit;
  - the RegJump tool;
  - the embedded CSV resource, which is given as its lines.
  `RegistryHelper.cs`, `RegJumpService.cs` and `EmbeddedResourceService.cs` are not part of this model.
- `async`/`await`: `Uninstall`, `Modify` and `OpenRegistry` are modelled as synchronous calls.
- `PropertyChanged` subscribers: the record keeps the sequence of notified property names instead of invoking handlers.
- The constructors that wire up services (dependency injection) and `ServiceCollectionExtensions` are not modelled.
- `ProgramInfoData.ProgramInfo.Equals`: `Equals(object, object)` on boxed values is modelled as value equality of the property values. A bitmap is compared by handle, which stands for reference equality. Because the decoders are fixed maps, two decodes of one file count as the same bitmap here, while in the source they are two objects.
- `ProgramInfoService.UpdateFromDifferent`: decodes of one file share a handle, so updating a record from a fresh listing whose icon comes from the same file raises no `DisplayIcon` notification and keeps the old bitmap. The source decodes a new `Bitmap` each time (`IconLoader.cs:66`, `IconLoader.cs:79`, `IconLoader.cs:105`, `IconLoader.cs:174`), and the setter compares by reference (`ProgramInfoData.cs:35`), so it assigns the new bitmap and raises `PropertyChanged("DisplayIcon")` (`ProgramInfoService.cs:39-40`).
- `ProgramInfoData.HashCode`: the runtime's per-process string hash is a parameter, `stringHash`.
- `ProgramInfoData.AllProps`, `ProgramRegInfoData.AllRegFields`: reflection is assumed to list properties in declaration order. The runtime does not promise that order, but follows it in practice.
- `Paths.DirectoryName`: knows only drive roots (`C:`, `C:\`) and a single leading separator; UNC (`\\server\share`) and device (`\\?\`) roots are not modelled.
- `Paths.FileName`: a drive-relative path like `C:app.exe` keeps the drive in its file name.
- `StringExtensions.ToLower`: lower-cases ASCII letters only, while the source's `ToLower()` is culture-aware (`"É"` and `"é"` do not match in the model). The same approximation applies to the `ToLower()` calls in `IconLoader.cs:55` and `ProgramRegInfoService.cs:15`.
- `StringExtensions.IsWhiteSpace`: the Unicode space separators are listed by code point, not taken from the Unicode database.
- `Text.LastIndexOfString`: ordinal, while `filePath.LastIndexOf(extension)` (IconLoader.cs:188) compares with the current culture. The two can differ only for strings with ignorable or combining characters.
- `IconLoader.AppDirectoryIcon`: the walk is an all-or-nothing oracle, while `Directory.EnumerateFiles` is lazy. In the source, an executable found before an unreadable subdirectory still gives an icon; the model gives the walk's error.
- `ProgramInfoRepository.GetAll`: the optional callback is a pure predicate that says whether it throws on a record's values. Changes the callback makes to the record it is given are not modelled.
- `Numbers.ParseInteger`: assumes the invariant culture's signs and white space. It does not accept the trailing `'\0'` characters that .NET allows.
- `ProgramInfoService.RunProcess`: an oracle. The set of failing start requests decides whether starting or waiting throws. Null arguments and empty arguments make the same request.
- `ProgramRegInfoService.FetchEstimatedSize`: `DirectoryInfo.GetFiles` with `AllDirectories` is the machine's `Tree` oracle. Its order does not matter for the sum.
- `WindowsLanguageService.GetAll`: reading lines from the stream, including line-ending handling, is replaced by the given sequence of lines. The `null` that the return type allows never occurs.

## Findings

| source | as written | input that shows it | evidently intended | confidence | as-written member | corrected member |
|---|---|---|---|---|---|---|
| Windows_Programs_Reader/Data/ProgramInfoData.cs:233-236 | `Equals` returns `true` at the first property (other than the icon) whose values differ, and `false` when all agree | two new records with the same values: `a.Equals(a)` is false; a record equals one that differs only in `DisplayName` | true exactly when every property but the icon is equal, consistent with `GetHashCode` | high; not executed | ProgramInfoData.ProgramInfo.Equals, ProgramInfoData.EqualsCounterexample | ProgramInfoData.IntendedEquals, ProgramInfoData.SameExceptIconIsEquivalence |
