/** The presentation records of the installed programs: each raw record of
    the registry reader, completed by the fallback resolver, converted
    into a typed record, and handed to an optional callback. */
module ProgramInfoRepository {
  import opened Wrappers
  import opened Text
  import opened Numbers
  import opened Oracles
  import opened ProgramInfoData
  import R = ProgramRegInfoData
  import RegFusion = ProgramRegInfoFusion
  import RegRepository = ProgramRegInfoRepository
  import RegService = ProgramRegInfoService
  import IconLoader
  import L = WindowsLanguageData

  // ---------------------------------------------------------------------
  // The field conversions

  /** A raw flag is set exactly when it is the string `"1"`. */
  function IsOne(raw: Option<string>): bool
  {
    raw == Some("1")
  }

  /** `long.TryParse` of a raw field that is neither null nor empty. */
  function ParsedLong(raw: Option<string>): (n: Option<int>)
    ensures n.Some? ==> IsInt64(n.value)
  {
    if IsNullOrEmpty(raw) then None else TryParseInt64(raw.value)
  }

  /** A `long` read from a raw field: 0 when the field is empty or does not parse. */
  function LongOrZero(raw: Option<string>): (n: int)
    ensures IsInt64(n)
  {
    match ParsedLong(raw)
    case Some(n) => n
    case None => 0
  }

  /** The size in bytes from a raw size in kilobytes, multiplied unchecked. */
  function BytesOf(raw: Option<string>): (n: int)
    ensures IsInt64(n)
  {
    match ParsedLong(raw)
    case Some(kb) => Wrap64(kb * 1024)
    case None => 0
  }

  /** The install location: the install directory when it is set, the raw
      install location otherwise. */
  function LocationOf(r: R.RegValues): Option<string>
    requires R.Complete(r)
  {
    if IsNullOrEmpty(r[R.InstallDir]) then r[R.InstallLocation] else r[R.InstallDir]
  }

  /** The table entry a language code selects: the first whose decimal
      code prints as `code`. */
  function FirstLanguage(languages: seq<L.Language>, code: string): Option<L.Language>
  {
    if languages == [] then None
    else if NatToString(languages[0].windowsCodeDecimal) == code then Some(languages[0])
    else FirstLanguage(languages[1..], code)
  }

  /** The first entry whose decimal code prints as `code`, or none when no entry does. */
  lemma {:induction false} FirstLanguageSpec(languages: seq<L.Language>, code: string)
    ensures FirstLanguage(languages, code).None? <==>
      forall k :: 0 <= k < |languages| ==> NatToString(languages[k].windowsCodeDecimal) != code
    ensures FirstLanguage(languages, code).Some? ==>
      exists i :: 0 <= i < |languages| && languages[i] == FirstLanguage(languages, code).value
        && NatToString(languages[i].windowsCodeDecimal) == code
        && forall k :: 0 <= k < i ==> NatToString(languages[k].windowsCodeDecimal) != code
  {
    if languages != [] && NatToString(languages[0].windowsCodeDecimal) != code {
      var rest := languages[1..];
      FirstLanguageSpec(rest, code);
      assert forall k :: 0 < k < |languages| ==> languages[k] == rest[k - 1];
      if FirstLanguage(rest, code).Some? {
        var i :| 0 <= i < |rest| && rest[i] == FirstLanguage(rest, code).value
          && NatToString(rest[i].windowsCodeDecimal) == code
          && forall k :: 0 <= k < i ==> NatToString(rest[k].windowsCodeDecimal) != code;
        assert languages[i + 1] == rest[i];
      }
    }
  }

  /** The language of a record: none for an empty raw language, else the
      LCID code of the entry it selects, none when it selects no entry. */
  function LanguageOf(raw: Option<string>, languages: seq<L.Language>): Option<string>
  {
    if IsNullOrEmpty(raw) then None
    else match FirstLanguage(languages, raw.value)
      case Some(l) => l.lcidCode
      case None => None
  }

  /** The presentation record `FromProgramRegInfo` builds for the raw
      values `r`, the record's icon and the language table. A property the
      method leaves unassigned keeps its default: 0 for the size and the
      versions, null for the language. */
  function Converted(r: R.RegValues, icon: Option<Bitmap>, languages: seq<L.Language>): Properties
    requires R.Complete(r)
  {
    Properties(
      id := r[R.Id], comments := r[R.Comments], contact := r[R.Contact],
      displayIcon := icon, displayName := r[R.DisplayName], displayVersion := r[R.DisplayVersion],
      estimatedSize := BytesOf(r[R.EstimatedSize]),
      helpLink := r[R.HelpLink], helpTelephone := r[R.HelpTelephone], installDate := r[R.InstallDate],
      installLocation := LocationOf(r), installSource := r[R.InstallSource],
      language := LanguageOf(r[R.Language], languages), modifyPath := r[R.ModifyPath],
      noModify := IsOne(r[R.NoModify]), noRemove := IsOne(r[R.NoRemove]), noRepair := IsOne(r[R.NoRepair]),
      publisher := r[R.Publisher], readme := r[R.Readme], systemComponent := IsOne(r[R.SystemComponent]),
      quietUninstallString := r[R.QuietUninstallString], uninstallString := r[R.UninstallString],
      urlInfoAbout := r[R.UrlInfoAbout], urlUpdateInfo := r[R.UrlUpdateInfo],
      versionMajor := LongOrZero(r[R.VersionMajor]), versionMinor := LongOrZero(r[R.VersionMinor]),
      windowsInstaller := IsOne(r[R.WindowsInstaller]), regKey := r[R.RegKey])
  }

  /** What the conversion promises: the flags are set exactly when the raw
      string is `"1"`; the install directory wins over the install location
      when set; the size is parsed and multiplied by 1024, 0 when empty or
      not a `long`; the version numbers come from the `VersionMajor` and
      `VersionMinor` values, not from `MajorVersion` and `MinorVersion`, 0
      when empty or not a `long`; the icon is the one given; the other
      strings are copied. */
  lemma ConversionSpec(r: R.RegValues, icon: Option<Bitmap>, languages: seq<L.Language>)
    requires R.Complete(r)
    ensures var v := Converted(r, icon, languages);
      && (v.noModify <==> r[R.NoModify] == Some("1"))
      && (v.noRemove <==> r[R.NoRemove] == Some("1"))
      && (v.noRepair <==> r[R.NoRepair] == Some("1"))
      && (v.systemComponent <==> r[R.SystemComponent] == Some("1"))
      && (v.windowsInstaller <==> r[R.WindowsInstaller] == Some("1"))
      && v.installLocation == (if IsNullOrEmpty(r[R.InstallDir]) then r[R.InstallLocation] else r[R.InstallDir])
      && (IsNullOrEmpty(r[R.EstimatedSize]) || TryParseInt64(r[R.EstimatedSize].value).None?
          ==> v.estimatedSize == 0)
      && (!IsNullOrEmpty(r[R.EstimatedSize]) && TryParseInt64(r[R.EstimatedSize].value).Some?
          ==> v.estimatedSize == Wrap64(TryParseInt64(r[R.EstimatedSize].value).value * 1024))
      && (IsNullOrEmpty(r[R.VersionMajor]) || TryParseInt64(r[R.VersionMajor].value).None?
          ==> v.versionMajor == 0)
      && (!IsNullOrEmpty(r[R.VersionMajor]) && TryParseInt64(r[R.VersionMajor].value).Some?
          ==> v.versionMajor == TryParseInt64(r[R.VersionMajor].value).value)
      && (IsNullOrEmpty(r[R.VersionMinor]) || TryParseInt64(r[R.VersionMinor].value).None?
          ==> v.versionMinor == 0)
      && (!IsNullOrEmpty(r[R.VersionMinor]) && TryParseInt64(r[R.VersionMinor].value).Some?
          ==> v.versionMinor == TryParseInt64(r[R.VersionMinor].value).value)
      && v.displayIcon == icon
      && v.id == r[R.Id] && v.regKey == r[R.RegKey] && v.displayName == r[R.DisplayName]
      && v.publisher == r[R.Publisher] && v.uninstallString == r[R.UninstallString]
      && v.quietUninstallString == r[R.QuietUninstallString] && v.modifyPath == r[R.ModifyPath]
      && v.comments == r[R.Comments] && v.contact == r[R.Contact]
      && v.displayVersion == r[R.DisplayVersion] && v.helpLink == r[R.HelpLink]
      && v.helpTelephone == r[R.HelpTelephone] && v.installDate == r[R.InstallDate]
      && v.installSource == r[R.InstallSource] && v.readme == r[R.Readme]
      && v.urlInfoAbout == r[R.UrlInfoAbout] && v.urlUpdateInfo == r[R.UrlUpdateInfo]
  {
  }

  /** The language is none for an empty raw language and for a code no
      entry prints as; otherwise the LCID code of the first entry that does. */
  lemma ConvertedLanguage(r: R.RegValues, icon: Option<Bitmap>, languages: seq<L.Language>)
    requires R.Complete(r)
    ensures var lang := Converted(r, icon, languages).language;
      && (IsNullOrEmpty(r[R.Language]) ==> lang == None)
      && (!IsNullOrEmpty(r[R.Language])
          && (forall k :: 0 <= k < |languages| ==> NatToString(languages[k].windowsCodeDecimal) != r[R.Language].value)
          ==> lang == None)
      && (!IsNullOrEmpty(r[R.Language]) && FirstLanguage(languages, r[R.Language].value).Some? ==>
          exists i :: 0 <= i < |languages| && lang == languages[i].lcidCode
            && NatToString(languages[i].windowsCodeDecimal) == r[R.Language].value
            && forall k :: 0 <= k < i ==> NatToString(languages[k].windowsCodeDecimal) != r[R.Language].value)
  {
    if !IsNullOrEmpty(r[R.Language]) {
      FirstLanguageSpec(languages, r[R.Language].value);
    }
  }

  /** A language code written as the decimal code of a table entry selects
      the first entry with that code. */
  lemma LanguageOfTableCode(languages: seq<L.Language>, i: nat)
    requires i < |languages|
    requires forall k :: 0 <= k < i ==> languages[k].windowsCodeDecimal != languages[i].windowsCodeDecimal
    ensures LanguageOf(Some(NatToString(languages[i].windowsCodeDecimal)), languages) == languages[i].lcidCode
  {
    var code := NatToString(languages[i].windowsCodeDecimal);
    FirstLanguageSpec(languages, code);
    var j :| 0 <= j < |languages| && languages[j] == FirstLanguage(languages, code).value
      && NatToString(languages[j].windowsCodeDecimal) == code
      && forall k :: 0 <= k < j ==> NatToString(languages[k].windowsCodeDecimal) != code;
    NatToStringInjective(languages[j].windowsCodeDecimal, languages[i].windowsCodeDecimal);
    assert j == i;
  }

  /** A size the fallback resolver recomputed from the files reads back as
      their total length rounded down to whole kilobytes. */
  lemma RecomputedSizeInBytes(files: seq<FileEntry>)
    requires RegService.SumLengths(files) < TWO_63
    ensures BytesOf(Some(RegService.SizeText(files))) == RegService.SumLengths(files) / 1024 * 1024
  {
    var total := RegService.SumLengths(files);
    RegService.SizeTextIsKilobytes(files);
    ParseIntegerOfNatToString(total / 1024);
    assert RegService.SizeText(files) != [];
  }

  // ---------------------------------------------------------------------
  // The conversion of one record

  /** The icon `GetIcon` gives a record: the icon chain's, none when it throws. */
  function IconOf(r: R.RegValues, m: Machine): Option<Bitmap>
    requires R.Complete(r)
  {
    match IconLoader.IconChain(RegService.LoaderOf(r), m)
    case Ok(icon) => icon
    case Err(_) => None
  }

  /** `FromProgramRegInfo`: a new record whose initializer assigns the
      copied properties, then the size, the language and the versions when
      their raw values are usable. */
  method FromProgramRegInfo(regInfo: R.ProgramRegInfo, m: Machine, languages: seq<L.Language>)
    returns (programInfo: ProgramInfo)
    requires regInfo.Valid()
    ensures fresh(programInfo)
    ensures programInfo.values == Converted(regInfo.values, IconOf(regInfo.values, m), languages)
  {
    var icon := RegService.GetIcon(regInfo, m);
    programInfo := Convert(regInfo.values, icon, languages);
  }

  /** The body of `FromProgramRegInfo` once the icon is loaded. */
  method Convert(r: R.RegValues, icon: Option<Bitmap>, languages: seq<L.Language>) returns (programInfo: ProgramInfo)
    requires R.Complete(r)
    ensures fresh(programInfo)
    ensures programInfo.values == Converted(r, icon, languages)
  {
    programInfo := Initialized(r, icon);
    AssignParsed(programInfo, r, languages);
  }

  /** The assignments after the object initializer: the size, the language
      and the versions, each parsed from its raw value, replace their
      defaults. */
  method AssignParsed(programInfo: ProgramInfo, r: R.RegValues, languages: seq<L.Language>)
    requires R.Complete(r)
    requires programInfo.values.estimatedSize == 0 && programInfo.values.language.None?
    requires programInfo.values.versionMajor == 0 && programInfo.values.versionMinor == 0
    modifies programInfo
    ensures programInfo.values
            == old(programInfo.values).(estimatedSize := BytesOf(r[R.EstimatedSize]),
                                        language := LanguageOf(r[R.Language], languages),
                                        versionMajor := LongOrZero(r[R.VersionMajor]),
                                        versionMinor := LongOrZero(r[R.VersionMinor]))
  {
    AssignSizeAndLanguage(programInfo, r[R.EstimatedSize], r[R.Language], languages);
    AssignVersions(programInfo, r[R.VersionMajor], r[R.VersionMinor]);
  }

  /** The size and the language, each parsed from its raw value, replace their defaults. */
  method AssignSizeAndLanguage(programInfo: ProgramInfo, rawSize: Option<string>, rawLanguage: Option<string>,
                               languages: seq<L.Language>)
    requires programInfo.values.estimatedSize == 0 && programInfo.values.language.None?
    modifies programInfo
    ensures programInfo.values
            == old(programInfo.values).(estimatedSize := BytesOf(rawSize), language := LanguageOf(rawLanguage, languages))
  {
    AssignSize(programInfo, rawSize);
    AssignLanguage(programInfo, rawLanguage, languages);
  }

  /** The two versions, each parsed from its raw value, replace their defaults. */
  method AssignVersions(programInfo: ProgramInfo, rawMajor: Option<string>, rawMinor: Option<string>)
    requires programInfo.values.versionMajor == 0 && programInfo.values.versionMinor == 0
    modifies programInfo
    ensures programInfo.values
            == old(programInfo.values).(versionMajor := LongOrZero(rawMajor), versionMinor := LongOrZero(rawMinor))
  {
    AssignVersionMajor(programInfo, rawMajor);
    AssignVersionMinor(programInfo, rawMinor);
  }

  /** The object initializer of `FromProgramRegInfo`: a new record with the
      copied properties assigned in their order; the size, the language and
      the versions keep their defaults. */
  method Initialized(r: R.RegValues, icon: Option<Bitmap>) returns (programInfo: ProgramInfo)
    requires R.Complete(r)
    ensures fresh(programInfo)
    ensures programInfo.values
            == Converted(r, icon, []).(estimatedSize := 0, language := None, versionMajor := 0, versionMinor := 0)
  {
    programInfo := new ProgramInfo();
    AssignIdentity(programInfo, r[R.RegKey], r[R.Id]);
    AssignContact(programInfo, r[R.Comments], r[R.Contact]);
    AssignDisplay(programInfo, icon, r[R.DisplayName], r[R.DisplayVersion]);
    var installLocation := if IsNullOrEmpty(r[R.InstallDir]) then r[R.InstallLocation] else r[R.InstallDir];
    AssignHelp(programInfo, r[R.HelpLink], r[R.HelpTelephone]);
    AssignInstall(programInfo, r[R.InstallDate], installLocation, r[R.InstallSource]);
    AssignModify(programInfo, r[R.ModifyPath], r[R.NoModify] == Some("1"));
    AssignRemoveRepair(programInfo, r[R.NoRemove] == Some("1"), r[R.NoRepair] == Some("1"));
    AssignPublisher(programInfo, r[R.Publisher], r[R.Readme]);
    AssignSystemComponent(programInfo, r[R.SystemComponent] == Some("1"));
    AssignUninstall(programInfo, r[R.QuietUninstallString], r[R.UninstallString]);
    AssignUrls(programInfo, r[R.UrlInfoAbout], r[R.UrlUpdateInfo]);
    AssignWindowsInstaller(programInfo, r[R.WindowsInstaller] == Some("1"));
  }

  /** The registry key and the identifier. */
  method AssignIdentity(programInfo: ProgramInfo, regKeyValue: Option<string>, idValue: Option<string>)
    modifies programInfo
    ensures programInfo.values == old(programInfo.values).(regKey := regKeyValue, id := idValue)
  {
    programInfo.Set(RegKey, Text(regKeyValue));
    programInfo.Set(Id, Text(idValue));
  }

  /** The comments and the contact. */
  method AssignContact(programInfo: ProgramInfo, commentsValue: Option<string>, contactValue: Option<string>)
    modifies programInfo
    ensures programInfo.values == old(programInfo.values).(comments := commentsValue, contact := contactValue)
  {
    programInfo.Set(Comments, Text(commentsValue));
    programInfo.Set(Contact, Text(contactValue));
  }

  /** The icon, the display name and the display version. */
  method AssignDisplay(programInfo: ProgramInfo, iconValue: Option<Bitmap>, displayNameValue: Option<string>,
                       displayVersionValue: Option<string>)
    modifies programInfo
    ensures programInfo.values
            == old(programInfo.values).(displayIcon := iconValue, displayName := displayNameValue, displayVersion := displayVersionValue)
  {
    programInfo.Set(DisplayIcon, Image(iconValue));
    programInfo.Set(DisplayName, Text(displayNameValue));
    programInfo.Set(DisplayVersion, Text(displayVersionValue));
  }

  /** The help link and the help telephone. */
  method AssignHelp(programInfo: ProgramInfo, helpLinkValue: Option<string>, helpTelephoneValue: Option<string>)
    modifies programInfo
    ensures programInfo.values == old(programInfo.values).(helpLink := helpLinkValue, helpTelephone := helpTelephoneValue)
  {
    programInfo.Set(HelpLink, Text(helpLinkValue));
    programInfo.Set(HelpTelephone, Text(helpTelephoneValue));
  }

  /** The install date, location and source. */
  method AssignInstall(programInfo: ProgramInfo, installDateValue: Option<string>, installLocationValue: Option<string>,
                       installSourceValue: Option<string>)
    modifies programInfo
    ensures programInfo.values
            == old(programInfo.values).(installDate := installDateValue, installLocation := installLocationValue,
                                        installSource := installSourceValue)
  {
    programInfo.Set(InstallDate, Text(installDateValue));
    programInfo.Set(InstallLocation, Text(installLocationValue));
    programInfo.Set(InstallSource, Text(installSourceValue));
  }

  /** The modify path and the flag that forbids modifying. */
  method AssignModify(programInfo: ProgramInfo, modifyPathValue: Option<string>, noModifyValue: bool)
    modifies programInfo
    ensures programInfo.values == old(programInfo.values).(modifyPath := modifyPathValue, noModify := noModifyValue)
  {
    programInfo.Set(ModifyPath, Text(modifyPathValue));
    programInfo.Set(NoModify, Flag(noModifyValue));
  }

  /** The flags that forbid removing and repairing. */
  method AssignRemoveRepair(programInfo: ProgramInfo, noRemoveValue: bool, noRepairValue: bool)
    modifies programInfo
    ensures programInfo.values == old(programInfo.values).(noRemove := noRemoveValue, noRepair := noRepairValue)
  {
    programInfo.Set(NoRemove, Flag(noRemoveValue));
    programInfo.Set(NoRepair, Flag(noRepairValue));
  }

  /** The publisher and the readme. */
  method AssignPublisher(programInfo: ProgramInfo, publisherValue: Option<string>, readmeValue: Option<string>)
    modifies programInfo
    ensures programInfo.values == old(programInfo.values).(publisher := publisherValue, readme := readmeValue)
  {
    programInfo.Set(Publisher, Text(publisherValue));
    programInfo.Set(Readme, Text(readmeValue));
  }

  /** The system-component flag. */
  method AssignSystemComponent(programInfo: ProgramInfo, systemComponentValue: bool)
    modifies programInfo
    ensures programInfo.values == old(programInfo.values).(systemComponent := systemComponentValue)
  {
    programInfo.Set(SystemComponent, Flag(systemComponentValue));
  }

  /** The two uninstall strings. */
  method AssignUninstall(programInfo: ProgramInfo, quietUninstallStringValue: Option<string>,
                         uninstallStringValue: Option<string>)
    modifies programInfo
    ensures programInfo.values
            == old(programInfo.values).(quietUninstallString := quietUninstallStringValue,
                                        uninstallString := uninstallStringValue)
  {
    programInfo.Set(QuietUninstallString, Text(quietUninstallStringValue));
    programInfo.Set(UninstallString, Text(uninstallStringValue));
  }

  /** The two links. */
  method AssignUrls(programInfo: ProgramInfo, urlInfoAboutValue: Option<string>, urlUpdateInfoValue: Option<string>)
    modifies programInfo
    ensures programInfo.values
            == old(programInfo.values).(urlInfoAbout := urlInfoAboutValue, urlUpdateInfo := urlUpdateInfoValue)
  {
    programInfo.Set(UrlInfoAbout, Text(urlInfoAboutValue));
    programInfo.Set(UrlUpdateInfo, Text(urlUpdateInfoValue));
  }

  /** The Windows Installer flag. */
  method AssignWindowsInstaller(programInfo: ProgramInfo, windowsInstallerValue: bool)
    modifies programInfo
    ensures programInfo.values == old(programInfo.values).(windowsInstaller := windowsInstallerValue)
  {
    programInfo.Set(WindowsInstaller, Flag(windowsInstallerValue));
  }

  /** The size assignment: the raw size in kilobytes times 1024 when it
      parses as a `long`; the size is kept otherwise. */
  method AssignSize(programInfo: ProgramInfo, rawSize: Option<string>)
    modifies programInfo
    ensures ParsedLong(rawSize).Some? ==>
      programInfo.values == old(programInfo.values).(estimatedSize := Wrap64(ParsedLong(rawSize).value * 1024))
    ensures ParsedLong(rawSize).None? ==> programInfo.values == old(programInfo.values)
  {
    if !IsNullOrEmpty(rawSize) {
      var size := TryParseInt64(rawSize.value);
      if size.Some? {
        programInfo.Set(EstimatedSize, Number(Wrap64(size.value * 1024)));
      }
    }
  }

  /** The language assignment: when the raw language is not empty, the LCID
      code of the first table entry whose decimal code prints as it, null
      when there is none; the language is kept otherwise. */
  method AssignLanguage(programInfo: ProgramInfo, rawLanguage: Option<string>, languages: seq<L.Language>)
    modifies programInfo
    ensures !IsNullOrEmpty(rawLanguage) ==>
      programInfo.values == old(programInfo.values).(language := LanguageOf(rawLanguage, languages))
    ensures IsNullOrEmpty(rawLanguage) ==> programInfo.values == old(programInfo.values)
  {
    if !IsNullOrEmpty(rawLanguage) {
      var entry := FirstLanguage(languages, rawLanguage.value);
      programInfo.Set(Language, Text(if entry.Some? then entry.value.lcidCode else None));
    }
  }

  /** The major version assignment: the raw value when it parses as a
      `long`; the version is kept otherwise. */
  method AssignVersionMajor(programInfo: ProgramInfo, rawMajor: Option<string>)
    modifies programInfo
    ensures ParsedLong(rawMajor).Some? ==>
      programInfo.values == old(programInfo.values).(versionMajor := ParsedLong(rawMajor).value)
    ensures ParsedLong(rawMajor).None? ==> programInfo.values == old(programInfo.values)
  {
    if !IsNullOrEmpty(rawMajor) {
      var versionMajor := TryParseInt64(rawMajor.value);
      if versionMajor.Some? {
        programInfo.Set(VersionMajor, Number(versionMajor.value));
      }
    }
  }

  /** The minor version assignment: the raw value when it parses as a
      `long`; the version is kept otherwise. */
  method AssignVersionMinor(programInfo: ProgramInfo, rawMinor: Option<string>)
    modifies programInfo
    ensures ParsedLong(rawMinor).Some? ==>
      programInfo.values == old(programInfo.values).(versionMinor := ParsedLong(rawMinor).value)
    ensures ParsedLong(rawMinor).None? ==> programInfo.values == old(programInfo.values)
  {
    if !IsNullOrEmpty(rawMinor) {
      var versionMinor := TryParseInt64(rawMinor.value);
      if versionMinor.Some? {
        programInfo.Set(VersionMinor, Number(versionMinor.value));
      }
    }
  }

  // ---------------------------------------------------------------------
  // The listing

  /** The presentation values of one raw record: its fallback values
      resolved, then converted. */
  function Presentation(v: R.RegValues, m: Machine, languages: seq<L.Language>): Properties
    requires R.Complete(v)
  {
    var w := RegService.FallbackValues(v, m);
    Converted(w, IconOf(w, m), languages)
  }

  /** The presentation values of the raw records `vs`, one per record. */
  function Presentations(vs: seq<R.RegValues>, m: Machine, languages: seq<L.Language>): (ps: seq<Properties>)
    requires RegFusion.AllComplete(vs)
    ensures |ps| == |vs|
  {
    seq(|vs|, k requires 0 <= k < |vs| => Presentation(vs[k], m, languages))
  }

  /** `P` holds, at each position, the presentation values of the raw
      record of `V` at that position. The quantifier only fires on a
      presentation already at hand, so a proof that uses this predicate
      does not unfold every conversion. */
  predicate PresentedAs(P: seq<Properties>, V: seq<R.RegValues>, m: Machine, languages: seq<L.Language>)
    requires RegFusion.AllComplete(V)
  {
    |P| == |V| && forall k {:trigger Presentation(V[k], m, languages)} :: 0 <= k < |V| ==> P[k] == Presentation(V[k], m, languages)
  }

  /** The presentation values are presented as their raw records. */
  lemma PresentationsPresent(V: seq<R.RegValues>, m: Machine, languages: seq<L.Language>)
    requires RegFusion.AllComplete(V)
    ensures PresentedAs(Presentations(V, m, languages), V, m, languages)
  {
  }

  /** The values `GetAll` keeps of the presentation values `ps`, in order:
      those on which the callback does not throw. */
  function Kept(ps: seq<Properties>, actionThrows: Properties -> bool): (kept: seq<Properties>)
    ensures |kept| <= |ps|
  {
    if ps == [] then []
    else
      var p := ps[|ps| - 1];
      Kept(ps[..|ps| - 1], actionThrows) + (if actionThrows(p) then [] else [p])
  }

  /** The values of a list of presentation records. */
  function InfoValues(objs: seq<ProgramInfo>): (vs: seq<Properties>)
    reads objs
    ensures |vs| == |objs| && forall k :: 0 <= k < |objs| ==> vs[k] == objs[k].values
  {
    seq(|objs|, k reads objs requires 0 <= k < |objs| => objs[k].values)
  }

  /** Appending a record appends its values. */
  lemma InfoValuesAppend(objs: seq<ProgramInfo>, o: ProgramInfo)
    ensures InfoValues(objs + [o]) == InfoValues(objs) + [o.values]
  {
    assert forall k :: 0 <= k < |objs| ==> (objs + [o])[k] == objs[k];
  }

  /** The body of `GetAll`'s loop for one raw record: the fallback values
      are fetched into it, and it is converted into a new record. */
  method Present(program: R.ProgramRegInfo, m: Machine, languages: seq<L.Language>)
    returns (programInfo: ProgramInfo)
    requires program.Valid()
    modifies program
    ensures fresh(programInfo)
    ensures programInfo.values == Presentation(old(program.values), m, languages)
    ensures program.Valid() && program.values == RegService.FallbackValues(old(program.values), m)
  {
    RegService.FetchFallbackValues(program, m);
    programInfo := FromProgramRegInfo(program, m, languages);
  }

  /** `GetAll`: the raw records of the registry reader, each completed by
      the fallback resolver, converted and handed to the callback; a record
      on which the callback throws is skipped, a registry error escapes. */
  method GetAll(reg: Registry, m: Machine, languages: seq<L.Language>, actionThrows: Properties -> bool)
    returns (r: Result<seq<ProgramInfo>>)
    ensures r.Ok? == RegRepository.Programs(reg).Ok?
    ensures r.Err? ==> r.error == RegRepository.Programs(reg).error
    ensures r.Ok? ==> InfoValues(r.value)
                      == Kept(Presentations(RegRepository.Programs(reg).value, m, languages), actionThrows)
  {
    var programRegInfos := RegRepository.GetAll(reg);
    if programRegInfos.Err? {
      return Err(programRegInfos.error);
    }
    ghost var V := RegFusion.Values(programRegInfos.value);
    PresentationsPresent(V, m, languages);
    var programInfos := PresentAll(programRegInfos.value, m, languages, actionThrows, Presentations(V, m, languages));
    return Ok(programInfos);
  }

  /** `GetAll`'s loop over the raw records, which are distinct objects:
      each is completed and converted, and its record is kept unless the
      callback throws on it. */
  method PresentAll(list: seq<R.ProgramRegInfo>, m: Machine, languages: seq<L.Language>,
                    actionThrows: Properties -> bool, ghost P: seq<Properties>)
    returns (programInfos: seq<ProgramInfo>)
    requires RegFusion.Distinct(list) && RegFusion.AllComplete(RegFusion.Values(list))
    requires PresentedAs(P, RegFusion.Values(list), m, languages)
    modifies list
    ensures InfoValues(programInfos) == Kept(P, actionThrows)
    ensures forall k :: 0 <= k < |list| ==> list[k].values == RegService.FallbackValues(old(list[k].values), m)
  {
    ghost var V := RegFusion.Values(list);
    programInfos := [];
    for i := 0 to |list|
      invariant forall k :: i <= k < |list| ==> list[k].values == V[k]
      invariant forall k :: 0 <= k < i ==> list[k].values == RegService.FallbackValues(V[k], m)
      invariant InfoValues(programInfos) == Kept(P[..i], actionThrows)
    {
      programInfos := PresentOne(list, i, m, languages, actionThrows, programInfos, V, P);
      forall k | i < k < |list| ensures list[k].values == V[k] {
        assert list[k] != list[i];
      }
      forall k | 0 <= k < i ensures list[k].values == RegService.FallbackValues(V[k], m) {
        assert list[k] != list[i];
      }
    }
    assert P[..|list|] == P;
  }

  /** One pass of `GetAll`'s loop: the `i`th raw record is completed and
      converted, and the new record is appended unless the callback throws
      on it. */
  method PresentOne(list: seq<R.ProgramRegInfo>, i: nat, m: Machine, languages: seq<L.Language>,
                    actionThrows: Properties -> bool, programInfos: seq<ProgramInfo>,
                    ghost V: seq<R.RegValues>, ghost P: seq<Properties>)
    returns (programInfos': seq<ProgramInfo>)
    requires i < |list| == |V| && RegFusion.AllComplete(V) && PresentedAs(P, V, m, languages)
    requires list[i].values == V[i] && InfoValues(programInfos) == Kept(P[..i], actionThrows)
    modifies list[i]
    ensures InfoValues(programInfos') == Kept(P[..i + 1], actionThrows)
    ensures list[i].values == RegService.FallbackValues(V[i], m)
  {
    ghost var before := InfoValues(programInfos);
    var programInfo := PresentAt(list[i], m, languages, i, V, P);
    assert InfoValues(programInfos) == before;
    programInfos' := Keep(programInfos, programInfo, actionThrows, i, P);
  }

  /** `Present` on the `i`th raw record gives the `i`th presentation values. */
  method PresentAt(program: R.ProgramRegInfo, m: Machine, languages: seq<L.Language>, i: nat,
                   ghost V: seq<R.RegValues>, ghost P: seq<Properties>)
    returns (programInfo: ProgramInfo)
    requires i < |V| && RegFusion.AllComplete(V) && PresentedAs(P, V, m, languages)
    requires program.values == V[i]
    modifies program
    ensures fresh(programInfo)
    ensures programInfo.values == P[i]
    ensures program.values == RegService.FallbackValues(V[i], m)
  {
    programInfo := Present(program, m, languages);
  }

  /** The end of a pass of `GetAll`'s loop: the new record, whose values
      are the `i`th presentation values, is appended unless the callback
      throws on it. */
  method Keep(programInfos: seq<ProgramInfo>, programInfo: ProgramInfo, actionThrows: Properties -> bool,
              i: nat, ghost P: seq<Properties>)
    returns (programInfos': seq<ProgramInfo>)
    requires i < |P| && programInfo.values == P[i] && InfoValues(programInfos) == Kept(P[..i], actionThrows)
    ensures InfoValues(programInfos') == Kept(P[..i + 1], actionThrows)
  {
    KeptStep(P, i, actionThrows);
    programInfos' := programInfos;
    if !actionThrows(programInfo.values) {
      InfoValuesAppend(programInfos, programInfo);
      programInfos' := programInfos + [programInfo];
    }
  }

  // ---------------------------------------------------------------------
  // What the listing promises

  /** Filtering one more value. */
  lemma KeptStep(ps: seq<Properties>, i: nat, actionThrows: Properties -> bool)
    requires i < |ps|
    ensures Kept(ps[..i + 1], actionThrows)
            == Kept(ps[..i], actionThrows) + (if actionThrows(ps[i]) then [] else [ps[i]])
  {
    assert ps[..i + 1][..i] == ps[..i];
  }

  /** Filtering two runs of values is filtering the first run, then the
      second: the values kept keep their order. */
  lemma {:induction false} KeptAppend(a: seq<Properties>, b: seq<Properties>, actionThrows: Properties -> bool)
    ensures Kept(a + b, actionThrows) == Kept(a, actionThrows) + Kept(b, actionThrows)
  {
    if b == [] {
      assert a + b == a;
    } else {
      KeptAppend(a, b[..|b| - 1], actionThrows);
      assert (a + b)[..|a + b| - 1] == a + b[..|b| - 1];
    }
  }

  /** A value is kept exactly when it is one of the values and the callback
      does not throw on it. */
  lemma {:induction false} KeptMembers(ps: seq<Properties>, actionThrows: Properties -> bool, x: Properties)
    ensures x in Kept(ps, actionThrows) <==> x in ps && !actionThrows(x)
  {
    if ps != [] {
      var init := ps[..|ps| - 1];
      KeptMembers(init, actionThrows, x);
      assert ps == init + [ps[|ps| - 1]];
    }
  }

  /** Without a callback, or with one that never throws, every value is
      kept, in order. */
  lemma {:induction false} KeptWithoutAction(ps: seq<Properties>, actionThrows: Properties -> bool)
    requires forall x :: !actionThrows(x)
    ensures Kept(ps, actionThrows) == ps
  {
    if ps != [] {
      KeptWithoutAction(ps[..|ps| - 1], actionThrows);
      assert ps == ps[..|ps| - 1] + [ps[|ps| - 1]];
    }
  }
}
