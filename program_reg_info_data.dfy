/** The raw record of one uninstall registry key: 34 text properties,
    every one of them the empty string in a new record, any of them null
    once a null registry value has been stored into it. */
module ProgramRegInfoData {
  import opened Wrappers
  import opened Text

  /** The properties of the record, in declaration order. */
  datatype RegField =
    | Id
    | AuthorizedCDFPrefix
    | Comments
    | Contact
    | DisplayIcon
    | DisplayName
    | DisplayVersion
    | EstimatedSize
    | HelpLink
    | HelpTelephone
    | InstallDate
    | InstallDir
    | InstallLocation
    | InstallSource
    | Language
    | MajorVersion
    | MinorVersion
    | ModifyPath
    | NoModify
    | NoRemove
    | NoRepair
    | Publisher
    | Readme
    | Size
    | SystemComponent
    | QuietUninstallString
    | UninstallString
    | UrlInfoAbout
    | UrlUpdateInfo
    | Version
    | VersionMajor
    | VersionMinor
    | WindowsInstaller
    | RegKey

  /** The property's name, which is also the registry value name that fills it. */
  function FieldName(f: RegField): string
  {
    match f
    case Id => "Id"
    case AuthorizedCDFPrefix => "AuthorizedCDFPrefix"
    case Comments => "Comments"
    case Contact => "Contact"
    case DisplayIcon => "DisplayIcon"
    case DisplayName => "DisplayName"
    case DisplayVersion => "DisplayVersion"
    case EstimatedSize => "EstimatedSize"
    case HelpLink => "HelpLink"
    case HelpTelephone => "HelpTelephone"
    case InstallDate => "InstallDate"
    case InstallDir => "InstallDir"
    case InstallLocation => "InstallLocation"
    case InstallSource => "InstallSource"
    case Language => "Language"
    case MajorVersion => "MajorVersion"
    case MinorVersion => "MinorVersion"
    case ModifyPath => "ModifyPath"
    case NoModify => "NoModify"
    case NoRemove => "NoRemove"
    case NoRepair => "NoRepair"
    case Publisher => "Publisher"
    case Readme => "Readme"
    case Size => "Size"
    case SystemComponent => "SystemComponent"
    case QuietUninstallString => "QuietUninstallString"
    case UninstallString => "UninstallString"
    case UrlInfoAbout => "UrlInfoAbout"
    case UrlUpdateInfo => "UrlUpdateInfo"
    case Version => "Version"
    case VersionMajor => "VersionMajor"
    case VersionMinor => "VersionMinor"
    case WindowsInstaller => "WindowsInstaller"
    case RegKey => "RegKey"
  }

  /** The position of the property in the declaration. */
  function FieldIndex(f: RegField): (n: nat)
    ensures n < 34
  {
    match f
    case Id => 0
    case AuthorizedCDFPrefix => 1
    case Comments => 2
    case Contact => 3
    case DisplayIcon => 4
    case DisplayName => 5
    case DisplayVersion => 6
    case EstimatedSize => 7
    case HelpLink => 8
    case HelpTelephone => 9
    case InstallDate => 10
    case InstallDir => 11
    case InstallLocation => 12
    case InstallSource => 13
    case Language => 14
    case MajorVersion => 15
    case MinorVersion => 16
    case ModifyPath => 17
    case NoModify => 18
    case NoRemove => 19
    case NoRepair => 20
    case Publisher => 21
    case Readme => 22
    case Size => 23
    case SystemComponent => 24
    case QuietUninstallString => 25
    case UninstallString => 26
    case UrlInfoAbout => 27
    case UrlUpdateInfo => 28
    case Version => 29
    case VersionMajor => 30
    case VersionMinor => 31
    case WindowsInstaller => 32
    case RegKey => 33
  }

  /** `GetType().GetProperties()`: every property once, in declaration order. */
  function AllRegFields(): (fs: seq<RegField>)
    ensures |fs| == 34
    ensures forall f :: fs[FieldIndex(f)] == f
  {
    [
     Id,
     AuthorizedCDFPrefix,
     Comments,
     Contact,
     DisplayIcon,
     DisplayName,
     DisplayVersion,
     EstimatedSize,
     HelpLink,
     HelpTelephone,
     InstallDate,
     InstallDir,
     InstallLocation,
     InstallSource,
     Language,
     MajorVersion,
     MinorVersion,
     ModifyPath,
     NoModify,
     NoRemove,
     NoRepair,
     Publisher,
     Readme,
     Size,
     SystemComponent,
     QuietUninstallString,
     UninstallString,
     UrlInfoAbout,
     UrlUpdateInfo,
     Version,
     VersionMajor,
     VersionMinor,
     WindowsInstaller,
     RegKey
    ]
  }

  /** `GetType().GetProperty(name)`: the properties are searched in
      declaration order for the one with exactly this name. */
  method GetProperty(name: string) returns (property: Option<RegField>)
    ensures property.Some? ==> FieldName(property.value) == name
    ensures property.None? ==> forall f :: FieldName(f) != name
  {
    var fs := AllRegFields();
    property := FindNamed(fs, FieldName, name);
    if property.None? {
      forall f ensures FieldName(f) != name {
        assert fs[FieldIndex(f)] == f;
      }
    }
  }

  /** The first of `xs` whose name is `name`. */
  method FindNamed<T>(xs: seq<T>, nameOf: T -> string, name: string) returns (found: Option<T>)
    ensures found.Some? ==> found.value in xs && nameOf(found.value) == name
    ensures found.None? ==> forall k :: 0 <= k < |xs| ==> nameOf(xs[k]) != name
  {
    for i := 0 to |xs|
      invariant forall k :: 0 <= k < i ==> nameOf(xs[k]) != name
    {
      if nameOf(xs[i]) == name {
        return Some(xs[i]);
      }
    }
    return None;
  }

  /** A candidate property for a name, chosen by its length, its second
      character and its last three characters (`c1`, `z1`, `z2`, `z3`, the
      last one being `z1`); enough to tell the 34 property names apart. */
  function FieldWithSignature(len: int, c1: char, z1: char, z2: char, z3: char): Option<RegField>
  {
    match len
    case 2 => Some(Id)
    case 4 => Some(Size)
    case 6 => if z1 == 'e' then Some(Readme) else Some(RegKey)
    case 7 => if z1 == 't' then Some(Contact) else Some(Version)
    case 8 =>
      if z1 == 's' then Some(Comments)
      else if z1 == 'k' then Some(HelpLink)
      else if z1 == 'y' then Some(NoModify)
      else if z1 == 'r' then Some(NoRepair)
      else if z2 == 'g' then Some(Language)
      else Some(NoRemove)
    case 9 => Some(Publisher)
    case 10 => if z1 == 'r' then Some(InstallDir) else Some(ModifyPath)
    case 11 =>
      if z1 == 'n' then Some(DisplayIcon)
      else if z2 == 'm' then Some(DisplayName)
      else Some(InstallDate)
    case 12 =>
      if z1 == 't' then Some(UrlInfoAbout)
      else if z1 == 'n' then (if c1 == 'a' then Some(MajorVersion) else Some(MinorVersion))
      else if z3 == 'j' then Some(VersionMajor)
      else Some(VersionMinor)
    case 13 =>
      if z1 == 'o' then Some(UrlUpdateInfo)
      else if z2 == 'z' then Some(EstimatedSize)
      else if z2 == 'n' then Some(HelpTelephone)
      else Some(InstallSource)
    case 14 => Some(DisplayVersion)
    case 15 =>
      if z1 == 'n' then Some(InstallLocation)
      else if z1 == 't' then Some(SystemComponent)
      else Some(UninstallString)
    case 16 => Some(WindowsInstaller)
    case 19 => Some(AuthorizedCDFPrefix)
    case 20 => Some(QuietUninstallString)
    case _ => None
  }

  /** The candidate property for a name. */
  function FieldOfSignature(n: string): Option<RegField>
  {
    if |n| < 2 then None
    else FieldWithSignature(|n|, n[1], n[|n| - 1], n[|n| - 2], if |n| >= 3 then n[|n| - 3] else ' ')
  }

  /** The signature of a property's own name picks out that property. */
  predicate HasOwnSignature(f: RegField)
  {
    FieldOfSignature(FieldName(f)) == Some(f)
  }

  lemma SignatureIdentifiesField(f: RegField)
    ensures HasOwnSignature(f)
  {
    if FieldIndex(f) < 9 {
      SignatureOfGroup0(f);
    } else if FieldIndex(f) < 18 {
      SignatureOfGroup1(f);
    } else if FieldIndex(f) < 26 {
      SignatureOfGroup2(f);
    } else {
      SignatureOfGroup3(f);
    }
  }

  lemma SignatureOfGroup0(f: RegField)
    requires 0 <= FieldIndex(f) < 9
    ensures HasOwnSignature(f)
  {
    match f
    case Id =>
    case AuthorizedCDFPrefix =>
    case Comments =>
    case Contact =>
    case DisplayIcon =>
    case DisplayName =>
    case DisplayVersion =>
    case EstimatedSize =>
    case HelpLink =>
    case _ => assert false;
  }

  lemma SignatureOfGroup1(f: RegField)
    requires 9 <= FieldIndex(f) < 18
    ensures HasOwnSignature(f)
  {
    match f
    case HelpTelephone =>
    case InstallDate =>
    case InstallDir =>
    case InstallLocation =>
    case InstallSource =>
    case Language =>
    case MajorVersion =>
    case MinorVersion =>
    case ModifyPath =>
    case _ => assert false;
  }

  lemma SignatureOfGroup2(f: RegField)
    requires 18 <= FieldIndex(f) < 26
    ensures HasOwnSignature(f)
  {
    match f
    case NoModify =>
    case NoRemove =>
    case NoRepair =>
    case Publisher =>
    case Readme =>
    case Size =>
    case SystemComponent =>
    case QuietUninstallString =>
    case _ => assert false;
  }

  lemma SignatureOfGroup3(f: RegField)
    requires 26 <= FieldIndex(f) < 34
    ensures HasOwnSignature(f)
  {
    match f
    case UninstallString =>
    case UrlInfoAbout =>
    case UrlUpdateInfo =>
    case Version =>
    case VersionMajor =>
    case VersionMinor =>
    case WindowsInstaller =>
    case RegKey =>
    case _ => assert false;
  }

  /** Different properties have different names. */
  lemma FieldNameInjective(f: RegField, g: RegField)
    requires FieldName(f) == FieldName(g)
    ensures f == g
  {
    SignatureIdentifiesField(f);
    SignatureIdentifiesField(g);
  }

  /** The values of all properties of one record. */
  type RegValues = map<RegField, Option<string>>

  predicate Complete(v: RegValues)
  {
    forall f: RegField :: f in v
  }

  /** Two complete value maps that agree on every property are equal. */
  lemma CompleteValuesEqual(v: RegValues, w: RegValues)
    requires Complete(v) && Complete(w)
    requires forall f :: v[f] == w[f]
    ensures v == w
  {
    assert v.Keys == w.Keys;
  }

  /** The values of a new record: the empty string everywhere. */
  function EmptyRegValues(): (v: RegValues)
    ensures Complete(v)
    ensures forall f :: v[f] == Some("")
  {
    var fs := AllRegFields();
    assert forall f: RegField :: f in fs by {
      forall f: RegField ensures f in fs {
        assert fs[FieldIndex(f)] == f;
      }
    }
    map f | f in fs :: Some("")
  }

  /** `ProgramRegInfoData`: a record whose properties the mapper, the fuser
      and the fallback resolver overwrite in place. */
  class ProgramRegInfo {
    var values: RegValues

    predicate Valid()
      reads this
    {
      Complete(values)
    }

    /** A new record: every property, `Id` and `RegKey` included, is empty. */
    constructor ()
      ensures Valid()
      ensures forall f :: values[f] == Some("")
    {
      values := EmptyRegValues();
    }

    /** A property setter: only the named property changes. */
    method Set(f: RegField, v: Option<string>)
      requires Valid()
      modifies this
      ensures Valid()
      ensures values == old(values)[f := v]
    {
      values := values[f := v];
    }

    /** `ToString()`: the display name. */
    function ToString(): (r: Option<string>)
      requires Valid()
      reads this
      ensures r == values[DisplayName]
    {
      values[DisplayName]
    }
  }
}
