/** The presentation record of one installed program: 28 typed properties
    whose setters store only a changed value and then raise one
    property-changed notification; equality and hashing over every
    property but the icon. */
module ProgramInfoData {
  import opened Wrappers
  import opened Numbers
  import opened Oracles

  /** The properties of the record, in declaration order. */
  datatype Prop =
    | Id
    | Comments
    | Contact
    | DisplayIcon
    | DisplayName
    | DisplayVersion
    | EstimatedSize
    | HelpLink
    | HelpTelephone
    | InstallDate
    | InstallLocation
    | InstallSource
    | Language
    | ModifyPath
    | NoModify
    | NoRemove
    | NoRepair
    | Publisher
    | Readme
    | SystemComponent
    | QuietUninstallString
    | UninstallString
    | UrlInfoAbout
    | UrlUpdateInfo
    | VersionMajor
    | VersionMinor
    | WindowsInstaller
    | RegKey

  /** The position of the property in the declaration. */
  function PropIndex(p: Prop): (n: nat)
    ensures n < 28
  {
    match p
    case Id => 0
    case Comments => 1
    case Contact => 2
    case DisplayIcon => 3
    case DisplayName => 4
    case DisplayVersion => 5
    case EstimatedSize => 6
    case HelpLink => 7
    case HelpTelephone => 8
    case InstallDate => 9
    case InstallLocation => 10
    case InstallSource => 11
    case Language => 12
    case ModifyPath => 13
    case NoModify => 14
    case NoRemove => 15
    case NoRepair => 16
    case Publisher => 17
    case Readme => 18
    case SystemComponent => 19
    case QuietUninstallString => 20
    case UninstallString => 21
    case UrlInfoAbout => 22
    case UrlUpdateInfo => 23
    case VersionMajor => 24
    case VersionMinor => 25
    case WindowsInstaller => 26
    case RegKey => 27
  }

  /** `GetType().GetProperties()`: every property once, in declaration order. */
  function AllProps(): (ps: seq<Prop>)
    ensures |ps| == 28
    ensures forall p :: ps[PropIndex(p)] == p
  {
    [Id, Comments, Contact, DisplayIcon, DisplayName, DisplayVersion, EstimatedSize,
     HelpLink, HelpTelephone, InstallDate, InstallLocation, InstallSource, Language,
     ModifyPath, NoModify, NoRemove, NoRepair, Publisher, Readme, SystemComponent,
     QuietUninstallString, UninstallString, UrlInfoAbout, UrlUpdateInfo,
     VersionMajor, VersionMinor, WindowsInstaller, RegKey]
  }

  /** The property at a position of the declaration. */
  function PropAt(i: nat): Prop
    requires i < 28
  {
    match i
    case 0 => Id
    case 1 => Comments
    case 2 => Contact
    case 3 => DisplayIcon
    case 4 => DisplayName
    case 5 => DisplayVersion
    case 6 => EstimatedSize
    case 7 => HelpLink
    case 8 => HelpTelephone
    case 9 => InstallDate
    case 10 => InstallLocation
    case 11 => InstallSource
    case 12 => Language
    case 13 => ModifyPath
    case 14 => NoModify
    case 15 => NoRemove
    case 16 => NoRepair
    case 17 => Publisher
    case 18 => Readme
    case 19 => SystemComponent
    case 20 => QuietUninstallString
    case 21 => UninstallString
    case 22 => UrlInfoAbout
    case 23 => UrlUpdateInfo
    case 24 => VersionMajor
    case 25 => VersionMinor
    case 26 => WindowsInstaller
    case _ => RegKey
  }

  /** `PropAt` and `PropIndex` are inverse, and `AllProps` lists the
      properties by position. */
  lemma PropAtIndex(i: nat)
    requires i < 28
    ensures PropIndex(PropAt(i)) == i
    ensures AllProps()[i] == PropAt(i)
  {
  }

  /** No property is listed twice. */
  lemma AllPropsDistinct()
    ensures forall i, j :: 0 <= i < j < |AllProps()| ==> AllProps()[i] != AllProps()[j]
  {
    forall i, j | 0 <= i < j < |AllProps()| ensures AllProps()[i] != AllProps()[j] {
      PropAtIndex(i);
      PropAtIndex(j);
    }
  }

  /** A C# `long`. */
  type Long = x: int | IsInt64(x)

  /** The values of all properties of one record: strings and the icon
      nullable (`None`), the flags `bool`, the sizes and versions `long`. */
  datatype Properties = Properties(
    id: Option<string>,
    comments: Option<string>,
    contact: Option<string>,
    displayIcon: Option<Bitmap>,
    displayName: Option<string>,
    displayVersion: Option<string>,
    estimatedSize: Long,
    helpLink: Option<string>,
    helpTelephone: Option<string>,
    installDate: Option<string>,
    installLocation: Option<string>,
    installSource: Option<string>,
    language: Option<string>,
    modifyPath: Option<string>,
    noModify: bool,
    noRemove: bool,
    noRepair: bool,
    publisher: Option<string>,
    readme: Option<string>,
    systemComponent: bool,
    quietUninstallString: Option<string>,
    uninstallString: Option<string>,
    urlInfoAbout: Option<string>,
    urlUpdateInfo: Option<string>,
    versionMajor: Long,
    versionMinor: Long,
    windowsInstaller: bool,
    regKey: Option<string>)

  /** The declared type of a property: a string, a `bool`, a `long` or a bitmap. */
  datatype Kind = TextKind | FlagKind | NumberKind | IconKind

  function KindOf(p: Prop): Kind
  {
    match p
    case DisplayIcon => IconKind
    case EstimatedSize | VersionMajor | VersionMinor => NumberKind
    case NoModify | NoRemove | NoRepair | SystemComponent | WindowsInstaller => FlagKind
    case _ => TextKind
  }

  /** A property value as `GetValue` boxes it; `None` is null. */
  datatype PropValue =
    | Text(text: Option<string>)
    | Flag(flag: bool)
    | Number(number: int)
    | Image(icon: Option<Bitmap>)

  /** The value has the property's declared type (a `long` in range). */
  predicate Fits(p: Prop, x: PropValue)
  {
    match KindOf(p)
    case TextKind => x.Text?
    case FlagKind => x.Flag?
    case NumberKind => x.Number? && IsInt64(x.number)
    case IconKind => x.Image?
  }

  /** The boxed value is null; a `bool` or a `long` never is. */
  predicate IsNull(x: PropValue)
  {
    (x.Text? && x.text.None?) || (x.Image? && x.icon.None?)
  }

  /** `property.GetValue(record)`. */
  function Get(v: Properties, p: Prop): (x: PropValue)
    ensures Fits(p, x)
  {
    match p
    case Id => Text(v.id)
    case Comments => Text(v.comments)
    case Contact => Text(v.contact)
    case DisplayIcon => Image(v.displayIcon)
    case DisplayName => Text(v.displayName)
    case DisplayVersion => Text(v.displayVersion)
    case EstimatedSize => Number(v.estimatedSize)
    case HelpLink => Text(v.helpLink)
    case HelpTelephone => Text(v.helpTelephone)
    case InstallDate => Text(v.installDate)
    case InstallLocation => Text(v.installLocation)
    case InstallSource => Text(v.installSource)
    case Language => Text(v.language)
    case ModifyPath => Text(v.modifyPath)
    case NoModify => Flag(v.noModify)
    case NoRemove => Flag(v.noRemove)
    case NoRepair => Flag(v.noRepair)
    case Publisher => Text(v.publisher)
    case Readme => Text(v.readme)
    case SystemComponent => Flag(v.systemComponent)
    case QuietUninstallString => Text(v.quietUninstallString)
    case UninstallString => Text(v.uninstallString)
    case UrlInfoAbout => Text(v.urlInfoAbout)
    case UrlUpdateInfo => Text(v.urlUpdateInfo)
    case VersionMajor => Number(v.versionMajor)
    case VersionMinor => Number(v.versionMinor)
    case WindowsInstaller => Flag(v.windowsInstaller)
    case RegKey => Text(v.regKey)
  }

  /** `property.SetValue(record, x)` on the values. */
  function With(v: Properties, p: Prop, x: PropValue): (w: Properties)
    requires Fits(p, x)
  {
    match p
    case Id => v.(id := x.text)
    case Comments => v.(comments := x.text)
    case Contact => v.(contact := x.text)
    case DisplayIcon => v.(displayIcon := x.icon)
    case DisplayName => v.(displayName := x.text)
    case DisplayVersion => v.(displayVersion := x.text)
    case EstimatedSize => v.(estimatedSize := x.number)
    case HelpLink => v.(helpLink := x.text)
    case HelpTelephone => v.(helpTelephone := x.text)
    case InstallDate => v.(installDate := x.text)
    case InstallLocation => v.(installLocation := x.text)
    case InstallSource => v.(installSource := x.text)
    case Language => v.(language := x.text)
    case ModifyPath => v.(modifyPath := x.text)
    case NoModify => v.(noModify := x.flag)
    case NoRemove => v.(noRemove := x.flag)
    case NoRepair => v.(noRepair := x.flag)
    case Publisher => v.(publisher := x.text)
    case Readme => v.(readme := x.text)
    case SystemComponent => v.(systemComponent := x.flag)
    case QuietUninstallString => v.(quietUninstallString := x.text)
    case UninstallString => v.(uninstallString := x.text)
    case UrlInfoAbout => v.(urlInfoAbout := x.text)
    case UrlUpdateInfo => v.(urlUpdateInfo := x.text)
    case VersionMajor => v.(versionMajor := x.number)
    case VersionMinor => v.(versionMinor := x.number)
    case WindowsInstaller => v.(windowsInstaller := x.flag)
    case RegKey => v.(regKey := x.text)
  }

  /** Setting a property changes that property and no other. */
  lemma GetWith(v: Properties, p: Prop, x: PropValue, q: Prop)
    requires Fits(p, x)
    ensures Get(With(v, p, x), q) == if q == p then x else Get(v, q)
  {
    if q == p {
      GetWithSame(v, p, x);
    } else {
      GetWithOther(v, p, x, q);
    }
  }

  lemma GetWithSame(v: Properties, p: Prop, x: PropValue)
    requires Fits(p, x)
    ensures Get(With(v, p, x), p) == x
  {
  }

  lemma GetWithOther(v: Properties, p: Prop, x: PropValue, q: Prop)
    requires Fits(p, x) && q != p
    ensures Get(With(v, p, x), q) == Get(v, q)
  {
    GetWithOtherOfKind(v, p, x, q, KindOf(p));
  }

  /** `GetWithOther` for the properties of one kind. */
  lemma GetWithOtherOfKind(v: Properties, p: Prop, x: PropValue, q: Prop, k: Kind)
    requires Fits(p, x) && q != p && KindOf(p) == k
    ensures Get(With(v, p, x), q) == Get(v, q)
  {
    match k
    case TextKind => GetWithOtherText(v, p, x, q);
    case FlagKind => GetWithOtherFlag(v, p, x, q);
    case NumberKind => GetWithOtherNumber(v, p, x, q);
    case IconKind => GetWithOtherIcon(v, p, x, q);
  }

  lemma GetWithOtherText(v: Properties, p: Prop, x: PropValue, q: Prop)
    requires Fits(p, x) && q != p && KindOf(p) == TextKind
    ensures Get(With(v, p, x), q) == Get(v, q)
  {
    if KindOf(q) == TextKind {
      GetWithOtherTextText(v, p, x, q);
    } else {
      GetWithOtherTextNonText(v, p, x, q);
    }
  }

  lemma GetWithOtherTextText(v: Properties, p: Prop, x: PropValue, q: Prop)
    requires Fits(p, x) && q != p && KindOf(p) == TextKind && KindOf(q) == TextKind
    ensures Get(With(v, p, x), q) == Get(v, q)
  {
  }

  lemma GetWithOtherTextNonText(v: Properties, p: Prop, x: PropValue, q: Prop)
    requires Fits(p, x) && KindOf(p) == TextKind && KindOf(q) != TextKind
    ensures Get(With(v, p, x), q) == Get(v, q)
  {
  }

  lemma GetWithOtherFlag(v: Properties, p: Prop, x: PropValue, q: Prop)
    requires Fits(p, x) && q != p && KindOf(p) == FlagKind
    ensures Get(With(v, p, x), q) == Get(v, q)
  {
  }

  lemma GetWithOtherNumber(v: Properties, p: Prop, x: PropValue, q: Prop)
    requires Fits(p, x) && q != p && KindOf(p) == NumberKind
    ensures Get(With(v, p, x), q) == Get(v, q)
  {
  }

  lemma GetWithOtherIcon(v: Properties, p: Prop, x: PropValue, q: Prop)
    requires Fits(p, x) && q != p && KindOf(p) == IconKind
    ensures Get(With(v, p, x), q) == Get(v, q)
  {
  }

  /** Setting a property to the value it holds gives the same record. */
  lemma WithGet(v: Properties, p: Prop)
    ensures With(v, p, Get(v, p)) == v
  {
    forall q ensures Get(With(v, p, Get(v, p)), q) == Get(v, q) {
      GetWith(v, p, Get(v, p), q);
    }
    PropertiesExtensional(With(v, p, Get(v, p)), v);
  }

  /** Records with equal values in every property are the same record. */
  lemma PropertiesExtensional(a: Properties, b: Properties)
    requires forall p :: Get(a, p) == Get(b, p)
    ensures a == b
  {
    AgreeFirst(a, b);
    AgreeSecond(a, b);
    AgreeThird(a, b);
    AgreeFourth(a, b);
  }

  lemma AgreeFirst(a: Properties, b: Properties)
    requires forall p :: Get(a, p) == Get(b, p)
    ensures a.id == b.id && a.comments == b.comments && a.contact == b.contact && a.displayIcon == b.displayIcon
    ensures a.displayName == b.displayName && a.displayVersion == b.displayVersion && a.estimatedSize == b.estimatedSize
  {
    assert Get(a, Id) == Get(b, Id);
    assert Get(a, Comments) == Get(b, Comments);
    assert Get(a, Contact) == Get(b, Contact);
    assert Get(a, DisplayIcon) == Get(b, DisplayIcon);
    assert Get(a, DisplayName) == Get(b, DisplayName);
    assert Get(a, DisplayVersion) == Get(b, DisplayVersion);
    assert Get(a, EstimatedSize) == Get(b, EstimatedSize);
  }

  lemma AgreeSecond(a: Properties, b: Properties)
    requires forall p :: Get(a, p) == Get(b, p)
    ensures a.helpLink == b.helpLink && a.helpTelephone == b.helpTelephone && a.installDate == b.installDate && a.installLocation == b.installLocation
    ensures a.installSource == b.installSource && a.language == b.language && a.modifyPath == b.modifyPath
  {
    assert Get(a, HelpLink) == Get(b, HelpLink);
    assert Get(a, HelpTelephone) == Get(b, HelpTelephone);
    assert Get(a, InstallDate) == Get(b, InstallDate);
    assert Get(a, InstallLocation) == Get(b, InstallLocation);
    assert Get(a, InstallSource) == Get(b, InstallSource);
    assert Get(a, Language) == Get(b, Language);
    assert Get(a, ModifyPath) == Get(b, ModifyPath);
  }

  lemma AgreeThird(a: Properties, b: Properties)
    requires forall p :: Get(a, p) == Get(b, p)
    ensures a.noModify == b.noModify && a.noRemove == b.noRemove && a.noRepair == b.noRepair && a.publisher == b.publisher
    ensures a.readme == b.readme && a.systemComponent == b.systemComponent && a.quietUninstallString == b.quietUninstallString
  {
    assert Get(a, NoModify) == Get(b, NoModify);
    assert Get(a, NoRemove) == Get(b, NoRemove);
    assert Get(a, NoRepair) == Get(b, NoRepair);
    assert Get(a, Publisher) == Get(b, Publisher);
    assert Get(a, Readme) == Get(b, Readme);
    assert Get(a, SystemComponent) == Get(b, SystemComponent);
    assert Get(a, QuietUninstallString) == Get(b, QuietUninstallString);
  }

  lemma AgreeFourth(a: Properties, b: Properties)
    requires forall p :: Get(a, p) == Get(b, p)
    ensures a.uninstallString == b.uninstallString && a.urlInfoAbout == b.urlInfoAbout && a.urlUpdateInfo == b.urlUpdateInfo && a.versionMajor == b.versionMajor
    ensures a.versionMinor == b.versionMinor && a.windowsInstaller == b.windowsInstaller && a.regKey == b.regKey
  {
    assert Get(a, UninstallString) == Get(b, UninstallString);
    assert Get(a, UrlInfoAbout) == Get(b, UrlInfoAbout);
    assert Get(a, UrlUpdateInfo) == Get(b, UrlUpdateInfo);
    assert Get(a, VersionMajor) == Get(b, VersionMajor);
    assert Get(a, VersionMinor) == Get(b, VersionMinor);
    assert Get(a, WindowsInstaller) == Get(b, WindowsInstaller);
    assert Get(a, RegKey) == Get(b, RegKey);
  }

  /** Value-typed properties are never null. */
  lemma ValueTypesNeverNull(v: Properties, p: Prop)
    ensures KindOf(p) == FlagKind || KindOf(p) == NumberKind ==> !IsNull(Get(v, p))
    ensures IsNull(Get(v, p)) ==> KindOf(p) == TextKind || KindOf(p) == IconKind
  {
  }

  /** The values of a new record: `Id` is the empty string, the other
      strings and the icon are null, the flags false, the numbers 0. */
  const DEFAULTS: Properties := Properties(
    Some(""),
    None,
    None,
    None,
    None,
    None,
    0,
    None,
    None,
    None,
    None,
    None,
    None,
    None,
    false,
    false,
    false,
    None,
    None,
    false,
    None,
    None,
    None,
    None,
    0,
    0,
    false,
    None)

  /** Of a new record, only `Id` and the value-typed properties are non-null. */
  lemma DefaultsSpec(p: Prop)
    ensures p == Id ==> Get(DEFAULTS, p) == Text(Some(""))
    ensures p != Id && KindOf(p) == TextKind ==> Get(DEFAULTS, p) == Text(None)
    ensures KindOf(p) == FlagKind ==> Get(DEFAULTS, p) == Flag(false)
    ensures KindOf(p) == NumberKind ==> Get(DEFAULTS, p) == Number(0)
    ensures p == DisplayIcon ==> Get(DEFAULTS, p) == Image(None)
    ensures IsNull(Get(DEFAULTS, p)) <==> p != Id && (KindOf(p) == TextKind || KindOf(p) == IconKind)
  {
  }

  // ---------------------------------------------------------------------
  // Equality and hashing, with the icon left out

  /** The two records hold equal values in every property but the icon. */
  predicate SameExceptIcon(a: Properties, b: Properties)
  {
    forall p: Prop :: p != DisplayIcon ==> Get(a, p) == Get(b, p)
  }

  /** Agreeing outside the icon is being the same record once the icons
      are made equal. */
  lemma SameExceptIconSpec(a: Properties, b: Properties)
    ensures SameExceptIcon(a, b) <==> a.(displayIcon := b.displayIcon) == b
  {
    var a' := a.(displayIcon := b.displayIcon);
    if SameExceptIcon(a, b) {
      forall p ensures Get(a', p) == Get(b, p) {
        if p != DisplayIcon {
          assert Get(a', p) == Get(a, p);
        }
      }
      PropertiesExtensional(a', b);
    } else {
      var p :| p != DisplayIcon && Get(a, p) != Get(b, p);
      assert Get(a', p) == Get(a, p);
    }
  }

  /** What an `Equals` argument can be: null, an object of another type, or a record. */
  datatype Object = Null | Foreign | Record(record: ProgramInfo)

  /** The hash codes the runtime gives the boxed values. A string's hash is
      seeded per process, so it comes from `stringHash`; a `bool` hashes to
      1 or 0; a `long` to its two halves exclusive-or'ed as an `int`. */
  function ValueHash(x: PropValue, stringHash: string -> int): int
  {
    match x
    case Text(t) => if t.Some? then stringHash(t.value) else 0
    case Flag(b) => if b then 1 else 0
    case Number(n) => LongHash(n)
    case Image(_) => 0
  }

  /** `long.GetHashCode()`: `(int)n ^ (int)(n >> 32)`. */
  function LongHash(n: int): (h: int)
    ensures IsInt32(h)
  {
    var bits := (n % TWO_64) as bv64;
    var x := ((bits ^ (bits >> 32)) & 0xFFFF_FFFF) as int;
    if x < TWO_32 / 2 then x else x - TWO_32
  }

  /** The hash after folding the properties `ps` into `seed`, unchecked:
      `hash * 23 + hash(value)` for every property but the icon. */
  function HashOver(seed: int, v: Properties, ps: seq<Prop>, stringHash: string -> int): int
  {
    if ps == [] then seed
    else
      var h := HashOver(seed, v, ps[..|ps| - 1], stringHash);
      var p := ps[|ps| - 1];
      if p == DisplayIcon then h else Wrap32(h * 23 + ValueHash(Get(v, p), stringHash))
  }

  /** `GetHashCode()`: the fold of every property from 17. */
  function HashCode(v: Properties, stringHash: string -> int): int
  {
    HashOver(17, v, AllProps(), stringHash)
  }

  /** The hash is an `int`. */
  lemma {:induction false} HashOverIsInt32(seed: int, v: Properties, ps: seq<Prop>, stringHash: string -> int)
    requires IsInt32(seed)
    ensures IsInt32(HashOver(seed, v, ps, stringHash))
  {
    if ps != [] {
      HashOverIsInt32(seed, v, ps[..|ps| - 1], stringHash);
    }
  }

  /** Records that agree on the properties folded, the icon aside, hash alike. */
  lemma {:induction false} HashOverAgrees(seed: int, a: Properties, b: Properties, ps: seq<Prop>,
                                          stringHash: string -> int)
    requires forall k :: 0 <= k < |ps| && ps[k] != DisplayIcon ==> Get(a, ps[k]) == Get(b, ps[k])
    ensures HashOver(seed, a, ps, stringHash) == HashOver(seed, b, ps, stringHash)
  {
    if ps != [] {
      var init := ps[..|ps| - 1];
      forall k | 0 <= k < |init| && init[k] != DisplayIcon
        ensures Get(a, init[k]) == Get(b, init[k])
      {
        assert init[k] == ps[k];
      }
      HashOverAgrees(seed, a, b, init, stringHash);
      var p := ps[|ps| - 1];
      if p != DisplayIcon {
        assert Get(a, p) == Get(b, p);
      }
    }
  }

  /** Records equal in every property but the icon have equal hash codes,
      whatever their icons; the hash is an `int`. */
  lemma HashCodeIgnoresIcon(a: Properties, b: Properties, stringHash: string -> int)
    requires SameExceptIcon(a, b)
    ensures HashCode(a, stringHash) == HashCode(b, stringHash)
    ensures IsInt32(HashCode(a, stringHash))
  {
    HashOverAgrees(17, a, b, AllProps(), stringHash);
    HashOverIsInt32(17, a, AllProps(), stringHash);
  }

  /** One more property folded into the hash. */
  lemma HashOverStep(seed: int, v: Properties, ps: seq<Prop>, i: nat, stringHash: string -> int)
    requires i < |ps|
    ensures HashOver(seed, v, ps[..i + 1], stringHash)
            == if ps[i] == DisplayIcon then HashOver(seed, v, ps[..i], stringHash)
               else Wrap32(HashOver(seed, v, ps[..i], stringHash) * 23 + ValueHash(Get(v, ps[i]), stringHash))
  {
    assert ps[..i + 1][..i] == ps[..i];
  }

  // ---------------------------------------------------------------------
  // Equality as written

  /** What `Equals` answers for a record's values: true exactly when some
      property but the icon differs, which is the negation of equality. */
  predicate DiffersExceptIcon(a: Properties, b: Properties)
  {
    exists p: Prop :: p != DisplayIcon && Get(a, p) != Get(b, p)
  }

  /** The answer of `Equals` is inverted: a record is never equal to itself,
      and it is equal to every record that differs from it outside the icon. */
  lemma EqualsIsInverted(a: Properties, b: Properties)
    ensures DiffersExceptIcon(a, b) <==> !SameExceptIcon(a, b)
    ensures !DiffersExceptIcon(a, a)
  {
  }

  /** Two new records are not equal to each other as written, though they
      hash alike; and a new record is equal to one that differs only in its
      display name. */
  lemma EqualsCounterexample(stringHash: string -> int)
    ensures !DiffersExceptIcon(DEFAULTS, DEFAULTS)
    ensures HashCode(DEFAULTS, stringHash) == HashCode(DEFAULTS, stringHash)
    ensures DiffersExceptIcon(DEFAULTS, DEFAULTS.(displayName := Some("Editor")))
  {
    assert Get(DEFAULTS, DisplayName) != Get(DEFAULTS.(displayName := Some("Editor")), DisplayName);
  }

  // ---------------------------------------------------------------------
  // Equality as intended

  /** Equality as intended: a record equals another record holding the same
      values outside the icon, and nothing else. */
  predicate IntendedEquals(a: Properties, obj: Object)
    reads if obj.Record? then {obj.record} else {}
  {
    obj.Record? && SameExceptIcon(a, obj.record.values)
  }

  /** The intended equality is an equivalence and agrees with the hash. */
  lemma SameExceptIconIsEquivalence(a: Properties, b: Properties, c: Properties, stringHash: string -> int)
    ensures SameExceptIcon(a, a)
    ensures SameExceptIcon(a, b) ==> SameExceptIcon(b, a)
    ensures SameExceptIcon(a, b) && SameExceptIcon(b, c) ==> SameExceptIcon(a, c)
    ensures SameExceptIcon(a, b) ==> HashCode(a, stringHash) == HashCode(b, stringHash)
  {
    if SameExceptIcon(a, b) {
      HashCodeIgnoresIcon(a, b, stringHash);
    }
  }

  /** `ProgramInfoData`: a record whose setters store a changed value and
      then raise `PropertyChanged` for it. */
  class ProgramInfo {
    var values: Properties
    /** The properties named by the notifications raised so far, in order. */
    var notifications: seq<Prop>

    /** A new record: see `DefaultsSpec`; no notification yet. */
    constructor ()
      ensures values == DEFAULTS
      ensures notifications == []
    {
      values := DEFAULTS;
      notifications := [];
    }

    /** A property setter: an equal value changes nothing and raises
        nothing; a different one is stored and raises one notification. */
    method Set(p: Prop, x: PropValue)
      requires Fits(p, x)
      modifies this
      ensures values == With(old(values), p, x)
      ensures notifications == old(notifications) + (if Get(old(values), p) == x then [] else [p])
    {
      GetWith(values, p, x, p);
      if Get(values, p) == x {
        WithGet(values, p);
        return;
      }
      values := With(values, p, x);
      notifications := notifications + [p];
    }

    /** `Equals(object)` as written: false for null and for another type;
        for a record, true at the first property but the icon that differs,
        false when none does. */
    method Equals(obj: Object) returns (r: bool)
      ensures !obj.Record? ==> !r
      ensures obj.Record? ==> r == DiffersExceptIcon(values, obj.record.values)
    {
      if !obj.Record? {
        return false;
      }
      var other := obj.record;
      var ps := AllProps();
      for i := 0 to |ps|
        invariant forall k :: 0 <= k < i && ps[k] != DisplayIcon ==> Get(values, ps[k]) == Get(other.values, ps[k])
      {
        if ps[i] == DisplayIcon {
          continue;
        }
        if Get(values, ps[i]) != Get(other.values, ps[i]) {
          return true;
        }
      }
      forall p: Prop | p != DisplayIcon ensures Get(values, p) == Get(other.values, p) {
        assert ps[PropIndex(p)] == p;
      }
      return false;
    }

    /** `GetHashCode()`: folds every property but the icon into 17, unchecked. */
    method GetHashCode(stringHash: string -> int) returns (hash: int)
      ensures hash == HashCode(values, stringHash)
    {
      hash := FoldHash(17, AllProps(), stringHash);
    }

    /** The loop of `GetHashCode` over the properties `ps`. */
    method FoldHash(seed: int, ps: seq<Prop>, stringHash: string -> int) returns (hash: int)
      ensures hash == HashOver(seed, values, ps, stringHash)
    {
      hash := seed;
      for i := 0 to |ps|
        invariant hash == HashOver(seed, values, ps[..i], stringHash)
      {
        HashOverStep(seed, values, ps, i, stringHash);
        if ps[i] == DisplayIcon {
          continue;
        }
        hash := Wrap32(hash * 23 + ValueHash(Get(values, ps[i]), stringHash));
      }
      assert ps[..|ps|] == ps;
    }

    /** `ToString()`: the display name. */
    function ToString(): (r: Option<string>)
      reads this
      ensures r == Get(values, DisplayName).text
    {
      values.displayName
    }
  }
}
