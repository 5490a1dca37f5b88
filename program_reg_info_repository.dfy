/** Reads the raw records of installed programs from the four uninstall
    locations of the registry and collapses records that share a display
    name into one. */
module ProgramRegInfoRepository {
  import opened Wrappers
  import opened Collections
  import opened Text
  import opened StringExtensions
  import opened Oracles
  import opened ProgramInfoLocation
  import opened ProgramRegInfoData
  import opened ProgramRegInfoFusion

  // ---------------------------------------------------------------------
  // The uninstall locations

  const LOCAL_MACHINE: string := "HKEY_LOCAL_MACHINE"
  const CURRENT_USER: string := "HKEY_CURRENT_USER"
  /** The software key of a hive as 64-bit programs see it, and as 32-bit programs do. */
  const SOFTWARE_64: string := "\\SOFTWARE"
  const SOFTWARE_32: string := "\\SOFTWARE\\Wow6432Node"
  /** The uninstall key below a software key. */
  const UNINSTALL_KEY: string := "\\Microsoft\\Windows\\CurrentVersion\\Uninstall\\"

  const LM_UNINSTALL_LOCATION_64: string := LOCAL_MACHINE + SOFTWARE_64 + UNINSTALL_KEY
  const LM_UNINSTALL_LOCATION_32: string := LOCAL_MACHINE + SOFTWARE_32 + UNINSTALL_KEY
  const CU_UNINSTALL_LOCATION_64: string := CURRENT_USER + SOFTWARE_64 + UNINSTALL_KEY
  const CU_UNINSTALL_LOCATION_32: string := CURRENT_USER + SOFTWARE_32 + UNINSTALL_KEY

  /** The registry path `GetAllFromLocation` lists: the 64-bit machine-wide
      path unless the switch picks another. */
  function LocationPath(location: Location): string
  {
    match location
    case LocalMachineUninstallLocation32 => LM_UNINSTALL_LOCATION_32
    case CurrentUserUninstallLocation64 => CU_UNINSTALL_LOCATION_64
    case CurrentUserUninstallLocation32 => CU_UNINSTALL_LOCATION_32
    case _ => LM_UNINSTALL_LOCATION_64
  }

  predicate IsMachineWide(location: Location)
  {
    location == LocalMachineUninstallLocation64 || location == LocalMachineUninstallLocation32
  }

  predicate Is32Bit(location: Location)
  {
    location == LocalMachineUninstallLocation32 || location == CurrentUserUninstallLocation32
  }

  /** Every location is the uninstall key under the software key of its
      hive; the 32-bit ones go through `Wow6432Node`; each ends in a separator. */
  lemma LocationPathShape(location: Location)
    ensures LocationPath(location) ==
              (if IsMachineWide(location) then LOCAL_MACHINE else CURRENT_USER)
              + (if Is32Bit(location) then SOFTWARE_32 else SOFTWARE_64)
              + UNINSTALL_KEY
    ensures SOFTWARE_32 == SOFTWARE_64 + "\\Wow6432Node"
    ensures LocationPath(location)[|LocationPath(location)| - 1] == '\\'
  {
    assert SOFTWARE_32 == SOFTWARE_64 + "\\Wow6432Node";
  }

  /** The four locations are four different registry paths. */
  lemma LocationPathsDistinct(a: Location, b: Location)
    requires a != b
    ensures LocationPath(a) != LocationPath(b)
  {
    LocationPathShape(a);
    LocationPathShape(b);
    var pa := LocationPath(a);
    var pb := LocationPath(b);
    if IsMachineWide(a) != IsMachineWide(b) {
      assert pa[5] != pb[5];
    } else if IsMachineWide(a) {
      assert pa[28] != pb[28];
    } else {
      assert pa[27] != pb[27];
    }
  }

  // ---------------------------------------------------------------------
  // One record from one registry key

  /** The id of a key: the text after its last `\`, the whole path if it has none. */
  function KeyId(regKey: string): (id: string)
    ensures '\\' !in id
    ensures |id| <= |regKey| && id == regKey[|regKey| - |id|..]
    ensures |id| < |regKey| ==> regKey[|regKey| - |id| - 1] == '\\'
    ensures '\\' !in regKey ==> id == regKey
  {
    var id := regKey[LastIndexOf(regKey, '\\') + 1..];
    assert forall k :: 0 <= k < |id| ==> id[k] == regKey[LastIndexOf(regKey, '\\') + 1 + k];
    id
  }

  /** The key of a subkey named without `\` has that name as its id. */
  lemma KeyIdOfSubkey(locationPath: string, name: string)
    requires '\\' !in name
    requires locationPath != [] && locationPath[|locationPath| - 1] == '\\'
    ensures KeyId(locationPath + name) == name
  {
    var p := locationPath + name;
    var id := KeyId(p);
    assert |id| == |name|;
    assert id == p[|locationPath|..];
  }

  /** What `Get` stores for a raw registry value: its readable prefix, with
      all leading and trailing quotes removed when it is quoted at both ends. */
  function CleanValue(raw: Option<string>): Option<string>
  {
    match raw
    case None => None
    case Some(s) =>
      var r := Readable(s);
      if r != [] && r[0] == '"' && r[|r| - 1] == '"' then Some(Trim(r, '"')) else Some(r)
  }

  /** No control character anywhere in `s`. */
  predicate ControlFree(s: string)
  {
    forall k :: 0 <= k < |s| ==> !IsControl(s[k])
  }

  /** Neither end of `s` is a quote. */
  predicate Unquoted(s: string)
  {
    s == [] || (s[0] != '"' && s[|s| - 1] != '"')
  }

  /** Trimming quotes off readable text leaves readable text. */
  lemma TrimKeepsControlFree(r: string)
    requires ControlFree(r)
    ensures ControlFree(Trim(r, '"')) && Unquoted(Trim(r, '"'))
  {
    var c := Trim(r, '"');
    var i, j :| 0 <= i <= j <= |r| && c == r[i..j];
    assert forall k :: 0 <= k < |c| ==> c[k] == r[i + k];
  }

  /** A stored value is null exactly when the raw value is; it holds no
      control character, and it is either the readable prefix itself or
      quoted at neither end. */
  lemma CleanValueSpec(raw: Option<string>)
    ensures CleanValue(raw).None? <==> raw.None?
    ensures raw.Some? ==> ControlFree(CleanValue(raw).value)
    ensures raw.Some? ==> CleanValue(raw).value == Readable(raw.value) || Unquoted(CleanValue(raw).value)
  {
    if raw.Some? {
      var r := Readable(raw.value);
      assert ControlFree(r);
      if r != [] && r[0] == '"' && r[|r| - 1] == '"' {
        TrimKeepsControlFree(r);
      }
    }
  }

  /** A readable value not quoted at both ends is stored as it is. */
  lemma CleanValueUnquoted(s: string)
    requires ControlFree(s)
    requires !(s != [] && s[0] == '"' && s[|s| - 1] == '"')
    ensures CleanValue(Some(s)) == Some(s)
  {
    ReadableOfControlFree(s);
  }

  /** Storing a stored value again changes nothing. */
  lemma CleanValueIdempotent(raw: Option<string>)
    ensures CleanValue(CleanValue(raw)) == CleanValue(raw)
  {
    CleanValueSpec(raw);
    if raw.Some? {
      var c := CleanValue(raw).value;
      if c == Readable(raw.value) {
        ReadableIdempotent(raw.value);
      }
      CleanValueUnquoted(c);
    }
  }

  /** A new record with `RegKey` and `Id` set from the key path. */
  function InitialValues(regKey: string): (v: RegValues)
    ensures Complete(v)
    ensures v[Id] == Some(KeyId(regKey)) && v[RegKey] == Some(regKey)
    ensures forall f :: f != Id && f != RegKey ==> v[f] == Some("")
  {
    EmptyRegValues()[RegKey := Some(regKey)][Id := Some(KeyId(regKey))]
  }

  /** The record `Get` builds: each property named by a value name holds
      that value cleaned, every other keeps its initial value. */
  function RecordValues(keys: map<string, Option<string>>, regKey: string): (v: RegValues)
    ensures Complete(v)
  {
    StoredFields(keys, regKey, AllRegFields())
  }

  /** The initial record with the properties `fs` stored from `keys`. */
  function StoredFields(keys: map<string, Option<string>>, regKey: string, fs: seq<RegField>): (v: RegValues)
    ensures Complete(v)
  {
    if fs == [] then InitialValues(regKey)
    else
      var v := StoredFields(keys, regKey, fs[..|fs| - 1]);
      var f := fs[|fs| - 1];
      if FieldName(f) in keys then v[f := CleanValue(keys[FieldName(f)])] else v
  }

  /** A property among `fs` holds the cleaned value of its name when the key
      has one; every other property keeps its initial value. */
  lemma {:induction false} StoredFieldsSpec(keys: map<string, Option<string>>, regKey: string, fs: seq<RegField>, f: RegField)
    ensures StoredFields(keys, regKey, fs)[f]
      == if f in fs && FieldName(f) in keys then CleanValue(keys[FieldName(f)]) else InitialValues(regKey)[f]
  {
    if fs != [] {
      var init := fs[..|fs| - 1];
      StoredFieldsSpec(keys, regKey, init, f);
      InLast(fs, f);
      StoredFieldsLast(keys, regKey, fs, f);
    }
  }

  /** Storing the last property of `fs` changes that property only. */
  lemma StoredFieldsLast(keys: map<string, Option<string>>, regKey: string, fs: seq<RegField>, f: RegField)
    requires fs != []
    ensures StoredFields(keys, regKey, fs)[f]
      == if f == fs[|fs| - 1] && FieldName(f) in keys then CleanValue(keys[FieldName(f)])
         else StoredFields(keys, regKey, fs[..|fs| - 1])[f]
  {
  }

  /** One property of the record `Get` builds: the cleaned value of its
      name when the key has one, its initial value otherwise. */
  lemma RecordValuesAt(keys: map<string, Option<string>>, regKey: string, f: RegField)
    ensures RecordValues(keys, regKey)[f]
            == if FieldName(f) in keys then CleanValue(keys[FieldName(f)]) else InitialValues(regKey)[f]
  {
    assert AllRegFields()[FieldIndex(f)] == f;
    StoredFieldsSpec(keys, regKey, AllRegFields(), f);
  }

  /** Each property of the record `Get` builds: the cleaned value of its
      name when the key has one, its initial value otherwise. */
  lemma RecordValuesSpec(keys: map<string, Option<string>>, regKey: string)
    ensures forall f :: RecordValues(keys, regKey)[f]
                        == if FieldName(f) in keys then CleanValue(keys[FieldName(f)]) else InitialValues(regKey)[f]
  {
    forall f: RegField
      ensures RecordValues(keys, regKey)[f]
              == if FieldName(f) in keys then CleanValue(keys[FieldName(f)]) else InitialValues(regKey)[f]
    {
      RecordValuesAt(keys, regKey, f);
    }
  }

  /** After the value names in `done` have been stored over `init`. */
  predicate StoredOver(v: RegValues, keys: map<string, Option<string>>, done: set<string>, init: RegValues)
    requires Complete(init)
  {
    Complete(v)
    && forall f :: v[f] == if FieldName(f) in done && FieldName(f) in keys then CleanValue(keys[FieldName(f)]) else init[f]
  }

  /** Storing one more value name: its property, if any, takes the cleaned value. */
  lemma StoreStep(v: RegValues, keys: map<string, Option<string>>, done: set<string>, init: RegValues,
                  key: string, property: Option<RegField>)
    requires Complete(init) && StoredOver(v, keys, done, init) && key in keys
    requires property.Some? ==> FieldName(property.value) == key
    requires property.None? ==> forall f :: FieldName(f) != key
    ensures StoredOver(if property.Some? then v[property.value := CleanValue(keys[key])] else v,
                       keys, done + {key}, init)
  {
    forall f | property.Some? && FieldName(f) == key
      ensures f == property.value
    {
      FieldNameInjective(f, property.value);
    }
  }

  /** Once every value name is stored, the record is the one `Get` promises. */
  lemma {:induction false} StoredAll(v: RegValues, keys: map<string, Option<string>>, regKey: string)
    requires StoredOver(v, keys, keys.Keys, InitialValues(regKey))
    ensures v == RecordValues(keys, regKey)
  {
    var r := RecordValues(keys, regKey);
    RecordValuesSpec(keys, regKey);
    StoredOverAll(v, r, keys, InitialValues(regKey));
    assert v == r;
  }

  /** A record with every value name of `keys` stored over `init` equals
      any complete record that holds, in each property, the cleaned value
      of its name or else its value in `init`. */
  lemma StoredOverAll(v: RegValues, r: RegValues, keys: map<string, Option<string>>, init: RegValues)
    requires Complete(init) && StoredOver(v, keys, keys.Keys, init) && Complete(r)
    requires forall f :: r[f] == if FieldName(f) in keys then CleanValue(keys[FieldName(f)]) else init[f]
    ensures v == r
  {
    CompleteValuesEqual(v, r);
  }

  /** Once every value name is stored, one property holds what `Get` promises. */
  lemma {:induction false} StoredAllAt(v: RegValues, keys: map<string, Option<string>>, regKey: string, f: RegField)
    requires StoredOver(v, keys, keys.Keys, InitialValues(regKey))
    ensures f in v && v[f] == RecordValues(keys, regKey)[f]
  {
    RecordValuesAt(keys, regKey, f);
  }


  /** One pass of `Get`'s loop: the value of `key`, made readable and
      unquoted, stored in the property of that name, if there is one. */
  method StoreValue(programInfo: ProgramRegInfo, keys: map<string, Option<string>>, key: string,
                    ghost done: set<string>, ghost init: RegValues)
    requires Complete(init) && key in keys
    requires StoredOver(programInfo.values, keys, done, init)
    modifies programInfo
    ensures StoredOver(programInfo.values, keys, done + {key}, init)
  {
    var value := keys[key];
    if value.Some? {
      var readable := GetReadable(value.value);
      value := Some(readable);
    }
    if !IsNullOrEmpty(value) && value.value[0] == '"' && value.value[|value.value| - 1] == '"' {
      value := Some(Trim(value.value, '"'));
    }
    assert value == CleanValue(keys[key]);
    var property := GetProperty(key);
    StoreStep(programInfo.values, keys, done, init, key, property);
    if property.Some? {
      programInfo.Set(property.value, value);
    }
  }

  /** The record `Get` starts from: `RegKey` and `Id` from the key path. */
  method NewRecord(regKey: string) returns (programInfo: ProgramRegInfo)
    ensures fresh(programInfo)
    ensures programInfo.values == InitialValues(regKey)
  {
    var id := regKey[LastIndexOf(regKey, '\\') + 1..];
    programInfo := new ProgramRegInfo();
    programInfo.Set(RegKey, Some(regKey));
    programInfo.Set(Id, Some(id));
  }

  /** `Get`: a new record filled from the values of one key, one value name at a time. */
  method Get(keys: map<string, Option<string>>, regKey: string) returns (programInfo: ProgramRegInfo)
    ensures fresh(programInfo) && programInfo.Valid()
    ensures programInfo.values == RecordValues(keys, regKey)
  {
    programInfo := NewRecord(regKey);
    StoreValues(programInfo, keys, InitialValues(regKey));
    StoredAll(programInfo.values, keys, regKey);
  }

  /** `Get`'s loop: every value of the key stored over the record, in the
      dictionary's order, which does not matter. */
  method StoreValues(programInfo: ProgramRegInfo, keys: map<string, Option<string>>, ghost init: RegValues)
    requires Complete(init) && programInfo.values == init
    modifies programInfo
    ensures StoredOver(programInfo.values, keys, keys.Keys, init)
  {
    var remaining := keys.Keys;
    ghost var done: set<string> := {};
    while remaining != {}
      invariant remaining + done == keys.Keys && remaining !! done
      invariant StoredOver(programInfo.values, keys, done, init)
      modifies programInfo
      decreases |remaining|
    {
      var key :| key in remaining;
      StoreValue(programInfo, keys, key, done, init);
      remaining := remaining - {key};
      done := done + {key};
    }
  }

  /** `Get` sets `Id` and `RegKey` from the key path unless a value of that name overrides it. */
  lemma GetIdAndRegKey(keys: map<string, Option<string>>, regKey: string)
    ensures "Id" !in keys ==> RecordValues(keys, regKey)[Id] == Some(KeyId(regKey))
    ensures "RegKey" !in keys ==> RecordValues(keys, regKey)[RegKey] == Some(regKey)
    ensures "Id" in keys ==> RecordValues(keys, regKey)[Id] == CleanValue(keys["Id"])
    ensures "RegKey" in keys ==> RecordValues(keys, regKey)[RegKey] == CleanValue(keys["RegKey"])
  {
    assert FieldName(Id) == "Id" && FieldName(RegKey) == "RegKey";
    RecordValuesAt(keys, regKey, Id);
    RecordValuesAt(keys, regKey, RegKey);
  }

  /** Every other property is empty unless a value of its name fills it. */
  lemma GetOtherFields(keys: map<string, Option<string>>, regKey: string, f: RegField)
    requires f != Id && f != RegKey
    ensures FieldName(f) in keys ==> RecordValues(keys, regKey)[f] == CleanValue(keys[FieldName(f)])
    ensures FieldName(f) !in keys ==> RecordValues(keys, regKey)[f] == Some("")
  {
    RecordValuesAt(keys, regKey, f);
  }

  /** A value whose name matches no property is ignored. */
  lemma GetIgnoresUnknownNames(keys: map<string, Option<string>>, regKey: string, name: string)
    requires forall f :: FieldName(f) != name
    ensures RecordValues(keys, regKey) == RecordValues(keys - {name}, regKey)
  {
    StoredFieldsIgnore(keys, regKey, AllRegFields(), name);
  }

  lemma {:induction false} StoredFieldsIgnore(keys: map<string, Option<string>>, regKey: string,
                                              fs: seq<RegField>, name: string)
    requires forall f :: FieldName(f) != name
    ensures StoredFields(keys, regKey, fs) == StoredFields(keys - {name}, regKey, fs)
  {
    if fs != [] {
      var f := fs[|fs| - 1];
      StoredFieldsIgnore(keys, regKey, fs[..|fs| - 1], name);
      assert FieldName(f) != name;
      assert (FieldName(f) in keys) == (FieldName(f) in keys - {name});
    }
  }

  // ---------------------------------------------------------------------
  // Reading a location and every location

  /** The values of the subkeys `names` of `locationPath`, in order; the
      first subkey whose values cannot be read aborts the read. */
  function SubkeyValues(reg: Registry, locationPath: string, names: seq<string>)
    : (r: Result<seq<map<string, Option<string>>>>)
    ensures r.Ok? ==> |r.value| == |names|
  {
    if names == [] then Ok([])
    else
      match SubkeyValues(reg, locationPath, names[..|names| - 1])
      case Err(e) => Err(e)
      case Ok(ms) =>
        match reg.ValueMap(locationPath + names[|names| - 1])
        case Err(e) => Err(e)
        case Ok(keys) => Ok(ms + [keys])
  }

  /** The records of the subkeys `names` of `locationPath`: one record built
      by `Get` per subkey, or the error of the read. */
  function RecordsFrom(reg: Registry, locationPath: string, names: seq<string>): (r: Result<seq<RegValues>>)
    ensures r.Ok? ==> |r.value| == |names| && AllComplete(r.value)
  {
    match SubkeyValues(reg, locationPath, names)
    case Err(e) => Err(e)
    case Ok(ms) => Ok(seq(|names|, i requires 0 <= i < |names| => RecordValues(ms[i], locationPath + names[i])))
  }

  /** The records `GetAllFromLocation` reads: one per subkey of the location's path. */
  function LocationRecords(reg: Registry, location: Location): Result<seq<RegValues>>
  {
    var path := LocationPath(location);
    RecordsFrom(reg, path, reg.SubKeyNames(path))
  }

  /** A read succeeds exactly when every subkey's values can be read. */
  lemma {:induction false} SubkeyValuesOk(reg: Registry, locationPath: string, names: seq<string>)
    ensures SubkeyValues(reg, locationPath, names).Ok?
      <==> forall i :: 0 <= i < |names| ==> reg.ValueMap(locationPath + names[i]).Ok?
  {
    if names != [] {
      var init := names[..|names| - 1];
      SubkeyValuesOk(reg, locationPath, init);
      assert forall i :: 0 <= i < |init| ==> init[i] == names[i];
    }
  }

  /** The values at position `i` of a successful read are those of subkey `i`. */
  lemma {:induction false} SubkeyValuesAt(reg: Registry, locationPath: string, names: seq<string>, i: nat)
    requires SubkeyValues(reg, locationPath, names).Ok? && i < |names|
    ensures reg.ValueMap(locationPath + names[i]) == Ok(SubkeyValues(reg, locationPath, names).value[i])
  {
    var init := names[..|names| - 1];
    if i < |names| - 1 {
      assert init[i] == names[i];
      SubkeyValuesAt(reg, locationPath, init, i);
    }
  }

  /** A location read succeeds exactly when every subkey's values can be read. */
  lemma RecordsFromOk(reg: Registry, locationPath: string, names: seq<string>)
    ensures RecordsFrom(reg, locationPath, names).Ok?
      <==> forall i :: 0 <= i < |names| ==> reg.ValueMap(locationPath + names[i]).Ok?
  {
    SubkeyValuesOk(reg, locationPath, names);
  }

  /** The record at position `i` of a successful read is the one `Get`
      builds from the values of subkey `i`. */
  lemma RecordsFromValues(reg: Registry, locationPath: string, names: seq<string>, i: nat)
    requires RecordsFrom(reg, locationPath, names).Ok? && i < |names|
    ensures reg.ValueMap(locationPath + names[i]).Ok?
    ensures RecordsFrom(reg, locationPath, names).value[i]
      == RecordValues(reg.ValueMap(locationPath + names[i]).value, locationPath + names[i])
  {
    SubkeyValuesAt(reg, locationPath, names, i);
  }

  /** A failed read fails with the error of the first subkey whose values
      cannot be read. */
  lemma {:induction false} SubkeyValuesErr(reg: Registry, locationPath: string, names: seq<string>)
    requires SubkeyValues(reg, locationPath, names).Err?
    ensures exists i :: 0 <= i < |names| && reg.ValueMap(locationPath + names[i]).Err?
                     && SubkeyValues(reg, locationPath, names).error == reg.ValueMap(locationPath + names[i]).error
                     && forall j :: 0 <= j < i ==> reg.ValueMap(locationPath + names[j]).Ok?
  {
    var init := names[..|names| - 1];
    if SubkeyValues(reg, locationPath, init).Err? {
      SubkeyValuesErr(reg, locationPath, init);
      var i :| 0 <= i < |init| && reg.ValueMap(locationPath + init[i]).Err?
        && SubkeyValues(reg, locationPath, init).error == reg.ValueMap(locationPath + init[i]).error
        && forall j :: 0 <= j < i ==> reg.ValueMap(locationPath + init[j]).Ok?;
      assert forall j :: 0 <= j <= i ==> init[j] == names[j];
    } else {
      SubkeyValuesOk(reg, locationPath, init);
      assert forall j :: 0 <= j < |init| ==> init[j] == names[j];
    }
  }

  /** Reading one more subkey whose values can be read appends its values. */
  lemma ReadStep(reg: Registry, locationPath: string, names: seq<string>, i: nat)
    requires i < |names| && SubkeyValues(reg, locationPath, names[..i]).Ok?
    requires reg.ValueMap(locationPath + names[i]).Ok?
    ensures SubkeyValues(reg, locationPath, names[..i + 1])
      == Ok(SubkeyValues(reg, locationPath, names[..i]).value + [reg.ValueMap(locationPath + names[i]).value])
  {
    assert names[..i + 1][..i] == names[..i];
  }

  /** Reading one more subkey whose values cannot be read fails with its error. */
  lemma ReadStepErr(reg: Registry, locationPath: string, names: seq<string>, i: nat)
    requires i < |names| && SubkeyValues(reg, locationPath, names[..i]).Ok?
    requires reg.ValueMap(locationPath + names[i]).Err?
    ensures SubkeyValues(reg, locationPath, names[..i + 1]) == Err(reg.ValueMap(locationPath + names[i]).error)
  {
    assert names[..i + 1][..i] == names[..i];
  }

  /** Once a prefix of the subkeys fails, the whole read fails the same way. */
  lemma {:induction false} ReadAbortsLater(reg: Registry, locationPath: string, names: seq<string>, i: nat)
    requires i <= |names| && SubkeyValues(reg, locationPath, names[..i]).Err?
    ensures SubkeyValues(reg, locationPath, names) == SubkeyValues(reg, locationPath, names[..i])
    decreases |names| - i
  {
    if i < |names| {
      assert names[..i + 1][..i] == names[..i];
      ReadAbortsLater(reg, locationPath, names, i + 1);
    } else {
      assert names[..i] == names;
    }
  }

  /** The records of the locations `ls`, location after location; the first
      failing location aborts the read. */
  function RecordsIn(reg: Registry, ls: seq<Location>): (r: Result<seq<RegValues>>)
    ensures r.Ok? ==> AllComplete(r.value)
  {
    if ls == [] then Ok([])
    else
      match RecordsIn(reg, ls[..|ls| - 1])
      case Err(e) => Err(e)
      case Ok(vs) =>
        match LocationRecords(reg, ls[|ls| - 1])
        case Err(e) => Err(e)
        case Ok(ws) => Ok(vs + ws)
  }

  /** The records that have a display name, in order: `Where(x => !string.IsNullOrEmpty(x.DisplayName))`. */
  function WithDisplayName(vs: seq<RegValues>): (r: seq<RegValues>)
    ensures forall v :: v in r ==> v in vs
    ensures AllComplete(vs) ==> AllComplete(r)
  {
    if vs == [] then []
    else WithDisplayName(vs[..|vs| - 1]) + if IsNullOrEmpty(Name(vs[|vs| - 1])) then [] else [vs[|vs| - 1]]
  }

  /** What `GetAll` returns: the records of every location in declaration
      order, those without a display name dropped, duplicates fused. */
  function Programs(reg: Registry): Result<seq<RegValues>>
  {
    match RecordsIn(reg, AllLocations())
    case Err(e) => Err(e)
    case Ok(vs) => Ok(FuseAll(WithDisplayName(vs)))
  }

  /** The records built from the first `i` subkeys, all of which could be read. */
  predicate ReadSoFar(reg: Registry, locationPath: string, names: seq<string>, i: nat, vs: seq<RegValues>)
    requires i <= |names|
  {
    SubkeyValues(reg, locationPath, names[..i]).Ok? && |vs| == i
    && forall k :: 0 <= k < i ==>
         vs[k] == RecordValues(SubkeyValues(reg, locationPath, names[..i]).value[k], locationPath + names[k])
  }

  /** A record built from one more readable subkey extends the read. */
  lemma ReadSoFarStep(reg: Registry, locationPath: string, names: seq<string>, i: nat, vs: seq<RegValues>)
    requires i < |names| && ReadSoFar(reg, locationPath, names, i, vs)
    requires reg.ValueMap(locationPath + names[i]).Ok?
    ensures ReadSoFar(reg, locationPath, names, i + 1,
                      vs + [RecordValues(reg.ValueMap(locationPath + names[i]).value, locationPath + names[i])])
  {
    ReadStep(reg, locationPath, names, i);
  }

  /** Once every subkey is read, the records are the location's records. */
  lemma ReadSoFarAll(reg: Registry, locationPath: string, names: seq<string>, vs: seq<RegValues>)
    requires ReadSoFar(reg, locationPath, names, |names|, vs)
    ensures RecordsFrom(reg, locationPath, names) == Ok(vs)
  {
    assert names[..|names|] == names;
    var ms := SubkeyValues(reg, locationPath, names).value;
    var r := RecordsFrom(reg, locationPath, names);
    assert r.Ok? && |r.value| == |vs|;
    forall k | 0 <= k < |names| ensures r.value[k] == vs[k] {
      assert vs[k] == RecordValues(ms[k], locationPath + names[k]);
    }
    assert r.value == vs;
  }

  /** `GetAllFromLocation`: one new record per subkey of the location's
      path, in the order the registry lists them. */
  method GetAllFromLocation(reg: Registry, location: Location) returns (r: Result<seq<ProgramRegInfo>>)
    ensures r.Ok? == LocationRecords(reg, location).Ok?
    ensures r.Err? ==> r.error == LocationRecords(reg, location).error
    ensures r.Ok? ==> Distinct(r.value) && Values(r.value) == LocationRecords(reg, location).value
    ensures r.Ok? ==> forall k :: 0 <= k < |r.value| ==> fresh(r.value[k])
  {
    var locationPath := LocationPath(location);
    var programInfos: seq<ProgramRegInfo> := [];
    var programs := reg.SubKeyNames(locationPath);
    for i := 0 to |programs|
      invariant ReadSoFar(reg, locationPath, programs, i, Values(programInfos))
      invariant Distinct(programInfos)
      invariant forall k :: 0 <= k < |programInfos| ==> fresh(programInfos[k])
    {
      var program := programs[i];
      var keys := reg.ValueMap(locationPath + program);
      if keys.Err? {
        ReadStepErr(reg, locationPath, programs, i);
        ReadAbortsLater(reg, locationPath, programs, i + 1);
        return Err(keys.error);
      }
      programInfos := AddRecord(reg, locationPath, programs, i, keys.value, programInfos);
    }
    ReadSoFarAll(reg, locationPath, programs, Values(programInfos));
    return Ok(programInfos);
  }

  /** One pass of `GetAllFromLocation`'s loop once the subkey's values are
      read: the record built from them is added to the list. */
  method AddRecord(reg: Registry, locationPath: string, programs: seq<string>, i: nat,
                   keys: map<string, Option<string>>, programInfos: seq<ProgramRegInfo>)
    returns (programInfos': seq<ProgramRegInfo>)
    requires i < |programs| && reg.ValueMap(locationPath + programs[i]) == Ok(keys)
    requires ReadSoFar(reg, locationPath, programs, i, Values(programInfos)) && Distinct(programInfos)
    ensures ReadSoFar(reg, locationPath, programs, i + 1, Values(programInfos')) && Distinct(programInfos')
    ensures forall k :: 0 <= k < |programInfos'| ==> programInfos'[k] in programInfos || fresh(programInfos'[k])
  {
    ReadSoFarStep(reg, locationPath, programs, i, Values(programInfos));
    var programInfo := Get(keys, locationPath + programs[i]);
    programInfos' := programInfos + [programInfo];
    assert Values(programInfos') == Values(programInfos) + [programInfo.values];
    forall k | 0 <= k < |programInfos'|
      ensures programInfos'[k] in programInfos || fresh(programInfos'[k])
    {
      if k < |programInfos| {
        assert programInfos'[k] == programInfos[k];
      }
    }
  }

  /** Reading one more location. */
  lemma RecordsInStep(reg: Registry, ls: seq<Location>, i: nat)
    requires i < |ls|
    ensures RecordsIn(reg, ls[..i + 1])
      == match RecordsIn(reg, ls[..i])
         case Err(e) => Err(e)
         case Ok(vs) =>
           match LocationRecords(reg, ls[i])
           case Err(e) => Err(e)
           case Ok(ws) => Ok(vs + ws)
  {
    assert ls[..i + 1][..i] == ls[..i];
  }

  /** A successful read of one more location is the read before it followed
      by that location's records. */
  lemma RecordsInStepOk(reg: Registry, ls: seq<Location>, i: nat)
    requires i < |ls| && RecordsIn(reg, ls[..i + 1]).Ok?
    ensures RecordsIn(reg, ls[..i]).Ok? && LocationRecords(reg, ls[i]).Ok?
    ensures RecordsIn(reg, ls[..i + 1]).value == RecordsIn(reg, ls[..i]).value + LocationRecords(reg, ls[i]).value
  {
    RecordsInStep(reg, ls, i);
  }

  /** Once a prefix of the locations fails, the whole read fails the same way. */
  lemma {:induction false} RecordsInAbortsLater(reg: Registry, ls: seq<Location>, i: nat)
    requires i <= |ls| && RecordsIn(reg, ls[..i]).Err?
    ensures RecordsIn(reg, ls) == RecordsIn(reg, ls[..i])
    decreases |ls| - i
  {
    if i < |ls| {
      RecordsInStep(reg, ls, i);
      RecordsInAbortsLater(reg, ls, i + 1);
    } else {
      assert ls[..i] == ls;
    }
  }

  /** `GetAll`'s first loop: the records of the locations `locations`,
      location after location. */
  method ReadLocations(reg: Registry, locations: seq<Location>) returns (r: Result<seq<ProgramRegInfo>>)
    ensures r.Ok? == RecordsIn(reg, locations).Ok?
    ensures r.Err? ==> r.error == RecordsIn(reg, locations).error
    ensures r.Ok? ==> Distinct(r.value) && Values(r.value) == RecordsIn(reg, locations).value
    ensures r.Ok? ==> forall k :: 0 <= k < |r.value| ==> fresh(r.value[k])
  {
    var programRegInfosAll: seq<ProgramRegInfo> := [];
    for i := 0 to |locations|
      invariant RecordsIn(reg, locations[..i]).Ok?
      invariant Values(programRegInfosAll) == RecordsIn(reg, locations[..i]).value
      invariant Distinct(programRegInfosAll)
      invariant forall k :: 0 <= k < |programRegInfosAll| ==> fresh(programRegInfosAll[k])
    {
      var next := ReadLocation(reg, locations, i, programRegInfosAll);
      if next.Err? {
        return next;
      }
      programRegInfosAll := next.value;
    }
    assert locations[..|locations|] == locations;
    return Ok(programRegInfosAll);
  }

  /** One pass of `GetAll`'s first loop: the records of the `i`th location
      are added to those of the locations before it, or its error ends the
      read. */
  method ReadLocation(reg: Registry, locations: seq<Location>, i: nat, all: seq<ProgramRegInfo>)
    returns (r: Result<seq<ProgramRegInfo>>)
    requires i < |locations| && RecordsIn(reg, locations[..i]).Ok?
    requires Values(all) == RecordsIn(reg, locations[..i]).value && Distinct(all)
    ensures r.Err? ==> RecordsIn(reg, locations) == Err(r.error)
    ensures r.Ok? ==> RecordsIn(reg, locations[..i + 1]).Ok?
    ensures r.Ok? ==> Values(r.value) == RecordsIn(reg, locations[..i + 1]).value && Distinct(r.value)
    ensures r.Ok? ==> forall k :: 0 <= k < |r.value| ==> r.value[k] in all || fresh(r.value[k])
  {
    RecordsInStep(reg, locations, i);
    var programInfosLocation := GetAllFromLocation(reg, locations[i]);
    if programInfosLocation.Err? {
      RecordsInAbortsLater(reg, locations, i + 1);
      return Err(programInfosLocation.error);
    }
    var added := programInfosLocation.value;
    var combined := Append(all, added);
    forall k | 0 <= k < |combined|
      ensures combined[k] in all || fresh(combined[k])
    {
      if k >= |all| {
        assert combined[k] == added[k - |all|];
      }
    }
    return Ok(combined);
  }

  /** `AddRange` of new records to a list of older ones. */
  method Append(all: seq<ProgramRegInfo>, added: seq<ProgramRegInfo>) returns (r: seq<ProgramRegInfo>)
    requires Distinct(all) && Distinct(added)
    requires forall j, k :: 0 <= j < |all| && 0 <= k < |added| ==> all[j] != added[k]
    ensures r == all + added && Distinct(r)
    ensures Values(r) == Values(all) + Values(added)
  {
    r := all + added;
    assert forall k :: 0 <= k < |added| ==> r[|all| + k] == added[k];
  }

  /** Looking at one more record. */
  lemma WithDisplayNameStep(vs: seq<RegValues>, i: nat)
    requires i < |vs|
    ensures WithDisplayName(vs[..i + 1])
      == WithDisplayName(vs[..i]) + if IsNullOrEmpty(Name(vs[i])) then [] else [vs[i]]
  {
    assert vs[..i + 1][..i] == vs[..i];
  }

  /** The records kept are those with a display name, and no other. */
  lemma {:induction false} WithDisplayNameSpec(vs: seq<RegValues>, v: RegValues)
    ensures v in WithDisplayName(vs) <==> v in vs && !IsNullOrEmpty(Name(v))
  {
    if vs != [] {
      var init := vs[..|vs| - 1];
      WithDisplayNameSpec(init, v);
      assert vs == init + [vs[|vs| - 1]];
    }
  }

  /** The records kept from a prefix are also in every longer prefix. */
  lemma KeptPrefixGrows(kept: seq<ProgramRegInfo>, list: seq<ProgramRegInfo>, i: nat)
    requires i < |list|
    requires forall k :: 0 <= k < |kept| ==> kept[k] in list[..i]
    ensures forall k :: 0 <= k < |kept| ==> kept[k] in list[..i + 1]
  {
    assert list[..i + 1] == list[..i] + [list[i]];
  }

  /** Keeping the next record of a list without repeats keeps the kept
      records free of repeats. */
  lemma KeepOneMore(kept: seq<ProgramRegInfo>, list: seq<ProgramRegInfo>, i: nat)
    requires i < |list| && Distinct(list)
    requires Distinct(kept) && forall k :: 0 <= k < |kept| ==> kept[k] in list[..i]
    ensures Distinct(kept + [list[i]])
    ensures forall k :: 0 <= k < |kept| + 1 ==> (kept + [list[i]])[k] in list[..i + 1]
  {
    assert list[..i + 1] == list[..i] + [list[i]];
    assert list[i] !in list[..i];
  }

  lemma ValuesAppend(objs: seq<ProgramRegInfo>, o: ProgramRegInfo)
    ensures Values(objs + [o]) == Values(objs) + [o.values]
  {
    var l, r := Values(objs + [o]), Values(objs) + [o.values];
    assert forall k :: 0 <= k < |l| ==> l[k] == r[k];
  }

  /** The filter of `GetAll`: the records whose display name is neither
      null nor empty, in order. */
  method KeepWithDisplayName(list: seq<ProgramRegInfo>) returns (kept: seq<ProgramRegInfo>)
    requires Distinct(list)
    ensures Values(kept) == WithDisplayName(Values(list))
    ensures Distinct(kept) && forall k :: 0 <= k < |kept| ==> kept[k] in list
  {
    ghost var V := Values(list);
    kept := [];
    for i := 0 to |list|
      invariant Values(kept) == WithDisplayName(V[..i])
      invariant Distinct(kept) && forall k :: 0 <= k < |kept| ==> kept[k] in list[..i]
    {
      WithDisplayNameStep(V, i);
      KeptPrefixGrows(kept, list, i);
      if !IsNullOrEmpty(Name(list[i].values)) {
        KeepOneMore(kept, list, i);
        ValuesAppend(kept, list[i]);
        kept := kept + [list[i]];
      }
    }
    assert V[..|list|] == V;
    assert list[..|list|] == list;
  }

  /** `GetAll`: the records of every location in declaration order, those
      without a display name dropped, duplicates fused into the first record
      of each display name. A registry error escapes. */
  method GetAll(reg: Registry) returns (r: Result<seq<ProgramRegInfo>>)
    ensures r.Ok? == Programs(reg).Ok?
    ensures r.Err? ==> r.error == Programs(reg).error
    ensures r.Ok? ==> Values(r.value) == Programs(reg).value && Distinct(r.value)
    ensures r.Ok? ==> forall k :: 0 <= k < |r.value| ==> fresh(r.value[k])
  {
    var programRegInfosAll := ReadLocations(reg, AllLocations());
    if programRegInfosAll.Err? {
      return Err(programRegInfosAll.error);
    }
    var programRegInfosWName := KeepWithDisplayName(programRegInfosAll.value);
    var programRegInfosNoDuplicates := FuseAllDuplicates(programRegInfosWName);
    return Ok(programRegInfosNoDuplicates);
  }

  /** The programs `GetAll` lists have pairwise different display names, and
      these are exactly the non-empty display names found in any location. */
  lemma ProgramsNames(reg: Registry)
    requires Programs(reg).Ok?
    ensures DistinctNames(Programs(reg).value)
    ensures forall n :: (n in NameSet(Programs(reg).value)
                         <==> !IsNullOrEmpty(n) && n in NameSet(RecordsIn(reg, AllLocations()).value))
  {
    var vs := RecordsIn(reg, AllLocations()).value;
    var named := WithDisplayName(vs);
    FuseAllDistinct(named);
    FuseAllNameSet(named);
    forall n ensures n in NameSet(named) <==> !IsNullOrEmpty(n) && n in NameSet(vs) {
      if n in NameSet(named) {
        var k :| 0 <= k < |named| && Name(named[k]) == n;
        WithDisplayNameSpec(vs, named[k]);
        var j :| 0 <= j < |vs| && vs[j] == named[k];
      }
      if !IsNullOrEmpty(n) && n in NameSet(vs) {
        var j :| 0 <= j < |vs| && Name(vs[j]) == n;
        WithDisplayNameSpec(vs, vs[j]);
        var k :| 0 <= k < |named| && named[k] == vs[j];
      }
    }
  }
  // ---------------------------------------------------------------------
  // Location precedence

  /** A successful read of some locations starts with the read of any
      prefix of them. */
  lemma {:induction false} RecordsInPrefix(reg: Registry, ls: seq<Location>, m: nat)
    requires m <= |ls| && RecordsIn(reg, ls).Ok?
    ensures RecordsIn(reg, ls[..m]).Ok?
    ensures |RecordsIn(reg, ls[..m]).value| <= |RecordsIn(reg, ls).value|
    ensures RecordsIn(reg, ls).value
            == RecordsIn(reg, ls[..m]).value + RecordsIn(reg, ls).value[|RecordsIn(reg, ls[..m]).value|..]
    decreases |ls|
  {
    if m == |ls| {
      assert ls[..m] == ls;
    } else {
      var init := ls[..|ls| - 1];
      RecordsInPrefix(reg, init, m);
      assert init[..m] == ls[..m];
    }
  }

  /** Dropping the records without a display name can be done list by list. */
  lemma {:induction false} WithDisplayNameAppend(a: seq<RegValues>, b: seq<RegValues>)
    ensures WithDisplayName(a + b) == WithDisplayName(a) + WithDisplayName(b)
  {
    if b == [] {
      assert a + b == a;
    } else {
      var init := b[..|b| - 1];
      assert (a + b)[..|a + b| - 1] == a + init;
      WithDisplayNameAppend(a, init);
    }
  }

  /** Dropping the records without a display name leaves the group of a
      non-empty display name as it is. */
  lemma {:induction false} GroupWithDisplayName(vs: seq<RegValues>, n: Option<string>)
    requires !IsNullOrEmpty(n)
    ensures Group(WithDisplayName(vs), n) == Group(vs, n)
  {
    if vs != [] {
      var init := vs[..|vs| - 1];
      var last := vs[|vs| - 1];
      GroupWithDisplayName(init, n);
      GroupAppend(WithDisplayName(init), if IsNullOrEmpty(Name(last)) then [] else [last], n);
      assert Group([], n) == [];
      assert Group([last], n) == if Name(last) == n then [last] else [] by {
        assert [last][..0] == [];
      }
    }
  }

  /** A list of complete records is its prefix and the rest, both complete. */
  lemma SplitComplete(all: seq<RegValues>, m: nat)
    requires AllComplete(all) && m <= |all|
    ensures all == all[..m] + all[m..]
    ensures AllComplete(all[..m]) && AllComplete(all[m..])
  {
    assert forall t :: 0 <= t < |all[m..]| ==> all[m..][t] == all[m + t];
  }

  /** Fusing the named records of a list whose prefix `early` holds a
      record of name `n` setting `f`: the fused program of name `n` holds in
      `f` what fusing `early` alone gives. */
  lemma PrefixWins(all: seq<RegValues>, early: seq<RegValues>, k: nat, f: RegField, j: nat)
    requires AllComplete(all) && |early| <= |all| && early == all[..|early|]
    requires k < |early| && !IsNullOrEmpty(Name(early[k])) && !IsNullOrEmpty(early[k][f])
    requires j < |FuseAll(WithDisplayName(all))|
    requires Name(FuseAll(WithDisplayName(all))[j]) == Name(early[k])
    ensures var n := Name(early[k]);
            Group(early, n) != [] && AllComplete(Group(early, n))
            && FuseAll(WithDisplayName(all))[j][f] == FuseGroup(Group(early, n))[f]
  {
    var n := Name(early[k]);
    var rest := all[|early|..];
    SplitComplete(all, |early|);
    EarlierRecordsWin(early, rest, n, f, k);
    var named := WithDisplayName(all);
    FuseAllGroups(named, j);
    GroupWithDisplayName(all, n);
    assert Group(named, n) == Group(early + rest, n);
  }

  /** The records of location `i` follow those of the locations before it
      in the read of the first `i + 1` locations: the `k`th of them is the
      `t`th record of that read. */
  lemma LocationRecordsIn(reg: Registry, ls: seq<Location>, i: nat, k: nat) returns (t: nat)
    requires i < |ls| && RecordsIn(reg, ls).Ok?
    requires LocationRecords(reg, ls[i]).Ok? && k < |LocationRecords(reg, ls[i]).value|
    ensures RecordsIn(reg, ls[..i + 1]).Ok?
    ensures t < |RecordsIn(reg, ls[..i + 1]).value|
    ensures RecordsIn(reg, ls[..i + 1]).value[t] == LocationRecords(reg, ls[i]).value[k]
    ensures |RecordsIn(reg, ls[..i + 1]).value| <= |RecordsIn(reg, ls).value|
    ensures RecordsIn(reg, ls[..i + 1]).value == RecordsIn(reg, ls).value[..|RecordsIn(reg, ls[..i + 1]).value|]
  {
    RecordsInPrefix(reg, ls, i + 1);
    RecordsInStepOk(reg, ls, i);
    t := ConcatParts(RecordsIn(reg, ls).value, RecordsIn(reg, ls[..i + 1]).value,
                     RecordsIn(reg, ls[..i]).value, LocationRecords(reg, ls[i]).value, k);
  }

  /** In `ab == a + b`, the `k`th element of `b` is at position `|a| + k`;
      and `ab` is the start of any `s` made of `ab` and a rest. */
  lemma ConcatParts<T>(s: seq<T>, ab: seq<T>, a: seq<T>, b: seq<T>, k: nat) returns (t: nat)
    requires ab == a + b && k < |b|
    requires |ab| <= |s| && s == ab + s[|ab|..]
    ensures t < |ab| && ab[t] == b[k]
    ensures ab == s[..|ab|]
  {
    t := |a| + k;
    assert (ab + s[|ab|..])[..|ab|] == ab;
  }

  /** Locations scanned earlier win: when a record read from the `i`th
      location (LM64, LM32, CU64, CU32 in that order) has display name `n`
      and sets property `f`, the program `GetAll` lists under `n` holds in
      `f` what fusing the records of the first `i + 1` locations alone
      gives; no record of a later location changes it. */
  lemma LocationPrecedence(reg: Registry, i: nat, k: nat, f: RegField, j: nat)
    requires Programs(reg).Ok? && i < |AllLocations()|
    requires LocationRecords(reg, AllLocations()[i]).Ok?
    requires k < |LocationRecords(reg, AllLocations()[i]).value|
    requires !IsNullOrEmpty(Name(LocationRecords(reg, AllLocations()[i]).value[k]))
    requires !IsNullOrEmpty(LocationRecords(reg, AllLocations()[i]).value[k][f])
    requires j < |Programs(reg).value|
    requires Name(Programs(reg).value[j]) == Name(LocationRecords(reg, AllLocations()[i]).value[k])
    ensures RecordsIn(reg, AllLocations()[..i + 1]).Ok?
    ensures var early := RecordsIn(reg, AllLocations()[..i + 1]).value;
            var n := Name(Programs(reg).value[j]);
            Group(early, n) != [] && AllComplete(Group(early, n))
            && Programs(reg).value[j][f] == FuseGroup(Group(early, n))[f]
  {
    var ls := AllLocations();
    var w := LocationRecords(reg, ls[i]).value;
    var t := LocationRecordsIn(reg, ls, i, k);
    var early := RecordsIn(reg, ls[..i + 1]).value;
    PrefixWins(RecordsIn(reg, ls).value, early, t, f, j);
  }
}
