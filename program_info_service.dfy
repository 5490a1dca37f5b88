/** The operations on a presentation record: the update from another
    record, and the commands that uninstall or modify the program or open
    its registry key. */
module ProgramInfoService {
  import opened Wrappers
  import opened Text
  import opened ProgramInfoData

  const CMD_FILE_NAME: string := "cmd.exe"
  const RUN_AS_ADMIN_VERB: string := "runas"

  // ---------------------------------------------------------------------
  // The update from another record

  /** The values after copying, property by property in the order `ps`,
      every non-null value of `source` into `target`. */
  function CopyOver(target: Properties, source: Properties, ps: seq<Prop>): Properties
  {
    if ps == [] then target
    else
      var v := CopyOver(target, source, ps[..|ps| - 1]);
      var p := ps[|ps| - 1];
      if IsNull(Get(source, p)) then v else With(v, p, Get(source, p))
  }

  /** The properties whose setter raises a notification during that copy:
      those whose non-null source value differs from the value before. */
  function Raised(target: Properties, source: Properties, ps: seq<Prop>): seq<Prop>
  {
    if ps == [] then []
    else
      var before := CopyOver(target, source, ps[..|ps| - 1]);
      var p := ps[|ps| - 1];
      Raised(target, source, ps[..|ps| - 1])
      + (if !IsNull(Get(source, p)) && Get(before, p) != Get(source, p) then [p] else [])
  }

  /** The values of `target` after `UpdateFromDifferent(target, source)`. */
  function Updated(target: Properties, source: Properties): Properties
  {
    CopyOver(target, source, AllProps())
  }

  /** Each property ends with the source's value if it was copied and is
      not null, and keeps the target's otherwise. */
  lemma {:induction false} CopyOverSpec(target: Properties, source: Properties, ps: seq<Prop>, p: Prop)
    ensures Get(CopyOver(target, source, ps), p)
            == if p in ps && !IsNull(Get(source, p)) then Get(source, p) else Get(target, p)
  {
    if ps != [] {
      var init := ps[..|ps| - 1];
      var q := ps[|ps| - 1];
      CopyOverSpec(target, source, init, p);
      if !IsNull(Get(source, q)) {
        GetWith(CopyOver(target, source, init), q, Get(source, q), p);
      }
      assert p in ps <==> p in init || p == q;
    }
  }

  /** After the update, every property whose source value is not null
      holds that value, the icon included; the others keep their value.
      A `bool` or `long` property is never null, so it is always copied. */
  lemma UpdatedSpec(target: Properties, source: Properties, p: Prop)
    ensures !IsNull(Get(source, p)) ==> Get(Updated(target, source), p) == Get(source, p)
    ensures IsNull(Get(source, p)) ==> Get(Updated(target, source), p) == Get(target, p)
    ensures KindOf(p) == FlagKind || KindOf(p) == NumberKind ==> Get(Updated(target, source), p) == Get(source, p)
  {
    CopyOverSpec(target, source, AllProps(), p);
    assert AllProps()[PropIndex(p)] == p;
  }

  /** A source without a null property is copied whole. */
  lemma UpdateFromComplete(target: Properties, source: Properties)
    requires forall p :: !IsNull(Get(source, p))
    ensures Updated(target, source) == source
  {
    forall p ensures Get(Updated(target, source), p) == Get(source, p) {
      UpdatedSpec(target, source, p);
    }
    PropertiesExtensional(Updated(target, source), source);
  }

  /** A target without a null property keeps none, whatever the source. */
  lemma UpdateKeepsNonNull(target: Properties, source: Properties)
    requires forall p :: !IsNull(Get(target, p))
    ensures forall p :: !IsNull(Get(Updated(target, source), p))
  {
    forall p ensures !IsNull(Get(Updated(target, source), p)) {
      UpdatedSpec(target, source, p);
    }
  }

  /** Updating twice from the same source is updating once, and a record
      updated from its own values is unchanged. */
  lemma UpdatedIdempotent(target: Properties, source: Properties)
    ensures Updated(Updated(target, source), source) == Updated(target, source)
    ensures Updated(target, target) == target
  {
    var once := Updated(target, source);
    forall p ensures Get(Updated(once, source), p) == Get(once, p) && Get(Updated(target, target), p) == Get(target, p) {
      UpdatedSpec(target, source, p);
      UpdatedSpec(once, source, p);
      UpdatedSpec(target, target, p);
    }
    PropertiesExtensional(Updated(once, source), once);
    PropertiesExtensional(Updated(target, target), target);
  }

  /** Copying properties other than `p` leaves `p` as it was. */
  lemma {:induction false} CopyOverElsewhere(target: Properties, source: Properties, ps: seq<Prop>, p: Prop)
    requires p !in ps
    ensures Get(CopyOver(target, source, ps), p) == Get(target, p)
  {
    CopyOverSpec(target, source, ps, p);
  }

  /** Over distinct properties, a property is notified exactly when it is
      copied, its source value is not null, and that value differs from the
      target's. */
  lemma {:induction false} RaisedSpec(target: Properties, source: Properties, ps: seq<Prop>, p: Prop)
    requires forall i, j :: 0 <= i < j < |ps| ==> ps[i] != ps[j]
    ensures p in Raised(target, source, ps) <==> p in ps && !IsNull(Get(source, p)) && Get(target, p) != Get(source, p)
  {
    if ps != [] {
      var init := ps[..|ps| - 1];
      var q := ps[|ps| - 1];
      RaisedSpec(target, source, init, p);
      assert q !in init by {
        forall k | 0 <= k < |init| ensures init[k] != q {
          assert init[k] == ps[k];
        }
      }
      CopyOverElsewhere(target, source, init, q);
      assert p in ps <==> p in init || p == q;
    }
  }

  /** The update raises one notification per property it changes, in
      declaration order, and none for a value the target already holds. */
  lemma UpdateNotifications(target: Properties, source: Properties, p: Prop)
    ensures p in Raised(target, source, AllProps()) <==> Get(Updated(target, source), p) != Get(target, p)
    ensures Raised(target, target, AllProps()) == []
  {
    AllPropsDistinct();
    RaisedSpec(target, source, AllProps(), p);
    UpdatedSpec(target, source, p);
    assert AllProps()[PropIndex(p)] == p;
    if Raised(target, target, AllProps()) != [] {
      var q := Raised(target, target, AllProps())[0];
      RaisedSpec(target, target, AllProps(), q);
    }
  }

  /** `UpdateFromDifferent`: for every property in declaration order, a
      non-null source value is assigned through the target's setter. The
      source may be the target itself. */
  method UpdateFromDifferent(target: ProgramInfo, source: ProgramInfo)
    modifies target
    ensures target.values == Updated(old(target.values), old(source.values))
    ensures target.notifications
            == old(target.notifications) + Raised(old(target.values), old(source.values), AllProps())
  {
    UpdateOver(target, source, AllProps());
  }

  /** The loop of `UpdateFromDifferent` over the properties `ps`. */
  method UpdateOver(target: ProgramInfo, source: ProgramInfo, ps: seq<Prop>)
    modifies target
    ensures target.values == CopyOver(old(target.values), old(source.values), ps)
    ensures target.notifications
            == old(target.notifications) + Raised(old(target.values), old(source.values), ps)
  {
    ghost var t := target.values;
    ghost var s := source.values;
    ghost var log := target.notifications;
    for i := 0 to |ps|
      invariant source.values == s
      invariant target.values == CopyOver(t, s, ps[..i])
      invariant target.notifications == log + Raised(t, s, ps[..i])
    {
      assert ps[..i + 1][..i] == ps[..i];
      var property := ps[i];
      var updateValue := Get(source.values, property);
      if !IsNull(updateValue) {
        target.Set(property, updateValue);
      }
      if source == target {
        UpdatedSelf(t, ps[..i + 1]);
      }
    }
    assert ps[..|ps|] == ps;
  }

  /** Copying a record's values onto themselves changes nothing. */
  lemma {:induction false} UpdatedSelf(t: Properties, ps: seq<Prop>)
    ensures CopyOver(t, t, ps) == t
  {
    if ps != [] {
      UpdatedSelf(t, ps[..|ps| - 1]);
      WithGet(t, ps[|ps| - 1]);
    }
  }

  // ---------------------------------------------------------------------
  // Commands

  /** A process start request: `cmd.exe` with the arguments, through the
      shell, without a window, elevated. Null arguments read back as the
      empty string, so the request holds a plain string. */
  datatype StartInfo = StartInfo(
    fileName: string,
    arguments: string,
    useShellExecute: bool,
    createNoWindow: bool,
    verb: string)

  /** The operating system: the start requests whose start, or the wait for
      whose exit, throws. */
  datatype Shell = Shell(failing: set<StartInfo>)

  function StartInfoFor(processName: string, arguments: Option<string>): StartInfo
  {
    StartInfo(processName, if arguments.Some? then arguments.value else "", true, true, RUN_AS_ADMIN_VERB)
  }

  /** `RunProcess`: true once the process has started and exited, false
      when either throws. */
  function RunProcess(shell: Shell, processName: string, arguments: Option<string>): (ok: bool)
    ensures ok <==> StartInfoFor(processName, arguments) !in shell.failing
  {
    StartInfoFor(processName, arguments) !in shell.failing
  }

  /** Null arguments and empty arguments start the same process. */
  lemma RunProcessNullArguments(shell: Shell, processName: string)
    ensures RunProcess(shell, processName, None) == RunProcess(shell, processName, Some(""))
  {
  }

  /** The arguments of `Modify`: the modify path, followed by a space and
      the additional arguments when these are not empty; a null path
      concatenates as empty. */
  function ModifyArguments(v: Properties, additional: Option<string>): Option<string>
  {
    var path := v.modifyPath;
    if IsNullOrEmpty(additional) then path
    else Some((if path.Some? then path.value else "") + " " + additional.value)
  }

  lemma ModifyArgumentsSpec(v: Properties, additional: Option<string>)
    ensures IsNullOrEmpty(additional) ==> ModifyArguments(v, additional) == v.modifyPath
    ensures !IsNullOrEmpty(additional) && v.modifyPath.Some? ==>
      ModifyArguments(v, additional) == Some(v.modifyPath.value + " " + additional.value)
    ensures !IsNullOrEmpty(additional) && v.modifyPath.None? ==>
      ModifyArguments(v, additional) == Some(" " + additional.value)
  {
    assert "" + " " == " ";
  }

  /** `Uninstall`: runs `cmd.exe` with the chosen uninstall string. */
  method Uninstall(record: ProgramInfo, shell: Shell, quiet: bool) returns (ok: bool)
    ensures quiet ==> ok == RunProcess(shell, CMD_FILE_NAME, record.values.quietUninstallString)
    ensures !quiet ==> ok == RunProcess(shell, CMD_FILE_NAME, record.values.uninstallString)
  {
    var arguments := record.values.uninstallString;
    if quiet {
      arguments := record.values.quietUninstallString;
    }
    ok := RunProcess(shell, CMD_FILE_NAME, arguments);
  }

  /** `Modify`: runs `cmd.exe` with the modify path and the additional arguments. */
  method Modify(record: ProgramInfo, shell: Shell, additional: Option<string>) returns (ok: bool)
    ensures ok == RunProcess(shell, CMD_FILE_NAME, ModifyArguments(record.values, additional))
  {
    var arguments := record.values.modifyPath;
    if !IsNullOrEmpty(additional) {
      arguments := Some((if arguments.Some? then arguments.value else "") + " " + additional.value);
    }
    ok := RunProcess(shell, CMD_FILE_NAME, arguments);
  }

  /** The registry-jump tool: the keys it has been asked to open, and
      whether opening a key succeeds. */
  class RegJump {
    var requests: seq<string>
    const opens: string -> bool

    constructor (opens: string -> bool)
      ensures requests == [] && this.opens == opens
    {
      requests := [];
      this.opens := opens;
    }

    /** `OpenAt(key)`: one more request. */
    method OpenAt(key: string) returns (ok: bool)
      modifies this
      ensures requests == old(requests) + [key]
      ensures ok == opens(key)
    {
      requests := requests + [key];
      ok := opens(key);
    }
  }

  /** `OpenRegistry`: false, without asking the tool, when the record has
      no registry key; otherwise the tool's answer for that key. */
  method OpenRegistry(record: ProgramInfo, jump: RegJump) returns (ok: bool)
    modifies jump
    ensures IsNullOrEmpty(record.values.regKey) ==> !ok && jump.requests == old(jump.requests)
    ensures !IsNullOrEmpty(record.values.regKey) ==>
      ok == jump.opens(record.values.regKey.value)
      && jump.requests == old(jump.requests) + [record.values.regKey.value]
  {
    var key := record.values.regKey;
    if IsNullOrEmpty(key) {
      return false;
    }
    ok := jump.OpenAt(key.value);
  }
}
