/** The four registry locations scanned for installed programs. */
module ProgramInfoLocation {

  /** The enumeration, in declaration order. */
  datatype Location =
    | LocalMachineUninstallLocation64
    | LocalMachineUninstallLocation32
    | CurrentUserUninstallLocation64
    | CurrentUserUninstallLocation32

  /** The position of a location in the declaration. */
  function Ordinal(l: Location): (n: nat)
    ensures n < 4
  {
    match l
    case LocalMachineUninstallLocation64 => 0
    case LocalMachineUninstallLocation32 => 1
    case CurrentUserUninstallLocation64 => 2
    case CurrentUserUninstallLocation32 => 3
  }

  /** `Enum.GetValues(typeof(ProgramInfoLocation))`: every location once, in declaration order. */
  function AllLocations(): (ls: seq<Location>)
    ensures |ls| == 4
    ensures forall l :: ls[Ordinal(l)] == l
    ensures forall i, j :: 0 <= i < j < |ls| ==> Ordinal(ls[i]) < Ordinal(ls[j])
  {
    [LocalMachineUninstallLocation64, LocalMachineUninstallLocation32,
     CurrentUserUninstallLocation64, CurrentUserUninstallLocation32]
  }
}
