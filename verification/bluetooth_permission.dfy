/** Model of the Bluetooth permission negotiator `askBluetoothPermissions`.

    The negotiator reads the platform name and OS version from its environment and awaits
    one OS permission dialog after another. Here the platform and the version are parameters
    and the OS is an oracle: a sequence of answers, the i-th of which is what the i-th
    permission request settles to. The model returns how the call settles together with the
    permissions it asked for, in order, so that order and fail-fast can be stated.
 */
module BluetoothPermission {

  /** The permissions the negotiator may ask the OS for. */
  datatype Permission =
    | IosBluetoothPeripheral
    | AndroidBluetoothScan
    | AndroidBluetoothConnect
    | AndroidBluetoothAdvertise

  /** The status a permission request can resolve with. The negotiator compares a status
      only with Granted and Unavailable; every other value goes the way Denied goes. */
  datatype PermissionStatus = Granted | Denied | Blocked | Limited | Unavailable

  /** The OS's answer to one request: the request's promise resolves with a status, or it
      rejects (the permission API itself failed). */
  datatype Answer = Resolved(status: PermissionStatus) | Rejected

  /** The `type` tag of the object the negotiator returns. */
  datatype OutcomeType = EnableBluetooth | BluetoothPermission

  /** The `{type, value}` object the negotiator returns. */
  datatype Outcome = Outcome(kind: OutcomeType, value: bool)

  /** How the promise of one call settles. */
  datatype Settlement =
    | Returned(outcome: Outcome)  // resolves with an outcome
    | Threw                       // rejects: a request rejected and nothing catches it
    | Pending                     // still awaiting the answer to the last request it made

  /** One call: how it settles, and the permissions it requested, in the order asked. */
  datatype Negotiation = Negotiation(settlement: Settlement, requested: seq<Permission>)

  /** The platform name that selects the iOS branch; every other name takes the Android one. */
  const IOS: string := "ios"

  /** The Android version from which Bluetooth permissions are asked for at run time. */
  const RUNTIME_PERMISSION_VERSION: int := 30

  /** The Android runtime permissions, in the order they are requested. */
  const AndroidBluetoothPermissions: seq<Permission> :=
    [AndroidBluetoothScan, AndroidBluetoothConnect, AndroidBluetoothAdvertise]

  /** `{type: 'bluetoothPermission', value: true}`: the caller may go on. */
  const Allowed: Outcome := Outcome(BluetoothPermission, true)

  /** `{type: 'bluetoothPermission', value: false}`: a permission was refused. */
  const Refused: Outcome := Outcome(BluetoothPermission, false)

  /** `{type: 'enableBluetooth', value: false}`: Bluetooth itself is off. */
  const BluetoothOff: Outcome := Outcome(EnableBluetooth, false)

  /** The only answer that lets a request chain go on. */
  predicate IsGranted(a: Answer) {
    a == Resolved(Granted)
  }

  /** The permissions a call on this platform and version may ask for, in order. */
  function PermissionsToRequest(os: string, version: int): seq<Permission> {
    if os == IOS then [IosBluetoothPeripheral]
    else if version >= RUNTIME_PERMISSION_VERSION then AndroidBluetoothPermissions
    else []
  }

  /** An outcome of the shape the negotiator can return: `enableBluetooth` only ever comes
      with `false`, so `true` only ever comes with `bluetoothPermission`. */
  predicate WellFormed(o: Outcome) {
    o.kind == EnableBluetooth ==> !o.value
  }

  /** The iOS branch: one request for the peripheral permission, and three ways out. */
  function AskIos(answers: seq<Answer>): (r: Negotiation)
    ensures r.requested == [IosBluetoothPeripheral]
    ensures r.settlement.Pending? <==> answers == []
    ensures r.settlement.Returned? ==> WellFormed(r.settlement.outcome)
    ensures r.settlement == Returned(BluetoothOff) <==> answers != [] && answers[0] == Resolved(Unavailable)
    ensures r.settlement == Returned(Allowed) <==> answers != [] && IsGranted(answers[0])
    ensures r.settlement == Threw <==> answers != [] && answers[0] == Rejected
  {
    var asked := [IosBluetoothPeripheral];
    if answers == [] then Negotiation(Pending, asked)
    else
      match answers[0]
      case Rejected => Negotiation(Threw, asked)
      case Resolved(result) =>
        if result != Granted then
          if result == Unavailable then Negotiation(Returned(BluetoothOff), asked)
          else Negotiation(Returned(Refused), asked)
        else Negotiation(Returned(Allowed), asked)
  }

  /** Requests `perms` one after another, each consuming the next answer, and stops at the
      first answer that is not Granted: a rejection propagates, any other status refuses.
      When every permission is granted the outcome is Allowed. */
  function RequestInOrder(perms: seq<Permission>, answers: seq<Answer>): (r: Negotiation)
    ensures r.requested <= perms
    ensures r.settlement.Pending? <==> |r.requested| > |answers|
    ensures |r.requested| <= |answers| + 1
    ensures forall i :: 0 <= i < |r.requested| - 1 ==> IsGranted(answers[i])
    ensures r.settlement.Returned? ==> r.settlement.outcome.kind == BluetoothPermission
    ensures r.settlement == Returned(Allowed) ==> r.requested == perms
    decreases |perms|
  {
    if perms == [] then Negotiation(Returned(Allowed), [])
    else if answers == [] then Negotiation(Pending, [perms[0]])
    else
      match answers[0]
      case Rejected => Negotiation(Threw, [perms[0]])
      case Resolved(result) =>
        if result != Granted then Negotiation(Returned(Refused), [perms[0]])
        else
          var rest := RequestInOrder(perms[1..], answers[1..]);
          Negotiation(rest.settlement, [perms[0]] + rest.requested)
  }

  /** `askBluetoothPermissions`: branch on the platform, then on the Android version. */
  function AskBluetoothPermissions(os: string, version: int, answers: seq<Answer>): (r: Negotiation)
    ensures r.requested <= PermissionsToRequest(os, version)
    ensures r.settlement.Pending? <==> |r.requested| > |answers|
    ensures r.settlement.Returned? ==> WellFormed(r.settlement.outcome)
    ensures r.settlement.Returned? && r.settlement.outcome.kind == EnableBluetooth ==> os == IOS
  {
    if os == IOS then AskIos(answers)
    else if version >= RUNTIME_PERMISSION_VERSION then RequestInOrder(AndroidBluetoothPermissions, answers)
    else Negotiation(Returned(Allowed), [])
  }
}
