# Health-Stats: Bluetooth permission negotiator

A Dafny model of `askBluetoothPermissions`, the helper in the Health-Stats app that asks
the mobile OS for Bluetooth permissions before the app goes on. On iOS it asks for the
Bluetooth peripheral permission. On any other platform it checks the OS version. From
version 30 on, it asks for the scan, connect and advertise permissions in that order and
stops at the first one that is not granted. Below 30 it asks for nothing. It returns an
object `{type, value}`. `type` is `enableBluetooth` when Bluetooth itself is off, and
`bluetoothPermission` otherwise. `value` says whether the app may proceed.

The helper reads the platform and the version from the environment and awaits OS dialogs.
In the model both are explicit inputs, and the OS is an oracle: a sequence of answers,
one consumed per request. An answer either resolves with a permission status or rejects.
The model function `AskBluetoothPermissions(os, version, answers)` returns a
`Negotiation`, which holds:

- how the call's promise settles: `Returned(outcome)`, `Threw` (a request rejected and
  nothing catches it), or `Pending` (the oracle ran out, so the last request is still
  awaited);
- the permissions requested, in order.

Files:

- `bluetooth_permission.dfy`, module `BluetoothPermission`: the data model, the iOS branch
  `AskIos`, the fail-fast request chain `RequestInOrder`, and the negotiator.
- `bluetooth_permission_properties.dfy`, module `BluetoothPermissionProperties`: a
  closed-form reference for the request chain (`FirstNotGranted`, `ChainSpec`), the proof
  that the chain matches it, and the per-branch and whole-function properties.

Points where the code's behaviour is easy to misread:

- Any platform name other than `"ios"` takes the Android branch (line 6).
- A rejected permission request rejects the whole call, since the code has no
  `try`/`catch`.
- The version threshold is 30 (line 22), although the comments at lines 23 and 38 speak
  of Android 12.

## Model

| member | source | states |
|---|---|---|
| `BluetoothPermission.AskIos` | bleutoothpermission.js:6-20 | Exactly one request, for BLUETOOTH_PERIPHERAL. With no answer yet, the call is still pending. The result is `{enableBluetooth, false}` exactly when the answer is UNAVAILABLE, `{bluetoothPermission, true}` exactly when it is GRANTED, and a rejection of the whole call exactly when the request rejected. Every returned outcome is well formed |
| `BluetoothPermission.RequestInOrder` | bleutoothpermission.js:24-36 | The permissions requested are a prefix of the list, taken in order. Each request consumes one answer, and the call is pending exactly when a request has no answer. Every request before the last was GRANTED. Every outcome has type `bluetoothPermission`. Success means every permission in the list was requested |
| `BluetoothPermission.AskBluetoothPermissions` | bleutoothpermission.js:5-42 | The requests are a prefix of what the platform and version call for: the peripheral permission on iOS, scan/connect/advertise at version 30 and above, nothing below 30. The call is pending exactly when a request has no answer. `enableBluetooth` appears only on iOS and only with `false`, so `true` always comes with `bluetoothPermission` |
| `BluetoothPermissionProperties.RequestInOrderMatchesSpec` | bleutoothpermission.js:24-36 | For every list and every answer sequence, the chain equals the closed form. Take k, the index of the first answer that is not GRANTED. The chain requests the first k+1 permissions and settles on answer k: pending if it is missing, a rejection if it rejected, `{bluetoothPermission, false}` otherwise. If k is past the end of the list, the chain requests the whole list and returns `{bluetoothPermission, true}` |
| `BluetoothPermissionProperties.IosRequestsOnlyPeripheral` | bleutoothpermission.js:6-8 | On iOS, for every version and every answer sequence, the trace is exactly `[BLUETOOTH_PERIPHERAL]` |
| `BluetoothPermissionProperties.IosDependsOnlyOnFirstAnswer` | bleutoothpermission.js:6-20 | On iOS, two calls whose first answers agree give the same result, whatever their versions and later answers |
| `BluetoothPermissionProperties.IosOutcomeByAnswer` | bleutoothpermission.js:8-20 | On iOS: UNAVAILABLE gives `{enableBluetooth, false}`. Any other status except GRANTED gives `{bluetoothPermission, false}`. GRANTED gives `{bluetoothPermission, true}`. A rejected request rejects the call |
| `BluetoothPermissionProperties.LegacyAndroidAllowsWithoutAsking` | bleutoothpermission.js:37-39 | On a non-iOS platform below version 30 (the else branch of line 22), the result is `{bluetoothPermission, true}` with an empty trace, for every answer sequence |
| `BluetoothPermissionProperties.AndroidRequestsInOrderAndFailsFast` | bleutoothpermission.js:24-34 | On a non-iOS platform at version 30 or above, requests follow SCAN, CONNECT, ADVERTISE in order. The trace length is min(k+1, 3), where k is the first answer that is not GRANTED. A refusing status at k < 3 gives `{bluetoothPermission, false}`. A rejection at k < 3 rejects the call |
| `BluetoothPermissionProperties.AndroidAllowedIffAllGranted` | bleutoothpermission.js:24-36 | On a non-iOS platform at version 30 or above, `value` is true exactly when the first three answers are all GRANTED. In that case all three permissions were requested |
| `BluetoothPermissionProperties.EveryAnsweredCallReturns` | bleutoothpermission.js:5-42 | Suppose every request gets an answer and none of them rejects. Then the call returns exactly one outcome, and that outcome is well formed |
| `BluetoothPermissionProperties.SampleRuns` | bleutoothpermission.js:5-42 | Android 33 with granted, granted, denied makes three requests and returns `{bluetoothPermission, false}`. Android 25 makes no request and returns true. iOS with UNAVAILABLE returns `{enableBluetooth, false}` |

## Left out

- App.js as a whole: screens, navigation, the embedded map HTML, styles, the map link
  built from floating-point coordinates, and the `checkBluetoothStatus` stub. It is UI
  with no decision logic.
- The real `Permissions.askAsync` dialogs and the suspension while they are shown. Each
  is replaced by the next answer in the oracle sequence. A missing answer is the
  `Pending` settlement.
- The `console.info` logging after each granted Android permission. It has no effect on
  the result.
- The shape of what `askAsync` resolves with. The code compares the resolved value
  directly with the `RESULTS` constants. The model takes that value to be the status,
  and includes Denied, Blocked and Limited only as statuses the code does not single out.
  It also takes `Permissions.IOS`, `Permissions.ANDROID` and `Permissions.RESULTS` to
  exist and to carry their usual meaning; were one of them undefined, line 8 or line 24
  would throw before any request is made.
- `Platform.Version` on iOS, where it is a string. The iOS branch never reads it, so the
  model takes the version as an integer throughout.
