/** Properties of the Bluetooth permission negotiator, per branch and over all inputs. */
module BluetoothPermissionProperties {
  import opened BluetoothPermission

  /** The index of the first answer that is not Granted (|answers| when there is none). */
  function FirstNotGranted(answers: seq<Answer>): (k: nat)
    ensures k <= |answers|
    ensures forall i :: 0 <= i < k ==> IsGranted(answers[i])
    ensures k < |answers| ==> !IsGranted(answers[k])
  {
    if answers == [] || !IsGranted(answers[0]) then 0
    else 1 + FirstNotGranted(answers[1..])
  }

  /** A closed-form account of a fail-fast request chain, independent of how the chain is
      run: with k the first answer that is not Granted, the chain asks for the first k + 1
      permissions (all of them when k is past the end) and settles by answer k. */
  function ChainSpec(perms: seq<Permission>, answers: seq<Answer>): Negotiation {
    var k := FirstNotGranted(answers);
    if k >= |perms| then Negotiation(Returned(Allowed), perms)
    else
      var settlement :=
        if k == |answers| then Pending
        else if answers[k] == Rejected then Threw
        else Returned(Refused);
      Negotiation(settlement, perms[..k + 1])
  }

  /** The chain as the negotiator runs it agrees with the closed form on every input. */
  lemma {:induction false} RequestInOrderMatchesSpec(perms: seq<Permission>, answers: seq<Answer>)
    ensures RequestInOrder(perms, answers) == ChainSpec(perms, answers)
    decreases |perms|
  {
    if perms != [] && answers != [] && IsGranted(answers[0]) {
      RequestInOrderMatchesSpec(perms[1..], answers[1..]);
      var k := FirstNotGranted(answers);
      assert k == 1 + FirstNotGranted(answers[1..]);
      if k < |perms| {
        assert [perms[0]] + perms[1..][..k] == perms[..k + 1];
        if k < |answers| {
          assert answers[1..][k - 1] == answers[k];
        }
      } else {
        assert [perms[0]] + perms[1..] == perms;
      }
    }
  }

  /** On iOS exactly one permission is requested, the peripheral one, whatever the version
      and whatever the OS answers. */
  lemma IosRequestsOnlyPeripheral(version: int, answers: seq<Answer>)
    ensures AskBluetoothPermissions(IOS, version, answers).requested == [IosBluetoothPeripheral]
  {
  }

  /** On iOS the outcome depends on the first answer only: neither the version nor any
      later answer changes it. */
  lemma IosDependsOnlyOnFirstAnswer(v1: int, v2: int, a1: seq<Answer>, a2: seq<Answer>)
    requires a1 != [] && a2 != [] && a1[0] == a2[0]
    ensures AskBluetoothPermissions(IOS, v1, a1) == AskBluetoothPermissions(IOS, v2, a2)
  {
  }

  /** The iOS outcome for each kind of answer to the peripheral request. */
  lemma IosOutcomeByAnswer(version: int, answers: seq<Answer>)
    requires answers != []
    ensures var r := AskBluetoothPermissions(IOS, version, answers);
      && (answers[0] == Resolved(Unavailable) ==> r.settlement == Returned(BluetoothOff))
      && (answers[0].Resolved? && answers[0].status !in {Granted, Unavailable} ==>
            r.settlement == Returned(Refused))
      && (answers[0] == Resolved(Granted) ==> r.settlement == Returned(Allowed))
      && (answers[0] == Rejected ==> r.settlement == Threw)
  {
  }

  /** Below the runtime-permission version, a non-iOS platform is allowed at once and
      nothing is requested. */
  lemma LegacyAndroidAllowsWithoutAsking(os: string, version: int, answers: seq<Answer>)
    requires os != IOS && version < RUNTIME_PERMISSION_VERSION
    ensures AskBluetoothPermissions(os, version, answers) == Negotiation(Returned(Allowed), [])
  {
  }

  /** From the runtime-permission version on, a non-iOS platform asks for scan, connect and
      advertise in that order, and stops at the first answer k that is not Granted: it makes
      k + 1 requests (never more than three), a status other than Granted refuses, and a
      rejection propagates. */
  lemma AndroidRequestsInOrderAndFailsFast(os: string, version: int, answers: seq<Answer>)
    requires os != IOS && version >= RUNTIME_PERMISSION_VERSION
    ensures var r := AskBluetoothPermissions(os, version, answers);
      var k := FirstNotGranted(answers);
      && r.requested == AndroidBluetoothPermissions[..|r.requested|]
      && |r.requested| == (if k < 3 then k + 1 else 3)
      && (k < 3 && k < |answers| && answers[k].Resolved? ==> r.settlement == Returned(Refused))
      && (k < 3 && k < |answers| && answers[k] == Rejected ==> r.settlement == Threw)
  {
    RequestInOrderMatchesSpec(AndroidBluetoothPermissions, answers);
  }

  /** From the runtime-permission version on, a non-iOS platform is allowed exactly when the
      first three answers are all Granted, and then all three permissions were requested. */
  lemma AndroidAllowedIffAllGranted(os: string, version: int, answers: seq<Answer>)
    requires os != IOS && version >= RUNTIME_PERMISSION_VERSION
    ensures var r := AskBluetoothPermissions(os, version, answers);
      && (r.settlement.Returned? && r.settlement.outcome.value <==>
            |answers| >= 3 && forall i :: 0 <= i < 3 ==> IsGranted(answers[i]))
      && (r.settlement == Returned(Allowed) ==> r.requested == AndroidBluetoothPermissions)
  {
    RequestInOrderMatchesSpec(AndroidBluetoothPermissions, answers);
  }

  /** Every call whose requests are all answered, none by a rejection, returns an outcome,
      and that outcome is well formed. */
  lemma EveryAnsweredCallReturns(os: string, version: int, answers: seq<Answer>)
    requires |answers| >= |PermissionsToRequest(os, version)|
    requires forall i :: 0 <= i < |answers| ==> answers[i].Resolved?
    ensures var r := AskBluetoothPermissions(os, version, answers);
      r.settlement.Returned? && WellFormed(r.settlement.outcome)
  {
    if os != IOS && version >= RUNTIME_PERMISSION_VERSION {
      RequestInOrderMatchesSpec(AndroidBluetoothPermissions, answers);
    }
  }

  /** Three sample runs: Android 33 answering granted, granted, denied is refused after
      three requests; Android 25 is allowed with no request; iOS answering unavailable is
      told to turn Bluetooth on. */
  lemma SampleRuns()
    ensures AskBluetoothPermissions("android", 33, [Resolved(Granted), Resolved(Granted), Resolved(Denied)])
      == Negotiation(Returned(Refused), AndroidBluetoothPermissions)
    ensures AskBluetoothPermissions("android", 25, []) == Negotiation(Returned(Allowed), [])
    ensures AskBluetoothPermissions(IOS, 17, [Resolved(Unavailable)]).settlement == Returned(BluetoothOff)
  {
  }
}
