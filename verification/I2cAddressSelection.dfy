/** The I2C bus planner of src/Core/I2cAddressSelection.h: three loops that rewrite device
    states in place, shown to compute a plan that does not depend on the device order. */
module I2cAddressSelection {
  import opened Bytes

  datatype ProbeResult = Present | Absent | Error

  datatype Status =
    | Disabled | Invalid | PrimaryConflict | Missing | SecondaryReserved
    | SecondaryConflict | Primary | Secondary | DetectionFailed

  datatype Device = Device(primary: Byte, secondary: Byte, enabled: bool, active: Byte, status: Status)

  /** The answers of the locked bus. */
  type Probe = Byte -> ProbeResult

  predicate ValidAddress(address: Byte) {
    0x08 <= address <= 0x77
  }

  /** The configured part of a device, which planning never changes. */
  predicate SameConfiguration(a: Device, b: Device) {
    a.primary == b.primary && a.secondary == b.secondary && a.enabled == b.enabled
  }

  predicate SameConfigurations(a: seq<Device>, b: seq<Device>) {
    |a| == |b| && forall i | 0 <= i < |a| :: SameConfiguration(a[i], b[i])
  }

  // ----- the plan, without an order -----

  /** Some other enabled device has this address as its primary. */
  ghost predicate ClaimedByOther(devices: seq<Device>, i: nat, address: Byte)
    requires i < |devices|
  {
    exists j | 0 <= j < |devices| :: j != i && devices[j].enabled && devices[j].primary == address
  }

  predicate WellConfigured(d: Device) {
    ValidAddress(d.primary) && (d.secondary != 0 ==> ValidAddress(d.secondary))
  }

  /** What probing a device's own address makes of it. */
  function Probed(d: Device, address: Byte, found: Status, probe: Probe): Device
    requires ValidAddress(address)
  {
    match probe(address)
    case Present => d.(active := address, status := found)
    case Error => d.(status := DetectionFailed)
    case Absent => d
  }

  /** After the primary addresses have been tried. */
  ghost function PrimaryPlan(devices: seq<Device>, i: nat, probe: Probe): Device
    requires i < |devices|
  {
    var d := devices[i].(active := 0, status := Disabled);
    if !d.enabled then d
    else if !WellConfigured(d) then d.(status := Invalid)
    else if ClaimedByOther(devices, i, d.primary) then d.(status := PrimaryConflict)
    else Probed(d.(status := Missing), d.primary, Primary, probe)
  }

  /** A missing device that has an address left to try. */
  predicate WantsSecondary(d: Device) {
    d.status == Missing && d.secondary != 0 && d.secondary != d.primary
  }

  /** After primaries have been reserved. */
  ghost function ReservedPlan(devices: seq<Device>, i: nat, probe: Probe): Device
    requires i < |devices|
  {
    var d := PrimaryPlan(devices, i, probe);
    if WantsSecondary(d) && ClaimedByOther(devices, i, d.secondary) then d.(status := SecondaryReserved) else d
  }

  /** Some other device is still missing and names the same secondary address. */
  ghost predicate Contended(devices: seq<Device>, i: nat, probe: Probe)
    requires i < |devices|
  {
    exists j | 0 <= j < |devices| ::
      j != i && devices[j].secondary == devices[i].secondary && ReservedPlan(devices, j, probe).status == Missing
  }

  /** The complete plan of one device, as a function of the whole configuration. */
  ghost function Plan(devices: seq<Device>, i: nat, probe: Probe): Device
    requires i < |devices|
  {
    var d := ReservedPlan(devices, i, probe);
    if !WantsSecondary(d) then d
    else if Contended(devices, i, probe) then d.(status := SecondaryConflict)
    else Probed(d, d.secondary, Secondary, probe)
  }

  ghost function PlanAll(devices: seq<Device>, probe: Probe): (plan: seq<Device>)
    ensures |plan| == |devices|
  {
    seq(|devices|, i requires 0 <= i < |devices| => Plan(devices, i, probe))
  }

  // ----- the three loops -----

  /** Whether another enabled device claims the address as its primary. */
  method ClaimsPrimary(devices: array<Device>, i: nat, address: Byte) returns (claimed: bool)
    requires i < devices.Length
    ensures claimed <==> ClaimedByOther(devices[..], i, address)
  {
    for j := 0 to devices.Length
      invariant forall k | 0 <= k < j :: !(k != i && devices[k].enabled && devices[k].primary == address)
    {
      if i != j && devices[j].enabled && devices[j].primary == address {
        assert devices[..][j] == devices[j];
        return true;
      }
    }
    return false;
  }

  /** Only the configured part of the other devices decides who claims an address. */
  lemma ClaimsFollowConfiguration(a: seq<Device>, b: seq<Device>, i: nat, address: Byte)
    requires SameConfigurations(a, b) && i < |a|
    ensures ClaimedByOther(a, i, address) <==> ClaimedByOther(b, i, address)
  {
    if ClaimedByOther(a, i, address) {
      var j :| 0 <= j < |a| && j != i && a[j].enabled && a[j].primary == address;
      assert SameConfiguration(a[j], b[j]);
    }
    if ClaimedByOther(b, i, address) {
      var j :| 0 <= j < |b| && j != i && b[j].enabled && b[j].primary == address;
      assert SameConfiguration(a[j], b[j]);
    }
  }

  method Resolve(devices: array<Device>, probe: Probe)
    modifies devices
    ensures devices[..] == PlanAll(old(devices[..]), probe)
  {
    ghost var before := devices[..];
    TryPrimaries(devices, probe);
    ReservePrimaries(devices, before, probe);
    TrySecondaries(devices, before, probe);
  }

  method TryPrimaries(devices: array<Device>, probe: Probe)
    modifies devices
    ensures forall k | 0 <= k < devices.Length :: devices[k] == PrimaryPlan(old(devices[..]), k, probe)
  {
    ghost var before := devices[..];
    for i := 0 to devices.Length
      invariant forall k | 0 <= k < i :: devices[k] == PrimaryPlan(before, k, probe)
      invariant forall k | i <= k < devices.Length :: devices[k] == before[k]
    {
      devices[i] := devices[i].(active := 0, status := Disabled);
      if devices[i].enabled {
        devices[i] := devices[i].(status := Invalid);
        if WellConfigured(devices[i]) {
          devices[i] := devices[i].(status := Missing);
          assert SameConfigurations(before, devices[..]);
          ClaimsFollowConfiguration(before, devices[..], i, devices[i].primary);
          var conflict := ClaimsPrimary(devices, i, devices[i].primary);
          if conflict {
            devices[i] := devices[i].(status := PrimaryConflict);
          } else {
            devices[i] := Probed(devices[i], devices[i].primary, Primary, probe);
          }
        }
      }
    }
  }

  method ReservePrimaries(devices: array<Device>, ghost before: seq<Device>, probe: Probe)
    requires |before| == devices.Length
    requires forall k | 0 <= k < devices.Length :: devices[k] == PrimaryPlan(before, k, probe)
    modifies devices
    ensures forall k | 0 <= k < devices.Length :: devices[k] == ReservedPlan(before, k, probe)
  {
    for i := 0 to devices.Length
      invariant forall k | 0 <= k < i :: devices[k] == ReservedPlan(before, k, probe)
      invariant forall k | i <= k < devices.Length :: devices[k] == PrimaryPlan(before, k, probe)
    {
      if WantsSecondary(devices[i]) {
        assert SameConfigurations(before, devices[..]);
        ClaimsFollowConfiguration(before, devices[..], i, devices[i].secondary);
        var reserved := ClaimsPrimary(devices, i, devices[i].secondary);
        if reserved {
          devices[i] := devices[i].(status := SecondaryReserved);
        }
      }
    }
  }

  /** Devices already decided keep the mark by which later ones recognise the contention. */
  lemma ContentionIsVisible(before: seq<Device>, devices: seq<Device>, i: nat, probe: Probe)
    requires i < |before| == |devices|
    requires forall k | 0 <= k < i :: devices[k] == Plan(before, k, probe)
    requires forall k | i <= k < |devices| :: devices[k] == ReservedPlan(before, k, probe)
    requires WantsSecondary(devices[i])
    ensures Contended(before, i, probe) <==>
            exists j | 0 <= j < |devices| ::
              && j != i && devices[j].secondary == devices[i].secondary
              && (devices[j].status == Missing || devices[j].status == SecondaryConflict)
  {
    if Contended(before, i, probe) {
      var j :| 0 <= j < |before| && j != i && before[j].secondary == before[i].secondary
               && ReservedPlan(before, j, probe).status == Missing;
      if j < i && WantsSecondary(ReservedPlan(before, j, probe)) {
        assert Contended(before, j, probe);
      }
      assert devices[j].status == Missing || devices[j].status == SecondaryConflict;
    }
  }

  method TrySecondaries(devices: array<Device>, ghost before: seq<Device>, probe: Probe)
    requires |before| == devices.Length
    requires forall k | 0 <= k < devices.Length :: devices[k] == ReservedPlan(before, k, probe)
    modifies devices
    ensures devices[..] == PlanAll(before, probe)
  {
    for i := 0 to devices.Length
      invariant forall k | 0 <= k < i :: devices[k] == Plan(before, k, probe)
      invariant forall k | i <= k < devices.Length :: devices[k] == ReservedPlan(before, k, probe)
    {
      if WantsSecondary(devices[i]) {
        ContentionIsVisible(before, devices[..], i, probe);
        var conflict := false;
        for j := 0 to devices.Length
          invariant conflict <==> exists k | 0 <= k < j ::
                      && k != i && devices[k].secondary == devices[i].secondary
                      && (devices[k].status == Missing || devices[k].status == SecondaryConflict)
        {
          if j != i && devices[j].secondary == devices[i].secondary
             && (devices[j].status == Missing || devices[j].status == SecondaryConflict) {
            conflict := true;
          }
        }
        if conflict {
          devices[i] := devices[i].(status := SecondaryConflict);
        } else {
          devices[i] := Probed(devices[i], devices[i].secondary, Secondary, probe);
        }
      }
    }
  }

  // ----- what the plan guarantees -----

  /** A reordering of `n` places. */
  ghost predicate Reordering(order: seq<nat>, n: nat) {
    && |order| == n
    && (forall i | 0 <= i < n :: order[i] < n)
    && (forall i, j | 0 <= i < j < n :: order[i] != order[j])
    && (forall k | 0 <= k < n :: k in order)
  }

  ghost function Reordered(devices: seq<Device>, order: seq<nat>): (r: seq<Device>)
    requires Reordering(order, |devices|)
    ensures |r| == |devices|
  {
    seq(|devices|, i requires 0 <= i < |devices| => devices[order[i]])
  }

  lemma PlaceOf(order: seq<nat>, n: nat, k: nat) returns (j: nat)
    requires Reordering(order, n) && k < n
    ensures j < n && order[j] == k
  {
    assert k in order;
    j :| 0 <= j < |order| && order[j] == k;
  }

  lemma ClaimsReorder(devices: seq<Device>, order: seq<nat>, i: nat, address: Byte)
    requires Reordering(order, |devices|) && i < |devices|
    ensures ClaimedByOther(Reordered(devices, order), i, address) <==> ClaimedByOther(devices, order[i], address)
  {
    var r := Reordered(devices, order);
    if ClaimedByOther(r, i, address) {
      var j :| 0 <= j < |r| && j != i && r[j].enabled && r[j].primary == address;
      assert devices[order[j]] == r[j] && order[j] != order[i];
    }
    if ClaimedByOther(devices, order[i], address) {
      var k :| 0 <= k < |devices| && k != order[i] && devices[k].enabled && devices[k].primary == address;
      var j := PlaceOf(order, |devices|, k);
      assert r[j] == devices[k] && j != i;
    }
  }

  lemma ReservedReorders(devices: seq<Device>, order: seq<nat>, i: nat, probe: Probe)
    requires Reordering(order, |devices|) && i < |devices|
    ensures ReservedPlan(Reordered(devices, order), i, probe) == ReservedPlan(devices, order[i], probe)
  {
    var d := Reordered(devices, order)[i];
    ClaimsReorder(devices, order, i, d.primary);
    ClaimsReorder(devices, order, i, d.secondary);
  }

  lemma ContentionReorders(devices: seq<Device>, order: seq<nat>, i: nat, probe: Probe)
    requires Reordering(order, |devices|) && i < |devices|
    ensures Contended(Reordered(devices, order), i, probe) <==> Contended(devices, order[i], probe)
  {
    var r := Reordered(devices, order);
    if Contended(r, i, probe) {
      var j :| 0 <= j < |r| && j != i && r[j].secondary == r[i].secondary && ReservedPlan(r, j, probe).status == Missing;
      ReservedReorders(devices, order, j, probe);
      assert devices[order[j]] == r[j] && order[j] != order[i];
    }
    if Contended(devices, order[i], probe) {
      var k :| 0 <= k < |devices| && k != order[i] && devices[k].secondary == devices[order[i]].secondary
               && ReservedPlan(devices, k, probe).status == Missing;
      var j := PlaceOf(order, |devices|, k);
      ReservedReorders(devices, order, j, probe);
      assert r[j] == devices[k] && j != i;
    }
  }

  lemma OnePlanReorders(devices: seq<Device>, order: seq<nat>, i: nat, probe: Probe)
    requires Reordering(order, |devices|) && i < |devices|
    ensures Plan(Reordered(devices, order), i, probe) == Plan(devices, order[i], probe)
  {
    ReservedReorders(devices, order, i, probe);
    ContentionReorders(devices, order, i, probe);
  }

  /** Planning does not depend on the order of the devices: reordering them reorders the plan. */
  lemma PlanReorders(devices: seq<Device>, order: seq<nat>, probe: Probe)
    requires Reordering(order, |devices|)
    ensures PlanAll(Reordered(devices, order), probe) == Reordered(PlanAll(devices, probe), order)
  {
    forall i | 0 <= i < |devices|
      ensures PlanAll(Reordered(devices, order), probe)[i] == Reordered(PlanAll(devices, probe), order)[i]
    {
      OnePlanReorders(devices, order, i, probe);
    }
  }

  /** An active device answered at its own primary or secondary address. */
  lemma ActiveIsOwn(devices: seq<Device>, i: nat, probe: Probe)
    requires i < |devices|
    ensures var d := Plan(devices, i, probe);
            && SameConfiguration(d, devices[i])
            && (d.active != 0 <==> d.status == Primary || d.status == Secondary)
            && (d.status == Primary ==> d.active == d.primary && !ClaimedByOther(devices, i, d.primary))
            && (d.status == Secondary ==> d.active == d.secondary && !ClaimedByOther(devices, i, d.secondary)
                                          && !Contended(devices, i, probe)
                                          && ReservedPlan(devices, i, probe).status == Missing)
            && (d.active != 0 ==> d.enabled && ValidAddress(d.active) && probe(d.active) == Present)
  {
  }

  /** No two devices are given the same address, and none is given an address that another
      enabled device reserves as its primary. */
  lemma ActiveAddressesAreExclusive(devices: seq<Device>, i: nat, j: nat, probe: Probe)
    requires i < |devices| && j < |devices| && i != j
    requires Plan(devices, i, probe).active != 0
    ensures Plan(devices, j, probe).active != Plan(devices, i, probe).active
    ensures devices[j].enabled ==> devices[j].primary != Plan(devices, i, probe).active
  {
    ActiveIsOwn(devices, i, probe);
    ActiveIsOwn(devices, j, probe);
  }

  /** All devices that still contend for a secondary address are rejected together. */
  lemma ContendersAreRejectedTogether(devices: seq<Device>, i: nat, j: nat, probe: Probe)
    requires i < |devices| && j < |devices| && i != j
    requires WantsSecondary(ReservedPlan(devices, i, probe)) && WantsSecondary(ReservedPlan(devices, j, probe))
    requires devices[i].secondary == devices[j].secondary
    ensures Plan(devices, i, probe).status == SecondaryConflict && Plan(devices, i, probe).active == 0
    ensures Plan(devices, j, probe).status == SecondaryConflict && Plan(devices, j, probe).active == 0
  {
    assert Contended(devices, i, probe) && Contended(devices, j, probe);
  }

  /** A lone claim is never rejected: an enabled, valid device whose primary answers and that no
      other enabled device claims is active there. */
  lemma LonePrimaryIsActive(devices: seq<Device>, i: nat, probe: Probe)
    requires i < |devices|
    ensures Plan(devices, i, probe).status == Primary <==>
            && devices[i].enabled && WellConfigured(devices[i])
            && !ClaimedByOther(devices, i, devices[i].primary)
            && probe(devices[i].primary) == Present
  {
  }

  // ----- every outcome, from the devices and the bus alone -----

  /** A configured device whose primary nobody else claims. */
  ghost predicate OwnsPrimary(devices: seq<Device>, i: nat)
    requires i < |devices|
  {
    var d := devices[i];
    d.enabled && WellConfigured(d) && !ClaimedByOther(devices, i, d.primary)
  }

  /** The device has a second address to try. */
  predicate HasFallback(d: Device) {
    d.secondary != 0 && d.secondary != d.primary
  }

  /** Its primary is silent, and its second address is not reserved for another device. */
  ghost predicate StillMissing(devices: seq<Device>, i: nat, probe: Probe)
    requires i < |devices|
  {
    var d := devices[i];
    && OwnsPrimary(devices, i) && probe(d.primary) == Absent
    && !(HasFallback(d) && ClaimedByOther(devices, i, d.secondary))
  }

  /** Another device is still missing and names the same second address. */
  ghost predicate HasRival(devices: seq<Device>, i: nat, probe: Probe)
    requires i < |devices|
  {
    exists j: nat | j < |devices| :: j != i && StillMissing(devices, j, probe) && devices[j].secondary == devices[i].secondary
  }

  /** The device is the only one to try its second address. */
  ghost predicate TriesFallback(devices: seq<Device>, i: nat, probe: Probe)
    requires i < |devices|
  {
    StillMissing(devices, i, probe) && HasFallback(devices[i]) && !HasRival(devices, i, probe)
  }

  lemma RivalsContend(devices: seq<Device>, i: nat, probe: Probe)
    requires i < |devices| && WantsSecondary(ReservedPlan(devices, i, probe))
    ensures Contended(devices, i, probe) <==> HasRival(devices, i, probe)
  {
    forall j: nat | j < |devices|
      ensures StillMissing(devices, j, probe) <==> ReservedPlan(devices, j, probe).status == Missing
      ensures SameConfiguration(ReservedPlan(devices, j, probe), devices[j])
    {
    }
  }

  /** Exactly when each status is given. */
  lemma EveryStatus(devices: seq<Device>, i: nat, probe: Probe)
    requires i < |devices|
    ensures var d, status := devices[i], Plan(devices, i, probe).status;
            && (status == Disabled <==> !d.enabled)
            && (status == Invalid <==> d.enabled && !WellConfigured(d))
            && (status == PrimaryConflict <==> d.enabled && WellConfigured(d) && ClaimedByOther(devices, i, d.primary))
            && (status == Primary <==> OwnsPrimary(devices, i) && probe(d.primary) == Present)
            && (status == SecondaryReserved <==>
                  && OwnsPrimary(devices, i) && probe(d.primary) == Absent
                  && HasFallback(d) && ClaimedByOther(devices, i, d.secondary))
            && (status == SecondaryConflict <==>
                  StillMissing(devices, i, probe) && HasFallback(d) && HasRival(devices, i, probe))
            && (status == Secondary <==> TriesFallback(devices, i, probe) && probe(d.secondary) == Present)
            && (status == Missing <==>
                  && StillMissing(devices, i, probe)
                  && (HasFallback(d) ==> TriesFallback(devices, i, probe) && probe(d.secondary) == Absent))
            && (status == DetectionFailed <==>
                  || (OwnsPrimary(devices, i) && probe(d.primary) == Error)
                  || (TriesFallback(devices, i, probe) && probe(d.secondary) == Error))
  {
    if WantsSecondary(ReservedPlan(devices, i, probe)) {
      RivalsContend(devices, i, probe);
    }
  }

  /** The active address goes with the status. */
  lemma EveryActiveAddress(devices: seq<Device>, i: nat, probe: Probe)
    requires i < |devices|
    ensures var d := devices[i];
            Plan(devices, i, probe).active ==
              if OwnsPrimary(devices, i) && probe(d.primary) == Present then d.primary
              else if TriesFallback(devices, i, probe) && probe(d.secondary) == Present then d.secondary
              else 0
  {
    EveryStatus(devices, i, probe);
    ActiveIsOwn(devices, i, probe);
  }
}
