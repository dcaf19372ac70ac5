/** GPU records, the allow-list built from them, and membership in it. */
module Topology {
  import opened Sequences
  import opened CStrings

  const MAX_GPUS: nat := 32
  const BUS_ID_MAX: nat := 32
  const UUID_MAX: nat := 96

  datatype GpuInfo = GpuInfo(present: bool, deviceMinor: int32, busId: string, uuid: string)

  /** The allow-list; its `count` is the length of gpus. */
  datatype Allowed = Allowed(valid: bool, gpus: seq<GpuInfo>)

  const NOTHING_ALLOWED := Allowed(false, [])

  /** A buffer for bus names holds 31 characters and a NUL; a directory entry is one segment. */
  ghost predicate IsBus(b: string) {
    1 <= |b| < BUS_ID_MAX && '/' !in b
  }

  ghost predicate CarriesBus(gpus: seq<GpuInfo>, bus: string) {
    exists i :: 0 <= i < |gpus| && gpus[i].busId == bus
  }

  /** Membership by bus name; an invalid list, a NULL list and the empty name contain nothing. */
  ghost predicate ContainsBus(allowed: Option<Allowed>, bus: string) {
    allowed.Some? && allowed.value.valid && bus != "" && CarriesBus(allowed.value.gpus, bus)
  }

  method AllowedContainsBus(allowed: Option<Allowed>, bus: Option<string>) returns (found: bool)
    ensures found <==> bus.Some? && ContainsBus(allowed, bus.value)
    ensures found <==> bus.Some? && bus.value != "" && allowed.Some? && allowed.value.valid &&
                       exists i :: 0 <= i < |allowed.value.gpus| && allowed.value.gpus[i].busId == bus.value
  {
    if allowed.None? || !allowed.value.valid || bus.None? || bus.value == "" {
      return false;
    }
    var gpus := allowed.value.gpus;
    for i := 0 to |gpus|
      invariant forall j :: 0 <= j < i ==> gpus[j].busId != bus.value
    {
      if gpus[i].busId == bus.value {
        return true;
      }
    }
    return false;
  }

  method MinorIsMounted(minor: int32, mounted: seq<int32>) returns (found: bool)
    ensures found <==> minor in mounted
  {
    for i := 0 to |mounted|
      invariant minor !in mounted[..i]
    {
      if mounted[i] == minor {
        return true;
      }
    }
    return false;
  }

  // ----- building the allow-list

  predicate UuidMatches(info: GpuInfo, explicitUuid: Option<string>) {
    explicitUuid.None? || explicitUuid.value == "" || info.uuid == explicitUuid.value
  }

  predicate Eligible(info: GpuInfo, mounted: seq<int32>, explicitUuid: Option<string>) {
    info.present && info.deviceMinor in mounted && UuidMatches(info, explicitUuid)
  }

  ghost function EligibleTest(mounted: seq<int32>, explicitUuid: Option<string>): GpuInfo -> bool {
    info => Eligible(info, mounted, explicitUuid)
  }

  ghost function Selected(infos: seq<GpuInfo>, mounted: seq<int32>, explicitUuid: Option<string>): seq<GpuInfo> {
    Take(Filter(EligibleTest(mounted, explicitUuid), infos), MAX_GPUS)
  }

  /** A NULL array is the empty sequence: the source answers both alike. */
  method BuildAllowedGpus(infos: seq<GpuInfo>, mounted: seq<int32>, explicitUuid: Option<string>)
      returns (ok: bool, allowed: Allowed)
    ensures allowed == Allowed(ok, Selected(infos, mounted, explicitUuid))
    ensures ok <==> exists i :: 0 <= i < |infos| && Eligible(infos[i], mounted, explicitUuid)
    ensures |allowed.gpus| <= MAX_GPUS
  {
    ghost var eligible := EligibleTest(mounted, explicitUuid);
    SelectedNonempty(infos, mounted, explicitUuid);
    allowed := NOTHING_ALLOWED;
    if |infos| == 0 || |mounted| == 0 {
      NoneEligible(infos, mounted, explicitUuid);
      return false, allowed;
    }
    var i := 0;
    while i < |infos| && |allowed.gpus| < MAX_GPUS
      invariant 0 <= i <= |infos| && |allowed.gpus| <= MAX_GPUS
      invariant allowed == Allowed(false, Filter(eligible, infos[..i]))
    {
      assert infos[..i + 1] == infos[..i] + [infos[i]];
      FilterSnoc(eligible, infos[..i], infos[i]);
      i := i + 1;
      if !infos[i - 1].present {
        continue;
      }
      var isMounted := MinorIsMounted(infos[i - 1].deviceMinor, mounted);
      if !isMounted {
        continue;
      }
      if explicitUuid.Some? && explicitUuid.value != "" && infos[i - 1].uuid != explicitUuid.value {
        continue;
      }
      allowed := allowed.(gpus := allowed.gpus + [infos[i - 1]]);
    }
    assert infos == infos[..i] + infos[i..];
    FilterAppend(eligible, infos[..i], infos[i..]);
    assert i == |infos| ==> Filter(eligible, infos[i..]) == [];
    ok := |allowed.gpus| > 0;
    allowed := allowed.(valid := ok);
  }

  lemma NoneEligible(infos: seq<GpuInfo>, mounted: seq<int32>, explicitUuid: Option<string>)
    requires infos == [] || mounted == []
    ensures Selected(infos, mounted, explicitUuid) == []
  {
    SelectedNonempty(infos, mounted, explicitUuid);
  }

  lemma SelectedNonempty(infos: seq<GpuInfo>, mounted: seq<int32>, explicitUuid: Option<string>)
    ensures Selected(infos, mounted, explicitUuid) != [] <==>
            exists i :: 0 <= i < |infos| && Eligible(infos[i], mounted, explicitUuid)
  {
    var eligible := EligibleTest(mounted, explicitUuid);
    var all := Filter(eligible, infos);
    if all != [] {
      assert all[0] in all;
      FilterMembers(eligible, infos, all[0]);
    }
    forall i | 0 <= i < |infos| && Eligible(infos[i], mounted, explicitUuid) ensures all != [] {
      assert infos[i] in infos;
      FilterMembers(eligible, infos, infos[i]);
    }
  }

  lemma SelectedInOrder(infos: seq<GpuInfo>, mounted: seq<int32>, explicitUuid: Option<string>)
    ensures Subsequence(Selected(infos, mounted, explicitUuid), infos)
  {
    var eligible := EligibleTest(mounted, explicitUuid);
    FilterMonotone(eligible, (info: GpuInfo) => true, infos);
    FilterAll((info: GpuInfo) => true, infos);
    SubsequenceTake(Filter(eligible, infos), infos, MAX_GPUS);
  }

  /**
   Every listed GPU is one of the records, present, mounted, and has the requested uuid if there is one;
   and up to 32 records, every such record is listed.
   */
  lemma SelectedExact(infos: seq<GpuInfo>, mounted: seq<int32>, explicitUuid: Option<string>, g: GpuInfo)
    ensures |Selected(infos, mounted, explicitUuid)| <= 32
    ensures g in Selected(infos, mounted, explicitUuid) ==>
              g in infos && g.present && g.deviceMinor in mounted &&
              (explicitUuid.Some? && explicitUuid.value != "" ==> g.uuid == explicitUuid.value)
    ensures |infos| <= 32 && g in infos && g.present && g.deviceMinor in mounted &&
            (explicitUuid.Some? && explicitUuid.value != "" ==> g.uuid == explicitUuid.value) ==>
              g in Selected(infos, mounted, explicitUuid)
  {
    FilterMembers(EligibleTest(mounted, explicitUuid), infos, g);
    FilterLength(EligibleTest(mounted, explicitUuid), infos);
  }

  /** The list is the first 32 of the records that qualify. */
  lemma SelectedByRule(infos: seq<GpuInfo>, mounted: seq<int32>, explicitUuid: Option<string>,
                       qualifies: GpuInfo -> bool)
    requires forall g :: qualifies(g) <==>
               g.present && g.deviceMinor in mounted &&
               (explicitUuid.Some? && explicitUuid.value != "" ==> g.uuid == explicitUuid.value)
    ensures Selected(infos, mounted, explicitUuid) ==
            if |Filter(qualifies, infos)| <= 32 then Filter(qualifies, infos) else Filter(qualifies, infos)[..32]
  {
    FilterAgree(EligibleTest(mounted, explicitUuid), qualifies, infos);
  }
}
