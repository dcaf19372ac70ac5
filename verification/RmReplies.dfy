/** The driver replies the ioctl filter reads and rewrites, and what rewriting one means. */
module RmReplies {
  import opened Sequences
  import opened CStrings
  import opened Topology

  const INVALID_ID: uint32 := 0xffff_ffff
  const MAX_CARDS: nat := 32
  const MAX_ATTACHED: nat := 32
  const MAX_ACTIVE: nat := 256

  /** One card-info entry; rest stands for the fields the filter never touches. */
  datatype CardInfo = CardInfo(valid: uint8, gpuId: uint32, minorNumber: uint32, rest: seq<uint8>)

  datatype ActiveDevice = ActiveDevice(gpuId: uint32, gpuInstanceId: uint32, computeInstanceId: uint32)

  /** A present GPU of the valid allow-list has this minor. */
  ghost predicate ContainsMinor(allowed: Option<Allowed>, minor: uint32) {
    allowed.Some? && allowed.value.valid &&
    exists i :: 0 <= i < |allowed.value.gpus| && GpuHasMinor(allowed.value.gpus[i], minor)
  }

  predicate GpuHasMinor(g: GpuInfo, minor: uint32) {
    g.present && g.deviceMinor >= 0 && g.deviceMinor as int == minor as int
  }

  method AllowedContainsMinor(allowed: Option<Allowed>, minor: uint32) returns (found: bool)
    ensures found <==> ContainsMinor(allowed, minor)
    ensures found <==> allowed.Some? && allowed.value.valid &&
                       exists i :: 0 <= i < |allowed.value.gpus| && allowed.value.gpus[i].present &&
                                   allowed.value.gpus[i].deviceMinor as int == minor as int
  {
    if allowed.None? || !allowed.value.valid {
      return false;
    }
    MinorByRule(allowed, minor);
    var gpus := allowed.value.gpus;
    for i := 0 to |gpus|
      invariant forall j :: 0 <= j < i ==> !GpuHasMinor(gpus[j], minor)
    {
      if GpuHasMinor(gpus[i], minor) {
        return true;
      }
    }
    return false;
  }

  lemma MinorByRule(allowed: Option<Allowed>, minor: uint32)
    ensures ContainsMinor(allowed, minor) <==>
            allowed.Some? && allowed.value.valid &&
            exists i :: 0 <= i < |allowed.value.gpus| && allowed.value.gpus[i].present &&
                        allowed.value.gpus[i].deviceMinor as int == minor as int
  {
    if allowed.Some? {
      assert forall i :: 0 <= i < |allowed.value.gpus| ==>
               (GpuHasMinor(allowed.value.gpus[i], minor) <==>
                allowed.value.gpus[i].present && allowed.value.gpus[i].deviceMinor as int == minor as int);
    }
  }

  // ----- learning ids from card-info replies

  /** The table after one id is offered: 32 places, no duplicates, never the invalid id. */
  ghost function Learn(table: seq<uint32>, id: uint32): seq<uint32> {
    if id == INVALID_ID || id in table || |table| >= MAX_GPUS then table else table + [id]
  }

  ghost function LearnAll(table: seq<uint32>, ids: seq<uint32>): seq<uint32> {
    if ids == [] then table else Learn(LearnAll(table, ids[..|ids| - 1]), ids[|ids| - 1])
  }

  ghost function Offers(allowed: Option<Allowed>): CardInfo -> bool {
    (card: CardInfo) => card.valid != 0 && ContainsMinor(allowed, card.minorNumber) && card.gpuId != INVALID_ID
  }

  function Ids(cards: seq<CardInfo>): (ids: seq<uint32>)
    ensures |ids| == |cards| && forall i :: 0 <= i < |ids| ==> ids[i] == cards[i].gpuId
  {
    if cards == [] then [] else [cards[0].gpuId] + Ids(cards[1..])
  }

  /** The ids one card-info reply offers for learning: those of its valid cards with an allowed minor. */
  ghost function Offered(allowed: Option<Allowed>, cards: seq<CardInfo>): seq<uint32> {
    Ids(Filter(Offers(allowed), cards))
  }

  /** One reply in the history: the allow-list it was read under, and its cards as the driver sent them. */
  datatype CardReply = CardReply(allowed: Option<Allowed>, cards: seq<CardInfo>)

  ghost function OfferedByAll(history: seq<CardReply>): seq<uint32> {
    if history == [] then []
    else
      var last := history[|history| - 1];
      OfferedByAll(history[..|history| - 1]) + Offered(last.allowed, last.cards)
  }

  /** The table as a closed form: the first 32 distinct ids offered. */
  ghost function FirstIds(offered: seq<uint32>): seq<uint32> {
    Take(Distinct(offered), MAX_GPUS)
  }

  lemma {:induction false} LearnAllAppend(table: seq<uint32>, a: seq<uint32>, b: seq<uint32>)
    ensures LearnAll(table, a + b) == LearnAll(LearnAll(table, a), b)
  {
    if b == [] {
      assert a + b == a;
    } else {
      assert (a + b)[..|a + b| - 1] == a + b[..|b| - 1];
      LearnAllAppend(table, a, b[..|b| - 1]);
    }
  }

  /** Learning ids one by one gives the first 32 distinct ones. */
  lemma {:induction false} LearnAllIsFirstIds(ids: seq<uint32>)
    requires INVALID_ID !in ids
    ensures LearnAll([], ids) == FirstIds(ids)
  {
    if ids != [] {
      var front, last := ids[..|ids| - 1], ids[|ids| - 1];
      LearnAllIsFirstIds(front);
      assert last in ids;
    }
  }

  lemma IdsAppend(a: seq<CardInfo>, b: seq<CardInfo>)
    ensures Ids(a + b) == Ids(a) + Ids(b)
  {
  }

  lemma {:induction false} OfferedValid(allowed: Option<Allowed>, cards: seq<CardInfo>)
    ensures INVALID_ID !in Offered(allowed, cards)
  {
    var kept := Filter(Offers(allowed), cards);
    forall i | 0 <= i < |kept| ensures Offered(allowed, cards)[i] != INVALID_ID {
      assert kept[i] in kept;
      FilterMembers(Offers(allowed), cards, kept[i]);
    }
  }

  lemma {:induction false} OfferedByAllValid(history: seq<CardReply>)
    ensures INVALID_ID !in OfferedByAll(history)
  {
    if history != [] {
      OfferedByAllValid(history[..|history| - 1]);
      OfferedValid(history[|history| - 1].allowed, history[|history| - 1].cards);
    }
  }

  /** So the table holds no duplicate and no invalid id, is bounded, and holds only offered ids. */
  lemma FirstIdsSound(offered: seq<uint32>)
    requires INVALID_ID !in offered
    ensures NoDuplicates(FirstIds(offered)) && INVALID_ID !in FirstIds(offered) && |FirstIds(offered)| <= MAX_GPUS
    ensures forall id :: id in FirstIds(offered) ==> id in offered
    ensures |Distinct(offered)| <= MAX_GPUS ==> forall id :: id in offered ==> id in FirstIds(offered)
  {
    DistinctSound(offered);
  }

  /** The table only ever grows at its end. */
  lemma FirstIdsGrow(before: seq<uint32>, later: seq<uint32>)
    ensures FirstIds(before) <= FirstIds(before + later)
  {
    DistinctGrows(before, later);
  }

  // ----- hiding cards

  /** A card with a minor that is not allowed is marked invalid; nothing else changes. */
  ghost function Hidden(allowed: Option<Allowed>, card: CardInfo): CardInfo {
    if card.valid != 0 && !ContainsMinor(allowed, card.minorNumber) then card.(valid := 0) else card
  }

  ghost function HideCards(allowed: Option<Allowed>, cards: seq<CardInfo>): (r: seq<CardInfo>)
    ensures |r| == |cards|
  {
    if allowed.None? || !allowed.value.valid then cards
    else seq(|cards|, i requires 0 <= i < |cards| => Hidden(allowed, cards[i]))
  }

  /**
   With a valid list, a card that is valid while no listed GPU has its minor loses its valid mark; no other
   field of any card changes, and no other card.
   */
  lemma HiddenExact(allowed: Allowed, cards: seq<CardInfo>, i: nat)
    requires allowed.valid && i < |cards|
    ensures var before, after := cards[i], HideCards(Some(allowed), cards)[i];
            after == (if before.valid != 0 &&
                         !exists g :: 0 <= g < |allowed.gpus| && allowed.gpus[g].present &&
                                      allowed.gpus[g].deviceMinor as int == before.minorNumber as int
                      then CardInfo(0, before.gpuId, before.minorNumber, before.rest) else before) &&
            (after.valid != 0 ==> after == before)
  {
    MinorByRule(Some(allowed), cards[i].minorNumber);
  }

  /** The offered ids are those, other than the invalid one, of valid cards whose minor a listed GPU has. */
  lemma OfferedExact(allowed: Allowed, cards: seq<CardInfo>, id: uint32)
    requires allowed.valid
    ensures id in Offered(Some(allowed), cards) <==>
            id != 0xffff_ffff &&
            exists i, g :: 0 <= i < |cards| && 0 <= g < |allowed.gpus| && cards[i].valid != 0 && cards[i].gpuId == id &&
                           allowed.gpus[g].present && allowed.gpus[g].deviceMinor as int == cards[i].minorNumber as int
  {
    var kept := Filter(Offers(Some(allowed)), cards);
    forall card ensures card in kept <==> card in cards && Offers(Some(allowed))(card) {
      FilterMembers(Offers(Some(allowed)), cards, card);
      MinorByRule(Some(allowed), card.minorNumber);
    }
    if id in Offered(Some(allowed), cards) {
      var k :| 0 <= k < |kept| && Ids(kept)[k] == id;
      var card := kept[k];
      assert card in kept;
      MinorByRule(Some(allowed), card.minorNumber);
    }
    if i, g :| 0 <= i < |cards| && 0 <= g < |allowed.gpus| && cards[i].valid != 0 && cards[i].gpuId == id &&
               allowed.gpus[g].present && allowed.gpus[g].deviceMinor as int == cards[i].minorNumber as int &&
               id != 0xffff_ffff {
      MinorByRule(Some(allowed), cards[i].minorNumber);
      assert cards[i] in kept;
      var k :| 0 <= k < |kept| && kept[k] == cards[i];
      assert Ids(kept)[k] == id;
    }
  }

  // ----- rewriting attached ids and active devices

  ghost function Known(table: seq<uint32>): uint32 -> bool {
    id => id in table
  }

  ghost function KnownDevice(table: seq<uint32>): ActiveDevice -> bool {
    (d: ActiveDevice) => d.gpuId in table
  }

  /** The ids before the first invalid one, which is where a reader stops. */
  function Listed(ids: seq<uint32>): seq<uint32> {
    if ids == [] || ids[0] == INVALID_ID then [] else [ids[0]] + Listed(ids[1..])
  }

  function Padding(n: nat): (p: seq<uint32>)
    ensures |p| == n && forall i :: 0 <= i < n ==> p[i] == INVALID_ID
  {
    seq(n, _ => INVALID_ID)
  }

  /** The listed ids that are in the table; the scratch array holds 32 of them. */
  ghost function KeptIds(table: seq<uint32>, ids: seq<uint32>): seq<uint32> {
    Take(Filter(Known(table), Listed(ids)), MAX_GPUS)
  }

  /** An attached-ids reply after filtering: unchanged when nothing survives. */
  ghost function RewriteIds(table: seq<uint32>, ids: seq<uint32>): (r: seq<uint32>)
    ensures |r| == |ids|
  {
    KeptIdsFit(table, ids);
    var kept := KeptIds(table, ids);
    if kept == [] then ids else kept + Padding(|ids| - |kept|)
  }

  lemma {:induction false} ListedFits(ids: seq<uint32>)
    ensures |Listed(ids)| <= |ids| && INVALID_ID !in Listed(ids)
  {
    if ids != [] && ids[0] != INVALID_ID {
      ListedFits(ids[1..]);
    }
  }

  /** The listed ids are those before the first 0xffff_ffff. */
  lemma {:induction false} ListedExact(ids: seq<uint32>)
    ensures Listed(ids) <= ids && 0xffff_ffff !in Listed(ids)
    ensures |Listed(ids)| < |ids| ==> ids[|Listed(ids)|] == 0xffff_ffff
  {
    if ids != [] && ids[0] != INVALID_ID {
      ListedExact(ids[1..]);
    }
  }

  lemma KeptIdsFit(table: seq<uint32>, ids: seq<uint32>)
    ensures |KeptIds(table, ids)| <= |ids|
  {
    ListedFits(ids);
    FilterLength(Known(table), Listed(ids));
  }

  ghost function Clamp(n: uint32): nat {
    if n as nat > MAX_ACTIVE then MAX_ACTIVE else n as nat
  }

  /** The devices an active-devices reply reports. */
  ghost function Reported(n: uint32, devices: seq<ActiveDevice>): seq<ActiveDevice> {
    Take(devices, Clamp(n))
  }

  lemma ReportedExact(n: uint32, devices: seq<ActiveDevice>)
    requires |devices| == 256
    ensures Reported(n, devices) == devices[..if n > 256 then 256 else n as int]
  {
  }

  ghost function KeptDevices(table: seq<uint32>, n: uint32, devices: seq<ActiveDevice>): seq<ActiveDevice> {
    Filter(KnownDevice(table), Reported(n, devices))
  }

  lemma KeptDevicesFit(table: seq<uint32>, n: uint32, devices: seq<ActiveDevice>)
    ensures |KeptDevices(table, n, devices)| <= |devices| && |KeptDevices(table, n, devices)| <= MAX_ACTIVE
  {
    FilterLength(KnownDevice(table), Reported(n, devices));
  }

  /** An active-devices reply after filtering: count and array. */
  ghost function RewriteDevices(table: seq<uint32>, n: uint32, devices: seq<ActiveDevice>)
      : (r: (uint32, seq<ActiveDevice>))
    ensures |r.1| == |devices|
  {
    KeptDevicesFit(table, n, devices);
    var kept := KeptDevices(table, n, devices);
    if kept == [] then (n, devices) else (|kept| as uint32, kept + devices[|kept|..])
  }
}
