/** The ioctl filter: its global table of learned gpu ids, and what each reply does to it. */
module LearnedIds {
  import opened Sequences
  import opened CStrings
  import opened Topology
  import opened RmReplies

  const CMD_GET_ATTACHED_IDS: uint32 := 0x201
  const CMD_GET_ACTIVE_DEVICE_IDS: uint32 := 0x288
  const ATTACHED_SIZE: uint32 := 128
  const ACTIVE_SIZE: uint32 := 3076

  datatype Config = Config(ioctlFilterEnabled: bool)

  /** The parameter block of an active-devices request: a count and 256 entries. */
  class ActiveParams {
    var numDevices: uint32
    const devices: array<ActiveDevice>

    constructor (n: uint32, entries: array<ActiveDevice>)
      ensures numDevices == n && devices == entries
    {
      numDevices, devices := n, entries;
    }
  }

  /** What an RM control request's params pointer refers to. */
  datatype Payload = NullParams | GpuIds(ids: array<uint32>) | Devices(params: ActiveParams) | OtherParams

  datatype RmControl = RmControl(cmd: uint32, params: Payload, paramsSize: uint32, status: int32) {
    predicate WantsIds() {
      cmd == CMD_GET_ATTACHED_IDS && paramsSize >= ATTACHED_SIZE
    }

    predicate WantsDevices() {
      cmd == CMD_GET_ACTIVE_DEVICE_IDS && paramsSize >= ACTIVE_SIZE
    }

    /** A request's payload is what its command and size say it is. */
    predicate WellTyped() {
      (params != NullParams && WantsIds() ==> params.GpuIds? && params.ids.Length >= MAX_ATTACHED) &&
      (params != NullParams && WantsDevices() ==> params.Devices?) &&
      (params.Devices? ==> params.params.devices.Length == MAX_ACTIVE)
    }
  }

  /** The ioctl request together with the argument it comes with. */
  datatype IoctlArg = NullArg | CardInfoArg(cards: array<CardInfo>) | RmControlArg(rm: RmControl) | OtherArg {
    predicate WellTyped() {
      (CardInfoArg? ==> cards.Length == MAX_CARDS) && (RmControlArg? ==> rm.WellTyped())
    }

    /** The caller's memory behind the argument. */
    ghost function Memory(): set<object> {
      match this
      case CardInfoArg(cards) => {cards}
      case RmControlArg(rm) =>
        if rm.params.GpuIds? then {rm.params.ids}
        else if rm.params.Devices? then {rm.params.params, rm.params.params.devices}
        else {}
      case _ => {}
    }
  }

  class IoctlFilter {
    const ids: array<uint32>
    var count: nat
    ghost var history: seq<CardReply>

    ghost predicate Shape()
      reads this, ids
    {
      ids.Length == MAX_GPUS && count <= MAX_GPUS
    }

    ghost function Table(): seq<uint32>
      reads this, ids
      requires Shape()
    {
      ids[..count]
    }

    /** The table is what the whole history of card-info replies has taught. */
    ghost predicate Valid()
      reads this, ids
    {
      Shape() && Table() == FirstIds(OfferedByAll(history))
    }

    constructor ()
      ensures Valid() && fresh(ids) && history == [] && Table() == []
    {
      ids, count, history := new uint32[MAX_GPUS], 0, [];
    }

    method IsAllowedLocked(id: uint32) returns (found: bool)
      requires Shape()
      ensures found <==> id in Table()
    {
      for i := 0 to count
        invariant id !in ids[..i]
      {
        if ids[i] == id {
          return true;
        }
      }
      return false;
    }

    method RememberLocked(id: uint32)
      requires Shape()
      modifies this`count, ids
      ensures Shape() && Table() == Learn(old(Table()), id)
    {
      var known := IsAllowedLocked(id);
      if id == INVALID_ID || known || count >= MAX_GPUS {
        return;
      }
      ids[count] := id;
      count := count + 1;
    }

    method RecordCardInfo(allowed: Option<Allowed>, cards: array<CardInfo>, n: nat)
      requires Valid() && n <= cards.Length
      modifies this, ids
      ensures Valid() && history == old(history) + [CardReply(allowed, cards[..n])]
    {
      hide Learn, LearnAll, Offered, FirstIds, ContainsMinor;
      ghost var reply := CardReply(allowed, cards[..n]);
      LearnedReply(history, reply);
      NoCards(Table(), allowed);
      if allowed.None? || !allowed.value.valid {
        NothingOffered(allowed, cards[..n]);
        history := history + [reply];
        return;
      }
      var i := 0;
      assert cards[..0] == [];
      while i < n
        invariant 0 <= i <= n && Shape() && history == old(history)
        invariant Table() == LearnAll(old(Table()), Offered(allowed, cards[..i]))
      {
        var ok := false;
        if cards[i].valid != 0 {
          ok := AllowedContainsMinor(allowed, cards[i].minorNumber);
        }
        OfferNext(old(Table()), allowed, cards[..i], cards[i]);
        assert cards[..i + 1] == cards[..i] + [cards[i]];
        if ok {
          RememberLocked(cards[i].gpuId);
        }
        i := i + 1;
      }
      history := history + [reply];
    }

    method FilterCardInfo(allowed: Option<Allowed>, cards: array<CardInfo>, n: nat)
      requires n == cards.Length
      modifies cards
      ensures cards[..] == HideCards(allowed, old(cards[..]))
    {
      if allowed.None? || !allowed.value.valid {
        return;
      }
      for i := 0 to n
        invariant forall j :: 0 <= j < i ==> cards[j] == Hidden(allowed, old(cards[j]))
        invariant forall j :: i <= j < n ==> cards[j] == old(cards[j])
      {
        if cards[i].valid != 0 {
          var ok := AllowedContainsMinor(allowed, cards[i].minorNumber);
          if !ok {
            cards[i] := cards[i].(valid := 0);
          }
        }
      }
    }

    /** The scan under the lock: it stops at the first invalid id. */
    method ScanIdsLocked(gpuIds: array<uint32>, n: nat) returns (kept: seq<uint32>)
      requires Shape() && n <= gpuIds.Length
      ensures kept == KeptIds(Table(), gpuIds[..n])
    {
      ghost var all, table := gpuIds[..n], Table();
      kept := [];
      var i := 0;
      assert all[0..] == all && [] + Filter(Known(table), Listed(all)) == Filter(Known(table), Listed(all));
      while i < n && gpuIds[i] != INVALID_ID
        invariant 0 <= i <= n && |kept| <= MAX_GPUS
        invariant KeptIds(table, all) == Take(kept + Filter(Known(table), Listed(all[i..])), MAX_GPUS)
      {
        assert all[i..][0] == gpuIds[i] && all[i..][1..] == all[i + 1..];
        KeepNext(table, kept, all[i..]);
        var ok := IsAllowedLocked(gpuIds[i]);
        if ok && |kept| < MAX_GPUS {
          kept := kept + [gpuIds[i]];
        }
        i := i + 1;
      }
      assert i < n ==> all[i..][0] == INVALID_ID;
      assert kept + [] == kept;
    }

    method WriteIds(gpuIds: array<uint32>, n: nat, kept: seq<uint32>)
      requires |kept| <= n <= gpuIds.Length
      modifies gpuIds
      ensures gpuIds[..n] == kept + Padding(n - |kept|) && gpuIds[n..] == old(gpuIds[n..])
    {
      for i := 0 to n
        invariant forall j :: 0 <= j < i ==> gpuIds[j] == if j < |kept| then kept[j] else INVALID_ID
        invariant forall j :: n <= j < gpuIds.Length ==> gpuIds[j] == old(gpuIds[j])
      {
        gpuIds[i] := if i < |kept| then kept[i] else INVALID_ID;
      }
    }

    method FilterGpuIdArray(gpuIds: array?<uint32>, n: nat) returns (count': nat)
      requires Shape() && gpuIds != ids && (gpuIds != null ==> n <= gpuIds.Length)
      modifies gpuIds
      ensures gpuIds == null ==> count' == 0
      ensures gpuIds != null ==>
                count' == |KeptIds(Table(), old(gpuIds[..n]))| &&
                gpuIds[..n] == RewriteIds(Table(), old(gpuIds[..n])) && gpuIds[n..] == old(gpuIds[n..])
    {
      if gpuIds == null || n == 0 {
        return 0;
      }
      if count == 0 {
        NoneKnown(gpuIds[..n]);
        return 0;
      }
      var kept := ScanIdsLocked(gpuIds, n);
      KeptIdsFit(Table(), gpuIds[..n]);
      if |kept| == 0 {
        return 0;
      }
      WriteIds(gpuIds, n, kept);
      return |kept|;
    }

    method ScanDevicesLocked(params: ActiveParams) returns (kept: seq<ActiveDevice>)
      requires Shape() && params.devices.Length == MAX_ACTIVE
      ensures kept == KeptDevices(Table(), params.numDevices, params.devices[..])
    {
      ghost var all, table := params.devices[..], Table();
      var limit := if params.numDevices > 256 then 256 else params.numDevices;
      kept := [];
      for i := 0 to limit as int
        invariant kept == Filter(KnownDevice(table), all[..i])
      {
        assert all[..i + 1] == all[..i] + [all[i]];
        FilterSnoc(KnownDevice(table), all[..i], all[i]);
        var ok := IsAllowedLocked(params.devices[i].gpuId);
        if ok {
          kept := kept + [params.devices[i]];
        }
      }
      assert all[..|all|] == all;
    }

    method FilterActiveDevices(params: ActiveParams?)
      requires Shape() && (params != null ==> params.devices.Length == MAX_ACTIVE)
      modifies if params == null then {} else {params, params.devices as object}
      ensures params != null ==>
                (params.numDevices, params.devices[..]) ==
                RewriteDevices(Table(), old(params.numDevices), old(params.devices[..]))
    {
      if params == null {
        return;
      }
      if count == 0 {
        NoneKnownDevices(params.numDevices, params.devices[..]);
        return;
      }
      var kept := ScanDevicesLocked(params);
      KeptDevicesFit(Table(), params.numDevices, params.devices[..]);
      if |kept| == 0 {
        return;
      }
      forall k | 0 <= k < |kept| {
        params.devices[k] := kept[k];
      }
      params.numDevices := |kept| as uint32;
      assert params.devices[..] == kept + old(params.devices[..])[|kept|..];
    }

    method FilterRmControl(cfg: Option<Config>, allowed: Option<Allowed>, rm: RmControl, result: int32)
      requires Shape() && rm.WellTyped() && ids !in RmControlArg(rm).Memory()
      modifies RmControlArg(rm).Memory()
      ensures rm.params.GpuIds? ==>
                rm.params.ids[..] ==
                if cfg == Some(Config(true)) && allowed.Some? && allowed.value.valid && result == 0 &&
                   rm.status == 0 && rm.cmd == 0x201 && rm.paramsSize >= 128
                then RewriteIds(Table(), old(rm.params.ids[..])[..MAX_ATTACHED]) +
                     old(rm.params.ids[..])[MAX_ATTACHED..]
                else old(rm.params.ids[..])
      ensures rm.params.Devices? ==>
                (rm.params.params.numDevices, rm.params.params.devices[..]) ==
                if cfg == Some(Config(true)) && allowed.Some? && allowed.value.valid && result == 0 &&
                   rm.status == 0 && rm.cmd == 0x288 && rm.paramsSize >= 3076
                then RewriteDevices(Table(), old(rm.params.params.numDevices), old(rm.params.params.devices[..]))
                else old((rm.params.params.numDevices, rm.params.params.devices[..]))
    {
      if cfg.None? || !cfg.value.ioctlFilterEnabled || allowed.None? || !allowed.value.valid || result != 0 ||
         rm.status != 0 || rm.params.NullParams? {
        return;
      }
      if rm.WantsIds() {
        var gpuIds := rm.params.ids;
        ghost var before := gpuIds[..];
        assert gpuIds[..MAX_ATTACHED] == before[..MAX_ATTACHED] && gpuIds[MAX_ATTACHED..] == before[MAX_ATTACHED..];
        var kept := FilterGpuIdArray(gpuIds, MAX_ATTACHED);
        assert gpuIds[..] == gpuIds[..MAX_ATTACHED] + gpuIds[MAX_ATTACHED..];
      } else if rm.WantsDevices() {
        FilterActiveDevices(rm.params.params);
      }
    }

    /** nvfix_ioctl_filter_after: what one ioctl reply does to the table and to the caller's memory. */
    method FilterAfter(cfg: Option<Config>, allowed: Option<Allowed>, arg: IoctlArg, result: int32)
      requires Valid() && arg.WellTyped() && ids !in arg.Memory() && this !in arg.Memory()
      modifies this, ids, arg.Memory()
      ensures Valid()
      ensures result != 0 || !arg.CardInfoArg? ==> history == old(history) && Table() == old(Table())
      ensures result != 0 && arg.CardInfoArg? ==> arg.cards[..] == old(arg.cards[..])
      ensures result == 0 && arg.CardInfoArg? ==>
                history == old(history) + [CardReply(allowed, old(arg.cards[..]))] &&
                arg.cards[..] ==
                if cfg == Some(Config(true)) then HideCards(allowed, old(arg.cards[..])) else old(arg.cards[..])
      ensures arg.RmControlArg? && arg.rm.params.GpuIds? ==>
                arg.rm.params.ids[..] ==
                if cfg == Some(Config(true)) && allowed.Some? && allowed.value.valid && result == 0 &&
                   arg.rm.status == 0 && arg.rm.cmd == 0x201 && arg.rm.paramsSize >= 128
                then RewriteIds(Table(), old(arg.rm.params.ids[..])[..MAX_ATTACHED]) +
                     old(arg.rm.params.ids[..])[MAX_ATTACHED..]
                else old(arg.rm.params.ids[..])
      ensures arg.RmControlArg? && arg.rm.params.Devices? ==>
                (arg.rm.params.params.numDevices, arg.rm.params.params.devices[..]) ==
                if cfg == Some(Config(true)) && allowed.Some? && allowed.value.valid && result == 0 &&
                   arg.rm.status == 0 && arg.rm.cmd == 0x288 && arg.rm.paramsSize >= 3076
                then RewriteDevices(Table(), old(arg.rm.params.params.numDevices),
                                    old(arg.rm.params.params.devices[..]))
                else old((arg.rm.params.params.numDevices, arg.rm.params.params.devices[..]))
    {
      if result != 0 || arg.NullArg? {
        return;
      }
      match arg
      case CardInfoArg(cards) =>
        assert cards[..MAX_CARDS] == cards[..];
        RecordCardInfo(allowed, cards, MAX_CARDS);
        if cfg.Some? && cfg.value.ioctlFilterEnabled {
          FilterCardInfo(allowed, cards, MAX_CARDS);
        }
      case RmControlArg(rm) =>
        FilterRmControl(cfg, allowed, rm, result);
      case OtherArg =>
    }
  }

  // ----- steps of the loops above, on values

  lemma LearnedReply(history: seq<CardReply>, reply: CardReply)
    ensures FirstIds(OfferedByAll(history + [reply])) ==
            LearnAll(FirstIds(OfferedByAll(history)), Offered(reply.allowed, reply.cards))
  {
    var before, offered := OfferedByAll(history), Offered(reply.allowed, reply.cards);
    assert (history + [reply])[..|history|] == history;
    OfferedByAllValid(history);
    OfferedByAllValid(history + [reply]);
    LearnAllIsFirstIds(before);
    LearnAllIsFirstIds(before + offered);
    LearnAllAppend([], before, offered);
  }

  lemma NoCards(table: seq<uint32>, allowed: Option<Allowed>)
    ensures LearnAll(table, Offered(allowed, [])) == table && LearnAll(table, []) == table
  {
  }

  lemma NothingOffered(allowed: Option<Allowed>, cards: seq<CardInfo>)
    requires allowed.None? || !allowed.value.valid
    ensures Offered(allowed, cards) == []
  {
    var kept := Filter(Offers(allowed), cards);
    if kept != [] {
      assert kept[0] in kept;
      FilterMembers(Offers(allowed), cards, kept[0]);
    }
  }

  lemma OfferNext(table: seq<uint32>, allowed: Option<Allowed>, cards: seq<CardInfo>, card: CardInfo)
    ensures LearnAll(table, Offered(allowed, cards + [card])) ==
            if card.valid != 0 && ContainsMinor(allowed, card.minorNumber)
            then Learn(LearnAll(table, Offered(allowed, cards)), card.gpuId)
            else LearnAll(table, Offered(allowed, cards))
  {
    var kept := Filter(Offers(allowed), cards);
    FilterSnoc(Offers(allowed), cards, card);
    if Offers(allowed)(card) {
      IdsAppend(kept, [card]);
      assert Ids([card]) == [card.gpuId];
      assert (Ids(kept) + [card.gpuId])[..|kept|] == Ids(kept);
    } else {
      assert kept + [] == kept;
    }
  }

  lemma NoneKnown(ids: seq<uint32>)
    ensures KeptIds([], ids) == []
  {
    var kept := Filter(Known([]), Listed(ids));
    if kept != [] {
      assert kept[0] in kept;
      FilterMembers(Known([]), Listed(ids), kept[0]);
    }
  }

  lemma NoneKnownDevices(n: uint32, devices: seq<ActiveDevice>)
    ensures KeptDevices([], n, devices) == []
  {
    var kept := KeptDevices([], n, devices);
    if kept != [] {
      assert kept[0] in kept;
      FilterMembers(KnownDevice([]), Reported(n, devices), kept[0]);
    }
  }

  lemma KeepNext(table: seq<uint32>, found: seq<uint32>, rest: seq<uint32>)
    requires rest != [] && rest[0] != INVALID_ID && |found| <= MAX_GPUS
    ensures var more := Filter(Known(table), Listed(rest[1..]));
            Take(found + Filter(Known(table), Listed(rest)), MAX_GPUS) ==
            if rest[0] in table && |found| < MAX_GPUS then Take(found + [rest[0]] + more, MAX_GPUS)
            else Take(found + more, MAX_GPUS)
  {
    var more := Filter(Known(table), Listed(rest[1..]));
    var all := Filter(Known(table), Listed(rest));
    assert Listed(rest) == [rest[0]] + Listed(rest[1..]) && Listed(rest)[1..] == Listed(rest[1..]);
    if rest[0] !in table {
      assert all == more;
    } else {
      assert all == [rest[0]] + more;
      assert found + all == found + [rest[0]] + more;
      if |found| == MAX_GPUS {
        assert Take(found + all, MAX_GPUS) == found == Take(found + more, MAX_GPUS);
      }
    }
  }
}
