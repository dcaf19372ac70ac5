/** What rewriting replies promises, for one reply and over whole runs of them. */
module ReplyLaws {
  import opened Sequences
  import opened CStrings
  import opened Topology
  import opened RmReplies

  // ----- one attached-ids reply

  lemma {:induction false} ListedPadded(kept: seq<uint32>, n: nat)
    requires INVALID_ID !in kept
    ensures Listed(kept + Padding(n)) == kept
  {
    if kept == [] {
      assert [] + Padding(n) == Padding(n);
    } else {
      assert kept[0] in kept && (kept + Padding(n))[1..] == kept[1..] + Padding(n);
      ListedPadded(kept[1..], n);
    }
  }

  lemma KeptIdsExact(table: seq<uint32>, ids: seq<uint32>)
    requires |ids| <= MAX_ATTACHED
    ensures KeptIds(table, ids) == Filter(Known(table), Listed(ids))
    ensures INVALID_ID !in KeptIds(table, ids)
    ensures forall id :: id in KeptIds(table, ids) <==> id in table && id in Listed(ids)
  {
    ListedFits(ids);
    FilterLength(Known(table), Listed(ids));
    forall id ensures id in KeptIds(table, ids) <==> id in table && id in Listed(ids) {
      FilterMembers(Known(table), Listed(ids), id);
    }
  }

  /**
   A rewritten list shows the known ids in order, padded with the invalid id, or is untouched when
   none is known; so it adds no id, empties no list, and a second pass changes nothing.
   */
  lemma AttachedExact(table: seq<uint32>, ids: seq<uint32>)
    requires |ids| <= MAX_ATTACHED
    ensures var out := RewriteIds(table, ids);
            if exists id :: id in table && id in Listed(ids)
            then Listed(out) == Filter(Known(table), Listed(ids)) &&
                 forall i :: |Listed(out)| <= i < |out| ==> out[i] == INVALID_ID
            else out == ids
    ensures forall id :: id in Listed(RewriteIds(table, ids)) ==> id in Listed(ids)
    ensures Listed(RewriteIds(table, ids)) == [] <==> Listed(ids) == []
    ensures RewriteIds(table, RewriteIds(table, ids)) == RewriteIds(table, ids)
  {
    var kept, out := KeptIds(table, ids), RewriteIds(table, ids);
    KeptIdsExact(table, ids);
    if kept == [] {
      assert forall id :: id in table && id in Listed(ids) ==> id in kept;
    } else {
      assert kept[0] in kept;
      ListedPadded(kept, |ids| - |kept|);
      FilterTwice(Known(table), Listed(ids));
      KeptIdsExact(table, out);
    }
  }

  // ----- one active-devices reply

  /**
   A rewritten device list reports the known devices of the first min(n, 256) in order and with every
   field, later entries stay, and it is untouched when none is known.
   */
  lemma ActiveExact(table: seq<uint32>, n: uint32, devices: seq<ActiveDevice>)
    requires |devices| == MAX_ACTIVE
    ensures var (count, out) := RewriteDevices(table, n, devices);
            if exists d :: d in Reported(n, devices) && d.gpuId in table
            then Reported(count, out) == Filter(KnownDevice(table), Reported(n, devices)) &&
                 count as nat == |Reported(count, out)| && out[count..] == devices[count..]
            else (count, out) == (n, devices)
    ensures var (count, out) := RewriteDevices(table, n, devices);
            RewriteDevices(table, count, out) == (count, out)
  {
    var kept := KeptDevices(table, n, devices);
    var (count, out) := RewriteDevices(table, n, devices);
    KeptDevicesFit(table, n, devices);
    forall d ensures d in kept <==> d in Reported(n, devices) && d.gpuId in table {
      FilterMembers(KnownDevice(table), Reported(n, devices), d);
    }
    if kept != [] {
      assert kept[0] in kept;
      assert Reported(count, out) == kept;
      FilterTwice(KnownDevice(table), Reported(n, devices));
      assert KeptDevices(table, count, out) == kept;
      assert kept + out[|kept|..] == out;
    }
  }

  /** A larger table shows a supersequence of what a smaller one shows. */
  lemma ActiveMonotone(small: seq<uint32>, large: seq<uint32>, n: uint32, devices: seq<ActiveDevice>)
    requires |devices| == MAX_ACTIVE && forall id :: id in small ==> id in large
    requires exists d :: d in Reported(n, devices) && d.gpuId in small
    ensures var (a, shown) := RewriteDevices(small, n, devices);
            var (b, shown') := RewriteDevices(large, n, devices);
            Subsequence(Reported(a, shown), Reported(b, shown'))
  {
    ActiveExact(small, n, devices);
    ActiveExact(large, n, devices);
    FilterMonotone(KnownDevice(small), KnownDevice(large), Reported(n, devices));
  }

  // ----- whole runs

  /** A successful reply of the driver, as it came. */
  datatype Reply =
    | Cards(cards: seq<CardInfo>)
    | Attached(ids: seq<uint32>)
    | Active(n: uint32, devices: seq<ActiveDevice>)

  ghost function History(allowed: Option<Allowed>, run: seq<Reply>): seq<CardReply> {
    if run == [] then []
    else
      var last := run[|run| - 1];
      History(allowed, run[..|run| - 1]) + if last.Cards? then [CardReply(allowed, last.cards)] else []
  }

  /** Every id the run's card-info replies offered, in order. */
  ghost function RunOffers(allowed: Option<Allowed>, run: seq<Reply>): seq<uint32> {
    OfferedByAll(History(allowed, run))
  }

  ghost function TableAfter(allowed: Option<Allowed>, run: seq<Reply>): seq<uint32> {
    FirstIds(RunOffers(allowed, run))
  }

  ghost predicate Truthful(minorOf: uint32 -> uint32, reply: Reply) {
    reply.Cards? ==>
      forall i :: 0 <= i < |reply.cards| && reply.cards[i].valid != 0 ==>
        reply.cards[i].minorNumber == minorOf(reply.cards[i].gpuId)
  }

  /** A driver whose gpu ids always belong to the same minors. */
  ghost predicate Stable(minorOf: uint32 -> uint32, run: seq<Reply>) {
    forall i :: 0 <= i < |run| ==> Truthful(minorOf, run[i])
  }

  ghost function IdAllowed(allowed: Option<Allowed>, minorOf: uint32 -> uint32): uint32 -> bool {
    id => ContainsMinor(allowed, minorOf(id))
  }

  ghost function DeviceAllowed(allowed: Option<Allowed>, minorOf: uint32 -> uint32): ActiveDevice -> bool {
    (d: ActiveDevice) => ContainsMinor(allowed, minorOf(d.gpuId))
  }

  lemma OfferedAllowed(allowed: Option<Allowed>, minorOf: uint32 -> uint32, reply: Reply, id: uint32)
    requires reply.Cards? && Truthful(minorOf, reply) && id in Offered(allowed, reply.cards)
    ensures IdAllowed(allowed, minorOf)(id)
  {
    var kept := Filter(Offers(allowed), reply.cards);
    var i :| 0 <= i < |kept| && id == Offered(allowed, reply.cards)[i];
    assert kept[i] in kept;
    FilterMembers(Offers(allowed), reply.cards, kept[i]);
  }

  lemma {:induction false} RunOffersAllowed(allowed: Option<Allowed>, minorOf: uint32 -> uint32, run: seq<Reply>)
    requires Stable(minorOf, run)
    ensures forall id :: id in RunOffers(allowed, run) ==> IdAllowed(allowed, minorOf)(id)
  {
    if run != [] {
      var front, last := run[..|run| - 1], run[|run| - 1];
      var history := History(allowed, front);
      RunOffersAllowed(allowed, minorOf, front);
      assert Truthful(minorOf, last);
      if last.Cards? {
        assert (history + [CardReply(allowed, last.cards)])[..|history|] == history;
        forall id | id in Offered(allowed, last.cards) ensures IdAllowed(allowed, minorOf)(id) {
          OfferedAllowed(allowed, minorOf, last, id);
        }
      } else {
        assert History(allowed, run) == history;
      }
    }
  }

  /** After any run, only ids of allowed GPUs are in the table. */
  lemma TableAllowed(allowed: Option<Allowed>, minorOf: uint32 -> uint32, run: seq<Reply>)
    requires Stable(minorOf, run)
    ensures forall id :: id in TableAfter(allowed, run) ==> IdAllowed(allowed, minorOf)(id)
  {
    RunOffersAllowed(allowed, minorOf, run);
    OfferedByAllValid(History(allowed, run));
    FirstIdsSound(RunOffers(allowed, run));
  }

  /**
   An attached-ids reply shows allowed GPUs only, exactly if some id in it has been learned or there
   was nothing to hide.
   */
  lemma AttachedViewSound(allowed: Option<Allowed>, minorOf: uint32 -> uint32, run: seq<Reply>, ids: seq<uint32>)
    requires Stable(minorOf, run) && |ids| <= MAX_ATTACHED
    ensures var table := TableAfter(allowed, run);
            (forall id :: id in Listed(RewriteIds(table, ids)) ==> IdAllowed(allowed, minorOf)(id)) <==>
            (exists id :: id in table && id in Listed(ids)) ||
            (forall id :: id in Listed(ids) ==> IdAllowed(allowed, minorOf)(id))
  {
    var table := TableAfter(allowed, run);
    TableAllowed(allowed, minorOf, run);
    AttachedExact(table, ids);
    KeptIdsExact(table, ids);
    if exists id :: id in table && id in Listed(ids) {
      forall id | id in Listed(RewriteIds(table, ids)) ensures IdAllowed(allowed, minorOf)(id) {
        FilterMembers(Known(table), Listed(ids), id);
      }
    }
  }

  /** It can fail: before any id has been learned, a full reply of one forbidden id shows it. */
  lemma UnlearnedIdShows(allowed: Option<Allowed>, minorOf: uint32 -> uint32, id: uint32)
    requires id != INVALID_ID && !IdAllowed(allowed, minorOf)(id)
    ensures Stable(minorOf, []) && TableAfter(allowed, []) == []
    ensures |[id] + Padding(31)| == MAX_ATTACHED
    ensures Listed(RewriteIds(TableAfter(allowed, []), [id] + Padding(31))) == [id]
  {
    AttachedExact([], [id] + Padding(31));
    ListedPadded([id], 31);
  }

  /**
   If at most 32 distinct ids were offered, and every allowed id in the reply was among them, the
   reply shows exactly its allowed ids (or is untouched because it has none).
   */
  lemma AttachedViewExact(allowed: Option<Allowed>, minorOf: uint32 -> uint32, run: seq<Reply>, ids: seq<uint32>)
    requires Stable(minorOf, run) && |ids| <= MAX_ATTACHED && |Distinct(RunOffers(allowed, run))| <= MAX_GPUS
    requires forall id :: id in Listed(ids) && IdAllowed(allowed, minorOf)(id) ==> id in RunOffers(allowed, run)
    ensures var shown := Filter(IdAllowed(allowed, minorOf), Listed(ids));
            Listed(RewriteIds(TableAfter(allowed, run), ids)) == if shown == [] then Listed(ids) else shown
  {
    var table := TableAfter(allowed, run);
    TableAllowed(allowed, minorOf, run);
    OfferedByAllValid(History(allowed, run));
    FirstIdsSound(RunOffers(allowed, run));
    AttachedExact(table, ids);
    KeptIdsExact(table, ids);
    FilterAgree(IdAllowed(allowed, minorOf), Known(table), Listed(ids));
    var kept := KeptIds(table, ids);
    assert kept != [] ==> kept[0] in kept;
    assert (exists id :: id in table && id in Listed(ids)) ==> kept != [];
  }

  /** The same for active devices. */
  lemma ActiveViewExact(allowed: Option<Allowed>, minorOf: uint32 -> uint32, run: seq<Reply>,
                        n: uint32, devices: seq<ActiveDevice>)
    requires Stable(minorOf, run) && |devices| == MAX_ACTIVE && |Distinct(RunOffers(allowed, run))| <= MAX_GPUS
    requires forall d :: d in Reported(n, devices) && DeviceAllowed(allowed, minorOf)(d) ==>
               d.gpuId in RunOffers(allowed, run)
    ensures var shown := Filter(DeviceAllowed(allowed, minorOf), Reported(n, devices));
            var (count, out) := RewriteDevices(TableAfter(allowed, run), n, devices);
            Reported(count, out) == if shown == [] then Reported(n, devices) else shown
  {
    var table := TableAfter(allowed, run);
    TableAllowed(allowed, minorOf, run);
    OfferedByAllValid(History(allowed, run));
    FirstIdsSound(RunOffers(allowed, run));
    ActiveExact(table, n, devices);
    forall d | d in Reported(n, devices) ensures DeviceAllowed(allowed, minorOf)(d) == KnownDevice(table)(d) {
      if KnownDevice(table)(d) {
        assert IdAllowed(allowed, minorOf)(d.gpuId);
      }
    }
    FilterAgree(DeviceAllowed(allowed, minorOf), KnownDevice(table), Reported(n, devices));
    var kept := KeptDevices(table, n, devices);
    if kept != [] {
      assert kept[0] in kept;
    }
    forall d ensures d in kept <==> d in Reported(n, devices) && d.gpuId in table {
      FilterMembers(KnownDevice(table), Reported(n, devices), d);
    }
  }

  lemma ActiveViewSound(allowed: Option<Allowed>, minorOf: uint32 -> uint32, run: seq<Reply>,
                        n: uint32, devices: seq<ActiveDevice>)
    requires Stable(minorOf, run) && |devices| == MAX_ACTIVE
    ensures var table := TableAfter(allowed, run);
            var (count, out) := RewriteDevices(table, n, devices);
            (forall d :: d in Reported(count, out) ==> DeviceAllowed(allowed, minorOf)(d)) <==>
            (exists d :: d in Reported(n, devices) && d.gpuId in table) ||
            (forall d :: d in Reported(n, devices) ==> DeviceAllowed(allowed, minorOf)(d))
  {
    var table := TableAfter(allowed, run);
    TableAllowed(allowed, minorOf, run);
    ActiveExact(table, n, devices);
    if exists d :: d in Reported(n, devices) && d.gpuId in table {
      var (count, out) := RewriteDevices(table, n, devices);
      forall d | d in Reported(count, out) ensures DeviceAllowed(allowed, minorOf)(d) {
        FilterMembers(KnownDevice(table), Reported(n, devices), d);
        assert IdAllowed(allowed, minorOf)(d.gpuId);
      }
    }
  }

  /** It can fail in the same way: one forbidden device is reported as it is. */
  lemma UnlearnedDeviceShows(allowed: Option<Allowed>, minorOf: uint32 -> uint32, d: ActiveDevice)
    requires !DeviceAllowed(allowed, minorOf)(d)
    ensures Stable(minorOf, []) && TableAfter(allowed, []) == []
    ensures var devices := seq<ActiveDevice>(MAX_ACTIVE, i => d);
            var (count, out) := RewriteDevices(TableAfter(allowed, []), 1, devices);
            Reported(count, out) == [d]
  {
    ActiveExact([], 1, seq<ActiveDevice>(MAX_ACTIVE, i => d));
  }

  // ----- agreement with the cards left valid

  ghost function LeftValid(): CardInfo -> bool {
    (card: CardInfo) => card.valid != 0 && card.gpuId != INVALID_ID
  }

  /** The ids of the cards a caller still sees as valid are exactly the ids offered for learning. */
  lemma {:induction false} CardsAgree(allowed: Option<Allowed>, cards: seq<CardInfo>)
    requires allowed.Some? && allowed.value.valid
    ensures Ids(Filter(LeftValid(), HideCards(allowed, cards))) == Offered(allowed, cards)
  {
    if cards != [] {
      CardsAgree(allowed, cards[1..]);
      assert HideCards(allowed, cards)[1..] == HideCards(allowed, cards[1..]);
      var rest := Filter(LeftValid(), HideCards(allowed, cards[1..]));
      var kept := Filter(Offers(allowed), cards[1..]);
      var head := Hidden(allowed, cards[0]);
      assert ([head] + rest)[1..] == rest && ([cards[0]] + kept)[1..] == kept;
      assert [] + rest == rest && [] + kept == kept;
    }
  }

  /** A caller of the run still sees a valid card with this id. */
  ghost predicate SeesCard(allowed: Option<Allowed>, run: seq<Reply>, id: uint32) {
    exists i :: 0 <= i < |run| && ShowsCard(allowed, run[i], id)
  }

  ghost predicate ShowsCard(allowed: Option<Allowed>, reply: Reply, id: uint32) {
    reply.Cards? && id in Ids(Filter(LeftValid(), HideCards(allowed, reply.cards)))
  }

  lemma {:induction false} OffersAreCards(allowed: Option<Allowed>, run: seq<Reply>, id: uint32)
    requires allowed.Some? && allowed.value.valid
    ensures id in RunOffers(allowed, run) <==> SeesCard(allowed, run, id)
  {
    if run != [] {
      var front, last := run[..|run| - 1], run[|run| - 1];
      var history := History(allowed, front);
      OffersAreCards(allowed, front, id);
      assert forall i :: 0 <= i < |front| ==> front[i] == run[i];
      assert SeesCard(allowed, run, id) <==> SeesCard(allowed, front, id) || ShowsCard(allowed, last, id);
      if last.Cards? {
        assert (history + [CardReply(allowed, last.cards)])[..|history|] == history;
        CardsAgree(allowed, last.cards);
      } else {
        assert History(allowed, run) == history;
      }
    }
  }

  /** The channels agree: the ids known to the table are those of the cards callers still see as valid. */
  lemma TableAgreesWithCards(allowed: Option<Allowed>, run: seq<Reply>, id: uint32)
    requires allowed.Some? && allowed.value.valid && |Distinct(RunOffers(allowed, run))| <= MAX_GPUS
    ensures id in TableAfter(allowed, run) <==> SeesCard(allowed, run, id)
  {
    OffersAreCards(allowed, run, id);
    OfferedByAllValid(History(allowed, run));
    FirstIdsSound(RunOffers(allowed, run));
  }
}
