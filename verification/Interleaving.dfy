/**
 Filter calls of many threads, interleaved step by step.  The lock protects the table; the reply
 buffers belong to their callers.  Filtering is enabled and the allow-list is fixed.
 */
module Interleaving {
  import opened Sequences
  import opened CStrings
  import opened Topology
  import opened RmReplies
  import LearnedIds

  /** A reply handed to the filter, or what the filter made of it. */
  datatype Call =
    | CardCall(cards: seq<CardInfo>)
    | IdsCall(ids: seq<uint32>)
    | DevicesCall(n: uint32, devices: seq<ActiveDevice>)
  {
    ghost predicate WellFormed() {
      DevicesCall? ==> |devices| == MAX_ACTIVE
    }

    /** The scan has nothing left to look at. */
    predicate AtEnd(i: nat) {
      match this
      case CardCall(cards) => i >= |cards|
      case IdsCall(ids) => i >= |ids| || ids[i] == INVALID_ID
      case DevicesCall(n, devices) => i >= |devices| || i >= n as nat
    }
  }

  /** A thread's scratch array. */
  datatype Kept = Ids(ids: seq<uint32>) | Devices(devices: seq<ActiveDevice>)

  datatype Thread =
    | Waiting(call: Call)                         // has not yet taken the lock
    | Learning(call: Call, next: nat)             // holds it, recording cards
    | Hiding(call: Call)                          // released it, cards not yet hidden
    | Scanning(call: Call, next: nat, kept: Kept) // holds it, collecting known entries
    | Unlocked(call: Call, kept: Kept)            // released it, reply not yet rewritten
    | Returned(call: Call, reply: Call)

  /** log lists the card-info replies recorded so far, in the order their recording ended. */
  datatype State = State(table: seq<uint32>, holder: Option<nat>, threads: seq<Thread>, log: seq<CardReply>)

  ghost function Visit(table: seq<uint32>, call: Call, i: nat, kept: Kept): Kept
    requires !call.AtEnd(i)
  {
    match call
    case CardCall(_) => kept
    case IdsCall(ids) =>
      if kept.Ids? && ids[i] in table && |kept.ids| < MAX_GPUS then Ids(kept.ids + [ids[i]]) else kept
    case DevicesCall(_, devices) =>
      if kept.Devices? && devices[i].gpuId in table then Devices(kept.devices + [devices[i]]) else kept
  }

  /** Writing the scratch array back to the caller's buffer, unless it is empty. */
  ghost function Finish(call: Call, kept: Kept): Call {
    match call
    case CardCall(_) => call
    case IdsCall(ids) =>
      if kept.Ids? && 0 < |kept.ids| <= |ids| then IdsCall(kept.ids + Padding(|ids| - |kept.ids|)) else call
    case DevicesCall(_, devices) =>
      if kept.Devices? && 0 < |kept.devices| <= |devices| && |kept.devices| <= MAX_ACTIVE
      then DevicesCall(|kept.devices| as uint32, kept.devices + devices[|kept.devices|..])
      else call
  }

  ghost function NoneKept(call: Call): Kept {
    if call.DevicesCall? then Devices([]) else Ids([])
  }

  ghost predicate CanStep(s: State, t: nat) {
    t < |s.threads| && !s.threads[t].Returned? && (s.threads[t].Waiting? ==> s.holder.None?)
  }

  ghost function Put(s: State, t: nat, thread: Thread): State
    requires t < |s.threads|
  {
    s.(threads := s.threads[t := thread])
  }

  /** The next step of one thread. */
  ghost function StepOf(allowed: Option<Allowed>, s: State, t: nat): (s': State)
    requires CanStep(s, t)
    ensures |s'.threads| == |s.threads|
  {
    match s.threads[t]
    case Waiting(call) =>
      Put(s, t, if call.CardCall? then Learning(call, 0) else Scanning(call, 0, NoneKept(call))).(holder := Some(t))
    case Learning(call, i) =>
      if !call.CardCall? then s
      else if i < |call.cards| then
        var card := call.cards[i];
        var learns := card.valid != 0 && ContainsMinor(allowed, card.minorNumber);
        Put(s, t, Learning(call, i + 1)).(table := if learns then Learn(s.table, card.gpuId) else s.table)
      else Put(s, t, Hiding(call)).(holder := None, log := s.log + [CardReply(allowed, call.cards)])
    case Hiding(call) =>
      Put(s, t, Returned(call, if call.CardCall? then CardCall(HideCards(allowed, call.cards)) else call))
    case Scanning(call, i, kept) =>
      if s.table == [] then Put(s, t, Returned(call, call)).(holder := None)
      else if call.AtEnd(i) then Put(s, t, Unlocked(call, kept)).(holder := None)
      else Put(s, t, Scanning(call, i + 1, Visit(s.table, call, i, kept)))
    case Unlocked(call, kept) => Put(s, t, Returned(call, Finish(call, kept)))
    case Returned(_, _) => s
  }

  ghost predicate Step(allowed: Option<Allowed>, s: State, s': State) {
    (exists t: nat :: CanStep(s, t) && s' == StepOf(allowed, s, t)) ||
    (exists call: Call :: call.WellFormed() && s' == s.(threads := s.threads + [Waiting(call)]))
  }

  ghost predicate Execution(allowed: Option<Allowed>, e: seq<State>) {
    |e| > 0 && e[0] == State([], None, [], []) && forall i :: 0 <= i < |e| - 1 ==> Step(allowed, e[i], e[i + 1])
  }

  // ----- the invariant

  /** What a scan of the first i entries keeps. */
  ghost function ScanTo(table: seq<uint32>, call: Call, i: nat): Kept {
    match call
    case CardCall(_) => Ids([])
    case IdsCall(ids) => Ids(Take(Filter(Known(table), Take(ids, i)), MAX_GPUS))
    case DevicesCall(_, devices) => Devices(Filter(KnownDevice(table), Take(devices, i)))
  }

  /** The scan has passed only entries it had to look at. */
  ghost predicate Reached(call: Call, i: nat) {
    forall j :: 0 <= j < i ==> !call.AtEnd(j)
  }

  ghost predicate ThreadOk(s: State, t: nat)
    requires t < |s.threads|
  {
    s.threads[t].call.WellFormed() &&
    match s.threads[t]
    case Learning(call, i) => s.holder == Some(t) && call.CardCall? && i <= |call.cards|
    case Hiding(call) => call.CardCall?
    case Scanning(call, i, kept) =>
      s.holder == Some(t) && !call.CardCall? && Reached(call, i) && kept == ScanTo(s.table, call, i)
    case Unlocked(call, _) => !call.CardCall?
    case _ => true
  }

  ghost predicate HolderOk(s: State) {
    s.holder.Some? ==>
      s.holder.value < |s.threads| &&
      (s.threads[s.holder.value].Learning? || s.threads[s.holder.value].Scanning?)
  }

  /** Ids offered by the recorded replies, and by the cards a thread is in the middle of recording. */
  ghost function OfferedSoFar(allowed: Option<Allowed>, s: State): seq<uint32> {
    OfferedByAll(s.log) + InProgress(allowed, s)
  }

  ghost function InProgress(allowed: Option<Allowed>, s: State): seq<uint32> {
    if s.holder.Some? && s.holder.value < |s.threads| && s.threads[s.holder.value].Learning? &&
       s.threads[s.holder.value].call.CardCall?
    then Offered(allowed, Take(s.threads[s.holder.value].call.cards, s.threads[s.holder.value].next))
    else []
  }

  ghost predicate Inv(allowed: Option<Allowed>, s: State) {
    (forall t :: 0 <= t < |s.threads| ==> ThreadOk(s, t)) && HolderOk(s) &&
    s.table == LearnAll([], OfferedSoFar(allowed, s))
  }

  lemma OfferOneMore(allowed: Option<Allowed>, done: seq<uint32>, cards: seq<CardInfo>, i: nat)
    requires i < |cards|
    ensures var table := LearnAll([], done + Offered(allowed, Take(cards, i)));
            LearnAll([], done + Offered(allowed, Take(cards, i + 1))) ==
            if cards[i].valid != 0 && ContainsMinor(allowed, cards[i].minorNumber)
            then Learn(table, cards[i].gpuId) else table
  {
    hide ContainsMinor, Learn, LearnAll, Offered;
    assert Take(cards, i + 1) == Take(cards, i) + [cards[i]];
    LearnedIds.OfferNext(LearnAll([], done), allowed, Take(cards, i), cards[i]);
    LearnAllAppend([], done, Offered(allowed, Take(cards, i)));
    LearnAllAppend([], done, Offered(allowed, Take(cards, i + 1)));
  }

  lemma LearnNextCard(allowed: Option<Allowed>, s: State, t: nat)
    requires Inv(allowed, s) && CanStep(s, t) && s.threads[t].Learning?
    requires s.threads[t].call.CardCall? && s.threads[t].next < |s.threads[t].call.cards|
    ensures var s' := StepOf(allowed, s, t); s'.table == LearnAll([], OfferedSoFar(allowed, s'))
  {
    hide ContainsMinor, Learn, LearnAll, Offered;
    assert ThreadOk(s, t);
    OfferOneMore(allowed, OfferedByAll(s.log), s.threads[t].call.cards, s.threads[t].next);
    assert StepOf(allowed, s, t).threads[t] == Learning(s.threads[t].call, s.threads[t].next + 1);
  }

  lemma FinishLearning(allowed: Option<Allowed>, s: State, t: nat)
    requires Inv(allowed, s) && CanStep(s, t) && s.threads[t].Learning?
    requires s.threads[t].call.CardCall? && s.threads[t].next == |s.threads[t].call.cards|
    ensures var s' := StepOf(allowed, s, t); s'.table == LearnAll([], OfferedSoFar(allowed, s'))
  {
    assert ThreadOk(s, t);
    var s' := StepOf(allowed, s, t);
    assert s'.log[..|s.log|] == s.log;
    assert OfferedSoFar(allowed, s') == OfferedSoFar(allowed, s);
  }

  /** The table stays what the offered ids determine. */
  lemma TableKept(allowed: Option<Allowed>, s: State, t: nat)
    requires Inv(allowed, s) && CanStep(s, t)
    ensures var s' := StepOf(allowed, s, t); s'.table == LearnAll([], OfferedSoFar(allowed, s'))
  {
    assert ThreadOk(s, t);
    var s' := StepOf(allowed, s, t);
    match s.threads[t]
    case Learning(call, i) =>
      if i < |call.cards| {
        LearnNextCard(allowed, s, t);
      } else {
        FinishLearning(allowed, s, t);
      }
    case Waiting(call) =>
      assert call.CardCall? ==> Take(call.cards, 0) == [] && Offered(allowed, []) == [];
      assert OfferedSoFar(allowed, s') == OfferedSoFar(allowed, s);
    case Scanning(_, _, _) =>
      assert InProgress(allowed, s') == InProgress(allowed, s);
    case Hiding(_) =>
      assert InProgress(allowed, s') == InProgress(allowed, s);
    case Unlocked(_, _) =>
      assert InProgress(allowed, s') == InProgress(allowed, s);
    case Returned(_, _) =>
  }

  lemma VisitExtendsScan(table: seq<uint32>, call: Call, i: nat)
    requires !call.AtEnd(i) && !call.CardCall?
    ensures Visit(table, call, i, ScanTo(table, call, i)) == ScanTo(table, call, i + 1)
  {
    match call
    case IdsCall(ids) =>
      assert Take(ids, i + 1) == Take(ids, i) + [ids[i]];
      FilterSnoc(Known(table), Take(ids, i), ids[i]);
    case DevicesCall(_, devices) =>
      assert Take(devices, i + 1) == Take(devices, i) + [devices[i]];
      FilterSnoc(KnownDevice(table), Take(devices, i), devices[i]);
  }

  lemma StepperOk(allowed: Option<Allowed>, s: State, t: nat)
    requires Inv(allowed, s) && CanStep(s, t)
    ensures var s' := StepOf(allowed, s, t); t < |s'.threads| && ThreadOk(s', t) && HolderOk(s')
  {
    hide LearnAll, OfferedSoFar, Learn;
    assert ThreadOk(s, t);
    match s.threads[t]
    case Scanning(call, i, kept) =>
      if s.table != [] && !call.AtEnd(i) {
        VisitExtendsScan(s.table, call, i);
      }
    case Waiting(call) =>
      if call.IdsCall? {
        assert Take(call.ids, 0) == [];
      } else if call.DevicesCall? {
        assert Take(call.devices, 0) == [];
      }
    case _ =>
  }

  /** A step of one thread leaves what another has scanned true. */
  lemma OthersOk(allowed: Option<Allowed>, s: State, t: nat, u: nat)
    requires Inv(allowed, s) && CanStep(s, t) && u < |s.threads| && u != t
    ensures var s' := StepOf(allowed, s, t); u < |s'.threads| && s'.threads[u] == s.threads[u] && ThreadOk(s', u)
  {
    assert ThreadOk(s, t) && ThreadOk(s, u);
  }

  lemma ThreadStepKeepsInv(allowed: Option<Allowed>, s: State, t: nat)
    requires Inv(allowed, s) && CanStep(s, t)
    ensures Inv(allowed, StepOf(allowed, s, t))
  {
    hide ThreadOk, OfferedSoFar;
    var s' := StepOf(allowed, s, t);
    TableKept(allowed, s, t);
    StepperOk(allowed, s, t);
    forall u | 0 <= u < |s'.threads| ensures ThreadOk(s', u) {
      if u != t {
        OthersOk(allowed, s, t, u);
      }
    }
  }

  lemma StartKeepsInv(allowed: Option<Allowed>, s: State, call: Call)
    requires Inv(allowed, s) && call.WellFormed()
    ensures Inv(allowed, s.(threads := s.threads + [Waiting(call)]))
  {
    var s' := s.(threads := s.threads + [Waiting(call)]);
    assert InProgress(allowed, s') == InProgress(allowed, s);
    forall u | 0 <= u < |s'.threads| ensures ThreadOk(s', u) {
      if u < |s.threads| {
        assert ThreadOk(s, u);
      }
    }
  }

  lemma StepKeepsInv(allowed: Option<Allowed>, s: State, s': State)
    requires Inv(allowed, s) && Step(allowed, s, s')
    ensures Inv(allowed, s')
  {
    hide Inv, StepOf, CanStep;
    if t: nat :| CanStep(s, t) && s' == StepOf(allowed, s, t) {
      ThreadStepKeepsInv(allowed, s, t);
    } else {
      var call: Call :| call.WellFormed() && s' == s.(threads := s.threads + [Waiting(call)]);
      StartKeepsInv(allowed, s, call);
    }
  }

  lemma {:induction false} EveryStateInv(allowed: Option<Allowed>, e: seq<State>, i: nat)
    requires Execution(allowed, e) && i < |e|
    ensures Inv(allowed, e[i])
  {
    if i > 0 {
      EveryStateInv(allowed, e, i - 1);
      StepKeepsInv(allowed, e[i - 1], e[i]);
    }
  }

  ghost predicate InCriticalSection(thread: Thread) {
    thread.Learning? || thread.Scanning?
  }

  /** In every state of an execution at most one thread is inside a critical section. */
  lemma MutualExclusion(allowed: Option<Allowed>, e: seq<State>, i: nat, t: nat, u: nat)
    requires Execution(allowed, e) && i < |e| && t < |e[i].threads| && u < |e[i].threads|
    requires InCriticalSection(e[i].threads[t]) && InCriticalSection(e[i].threads[u])
    ensures t == u
  {
    EveryStateInv(allowed, e, i);
    assert ThreadOk(e[i], t) && ThreadOk(e[i], u);
  }

  lemma {:induction false} OfferedSoFarValid(allowed: Option<Allowed>, s: State)
    ensures INVALID_ID !in OfferedSoFar(allowed, s)
  {
    OfferedByAllValid(s.log);
    if InProgress(allowed, s) != [] {
      var thread := s.threads[s.holder.value];
      OfferedValid(allowed, Take(thread.call.cards, thread.next));
    }
  }

  /**
   In every interleaved state the table is duplicate-free, bounded and free of the invalid id; while
   the lock is free it is the table of a sequential run over the recorded replies in lock order.
   */
  lemma TableInEveryState(allowed: Option<Allowed>, e: seq<State>, i: nat)
    requires Execution(allowed, e) && i < |e|
    ensures e[i].table == FirstIds(OfferedSoFar(allowed, e[i]))
    ensures NoDuplicates(e[i].table) && |e[i].table| <= MAX_GPUS && INVALID_ID !in e[i].table
    ensures e[i].holder.None? ==> e[i].table == FirstIds(OfferedByAll(e[i].log))
  {
    EveryStateInv(allowed, e, i);
    OfferedSoFarValid(allowed, e[i]);
    LearnAllIsFirstIds(OfferedSoFar(allowed, e[i]));
    FirstIdsSound(OfferedSoFar(allowed, e[i]));
    if e[i].holder.None? {
      assert OfferedSoFar(allowed, e[i]) == OfferedByAll(e[i].log);
    }
  }

  lemma {:induction false} TableGrows(allowed: Option<Allowed>, e: seq<State>, i: nat, j: nat)
    requires Execution(allowed, e) && i <= j < |e|
    ensures e[i].table <= e[j].table
    decreases j
  {
    if i < j {
      TableGrows(allowed, e, i, j - 1);
      assert Step(allowed, e[j - 1], e[j]);
    }
  }

  // ----- every call is answered as if it ran alone at one moment

  /** The sequential filter. */
  ghost function Sequential(allowed: Option<Allowed>, table: seq<uint32>, call: Call): Call {
    match call
    case CardCall(cards) => CardCall(HideCards(allowed, cards))
    case IdsCall(ids) => IdsCall(RewriteIds(table, ids))
    case DevicesCall(n, devices) => var (n', devices') := RewriteDevices(table, n, devices); DevicesCall(n', devices')
  }

  lemma {:induction false} ListedReached(ids: seq<uint32>, i: nat)
    requires Reached(IdsCall(ids), i) && IdsCall(ids).AtEnd(i)
    ensures Take(ids, i) == Listed(ids)
    decreases |ids|
  {
    if i > 0 {
      assert !IdsCall(ids).AtEnd(0) && !IdsCall(ids).AtEnd(i - 1);
      forall j | 0 <= j < i - 1 ensures !IdsCall(ids[1..]).AtEnd(j) {
        assert !IdsCall(ids).AtEnd(j + 1);
      }
      ListedReached(ids[1..], i - 1);
      assert Take(ids, i) == [ids[0]] + Take(ids[1..], i - 1);
    }
  }

  /** A completed scan, written back, is the sequential answer with the table it scanned. */
  lemma FinishedScan(allowed: Option<Allowed>, table: seq<uint32>, call: Call, i: nat)
    requires call.WellFormed() && !call.CardCall? && Reached(call, i) && call.AtEnd(i)
    ensures Finish(call, ScanTo(table, call, i)) == Sequential(allowed, table, call)
  {
    match call
    case IdsCall(ids) =>
      ListedReached(ids, i);
      KeptIdsFit(table, ids);
    case DevicesCall(n, devices) =>
      assert i > 0 ==> !call.AtEnd(i - 1);
      assert Take(devices, i) == Reported(n, devices);
      KeptDevicesFit(table, n, devices);
  }

  lemma EmptyTableAnswer(allowed: Option<Allowed>, call: Call)
    requires !call.CardCall?
    ensures Sequential(allowed, [], call) == call
  {
    match call
    case IdsCall(ids) => LearnedIds.NoneKnown(ids);
    case DevicesCall(n, devices) => LearnedIds.NoneKnownDevices(n, devices);
  }

  /**
   The reply is the sequential answer with the table of this state; unless the call does not read the
   table, that table is one that whole recordings leave, not one in the middle of a recording.
   */
  ghost predicate AnsweredWith(allowed: Option<Allowed>, s: State, call: Call, reply: Call) {
    reply == Sequential(allowed, s.table, call) && (call.CardCall? || s.table == FirstIds(OfferedByAll(s.log)))
  }

  /** While a thread scans, no recording is under way. */
  lemma ScanSeesWholeReplies(allowed: Option<Allowed>, s: State, c: nat)
    requires Inv(allowed, s) && c < |s.threads| && s.threads[c].Scanning?
    ensures s.table == FirstIds(OfferedByAll(s.log))
  {
    assert ThreadOk(s, c);
    assert OfferedSoFar(allowed, s) == OfferedByAll(s.log);
    OfferedSoFarValid(allowed, s);
    LearnAllIsFirstIds(OfferedSoFar(allowed, s));
  }

  /** What thread c will answer, or has answered, is the sequential answer at some moment in [i, j]. */
  ghost predicate Justified(allowed: Option<Allowed>, e: seq<State>, i: nat, j: nat, c: nat, call: Call)
    requires i <= j < |e|
  {
    c < |e[j].threads| && e[j].threads[c].call == call &&
    match e[j].threads[c]
    case Unlocked(_, kept) => exists k :: i <= k <= j && AnsweredWith(allowed, e[k], call, Finish(call, kept))
    case Returned(_, reply) => exists k :: i <= k <= j && AnsweredWith(allowed, e[k], call, reply)
    case _ => true
  }

  /** A thread's answer, once its scan is over, is the one the table gives at that moment. */
  lemma OwnStep(allowed: Option<Allowed>, s: State, c: nat)
    requires Inv(allowed, s) && CanStep(s, c)
    ensures var call, thread := s.threads[c].call, StepOf(allowed, s, c).threads[c];
            thread.call == call &&
            (thread.Unlocked? ==> AnsweredWith(allowed, s, call, Finish(call, thread.kept))) &&
            (thread.Returned? && !s.threads[c].Unlocked? ==> AnsweredWith(allowed, s, call, thread.reply)) &&
            (s.threads[c].Unlocked? ==> thread == Returned(call, Finish(call, s.threads[c].kept)))
  {
    assert ThreadOk(s, c);
    match s.threads[c]
    case Scanning(call, n, kept) =>
      ScanSeesWholeReplies(allowed, s, c);
      if s.table == [] {
        EmptyTableAnswer(allowed, call);
      } else if call.AtEnd(n) {
        FinishedScan(allowed, s.table, call, n);
      }
    case _ =>
  }

  lemma OtherStep(allowed: Option<Allowed>, s: State, s': State, c: nat)
    requires Inv(allowed, s) && Step(allowed, s, s') && c < |s.threads|
    ensures c < |s'.threads|
    ensures s'.threads[c] == s.threads[c] || (CanStep(s, c) && s' == StepOf(allowed, s, c))
  {
    hide Inv, ThreadOk, StepOf;
    if t: nat :| CanStep(s, t) && s' == StepOf(allowed, s, t) {
      if t != c {
        OthersOk(allowed, s, t, c);
      }
    }
  }

  lemma JustifiedStep(allowed: Option<Allowed>, e: seq<State>, i: nat, j: nat, c: nat, call: Call)
    requires Execution(allowed, e) && i < j < |e| && Justified(allowed, e, i, j - 1, c, call)
    ensures Justified(allowed, e, i, j, c, call)
  {
    hide Inv, StepOf, AnsweredWith, Finish, Step;
    var s, s' := e[j - 1], e[j];
    assert Step(allowed, e[j - 1], e[j - 1 + 1]);
    EveryStateInv(allowed, e, j - 1);
    OtherStep(allowed, s, s', c);
    if s'.threads[c] == s.threads[c] {
      JustifiedSame(allowed, e, i, j, c, call);
    } else {
      OwnStep(allowed, s, c);
      if s.threads[c].Unlocked? {
        var k :| i <= k <= j - 1 && AnsweredWith(allowed, e[k], call, Finish(call, s.threads[c].kept));
        assert AnsweredWith(allowed, e[k], call, s'.threads[c].reply);
      }
    }
  }

  lemma JustifiedSame(allowed: Option<Allowed>, e: seq<State>, i: nat, j: nat, c: nat, call: Call)
    requires i < j < |e| && Justified(allowed, e, i, j - 1, c, call)
    requires c < |e[j].threads| && e[j].threads[c] == e[j - 1].threads[c]
    ensures Justified(allowed, e, i, j, c, call)
  {
    hide AnsweredWith, Finish;
    match e[j].threads[c]
    case Unlocked(_, kept) =>
      var k :| i <= k <= j - 1 && AnsweredWith(allowed, e[k], call, Finish(call, kept));
      assert i <= k <= j;
    case Returned(_, reply) =>
      var k :| i <= k <= j - 1 && AnsweredWith(allowed, e[k], call, reply);
      assert i <= k <= j;
    case _ =>
  }

  lemma {:induction false} JustifiedLater(allowed: Option<Allowed>, e: seq<State>, i: nat, j: nat, c: nat, call: Call)
    requires Execution(allowed, e) && i <= j < |e| && c < |e[i].threads| && e[i].threads[c] == Waiting(call)
    ensures Justified(allowed, e, i, j, c, call)
    decreases j
  {
    if i < j {
      JustifiedLater(allowed, e, i, j - 1, c, call);
      JustifiedStep(allowed, e, i, j, c, call);
    }
  }

  /**
   Linearizability: however calls interleave, the reply a call returns is the sequential filter
   applied with the table of one state between the call's start and its return, and that table is the
   one the card-info replies recorded before then leave.
   */
  lemma Linearizable(allowed: Option<Allowed>, e: seq<State>, i: nat, j: nat, c: nat, call: Call, reply: Call)
    requires Execution(allowed, e) && i <= j < |e| && c < |e[i].threads| && c < |e[j].threads|
    requires e[i].threads[c] == Waiting(call) && e[j].threads[c] == Returned(call, reply)
    ensures exists k :: i <= k <= j && AnsweredWith(allowed, e[k], call, reply)
  {
    JustifiedLater(allowed, e, i, j, c, call);
  }

  /** Card-info call c has been recorded at a state after i, as one reply at the end of the log. */
  ghost predicate RecordedBetween(allowed: Option<Allowed>, e: seq<State>, i: nat, j: nat, cards: seq<CardInfo>)
    requires i <= j < |e|
  {
    exists k :: i < k <= j && LogsAt(allowed, e, k, cards)
  }

  ghost predicate LogsAt(allowed: Option<Allowed>, e: seq<State>, k: nat, cards: seq<CardInfo>) {
    0 < k < |e| && e[k].log == e[k - 1].log + [CardReply(allowed, cards)]
  }

  /** How far a card-info call has come: it leaves the critical section only by recording its reply. */
  ghost predicate CardProgress(allowed: Option<Allowed>, e: seq<State>, i: nat, j: nat, c: nat, cards: seq<CardInfo>)
    requires i <= j < |e|
  {
    c < |e[j].threads| && e[j].threads[c].call == CardCall(cards) &&
    (e[j].threads[c].Waiting? || e[j].threads[c].Learning? || RecordedBetween(allowed, e, i, j, cards))
  }

  lemma CardProgressStep(allowed: Option<Allowed>, e: seq<State>, i: nat, j: nat, c: nat, cards: seq<CardInfo>)
    requires Execution(allowed, e) && i < j < |e| && CardProgress(allowed, e, i, j - 1, c, cards)
    ensures CardProgress(allowed, e, i, j, c, cards)
  {
    hide Inv;
    var s, s' := e[j - 1], e[j];
    assert Step(allowed, e[j - 1], e[j - 1 + 1]);
    EveryStateInv(allowed, e, j - 1);
    OtherStep(allowed, s, s', c);
    if RecordedBetween(allowed, e, i, j - 1, cards) {
      var k :| i < k <= j - 1 && LogsAt(allowed, e, k, cards);
      assert i < k <= j;
    } else if s'.threads[c] != s.threads[c] && s.threads[c].Learning? && s.threads[c].next >= |cards| {
      assert LogsAt(allowed, e, j, cards);
    }
    OwnCallStays(allowed, s, c);
  }

  lemma OwnCallStays(allowed: Option<Allowed>, s: State, c: nat)
    requires c < |s.threads|
    ensures CanStep(s, c) ==> StepOf(allowed, s, c).threads[c].call == s.threads[c].call
  {
  }

  /** The log is what the card-info calls did: each call that returns recorded its whole reply on the way. */
  lemma {:induction false} CardCallsAreLogged(allowed: Option<Allowed>, e: seq<State>, i: nat, j: nat, c: nat,
                                             cards: seq<CardInfo>)
    requires Execution(allowed, e) && i <= j < |e| && c < |e[i].threads|
    requires e[i].threads[c] == Waiting(CardCall(cards))
    ensures CardProgress(allowed, e, i, j, c, cards)
    ensures e[j].threads[c].Returned? ==>
              exists k :: i < k <= j && e[k].log == e[k - 1].log + [CardReply(allowed, cards)]
    decreases j
  {
    if i < j {
      CardCallsAreLogged(allowed, e, i, j - 1, c, cards);
      CardProgressStep(allowed, e, i, j, c, cards);
      if e[j].threads[c].Returned? {
        var k :| i < k <= j && LogsAt(allowed, e, k, cards);
        assert e[k].log == e[k - 1].log + [CardReply(allowed, cards)];
      }
    }
  }

  /** What a thread has added to the log. */
  ghost function RecordedBy(allowed: Option<Allowed>, thread: Thread): multiset<CardReply> {
    if thread.call.CardCall? && (thread.Hiding? || thread.Returned?)
    then multiset{CardReply(allowed, thread.call.cards)} else multiset{}
  }

  ghost function RecordedByAll(allowed: Option<Allowed>, threads: seq<Thread>): multiset<CardReply> {
    if threads == [] then multiset{}
    else RecordedByAll(allowed, threads[..|threads| - 1]) + RecordedBy(allowed, threads[|threads| - 1])
  }

  lemma {:induction false} RecordedPut(allowed: Option<Allowed>, threads: seq<Thread>, t: nat, thread: Thread)
    requires t < |threads|
    ensures RecordedByAll(allowed, threads[t := thread]) + RecordedBy(allowed, threads[t]) ==
            RecordedByAll(allowed, threads) + RecordedBy(allowed, thread)
  {
    hide RecordedBy;
    var last, after := |threads| - 1, threads[t := thread];
    if t < last {
      RecordedPut(allowed, threads[..last], t, thread);
      assert threads[..last][t] == threads[t];
      assert after[..last] == threads[..last][t := thread] && after[last] == threads[last];
      AddToBoth(RecordedByAll(allowed, after[..last]), RecordedBy(allowed, threads[t]),
                RecordedByAll(allowed, threads[..last]), RecordedBy(allowed, thread), RecordedBy(allowed, after[last]));
    } else {
      assert after[..last] == threads[..last] && after[last] == thread;
    }
    assert RecordedByAll(allowed, after) == RecordedByAll(allowed, after[..last]) + RecordedBy(allowed, after[last]);
  }

  lemma AddToBoth<T>(a: multiset<T>, b: multiset<T>, c: multiset<T>, d: multiset<T>, more: multiset<T>)
    requires a + b == c + d
    ensures a + more + b == c + more + d
  {
    assert a + more + b == (a + b) + more && c + more + d == (c + d) + more;
  }

  ghost predicate LogOk(allowed: Option<Allowed>, s: State) {
    multiset(s.log) == RecordedByAll(allowed, s.threads)
  }

  lemma StepLogs(allowed: Option<Allowed>, s: State, t: nat)
    requires Inv(allowed, s) && CanStep(s, t)
    ensures var s' := StepOf(allowed, s, t);
            s'.threads == s.threads[t := s'.threads[t]] &&
            multiset(s'.log) + RecordedBy(allowed, s.threads[t]) ==
            multiset(s.log) + RecordedBy(allowed, s'.threads[t])
  {
    hide OfferedSoFar, LearnAll, Learn, ContainsMinor, Finish, ScanTo, Visit, Reached, HideCards;
    assert ThreadOk(s, t);
  }

  lemma StepKeepsLog(allowed: Option<Allowed>, s: State, s': State)
    requires Inv(allowed, s) && Step(allowed, s, s') && LogOk(allowed, s)
    ensures LogOk(allowed, s')
  {
    hide Inv, StepOf, RecordedBy;
    if t: nat :| CanStep(s, t) && s' == StepOf(allowed, s, t) {
      StepLogs(allowed, s, t);
      var before, after := RecordedBy(allowed, s.threads[t]), RecordedBy(allowed, s'.threads[t]);
      RecordedPut(allowed, s.threads, t, s'.threads[t]);
      assert multiset(s'.log) + before == RecordedByAll(allowed, s'.threads) + before;
      SameRest(multiset(s'.log), RecordedByAll(allowed, s'.threads), before);
    } else {
      StartLogs(allowed, s, s');
    }
  }

  lemma SameRest<T>(a: multiset<T>, b: multiset<T>, c: multiset<T>)
    requires a + c == b + c
    ensures a == b
  {
    assert (a + c) - c == a && (b + c) - c == b;
  }

  lemma StartLogs(allowed: Option<Allowed>, s: State, s': State)
    requires LogOk(allowed, s) && exists call: Call :: s' == s.(threads := s.threads + [Waiting(call)])
    ensures LogOk(allowed, s')
  {
    assert s'.threads[..|s.threads|] == s.threads;
  }

  /** The log holds, as often as they occur, the replies of exactly the card-info calls past their recording. */
  lemma {:induction false} LogIsRecordedCalls(allowed: Option<Allowed>, e: seq<State>, i: nat)
    requires Execution(allowed, e) && i < |e|
    ensures multiset(e[i].log) == RecordedByAll(allowed, e[i].threads)
  {
    hide Inv, StepOf, RecordedBy;
    if i > 0 {
      LogIsRecordedCalls(allowed, e, i - 1);
      EveryStateInv(allowed, e, i - 1);
      StepKeepsLog(allowed, e[i - 1], e[i]);
    }
  }

  // ----- no call waits forever

  ghost function Size(call: Call): nat {
    match call
    case CardCall(cards) => |cards|
    case IdsCall(ids) => |ids|
    case DevicesCall(_, devices) => |devices|
  }

  /** A bound on the steps a thread still makes. */
  ghost function StepsLeft(thread: Thread): nat {
    match thread
    case Waiting(call) => Size(call) + 4
    case Learning(call, i) => if i < Size(call) then Size(call) - i + 2 else 2
    case Hiding(_) => 1
    case Scanning(call, i, _) => if i < Size(call) then Size(call) - i + 2 else 2
    case Unlocked(_, _) => 1
    case Returned(_, _) => 0
  }

  ghost function AllStepsLeft(threads: seq<Thread>): nat {
    if threads == [] then 0 else AllStepsLeft(threads[..|threads| - 1]) + StepsLeft(threads[|threads| - 1])
  }

  lemma {:induction false} StepsLeftPut(threads: seq<Thread>, t: nat, thread: Thread)
    requires t < |threads|
    ensures AllStepsLeft(threads[t := thread]) + StepsLeft(threads[t]) == AllStepsLeft(threads) + StepsLeft(thread)
  {
    hide StepsLeft;
    var last, after := |threads| - 1, threads[t := thread];
    if t < last {
      StepsLeftPut(threads[..last], t, thread);
      assert after[..last] == threads[..last][t := thread];
    } else {
      assert after[..last] == threads[..last];
    }
  }

  lemma OwnStepsDecrease(allowed: Option<Allowed>, s: State, t: nat)
    requires Inv(allowed, s) && CanStep(s, t)
    ensures var s' := StepOf(allowed, s, t);
            s'.threads == s.threads[t := s'.threads[t]] && StepsLeft(s'.threads[t]) < StepsLeft(s.threads[t])
  {
    hide OfferedSoFar, LearnAll, Learn, ContainsMinor, Finish, ScanTo, Visit, Reached, HideCards;
    assert ThreadOk(s, t);
  }

  /** In every state of an execution, every step of a thread brings all calls closer to their return. */
  lemma StepsDecrease(allowed: Option<Allowed>, e: seq<State>, i: nat, t: nat)
    requires Execution(allowed, e) && i < |e| && CanStep(e[i], t)
    ensures AllStepsLeft(StepOf(allowed, e[i], t).threads) < AllStepsLeft(e[i].threads)
  {
    EveryStateInv(allowed, e, i);
    OwnStepsDecrease(allowed, e[i], t);
    StepsLeftPut(e[i].threads, t, StepOf(allowed, e[i], t).threads[t]);
  }

  /** No deadlock: in every state of an execution in which a call has not returned, some thread can step. */
  lemma SomeThreadCanStep(allowed: Option<Allowed>, e: seq<State>, i: nat, c: nat)
    requires Execution(allowed, e) && i < |e| && c < |e[i].threads| && !e[i].threads[c].Returned?
    ensures exists t: nat :: CanStep(e[i], t)
  {
    EveryStateInv(allowed, e, i);
    if e[i].holder.Some? {
      assert CanStep(e[i], e[i].holder.value);
    } else {
      assert CanStep(e[i], c);
    }
  }

  /** A new call may arrive at any moment, with any reply; a device reply has 256 entries. */
  lemma AnyCallMayArrive(allowed: Option<Allowed>, e: seq<State>, call: Call)
    requires Execution(allowed, e) && (call.DevicesCall? ==> |call.devices| == 256)
    ensures var s := e[|e| - 1];
            Execution(allowed, e + [State(s.table, s.holder, s.threads + [Waiting(call)], s.log)])
  {
    var s := e[|e| - 1];
    var next := e + [State(s.table, s.holder, s.threads + [Waiting(call)], s.log)];
    assert call.WellFormed();
    forall i | 0 <= i < |next| - 1 ensures Step(allowed, next[i], next[i + 1]) {
      if i < |e| - 1 {
        assert Step(allowed, e[i], e[i + 1]);
      }
    }
  }

  ghost predicate AllReturned(s: State) {
    forall t :: 0 <= t < |s.threads| ==> s.threads[t].Returned?
  }

  /** Every execution can be continued by its own threads until every call has returned. */
  lemma {:induction false} AllCanReturn(allowed: Option<Allowed>, e: seq<State>) returns (longer: seq<State>)
    requires Execution(allowed, e)
    ensures Execution(allowed, longer) && e <= longer && AllReturned(longer[|longer| - 1])
    ensures |longer| <= |e| + AllStepsLeft(e[|e| - 1].threads)
    ensures |longer[|longer| - 1].threads| == |e[|e| - 1].threads|
    decreases AllStepsLeft(e[|e| - 1].threads)
  {
    hide StepOf, CanStep;
    var s := e[|e| - 1];
    if AllReturned(s) {
      longer := e;
    } else {
      var c :| 0 <= c < |s.threads| && !s.threads[c].Returned?;
      SomeThreadCanStep(allowed, e, |e| - 1, c);
      var t: nat :| CanStep(s, t);
      StepsDecrease(allowed, e, |e| - 1, t);
      var next := e + [StepOf(allowed, s, t)];
      forall i | 0 <= i < |next| - 1 ensures Step(allowed, next[i], next[i + 1]) {
        if i < |e| - 1 {
          assert Step(allowed, e[i], e[i + 1]);
        }
      }
      longer := AllCanReturn(allowed, next);
    }
  }
}
