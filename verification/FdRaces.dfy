/**
 Opens and closes of many threads.  Each call has two steps: the kernel's, and then the shim's own on the
 table; other calls may run in between.
 */
module FdRaces {
  import opened Sequences
  import opened FdMap
  import opened OpenatPaths
  import opened Descriptors
  import opened Shim
  import ProcPaths

  /** A call the kernel has carried out: an open, with the path it is tracked under, or a close. */
  datatype Call = Opened(path: Option<string>, fd: int) | Closed(fd: int)

  /** calls is in the kernel's order; finished lists those whose second step has run, in that order. */
  datatype State = State(slots: seq<Slot>, open: map<int, Option<string>>, calls: seq<Call>, finished: seq<nat>) {
    ghost predicate Sound() {
      forall i :: 0 <= i < |finished| ==> finished[i] < |calls|
    }

    ghost predicate Pending(c: nat) {
      c < |calls| && c !in finished
    }

    /** No call about fd is between its two steps. */
    ghost predicate Quiet(fd: int) {
      forall c: nat :: Pending(c) ==> calls[c].fd != fd
    }
  }

  /** The second step of a call. */
  ghost function Finish(slots: seq<Slot>, call: Call): (r: seq<Slot>)
    requires |slots| == FD_MAP_MAX
    ensures |r| == FD_MAP_MAX
  {
    match call
    case Opened(path, fd) => Track(slots, path, fd)
    case Closed(fd) => SlotSet(slots, fd, Empty)
  }

  /** The kernel hands out descriptors that are not open, and closes open ones. */
  ghost predicate KernelStep(s: State, s': State, call: Call) {
    s'.slots == s.slots && s'.calls == s.calls + [call] && s'.finished == s.finished && call.fd >= 0 &&
    match call
    case Opened(path, fd) => fd !in s.open && s'.open == s.open[fd := path]
    case Closed(fd) => fd in s.open && s'.open == s.open - {fd}
  }

  ghost predicate ShimStep(s: State, s': State, c: nat) {
    s.Pending(c) && |s.slots| == FD_MAP_MAX &&
    s' == s.(slots := Finish(s.slots, s.calls[c]), finished := s.finished + [c])
  }

  ghost predicate Step(s: State, s': State) {
    (exists call :: KernelStep(s, s', call)) || (exists c :: ShimStep(s, s', c))
  }

  ghost predicate Initial(s: State) {
    s == State(seq(FD_MAP_MAX, _ => Empty), map[], [], [])
  }

  ghost predicate Execution(e: seq<State>) {
    |e| > 0 && Initial(e[0]) && forall i :: 0 <= i < |e| - 1 ==> Step(e[i], e[i + 1])
  }

  // ----- what a slot holds

  /** What the second step of a call leaves in the slot of its descriptor; None if it leaves it alone. */
  ghost function Effect(call: Call): Option<Slot> {
    match call
    case Opened(path, _) => if Classify(path).kind != Other then Some(Occupied(Classify(path))) else None
    case Closed(_) => Some(Empty)
  }

  /** What the last call about fd that has an effect leaves in its slot. */
  ghost function LastEffect(calls: seq<Call>, fd: int): Slot {
    if calls == [] then Empty
    else
      var last := calls[|calls| - 1];
      if last.fd == fd && Effect(last).Some? then Effect(last).value else LastEffect(calls[..|calls| - 1], fd)
  }

  /** The finished calls in the order in which they finished. */
  ghost function Done(s: State): seq<Call>
    requires s.Sound()
  {
    seq(|s.finished|, i requires 0 <= i < |s.finished| => s.calls[s.finished[i]])
  }

  ghost predicate Inv(s: State) {
    |s.slots| == FD_MAP_MAX && s.Sound() &&
    forall fd :: InRange(fd) ==>
      s.slots[fd] == LastEffect(Done(s), fd) && Expected(s.open, fd) == LastEffect(s.calls, fd)
  }

  lemma LastEffectSnoc(calls: seq<Call>, call: Call, fd: int)
    ensures LastEffect(calls + [call], fd) ==
            if call.fd == fd && Effect(call).Some? then Effect(call).value else LastEffect(calls, fd)
  {
    assert (calls + [call])[..|calls|] == calls;
  }

  lemma FinishedSlot(slots: seq<Slot>, call: Call, fd: int)
    requires |slots| == FD_MAP_MAX && InRange(fd)
    ensures Finish(slots, call)[fd] ==
            if call.fd == fd && Effect(call).Some? then Effect(call).value else slots[fd]
  {
  }

  lemma KernelKeepsInv(s: State, s': State, call: Call)
    requires Inv(s) && KernelStep(s, s', call)
    ensures Inv(s')
  {
    hide Classify;
    assert Done(s') == Done(s);
    forall fd | InRange(fd) ensures Expected(s'.open, fd) == LastEffect(s'.calls, fd) {
      LastEffectSnoc(s.calls, call, fd);
      assert Expected(s.open, fd) == LastEffect(s.calls, fd);
    }
  }

  lemma ShimKeepsInv(s: State, s': State, c: nat)
    requires Inv(s) && ShimStep(s, s', c)
    ensures Inv(s')
  {
    hide Classify, Effect;
    assert Done(s') == Done(s) + [s.calls[c]];
    forall fd | InRange(fd) ensures s'.slots[fd] == LastEffect(Done(s'), fd) {
      LastEffectSnoc(Done(s), s.calls[c], fd);
      FinishedSlot(s.slots, s.calls[c], fd);
    }
  }

  lemma StepKeepsInv(s: State, s': State)
    requires Inv(s) && Step(s, s')
    ensures Inv(s')
  {
    hide Inv, KernelStep, ShimStep;
    if call :| KernelStep(s, s', call) {
      KernelKeepsInv(s, s', call);
    } else {
      var c :| ShimStep(s, s', c);
      ShimKeepsInv(s, s', c);
    }
  }

  lemma {:induction false} EveryStateInv(e: seq<State>, i: nat)
    requires Execution(e) && i < |e|
    ensures Inv(e[i])
  {
    hide Inv, Finish;
    if i > 0 {
      EveryStateInv(e, i - 1);
      assert Step(e[i - 1], e[i - 1 + 1]);
      StepKeepsInv(e[i - 1], e[i]);
    } else {
      InitialInv(e[0]);
    }
  }

  lemma InitialInv(s: State)
    requires Initial(s)
    ensures Inv(s)
  {
  }

  /**
   A slot is right for the descriptor as the kernel has it, in any state, exactly if the last call about it
   to finish and the last one the kernel carried out leave the same in it.
   */
  lemma RightIffLastAgree(e: seq<State>, i: nat, fd: int)
    requires Execution(e) && i < |e| && InRange(fd)
    ensures Inv(e[i])
    ensures e[i].slots[fd] == Expected(e[i].open, fd) <==>
            LastEffect(Done(e[i]), fd) == LastEffect(e[i].calls, fd)
  {
    EveryStateInv(e, i);
  }

  // ----- which states stay right while the calls under way finish

  ghost function FinishAll(s: State, order: seq<nat>): (slots: seq<Slot>)
    requires |s.slots| == FD_MAP_MAX && forall c :: c in order ==> s.Pending(c)
    ensures |slots| == FD_MAP_MAX
  {
    if order == [] then s.slots
    else
      var last := order[|order| - 1];
      assert last in order && s.Pending(last) && forall c :: c in order[..|order| - 1] ==> c in order;
      Finish(FinishAll(s, order[..|order| - 1]), s.calls[last])
  }

  ghost predicate CanFinish(s: State, order: seq<nat>) {
    (forall c :: c in order ==> s.Pending(c)) && NoDuplicates(order)
  }

  /** No pending call about fd would leave anything else in its slot. */
  ghost predicate NoLateChange(s: State, fd: int) {
    forall c: nat :: s.Pending(c) && s.calls[c].fd == fd && Effect(s.calls[c]).Some? ==>
      Effect(s.calls[c]).value == Expected(s.open, fd)
  }

  lemma {:induction false} StaysRight(s: State, fd: int, order: seq<nat>)
    requires |s.slots| == FD_MAP_MAX && InRange(fd) && (forall c :: c in order ==> s.Pending(c))
    requires s.slots[fd] == Expected(s.open, fd) && NoLateChange(s, fd)
    ensures FinishAll(s, order)[fd] == Expected(s.open, fd)
  {
    hide Finish, Effect, Expected;
    if order != [] {
      var front, last := order[..|order| - 1], order[|order| - 1];
      assert forall c :: c in front ==> c in order;
      assert last in order;
      StaysRight(s, fd, front);
      FinishedSlot(FinishAll(s, front), s.calls[last], fd);
    }
  }

  /**
   A slot is right however the calls under way finish, exactly if it is right now and none of them leaves
   anything else in it: a close still under way ruins the record of a descriptor opened meanwhile.
   */
  lemma StaysRightExact(s: State, fd: int)
    requires |s.slots| == FD_MAP_MAX && InRange(fd)
    ensures (forall order :: CanFinish(s, order) ==> FinishAll(s, order)[fd] == Expected(s.open, fd)) <==>
            s.slots[fd] == Expected(s.open, fd) && NoLateChange(s, fd)
  {
    hide Finish, Effect, Expected;
    if forall order :: CanFinish(s, order) ==> FinishAll(s, order)[fd] == Expected(s.open, fd) {
      assert CanFinish(s, []) && FinishAll(s, []) == s.slots;
      forall c: nat | s.Pending(c) && s.calls[c].fd == fd && Effect(s.calls[c]).Some?
        ensures Effect(s.calls[c]).value == Expected(s.open, fd)
      {
        assert CanFinish(s, [c]);
        assert [c][..0] == [];
        assert FinishAll(s, [c]) == Finish(FinishAll(s, []), s.calls[c]);
        FinishedSlot(s.slots, s.calls[c], fd);
      }
    } else {
      var order :| CanFinish(s, order) && FinishAll(s, order)[fd] != Expected(s.open, fd);
      if s.slots[fd] == Expected(s.open, fd) && NoLateChange(s, fd) {
        StaysRight(s, fd, order);
        assert false;
      }
    }
  }

  // ----- a condition on whole runs, and a run without it

  /** No number is handed out or closed while a call about it is between its two steps. */
  ghost predicate Patient(e: seq<State>) {
    forall i, call :: 0 <= i < |e| - 1 && KernelStep(e[i], e[i + 1], call) ==> e[i].Quiet(call.fd)
  }

  /** At most one call about fd is pending, and what it does is right; with none the slot is right. */
  ghost predicate Settled(s: State, fd: int) {
    InRange(fd) && |s.slots| == FD_MAP_MAX && s.Sound() &&
    (s.Quiet(fd) ==> s.slots[fd] == Expected(s.open, fd)) &&
    (forall c: nat :: s.Pending(c) && s.calls[c].fd == fd ==>
       Finish(s.slots, s.calls[c])[fd] == Expected(s.open, fd)) &&
    (forall c: nat, d: nat :: s.Pending(c) && s.Pending(d) && s.calls[c].fd == fd && s.calls[d].fd == fd ==> c == d)
  }

  lemma KernelSettles(s: State, s': State, call: Call, fd: int)
    requires InRange(fd) && Settled(s, fd) && KernelStep(s, s', call) && s.Quiet(call.fd)
    ensures Settled(s', fd)
  {
    hide Classify;
    var n := |s.calls|;
    assert s'.Pending(n);
    assert forall c: nat :: c < n ==> s'.calls[c] == s.calls[c] && (s'.Pending(c) <==> s.Pending(c));
  }

  lemma ShimSettles(s: State, s': State, c: nat, fd: int)
    requires InRange(fd) && Settled(s, fd) && ShimStep(s, s', c)
    ensures Settled(s', fd)
  {
    hide Effect;
    FinishedSlot(s.slots, s.calls[c], fd);
    forall d: nat ensures s'.Pending(d) <==> s.Pending(d) && d != c {
    }
    forall d: nat | s'.Pending(d) && s.calls[d].fd == fd
      ensures Finish(s'.slots, s.calls[d])[fd] == Finish(s.slots, s.calls[d])[fd]
    {
      FinishedSlot(s.slots, s.calls[d], fd);
      FinishedSlot(s'.slots, s.calls[d], fd);
    }
    assert s.calls[c].fd != fd && s'.Quiet(fd) ==> s.Quiet(fd);
  }

  /**
   In every state of a patient execution, the slot of every descriptor with no call under way is right.
   */
  lemma {:induction false} PatientRunsAreRight(e: seq<State>, i: nat, fd: int)
    requires Execution(e) && Patient(e) && i < |e| && InRange(fd)
    ensures e[i].Quiet(fd) ==> |e[i].slots| == FD_MAP_MAX && e[i].slots[fd] == Expected(e[i].open, fd)
    ensures Settled(e[i], fd)
  {
    hide KernelStep, ShimStep, Finish;
    if i > 0 {
      PatientRunsAreRight(e, i - 1, fd);
      var s, s' := e[i - 1], e[i];
      assert Step(e[i - 1], e[i - 1 + 1]);
      if call :| KernelStep(s, s', call) {
        assert KernelStep(e[i - 1], e[i - 1 + 1], call);
        KernelSettles(s, s', call, fd);
      } else {
        var c :| ShimStep(s, s', c);
        ShimSettles(s, s', c, fd);
      }
    }
  }

  /**
   Without patience a late removal erases the record of a reopened descriptor: the gpus directory is open
   and every call has finished, yet the directory is no longer taken for it and every entry is shown.
   */
  lemma LateRemoveShowsAll() returns (e: seq<State>)
    ensures Execution(e)
    ensures var s := e[|e| - 1];
            s.open == map[3 := Some(ProcPaths.GPUS_DIR)] && s.Quiet(3) && !IsGpusDir(s.slots, 3) &&
            forall policy, name :: EntryShown(policy, s.slots, 3, name)
  {
    hide Classify;
    var path := Some(ProcPaths.GPUS_DIR);
    var opening, closing, none := Opened(path, 3), Closed(3), seq(FD_MAP_MAX, _ => Empty);
    var recorded := Finish(none, opening);
    var s0 := State(none, map[], [], []);
    var s1 := State(none, map[3 := path], [opening], []);
    var s2 := State(recorded, map[3 := path], [opening], [0]);
    var s3 := State(recorded, map[], [opening, closing], [0]);
    var s4 := State(recorded, map[3 := path], [opening, closing, opening], [0]);
    var s5 := State(Finish(recorded, opening), map[3 := path], [opening, closing, opening], [0, 2]);
    var s6 := State(Finish(s5.slots, closing), map[3 := path], [opening, closing, opening], [0, 2, 1]);
    assert KernelStep(s0, s1, opening);
    assert ShimStep(s1, s2, 0);
    assert KernelStep(s2, s3, closing);
    assert KernelStep(s3, s4, opening);
    assert ShimStep(s4, s5, 2);
    assert ShimStep(s5, s6, 1);
    e := [s0, s1, s2, s3, s4, s5, s6];
  }
}
