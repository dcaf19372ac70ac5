/** Whole runs of opening and closing descriptors, and what the table says about them. */
module Descriptors {
  import opened Sequences
  import opened FdMap
  import opened OpenatPaths

  const AT_FDCWD: int := -100

  /**
   A call with the kernel's answer: the descriptor (negative on failure), or whether closing succeeded.
   HiddenClose is a descriptor closed behind the shim's back.
   */
  datatype Event =
    | Open(path: Option<string>, fd: int)
    | Openat(dirfd: int, path: Option<string>, fd: int)
    | Close(fd: int, ok: bool)
    | HiddenClose(fd: int)

  /** Recording an opened descriptor, if its path is classified. */
  ghost function Track(slots: seq<Slot>, path: Option<string>, fd: int): (r: seq<Slot>)
    requires |slots| == FD_MAP_MAX
    ensures |r| == FD_MAP_MAX
  {
    if Classify(path).kind != Other && fd >= 0 then SlotSet(slots, fd, Occupied(Classify(path))) else slots
  }

  /** The path a call's descriptor is tracked under; None if the shim does not look at it. */
  ghost function TrackedUnder(slots: seq<Slot>, e: Event): Option<string> {
    match e
    case Open(path, _) => path
    case Openat(dirfd, path, _) =>
      var effective := EffectivePath(slots, dirfd, path, PATH_MAX);
      if IsAbsolute(effective) || dirfd == AT_FDCWD then effective else None
    case _ => None
  }

  /** The path the shim may refuse. */
  ghost predicate Refused(policy: Policy, slots: seq<Slot>, e: Event) {
    match e
    case Open(path, _) => Denied(policy, path)
    case Openat(dirfd, path, _) => Denied(policy, EffectivePath(slots, dirfd, path, PATH_MAX))
    case _ => false
  }

  /** What one call does to the table. */
  ghost function SlotsAfter(policy: Policy, slots: seq<Slot>, e: Event): (r: seq<Slot>)
    requires |slots| == FD_MAP_MAX
    ensures |r| == FD_MAP_MAX
  {
    match e
    case Close(fd, ok) => if ok then SlotSet(slots, fd, Empty) else slots
    case HiddenClose(_) => slots
    case _ => if Refused(policy, slots, e) then slots else Track(slots, TrackedUnder(slots, e), e.fd)
  }

  /** The table, the open descriptors with the path each is tracked under, and every pair ever tracked. */
  datatype World = World(slots: seq<Slot>, open: map<int, Option<string>>, tracked: set<(int, string)>)

  ghost predicate Opens(policy: Policy, w: World, e: Event) {
    (e.Open? || e.Openat?) && !Refused(policy, w.slots, e) && e.fd >= 0
  }

  ghost function After(policy: Policy, w: World, e: Event): (w': World)
    requires |w.slots| == FD_MAP_MAX
    ensures |w'.slots| == FD_MAP_MAX
  {
    var slots := SlotsAfter(policy, w.slots, e);
    if Opens(policy, w, e) then
      var path := TrackedUnder(w.slots, e);
      World(slots, w.open[e.fd := path], if path.Some? then w.tracked + {(e.fd, path.value)} else w.tracked)
    else if (e.Close? && e.ok) || e.HiddenClose? then World(slots, w.open - {e.fd}, w.tracked)
    else World(slots, w.open, w.tracked)
  }

  ghost function Run(policy: Policy, events: seq<Event>): (w: World)
    ensures |w.slots| == FD_MAP_MAX
  {
    if events == [] then World(seq(FD_MAP_MAX, _ => Empty), map[], {})
    else After(policy, Run(policy, events[..|events| - 1]), events[|events| - 1])
  }

  /** The kernel hands out only descriptors that are not open, and nothing is closed unseen. */
  ghost predicate Orderly(policy: Policy, events: seq<Event>) {
    events != [] ==>
      var front, last := events[..|events| - 1], events[|events| - 1];
      var w := Run(policy, front);
      Orderly(policy, front) && !last.HiddenClose? && (Opens(policy, w, last) ==> last.fd !in w.open)
  }

  /** What the slot of a descriptor should hold. */
  ghost function Expected(open: map<int, Option<string>>, fd: int): Slot {
    if fd in open && Classify(open[fd]).kind != Other then Occupied(Classify(open[fd])) else Empty
  }

  ghost predicate Exact(w: World) {
    |w.slots| == FD_MAP_MAX && forall fd :: 0 <= fd < FD_MAP_MAX ==> w.slots[fd] == Expected(w.open, fd)
  }

  /**
   After an orderly run, every slot holds exactly the classification of the path its open descriptor
   was tracked under, and is empty for every other descriptor.
   */
  lemma {:induction false} OrderlyRunsAreExact(policy: Policy, events: seq<Event>)
    requires Orderly(policy, events)
    ensures Exact(Run(policy, events))
  {
    if events != [] {
      OrderlyRunsAreExact(policy, events[..|events| - 1]);
      ExactStep(policy, Run(policy, events[..|events| - 1]), events[|events| - 1]);
    }
  }

  lemma ExactStep(policy: Policy, w: World, e: Event)
    requires Exact(w) && !e.HiddenClose? && (Opens(policy, w, e) ==> e.fd !in w.open)
    ensures Exact(After(policy, w, e))
  {
    hide Classify, EffectivePath, Denied;
    var w' := After(policy, w, e);
    forall fd | 0 <= fd < FD_MAP_MAX ensures w'.slots[fd] == Expected(w'.open, fd) {
      assert w.slots[fd] == Expected(w.open, fd);
    }
  }

  ghost predicate Plausible(w: World) {
    |w.slots| == FD_MAP_MAX &&
    forall fd :: 0 <= fd < FD_MAP_MAX && w.slots[fd].Occupied? ==>
      exists path :: (fd, path) in w.tracked && w.slots[fd].record == Classify(Some(path))
  }

  /**
   Even with descriptors closed behind the shim's back, every occupied slot holds the classification
   of some path that was opened at that number before.
   */
  lemma {:induction false} AllRunsArePlausible(policy: Policy, events: seq<Event>)
    ensures Plausible(Run(policy, events))
  {
    if events != [] {
      AllRunsArePlausible(policy, events[..|events| - 1]);
      PlausibleStep(policy, Run(policy, events[..|events| - 1]), events[|events| - 1]);
    }
  }

  lemma PlausibleStep(policy: Policy, w: World, e: Event)
    requires Plausible(w)
    ensures Plausible(After(policy, w, e))
  {
    hide EffectivePath, Denied;
    var w' := After(policy, w, e);
    forall fd | 0 <= fd < FD_MAP_MAX && w'.slots[fd].Occupied?
      ensures exists path :: (fd, path) in w'.tracked && w'.slots[fd].record == Classify(Some(path))
    {
      if w'.slots[fd] == w.slots[fd] {
        var path :| (fd, path) in w.tracked && w.slots[fd].record == Classify(Some(path));
        assert (fd, path) in w'.tracked;
      } else {
        assert (fd, TrackedUnder(w.slots, e).value) in w'.tracked;
      }
    }
  }

  // ----- what an open leaves in the table

  /** The call opens fd under an absolute path, whichever of the two calls it is. */
  ghost predicate OpensAbsolute(e: Event, p: string, fd: int) {
    p != "" && p[0] == '/' &&
    (e == Event.Open(Some(p), fd) || exists dirfd :: e == Event.Openat(dirfd, Some(p), fd))
  }

  lemma OpenRecords(policy: Policy, slots: seq<Slot>, e: Event, p: string, fd: int)
    requires |slots| == FD_MAP_MAX && OpensAbsolute(e, p, fd)
    requires !Denied(policy, Some(p)) && Classify(Some(p)).kind != Other && 0 <= fd < 4096
    ensures SlotsAfter(policy, slots, e)[fd] == Occupied(Classify(Some(p)))
  {
    if e.Openat? {
      assert EffectivePath(slots, e.dirfd, Some(p), PATH_MAX) == Some(p);
    }
  }

  /**
   Over a run: a descriptor opened under a classified path that is not denied keeps its record until some
   later call is about it.
   */
  lemma {:induction false} OpenedStaysRecorded(policy: Policy, events: seq<Event>, i: nat, p: string, fd: int)
    requires i < |events| && OpensAbsolute(events[i], p, fd)
    requires !Denied(policy, Some(p)) && Classify(Some(p)).kind != Other && 0 <= fd < 4096
    requires forall k :: i < k < |events| ==> events[k].fd != fd
    ensures Run(policy, events).slots[fd] == Occupied(Classify(Some(p)))
    decreases |events|
  {
    hide Classify, Denied, EffectivePath;
    var front, last := events[..|events| - 1], events[|events| - 1];
    if i == |events| - 1 {
      OpenRecords(policy, Run(policy, front).slots, last, p, fd);
    } else {
      OpenedStaysRecorded(policy, front, i, p, fd);
      assert last.fd != fd;
    }
  }

  // ----- exactly when the table is exact

  /** The call records its descriptor in the table. */
  ghost predicate Tracks(policy: Policy, w: World, e: Event)
    requires |w.slots| == FD_MAP_MAX
  {
    Opens(policy, w, e) && Classify(TrackedUnder(w.slots, e)).kind != Other
  }

  /** Call k opens fd under a path that is recorded. */
  ghost predicate SetsAt(policy: Policy, events: seq<Event>, k: nat, fd: int) {
    k < |events| && events[k].fd == fd && Tracks(policy, Run(policy, events[..k]), events[k])
  }

  /** Call k closes fd through the shim. */
  ghost predicate ClearsAt(events: seq<Event>, k: nat, fd: int) {
    k < |events| && events[k].fd == fd && events[k].Close? && events[k].ok
  }

  /** Call k closes fd unseen, or opens it under a path that is not recorded. */
  ghost predicate LosesAt(policy: Policy, events: seq<Event>, k: nat, fd: int) {
    k < |events| && events[k].fd == fd &&
    (events[k].HiddenClose? ||
     (Opens(policy, Run(policy, events[..k]), events[k]) && !SetsAt(policy, events, k, fd)))
  }

  /** fd was recorded at call i, and since then neither recorded again nor closed through the shim. */
  ghost predicate LastSetAt(policy: Policy, events: seq<Event>, i: nat, fd: int) {
    SetsAt(policy, events, i, fd) &&
    forall k :: i < k < |events| ==> !SetsAt(policy, events, k, fd) && !ClearsAt(events, k, fd)
  }

  ghost predicate Held(policy: Policy, events: seq<Event>, fd: int) {
    exists i: nat :: LastSetAt(policy, events, i, fd)
  }

  /** After fd was last recorded it was closed unseen, or reused under a path that is not recorded. */
  ghost predicate Stale(policy: Policy, events: seq<Event>, fd: int) {
    exists i: nat, j: nat :: LastSetAt(policy, events, i, fd) && i < j && LosesAt(policy, events, j, fd)
  }

  /** What a call says does not depend on the calls after it. */
  lemma SameInFront(policy: Policy, front: seq<Event>, e: Event, k: nat, fd: int)
    requires k < |front|
    ensures SetsAt(policy, front + [e], k, fd) <==> SetsAt(policy, front, k, fd)
    ensures ClearsAt(front + [e], k, fd) <==> ClearsAt(front, k, fd)
    ensures LosesAt(policy, front + [e], k, fd) <==> LosesAt(policy, front, k, fd)
  {
    assert (front + [e])[..k] == front[..k];
  }

  lemma LastSetStep(policy: Policy, front: seq<Event>, e: Event, i: nat, fd: int)
    requires i < |front|
    ensures var events, n := front + [e], |front|;
            LastSetAt(policy, events, i, fd) <==>
            LastSetAt(policy, front, i, fd) && !SetsAt(policy, events, n, fd) && !ClearsAt(events, n, fd)
  {
    hide SetsAt, ClearsAt, LosesAt;
    forall k | 0 <= k < |front|
      ensures SetsAt(policy, front + [e], k, fd) <==> SetsAt(policy, front, k, fd)
      ensures ClearsAt(front + [e], k, fd) <==> ClearsAt(front, k, fd)
    {
      SameInFront(policy, front, e, k, fd);
    }
  }

  lemma HeldStep(policy: Policy, front: seq<Event>, e: Event, fd: int)
    ensures var events, n := front + [e], |front|;
            Held(policy, events, fd) <==>
            SetsAt(policy, events, n, fd) || (Held(policy, front, fd) && !ClearsAt(events, n, fd))
  {
    hide LastSetAt;
    var events, n := front + [e], |front|;
    LastSetHere(policy, front, e, fd);
    forall i | 0 <= i < n
      ensures LastSetAt(policy, events, i, fd) <==>
              LastSetAt(policy, front, i, fd) && !SetsAt(policy, events, n, fd) && !ClearsAt(events, n, fd)
    {
      LastSetStep(policy, front, e, i, fd);
    }
    InBounds(policy, front, fd);
    InBounds(policy, events, fd);
  }

  lemma LastSetHere(policy: Policy, front: seq<Event>, e: Event, fd: int)
    ensures LastSetAt(policy, front + [e], |front|, fd) <==> SetsAt(policy, front + [e], |front|, fd)
  {
  }

  lemma InBounds(policy: Policy, events: seq<Event>, fd: int)
    ensures forall i: nat :: LastSetAt(policy, events, i, fd) ==> i < |events|
  {
  }

  lemma StaleStep(policy: Policy, front: seq<Event>, e: Event, fd: int)
    ensures var events, n := front + [e], |front|;
            Stale(policy, events, fd) <==>
            !SetsAt(policy, events, n, fd) && !ClearsAt(events, n, fd) &&
            (Stale(policy, front, fd) || (Held(policy, front, fd) && LosesAt(policy, events, n, fd)))
  {
    hide LastSetAt, SetsAt, ClearsAt, LosesAt;
    var events, n := front + [e], |front|;
    InBounds(policy, front, fd);
    forall i | 0 <= i < n
      ensures LastSetAt(policy, events, i, fd) <==>
              LastSetAt(policy, front, i, fd) && !SetsAt(policy, events, n, fd) && !ClearsAt(events, n, fd)
      ensures LosesAt(policy, events, i, fd) <==> LosesAt(policy, front, i, fd)
    {
      LastSetStep(policy, front, e, i, fd);
      SameInFront(policy, front, e, i, fd);
    }
    LosesInBounds(policy, front, fd);
    LosesInBounds(policy, events, fd);
  }

  lemma LosesInBounds(policy: Policy, events: seq<Event>, fd: int)
    ensures forall j: nat :: LosesAt(policy, events, j, fd) ==> j < |events|
  {
  }

  /** What the calls say about a slot. */
  ghost predicate SlotOk(policy: Policy, events: seq<Event>, fd: int) {
    var w := Run(policy, events);
    InRange(fd) ==>
      (w.slots[fd].Occupied? <==> Held(policy, events, fd)) &&
      if Stale(policy, events, fd) then w.slots[fd].Occupied? && Expected(w.open, fd) == Empty
      else w.slots[fd] == Expected(w.open, fd)
  }

  lemma {:induction false} SlotFromCalls(policy: Policy, events: seq<Event>, fd: int)
    ensures SlotOk(policy, events, fd)
  {
    hide Classify, EffectivePath, Denied, Held, Stale;
    if events == [] {
      NothingHeld(policy, fd);
    } else {
      var front, e := events[..|events| - 1], events[|events| - 1];
      SlotFromCalls(policy, front, fd);
      assert events == front + [e] && events[..|front|] == front;
      HeldStep(policy, front, e, fd);
      StaleStep(policy, front, e, fd);
      assert Run(policy, events) == After(policy, Run(policy, front), e);
    }
  }

  lemma NothingHeld(policy: Policy, fd: int)
    ensures !Held(policy, [], fd) && !Stale(policy, [], fd)
  {
  }

  /** For every run, orderly or not: the table is exact iff no descriptor it can hold has gone stale. */
  lemma ExactIffNothingStale(policy: Policy, events: seq<Event>)
    ensures Exact(Run(policy, events)) <==> forall fd :: InRange(fd) ==> !Stale(policy, events, fd)
  {
    hide Expected, Stale, Held;
    var w := Run(policy, events);
    forall fd | 0 <= fd < FD_MAP_MAX ensures w.slots[fd] == Expected(w.open, fd) <==> !Stale(policy, events, fd) {
      SlotFromCalls(policy, events, fd);
    }
    if Exact(w) {
      forall fd | InRange(fd) ensures !Stale(policy, events, fd) {
        assert w.slots[fd] == Expected(w.open, fd);
      }
    }
  }

  /** Only information paths are ever denied. */
  lemma UnclassifiedNotDenied(policy: Policy, path: string)
    requires Classify(Some(path)).kind != ProcGpuInfo
    ensures !Denied(policy, Some(path))
  {
  }

  /** Without that order the stronger claim fails: a reused descriptor keeps the record of its predecessor. */
  lemma HiddenCloseGoesStale(policy: Policy, path: string)
    requires Classify(Some(path)).kind == Other
    ensures var events := [Open(Some("/dev/nvidiactl"), 3), HiddenClose(3), Open(Some(path), 3)];
            var w := Run(policy, events);
            w.open == map[3 := Some(path)] && w.slots[3] == Occupied(Classify(Some("/dev/nvidiactl"))) && !Exact(w)
  {
    UnclassifiedNotDenied(policy, path);
    UnclassifiedNotDenied(policy, "/dev/nvidiactl");
    var e1, e2, e3 := Open(Some("/dev/nvidiactl"), 3), HiddenClose(3), Open(Some(path), 3);
    assert [e1, e2, e3][..2] == [e1, e2] && [e1, e2][..1] == [e1] && [e1][..0] == [];
    var w0 := Run(policy, []);
    var w1 := After(policy, w0, e1);
    assert Run(policy, [e1]) == w1;
    assert w1.slots[3] == Occupied(Classify(Some("/dev/nvidiactl")));
    var w2 := After(policy, w1, e2);
    assert Run(policy, [e1, e2]) == w2 && w2.open == map[];
    var w3 := After(policy, w2, e3);
    assert Run(policy, [e1, e2, e3]) == w3;
    assert Expected(w3.open, 3) == Empty;
  }
}
