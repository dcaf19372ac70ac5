/** Which paths the shim refuses to open, relative ones included. */
module OpenatPaths {
  import opened Sequences
  import opened CStrings
  import opened Topology
  import opened FdMap
  import opened ProcPaths
  import opened RelativePaths

  predicate IsAbsolute(path: Option<string>) {
    path.Some? && path.value != "" && path.value[0] == '/'
  }

  predicate IsRelative(path: Option<string>) {
    path.Some? && (path.value == "" || path.value[0] != '/')
  }

  /** The shim's globals that a denial depends on. */
  datatype Policy = Policy(ready: bool, allowed: Allowed)

  ghost predicate Denied(policy: Policy, path: Option<string>) {
    policy.ready && IsAbsolute(path) && Decide(Some(policy.allowed), path.value) == Deny
  }

  ghost function Recorded(slots: seq<Slot>, fd: int): Option<FdRecord> {
    if 0 <= fd < |slots| && fd < FD_MAP_MAX && slots[fd].Occupied? then Some(slots[fd].record) else None
  }

  ghost predicate IsGpusDir(slots: seq<Slot>, fd: int) {
    Recorded(slots, fd).Some? && Recorded(slots, fd).value.kind == ProcGpusDir
  }

  /** The path an openat is judged by; n is the size of the buffer for the joined path. */
  ghost function EffectivePath(slots: seq<Slot>, dirfd: int, path: Option<string>, n: nat): Option<string> {
    if !IsRelative(path) || n == 0 || !IsGpusDir(slots, dirfd) then path
    else
      var normalized := Normalized(path.value, PATH_MAX);
      if normalized == None || |PREFIX| + |normalized.value| >= n then path else Some(PREFIX + normalized.value)
  }

  /**
   Relative to the gpus directory a path is judged below it, under the one text that splits into the path's
   segments other than "" and "."; it is judged as written if it has "..", no segment, or does not fit.
   */
  lemma EffectiveExact(slots: seq<Slot>, dirfd: int, path: string, out: string, named: string -> bool)
    requires IsGpusDir(slots, dirfd) && (path == "" || path[0] != '/')
    requires forall s :: named(s) <==> s != "" && s != "."
    ensures EffectivePath(slots, dirfd, Some(path), 256) == Some("/proc/driver/nvidia/gpus/" + out) <==>
            ".." !in Split(path, '/') && Filter(named, Split(path, '/')) != [] &&
            Split(out, '/') == Filter(named, Split(path, '/')) && 25 + |out| < 256
    ensures var e := EffectivePath(slots, dirfd, Some(path), 256);
            e == Some(path) || exists below :: e == Some("/proc/driver/nvidia/gpus/" + below)
  {
    NormalizedExact(path, 256, out, named);
    var normal := Normalized(path, 256);
    if normal.Some? && |PREFIX| + |normal.value| < 256 {
      assert (PREFIX + normal.value)[|PREFIX|..] == normal.value;
      assert ("/proc/driver/nvidia/gpus/" + out)[|PREFIX|..] == out;
    }
  }

  lemma InformationJoin(bus: string)
    ensures Join([bus, "information"], '/') == bus + SUFFIX
  {
    assert ["information"] == [bus, "information"][1..];
    assert bus + ['/'] + "information" == bus + SUFFIX;
  }

  lemma InformationSegments(bus: string)
    requires '/' !in bus
    ensures Split(bus + SUFFIX, '/') == [bus, "information"]
  {
    InformationJoin(bus);
    assert SepFree([bus, "information"], '/');
    SplitJoin([bus, "information"], '/');
  }

  /** The kept segments name the information file of a bus that is not allowed. */
  ghost predicate NamesForbiddenFile(allowed: Allowed, path: string, bus: string) {
    KeptSegments(path) == [bus, "information"] && 1 <= |bus| < BUS_ID_MAX && !CarriesBus(allowed.gpus, bus)
  }

  /** The same with the kept segments named by their rule. */
  lemma DenyBySegments(policy: Policy, slots: seq<Slot>, dirfd: int, path: string)
    requires policy.ready && policy.allowed.valid && IsGpusDir(slots, dirfd) && IsRelative(Some(path))
    ensures Denied(policy, EffectivePath(slots, dirfd, Some(path), PATH_MAX)) <==>
            !HasParent(path) && exists bus :: NamesForbiddenFile(policy.allowed, path, bus)
  {
    var effective := EffectivePath(slots, dirfd, Some(path), PATH_MAX);
    if Denied(policy, effective) {
      ForbiddenFromDenied(policy, slots, dirfd, path);
    }
    if bus :| !HasParent(path) && NamesForbiddenFile(policy.allowed, path, bus) {
      DeniedFromForbidden(policy, slots, dirfd, path, bus);
    }
  }

  /**
   Relative to the gpus directory, exactly these paths are denied, whatever their length: no "..", and,
   apart from "" and ".", the segments `bus` and `information` for a bus that no listed GPU has.
   */
  lemma RelativeDenyExact(policy: Policy, slots: seq<Slot>, dirfd: int, path: string, named: string -> bool)
    requires policy.ready && policy.allowed.valid && IsGpusDir(slots, dirfd) && (path == "" || path[0] != '/')
    requires forall s :: named(s) <==> s != "" && s != "."
    ensures Denied(policy, EffectivePath(slots, dirfd, Some(path), PATH_MAX)) <==>
            ".." !in Split(path, '/') &&
            exists bus :: Filter(named, Split(path, '/')) == [bus, "information"] && 1 <= |bus| < 32 &&
                          forall i :: 0 <= i < |policy.allowed.gpus| ==> policy.allowed.gpus[i].busId != bus
  {
    DenyBySegments(policy, slots, dirfd, path);
    FilterAgree(KeptTest(), named, Split(path, '/'));
    forall bus
      ensures NamesForbiddenFile(policy.allowed, path, bus) <==>
              Filter(named, Split(path, '/')) == [bus, "information"] && 1 <= |bus| < 32 &&
              forall i :: 0 <= i < |policy.allowed.gpus| ==> policy.allowed.gpus[i].busId != bus
    {
    }
  }

  lemma NeverDenied(policy: Policy, slots: seq<Slot>, dirfd: int, path: string)
    requires IsRelative(Some(path)) && !(policy.ready && policy.allowed.valid && IsGpusDir(slots, dirfd))
    ensures !Denied(policy, EffectivePath(slots, dirfd, Some(path), PATH_MAX))
  {
  }

  lemma SameSegmentsSameDenial(policy: Policy, slots: seq<Slot>, dirfd: int, p: string, q: string)
    requires IsRelative(Some(p)) && IsRelative(Some(q))
    requires KeptSegments(p) == KeptSegments(q) && HasParent(p) == HasParent(q)
    ensures Denied(policy, EffectivePath(slots, dirfd, Some(p), PATH_MAX)) <==>
            Denied(policy, EffectivePath(slots, dirfd, Some(q), PATH_MAX))
  {
    hide KeptSegments, HasParent, EffectivePath, Denied;
    if policy.ready && policy.allowed.valid && IsGpusDir(slots, dirfd) {
      DenyBySegments(policy, slots, dirfd, p);
      DenyBySegments(policy, slots, dirfd, q);
      assert forall bus :: NamesForbiddenFile(policy.allowed, p, bus) <==> NamesForbiddenFile(policy.allowed, q, bus);
    } else {
      NeverDenied(policy, slots, dirfd, p);
      NeverDenied(policy, slots, dirfd, q);
    }
  }

  /** "./" in front of a relative path, or "/." before a slash in it, never changes whether it is denied. */
  lemma DotsNeverMatter(policy: Policy, slots: seq<Slot>, dirfd: int, a: string, b: string)
    ensures b == "" || b[0] != '/' ==>
              (Denied(policy, EffectivePath(slots, dirfd, Some("./" + b), PATH_MAX)) <==>
               Denied(policy, EffectivePath(slots, dirfd, Some(b), PATH_MAX)))
    ensures a != "" && a[0] != '/' ==>
              (Denied(policy, EffectivePath(slots, dirfd, Some(a + "/./" + b), PATH_MAX)) <==>
               Denied(policy, EffectivePath(slots, dirfd, Some(a + "/" + b), PATH_MAX)))
  {
    hide EffectivePath, Denied, KeptSegments, HasParent;
    if b == "" || b[0] != '/' {
      LeadingDot(b);
      SameSegmentsSameDenial(policy, slots, dirfd, "./" + b, b);
    }
    if a != "" && a[0] != '/' {
      InnerDot(a, b);
      SameSegmentsSameDenial(policy, slots, dirfd, a + "/./" + b, a + "/" + b);
    }
  }

  lemma LeadingDot(b: string)
    ensures KeptSegments("./" + b) == KeptSegments(b) && (HasParent("./" + b) <==> HasParent(b))
  {
    hide Split;
    assert "./" + b == "." + ['/'] + b;
    SplitHead(".", b, '/');
    DotSegment([], b);
  }

  lemma InnerDot(a: string, b: string)
    ensures KeptSegments(a + "/./" + b) == KeptSegments(a + "/" + b)
    ensures HasParent(a + "/./" + b) <==> HasParent(a + "/" + b)
  {
    hide Split;
    assert a + "/./" + b == a + ['/'] + ("." + ['/'] + b) && a + "/" + b == a + ['/'] + b;
    SplitHead(".", b, '/');
    SplitConcat(a, "." + ['/'] + b, '/');
    SplitConcat(a, b, '/');
    DotSegment(Split(a, '/'), b);
  }

  lemma DotSegment(front: seq<string>, b: string)
    ensures var with, without := front + (["."] + Split(b, '/')), front + Split(b, '/');
            Filter(KeptTest(), with) == Filter(KeptTest(), without) && (".." in with <==> ".." in without)
    ensures front == [] ==>
              front + (["."] + Split(b, '/')) == ["."] + Split(b, '/') && front + Split(b, '/') == Split(b, '/')
  {
    FilterAppend(KeptTest(), front, ["."] + Split(b, '/'));
    FilterAppend(KeptTest(), front, Split(b, '/'));
    HeadSegment(".", Split(b, '/'));
  }

  lemma ForbiddenFromDenied(policy: Policy, slots: seq<Slot>, dirfd: int, path: string)
    requires IsGpusDir(slots, dirfd) && IsRelative(Some(path))
    requires Denied(policy, EffectivePath(slots, dirfd, Some(path), PATH_MAX))
    ensures !HasParent(path) && exists bus :: NamesForbiddenFile(policy.allowed, path, bus)
  {
    var effective := EffectivePath(slots, dirfd, Some(path), PATH_MAX).value;
    var normal := Normalized(path, PATH_MAX).value;
    DenyExact(Some(policy.allowed), effective);
    var bus :| IsBus(bus) && effective == InfoPath(bus) && !CarriesBus(policy.allowed.gpus, bus);
    assert effective[|PREFIX|..] == normal == bus + SUFFIX by {
      assert InfoPath(bus) == PREFIX + (bus + SUFFIX);
    }
    InformationSegments(bus);
    NormalizedTwice(path, PATH_MAX);
    assert NamesForbiddenFile(policy.allowed, path, bus);
  }

  lemma DeniedFromForbidden(policy: Policy, slots: seq<Slot>, dirfd: int, path: string, bus: string)
    requires policy.ready && policy.allowed.valid && IsGpusDir(slots, dirfd) && IsRelative(Some(path))
    requires !HasParent(path) && NamesForbiddenFile(policy.allowed, path, bus)
    ensures Denied(policy, EffectivePath(slots, dirfd, Some(path), PATH_MAX))
  {
    KeptSegmentsProper(path);
    assert bus in KeptSegments(path);
    InformationJoin(bus);
    assert PREFIX + (bus + SUFFIX) == InfoPath(bus);
    assert IsBus(bus);
    DenyExact(Some(policy.allowed), InfoPath(bus));
  }

  /** Any other path is judged as it is written. */
  lemma OtherDenyExact(policy: Policy, slots: seq<Slot>, dirfd: int, path: Option<string>, n: nat)
    requires !IsRelative(path) || !IsGpusDir(slots, dirfd)
    ensures Denied(policy, EffectivePath(slots, dirfd, path, n)) <==>
            policy.ready && policy.allowed.valid &&
            exists bus :: path == Some("/proc/driver/nvidia/gpus/" + bus + "/information") &&
                          1 <= |bus| < 32 && '/' !in bus &&
                          forall i :: 0 <= i < |policy.allowed.gpus| ==> policy.allowed.gpus[i].busId != bus
  {
    if path.Some? {
      DenyExact(Some(policy.allowed), path.value);
    }
    forall bus
      ensures IsBus(bus) && path == Some(InfoPath(bus)) && !CarriesBus(policy.allowed.gpus, bus) <==>
              path == Some("/proc/driver/nvidia/gpus/" + bus + "/information") && 1 <= |bus| < 32 && '/' !in bus &&
              forall i :: 0 <= i < |policy.allowed.gpus| ==> policy.allowed.gpus[i].busId != bus
    {
    }
  }
}
