/** Where the shim's channels give the same answer about a GPU. */
module Channels {
  import opened Sequences
  import opened CStrings
  import opened Topology
  import opened FdMap
  import opened ProcPaths
  import opened OpenatPaths
  import opened RmReplies
  import opened Descriptors
  import opened Shim
  import RelativePaths

  /**
   A directory entry is listed exactly when its information file may be opened, absolutely or relative
   to the directory, except for names too long to be a bus, which are hidden but not refused.
   */
  lemma ListingAgreesWithPaths(policy: Policy, slots: seq<Slot>, dirfd: int, name: string)
    requires policy.ready && policy.allowed.valid && IsGpusDir(slots, dirfd)
    requires name != "" && '/' !in name && !IsDot(name)
    ensures var listed := EntryShown(policy, slots, dirfd, name);
            var opens := !Denied(policy, Some(InfoPath(name)));
            (opens <==> !Denied(policy, EffectivePath(slots, dirfd, Some(name + SUFFIX), PATH_MAX))) &&
            (listed ==> opens) &&
            ((listed <==> opens) <==> |name| < BUS_ID_MAX || CarriesBus(policy.allowed.gpus, name))
  {
    var path := name + SUFFIX;
    DenyExact(Some(policy.allowed), InfoPath(name));
    SameBus(name);
    InformationSegments(name);
    RelativePaths.HeadSegment(name, ["information"]);
    RelativePaths.HeadSegment("information", []);
    assert [name, "information"] == [name] + ["information"];
    assert RelativePaths.KeptSegments(path) == [name, "information"];
    assert !RelativePaths.HasParent(path);
    DenyBySegments(policy, slots, dirfd, path);
    assert NamesForbiddenFile(policy.allowed, path, name) <==>
           |name| < BUS_ID_MAX && !CarriesBus(policy.allowed.gpus, name);
  }

  lemma DirectoryIsClassified()
    ensures Classify(Some("/proc/driver/nvidia/gpus")).kind == ProcGpusDir
  {
    ClassifiedExact("/proc/driver/nvidia/gpus");
  }

  lemma ControlIsClassified()
    ensures Classify(Some("/dev/nvidiactl")).kind == NvidiaCtl
  {
    ClassifiedExact("/dev/nvidiactl");
  }

  /** A descriptor opened as the gpus directory is listed as it, until a later call is about it. */
  lemma OpenedDirectory(policy: Policy, events: seq<Event>, i: nat, fd: int)
    requires i < |events| && 0 <= fd < 4096
    requires events[i] == Event.Open(Some("/proc/driver/nvidia/gpus"), fd) ||
             exists dirfd :: events[i] == Event.Openat(dirfd, Some("/proc/driver/nvidia/gpus"), fd)
    requires forall k :: i < k < |events| ==> events[k].fd != fd
    ensures IsGpusDir(Run(policy, events).slots, fd)
  {
    hide Run, Classify, EffectivePath, Denied;
    DirectoryIsClassified();
    UnclassifiedNotDenied(policy, "/proc/driver/nvidia/gpus");
    OpenedStaysRecorded(policy, events, i, "/proc/driver/nvidia/gpus", fd);
  }

  /** A descriptor opened as the control device has its replies filtered, until a later call is about it. */
  lemma OpenedControl(policy: Policy, events: seq<Event>, i: nat, fd: int)
    requires i < |events| && 0 <= fd < 4096
    requires events[i] == Event.Open(Some("/dev/nvidiactl"), fd) ||
             exists dirfd :: events[i] == Event.Openat(dirfd, Some("/dev/nvidiactl"), fd)
    requires forall k :: i < k < |events| ==> events[k].fd != fd
    ensures IsControl(Run(policy, events).slots, fd)
  {
    hide Run, Classify, EffectivePath, Denied;
    ControlIsClassified();
    UnclassifiedNotDenied(policy, "/dev/nvidiactl");
    OpenedStaysRecorded(policy, events, i, "/dev/nvidiactl", fd);
  }

  /** No descriptor is taken for one of the two unless it was opened as it. */
  lemma OnlyThoseOpened(policy: Policy, events: seq<Event>, fd: int)
    ensures IsGpusDir(Run(policy, events).slots, fd) ==> (fd, "/proc/driver/nvidia/gpus") in Run(policy, events).tracked
    ensures IsControl(Run(policy, events).slots, fd) ==> (fd, "/dev/nvidiactl") in Run(policy, events).tracked
  {
    hide Run, Classify;
    AllRunsArePlausible(policy, events);
    var w := Run(policy, events);
    if IsGpusDir(w.slots, fd) || IsControl(w.slots, fd) {
      var path :| (fd, path) in w.tracked && w.slots[fd].record == Classify(Some(path));
      ClassifiedExact(path);
    }
  }

  lemma SameBus(name: string)
    ensures forall bus :: InfoPath(bus) == InfoPath(name) ==> bus == name
  {
    forall bus | InfoPath(bus) == InfoPath(name) ensures bus == name {
      assert |bus| == |name|;
      assert InfoPath(bus)[|PREFIX|..|PREFIX| + |bus|] == bus;
      assert InfoPath(name)[|PREFIX|..|PREFIX| + |name|] == name;
    }
  }

  /** Every record describes a present GPU, and no two share a bus or a minor. */
  ghost predicate ProperTopology(infos: seq<GpuInfo>) {
    (forall i :: 0 <= i < |infos| ==> infos[i].present && infos[i].deviceMinor >= 0 && IsBus(infos[i].busId)) &&
    (forall i, j :: 0 <= i < j < |infos| ==>
       infos[i].busId != infos[j].busId && infos[i].deviceMinor != infos[j].deviceMinor)
  }

  /**
   For a GPU of the topology, its valid card in any reply stays valid exactly when its information file
   may be opened, and both exactly when its device node is mounted and its uuid matches.
   */
  lemma CardsAgreeWithPaths(infos: seq<GpuInfo>, mounted: seq<int32>, explicitUuid: Option<string>, i: nat,
                            cards: seq<CardInfo>, k: nat)
    requires ProperTopology(infos) && |infos| <= MAX_GPUS && i < |infos|
    requires Selected(infos, mounted, explicitUuid) != []
    requires k < |cards| && cards[k].valid != 0 && cards[k].minorNumber == infos[i].deviceMinor as uint32
    ensures var allowed := Some(Allowed(true, Selected(infos, mounted, explicitUuid)));
            (HideCards(allowed, cards)[k].valid != 0 <==> Eligible(infos[i], mounted, explicitUuid)) &&
            (Decide(allowed, InfoPath(infos[i].busId)) == Allow <==> Eligible(infos[i], mounted, explicitUuid))
  {
    var gpus := Selected(infos, mounted, explicitUuid);
    var allowed := Some(Allowed(true, gpus));
    BuiltListDecides(infos, mounted, explicitUuid, infos[i].busId);
    forall g | 0 <= g < |gpus|
      ensures exists j :: 0 <= j < |infos| && infos[j] == gpus[g] && Eligible(infos[j], mounted, explicitUuid)
    {
      SelectedFrom(infos, mounted, explicitUuid, gpus[g]);
    }
    if Eligible(infos[i], mounted, explicitUuid) {
      EligibleSelected(infos, mounted, explicitUuid, i);
      var g :| 0 <= g < |gpus| && gpus[g] == infos[i];
      assert GpuHasMinor(gpus[g], infos[i].deviceMinor as uint32);
    }
  }

  lemma SelectedFrom(infos: seq<GpuInfo>, mounted: seq<int32>, explicitUuid: Option<string>, g: GpuInfo)
    requires g in Selected(infos, mounted, explicitUuid)
    ensures exists j :: 0 <= j < |infos| && infos[j] == g && Eligible(infos[j], mounted, explicitUuid)
  {
    FilterMembers(EligibleTest(mounted, explicitUuid), infos, g);
  }

  lemma EligibleSelected(infos: seq<GpuInfo>, mounted: seq<int32>, explicitUuid: Option<string>, i: nat)
    requires i < |infos| <= MAX_GPUS && Eligible(infos[i], mounted, explicitUuid)
    ensures infos[i] in Selected(infos, mounted, explicitUuid)
  {
    FilterLength(EligibleTest(mounted, explicitUuid), infos);
    assert infos[i] in infos;
    FilterMembers(EligibleTest(mounted, explicitUuid), infos, infos[i]);
  }
}
