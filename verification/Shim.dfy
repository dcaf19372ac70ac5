/** The wrapped libc calls, over the shim's global state.  Kernel and libc answers are parameters. */
module Shim {
  import opened Sequences
  import opened CStrings
  import opened Topology
  import opened FdMap
  import opened RelativePaths
  import opened OpenatPaths
  import opened Descriptors
  import opened RmReplies
  import opened ReplyLaws
  import LearnedIds
  import ProcPaths
  import DirentRecords
  import DirentWalk
  import Dirents

  /** The descriptor is recorded as the driver's control device. */
  ghost predicate IsControl(slots: seq<Slot>, fd: int) {
    Recorded(slots, fd).Some? && Recorded(slots, fd).value.kind == NvidiaCtl
  }

  /** Whether readdir shows an entry of a directory. */
  ghost predicate EntryShown(policy: Policy, slots: seq<Slot>, dirfd: int, name: string) {
    !policy.ready || !IsGpusDir(slots, dirfd) || DirentRecords.KeepName(Some(policy.allowed), name)
  }

  ghost function EntryTest(policy: Policy, slots: seq<Slot>, dirfd: int): string -> bool {
    (name: string) => EntryShown(policy, slots, dirfd, name)
  }

  /** The first position from pos on whose entry is shown; the number of entries if there is none. */
  ghost function NextShown(shown: string -> bool, entries: seq<string>, pos: nat): (k: nat)
    requires pos <= |entries|
    ensures pos <= k <= |entries| && (k < |entries| ==> shown(entries[k]))
    ensures forall j :: pos <= j < k ==> !shown(entries[j])
    decreases |entries| - pos
  {
    if pos == |entries| || shown(entries[pos]) then pos else NextShown(shown, entries, pos + 1)
  }

  /** A directory stream of the C library: the entries still to come start at pos. */
  class DirStream {
    const entries: seq<string>
    var pos: nat

    ghost predicate Valid()
      reads this
    {
      pos <= |entries|
    }

    constructor (names: seq<string>)
      ensures Valid() && entries == names && pos == 0
    {
      entries, pos := names, 0;
    }

    /** The real readdir. */
    method Next() returns (entry: Option<string>)
      requires Valid()
      modifies this
      ensures Valid()
      ensures old(pos) == |entries| ==> entry == None && pos == old(pos)
      ensures old(pos) < |entries| ==> entry == Some(entries[old(pos)]) && pos == old(pos) + 1
    {
      if pos == |entries| {
        return None;
      }
      entry := Some(entries[pos]);
      pos := pos + 1;
    }
  }

  class Preload {
    const fds: FdTable
    const filter: LearnedIds.IoctlFilter
    const cfg: LearnedIds.Config
    const ready: bool
    const allowed: Allowed

    ghost function PolicyNow(): Policy {
      Policy(ready, allowed)
    }

    /** What the ioctl filter is handed: nothing unless filtering is ready. */
    function AllowedNow(): Option<Allowed> {
      if ready then Some(allowed) else None
    }

    /** Filtering is only ever ready with a valid allow-list. */
    ghost predicate Valid()
      reads this, fds, filter, filter.ids
    {
      fds.Valid() && filter.Valid() && (ready ==> allowed.valid)
    }

    /** The library constructor, given what topology detection collected. */
    constructor (procEnabled: bool, ioctlEnabled: bool, infos: seq<GpuInfo>, mounted: seq<int32>,
                 explicitUuid: Option<string>)
      ensures Valid() && fresh(fds) && fresh(filter)
      ensures ready <==> procEnabled && exists i :: 0 <= i < |infos| && Eligible(infos[i], mounted, explicitUuid)
      ensures ready <==>
              procEnabled && exists g :: g in infos && g.present && g.deviceMinor in mounted &&
                                         (explicitUuid.Some? && explicitUuid.value != "" ==>
                                            g.uuid == explicitUuid.value)
      ensures fds.slots.Length == 4096 && forall fd :: 0 <= fd < 4096 ==> fds.slots[fd] == Empty
      ensures filter.history == []
      ensures procEnabled ==> allowed.gpus == Selected(infos, mounted, explicitUuid)
      ensures cfg == LearnedIds.Config(ioctlEnabled)
    {
      var table := new FdTable();
      var learned := new LearnedIds.IoctlFilter();
      var ok, built := false, NOTHING_ALLOWED;
      if procEnabled {
        ok, built := BuildAllowedGpus(infos, mounted, explicitUuid);
        assert forall g :: g in infos <==> exists i :: 0 <= i < |infos| && infos[i] == g;
      }
      fds, filter, cfg, ready, allowed := table, learned, LearnedIds.Config(ioctlEnabled), ok, built;
    }

    method ProcDenied(path: Option<string>) returns (denied: bool)
      ensures denied <==> Denied(PolicyNow(), path)
      ensures denied <==>
              ready && allowed.valid &&
              exists bus :: path == Some("/proc/driver/nvidia/gpus/" + bus + "/information") && 1 <= |bus| < 32 &&
                            '/' !in bus && forall i :: 0 <= i < |allowed.gpus| ==> allowed.gpus[i].busId != bus
    {
      if !ready || !IsAbsolute(path) {
        return false;
      }
      var decision := ProcPaths.ProcPathAllowed(Some(allowed), path);
      return decision == ProcPaths.Deny;
    }

    /** n is the size of the buffer the joined path is printed into. */
    method EffectiveOpenatPath(dirfd: int, path: Option<string>, n: nat) returns (effective: Option<string>)
      requires Valid() && (path.Some? ==> '\0' !in path.value)
      ensures effective == EffectivePath(fds.slots[..], dirfd, path, n)
    {
      hide Normalized;
      if !IsRelative(path) || n == 0 {
        return path;
      }
      var record := fds.Get(dirfd);
      if record.None? || record.value.kind != ProcGpusDir {
        return path;
      }
      ghost var slots := fds.slots[..];
      assert slots[dirfd] == fds.slots[dirfd];
      var buffer := new char[PATH_MAX];
      var ok := NormalizeRelativePath(path, buffer);
      assert fds.slots[..] == slots;
      if !ok {
        return path;
      }
      NormalizedKeepsOut(path.value, PATH_MAX, '\0');
      var relative := ReadCString(buffer, Normalized(path.value, PATH_MAX).value);
      if |ProcPaths.PREFIX| + |relative| >= n {
        return path;
      }
      return Some(ProcPaths.PREFIX + relative);
    }

    /** The string a buffer holds, up to its NUL. */
    static method ReadCString(buffer: array<char>, ghost held: string) returns (s: string)
      requires HoldsCString(buffer, held) && '\0' !in held
      ensures s == held
    {
      var k := 0;
      forall j | 0 <= j < |held| ensures buffer[j] != '\0' {
        assert buffer[j] == buffer[..|held|][j] == held[j] && held[j] in held;
      }
      while buffer[k] != '\0'
        invariant 0 <= k <= |held|
        decreases |held| - k
      {
        k := k + 1;
      }
      return buffer[..k];
    }

    /** open and opendir; fd is the kernel's answer if it is asked.  The result is -1 if it is not. */
    method Open(path: Option<string>, fd: int) returns (r: int)
      requires Valid()
      modifies fds.slots
      ensures Valid()
      ensures fds.slots[..] == SlotsAfter(PolicyNow(), old(fds.slots[..]), Event.Open(path, fd))
      ensures r == if Denied(PolicyNow(), path) then -1 else fd
      ensures !Denied(PolicyNow(), path) && Classify(path).kind != Other && 0 <= fd < 4096 ==>
                fds.slots[fd] == Occupied(Classify(path))
      ensures Denied(PolicyNow(), path) || Classify(path).kind == Other ==> fds.slots[..] == old(fds.slots[..])
      ensures forall k :: 0 <= k < 4096 && k != fd ==> fds.slots[k] == old(fds.slots[k])
    {
      var classified, record := ClassifyPath(path);
      var denied := ProcDenied(path);
      if denied {
        return -1;
      }
      if classified && fd >= 0 {
        fds.Set(fd, record);
      }
      return fd;
    }

    method Openat(dirfd: int, path: Option<string>, fd: int) returns (r: int)
      requires Valid() && (path.Some? ==> '\0' !in path.value)
      modifies fds.slots
      ensures Valid()
      ensures fds.slots[..] == SlotsAfter(PolicyNow(), old(fds.slots[..]), Event.Openat(dirfd, path, fd))
      ensures r == if Denied(PolicyNow(), EffectivePath(old(fds.slots[..]), dirfd, path, PATH_MAX)) then -1 else fd
      ensures var p := EffectivePath(old(fds.slots[..]), dirfd, path, 256);
              (!Denied(PolicyNow(), p) && Classify(p).kind != Other && 0 <= fd < 4096 ==>
                 fds.slots[fd] == Occupied(Classify(p))) &&
              (Denied(PolicyNow(), p) || Classify(p).kind == Other ==> fds.slots[..] == old(fds.slots[..]))
      ensures forall k :: 0 <= k < 4096 && k != fd ==> fds.slots[k] == old(fds.slots[k])
    {
      hide EffectivePath, Denied, Classify;
      var effective := EffectiveOpenatPath(dirfd, path, PATH_MAX);
      ClassifiedIsAbsolute(effective);
      var denied := ProcDenied(effective);
      if denied {
        return -1;
      }
      if IsAbsolute(effective) || dirfd == AT_FDCWD {
        TraceAndTrackOpen(effective, fd);
      } else {
        UntrackedIsOther();
      }
      return fd;
    }

    method TraceAndTrackOpen(path: Option<string>, fd: int)
      requires Valid()
      modifies fds.slots
      ensures Valid() && fds.slots[..] == Track(old(fds.slots[..]), path, fd)
    {
      var classified, record := ClassifyPath(path);
      if classified && fd >= 0 {
        fds.Set(fd, record);
      }
    }

    lemma ClassifiedIsAbsolute(path: Option<string>)
      ensures Classify(path).kind != Other ==> path.Some? && path.value != "" && path.value[0] == '/'
    {
      if path.Some? {
        ClassifiedExact(path.value);
      }
    }

    lemma UntrackedIsOther()
      ensures Classify(None).kind == Other
    {
    }

    method Close(fd: int, kernelResult: int) returns (r: int)
      requires Valid()
      modifies fds.slots
      ensures Valid() && r == kernelResult
      ensures fds.slots[..] == SlotsAfter(PolicyNow(), old(fds.slots[..]), Event.Close(fd, kernelResult == 0))
      ensures forall k :: 0 <= k < 4096 ==>
                fds.slots[k] == if k == fd && kernelResult == 0 then Empty else old(fds.slots[k])
    {
      if kernelResult == 0 {
        fds.Remove(fd);
      }
      return kernelResult;
    }

    // ----- directory listings

    method ReaddirEntryAllowed(dirfd: int, name: string) returns (shown: bool)
      requires Valid()
      ensures shown <==> EntryShown(PolicyNow(), fds.slots[..], dirfd, name)
      ensures shown <==> !ready || !IsGpusDir(fds.slots[..], dirfd) || name == "." || name == ".." ||
                         (name != "" && exists i :: 0 <= i < |allowed.gpus| && allowed.gpus[i].busId == name)
    {
      if !ready {
        return true;
      }
      var record := fds.Get(dirfd);
      assert InRange(dirfd) ==> fds.slots[..][dirfd] == fds.slots[dirfd];
      if record.None? || record.value.kind != ProcGpusDir || name == "." || name == ".." {
        return true;
      }
      shown := AllowedContainsBus(Some(allowed), Some(name));
    }

    /** readdir on a stream whose descriptor is fd: the next entry that is shown. */
    method Readdir(dir: DirStream, fd: int) returns (entry: Option<string>)
      requires Valid() && dir.Valid()
      modifies dir
      ensures dir.Valid()
      ensures var k := NextShown(EntryTest(PolicyNow(), fds.slots[..], fd), dir.entries, old(dir.pos));
              if k < |dir.entries| then entry == Some(dir.entries[k]) && dir.pos == k + 1
              else entry == None && dir.pos == k
    {
      ghost var shown := EntryTest(PolicyNow(), fds.slots[..], fd);
      entry := dir.Next();
      if entry.None? {
        return;
      }
      var ok := ReaddirEntryAllowed(fd, entry.value);
      while !ok
        invariant dir.Valid() && entry.Some? && dir.pos > 0 && entry.value == dir.entries[dir.pos - 1]
        invariant ok <==> shown(entry.value)
        invariant NextShown(shown, dir.entries, old(dir.pos)) == NextShown(shown, dir.entries, dir.pos - 1)
        decreases |dir.entries| - dir.pos, !ok
      {
        entry := dir.Next();
        if entry.None? {
          return;
        }
        ok := ReaddirEntryAllowed(fd, entry.value);
      }
    }

    /** getdents64, after the kernel has put len bytes of records into the buffer (or failed). */
    method Getdents64(fd: int, buffer: array?<Octet>, len: int) returns (r: int)
      requires Valid() && (buffer != null ==> len <= buffer.Length) && (len > 0 ==> buffer != null)
      modifies buffer
      ensures buffer != null && (len <= 0 || !ready || !IsGpusDir(old(fds.slots[..]), fd)) ==>
                r == len && buffer[..] == old(buffer[..])
      ensures buffer != null && len > 0 && ready && IsGpusDir(old(fds.slots[..]), fd) ==>
                var w := DirentWalk.Filtering(DirentRecords.Keeps(Some(allowed)), old(buffer[..len]));
                r == w.r && buffer[..len] == w.bytes && buffer[len..] == old(buffer[len..])
    {
      r := len;
      if r > 0 && ready {
        var record := fds.Get(fd);
        assert InRange(fd) ==> fds.slots[..][fd] == fds.slots[fd];
        if record.Some? && record.value.kind == ProcGpusDir {
          r := Dirents.FilterDirent64Buffer(buffer, len, Some(allowed));
        }
      }
    }

    lemma DevicesByRule(table: seq<uint32>, n: uint32, devices: seq<ActiveDevice>)
      requires |devices| == 256
      ensures var before := devices[..if n > 256 then 256 else n as int];
              var kept := Filter(KnownDevice(table), before);
              if exists d :: d in before && d.gpuId in table
              then |kept| <= 256 && RewriteDevices(table, n, devices).0 as int == |kept| &&
                   RewriteDevices(table, n, devices).1 == kept + devices[|kept|..]
              else RewriteDevices(table, n, devices) == (n, devices)
    {
      ReportedExact(n, devices);
      ActiveExact(table, n, devices);
      KeptDevicesFit(table, n, devices);
      var kept := KeptDevices(table, n, devices);
      forall d ensures d in kept <==> d in Reported(n, devices) && d.gpuId in table {
        FilterMembers(KnownDevice(table), Reported(n, devices), d);
      }
      assert kept != [] ==> kept[0] in kept;
      assert (exists d :: d in Reported(n, devices) && d.gpuId in table) ==> kept != [];
    }

    lemma CardsByRule(allowed: Allowed, cards: seq<CardInfo>)
      requires allowed.valid
      ensures forall i :: 0 <= i < |cards| ==>
                var before, after := cards[i], HideCards(Some(allowed), cards)[i];
                after == if before.valid != 0 &&
                            !exists g :: 0 <= g < |allowed.gpus| && allowed.gpus[g].present &&
                                         allowed.gpus[g].deviceMinor as int == before.minorNumber as int
                         then CardInfo(0, before.gpuId, before.minorNumber, before.rest) else before
    {
      forall i | 0 <= i < |cards| {
        HiddenExact(allowed, cards, i);
      }
    }

    /** ioctl, after the kernel has answered: only descriptors of the control device are filtered. */
    method Ioctl(fd: int, arg: LearnedIds.IoctlArg, result: int32) returns (r: int32)
      requires Valid() && arg.WellTyped()
      requires arg.Memory() !! {filter, filter.ids, fds, fds.slots}
      modifies filter, filter.ids, arg.Memory()
      ensures Valid() && r == result
      ensures filter.history ==
              if IsControl(old(fds.slots[..]), fd) && result == 0 && arg.CardInfoArg?
              then old(filter.history) + [CardReply(AllowedNow(), old(arg.cards[..]))] else old(filter.history)
      ensures arg.CardInfoArg? ==>
                arg.cards[..] ==
                if IsControl(old(fds.slots[..]), fd) && result == 0 && cfg.ioctlFilterEnabled
                then HideCards(AllowedNow(), old(arg.cards[..])) else old(arg.cards[..])
      ensures arg.CardInfoArg? && IsControl(old(fds.slots[..]), fd) && result == 0 && cfg.ioctlFilterEnabled &&
              ready ==>
                forall i :: 0 <= i < arg.cards.Length ==>
                  var before := old(arg.cards[..])[i];
                  arg.cards[i] ==
                  if before.valid != 0 &&
                     !exists g :: 0 <= g < |allowed.gpus| && allowed.gpus[g].present &&
                                  allowed.gpus[g].deviceMinor as int == before.minorNumber as int
                  then CardInfo(0, before.gpuId, before.minorNumber, before.rest) else before
      ensures arg.CardInfoArg? && (!cfg.ioctlFilterEnabled || !ready) ==> arg.cards[..] == old(arg.cards[..])
      ensures arg.RmControlArg? && arg.rm.params.GpuIds? && arg.rm.params.ids.Length >= 32 &&
              IsControl(old(fds.slots[..]), fd) && cfg.ioctlFilterEnabled && ready && result == 0 &&
              arg.rm.status == 0 && arg.rm.cmd == 0x201 && arg.rm.paramsSize >= 128 ==>
                var before, after := Listed(old(arg.rm.params.ids[..])[..32]), Listed(arg.rm.params.ids[..][..32]);
                if exists id :: id in before && id in filter.Table()
                then after == Filter(Known(filter.Table()), before)
                else arg.rm.params.ids[..] == old(arg.rm.params.ids[..])
      ensures arg.RmControlArg? && arg.rm.params.GpuIds? ==>
                arg.rm.params.ids[..] ==
                if IsControl(old(fds.slots[..]), fd) && cfg.ioctlFilterEnabled && ready && result == 0 &&
                   arg.rm.status == 0 && arg.rm.cmd == 0x201 && arg.rm.paramsSize >= 128
                then RewriteIds(filter.Table(), old(arg.rm.params.ids[..])[..MAX_ATTACHED]) +
                     old(arg.rm.params.ids[..])[MAX_ATTACHED..]
                else old(arg.rm.params.ids[..])
      ensures arg.RmControlArg? && arg.rm.params.Devices? &&
              IsControl(old(fds.slots[..]), fd) && cfg.ioctlFilterEnabled && ready && result == 0 &&
              arg.rm.status == 0 && arg.rm.cmd == 0x288 && arg.rm.paramsSize >= 3076 ==>
                var n, all := old(arg.rm.params.params.numDevices), old(arg.rm.params.params.devices[..]);
                var before := all[..if n > 256 then 256 else n as int];
                var kept, out := Filter(KnownDevice(filter.Table()), before), arg.rm.params.params.devices[..];
                if exists d :: d in before && d.gpuId in filter.Table()
                then |kept| <= 256 && arg.rm.params.params.numDevices as int == |kept| && out == kept + all[|kept|..]
                else arg.rm.params.params.numDevices == n && out == all
      ensures arg.RmControlArg? && arg.rm.params.Devices? ==>
                (arg.rm.params.params.numDevices, arg.rm.params.params.devices[..]) ==
                if IsControl(old(fds.slots[..]), fd) && cfg.ioctlFilterEnabled && ready && result == 0 &&
                   arg.rm.status == 0 && arg.rm.cmd == 0x288 && arg.rm.paramsSize >= 3076
                then RewriteDevices(filter.Table(), old(arg.rm.params.params.numDevices),
                                    old(arg.rm.params.params.devices[..]))
                else old((arg.rm.params.params.numDevices, arg.rm.params.params.devices[..]))
    {
      var record := fds.Get(fd);
      assert InRange(fd) ==> fds.slots[..][fd] == fds.slots[fd];
      if record.Some? && record.value.kind == NvidiaCtl {
        ghost var cards := if arg.CardInfoArg? then arg.cards[..] else [];
        ghost var hasDevices := arg.RmControlArg? && arg.rm.params.Devices?;
        ghost var devices := if hasDevices then arg.rm.params.params.devices[..] else [];
        ghost var n := if hasDevices then arg.rm.params.params.numDevices else 0;
        ghost var ids := if arg.RmControlArg? && arg.rm.params.GpuIds? then arg.rm.params.ids[..] else [];
        filter.FilterAfter(Some(cfg), AllowedNow(), arg, result);
        if ready {
          CardsByRule(allowed, cards);
        }
        if |devices| == 256 {
          DevicesByRule(filter.Table(), n, devices);
        }
        if |ids| >= 32 {
          AttachedExact(filter.Table(), ids[..32]);
        }
      }
      return result;
    }
  }
}
