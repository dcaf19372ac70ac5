/** The path classifier and the 4096-slot descriptor table. */
module FdMap {
  import opened Sequences
  import opened CStrings
  import opened Decimal
  import opened Topology
  import ProcPaths

  const FD_MAP_MAX: int := 4096
  const PATH_MAX: nat := 256

  datatype Kind = Other | NvidiaCtl | NvidiaDevice | NvidiaUvm | ProcGpusDir | ProcGpuInfo

  datatype FdRecord = FdRecord(kind: Kind, deviceMinor: int32, path: string, busId: string)

  const CTL_PATH := "/dev/nvidiactl"
  const UVM_PATH := "/dev/nvidia-uvm"
  const DEVICE_PREFIX := "/dev/nvidia"

  /** The record without its path: what a path is, and the minor or bus it names. */
  ghost predicate Describes(path: string, kind: Kind, minor: int32, bus: string) {
    match kind
    case NvidiaCtl => path == CTL_PATH && minor == -1 && bus == ""
    case NvidiaUvm => path == UVM_PATH && minor == -1 && bus == ""
    case NvidiaDevice => ParsedAfter(DEVICE_PREFIX, path) == Some(minor) && bus == ""
    case ProcGpusDir => path == ProcPaths.GPUS_DIR && minor == -1 && bus == ""
    case ProcGpuInfo => ProcPaths.BusOf(path) == Some(bus) && minor == -1
    case Other => Unclassified(path) && minor == -1 && bus == ""
  }

  ghost predicate Unclassified(path: string) {
    path != CTL_PATH && path != UVM_PATH && ParsedAfter(DEVICE_PREFIX, path) == None &&
    path != ProcPaths.GPUS_DIR && ProcPaths.BusOf(path) == None
  }

  /** The record of a path; ClassifyExact says that it is the only one that describes it. */
  ghost function Classify(path: Option<string>): FdRecord {
    if path.None? then FdRecord(Other, -1, "", "")
    else
      var p, kept := path.value, Take(path.value, PATH_MAX - 1);
      if p == CTL_PATH then FdRecord(NvidiaCtl, -1, kept, "")
      else if p == UVM_PATH then FdRecord(NvidiaUvm, -1, kept, "")
      else if ParsedAfter(DEVICE_PREFIX, p).Some? then
        FdRecord(NvidiaDevice, ParsedAfter(DEVICE_PREFIX, p).value, kept, "")
      else if p == ProcPaths.GPUS_DIR then FdRecord(ProcGpusDir, -1, kept, "")
      else if ProcPaths.BusOf(p).Some? then FdRecord(ProcGpuInfo, -1, kept, ProcPaths.BusOf(p).value)
      else FdRecord(Other, -1, kept, "")
  }

  /** The five kinds never overlap, so the order of the source's tests does not matter. */
  lemma ClassifyExact(path: string, kind: Kind, minor: int32, bus: string)
    ensures Describes(path, kind, minor, bus) <==>
            var r := Classify(Some(path)); kind == r.kind && minor == r.deviceMinor && bus == r.busId
  {
    KindsDisjoint(path);
  }

  lemma KindsDisjoint(path: string)
    ensures ParsedAfter(DEVICE_PREFIX, path).Some? ==>
              path != CTL_PATH && path != UVM_PATH && path != ProcPaths.GPUS_DIR && ProcPaths.BusOf(path) == None
    ensures ProcPaths.BusOf(path).Some? ==> path != CTL_PATH && path != UVM_PATH && path != ProcPaths.GPUS_DIR
  {
    if ParsedAfter(DEVICE_PREFIX, path).Some? {
      assert IsDigit(path[|DEVICE_PREFIX|..][0]);
      assert path[1] == DEVICE_PREFIX[1] == 'd';
    }
    if ProcPaths.BusOf(path).Some? {
      assert path[1] == ProcPaths.PREFIX[1] == 'p';
    }
  }

  method ParseNvidiaMinor(path: string) returns (r: Option<int32>)
    ensures r == ParsedAfter(DEVICE_PREFIX, path)
  {
    if !(DEVICE_PREFIX <= path) {
      return None;
    }
    var cursor, value := |DEVICE_PREFIX|, 0 as int32;
    if cursor == |path| || !IsDigit(path[cursor]) {
      return None;
    }
    while cursor < |path|
      invariant Reads(path, |DEVICE_PREFIX|, cursor, value)
    {
      ReadsNext(path, |DEVICE_PREFIX|, cursor, value);
      if !IsDigit(path[cursor]) {
        return None;
      }
      var digit := Digit(path[cursor]);
      if NoRoomFor(value, digit) {
        return None;
      }
      value := value * 10 + digit;
      cursor := cursor + 1;
    }
    assert path[|DEVICE_PREFIX|..cursor] == path[|DEVICE_PREFIX|..];
    return Some(value);
  }

  /** The classifier's own copy of the bus extraction. */
  method ClassifyProcGpuPath(path: string) returns (bus: Option<string>)
    ensures bus == ProcPaths.BusOf(path)
  {
    if |path| <= |ProcPaths.PREFIX| + |ProcPaths.SUFFIX| || !(ProcPaths.PREFIX <= path) ||
       path[|path| - |ProcPaths.SUFFIX|..] != ProcPaths.SUFFIX {
      return None;
    }
    var name := path[|ProcPaths.PREFIX|..|path| - |ProcPaths.SUFFIX|];
    if |name| == 0 || |name| >= BUS_ID_MAX {
      return None;
    }
    for i := 0 to |name|
      invariant '/' !in name[..i]
    {
      if name[i] == '/' {
        return None;
      }
    }
    return Some(name);
  }

  method ClassifyPath(path: Option<string>) returns (classified: bool, record: FdRecord)
    ensures record == Classify(path)
    ensures classified <==> record.kind != Other
  {
    record := FdRecord(Other, -1, if path.None? then "" else Take(path.value, PATH_MAX - 1), "");
    if path.None? {
      return false, record;
    }
    if path.value == CTL_PATH {
      return true, record.(kind := NvidiaCtl);
    }
    if path.value == UVM_PATH {
      return true, record.(kind := NvidiaUvm);
    }
    var minor := ParseNvidiaMinor(path.value);
    if minor.Some? {
      return true, record.(kind := NvidiaDevice, deviceMinor := minor.value);
    }
    if path.value == ProcPaths.GPUS_DIR {
      return true, record.(kind := ProcGpusDir);
    }
    var bus := ClassifyProcGpuPath(path.value);
    if bus.Some? {
      return true, record.(kind := ProcGpuInfo, busId := bus.value);
    }
    return false, record;
  }

  /** What every path is taken for, with every text written out; the stored path is its first 255 characters. */
  lemma ClassifiedExact(path: string)
    ensures var r := Classify(Some(path));
            (r.kind == NvidiaCtl <==> path == "/dev/nvidiactl") &&
            (r.kind == NvidiaUvm <==> path == "/dev/nvidia-uvm") &&
            (r.kind == ProcGpusDir <==> path == "/proc/driver/nvidia/gpus") &&
            (r.kind == NvidiaDevice <==> "/dev/nvidia" <= path && Parsed(path[11..]).Some?) &&
            (r.kind == ProcGpuInfo <==>
             exists bus :: path == "/proc/driver/nvidia/gpus/" + bus + "/information" &&
                           1 <= |bus| < 32 && '/' !in bus) &&
            r.path == (if |path| < 256 then path else path[..255]) &&
            (r.kind != Other ==> path != "" && path[0] == '/')
    ensures var r := Classify(Some(path));
            (r.kind == NvidiaDevice ==> Parsed(path[11..]) == Some(r.deviceMinor)) &&
            (r.kind != NvidiaDevice ==> r.deviceMinor == -1) && (r.kind != ProcGpuInfo ==> r.busId == "") &&
            (r.kind == ProcGpuInfo ==> path == "/proc/driver/nvidia/gpus/" + r.busId + "/information")
  {
    KindsDisjoint(path);
    forall bus
      ensures ProcPaths.BusOf(path) == Some(bus) <==>
              path == "/proc/driver/nvidia/gpus/" + bus + "/information" && 1 <= |bus| < 32 && '/' !in bus
    {
      ProcPaths.InfoPathExact(path, bus);
    }
  }

  /** Classifying the printed path of a device or of a GPU's information file gives it back. */
  lemma ClassifyPrinted(minor: nat, bus: string)
    requires minor <= INT_MAX && IsBus(bus)
    ensures Classify(Some(DEVICE_PREFIX + Printed(minor))).kind == NvidiaDevice
    ensures Classify(Some(DEVICE_PREFIX + Printed(minor))).deviceMinor == minor as int32
    ensures Classify(Some(ProcPaths.InfoPath(bus))).kind == ProcGpuInfo
    ensures Classify(Some(ProcPaths.InfoPath(bus))).busId == bus
  {
    var device := DEVICE_PREFIX + Printed(minor);
    ParseInvertsPrint(minor);
    assert device[|DEVICE_PREFIX|..] == Printed(minor);
    ClassifyExact(device, NvidiaDevice, minor as int32, "");
    ProcPaths.InfoPathExact(ProcPaths.InfoPath(bus), bus);
    ClassifyExact(ProcPaths.InfoPath(bus), ProcGpuInfo, -1, bus);
  }

  // ----- the table

  datatype Slot = Empty | Occupied(record: FdRecord)

  predicate InRange(fd: int) {
    0 <= fd < FD_MAP_MAX
  }

  ghost function SlotSet(slots: seq<Slot>, fd: int, slot: Slot): (r: seq<Slot>)
    requires |slots| == FD_MAP_MAX
    ensures |r| == FD_MAP_MAX
  {
    if InRange(fd) then slots[fd := slot] else slots
  }

  class FdTable {
    const slots: array<Slot>

    ghost predicate Valid()
      reads this
    {
      slots.Length == FD_MAP_MAX
    }

    constructor ()
      ensures Valid() && fresh(slots)
      ensures forall fd :: 0 <= fd < FD_MAP_MAX ==> slots[fd] == Empty
    {
      slots := new Slot[FD_MAP_MAX](_ => Empty);
    }

    method Clear()
      requires Valid()
      modifies slots
      ensures forall fd :: 0 <= fd < FD_MAP_MAX ==> slots[fd] == Empty
    {
      forall fd | 0 <= fd < FD_MAP_MAX {
        slots[fd] := Empty;
      }
    }

    method Set(fd: int, record: FdRecord)
      requires Valid()
      modifies slots
      ensures slots[..] == SlotSet(old(slots[..]), fd, Occupied(record))
    {
      if fd < 0 || fd >= FD_MAP_MAX {
        return;
      }
      slots[fd] := Occupied(record);
    }

    method Get(fd: int) returns (r: Option<FdRecord>)
      requires Valid()
      ensures r == if InRange(fd) && slots[fd].Occupied? then Some(slots[fd].record) else None
    {
      if fd < 0 || fd >= FD_MAP_MAX || slots[fd].Empty? {
        return None;
      }
      return Some(slots[fd].record);
    }

    method Remove(fd: int)
      requires Valid()
      modifies slots
      ensures slots[..] == SlotSet(old(slots[..]), fd, Empty)
    {
      if fd < 0 || fd >= FD_MAP_MAX {
        return;
      }
      slots[fd] := Empty;
    }
  }
}
