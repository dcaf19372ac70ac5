/** Which /proc paths name a GPU's information file, and whether the allow-list lets them be opened. */
module ProcPaths {
  import opened Sequences
  import opened CStrings
  import opened Topology

  const GPUS_DIR := "/proc/driver/nvidia/gpus"
  const PREFIX := "/proc/driver/nvidia/gpus/"
  const SUFFIX := "/information"

  datatype Decision = Ignore | Allow | Deny

  ghost function InfoPath(bus: string): string {
    PREFIX + bus + SUFFIX
  }

  /** The bus named by an information path; InfoPathExact says what that means. */
  ghost function BusOf(path: string): Option<string> {
    if |path| > |PREFIX| + |SUFFIX| && PREFIX <= path && path[|path| - |SUFFIX|..] == SUFFIX &&
       IsBus(path[|PREFIX|..|path| - |SUFFIX|])
    then Some(path[|PREFIX|..|path| - |SUFFIX|])
    else None
  }

  /** Extraction and `prefix + bus + suffix` are mutual inverses on buses. */
  lemma InfoPathExact(path: string, bus: string)
    ensures BusOf(path) == Some(bus) <==> IsBus(bus) && path == InfoPath(bus)
  {
    if BusOf(path) == Some(bus) {
      assert path == path[..|PREFIX|] + bus + path[|path| - |SUFFIX|..];
    }
    if IsBus(bus) && path == InfoPath(bus) {
      assert path[|PREFIX|..|path| - |SUFFIX|] == bus;
      assert path[|path| - |SUFFIX|..] == SUFFIX;
    }
  }

  method ExtractProcBus(path: Option<string>) returns (bus: Option<string>)
    ensures bus == if path.Some? then BusOf(path.value) else None
    ensures bus.Some? ==> IsBus(bus.value) && path == Some(InfoPath(bus.value))
  {
    if path.None? {
      return None;
    }
    var p := path.value;
    if |p| <= |PREFIX| + |SUFFIX| || !(PREFIX <= p) || p[|p| - |SUFFIX|..] != SUFFIX {
      return None;
    }
    var name := p[|PREFIX|..|p| - |SUFFIX|];
    if |name| == 0 || |name| >= BUS_ID_MAX {
      return None;
    }
    for i := 0 to |name|
      invariant '/' !in name[..i]
    {
      if name[i] == '/' {
        return None;
      }
    }
    InfoPathExact(p, name);
    return Some(name);
  }

  ghost function Decide(allowed: Option<Allowed>, path: string): Decision {
    if path == GPUS_DIR then Allow
    else if BusOf(path) == None then Ignore
    else if allowed.None? || !allowed.value.valid then Allow
    else if ContainsBus(allowed, BusOf(path).value) then Allow else Deny
  }

  method ProcPathAllowed(allowed: Option<Allowed>, path: Option<string>) returns (d: Decision)
    ensures d == if path.Some? then Decide(allowed, path.value) else Ignore
    ensures d == Deny <==>
            allowed.Some? && allowed.value.valid &&
            exists bus :: path == Some("/proc/driver/nvidia/gpus/" + bus + "/information") && 1 <= |bus| < 32 &&
                          '/' !in bus &&
                          forall i :: 0 <= i < |allowed.value.gpus| ==> allowed.value.gpus[i].busId != bus
    ensures d == Ignore <==>
            path != Some("/proc/driver/nvidia/gpus") &&
            !exists bus :: path == Some("/proc/driver/nvidia/gpus/" + bus + "/information") && 1 <= |bus| < 32 &&
                           '/' !in bus
  {
    if path.None? {
      return Ignore;
    }
    DecideByRule(allowed, path.value);
    if path.value == GPUS_DIR {
      return Allow;
    }
    var bus := ExtractProcBus(path);
    if bus.None? {
      return Ignore;
    }
    if allowed.None? || !allowed.value.valid {
      return Allow;
    }
    var found := AllowedContainsBus(allowed, bus);
    return if found then Allow else Deny;
  }

  /** The only denied paths are the information paths of buses outside a valid list. */
  lemma DenyExact(allowed: Option<Allowed>, path: string)
    ensures Decide(allowed, path) == Deny <==>
            allowed.Some? && allowed.value.valid &&
            exists bus :: IsBus(bus) && path == InfoPath(bus) && !CarriesBus(allowed.value.gpus, bus)
  {
    forall bus ensures BusOf(path) == Some(bus) <==> IsBus(bus) && path == InfoPath(bus) {
      InfoPathExact(path, bus);
    }
  }

  /** The decision with every path written out. */
  lemma DecideByRule(allowed: Option<Allowed>, path: string)
    ensures Decide(allowed, path) == Deny <==>
            allowed.Some? && allowed.value.valid &&
            exists bus :: path == "/proc/driver/nvidia/gpus/" + bus + "/information" && 1 <= |bus| < 32 &&
                          '/' !in bus &&
                          forall i :: 0 <= i < |allowed.value.gpus| ==> allowed.value.gpus[i].busId != bus
    ensures Decide(allowed, path) == Ignore <==>
            path != "/proc/driver/nvidia/gpus" &&
            !exists bus :: path == "/proc/driver/nvidia/gpus/" + bus + "/information" && 1 <= |bus| < 32 && '/' !in bus
  {
    DenyExact(allowed, path);
    forall bus
      ensures BusOf(path) == Some(bus) <==>
              path == "/proc/driver/nvidia/gpus/" + bus + "/information" && 1 <= |bus| < 32 && '/' !in bus
    {
      InfoPathExact(path, bus);
    }
    forall bus ensures IsBus(bus) && path == InfoPath(bus) <==> BusOf(path) == Some(bus) {
      InfoPathExact(path, bus);
    }
  }

  /** Allow-list building composed with the path decision: a GPU's file opens iff it was selected. */
  lemma BuiltListDecides(infos: seq<GpuInfo>, mounted: seq<int32>, explicitUuid: Option<string>, bus: string)
    requires IsBus(bus)
    ensures var gpus := Selected(infos, mounted, explicitUuid);
            Decide(Some(Allowed(gpus != [], gpus)), InfoPath(bus)) ==
            if gpus != [] && !CarriesBus(gpus, bus) then Deny else Allow
    ensures |infos| <= MAX_GPUS ==>
              (CarriesBus(Selected(infos, mounted, explicitUuid), bus) <==>
               exists i :: 0 <= i < |infos| && Eligible(infos[i], mounted, explicitUuid) && infos[i].busId == bus)
  {
    InfoPathExact(InfoPath(bus), bus);
    var eligible := EligibleTest(mounted, explicitUuid);
    var gpus := Selected(infos, mounted, explicitUuid);
    if |infos| <= MAX_GPUS {
      FilterLength(eligible, infos);
      if CarriesBus(gpus, bus) {
        var i :| 0 <= i < |gpus| && gpus[i].busId == bus;
        FilterMembers(eligible, infos, gpus[i]);
      }
      forall i | 0 <= i < |infos| && Eligible(infos[i], mounted, explicitUuid) && infos[i].busId == bus
        ensures CarriesBus(gpus, bus)
      {
        assert infos[i] in infos;
        FilterMembers(eligible, infos, infos[i]);
      }
    }
  }
}
