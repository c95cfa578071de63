/** Creating VMs, containers, switches, uplinks and DHCP services. */
module Creates {
  import opened Numerals
  import opened LabModel
  import opened Lookup
  import opened NetworkLinks
  import opened NicConnections
  import opened Disks

  /** validateNodeName. */
  predicate NameFree(l: Lab, name: string) {
    name != "" && ValidNodeId(name) && !NameTaken(l, name, "")
  }

  /** An optional reference: the id it resolves to, the empty text for none, or a failure. */
  function OptionalRef(l: Lab, k: Kind, ref: string): Option<string> {
    if ref == "" then Some("")
    else match Resolve(l, k, ref) case Found(id) => Some(id) case _ => None
  }

  /** The interfaces a new workload gets: as asked, or else on the first switch. */
  function FirstNics(l: Lab, switchRef: string, uplinkRef: string, mac: string): Option<seq<Nic>> {
    var asked, uplink := OptionalRef(l, SW, switchRef), OptionalRef(l, UP, uplinkRef);
    if asked.None? || uplink.None? then None
    else
      var switch_ := if asked.value == "" && uplink.value == "" && l.switches != [] then l.switches[0].id else asked.value;
      if switch_ != "" && uplink.value != "" then None
      else Some((if switch_ != "" then [Nic(switch_, "", mac)] else []) + (if uplink.value != "" then [Nic("", uplink.value, mac)] else []))
  }

  function Placed(l: Lab, id: string, at: Position): Lab {
    l.(positions := l.positions[id := at])
  }

  function AppendWorkload(l: Lab, k: Kind, w: Workload): Lab
    requires IsWorkload(k)
  {
    var ws := Workloads(l, k) + [w];
    Placed(WithWorkloads(l, k, ws), w.id, Position(80, 80 + 96 * |ws|))
  }

  /** CreateVM and CreateContainer; a VM's first interface has no MAC of its own. */
  function CreateWorkload(l: Lab, k: Kind, name: string, disk: string, switchRef: string, uplinkRef: string, mac: string): Option<Lab>
    requires IsWorkload(k)
  {
    var nics := FirstNics(l, switchRef, uplinkRef, if k == VM then "" else mac);
    if !NameFree(l, name) || nics.None? then None
    else Some(AppendWorkload(l, k, Workload(name, "", "", disk, nics.value)))
  }

  function AppendSwitch(l: Lab, sw: Switch): Lab {
    Placed(l.(switches := l.switches + [sw]), sw.id, Position(448, 80 + 96 * (|l.switches| + 1)))
  }

  function CreateSwitch(l: Lab, name: string, mode: string, uplinkRef: string): Option<Lab> {
    var chosen := if mode == "" then "bridge" else mode;
    var uplink := OptionalRef(l, UP, uplinkRef);
    if !NameFree(l, name) || uplink.None? || chosen !in {"bridge", "nat", "macnat-bridge"}
       || (chosen == "macnat-bridge" && uplink.value == "") then None
    else Some(AppendSwitch(l, Switch(name, "", chosen, "", if uplink.value == "" then [] else [uplink.value])))
  }

  function AppendUplink(l: Lab, u: Uplink): Lab {
    Placed(l.(uplinks := l.uplinks + [u]), u.id, Position(832, 80 + 96 * (|l.uplinks| + 1)))
  }

  function CreateExternal(l: Lab, name: string, mode: string): Option<Lab> {
    var chosen := if mode == "" then "nat" else mode;
    if !NameFree(l, name) || chosen !in {"nat", "direct", "macnat"} then None
    else Some(AppendUplink(l, Uplink(name, "", chosen)))
  }

  /** firstDHCPCompatibleSwitchID from switch i on. */
  function FirstCompatible(l: Lab, i: nat := 0): (id: string)
    requires i <= |l.switches|
    decreases |l.switches| - i
  {
    if i == |l.switches| then ""
    else if CompatibleSwitch(l, l.switches[i]) then l.switches[i].id
    else FirstCompatible(l, i + 1)
  }

  /** dhcpCompatibleSwitch. */
  predicate CompatibleSwitch(l: Lab, sw: Switch) {
    && sw.mode == "nat"
    && forall u | u in SwitchUplinks(sw) :: var j := Find(l, UP, u); j < |l.uplinks| ==> l.uplinks[j].mode != "macnat"
  }

  predicate HasDhcpOn(l: Lab, switch: string) {
    exists i | 0 <= i < |l.containers| ::
      IsDhcp(l.containers[i]) && |l.containers[i].nics| == 1 && l.containers[i].nics[0].switch == switch && switch != ""
  }

  function CreateDhcp(l: Lab, name: string, switchRef: string): Option<Lab> {
    var switch_ := if switchRef != "" then OptionalRef(l, SW, switchRef) else Some(FirstCompatible(l));
    if !NameFree(l, name) || switch_.None? || switch_.value == "" || !DhcpCompatible(l, switch_.value) || HasDhcpOn(l, switch_.value) then None
    else Some(AppendWorkload(l, CT, Workload(name, "", "dhcp", "", [Nic(switch_.value, "", "")])))
  }

  // ---------------------------------------------------------------- in place

  method ResolveOptional(l: Lab, k: Kind, ref: string) returns (id: Option<string>)
    ensures id == OptionalRef(l, k, ref)
  {
    if ref == "" {
      return Some("");
    }
    var r := ResolveOne(l, k, ref);
    if !r.Found? {
      return None;
    }
    return Some(r.id);
  }

  method WorkloadCreate(s: LabState, k: Kind, name: string, disk: string, switchRef: string, uplinkRef: string, mac: string) returns (ok: bool)
    requires IsWorkload(k)
    modifies s
    ensures Did(s, ok, CreateWorkload(old(s.View()), k, name, disk, switchRef, uplinkRef, mac))
  {
    hide NameFree, Resolve;
    var l := s.View();
    if !NameFree(l, name) {
      return false;
    }
    var asked := ResolveOptional(l, SW, switchRef);
    var uplink := ResolveOptional(l, UP, uplinkRef);
    if asked.None? || uplink.None? {
      return false;
    }
    var switch_ := asked.value;
    if switch_ == "" && uplink.value == "" && |s.switches| > 0 {
      switch_ := s.switches[0].id;
    }
    if switch_ != "" && uplink.value != "" {
      return false;
    }
    var nics: seq<Nic> := [];
    var given := if k == VM then "" else mac;
    if switch_ != "" {
      nics := nics + [Nic(switch_, "", given)];
    }
    if uplink.value != "" {
      nics := nics + [Nic("", uplink.value, given)];
    }
    assert nics == (if switch_ != "" then [Nic(switch_, "", given)] else []) + (if uplink.value != "" then [Nic("", uplink.value, given)] else []);
    var w := Workload(name, "", "", disk, nics);
    if k == VM {
      s.vms := s.vms + [w];
      s.positions := s.positions[name := Position(80, 80 + |s.vms| * 96)];
    } else {
      s.containers := s.containers + [w];
      s.positions := s.positions[name := Position(80, 80 + |s.containers| * 96)];
    }
    return true;
  }

  method SwitchCreate(s: LabState, name: string, mode: string, uplinkRef: string) returns (ok: bool)
    modifies s
    ensures Did(s, ok, CreateSwitch(old(s.View()), name, mode, uplinkRef))
  {
    hide NameFree, Resolve;
    var l := s.View();
    if !NameFree(l, name) {
      return false;
    }
    var chosen := if mode == "" then "bridge" else mode;
    var uplink := ResolveOptional(l, UP, uplinkRef);
    if uplink.None? {
      return false;
    }
    var ids := if uplink.value == "" then [] else [uplink.value];
    if chosen !in {"bridge", "nat", "macnat-bridge"} || (chosen == "macnat-bridge" && |ids| == 0) {
      return false;
    }
    s.switches := s.switches + [Switch(name, "", chosen, "", ids)];
    s.positions := s.positions[name := Position(448, 80 + |s.switches| * 96)];
    return true;
  }

  method ExternalCreate(s: LabState, name: string, mode: string) returns (ok: bool)
    modifies s
    ensures Did(s, ok, CreateExternal(old(s.View()), name, mode))
  {
    hide NameFree;
    var l := s.View();
    var chosen := if mode == "" then "nat" else mode;
    if !NameFree(l, name) || chosen !in {"nat", "direct", "macnat"} {
      return false;
    }
    s.uplinks := s.uplinks + [Uplink(name, "", chosen)];
    s.positions := s.positions[name := Position(832, 80 + |s.uplinks| * 96)];
    return true;
  }

  method FirstCompatibleSwitch(l: Lab) returns (id: string)
    ensures id == FirstCompatible(l)
  {
    for i := 0 to |l.switches|
      invariant FirstCompatible(l) == FirstCompatible(l, i)
    {
      if CompatibleSwitch(l, l.switches[i]) {
        return l.switches[i].id;
      }
    }
    return "";
  }

  method DhcpCreate(s: LabState, name: string, switchRef: string) returns (ok: bool)
    modifies s
    ensures Did(s, ok, CreateDhcp(old(s.View()), name, switchRef))
  {
    hide NameFree, Resolve, DhcpCompatible, FirstCompatible;
    var l := s.View();
    if !NameFree(l, name) {
      return false;
    }
    var switch_ := "";
    if switchRef != "" {
      var asked := ResolveOptional(l, SW, switchRef);
      if asked.None? {
        return false;
      }
      switch_ := asked.value;
    } else {
      switch_ := FirstCompatibleSwitch(l);
    }
    if switch_ == "" || !DhcpCompatible(l, switch_) {
      return false;
    }
    for i := 0 to |s.containers|
      invariant s.View() == l
      invariant forall j | 0 <= j < i ::
        !(IsDhcp(l.containers[j]) && |l.containers[j].nics| == 1 && l.containers[j].nics[0].switch == switch_)
    {
      var w := s.containers[i];
      if IsDhcp(w) && |w.nics| == 1 && w.nics[0].switch == switch_ {
        return false;
      }
    }
    s.containers := s.containers + [Workload(name, "", "dhcp", "", [Nic(switch_, "", "")])];
    s.positions := s.positions[name := Position(80, 80 + |s.containers| * 96)];
    return true;
  }
}
