/** A created node is new to the lab, breaks no rule, and leaves every other node and reference alone. */
module CreateEffects {
  import opened Numerals
  import opened LabModel
  import opened Lookup
  import opened NetworkLinks
  import opened NicConnections
  import opened Disks
  import opened DiskRules
  import opened Relabelling
  import opened RenameEffects
  import opened DeleteEffects
  import opened Creates

  // ---------------------------------------------------------------- one node more

  /** m has the nodes of l and one more of kind k, unnamed, at the end. */
  ghost predicate Gains(l: Lab, m: Lab, k: Kind, id: string) {
    && Count(m, k) == Count(l, k) + 1 && NodeAt(m, k, Count(l, k)) == NodeName(id, "")
    && (forall j: Kind | j != k :: Count(m, j) == Count(l, j))
    && (forall j: Kind, h: nat | h < Count(l, j) :: h < Count(m, j) && NodeAt(m, j, h) == NodeAt(l, j, h))
  }

  lemma FreeIsFresh(l: Lab, name: string)
    requires IdentityOk(l) && NameFree(l, name)
    ensures Fresh(l, name)
    ensures forall k: Kind, i: nat | i < Count(l, k) :: !Clash(NodeAt(l, k, i), NodeName(name, "")) && !Clash(NodeName(name, ""), NodeAt(l, k, i))
  {
    hide IdentityOk, MatchesRef, Clash, ValidNodeId;
    forall k: Kind, i: nat | i < Count(l, k)
      ensures !MatchesRef(NodeAt(l, k, i), name)
      ensures !Clash(NodeAt(l, k, i), NodeName(name, "")) && !Clash(NodeName(name, ""), NodeAt(l, k, i))
    {
      FindsNode(l, k, i);
      UntakenDoesNotClash(NodeAt(l, k, i), name);
    }
    forall k: Kind
      ensures !Has(l, k, name)
    {
      if Has(l, k, name) { SameIsMatch(NodeAt(l, k, Find(l, k, name)), name); }
    }
  }

  lemma SameIsMatch(n: NodeName, ref: string)
    requires n.id == ref
    ensures MatchesRef(n, ref)
  {
  }

  lemma GainsIdentity(l: Lab, m: Lab, k: Kind, name: string)
    requires IdentityOk(l) && NameFree(l, name) && Gains(l, m, k, name)
    ensures IdentityOk(m)
  {
    hide Clash, NameFree, ValidNodeId, EqualFold;
    FreeIsFresh(l, name);
    assert NameOk(NodeName(name, "")) by { FreeIsValid(l, name); }
    forall j: Kind, h: nat | h < Count(m, j)
      ensures NodeAt(m, j, h) == if j == k && h == Count(l, k) then NodeName(name, "") else NodeAt(l, j, h)
      ensures !(j == k && h == Count(l, k)) ==> h < Count(l, j)
    {
    }
  }

  lemma FreeIsValid(l: Lab, name: string)
    requires NameFree(l, name)
    ensures ValidNodeId(name) && name != ""
  {
  }

  lemma GainsFind(l: Lab, m: Lab, k: Kind, name: string, j: Kind, id: string)
    requires Gains(l, m, k, name) && Fresh(l, name)
    ensures Has(m, j, id) <==> Has(l, j, id) || (j == k && id == name)
    ensures Has(l, j, id) ==> Find(m, j, id) == Find(l, j, id)
  {
    var f, g := Find(l, j, id), Find(m, j, id);
    assert !Has(l, j, name);
    if f < Count(l, j) { assert NodeAt(m, j, f) == NodeAt(l, j, f); }
    if g < Count(l, j) { assert NodeAt(m, j, g) == NodeAt(l, j, g); }
    if j == k && id == name { assert NodeAt(m, j, Count(l, k)).id == id; }
  }

  // ---------------------------------------------------------------- rules, one by one

  lemma GainsNic(l: Lab, m: Lab, k: Kind, name: string, nic: Nic)
    requires Gains(l, m, k, name) && Fresh(l, name) && NicOk(l, nic)
    ensures NicOk(m, nic)
  {
    hide Gains, Fresh;
    GainsFind(l, m, k, name, SW, nic.switch);
    GainsFind(l, m, k, name, UP, nic.uplink);
  }

  lemma GainsSwitch(l: Lab, m: Lab, k: Kind, name: string, sw: Switch)
    requires Gains(l, m, k, name) && Fresh(l, name) && SwitchOk(l, sw)
    ensures SwitchOk(m, sw)
  {
    hide Gains, Fresh, SwitchUplinks;
    forall u { GainsFind(l, m, k, name, UP, u); }
  }

  lemma GainsDhcpSwitch(l: Lab, m: Lab, k: Kind, name: string, id: string)
    requires Gains(l, m, k, name) && Fresh(l, name) && SwitchesOk(l) && DhcpSwitchOk(l, id) && Has(l, SW, id)
    requires |m.switches| >= |l.switches| && m.switches[..|l.switches|] == l.switches
    requires |m.uplinks| >= |l.uplinks| && m.uplinks[..|l.uplinks|] == l.uplinks
    ensures DhcpSwitchOk(m, id)
  {
    hide Gains, Fresh, SwitchUplinks;
    GainsFind(l, m, k, name, SW, id);
    var i := Find(l, SW, id);
    assert m.switches[i] == l.switches[i] by { assert m.switches[..|l.switches|][i] == m.switches[i]; }
    assert SwitchOk(l, l.switches[i]);
    forall u | u in SwitchUplinks(l.switches[i])
      ensures var j := Find(m, UP, u); j < |m.uplinks| && m.uplinks[j] == l.uplinks[Find(l, UP, u)]
    {
      GainsFind(l, m, k, name, UP, u);
      assert m.uplinks[..|l.uplinks|][Find(l, UP, u)] == l.uplinks[Find(l, UP, u)];
    }
  }

  lemma GainsLayout(l: Lab, m: Lab, k: Kind, name: string, at: Position)
    requires Gains(l, m, k, name) && Fresh(l, name) && LayoutOk(l)
    requires m.positions == l.positions[name := at] && m.layoutLinks == l.layoutLinks
    ensures LayoutOk(m)
  {
    hide Gains, Fresh, Has;
    forall id | id in m.positions
      ensures HasNode(m, id)
    {
      forall j: Kind { GainsFind(l, m, k, name, j, id); }
      if id != name { assert HasNode(l, id); } else { GainsFind(l, m, k, name, k, name); }
    }
    forall e | LayoutEndOk(l, e)
      ensures LayoutEndOk(m, e)
    {
      GainsFind(l, m, k, name, KindOf(e.typ).value, e.id);
    }
  }

  /** Workloads found before are found as before. */
  ghost predicate KeepsWorkloads(l: Lab, m: Lab) {
    forall typ: string, id: string | WorkloadAt(l, typ, id).Some? :: WorkloadAt(m, typ, id) == WorkloadAt(l, typ, id)
  }

  lemma {:induction false} FindAppended(ws: seq<Workload>, w: Workload, id: string)
    ensures FindWorkload(ws + [w], id) == if FindWorkload(ws, id) < |ws| then FindWorkload(ws, id) else if w.id == id then |ws| else |ws| + 1
  {
    var f, g := FindWorkload(ws, id), FindWorkload(ws + [w], id);
    if f < |ws| { assert (ws + [w])[f].id == id; }
    assert (ws + [w])[|ws|] == w;
    if g < |ws| { assert ws[g].id == id; }
    assert forall h | 0 <= h < |ws| :: (ws + [w])[h] == ws[h];
  }

  lemma AppendKeepsWorkloads(l: Lab, k: Kind, w: Workload)
    requires IsWorkload(k)
    ensures KeepsWorkloads(l, AppendWorkload(l, k, w))
  {
    forall typ: string, id: string | WorkloadAt(l, typ, id).Some?
      ensures WorkloadAt(AppendWorkload(l, k, w), typ, id) == WorkloadAt(l, typ, id)
    {
      if typ == KindText(k) { FindAppended(Workloads(l, k), w, id); }
    }
  }

  lemma KeepsLinks(l: Lab, m: Lab)
    requires KeepsWorkloads(l, m) && m.links == l.links && LinksOk(l)
    ensures LinksOk(m)
  {
    hide EndpointOk, WorkloadAt, LinksApart;
    forall e | EndpointOk(l, e)
      ensures EndpointOk(m, e)
    {
      EndpointInWords(l, e);
      EndpointInWords(m, e);
    }
  }

  lemma KeepsDisks(l: Lab, m: Lab, resolve: PathFn)
    requires KeepsWorkloads(l, m) && m.disks == l.disks && DisksOk(l, resolve)
    ensures DisksOk(m, resolve)
  {
    hide BaseOk, ValidId, SameTarget, KeepsWorkloads;
    forall i | 0 <= i < |l.disks|
      ensures DiskOk(m, m.disks[i], resolve)
    {
      var d := l.disks[i];
      assert DiskOk(l, d, resolve);
      if d.attachedType != "" { KeptWorkload(l, m, d.attachedType, d.attachedTo); }
    }
  }

  lemma KeptWorkload(l: Lab, m: Lab, typ: string, id: string)
    requires KeepsWorkloads(l, m) && WorkloadAt(l, typ, id).Some?
    ensures WorkloadAt(m, typ, id) == WorkloadAt(l, typ, id)
  {
  }

  // ---------------------------------------------------------------- workloads

  lemma AppendedWorkloadGains(l: Lab, k: Kind, w: Workload)
    requires IsWorkload(k) && w.name == ""
    ensures Gains(l, AppendWorkload(l, k, w), k, w.id)
  {
  }

  lemma AppendedNetworks(l: Lab, k: Kind, w: Workload)
    requires IsWorkload(k) && w.name == "" && Fresh(l, w.id) && SwitchesOk(l) && NetworksOk(l)
    requires forall j | 0 <= j < |w.nics| :: NicOk(l, w.nics[j])
    ensures var m := AppendWorkload(l, k, w); SwitchesOk(m) && NetworksOk(m)
  {
    hide Gains, Fresh, NicOk, SwitchOk;
    var m := AppendWorkload(l, k, w);
    AppendedWorkloadGains(l, k, w);
    forall nic | NicOk(l, nic) ensures NicOk(m, nic) { GainsNic(l, m, k, w.id, nic); }
    forall sw | SwitchOk(l, sw) ensures SwitchOk(m, sw) { GainsSwitch(l, m, k, w.id, sw); }
  }

  lemma AppendedDhcpEnds(l: Lab, k: Kind, w: Workload, e: Endpoint)
    requires IsWorkload(k) && EndpointOk(l, e) && Fresh(l, w.id) && !DhcpEnd(l, e)
    ensures !DhcpEnd(AppendWorkload(l, k, w), e)
  {
    FreshInGroup(l, w.id, e.typ, FindWorkload(Group(l, e.typ), e.id));
  }

  /** A new container that is no DHCP service, or one on a switch of its own, keeps the DHCP rules. */
  lemma AppendedDhcp(l: Lab, k: Kind, w: Workload)
    requires IsWorkload(k) && w.name == "" && Fresh(l, w.id) && SwitchesOk(l) && NetworksOk(l) && DhcpOk(l) && LinksOk(l)
    requires w.service == "" || (k == CT && IsDhcp(w) && w.disk == "" && |w.nics| == 1
      && w.nics[0] == Nic(w.nics[0].switch, "", "") && Has(l, SW, w.nics[0].switch) && w.nics[0].switch != ""
      && DhcpSwitchOk(l, w.nics[0].switch) && !HasDhcpOn(l, w.nics[0].switch))
    ensures DhcpOk(AppendWorkload(l, k, w))
  {
    hide Gains, Fresh, DhcpSwitchOk, DhcpEnd, SwitchesOk, Has;
    var m := AppendWorkload(l, k, w);
    AppendedWorkloadGains(l, k, w);
    assert m.switches[..|l.switches|] == l.switches && m.uplinks[..|l.uplinks|] == l.uplinks;
    forall i | 0 <= i < |l.containers| && IsDhcp(l.containers[i])
      ensures DhcpSwitchOk(m, l.containers[i].nics[0].switch)
    {
      assert NicOk(l, l.containers[i].nics[0]);
      GainsDhcpSwitch(l, m, k, w.id, l.containers[i].nics[0].switch);
    }
    if IsDhcp(w) && k == CT { GainsDhcpSwitch(l, m, k, w.id, w.nics[0].switch); }
    forall x | x in l.links
      ensures !DhcpEnd(m, x.from) && !DhcpEnd(m, x.to)
    {
      assert EndpointOk(l, x.from) && EndpointOk(l, x.to);
      AppendedDhcpEnds(l, k, w, x.from);
      AppendedDhcpEnds(l, k, w, x.to);
    }
    AppendedServers(l, m, k, w);
  }

  lemma AppendedServers(l: Lab, m: Lab, k: Kind, w: Workload)
    requires DhcpOk(l) && m.links == l.links && m.containers == if k == CT then l.containers + [w] else l.containers
    requires forall i | 0 <= i < |l.containers| && IsDhcp(l.containers[i]) :: DhcpSwitchOk(m, l.containers[i].nics[0].switch)
    requires forall x | x in l.links :: !DhcpEnd(m, x.from) && !DhcpEnd(m, x.to)
    requires w.service == "" || (IsDhcp(w) && w.disk == "" && |w.nics| == 1
      && w.nics[0] == Nic(w.nics[0].switch, "", "") && w.nics[0].switch != ""
      && (k == CT ==> DhcpSwitchOk(m, w.nics[0].switch)) && !HasDhcpOn(l, w.nics[0].switch))
    ensures DhcpOk(m)
  {
    hide DhcpSwitchOk, DhcpEnd;
  }

  lemma AppendingWorkloadKeepsValid(l: Lab, k: Kind, w: Workload, resolve: PathFn)
    requires Valid(l, resolve) && IsWorkload(k) && w.name == "" && NameFree(l, w.id)
    requires forall j | 0 <= j < |w.nics| :: NicOk(l, w.nics[j])
    requires w.service == "" || (k == CT && IsDhcp(w) && w.disk == "" && |w.nics| == 1
      && w.nics[0] == Nic(w.nics[0].switch, "", "") && Has(l, SW, w.nics[0].switch) && w.nics[0].switch != ""
      && DhcpSwitchOk(l, w.nics[0].switch) && !HasDhcpOn(l, w.nics[0].switch))
    ensures Valid(AppendWorkload(l, k, w), resolve)
  {
    hide IdentityOk, SwitchesOk, NetworksOk, DhcpOk, LinksOk, DisksOk, LayoutOk, Gains, Fresh, NameFree, KeepsWorkloads, NicOk,
      DhcpSwitchOk, HasDhcpOn, Has;
    var m := AppendWorkload(l, k, w);
    FreeIsFresh(l, w.id);
    AppendedWorkloadGains(l, k, w);
    GainsIdentity(l, m, k, w.id);
    AppendedNetworks(l, k, w);
    AppendedDhcp(l, k, w);
    AppendKeepsWorkloads(l, k, w);
    KeepsLinks(l, m);
    KeepsDisks(l, m, resolve);
    GainsLayout(l, m, k, w.id, m.positions[w.id]);
  }

  lemma OptionalRefOk(l: Lab, k: Kind, ref: string)
    requires OptionalRef(l, k, ref).Some?
    ensures OptionalRef(l, k, ref).value != "" ==> Has(l, k, OptionalRef(l, k, ref).value)
  {
    hide Resolve, Has;
    if ref != "" { ResolvedNodeExists(l, k, ref); }
  }

  lemma FirstNicsOk(l: Lab, switchRef: string, uplinkRef: string, mac: string)
    requires FirstNics(l, switchRef, uplinkRef, mac).Some? && IdentityOk(l)
    ensures forall j | 0 <= j < |FirstNics(l, switchRef, uplinkRef, mac).value| :: NicOk(l, FirstNics(l, switchRef, uplinkRef, mac).value[j])
  {
    hide OptionalRef, IdentityOk;
    OptionalRefOk(l, SW, switchRef);
    OptionalRefOk(l, UP, uplinkRef);
    if l.switches != [] {
      assert NodeAt(l, SW, 0).id == l.switches[0].id;
      FindsNode(l, SW, 0);
    }
  }

  lemma CreateWorkloadKeepsValid(l: Lab, k: Kind, name: string, disk: string, switchRef: string, uplinkRef: string, mac: string, resolve: PathFn)
    requires Valid(l, resolve) && IsWorkload(k) && CreateWorkload(l, k, name, disk, switchRef, uplinkRef, mac).Some?
    ensures Valid(CreateWorkload(l, k, name, disk, switchRef, uplinkRef, mac).value, resolve)
  {
    hide IdentityOk, SwitchesOk, NetworksOk, DhcpOk, LinksOk, DisksOk, LayoutOk, NameFree, FirstNics, AppendWorkload, NicOk, HasDhcpOn;
    var given := if k == VM then "" else mac;
    FirstNicsOk(l, switchRef, uplinkRef, given);
    AppendingWorkloadKeepsValid(l, k, Workload(name, "", "", disk, FirstNics(l, switchRef, uplinkRef, given).value), resolve);
  }

  lemma CreateDhcpKeepsValid(l: Lab, name: string, switchRef: string, resolve: PathFn)
    requires Valid(l, resolve) && CreateDhcp(l, name, switchRef).Some?
    ensures Valid(CreateDhcp(l, name, switchRef).value, resolve)
  {
    hide IdentityOk, SwitchesOk, NetworksOk, DhcpOk, LinksOk, DisksOk, LayoutOk, NameFree, OptionalRef, AppendWorkload, HasDhcpOn, FirstCompatible,
      DhcpSwitchOk;
    var switch_ := if switchRef != "" then OptionalRef(l, SW, switchRef).value else FirstCompatible(l);
    AppendingWorkloadKeepsValid(l, CT, Workload(name, "", "dhcp", "", [Nic(switch_, "", "")]), resolve);
  }

  // ---------------------------------------------------------------- switches and uplinks

  /** Adding a switch or an uplink leaves workloads, links and disks as they are. */
  lemma SameWorkloadsKeep(l: Lab, m: Lab, resolve: PathFn)
    requires m.vms == l.vms && m.containers == l.containers && m.links == l.links && m.disks == l.disks
    requires LinksOk(l) && DisksOk(l, resolve)
    ensures LinksOk(m) && DisksOk(m, resolve)
  {
    hide LinksOk, DisksOk, KeepsWorkloads;
    assert KeepsWorkloads(l, m) by { SameGroups(l, m); }
    KeepsLinks(l, m);
    KeepsDisks(l, m, resolve);
  }

  lemma SameGroups(l: Lab, m: Lab)
    requires m.vms == l.vms && m.containers == l.containers
    ensures KeepsWorkloads(l, m)
  {
  }

  lemma GainsDhcp(l: Lab, m: Lab, k: Kind, name: string)
    requires Gains(l, m, k, name) && Fresh(l, name) && SwitchesOk(l) && NetworksOk(l) && DhcpOk(l)
    requires m.containers == l.containers && m.links == l.links
    requires |m.switches| >= |l.switches| && m.switches[..|l.switches|] == l.switches
    requires |m.uplinks| >= |l.uplinks| && m.uplinks[..|l.uplinks|] == l.uplinks
    ensures DhcpOk(m)
  {
    hide Gains, Fresh, SwitchesOk, DhcpSwitchOk, DhcpEnd;
    forall i | 0 <= i < |l.containers| && IsDhcp(l.containers[i])
      ensures DhcpSwitchOk(m, l.containers[i].nics[0].switch)
    {
      assert NicOk(l, l.containers[i].nics[0]);
      GainsDhcpSwitch(l, m, k, name, l.containers[i].nics[0].switch);
    }
    forall e ensures DhcpEnd(m, e) == DhcpEnd(l, e) { SameEnds(l, m, e); }
  }

  lemma SameEnds(l: Lab, m: Lab, e: Endpoint)
    requires m.containers == l.containers
    ensures DhcpEnd(m, e) == DhcpEnd(l, e)
  {
  }

  lemma GainsNetworks(l: Lab, m: Lab, k: Kind, name: string)
    requires Gains(l, m, k, name) && Fresh(l, name) && NetworksOk(l) && SwitchesOk(l)
    requires m.vms == l.vms && m.containers == l.containers
    ensures NetworksOk(m) && forall sw | sw in l.switches :: SwitchOk(m, sw)
  {
    hide Gains, Fresh, NicOk, SwitchOk;
    forall nic | NicOk(l, nic) ensures NicOk(m, nic) { GainsNic(l, m, k, name, nic); }
    forall sw | SwitchOk(l, sw) ensures SwitchOk(m, sw) { GainsSwitch(l, m, k, name, sw); }
  }

  lemma SwitchGains(l: Lab, sw: Switch)
    requires sw.name == ""
    ensures Gains(l, AppendSwitch(l, sw), SW, sw.id)
  {
  }

  lemma UplinkGains(l: Lab, u: Uplink)
    requires u.name == ""
    ensures Gains(l, AppendUplink(l, u), UP, u.id)
  {
  }

  lemma AppendingSwitchKeepsValid(l: Lab, sw: Switch, resolve: PathFn)
    requires Valid(l, resolve) && sw.name == "" && NameFree(l, sw.id) && SwitchOk(l, sw)
    ensures Valid(AppendSwitch(l, sw), resolve)
  {
    hide IdentityOk, NetworksOk, DhcpOk, LinksOk, DisksOk, LayoutOk, Gains, Fresh, NameFree, SwitchOk;
    var m := AppendSwitch(l, sw);
    FreeIsFresh(l, sw.id);
    SwitchGains(l, sw);
    GainsIdentity(l, m, SW, sw.id);
    GainsNetworks(l, m, SW, sw.id);
    GainsSwitch(l, m, SW, sw.id, sw);
    assert m.switches[..|l.switches|] == l.switches && m.uplinks[..|l.uplinks|] == l.uplinks;
    GainsDhcp(l, m, SW, sw.id);
    SameWorkloadsKeep(l, m, resolve);
    GainsLayout(l, m, SW, sw.id, m.positions[sw.id]);
  }

  lemma NewSwitchOk(l: Lab, name: string, mode: string, uplink: string)
    requires mode in {"bridge", "nat", "macnat-bridge"} && (mode == "macnat-bridge" ==> uplink != "") && (uplink != "" ==> Has(l, UP, uplink))
    ensures SwitchOk(l, Switch(name, "", mode, "", if uplink == "" then [] else [uplink]))
  {
    hide Has;
    var sw := Switch(name, "", mode, "", if uplink == "" then [] else [uplink]);
    forall u { InSwitchUplinks(sw, u); }
    if uplink != "" {
      InSwitchUplinks(sw, uplink);
      assert uplink in SwitchUplinks(sw);
    }
  }

  lemma CreateSwitchKeepsValid(l: Lab, name: string, mode: string, uplinkRef: string, resolve: PathFn)
    requires Valid(l, resolve) && CreateSwitch(l, name, mode, uplinkRef).Some?
    ensures Valid(CreateSwitch(l, name, mode, uplinkRef).value, resolve)
  {
    hide IdentityOk, SwitchesOk, NetworksOk, DhcpOk, LinksOk, DisksOk, LayoutOk, NameFree, OptionalRef, AppendSwitch, SwitchOk, Has;
    var uplink := OptionalRef(l, UP, uplinkRef).value;
    var chosen := if mode == "" then "bridge" else mode;
    OptionalRefOk(l, UP, uplinkRef);
    NewSwitchOk(l, name, chosen, uplink);
    AppendingSwitchKeepsValid(l, Switch(name, "", chosen, "", if uplink == "" then [] else [uplink]), resolve);
  }

  lemma CreateExternalKeepsValid(l: Lab, name: string, mode: string, resolve: PathFn)
    requires Valid(l, resolve) && CreateExternal(l, name, mode).Some?
    ensures Valid(CreateExternal(l, name, mode).value, resolve)
  {
    hide IdentityOk, NetworksOk, DhcpOk, LinksOk, DisksOk, LayoutOk, Gains, Fresh, NameFree, SwitchOk;
    var u := Uplink(name, "", if mode == "" then "nat" else mode);
    var m := AppendUplink(l, u);
    FreeIsFresh(l, name);
    UplinkGains(l, u);
    GainsIdentity(l, m, UP, name);
    GainsNetworks(l, m, UP, name);
    assert m.switches[..|l.switches|] == l.switches && m.uplinks[..|l.uplinks|] == l.uplinks;
    GainsDhcp(l, m, UP, name);
    SameWorkloadsKeep(l, m, resolve);
    GainsLayout(l, m, UP, name, m.positions[name]);
  }
}
