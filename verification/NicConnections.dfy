/** Connecting and disconnecting interfaces: to switches and uplinks, and directly to each other. */
module NicConnections {
  import opened Numerals
  import opened LabModel
  import opened Lookup
  import opened NetworkLinks

  // ---------------------------------------------------------------- one interface of one workload

  function EndpointAt(l: Lab, k: Kind, i: nat, index: nat): Endpoint
    requires IsWorkload(k) && i < |Workloads(l, k)|
  {
    Endpoint(KindText(k), Workloads(l, k)[i].id, index)
  }

  /** Links of the interface removed and its attachment replaced. */
  function ReplaceNic(l: Lab, k: Kind, i: nat, index: nat, nic: Nic): Lab
    requires IsWorkload(k) && i < |Workloads(l, k)| && index < |Workloads(l, k)[i].nics|
  {
    WithNics(l, k, i, Workloads(l, k)[i].nics[index := nic])
      .(links := WithoutEndpoint(l.links, EndpointAt(l, k, i, index)))
  }

  method SetNicAt(s: LabState, k: Kind, i: nat, index: nat, nic: Nic)
    requires IsWorkload(k) && i < |Workloads(s.View(), k)| && index < |Workloads(s.View(), k)[i].nics|
    modifies s
    ensures s.View() == ReplaceNic(old(s.View()), k, i, index, nic)
  {
    RemoveNetworkLinksForEndpoint(s, EndpointAt(s.View(), k, i, index));
    SetNics(s, k, i, Workloads(s.View(), k)[i].nics[index := nic]);
  }

  lemma ReplacedInterfaces(l: Lab, k: Kind, i: nat, index: nat, nic: Nic, e: Endpoint, x: Nic)
    requires IdentityOk(l) && IsWorkload(k) && i < |Workloads(l, k)| && index < |Workloads(l, k)[i].nics|
    ensures IsNic(ReplaceNic(l, k, i, index, nic), e, x)
       <==> if e == EndpointAt(l, k, i, index) then x == nic else IsNic(l, e, x)
  {
    hide IdentityOk;
    var nics := Workloads(l, k)[i].nics[index := nic];
    GroupWithNics(l, k, i, nics, e);
    assert Group(ReplaceNic(l, k, i, index, nic), e.typ) == Group(WithNics(l, k, i, nics), e.typ);
    if OfNode(e, KindText(k), Workloads(l, k)[i].id) {
      FindWorkloadIsFind(l, k, e.id);
      FindsNode(l, k, i);
      assert NodeAt(l, k, i).id == Workloads(l, k)[i].id;
    }
  }

  lemma ReplacedWiring(l: Lab, k: Kind, i: nat, index: nat, nic: Nic, a: Endpoint, b: Endpoint)
    requires IsWorkload(k) && i < |Workloads(l, k)| && index < |Workloads(l, k)[i].nics|
    ensures var e := EndpointAt(l, k, i, index);
      Linked(ReplaceNic(l, k, i, index, nic).links, a, b) <==> Linked(l.links, a, b) && a != e && b != e
  {
    var e := EndpointAt(l, k, i, index);
    InWithoutEndpoint(l.links, e, Link(a, b));
    InWithoutEndpoint(l.links, e, Link(b, a));
  }

  lemma ReplacingKeepsLinks(l: Lab, k: Kind, i: nat, index: nat, nic: Nic)
    requires IdentityOk(l) && LinksOk(l)
    requires IsWorkload(k) && i < |Workloads(l, k)| && index < |Workloads(l, k)[i].nics|
    ensures LinksOk(ReplaceNic(l, k, i, index, nic))
  {
    hide IdentityOk, EndpointOk, IsNic;
    var m := ReplaceNic(l, k, i, index, nic);
    var e := EndpointAt(l, k, i, index);
    WithoutEndpointApart(l.links, e);
    forall x | x in m.links
      ensures x.from != x.to && EndpointOk(m, x.from) && EndpointOk(m, x.to)
    {
      InWithoutEndpoint(l.links, e, x);
      assert x.from != x.to && EndpointOk(l, x.from) && EndpointOk(l, x.to);
      ReplacingKeepsEndpoint(l, k, i, index, nic, x.from);
      ReplacingKeepsEndpoint(l, k, i, index, nic, x.to);
    }
  }

  lemma ReplacingKeepsEndpoint(l: Lab, k: Kind, i: nat, index: nat, nic: Nic, e: Endpoint)
    requires IdentityOk(l) && IsWorkload(k) && i < |Workloads(l, k)| && index < |Workloads(l, k)[i].nics|
    requires EndpointOk(l, e) && e != EndpointAt(l, k, i, index)
    ensures EndpointOk(ReplaceNic(l, k, i, index, nic), e)
  {
    hide IdentityOk, EndpointOk, IsNic, ReplaceNic;
    EndpointOkIsFreeNic(l, e);
    EndpointOkIsFreeNic(ReplaceNic(l, k, i, index, nic), e);
    var x :| IsNic(l, e, x) && Free(x);
    ReplacedInterfaces(l, k, i, index, nic, e, x);
  }

  lemma FilteredLinksAvoidDhcp(l: Lab, e: Endpoint)
    requires DhcpOk(l)
    ensures forall x | x in WithoutEndpoint(l.links, e) :: !DhcpEnd(l, x.from) && !DhcpEnd(l, x.to)
  {
    forall x | x in WithoutEndpoint(l.links, e)
      ensures !DhcpEnd(l, x.from) && !DhcpEnd(l, x.to)
    {
      InWithoutEndpoint(l.links, e, x);
    }
  }

  /** Replacing an interface of anything but a DHCP service by an admissible one keeps a lab valid. */
  lemma ReplacingKeepsValid(l: Lab, k: Kind, i: nat, index: nat, nic: Nic, resolve: PathFn)
    requires Valid(l, resolve) && IsWorkload(k) && i < |Workloads(l, k)| && index < |Workloads(l, k)[i].nics|
    requires NicOk(l, nic) && !(k == CT && IsDhcp(l.containers[i]))
    ensures Valid(ReplaceNic(l, k, i, index, nic), resolve)
  {
    hide IdentityOk, SwitchesOk, NetworksOk, DhcpOk, LinksOk, DisksOk, LayoutOk, NicOk;
    ReplacingKeepsMost(l, k, i, index, nic, resolve);
    assert DhcpOk(ReplaceNic(l, k, i, index, nic)) by {
      var e := EndpointAt(l, k, i, index);
      FilteredLinksAvoidDhcp(l, e);
      DhcpStaysOk(l, k, i, Workloads(l, k)[i].nics[index := nic], WithoutEndpoint(l.links, e));
    }
  }

  lemma ReplacingKeepsMost(l: Lab, k: Kind, i: nat, index: nat, nic: Nic, resolve: PathFn)
    requires Valid(l, resolve) && IsWorkload(k) && i < |Workloads(l, k)| && index < |Workloads(l, k)[i].nics|
    requires NicOk(l, nic)
    ensures var m := ReplaceNic(l, k, i, index, nic);
      IdentityOk(m) && SwitchesOk(m) && NetworksOk(m) && LinksOk(m) && DisksOk(m, resolve) && LayoutOk(m)
  {
    hide IdentityOk, SwitchesOk, DhcpOk, LinksOk, DisksOk, LayoutOk, NicOk;
    var w := Workloads(l, k)[i];
    var links := WithoutEndpoint(l.links, EndpointAt(l, k, i, index));
    WithNicsIsSameButNics(l, k, i, w.nics[index := nic], links);
    SameButNicsKeeps(l, ReplaceNic(l, k, i, index, nic), resolve);
    ReplacingKeepsLinks(l, k, i, index, nic);
    NicsStayOk(l, k, i, w.nics[index := nic], links);
  }

  // ---------------------------------------------------------------- attaching to a switch or an uplink

  datatype Target = AnyTarget(ref: string) | SwitchTarget(ref: string) | UplinkTarget(ref: string) | OtherTarget(ref: string)
  datatype Attachment = Attachment(switch: string, uplink: string)

  function ResolveTarget(l: Lab, t: Target): Option<Attachment> {
    if t.ref == "" then None
    else
      var sw, up := Resolve(l, SW, t.ref), Resolve(l, UP, t.ref);
      match t
      case AnyTarget(_) =>
        if sw.Found? then Some(Attachment(sw.id, ""))
        else if up.Found? then Some(Attachment("", up.id)) else None
      case SwitchTarget(_) => if sw.Found? then Some(Attachment(sw.id, "")) else None
      case UplinkTarget(_) => if up.Found? then Some(Attachment("", up.id)) else None
      case OtherTarget(_) => None
  }

  /** dhcpCompatibleSwitch for the switch with this id. */
  predicate DhcpCompatible(l: Lab, switch: string) {
    var i := Find(l, SW, switch);
    i < |l.switches| && DhcpSwitchOk(l, switch)
  }

  predicate OtherDhcpOn(l: Lab, id: string, switch: string) {
    exists i | 0 <= i < |l.containers| ::
      l.containers[i].id != id && IsDhcp(l.containers[i]) && |l.containers[i].nics| == 1
      && l.containers[i].nics[0].switch == switch && switch != ""
  }

  function ConnectNic(l: Lab, k: Kind, ref: string, index: int, target: Target, mac: string): Option<Lab>
    requires IsWorkload(k)
  {
    var r := Resolve(l, k, ref);
    var to := ResolveTarget(l, target);
    if !r.Found? || index < 0 || to.None? then None
    else
      var i := Find(l, k, r.id);
      if i == Count(l, k) then None
      else
        var w := Workloads(l, k)[i];
        if k == CT && IsDhcp(w)
           && (index != 0 || |w.nics| != 1 || to.value.uplink != "" || mac != ""
               || !DhcpCompatible(l, to.value.switch) || OtherDhcpOn(l, r.id, to.value.switch)) then None
        else if index >= |w.nics| then None
        else Some(ReplaceNic(l, k, i, index, Nic(to.value.switch, to.value.uplink, if mac != "" then mac else w.nics[index].mac)))
  }

  method ConnectWorkloadNic(s: LabState, k: Kind, ref: string, index: int, target: Target, mac: string) returns (ok: bool)
    requires IsWorkload(k)
    modifies s
    ensures match ConnectNic(old(s.View()), k, ref, index, target, mac)
            case None => !ok && s.View() == old(s.View())
            case Some(after) => ok && s.View() == after
  {
    var l := s.View();
    var r := ResolveOne(l, k, ref);
    var to := ResolveTarget(l, target);
    if !r.Found? || index < 0 || to.None? {
      return false;
    }
    for i := 0 to Count(l, k)
      invariant s.View() == l && Find(l, k, r.id) >= i
    {
      var w := Workloads(l, k)[i];
      assert NodeAt(l, k, i).id == w.id;
      if w.id != r.id {
        continue;
      }
      if k == CT && IsDhcp(w) {
        if index != 0 || |w.nics| != 1 || to.value.uplink != "" || mac != "" {
          return false;
        }
        if !DhcpCompatible(l, to.value.switch) || OtherDhcpOn(l, r.id, to.value.switch) {
          return false;
        }
      }
      if index >= |w.nics| {
        return false;
      }
      var nic := Nic(to.value.switch, to.value.uplink, if mac != "" then mac else w.nics[index].mac);
      SetNicAt(s, k, i, index, nic);
      return true;
    }
    return false;
  }

  lemma ResolvedTargetIsOk(l: Lab, t: Target, mac: string)
    requires IdentityOk(l) && ResolveTarget(l, t).Some?
    ensures var a := ResolveTarget(l, t).value; NicOk(l, Nic(a.switch, a.uplink, mac))
  {
    hide IdentityOk, Resolve;
    if Resolve(l, SW, t.ref).Found? { ResolvedNodeExists(l, SW, t.ref); }
    if Resolve(l, UP, t.ref).Found? { ResolvedNodeExists(l, UP, t.ref); }
  }

  lemma DhcpMoveStaysOk(l: Lab, i: nat, switch: string)
    requires IdentityOk(l) && DhcpOk(l) && i < |l.containers| && IsDhcp(l.containers[i]) && |l.containers[i].nics| == 1
    requires switch != "" && DhcpSwitchOk(l, switch) && !OtherDhcpOn(l, l.containers[i].id, switch)
    ensures DhcpOk(ReplaceNic(l, CT, i, 0, Nic(switch, "", "")))
  {
    hide DhcpSwitchOk, IdentityOk;
    var m := ReplaceNic(l, CT, i, 0, Nic(switch, "", ""));
    var e := EndpointAt(l, CT, i, 0);
    WithNicsIsSameButNics(l, CT, i, [Nic(switch, "", "")], m.links);
    assert l.containers[i].nics[0 := Nic(switch, "", "")] == [Nic(switch, "", "")];
    FilteredLinksAvoidDhcp(l, e);
    forall nic: Nic
      ensures DhcpSwitchOk(m, nic.switch) == DhcpSwitchOk(l, nic.switch)
    {
      SameNicRules(l, m, nic);
    }
    forall f: Endpoint
      ensures DhcpEnd(m, f) == DhcpEnd(l, f)
    {
    }
    forall j | 0 <= j < |l.containers| && j != i
      ensures l.containers[j].id != l.containers[i].id && m.containers[j] == l.containers[j]
    {
      if l.containers[j].id == l.containers[i].id {
        assert NodeAt(l, CT, j).id == NodeAt(l, CT, i).id;
        SameIdSameNode(l, CT, j, CT, i);
      }
    }
    assert m.containers[i] == l.containers[i].(nics := [Nic(switch, "", "")]);
    assert DhcpSwitchOk(m, Nic(switch, "", "").switch);
    assert forall j | 0 <= j < |l.containers| && j != i && IsDhcp(l.containers[j]) ::
      DhcpSwitchOk(m, l.containers[j].nics[0].switch);
  }

  lemma ConnectKeepsValid(l: Lab, k: Kind, ref: string, index: int, target: Target, mac: string, resolve: PathFn)
    requires Valid(l, resolve) && IsWorkload(k) && ConnectNic(l, k, ref, index, target, mac).Some?
    ensures Valid(ConnectNic(l, k, ref, index, target, mac).value, resolve)
  {
    hide IdentityOk, SwitchesOk, NetworksOk, DhcpOk, LinksOk, DisksOk, LayoutOk, NicOk, ResolveTarget, ReplaceNic;
    var i := Find(l, k, Resolve(l, k, ref).id);
    var to := ResolveTarget(l, target).value;
    var w := Workloads(l, k)[i];
    var nic := Nic(to.switch, to.uplink, if mac != "" then mac else w.nics[index].mac);
    ResolvedTargetIsOk(l, target, nic.mac);
    if k == CT && IsDhcp(w) {
      ReplacingKeepsMost(l, k, i, index, nic, resolve);
      assert nic == Nic(to.switch, "", "") by { DhcpNicHasNoMac(l, i); }
      assert to.switch != "" by { CompatibleIsNamed(l, to.switch); }
      DhcpMoveStaysOk(l, i, to.switch);
    } else {
      ReplacingKeepsValid(l, k, i, index, nic, resolve);
    }
  }

  lemma DhcpNicHasNoMac(l: Lab, i: nat)
    requires DhcpOk(l) && i < |l.containers| && IsDhcp(l.containers[i])
    ensures |l.containers[i].nics| == 1 && l.containers[i].nics[0].mac == ""
  {
  }

  lemma CompatibleIsNamed(l: Lab, switch: string)
    requires IdentityOk(l) && DhcpCompatible(l, switch)
    ensures switch != ""
  {
    FindsNode(l, SW, Find(l, SW, switch));
  }

  /**
   What connecting does: exactly the one interface gets the resolved attachment, with the old MAC unless a
   new one is given, and loses its direct link; every other interface and link is as before.
   */
  lemma ConnectIsLocal(l: Lab, k: Kind, ref: string, index: int, target: Target, mac: string, a: Endpoint, b: Endpoint, x: Nic)
    requires IdentityOk(l) && IsWorkload(k) && ConnectNic(l, k, ref, index, target, mac).Some?
    ensures var m := ConnectNic(l, k, ref, index, target, mac).value;
      var i := Find(l, k, Resolve(l, k, ref).id); var to := ResolveTarget(l, target);
      && i < Count(l, k) && 0 <= index < |Workloads(l, k)[i].nics| && to.Some?
      && var e := EndpointAt(l, k, i, index);
        && (IsNic(m, a, x) <==>
              if a == e then x == Nic(to.value.switch, to.value.uplink, if mac != "" then mac else Workloads(l, k)[i].nics[index].mac)
              else IsNic(l, a, x))
        && (Linked(m.links, a, b) <==> Linked(l.links, a, b) && a != e && b != e)
  {
    hide IdentityOk, IsNic, Linked, ReplaceNic, Resolve, ResolveTarget;
    var i := Find(l, k, Resolve(l, k, ref).id);
    var to := ResolveTarget(l, target).value;
    var nic := Nic(to.switch, to.uplink, if mac != "" then mac else Workloads(l, k)[i].nics[index].mac);
    ReplacedInterfaces(l, k, i, index, nic, a, x);
    ReplacedWiring(l, k, i, index, nic, a, b);
  }

  // ---------------------------------------------------------------- adding an interface

  function AddNic(l: Lab, k: Kind, ref: string, mac: string): Option<Lab>
    requires IsWorkload(k)
  {
    var r := Resolve(l, k, ref);
    if !r.Found? then None
    else
      var i := Find(l, k, r.id);
      if i == Count(l, k) || (k == CT && IsDhcp(l.containers[i])) then None
      else Some(WithNics(l, k, i, Workloads(l, k)[i].nics + [Nic("", "", mac)]))
  }

  method AddWorkloadNic(s: LabState, k: Kind, ref: string, mac: string) returns (ok: bool)
    requires IsWorkload(k)
    modifies s
    ensures match AddNic(old(s.View()), k, ref, mac)
            case None => !ok && s.View() == old(s.View())
            case Some(after) => ok && s.View() == after
  {
    var l := s.View();
    var r := ResolveOne(l, k, ref);
    if !r.Found? {
      return false;
    }
    for i := 0 to Count(l, k)
      invariant s.View() == l && Find(l, k, r.id) >= i
    {
      var w := Workloads(l, k)[i];
      assert NodeAt(l, k, i).id == w.id;
      if w.id != r.id {
        continue;
      }
      if k == CT && IsDhcp(w) {
        return false;
      }
      SetNics(s, k, i, w.nics + [Nic("", "", mac)]);
      return true;
    }
    return false;
  }

  lemma AddKeepsValid(l: Lab, k: Kind, ref: string, mac: string, resolve: PathFn)
    requires Valid(l, resolve) && IsWorkload(k) && AddNic(l, k, ref, mac).Some?
    ensures Valid(AddNic(l, k, ref, mac).value, resolve)
  {
    hide IdentityOk, SwitchesOk, DisksOk, LayoutOk, EndpointOk, DhcpEnd;
    var i := Find(l, k, Resolve(l, k, ref).id);
    var nics := Workloads(l, k)[i].nics + [Nic("", "", mac)];
    var m := WithNics(l, k, i, nics);
    assert m == m.(links := l.links);
    WithNicsIsSameButNics(l, k, i, nics, l.links);
    SameButNicsKeeps(l, m, resolve);
    NicsStayOk(l, k, i, nics, l.links);
    DhcpStaysOk(l, k, i, nics, l.links);
    forall e | EndpointOk(l, e)
      ensures EndpointOk(m, e)
    {
      AddKeepsEndpoint(l, k, i, mac, e);
    }
  }

  lemma AddKeepsEndpoint(l: Lab, k: Kind, i: nat, mac: string, e: Endpoint)
    requires IdentityOk(l) && IsWorkload(k) && i < |Workloads(l, k)| && EndpointOk(l, e)
    ensures EndpointOk(WithNics(l, k, i, Workloads(l, k)[i].nics + [Nic("", "", mac)]), e)
  {
    hide IdentityOk;
    GroupWithNics(l, k, i, Workloads(l, k)[i].nics + [Nic("", "", mac)], e);
    if e.typ == KindText(k) {
      FindWorkloadIsFind(l, k, e.id);
      FindsNode(l, k, i);
    }
  }

  /** An added interface is unattached and unlinked, comes last, and leaves every other as it was. */
  lemma AddIsLocal(l: Lab, k: Kind, ref: string, mac: string, e: Endpoint, x: Nic)
    requires IdentityOk(l) && IsWorkload(k) && AddNic(l, k, ref, mac).Some?
    ensures var m := AddNic(l, k, ref, mac).value; var i := Find(l, k, Resolve(l, k, ref).id);
      && i < Count(l, k) && m.links == l.links
      && (IsNic(m, e, x) <==> IsNic(l, e, x) || (e == EndpointAt(l, k, i, |Workloads(l, k)[i].nics|) && x == Nic("", "", mac)))
  {
    hide IdentityOk, Resolve;
    var i := Find(l, k, Resolve(l, k, ref).id);
    var nics := Workloads(l, k)[i].nics + [Nic("", "", mac)];
    GroupWithNics(l, k, i, nics, e);
    if e.typ == KindText(k) {
      FindWorkloadIsFind(l, k, e.id);
      FindsNode(l, k, i);
      assert NodeAt(l, k, i).id == Workloads(l, k)[i].id;
    }
  }
}
