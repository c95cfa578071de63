/**
 The rules of a lab in plain words, without lookups: what there is some node, interface or disk for, and what no two share.
 On labs with unique identities they are the rules of LabModel.
 */
module LabRules {
  import opened Numerals
  import opened LabModel
  import opened Relabelling
  import opened DiskRules

  // ---------------------------------------------------------------- nodes

  ghost predicate SomeNode(l: Lab, k: Kind, id: string) {
    exists i: nat :: i < Count(l, k) && NodeAt(l, k, i).id == id
  }

  lemma HasInWords(l: Lab, k: Kind, id: string)
    ensures Has(l, k, id) <==> SomeNode(l, k, id)
  {
  }

  /** The texts a node answers to. */
  predicate CalledBy(n: NodeName, text: string) {
    text == n.id || (n.name != "" && text == n.name)
  }

  /** Whatever a node answers to is well formed, unless it only repeats the id, and no other node answers to it, in whatever case. */
  ghost predicate PlainIdentities(l: Lab) {
    && (forall k: Kind, i: nat | i < Count(l, k) :: PlainName(NodeAt(l, k, i)))
    && forall j: Kind, h: nat, k: Kind, i: nat | h < Count(l, j) && i < Count(l, k) && (j != k || h != i) ::
         NothingShared(NodeAt(l, j, h), NodeAt(l, k, i))
  }

  predicate PlainName(n: NodeName) {
    ValidNodeId(n.id) && (n.name != "" && Fold(n.name) != Fold(n.id) ==> ValidNodeId(n.name))
  }

  ghost predicate NothingShared(a: NodeName, b: NodeName) {
    forall s, t | CalledBy(a, s) && CalledBy(b, t) :: Fold(s) != Fold(t)
  }

  lemma ClashInWords(a: NodeName, b: NodeName)
    ensures Clash(a, b) <==> !NothingShared(a, b)
  {
    hide Fold;
    if Clash(a, b) {
      var s := if Fold(a.id) == Fold(b.id) || (Named(b) && Fold(a.id) == Fold(b.name)) then a.id else a.name;
      var t := if Fold(s) == Fold(b.id) then b.id else b.name;
      assert CalledBy(a, s) && CalledBy(b, t) && Fold(s) == Fold(t);
    }
  }

  lemma IdentitiesInWords(l: Lab)
    ensures IdentityOk(l) <==> PlainIdentities(l)
  {
    hide Clash, NothingShared, ValidNodeId, Fold;
    forall k: Kind, i: nat | i < Count(l, k) ensures NameOk(NodeAt(l, k, i)) == PlainName(NodeAt(l, k, i)) {}
    forall j: Kind, h: nat, k: Kind, i: nat | h < Count(l, j) && i < Count(l, k)
      ensures Clash(NodeAt(l, j, h), NodeAt(l, k, i)) <==> !NothingShared(NodeAt(l, j, h), NodeAt(l, k, i))
    {
      ClashInWords(NodeAt(l, j, h), NodeAt(l, k, i));
    }
  }

  // ---------------------------------------------------------------- switches and interfaces

  /** The switch names this uplink, in either field. */
  predicate NamesUplink(sw: Switch, id: string) {
    id != "" && (id in sw.uplinks || id == sw.uplink)
  }

  ghost predicate PlainSwitch(l: Lab, sw: Switch) {
    && (sw.mode == "bridge" || sw.mode == "nat" || (sw.mode == "macnat-bridge" && exists u :: NamesUplink(sw, u)))
    && forall u | NamesUplink(sw, u) :: SomeNode(l, UP, u)
  }

  lemma SwitchInWords(l: Lab, sw: Switch)
    ensures SwitchOk(l, sw) <==> PlainSwitch(l, sw)
  {
    hide Has, SomeNode, SwitchUplinks;
    forall u
      ensures u in SwitchUplinks(sw) <==> NamesUplink(sw, u)
      ensures Has(l, UP, u) <==> SomeNode(l, UP, u)
    {
      InSwitchUplinks(sw, u);
      HasInWords(l, UP, u);
    }
    if SwitchUplinks(sw) != [] { assert NamesUplink(sw, SwitchUplinks(sw)[0]) by { assert SwitchUplinks(sw)[0] in SwitchUplinks(sw); } }
  }

  ghost predicate PlainNic(l: Lab, nic: Nic) {
    && !(nic.switch != "" && nic.uplink != "")
    && (nic.switch != "" ==> SomeNode(l, SW, nic.switch)) && (nic.uplink != "" ==> SomeNode(l, UP, nic.uplink))
  }

  lemma NetworksInWords(l: Lab)
    ensures SwitchesOk(l) <==> forall sw | sw in l.switches :: PlainSwitch(l, sw)
    ensures NetworksOk(l) <==> forall w, nic | (w in l.vms || w in l.containers) && nic in w.nics :: PlainNic(l, nic)
  {
    hide SwitchOk, PlainSwitch, Has, SomeNode;
    forall sw { SwitchInWords(l, sw); }
    forall nic: Nic
      ensures NicOk(l, nic) <==> PlainNic(l, nic)
    {
      HasInWords(l, SW, nic.switch);
      HasInWords(l, UP, nic.uplink);
    }
    if SwitchesOk(l) {
      forall sw | sw in l.switches ensures PlainSwitch(l, sw) { var i :| 0 <= i < |l.switches| && l.switches[i] == sw; }
    }
    NicsInWords(l, l.vms);
    NicsInWords(l, l.containers);
  }

  lemma NicsInWords(l: Lab, ws: seq<Workload>)
    ensures NicsOk(l, ws) <==> forall w, nic | w in ws && nic in w.nics :: NicOk(l, nic)
  {
    hide NicOk;
    if NicsOk(l, ws) {
      forall w, nic | w in ws && nic in w.nics
        ensures NicOk(l, nic)
      {
        var i :| 0 <= i < |ws| && ws[i] == w;
        var j :| 0 <= j < |w.nics| && w.nics[j] == nic;
      }
    }
  }

  // ---------------------------------------------------------------- direct links

  function WorkloadsOf(l: Lab, typ: string): seq<Workload> {
    if typ == "vm" then l.vms else if typ == "container" then l.containers else []
  }

  /** The interface exists and is attached to nothing. */
  predicate LooseEnd(l: Lab, e: Endpoint) {
    exists w :: w in WorkloadsOf(l, e.typ) && w.id == e.id && 0 <= e.nic < |w.nics| && w.nics[e.nic].switch == "" && w.nics[e.nic].uplink == ""
  }

  ghost predicate PlainLinks(l: Lab) {
    && (forall x | x in l.links :: x.from != x.to && LooseEnd(l, x.from) && LooseEnd(l, x.to))
    && forall i, j, e | 0 <= i < j < |l.links| && e in [l.links[i].from, l.links[i].to] :: e !in [l.links[j].from, l.links[j].to]
  }

  /** On unique identities the workload found is the one there is. */
  lemma FoundIsIt(l: Lab, typ: string, w: Workload)
    requires IdentityOk(l) && w in WorkloadsOf(l, typ)
    ensures var ws := Group(l, typ); var f := FindWorkload(ws, w.id); f < |ws| && ws[f] == w
  {
    hide IdentityOk;
    var ws := Group(l, typ);
    var k := if typ == "vm" then VM else CT;
    var i :| 0 <= i < |ws| && ws[i] == w;
    assert NodeAt(l, k, i).id == w.id;
    FindsNode(l, k, i);
    FindWorkloadIsFind(l, k, w.id);
  }

  lemma EndInWords(l: Lab, e: Endpoint)
    requires IdentityOk(l)
    ensures EndpointOk(l, e) <==> LooseEnd(l, e)
  {
    hide IdentityOk;
    if EndpointOk(l, e) {
      var ws := Group(l, e.typ);
      assert ws[FindWorkload(ws, e.id)] in ws;
    }
    if w :| w in WorkloadsOf(l, e.typ) && w.id == e.id && 0 <= e.nic < |w.nics| && w.nics[e.nic].switch == "" && w.nics[e.nic].uplink == "" {
      FoundIsIt(l, e.typ, w);
    }
  }

  lemma LinksInWords(l: Lab)
    requires IdentityOk(l)
    ensures LinksOk(l) <==> PlainLinks(l)
  {
    hide IdentityOk, EndpointOk, LooseEnd;
    forall e { EndInWords(l, e); }
    if LinksOk(l) {
      forall x | x in l.links
        ensures x.from != x.to && LooseEnd(l, x.from) && LooseEnd(l, x.to)
      {
        var i :| 0 <= i < |l.links| && l.links[i] == x;
      }
    }
    assert LinksApart(l.links) <==>
      forall i, j, e | 0 <= i < j < |l.links| && e in [l.links[i].from, l.links[i].to] :: e !in [l.links[j].from, l.links[j].to] by { ApartInWords(l.links); }
  }

  lemma ApartInWords(links: seq<Link>)
    ensures LinksApart(links) <==>
      forall i, j, e | 0 <= i < j < |links| && e in [links[i].from, links[i].to] :: e !in [links[j].from, links[j].to]
  {
    if forall i, j, e | 0 <= i < j < |links| && e in [links[i].from, links[i].to] :: e !in [links[j].from, links[j].to] {
      forall i, j | 0 <= i < j < |links|
        ensures !Touches(links[i], links[j].from) && !Touches(links[i], links[j].to)
      {
        assert links[i].from in [links[i].from, links[i].to] && links[i].to in [links[i].from, links[i].to];
      }
    }
  }

  // ---------------------------------------------------------------- DHCP services

  /** A NAT switch that names no uplink in MACNAT mode. */
  ghost predicate ServesDhcp(l: Lab, sw: Switch) {
    sw.mode == "nat" && forall u | u in l.uplinks && NamesUplink(sw, u.id) :: u.mode != "macnat"
  }

  ghost predicate PlainService(l: Lab, w: Workload) {
    && w.disk == "" && |w.nics| == 1 && w.nics[0].switch != "" && w.nics[0].uplink == "" && w.nics[0].mac == ""
    && forall sw | sw in l.switches && sw.id == w.nics[0].switch :: ServesDhcp(l, sw)
  }

  ghost predicate PlainDhcp(l: Lab) {
    && (forall w | w in l.containers :: w.service == "" || (w.service == "dhcp" && PlainService(l, w)))
    && (forall i, j | 0 <= i < j < |l.containers| && l.containers[i].service == "dhcp" && l.containers[j].service == "dhcp" ::
          l.containers[i].nics != l.containers[j].nics)
    && forall x, w | x in l.links && w in l.containers && w.service == "dhcp" ::
         !(x.from.typ == "container" && x.from.id == w.id) && !(x.to.typ == "container" && x.to.id == w.id)
  }

  lemma DhcpSwitchInWords(l: Lab, id: string)
    requires IdentityOk(l)
    ensures DhcpSwitchOk(l, id) <==> forall sw | sw in l.switches && sw.id == id :: ServesDhcp(l, sw)
  {
    hide IdentityOk, SwitchUplinks, ServesDhcp;
    var i := Find(l, SW, id);
    forall h: nat | h < |l.switches| && l.switches[h].id == id
      ensures h == i
    {
      assert NodeAt(l, SW, h).id == id;
      FindsNode(l, SW, h);
    }
    if i < |l.switches| {
      assert NodeAt(l, SW, i).id == id && l.switches[i] in l.switches;
      ServesInWords(l, l.switches[i]);
    }
  }

  lemma ServesInWords(l: Lab, sw: Switch)
    requires IdentityOk(l)
    ensures ServesDhcp(l, sw) <==> sw.mode == "nat" && forall u | u in SwitchUplinks(sw) :: var j := Find(l, UP, u); j < |l.uplinks| ==> l.uplinks[j].mode != "macnat"
  {
    hide IdentityOk, SwitchUplinks;
    forall u { InSwitchUplinks(sw, u); }
    forall j: nat | j < |l.uplinks|
      ensures Find(l, UP, l.uplinks[j].id) == j && l.uplinks[j].id != ""
    {
      assert NodeAt(l, UP, j).id == l.uplinks[j].id;
      FindsNode(l, UP, j);
    }
    forall u | Find(l, UP, u) < |l.uplinks|
      ensures l.uplinks[Find(l, UP, u)].id == u
    {
      assert NodeAt(l, UP, Find(l, UP, u)).id == u;
    }
  }

  lemma ServicesInWords(l: Lab)
    requires IdentityOk(l)
    ensures (forall i | 0 <= i < |l.containers| :: l.containers[i].service in {"", "dhcp"})
      && (forall i | 0 <= i < |l.containers| && IsDhcp(l.containers[i]) ::
            var w := l.containers[i];
            && w.disk == "" && |w.nics| == 1 && w.nics[0].switch != "" && w.nics[0].uplink == "" && w.nics[0].mac == ""
            && DhcpSwitchOk(l, w.nics[0].switch))
      <==> forall w | w in l.containers :: w.service == "" || (w.service == "dhcp" && PlainService(l, w))
  {
    hide IdentityOk, DhcpSwitchOk, ServesDhcp;
    forall w: Workload | |w.nics| == 1
      ensures DhcpSwitchOk(l, w.nics[0].switch) <==> forall sw | sw in l.switches && sw.id == w.nics[0].switch :: ServesDhcp(l, sw)
    {
      DhcpSwitchInWords(l, w.nics[0].switch);
    }
    forall i | 0 <= i < |l.containers| ensures l.containers[i] in l.containers {}
  }

  lemma DhcpInWords(l: Lab)
    requires IdentityOk(l)
    ensures DhcpOk(l) <==> PlainDhcp(l)
  {
    hide IdentityOk, DhcpSwitchOk, PlainService, DhcpEnd;
    ServicesInWords(l);
    if DhcpOk(l) || PlainDhcp(l) {
      assert forall i | 0 <= i < |l.containers| && IsDhcp(l.containers[i]) ::
        |l.containers[i].nics| == 1 && l.containers[i].nics[0] == Nic(l.containers[i].nics[0].switch, "", "") by { BareServices(l); }
    }
    forall e: Endpoint
      ensures DhcpEnd(l, e) <==> exists w :: w in l.containers && w.service == "dhcp" && e.typ == "container" && e.id == w.id
    {
      DhcpEndInWords(l, e);
    }
    if DhcpOk(l) {
      forall x, w | x in l.links && w in l.containers && w.service == "dhcp"
        ensures !(x.from.typ == "container" && x.from.id == w.id) && !(x.to.typ == "container" && x.to.id == w.id)
      {
        var k :| 0 <= k < |l.links| && l.links[k] == x;
      }
    }
  }

  lemma BareServices(l: Lab)
    requires IdentityOk(l) && (DhcpOk(l) || PlainDhcp(l))
    ensures forall i | 0 <= i < |l.containers| && IsDhcp(l.containers[i]) ::
        |l.containers[i].nics| == 1 && l.containers[i].nics[0] == Nic(l.containers[i].nics[0].switch, "", "")
  {
    hide IdentityOk, DhcpSwitchOk, DhcpEnd, ServesDhcp;
    forall i | 0 <= i < |l.containers| ensures l.containers[i] in l.containers {}
  }

  lemma DhcpEndInWords(l: Lab, e: Endpoint)
    ensures DhcpEnd(l, e) <==> exists w :: w in l.containers && w.service == "dhcp" && e.typ == "container" && e.id == w.id
  {
    if DhcpEnd(l, e) {
      var i :| 0 <= i < |l.containers| && l.containers[i].id == e.id && IsDhcp(l.containers[i]);
      assert l.containers[i] in l.containers;
    }
  }

  // ---------------------------------------------------------------- disks

  /** A base disk, written out or by default. */
  predicate BaseDisk(d: Disk) {
    d.kind == "base" || d.kind == ""
  }

  /** Attached to nothing, or to a workload whose path is that of the disk; VMs have no data disks. */
  ghost predicate PlainAttachment(l: Lab, d: Disk, resolve: PathFn) {
    if d.attachedType == "" then d.attachedTo == ""
    else
      && !(d.attachedType == "vm" && d.kind == "data")
      && exists w :: w in WorkloadsOf(l, d.attachedType) && w.id == d.attachedTo && w.disk != "" && resolve(w.disk) == resolve(d.path)
  }

  ghost predicate PlainDisk(l: Lab, d: Disk, resolve: PathFn) {
    && ValidId(d.id) && d.path != "" && (BaseDisk(d) || d.kind == "layer" || d.kind == "data")
    && (d.kind == "layer" <==> d.base != "")
    && (d.base != "" ==> d.base != d.id && exists b :: b in l.disks && b.id == d.base && BaseDisk(b))
    && PlainAttachment(l, d, resolve)
  }

  ghost predicate PlainDisks(l: Lab, resolve: PathFn) {
    && (forall d | d in l.disks :: PlainDisk(l, d, resolve))
    && forall i, j | 0 <= i < j < |l.disks| :: l.disks[i].id != l.disks[j].id
         && !(l.disks[i].attachedType != "" && l.disks[i].attachedType == l.disks[j].attachedType && l.disks[i].attachedTo == l.disks[j].attachedTo)
  }

  lemma AttachmentInPlainWords(l: Lab, d: Disk, resolve: PathFn)
    requires IdentityOk(l)
    ensures AttachmentOk(l, d, resolve) <==> PlainAttachment(l, d, resolve)
  {
    hide IdentityOk;
    var ws := Group(l, d.attachedType);
    var f := FindWorkload(ws, d.attachedTo);
    if f < |ws| { assert ws[f] in ws; }
    forall w | w in WorkloadsOf(l, d.attachedType) && w.id == d.attachedTo
      ensures f < |ws| && ws[f] == w
    {
      FoundIsIt(l, d.attachedType, w);
    }
  }

  lemma BaseInPlainWords(disks: seq<Disk>, d: Disk)
    requires DistinctIds(disks)
    ensures IsBase(disks, d.base) <==> exists b :: b in disks && b.id == d.base && BaseDisk(b)
  {
    if IsBase(disks, d.base) {
      var i :| 0 <= i < |disks| && disks[i].id == d.base && DiskKind(disks[i]) == "base";
      assert disks[i] in disks;
    }
  }

  lemma DisksInPlainWords(l: Lab, resolve: PathFn)
    requires IdentityOk(l)
    ensures DisksOk(l, resolve) <==> PlainDisks(l, resolve)
  {
    hide IdentityOk, AttachmentOk, PlainAttachment, BaseOk, IsBase, ValidId;
    DisksInWords(l, resolve);
    if DistinctIds(l.disks) {
      forall d
        ensures Plain(d) && BaseOk(l.disks, d) && AttachmentOk(l, d, resolve) <==> PlainDisk(l, d, resolve)
      {
        AttachmentInPlainWords(l, d, resolve);
        BaseInWords(l.disks, d);
        BaseInPlainWords(l.disks, d);
      }
    }
  }

  // ---------------------------------------------------------------- layout

  ghost predicate PlainLayout(l: Lab) {
    && (forall id | id in l.positions :: exists k: Kind :: SomeNode(l, k, id))
    && forall x | x in l.layoutLinks :: EndsInNode(l, x.from) && EndsInNode(l, x.to)
  }

  ghost predicate EndsInNode(l: Lab, e: LayoutEnd) {
    exists k: Kind :: e.typ == KindText(k) && SomeNode(l, k, e.id)
  }

  lemma LayoutEndInWords(l: Lab, e: LayoutEnd)
    ensures LayoutEndOk(l, e) <==> EndsInNode(l, e)
  {
    hide SomeNode, Has;
    forall k: Kind { HasInWords(l, k, e.id); }
    forall k: Kind | e.typ == KindText(k) ensures KindOf(e.typ) == Some(k) {}
  }

  lemma NodeInWords(l: Lab, id: string)
    ensures HasNode(l, id) <==> exists k: Kind :: SomeNode(l, k, id)
  {
    hide SomeNode, Has;
    HasInWords(l, VM, id);
    HasInWords(l, CT, id);
    HasInWords(l, SW, id);
    HasInWords(l, UP, id);
    if k: Kind :| SomeNode(l, k, id) {
      assert k == VM || k == CT || k == SW || k == UP;
    }
  }

  lemma LayoutInWords(l: Lab)
    ensures LayoutOk(l) <==> PlainLayout(l)
  {
    hide HasNode, SomeNode, EndsInNode, LayoutEndOk;
    forall id: string
      ensures HasNode(l, id) <==> exists k: Kind :: SomeNode(l, k, id)
    {
      NodeInWords(l, id);
    }
    forall e { LayoutEndInWords(l, e); }
    if LayoutOk(l) {
      forall x | x in l.layoutLinks
        ensures EndsInNode(l, x.from) && EndsInNode(l, x.to)
      {
        var i :| 0 <= i < |l.layoutLinks| && l.layoutLinks[i] == x;
      }
    }
  }

  // ---------------------------------------------------------------- all of them

  /** A lab meets the rules exactly if it meets them in plain words. */
  lemma RulesInWords(l: Lab, resolve: PathFn)
    ensures Valid(l, resolve) <==>
      && PlainIdentities(l)
      && (forall sw | sw in l.switches :: PlainSwitch(l, sw))
      && (forall w, nic | (w in l.vms || w in l.containers) && nic in w.nics :: PlainNic(l, nic))
      && PlainDhcp(l) && PlainLinks(l) && PlainDisks(l, resolve) && PlainLayout(l)
  {
    hide PlainIdentities, PlainSwitch, PlainNic, PlainDhcp, PlainLinks, PlainDisks, PlainLayout,
      IdentityOk, SwitchesOk, NetworksOk, DhcpOk, LinksOk, DisksOk, LayoutOk;
    IdentitiesInWords(l);
    NetworksInWords(l);
    LayoutInWords(l);
    if IdentityOk(l) {
      DhcpInWords(l);
      LinksInWords(l);
      DisksInPlainWords(l, resolve);
    }
  }
}
