/**
 What a rename amounts to. On a valid lab the kind-by-kind rewriting is one uniform substitution of the
 old id by the new one, which is a bijection because the new id is fresh: every rule is kept, every
 reference leads to the node it led to, and renaming back undoes it.
 */
module Relabelling {
  import opened Numerals
  import opened LabModel
  import opened Lookup
  import opened NetworkLinks
  import opened Renaming

  // ---------------------------------------------------------------- the uniform substitution

  function RelNic(nic: Nic, from: string, to: string): Nic {
    nic.(switch := Sub(nic.switch, from, to), uplink := Sub(nic.uplink, from, to))
  }

  function RelNics(nics: seq<Nic>, from: string, to: string): seq<Nic> {
    seq(|nics|, j requires 0 <= j < |nics| => RelNic(nics[j], from, to))
  }

  function RelWorkload(w: Workload, from: string, to: string): Workload {
    w.(id := Sub(w.id, from, to), nics := RelNics(w.nics, from, to))
  }

  function RelWorkloads(ws: seq<Workload>, from: string, to: string): seq<Workload> {
    seq(|ws|, i requires 0 <= i < |ws| => RelWorkload(ws[i], from, to))
  }

  function RelSwitch(sw: Switch, from: string, to: string): Switch {
    SubSwitch(sw, from, to).(id := Sub(sw.id, from, to))
  }

  function RelSwitches(sws: seq<Switch>, from: string, to: string): seq<Switch> {
    seq(|sws|, i requires 0 <= i < |sws| => RelSwitch(sws[i], from, to))
  }

  function RelUplinks(us: seq<Uplink>, from: string, to: string): seq<Uplink> {
    seq(|us|, i requires 0 <= i < |us| => us[i].(id := Sub(us[i].id, from, to)))
  }

  function RelEndpoint(e: Endpoint, from: string, to: string): Endpoint {
    e.(id := Sub(e.id, from, to))
  }

  function RelLinks(links: seq<Link>, from: string, to: string): seq<Link> {
    seq(|links|, i requires 0 <= i < |links| => Link(RelEndpoint(links[i].from, from, to), RelEndpoint(links[i].to, from, to)))
  }

  function RelDisk(d: Disk, from: string, to: string): Disk {
    d.(attachedTo := Sub(d.attachedTo, from, to))
  }

  function RelDisks(disks: seq<Disk>, from: string, to: string): seq<Disk> {
    seq(|disks|, i requires 0 <= i < |disks| => RelDisk(disks[i], from, to))
  }

  function RelLayoutEnd(e: LayoutEnd, from: string, to: string): LayoutEnd {
    e.(id := Sub(e.id, from, to))
  }

  function RelLayoutLinks(xs: seq<LayoutLink>, from: string, to: string): seq<LayoutLink> {
    seq(|xs|, i requires 0 <= i < |xs| => LayoutLink(RelLayoutEnd(xs[i].from, from, to), RelLayoutEnd(xs[i].to, from, to)))
  }

  /** Every id and every reference to a node, whatever its kind. */
  function Relabel(l: Lab, from: string, to: string): Lab {
    Lab(RelWorkloads(l.vms, from, to), RelWorkloads(l.containers, from, to), RelSwitches(l.switches, from, to),
        RelUplinks(l.uplinks, from, to), RelLinks(l.links, from, to), RelDisks(l.disks, from, to),
        SubPositions(l.positions, from, to), RelLayoutLinks(l.layoutLinks, from, to))
  }

  function Unnamed(l: Lab, k: Kind, i: nat): Lab
    requires i < Count(l, k)
  {
    SetNode(l, k, i, NodeAt(l, k, i).(name := ""))
  }

  // ---------------------------------------------------------------- references of other kinds never match

  ghost predicate OnlyOfKind(l: Lab, k: Kind, id: string) {
    id != "" && forall j: Kind | Has(l, j, id) :: j == k
  }

  lemma NodeIsOnlyOfKind(l: Lab, k: Kind, i: nat)
    requires IdentityOk(l) && i < Count(l, k)
    ensures OnlyOfKind(l, k, NodeAt(l, k, i).id)
  {
    FindsNode(l, k, i);
    var id := NodeAt(l, k, i).id;
    forall j: Kind | Has(l, j, id)
      ensures j == k
    {
      SameIdSameNode(l, j, Find(l, j, id), k, i);
    }
  }

  function ReNics(ws: seq<Workload>, k: Kind, from: string, to: string): seq<Workload> {
    match k
    case SW => SubWorkloads(ws, SwitchRef, from, to)
    case UP => SubWorkloads(ws, UplinkRef, from, to)
    case VM => ws
    case CT => ws
  }

  lemma NicsAgree(l: Lab, nics: seq<Nic>, k: Kind, from: string, to: string)
    requires OnlyOfKind(l, k, from) && forall j | 0 <= j < |nics| :: NicOk(l, nics[j])
    ensures RelNics(nics, from, to) == match k
      case SW => SubNicSeq(nics, SwitchRef, from, to) case UP => SubNicSeq(nics, UplinkRef, from, to)
      case VM => nics case CT => nics
  {
    forall j | 0 <= j < |nics|
      ensures k != SW ==> nics[j].switch != from
      ensures k != UP ==> nics[j].uplink != from
    {
      assert NicOk(l, nics[j]);
    }
  }

  lemma WorkloadsAgree(l: Lab, ws: seq<Workload>, vs: seq<Workload>, k: Kind, from: string, to: string)
    requires OnlyOfKind(l, k, from) && NicsOk(l, ws) && |vs| == |ws|
    requires forall h | 0 <= h < |ws| :: vs[h] == ws[h].(id := Sub(ws[h].id, from, to))
    ensures ReNics(vs, k, from, to) == RelWorkloads(ws, from, to)
  {
    hide NicOk, RelNics, SubNicSeq, OnlyOfKind;
    forall h | 0 <= h < |ws|
      ensures ReNics(vs, k, from, to)[h] == RelWorkload(ws[h], from, to)
    {
      NicsAgree(l, ws[h].nics, k, from, to);
    }
  }

  lemma LinksAgree(l: Lab, k: Kind, from: string, to: string)
    requires OnlyOfKind(l, k, from) && LinksOk(l)
    ensures RelLinks(l.links, from, to) == if k == VM || k == CT then SubLinks(l.links, KindText(k), from, to) else l.links
  {
    hide LinksApart, OnlyOfKind;
    forall i | 0 <= i < |l.links|
      ensures EndpointOk(l, l.links[i].from) && EndpointOk(l, l.links[i].to)
    {
    }
    forall e | EndpointOk(l, e)
      ensures RelEndpoint(e, from, to) == if k == VM || k == CT then SubEndpoint(e, KindText(k), from, to) else e
    {
      EndpointAgrees(l, k, from, to, e);
    }
  }

  lemma EndpointAgrees(l: Lab, k: Kind, from: string, to: string, e: Endpoint)
    requires OnlyOfKind(l, k, from) && EndpointOk(l, e)
    ensures RelEndpoint(e, from, to) == if k == VM || k == CT then SubEndpoint(e, KindText(k), from, to) else e
  {
    GroupOfExisting(l, k, e.typ, e.id, from);
  }

  /** A workload found under the old id is of the renamed kind. */
  lemma GroupOfExisting(l: Lab, k: Kind, typ: string, id: string, from: string)
    requires OnlyOfKind(l, k, from) && FindWorkload(Group(l, typ), id) < |Group(l, typ)|
    ensures id == from ==> typ == KindText(k) && (k == VM || k == CT)
  {
    var j := if typ == "vm" then VM else CT;
    assert typ == KindText(j);
    FindWorkloadIsFind(l, j, id);
    assert Has(l, j, id);
  }

  lemma DisksAgree(l: Lab, k: Kind, from: string, to: string, resolve: PathFn)
    requires OnlyOfKind(l, k, from) && DisksOk(l, resolve)
    ensures RelDisks(l.disks, from, to) == if k == VM || k == CT then SubDisks(l.disks, KindText(k), from, to) else l.disks
  {
    hide BaseOk, ValidId, SameTarget;
    forall i | 0 <= i < |l.disks|
      ensures RelDisk(l.disks[i], from, to) == if k == VM || k == CT then SubDisk(l.disks[i], KindText(k), from, to) else l.disks[i]
    {
      var d := l.disks[i];
      assert DiskOk(l, d, resolve);
      if d.attachedType != "" { GroupOfExisting(l, k, d.attachedType, d.attachedTo, from); }
    }
  }

  lemma SwitchesAgree(l: Lab, k: Kind, from: string, to: string)
    requires OnlyOfKind(l, k, from) && SwitchesOk(l) && k != UP
    ensures SubSwitches(l.switches, from, to) == l.switches
  {
    hide SwitchUplinks;
    forall i | 0 <= i < |l.switches|
      ensures SubSwitch(l.switches[i], from, to) == l.switches[i]
    {
      var sw := l.switches[i];
      assert SwitchOk(l, sw);
      forall u
        ensures u in SwitchUplinks(sw) <==> u != "" && (u in sw.uplinks || u == sw.uplink)
      {
        InSwitchUplinks(sw, u);
      }
      assert from !in sw.uplinks && from != sw.uplink;
    }
  }

  lemma {:induction false} InDeduplicated(ids: seq<string>, u: string)
    ensures u in Deduplicated(ids) <==> u in ids && u != ""
  {
    if ids != [] {
      InDeduplicated(ids[..|ids| - 1], u);
      assert ids == ids[..|ids| - 1] + [ids[|ids| - 1]];
    }
  }

  lemma InSwitchUplinks(sw: Switch, u: string)
    ensures u in SwitchUplinks(sw) <==> u != "" && (u in sw.uplinks || u == sw.uplink)
  {
    InDeduplicated(sw.uplinks, u);
  }

  lemma LayoutAgrees(l: Lab, k: Kind, from: string, to: string)
    requires OnlyOfKind(l, k, from) && LayoutOk(l)
    ensures SubLayoutLinks(l.layoutLinks, KindText(k), from, to) == RelLayoutLinks(l.layoutLinks, from, to)
  {
    forall e | LayoutEndOk(l, e)
      ensures SubLayoutEnd(e, KindText(k), from, to) == RelLayoutEnd(e, from, to)
    {
    }
  }

  /** The in-place rewriting is the uniform substitution in the lab whose renamed node lost its name. */
  lemma RenameIsRelabel(l: Lab, k: Kind, i: nat, to: string, resolve: PathFn)
    requires Valid(l, resolve) && i < Count(l, k)
    ensures RewriteReferences(SetNode(l, k, i, NodeName(to, "")), k, NodeAt(l, k, i).id, to)
         == Relabel(Unnamed(l, k, i), NodeAt(l, k, i).id, to)
  {
    hide IdentityOk, SwitchesOk, NetworksOk, DhcpOk, LinksOk, DisksOk, LayoutOk, OnlyOfKind, SubPositions, ReNics, RelWorkloads,
      RelSwitches, SubSwitches, RelUplinks, RelLinks, SubLinks, RelDisks, SubDisks, RelLayoutLinks, SubLayoutLinks;
    var from := NodeAt(l, k, i).id;
    NodeIsOnlyOfKind(l, k, i);
    LinksAgree(l, k, from, to);
    DisksAgree(l, k, from, to, resolve);
    LayoutAgrees(l, k, from, to);
    NodesAgree(l, k, i, to, resolve);
    var s := SetNode(l, k, i, NodeName(to, ""));
    assert RewriteReferences(s, k, from, to) == Lab(ReNics(s.vms, k, from, to), ReNics(s.containers, k, from, to),
      if k == UP then SubSwitches(s.switches, from, to) else s.switches, s.uplinks,
      if k == VM || k == CT then SubLinks(l.links, KindText(k), from, to) else l.links,
      if k == VM || k == CT then SubDisks(l.disks, KindText(k), from, to) else l.disks,
      SubPositions(l.positions, from, to), SubLayoutLinks(l.layoutLinks, KindText(k), from, to)) by { RewrittenParts(s, k, from, to); }
  }

  lemma RewrittenParts(s: Lab, k: Kind, from: string, to: string)
    ensures RewriteReferences(s, k, from, to) == Lab(ReNics(s.vms, k, from, to), ReNics(s.containers, k, from, to),
      if k == UP then SubSwitches(s.switches, from, to) else s.switches, s.uplinks,
      if k == VM || k == CT then SubLinks(s.links, KindText(k), from, to) else s.links,
      if k == VM || k == CT then SubDisks(s.disks, KindText(k), from, to) else s.disks,
      SubPositions(s.positions, from, to), SubLayoutLinks(s.layoutLinks, KindText(k), from, to))
  {
  }

  lemma NodesAgree(l: Lab, k: Kind, i: nat, to: string, resolve: PathFn)
    requires Valid(l, resolve) && i < Count(l, k)
    ensures var s, u, from := SetNode(l, k, i, NodeName(to, "")), Unnamed(l, k, i), NodeAt(l, k, i).id;
      && ReNics(s.vms, k, from, to) == RelWorkloads(u.vms, from, to)
      && ReNics(s.containers, k, from, to) == RelWorkloads(u.containers, from, to)
      && (if k == UP then SubSwitches(s.switches, from, to) else s.switches) == RelSwitches(u.switches, from, to)
      && s.uplinks == RelUplinks(u.uplinks, from, to)
  {
    hide IdentityOk, NetworksOk, SwitchesOk, DhcpOk, LinksOk, DisksOk, LayoutOk, OnlyOfKind, ReNics, RelWorkloads, SubSwitch;
    var s, u, from := SetNode(l, k, i, NodeName(to, "")), Unnamed(l, k, i), NodeAt(l, k, i).id;
    NodeIsOnlyOfKind(l, k, i);
    forall j: Kind, h: nat | h < Count(l, j)
      ensures NodeAt(l, j, h).id == from ==> j == k && h == i
    {
      if NodeAt(l, j, h).id == from { SameIdSameNode(l, j, h, k, i); }
    }
    OtherIdsStay(l, k, i, to);
    NicsOkUnnamed(l, k, i);
    WorkloadsAgree(l, u.vms, s.vms, k, from, to);
    WorkloadsAgree(l, u.containers, s.containers, k, from, to);
    if k != UP { SwitchesAgree(l, k, from, to); }
    SwitchesRelabelled(l, k, i, to);
  }

  lemma NicsOkUnnamed(l: Lab, k: Kind, i: nat)
    requires NetworksOk(l) && i < Count(l, k)
    ensures NicsOk(l, Unnamed(l, k, i).vms) && NicsOk(l, Unnamed(l, k, i).containers)
  {
    hide NicOk;
  }

  lemma OtherIdsStay(l: Lab, k: Kind, i: nat, to: string)
    requires i < Count(l, k)
    requires forall j: Kind, h: nat | h < Count(l, j) && NodeAt(l, j, h).id == NodeAt(l, k, i).id :: j == k && h == i
    ensures var s, u, from := SetNode(l, k, i, NodeName(to, "")), Unnamed(l, k, i), NodeAt(l, k, i).id;
      && |s.vms| == |u.vms| && |s.containers| == |u.containers|
      && (forall h | 0 <= h < |u.vms| :: s.vms[h] == u.vms[h].(id := Sub(u.vms[h].id, from, to)))
      && (forall h | 0 <= h < |u.containers| :: s.containers[h] == u.containers[h].(id := Sub(u.containers[h].id, from, to)))
      && s.uplinks == RelUplinks(u.uplinks, from, to)
  {
    var from := NodeAt(l, k, i).id;
    assert forall h: nat | h < |l.vms| :: NodeAt(l, VM, h).id == l.vms[h].id;
    assert forall h: nat | h < |l.containers| :: NodeAt(l, CT, h).id == l.containers[h].id;
    assert forall h: nat | h < |l.uplinks| :: NodeAt(l, UP, h).id == l.uplinks[h].id;
  }

  lemma SwitchesRelabelled(l: Lab, k: Kind, i: nat, to: string)
    requires i < Count(l, k) && (k != UP ==> SubSwitches(l.switches, NodeAt(l, k, i).id, to) == l.switches)
    requires forall j: Kind, h: nat | h < Count(l, j) && NodeAt(l, j, h).id == NodeAt(l, k, i).id :: j == k && h == i
    ensures var s, u, from := SetNode(l, k, i, NodeName(to, "")), Unnamed(l, k, i), NodeAt(l, k, i).id;
      (if k == UP then SubSwitches(s.switches, from, to) else s.switches) == RelSwitches(u.switches, from, to)
  {
    hide SubIds;
    var s, u, from := SetNode(l, k, i, NodeName(to, "")), Unnamed(l, k, i), NodeAt(l, k, i).id;
    forall h: nat | h < |l.switches|
      ensures h != i || k != SW ==> l.switches[h].id != from
      ensures k != UP ==> SubSwitch(l.switches[h], from, to) == l.switches[h]
    {
      assert NodeAt(l, SW, h).id == l.switches[h].id;
      if k != UP { assert SubSwitches(l.switches, from, to)[h] == l.switches[h]; }
    }
  }

  // ---------------------------------------------------------------- the substitution keeps every rule

  ghost predicate Fresh(l: Lab, to: string) {
    to != "" && forall j: Kind :: !Has(l, j, to)
  }

  lemma NodeRelabelled(l: Lab, from: string, to: string, k: Kind, i: nat)
    requires i < Count(l, k)
    ensures Count(Relabel(l, from, to), k) == Count(l, k)
    ensures NodeAt(Relabel(l, from, to), k, i) == NodeAt(l, k, i).(id := Sub(NodeAt(l, k, i).id, from, to))
  {
  }

  lemma CountRelabelled(l: Lab, from: string, to: string, k: Kind)
    ensures Count(Relabel(l, from, to), k) == Count(l, k)
  {
  }

  /** Every reference leads to the node it led to. */
  lemma ReferencesFollow(l: Lab, from: string, to: string, k: Kind, id: string)
    requires Fresh(l, to) && id != to
    ensures Find(Relabel(l, from, to), k, Sub(id, from, to)) == Find(l, k, id)
  {
    hide Relabel;
    var m := Relabel(l, from, to);
    var f, g := Find(l, k, id), Find(m, k, Sub(id, from, to));
    CountRelabelled(l, from, to, k);
    assert !Has(l, k, to);
    forall i: nat | i < Count(l, k)
      ensures NodeAt(m, k, i).id == Sub(id, from, to) <==> NodeAt(l, k, i).id == id
    {
      NodeRelabelled(l, from, to, k, i);
    }
  }

  lemma {:induction false} WorkloadsFollow(ws: seq<Workload>, from: string, to: string, id: string)
    requires id != to && forall i | 0 <= i < |ws| :: ws[i].id != to
    ensures FindWorkload(RelWorkloads(ws, from, to), Sub(id, from, to)) == FindWorkload(ws, id)
  {
    var vs := RelWorkloads(ws, from, to);
    var f, g := FindWorkload(ws, id), FindWorkload(vs, Sub(id, from, to));
    assert forall i | 0 <= i < |ws| :: vs[i].id == Sub(id, from, to) <==> ws[i].id == id;
  }

  lemma FreshInGroup(l: Lab, to: string, typ: string, i: nat)
    requires Fresh(l, to) && i < |Group(l, typ)|
    ensures Group(l, typ)[i].id != to
  {
    var j := if typ == "vm" then VM else CT;
    assert NodeAt(l, j, i).id == Group(l, typ)[i].id && !Has(l, j, to);
  }

  lemma GroupFollows(l: Lab, from: string, to: string, typ: string, id: string)
    requires Fresh(l, to) && id != to
    ensures Group(Relabel(l, from, to), typ) == RelWorkloads(Group(l, typ), from, to)
    ensures FindWorkload(Group(Relabel(l, from, to), typ), Sub(id, from, to)) == FindWorkload(Group(l, typ), id)
  {
    hide RelWorkloads;
    assert Group(Relabel(l, from, to), typ) == RelWorkloads(Group(l, typ), from, to) by { RelabelledGroup(l, from, to, typ); }
    forall i | 0 <= i < |Group(l, typ)|
      ensures Group(l, typ)[i].id != to
    {
      FreshInGroup(l, to, typ, i);
    }
    WorkloadsFollow(Group(l, typ), from, to, id);
  }

  lemma RelabelledGroup(l: Lab, from: string, to: string, typ: string)
    ensures Group(Relabel(l, from, to), typ) == RelWorkloads(Group(l, typ), from, to)
  {
    assert RelWorkloads([], from, to) == [];
  }

  lemma ExistingIsNotFresh(l: Lab, k: Kind, id: string, to: string)
    requires Fresh(l, to) && Has(l, k, id)
    ensures id != to
  {
  }

  lemma RelabelKeepsSwitches(l: Lab, from: string, to: string)
    requires SwitchesOk(l) && Fresh(l, to) && from != ""
    ensures SwitchesOk(Relabel(l, from, to))
  {
    hide Fresh, SwitchOk;
    forall i | 0 <= i < |l.switches|
      ensures SwitchOk(Relabel(l, from, to), RelSwitch(l.switches[i], from, to))
    {
      RelabelKeepsSwitch(l, from, to, l.switches[i]);
    }
  }

  lemma UplinksFollow(sw: Switch, from: string, to: string, u: string)
    requires u in SwitchUplinks(RelSwitch(sw, from, to)) && from != ""
    ensures exists v :: v in SwitchUplinks(sw) && u == Sub(v, from, to)
  {
    var sub := RelSwitch(sw, from, to);
    InSwitchUplinks(sub, u);
    var v :| (v in sw.uplinks || v == sw.uplink) && u == Sub(v, from, to);
    InSwitchUplinks(sw, v);
  }

  lemma UplinksFollowBack(sw: Switch, from: string, to: string, v: string)
    requires v in SwitchUplinks(sw) && to != ""
    ensures Sub(v, from, to) in SwitchUplinks(RelSwitch(sw, from, to))
  {
    var sub := RelSwitch(sw, from, to);
    InSwitchUplinks(sw, v);
    InSwitchUplinks(sub, Sub(v, from, to));
    if v in sw.uplinks {
      var j :| 0 <= j < |sw.uplinks| && sw.uplinks[j] == v;
      assert sub.uplinks[j] == Sub(v, from, to);
    }
  }

  lemma RelabelKeepsSwitch(l: Lab, from: string, to: string, sw: Switch)
    requires SwitchOk(l, sw) && Fresh(l, to) && from != ""
    ensures SwitchOk(Relabel(l, from, to), RelSwitch(sw, from, to))
  {
    hide SwitchUplinks, Relabel;
    var m, sub := Relabel(l, from, to), RelSwitch(sw, from, to);
    forall u | u in SwitchUplinks(sub)
      ensures Has(m, UP, u)
    {
      UplinksFollow(sw, from, to, u);
      var v :| v in SwitchUplinks(sw) && u == Sub(v, from, to);
      ExistingIsNotFresh(l, UP, v, to);
      ReferencesFollow(l, from, to, UP, v);
      CountRelabelled(l, from, to, UP);
    }
    if SwitchUplinks(sw) != [] { UplinksFollowBack(sw, from, to, SwitchUplinks(sw)[0]); }
  }

  lemma RelabelKeepsNic(l: Lab, from: string, to: string, nic: Nic)
    requires NicOk(l, nic) && Fresh(l, to) && from != ""
    ensures NicOk(Relabel(l, from, to), RelNic(nic, from, to))
  {
    hide Relabel, Fresh;
    if nic.switch != "" {
      ExistingIsNotFresh(l, SW, nic.switch, to);
      ReferencesFollow(l, from, to, SW, nic.switch);
      CountRelabelled(l, from, to, SW);
    }
    if nic.uplink != "" {
      ExistingIsNotFresh(l, UP, nic.uplink, to);
      ReferencesFollow(l, from, to, UP, nic.uplink);
      CountRelabelled(l, from, to, UP);
    }
  }

  lemma RelabelKeepsNics(l: Lab, from: string, to: string, ws: seq<Workload>)
    requires NicsOk(l, ws) && Fresh(l, to) && from != ""
    ensures NicsOk(Relabel(l, from, to), RelWorkloads(ws, from, to))
  {
    hide Relabel, Fresh, NicOk;
    forall i, j | 0 <= i < |ws| && 0 <= j < |ws[i].nics|
      ensures NicOk(Relabel(l, from, to), RelNic(ws[i].nics[j], from, to))
    {
      RelabelKeepsNic(l, from, to, ws[i].nics[j]);
    }
  }

  lemma RelabelKeepsDhcpSwitch(l: Lab, from: string, to: string, id: string)
    requires DhcpSwitchOk(l, id) && Fresh(l, to) && from != "" && id != to && SwitchesOk(l)
    ensures DhcpSwitchOk(Relabel(l, from, to), Sub(id, from, to))
  {
    hide SwitchUplinks, Fresh;
    var m := Relabel(l, from, to);
    ReferencesFollow(l, from, to, SW, id);
    var i := Find(l, SW, id);
    if i < |l.switches| {
      var sw := l.switches[i];
      assert SwitchOk(l, sw);
      assert m.switches[i] == RelSwitch(sw, from, to);
      forall u | u in SwitchUplinks(m.switches[i])
        ensures var j := Find(m, UP, u); j < |m.uplinks| ==> m.uplinks[j].mode != "macnat"
      {
        UplinksFollow(sw, from, to, u);
        var v :| v in SwitchUplinks(sw) && u == Sub(v, from, to);
        ExistingIsNotFresh(l, UP, v, to);
        ReferencesFollow(l, from, to, UP, v);
      }
    }
  }

  lemma RelabelKeepsDhcpEnd(l: Lab, from: string, to: string, e: Endpoint)
    requires Fresh(l, to) && e.id != to && DhcpEnd(Relabel(l, from, to), RelEndpoint(e, from, to))
    ensures DhcpEnd(l, e)
  {
    var m := Relabel(l, from, to);
    var i :| 0 <= i < |m.containers| && m.containers[i].id == Sub(e.id, from, to) && IsDhcp(m.containers[i]);
    FreshInGroup(l, to, "container", i);
    assert m.containers[i] == RelWorkload(l.containers[i], from, to);
  }

  lemma RelabelKeepsDhcp(l: Lab, from: string, to: string)
    requires DhcpOk(l) && SwitchesOk(l) && NetworksOk(l) && LinksOk(l) && Fresh(l, to) && from != ""
    ensures DhcpOk(Relabel(l, from, to))
  {
    hide DhcpSwitchOk, Fresh, SwitchesOk, NetworksOk, LinksOk, DhcpEnd;
    var m := Relabel(l, from, to);
    forall i | 0 <= i < |l.containers|
      ensures m.containers[i] == RelWorkload(l.containers[i], from, to)
      ensures IsDhcp(l.containers[i]) ==> |l.containers[i].nics| == 1 && m.containers[i].nics == [RelNic(l.containers[i].nics[0], from, to)]
      ensures IsDhcp(l.containers[i]) ==> l.containers[i].nics[0].switch != to && DhcpSwitchOk(m, m.containers[i].nics[0].switch)
    {
      if IsDhcp(l.containers[i]) {
        var nic := l.containers[i].nics[0];
        DhcpNicSwitchExists(l, i, to);
        RelabelKeepsDhcpSwitch(l, from, to, nic.switch);
      }
    }
    forall k | 0 <= k < |l.links|
      ensures !DhcpEnd(m, m.links[k].from) && !DhcpEnd(m, m.links[k].to)
    {
      LinkEndsNotFresh(l, k, to);
      if DhcpEnd(m, m.links[k].from) { RelabelKeepsDhcpEnd(l, from, to, l.links[k].from); }
      if DhcpEnd(m, m.links[k].to) { RelabelKeepsDhcpEnd(l, from, to, l.links[k].to); }
    }
    assert from == "" || Sub("", from, to) == "";
    assert m.containers == RelWorkloads(l.containers, from, to) && m.links == RelLinks(l.links, from, to);
    forall i, j | 0 <= i < j < |l.containers| && IsDhcp(m.containers[i]) && IsDhcp(m.containers[j])
      ensures m.containers[i].nics[0].switch != m.containers[j].nics[0].switch
    {
      assert IsDhcp(l.containers[i]) && IsDhcp(l.containers[j]);
    }
    forall i | 0 <= i < |l.containers| && IsDhcp(m.containers[i])
      ensures m.containers[i].nics[0].switch != ""
    {
      assert IsDhcp(l.containers[i]);
      assert Fresh(l, to) ==> to != "" by { FreshIsNamed(l, to); }
    }
  }

  lemma FreshIsNamed(l: Lab, to: string)
    ensures Fresh(l, to) ==> to != ""
  {
  }

  lemma DhcpNicSwitchExists(l: Lab, i: nat, to: string)
    requires DhcpOk(l) && NetworksOk(l) && Fresh(l, to) && i < |l.containers| && IsDhcp(l.containers[i])
    ensures |l.containers[i].nics| == 1 && l.containers[i].nics[0].switch != to
  {
    assert NicOk(l, l.containers[i].nics[0]);
    ExistingIsNotFresh(l, SW, l.containers[i].nics[0].switch, to);
  }

  lemma EndpointNotFresh(l: Lab, e: Endpoint, to: string)
    requires EndpointOk(l, e) && Fresh(l, to)
    ensures e.id != to
  {
    FreshInGroup(l, to, e.typ, FindWorkload(Group(l, e.typ), e.id));
  }

  lemma LinkEndsNotFresh(l: Lab, k: nat, to: string)
    requires LinksOk(l) && Fresh(l, to) && k < |l.links|
    ensures l.links[k].from.id != to && l.links[k].to.id != to
  {
    hide EndpointOk, Fresh;
    EndpointNotFresh(l, l.links[k].from, to);
    EndpointNotFresh(l, l.links[k].to, to);
  }

  lemma RelabelKeepsEndpoint(l: Lab, from: string, to: string, e: Endpoint)
    requires EndpointOk(l, e) && Fresh(l, to) && from != ""
    ensures EndpointOk(Relabel(l, from, to), RelEndpoint(e, from, to))
  {
    hide Fresh, Relabel;
    EndpointNotFresh(l, e, to);
    GroupFollows(l, from, to, e.typ, e.id);
    assert Sub("", from, to) == "";
  }

  lemma RelabelKeepsLinks(l: Lab, from: string, to: string)
    requires LinksOk(l) && Fresh(l, to) && from != ""
    ensures LinksOk(Relabel(l, from, to))
  {
    hide EndpointOk, Fresh;
    var m := Relabel(l, from, to);
    forall i | 0 <= i < |l.links|
      ensures l.links[i].from.id != to && l.links[i].to.id != to
      ensures EndpointOk(m, m.links[i].from) && EndpointOk(m, m.links[i].to)
    {
      LinkEndsNotFresh(l, i, to);
      RelabelKeepsEndpoint(l, from, to, l.links[i].from);
      RelabelKeepsEndpoint(l, from, to, l.links[i].to);
    }
    RelabelKeepsApart(l.links, from, to);
  }

  lemma RelabelKeepsApart(links: seq<Link>, from: string, to: string)
    requires LinksApart(links) && forall i | 0 <= i < |links| :: links[i].from.id != to && links[i].to.id != to
    ensures LinksApart(RelLinks(links, from, to))
  {
    var after := RelLinks(links, from, to);
    forall i, j | 0 <= i < j < |links|
      ensures !Touches(after[i], after[j].from) && !Touches(after[i], after[j].to)
    {
      assert !Touches(links[i], links[j].from) && !Touches(links[i], links[j].to);
    }
  }

  lemma RelabelKeepsDisks(l: Lab, from: string, to: string, resolve: PathFn)
    requires DisksOk(l, resolve) && Fresh(l, to) && from != ""
    ensures DisksOk(Relabel(l, from, to), resolve)
  {
    hide Fresh, BaseOk, AttachmentOk, ValidId;
    var m := Relabel(l, from, to);
    forall i | 0 <= i < |l.disks|
      ensures m.disks[i] == RelDisk(l.disks[i], from, to)
      ensures DiskOk(m, m.disks[i], resolve) && l.disks[i].attachedTo != to
    {
      assert DiskOk(l, l.disks[i], resolve);
      RelabelKeepsDisk(l, from, to, l.disks[i], resolve);
    }
  }

  lemma RelabelKeepsDisk(l: Lab, from: string, to: string, d: Disk, resolve: PathFn)
    requires DiskOk(l, d, resolve) && Fresh(l, to) && from != ""
    ensures DiskOk(Relabel(l, from, to), RelDisk(d, from, to), resolve) && d.attachedTo != to
  {
    hide Fresh, ValidId;
    var m, e := Relabel(l, from, to), RelDisk(d, from, to);
    assert BaseOk(m.disks, e) by { SameBases(l.disks, m.disks, d, e); }
    assert AttachmentOk(m, e, resolve) && d.attachedTo != to by { RelabelKeepsAttachment(l, from, to, d, resolve); }
  }

  lemma RelabelKeepsAttachment(l: Lab, from: string, to: string, d: Disk, resolve: PathFn)
    requires AttachmentOk(l, d, resolve) && Fresh(l, to) && from != ""
    ensures AttachmentOk(Relabel(l, from, to), RelDisk(d, from, to), resolve) && d.attachedTo != to
  {
    hide Relabel;
    if d.attachedType != "" {
      FreshInGroup(l, to, d.attachedType, FindWorkload(Group(l, d.attachedType), d.attachedTo));
      GroupFollows(l, from, to, d.attachedType, d.attachedTo);
    }
  }

  lemma {:induction false} SameBases(disks: seq<Disk>, after: seq<Disk>, d: Disk, e: Disk)
    requires |after| == |disks| && forall i | 0 <= i < |disks| :: after[i] == disks[i].(attachedTo := after[i].attachedTo)
    requires BaseOk(disks, d) && e == d.(attachedTo := e.attachedTo)
    ensures BaseOk(after, e)
  {
    var f, g := FindDisk(disks, d.base), FindDisk(after, d.base);
    if f < |disks| { assert after[f].id == disks[f].id; }
    if g < |disks| { assert after[g].id == disks[g].id; }
  }

  lemma RelabelKeepsHas(l: Lab, from: string, to: string, k: Kind, id: string)
    requires Has(l, k, id) && Fresh(l, to)
    ensures Has(Relabel(l, from, to), k, Sub(id, from, to))
  {
    hide Relabel, Fresh;
    ExistingIsNotFresh(l, k, id, to);
    ReferencesFollow(l, from, to, k, id);
    CountRelabelled(l, from, to, k);
  }

  lemma RelabelKeepsLayout(l: Lab, from: string, to: string)
    requires LayoutOk(l) && Fresh(l, to) && from != ""
    ensures LayoutOk(Relabel(l, from, to))
  {
    hide Fresh, Has;
    var m := Relabel(l, from, to);
    forall id | id in m.positions
      ensures HasNode(m, id)
    {
      var v :| v in l.positions && id == Sub(v, from, to);
      RelabelKeepsHasNode(l, from, to, v);
    }
    forall e | LayoutEndOk(l, e)
      ensures LayoutEndOk(m, RelLayoutEnd(e, from, to))
    {
      RelabelKeepsHas(l, from, to, KindOf(e.typ).value, e.id);
    }
  }

  lemma RelabelKeepsHasNode(l: Lab, from: string, to: string, id: string)
    requires HasNode(l, id) && Fresh(l, to)
    ensures HasNode(Relabel(l, from, to), Sub(id, from, to))
  {
    hide Has, Fresh, Relabel;
    if Has(l, VM, id) { RelabelKeepsHas(l, from, to, VM, id); }
    else if Has(l, CT, id) { RelabelKeepsHas(l, from, to, CT, id); }
    else if Has(l, SW, id) { RelabelKeepsHas(l, from, to, SW, id); }
    else { RelabelKeepsHas(l, from, to, UP, id); }
  }
}
