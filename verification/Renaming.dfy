/**
 Renaming a node: the new name is checked against every other node, then the node and every reference
 to it are rewritten in place, kind by kind.
 */
module Renaming {
  import opened Numerals
  import opened LabModel
  import opened Lookup

  // ---------------------------------------------------------------- rewriting references, as functions

  function Sub(id: string, from: string, to: string): string {
    if id == from then to else id
  }

  datatype NicField = SwitchRef | UplinkRef

  function SubNic(nic: Nic, field: NicField, from: string, to: string): Nic {
    match field
    case SwitchRef => nic.(switch := Sub(nic.switch, from, to))
    case UplinkRef => nic.(uplink := Sub(nic.uplink, from, to))
  }

  function SubNicSeq(nics: seq<Nic>, field: NicField, from: string, to: string): seq<Nic> {
    seq(|nics|, j requires 0 <= j < |nics| => SubNic(nics[j], field, from, to))
  }

  function SubWorkload(w: Workload, field: NicField, from: string, to: string): Workload {
    w.(nics := SubNicSeq(w.nics, field, from, to))
  }

  function SubWorkloads(ws: seq<Workload>, field: NicField, from: string, to: string): seq<Workload> {
    seq(|ws|, i requires 0 <= i < |ws| => SubWorkload(ws[i], field, from, to))
  }

  function SubNics(l: Lab, field: NicField, from: string, to: string): Lab {
    l.(vms := SubWorkloads(l.vms, field, from, to), containers := SubWorkloads(l.containers, field, from, to))
  }

  function SubEndpoint(e: Endpoint, typ: string, from: string, to: string): Endpoint {
    if e.typ == typ && e.id == from then e.(id := to) else e
  }

  function SubLink(link: Link, typ: string, from: string, to: string): Link {
    Link(SubEndpoint(link.from, typ, from, to), SubEndpoint(link.to, typ, from, to))
  }

  function SubLinks(links: seq<Link>, typ: string, from: string, to: string): seq<Link> {
    seq(|links|, i requires 0 <= i < |links| => SubLink(links[i], typ, from, to))
  }

  function SubDisk(d: Disk, typ: string, from: string, to: string): Disk {
    if d.attachedType == typ && d.attachedTo == from then d.(attachedTo := to) else d
  }

  function SubDisks(disks: seq<Disk>, typ: string, from: string, to: string): seq<Disk> {
    seq(|disks|, i requires 0 <= i < |disks| => SubDisk(disks[i], typ, from, to))
  }

  function SubIds(ids: seq<string>, from: string, to: string): seq<string> {
    seq(|ids|, i requires 0 <= i < |ids| => Sub(ids[i], from, to))
  }

  function SubSwitch(sw: Switch, from: string, to: string): Switch {
    sw.(uplinks := SubIds(sw.uplinks, from, to), uplink := Sub(sw.uplink, from, to))
  }

  function SubSwitches(sws: seq<Switch>, from: string, to: string): seq<Switch> {
    seq(|sws|, i requires 0 <= i < |sws| => SubSwitch(sws[i], from, to))
  }

  function SubLayoutEnd(e: LayoutEnd, typ: string, from: string, to: string): LayoutEnd {
    if e.typ == typ && e.id == from then e.(id := to) else e
  }

  function SubLayoutLink(x: LayoutLink, typ: string, from: string, to: string): LayoutLink {
    LayoutLink(SubLayoutEnd(x.from, typ, from, to), SubLayoutEnd(x.to, typ, from, to))
  }

  function SubLayoutLinks(xs: seq<LayoutLink>, typ: string, from: string, to: string): seq<LayoutLink> {
    seq(|xs|, i requires 0 <= i < |xs| => SubLayoutLink(xs[i], typ, from, to))
  }

  function SubPositions(p: map<string, Position>, from: string, to: string): map<string, Position> {
    if from in p then (p - {from})[to := p[from]] else p
  }

  /** rewriteNodeReferences: layout first, then what nodes of this kind can be referred to by. */
  function RewriteReferences(l: Lab, k: Kind, from: string, to: string): Lab {
    var typ := KindText(k);
    var laid := l.(positions := SubPositions(l.positions, from, to), layoutLinks := SubLayoutLinks(l.layoutLinks, typ, from, to));
    match k
    case VM => laid.(links := SubLinks(l.links, typ, from, to), disks := SubDisks(l.disks, typ, from, to))
    case CT => laid.(links := SubLinks(l.links, typ, from, to), disks := SubDisks(l.disks, typ, from, to))
    case SW => SubNics(laid, SwitchRef, from, to)
    case UP => SubNics(laid.(switches := SubSwitches(l.switches, from, to)), UplinkRef, from, to)
  }

  function SetNode(l: Lab, k: Kind, i: nat, n: NodeName): Lab
    requires i < Count(l, k)
  {
    match k
    case VM => l.(vms := l.vms[i := l.vms[i].(id := n.id, name := n.name)])
    case CT => l.(containers := l.containers[i := l.containers[i].(id := n.id, name := n.name)])
    case SW => l.(switches := l.switches[i := l.switches[i].(id := n.id, name := n.name)])
    case UP => l.(uplinks := l.uplinks[i := l.uplinks[i].(id := n.id, name := n.name)])
  }

  /** clearRedundantNodeName from node i on. */
  function ClearRedundant(l: Lab, k: Kind, id: string, i: nat := 0): (m: Lab)
    requires i <= Count(l, k)
    ensures Count(m, k) == Count(l, k)
    decreases Count(l, k) - i
  {
    if i == Count(l, k) then l
    else if NodeAt(l, k, i) == NodeName(id, id) then ClearRedundant(SetNode(l, k, i, NodeName(id, "")), k, id, i + 1)
    else ClearRedundant(l, k, id, i + 1)
  }

  function RenameNode(l: Lab, k: Kind, from: string, to: string): Option<Lab> {
    if from == to then Some(ClearRedundant(l, k, from))
    else if !ValidNodeId(to) || NameTaken(l, to, from) then None
    else
      var i := Find(l, k, from);
      if i == Count(l, k) then None
      else Some(RewriteReferences(SetNode(l, k, i, NodeName(to, "")), k, from, to))
  }

  // ---------------------------------------------------------------- rewriting references in place

  method SubNicRefs(nics: seq<Nic>, field: NicField, from: string, to: string) returns (out: seq<Nic>)
    ensures out == SubNicSeq(nics, field, from, to)
  {
    out := nics;
    for j := 0 to |nics|
      invariant |out| == |nics|
      invariant forall h | 0 <= h < |nics| :: out[h] == if h < j then SubNic(nics[h], field, from, to) else nics[h]
    {
      if field == SwitchRef && out[j].switch == from {
        out := out[j := out[j].(switch := to)];
      } else if field == UplinkRef && out[j].uplink == from {
        out := out[j := out[j].(uplink := to)];
      }
    }
  }

  method SubWorkloadRefs(ws: seq<Workload>, field: NicField, from: string, to: string) returns (out: seq<Workload>)
    ensures out == SubWorkloads(ws, field, from, to)
  {
    hide SubNicSeq;
    out := ws;
    for i := 0 to |ws|
      invariant |out| == |ws|
      invariant forall h | 0 <= h < |ws| :: out[h] == if h < i then SubWorkload(ws[h], field, from, to) else ws[h]
    {
      var nics := SubNicRefs(out[i].nics, field, from, to);
      out := out[i := out[i].(nics := nics)];
    }
  }

  method SubAllNicRefs(s: LabState, field: NicField, from: string, to: string)
    modifies s
    ensures s.View() == SubNics(old(s.View()), field, from, to)
  {
    s.vms := SubWorkloadRefs(s.vms, field, from, to);
    s.containers := SubWorkloadRefs(s.containers, field, from, to);
  }

  method SubLinkRefs(s: LabState, typ: string, from: string, to: string)
    modifies s
    ensures s.View() == old(s.View()).(links := SubLinks(old(s.links), typ, from, to))
  {
    ghost var was := s.links;
    for i := 0 to |s.links|
      invariant s.View() == old(s.View()).(links := s.links) && |s.links| == |was|
      invariant forall h | 0 <= h < |was| :: s.links[h] == if h < i then SubLink(was[h], typ, from, to) else was[h]
    {
      if s.links[i].from.typ == typ && s.links[i].from.id == from {
        s.links := s.links[i := s.links[i].(from := s.links[i].from.(id := to))];
      }
      if s.links[i].to.typ == typ && s.links[i].to.id == from {
        s.links := s.links[i := s.links[i].(to := s.links[i].to.(id := to))];
      }
    }
    assert s.links == SubLinks(was, typ, from, to);
  }

  method SubDiskRefs(s: LabState, typ: string, from: string, to: string)
    modifies s
    ensures s.View() == old(s.View()).(disks := SubDisks(old(s.disks), typ, from, to))
  {
    ghost var was := s.disks;
    for i := 0 to |s.disks|
      invariant s.View() == old(s.View()).(disks := s.disks) && |s.disks| == |was|
      invariant forall h | 0 <= h < |was| :: s.disks[h] == if h < i then SubDisk(was[h], typ, from, to) else was[h]
    {
      if s.disks[i].attachedType == typ && s.disks[i].attachedTo == from {
        s.disks := s.disks[i := s.disks[i].(attachedTo := to)];
      }
    }
    assert s.disks == SubDisks(was, typ, from, to);
  }

  method SubUplinkList(ids: seq<string>, from: string, to: string) returns (out: seq<string>)
    ensures out == SubIds(ids, from, to)
  {
    out := ids;
    for j := 0 to |ids|
      invariant |out| == |ids|
      invariant forall h | 0 <= h < |ids| :: out[h] == if h < j then Sub(ids[h], from, to) else ids[h]
    {
      if out[j] == from {
        out := out[j := to];
      }
    }
  }

  method SubSwitchRefs(s: LabState, from: string, to: string)
    modifies s
    ensures s.View() == old(s.View()).(switches := SubSwitches(old(s.switches), from, to))
  {
    hide SubIds;
    ghost var was := s.switches;
    for i := 0 to |s.switches|
      invariant s.View() == old(s.View()).(switches := s.switches) && |s.switches| == |was|
      invariant forall h | 0 <= h < |was| :: s.switches[h] == if h < i then SubSwitch(was[h], from, to) else was[h]
    {
      var ids := SubUplinkList(s.switches[i].uplinks, from, to);
      s.switches := s.switches[i := s.switches[i].(uplinks := ids)];
      if s.switches[i].uplink == from {
        s.switches := s.switches[i := s.switches[i].(uplink := to)];
      }
    }
    assert s.switches == SubSwitches(was, from, to);
  }

  method SubLayoutRefs(s: LabState, typ: string, from: string, to: string)
    modifies s
    ensures s.View() == old(s.View()).(positions := SubPositions(old(s.positions), from, to),
                                       layoutLinks := SubLayoutLinks(old(s.layoutLinks), typ, from, to))
  {
    ghost var was := s.layoutLinks;
    if from in s.positions {
      var position := s.positions[from];
      s.positions := s.positions - {from};
      s.positions := s.positions[to := position];
    }
    for i := 0 to |s.layoutLinks|
      invariant s.View() == old(s.View()).(positions := SubPositions(old(s.positions), from, to), layoutLinks := s.layoutLinks)
      invariant |s.layoutLinks| == |was|
      invariant forall h | 0 <= h < |was| :: s.layoutLinks[h] == if h < i then SubLayoutLink(was[h], typ, from, to) else was[h]
    {
      if s.layoutLinks[i].from == LayoutEnd(typ, from) {
        s.layoutLinks := s.layoutLinks[i := s.layoutLinks[i].(from := LayoutEnd(typ, to))];
      }
      if s.layoutLinks[i].to == LayoutEnd(typ, from) {
        s.layoutLinks := s.layoutLinks[i := s.layoutLinks[i].(to := LayoutEnd(typ, to))];
      }
    }
    assert s.layoutLinks == SubLayoutLinks(was, typ, from, to);
  }

  method RewriteNodeReferences(s: LabState, k: Kind, from: string, to: string)
    modifies s
    ensures s.View() == RewriteReferences(old(s.View()), k, from, to)
  {
    hide SubPositions, SubLayoutLinks, SubNics, SubLinks, SubDisks, SubSwitches;
    SubLayoutRefs(s, KindText(k), from, to);
    match k
    case VM | CT =>
      SubLinkRefs(s, KindText(k), from, to);
      SubDiskRefs(s, KindText(k), from, to);
    case SW =>
      SubAllNicRefs(s, SwitchRef, from, to);
    case UP =>
      SubSwitchRefs(s, from, to);
      SubAllNicRefs(s, UplinkRef, from, to);
  }

  method SetNodeAt(s: LabState, k: Kind, i: nat, n: NodeName)
    requires i < Count(s.View(), k)
    modifies s
    ensures s.View() == SetNode(old(s.View()), k, i, n)
  {
    match k
    case VM => s.vms := s.vms[i := s.vms[i].(id := n.id, name := n.name)];
    case CT => s.containers := s.containers[i := s.containers[i].(id := n.id, name := n.name)];
    case SW => s.switches := s.switches[i := s.switches[i].(id := n.id, name := n.name)];
    case UP => s.uplinks := s.uplinks[i := s.uplinks[i].(id := n.id, name := n.name)];
  }

  method ClearRedundantNodeName(s: LabState, k: Kind, id: string)
    modifies s
    ensures s.View() == ClearRedundant(old(s.View()), k, id)
  {
    hide SetNode;
    for i := 0 to Count(s.View(), k)
      invariant Count(s.View(), k) == Count(old(s.View()), k)
      invariant ClearRedundant(old(s.View()), k, id) == ClearRedundant(s.View(), k, id, i)
    {
      if NodeAt(s.View(), k, i).id == id && NodeAt(s.View(), k, i).name == id {
        SetNodeKeepsCount(s.View(), k, i, NodeName(id, ""));
        SetNodeAt(s, k, i, NodeName(id, ""));
      }
    }
  }

  lemma SetNodeKeepsCount(l: Lab, k: Kind, i: nat, n: NodeName)
    requires i < Count(l, k)
    ensures Count(SetNode(l, k, i, n), k) == Count(l, k)
  {
  }

  predicate TakenBy(n: NodeName, name: string, selfId: string) {
    n.id != selfId && MatchesRef(n, name)
  }

  /** The order in which the four scans come. */
  function KindRank(k: Kind): nat {
    match k case VM => 0 case CT => 1 case SW => 2 case UP => 3
  }

  /** existingNodeNameKind: the kind of a node the name is taken by, in the order of the scans; no name is never taken. */
  method ExistingNodeName(l: Lab, name: string, selfId: string) returns (kind: Option<Kind>)
    ensures kind.Some? <==> name != "" && NameTaken(l, name, selfId)
    ensures kind.Some? ==>
      && (exists i: nat :: i < Count(l, kind.value) && TakenBy(NodeAt(l, kind.value, i), name, selfId))
      && forall k: Kind, i: nat | KindRank(k) < KindRank(kind.value) && i < Count(l, k) :: !TakenBy(NodeAt(l, k, i), name, selfId)
  {
    if name == "" {
      return None;
    }
    var kinds := [VM, CT, SW, UP];
    for h := 0 to 4
      invariant forall k: Kind, i: nat | KindRank(k) < h && i < Count(l, k) :: !TakenBy(NodeAt(l, k, i), name, selfId)
    {
      for i := 0 to Count(l, kinds[h])
        invariant forall j | 0 <= j < i :: !TakenBy(NodeAt(l, kinds[h], j), name, selfId)
      {
        if NodeAt(l, kinds[h], i).id != selfId && MatchesRef(NodeAt(l, kinds[h], i), name) {
          return Some(kinds[h]);
        }
      }
    }
    return None;
  }

  /** renameNodeID: a refusal has written nothing. */
  method RenameNodeId(s: LabState, k: Kind, from: string, to: string) returns (ok: bool)
    modifies s
    ensures match RenameNode(old(s.View()), k, from, to)
            case None => !ok && s.View() == old(s.View())
            case Some(after) => ok && s.View() == after
  {
    hide NameTaken, RewriteReferences, ClearRedundant;
    var l := s.View();
    if from == to {
      ClearRedundantNodeName(s, k, from);
      return true;
    }
    if to == "" || !ValidNodeId(to) {
      return false;
    }
    var taken := ExistingNodeName(l, to, from);
    if taken.Some? {
      return false;
    }
    for i := 0 to Count(l, k)
      invariant s.View() == l && Find(l, k, from) >= i
    {
      if NodeAt(l, k, i).id == from {
        SetNodeAt(s, k, i, NodeName(to, ""));
        RewriteNodeReferences(s, k, from, to);
        return true;
      }
    }
    return false;
  }
}
