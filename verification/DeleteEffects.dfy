/** Deleting a node leaves no dangling reference, and exactly one family of deletions is invalid. */
module DeleteEffects {
  import opened Numerals
  import opened LabModel
  import opened Lookup
  import opened NetworkLinks
  import opened DirectLinks
  import opened Disks
  import opened DiskRules
  import opened Renaming
  import opened Relabelling
  import opened Deletes

  // ---------------------------------------------------------------- filters

  lemma {:induction false} InWithout<T>(s: seq<T>, drop: T -> bool, x: T)
    ensures x in Without(s, drop) <==> x in s && !drop(x)
  {
    if s != [] {
      InWithout(s[..|s| - 1], drop, x);
      assert s == s[..|s| - 1] + [s[|s| - 1]];
    }
  }

  lemma {:induction false} WithoutNone<T>(s: seq<T>, drop: T -> bool)
    requires forall h | 0 <= h < |s| :: !drop(s[h])
    ensures Without(s, drop) == s
  {
    if s != [] {
      WithoutNone(s[..|s| - 1], drop);
      assert s == s[..|s| - 1] + [s[|s| - 1]];
    }
  }

  function RemoveAt<T>(s: seq<T>, i: nat): seq<T>
    requires i < |s|
  {
    s[..i] + s[i + 1..]
  }

  lemma {:induction false} WithoutOne<T>(s: seq<T>, drop: T -> bool, i: nat)
    requires i < |s| && forall h | 0 <= h < |s| :: drop(s[h]) <==> h == i
    ensures Without(s, drop) == RemoveAt(s, i)
  {
    var init := s[..|s| - 1];
    if i == |s| - 1 {
      WithoutNone(init, drop);
      assert RemoveAt(s, i) == init;
    } else {
      WithoutOne(init, drop, i);
      assert RemoveAt(s, i) == RemoveAt(init, i) + [s[|s| - 1]];
    }
  }

  lemma {:induction false} WithoutIsShorter<T>(s: seq<T>, drop: T -> bool)
    ensures |Without(s, drop)| <= |s|
    ensures |Without(s, drop)| == |s| ==> Without(s, drop) == s && forall x | x in s :: !drop(x)
  {
    if s != [] {
      WithoutIsShorter(s[..|s| - 1], drop);
      assert s == s[..|s| - 1] + [s[|s| - 1]];
    }
  }

  // ---------------------------------------------------------------- one node less

  function Before(h: nat, i: nat): nat {
    if h < i then h else h + 1
  }

  /** m has the nodes of l except node i of kind k. */
  ghost predicate Loses(l: Lab, m: Lab, k: Kind, i: nat) {
    && i < Count(l, k) && Count(m, k) == Count(l, k) - 1
    && (forall j: Kind | j != k :: Count(m, j) == Count(l, j))
    && (forall h: nat | h < Count(m, k) :: NodeAt(m, k, h) == NodeAt(l, k, Before(h, i)))
    && (forall j: Kind, h: nat | j != k && h < Count(l, j) :: NodeAt(m, j, h) == NodeAt(l, j, h))
  }

  lemma LosesIdentity(l: Lab, m: Lab, k: Kind, i: nat)
    requires Loses(l, m, k, i) && IdentityOk(l)
    ensures IdentityOk(m)
  {
    hide Clash, NameOk;
    forall j: Kind, h: nat | h < Count(m, j)
      ensures NodeAt(m, j, h) == NodeAt(l, j, if j == k then Before(h, i) else h)
    {
    }
  }

  lemma LosesNodeAt(l: Lab, m: Lab, k: Kind, i: nat, j: Kind, h: nat)
    requires Loses(l, m, k, i) && h < Count(m, j)
    ensures var at := if j == k then Before(h, i) else h; at < Count(l, j) && NodeAt(m, j, h) == NodeAt(l, j, at)
  {
  }

  lemma LosesCount(l: Lab, m: Lab, k: Kind, i: nat, j: Kind)
    requires Loses(l, m, k, i)
    ensures i < Count(l, k) && Count(m, j) == if j == k then Count(l, j) - 1 else Count(l, j)
  {
  }

  lemma LosesFind(l: Lab, m: Lab, k: Kind, i: nat, j: Kind, id: string)
    requires i < Count(l, k) && Loses(l, m, k, i) && IdentityOk(l)
    ensures Has(m, j, id) <==> Has(l, j, id) && (j != k || id != NodeAt(l, k, i).id)
    ensures Has(m, j, id) ==> Find(l, j, id) == if j == k then Before(Find(m, j, id), i) else Find(m, j, id)
  {
    hide IdentityOk, Loses, NodeAt;
    var f, g := Find(l, j, id), Find(m, j, id);
    LosesCount(l, m, k, i, j);
    FindsNode(l, k, i);
    if f < Count(l, j) && (j != k || f != i) {
      LosesNodeAt(l, m, k, i, j, if j == k && f > i then f - 1 else f);
    }
    if g < Count(m, j) {
      LosesNodeAt(l, m, k, i, j, g);
      FindsNode(l, j, if j == k then Before(g, i) else g);
    }
  }

  lemma LosesLayout(l: Lab, m: Lab, k: Kind, i: nat)
    requires i < Count(l, k) && Loses(l, m, k, i) && IdentityOk(l) && LayoutOk(l)
    requires m.positions == Unplaced(l, k, NodeAt(l, k, i).id).positions
    requires m.layoutLinks == Unplaced(l, k, NodeAt(l, k, i).id).layoutLinks
    ensures LayoutOk(m)
  {
    hide IdentityOk, Has, Loses;
    var gone := NodeAt(l, k, i).id;
    forall id | id in m.positions
      ensures HasNode(m, id)
    {
      forall j: Kind { LosesFind(l, m, k, i, j, id); }
    }
    forall x | x in m.layoutLinks
      ensures LayoutEndOk(m, x.from) && LayoutEndOk(m, x.to)
    {
      InWithout(l.layoutLinks, AtNode(KindText(k), gone), x);
      assert LayoutEndOk(l, x.from) && LayoutEndOk(l, x.to);
      LosesFind(l, m, k, i, KindOf(x.from.typ).value, x.from.id);
      LosesFind(l, m, k, i, KindOf(x.to.typ).value, x.to.id);
    }
  }

  // ---------------------------------------------------------------- workloads by reference

  function WorkloadAt(l: Lab, typ: string, id: string): Option<Workload> {
    var ws := Group(l, typ);
    var i := FindWorkload(ws, id);
    if i < |ws| then Some(ws[i]) else None
  }

  predicate HasFreeNic(w: Workload, nic: int) {
    0 <= nic < |w.nics| && Free(w.nics[nic])
  }

  lemma EndpointInWords(l: Lab, e: Endpoint)
    ensures EndpointOk(l, e) <==> WorkloadAt(l, e.typ, e.id).Some? && HasFreeNic(WorkloadAt(l, e.typ, e.id).value, e.nic)
  {
  }

  lemma FindInRemoved(ws: seq<Workload>, i: nat, id: string)
    requires i < |ws| && forall h | 0 <= h < |ws| && h != i :: ws[h].id != ws[i].id
    ensures var vs := RemoveAt(ws, i); var f, g := FindWorkload(ws, id), FindWorkload(vs, id);
      if id == ws[i].id then g == |vs|
      else (f == |ws| <==> g == |vs|) && (g < |vs| ==> vs[g] == ws[f])
  {
    var vs := RemoveAt(ws, i);
    var f, g := FindWorkload(ws, id), FindWorkload(vs, id);
    if f < |ws| && f != i { assert vs[if f < i then f else f - 1] == ws[f]; }
    if g < |vs| { assert vs[g] == ws[Before(g, i)]; }
  }

  lemma WorkloadsWithout(l: Lab, k: Kind, i: nat)
    requires IdentityOk(l) && IsWorkload(k) && i < Count(l, k)
    ensures Without(Workloads(l, k), WorkloadIs(Workloads(l, k)[i].id)) == RemoveAt(Workloads(l, k), i)
    ensures forall h | 0 <= h < Count(l, k) && h != i :: Workloads(l, k)[h].id != Workloads(l, k)[i].id
  {
    hide IdentityOk;
    var ws := Workloads(l, k);
    forall h | 0 <= h < |ws|
      ensures ws[h].id == ws[i].id <==> h == i
    {
      assert NodeAt(l, k, h).id == ws[h].id && NodeAt(l, k, i).id == ws[i].id;
      if ws[h].id == ws[i].id { SameIdSameNode(l, k, h, k, i); }
    }
    WithoutOne(ws, WorkloadIs(ws[i].id), i);
  }

  lemma WorkloadAtAfter(l: Lab, k: Kind, i: nat, typ: string, id: string)
    requires IdentityOk(l) && IsWorkload(k) && i < Count(l, k)
    ensures var gone := Workloads(l, k)[i].id;
      WorkloadAt(WorkloadDeleted(l, k, gone), typ, id)
      == if typ == KindText(k) && id == gone then None else WorkloadAt(l, typ, id)
  {
    hide IdentityOk, Without, WithoutNode, ReleaseAll;
    WorkloadsWithout(l, k, i);
    if typ == KindText(k) { FindInRemoved(Workloads(l, k), i, id); }
  }

  lemma WorkloadDeletedLoses(l: Lab, k: Kind, i: nat)
    requires IdentityOk(l) && IsWorkload(k) && i < Count(l, k)
    ensures Loses(l, WorkloadDeleted(l, k, Workloads(l, k)[i].id), k, i)
  {
    hide IdentityOk, Without, WithoutNode, ReleaseAll;
    WorkloadsWithout(l, k, i);
  }

  /** Rules about switches and uplinks alone. */
  lemma SameNetworkNodes(l: Lab, m: Lab)
    requires m.switches == l.switches && m.uplinks == l.uplinks
    ensures forall nic :: NicOk(m, nic) == NicOk(l, nic)
    ensures forall sw :: SwitchOk(m, sw) == SwitchOk(l, sw)
    ensures forall id :: DhcpSwitchOk(m, id) == DhcpSwitchOk(l, id)
  {
    hide SwitchUplinks;
    forall id ensures Find(m, SW, id) == Find(l, SW, id) { SameFind(l, m, SW, id); }
    forall id ensures Find(m, UP, id) == Find(l, UP, id) { SameFind(l, m, UP, id); }
  }

  lemma WorkloadDeletedKeepsNetworks(l: Lab, k: Kind, i: nat)
    requires IdentityOk(l) && SwitchesOk(l) && NetworksOk(l) && IsWorkload(k) && i < Count(l, k)
    ensures var m := WorkloadDeleted(l, k, Workloads(l, k)[i].id); SwitchesOk(m) && NetworksOk(m)
  {
    hide IdentityOk, Without, WithoutNode, ReleaseAll, NicOk, SwitchOk;
    var m := WorkloadDeleted(l, k, Workloads(l, k)[i].id);
    SameNetworkNodes(l, m);
    WorkloadsWithout(l, k, i);
    assert forall h | 0 <= h < |Workloads(m, k)| :: Workloads(m, k)[h] == Workloads(l, k)[Before(h, i)];
  }

  lemma WorkloadDeletedContainers(l: Lab, k: Kind, i: nat)
    requires IdentityOk(l) && IsWorkload(k) && i < Count(l, k)
    ensures var m := WorkloadDeleted(l, k, Workloads(l, k)[i].id);
      && m.switches == l.switches && m.uplinks == l.uplinks
      && m.links == WithoutNode(l.links, KindText(k), Workloads(l, k)[i].id)
      && if k == CT then m.containers == RemoveAt(l.containers, i) else m.containers == l.containers
  {
    hide IdentityOk, Without, WithoutNode, ReleaseAll;
    WorkloadsWithout(l, k, i);
  }

  lemma WorkloadDeletedKeepsDhcp(l: Lab, k: Kind, i: nat)
    requires IdentityOk(l) && DhcpOk(l) && IsWorkload(k) && i < Count(l, k)
    ensures DhcpOk(WorkloadDeleted(l, k, Workloads(l, k)[i].id))
  {
    hide IdentityOk, WorkloadDeleted, WithoutNode, DhcpSwitchOk, DhcpEnd;
    var m := WorkloadDeleted(l, k, Workloads(l, k)[i].id);
    WorkloadDeletedContainers(l, k, i);
    SameNetworkNodes(l, m);
    FewerDhcpEnds(l, m, k, i);
    assert k == CT ==> forall h | 0 <= h < |m.containers| :: m.containers[h] == l.containers[Before(h, i)];
  }

  lemma FewerDhcpEnds(l: Lab, m: Lab, k: Kind, i: nat)
    requires if k == CT then i < |l.containers| && m.containers == RemoveAt(l.containers, i) else m.containers == l.containers
    requires forall x | x in l.links :: !DhcpEnd(l, x.from) && !DhcpEnd(l, x.to)
    requires exists typ, id :: m.links == WithoutNode(l.links, typ, id)
    ensures forall x | x in m.links :: !DhcpEnd(m, x.from) && !DhcpEnd(m, x.to)
  {
    hide DhcpEnd, RemoveAt;
    var typ, id :| m.links == WithoutNode(l.links, typ, id);
    forall x | x in m.links
      ensures !DhcpEnd(m, x.from) && !DhcpEnd(m, x.to)
    {
      InWithoutNode(l.links, typ, id, x);
      if DhcpEnd(m, x.from) { DhcpEndStays(l, m, k, i, x.from); }
      if DhcpEnd(m, x.to) { DhcpEndStays(l, m, k, i, x.to); }
    }
  }

  lemma DhcpEndStays(l: Lab, m: Lab, k: Kind, i: nat, e: Endpoint)
    requires if k == CT then i < |l.containers| && m.containers == RemoveAt(l.containers, i) else m.containers == l.containers
    requires DhcpEnd(m, e)
    ensures DhcpEnd(l, e)
  {
    if k == CT {
      var h :| 0 <= h < |m.containers| && m.containers[h].id == e.id && IsDhcp(m.containers[h]);
      assert m.containers[h] == l.containers[Before(h, i)];
    }
  }

  lemma WorkloadDeletedKeepsLinks(l: Lab, k: Kind, i: nat)
    requires IdentityOk(l) && LinksOk(l) && IsWorkload(k) && i < Count(l, k)
    ensures LinksOk(WorkloadDeleted(l, k, Workloads(l, k)[i].id))
  {
    hide IdentityOk, Without, WithoutNode, ReleaseAll, EndpointOk;
    var gone := Workloads(l, k)[i].id;
    var m := WorkloadDeleted(l, k, gone);
    WithoutNodeApart(l.links, KindText(k), gone);
    forall x | x in m.links
      ensures x.from != x.to && EndpointOk(m, x.from) && EndpointOk(m, x.to)
    {
      InWithoutNode(l.links, KindText(k), gone, x);
      assert x.from != x.to && EndpointOk(l, x.from) && EndpointOk(l, x.to);
      WorkloadDeletedKeepsEndpoint(l, k, i, x.from);
      WorkloadDeletedKeepsEndpoint(l, k, i, x.to);
    }
  }

  lemma WorkloadDeletedKeepsEndpoint(l: Lab, k: Kind, i: nat, e: Endpoint)
    requires IdentityOk(l) && IsWorkload(k) && i < Count(l, k) && EndpointOk(l, e) && !OfNode(e, KindText(k), Workloads(l, k)[i].id)
    ensures EndpointOk(WorkloadDeleted(l, k, Workloads(l, k)[i].id), e)
  {
    hide IdentityOk, EndpointOk, WorkloadAt, WorkloadDeleted;
    EndpointInWords(l, e);
    EndpointInWords(WorkloadDeleted(l, k, Workloads(l, k)[i].id), e);
    WorkloadAtAfter(l, k, i, e.typ, e.id);
  }

  lemma WorkloadDeletedKeepsDisks(l: Lab, k: Kind, i: nat, resolve: PathFn)
    requires IdentityOk(l) && DisksOk(l, resolve) && IsWorkload(k) && i < Count(l, k)
    ensures DisksOk(WorkloadDeleted(l, k, Workloads(l, k)[i].id), resolve)
  {
    hide IdentityOk, Without, WithoutNode, AttachmentOk, BaseOk, DisksOk, DistinctIds, Apart, Plain;
    var gone, typ := Workloads(l, k)[i].id, KindText(k);
    var m := WorkloadDeleted(l, k, gone);
    DisksInWords(l, resolve);
    DisksInWords(m, resolve);
    ReleasedApart(l.disks, typ, gone);
    ReleasedKeepsBases(l.disks, typ, gone, Disk("", "", "", "", "", ""));
    forall e | e in m.disks
      ensures Plain(e) && BaseOk(m.disks, e) && AttachmentOk(m, e, resolve)
    {
      var j :| 0 <= j < |m.disks| && m.disks[j] == e;
      assert l.disks[j] in l.disks;
      ReleasedKeepsBases(l.disks, typ, gone, l.disks[j]);
      WorkloadDeletedKeepsDisk(l, k, i, l.disks[j], resolve);
    }
  }

  lemma WorkloadDeletedKeepsDisk(l: Lab, k: Kind, i: nat, d: Disk, resolve: PathFn)
    requires IdentityOk(l) && IsWorkload(k) && i < Count(l, k) && Plain(d) && AttachmentOk(l, d, resolve)
    ensures var gone := Workloads(l, k)[i].id; var e := Released(d, KindText(k), gone);
      Plain(e) && AttachmentOk(WorkloadDeleted(l, k, gone), e, resolve)
  {
    hide IdentityOk, WorkloadDeleted;
    WorkloadAtAfter(l, k, i, d.attachedType, d.attachedTo);
  }

  /** Deleting a VM or a container keeps a valid lab valid. */
  lemma WorkloadDeleteKeepsValid(l: Lab, k: Kind, i: nat, resolve: PathFn)
    requires Valid(l, resolve) && IsWorkload(k) && i < Count(l, k)
    ensures Valid(WorkloadDeleted(l, k, Workloads(l, k)[i].id), resolve)
  {
    hide IdentityOk, SwitchesOk, NetworksOk, DhcpOk, LinksOk, DisksOk, LayoutOk, Loses, Without, WithoutNode, ReleaseAll;
    var m := WorkloadDeleted(l, k, Workloads(l, k)[i].id);
    assert NodeAt(l, k, i).id == Workloads(l, k)[i].id;
    WorkloadDeletedLoses(l, k, i);
    LosesIdentity(l, m, k, i);
    WorkloadDeletedKeepsNetworks(l, k, i);
    WorkloadDeletedKeepsDhcp(l, k, i);
    WorkloadDeletedKeepsLinks(l, k, i);
    WorkloadDeletedKeepsDisks(l, k, i, resolve);
    LosesLayout(l, m, k, i);
  }

  // ---------------------------------------------------------------- cleared interface references

  lemma {:induction false} SubbedFind(ws: seq<Workload>, field: NicField, from: string, to: string, id: string)
    ensures FindWorkload(SubWorkloads(ws, field, from, to), id) == FindWorkload(ws, id)
  {
    SameFindWorkload(ws, SubWorkloads(ws, field, from, to), id);
  }

  lemma SubbedWorkloadAt(l: Lab, m: Lab, field: NicField, from: string, typ: string, id: string)
    requires m.vms == SubWorkloads(l.vms, field, from, "") && m.containers == SubWorkloads(l.containers, field, from, "")
    ensures WorkloadAt(m, typ, id) == match WorkloadAt(l, typ, id)
      case None => None case Some(w) => Some(SubWorkload(w, field, from, ""))
  {
    SubbedFind(Group(l, typ), field, from, "", id);
  }

  lemma ClearedKeepsLinks(l: Lab, m: Lab, field: NicField, from: string)
    requires m.vms == SubWorkloads(l.vms, field, from, "") && m.containers == SubWorkloads(l.containers, field, from, "")
    requires m.links == l.links && LinksOk(l)
    ensures LinksOk(m)
  {
    hide EndpointOk, WorkloadAt, LinksApart, SubWorkloads;
    forall e | EndpointOk(l, e)
      ensures EndpointOk(m, e)
    {
      EndpointInWords(l, e);
      EndpointInWords(m, e);
      SubbedWorkloadAt(l, m, field, from, e.typ, e.id);
    }
  }

  lemma ClearedKeepsDisks(l: Lab, m: Lab, field: NicField, from: string, resolve: PathFn)
    requires m.vms == SubWorkloads(l.vms, field, from, "") && m.containers == SubWorkloads(l.containers, field, from, "")
    requires m.disks == l.disks && DisksOk(l, resolve)
    ensures DisksOk(m, resolve)
  {
    hide BaseOk, ValidId, SameTarget, SubWorkloads;
    forall i | 0 <= i < |l.disks|
      ensures DiskOk(m, m.disks[i], resolve)
    {
      assert DiskOk(l, l.disks[i], resolve);
      SubbedWorkloadAt(l, m, field, from, l.disks[i].attachedType, l.disks[i].attachedTo);
    }
  }

  lemma ClearedNics(l: Lab, m: Lab, ws: seq<Workload>, field: NicField, from: string)
    requires NicsOk(l, ws) && forall nic | NicOk(l, nic) :: NicOk(m, SubNic(nic, field, from, ""))
    ensures NicsOk(m, SubWorkloads(ws, field, from, ""))
  {
    hide NicOk, SubNic;
  }

  lemma ClearedDhcpEnd(l: Lab, m: Lab, field: NicField, from: string, e: Endpoint)
    requires m.containers == SubWorkloads(l.containers, field, from, "")
    ensures DhcpEnd(m, e) <==> DhcpEnd(l, e)
  {
    forall i | 0 <= i < |l.containers|
      ensures m.containers[i].id == l.containers[i].id && IsDhcp(m.containers[i]) == IsDhcp(l.containers[i])
    {
    }
    if DhcpEnd(l, e) {
      var i :| 0 <= i < |l.containers| && l.containers[i].id == e.id && IsDhcp(l.containers[i]);
      assert m.containers[i].id == e.id && IsDhcp(m.containers[i]);
    }
  }

  /** DHCP rules after clearing, when no DHCP interface was cleared. */
  lemma ClearedKeepsDhcp(l: Lab, m: Lab, field: NicField, from: string)
    requires DhcpOk(l) && m.containers == SubWorkloads(l.containers, field, from, "") && m.links == l.links
    requires forall i | 0 <= i < |l.containers| && IsDhcp(l.containers[i]) ::
      SubNicSeq(l.containers[i].nics, field, from, "") == l.containers[i].nics && DhcpSwitchOk(m, l.containers[i].nics[0].switch)
    ensures DhcpOk(m)
  {
    hide DhcpSwitchOk, DhcpEnd, SubNicSeq;
    forall e ensures DhcpEnd(m, e) == DhcpEnd(l, e) { ClearedDhcpEnd(l, m, field, from, e); }
    forall i | 0 <= i < |l.containers| && IsDhcp(m.containers[i])
      ensures m.containers[i] == l.containers[i]
    {
    }
  }

  // ---------------------------------------------------------------- deleting a switch

  lemma SwitchesWithout(l: Lab, i: nat)
    requires IdentityOk(l) && i < |l.switches|
    ensures Without(l.switches, SwitchIs(l.switches[i].id)) == RemoveAt(l.switches, i)
  {
    hide IdentityOk;
    forall h | 0 <= h < |l.switches|
      ensures l.switches[h].id == l.switches[i].id <==> h == i
    {
      assert NodeAt(l, SW, h).id == l.switches[h].id && NodeAt(l, SW, i).id == l.switches[i].id;
      if l.switches[h].id == l.switches[i].id { SameIdSameNode(l, SW, h, SW, i); }
    }
    WithoutOne(l.switches, SwitchIs(l.switches[i].id), i);
  }

  lemma SwitchDeletedLoses(l: Lab, i: nat)
    requires IdentityOk(l) && i < |l.switches|
    ensures Loses(l, SwitchDeleted(l, l.switches[i].id), SW, i)
  {
    hide IdentityOk, Without;
    SwitchesWithout(l, i);
  }

  lemma SwitchDeletedKeepsNetworks(l: Lab, i: nat)
    requires IdentityOk(l) && SwitchesOk(l) && NetworksOk(l) && i < |l.switches|
    ensures var m := SwitchDeleted(l, l.switches[i].id); SwitchesOk(m) && NetworksOk(m)
  {
    hide IdentityOk, Without, SwitchUplinks, Has, Loses, SubWorkloads, NicsOk;
    var id := l.switches[i].id;
    var m := SwitchDeleted(l, id);
    assert NodeAt(l, SW, i).id == id;
    SwitchDeletedLoses(l, i);
    SwitchesWithout(l, i);
    forall j: Kind, x: string { LosesFind(l, m, SW, i, j, x); }
    forall h | 0 <= h < |m.switches|
      ensures SwitchOk(m, m.switches[h])
    {
      assert m.switches[h] == l.switches[Before(h, i)] && SwitchOk(l, l.switches[Before(h, i)]);
    }
    forall nic | NicOk(l, nic)
      ensures NicOk(m, SubNic(nic, SwitchRef, id, ""))
    {
    }
    ClearedNics(l, m, l.vms, SwitchRef, id);
    ClearedNics(l, m, l.containers, SwitchRef, id);
  }

  predicate UsedByDhcp(l: Lab, id: string) {
    exists j | 0 <= j < |l.containers| ::
      IsDhcp(l.containers[j]) && |l.containers[j].nics| == 1 && l.containers[j].nics[0].switch == id
  }

  lemma SwitchDeletedDhcpSwitch(l: Lab, i: nat, switch: string)
    requires IdentityOk(l) && i < |l.switches| && DhcpSwitchOk(l, switch) && switch != l.switches[i].id
    ensures DhcpSwitchOk(SwitchDeleted(l, l.switches[i].id), switch)
  {
    hide IdentityOk, SwitchDeleted, SwitchUplinks, Loses;
    var m := SwitchDeleted(l, l.switches[i].id);
    assert NodeAt(l, SW, i).id == l.switches[i].id;
    SwitchDeletedLoses(l, i);
    SwitchDeletedNodes(l, i);
    LosesFind(l, m, SW, i, SW, switch);
    if Find(m, SW, switch) < |m.switches| { assert m.switches[Find(m, SW, switch)] == l.switches[Find(l, SW, switch)]; }
    forall x { SameFind(l, m, UP, x); }
  }

  lemma SwitchDeletedNodes(l: Lab, i: nat)
    requires IdentityOk(l) && i < |l.switches|
    ensures var m := SwitchDeleted(l, l.switches[i].id); m.switches == RemoveAt(l.switches, i) && m.uplinks == l.uplinks
  {
    hide IdentityOk, Without, SubWorkloads;
    SwitchesWithout(l, i);
  }

  lemma SwitchDeletedDhcp(l: Lab, i: nat)
    requires IdentityOk(l) && DhcpOk(l) && i < |l.switches|
    ensures DhcpOk(SwitchDeleted(l, l.switches[i].id)) <==> !UsedByDhcp(l, l.switches[i].id)
  {
    hide IdentityOk, Without, DhcpSwitchOk, SubWorkloads, DhcpEnd;
    var id := l.switches[i].id;
    var m := SwitchDeleted(l, id);
    if UsedByDhcp(l, id) {
      var j :| 0 <= j < |l.containers| && IsDhcp(l.containers[j]) && |l.containers[j].nics| == 1 && l.containers[j].nics[0].switch == id;
      ClearedDhcpIsBad(l, m, id, j);
    } else {
      forall j | 0 <= j < |l.containers| && IsDhcp(l.containers[j])
        ensures SubNicSeq(l.containers[j].nics, SwitchRef, id, "") == l.containers[j].nics
        ensures DhcpSwitchOk(m, l.containers[j].nics[0].switch)
      {
        assert l.containers[j].nics[0].switch != id;
        SwitchDeletedDhcpSwitch(l, i, l.containers[j].nics[0].switch);
      }
      ClearedKeepsDhcp(l, m, SwitchRef, id);
    }
  }

  lemma ClearedDhcpIsBad(l: Lab, m: Lab, id: string, j: nat)
    requires m.containers == SubWorkloads(l.containers, SwitchRef, id, "")
    requires j < |l.containers| && IsDhcp(l.containers[j]) && |l.containers[j].nics| == 1 && l.containers[j].nics[0].switch == id
    ensures !DhcpOk(m)
  {
    assert IsDhcp(m.containers[j]) && m.containers[j].nics[0].switch == "";
  }

  /** Deleting a switch keeps a valid lab valid exactly when no DHCP service uses it. */
  lemma SwitchDeleteValidExactly(l: Lab, i: nat, resolve: PathFn)
    requires Valid(l, resolve) && i < |l.switches|
    ensures Valid(SwitchDeleted(l, l.switches[i].id), resolve) <==> !UsedByDhcp(l, l.switches[i].id)
  {
    hide IdentityOk, SwitchesOk, NetworksOk, DhcpOk, LinksOk, DisksOk, LayoutOk, Loses, Without, SubWorkloads, UsedByDhcp;
    var m := SwitchDeleted(l, l.switches[i].id);
    assert NodeAt(l, SW, i).id == l.switches[i].id;
    SwitchDeletedLoses(l, i);
    LosesIdentity(l, m, SW, i);
    SwitchDeletedKeepsNetworks(l, i);
    SwitchDeletedDhcp(l, i);
    ClearedKeepsLinks(l, m, SwitchRef, l.switches[i].id);
    ClearedKeepsDisks(l, m, SwitchRef, l.switches[i].id, resolve);
    LosesLayout(l, m, SW, i);
  }

  // ---------------------------------------------------------------- uplinks taken off switches

  lemma UplinksAre(sw: Switch, ids: seq<string>, u: string)
    ensures u in SwitchUplinks(WithUplinks(sw, ids)) <==> u != "" && u in ids
  {
    InSwitchUplinks(WithUplinks(sw, ids), u);
  }

  /** A switch whose uplinks were narrowed to existing ones stays well formed; MACNAT bridging never lacks an uplink. */
  lemma NarrowedSwitch(l: Lab, m: Lab, sw: Switch, ids: seq<string>)
    requires SwitchOk(l, sw) && forall u | u in ids :: u in SwitchUplinks(sw) && Has(m, UP, u)
    ensures SwitchOk(m, WithUplinks(sw, ids))
    ensures sw.mode == "nat" ==> WithUplinks(sw, ids).mode == "nat"
  {
    hide SwitchUplinks, Has;
    forall u { UplinksAre(sw, ids, u); }
    if ids != [] {
      assert ids[0] in ids;
      InSwitchUplinks(sw, ids[0]);
      assert ids[0] in SwitchUplinks(WithUplinks(sw, ids));
    }
  }

  lemma CutUplinkIs(sw: Switch, id: string)
    ensures forall u :: u in SwitchUplinks(CutUplink(sw, id)) <==> u in SwitchUplinks(sw) && u != id
    ensures CutUplink(sw, id) == sw || CutUplink(sw, id) == WithUplinks(sw, Without(SwitchUplinks(sw), IdIs(id)))
    ensures CutUplink(sw, id).id == sw.id && CutUplink(sw, id).name == sw.name
  {
    hide SwitchUplinks, Without;
    var ids := SwitchUplinks(sw);
    var next := Without(ids, IdIs(id));
    WithoutIsShorter(ids, IdIs(id));
    forall u
      ensures u in SwitchUplinks(CutUplink(sw, id)) <==> u in ids && u != id
    {
      InWithout(ids, IdIs(id), u);
      UplinksAre(sw, next, u);
      InSwitchUplinks(sw, u);
    }
  }

  lemma CutSwitchOk(l: Lab, m: Lab, sw: Switch, id: string)
    requires SwitchOk(l, sw) && forall u | Has(l, UP, u) && u != id :: Has(m, UP, u)
    ensures SwitchOk(m, CutUplink(sw, id)) && (sw.mode == "nat" ==> CutUplink(sw, id).mode == "nat")
  {
    hide SwitchUplinks, Without, Has, CutUplink, WithUplinks;
    CutUplinkIs(sw, id);
    if CutUplink(sw, id) != sw {
      forall u { InWithout(SwitchUplinks(sw), IdIs(id), u); }
      NarrowedSwitch(l, m, sw, Without(SwitchUplinks(sw), IdIs(id)));
    }
  }

  // ---------------------------------------------------------------- deleting an uplink

  lemma UplinksWithout(l: Lab, i: nat)
    requires IdentityOk(l) && i < |l.uplinks|
    ensures Without(l.uplinks, UplinkIs(l.uplinks[i].id)) == RemoveAt(l.uplinks, i)
  {
    hide IdentityOk;
    forall h | 0 <= h < |l.uplinks|
      ensures l.uplinks[h].id == l.uplinks[i].id <==> h == i
    {
      assert NodeAt(l, UP, h).id == l.uplinks[h].id && NodeAt(l, UP, i).id == l.uplinks[i].id;
      if l.uplinks[h].id == l.uplinks[i].id { SameIdSameNode(l, UP, h, UP, i); }
    }
    WithoutOne(l.uplinks, UplinkIs(l.uplinks[i].id), i);
  }

  lemma UplinkDeletedLoses(l: Lab, i: nat)
    requires IdentityOk(l) && i < |l.uplinks|
    ensures Loses(l, UplinkDeleted(l, l.uplinks[i].id), UP, i)
  {
    hide IdentityOk, Without, CutUplink;
    UplinksWithout(l, i);
    forall h | 0 <= h < |l.switches|
      ensures CutUplink(l.switches[h], l.uplinks[i].id).id == l.switches[h].id
      ensures CutUplink(l.switches[h], l.uplinks[i].id).name == l.switches[h].name
    {
      CutUplinkIs(l.switches[h], l.uplinks[i].id);
    }
  }

  lemma UplinkDeletedKeepsNetworks(l: Lab, i: nat)
    requires IdentityOk(l) && SwitchesOk(l) && NetworksOk(l) && i < |l.uplinks|
    ensures var m := UplinkDeleted(l, l.uplinks[i].id); SwitchesOk(m) && NetworksOk(m)
  {
    hide IdentityOk, Without, SwitchOk, Has, Loses, SubWorkloads, NicsOk, CutUplink;
    var id := l.uplinks[i].id;
    var m := UplinkDeleted(l, id);
    assert NodeAt(l, UP, i).id == id;
    UplinkDeletedLoses(l, i);
    forall j: Kind, x: string { LosesFind(l, m, UP, i, j, x); }
    forall h | 0 <= h < |l.switches|
      ensures SwitchOk(m, m.switches[h])
    {
      CutSwitchOk(l, m, l.switches[h], id);
    }
    forall nic | NicOk(l, nic)
      ensures NicOk(m, SubNic(nic, UplinkRef, id, ""))
    {
    }
    ClearedNics(l, m, l.vms, UplinkRef, id);
    ClearedNics(l, m, l.containers, UplinkRef, id);
  }

  lemma UplinkDeletedDhcpSwitch(l: Lab, i: nat, switch: string)
    requires IdentityOk(l) && SwitchesOk(l) && i < |l.uplinks| && DhcpSwitchOk(l, switch)
    ensures DhcpSwitchOk(UplinkDeleted(l, l.uplinks[i].id), switch)
  {
    hide IdentityOk, Without, SwitchUplinks, SubWorkloads, SwitchOk, CutUplink, Loses;
    var id := l.uplinks[i].id;
    var m := UplinkDeleted(l, id);
    assert NodeAt(l, UP, i).id == id;
    UplinkDeletedLoses(l, i);
    UplinksWithout(l, i);
    LosesFind(l, m, UP, i, SW, switch);
    var h := Find(l, SW, switch);
    if h < |l.switches| {
      assert m.switches[h] == CutUplink(l.switches[h], id);
      CutUplinkIs(l.switches[h], id);
      forall u { LosesFind(l, m, UP, i, UP, u); }
      CutSwitchOk(l, m, l.switches[h], id);
      forall u | u in SwitchUplinks(m.switches[h])
        ensures var j := Find(m, UP, u); j < |m.uplinks| ==> m.uplinks[j].mode != "macnat"
      {
        var j := Find(m, UP, u);
        assert j < |m.uplinks| ==> m.uplinks[j] == l.uplinks[Before(j, i)];
      }
    }
  }

  lemma UplinkDeletedDhcp(l: Lab, i: nat)
    requires IdentityOk(l) && SwitchesOk(l) && DhcpOk(l) && i < |l.uplinks|
    ensures DhcpOk(UplinkDeleted(l, l.uplinks[i].id))
  {
    hide IdentityOk, SwitchesOk, Without, DhcpSwitchOk, SubWorkloads, DhcpEnd, CutUplinks;
    var id := l.uplinks[i].id;
    var m := UplinkDeleted(l, id);
    assert id != "" by { FindsNode(l, UP, i); assert NodeAt(l, UP, i).id == id; }
    forall j | 0 <= j < |l.containers| && IsDhcp(l.containers[j])
      ensures SubNicSeq(l.containers[j].nics, UplinkRef, id, "") == l.containers[j].nics
      ensures DhcpSwitchOk(m, l.containers[j].nics[0].switch)
    {
      UplinkDeletedDhcpSwitch(l, i, l.containers[j].nics[0].switch);
    }
    ClearedKeepsDhcp(l, m, UplinkRef, id);
  }

  lemma UplinkDeleteKeepsValid(l: Lab, i: nat, resolve: PathFn)
    requires Valid(l, resolve) && i < |l.uplinks|
    ensures Valid(UplinkDeleted(l, l.uplinks[i].id), resolve)
  {
    hide IdentityOk, SwitchesOk, NetworksOk, DhcpOk, LinksOk, DisksOk, LayoutOk, Loses, Without, SubWorkloads, CutUplinks;
    var m := UplinkDeleted(l, l.uplinks[i].id);
    assert NodeAt(l, UP, i).id == l.uplinks[i].id;
    UplinkDeletedLoses(l, i);
    LosesIdentity(l, m, UP, i);
    UplinkDeletedKeepsNetworks(l, i);
    UplinkDeletedDhcp(l, i);
    ClearedKeepsLinks(l, m, UplinkRef, l.uplinks[i].id);
    ClearedKeepsDisks(l, m, UplinkRef, l.uplinks[i].id, resolve);
    LosesLayout(l, m, UP, i);
  }

  // ---------------------------------------------------------------- main results

  /**
   Every successful deletion removes the node and all references to it, and keeps a valid lab valid
   except that of a switch a DHCP service uses.
   */
  lemma DeleteValidExactly(l: Lab, k: Kind, ref: string, resolve: PathFn)
    requires Valid(l, resolve) && DeleteNode(l, k, ref).Some?
    ensures Valid(DeleteNode(l, k, ref).value, resolve) <==> !(k == SW && UsedByDhcp(l, Resolve(l, SW, ref).id))
  {
    hide Valid, Resolve, WorkloadDeleted, SwitchDeleted, UplinkDeleted, UsedByDhcp;
    var id := Resolve(l, k, ref).id;
    ResolvedNodeExists(l, k, ref);
    var i := Find(l, k, id);
    assert NodeAt(l, k, i).id == id;
    match k
    case VM => WorkloadDeleteKeepsValid(l, VM, i, resolve);
    case CT => WorkloadDeleteKeepsValid(l, CT, i, resolve);
    case SW => SwitchDeleteValidExactly(l, i, resolve);
    case UP => UplinkDeleteKeepsValid(l, i, resolve);
  }

  /** Nothing in the lab refers to a node of this kind and id. */
  ghost predicate NoMention(l: Lab, k: Kind, id: string) {
    && !Has(l, k, id)
    && (forall w, nic | (w in l.vms || w in l.containers) && nic in w.nics ::
          (k == SW ==> nic.switch != id) && (k == UP ==> nic.uplink != id))
    && (forall sw | sw in l.switches && k == UP :: id !in SwitchUplinks(sw))
    && (forall x | x in l.links :: !OfNode(x.from, KindText(k), id) && !OfNode(x.to, KindText(k), id))
    && (forall d | d in l.disks :: d.attachedType != KindText(k) || d.attachedTo != id)
    && id !in l.positions
    && (forall x | x in l.layoutLinks :: !AtNode(KindText(k), id)(x))
  }

  lemma {:induction false} NoneLeft<T>(s: seq<T>, drop: T -> bool)
    ensures forall x | x in Without(s, drop) :: !drop(x)
    ensures forall h | 0 <= h < |Without(s, drop)| :: !drop(Without(s, drop)[h])
  {
    forall x | x in Without(s, drop) ensures !drop(x) { InWithout(s, drop, x); }
  }

  lemma NodesGone(l: Lab, k: Kind, id: string)
    ensures !Has(Deleted(l, k, id), k, id)
  {
    hide ReleaseAll, WithoutNode, CutUplinks;
    NoneLeft(l.vms, WorkloadIs(id));
    NoneLeft(l.containers, WorkloadIs(id));
    NoneLeft(l.switches, SwitchIs(id));
    NoneLeft(l.uplinks, UplinkIs(id));
  }

  lemma NicRefsGone(ws: seq<Workload>, field: NicField, id: string)
    requires id != ""
    ensures forall w, nic | w in SubWorkloads(ws, field, id, "") && nic in w.nics ::
      if field == SwitchRef then nic.switch != id else nic.uplink != id
  {
  }

  /** A deletion leaves no reference to the node anywhere, whether or not the result is valid. */
  lemma DeletedIsForgotten(l: Lab, k: Kind, ref: string, resolve: PathFn)
    requires Valid(l, resolve) && DeleteNode(l, k, ref).Some?
    ensures NoMention(DeleteNode(l, k, ref).value, k, Resolve(l, k, ref).id)
  {
    hide Valid, Resolve, SubWorkloads, CutUplink, Without, WithoutNode, Has;
    var id := Resolve(l, k, ref).id;
    var m := Deleted(l, k, id);
    ValidParts(l, resolve);
    ResolvedId(l, k, ref);
    NodesGone(l, k, id);
    NoneLeft(l.layoutLinks, AtNode(KindText(k), id));
    NicRefsGone(l.vms, if k == SW then SwitchRef else UplinkRef, id);
    NicRefsGone(l.containers, if k == SW then SwitchRef else UplinkRef, id);
    forall sw | sw in m.switches && k == UP
      ensures id !in SwitchUplinks(sw)
    {
      var h :| 0 <= h < |m.switches| && m.switches[h] == sw;
      CutUplinkIs(l.switches[h], id);
    }
    forall x | x in m.links
      ensures !OfNode(x.from, KindText(k), id) && !OfNode(x.to, KindText(k), id)
    {
      NoLinkLeft(l, k, id, x);
    }
    forall d | d in m.disks
      ensures d.attachedType != KindText(k) || d.attachedTo != id
    {
      NoDiskLeft(l, k, id, d, resolve);
    }
  }

  lemma ValidParts(l: Lab, resolve: PathFn)
    requires Valid(l, resolve)
    ensures IdentityOk(l) && LinksOk(l) && DisksOk(l, resolve)
  {
  }

  lemma NoLinkLeft(l: Lab, k: Kind, id: string, x: Link)
    requires LinksOk(l) && x in Deleted(l, k, id).links
    ensures !OfNode(x.from, KindText(k), id) && !OfNode(x.to, KindText(k), id)
  {
    hide LinksApart, Without, ReleaseAll, SubWorkloads, CutUplinks;
    InWithoutNode(l.links, KindText(k), id, x);
    if k == SW || k == UP {
      assert EndpointOk(l, x.from) && EndpointOk(l, x.to);
    }
  }

  lemma NoDiskLeft(l: Lab, k: Kind, id: string, d: Disk, resolve: PathFn)
    requires DisksOk(l, resolve) && d in Deleted(l, k, id).disks
    ensures d.attachedType != KindText(k) || d.attachedTo != id
  {
    hide Without, WithoutNode, SubWorkloads, CutUplinks, BaseOk, ValidId, SameTarget;
    if k == SW || k == UP {
      var h :| 0 <= h < |l.disks| && l.disks[h] == d;
      assert DiskOk(l, l.disks[h], resolve);
    }
  }

  lemma DisconnectExternalKeepsValid(l: Lab, ref: string, uplink: string, resolve: PathFn)
    requires Valid(l, resolve) && DisconnectExternal(l, ref, uplink).Some?
    ensures Valid(DisconnectExternal(l, ref, uplink).value, resolve)
  {
    hide Valid, Resolve, WithUplinks, Without, SwitchUplinks;
    var i := Find(l, SW, Resolve(l, SW, ref).id);
    var ids := SwitchUplinks(l.switches[i]);
    var next := if uplink == "" then [] else Without(ids, IdIs(Resolve(l, UP, uplink).id));
    forall u | u in next
      ensures u in ids
    {
      InWithout(ids, IdIs(Resolve(l, UP, uplink).id), u);
    }
    NarrowingKeepsValid(l, i, next, resolve);
  }

  /** The switch keeps exactly the uplinks other than the one named, or none if none is named. */
  lemma DisconnectedUplinks(l: Lab, ref: string, uplink: string, u: string)
    requires DisconnectExternal(l, ref, uplink).Some?
    ensures var i := Find(l, SW, Resolve(l, SW, ref).id); var m := DisconnectExternal(l, ref, uplink).value;
      && i < |l.switches| == |m.switches|
      && (u in SwitchUplinks(m.switches[i]) <==>
            u in SwitchUplinks(l.switches[i]) && uplink != "" && u != Resolve(l, UP, uplink).id)
      && forall h | 0 <= h < |l.switches| && h != i :: m.switches[h] == l.switches[h]
  {
    hide Resolve, WithUplinks, Without, SwitchUplinks;
    var i := Find(l, SW, Resolve(l, SW, ref).id);
    var ids := SwitchUplinks(l.switches[i]);
    if uplink == "" {
      UplinksAre(l.switches[i], [], u);
    } else {
      var id := Resolve(l, UP, uplink).id;
      InWithout(ids, IdIs(id), u);
      UplinksAre(l.switches[i], Without(ids, IdIs(id)), u);
      InSwitchUplinks(l.switches[i], u);
    }
  }

  lemma NarrowingKeepsValid(l: Lab, i: nat, ids: seq<string>, resolve: PathFn)
    requires Valid(l, resolve) && i < |l.switches| && forall u | u in ids :: u in SwitchUplinks(l.switches[i])
    ensures Valid(l.(switches := l.switches[i := WithUplinks(l.switches[i], ids)]), resolve)
  {
    hide SwitchUplinks, IdentityOk, DhcpOk, LinksOk, DisksOk, LayoutOk, NetworksOk, SwitchesOk;
    var m := l.(switches := l.switches[i := WithUplinks(l.switches[i], ids)]);
    NarrowingKeepsNodes(l, i, ids);
    NarrowingKeepsSwitches(l, i, ids);
    NarrowingKeepsDhcp(l, i, ids);
    assert LinksOk(m) by { NarrowingKeepsLinks(l, m); }
    assert DisksOk(m, resolve) by { NarrowingKeepsDisks(l, m, resolve); }
  }

  lemma NarrowingKeepsNodes(l: Lab, i: nat, ids: seq<string>)
    requires i < |l.switches| && IdentityOk(l) && LayoutOk(l) && NetworksOk(l)
    ensures var m := l.(switches := l.switches[i := WithUplinks(l.switches[i], ids)]);
      IdentityOk(m) && LayoutOk(m) && NetworksOk(m) && forall k: Kind, id: string :: Find(m, k, id) == Find(l, k, id)
  {
    hide IdentityOk, LayoutOk, NetworksOk;
    SameNodesKeep(l, l.(switches := l.switches[i := WithUplinks(l.switches[i], ids)]));
  }

  lemma SameNodesKeep(l: Lab, m: Lab)
    requires m == l.(switches := m.switches) && IdentityOk(l) && LayoutOk(l) && NetworksOk(l) && |m.switches| == |l.switches|
    requires forall h | 0 <= h < |l.switches| :: m.switches[h].id == l.switches[h].id && m.switches[h].name == l.switches[h].name
    ensures IdentityOk(m) && LayoutOk(m) && NetworksOk(m) && forall k: Kind, id: string :: Find(m, k, id) == Find(l, k, id)
  {
    hide Clash, NameOk;
    forall k: Kind ensures Count(m, k) == Count(l, k) {}
    forall k: Kind, i: nat | i < Count(l, k) ensures NodeAt(m, k, i) == NodeAt(l, k, i) {}
    forall k: Kind, id: string
      ensures Find(m, k, id) == Find(l, k, id)
    {
      SameFind(l, m, k, id);
    }
  }

  lemma NarrowingKeepsSwitches(l: Lab, i: nat, ids: seq<string>)
    requires i < |l.switches| && SwitchesOk(l) && forall u | u in ids :: u in SwitchUplinks(l.switches[i])
    ensures SwitchesOk(l.(switches := l.switches[i := WithUplinks(l.switches[i], ids)]))
  {
    hide SwitchUplinks, WithUplinks;
    var m := l.(switches := l.switches[i := WithUplinks(l.switches[i], ids)]);
    forall u ensures Has(m, UP, u) == Has(l, UP, u) { SameFind(l, m, UP, u); }
    assert SwitchOk(l, l.switches[i]);
    NarrowedSwitch(l, m, l.switches[i], ids);
    forall h | 0 <= h < |l.switches| && h != i
      ensures SwitchOk(m, m.switches[h])
    {
      assert SwitchOk(l, l.switches[h]);
    }
  }

  lemma NarrowingKeepsDhcp(l: Lab, i: nat, ids: seq<string>)
    requires i < |l.switches| && DhcpOk(l) && forall u | u in ids :: u in SwitchUplinks(l.switches[i])
    ensures DhcpOk(l.(switches := l.switches[i := WithUplinks(l.switches[i], ids)]))
  {
    hide SwitchUplinks;
    var m := l.(switches := l.switches[i := WithUplinks(l.switches[i], ids)]);
    forall u { UplinksAre(l.switches[i], ids, u); }
    forall id | DhcpSwitchOk(l, id)
      ensures DhcpSwitchOk(m, id)
    {
      NarrowingKeepsDhcpSwitch(l, i, ids, id);
    }
    forall e ensures DhcpEnd(m, e) == DhcpEnd(l, e) {}
  }

  lemma NarrowingKeepsDhcpSwitch(l: Lab, i: nat, ids: seq<string>, id: string)
    requires i < |l.switches| && DhcpSwitchOk(l, id) && forall u | u in ids :: u in SwitchUplinks(l.switches[i])
    ensures DhcpSwitchOk(l.(switches := l.switches[i := WithUplinks(l.switches[i], ids)]), id)
  {
    hide SwitchUplinks;
    var m := l.(switches := l.switches[i := WithUplinks(l.switches[i], ids)]);
    forall u { UplinksAre(l.switches[i], ids, u); }
    SameFind(l, m, SW, id);
    forall u { SameFind(l, m, UP, u); }
  }

  lemma NarrowingKeepsLinks(l: Lab, m: Lab)
    requires LinksOk(l) && m == l.(switches := m.switches)
    ensures LinksOk(m)
  {
    hide FindWorkload, LinksApart;
    forall e ensures EndpointOk(m, e) == EndpointOk(l, e) {}
  }

  lemma NarrowingKeepsDisks(l: Lab, m: Lab, resolve: PathFn)
    requires DisksOk(l, resolve) && m == l.(switches := m.switches)
    ensures DisksOk(m, resolve)
  {
    hide FindWorkload, BaseOk, ValidId, SameTarget;
    forall i | 0 <= i < |l.disks|
      ensures DiskOk(m, m.disks[i], resolve)
    {
      assert DiskOk(l, l.disks[i], resolve);
    }
  }
}
