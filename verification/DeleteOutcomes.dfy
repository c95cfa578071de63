/** What a deletion leaves of a lab, part by part, and what renaming a node to its own id does: nothing else changes. */
module DeleteOutcomes {
  import opened Numerals
  import opened LabModel
  import opened Lookup
  import opened NetworkLinks
  import opened Disks
  import opened Renaming
  import opened RenameEffects
  import opened Relabelling
  import opened Deletes
  import opened DeleteEffects
  import opened DiskOutcomes
  import opened NetworkOutcomes

  // ---------------------------------------------------------------- parts

  /** The same elements in the same order but for element i. */
  ghost predicate Lacks<T>(before: seq<T>, after: seq<T>, i: nat) {
    && i < |before| && |after| == |before| - 1
    && forall h | 0 <= h < |before| && h != i :: after[if h < i then h else h - 1] == before[h]
  }

  /** The layout forgets the node: its place, and the layout links that end in it. */
  ghost predicate LayoutForgets(l: Lab, m: Lab, typ: string, id: string) {
    && m.positions == l.positions - {id}
    && forall x :: x in m.layoutLinks <==> x in l.layoutLinks && x.from != LayoutEnd(typ, id) && x.to != LayoutEnd(typ, id)
  }

  ghost predicate LinksForget(before: seq<Link>, after: seq<Link>, typ: string, id: string) {
    forall x :: x in after <==> x in before && !(x.from.typ == typ && x.from.id == id) && !(x.to.typ == typ && x.to.id == id)
  }

  /** The same workloads; their interfaces lose exactly the attachment to this switch, or to this uplink. */
  ghost predicate NicsForget(before: seq<Workload>, after: seq<Workload>, switch: string, uplink: string) {
    && |after| == |before|
    && (forall h | 0 <= h < |before| :: after[h] == before[h].(nics := after[h].nics) && |after[h].nics| == |before[h].nics|)
    && forall h, j | 0 <= h < |before| && 0 <= j < |before[h].nics| ::
         after[h].nics[j] == Nic(if before[h].nics[j].switch == switch then "" else before[h].nics[j].switch,
                                 if before[h].nics[j].uplink == uplink then "" else before[h].nics[j].uplink, before[h].nics[j].mac)
  }

  /** The same switches; each loses exactly this uplink, and with its last one MACNAT bridging. */
  ghost predicate SwitchesForget(before: seq<Switch>, after: seq<Switch>, uplink: string) {
    && |after| == |before|
    && forall h | 0 <= h < |before| :: SwitchForgets(before[h], after[h], uplink)
  }

  ghost predicate SwitchForgets(sw: Switch, after: Switch, uplink: string) {
    && after.id == sw.id && after.name == sw.name
    && (forall u :: u in SwitchUplinks(after) <==> u in SwitchUplinks(sw) && u != uplink)
    && after.mode == if sw.mode == "macnat-bridge" && (forall u | u in SwitchUplinks(sw) :: u == uplink) then "bridge" else sw.mode
  }

  // ---------------------------------------------------------------- workloads

  /** Deleting a VM or a container takes it, its links and its place away and releases its disks. */
  ghost predicate WorkloadGone(l: Lab, m: Lab, k: Kind, i: nat) {
    && IsWorkload(k) && i < Count(l, k)
    && var typ, id := KindText(k), NodeAt(l, k, i).id;
      && (if k == VM then Lacks(l.vms, m.vms, i) && m.containers == l.containers else Lacks(l.containers, m.containers, i) && m.vms == l.vms)
      && m.switches == l.switches && m.uplinks == l.uplinks
      && LinksForget(l.links, m.links, typ, id) && ReleasedFrom(l.disks, m.disks, typ, id) && LayoutForgets(l, m, typ, id)
  }

  lemma RemovedLacks<T>(s: seq<T>, i: nat)
    requires i < |s|
    ensures Lacks(s, RemoveAt(s, i), i)
  {
  }

  lemma Forgotten(l: Lab, k: Kind, id: string)
    ensures LayoutForgets(l, Unplaced(l, k, id), KindText(k), id)
  {
    hide Without;
    forall x { InWithout(l.layoutLinks, AtNode(KindText(k), id), x); }
  }

  lemma WorkloadIsGone(l: Lab, k: Kind, i: nat)
    requires IdentityOk(l) && IsWorkload(k) && i < Count(l, k)
    ensures WorkloadGone(l, Deleted(l, k, NodeAt(l, k, i).id), k, i)
  {
    hide IdentityOk, Without, WithoutNode, Lacks, RemoveAt, Unplaced, LayoutForgets;
    var typ, id := KindText(k), Workloads(l, k)[i].id;
    assert NodeAt(l, k, i).id == id;
    WorkloadsWithout(l, k, i);
    RemovedLacks(Workloads(l, k), i);
    forall x { InWithoutNode(l.links, typ, id, x); }
    var left := WithWorkloads(l, k, Without(Workloads(l, k), WorkloadIs(id))).(links := WithoutNode(l.links, typ, id), disks := ReleaseAll(l.disks, typ, id));
    Forgotten(left, k, id);
    OnlyLayout(left, k, id);
    SameLayoutParts(l, left, Unplaced(left, k, id), typ, id);
  }

  lemma OnlyLayout(l: Lab, k: Kind, id: string)
    ensures var m := Unplaced(l, k, id); m == l.(positions := m.positions, layoutLinks := m.layoutLinks)
  {
  }

  lemma SameLayoutParts(l: Lab, left: Lab, m: Lab, typ: string, id: string)
    requires left.positions == l.positions && left.layoutLinks == l.layoutLinks && LayoutForgets(left, m, typ, id)
    ensures LayoutForgets(l, m, typ, id)
  {
  }

  // ---------------------------------------------------------------- switches and uplinks

  ghost predicate SwitchGone(l: Lab, m: Lab, i: nat) {
    && i < |l.switches|
    && var id := l.switches[i].id;
      && Lacks(l.switches, m.switches, i) && m.uplinks == l.uplinks && m.links == l.links && m.disks == l.disks
      && NicsForget(l.vms, m.vms, id, "") && NicsForget(l.containers, m.containers, id, "") && LayoutForgets(l, m, "switch", id)
  }

  ghost predicate UplinkGone(l: Lab, m: Lab, i: nat) {
    && i < |l.uplinks|
    && var id := l.uplinks[i].id;
      && Lacks(l.uplinks, m.uplinks, i) && SwitchesForget(l.switches, m.switches, id) && m.links == l.links && m.disks == l.disks
      && NicsForget(l.vms, m.vms, "", id) && NicsForget(l.containers, m.containers, "", id) && LayoutForgets(l, m, "external", id)
  }

  lemma SubbedForget(ws: seq<Workload>, field: NicField, id: string)
    ensures NicsForget(ws, SubWorkloads(ws, field, id, ""), if field == SwitchRef then id else "", if field == SwitchRef then "" else id)
  {
  }

  lemma SwitchIsGone(l: Lab, i: nat)
    requires IdentityOk(l) && i < |l.switches|
    ensures SwitchGone(l, Deleted(l, SW, l.switches[i].id), i)
  {
    hide IdentityOk, Without, Lacks, RemoveAt, Unplaced, LayoutForgets, NicsForget, SubWorkloads;
    var id := l.switches[i].id;
    SwitchesWithout(l, i);
    RemovedLacks(l.switches, i);
    SubbedForget(l.vms, SwitchRef, id);
    SubbedForget(l.containers, SwitchRef, id);
    var left := SubNics(l.(switches := Without(l.switches, SwitchIs(id))), SwitchRef, id, "");
    Forgotten(left, SW, id);
    OnlyLayout(left, SW, id);
    SameLayoutParts(l, left, Unplaced(left, SW, id), "switch", id);
  }

  lemma CutsForget(l: Lab, id: string)
    requires SwitchesOk(l) && id != ""
    ensures SwitchesForget(l.switches, CutUplinks(l.switches, id), id)
  {
    hide SwitchUplinks, CutUplink, SwitchOk;
    forall h | 0 <= h < |l.switches|
      ensures SwitchForgets(l.switches[h], CutUplink(l.switches[h], id), id)
    {
      assert SwitchOk(l, l.switches[h]);
      CutUplinkIs(l.switches[h], id);
      ModeAfterCut(l, l.switches[h], id);
    }
  }

  lemma UplinkIsGone(l: Lab, i: nat)
    requires IdentityOk(l) && SwitchesOk(l) && i < |l.uplinks|
    ensures UplinkGone(l, Deleted(l, UP, l.uplinks[i].id), i)
  {
    hide IdentityOk, Without, Lacks, RemoveAt, Unplaced, LayoutForgets, NicsForget, SubWorkloads, CutUplinks, SwitchesForget, SwitchesOk;
    var id := l.uplinks[i].id;
    FindsNode(l, UP, i);
    assert NodeAt(l, UP, i).id == id;
    UplinksWithout(l, i);
    RemovedLacks(l.uplinks, i);
    CutsForget(l, id);
    SubbedForget(l.vms, UplinkRef, id);
    SubbedForget(l.containers, UplinkRef, id);
    var left := SubNics(l.(uplinks := Without(l.uplinks, UplinkIs(id)), switches := CutUplinks(l.switches, id)), UplinkRef, id, "");
    Forgotten(left, UP, id);
    OnlyLayout(left, UP, id);
    SameLayoutParts(l, left, Unplaced(left, UP, id), "external", id);
  }

  // ---------------------------------------------------------------- the operation

  ghost predicate Gone(l: Lab, m: Lab, k: Kind, i: nat) {
    match k
    case VM => WorkloadGone(l, m, VM, i)
    case CT => WorkloadGone(l, m, CT, i)
    case SW => SwitchGone(l, m, i)
    case UP => UplinkGone(l, m, i)
  }

  /** A node is deleted exactly if the reference leads to one; it goes with everything that referred to it, and the rest stays as it was. */
  lemma DeletesNodeExactly(l: Lab, k: Kind, ref: string)
    requires IdentityOk(l) && SwitchesOk(l)
    ensures DeleteNode(l, k, ref).Some? <==> exists i: nat :: At(l, k, ref, i)
    ensures forall i: nat | At(l, k, ref, i) && DeleteNode(l, k, ref).Some? :: Gone(l, DeleteNode(l, k, ref).value, k, i)
  {
    hide IdentityOk, SwitchesOk, Resolve, Deleted, WorkloadGone, SwitchGone, UplinkGone;
    AtIs(l, k, ref);
    if Resolve(l, k, ref).Found? {
      var i := Find(l, k, Resolve(l, k, ref).id);
      match k
      case VM => WorkloadIsGone(l, VM, i);
      case CT => WorkloadIsGone(l, CT, i);
      case SW => SwitchIsGone(l, i);
      case UP => UplinkIsGone(l, i);
    }
  }

  // ---------------------------------------------------------------- renaming to the own id

  /** Renaming a node to its own id drops a name that only repeats the id, and does nothing else. */
  lemma OwnIdDropsName(l: Lab, k: Kind, id: string, j: Kind, h: nat)
    requires IdentityOk(l) && h < Count(l, j)
    ensures var m := RenameNode(l, k, id, id).value;
      && SameButNames(l, m) && Count(m, j) == Count(l, j)
      && NodeAt(m, j, h) == if j == k && NodeAt(l, j, h) == NodeName(id, id) then NodeName(id, "") else NodeAt(l, j, h)
  {
    hide IdentityOk, SameButNames;
    RedundantNamesGo(l, k, id, 0);
    ClearedNames(l, k, id, 0, j, h);
  }

  lemma {:induction false} ClearedNames(l: Lab, k: Kind, id: string, i: nat, j: Kind, h: nat)
    requires i <= Count(l, k) && h < Count(l, j)
    ensures var m := ClearRedundant(l, k, id, i);
      && Count(m, j) == Count(l, j)
      && NodeAt(m, j, h) == if j == k && h >= i && NodeAt(l, j, h) == NodeName(id, id) then NodeName(id, "") else NodeAt(l, j, h)
    decreases Count(l, k) - i
  {
    if i < Count(l, k) {
      if NodeAt(l, k, i) == NodeName(id, id) {
        var m := SetNode(l, k, i, NodeName(id, ""));
        ClearedNames(m, k, id, i + 1, j, h);
      } else {
        ClearedNames(l, k, id, i + 1, j, h);
      }
    }
  }
}
