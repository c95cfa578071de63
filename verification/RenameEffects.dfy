/** The guarantees of a rename: a valid lab stays valid, and renaming back restores an unnamed node's lab. */
module RenameEffects {
  import opened Numerals
  import opened LabModel
  import opened Lookup
  import opened NetworkLinks
  import opened Renaming
  import opened Relabelling

  // ---------------------------------------------------------------- dropping names

  predicate FewerNames(n: NodeName, was: NodeName) {
    n.id == was.id && n.name in {"", was.name}
  }

  /** Only names differ, and only by being dropped. */
  predicate SameButNames(l: Lab, m: Lab) {
    && m.links == l.links && m.disks == l.disks && m.positions == l.positions && m.layoutLinks == l.layoutLinks
    && |m.vms| == |l.vms| && |m.containers| == |l.containers| && |m.switches| == |l.switches| && |m.uplinks| == |l.uplinks|
    && (forall i | 0 <= i < |l.vms| :: m.vms[i] == l.vms[i].(name := m.vms[i].name) && m.vms[i].name in {"", l.vms[i].name})
    && (forall i | 0 <= i < |l.containers| ::
          m.containers[i] == l.containers[i].(name := m.containers[i].name) && m.containers[i].name in {"", l.containers[i].name})
    && (forall i | 0 <= i < |l.switches| ::
          m.switches[i] == l.switches[i].(name := m.switches[i].name) && m.switches[i].name in {"", l.switches[i].name})
    && (forall i | 0 <= i < |l.uplinks| ::
          m.uplinks[i] == l.uplinks[i].(name := m.uplinks[i].name) && m.uplinks[i].name in {"", l.uplinks[i].name})
  }

  lemma NodesButNames(l: Lab, m: Lab)
    requires SameButNames(l, m)
    ensures forall k: Kind :: Count(m, k) == Count(l, k)
    ensures forall k: Kind, i: nat | i < Count(l, k) :: FewerNames(NodeAt(m, k, i), NodeAt(l, k, i))
    ensures forall k: Kind, id: string :: Find(m, k, id) == Find(l, k, id)
  {
    forall k: Kind, id: string
      ensures Find(m, k, id) == Find(l, k, id)
    {
      var f, g := Find(l, k, id), Find(m, k, id);
      assert f < Count(l, k) ==> FewerNames(NodeAt(m, k, f), NodeAt(l, k, f));
      assert g < Count(l, k) ==> FewerNames(NodeAt(m, k, g), NodeAt(l, k, g));
    }
  }

  lemma FewerNamesClashLess(a: NodeName, b: NodeName, wasA: NodeName, wasB: NodeName)
    requires FewerNames(a, wasA) && FewerNames(b, wasB) && Clash(a, b)
    ensures Clash(wasA, wasB)
  {
    hide Fold;
  }

  lemma FewerNamesKeepsIdentity(l: Lab, m: Lab)
    requires SameButNames(l, m) && IdentityOk(l)
    ensures IdentityOk(m)
  {
    hide SameButNames, Clash, ValidNodeId, EqualFold;
    NodesButNames(l, m);
    forall k: Kind, i: nat | i < Count(l, k)
      ensures NameOk(NodeAt(m, k, i))
    {
      assert NameOk(NodeAt(l, k, i)) && FewerNames(NodeAt(m, k, i), NodeAt(l, k, i));
    }
    forall j: Kind, h: nat, k: Kind, i: nat | h < Count(l, j) && i < Count(l, k) && (j != k || h != i)
      ensures !Clash(NodeAt(m, j, h), NodeAt(m, k, i))
    {
      assert !Clash(NodeAt(l, j, h), NodeAt(l, k, i));
      if Clash(NodeAt(m, j, h), NodeAt(m, k, i)) {
        FewerNamesClashLess(NodeAt(m, j, h), NodeAt(m, k, i), NodeAt(l, j, h), NodeAt(l, k, i));
      }
    }
  }

  lemma SameUplinks(sw: Switch, was: Switch)
    requires sw.uplinks == was.uplinks && sw.uplink == was.uplink
    ensures SwitchUplinks(sw) == SwitchUplinks(was)
  {
  }

  lemma FewerNamesKeepsNetworks(l: Lab, m: Lab)
    requires SameButNames(l, m) && SwitchesOk(l) && NetworksOk(l)
    ensures SwitchesOk(m) && NetworksOk(m)
  {
    hide SwitchUplinks;
    NodesButNames(l, m);
    forall i | 0 <= i < |l.switches|
      ensures SwitchOk(m, m.switches[i])
    {
      assert SwitchOk(l, l.switches[i]);
      SameUplinks(m.switches[i], l.switches[i]);
    }
    forall nic: Nic
      ensures NicOk(m, nic) == NicOk(l, nic)
    {
    }
  }

  lemma FewerNamesKeepsDhcpSwitch(l: Lab, m: Lab, id: string)
    requires SameButNames(l, m)
    ensures DhcpSwitchOk(m, id) == DhcpSwitchOk(l, id)
  {
    hide SwitchUplinks;
    NodesButNames(l, m);
    var i := Find(l, SW, id);
    if i < |l.switches| { SameUplinks(m.switches[i], l.switches[i]); }
    forall u ensures Find(m, UP, u) == Find(l, UP, u) {}
  }

  lemma FewerNamesKeepsDhcp(l: Lab, m: Lab)
    requires SameButNames(l, m) && DhcpOk(l)
    ensures DhcpOk(m)
  {
    hide DhcpSwitchOk;
    forall id: string
      ensures DhcpSwitchOk(m, id) == DhcpSwitchOk(l, id)
    {
      FewerNamesKeepsDhcpSwitch(l, m, id);
    }
    forall e: Endpoint
      ensures DhcpEnd(m, e) == DhcpEnd(l, e)
    {
    }
    assert forall i | 0 <= i < |m.containers| && IsDhcp(m.containers[i]) ::
      DhcpSwitchOk(m, m.containers[i].nics[0].switch) == DhcpSwitchOk(l, l.containers[i].nics[0].switch);
  }

  lemma FewerNamesKeepsLinks(l: Lab, m: Lab)
    requires SameButNames(l, m) && LinksOk(l)
    ensures LinksOk(m)
  {
    hide EndpointOk, SameButNames, LinksApart;
    assert m.links == l.links by { SameLinksToo(l, m); }
    forall e | EndpointOk(l, e)
      ensures EndpointOk(m, e)
    {
      FewerNamesKeepsEndpoint(l, m, e);
    }
  }

  lemma SameLinksToo(l: Lab, m: Lab)
    requires SameButNames(l, m)
    ensures m.links == l.links && m.disks == l.disks
  {
  }

  lemma FewerNamesKeepsEndpoint(l: Lab, m: Lab, e: Endpoint)
    requires SameButNames(l, m) && EndpointOk(l, e)
    ensures EndpointOk(m, e)
  {
    SameFindWorkload(Group(l, e.typ), Group(m, e.typ), e.id);
  }

  lemma FewerNamesKeepsDisks(l: Lab, m: Lab, resolve: PathFn)
    requires SameButNames(l, m) && DisksOk(l, resolve)
    ensures DisksOk(m, resolve)
  {
    hide BaseOk, ValidId, SameTarget;
    forall i | 0 <= i < |l.disks|
      ensures DiskOk(m, m.disks[i], resolve)
    {
      var d := l.disks[i];
      assert DiskOk(l, d, resolve);
      SameFindWorkload(Group(l, d.attachedType), Group(m, d.attachedType), d.attachedTo);
    }
  }

  lemma FewerNamesKeepsValid(l: Lab, m: Lab, resolve: PathFn)
    requires SameButNames(l, m) && Valid(l, resolve)
    ensures Valid(m, resolve)
  {
    FewerNamesKeepsIdentity(l, m);
    FewerNamesKeepsNetworks(l, m);
    FewerNamesKeepsDhcp(l, m);
    FewerNamesKeepsLinks(l, m);
    FewerNamesKeepsDisks(l, m, resolve);
    assert LayoutOk(m) by { NodesButNames(l, m); }
  }

  lemma {:induction false} RedundantNamesGo(l: Lab, k: Kind, id: string, i: nat)
    requires i <= Count(l, k)
    ensures SameButNames(l, ClearRedundant(l, k, id, i))
    decreases Count(l, k) - i
  {
    hide SetNode, SameButNames;
    if i == Count(l, k) {
      SameAsItself(l);
    } else {
      if NodeAt(l, k, i) == NodeName(id, id) {
        var m := SetNode(l, k, i, NodeName(id, ""));
        UnnamedIsSameButNames(l, k, i);
        RedundantNamesGo(m, k, id, i + 1);
        SameButNamesTransitive(l, m, ClearRedundant(m, k, id, i + 1));
      } else {
        RedundantNamesGo(l, k, id, i + 1);
      }
    }
  }

  lemma SameAsItself(l: Lab)
    ensures SameButNames(l, l)
  {
  }

  lemma SameButNamesTransitive(l: Lab, m: Lab, n: Lab)
    requires SameButNames(l, m) && SameButNames(m, n)
    ensures SameButNames(l, n)
  {
  }

  // ---------------------------------------------------------------- the new id is unique

  lemma UntakenIsFresh(l: Lab, k: Kind, from: string, to: string)
    requires ValidNodeId(to) && !NameTaken(l, to, from) && from != to
    ensures Fresh(l, to)
  {
    forall j: Kind
      ensures !Has(l, j, to)
    {
      if Has(l, j, to) {
        assert MatchesRef(NodeAt(l, j, Find(l, j, to)), to);
      }
    }
  }

  lemma UntakenDoesNotClash(n: NodeName, to: string)
    requires !MatchesRef(n, to)
    ensures !Clash(n, NodeName(to, "")) && !Clash(NodeName(to, ""), n)
  {
    hide Fold;
  }

  lemma RelabelKeepsIdentity(l: Lab, k: Kind, i: nat, to: string)
    requires IdentityOk(l) && i < Count(l, k) && NodeAt(l, k, i).name == "" && ValidNodeId(to)
    requires !NameTaken(l, to, NodeAt(l, k, i).id)
    ensures IdentityOk(Relabel(l, NodeAt(l, k, i).id, to))
  {
    hide Relabel, Clash, MatchesRef, ValidNodeId, EqualFold;
    var from := NodeAt(l, k, i).id;
    var m := Relabel(l, from, to);
    forall j: Kind, h: nat | h < Count(l, j)
      ensures Count(m, j) == Count(l, j)
      ensures NodeAt(m, j, h) == if j == k && h == i then NodeName(to, "") else NodeAt(l, j, h)
      ensures j != k || h != i ==> NodeAt(l, j, h).id != from
    {
      NodeRelabelled(l, from, to, j, h);
      if NodeAt(l, j, h).id == from { SameIdSameNode(l, j, h, k, i); }
    }
    forall j: Kind { CountRelabelled(l, from, to, j); }
    forall j: Kind, h: nat | h < Count(l, j) && (j != k || h != i)
      ensures !Clash(NodeAt(l, j, h), NodeName(to, "")) && !Clash(NodeName(to, ""), NodeAt(l, j, h))
    {
      UntakenDoesNotClash(NodeAt(l, j, h), to);
    }
    IdentityButOne(l, m, k, i, to);
  }

  lemma IdentityButOne(l: Lab, m: Lab, k: Kind, i: nat, to: string)
    requires IdentityOk(l) && i < Count(l, k) && ValidNodeId(to) && forall j: Kind :: Count(m, j) == Count(l, j)
    requires forall j: Kind, h: nat | h < Count(l, j) ::
      NodeAt(m, j, h) == if j == k && h == i then NodeName(to, "") else NodeAt(l, j, h)
    requires forall j: Kind, h: nat | h < Count(l, j) && (j != k || h != i) ::
      !Clash(NodeAt(l, j, h), NodeName(to, "")) && !Clash(NodeName(to, ""), NodeAt(l, j, h))
    ensures IdentityOk(m)
  {
    hide Clash, ValidNodeId, EqualFold;
    forall j: Kind, h: nat | h < Count(l, j)
      ensures NameOk(NodeAt(m, j, h))
    {
      assert NameOk(NodeAt(l, j, h));
    }
  }

  // ---------------------------------------------------------------- main results

  lemma UnnamedIsSameButNames(l: Lab, k: Kind, i: nat)
    requires i < Count(l, k)
    ensures SameButNames(l, Unnamed(l, k, i))
    ensures Count(Unnamed(l, k, i), k) == Count(l, k) && NodeAt(Unnamed(l, k, i), k, i) == NodeAt(l, k, i).(name := "")
    ensures Unnamed(l, k, i) == l <==> NodeAt(l, k, i).name == ""
  {
  }

  lemma StillUntaken(l: Lab, m: Lab, ref: string, self: string)
    requires SameButNames(l, m) && !NameTaken(l, ref, self)
    ensures !NameTaken(m, ref, self)
  {
    hide SameButNames, EqualFold;
    NodesButNames(l, m);
    forall k: Kind, i: nat | i < Count(m, k) && NodeAt(m, k, i).id != self
      ensures !MatchesRef(NodeAt(m, k, i), ref)
    {
      assert FewerNames(NodeAt(m, k, i), NodeAt(l, k, i));
      assert !MatchesRef(NodeAt(l, k, i), ref);
    }
  }

  lemma RelabelKeepsValid(l: Lab, k: Kind, i: nat, to: string, resolve: PathFn)
    requires Valid(l, resolve) && i < Count(l, k) && NodeAt(l, k, i).name == ""
    requires ValidNodeId(to) && !NameTaken(l, to, NodeAt(l, k, i).id) && NodeAt(l, k, i).id != to
    ensures Valid(Relabel(l, NodeAt(l, k, i).id, to), resolve) && Fresh(l, to)
  {
    hide Relabel, NameTaken, IdentityOk, SwitchesOk, NetworksOk, DhcpOk, LinksOk, DisksOk, LayoutOk, Fresh, ValidNodeId;
    var from := NodeAt(l, k, i).id;
    FindsNode(l, k, i);
    UntakenIsFresh(l, k, from, to);
    RelabelKeepsIdentity(l, k, i, to);
    RelabelKeepsSwitches(l, from, to);
    assert NetworksOk(Relabel(l, from, to)) by { RelabelKeepsNetworks(l, from, to); }
    RelabelKeepsDhcp(l, from, to);
    RelabelKeepsLinks(l, from, to);
    RelabelKeepsDisks(l, from, to, resolve);
    RelabelKeepsLayout(l, from, to);
  }

  lemma RelabelKeepsNetworks(l: Lab, from: string, to: string)
    requires NetworksOk(l) && Fresh(l, to) && from != ""
    ensures NetworksOk(Relabel(l, from, to))
  {
    hide NicsOk, Fresh;
    RelabelKeepsNics(l, from, to, l.vms);
    RelabelKeepsNics(l, from, to, l.containers);
  }

  /** What a successful rename to another id computes: the uniform relabelling of the lab without the old name. */
  lemma RenamedIs(l: Lab, k: Kind, from: string, to: string, resolve: PathFn)
    requires Valid(l, resolve) && from != to && RenameNode(l, k, from, to).Some?
    ensures var i := Find(l, k, from);
      && i < Count(l, k) && ValidNodeId(to) && !NameTaken(l, to, from)
      && RenameNode(l, k, from, to) == Some(Relabel(Unnamed(l, k, i), from, to))
  {
    hide Valid, Relabel, RewriteReferences, SetNode, NameTaken, ValidNodeId;
    RenameIsRelabel(l, k, Find(l, k, from), to, resolve);
  }

  /** A successful rename keeps a valid lab valid. */
  lemma RenameKeepsValid(l: Lab, k: Kind, from: string, to: string, resolve: PathFn)
    requires Valid(l, resolve) && RenameNode(l, k, from, to).Some?
    ensures Valid(RenameNode(l, k, from, to).value, resolve)
  {
    hide Valid, Relabel, NameTaken, ValidNodeId, SameButNames, RewriteReferences, Unnamed;
    if from == to {
      RedundantNamesGo(l, k, from, 0);
      FewerNamesKeepsValid(l, ClearRedundant(l, k, from), resolve);
    } else {
      RenamedIs(l, k, from, to, resolve);
      var i := Find(l, k, from);
      UnnamedIsSameButNames(l, k, i);
      FewerNamesKeepsValid(l, Unnamed(l, k, i), resolve);
      StillUntaken(l, Unnamed(l, k, i), to, from);
      RelabelKeepsValid(Unnamed(l, k, i), k, i, to, resolve);
    }
  }

  // ---------------------------------------------------------------- renaming back

  lemma RelNicBack(l: Lab, nic: Nic, from: string, to: string)
    requires NicOk(l, nic) && Fresh(l, to)
    ensures RelNic(RelNic(nic, from, to), to, from) == nic
  {
    if nic.switch != "" { ExistingIsNotFresh(l, SW, nic.switch, to); }
    if nic.uplink != "" { ExistingIsNotFresh(l, UP, nic.uplink, to); }
  }

  lemma RelWorkloadsBack(l: Lab, ws: seq<Workload>, from: string, to: string)
    requires NicsOk(l, ws) && Fresh(l, to) && forall i | 0 <= i < |ws| :: ws[i].id != to
    ensures RelWorkloads(RelWorkloads(ws, from, to), to, from) == ws
  {
    hide NicOk, Fresh, RelNic;
    forall i | 0 <= i < |ws|
      ensures RelNics(RelNics(ws[i].nics, from, to), to, from) == ws[i].nics
    {
      forall j | 0 <= j < |ws[i].nics|
        ensures RelNic(RelNic(ws[i].nics[j], from, to), to, from) == ws[i].nics[j]
      {
        RelNicBack(l, ws[i].nics[j], from, to);
      }
    }
  }

  lemma SubIdsBack(ids: seq<string>, from: string, to: string)
    requires to !in ids
    ensures SubIds(SubIds(ids, from, to), to, from) == ids
  {
    forall j | 0 <= j < |ids|
      ensures Sub(Sub(ids[j], from, to), to, from) == ids[j]
    {
      assert ids[j] in ids;
    }
  }

  lemma RelSwitchesBack(l: Lab, from: string, to: string)
    requires SwitchesOk(l) && Fresh(l, to)
    ensures RelSwitches(RelSwitches(l.switches, from, to), to, from) == l.switches
  {
    hide SwitchUplinks, Has;
    forall i: nat | i < |l.switches|
      ensures RelSwitch(RelSwitch(l.switches[i], from, to), to, from) == l.switches[i]
    {
      var sw := l.switches[i];
      assert SwitchOk(l, sw);
      forall u | u in sw.uplinks || u == sw.uplink
        ensures u != to
      {
        InSwitchUplinks(sw, u);
      }
      assert sw.id != to by { NodeNotFresh(l, SW, i, to); }
      SubIdsBack(sw.uplinks, from, to);
    }
  }

  lemma NodeNotFresh(l: Lab, k: Kind, i: nat, to: string)
    requires Fresh(l, to) && i < Count(l, k)
    ensures NodeAt(l, k, i).id != to
  {
    assert !Has(l, k, to);
  }

  lemma RelUplinksBack(l: Lab, from: string, to: string)
    requires Fresh(l, to)
    ensures RelUplinks(RelUplinks(l.uplinks, from, to), to, from) == l.uplinks
  {
    forall i: nat | i < |l.uplinks|
      ensures l.uplinks[i].id != to
    {
      NodeNotFresh(l, UP, i, to);
    }
  }

  lemma RelLinksBack(l: Lab, from: string, to: string)
    requires LinksOk(l) && Fresh(l, to)
    ensures RelLinks(RelLinks(l.links, from, to), to, from) == l.links
  {
    hide EndpointOk, Fresh;
    forall i: nat | i < |l.links|
      ensures l.links[i].from.id != to && l.links[i].to.id != to
    {
      LinkEndsNotFresh(l, i, to);
    }
  }

  lemma RelDisksBack(l: Lab, from: string, to: string, resolve: PathFn)
    requires DisksOk(l, resolve) && Fresh(l, to) && from != ""
    ensures RelDisks(RelDisks(l.disks, from, to), to, from) == l.disks
  {
    hide DiskOk, Fresh;
    forall i | 0 <= i < |l.disks|
      ensures RelDisk(RelDisk(l.disks[i], from, to), to, from) == l.disks[i]
    {
      RelabelKeepsDisk(l, from, to, l.disks[i], resolve);
    }
  }

  lemma RelLayoutBack(l: Lab, from: string, to: string)
    requires LayoutOk(l) && Fresh(l, to)
    ensures SubPositions(SubPositions(l.positions, from, to), to, from) == l.positions
    ensures RelLayoutLinks(RelLayoutLinks(l.layoutLinks, from, to), to, from) == l.layoutLinks
  {
    hide Has;
    assert to !in l.positions;
    forall e | LayoutEndOk(l, e)
      ensures e.id != to
    {
    }
    forall i | 0 <= i < |l.layoutLinks|
      ensures l.layoutLinks[i].from.id != to && l.layoutLinks[i].to.id != to
    {
      assert LayoutEndOk(l, l.layoutLinks[i].from) && LayoutEndOk(l, l.layoutLinks[i].to);
    }
  }

  lemma RelabelBack(l: Lab, from: string, to: string, resolve: PathFn)
    requires Valid(l, resolve) && Fresh(l, to) && from != ""
    ensures Relabel(Relabel(l, from, to), to, from) == l
  {
    hide IdentityOk, SwitchesOk, NicsOk, DhcpOk, LinksOk, DisksOk, LayoutOk, Fresh, RelWorkloads, RelSwitches, RelUplinks, RelLinks,
      RelDisks, RelLayoutLinks, SubPositions;
    forall i: nat | i < |l.vms| ensures l.vms[i].id != to { NodeNotFresh(l, VM, i, to); }
    forall i: nat | i < |l.containers| ensures l.containers[i].id != to { NodeNotFresh(l, CT, i, to); }
    RelWorkloadsBack(l, l.vms, from, to);
    RelWorkloadsBack(l, l.containers, from, to);
    RelSwitchesBack(l, from, to);
    RelUplinksBack(l, from, to);
    RelLinksBack(l, from, to);
    RelDisksBack(l, from, to, resolve);
    RelLayoutBack(l, from, to);
  }

  /** The old id is free again once its only bearer has another. */
  lemma OldIdIsFree(l: Lab, k: Kind, i: nat, to: string)
    requires IdentityOk(l) && i < Count(l, k) && NodeAt(l, k, i).name == ""
    ensures !NameTaken(Relabel(l, NodeAt(l, k, i).id, to), NodeAt(l, k, i).id, to)
  {
    hide Relabel, Clash, EqualFold;
    var from := NodeAt(l, k, i).id;
    var m := Relabel(l, from, to);
    forall j: Kind, h: nat | h < Count(m, j) && NodeAt(m, j, h).id != to
      ensures !MatchesRef(NodeAt(m, j, h), from)
    {
      CountRelabelled(l, from, to, j);
      NodeRelabelled(l, from, to, j, h);
      if j != k || h != i {
        assert !Clash(NodeAt(l, j, h), NodeAt(l, k, i));
        NoClashNoMatch(NodeAt(l, j, h), from, NodeAt(l, k, i));
        if NodeAt(l, j, h).id == from { SameIdSameNode(l, j, h, k, i); }
      }
    }
  }

  lemma NoClashNoMatch(n: NodeName, ref: string, other: NodeName)
    requires !Clash(n, other) && other.id == ref
    ensures !MatchesRef(n, ref)
  {
    hide Fold;
  }

  /**
   Renaming a node and renaming it back always succeeds, and leaves the lab it started from except that
   the node has no name; so the lab is restored exactly if and only if the node had none.
   */
  lemma RenamingBackRestores(l: Lab, k: Kind, from: string, to: string, resolve: PathFn)
    requires Valid(l, resolve) && from != to && RenameNode(l, k, from, to).Some?
    ensures var i := Find(l, k, from);
      && i < Count(l, k)
      && RenameNode(RenameNode(l, k, from, to).value, k, to, from) == Some(Unnamed(l, k, i))
      && (RenameNode(RenameNode(l, k, from, to).value, k, to, from) == Some(l) <==> NodeAt(l, k, i).name == "")
  {
    hide Valid, Relabel, NameTaken, ValidNodeId, SameButNames, RewriteReferences, SetNode, Unnamed, RenameNode;
    var i := Find(l, k, from);
    RenamedIs(l, k, from, to, resolve);
    var u := Unnamed(l, k, i);
    var m := Relabel(u, from, to);
    UnnamedIsSameButNames(l, k, i);
    FewerNamesKeepsValid(l, u, resolve);
    StillUntaken(l, u, to, from);
    RelabelKeepsValid(u, k, i, to, resolve);
    OldId(u, k, i, resolve);
    OldIdIsFree(u, k, i, to);
    NodeRelabelled(u, from, to, k, i);
    NewIdFound(m, k, i, resolve);
    RenameOf(m, k, i, from, resolve);
    UnnamedIsSameButNames(m, k, i);
    RelabelBack(u, from, to, resolve);
  }

  lemma OldId(l: Lab, k: Kind, i: nat, resolve: PathFn)
    requires Valid(l, resolve) && i < Count(l, k)
    ensures IdentityOk(l) && ValidNodeId(NodeAt(l, k, i).id) && NodeAt(l, k, i).id != ""
  {
    FindsNode(l, k, i);
    assert NameOk(NodeAt(l, k, i));
  }

  lemma NewIdFound(m: Lab, k: Kind, i: nat, resolve: PathFn)
    requires Valid(m, resolve) && i < Count(m, k)
    ensures Find(m, k, NodeAt(m, k, i).id) == i
  {
    FindsNode(m, k, i);
  }

  lemma RenameOf(m: Lab, k: Kind, i: nat, to: string, resolve: PathFn)
    requires Valid(m, resolve) && i < Count(m, k) && Find(m, k, NodeAt(m, k, i).id) == i
    requires ValidNodeId(to) && !NameTaken(m, to, NodeAt(m, k, i).id) && NodeAt(m, k, i).id != to
    ensures RenameNode(m, k, NodeAt(m, k, i).id, to) == Some(Relabel(Unnamed(m, k, i), NodeAt(m, k, i).id, to))
  {
    hide Valid, Relabel, RewriteReferences, SetNode, NameTaken, ValidNodeId, Unnamed;
    RenameIsRelabel(m, k, i, to, resolve);
  }
}
