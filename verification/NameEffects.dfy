/**
 What the operations do to the names of the runtime. Only creating or renaming a switch or an uplink can give a bridge
 name to two of them, and it does so exactly if the name is borne already.
 */
module NameEffects {
  import opened Numerals
  import opened LabModel
  import opened Lookup
  import opened ManagedNames
  import opened NetworkLinks
  import opened NicConnections
  import opened DirectLinks
  import opened Disks
  import opened Renaming
  import opened Relabelling
  import opened RenameEffects
  import opened Deletes
  import opened DeleteEffects
  import opened Creates
  import opened CreateEffects

  /** A switch or an uplink other than the one called self has the bridge that a node of kind k called id would get. */
  predicate Borne(n: Naming, l: Lab, k: Kind, id: string, self: string) {
    || (exists h :: 0 <= h < |l.switches| && l.switches[h].id != self && Bridge(n, SW, l.switches[h].id) == Bridge(n, k, id))
    || (exists h :: 0 <= h < |l.uplinks| && l.uplinks[h].id != self && Bridge(n, UP, l.uplinks[h].id) == Bridge(n, k, id))
  }

  lemma BorneBy(n: Naming, l: Lab, k: Kind, id: string, self: string)
    ensures Borne(n, l, k, id, self) <==>
      exists j: Kind, h: nat :: HasBridge(j) && h < Count(l, j) && NodeAt(l, j, h).id != self && Bridge(n, j, NodeAt(l, j, h).id) == Bridge(n, k, id)
  {
    hide Bridge;
    if exists h :: 0 <= h < |l.switches| && l.switches[h].id != self && Bridge(n, SW, l.switches[h].id) == Bridge(n, k, id) {
      var h :| 0 <= h < |l.switches| && l.switches[h].id != self && Bridge(n, SW, l.switches[h].id) == Bridge(n, k, id);
      assert NodeAt(l, SW, h).id == l.switches[h].id;
    }
    if exists h :: 0 <= h < |l.uplinks| && l.uplinks[h].id != self && Bridge(n, UP, l.uplinks[h].id) == Bridge(n, k, id) {
      var h :| 0 <= h < |l.uplinks| && l.uplinks[h].id != self && Bridge(n, UP, l.uplinks[h].id) == Bridge(n, k, id);
      assert NodeAt(l, UP, h).id == l.uplinks[h].id;
    }
  }

  // ---------------------------------------------------------------- bridges

  /** The same nodes under the same ids. */
  predicate SameIds(l: Lab, m: Lab) {
    forall k: Kind :: Count(m, k) == Count(l, k) && forall i: nat | i < Count(l, k) :: NodeAt(m, k, i).id == NodeAt(l, k, i).id
  }

  lemma SameIdsSameBridges(n: Naming, l: Lab, m: Lab)
    requires SameIds(l, m)
    ensures BridgesApart(n, m) <==> BridgesApart(n, l)
  {
    hide Bridge;
  }

  lemma GainedBridges(n: Naming, l: Lab, m: Lab, k: Kind, name: string)
    requires Gains(l, m, k, name) && IdentityOk(l) && BridgesApart(n, l)
    ensures BridgesApart(n, m) <==> !(HasBridge(k) && Borne(n, l, k, name, ""))
  {
    hide Bridge, IdentityOk, BridgesApart, Borne;
    BorneBy(n, l, k, name, "");
    var last := Count(l, k);
    forall j: Kind, h: nat | h < Count(l, j)
      ensures NodeAt(l, j, h).id != ""
    {
      FindsNode(l, j, h);
    }
    if HasBridge(k) && Borne(n, l, k, name, "") {
      var j: Kind, h: nat :| HasBridge(j) && h < Count(l, j) && NodeAt(l, j, h).id != "" && Bridge(n, j, NodeAt(l, j, h).id) == Bridge(n, k, name);
      TwoShare(n, m, j, h, k, last);
    } else {
      forall j: Kind, h: nat, g: Kind, i: nat | HasBridge(j) && HasBridge(g) && h < Count(m, j) && i < Count(m, g) && (j != g || h != i)
        ensures Bridge(n, j, NodeAt(m, j, h).id) != Bridge(n, g, NodeAt(m, g, i).id)
      {
        if (j == k && h == last) || (g == k && i == last) {
        } else {
          assert h < Count(l, j) && i < Count(l, g);
          TwoDiffer(n, l, j, h, g, i);
        }
      }
      ApartIf(n, m);
    }
  }

  lemma TwoShare(n: Naming, l: Lab, j: Kind, h: nat, k: Kind, i: nat)
    requires HasBridge(j) && HasBridge(k) && h < Count(l, j) && i < Count(l, k) && (j != k || h != i)
    requires Bridge(n, j, NodeAt(l, j, h).id) == Bridge(n, k, NodeAt(l, k, i).id)
    ensures !BridgesApart(n, l)
  {
    hide Bridge;
  }

  lemma TwoDiffer(n: Naming, l: Lab, j: Kind, h: nat, k: Kind, i: nat)
    requires BridgesApart(n, l) && HasBridge(j) && HasBridge(k) && h < Count(l, j) && i < Count(l, k) && (j != k || h != i)
    ensures Bridge(n, j, NodeAt(l, j, h).id) != Bridge(n, k, NodeAt(l, k, i).id)
  {
    hide Bridge;
  }

  lemma ApartIf(n: Naming, l: Lab)
    requires forall j: Kind, h: nat, k: Kind, i: nat | HasBridge(j) && HasBridge(k) && h < Count(l, j) && i < Count(l, k) && (j != k || h != i) ::
      Bridge(n, j, NodeAt(l, j, h).id) != Bridge(n, k, NodeAt(l, k, i).id)
    ensures BridgesApart(n, l)
  {
    hide Bridge;
  }

  lemma LostBridges(n: Naming, l: Lab, m: Lab, k: Kind, i: nat)
    requires Loses(l, m, k, i) && BridgesApart(n, l)
    ensures BridgesApart(n, m)
  {
    hide Bridge, Loses, BridgesApart;
    forall j: Kind, h: nat, g: Kind, p: nat | HasBridge(j) && HasBridge(g) && h < Count(m, j) && p < Count(m, g) && (j != g || h != p)
      ensures Bridge(n, j, NodeAt(m, j, h).id) != Bridge(n, g, NodeAt(m, g, p).id)
    {
      LosesNodeAt(l, m, k, i, j, h);
      LosesNodeAt(l, m, k, i, g, p);
      TwoDiffer(n, l, j, if j == k then Before(h, i) else h, g, if g == k then Before(p, i) else p);
    }
    ApartIf(n, m);
  }

  /** One node of l has another id in m. */
  ghost predicate Renames(l: Lab, m: Lab, k: Kind, i: nat, to: string) {
    && i < Count(l, k) && (forall j: Kind :: Count(m, j) == Count(l, j))
    && forall j: Kind, h: nat | h < Count(l, j) :: NodeAt(m, j, h).id == if j == k && h == i then to else NodeAt(l, j, h).id
  }

  lemma RenamedBridges(n: Naming, l: Lab, m: Lab, k: Kind, i: nat, to: string)
    requires Renames(l, m, k, i, to) && IdentityOk(l) && BridgesApart(n, l)
    ensures BridgesApart(n, m) <==> !(HasBridge(k) && Borne(n, l, k, to, NodeAt(l, k, i).id))
  {
    hide Bridge, IdentityOk, BridgesApart, Borne;
    var from := NodeAt(l, k, i).id;
    BorneBy(n, l, k, to, from);
    if HasBridge(k) && Borne(n, l, k, to, from) {
      var j: Kind, h: nat :| HasBridge(j) && h < Count(l, j) && NodeAt(l, j, h).id != from && Bridge(n, j, NodeAt(l, j, h).id) == Bridge(n, k, to);
      TwoShare(n, m, j, h, k, i);
    } else {
      forall j: Kind, h: nat, g: Kind, p: nat | HasBridge(j) && HasBridge(g) && h < Count(m, j) && p < Count(m, g) && (j != g || h != p)
        ensures Bridge(n, j, NodeAt(m, j, h).id) != Bridge(n, g, NodeAt(m, g, p).id)
      {
        if j == k && h == i {
          if NodeAt(l, g, p).id == from { SameIdSameNode(l, g, p, k, i); }
        } else if g == k && p == i {
          if NodeAt(l, j, h).id == from { SameIdSameNode(l, j, h, k, i); }
        } else {
          TwoDiffer(n, l, j, h, g, p);
        }
      }
      ApartIf(n, m);
    }
  }

  // ---------------------------------------------------------------- hashed names

  lemma SameHashes(n: Naming, l: Lab, m: Lab)
    requires SameIds(l, m) && m.links == l.links
    ensures HashesMeet(n, m) <==> HashesMeet(n, l)
  {
    hide LinkBridge, ContainersMeet;
    SameContainerIds(l, m);
  }

  lemma SameContainerIds(l: Lab, m: Lab)
    requires SameIds(l, m)
    ensures |m.containers| == |l.containers| && forall i | 0 <= i < |l.containers| :: m.containers[i].id == l.containers[i].id
  {
    assert Count(m, CT) == Count(l, CT);
    forall i: nat | i < |l.containers|
      ensures m.containers[i].id == l.containers[i].id
    {
      assert NodeAt(m, CT, i).id == NodeAt(l, CT, i).id;
    }
  }

  /** No two links have one name. */
  predicate LinksNamedApart(n: Naming, links: seq<Link>) {
    forall i, j | 0 <= i < j < |links| :: Fold(LinkBridge(n, links[i])) != Fold(LinkBridge(n, links[j]))
  }

  lemma HashesInParts(n: Naming, l: Lab)
    ensures HashesMeet(n, l) <==>
      !LinksNamedApart(n, l.links) || exists i, j :: 0 <= i < j < |l.containers| && ContainersMeet(n, l.containers[i].id, l.containers[j].id)
  {
    hide LinkBridge, ContainersMeet;
  }

  lemma LinkSnoc(n: Naming, links: seq<Link>, x: Link)
    ensures LinksNamedApart(n, links + [x]) <==>
      LinksNamedApart(n, links) && forall y | y in links :: Fold(LinkBridge(n, y)) != Fold(LinkBridge(n, x))
  {
    hide LinkBridge;
    var all := links + [x];
    assert forall h | 0 <= h < |links| :: all[h] == links[h];
    assert all[|links|] == x;
  }

  lemma {:induction false} WithoutEndpointNamedApart(n: Naming, links: seq<Link>, e: Endpoint)
    requires LinksNamedApart(n, links)
    ensures LinksNamedApart(n, WithoutEndpoint(links, e)) && forall x | x in WithoutEndpoint(links, e) :: x in links
  {
    hide LinkBridge, LinksNamedApart;
    if links != [] {
      var init, last := links[..|links| - 1], links[|links| - 1];
      assert links == init + [last];
      LinkSnoc(n, init, last);
      WithoutEndpointNamedApart(n, init, e);
      LinkSnoc(n, WithoutEndpoint(init, e), last);
      assert WithoutEndpoint(init, e) + [] == WithoutEndpoint(init, e);
    }
  }

  lemma {:induction false} WithoutNodeNamedApart(n: Naming, links: seq<Link>, typ: string, id: string)
    requires LinksNamedApart(n, links)
    ensures LinksNamedApart(n, WithoutNode(links, typ, id)) && forall x | x in WithoutNode(links, typ, id) :: x in links
  {
    hide LinkBridge, LinksNamedApart;
    if links != [] {
      var init, last := links[..|links| - 1], links[|links| - 1];
      assert links == init + [last];
      LinkSnoc(n, init, last);
      WithoutNodeNamedApart(n, init, typ, id);
      LinkSnoc(n, WithoutNode(init, typ, id), last);
      assert WithoutNode(init, typ, id) + [] == WithoutNode(init, typ, id);
    }
  }

  /** Fewer links, the same containers. */
  lemma FewerLinksKeepHashes(n: Naming, l: Lab, m: Lab)
    requires !HashesMeet(n, l) && SameIds(l, m) && (LinksNamedApart(n, l.links) ==> LinksNamedApart(n, m.links))
    ensures !HashesMeet(n, m)
  {
    hide LinksNamedApart, ContainersMeet;
    HashesInParts(n, l);
    HashesInParts(n, m);
    SameContainerIds(l, m);
  }

  lemma LostNodeKeepsHashes(n: Naming, l: Lab, m: Lab, k: Kind, i: nat)
    requires !HashesMeet(n, l) && Loses(l, m, k, i) && (LinksNamedApart(n, l.links) ==> LinksNamedApart(n, m.links))
    ensures !HashesMeet(n, m)
  {
    hide LinksNamedApart, ContainersMeet, Loses;
    HashesInParts(n, l);
    HashesInParts(n, m);
    forall p: nat, q: nat | p < q < |m.containers|
      ensures !ContainersMeet(n, m.containers[p].id, m.containers[q].id)
    {
      LosesNodeAt(l, m, k, i, CT, p);
      LosesNodeAt(l, m, k, i, CT, q);
      assert NodeAt(m, CT, p).id == m.containers[p].id && NodeAt(m, CT, q).id == m.containers[q].id;
      var a, b := if CT == k then Before(p, i) else p, if CT == k then Before(q, i) else q;
      assert a < b && NodeAt(l, CT, a).id == l.containers[a].id && NodeAt(l, CT, b).id == l.containers[b].id;
    }
  }

  lemma GainedNodeKeepsHashes(n: Naming, l: Lab, m: Lab, k: Kind, name: string)
    requires !HashesMeet(n, l) && Gains(l, m, k, name) && k != CT && m.links == l.links
    ensures !HashesMeet(n, m)
  {
    hide LinkBridge, ContainersMeet;
    assert |m.containers| == |l.containers| by { assert Count(m, CT) == Count(l, CT); }
    forall i: nat | i < |l.containers| ensures m.containers[i].id == l.containers[i].id { assert NodeAt(m, CT, i) == NodeAt(l, CT, i); }
  }

  // ---------------------------------------------------------------- what keeps the ids

  lemma SameIdsTransitive(l: Lab, m: Lab, n: Lab)
    requires SameIds(l, m) && SameIds(m, n)
    ensures SameIds(l, n)
  {
  }

  lemma NicsKeepIds(l: Lab, k: Kind, i: nat, nics: seq<Nic>, links: seq<Link>)
    requires IsWorkload(k) && i < |Workloads(l, k)|
    ensures SameIds(l, WithNics(l, k, i, nics).(links := links))
  {
  }

  lemma DisconnectedKeepsIds(l: Lab, k: Kind, id: string, index: nat)
    requires IsWorkload(k)
    ensures SameIds(l, Disconnect(l, k, id, index))
  {
    hide WithNics, WithoutEndpoint, SameIds;
    var i := Find(l, k, id);
    SameAsBefore(l);
    if i < Count(l, k) && index < |Workloads(l, k)[i].nics| {
      NicsKeepIds(l, k, i, Workloads(l, k)[i].nics[index := Detached(Workloads(l, k)[i].nics[index])], WithoutEndpoint(l.links, EndpointAt(l, k, i, index)));
    }
  }

  lemma SameAsBefore(l: Lab)
    ensures SameIds(l, l)
  {
  }

  lemma PathKeepsIds(l: Lab, disks: seq<Disk>, typ: string, id: string, path: string)
    ensures var m := WithPath(l.(disks := disks), typ, id, path); SameIds(l, m) && m.links == l.links
  {
  }

  lemma VacateKeepsIds(l: Lab, typ: string, id: string)
    ensures SameIds(l, Vacate(l, typ, id)) && Vacate(l, typ, id).links == l.links
  {
    hide WithPath, SameIds;
    PathKeepsIds(l, ReleaseAll(l.disks, typ, id), typ, id, "");
  }

  /** Vacating a workload, changing the disks and setting a path. */
  lemma PlacingKeepsIds(l: Lab, disks: seq<Disk>, typ: string, id: string, path: string)
    ensures var m := WithPath(Vacate(l, typ, id).(disks := disks), typ, id, path); SameIds(l, m) && m.links == l.links
  {
    hide WithPath, Vacate, SameIds;
    VacateKeepsIds(l, typ, id);
    PathKeepsIds(Vacate(l, typ, id), disks, typ, id, path);
    SameIdsTransitive(l, Vacate(l, typ, id), WithPath(Vacate(l, typ, id).(disks := disks), typ, id, path));
  }

  lemma OtherDisksKeepIds(l: Lab, disks: seq<Disk>)
    ensures SameIds(l, l.(disks := disks))
  {
  }

  lemma CreateDiskKeepsIds(l: Lab, id: string, at: Option<Destination>, path: string, resolve: PathFn)
    requires CreateDisk(l, id, at, path, resolve).Some?
    ensures var m := CreateDisk(l, id, at, path, resolve).value; SameIds(l, m) && m.links == l.links
  {
    hide WithPath, Vacate, SameIds, ResolveDiskTarget, DhcpTarget;
    if at.None? {
      OtherDisksKeepIds(l, l.disks + [Disk(id, path, "base", "", "", "")]);
    } else {
      var to := ResolveDiskTarget(l, at.value.typ, at.value.id).value;
      PlacingKeepsIds(l, Vacate(l, to.typ, to.id).disks + [Attached(Disk(id, path, "base", "", "", ""), to)], to.typ, to.id, resolve(path));
    }
  }

  lemma AttachKeepsIds(l: Lab, index: nat, d: Disk, to: Destination, resolve: PathFn)
    requires index < |l.disks|
    ensures var m := AttachAt(l, index, d, to, resolve); SameIds(l, m) && m.links == l.links
  {
    hide WithPath, SameIds;
    VacatedCount(l, to);
    PlacingKeepsIds(l, Vacate(l, to.typ, to.id).disks[index := Attached(d, to)], to.typ, to.id, resolve(d.path));
  }

  lemma VacatedCount(l: Lab, to: Destination)
    ensures |Vacate(l, to.typ, to.id).disks| == |l.disks|
  {
  }

  lemma AttachDiskKeepsIds(l: Lab, id: string, target: Destination, resolve: PathFn)
    requires AttachDisk(l, id, target, resolve).Some?
    ensures var m := AttachDisk(l, id, target, resolve).value; SameIds(l, m) && m.links == l.links
  {
    hide AttachAt, SameIds, ResolveDiskTarget, DhcpTarget;
    var i := FindDisk(l.disks, id);
    var to := ResolveDiskTarget(l, target.typ, target.id).value;
    var d := l.disks[i];
    AttachKeepsIds(l, i, d, to, resolve);
    AttachKeepsIds(l, i, d.(kind := if DiskKind(d) == "data" then "data" else "base", base := ""), to, resolve);
  }

  lemma CreateLayerAndAttachKeepsIds(l: Lab, base: string, layer: string, typ: string, ref: string, path: string)
    requires CreateLayerAndAttach(l, base, layer, typ, ref, path).Some?
    ensures var m := CreateLayerAndAttach(l, base, layer, typ, ref, path).value; SameIds(l, m) && m.links == l.links
  {
    hide WithPath, Vacate, SameIds, ResolveDiskTarget, DhcpTarget;
    var to := ResolveDiskTarget(l, typ, ref).value;
    PlacingKeepsIds(l, Vacate(l, to.typ, to.id).disks + [Attached(Disk(layer, path, "layer", base, "", ""), to)], to.typ, to.id, path);
  }

  lemma DetachKeepsIds(l: Lab, typ: string, ref: string, id: string)
    requires DetachDisk(l, typ, ref, id).Some?
    ensures var m := DetachDisk(l, typ, ref, id).value; SameIds(l, m) && m.links == l.links
  {
    hide WithPath, SameIds, ResolveDiskTarget, DhcpTarget, InferType;
    var known := if typ == "" then InferType(l, ref) else Some(typ);
    var to := ResolveDiskTarget(l, known.value, ref).value;
    var i := AttachedIndex(l.disks, to, id);
    PathKeepsIds(l, l.disks[i := l.disks[i].(attachedType := "", attachedTo := "")], to.typ, to.id, "");
  }

  lemma MergeKeepsIds(l: Lab, id: string, offline: bool)
    requires MergeDisk(l, id, offline).Some?
    ensures var m := MergeDisk(l, id, offline).value; SameIds(l, m) && m.links == l.links
  {
    hide WithPath, SameIds;
    var i := FindDisk(l.disks, id);
    var d := l.disks[i];
    var cleared := if d.attachedType != "" && d.attachedTo != "" then WithPath(l, d.attachedType, d.attachedTo, "") else l;
    SameAsBefore(l);
    PathKeepsIds(l, l.disks, d.attachedType, d.attachedTo, "");
    DiskCount(l, d.attachedType, d.attachedTo, "");
    OtherDisksKeepIds(cleared, cleared.disks[..i] + cleared.disks[i + 1..]);
    SameIdsTransitive(l, cleared, cleared.(disks := cleared.disks[..i] + cleared.disks[i + 1..]));
  }

  lemma DiskCount(l: Lab, typ: string, id: string, path: string)
    ensures |WithPath(l, typ, id, path).disks| == |l.disks|
  {
  }

  // ---------------------------------------------------------------- renames

  lemma RewritingKeepsIds(l: Lab, k: Kind, from: string, to: string)
    ensures SameIds(l, RewriteReferences(l, k, from, to))
    ensures HasBridge(k) ==> RewriteReferences(l, k, from, to).links == l.links
  {
  }

  lemma SettingRenames(l: Lab, k: Kind, i: nat, to: string)
    requires i < Count(l, k)
    ensures Renames(l, SetNode(l, k, i, NodeName(to, "")), k, i, to) && SetNode(l, k, i, NodeName(to, "")).links == l.links
  {
  }

  lemma RenameThenRewrite(l: Lab, m: Lab, o: Lab, k: Kind, i: nat, to: string)
    requires Renames(l, m, k, i, to) && SameIds(m, o)
    ensures Renames(l, o, k, i, to)
  {
  }

  lemma RenameNodeRenames(l: Lab, k: Kind, from: string, to: string)
    requires from != to && RenameNode(l, k, from, to).Some?
    ensures var m := RenameNode(l, k, from, to).value;
      && Find(l, k, from) < Count(l, k) && Renames(l, m, k, Find(l, k, from), to) && (HasBridge(k) ==> m.links == l.links)
  {
    hide Renames, SameIds, SetNode, RewriteReferences, NameTaken, ValidNodeId;
    var i := Find(l, k, from);
    var set_ := SetNode(l, k, i, NodeName(to, ""));
    SettingRenames(l, k, i, to);
    RewritingKeepsIds(set_, k, from, to);
    RenameThenRewrite(l, set_, RewriteReferences(set_, k, from, to), k, i, to);
  }

  lemma ClearedKeepsIds(l: Lab, k: Kind, id: string)
    ensures SameIds(l, ClearRedundant(l, k, id)) && ClearRedundant(l, k, id).links == l.links
  {
    hide ClearRedundant;
    RedundantNamesGo(l, k, id, 0);
    NodesButNames(l, ClearRedundant(l, k, id));
  }

  lemma RenamedBridgeKeepsHashes(n: Naming, l: Lab, m: Lab, k: Kind, i: nat, to: string)
    requires !HashesMeet(n, l) && Renames(l, m, k, i, to) && k != CT && m.links == l.links
    ensures !HashesMeet(n, m)
  {
    hide LinkBridge, ContainersMeet;
    assert |m.containers| == |l.containers| by { assert Count(m, CT) == Count(l, CT); }
    forall h: nat | h < |l.containers| ensures m.containers[h].id == l.containers[h].id { assert NodeAt(m, CT, h).id == NodeAt(l, CT, h).id; }
  }
}
