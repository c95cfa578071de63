/**
 When each disk operation on a valid lab succeeds and what it leaves, said without the operations' own
 definitions: in terms of the node a reference leads to, the disks there are and the two records.
 */
module DiskOutcomes {
  import opened Numerals
  import opened LabModel
  import opened Lookup
  import opened NetworkLinks
  import opened DirectLinks
  import opened Disks
  import opened DiskRules
  import opened DiskEditing

  // ---------------------------------------------------------------- destinations

  /** The text leads to this workload, which is no DHCP service. */
  predicate Leads(l: Lab, typ: string, ref: string, id: string) {
    && typ in {"vm", "container"}
    && Resolve(l, if typ == "vm" then VM else CT, ref) == Found(id)
    && !DhcpEnd(l, Endpoint(typ, id, 0))
  }

  /** Two workloads of the kind have no name, which is what the empty text asks for. */
  predicate Vague(l: Lab, typ: string, ref: string) {
    typ in {"vm", "container"} && ref == "" && Unnamed(l, if typ == "vm" then VM else CT) > 1
  }

  lemma WhereTo(l: Lab, typ: string, ref: string)
    requires IdentityOk(l)
    ensures var to := ResolveDiskTarget(l, typ, ref);
      if to.None? || DhcpTarget(l, to.value) then !Vague(l, typ, ref) && forall id :: !Leads(l, typ, ref, id)
      else if Nowhere(to.value) then Vague(l, typ, ref) && forall id :: !Leads(l, typ, ref, id)
      else !Vague(l, typ, ref) && to.value.typ == typ && Leads(l, typ, ref, to.value.id) && Somewhere(l, to.value)
           && forall id :: Leads(l, typ, ref, id) ==> id == to.value.id
  {
    hide IdentityOk, Resolve, ManagedDhcp, Unnamed, DhcpEnd, Somewhere;
    EmptyDestinationExactly(l, typ, ref);
    var to := ResolveDiskTarget(l, typ, ref);
    if to.Some? && !Nowhere(to.value) {
      var k := WorkloadKind(typ).value;
      ResolvedId(l, k, ref);
      FindWorkloadIsFind(l, k, to.value.id);
      ServiceEnds(l, k, to.value.id);
      if !DhcpTarget(l, to.value) { DestinationIsSomewhere(l, typ, ref); }
    } else if to.Some? {
      assert !DhcpTarget(l, to.value);
      EmptyIsNotFound(l, typ, ref);
    } else {
      EmptyIsNotFound(l, typ, ref);
    }
  }

  lemma EmptyIsNotFound(l: Lab, typ: string, ref: string)
    requires IdentityOk(l) && (ResolveDiskTarget(l, typ, ref).None? || Nowhere(ResolveDiskTarget(l, typ, ref).value))
    ensures WorkloadKind(typ).Some? ==> !Resolve(l, WorkloadKind(typ).value, ref).Found?
  {
    hide IdentityOk, Resolve;
    if WorkloadKind(typ).Some? && Resolve(l, WorkloadKind(typ).value, ref).Found? { ResolvedId(l, WorkloadKind(typ).value, ref); }
  }

  lemma ServiceEnds(l: Lab, k: Kind, id: string)
    requires IdentityOk(l) && IsWorkload(k) && id != "" && Has(l, k, id)
    ensures DhcpEnd(l, Endpoint(KindText(k), id, 0)) <==> DhcpTarget(l, Destination(KindText(k), id))
  {
    hide IdentityOk, DhcpEnd;
    if ManagedDhcp(l, k, id) { ManagedIsEnd(l, id); } else { NotDhcpEnd(l, k, id, 0); }
  }

  lemma ManagedIsEnd(l: Lab, id: string)
    requires IdentityOk(l) && id != "" && Has(l, CT, id) && ManagedDhcp(l, CT, id)
    ensures DhcpEnd(l, Endpoint("container", id, 0))
  {
    hide IdentityOk;
    MatchIsFind(l, CT, id);
    assert NodeAt(l, CT, Find(l, CT, id)).id == id;
  }

  // ---------------------------------------------------------------- one workload's records

  /** Beyond its disks and the path of one workload the lab is as it was. */
  ghost predicate PathSet(l: Lab, m: Lab, typ: string, id: string, path: string) {
    && SameButDisks(l, m)
    && PathOf(m, typ, id) == path
    && forall t: string, w: string | t != typ || w != id :: PathOf(m, t, w) == PathOf(l, t, w)
  }

  lemma SetPathRecords(l: Lab, disks: seq<Disk>, to: Destination, path: string)
    requires Somewhere(l, to)
    ensures var m := WithPath(l.(disks := disks), to.typ, to.id, path); PathSet(l, m, to.typ, to.id, path) && m.disks == disks
  {
    hide WithPath, PathOf, IsTarget, Somewhere, SameButDisks;
    SetPathIsSameButDisks(l, disks, to, path);
    WithPathKeepsDisks(l.(disks := disks), to.typ, to.id, path);
    assert IsTarget(l, to.typ, to.id) by { SomewhereIsTarget(l, to); }
    forall t: string, w: string
      ensures PathOf(WithPath(l.(disks := disks), to.typ, to.id, path), t, w) == if t == to.typ && w == to.id then path else PathOf(l, t, w)
    {
      SameRecords(l, disks, t, w);
      PathAfter(l.(disks := disks), to.typ, to.id, path, t, w);
      SameRecords(l, disks, to.typ, to.id);
    }
  }

  /** The disks as they are once nothing is attached to the workload any more. */
  ghost predicate ReleasedFrom(before: seq<Disk>, after: seq<Disk>, typ: string, id: string) {
    && |after| == |before|
    && forall j | 0 <= j < |before| ::
         after[j] == if before[j].attachedType == typ && before[j].attachedTo == id then before[j].(attachedType := "", attachedTo := "")
                     else before[j]
  }

  // ---------------------------------------------------------------- detaching

  /** Disk i is attached to the workload and is the one asked for: by its id, by its base, or as whichever is attached. */
  predicate Wanted(disks: seq<Disk>, i: nat, typ: string, w: string, id: string) {
    && i < |disks| && disks[i].attachedType == typ && disks[i].attachedTo == w
    && (id == "" || disks[i].id == id || disks[i].base == id)
  }

  lemma {:induction false} FindsWanted(disks: seq<Disk>, to: Destination, id: string, from: nat)
    requires from <= |disks|
    ensures var i := AttachedIndex(disks, to, id, from);
      if i < |disks| then Wanted(disks, i, to.typ, to.id, id) else forall j: nat | from <= j :: !Wanted(disks, j, to.typ, to.id, id)
    decreases |disks| - from
  {
    if from < |disks| && !Wanted(disks, from, to.typ, to.id, id) { FindsWanted(disks, to, id, from + 1); }
  }

  /**
   With a reference that leads to a workload, a detachment succeeds exactly if a disk asked for is attached to it. That
   one disk is released, the workload's path is cleared, and every other disk and path is as before.
   */
  lemma DetachesExactly(l: Lab, typ: string, ref: string, id: string, w: string, resolve: PathFn)
    requires Valid(l, resolve) && Leads(l, typ, ref, w)
    ensures DetachDisk(l, typ, ref, id).Some? <==> exists i: nat :: Wanted(l.disks, i, typ, w, id)
    ensures forall i: nat | Wanted(l.disks, i, typ, w, id) && DetachDisk(l, typ, ref, id).Some? ::
      var m := DetachDisk(l, typ, ref, id).value;
      m.disks == l.disks[i := l.disks[i].(attachedType := "", attachedTo := "")] && PathSet(l, m, typ, w, "")
  {
    hide Valid, WithPath, ResolveDiskTarget, DhcpTarget, Somewhere, Leads, Vague, PathSet, IdentityOk, DistinctIds;
    ValidDisks(l, resolve);
    WhereTo(l, typ, ref);
    KnownType(l, typ, ref, w);
    var to := ResolveDiskTarget(l, typ, ref).value;
    FindsWanted(l.disks, to, id, 0);
    var i := AttachedIndex(l.disks, to, id);
    if i < |l.disks| {
      SetPathRecords(l, l.disks[i := l.disks[i].(attachedType := "", attachedTo := "")], to, "");
      forall j: nat | Wanted(l.disks, j, typ, w, id)
        ensures j == i
      {
        OneAttached(l, i, j, to, resolve);
      }
    }
  }

  lemma KnownType(l: Lab, typ: string, ref: string, w: string)
    requires Leads(l, typ, ref, w)
    ensures typ in {"vm", "container"}
  {
  }

  lemma OneAttached(l: Lab, i: nat, j: nat, to: Destination, resolve: PathFn)
    requires DisksOk(l, resolve) && to.typ != "" && i < |l.disks| && j < |l.disks|
    requires l.disks[i].attachedType == to.typ && l.disks[i].attachedTo == to.id
    requires l.disks[j].attachedType == to.typ && l.disks[j].attachedTo == to.id
    ensures i == j
  {
    assert SameTarget(l.disks[i], l.disks[j]) && SameTarget(l.disks[j], l.disks[i]);
  }

  /** Where the type is left open, the reference must lead to a VM or to a container and not to both. */
  lemma DetachInfersType(l: Lab, ref: string, id: string)
    ensures DetachDisk(l, "", ref, id) ==
      if Resolve(l, VM, ref).Found? && !Resolve(l, CT, ref).Found? then DetachDisk(l, "vm", ref, id)
      else if Resolve(l, CT, ref).Found? && !Resolve(l, VM, ref).Found? then DetachDisk(l, "container", ref, id)
      else None
  {
  }

  /** A type that is neither left open nor that of a workload, or a reference to no workload, is refused. */
  lemma DetachRefuses(l: Lab, typ: string, ref: string, id: string)
    requires IdentityOk(l) && typ != "" && !Vague(l, typ, ref) && forall w :: !Leads(l, typ, ref, w)
    ensures DetachDisk(l, typ, ref, id).None?
  {
    hide IdentityOk, ResolveDiskTarget, DhcpTarget, Leads, Vague, Somewhere;
    WhereTo(l, typ, ref);
  }

  // ---------------------------------------------------------------- creating and attaching

  predicate Unused(l: Lab, id: string) {
    ValidId(id) && forall i | 0 <= i < |l.disks| :: l.disks[i].id != id
  }

  lemma UnusedIsNew(l: Lab, id: string)
    ensures Unused(l, id) <==> NewDiskId(l, id)
  {
  }

  /** The disk is last and attached to the workload, nothing else is attached to it, and its path follows. */
  ghost predicate PlacedNew(l: Lab, m: Lab, d: Disk, typ: string, w: string, path: string) {
    && |m.disks| == |l.disks| + 1 && ReleasedFrom(l.disks, m.disks[..|l.disks|], typ, w)
    && m.disks[|l.disks|] == d.(attachedType := typ, attachedTo := w)
    && PathSet(l, m, typ, w, path)
  }

  lemma PlacesNew(l: Lab, d: Disk, to: Destination, path: string)
    requires Somewhere(l, to)
    ensures PlacedNew(l, WithPath(AppendDisk(Vacate(l, to.typ, to.id), Attached(d, to)), to.typ, to.id, path), d, to.typ, to.id, path)
  {
    hide WithPath, PathOf, Somewhere, SameButDisks, IsTarget;
    var v := Vacate(l, to.typ, to.id);
    var m := WithPath(AppendDisk(v, Attached(d, to)), to.typ, to.id, path);
    NewDiskRecords(l, d, to, path);
    VacateIsSameButDisks(l, to);
    StillSomewhere(l, v, to);
    SetPathIsSameButDisks(v, v.disks + [Attached(d, to)], to, path);
    SameButDisksTransitive(l, v, m);
    assert m.disks[..|l.disks|] == ReleaseAll(l.disks, to.typ, to.id);
  }

  /** A disk can be created under any well-formed unused id, alone or on the workload the reference leads to. */
  lemma CreatesExactly(l: Lab, id: string, typ: string, ref: string, path: string, resolve: PathFn)
    requires Valid(l, resolve)
    ensures CreateDisk(l, id, None, path, resolve) ==
      if Unused(l, id) then Some(l.(disks := l.disks + [Disk(id, path, "base", "", "", "")])) else None
    ensures CreateDisk(l, id, Some(Destination(typ, ref)), path, resolve).Some?
      <==> Unused(l, id) && ref != "" && exists w :: Leads(l, typ, ref, w)
    ensures forall w | Leads(l, typ, ref, w) && CreateDisk(l, id, Some(Destination(typ, ref)), path, resolve).Some? ::
      PlacedNew(l, CreateDisk(l, id, Some(Destination(typ, ref)), path, resolve).value, Disk(id, path, "base", "", "", ""), typ, w, resolve(path))
  {
    hide Valid, WithPath, ResolveDiskTarget, DhcpTarget, Somewhere, Leads, IdentityOk, NewDiskId, Unused, PlacedNew, Vacate;
    ValidDisks(l, resolve);
    UnusedIsNew(l, id);
    WhereTo(l, typ, ref);
    var to := ResolveDiskTarget(l, typ, ref);
    var d := Disk(id, path, "base", "", "", "");
    if to.Some? && !DhcpTarget(l, to.value) && !Nowhere(to.value) {
      PlacesNew(l, d, to.value, resolve(path));
      AppendedIs(l, d, to.value, resolve);
    }
  }

  predicate IsBaseDisk(l: Lab, id: string) {
    exists i | 0 <= i < |l.disks| :: l.disks[i].id == id && (l.disks[i].kind == "base" || l.disks[i].kind == "")
  }

  lemma LayersNeedBase(l: Lab, base: string, layer: string)
    requires DistinctIds(l.disks)
    ensures LayerOk(l, base, layer) <==> IsBaseDisk(l, base) && Unused(l, layer)
  {
    hide ValidId;
    if IsBaseDisk(l, base) {
      var i :| 0 <= i < |l.disks| && l.disks[i].id == base && (l.disks[i].kind == "base" || l.disks[i].kind == "");
      FindsDisk(l.disks, i);
    }
  }

  /** A layer can be created on any base disk under any well-formed unused id; to be attached, its reference must lead to a workload or be vague. */
  lemma LayersExactly(l: Lab, base: string, layer: string, typ: string, ref: string, path: string, resolve: PathFn)
    requires Valid(l, resolve)
    ensures CreateLayer(l, base, layer, path) ==
      if IsBaseDisk(l, base) && Unused(l, layer) then Some(l.(disks := l.disks + [Disk(layer, path, "layer", base, "", "")])) else None
    ensures CreateLayerAndAttach(l, base, layer, typ, ref, path).Some?
      <==> IsBaseDisk(l, base) && Unused(l, layer) && (Vague(l, typ, ref) || exists w :: Leads(l, typ, ref, w))
    ensures forall w | Leads(l, typ, ref, w) && CreateLayerAndAttach(l, base, layer, typ, ref, path).Some? ::
      PlacedNew(l, CreateLayerAndAttach(l, base, layer, typ, ref, path).value, Disk(layer, path, "layer", base, "", ""), typ, w, path)
  {
    hide Valid, WithPath, ResolveDiskTarget, DhcpTarget, Somewhere, Leads, IdentityOk, IsBaseDisk, Unused, PlacedNew, Vacate, LayerOk, DistinctIds, Vague, AppendDisk;
    ValidDisks(l, resolve);
    LayersNeedBase(l, base, layer);
    WhereTo(l, typ, ref);
    var to := ResolveDiskTarget(l, typ, ref);
    if to.Some? && !DhcpTarget(l, to.value) && !Nowhere(to.value) {
      PlacesNew(l, Disk(layer, path, "layer", base, "", ""), to.value, path);
    }
  }

  /** What keeps a disk off a workload: another one has it, or it is a data disk and the workload a VM. */
  predicate KeptOff(d: Disk, typ: string, w: string) {
    (d.attachedType != "" && !(d.attachedType == typ && d.attachedTo == w)) || (d.kind == "data" && typ == "vm")
  }

  /** The disk is on the workload and nothing else is; but for the attachment it is as it was, with its kind written out. */
  ghost predicate PlacedAt(l: Lab, m: Lab, i: nat, typ: string, w: string, path: string)
    requires i < |l.disks|
  {
    && |m.disks| == |l.disks| && ReleasedFrom(l.disks, m.disks[i := Released(l.disks[i], typ, w)], typ, w)
    && m.disks[i] == l.disks[i].(kind := m.disks[i].kind, attachedType := typ, attachedTo := w)
    && m.disks[i].kind == (if l.disks[i].kind == "" then "base" else l.disks[i].kind)
    && PathSet(l, m, typ, w, path)
  }

  lemma PlacesAt(l: Lab, i: nat, d: Disk, to: Destination, resolve: PathFn)
    requires Somewhere(l, to) && i < |l.disks|
    requires d == l.disks[i].(kind := if l.disks[i].kind == "" then "base" else l.disks[i].kind)
    ensures PlacedAt(l, AttachAt(l, i, d, to, resolve), i, to.typ, to.id, resolve(l.disks[i].path))
  {
    hide WithPath, PathOf, Somewhere, SameButDisks, IsTarget;
    var v := Vacate(l, to.typ, to.id);
    var m := AttachAt(l, i, d, to, resolve);
    AttachedRecords(l, i, d, to, resolve);
    VacateIsSameButDisks(l, to);
    StillSomewhere(l, v, to);
    SetPathIsSameButDisks(v, v.disks[i := Attached(d, to)], to, resolve(d.path));
    SameButDisksTransitive(l, v, m);
    assert m.disks[i := Released(l.disks[i], to.typ, to.id)] == ReleaseAll(l.disks, to.typ, to.id);
  }

  /** An existing disk can be attached to the workload the reference leads to exactly if nothing keeps it off. */
  lemma AttachesExactly(l: Lab, i: nat, typ: string, ref: string, resolve: PathFn)
    requires Valid(l, resolve) && i < |l.disks|
    ensures AttachDisk(l, l.disks[i].id, Destination(typ, ref), resolve).Some?
      <==> ref != "" && exists w :: Leads(l, typ, ref, w) && !KeptOff(l.disks[i], typ, w)
    ensures forall w | Leads(l, typ, ref, w) && AttachDisk(l, l.disks[i].id, Destination(typ, ref), resolve).Some? ::
      PlacedAt(l, AttachDisk(l, l.disks[i].id, Destination(typ, ref), resolve).value, i, typ, w, resolve(l.disks[i].path))
  {
    hide Valid, WithPath, ResolveDiskTarget, DhcpTarget, Somewhere, Leads, IdentityOk, PlacedAt, Vacate, DistinctIds, AttachAt;
    ValidDisks(l, resolve);
    FindsDisk(l.disks, i);
    DiskFacts(l, i, resolve);
    WhereTo(l, typ, ref);
    var to := ResolveDiskTarget(l, typ, ref);
    var d := l.disks[i];
    if to.Some? && !DhcpTarget(l, to.value) && !Nowhere(to.value) {
      var e := d.(kind := if d.kind == "" then "base" else d.kind);
      PlacesAt(l, i, e, to.value, resolve);
      assert d.kind == "layer" ==> e == d;
      assert d.kind != "layer" ==> e == d.(kind := if DiskKind(d) == "data" then "data" else "base", base := "");
      assert BusyElsewhere(d, to.value) <==> d.attachedType != "" && !(d.attachedType == typ && d.attachedTo == to.value.id);
    }
  }

  /** On a valid lab: the kinds there are, which disks have a base, and that it exists. */
  lemma DiskFacts(l: Lab, i: nat, resolve: PathFn)
    requires Valid(l, resolve) && i < |l.disks|
    ensures var d := l.disks[i];
      && d.kind in {"", "base", "layer", "data"} && (d.kind == "layer" <==> d.base != "")
      && (d.base != "" ==> FindDisk(l.disks, d.base) < |l.disks|)
      && (d.attachedType == "" <==> d.attachedTo == "")
  {
    hide IdentityOk;
    ValidDisks(l, resolve);
    assert DiskOk(l, l.disks[i], resolve);
    if l.disks[i].attachedType != "" { AttachedIsNamed(l, l.disks[i], resolve); }
  }

  lemma AttachedIsNamed(l: Lab, d: Disk, resolve: PathFn)
    requires IdentityOk(l) && AttachmentOk(l, d, resolve) && d.attachedType != ""
    ensures d.attachedTo != ""
  {
    hide IdentityOk;
    var typ := d.attachedType;
    var k := if typ == "vm" then VM else CT;
    FindWorkloadIsFind(l, k, d.attachedTo);
    if typ in {"vm", "container"} { FindsNode(l, k, Find(l, k, d.attachedTo)); }
  }

  lemma UnknownDisk(l: Lab, id: string, to: Destination, newId: string, offline: bool, resolve: PathFn)
    requires forall i | 0 <= i < |l.disks| :: l.disks[i].id != id
    ensures AttachDisk(l, id, to, resolve).None? && MergeDisk(l, id, offline).None? && RenameDisk(l, id, newId).None? && DeleteDisk(l, id).None?
  {
  }

  // ---------------------------------------------------------------- merging, renaming, deleting

  /** The disks without disk i. */
  ghost predicate LacksDisk(before: seq<Disk>, after: seq<Disk>, i: nat) {
    && i < |before| && |after| == |before| - 1
    && forall j | 0 <= j < |before| && j != i :: after[if j < i then j else j - 1] == before[j]
  }

  /** A layer can be merged exactly if its workload, if it has one, is off line; the layer and the workload's path go. */
  lemma MergesExactly(l: Lab, i: nat, offline: bool, resolve: PathFn)
    requires Valid(l, resolve) && i < |l.disks|
    ensures var d := l.disks[i]; var after := MergeDisk(l, d.id, offline);
      && (after.Some? <==> d.kind == "layer" && (d.attachedType == "" || offline))
      && (after.Some? ==>
            && LacksDisk(l.disks, after.value.disks, i)
            && if d.attachedType == "" then after.value == l.(disks := after.value.disks)
               else PathSet(l, after.value, d.attachedType, d.attachedTo, ""))
  {
    hide Valid, MergeAt, IdentityOk, DistinctIds, PathSet, LacksDisk;
    ValidDisks(l, resolve);
    FindsDisk(l.disks, i);
    DiskFacts(l, i, resolve);
    MergedRecords(l, i, resolve);
  }

  lemma MergedRecords(l: Lab, i: nat, resolve: PathFn)
    requires Valid(l, resolve) && i < |l.disks|
    ensures var d := l.disks[i]; var m := MergeAt(l, i);
      && LacksDisk(l.disks, m.disks, i)
      && if d.attachedType == "" then m == l.(disks := m.disks) else PathSet(l, m, d.attachedType, d.attachedTo, "")
  {
    hide Valid, WithPath, Somewhere, PathSet;
    DiskFacts(l, i, resolve);
    var d := l.disks[i];
    var disks := l.disks[..i] + l.disks[i + 1..];
    if d.attachedType != "" {
      HolderIsSomewhere(l, i, resolve);
      SetPathRecords(l, disks, Destination(d.attachedType, d.attachedTo), "");
      WithPathCommutes(l, disks, d.attachedType, d.attachedTo, "");
    }
  }

  lemma WithPathCommutes(l: Lab, disks: seq<Disk>, typ: string, id: string, path: string)
    ensures WithPath(l, typ, id, path).(disks := disks) == WithPath(l.(disks := disks), typ, id, path)
    ensures WithPath(l, typ, id, path).disks == l.disks
  {
  }

  /** What a disk is attached to exists and is no DHCP service, since those have no path. */
  lemma HolderIsSomewhere(l: Lab, i: nat, resolve: PathFn)
    requires Valid(l, resolve) && i < |l.disks| && l.disks[i].attachedType != ""
    ensures Somewhere(l, Destination(l.disks[i].attachedType, l.disks[i].attachedTo))
  {
    hide IdentityOk;
    ValidDisks(l, resolve);
    var d := l.disks[i];
    assert DiskOk(l, d, resolve);
    AttachedIsNamed(l, d, resolve);
  }

  /** A disk can be renamed to any well-formed unused id; the layers on it follow, and nothing else changes. */
  lemma RenamesExactly(l: Lab, i: nat, newId: string, resolve: PathFn)
    requires Valid(l, resolve) && i < |l.disks|
    ensures var d := l.disks[i]; var after := RenameDisk(l, d.id, newId);
      && (after.Some? <==> Unused(l, newId))
      && (after.Some? ==>
            && after.value == l.(disks := after.value.disks) && |after.value.disks| == |l.disks|
            && forall j | 0 <= j < |l.disks| :: after.value.disks[j]
                 == l.disks[j].(id := if j == i then newId else l.disks[j].id, base := if l.disks[j].base == d.id then newId else l.disks[j].base))
  {
    hide Valid, IdentityOk, DistinctIds, NewDiskId, Unused;
    ValidDisks(l, resolve);
    FindsDisk(l.disks, i);
    UnusedIsNew(l, newId);
    forall j | 0 <= j < |l.disks| && DiskKind(l.disks[i]) != "base"
      ensures l.disks[j].base != l.disks[i].id
    {
      NobodyOn(l, i, resolve);
      assert l.disks[j] in l.disks;
    }
    forall j | 0 <= j < |l.disks| && l.disks[j].base == l.disks[i].id
      ensures j != i
    {
      assert DiskOk(l, l.disks[i], resolve);
      OwnBase(l, i, resolve);
    }
  }

  lemma OwnBase(l: Lab, i: nat, resolve: PathFn)
    requires Valid(l, resolve) && i < |l.disks|
    ensures l.disks[i].base != l.disks[i].id
  {
    assert DiskOk(l, l.disks[i], resolve);
  }

  /** A disk can be deleted exactly if it is attached to nothing and no layer rests on it; it alone goes. */
  lemma DeletesExactly(l: Lab, i: nat, resolve: PathFn)
    requires Valid(l, resolve) && i < |l.disks|
    ensures var d := l.disks[i]; var after := DeleteDisk(l, d.id);
      && (after.Some? <==> d.attachedType == "" && forall j | 0 <= j < |l.disks| :: l.disks[j].base != d.id)
      && (after.Some? ==> LacksDisk(l.disks, after.value.disks, i) && after.value == l.(disks := after.value.disks))
  {
    hide Valid, IdentityOk, DistinctIds, LacksDisk, WithoutDisk;
    ValidDisks(l, resolve);
    FindsDisk(l.disks, i);
    DiskFacts(l, i, resolve);
    WithoutLacks(l, i);
    forall j | 0 <= j < |l.disks| && DiskKind(l.disks[i]) != "base"
      ensures l.disks[j].base != l.disks[i].id
    {
      NobodyOn(l, i, resolve);
      assert l.disks[j] in l.disks;
    }
  }

  lemma WithoutLacks(l: Lab, i: nat)
    requires i < |l.disks|
    ensures var m := WithoutDisk(l, i); LacksDisk(l.disks, m.disks, i) && m == l.(disks := m.disks)
  {
  }
}
