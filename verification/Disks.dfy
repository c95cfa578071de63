/**
 Disks and layers: create, attach, detach, merge, rename, delete. A disk's attachment and the disk path
 of its workload are two records of one fact, which every operation has to move together. The image
 commands behind the operations are foreign; what is modelled is the lab they leave.
 */
module Disks {
  import opened Numerals
  import opened LabModel
  import opened Lookup
  import opened NetworkLinks
  import opened DirectLinks

  // ---------------------------------------------------------------- the two records

  function Released(d: Disk, typ: string, id: string): Disk {
    if d.attachedType == typ && d.attachedTo == id then d.(attachedType := "", attachedTo := "") else d
  }

  /** detachDisksForNode: whatever is attached to the workload no longer is. */
  function ReleaseAll(disks: seq<Disk>, typ: string, id: string): seq<Disk> {
    seq(|disks|, i requires 0 <= i < |disks| => Released(disks[i], typ, id))
  }

  function WithPath(l: Lab, typ: string, id: string, path: string): Lab {
    var ws := Group(l, typ);
    var i := FindWorkload(ws, id);
    if i == |ws| then l
    else
      var changed := ws[i := ws[i].(disk := path)];
      if typ == "vm" then l.(vms := changed) else l.(containers := changed)
  }

  /** detachActiveDisk. */
  function Vacate(l: Lab, typ: string, id: string): Lab {
    WithPath(l.(disks := ReleaseAll(l.disks, typ, id)), typ, id, "")
  }

  method SetWorkloadDisk(s: LabState, typ: string, id: string, path: string)
    modifies s
    ensures s.View() == WithPath(old(s.View()), typ, id, path)
  {
    if typ == "vm" {
      for i := 0 to |s.vms|
        invariant s.View() == old(s.View()) && FindWorkload(s.vms, id) >= i
      {
        if s.vms[i].id == id {
          s.vms := s.vms[i := s.vms[i].(disk := path)];
          return;
        }
      }
    } else if typ == "container" {
      for i := 0 to |s.containers|
        invariant s.View() == old(s.View()) && FindWorkload(s.containers, id) >= i
      {
        if s.containers[i].id == id {
          s.containers := s.containers[i := s.containers[i].(disk := path)];
          return;
        }
      }
    }
  }

  method DetachDisksForNode(s: LabState, typ: string, id: string)
    modifies s
    ensures s.View() == old(s.View()).(disks := ReleaseAll(old(s.disks), typ, id))
  {
    ghost var before := s.disks;
    for i := 0 to |s.disks|
      invariant s.View() == old(s.View()).(disks := s.disks) && |s.disks| == |before|
      invariant forall j | 0 <= j < |before| :: s.disks[j] == if j < i then Released(before[j], typ, id) else before[j]
    {
      if s.disks[i].attachedType == typ && s.disks[i].attachedTo == id {
        s.disks := s.disks[i := s.disks[i].(attachedType := "", attachedTo := "")];
      }
    }
    assert s.disks == ReleaseAll(before, typ, id);
  }

  method DetachActiveDisk(s: LabState, typ: string, id: string)
    modifies s
    ensures s.View() == Vacate(old(s.View()), typ, id)
  {
    DetachDisksForNode(s, typ, id);
    SetWorkloadDisk(s, typ, id, "");
  }

  // ---------------------------------------------------------------- where a disk is to go

  datatype Destination = Destination(typ: string, id: string)

  function WorkloadKind(typ: string): Option<Kind> {
    if typ == "vm" then Some(VM) else if typ == "container" then Some(CT) else None
  }

  /**
   resolveDiskTarget. Where resolution fails it answers with the verdict of a second, more lenient
   lookup, and an empty destination if that lookup finds something.
   */
  function ResolveDiskTarget(l: Lab, typ: string, ref: string): Option<Destination> {
    var k := WorkloadKind(typ);
    if k.None? then None
    else
      var r := Resolve(l, k.value, ref);
      if r.Found? then Some(Destination(typ, r.id))
      else if FirstMatch(l, k.value, ref) < Count(l, k.value) then Some(Destination("", ""))
      else None
  }

  function Unnamed(l: Lab, k: Kind): nat {
    Matches(l, k, "", true, Count(l, k))
  }

  lemma {:induction false} SomeMatch(l: Lab, k: Kind, text: string, byName: bool, n: nat, i: nat)
    requires i < n <= Count(l, k) && Value(NodeAt(l, k, i), byName) == text
    ensures Matches(l, k, text, byName, n) >= 1
  {
    if i < n - 1 { SomeMatch(l, k, text, byName, n - 1, i); }
  }

  /** On a valid lab the empty destination comes out exactly for an empty reference that two or more unnamed workloads match. */
  lemma EmptyDestinationExactly(l: Lab, typ: string, ref: string)
    requires IdentityOk(l)
    ensures ResolveDiskTarget(l, typ, ref) == Some(Destination("", ""))
       <==> WorkloadKind(typ).Some? && ref == "" && Unnamed(l, WorkloadKind(typ).value) > 1
  {
    hide IdentityOk, Resolve, Matches;
    var k := WorkloadKind(typ);
    if k.Some? {
      if ref != "" {
        ResolveAgreesWithFirstMatch(l, k.value, ref);
      } else {
        EmptyTextMatchesUnnamed(l, k.value);
        UnnamedAnswers(l, k.value);
      }
    }
  }

  lemma UnnamedAnswers(l: Lab, k: Kind)
    requires IdentityOk(l)
    ensures FirstMatch(l, k, "") < Count(l, k) <==> Unnamed(l, k) > 0
  {
    hide Matches;
    var i := FirstMatch(l, k, "");
    if i < Count(l, k) {
      assert NameOk(NodeAt(l, k, i));
      SomeMatch(l, k, "", true, Count(l, k), i);
    } else {
      NoMatch(l, k, "", true, Count(l, k));
    }
  }

  predicate DhcpTarget(l: Lab, to: Destination) {
    to.typ == "container" && ManagedDhcp(l, CT, to.id)
  }

  // ---------------------------------------------------------------- the operations as functions

  function Attached(d: Disk, to: Destination): Disk {
    d.(attachedType := to.typ, attachedTo := to.id)
  }

  /** The workload is vacated, then disk `index` becomes `d` attached to it, and the workload's path follows. */
  function AttachAt(l: Lab, index: nat, d: Disk, to: Destination, resolve: PathFn): Lab
    requires index < |l.disks|
  {
    var m := Vacate(l, to.typ, to.id);
    WithPath(m.(disks := m.disks[index := Attached(d, to)]), to.typ, to.id, resolve(d.path))
  }

  function AppendAttached(l: Lab, d: Disk, to: Destination, resolve: PathFn): Lab {
    var m := Vacate(l, to.typ, to.id);
    WithPath(m.(disks := m.disks + [Attached(d, to)]), to.typ, to.id, resolve(d.path))
  }

  predicate NewDiskId(l: Lab, id: string) {
    ValidId(id) && FindDisk(l.disks, id) == |l.disks|
  }

  function CreateDisk(l: Lab, id: string, target: Option<Destination>, path: string, resolve: PathFn): Option<Lab> {
    if !NewDiskId(l, id) then None
    else if target.None? then Some(l.(disks := l.disks + [Disk(id, path, "base", "", "", "")]))
    else if target.value.id == "" then None
    else
      var to := ResolveDiskTarget(l, target.value.typ, target.value.id);
      if to.None? || DhcpTarget(l, to.value) then None
      else Some(AppendAttached(l, Disk(id, path, "base", "", "", ""), to.value, resolve))
  }

  predicate BusyElsewhere(d: Disk, to: Destination) {
    d.attachedTo != "" && (d.attachedType != to.typ || d.attachedTo != to.id)
  }

  /** AttachDisk with its three activations: layers stay layers, data disks go to containers only. */
  function AttachDisk(l: Lab, id: string, target: Destination, resolve: PathFn): Option<Lab> {
    var i := FindDisk(l.disks, id);
    if i == |l.disks| || target.id == "" then None
    else
      var d := l.disks[i];
      var to := ResolveDiskTarget(l, target.typ, target.id);
      if to.None? || DhcpTarget(l, to.value) || BusyElsewhere(d, to.value) then None
      else
        var kind := DiskKind(d);
        if kind == "data" && target.typ == "vm" then None
        else if kind == "layer" then
          if d.base == "" || FindDisk(l.disks, d.base) == |l.disks| then None
          else Some(AttachAt(l, i, d, to.value, resolve))
        else Some(AttachAt(l, i, d.(kind := if kind == "data" then "data" else "base", base := ""), to.value, resolve))
  }

  predicate LayerOk(l: Lab, base: string, layer: string) {
    && FindDisk(l.disks, base) < |l.disks| && DiskKind(l.disks[FindDisk(l.disks, base)]) == "base"
    && NewDiskId(l, layer)
  }

  function CreateLayer(l: Lab, base: string, layer: string, path: string): Option<Lab> {
    if !LayerOk(l, base, layer) then None
    else Some(l.(disks := l.disks + [Disk(layer, path, "layer", base, "", "")]))
  }

  function CreateLayerAndAttach(l: Lab, base: string, layer: string, typ: string, ref: string, path: string): Option<Lab> {
    var to := ResolveDiskTarget(l, typ, ref);
    if !LayerOk(l, base, layer) || to.None? || DhcpTarget(l, to.value) then None
    else Some(WithPath(AppendDisk(Vacate(l, to.value.typ, to.value.id), Attached(Disk(layer, path, "layer", base, "", ""), to.value)),
                       to.value.typ, to.value.id, path))
  }

  function AppendDisk(l: Lab, d: Disk): Lab {
    l.(disks := l.disks + [d])
  }

  function InferType(l: Lab, ref: string): Option<string> {
    var vm, ct := Resolve(l, VM, ref).Found?, Resolve(l, CT, ref).Found?;
    if vm && ct then None else if vm then Some("vm") else if ct then Some("container") else None
  }

  function AttachedIndex(disks: seq<Disk>, to: Destination, id: string, from: nat := 0): (i: nat)
    requires from <= |disks|
    ensures from <= i <= |disks|
    ensures i < |disks| ==> disks[i].attachedType == to.typ && disks[i].attachedTo == to.id
    decreases |disks| - from
  {
    if from == |disks| then from
    else
      var d := disks[from];
      if d.attachedType == to.typ && d.attachedTo == to.id && (id == "" || d.id == id || d.base == id) then from
      else AttachedIndex(disks, to, id, from + 1)
  }

  function DetachAt(l: Lab, i: nat, to: Destination): Lab
    requires i < |l.disks|
  {
    WithPath(l.(disks := l.disks[i := l.disks[i].(attachedType := "", attachedTo := "")]), to.typ, to.id, "")
  }

  function DetachDisk(l: Lab, typ: string, ref: string, id: string): Option<Lab> {
    if typ !in {"", "vm", "container"} then None
    else
      var known := if typ == "" then InferType(l, ref) else Some(typ);
      if known.None? then None
      else
        var to := ResolveDiskTarget(l, known.value, ref);
        if to.None? || DhcpTarget(l, to.value) then None
        else
          var i := AttachedIndex(l.disks, to.value, id);
          if i == |l.disks| then None else Some(DetachAt(l, i, to.value))
  }

  function WithoutDisk(l: Lab, i: nat): Lab
    requires i < |l.disks|
  {
    l.(disks := l.disks[..i] + l.disks[i + 1..])
  }

  /** applyDiskMerge: the layer disappears into its base, and its workload loses the disk. */
  function MergeAt(l: Lab, i: nat): Lab
    requires i < |l.disks|
  {
    var d := l.disks[i];
    WithoutDisk(if d.attachedType != "" && d.attachedTo != "" then WithPath(l, d.attachedType, d.attachedTo, "") else l, i)
  }

  function MergeDisk(l: Lab, id: string, offline: bool): Option<Lab> {
    var i := FindDisk(l.disks, id);
    if i == |l.disks| || DiskKind(l.disks[i]) != "layer" then None
    else
      var d := l.disks[i];
      if (d.attachedType != "" && d.attachedTo != "" && !offline) || FindDisk(l.disks, d.base) == |l.disks| then None
      else Some(MergeAt(l, i))
  }

  function Rebased(d: Disk, old_: string, new_: string): Disk {
    if d.base == old_ then d.(base := new_) else d
  }

  function RenameAt(l: Lab, i: nat, newId: string): Lab
    requires i < |l.disks|
  {
    var id := l.disks[i].id;
    var renamed := l.disks[i := l.disks[i].(id := newId)];
    l.(disks := if DiskKind(l.disks[i]) == "base"
                then seq(|renamed|, j requires 0 <= j < |renamed| => Rebased(renamed[j], id, newId)) else renamed)
  }

  function RenameDisk(l: Lab, id: string, newId: string): Option<Lab> {
    var i := FindDisk(l.disks, id);
    if i == |l.disks| || !NewDiskId(l, newId) then None else Some(RenameAt(l, i, newId))
  }

  predicate IsBaseOf(disks: seq<Disk>, id: string) {
    exists j | 0 <= j < |disks| :: disks[j].base == id
  }

  function DeleteDisk(l: Lab, id: string): Option<Lab> {
    var i := FindDisk(l.disks, id);
    if i == |l.disks| || l.disks[i].attachedTo != "" || (DiskKind(l.disks[i]) == "base" && IsBaseOf(l.disks, id)) then None
    else Some(WithoutDisk(l, i))
  }

  // ---------------------------------------------------------------- the operations in place

  method DiskIndexById(disks: seq<Disk>, id: string) returns (i: nat)
    ensures i == FindDisk(disks, id)
  {
    for j := 0 to |disks|
      invariant forall h | 0 <= h < j :: disks[h].id != id
    {
      if disks[j].id == id {
        return j;
      }
    }
    return |disks|;
  }

  method DiskTarget(l: Lab, typ: string, ref: string) returns (to: Option<Destination>)
    ensures to == ResolveDiskTarget(l, typ, ref)
  {
    var k := WorkloadKind(typ);
    if k.None? {
      return None;
    }
    var r := ResolveOne(l, k.value, ref);
    if r.Found? {
      return Some(Destination(typ, r.id));
    }
    for i := 0 to Count(l, k.value)
      invariant FirstMatch(l, k.value, ref) >= i
    {
      if NodeAt(l, k.value, i).id == ref || NodeAt(l, k.value, i).name == ref {
        return Some(Destination("", ""));
      }
    }
    return None;
  }

  /** The outcome every operation promises: the lab it computes, or a refusal that wrote nothing. */
  twostate predicate Did(s: LabState, ok: bool, after: Option<Lab>)
    reads s
  {
    match after case None => !ok && s.View() == old(s.View()) case Some(m) => ok && s.View() == m
  }

  method DiskCreate(s: LabState, id: string, target: Option<Destination>, path: string, resolve: PathFn) returns (ok: bool)
    modifies s
    ensures Did(s, ok, CreateDisk(old(s.View()), id, target, path, resolve))
  {
    var l := s.View();
    var index := DiskIndexById(s.disks, id);
    if !ValidId(id) || index < |s.disks| {
      return false;
    }
    var disk := Disk(id, path, "base", "", "", "");
    if target.Some? {
      if target.value.id == "" {
        return false;
      }
      var to := DiskTarget(l, target.value.typ, target.value.id);
      if to.None? || DhcpTarget(l, to.value) {
        return false;
      }
      disk := disk.(attachedType := to.value.typ, attachedTo := to.value.id);
      DetachActiveDisk(s, to.value.typ, to.value.id);
      SetWorkloadDisk(s, to.value.typ, to.value.id, resolve(path));
    }
    s.disks := s.disks + [disk];
    return true;
  }

  /** The common part of the three activations. */
  method Activate(s: LabState, index: nat, kind: string, base: string, to: Destination, resolve: PathFn)
    requires index < |s.disks|
    modifies s
    ensures s.View() == AttachAt(old(s.View()), index, old(s.disks[index]).(kind := kind, base := base), to, resolve)
  {
    var path := s.disks[index].path;
    DetachActiveDisk(s, to.typ, to.id);
    s.disks := s.disks[index := s.disks[index].(kind := kind, base := base)];
    s.disks := s.disks[index := s.disks[index].(attachedType := to.typ, attachedTo := to.id)];
    SetWorkloadDisk(s, to.typ, to.id, resolve(path));
  }

  method DiskAttach(s: LabState, id: string, target: Destination, resolve: PathFn) returns (ok: bool)
    modifies s
    ensures Did(s, ok, AttachDisk(old(s.View()), id, target, resolve))
  {
    var l := s.View();
    var index := DiskIndexById(s.disks, id);
    if index == |s.disks| || target.id == "" {
      return false;
    }
    var disk := s.disks[index];
    var to := DiskTarget(l, target.typ, target.id);
    if to.None? || DhcpTarget(l, to.value) {
      return false;
    }
    if target.typ != "container" && DiskKind(disk) == "data" {
      return false;
    }
    if BusyElsewhere(disk, to.value) {
      return false;
    }
    if DiskKind(disk) == "layer" {
      var base := DiskIndexById(s.disks, disk.base);
      if disk.base == "" || base == |s.disks| {
        return false;
      }
      Activate(s, index, disk.kind, disk.base, to.value, resolve);
    } else if DiskKind(disk) == "data" {
      Activate(s, index, "data", "", to.value, resolve);
    } else {
      Activate(s, index, "base", "", to.value, resolve);
    }
    return true;
  }

  method DiskLayerCreate(s: LabState, base: string, layer: string, path: string) returns (ok: bool)
    modifies s
    ensures Did(s, ok, CreateLayer(old(s.View()), base, layer, path))
  {
    var at := DiskIndexById(s.disks, base);
    var taken := DiskIndexById(s.disks, layer);
    if at == |s.disks| || DiskKind(s.disks[at]) != "base" || !ValidId(layer) || taken < |s.disks| {
      return false;
    }
    s.disks := s.disks + [Disk(layer, path, "layer", base, "", "")];
    return true;
  }

  method DiskLayerCreateAndAttach(s: LabState, base: string, layer: string, typ: string, ref: string, path: string)
    returns (ok: bool)
    modifies s
    ensures Did(s, ok, CreateLayerAndAttach(old(s.View()), base, layer, typ, ref, path))
  {
    var l := s.View();
    var at := DiskIndexById(s.disks, base);
    var taken := DiskIndexById(s.disks, layer);
    if at == |s.disks| || DiskKind(s.disks[at]) != "base" || !ValidId(layer) || taken < |s.disks| {
      return false;
    }
    var to := DiskTarget(l, typ, ref);
    if to.None? || DhcpTarget(l, to.value) {
      return false;
    }
    DetachActiveDisk(s, to.value.typ, to.value.id);
    s.disks := s.disks + [Disk(layer, path, "layer", base, to.value.typ, to.value.id)];
    SetWorkloadDisk(s, to.value.typ, to.value.id, path);
    return true;
  }

  method AttachedDiskIndex(disks: seq<Disk>, to: Destination, id: string) returns (i: nat)
    ensures i == AttachedIndex(disks, to, id)
  {
    for j := 0 to |disks|
      invariant AttachedIndex(disks, to, id) == AttachedIndex(disks, to, id, j)
    {
      if disks[j].attachedType != to.typ || disks[j].attachedTo != to.id {
        continue;
      }
      if id == "" || disks[j].id == id || disks[j].base == id {
        return j;
      }
    }
    return |disks|;
  }

  method DiskDetach(s: LabState, typ: string, ref: string, id: string) returns (ok: bool)
    modifies s
    ensures Did(s, ok, DetachDisk(old(s.View()), typ, ref, id))
  {
    var l := s.View();
    if typ !in {"", "vm", "container"} {
      return false;
    }
    var known := typ;
    if typ == "" {
      var vm := ResolveOne(l, VM, ref);
      var ct := ResolveOne(l, CT, ref);
      if vm.Found? == ct.Found? {
        return false;
      }
      known := if vm.Found? then "vm" else "container";
    }
    var to := DiskTarget(l, known, ref);
    if to.None? || DhcpTarget(l, to.value) {
      return false;
    }
    var index := AttachedDiskIndex(s.disks, to.value, id);
    if index == |s.disks| {
      return false;
    }
    s.disks := s.disks[index := s.disks[index].(attachedType := "", attachedTo := "")];
    SetWorkloadDisk(s, to.value.typ, to.value.id, "");
    return true;
  }

  /**
   What the files and the commit do: the layer's contents flow into its base image (merges only), the file is moved
   aside, the lab is committed, and the moved file is removed.
   */
  datatype Files = Files(flattened: bool, moved: bool, committed: bool, removed: bool)

  /**
   The outcome where a file goes with the disk: once the commit has succeeded the lab stays changed, and the
   operation succeeds exactly if the file could be removed too.
   */
  twostate predicate DidWithFile(s: LabState, ok: bool, after: Option<Lab>, files: Files)
    reads s
  {
    if after.None? || !files.moved || !files.committed then !ok && s.View() == old(s.View())
    else (ok <==> files.removed) && s.View() == after.value
  }

  /** The rollback of a transaction whose commit failed. */
  method Rollback(s: LabState, l: Lab)
    modifies s
    ensures s.View() == l
  {
    s.vms, s.containers, s.switches, s.uplinks := l.vms, l.containers, l.switches, l.uplinks;
    s.links, s.disks, s.positions, s.layoutLinks := l.links, l.disks, l.positions, l.layoutLinks;
  }

  /**
   offline is what requireDiskOffline reports about the attached workload. flattened says whether the base image has
   taken in the layer, which happens before the file is moved and the lab changed, and is not undone.
   */
  method DiskMerge(s: LabState, id: string, offline: bool, files: Files) returns (ok: bool, flattened: bool)
    modifies s
    ensures flattened <==> MergeDisk(old(s.View()), id, offline).Some? && files.flattened
    ensures if flattened then DidWithFile(s, ok, MergeDisk(old(s.View()), id, offline), files) else !ok && s.View() == old(s.View())
  {
    flattened := false;
    var before := s.View();
    var index := DiskIndexById(s.disks, id);
    if index == |s.disks| || DiskKind(s.disks[index]) != "layer" {
      return false, flattened;
    }
    var disk := s.disks[index];
    var base := DiskIndexById(s.disks, disk.base);
    if (disk.attachedType != "" && disk.attachedTo != "" && !offline) || base == |s.disks| {
      return false, flattened;
    }
    flattened := files.flattened;
    if !flattened || !files.moved {
      return false, flattened;
    }
    if disk.attachedType != "" && disk.attachedTo != "" {
      SetWorkloadDisk(s, disk.attachedType, disk.attachedTo, "");
    }
    s.disks := s.disks[..index] + s.disks[index + 1..];
    if !files.committed {
      Rollback(s, before);
      return false, flattened;
    }
    return files.removed, true;
  }

  method DiskRename(s: LabState, id: string, newId: string) returns (ok: bool)
    modifies s
    ensures Did(s, ok, RenameDisk(old(s.View()), id, newId))
  {
    var index := DiskIndexById(s.disks, id);
    var taken := DiskIndexById(s.disks, newId);
    if index == |s.disks| || !ValidId(newId) || taken < |s.disks| {
      return false;
    }
    var disk := s.disks[index];
    s.disks := s.disks[index := disk.(id := newId)];
    if DiskKind(disk) == "base" {
      ghost var renamed := s.disks;
      for i := 0 to |s.disks|
        invariant s.View() == old(s.View()).(disks := s.disks) && |s.disks| == |renamed|
        invariant forall j | 0 <= j < |renamed| :: s.disks[j] == if j < i then Rebased(renamed[j], id, newId) else renamed[j]
      {
        if s.disks[i].base == id {
          s.disks := s.disks[i := s.disks[i].(base := newId)];
        }
      }
      assert s.disks == seq(|renamed|, j requires 0 <= j < |renamed| => Rebased(renamed[j], id, newId));
    }
    return true;
  }

  method DiskDelete(s: LabState, id: string, files: Files) returns (ok: bool)
    modifies s
    ensures DidWithFile(s, ok, DeleteDisk(old(s.View()), id), files)
  {
    var before := s.View();
    var index := DiskIndexById(s.disks, id);
    if index == |s.disks| || s.disks[index].attachedTo != "" {
      return false;
    }
    if DiskKind(s.disks[index]) == "base" {
      for i := 0 to |s.disks|
        invariant s.View() == old(s.View()) && forall j | 0 <= j < i :: s.disks[j].base != id
      {
        if s.disks[i].base == id {
          return false;
        }
      }
    }
    if !files.moved {
      return false;
    }
    s.disks := s.disks[..index] + s.disks[index + 1..];
    if !files.committed {
      Rollback(s, before);
      return false;
    }
    return files.removed;
  }
}
