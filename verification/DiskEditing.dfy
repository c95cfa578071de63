/** Every disk operation keeps a valid lab valid; what undoes what; and where success is reported for nothing. */
module DiskEditing {
  import opened Numerals
  import opened LabModel
  import opened Lookup
  import opened NetworkLinks
  import opened DirectLinks
  import opened Disks
  import opened DiskRules

  // ---------------------------------------------------------------- destinations

  predicate Nowhere(to: Destination) {
    to == Destination("", "")
  }

  /** An existing workload other than a DHCP service. */
  predicate Somewhere(l: Lab, to: Destination) {
    && to.typ in {"vm", "container"} && to.id != "" && IsTarget(l, to.typ, to.id)
    && (to.typ == "container" ==> !IsDhcp(l.containers[FindWorkload(l.containers, to.id)]))
  }

  lemma DestinationIsSomewhere(l: Lab, typ: string, ref: string)
    requires IdentityOk(l) && ResolveDiskTarget(l, typ, ref).Some? && !DhcpTarget(l, ResolveDiskTarget(l, typ, ref).value)
    ensures var to := ResolveDiskTarget(l, typ, ref).value; Nowhere(to) || (Somewhere(l, to) && to.typ == typ)
    ensures ref != "" ==> !Nowhere(ResolveDiskTarget(l, typ, ref).value)
  {
    hide IdentityOk, Resolve, ManagedDhcp, Unnamed;
    EmptyDestinationExactly(l, typ, ref);
    var k := WorkloadKind(typ).value;
    if Resolve(l, k, ref).Found? {
      var id := Resolve(l, k, ref).id;
      ResolvedId(l, k, ref);
      FindWorkloadIsFind(l, k, id);
      if k == CT { NotDhcp(l, k, id); }
    }
  }

  lemma SameButDisksTransitive(l: Lab, m: Lab, n: Lab)
    requires SameButDisks(l, m) && SameButDisks(m, n)
    ensures SameButDisks(l, n)
  {
  }

  lemma VacateIsSameButDisks(l: Lab, to: Destination)
    ensures var m := Vacate(l, to.typ, to.id); SameButDisks(l, m) && m.disks == ReleaseAll(l.disks, to.typ, to.id)
  {
    WithPathIsSameButDisks(l, ReleaseAll(l.disks, to.typ, to.id), to.typ, to.id, "");
  }

  lemma StillSomewhere(l: Lab, m: Lab, to: Destination)
    requires SameButDisks(l, m) && Somewhere(l, to)
    ensures Somewhere(m, to)
  {
    SameFindWorkload(Group(l, to.typ), Group(m, to.typ), to.id);
  }

  lemma SetPathIsSameButDisks(l: Lab, disks: seq<Disk>, to: Destination, path: string)
    requires Nowhere(to) || Somewhere(l, to)
    ensures SameButDisks(l, WithPath(l.(disks := disks), to.typ, to.id, path))
  {
    WithPathIsSameButDisks(l, disks, to.typ, to.id, path);
  }

  // ---------------------------------------------------------------- placing a disk

  lemma ResolvedPathAgrees(d: Disk, resolve: PathFn)
    requires PathsOk(resolve)
    ensures PathAgrees(resolve(d.path), d, resolve) && (d.path != "" ==> PathAgrees(d.path, d, resolve))
  {
  }

  lemma VacantFits(l: Lab, m: Lab, d: Disk, to: Destination, resolve: PathFn)
    requires Nowhere(to) || Somewhere(m, to)
    requires NoneAt(m.disks, to.typ, to.id) && Plain(d) && !(to.typ == "vm" && d.kind == "data")
    ensures Fits(m, Attached(d, to), resolve)
  {
    hide NoneAt;
  }

  /** Appending a new disk, attached to a vacated workload or to nothing. */
  lemma PlacingNewKeepsValid(l: Lab, d: Disk, to: Destination, path: string, resolve: PathFn)
    requires Valid(l, resolve) && (Nowhere(to) || Somewhere(l, to)) && Plain(d) && d.kind != "data"
    requires FindDisk(l.disks, d.id) == |l.disks| && BaseOk(l.disks, d) && PathAgrees(path, d, resolve)
    ensures Valid(WithPath(AppendDisk(Vacate(l, to.typ, to.id), Attached(d, to)), to.typ, to.id, path), resolve)
  {
    hide Valid, WithPath, Vacate, SameButDisks, Plain, BaseOk, Fits, NoneAt, PathAgrees, Somewhere;
    var m := Vacate(l, to.typ, to.id);
    var e := Attached(d, to);
    ValidDisks(l, resolve);
    VacateIsSameButDisks(l, to);
    VacateKeepsDisks(l, to.typ, to.id, resolve);
    if Somewhere(l, to) { StillSomewhere(l, m, to); }
    VacantFits(l, m, d, to, resolve);
    NewDiskAfterRelease(l, d, to, resolve);
    assert PathAgrees(path, e, resolve) by { SamePathAgrees(path, d, e, resolve); }
    AppendFitting(m, e, path, resolve);
    SetPathIsSameButDisks(m, m.disks + [e], to, path);
    SameButDisksTransitive(l, m, WithPath(AppendDisk(m, e), to.typ, to.id, path));
    SameButDisksKeeps(l, WithPath(AppendDisk(m, e), to.typ, to.id, path), resolve);
  }

  lemma ValidDisks(l: Lab, resolve: PathFn)
    requires Valid(l, resolve)
    ensures IdentityOk(l) && DhcpOk(l) && DisksOk(l, resolve) && DistinctIds(l.disks)
  {
    DisksInWords(l, resolve);
  }

  lemma SamePathAgrees(path: string, d: Disk, e: Disk, resolve: PathFn)
    requires PathAgrees(path, d, resolve) && e.path == d.path
    ensures PathAgrees(path, e, resolve)
  {
  }

  lemma {:induction false} SameFindDisk(disks: seq<Disk>, after: seq<Disk>, id: string)
    requires |after| == |disks| && forall i | 0 <= i < |disks| :: after[i].id == disks[i].id
    ensures FindDisk(after, id) == FindDisk(disks, id)
  {
    if disks != [] { SameFindDisk(disks[1..], after[1..], id); }
  }

  lemma NewDiskAfterRelease(l: Lab, d: Disk, to: Destination, resolve: PathFn)
    requires DistinctIds(l.disks) && BaseOk(l.disks, d)
    ensures var disks := ReleaseAll(l.disks, to.typ, to.id);
      BaseOk(disks, Attached(d, to)) && FindDisk(disks, d.id) == FindDisk(l.disks, d.id)
  {
    hide BaseOk;
    var disks := ReleaseAll(l.disks, to.typ, to.id);
    SameFindDisk(l.disks, disks, d.id);
    ReleasedKeepsBases(l.disks, to.typ, to.id, d);
    SameBase(disks, Released(d, to.typ, to.id), Attached(d, to));
  }

  /** Putting an existing disk on a vacated workload. */
  lemma PlacingKeepsValid(l: Lab, i: nat, d: Disk, to: Destination, resolve: PathFn)
    requires Valid(l, resolve) && PathsOk(resolve) && Somewhere(l, to) && i < |l.disks|
    requires d == l.disks[i].(kind := d.kind) && DiskKind(d) == DiskKind(l.disks[i]) && d.kind in {"", "base", "layer", "data"}
    requires !(to.typ == "vm" && d.kind == "data")
    ensures Valid(AttachAt(l, i, d, to, resolve), resolve)
  {
    hide Valid, WithPath, Vacate, SameButDisks, Plain, BaseOk, Fits, NoneAt, PathAgrees, Somewhere, PathsOk, DiskKind;
    var m := Vacate(l, to.typ, to.id);
    var e := Attached(d, to);
    var path := resolve(d.path);
    ValidDisks(l, resolve);
    VacateIsSameButDisks(l, to);
    VacateKeepsDisks(l, to.typ, to.id, resolve);
    StillSomewhere(l, m, to);
    PlacedDisk(l, i, d, to, resolve);
    VacantFits(l, m, d, to, resolve);
    ResolvedPathAgrees(e, resolve);
    ChangeFitting(m, i, e, path, resolve);
    SetPathIsSameButDisks(m, m.disks[i := e], to, path);
    SameButDisksTransitive(l, m, WithPath(m.(disks := m.disks[i := e]), to.typ, to.id, path));
    SameButDisksKeeps(l, WithPath(m.(disks := m.disks[i := e]), to.typ, to.id, path), resolve);
  }

  lemma PlacedDisk(l: Lab, i: nat, d: Disk, to: Destination, resolve: PathFn)
    requires DisksOk(l, resolve) && i < |l.disks|
    requires d == l.disks[i].(kind := d.kind) && DiskKind(d) == DiskKind(l.disks[i]) && d.kind in {"", "base", "layer", "data"}
    ensures var disks := ReleaseAll(l.disks, to.typ, to.id);
      && Plain(d) && BaseOk(disks, Attached(d, to))
      && |disks| == |l.disks| && Attached(d, to).id == disks[i].id && DiskKind(Attached(d, to)) == DiskKind(disks[i])
  {
    hide BaseOk, DistinctIds, Apart, AttachmentOk, DisksOk, ValidId;
    var disks := ReleaseAll(l.disks, to.typ, to.id);
    DisksInWords(l, resolve);
    assert l.disks[i] in l.disks;
    ReleasedKeepsBases(l.disks, to.typ, to.id, l.disks[i]);
    SameBaseAndKind(disks, Released(l.disks[i], to.typ, to.id), Attached(d, to));
  }

  lemma SameBaseAndKind(disks: seq<Disk>, d: Disk, e: Disk)
    requires BaseOk(disks, d) && e.id == d.id && DiskKind(e) == DiskKind(d) && e.base == d.base
    ensures BaseOk(disks, e)
  {
  }

  // ---------------------------------------------------------------- the operations keep a valid lab valid

  lemma CreateKeepsValid(l: Lab, id: string, target: Option<Destination>, path: string, resolve: PathFn)
    requires Valid(l, resolve) && PathsOk(resolve) && path != ""
    requires CreateDisk(l, id, target, path, resolve).Some?
    ensures Valid(CreateDisk(l, id, target, path, resolve).value, resolve)
  {
    hide Valid, WithPath, PathsOk, ResolveDiskTarget, DhcpTarget, Somewhere, AppendDisk, PathAgrees;
    var d := Disk(id, path, "base", "", "", "");
    ValidDisks(l, resolve);
    ResolvedPathAgrees(d, resolve);
    if target.Some? {
      DestinationIsSomewhere(l, target.value.typ, target.value.id);
      var to := ResolveDiskTarget(l, target.value.typ, target.value.id).value;
      assert AppendAttached(l, d, to, resolve)
          == WithPath(AppendDisk(Vacate(l, to.typ, to.id), Attached(d, to)), to.typ, to.id, resolve(path)) by { AppendedIs(l, d, to, resolve); }
      PlacingNewKeepsValid(l, d, to, resolve(path), resolve);
    } else {
      PlacingNewKeepsValid(l, d, Destination("", ""), path, resolve);
      PlacingNowhere(l, d, path, resolve);
    }
  }

  lemma AppendedIs(l: Lab, d: Disk, to: Destination, resolve: PathFn)
    ensures AppendAttached(l, d, to, resolve)
         == WithPath(AppendDisk(Vacate(l, to.typ, to.id), Attached(d, to)), to.typ, to.id, resolve(d.path))
  {
  }

  lemma PlacingNowhere(l: Lab, d: Disk, path: string, resolve: PathFn)
    requires DisksOk(l, resolve)
    requires d.attachedType == "" && d.attachedTo == ""
    ensures WithPath(AppendDisk(Vacate(l, "", ""), Attached(d, Destination("", ""))), "", "", path) == l.(disks := l.disks + [d])
  {
    assert ReleaseAll(l.disks, "", "") == l.disks;
    assert Attached(d, Destination("", "")) == d;
  }

  lemma AttachKeepsValid(l: Lab, id: string, target: Destination, resolve: PathFn)
    requires Valid(l, resolve) && PathsOk(resolve) && AttachDisk(l, id, target, resolve).Some?
    ensures Valid(AttachDisk(l, id, target, resolve).value, resolve)
  {
    hide Valid, PathsOk, ResolveDiskTarget, DhcpTarget, Somewhere, AttachAt;
    var i := FindDisk(l.disks, id);
    var d := l.disks[i];
    ValidDisks(l, resolve);
    DestinationIsSomewhere(l, target.typ, target.id);
    var to := ResolveDiskTarget(l, target.typ, target.id).value;
    NonLayerHasNoBase(l, i, resolve);
    if DiskKind(d) == "layer" {
      PlacingKeepsValid(l, i, d, to, resolve);
    } else {
      PlacingKeepsValid(l, i, d.(kind := if DiskKind(d) == "data" then "data" else "base", base := ""), to, resolve);
    }
  }

  lemma NonLayerHasNoBase(l: Lab, i: nat, resolve: PathFn)
    requires DisksOk(l, resolve) && i < |l.disks|
    ensures Plain(l.disks[i]) && (DiskKind(l.disks[i]) == "layer" <==> l.disks[i].base != "")
  {
    assert DiskOk(l, l.disks[i], resolve);
  }

  lemma NewLayerOk(l: Lab, base: string, layer: string, path: string, resolve: PathFn)
    requires DisksOk(l, resolve) && LayerOk(l, base, layer) && path != ""
    ensures Plain(Disk(layer, path, "layer", base, "", "")) && BaseOk(l.disks, Disk(layer, path, "layer", base, "", ""))
  {
    NonLayerHasNoBase(l, FindDisk(l.disks, base), resolve);
  }

  lemma CreateLayerKeepsValid(l: Lab, base: string, layer: string, path: string, resolve: PathFn)
    requires Valid(l, resolve) && PathsOk(resolve) && path != "" && CreateLayer(l, base, layer, path).Some?
    ensures Valid(CreateLayer(l, base, layer, path).value, resolve)
  {
    hide Valid, PathsOk, PathAgrees;
    var d := Disk(layer, path, "layer", base, "", "");
    ValidDisks(l, resolve);
    NewLayerOk(l, base, layer, path, resolve);
    ResolvedPathAgrees(d, resolve);
    PlacingNewKeepsValid(l, d, Destination("", ""), path, resolve);
    PlacingNowhere(l, d, path, resolve);
  }

  lemma CreateLayerAndAttachKeepsValid(l: Lab, base: string, layer: string, typ: string, ref: string, path: string, resolve: PathFn)
    requires Valid(l, resolve) && PathsOk(resolve) && path != "" && CreateLayerAndAttach(l, base, layer, typ, ref, path).Some?
    ensures Valid(CreateLayerAndAttach(l, base, layer, typ, ref, path).value, resolve)
  {
    hide Valid, PathsOk, PathAgrees, ResolveDiskTarget, DhcpTarget, Somewhere, WithPath;
    var d := Disk(layer, path, "layer", base, "", "");
    ValidDisks(l, resolve);
    NewLayerOk(l, base, layer, path, resolve);
    ResolvedPathAgrees(d, resolve);
    DestinationIsSomewhere(l, typ, ref);
    PlacingNewKeepsValid(l, d, ResolveDiskTarget(l, typ, ref).value, path, resolve);
  }

  lemma DetachIsVacate(l: Lab, i: nat, to: Destination, resolve: PathFn)
    requires DisksOk(l, resolve) && i < |l.disks| && l.disks[i].attachedType == to.typ && l.disks[i].attachedTo == to.id
    ensures DetachAt(l, i, to) == Vacate(l, to.typ, to.id)
  {
    hide WithPath, DistinctIds, BaseOk, AttachmentOk;
    DisksInWords(l, resolve);
    forall d | d in l.disks && d.attachedType == ""
      ensures d.attachedTo == ""
    {
      AttachmentInWords(l, d, resolve);
    }
    OnlyOneReleased(l.disks, i, to);
  }

  lemma OnlyOneReleased(disks: seq<Disk>, i: nat, to: Destination)
    requires Apart(disks) && i < |disks| && disks[i].attachedType == to.typ && disks[i].attachedTo == to.id
    requires forall d | d in disks && d.attachedType == "" :: d.attachedTo == ""
    ensures ReleaseAll(disks, to.typ, to.id) == disks[i := disks[i].(attachedType := "", attachedTo := "")]
  {
    var after := disks[i := disks[i].(attachedType := "", attachedTo := "")];
    forall j | 0 <= j < |disks|
      ensures Released(disks[j], to.typ, to.id) == after[j]
    {
      if j != i && to.typ != "" { assert !SameTarget(disks[j], disks[i]) && !SameTarget(disks[i], disks[j]); }
      assert disks[j] in disks;
    }
  }

  lemma VacateKeepsValid(l: Lab, to: Destination, resolve: PathFn)
    requires Valid(l, resolve)
    ensures Valid(Vacate(l, to.typ, to.id), resolve)
  {
    hide Valid, Vacate, SameButDisks;
    ValidDisks(l, resolve);
    VacateKeepsDisks(l, to.typ, to.id, resolve);
    VacateIsSameButDisks(l, to);
    SameButDisksKeeps(l, Vacate(l, to.typ, to.id), resolve);
  }

  lemma DetachKeepsValid(l: Lab, typ: string, ref: string, id: string, resolve: PathFn)
    requires Valid(l, resolve) && DetachDisk(l, typ, ref, id).Some?
    ensures Valid(DetachDisk(l, typ, ref, id).value, resolve)
  {
    hide Valid, ResolveDiskTarget, DhcpTarget, DetachAt, Vacate, InferType;
    ValidDisks(l, resolve);
    var known := if typ == "" then InferType(l, ref) else Some(typ);
    var to := ResolveDiskTarget(l, known.value, ref).value;
    DetachIsVacate(l, AttachedIndex(l.disks, to, id), to, resolve);
    VacateKeepsValid(l, to, resolve);
  }

  // ---------------------------------------------------------------- merge and delete

  lemma NobodyOn(l: Lab, i: nat, resolve: PathFn)
    requires DisksOk(l, resolve) && i < |l.disks| && DiskKind(l.disks[i]) != "base"
    ensures forall d | d in l.disks :: d.base != l.disks[i].id
  {
    hide AttachmentOk, Apart, DiskKind;
    DisksInWords(l, resolve);
    forall d | d in l.disks
      ensures d.base != l.disks[i].id
    {
      if d.base == l.disks[i].id {
        assert Plain(l.disks[i]) by { assert l.disks[i] in l.disks; }
        FindsDisk(l.disks, i);
        assert false;
      }
    }
  }

  lemma Attachment(l: Lab, i: nat, resolve: PathFn)
    requires DisksOk(l, resolve) && IdentityOk(l) && i < |l.disks|
    ensures l.disks[i].attachedType == "" <==> l.disks[i].attachedTo == ""
  {
    hide IdentityOk, BaseOk;
    var d := l.disks[i];
    assert DiskOk(l, d, resolve);
    if d.attachedType != "" {
      var k := if d.attachedType == "vm" then VM else CT;
      FindWorkloadIsFind(l, k, d.attachedTo);
      FindsNode(l, k, Find(l, k, d.attachedTo));
    }
  }

  lemma RemovingKeepsValid(l: Lab, i: nat, resolve: PathFn)
    requires Valid(l, resolve) && i < |l.disks| && forall d | d in l.disks :: d.base != l.disks[i].id
    ensures Valid(WithPath(WithoutDisk(l, i), l.disks[i].attachedType, l.disks[i].attachedTo, ""), resolve)
  {
    hide Valid, SameButDisks, WithPath;
    ValidDisks(l, resolve);
    var d := l.disks[i];
    RemoveKeepsDisks(l, i, resolve);
    WithPathIsSameButDisks(l, WithoutDisk(l, i).disks, d.attachedType, d.attachedTo, "");
    SameButDisksKeeps(l, WithPath(WithoutDisk(l, i), d.attachedType, d.attachedTo, ""), resolve);
  }

  lemma MergedIs(l: Lab, i: nat, resolve: PathFn)
    requires DisksOk(l, resolve) && IdentityOk(l) && i < |l.disks|
    ensures MergeAt(l, i) == WithPath(WithoutDisk(l, i), l.disks[i].attachedType, l.disks[i].attachedTo, "")
    ensures l.disks[i].attachedTo == "" ==> WithoutDisk(l, i) == MergeAt(l, i)
  {
    hide IdentityOk, DisksOk;
    Attachment(l, i, resolve);
  }

  lemma MergeKeepsValid(l: Lab, id: string, offline: bool, resolve: PathFn)
    requires Valid(l, resolve) && MergeDisk(l, id, offline).Some?
    ensures Valid(MergeDisk(l, id, offline).value, resolve)
  {
    hide Valid, WithPath, WithoutDisk;
    var i := FindDisk(l.disks, id);
    ValidDisks(l, resolve);
    MergedIs(l, i, resolve);
    NobodyOn(l, i, resolve);
    RemovingKeepsValid(l, i, resolve);
  }

  lemma DeleteKeepsValid(l: Lab, id: string, resolve: PathFn)
    requires Valid(l, resolve) && DeleteDisk(l, id).Some?
    ensures Valid(DeleteDisk(l, id).value, resolve)
  {
    hide Valid, WithPath, MergeAt, WithoutDisk;
    var i := FindDisk(l.disks, id);
    ValidDisks(l, resolve);
    MergedIs(l, i, resolve);
    if DiskKind(l.disks[i]) != "base" { NobodyOn(l, i, resolve); }
    RemovingKeepsValid(l, i, resolve);
  }

  // ---------------------------------------------------------------- renaming

  function Moved(id: string, from: string, to: string): string {
    if id == from then to else id
  }

  function Relabelled(d: Disk, from: string, to: string): Disk {
    d.(id := Moved(d.id, from, to), base := Moved(d.base, from, to))
  }

  function RelabelAll(disks: seq<Disk>, from: string, to: string): seq<Disk> {
    seq(|disks|, i requires 0 <= i < |disks| => Relabelled(disks[i], from, to))
  }

  /** In a valid lab renaming one entry and the references to base disks relabels the whole list. */
  lemma RenameRelabels(l: Lab, i: nat, newId: string, resolve: PathFn)
    requires DisksOk(l, resolve) && i < |l.disks|
    ensures RenameAt(l, i, newId) == l.(disks := RelabelAll(l.disks, l.disks[i].id, newId))
  {
    hide AttachmentOk, BaseOk, DisksOk, Apart, DiskKind;
    DisksInWords(l, resolve);
    var id := l.disks[i].id;
    var after := RenameAt(l, i, newId).disks;
    if DiskKind(l.disks[i]) != "base" { NobodyOn(l, i, resolve); }
    assert l.disks[i] in l.disks;
    SelfBaseless(l.disks, l.disks[i]);
    forall j | 0 <= j < |l.disks|
      ensures after[j] == Relabelled(l.disks[j], id, newId)
    {
      assert l.disks[j] in l.disks;
      if j < i { assert l.disks[j].id != l.disks[i].id; }
      if i < j { assert l.disks[j].id != l.disks[i].id; }
    }
  }

  lemma SelfBaseless(disks: seq<Disk>, d: Disk)
    requires BaseOk(disks, d) && ValidId(d.id)
    ensures d.base != d.id
  {
  }

  lemma RelabelledBaseOk(disks: seq<Disk>, d: Disk, from: string, to: string)
    requires DistinctIds(disks) && DistinctIds(RelabelAll(disks, from, to)) && BaseOk(disks, d) && FindDisk(disks, to) == |disks|
    requires from != "" && to != "" && d.id != to
    ensures BaseOk(RelabelAll(disks, from, to), Relabelled(d, from, to))
  {
    hide BaseOk;
    var after := RelabelAll(disks, from, to);
    BaseInWords(disks, d);
    BaseInWords(after, Relabelled(d, from, to));
    if d.base != "" {
      var i :| 0 <= i < |disks| && disks[i].id == d.base && DiskKind(disks[i]) == "base";
      assert after[i].id == Moved(d.base, from, to) && DiskKind(after[i]) == "base";
    }
  }

  lemma RelabelledDistinct(disks: seq<Disk>, from: string, to: string)
    requires DistinctIds(disks) && FindDisk(disks, to) == |disks|
    ensures DistinctIds(RelabelAll(disks, from, to))
  {
    var after := RelabelAll(disks, from, to);
    forall i, j | 0 <= i < j < |after|
      ensures after[i].id != after[j].id
    {
      assert disks[i].id != disks[j].id && disks[i].id != to && disks[j].id != to;
    }
  }

  lemma RenameKeepsValid(l: Lab, id: string, newId: string, resolve: PathFn)
    requires Valid(l, resolve) && RenameDisk(l, id, newId).Some?
    ensures Valid(RenameDisk(l, id, newId).value, resolve)
  {
    hide Valid, RenameAt, AttachmentOk, BaseOk, DisksOk, Apart, DistinctIds, ValidId;
    var i := FindDisk(l.disks, id);
    var disks := RelabelAll(l.disks, id, newId);
    var m := l.(disks := disks);
    ValidDisks(l, resolve);
    RenameRelabels(l, i, newId, resolve);
    DisksInWords(l, resolve);
    DisksInWords(m, resolve);
    RelabelledDistinct(l.disks, id, newId);
    RelabelledApart(l.disks, id, newId);
    assert id != "" && newId != "" by { assert l.disks[i] in l.disks; IdIsNamed(l.disks[i].id); IdIsNamed(newId); }
    forall e | e in disks
      ensures Plain(e) && BaseOk(disks, e) && AttachmentOk(m, e, resolve)
    {
      var j :| 0 <= j < |disks| && disks[j] == e;
      assert l.disks[j] in l.disks;
      RelabelledBaseOk(l.disks, l.disks[j], id, newId);
      SameAttachment(l, m, l.disks[j], e, resolve);
    }
    assert SameButDisks(l, m);
    SameButDisksKeeps(l, m, resolve);
  }

  lemma IdIsNamed(id: string)
    requires ValidId(id)
    ensures id != ""
  {
  }

  lemma SameAttachment(l: Lab, m: Lab, d: Disk, e: Disk, resolve: PathFn)
    requires AttachmentOk(l, d, resolve) && m == l.(disks := m.disks) && e == d.(id := e.id, base := e.base)
    ensures AttachmentOk(m, e, resolve)
  {
  }

  lemma RelabelledApart(disks: seq<Disk>, from: string, to: string)
    requires Apart(disks)
    ensures Apart(RelabelAll(disks, from, to))
  {
  }

  /** Renaming a disk back restores the lab exactly. */
  lemma RenamingBackRestores(l: Lab, id: string, newId: string, resolve: PathFn)
    requires Valid(l, resolve) && RenameDisk(l, id, newId).Some?
    ensures RenameDisk(RenameDisk(l, id, newId).value, newId, id) == Some(l)
  {
    hide Valid, RenameAt, AttachmentOk, BaseOk, DisksOk, Apart, DistinctIds, ValidId;
    var i := FindDisk(l.disks, id);
    var m := RenameDisk(l, id, newId).value;
    ValidDisks(l, resolve);
    RenameKeepsValid(l, id, newId, resolve);
    ValidDisks(m, resolve);
    RenameRelabels(l, i, newId, resolve);
    FindsDisk(m.disks, i);
    RenameRelabels(m, i, id, resolve);
    NoLongerThere(l.disks, id, newId);
    DisksInWords(l, resolve);
    assert ValidId(id) by { assert l.disks[i] in l.disks; }
    IdIsNamed(id);
    IdIsNamed(newId);
    forall j | 0 <= j < |l.disks|
      ensures RelabelAll(m.disks, newId, id)[j] == l.disks[j]
    {
      assert l.disks[j] in l.disks;
      BasesExist(l.disks, l.disks[j]);
    }
    assert RelabelAll(m.disks, newId, id) == l.disks;
  }

  lemma NoLongerThere(disks: seq<Disk>, from: string, to: string)
    requires from != to
    ensures FindDisk(RelabelAll(disks, from, to), from) == |disks|
  {
  }

  lemma BasesExist(disks: seq<Disk>, d: Disk)
    requires BaseOk(disks, d)
    ensures d.base == "" || FindDisk(disks, d.base) < |disks|
  {
  }

  // ---------------------------------------------------------------- what the operations do

  /** The workload has disk i and no other; other workloads and other disks keep what they had. */
  ghost predicate HasOnly(l: Lab, m: Lab, i: nat, to: Destination, resolve: PathFn) {
    && i < |l.disks| == |m.disks|
    && PathOf(m, to.typ, to.id) == resolve(l.disks[i].path)
    && m.disks[i].attachedType == to.typ && m.disks[i].attachedTo == to.id
    && (forall j | 0 <= j < |l.disks| && j != i :: m.disks[j] == Released(l.disks[j], to.typ, to.id))
    && (forall t: string, w: string | t != to.typ || w != to.id :: PathOf(m, t, w) == PathOf(l, t, w))
  }

  lemma AttachIsPlacing(l: Lab, id: string, target: Destination, resolve: PathFn, m: Lab, i: nat, to: Destination) returns (d: Disk)
    requires AttachDisk(l, id, target, resolve) == Some(m)
    requires i == FindDisk(l.disks, id) && ResolveDiskTarget(l, target.typ, target.id) == Some(to)
    ensures i < |l.disks| && d.path == l.disks[i].path && m == AttachAt(l, i, d, to, resolve) && !DhcpTarget(l, to)
  {
    hide ResolveDiskTarget, DhcpTarget, AttachAt;
    var kind := DiskKind(l.disks[i]);
    d := if kind == "layer" then l.disks[i] else l.disks[i].(kind := if kind == "data" then "data" else "base", base := "");
  }

  /** After an attach the workload has exactly this disk; detaching it leaves the workload vacant. */
  lemma DetachUndoesAttach(l: Lab, id: string, typ: string, ref: string, resolve: PathFn, m: Lab, i: nat, to: Destination)
    requires Valid(l, resolve) && PathsOk(resolve) && ref != "" && AttachDisk(l, id, Destination(typ, ref), resolve) == Some(m)
    requires i == FindDisk(l.disks, id) && ResolveDiskTarget(l, typ, ref) == Some(to)
    ensures HasOnly(l, m, i, to, resolve)
    ensures i < |m.disks| ==> DetachAt(m, i, to) == Vacate(m, to.typ, to.id)
  {
    hide Valid, WithPath, PathsOk, ResolveDiskTarget, DhcpTarget, PathOf, IsTarget, AttachDisk, AttachAt, DetachAt, Vacate;
    ValidDisks(l, resolve);
    var d := AttachIsPlacing(l, id, Destination(typ, ref), resolve, m, i, to);
    DestinationIsSomewhere(l, typ, ref);
    AttachedRecords(l, i, d, to, resolve);
    AttachKeepsValid(l, id, Destination(typ, ref), resolve);
    ValidDisks(m, resolve);
    DetachIsVacate(m, i, to, resolve);
  }

  lemma AttachedRecords(l: Lab, i: nat, d: Disk, to: Destination, resolve: PathFn)
    requires i < |l.disks| && Somewhere(l, to)
    ensures var m := AttachAt(l, i, d, to, resolve);
      && m.disks == ReleaseAll(l.disks, to.typ, to.id)[i := Attached(d, to)]
      && PathOf(m, to.typ, to.id) == resolve(d.path)
      && forall t: string, w: string | t != to.typ || w != to.id :: PathOf(m, t, w) == PathOf(l, t, w)
  {
    hide WithPath, PathOf, IsTarget, Somewhere;
    var disks := ReleaseAll(l.disks, to.typ, to.id);
    var v := WithPath(l.(disks := disks), to.typ, to.id, "");
    WithPathKeepsDisks(l.(disks := disks), to.typ, to.id, "");
    var placed := v.(disks := v.disks[i := Attached(d, to)]);
    WithPathKeepsDisks(placed, to.typ, to.id, resolve(d.path));
    assert IsTarget(l, to.typ, to.id) by { SomewhereIsTarget(l, to); }
    forall t: string, w: string
      ensures PathOf(AttachAt(l, i, d, to, resolve), t, w) == if t == to.typ && w == to.id then resolve(d.path) else PathOf(l, t, w)
    {
      SameRecords(l, disks, t, w);
      PathAfter(l.(disks := disks), to.typ, to.id, "", t, w);
      SameRecords(v, placed.disks, t, w);
      PathAfter(placed, to.typ, to.id, resolve(d.path), t, w);
      SameRecords(l, disks, to.typ, to.id);
      PathAfter(l.(disks := disks), to.typ, to.id, "", to.typ, to.id);
      SameRecords(v, placed.disks, to.typ, to.id);
    }
  }

  lemma SomewhereIsTarget(l: Lab, to: Destination)
    requires Somewhere(l, to)
    ensures IsTarget(l, to.typ, to.id)
  {
  }

  /** A new disk on a vacated workload: last in the list, its workload's path set, everything else as before. */
  lemma NewDiskRecords(l: Lab, d: Disk, to: Destination, path: string)
    requires Somewhere(l, to)
    ensures var m := WithPath(AppendDisk(Vacate(l, to.typ, to.id), Attached(d, to)), to.typ, to.id, path);
      && m.disks == ReleaseAll(l.disks, to.typ, to.id) + [Attached(d, to)]
      && PathOf(m, to.typ, to.id) == path
      && forall t: string, w: string | t != to.typ || w != to.id :: PathOf(m, t, w) == PathOf(l, t, w)
  {
    hide WithPath, PathOf, IsTarget, Somewhere;
    var disks := ReleaseAll(l.disks, to.typ, to.id);
    var v := WithPath(l.(disks := disks), to.typ, to.id, "");
    WithPathKeepsDisks(l.(disks := disks), to.typ, to.id, "");
    var placed := AppendDisk(v, Attached(d, to));
    WithPathKeepsDisks(placed, to.typ, to.id, path);
    assert IsTarget(l, to.typ, to.id) by { SomewhereIsTarget(l, to); }
    forall t: string, w: string
      ensures PathOf(WithPath(placed, to.typ, to.id, path), t, w) == if t == to.typ && w == to.id then path else PathOf(l, t, w)
    {
      SameRecords(l, disks, t, w);
      PathAfter(l.(disks := disks), to.typ, to.id, "", t, w);
      SameRecords(v, placed.disks, t, w);
      PathAfter(placed, to.typ, to.id, path, t, w);
      SameRecords(l, disks, to.typ, to.id);
      PathAfter(l.(disks := disks), to.typ, to.id, "", to.typ, to.id);
      SameRecords(v, placed.disks, to.typ, to.id);
    }
  }

  // ---------------------------------------------------------------- success reported for nothing

  /**
   A created layer that should have been attached is left unattached exactly when the reference is empty
   and two or more unnamed workloads match it.
   */
  lemma LayerLeftUnattached(l: Lab, base: string, layer: string, typ: string, ref: string, path: string, resolve: PathFn)
    requires Valid(l, resolve) && CreateLayerAndAttach(l, base, layer, typ, ref, path).Some?
    ensures var m := CreateLayerAndAttach(l, base, layer, typ, ref, path).value;
      m.disks[|m.disks| - 1].attachedType == "" <==> ref == "" && Unnamed(l, WorkloadKind(typ).value) > 1
    ensures ref == "" && Unnamed(l, WorkloadKind(typ).value) > 1 ==>
      CreateLayerAndAttach(l, base, layer, typ, ref, path) == CreateLayer(l, base, layer, path)
  {
    hide Valid, WithPath, Unnamed, DhcpTarget, Vacate, LayerOk;
    ValidDisks(l, resolve);
    EmptyDestinationExactly(l, typ, ref);
    DestinationIsSomewhere(l, typ, ref);
    var to := ResolveDiskTarget(l, typ, ref).value;
    var d := Disk(layer, path, "layer", base, "", "");
    var m := Vacate(l, to.typ, to.id);
    WithPathKeepsDisks(AppendDisk(m, Attached(d, to)), to.typ, to.id, path);
    if Nowhere(to) { PlacingNowhere(l, d, path, resolve); }
  }

  /** Likewise a detach that succeeds changes nothing exactly in that case. */
  lemma DetachOfNothing(l: Lab, typ: string, ref: string, id: string, resolve: PathFn)
    requires Valid(l, resolve) && DetachDisk(l, typ, ref, id).Some?
    ensures DetachDisk(l, typ, ref, id) == Some(l)
       <==> typ != "" && ref == "" && Unnamed(l, WorkloadKind(typ).value) > 1
  {
    hide Valid, WithPath, Unnamed, DhcpTarget, Vacate, IdentityOk, DisksOk;
    ValidDisks(l, resolve);
    var known := if typ == "" then InferType(l, ref) else Some(typ);
    EmptyDestinationExactly(l, known.value, ref);
    DestinationIsSomewhere(l, known.value, ref);
    var to := ResolveDiskTarget(l, known.value, ref).value;
    var i := AttachedIndex(l.disks, to, id);
    WithPathKeepsDisks(l.(disks := l.disks[i := l.disks[i].(attachedType := "", attachedTo := "")]), to.typ, to.id, "");
    if Nowhere(to) {
      assert l.disks[i := l.disks[i].(attachedType := "", attachedTo := "")] == l.disks;
      NowherePath(l);
    } else {
      assert DetachAt(l, i, to).disks[i].attachedType == "" != l.disks[i].attachedType;
    }
  }

  lemma NowherePath(l: Lab)
    ensures WithPath(l, "", "", "") == l
  {
  }
}
