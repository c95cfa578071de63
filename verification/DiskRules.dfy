/** What every disk operation keeps: the two records agree, layers rest on bases, one disk per workload. */
module DiskRules {
  import opened Numerals
  import opened LabModel
  import opened Lookup
  import opened NetworkLinks
  import opened DirectLinks
  import opened Disks

  // ---------------------------------------------------------------- rules that do not see disks

  /** Only disks and workload paths may differ, and a DHCP service still has no path. */
  predicate SameButDisks(l: Lab, m: Lab) {
    && m.switches == l.switches && m.uplinks == l.uplinks && m.links == l.links
    && m.positions == l.positions && m.layoutLinks == l.layoutLinks
    && |m.vms| == |l.vms| && |m.containers| == |l.containers|
    && (forall i | 0 <= i < |l.vms| :: m.vms[i] == l.vms[i].(disk := m.vms[i].disk))
    && (forall i | 0 <= i < |l.containers| :: m.containers[i] == l.containers[i].(disk := m.containers[i].disk))
    && (forall i | 0 <= i < |l.containers| && IsDhcp(l.containers[i]) :: m.containers[i].disk in {"", l.containers[i].disk})
  }

  lemma SameNodesToo(l: Lab, m: Lab)
    requires SameButDisks(l, m)
    ensures forall k: Kind :: Count(m, k) == Count(l, k)
    ensures forall k: Kind, i: nat | i < Count(l, k) :: NodeAt(m, k, i) == NodeAt(l, k, i)
    ensures forall k: Kind, id: string :: Find(m, k, id) == Find(l, k, id)
  {
    forall k: Kind, id: string
      ensures Find(m, k, id) == Find(l, k, id)
    {
      SameFind(l, m, k, id);
    }
  }

  lemma SameButDisksKeepsNodes(l: Lab, m: Lab)
    requires SameButDisks(l, m) && IdentityOk(l) && LayoutOk(l)
    ensures IdentityOk(m) && LayoutOk(m)
  {
    SameNodesToo(l, m);
  }

  lemma SameButDisksKeepsNetworks(l: Lab, m: Lab)
    requires SameButDisks(l, m) && SwitchesOk(l) && NetworksOk(l)
    ensures SwitchesOk(m) && NetworksOk(m)
  {
    SameNodesToo(l, m);
    forall i | 0 <= i < |l.switches|
      ensures SwitchOk(m, m.switches[i])
    {
      assert SwitchOk(l, l.switches[i]);
    }
    forall nic: Nic
      ensures NicOk(m, nic) == NicOk(l, nic)
    {
    }
  }

  lemma SameButDisksKeepsDhcp(l: Lab, m: Lab)
    requires SameButDisks(l, m) && DhcpOk(l)
    ensures DhcpOk(m)
  {
    hide SwitchUplinks;
    SameNodesToo(l, m);
    forall id: string
      ensures DhcpSwitchOk(m, id) == DhcpSwitchOk(l, id)
    {
    }
    forall e: Endpoint
      ensures DhcpEnd(m, e) == DhcpEnd(l, e)
    {
    }
    assert forall i | 0 <= i < |m.containers| && IsDhcp(m.containers[i]) ::
      DhcpSwitchOk(m, m.containers[i].nics[0].switch) == DhcpSwitchOk(l, l.containers[i].nics[0].switch);
  }

  lemma SameButDisksKeepsLinks(l: Lab, m: Lab)
    requires SameButDisks(l, m) && LinksOk(l)
    ensures LinksOk(m)
  {
    hide EndpointOk, SameButDisks, LinksApart;
    assert m.links == l.links by { SameLinks(l, m); }
    forall e | EndpointOk(l, e)
      ensures EndpointOk(m, e)
    {
      SameButDisksKeepsEndpoint(l, m, e);
    }
  }

  lemma SameLinks(l: Lab, m: Lab)
    requires SameButDisks(l, m)
    ensures m.links == l.links
  {
  }

  lemma SameButDisksKeepsEndpoint(l: Lab, m: Lab, e: Endpoint)
    requires SameButDisks(l, m) && EndpointOk(l, e)
    ensures EndpointOk(m, e)
  {
    SameFindWorkload(Group(l, e.typ), Group(m, e.typ), e.id);
  }

  lemma SameButDisksKeeps(l: Lab, m: Lab, resolve: PathFn)
    requires SameButDisks(l, m) && Valid(l, resolve) && DisksOk(m, resolve)
    ensures Valid(m, resolve)
  {
    SameButDisksKeepsNodes(l, m);
    SameButDisksKeepsNetworks(l, m);
    SameButDisksKeepsDhcp(l, m);
    SameButDisksKeepsLinks(l, m);
  }

  // ---------------------------------------------------------------- the workload's record

  predicate IsTarget(l: Lab, typ: string, id: string) {
    FindWorkload(Group(l, typ), id) < |Group(l, typ)|
  }

  function PathOf(l: Lab, typ: string, id: string): string {
    var i := FindWorkload(Group(l, typ), id);
    if i < |Group(l, typ)| then Group(l, typ)[i].disk else ""
  }

  /** What of an attachment is not about the workload's record. */
  predicate Attachable(d: Disk) {
    d.attachedType != "" && !(d.attachedType == "vm" && d.kind == "data")
  }

  predicate PathAgrees(path: string, d: Disk, resolve: PathFn) {
    path != "" && resolve(path) == resolve(d.path)
  }

  lemma AttachmentInWords(l: Lab, d: Disk, resolve: PathFn)
    ensures AttachmentOk(l, d, resolve) <==>
      if d.attachedType == "" then d.attachedTo == ""
      else Attachable(d) && IsTarget(l, d.attachedType, d.attachedTo)
           && PathAgrees(PathOf(l, d.attachedType, d.attachedTo), d, resolve)
  {
  }

  lemma PathAfter(l: Lab, typ: string, id: string, path: string, typ2: string, id2: string)
    ensures var m := WithPath(l, typ, id, path);
      && (IsTarget(m, typ2, id2) <==> IsTarget(l, typ2, id2))
      && PathOf(m, typ2, id2) == (if typ == typ2 && id == id2 && IsTarget(l, typ, id) then path else PathOf(l, typ2, id2))
  {
    var m := WithPath(l, typ, id, path);
    SameFindWorkload(Group(l, typ2), Group(m, typ2), id2);
  }

  /** A disk attached elsewhere does not notice that the path of one workload changed. */
  lemma AttachedElsewhere(l: Lab, d: Disk, typ: string, id: string, path: string, disks: seq<Disk>, resolve: PathFn)
    requires AttachmentOk(l, d, resolve) && (typ == "" || d.attachedType != typ || d.attachedTo != id)
    ensures AttachmentOk(WithPath(l.(disks := disks), typ, id, path), d, resolve)
  {
    hide WithPath, AttachmentOk, PathAgrees, PathOf, IsTarget;
    var m := WithPath(l.(disks := disks), typ, id, path);
    AttachmentInWords(l, d, resolve);
    AttachmentInWords(m, d, resolve);
    PathAfter(l.(disks := disks), typ, id, path, d.attachedType, d.attachedTo);
    SameRecords(l, disks, d.attachedType, d.attachedTo);
  }

  lemma SameRecords(l: Lab, disks: seq<Disk>, typ: string, id: string)
    ensures var m := l.(disks := disks); (IsTarget(m, typ, id) <==> IsTarget(l, typ, id)) && PathOf(m, typ, id) == PathOf(l, typ, id)
  {
  }

  /** A disk attached where the path was just set to agree with its own is well attached. */
  lemma AttachedHere(l: Lab, d: Disk, path: string, disks: seq<Disk>, resolve: PathFn)
    requires Attachable(d) && IsTarget(l, d.attachedType, d.attachedTo) && PathAgrees(path, d, resolve)
    ensures AttachmentOk(WithPath(l.(disks := disks), d.attachedType, d.attachedTo, path), d, resolve)
  {
    hide WithPath, AttachmentOk, PathAgrees, PathOf, IsTarget;
    AttachmentInWords(WithPath(l.(disks := disks), d.attachedType, d.attachedTo, path), d, resolve);
    PathAfter(l.(disks := disks), d.attachedType, d.attachedTo, path, d.attachedType, d.attachedTo);
    SameRecords(l, disks, d.attachedType, d.attachedTo);
  }

  lemma WithPathIsSameButDisks(l: Lab, disks: seq<Disk>, typ: string, id: string, path: string)
    requires path == "" || typ != "container" || !IsTarget(l, typ, id)
      || !IsDhcp(l.containers[FindWorkload(l.containers, id)])
    ensures SameButDisks(l, WithPath(l.(disks := disks), typ, id, path)) && WithPath(l.(disks := disks), typ, id, path).disks == disks
  {
  }

  // ---------------------------------------------------------------- the disks among themselves

  predicate DistinctIds(disks: seq<Disk>) {
    forall i, j | 0 <= i < j < |disks| :: disks[i].id != disks[j].id
  }

  predicate Apart(disks: seq<Disk>) {
    forall i, j | 0 <= i < j < |disks| :: !SameTarget(disks[i], disks[j])
  }

  predicate IsBase(disks: seq<Disk>, id: string) {
    exists i | 0 <= i < |disks| :: disks[i].id == id && DiskKind(disks[i]) == "base"
  }

  lemma FindsDisk(disks: seq<Disk>, i: nat)
    requires DistinctIds(disks) && i < |disks|
    ensures FindDisk(disks, disks[i].id) == i
  {
  }

  lemma BaseInWords(disks: seq<Disk>, d: Disk)
    requires DistinctIds(disks)
    ensures BaseOk(disks, d) <==>
      (DiskKind(d) == "layer" <==> d.base != "") && (d.base != "" ==> d.base != d.id && IsBase(disks, d.base))
  {
    if d.base != "" {
      var f := FindDisk(disks, d.base);
      if IsBase(disks, d.base) {
        var i :| 0 <= i < |disks| && disks[i].id == d.base && DiskKind(disks[i]) == "base";
        FindsDisk(disks, i);
      }
    }
  }

  predicate Plain(d: Disk) {
    ValidId(d.id) && d.path != "" && d.kind in {"", "base", "layer", "data"}
  }

  lemma DisksInWords(l: Lab, resolve: PathFn)
    ensures DisksOk(l, resolve) <==>
      && DistinctIds(l.disks) && Apart(l.disks)
      && forall d | d in l.disks :: Plain(d) && BaseOk(l.disks, d) && AttachmentOk(l, d, resolve)
  {
    hide AttachmentOk, BaseOk, ValidId, SameTarget;
    if DisksOk(l, resolve) {
      forall d | d in l.disks
        ensures Plain(d) && BaseOk(l.disks, d) && AttachmentOk(l, d, resolve)
      {
        var i :| 0 <= i < |l.disks| && l.disks[i] == d;
        assert DiskOk(l, l.disks[i], resolve);
      }
    } else if DistinctIds(l.disks) && Apart(l.disks) {
      var i :| 0 <= i < |l.disks| && !DiskOk(l, l.disks[i], resolve);
      assert l.disks[i] in l.disks;
    }
  }

  lemma BaseStays(before: seq<Disk>, after: seq<Disk>, d: Disk)
    requires DistinctIds(before) && DistinctIds(after) && BaseOk(before, d)
    requires d.base != "" && IsBase(before, d.base) ==> IsBase(after, d.base)
    ensures BaseOk(after, d)
  {
    hide BaseOk, IsBase, DistinctIds;
    BaseInWords(before, d);
    BaseInWords(after, d);
  }

  // ---------------------------------------------------------------- one disk changed, added or removed

  lemma ChangedDiskKeepsBases(disks: seq<Disk>, i: nat, e: Disk, d: Disk)
    requires DistinctIds(disks) && i < |disks| && e.id == disks[i].id && DiskKind(e) == DiskKind(disks[i])
    ensures DistinctIds(disks[i := e]) && (BaseOk(disks, d) ==> BaseOk(disks[i := e], d))
  {
    hide BaseOk;
    var after := disks[i := e];
    if BaseOk(disks, d) {
      forall j | 0 <= j < |disks|
        ensures after[j].id == disks[j].id && DiskKind(after[j]) == DiskKind(disks[j])
      {
      }
      BaseStays(disks, after, d);
    }
  }

  lemma AddedDiskKeepsBases(disks: seq<Disk>, e: Disk, d: Disk)
    requires DistinctIds(disks) && FindDisk(disks, e.id) == |disks|
    ensures DistinctIds(disks + [e]) && (BaseOk(disks, d) ==> BaseOk(disks + [e], d))
  {
    hide BaseOk;
    var after := disks + [e];
    if BaseOk(disks, d) {
      assert forall j | 0 <= j < |disks| :: after[j] == disks[j];
      BaseStays(disks, after, d);
    }
  }

  lemma RemovedDiskKeepsBases(disks: seq<Disk>, i: nat, d: Disk)
    requires DistinctIds(disks) && i < |disks| && d.base != disks[i].id
    ensures DistinctIds(disks[..i] + disks[i + 1..]) && (BaseOk(disks, d) ==> BaseOk(disks[..i] + disks[i + 1..], d))
  {
    hide BaseOk;
    var after := disks[..i] + disks[i + 1..];
    if BaseOk(disks, d) {
      assert forall j | 0 <= j < |disks| && j != i :: disks[j] == after[if j < i then j else j - 1];
      BaseStays(disks, after, d);
    }
  }

  predicate NoneAt(disks: seq<Disk>, typ: string, id: string) {
    typ == "" || forall d | d in disks :: d.attachedType != typ || d.attachedTo != id
  }

  /** The disk that goes to a vacant workload. */
  predicate Fits(l: Lab, d: Disk, resolve: PathFn) {
    && Plain(d) && !SameTargetAsAny(l.disks, d)
    && if d.attachedType == "" then d.attachedTo == "" else Attachable(d) && IsTarget(l, d.attachedType, d.attachedTo)
  }

  predicate SameTargetAsAny(disks: seq<Disk>, d: Disk) {
    d.attachedType != "" && !NoneAt(disks, d.attachedType, d.attachedTo)
  }

  lemma FittedDisk(l: Lab, d: Disk, path: string, disks: seq<Disk>, resolve: PathFn)
    requires Fits(l, d, resolve) && PathAgrees(path, d, resolve)
    ensures AttachmentOk(WithPath(l.(disks := disks), d.attachedType, d.attachedTo, path), d, resolve)
  {
    hide WithPath, PathAgrees, IsTarget;
    if d.attachedType != "" { AttachedHere(l, d, path, disks, resolve); }
  }

  lemma OthersStay(l: Lab, e: Disk, d: Disk, path: string, disks: seq<Disk>, resolve: PathFn)
    requires DisksOk(l, resolve) && d in l.disks && !SameTargetAsAny(l.disks, e)
    ensures Plain(d) && AttachmentOk(WithPath(l.(disks := disks), e.attachedType, e.attachedTo, path), d, resolve)
  {
    hide WithPath, AttachmentOk, BaseOk, DisksOk, DistinctIds, Apart;
    DisksInWords(l, resolve);
    AttachedElsewhere(l, d, e.attachedType, e.attachedTo, path, disks, resolve);
  }

  /** Appending a disk that fits keeps the disk rules. */
  lemma AppendFitting(l: Lab, e: Disk, path: string, resolve: PathFn)
    requires DisksOk(l, resolve) && Fits(l, e, resolve) && PathAgrees(path, e, resolve)
    requires FindDisk(l.disks, e.id) == |l.disks| && BaseOk(l.disks, e)
    ensures DisksOk(WithPath(AppendDisk(l, e), e.attachedType, e.attachedTo, path), resolve)
  {
    hide WithPath, AttachmentOk, BaseOk, DisksOk, DistinctIds, Fits, PathAgrees, Plain, Apart;
    var disks := l.disks + [e];
    var m := WithPath(l.(disks := disks), e.attachedType, e.attachedTo, path);
    DisksInWords(l, resolve);
    DisksInWords(m, resolve);
    assert !SameTargetAsAny(l.disks, e) && Plain(e) by { FitsMeans(l, e, resolve); }
    AppendedApart(l.disks, e);
    WithPathKeepsDisks(l.(disks := disks), e.attachedType, e.attachedTo, path);
    AddedDiskKeepsBases(l.disks, e, e);
    forall d | d in m.disks
      ensures Plain(d) && BaseOk(disks, d) && AttachmentOk(m, d, resolve)
    {
      AddedDiskKeepsBases(l.disks, e, d);
      if d == e { FittedDisk(l, e, path, disks, resolve); } else { OthersStay(l, e, d, path, disks, resolve); }
    }
  }

  lemma FitsMeans(l: Lab, e: Disk, resolve: PathFn)
    requires Fits(l, e, resolve)
    ensures !SameTargetAsAny(l.disks, e) && Plain(e)
  {
  }

  lemma WithPathKeepsDisks(l: Lab, typ: string, id: string, path: string)
    ensures WithPath(l, typ, id, path).disks == l.disks
  {
  }

  lemma AppendedApart(disks: seq<Disk>, e: Disk)
    requires Apart(disks) && !SameTargetAsAny(disks, e)
    ensures Apart(disks + [e])
  {
  }

  lemma ChangedApart(disks: seq<Disk>, i: nat, e: Disk)
    requires Apart(disks) && i < |disks| && !SameTargetAsAny(disks, e)
    ensures Apart(disks[i := e])
  {
  }

  /** Putting an existing disk where it fits keeps the disk rules. */
  lemma ChangeFitting(l: Lab, i: nat, e: Disk, path: string, resolve: PathFn)
    requires DisksOk(l, resolve) && Fits(l, e, resolve) && PathAgrees(path, e, resolve)
    requires i < |l.disks| && e.id == l.disks[i].id && DiskKind(e) == DiskKind(l.disks[i]) && BaseOk(l.disks, e)
    ensures DisksOk(WithPath(l.(disks := l.disks[i := e]), e.attachedType, e.attachedTo, path), resolve)
  {
    hide WithPath, AttachmentOk, BaseOk, DisksOk, DistinctIds, Fits, PathAgrees, Plain, Apart;
    var disks := l.disks[i := e];
    var m := WithPath(l.(disks := disks), e.attachedType, e.attachedTo, path);
    DisksInWords(l, resolve);
    DisksInWords(m, resolve);
    assert !SameTargetAsAny(l.disks, e) && Plain(e) by { FitsMeans(l, e, resolve); }
    ChangedApart(l.disks, i, e);
    WithPathKeepsDisks(l.(disks := disks), e.attachedType, e.attachedTo, path);
    ChangedDiskKeepsBases(l.disks, i, e, e);
    forall d | d in m.disks
      ensures Plain(d) && BaseOk(disks, d) && AttachmentOk(m, d, resolve)
    {
      ChangedDiskKeepsBases(l.disks, i, e, d);
      if d == e { FittedDisk(l, e, path, disks, resolve); } else { OthersStay(l, e, d, path, disks, resolve); }
    }
  }

  lemma RemovedApart(disks: seq<Disk>, i: nat)
    requires Apart(disks) && i < |disks|
    ensures Apart(disks[..i] + disks[i + 1..])
  {
  }

  /** Removing a disk no layer rests on, and its workload's path with it, keeps the disk rules. */
  lemma RemoveKeepsDisks(l: Lab, i: nat, resolve: PathFn)
    requires DisksOk(l, resolve) && i < |l.disks| && forall d | d in l.disks :: d.base != l.disks[i].id
    ensures DisksOk(WithPath(WithoutDisk(l, i), l.disks[i].attachedType, l.disks[i].attachedTo, ""), resolve)
  {
    hide WithPath, AttachmentOk, BaseOk, DisksOk, DistinctIds, Plain, Apart;
    var e := l.disks[i];
    var disks := l.disks[..i] + l.disks[i + 1..];
    var m := WithPath(l.(disks := disks), e.attachedType, e.attachedTo, "");
    DisksInWords(l, resolve);
    DisksInWords(m, resolve);
    RemovedApart(l.disks, i);
    WithPathKeepsDisks(l.(disks := disks), e.attachedType, e.attachedTo, "");
    RemovedDiskKeepsBases(l.disks, i, e.(base := if e.id == "" then "x" else ""));
    forall d | d in m.disks
      ensures Plain(d) && BaseOk(disks, d) && AttachmentOk(m, d, resolve)
    {
      RemovedDiskKeepsBases(l.disks, i, d);
      RemovedIsElsewhere(l.disks, i, d);
      AttachedElsewhere(l, d, e.attachedType, e.attachedTo, "", disks, resolve);
    }
  }

  lemma RemovedIsElsewhere(disks: seq<Disk>, i: nat, d: Disk)
    requires Apart(disks) && i < |disks| && d in disks[..i] + disks[i + 1..]
    ensures d in disks && !SameTarget(disks[i], d)
  {
    var after := disks[..i] + disks[i + 1..];
    var j :| 0 <= j < |after| && after[j] == d;
    assert after[j] == disks[if j < i then j else j + 1];
  }

  // ---------------------------------------------------------------- vacating a workload

  lemma VacatedNoneAt(l: Lab, typ: string, id: string)
    ensures NoneAt(ReleaseAll(l.disks, typ, id), typ, id)
  {
  }

  lemma ReleasedKeepsBases(disks: seq<Disk>, typ: string, id: string, d: Disk)
    requires DistinctIds(disks)
    ensures DistinctIds(ReleaseAll(disks, typ, id))
    ensures BaseOk(disks, d) ==> BaseOk(ReleaseAll(disks, typ, id), Released(d, typ, id))
  {
    hide BaseOk;
    var after := ReleaseAll(disks, typ, id);
    if BaseOk(disks, d) {
      assert forall j | 0 <= j < |disks| :: after[j].id == disks[j].id && DiskKind(after[j]) == DiskKind(disks[j]);
      BaseStays(disks, after, d);
      SameBase(after, d, Released(d, typ, id));
    }
  }

  lemma SameBase(disks: seq<Disk>, d: Disk, e: Disk)
    requires BaseOk(disks, d) && e.id == d.id && e.kind == d.kind && e.base == d.base
    ensures BaseOk(disks, e)
  {
  }

  lemma ReleasedApart(disks: seq<Disk>, typ: string, id: string)
    requires Apart(disks)
    ensures Apart(ReleaseAll(disks, typ, id))
  {
  }

  lemma VacateKeepsDisks(l: Lab, typ: string, id: string, resolve: PathFn)
    requires DisksOk(l, resolve)
    ensures DisksOk(Vacate(l, typ, id), resolve) && NoneAt(Vacate(l, typ, id).disks, typ, id)
  {
    hide WithPath, AttachmentOk, BaseOk, DisksOk, DistinctIds, Plain, Apart, NoneAt;
    var disks := ReleaseAll(l.disks, typ, id);
    var m := WithPath(l.(disks := disks), typ, id, "");
    DisksInWords(l, resolve);
    DisksInWords(m, resolve);
    VacatedNoneAt(l, typ, id);
    ReleasedApart(l.disks, typ, id);
    WithPathKeepsDisks(l.(disks := disks), typ, id, "");
    ReleasedKeepsBases(l.disks, typ, id, Disk("", "", "", "", "", ""));
    forall e | e in m.disks
      ensures Plain(e) && BaseOk(disks, e) && AttachmentOk(m, e, resolve)
    {
      var i :| 0 <= i < |disks| && disks[i] == e;
      assert l.disks[i] in l.disks;
      ReleasedKeepsBases(l.disks, typ, id, l.disks[i]);
      ReleasedStaysOk(l, l.disks[i], typ, id, disks, resolve);
    }
  }

  lemma ReleasedStaysOk(l: Lab, d: Disk, typ: string, id: string, disks: seq<Disk>, resolve: PathFn)
    requires Plain(d) && AttachmentOk(l, d, resolve)
    ensures var e := Released(d, typ, id);
      Plain(e) && AttachmentOk(WithPath(l.(disks := disks), typ, id, ""), e, resolve)
  {
    hide WithPath;
    if typ == "" || d.attachedType != typ || d.attachedTo != id {
      assert Released(d, typ, id) == d by { if typ == "" { AttachmentInWords(l, d, resolve); } }
      AttachedElsewhere(l, d, typ, id, "", disks, resolve);
    }
  }
}
