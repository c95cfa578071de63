/** Whole editing runs: what an operation on a saved lab hands to its commit, and exactly when the commit rejects it. */
module Editing {
  import opened Numerals
  import opened LabModel
  import opened Lookup
  import opened NetworkLinks
  import opened NicConnections
  import opened DirectLinks
  import opened Disks
  import opened DiskEditing
  import opened Renaming
  import opened RenameEffects
  import opened Deletes
  import opened DeleteEffects
  import opened Creates
  import opened CreateEffects
  import opened ManagedNames
  import opened NameEffects
  import Validation

  datatype Op =
    | OpCreateWorkload(kind: Kind, name: string, disk: string, switchRef: string, uplinkRef: string, mac: string)
    | OpCreateSwitch(name: string, mode: string, uplinkRef: string)
    | OpCreateExternal(name: string, mode: string)
    | OpCreateDhcp(name: string, switchRef: string)
    | OpRename(kind: Kind, from: string, to: string)
    | OpDelete(kind: Kind, ref: string)
    | OpDisconnectExternal(ref: string, uplink: string)
    | OpAddNic(kind: Kind, ref: string, mac: string)
    | OpDeleteNic(kind: Kind, ref: string, index: int)
    | OpConnectNic(kind: Kind, ref: string, index: int, target: Target, mac: string)
    | OpDisconnectNic(kind: Kind, ref: string, nic: Option<int>)
    | OpConnectDirect(source: NicRef, dest: NicRef)
    | OpCreateDisk(id: string, at: Option<Destination>, path: string)
    | OpAttachDisk(id: string, to_: Destination)
    | OpCreateLayer(base: string, layer: string, path: string)
    | OpCreateLayerAndAttach(base: string, layer: string, typ: string, ref: string, path: string)
    | OpDetachDisk(typ: string, ref: string, id: string)
    | OpMergeDisk(id: string, offline: bool)
    | OpRenameDisk(id: string, newId: string)
    | OpDeleteDisk(id: string)

  /** Interface and workload operations exist for VMs and containers; storage paths are never empty. */
  predicate OpOk(op: Op) {
    match op
    case OpCreateWorkload(k, _, _, _, _, _) => IsWorkload(k)
    case OpAddNic(k, _, _) => IsWorkload(k)
    case OpDeleteNic(k, _, _) => IsWorkload(k)
    case OpConnectNic(k, _, _, _, _) => IsWorkload(k)
    case OpDisconnectNic(k, _, _) => IsWorkload(k)
    case OpConnectDirect(s, d) => IsWorkload(s.kind) && IsWorkload(d.kind)
    case OpCreateDisk(_, _, path) => path != ""
    case OpCreateLayer(_, _, path) => path != ""
    case OpCreateLayerAndAttach(_, _, _, _, path) => path != ""
    case _ => true
  }

  /** The lab an operation hands to its commit, or None where it refuses before writing. */
  function Apply(l: Lab, op: Op, resolve: PathFn): Option<Lab>
    requires OpOk(op)
  {
    match op
    case OpCreateWorkload(k, name, disk, switchRef, uplinkRef, mac) => CreateWorkload(l, k, name, disk, switchRef, uplinkRef, mac)
    case OpCreateSwitch(name, mode, uplinkRef) => CreateSwitch(l, name, mode, uplinkRef)
    case OpCreateExternal(name, mode) => CreateExternal(l, name, mode)
    case OpCreateDhcp(name, switchRef) => CreateDhcp(l, name, switchRef)
    case OpRename(k, from, to) => RenameNode(l, k, from, to)
    case OpDelete(k, ref) => DeleteNode(l, k, ref)
    case OpDisconnectExternal(ref, uplink) => DisconnectExternal(l, ref, uplink)
    case OpAddNic(k, ref, mac) => AddNic(l, k, ref, mac)
    case OpDeleteNic(k, ref, index) => DeleteNic(l, k, ref, index)
    case OpConnectNic(k, ref, index, target, mac) => ConnectNic(l, k, ref, index, target, mac)
    case OpDisconnectNic(k, ref, nic) => DisconnectNic(l, k, ref, nic)
    case OpConnectDirect(s, d) => ConnectDirect(l, s, d)
    case OpCreateDisk(id, at, path) => CreateDisk(l, id, at, path, resolve)
    case OpAttachDisk(id, to) => AttachDisk(l, id, to, resolve)
    case OpCreateLayer(base, layer, path) => CreateLayer(l, base, layer, path)
    case OpCreateLayerAndAttach(base, layer, typ, ref, path) => CreateLayerAndAttach(l, base, layer, typ, ref, path)
    case OpDetachDisk(typ, ref, id) => DetachDisk(l, typ, ref, id)
    case OpMergeDisk(id, offline) => MergeDisk(l, id, offline)
    case OpRenameDisk(id, newId) => RenameDisk(l, id, newId)
    case OpDeleteDisk(id) => DeleteDisk(l, id)
  }

  /** Deleting a switch that a DHCP service uses. */
  predicate StrandsDhcp(l: Lab, op: Op) {
    op.OpDelete? && op.kind == SW && Resolve(l, SW, op.ref).Found? && UsedByDhcp(l, Resolve(l, SW, op.ref).id)
  }

  lemma DisconnectedStaysValid(l: Lab, k: Kind, ref: string, nic: Option<int>, resolve: PathFn)
    requires Valid(l, resolve) && IsWorkload(k) && DisconnectNic(l, k, ref, nic).Some?
    ensures Valid(DisconnectNic(l, k, ref, nic).value, resolve)
  {
    hide Resolve, Disconnect, ManagedDhcp, NicExists;
    assert IdentityOk(l);
    ResolvedId(l, k, ref);
    DisconnectKeepsValid(l, k, Resolve(l, k, ref).id, nic.value, resolve);
  }

  lemma NodeOpKeepsValid(l: Lab, op: Op, resolve: PathFn)
    requires Valid(l, resolve) && PathsOk(resolve) && OpOk(op) && Apply(l, op, resolve).Some?
    requires op.OpRename? || op.OpDelete? || op.OpDisconnectExternal? || op.OpAddNic? || op.OpDeleteNic? || op.OpConnectNic?
      || op.OpDisconnectNic? || op.OpConnectDirect?
    ensures Valid(Apply(l, op, resolve).value, resolve) <==> !StrandsDhcp(l, op)
  {
    hide Valid, PathsOk, RenameNode, DeleteNode, DisconnectExternal, AddNic, DeleteNic, ConnectNic, DisconnectNic, ConnectDirect, UsedByDhcp;
    match op
    case OpRename(k, from, to) => RenameEffects.RenameKeepsValid(l, k, from, to, resolve);
    case OpDelete(k, ref) => DeletedFound(l, k, ref); DeleteValidExactly(l, k, ref, resolve);
    case OpDisconnectExternal(ref, uplink) => DisconnectExternalKeepsValid(l, ref, uplink, resolve);
    case OpAddNic(k, ref, mac) => AddKeepsValid(l, k, ref, mac, resolve);
    case OpDeleteNic(k, ref, index) => DeletionKeepsValid(l, k, ref, index, resolve);
    case OpConnectNic(k, ref, index, target, mac) => ConnectKeepsValid(l, k, ref, index, target, mac, resolve);
    case OpDisconnectNic(k, ref, nic) => DisconnectedStaysValid(l, k, ref, nic, resolve);
    case OpConnectDirect(s, d) => ConnectDirectKeepsValid(l, s, d, resolve);
  }

  lemma CreateOpKeepsValid(l: Lab, op: Op, resolve: PathFn)
    requires Valid(l, resolve) && OpOk(op) && Apply(l, op, resolve).Some?
    requires op.OpCreateWorkload? || op.OpCreateSwitch? || op.OpCreateExternal? || op.OpCreateDhcp?
    ensures Valid(Apply(l, op, resolve).value, resolve)
  {
    hide Valid, CreateWorkload, CreateSwitch, CreateExternal, CreateDhcp;
    match op
    case OpCreateWorkload(k, name, disk, switchRef, uplinkRef, mac) =>
      CreateWorkloadKeepsValid(l, k, name, disk, switchRef, uplinkRef, mac, resolve);
    case OpCreateSwitch(name, mode, uplinkRef) => CreateSwitchKeepsValid(l, name, mode, uplinkRef, resolve);
    case OpCreateExternal(name, mode) => CreateExternalKeepsValid(l, name, mode, resolve);
    case OpCreateDhcp(name, switchRef) => CreateDhcpKeepsValid(l, name, switchRef, resolve);
  }

  lemma DeletedFound(l: Lab, k: Kind, ref: string)
    requires DeleteNode(l, k, ref).Some?
    ensures Resolve(l, k, ref).Found?
  {
  }

  lemma DiskOpKeepsValid(l: Lab, op: Op, resolve: PathFn)
    requires Valid(l, resolve) && PathsOk(resolve) && OpOk(op) && Apply(l, op, resolve).Some?
    requires op.OpCreateDisk? || op.OpAttachDisk? || op.OpCreateLayer? || op.OpCreateLayerAndAttach? || op.OpDetachDisk?
      || op.OpMergeDisk? || op.OpRenameDisk? || op.OpDeleteDisk?
    ensures Valid(Apply(l, op, resolve).value, resolve)
  {
    hide Valid, PathsOk, CreateDisk, AttachDisk, CreateLayer, CreateLayerAndAttach, DetachDisk, MergeDisk, RenameDisk, DeleteDisk;
    match op
    case OpCreateDisk(id, at, path) => CreateKeepsValid(l, id, at, path, resolve);
    case OpAttachDisk(id, to) => AttachKeepsValid(l, id, to, resolve);
    case OpCreateLayer(base, layer, path) => CreateLayerKeepsValid(l, base, layer, path, resolve);
    case OpCreateLayerAndAttach(base, layer, typ, ref, path) => CreateLayerAndAttachKeepsValid(l, base, layer, typ, ref, path, resolve);
    case OpDetachDisk(typ, ref, id) => DetachKeepsValid(l, typ, ref, id, resolve);
    case OpMergeDisk(id, offline) => MergeKeepsValid(l, id, offline, resolve);
    case OpRenameDisk(id, newId) => DiskEditing.RenameKeepsValid(l, id, newId, resolve);
    case OpDeleteDisk(id) => DeleteKeepsValid(l, id, resolve);
  }

  /** The declarative rules hold of what an operation hands to its commit, except when a switch under a DHCP service is deleted. */
  lemma RulesBreakExactly(l: Lab, op: Op, resolve: PathFn)
    requires Valid(l, resolve) && PathsOk(resolve) && OpOk(op) && Apply(l, op, resolve).Some?
    ensures Valid(Apply(l, op, resolve).value, resolve) <==> !StrandsDhcp(l, op)
  {
    hide Valid, PathsOk, Apply, StrandsDhcp;
    if op.OpRename? || op.OpDelete? || op.OpDisconnectExternal? || op.OpAddNic? || op.OpDeleteNic? || op.OpConnectNic?
       || op.OpDisconnectNic? || op.OpConnectDirect? {
      NodeOpKeepsValid(l, op, resolve);
    } else if op.OpCreateWorkload? || op.OpCreateSwitch? || op.OpCreateExternal? || op.OpCreateDhcp? {
      CreateOpKeepsValid(l, op, resolve);
      assert !StrandsDhcp(l, op) by { OnlyDeletesStrand(l, op); }
    } else {
      DiskOpKeepsValid(l, op, resolve);
      assert !StrandsDhcp(l, op) by { OnlyDeletesStrand(l, op); }
    }
  }

  lemma OnlyDeletesStrand(l: Lab, op: Op)
    requires !op.OpDelete?
    ensures !StrandsDhcp(l, op)
  {
  }

  // ---------------------------------------------------------------- names of the runtime

  /** Creating or renaming a switch or an uplink to an id whose bridge another switch or uplink has already. */
  predicate TakesBridge(n: Naming, l: Lab, op: Op) {
    match op
    case OpCreateSwitch(name, _, _) => Borne(n, l, SW, name, "")
    case OpCreateExternal(name, _) => Borne(n, l, UP, name, "")
    case OpRename(k, from, to) => HasBridge(k) && from != to && Borne(n, l, k, to, from)
    case _ => false
  }

  /** Operations that make names with hash digits: new or renamed containers, and new or renumbered direct links. */
  predicate MakesHashes(op: Op) {
    match op
    case OpCreateWorkload(k, _, _, _, _, _) => k == CT
    case OpCreateDhcp(_, _) => true
    case OpRename(k, from, to) => IsWorkload(k) && from != to
    case OpDeleteNic(_, _, _) => true
    case OpConnectDirect(_, _) => true
    case _ => false
  }

  lemma DiskOpKeepsIds(l: Lab, op: Op, resolve: PathFn)
    requires OpOk(op) && Apply(l, op, resolve).Some?
    requires op.OpCreateDisk? || op.OpAttachDisk? || op.OpCreateLayer? || op.OpCreateLayerAndAttach? || op.OpDetachDisk?
      || op.OpMergeDisk? || op.OpRenameDisk? || op.OpDeleteDisk?
    ensures var m := Apply(l, op, resolve).value; SameIds(l, m) && m.links == l.links
  {
    hide SameIds, CreateDisk, AttachDisk, CreateLayer, CreateLayerAndAttach, DetachDisk, MergeDisk, RenameDisk, DeleteDisk;
    match op
    case OpCreateDisk(id, at, path) => CreateDiskKeepsIds(l, id, at, path, resolve);
    case OpAttachDisk(id, to) => AttachDiskKeepsIds(l, id, to, resolve);
    case OpCreateLayer(base, layer, path) => CreateLayerIsDisks(l, base, layer, path);
    case OpCreateLayerAndAttach(base, layer, typ, ref, path) => CreateLayerAndAttachKeepsIds(l, base, layer, typ, ref, path);
    case OpDetachDisk(typ, ref, id) => DetachKeepsIds(l, typ, ref, id);
    case OpMergeDisk(id, offline) => MergeKeepsIds(l, id, offline);
    case OpRenameDisk(id, newId) => RenameIsDisks(l, id, newId);
    case OpDeleteDisk(id) => DeleteIsDisks(l, id);
  }

  lemma CreateLayerIsDisks(l: Lab, base: string, layer: string, path: string)
    requires CreateLayer(l, base, layer, path).Some?
    ensures var m := CreateLayer(l, base, layer, path).value; SameIds(l, m) && m.links == l.links
  {
    OtherDisksKeepIds(l, CreateLayer(l, base, layer, path).value.disks);
  }

  lemma RenameIsDisks(l: Lab, id: string, newId: string)
    requires RenameDisk(l, id, newId).Some?
    ensures var m := RenameDisk(l, id, newId).value; SameIds(l, m) && m.links == l.links
  {
    OtherDisksKeepIds(l, RenameDisk(l, id, newId).value.disks);
  }

  lemma DeleteIsDisks(l: Lab, id: string)
    requires DeleteDisk(l, id).Some?
    ensures var m := DeleteDisk(l, id).value; SameIds(l, m) && m.links == l.links
  {
    OtherDisksKeepIds(l, DeleteDisk(l, id).value.disks);
  }

  /** What an interface operation does to the links, where it makes no new name. */
  ghost predicate LinksStayApart(l: Lab, m: Lab) {
    forall n: Naming | LinksNamedApart(n, l.links) :: LinksNamedApart(n, m.links)
  }

  lemma SameLinksStayApart(l: Lab, m: Lab)
    requires m.links == l.links
    ensures LinksStayApart(l, m)
  {
  }

  lemma AddNicKeepsIds(l: Lab, k: Kind, ref: string, mac: string)
    requires IsWorkload(k) && AddNic(l, k, ref, mac).Some?
    ensures var m := AddNic(l, k, ref, mac).value; SameIds(l, m) && LinksStayApart(l, m)
  {
    hide SameIds, WithNics, LinksNamedApart;
    var i := Find(l, k, Resolve(l, k, ref).id);
    var nics := Workloads(l, k)[i].nics + [Nic("", "", mac)];
    NicsKeepIds(l, k, i, nics, l.links);
    NicsKeepLinks(l, k, i, nics);
  }

  lemma NicsKeepLinks(l: Lab, k: Kind, i: nat, nics: seq<Nic>)
    requires IsWorkload(k) && i < |Workloads(l, k)|
    ensures WithNics(l, k, i, nics).links == l.links && WithNics(l, k, i, nics).(links := l.links) == WithNics(l, k, i, nics)
  {
  }

  lemma ReplacedKeepsIds(l: Lab, k: Kind, i: nat, index: nat, nic: Nic)
    requires IsWorkload(k) && i < |Workloads(l, k)| && index < |Workloads(l, k)[i].nics|
    ensures var m := ReplaceNic(l, k, i, index, nic); SameIds(l, m) && LinksStayApart(l, m)
  {
    hide SameIds, WithNics, LinksNamedApart, WithoutEndpoint;
    var e := EndpointAt(l, k, i, index);
    NicsKeepIds(l, k, i, Workloads(l, k)[i].nics[index := nic], WithoutEndpoint(l.links, e));
    forall n: Naming | LinksNamedApart(n, l.links)
      ensures LinksNamedApart(n, WithoutEndpoint(l.links, e))
    {
      WithoutEndpointNamedApart(n, l.links, e);
    }
  }

  lemma ConnectKeepsIds(l: Lab, k: Kind, ref: string, index: int, target: Target, mac: string)
    requires IsWorkload(k) && ConnectNic(l, k, ref, index, target, mac).Some?
    ensures var m := ConnectNic(l, k, ref, index, target, mac).value; SameIds(l, m) && LinksStayApart(l, m)
  {
    hide SameIds, ReplaceNic, LinksStayApart, Resolve, ResolveTarget, DhcpCompatible, OtherDhcpOn;
    var i := Find(l, k, Resolve(l, k, ref).id);
    var m := ConnectNic(l, k, ref, index, target, mac).value;
    var nic :| m == ReplaceNic(l, k, i, index, nic);
    ReplacedKeepsIds(l, k, i, index, nic);
  }

  lemma DisconnectNicKeepsIds(l: Lab, k: Kind, ref: string, nic: Option<int>)
    requires IsWorkload(k) && DisconnectNic(l, k, ref, nic).Some?
    ensures var m := DisconnectNic(l, k, ref, nic).value; SameIds(l, m) && LinksStayApart(l, m)
  {
    hide SameIds, ReplaceNic, LinksStayApart, Resolve, ManagedDhcp;
    var id := Resolve(l, k, ref).id;
    var i := Find(l, k, id);
    SameAsBefore(l);
    SameLinksStayApart(l, l);
    if i < Count(l, k) && nic.value < |Workloads(l, k)[i].nics| {
      ReplacedKeepsIds(l, k, i, nic.value, Detached(Workloads(l, k)[i].nics[nic.value]));
    }
  }

  lemma DeleteNicKeepsIds(l: Lab, k: Kind, ref: string, index: int)
    requires IsWorkload(k) && DeleteNic(l, k, ref, index).Some?
    ensures SameIds(l, DeleteNic(l, k, ref, index).value)
  {
    hide SameIds, WithNics, Reindexed, Resolve;
    var i := Find(l, k, Resolve(l, k, ref).id);
    var w := Workloads(l, k)[i];
    NicsKeepIds(l, k, i, w.nics[..index] + w.nics[index + 1..], Reindexed(l.links, KindText(k), w.id, index));
  }

  lemma ConnectDirectKeepsIds(l: Lab, source: NicRef, dest: NicRef)
    requires IsWorkload(source.kind) && IsWorkload(dest.kind) && ConnectDirect(l, source, dest).Some?
    ensures SameIds(l, ConnectDirect(l, source, dest).value)
  {
    hide SameIds, Disconnect, Resolve, TargetNic, ManagedDhcp;
    var sid, tid := Resolve(l, source.kind, source.ref).id, Resolve(l, dest.kind, dest.ref).id;
    var snic, tnic := source.nic.value, TargetNic(l, source, dest).value;
    SameAsBefore(l);
    var half := Disconnect(l, source.kind, sid, snic);
    var both := Disconnect(half, dest.kind, tid, tnic);
    DisconnectedKeepsIds(l, source.kind, sid, snic);
    DisconnectedKeepsIds(half, dest.kind, tid, tnic);
    SameIdsTransitive(l, half, both);
    var cleared := if dest.nic.Some? then both else l;
    OtherLinksKeepIds(l, cleared, ConnectDirect(l, source, dest).value.links);
  }

  lemma OtherLinksKeepIds(l: Lab, m: Lab, links: seq<Link>)
    requires SameIds(l, m)
    ensures SameIds(l, m.(links := links))
  {
  }

  lemma DisconnectExternalKeepsIds(l: Lab, ref: string, uplink: string)
    requires DisconnectExternal(l, ref, uplink).Some?
    ensures var m := DisconnectExternal(l, ref, uplink).value; SameIds(l, m) && m.links == l.links
  {
    hide Resolve, SwitchUplinks;
  }

  /** Deleting a node of whatever kind takes it from the nodes, and no link gets a new name. */
  lemma DeletionLoses(l: Lab, k: Kind, ref: string)
    requires IdentityOk(l) && DeleteNode(l, k, ref).Some?
    ensures var m := DeleteNode(l, k, ref).value; var i := Find(l, k, Resolve(l, k, ref).id);
      i < Count(l, k) && Loses(l, m, k, i) && LinksStayApart(l, m)
  {
    hide IdentityOk, Loses, LinksNamedApart, Resolve, WithoutNode, Deletes.Without, ReleaseAll, SubWorkloads, CutUplinks, Has;
    var id := Resolve(l, k, ref).id;
    var i := Find(l, k, id);
    ResolvedNodeExists(l, k, ref);
    assert i < Count(l, k) by { HasMeans(l, k, id); }
    assert NodeAt(l, k, i).id == id;
    match k
    case VM => WorkloadDeletedLoses(l, k, i); DeletedLinksStayApart(l, k, id);
    case CT => WorkloadDeletedLoses(l, k, i); DeletedLinksStayApart(l, k, id);
    case SW => SwitchDeletedLoses(l, i); SameLinksStayApart(l, SwitchDeleted(l, id));
    case UP => UplinkDeletedLoses(l, i); SameLinksStayApart(l, UplinkDeleted(l, id));
  }

  lemma HasMeans(l: Lab, k: Kind, id: string)
    requires Has(l, k, id)
    ensures Find(l, k, id) < Count(l, k)
  {
  }

  lemma DeletedLinksStayApart(l: Lab, k: Kind, id: string)
    requires IsWorkload(k)
    ensures LinksStayApart(l, WorkloadDeleted(l, k, id))
  {
    hide LinksNamedApart, WithoutNode, Deletes.Without, ReleaseAll;
    forall n: Naming | LinksNamedApart(n, l.links)
      ensures LinksNamedApart(n, WithoutNode(l.links, KindText(k), id))
    {
      WithoutNodeNamedApart(n, l.links, KindText(k), id);
    }
  }

  lemma CreateOpGains(l: Lab, op: Op, resolve: PathFn)
    requires OpOk(op) && Apply(l, op, resolve).Some?
    requires op.OpCreateWorkload? || op.OpCreateSwitch? || op.OpCreateExternal? || op.OpCreateDhcp?
    ensures var m := Apply(l, op, resolve).value; Gains(l, m, CreatedKind(op), op.name) && m.links == l.links
  {
    hide NameFree, FirstNics, OptionalRef, DhcpCompatible, HasDhcpOn, FirstCompatible;
  }

  function CreatedKind(op: Op): Kind
    requires op.OpCreateWorkload? || op.OpCreateSwitch? || op.OpCreateExternal? || op.OpCreateDhcp?
  {
    match op case OpCreateWorkload(k, _, _, _, _, _) => k case OpCreateSwitch(_, _, _) => SW case OpCreateExternal(_, _) => UP case _ => CT
  }

  lemma CreateOpNames(n: Naming, l: Lab, op: Op, resolve: PathFn)
    requires IdentityOk(l) && OpOk(op) && Apply(l, op, resolve).Some? && BridgesApart(n, l) && !HashesMeet(n, l)
    requires op.OpCreateWorkload? || op.OpCreateSwitch? || op.OpCreateExternal? || op.OpCreateDhcp?
    ensures NamesAfter(n, l, op, Apply(l, op, resolve).value)
  {
    hide IdentityOk, BridgesApart, HashesMeet, Gains, Borne, Apply;
    var m := Apply(l, op, resolve).value;
    CreateOpGains(l, op, resolve);
    GainedBridges(n, l, m, CreatedKind(op), op.name);
    if CreatedKind(op) != CT { GainedNodeKeepsHashes(n, l, m, CreatedKind(op), op.name); }
  }

  /** Bridges stay apart unless one is taken, and hashed names can only meet where the operation makes some. */
  ghost predicate NamesAfter(n: Naming, l: Lab, op: Op, m: Lab) {
    && (BridgesApart(n, m) <==> !TakesBridge(n, l, op))
    && (!MakesHashes(op) ==> !HashesMeet(n, m))
  }

  lemma NodeOpNames(n: Naming, l: Lab, op: Op, resolve: PathFn)
    requires IdentityOk(l) && OpOk(op) && Apply(l, op, resolve).Some? && BridgesApart(n, l) && !HashesMeet(n, l)
    requires op.OpRename? || op.OpDelete? || op.OpDisconnectExternal?
    ensures NamesAfter(n, l, op, Apply(l, op, resolve).value)
  {
    hide IdentityOk, BridgesApart, HashesMeet, Borne, SameIds, Loses, Renames, LinksNamedApart, RenameNode, DeleteNode, DisconnectExternal;
    var m := Apply(l, op, resolve).value;
    match op
    case OpRename(k, from, to) =>
      if from == to {
        RenameToItself(l, k, from);
        ClearedKeepsIds(l, k, from);
        SameIdsSameBridges(n, l, m);
        SameHashes(n, l, m);
      } else {
        RenameNodeRenames(l, k, from, to);
        RenamedBridges(n, l, m, k, Find(l, k, from), to);
        if HasBridge(k) { RenamedBridgeKeepsHashes(n, l, m, k, Find(l, k, from), to); }
      }
    case OpDelete(k, ref) =>
      DeletedFound(l, k, ref);
      DeletionLoses(l, k, ref);
      var i := Find(l, k, Resolve(l, k, ref).id);
      LostBridges(n, l, m, k, i);
      LostNodeKeepsHashes(n, l, m, k, i);
    case OpDisconnectExternal(ref, uplink) =>
      DisconnectExternalKeepsIds(l, ref, uplink);
      SameIdsSameBridges(n, l, m);
      SameHashes(n, l, m);
  }

  lemma RenameToItself(l: Lab, k: Kind, id: string)
    ensures RenameNode(l, k, id, id) == Some(ClearRedundant(l, k, id))
  {
  }

  lemma NicOpNames(n: Naming, l: Lab, op: Op, resolve: PathFn)
    requires OpOk(op) && Apply(l, op, resolve).Some? && BridgesApart(n, l) && !HashesMeet(n, l)
    requires op.OpAddNic? || op.OpDeleteNic? || op.OpConnectNic? || op.OpDisconnectNic? || op.OpConnectDirect?
    ensures NamesAfter(n, l, op, Apply(l, op, resolve).value)
  {
    hide BridgesApart, HashesMeet, SameIds, LinksNamedApart, AddNic, DeleteNic, ConnectNic, DisconnectNic, ConnectDirect;
    var m := Apply(l, op, resolve).value;
    match op {
      case OpAddNic(k, ref, mac) => AddNicKeepsIds(l, k, ref, mac);
      case OpDeleteNic(k, ref, index) => DeleteNicKeepsIds(l, k, ref, index);
      case OpConnectNic(k, ref, index, target, mac) => ConnectKeepsIds(l, k, ref, index, target, mac);
      case OpDisconnectNic(k, ref, nic) => DisconnectNicKeepsIds(l, k, ref, nic);
      case OpConnectDirect(s, d) => ConnectDirectKeepsIds(l, s, d);
    }
    SameIdsSameBridges(n, l, m);
    if !MakesHashes(op) { FewerLinksKeepHashes(n, l, m); }
  }

  lemma OpNames(n: Naming, l: Lab, op: Op, resolve: PathFn)
    requires IdentityOk(l) && OpOk(op) && Apply(l, op, resolve).Some? && BridgesApart(n, l) && !HashesMeet(n, l)
    ensures NamesAfter(n, l, op, Apply(l, op, resolve).value)
  {
    hide IdentityOk, BridgesApart, HashesMeet, SameIds, Apply, NamesAfter;
    if op.OpCreateWorkload? || op.OpCreateSwitch? || op.OpCreateExternal? || op.OpCreateDhcp? {
      CreateOpNames(n, l, op, resolve);
    } else if op.OpRename? || op.OpDelete? || op.OpDisconnectExternal? {
      NodeOpNames(n, l, op, resolve);
    } else if op.OpAddNic? || op.OpDeleteNic? || op.OpConnectNic? || op.OpDisconnectNic? || op.OpConnectDirect? {
      NicOpNames(n, l, op, resolve);
    } else {
      DiskOpNames(n, l, op, resolve);
    }
  }

  lemma DiskOpNames(n: Naming, l: Lab, op: Op, resolve: PathFn)
    requires OpOk(op) && Apply(l, op, resolve).Some? && BridgesApart(n, l) && !HashesMeet(n, l)
    requires op.OpCreateDisk? || op.OpAttachDisk? || op.OpCreateLayer? || op.OpCreateLayerAndAttach? || op.OpDetachDisk?
      || op.OpMergeDisk? || op.OpRenameDisk? || op.OpDeleteDisk?
    ensures NamesAfter(n, l, op, Apply(l, op, resolve).value)
  {
    hide BridgesApart, HashesMeet, SameIds, Apply;
    var m := Apply(l, op, resolve).value;
    DiskOpKeepsIds(l, op, resolve);
    SameIdsSameBridges(n, l, m);
    SameHashes(n, l, m);
  }

  /** Hashed names of what an operation computes meet; only an operation that makes some can bring that about. */
  predicate HashesMeetAfter(n: Naming, l: Lab, op: Op, resolve: PathFn)
    requires OpOk(op)
  {
    var after := Apply(l, op, resolve);
    MakesHashes(op) && after.Some? && HashesMeet(n, after.value)
  }

  /**
   Main theorem: on a saved lab, what an operation hands to its commit is rejected exactly if it deletes a switch under a
   DHCP service, gives a switch or an uplink a bridge that another has already, or makes hashed names that meet.
   */
  lemma CommitRejectsExactly(n: Naming, l: Lab, op: Op, resolve: PathFn)
    requires Validation.Accepted(n, l, resolve) && PathsOk(resolve) && OpOk(op) && Apply(l, op, resolve).Some?
    ensures Validation.Accepted(n, Apply(l, op, resolve).value, resolve)
       <==> !StrandsDhcp(l, op) && !TakesBridge(n, l, op) && !HashesMeetAfter(n, l, op, resolve)
  {
    hide PathsOk, Apply, StrandsDhcp, TakesBridge, IdentityOk, SwitchesOk, NetworksOk, DhcpOk, LinksOk, DisksOk, LayoutOk, ManagedNamesOk,
      BridgesApart, HashesMeet, MakesHashes;
    var m := Apply(l, op, resolve).value;
    RulesBreakExactly(l, op, resolve);
    NamesOkExactly(n, l);
    OpNames(n, l, op, resolve);
    if Valid(m, resolve) { NamesOkExactly(n, m); }
  }

  // ---------------------------------------------------------------- runs

  /** One request: refused, rejected by the commit, or carried out. */
  function Step(n: Naming, l: Lab, op: Op, resolve: PathFn): Lab
    requires OpOk(op)
  {
    var after := Apply(l, op, resolve);
    if after.None? || StrandsDhcp(l, op) || TakesBridge(n, l, op) || HashesMeetAfter(n, l, op, resolve) then l else after.value
  }

  function Run(n: Naming, l: Lab, ops: seq<Op>, resolve: PathFn): Lab
    requires forall op | op in ops :: OpOk(op)
  {
    if ops == [] then l else Step(n, Run(n, l, ops[..|ops| - 1], resolve), ops[|ops| - 1], resolve)
  }

  /**
   Every run of operations, in any order, keeps all rules: identities, references, wiring, DHCP services, layout, the
   disk rules (layers on existing bases, one disk per workload, agreeing paths), and names of the runtime that differ.
   */
  lemma {:induction false} RunKeepsValid(n: Naming, l: Lab, ops: seq<Op>, resolve: PathFn)
    requires Validation.Accepted(n, l, resolve) && PathsOk(resolve) && forall op | op in ops :: OpOk(op)
    ensures Validation.Accepted(n, Run(n, l, ops, resolve), resolve)
  {
    hide Validation.Accepted, PathsOk, Apply, StrandsDhcp, TakesBridge, HashesMeetAfter;
    if ops != [] {
      RunKeepsValid(n, l, ops[..|ops| - 1], resolve);
      var m := Run(n, l, ops[..|ops| - 1], resolve);
      if Apply(m, ops[|ops| - 1], resolve).Some? { CommitRejectsExactly(n, m, ops[|ops| - 1], resolve); }
    }
  }
}
