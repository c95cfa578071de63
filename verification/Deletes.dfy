/** Deleting VMs, containers, switches and uplinks, and taking uplinks off switches, with their reference cleanup. */
module Deletes {
  import opened Numerals
  import opened LabModel
  import opened Lookup
  import opened NetworkLinks
  import opened Disks
  import opened Renaming

  // ---------------------------------------------------------------- filters

  function Without<T>(s: seq<T>, drop: T -> bool): seq<T> {
    if s == [] then []
    else Without(s[..|s| - 1], drop) + if drop(s[|s| - 1]) then [] else [s[|s| - 1]]
  }

  method Filter<T>(s: seq<T>, drop: T -> bool) returns (out: seq<T>)
    ensures out == Without(s, drop)
  {
    out := [];
    for i := 0 to |s|
      invariant out == Without(s[..i], drop)
    {
      assert s[..i + 1][..i] == s[..i];
      if drop(s[i]) {
        continue;
      }
      out := out + [s[i]];
    }
    assert s[..|s|] == s;
  }

  function WorkloadIs(id: string): Workload -> bool {
    (w: Workload) => w.id == id
  }

  function SwitchIs(id: string): Switch -> bool {
    (sw: Switch) => sw.id == id
  }

  function UplinkIs(id: string): Uplink -> bool {
    (u: Uplink) => u.id == id
  }

  function IdIs(id: string): string -> bool {
    (u: string) => u == id
  }

  function AtNode(typ: string, id: string): LayoutLink -> bool {
    (x: LayoutLink) => x.from == LayoutEnd(typ, id) || x.to == LayoutEnd(typ, id)
  }

  // ---------------------------------------------------------------- the operations as functions

  /** The layout forgets the node. */
  function Unplaced(l: Lab, k: Kind, id: string): Lab {
    l.(positions := l.positions - {id}, layoutLinks := Without(l.layoutLinks, AtNode(KindText(k), id)))
  }

  function WorkloadDeleted(l: Lab, k: Kind, id: string): Lab
    requires IsWorkload(k)
  {
    Unplaced(WithWorkloads(l, k, Without(Workloads(l, k), WorkloadIs(id)))
               .(links := WithoutNode(l.links, KindText(k), id), disks := ReleaseAll(l.disks, KindText(k), id)), k, id)
  }

  function SwitchDeleted(l: Lab, id: string): Lab {
    Unplaced(SubNics(l.(switches := Without(l.switches, SwitchIs(id))), SwitchRef, id, ""), SW, id)
  }

  /** The switch with these uplinks; one that bridges over MACNAT and lost the last becomes a plain bridge. */
  function WithUplinks(sw: Switch, ids: seq<string>): Switch {
    sw.(uplinks := ids, uplink := "", mode := if ids == [] && sw.mode == "macnat-bridge" then "bridge" else sw.mode)
  }

  function CutUplink(sw: Switch, id: string): Switch {
    var next := Without(SwitchUplinks(sw), IdIs(id));
    if |next| == |SwitchUplinks(sw)| then sw else WithUplinks(sw, next)
  }

  function CutUplinks(sws: seq<Switch>, id: string): seq<Switch> {
    seq(|sws|, i requires 0 <= i < |sws| => CutUplink(sws[i], id))
  }

  function UplinkDeleted(l: Lab, id: string): Lab {
    Unplaced(SubNics(l.(uplinks := Without(l.uplinks, UplinkIs(id)), switches := CutUplinks(l.switches, id)), UplinkRef, id, ""), UP, id)
  }

  function Deleted(l: Lab, k: Kind, id: string): Lab {
    match k
    case VM => WorkloadDeleted(l, VM, id)
    case CT => WorkloadDeleted(l, CT, id)
    case SW => SwitchDeleted(l, id)
    case UP => UplinkDeleted(l, id)
  }

  /** VMDelete, ContainerDelete, SwitchDelete, ExternalDelete. */
  function DeleteNode(l: Lab, k: Kind, ref: string): Option<Lab> {
    var r := Resolve(l, k, ref);
    if r.Found? then Some(Deleted(l, k, r.id)) else None
  }

  /** SwitchDisconnectExternal; an empty uplink reference takes them all off. */
  function DisconnectExternal(l: Lab, ref: string, uplink: string): Option<Lab> {
    var r, u := Resolve(l, SW, ref), Resolve(l, UP, uplink);
    if !r.Found? then None
    else
      var i := Find(l, SW, r.id);
      if i == |l.switches| then None
      else
        var ids := SwitchUplinks(l.switches[i]);
        if ids == [] then None
        else if uplink == "" then Some(l.(switches := l.switches[i := WithUplinks(l.switches[i], [])]))
        else if !u.Found? || u.id !in ids then None
        else Some(l.(switches := l.switches[i := WithUplinks(l.switches[i], Without(ids, IdIs(u.id)))]))
  }

  // ---------------------------------------------------------------- the operations in place

  method RemoveFromLayout(s: LabState, k: Kind, id: string)
    modifies s
    ensures s.View() == Unplaced(old(s.View()), k, id)
  {
    s.positions := s.positions - {id};
    s.layoutLinks := Filter(s.layoutLinks, AtNode(KindText(k), id));
  }

  method DeleteWorkload(s: LabState, k: Kind, ref: string) returns (ok: bool)
    requires IsWorkload(k)
    modifies s
    ensures Did(s, ok, DeleteNode(old(s.View()), k, ref))
  {
    hide Without, WithoutNode, ReleaseAll;
    var r := ResolveOne(s.View(), k, ref);
    if !r.Found? {
      return false;
    }
    if k == VM {
      s.vms := Filter(s.vms, WorkloadIs(r.id));
    } else {
      s.containers := Filter(s.containers, WorkloadIs(r.id));
    }
    RemoveNetworkLinksForNode(s, KindText(k), r.id);
    DetachDisksForNode(s, KindText(k), r.id);
    RemoveFromLayout(s, k, r.id);
    return true;
  }

  method DeleteSwitch(s: LabState, ref: string) returns (ok: bool)
    modifies s
    ensures Did(s, ok, DeleteNode(old(s.View()), SW, ref))
  {
    hide Without, SubWorkloads;
    var r := ResolveOne(s.View(), SW, ref);
    if !r.Found? {
      return false;
    }
    s.switches := Filter(s.switches, SwitchIs(r.id));
    SubAllNicRefs(s, SwitchRef, r.id, "");
    RemoveFromLayout(s, SW, r.id);
    return true;
  }

  method CutSwitchUplinks(s: LabState, id: string)
    modifies s
    ensures s.View() == old(s.View()).(switches := CutUplinks(old(s.switches), id))
  {
    hide SwitchUplinks, Without;
    ghost var was := s.switches;
    for i := 0 to |s.switches|
      invariant s.View() == old(s.View()).(switches := s.switches) && |s.switches| == |was|
      invariant forall h | 0 <= h < |was| :: s.switches[h] == if h < i then CutUplink(was[h], id) else was[h]
    {
      var ids := SwitchUplinks(s.switches[i]);
      var next := Filter(ids, IdIs(id));
      if |next| != |ids| {
        s.switches := s.switches[i := s.switches[i].(uplinks := next, uplink := "")];
        if next == [] && s.switches[i].mode == "macnat-bridge" {
          s.switches := s.switches[i := s.switches[i].(mode := "bridge")];
        }
      }
    }
    assert s.switches == CutUplinks(was, id);
  }

  method DeleteUplink(s: LabState, ref: string) returns (ok: bool)
    modifies s
    ensures Did(s, ok, DeleteNode(old(s.View()), UP, ref))
  {
    hide Without, SubWorkloads, CutUplinks;
    var r := ResolveOne(s.View(), UP, ref);
    if !r.Found? {
      return false;
    }
    s.uplinks := Filter(s.uplinks, UplinkIs(r.id));
    CutSwitchUplinks(s, r.id);
    SubAllNicRefs(s, UplinkRef, r.id, "");
    RemoveFromLayout(s, UP, r.id);
    return true;
  }

  method SwitchDisconnectExternal(s: LabState, ref: string, uplink: string) returns (ok: bool)
    modifies s
    ensures Did(s, ok, DisconnectExternal(old(s.View()), ref, uplink))
  {
    hide Without, SwitchUplinks;
    var l := s.View();
    var r := ResolveOne(l, SW, ref);
    if !r.Found? {
      return false;
    }
    for i := 0 to |s.switches|
      invariant s.View() == l && Find(l, SW, r.id) >= i
    {
      assert NodeAt(l, SW, i).id == s.switches[i].id;
      if s.switches[i].id != r.id {
        continue;
      }
      var ids := SwitchUplinks(s.switches[i]);
      if ids == [] {
        return false;
      }
      if uplink == "" {
        ids := [];
      } else {
        var u := ResolveOne(l, UP, uplink);
        if !u.Found? || u.id !in ids {
          return false;
        }
        ids := Filter(ids, IdIs(u.id));
      }
      s.switches := s.switches[i := s.switches[i].(uplinks := ids, uplink := "")];
      if ids == [] && s.switches[i].mode == "macnat-bridge" {
        s.switches := s.switches[i := s.switches[i].(mode := "bridge")];
      }
      return true;
    }
    return false;
  }
}
