/**
 When each interface operation on a valid lab succeeds and which interfaces it chooses, said without the
 operations' own definitions; and that the filters on links keep their order.
 */
module NetworkOutcomes {
  import opened Numerals
  import opened LabModel
  import opened Lookup
  import opened NetworkLinks
  import opened NicConnections
  import opened DirectLinks
  import opened Relabelling
  import opened Deletes
  import opened DeleteEffects
  import opened Creates
  import opened CreateOutcomes

  // ---------------------------------------------------------------- which workload

  /** The text leads to node i. */
  predicate At(l: Lab, k: Kind, ref: string, i: nat) {
    i < Count(l, k) && Resolve(l, k, ref) == Found(NodeAt(l, k, i).id)
  }

  lemma AtIs(l: Lab, k: Kind, ref: string)
    requires IdentityOk(l)
    ensures var r := Resolve(l, k, ref);
      if r.Found? then var i := Find(l, k, r.id); At(l, k, ref, i) && NodeAt(l, k, i).id == r.id && forall j: nat :: At(l, k, ref, j) ==> j == i
      else forall j: nat :: !At(l, k, ref, j)
  {
    hide IdentityOk, Resolve;
    var r := Resolve(l, k, ref);
    if r.Found? {
      ResolvedNodeExists(l, k, ref);
      forall j: nat | At(l, k, ref, j) ensures j == Find(l, k, r.id) { FindsNode(l, k, j); }
    }
  }

  predicate Service(l: Lab, k: Kind, i: nat)
    requires i < Count(l, k)
  {
    k == CT && l.containers[i].service == "dhcp"
  }

  // ---------------------------------------------------------------- adding, deleting, disconnecting

  lemma AddsExactly(l: Lab, k: Kind, ref: string, mac: string)
    requires IdentityOk(l) && IsWorkload(k)
    ensures AddNic(l, k, ref, mac).Some? <==> exists i: nat :: At(l, k, ref, i) && !Service(l, k, i)
    ensures forall i: nat | At(l, k, ref, i) && AddNic(l, k, ref, mac).Some? ::
      AddNic(l, k, ref, mac).value == WithNics(l, k, i, Workloads(l, k)[i].nics + [Nic("", "", mac)])
  {
    hide IdentityOk, Resolve;
    AtIs(l, k, ref);
  }

  /** An interface of anything but a DHCP service can be deleted; the rest of that workload's interfaces close up. */
  lemma DeletesNicExactly(l: Lab, k: Kind, ref: string, index: int)
    requires IdentityOk(l) && IsWorkload(k)
    ensures DeleteNic(l, k, ref, index).Some?
      <==> exists i: nat :: At(l, k, ref, i) && !Service(l, k, i) && 0 <= index < |Workloads(l, k)[i].nics|
    ensures forall i: nat | At(l, k, ref, i) && DeleteNic(l, k, ref, index).Some? ::
      DeleteNic(l, k, ref, index).value == DeleteNicAt(l, k, i, index)
  {
    hide IdentityOk, Resolve, DeleteNicAt;
    AtIs(l, k, ref);
  }

  /** An interface of anything but a DHCP service can be taken off the network, if it exists and was named. */
  lemma DisconnectsExactly(l: Lab, k: Kind, ref: string, index: Option<int>)
    requires IdentityOk(l) && IsWorkload(k)
    ensures DisconnectNic(l, k, ref, index).Some?
      <==> index.Some? && exists i: nat :: At(l, k, ref, i) && !Service(l, k, i) && 0 <= index.value < |Workloads(l, k)[i].nics|
    ensures forall i: nat | At(l, k, ref, i) && DisconnectNic(l, k, ref, index).Some? ::
      DisconnectNic(l, k, ref, index).value
      == ReplaceNic(l, k, i, index.value, Nic("", "", Workloads(l, k)[i].nics[index.value].mac))
  {
    hide IdentityOk, Resolve, ReplaceNic, ManagedDhcp;
    AtIs(l, k, ref);
    if Resolve(l, k, ref).Found? {
      ResolvedId(l, k, ref);
      ManagedInWords(l, k, Resolve(l, k, ref).id);
    }
  }

  lemma ManagedInWords(l: Lab, k: Kind, id: string)
    requires IdentityOk(l) && IsWorkload(k) && id != "" && Has(l, k, id)
    ensures ManagedDhcp(l, k, id) <==> Service(l, k, Find(l, k, id))
  {
    hide IdentityOk;
    if k == CT { MatchIsFind(l, CT, id); }
  }

  // ---------------------------------------------------------------- connecting

  /** The switch or uplink a target leads to; where either will do, a switch comes first. */
  predicate Attaches(l: Lab, t: Target, switch: string, uplink: string) {
    && t.ref != ""
    && match t
       case AnyTarget(ref) =>
         if Resolve(l, SW, ref).Found? then uplink == "" && Resolve(l, SW, ref) == Found(switch)
         else switch == "" && Resolve(l, UP, ref) == Found(uplink)
       case SwitchTarget(ref) => uplink == "" && Resolve(l, SW, ref) == Found(switch)
       case UplinkTarget(ref) => switch == "" && Resolve(l, UP, ref) == Found(uplink)
       case OtherTarget(_) => false
  }

  lemma TargetAttaches(l: Lab, t: Target)
    ensures var to := ResolveTarget(l, t);
      if to.Some? then Attaches(l, t, to.value.switch, to.value.uplink) && forall s, u :: Attaches(l, t, s, u) ==> s == to.value.switch && u == to.value.uplink
      else forall s, u :: !Attaches(l, t, s, u)
  {
    hide Resolve;
  }

  /** What a DHCP service may be moved to: a switch that suits and that no other service is on, without a MAC of its own. */
  ghost predicate ServiceMayMove(l: Lab, i: nat, switch: string, uplink: string, mac: string) {
    && i < |l.containers| && uplink == "" && mac == ""
    && (exists h: nat :: Suits(l, h) && l.switches[h].id == switch)
    && forall j | 0 <= j < |l.containers| && j != i && l.containers[j].service == "dhcp" && |l.containers[j].nics| == 1 ::
         l.containers[j].nics[0].switch != switch
  }

  lemma MayMoveInWords(l: Lab, i: nat, switch: string)
    requires IdentityOk(l) && i < |l.containers|
    ensures DhcpCompatible(l, switch) && !OtherDhcpOn(l, l.containers[i].id, switch) <==> ServiceMayMove(l, i, switch, "", "")
  {
    hide IdentityOk, Suits, CompatibleSwitch, DhcpSwitchOk;
    forall j: nat | j < |l.containers|
      ensures l.containers[j].id == l.containers[i].id <==> j == i
    {
      assert NodeAt(l, CT, j).id == l.containers[j].id && NodeAt(l, CT, i).id == l.containers[i].id;
      if l.containers[j].id == l.containers[i].id { SameIdSameNode(l, CT, j, CT, i); }
    }
    forall h: nat | h < |l.switches|
      ensures DhcpCompatible(l, l.switches[h].id) <==> Suits(l, h)
      ensures l.switches[h].id != ""
    {
      SuitsInWords(l, h);
      FindsNode(l, SW, h);
      assert NodeAt(l, SW, h).id == l.switches[h].id;
    }
    var f := Find(l, SW, switch);
    if f < |l.switches| { assert NodeAt(l, SW, f).id == l.switches[f].id == switch; }
    forall h: nat | Suits(l, h) ensures h < |l.switches| { SuitsExists(l, h); }
    if ServiceMayMove(l, i, switch, "", "") {
      var h: nat :| Suits(l, h) && l.switches[h].id == switch;
      assert DhcpCompatible(l, switch);
    }
  }

  lemma SuitsExists(l: Lab, h: nat)
    requires Suits(l, h)
    ensures h < |l.switches|
  {
  }

  /**
   An existing interface can be connected to any switch or uplink the target leads to; a DHCP service's only to a switch
   it may move to. The interface keeps its MAC unless a new one is given.
   */
  lemma ConnectsExactly(l: Lab, k: Kind, ref: string, index: int, t: Target, mac: string, s: string, u: string)
    requires IdentityOk(l) && DhcpOk(l) && IsWorkload(k) && Attaches(l, t, s, u)
    ensures ConnectNic(l, k, ref, index, t, mac).Some? <==> exists i: nat ::
      At(l, k, ref, i) && 0 <= index < |Workloads(l, k)[i].nics| && (Service(l, k, i) ==> ServiceMayMove(l, i, s, u, mac))
    ensures forall i: nat | At(l, k, ref, i) && ConnectNic(l, k, ref, index, t, mac).Some? ::
      ConnectNic(l, k, ref, index, t, mac).value
      == ReplaceNic(l, k, i, index, Nic(s, u, if mac == "" then Workloads(l, k)[i].nics[index].mac else mac))
  {
    hide IdentityOk, DhcpOk, Resolve, ReplaceNic, Attaches, ResolveTarget, DhcpCompatible, OtherDhcpOn, ServiceMayMove;
    AtIs(l, k, ref);
    TargetAttaches(l, t);
    if Resolve(l, k, ref).Found? {
      var i := Find(l, k, Resolve(l, k, ref).id);
      if k == CT {
        assert l.containers[i].id == Resolve(l, k, ref).id;
        MayMoveInWords(l, i, s);
        OnlyBareMoves(l, i, s, u, mac);
        if IsDhcp(l.containers[i]) { DhcpNicHasNoMac(l, i); }
      }
    }
  }

  lemma OnlyBareMoves(l: Lab, i: nat, s: string, u: string, mac: string)
    ensures ServiceMayMove(l, i, s, u, mac) <==> u == "" && mac == "" && ServiceMayMove(l, i, s, "", "")
  {
  }

  /** A target that leads nowhere is refused. */
  lemma ConnectRefuses(l: Lab, k: Kind, ref: string, index: int, t: Target, mac: string)
    requires IsWorkload(k) && forall s, u :: !Attaches(l, t, s, u)
    ensures ConnectNic(l, k, ref, index, t, mac).None?
  {
    hide Resolve, Attaches, ResolveTarget;
    TargetAttaches(l, t);
  }

  // ---------------------------------------------------------------- linking directly

  ghost predicate Unattached(l: Lab, e: Endpoint) {
    && (exists nic :: IsNic(l, e, nic) && nic.switch == "" && nic.uplink == "")
    && forall x: Endpoint :: !Linked(l.links, e, x)
  }

  lemma UnattachedIsAvailable(l: Lab, e: Endpoint)
    ensures Unattached(l, e) <==> Available(l, e)
  {
    hide IsNic, EndpointOk;
    EndpointOkIsFreeNic(l, e);
    if LinkedAny(l.links, e) {
      var i :| 0 <= i < |l.links| && Touches(l.links[i], e);
      var x := if l.links[i].from == e then l.links[i].to else l.links[i].from;
      assert Linked(l.links, e, x);
    }
    if x: Endpoint :| Linked(l.links, e, x) { LinkedTouches(l.links, e, x); }
  }

  lemma LinkedTouches(links: seq<Link>, e: Endpoint, x: Endpoint)
    requires Linked(links, e, x)
    ensures LinkedAny(links, e)
  {
    var i :| 0 <= i < |links| && (links[i] == Link(e, x) || links[i] == Link(x, e));
    assert Touches(links[i], e);
  }

  lemma CanEndInWords(l: Lab, k: Kind, i: nat, source: Endpoint, j: nat)
    requires IdentityOk(l) && IsWorkload(k) && i < |Workloads(l, k)| && j < |Workloads(l, k)[i].nics|
    ensures var e := EndpointAt(l, k, i, j); CanEndIn(l, k, i, source, j) <==> e != source && Unattached(l, e)
  {
    hide IdentityOk, Unattached;
    var e := EndpointAt(l, k, i, j);
    UnattachedIsAvailable(l, e);
    assert NodeAt(l, k, i).id == Workloads(l, k)[i].id;
    FindsNode(l, k, i);
    FindWorkloadIsFind(l, k, e.id);
  }

  /** The two ends a direct link will have: the interface named, or on the target's side the first unattached one. */
  ghost predicate Ends(l: Lab, source: NicRef, target: NicRef, i: nat, a: nat, j: nat, b: nat)
    requires IsWorkload(source.kind) && IsWorkload(target.kind)
  {
    && At(l, source.kind, source.ref, i) && At(l, target.kind, target.ref, j)
    && !Service(l, source.kind, i) && !Service(l, target.kind, j)
    && source.nic == Some(a) && a < |Workloads(l, source.kind)[i].nics| && b < |Workloads(l, target.kind)[j].nics|
    && var from := EndpointAt(l, source.kind, i, a);
      && from != EndpointAt(l, target.kind, j, b)
      && if target.nic.Some? then target.nic.value == b
         else Unattached(l, from) && Unattached(l, EndpointAt(l, target.kind, j, b))
              && forall h | 0 <= h < b :: EndpointAt(l, target.kind, j, h) == from || !Unattached(l, EndpointAt(l, target.kind, j, h))
  }

  lemma EndsAreUnique(l: Lab, source: NicRef, target: NicRef, i: nat, a: nat, j: nat, b: nat, h: nat, c: nat, k: nat, d: nat)
    requires IdentityOk(l) && IsWorkload(source.kind) && IsWorkload(target.kind)
    requires Ends(l, source, target, i, a, j, b) && Ends(l, source, target, h, c, k, d)
    ensures h == i && c == a && k == j && d == b
  {
    hide IdentityOk, At, Unattached;
    AtIs(l, source.kind, source.ref);
    AtIs(l, target.kind, target.ref);
  }

  lemma TargetNicIs(l: Lab, source: NicRef, target: NicRef)
    requires IdentityOk(l) && IsWorkload(source.kind) && IsWorkload(target.kind) && SourceOk(l, source, target)
    ensures var t := TargetNic(l, source, target);
      var i, j := Find(l, source.kind, Resolve(l, source.kind, source.ref).id), Find(l, target.kind, Resolve(l, target.kind, target.ref).id);
      if t.Some? then Ends(l, source, target, i, source.nic.value, j, t.value) else forall b :: !Ends(l, source, target, i, source.nic.value, j, b)
  {
    hide IdentityOk, Resolve, Unattached, ManagedDhcp, IsNic, EndpointOk, CanEndIn;
    var sid, tid := Resolve(l, source.kind, source.ref).id, Resolve(l, target.kind, target.ref).id;
    var i, j := Find(l, source.kind, sid), Find(l, target.kind, tid);
    AtIs(l, source.kind, source.ref);
    AtIs(l, target.kind, target.ref);
    ResolvedId(l, source.kind, source.ref);
    ResolvedId(l, target.kind, target.ref);
    ManagedInWords(l, source.kind, sid);
    ManagedInWords(l, target.kind, tid);
    FindWorkloadIsFind(l, target.kind, tid);
    var from := EndpointAt(l, source.kind, i, source.nic.value);
    assert from == Endpoint(KindText(source.kind), sid, source.nic.value);
    UnattachedIsAvailable(l, from);
    if Available(l, from) { AvailableExists(l, source.kind, sid, source.nic.value); }
    forall b: nat | b < |Workloads(l, target.kind)[j].nics| { CanEndInWords(l, target.kind, j, from, b); }
  }

  lemma AvailableExists(l: Lab, k: Kind, id: string, nic: nat)
    requires IsWorkload(k) && Available(l, Endpoint(KindText(k), id, nic))
    ensures NicExists(l, k, id, nic)
  {
    FindWorkloadIsFind(l, k, id);
  }

  /** A direct link is made exactly if there are two ends for it. */
  lemma LinksExactly(l: Lab, source: NicRef, target: NicRef)
    requires IdentityOk(l) && IsWorkload(source.kind) && IsWorkload(target.kind)
    ensures ConnectDirect(l, source, target).Some? <==> exists i, a, j, b :: Ends(l, source, target, i, a, j, b)
  {
    hide IdentityOk, Resolve, Unattached, ManagedDhcp, TargetNic, Disconnect;
    AtIs(l, source.kind, source.ref);
    AtIs(l, target.kind, target.ref);
    if SourceOk(l, source, target) {
      TargetNicIs(l, source, target);
    } else {
      NoEnds(l, source, target);
    }
  }

  lemma NoEnds(l: Lab, source: NicRef, target: NicRef)
    requires IdentityOk(l) && IsWorkload(source.kind) && IsWorkload(target.kind) && !SourceOk(l, source, target)
    ensures forall i, a, j, b :: !Ends(l, source, target, i, a, j, b)
  {
    hide IdentityOk, Resolve, Unattached, ManagedDhcp;
    AtIs(l, source.kind, source.ref);
    AtIs(l, target.kind, target.ref);
    if Resolve(l, source.kind, source.ref).Found? && Resolve(l, target.kind, target.ref).Found? {
      ResolvedId(l, source.kind, source.ref);
      ResolvedId(l, target.kind, target.ref);
      ManagedInWords(l, source.kind, Resolve(l, source.kind, source.ref).id);
      ManagedInWords(l, target.kind, Resolve(l, target.kind, target.ref).id);
    }
  }

  /** Then the two are linked to each other alone, attached to nothing, and every other interface and link is as before. */
  lemma LinkedEnds(l: Lab, source: NicRef, target: NicRef, i: nat, a: nat, j: nat, b: nat, x: Endpoint, y: Endpoint, nic: Nic)
    requires IdentityOk(l) && IsWorkload(source.kind) && IsWorkload(target.kind) && Ends(l, source, target, i, a, j, b)
    ensures var after := ConnectDirect(l, source, target); var from, to := EndpointAt(l, source.kind, i, a), EndpointAt(l, target.kind, j, b);
      && after.Some?
      && (Linked(after.value.links, x, y) <==>
            (x == from && y == to) || (x == to && y == from) || (Linked(l.links, x, y) && x !in {from, to} && y !in {from, to}))
      && (IsNic(after.value, x, nic) <==>
            if x in {from, to} then nic.switch == "" && nic.uplink == "" && exists was :: IsNic(l, x, was) && was.mac == nic.mac
            else IsNic(l, x, nic))
  {
    hide IdentityOk, Resolve, Unattached, ManagedDhcp, TargetNic, Disconnect, IsNic, Linked;
    LinksExactly(l, source, target);
    var (m, from, to) := Cleared(l, source, target);
    TargetNicIs(l, source, target);
    var sid, tid := Resolve(l, source.kind, source.ref).id, Resolve(l, target.kind, target.ref).id;
    EndsAreUnique(l, source, target, i, a, j, b, Find(l, source.kind, sid), source.nic.value, Find(l, target.kind, tid), TargetNic(l, source, target).value);
    AtIs(l, source.kind, source.ref);
    AtIs(l, target.kind, target.ref);
    ConnectDirectWiring(l, source, target, x, y);
    ClearedNicsAre(l, source, target, x, nic);
    SameNics(m, ConnectDirect(l, source, target).value, x, nic);
  }

  lemma SameNics(l: Lab, m: Lab, e: Endpoint, nic: Nic)
    requires m.vms == l.vms && m.containers == l.containers
    ensures IsNic(m, e, nic) <==> IsNic(l, e, nic)
  {
  }

  lemma ClearedNicsAre(l: Lab, source: NicRef, target: NicRef, x: Endpoint, nic: Nic)
    requires IdentityOk(l) && IsWorkload(source.kind) && IsWorkload(target.kind) && ConnectDirect(l, source, target).Some?
    ensures var (m, from, to) := Cleared(l, source, target);
      IsNic(m, x, nic) <==>
        if x in {from, to} then nic.switch == "" && nic.uplink == "" && exists was :: IsNic(l, x, was) && was.mac == nic.mac
        else IsNic(l, x, nic)
  {
    hide IdentityOk, Resolve, Unattached, ManagedDhcp, Disconnect, IsNic, FirstAvailable, EndpointOk;
    var (m, from, to) := Cleared(l, source, target);
    var sid, tid := Resolve(l, source.kind, source.ref).id, Resolve(l, target.kind, target.ref).id;
    if target.nic.Some? {
      var first := Disconnect(l, source.kind, sid, from.nic);
      DisconnectKeepsNodes(l, source.kind, sid, from.nic, target.kind, tid, to.nic);
      TakenOff(l, source.kind, sid, from.nic, x);
      TakenOff(first, target.kind, tid, to.nic, x);
    } else {
      FirstAvailableIsAvailable(l, target.kind, tid, from);
      FreeAlready(l, from, nic);
      FreeAlready(l, to, nic);
    }
  }

  lemma FreeAlready(l: Lab, e: Endpoint, nic: Nic)
    requires EndpointOk(l, e)
    ensures IsNic(l, e, nic) <==> nic.switch == "" && nic.uplink == "" && exists was :: IsNic(l, e, was) && was.mac == nic.mac
  {
  }

  lemma TakenOff(l: Lab, k: Kind, id: string, index: nat, x: Endpoint)
    requires IdentityOk(l) && IsWorkload(k) && NicExists(l, k, id, index)
    ensures var e := Endpoint(KindText(k), id, index); var m := Disconnect(l, k, id, index);
      forall nic :: IsNic(m, x, nic) <==>
        if x == e then nic.switch == "" && nic.uplink == "" && exists was :: IsNic(l, x, was) && was.mac == nic.mac
        else IsNic(l, x, nic)
  {
    hide IdentityOk, Disconnect, IsNic;
    var e := Endpoint(KindText(k), id, index);
    var i := Find(l, k, id);
    assert NodeAt(l, k, i).id == Workloads(l, k)[i].id == id;
    var was := Workloads(l, k)[i].nics[index];
    forall nic
      ensures IsNic(Disconnect(l, k, id, index), x, nic) <==> if x == e then nic == Nic("", "", was.mac) else IsNic(l, x, nic)
      ensures IsNic(l, e, nic) <==> nic == was
    {
      DisconnectIsLocal(l, k, id, index, x, x, nic);
      NicThere(l, k, i, index, nic);
    }
  }

  lemma NicThere(l: Lab, k: Kind, i: nat, index: nat, was: Nic)
    requires IdentityOk(l) && IsWorkload(k) && i < |Workloads(l, k)| && index < |Workloads(l, k)[i].nics|
    ensures IsNic(l, EndpointAt(l, k, i, index), was) <==> was == Workloads(l, k)[i].nics[index]
  {
    hide IdentityOk;
    assert NodeAt(l, k, i).id == Workloads(l, k)[i].id;
    FindsNode(l, k, i);
    FindWorkloadIsFind(l, k, Workloads(l, k)[i].id);
  }

  // ---------------------------------------------------------------- taking uplinks off switches

  /** Cutting an uplink leaves the mode alone, except that MACNAT bridging over this uplink only becomes plain bridging. */
  lemma ModeAfterCut(l: Lab, sw: Switch, id: string)
    requires SwitchOk(l, sw) && id != ""
    ensures CutUplink(sw, id).mode
         == if sw.mode == "macnat-bridge" && (forall u | u in SwitchUplinks(sw) :: u == id) then "bridge" else sw.mode
  {
    hide SwitchUplinks, Without;
    var ids := SwitchUplinks(sw);
    forall u { InWithout(ids, IdIs(id), u); }
    WithoutIsShorter(ids, IdIs(id));
    if sw.mode == "macnat-bridge" {
      assert ids[0] in ids;
      var next := Without(ids, IdIs(id));
      if next != [] { assert next[0] in next; }
    }
  }

  /** So does deleting an uplink at every switch. */
  lemma ModesAfterUplinkDeletion(l: Lab, id: string, h: nat)
    requires SwitchesOk(l) && h < |l.switches| && id != ""
    ensures var m := Deleted(l, UP, id);
      && |m.switches| == |l.switches|
      && m.switches[h].mode == if l.switches[h].mode == "macnat-bridge" && (forall u | u in SwitchUplinks(l.switches[h]) :: u == id) then "bridge"
                               else l.switches[h].mode
  {
    hide SwitchUplinks, Without, CutUplink;
    ModeAfterCut(l, l.switches[h], id);
  }

  /** What taking uplinks off a switch does to it, beyond the uplinks themselves. */
  predicate NarrowedTo(l: Lab, m: Lab, i: nat) {
    && i < |l.switches| && |m.switches| == |l.switches| && m == l.(switches := l.switches[i := m.switches[i]])
    && m.switches[i].id == l.switches[i].id && m.switches[i].name == l.switches[i].name
    && m.switches[i].mode == if l.switches[i].mode == "macnat-bridge" && SwitchUplinks(m.switches[i]) == [] then "bridge" else l.switches[i].mode
  }

  /** Uplinks can be taken off a switch that has some: all of them, or one of its own; losing the last one ends MACNAT bridging. */
  lemma TakesUplinksExactly(l: Lab, ref: string, uplink: string, i: nat)
    requires IdentityOk(l) && At(l, SW, ref, i)
    ensures DisconnectExternal(l, ref, uplink).Some?
      <==> SwitchUplinks(l.switches[i]) != []
           && (uplink == "" || exists u :: u in SwitchUplinks(l.switches[i]) && Resolve(l, UP, uplink) == Found(u))
    ensures DisconnectExternal(l, ref, uplink).Some? ==> NarrowedTo(l, DisconnectExternal(l, ref, uplink).value, i)
  {
    hide IdentityOk, Resolve, Without, SwitchUplinks, WithUplinks;
    AtIs(l, SW, ref);
    if DisconnectExternal(l, ref, uplink).Some? {
      var ids := SwitchUplinks(l.switches[i]);
      var next := if uplink == "" then [] else Without(ids, IdIs(Resolve(l, UP, uplink).id));
      forall v | v in next
        ensures v != ""
      {
        if uplink != "" { InWithout(ids, IdIs(Resolve(l, UP, uplink).id), v); }
        InSwitchUplinks(l.switches[i], v);
      }
      Narrows(l, i, next);
    }
  }

  lemma Narrows(l: Lab, i: nat, ids: seq<string>)
    requires i < |l.switches| && forall u | u in ids :: u != ""
    ensures NarrowedTo(l, l.(switches := l.switches[i := WithUplinks(l.switches[i], ids)]), i)
  {
    hide SwitchUplinks;
    var sw := WithUplinks(l.switches[i], ids);
    var after := SwitchUplinks(sw);
    if ids != [] {
      UplinksAre(l.switches[i], ids, ids[0]);
      assert ids[0] in ids && ids[0] in after;
    } else if after != [] {
      UplinksAre(l.switches[i], ids, after[0]);
    }
  }

  // ---------------------------------------------------------------- filters keep their order

  lemma {:induction false} FilterByEndpoint(a: seq<Link>, b: seq<Link>, e: Endpoint)
    ensures WithoutEndpoint(a + b, e) == WithoutEndpoint(a, e) + WithoutEndpoint(b, e)
  {
    if b == [] {
      assert a + b == a;
    } else {
      FilterByEndpoint(a, b[..|b| - 1], e);
      assert (a + b)[..|a + b| - 1] == a + b[..|b| - 1];
    }
  }

  lemma {:induction false} FilterByNode(a: seq<Link>, b: seq<Link>, typ: string, id: string)
    ensures WithoutNode(a + b, typ, id) == WithoutNode(a, typ, id) + WithoutNode(b, typ, id)
  {
    if b == [] {
      assert a + b == a;
    } else {
      FilterByNode(a, b[..|b| - 1], typ, id);
      assert (a + b)[..|a + b| - 1] == a + b[..|b| - 1];
    }
  }

  lemma {:induction false} RenumberInOrder(a: seq<Link>, b: seq<Link>, typ: string, id: string, deleted: int)
    ensures Reindexed(a + b, typ, id, deleted) == Reindexed(a, typ, id, deleted) + Reindexed(b, typ, id, deleted)
  {
    hide ReindexLink;
    if b == [] {
      assert a + b == a;
    } else {
      RenumberInOrder(a, b[..|b| - 1], typ, id, deleted);
      assert (a + b)[..|a + b| - 1] == a + b[..|b| - 1];
    }
  }
}
