/** Direct links between two interfaces, and taking an interface off the network. */
module DirectLinks {
  import opened Numerals
  import opened LabModel
  import opened Lookup
  import opened NetworkLinks
  import opened NicConnections

  predicate LinkedAny(links: seq<Link>, e: Endpoint) {
    exists i | 0 <= i < |links| :: Touches(links[i], e)
  }

  /** ensureDirectEndpointAvailable: the interface exists, is attached to nothing and has no link. */
  predicate Available(l: Lab, e: Endpoint) {
    EndpointOk(l, e) && !LinkedAny(l.links, e)
  }

  method NetworkEndpointLinked(links: seq<Link>, e: Endpoint) returns (linked: bool)
    ensures linked <==> LinkedAny(links, e)
  {
    for i := 0 to |links|
      invariant forall j | 0 <= j < i :: !Touches(links[j], e)
    {
      if links[i].from == e || links[i].to == e {
        return true;
      }
    }
    return false;
  }

  // ---------------------------------------------------------------- taking an interface off

  function Detached(nic: Nic): Nic {
    Nic("", "", nic.mac)
  }

  function Disconnect(l: Lab, k: Kind, id: string, index: nat): Lab
    requires IsWorkload(k)
  {
    var i := Find(l, k, id);
    if i < Count(l, k) && index < |Workloads(l, k)[i].nics| then
      ReplaceNic(l, k, i, index, Detached(Workloads(l, k)[i].nics[index]))
    else l
  }

  predicate NicExists(l: Lab, k: Kind, id: string, index: nat)
    requires IsWorkload(k)
  {
    var i := Find(l, k, id);
    i < Count(l, k) && index < |Workloads(l, k)[i].nics|
  }

  /** ensureNICEndpointExists looks the workload up by id or name. */
  method EnsureNicEndpointExists(l: Lab, k: Kind, id: string, index: nat) returns (ok: bool)
    requires IsWorkload(k) && IdentityOk(l) && id != ""
    requires Has(l, k, id)
    ensures ok <==> NicExists(l, k, id, index)
  {
    var i := FirstMatch(l, k, id);
    MatchIsFind(l, k, id);
    return i < Count(l, k) && index < |Workloads(l, k)[i].nics|;
  }

  lemma MatchIsFind(l: Lab, k: Kind, id: string)
    requires IdentityOk(l) && id != "" && Has(l, k, id)
    ensures FirstMatch(l, k, id) == Find(l, k, id)
  {
    hide IdentityOk;
    OneAnswers(l, k, id, FirstMatch(l, k, id), Find(l, k, id));
  }

  method DisconnectNicEndpoint(s: LabState, k: Kind, id: string, index: nat) returns (ok: bool)
    requires IsWorkload(k) && IdentityOk(s.View()) && id != "" && Has(s.View(), k, id)
    modifies s
    ensures ok <==> NicExists(old(s.View()), k, id, index)
    ensures s.View() == if ok then Disconnect(old(s.View()), k, id, index) else old(s.View())
  {
    var l := s.View();
    ok := EnsureNicEndpointExists(l, k, id, index);
    if !ok {
      return false;
    }
    var i := Find(l, k, id);
    assert NodeAt(l, k, i).id == Workloads(l, k)[i].id;
    SetNicAt(s, k, i, index, Detached(Workloads(l, k)[i].nics[index]));
  }

  predicate ManagedDhcp(l: Lab, k: Kind, id: string) {
    k == CT && var i := FirstMatch(l, CT, id); i < |l.containers| && IsDhcp(l.containers[i])
  }

  function DisconnectNic(l: Lab, k: Kind, ref: string, index: Option<int>): Option<Lab>
    requires IsWorkload(k)
  {
    var r := Resolve(l, k, ref);
    if !r.Found? || ManagedDhcp(l, k, r.id) || index.None? || index.value < 0 || !NicExists(l, k, r.id, index.value) then None
    else Some(Disconnect(l, k, r.id, index.value))
  }

  lemma ResolvedId(l: Lab, k: Kind, ref: string)
    requires IdentityOk(l) && Resolve(l, k, ref).Found?
    ensures Has(l, k, Resolve(l, k, ref).id) && Resolve(l, k, ref).id != ""
  {
    ResolvedNodeExists(l, k, ref);
    FindsNode(l, k, Find(l, k, Resolve(l, k, ref).id));
  }

  method DisconnectWorkloadNic(s: LabState, k: Kind, ref: string, index: Option<int>) returns (ok: bool)
    requires IsWorkload(k) && IdentityOk(s.View())
    modifies s
    ensures match DisconnectNic(old(s.View()), k, ref, index)
            case None => !ok && s.View() == old(s.View())
            case Some(after) => ok && s.View() == after
  {
    hide IdentityOk, Resolve, Disconnect;
    var l := s.View();
    var r := ResolveOne(l, k, ref);
    if !r.Found? || ManagedDhcp(l, k, r.id) || index.None? || index.value < 0 {
      return false;
    }
    ResolvedId(l, k, ref);
    var exists_ := EnsureNicEndpointExists(l, k, r.id, index.value);
    if !exists_ {
      return false;
    }
    ok := DisconnectNicEndpoint(s, k, r.id, index.value);
  }

  lemma NotDhcp(l: Lab, k: Kind, id: string)
    requires IdentityOk(l) && id != "" && Has(l, k, id) && !ManagedDhcp(l, k, id)
    ensures !(k == CT && IsDhcp(l.containers[Find(l, k, id)]))
  {
    MatchIsFind(l, k, id);
  }

  lemma DisconnectKeepsValid(l: Lab, k: Kind, id: string, index: nat, resolve: PathFn)
    requires Valid(l, resolve) && IsWorkload(k) && id != "" && !ManagedDhcp(l, k, id)
    ensures Valid(Disconnect(l, k, id, index), resolve)
  {
    hide IdentityOk, SwitchesOk, NetworksOk, DhcpOk, LinksOk, DisksOk, LayoutOk, ReplaceNic;
    var i := Find(l, k, id);
    if i < Count(l, k) && index < |Workloads(l, k)[i].nics| {
      NotDhcp(l, k, id);
      ReplacingKeepsValid(l, k, i, index, Detached(Workloads(l, k)[i].nics[index]), resolve);
    }
  }

  /** Exactly the one interface loses its attachment and its links; every other one keeps both. */
  lemma DisconnectIsLocal(l: Lab, k: Kind, id: string, index: nat, a: Endpoint, b: Endpoint, x: Nic)
    requires IdentityOk(l) && IsWorkload(k) && NicExists(l, k, id, index)
    ensures var e := Endpoint(KindText(k), id, index); var m := Disconnect(l, k, id, index);
      && (Linked(m.links, a, b) <==> Linked(l.links, a, b) && a != e && b != e)
      && (IsNic(m, a, x) <==> if a == e then x == Detached(Workloads(l, k)[Find(l, k, id)].nics[index]) else IsNic(l, a, x))
  {
    hide IdentityOk, IsNic, Linked, ReplaceNic;
    var i := Find(l, k, id);
    var nic := Detached(Workloads(l, k)[i].nics[index]);
    assert NodeAt(l, k, i).id == Workloads(l, k)[i].id == id;
    ReplacedWiring(l, k, i, index, nic, a, b);
    ReplacedInterfaces(l, k, i, index, nic, a, x);
  }

  // ---------------------------------------------------------------- linking two interfaces

  /** An interface the link may end in: free, unlinked and not the source itself. */
  predicate CanEndIn(l: Lab, k: Kind, i: nat, source: Endpoint, j: nat)
    requires IsWorkload(k) && i < |Workloads(l, k)| && j < |Workloads(l, k)[i].nics|
  {
    var e := Endpoint(KindText(k), Workloads(l, k)[i].id, j);
    e != source && Free(Workloads(l, k)[i].nics[j]) && !LinkedAny(l.links, e)
  }

  /** firstAvailableDirectNIC: the first such interface, or the number of interfaces where there is none. */
  function FirstAvailable(l: Lab, k: Kind, i: nat, source: Endpoint, from: nat := 0): (j: nat)
    requires IsWorkload(k) && i < |Workloads(l, k)| && from <= |Workloads(l, k)[i].nics|
    ensures from <= j <= |Workloads(l, k)[i].nics|
    ensures j < |Workloads(l, k)[i].nics| ==> CanEndIn(l, k, i, source, j)
    ensures forall h | from <= h < j :: !CanEndIn(l, k, i, source, h)
    decreases |Workloads(l, k)[i].nics| - from
  {
    if from == |Workloads(l, k)[i].nics| || CanEndIn(l, k, i, source, from) then from
    else FirstAvailable(l, k, i, source, from + 1)
  }

  datatype NicRef = NicRef(kind: Kind, ref: string, nic: Option<int>)

  predicate SourceOk(l: Lab, source: NicRef, target: NicRef)
    requires IsWorkload(source.kind) && IsWorkload(target.kind)
  {
    var rs, rt := Resolve(l, source.kind, source.ref), Resolve(l, target.kind, target.ref);
    && rs.Found? && rt.Found?
    && !ManagedDhcp(l, source.kind, rs.id) && !ManagedDhcp(l, target.kind, rt.id)
    && source.nic.Some? && source.nic.value >= 0
  }

  /** The interface the link will end in, or None where the operation refuses. */
  function TargetNic(l: Lab, source: NicRef, target: NicRef): Option<nat>
    requires IsWorkload(source.kind) && IsWorkload(target.kind) && SourceOk(l, source, target)
  {
    var sid, tid := Resolve(l, source.kind, source.ref).id, Resolve(l, target.kind, target.ref).id;
    var e := Endpoint(KindText(source.kind), sid, source.nic.value);
    if target.nic.Some? then
      if target.nic.value < 0 || e == Endpoint(KindText(target.kind), tid, target.nic.value)
         || !NicExists(l, source.kind, sid, source.nic.value) || !NicExists(l, target.kind, tid, target.nic.value) then None
      else Some(target.nic.value)
    else if !Available(l, e) then None
    else
      var i := FindWorkload(Workloads(l, target.kind), tid);
      if i == |Workloads(l, target.kind)| then None
      else
        var j := FirstAvailable(l, target.kind, i, e);
        if j == |Workloads(l, target.kind)[i].nics| then None else Some(j)
  }

  function ConnectDirect(l: Lab, source: NicRef, target: NicRef): Option<Lab>
    requires IsWorkload(source.kind) && IsWorkload(target.kind)
  {
    if !SourceOk(l, source, target) || TargetNic(l, source, target).None? then None
    else
      var sid, tid := Resolve(l, source.kind, source.ref).id, Resolve(l, target.kind, target.ref).id;
      var snic, tnic := source.nic.value, TargetNic(l, source, target).value;
      var cleared := if target.nic.Some? then Disconnect(Disconnect(l, source.kind, sid, snic), target.kind, tid, tnic) else l;
      Some(cleared.(links := cleared.links + [Link(Endpoint(KindText(source.kind), sid, snic), Endpoint(KindText(target.kind), tid, tnic))]))
  }

  method FirstAvailableDirectNic(l: Lab, k: Kind, id: string, source: Endpoint) returns (nic: Option<nat>)
    requires IsWorkload(k)
    ensures nic == var i := FindWorkload(Workloads(l, k), id);
      if i == |Workloads(l, k)| || FirstAvailable(l, k, i, source) == |Workloads(l, k)[i].nics| then None
      else Some(FirstAvailable(l, k, i, source))
    ensures var i := FindWorkload(Workloads(l, k), id);
      if nic.None? then i == |Workloads(l, k)| || forall j | 0 <= j < |Workloads(l, k)[i].nics| :: !CanEndIn(l, k, i, source, j)
      else
        && i < |Workloads(l, k)| && nic.value < |Workloads(l, k)[i].nics| && CanEndIn(l, k, i, source, nic.value)
        && forall j | 0 <= j < nic.value :: !CanEndIn(l, k, i, source, j)
  {
    var i := FindWorkload(Workloads(l, k), id);
    if i == |Workloads(l, k)| {
      return None;
    }
    var nics := Workloads(l, k)[i].nics;
    for j := 0 to |nics|
      invariant FirstAvailable(l, k, i, source) == FirstAvailable(l, k, i, source, j)
    {
      var e := Endpoint(KindText(k), id, j);
      if e == source {
        continue;
      }
      var linked := NetworkEndpointLinked(l.links, e);
      if Free(nics[j]) && !linked {
        return Some(j);
      }
    }
    return None;
  }

  /** ConnectDirectNIC up to its commit; its early error returns after disconnecting are never taken. */
  method ConnectDirectNic(s: LabState, source: NicRef, target: NicRef) returns (ok: bool)
    requires IsWorkload(source.kind) && IsWorkload(target.kind) && IdentityOk(s.View())
    modifies s
    ensures match ConnectDirect(old(s.View()), source, target)
            case None => !ok && s.View() == old(s.View())
            case Some(after) => ok && s.View() == after
  {
    hide IdentityOk, Resolve, ManagedDhcp, Disconnect, Available, FirstAvailable;
    var l := s.View();
    var rs := ResolveOne(l, source.kind, source.ref);
    var rt := ResolveOne(l, target.kind, target.ref);
    if !rs.Found? || !rt.Found? || ManagedDhcp(l, source.kind, rs.id) || ManagedDhcp(l, target.kind, rt.id)
       || source.nic.None? || source.nic.value < 0 {
      return false;
    }
    ResolvedId(l, source.kind, source.ref);
    ResolvedId(l, target.kind, target.ref);
    var e := Endpoint(KindText(source.kind), rs.id, source.nic.value);
    var tnic: nat := 0;
    if target.nic.Some? {
      if target.nic.value < 0 || e == Endpoint(KindText(target.kind), rt.id, target.nic.value) {
        return false;
      }
      tnic := target.nic.value;
      var sourceExists := EnsureNicEndpointExists(l, source.kind, rs.id, source.nic.value);
      var targetExists := EnsureNicEndpointExists(l, target.kind, rt.id, tnic);
      if !sourceExists || !targetExists {
        return false;
      }
      var done := DisconnectNicEndpoint(s, source.kind, rs.id, source.nic.value);
      DisconnectKeepsNodes(l, source.kind, rs.id, source.nic.value, target.kind, rt.id, tnic);
      done := DisconnectNicEndpoint(s, target.kind, rt.id, tnic);
      assert done;
    } else {
      if !Available(l, e) {
        return false;
      }
      var first := FirstAvailableDirectNic(l, target.kind, rt.id, e);
      if first.None? {
        return false;
      }
      tnic := first.value;
    }
    s.links := s.links + [Link(e, Endpoint(KindText(target.kind), rt.id, tnic))];
    return true;
  }

  lemma DisconnectKeepsNodes(l: Lab, k: Kind, id: string, index: nat, j: Kind, other: string, at: nat)
    requires IsWorkload(k) && IsWorkload(j) && IdentityOk(l)
    ensures var m := Disconnect(l, k, id, index);
      && SameButNics(l, m) && IdentityOk(m)
      && (Has(m, j, other) <==> Has(l, j, other)) && (NicExists(m, j, other, at) <==> NicExists(l, j, other, at))
  {
    hide IdentityOk;
    var i := Find(l, k, id);
    if i < Count(l, k) && index < |Workloads(l, k)[i].nics| {
      var nics := Workloads(l, k)[i].nics[index := Detached(Workloads(l, k)[i].nics[index])];
      WithNicsIsSameButNics(l, k, i, nics, Disconnect(l, k, id, index).links);
    }
    SameNodes(l, Disconnect(l, k, id, index));
    SameButNicsKeepsIdentity(l, Disconnect(l, k, id, index));
  }

  // ---------------------------------------------------------------- guarantees

  lemma AppendingLinkKeepsValid(l: Lab, a: Endpoint, b: Endpoint, resolve: PathFn)
    requires Valid(l, resolve) && Available(l, a) && Available(l, b) && a != b
    requires !DhcpEnd(l, a) && !DhcpEnd(l, b)
    ensures Valid(l.(links := l.links + [Link(a, b)]), resolve)
  {
    hide IdentityOk, SwitchesOk, DisksOk, LayoutOk, DhcpEnd, DhcpSwitchOk, EndpointOk, NicOk;
    var m := l.(links := l.links + [Link(a, b)]);
    assert SameButNics(l, m);
    SameButNicsKeeps(l, m, resolve);
    assert NetworksOk(m) by {
      forall nic { SameNicRules(l, m, nic); }
    }
    assert DhcpOk(m) by {
      forall nic: Nic { SameNicRules(l, m, nic); }
      assert forall i | 0 <= i < |l.containers| && IsDhcp(l.containers[i]) ::
        DhcpSwitchOk(m, l.containers[i].nics[0].switch) == DhcpSwitchOk(l, l.containers[i].nics[0].switch);
      forall e ensures DhcpEnd(m, e) == DhcpEnd(l, e) { SameDhcpEnd(l, m, e); }
    }
    assert LinksOk(m) by {
      forall e ensures EndpointOk(m, e) == EndpointOk(l, e) { SameEndpoint(l, m, e); }
      AppendApart(l.links, a, b);
    }
  }

  lemma SameDhcpEnd(l: Lab, m: Lab, e: Endpoint)
    requires m.containers == l.containers
    ensures DhcpEnd(m, e) == DhcpEnd(l, e)
  {
  }

  lemma SameEndpoint(l: Lab, m: Lab, e: Endpoint)
    requires m.vms == l.vms && m.containers == l.containers
    ensures EndpointOk(m, e) == EndpointOk(l, e)
  {
  }

  lemma AppendApart(links: seq<Link>, a: Endpoint, b: Endpoint)
    requires LinksApart(links) && !LinkedAny(links, a) && !LinkedAny(links, b)
    ensures LinksApart(links + [Link(a, b)])
  {
    forall x | x in links
      ensures !Touches(x, a) && !Touches(x, b)
    {
    }
    ApartSnoc(links, Link(a, b));
  }

  lemma {:induction false} ClearedOfEndpoint(links: seq<Link>, e: Endpoint)
    ensures !LinkedAny(WithoutEndpoint(links, e), e)
  {
    forall x | x in WithoutEndpoint(links, e)
      ensures !Touches(x, e)
    {
      InWithoutEndpoint(links, e, x);
    }
  }

  lemma DisconnectMakesAvailable(l: Lab, k: Kind, id: string, index: nat)
    requires IdentityOk(l) && IsWorkload(k) && NicExists(l, k, id, index)
    ensures Available(Disconnect(l, k, id, index), Endpoint(KindText(k), id, index))
  {
    hide IdentityOk, IsNic, EndpointOk, ReplaceNic;
    var e := Endpoint(KindText(k), id, index);
    var m := Disconnect(l, k, id, index);
    var i := Find(l, k, id);
    var nic := Detached(Workloads(l, k)[i].nics[index]);
    assert NodeAt(l, k, i).id == Workloads(l, k)[i].id;
    ReplacedInterfaces(l, k, i, index, nic, e, nic);
    EndpointOkIsFreeNic(m, e);
    assert m.links == WithoutEndpoint(l.links, e) by { ReplacedLinks(l, k, i, index, nic); }
    ClearedOfEndpoint(l.links, e);
  }

  lemma ReplacedLinks(l: Lab, k: Kind, i: nat, index: nat, nic: Nic)
    requires IsWorkload(k) && i < |Workloads(l, k)| && index < |Workloads(l, k)[i].nics|
    ensures ReplaceNic(l, k, i, index, nic).links == WithoutEndpoint(l.links, EndpointAt(l, k, i, index))
  {
  }

  lemma DisconnectKeepsAvailable(l: Lab, k: Kind, id: string, index: nat, e: Endpoint)
    requires IdentityOk(l) && IsWorkload(k) && Available(l, e) && e != Endpoint(KindText(k), id, index)
    ensures Available(Disconnect(l, k, id, index), e)
  {
    hide IdentityOk, IsNic, EndpointOk, ReplaceNic;
    var i := Find(l, k, id);
    if i < Count(l, k) && index < |Workloads(l, k)[i].nics| {
      var nic := Detached(Workloads(l, k)[i].nics[index]);
      assert NodeAt(l, k, i).id == Workloads(l, k)[i].id;
      ReplacingKeepsEndpoint(l, k, i, index, nic, e);
      ReplacedLinks(l, k, i, index, nic);
      forall x | x in WithoutEndpoint(l.links, EndpointAt(l, k, i, index))
        ensures !Touches(x, e)
      {
        InWithoutEndpoint(l.links, EndpointAt(l, k, i, index), x);
      }
    }
  }

  lemma NotDhcpEnd(l: Lab, k: Kind, id: string, nic: int)
    requires IdentityOk(l) && IsWorkload(k) && id != "" && Has(l, k, id) && !ManagedDhcp(l, k, id)
    ensures !DhcpEnd(l, Endpoint(KindText(k), id, nic))
  {
    hide IdentityOk;
    NotDhcp(l, k, id);
    forall i | 0 <= i < |l.containers| && k == CT && l.containers[i].id == id
      ensures i == Find(l, k, id)
    {
      assert NodeAt(l, CT, i).id == NodeAt(l, CT, Find(l, k, id)).id;
      SameIdSameNode(l, CT, i, CT, Find(l, k, id));
    }
  }

  lemma FirstAvailableIsAvailable(l: Lab, k: Kind, id: string, source: Endpoint)
    requires IsWorkload(k)
    ensures var i := FindWorkload(Workloads(l, k), id);
      i < |Workloads(l, k)| && FirstAvailable(l, k, i, source) < |Workloads(l, k)[i].nics| ==>
        var e := Endpoint(KindText(k), id, FirstAvailable(l, k, i, source)); Available(l, e) && e != source
  {
    assert Group(l, KindText(k)) == Workloads(l, k);
  }

  /** The lab just before the new link is appended, and the two ends of that link. */
  function Cleared(l: Lab, source: NicRef, target: NicRef): (Lab, Endpoint, Endpoint)
    requires IsWorkload(source.kind) && IsWorkload(target.kind)
    requires ConnectDirect(l, source, target).Some?
  {
    var sid, tid := Resolve(l, source.kind, source.ref).id, Resolve(l, target.kind, target.ref).id;
    var snic, tnic := source.nic.value, TargetNic(l, source, target).value;
    (if target.nic.Some? then Disconnect(Disconnect(l, source.kind, sid, snic), target.kind, tid, tnic) else l,
     Endpoint(KindText(source.kind), sid, snic), Endpoint(KindText(target.kind), tid, tnic))
  }

  lemma ClearedEndsAreAvailable(l: Lab, source: NicRef, target: NicRef)
    requires IsWorkload(source.kind) && IsWorkload(target.kind) && IdentityOk(l)
    requires ConnectDirect(l, source, target).Some?
    ensures var (m, a, b) := Cleared(l, source, target); Available(m, a) && Available(m, b) && a != b
  {
    hide IdentityOk, Resolve, Disconnect, Available, FirstAvailable, ManagedDhcp;
    var sid, tid := Resolve(l, source.kind, source.ref).id, Resolve(l, target.kind, target.ref).id;
    var e := Endpoint(KindText(source.kind), sid, source.nic.value);
    if target.nic.Some? {
      var first := Disconnect(l, source.kind, sid, source.nic.value);
      DisconnectMakesAvailable(l, source.kind, sid, source.nic.value);
      DisconnectKeepsNodes(l, source.kind, sid, source.nic.value, target.kind, tid, target.nic.value);
      DisconnectMakesAvailable(first, target.kind, tid, target.nic.value);
      DisconnectKeepsAvailable(first, target.kind, tid, target.nic.value, e);
    } else {
      FirstAvailableIsAvailable(l, target.kind, tid, e);
    }
  }

  lemma ConnectDirectKeepsValid(l: Lab, source: NicRef, target: NicRef, resolve: PathFn)
    requires Valid(l, resolve) && IsWorkload(source.kind) && IsWorkload(target.kind)
    requires ConnectDirect(l, source, target).Some?
    ensures Valid(ConnectDirect(l, source, target).value, resolve)
  {
    hide Valid, Resolve, Disconnect, Available, TargetNic, ManagedDhcp, DhcpEnd;
    assert IdentityOk(l) by { ValidIdentity(l, resolve); }
    var (m, a, b) := Cleared(l, source, target);
    ClearedEndsAreAvailable(l, source, target);
    ResolvedId(l, source.kind, source.ref);
    ResolvedId(l, target.kind, target.ref);
    var sid, tid := Resolve(l, source.kind, source.ref).id, Resolve(l, target.kind, target.ref).id;
    if target.nic.Some? {
      var first := Disconnect(l, source.kind, sid, a.nic);
      DisconnectKeepsValid(l, source.kind, sid, a.nic, resolve);
      ManagedStays(l, source.kind, sid, a.nic, target.kind, tid);
      DisconnectKeepsValid(first, target.kind, tid, b.nic, resolve);
      EndStaysNonDhcp(l, source.kind, sid, a.nic, a);
      EndStaysNonDhcp(l, source.kind, sid, a.nic, b);
      EndStaysNonDhcp(first, target.kind, tid, b.nic, a);
      EndStaysNonDhcp(first, target.kind, tid, b.nic, b);
    }
    NotDhcpEnd(l, source.kind, sid, a.nic);
    NotDhcpEnd(l, target.kind, tid, b.nic);
    AppendingLinkKeepsValid(m, a, b, resolve);
  }

  lemma ValidIdentity(l: Lab, resolve: PathFn)
    requires Valid(l, resolve)
    ensures IdentityOk(l)
  {
  }

  lemma DisconnectIsSame(l: Lab, k: Kind, id: string, index: nat)
    requires IsWorkload(k)
    ensures SameButNics(l, Disconnect(l, k, id, index))
  {
    var i := Find(l, k, id);
    if i < Count(l, k) && index < |Workloads(l, k)[i].nics| {
      var nics := Workloads(l, k)[i].nics[index := Detached(Workloads(l, k)[i].nics[index])];
      WithNicsIsSameButNics(l, k, i, nics, Disconnect(l, k, id, index).links);
    }
  }

  lemma EndStaysNonDhcp(l: Lab, k: Kind, id: string, index: nat, e: Endpoint)
    requires IsWorkload(k)
    ensures DhcpEnd(Disconnect(l, k, id, index), e) == DhcpEnd(l, e)
  {
    hide Disconnect;
    DisconnectIsSame(l, k, id, index);
  }

  lemma ManagedStays(l: Lab, k: Kind, id: string, index: nat, j: Kind, other: string)
    requires IsWorkload(k)
    ensures ManagedDhcp(Disconnect(l, k, id, index), j, other) == ManagedDhcp(l, j, other)
  {
    hide Disconnect;
    var m := Disconnect(l, k, id, index);
    DisconnectIsSame(l, k, id, index);
    var f, g := FirstMatch(l, CT, other), FirstMatch(m, CT, other);
    assert forall i | 0 <= i < |l.containers| :: NodeAt(m, CT, i) == NodeAt(l, CT, i);
    assert f < |l.containers| ==> Answers(NodeAt(m, CT, f), other);
    assert g < |l.containers| ==> Answers(NodeAt(l, CT, g), other);
  }

  /**
   After a direct connection the two interfaces are each other's only peer, their former peers are
   free, and every link between other interfaces is as it was.
   */
  lemma ConnectDirectWiring(l: Lab, source: NicRef, target: NicRef, x: Endpoint, y: Endpoint)
    requires IdentityOk(l) && IsWorkload(source.kind) && IsWorkload(target.kind)
    requires ConnectDirect(l, source, target).Some?
    ensures var (_, a, b) := Cleared(l, source, target);
      Linked(ConnectDirect(l, source, target).value.links, x, y)
      <==> (x == a && y == b) || (x == b && y == a)
           || (Linked(l.links, x, y) && x != a && x != b && y != a && y != b)
  {
    hide IdentityOk, Resolve, Disconnect, Available, FirstAvailable, TargetNic, ManagedDhcp;
    var (m, a, b) := Cleared(l, source, target);
    var after := ConnectDirect(l, source, target).value;
    assert after.links == m.links + [Link(a, b)];
    assert Linked(after.links, x, y) <==> Linked(m.links, x, y) || (x == a && y == b) || (x == b && y == a);
    ClearedWiring(l, source, target, x, y);
  }

  lemma ClearedWiring(l: Lab, source: NicRef, target: NicRef, x: Endpoint, y: Endpoint)
    requires IdentityOk(l) && IsWorkload(source.kind) && IsWorkload(target.kind)
    requires ConnectDirect(l, source, target).Some?
    ensures var (m, a, b) := Cleared(l, source, target);
      Linked(m.links, x, y) <==> Linked(l.links, x, y) && x != a && x != b && y != a && y != b
  {
    hide IdentityOk, Resolve, Disconnect, FirstAvailable, ManagedDhcp, EndpointOk, IsNic;
    var (m, a, b) := Cleared(l, source, target);
    var sid, tid := Resolve(l, source.kind, source.ref).id, Resolve(l, target.kind, target.ref).id;
    if target.nic.Some? {
      var nic: Nic := Nic("", "", "");
      var first := Disconnect(l, source.kind, sid, a.nic);
      DisconnectKeepsNodes(l, source.kind, sid, a.nic, target.kind, tid, b.nic);
      DisconnectIsLocal(l, source.kind, sid, a.nic, x, y, nic);
      DisconnectIsLocal(first, target.kind, tid, b.nic, x, y, nic);
    } else {
      FirstAvailableIsAvailable(l, target.kind, tid, a);
      if Linked(l.links, x, y) {
        UnlinkedEnd(l.links, a, x, y);
        UnlinkedEnd(l.links, b, x, y);
      }
    }
  }

  lemma UnlinkedEnd(links: seq<Link>, e: Endpoint, x: Endpoint, y: Endpoint)
    requires !LinkedAny(links, e) && Linked(links, x, y)
    ensures x != e && y != e
  {
    var i :| 0 <= i < |links| && (links[i] == Link(x, y) || links[i] == Link(y, x));
  }
}
