/** Editing interfaces and the direct links between them: delete with reindexing, connect, disconnect. */
module NetworkLinks {
  import opened Numerals
  import opened LabModel
  import opened Lookup

  // ---------------------------------------------------------------- in-place filters

  function WithoutEndpoint(links: seq<Link>, e: Endpoint): seq<Link> {
    if links == [] then []
    else
      var last := links[|links| - 1];
      WithoutEndpoint(links[..|links| - 1], e) + if Touches(last, e) then [] else [last]
  }

  predicate OfNode(e: Endpoint, typ: string, id: string) {
    e.typ == typ && e.id == id
  }

  function WithoutNode(links: seq<Link>, typ: string, id: string): seq<Link> {
    if links == [] then []
    else
      var last := links[|links| - 1];
      WithoutNode(links[..|links| - 1], typ, id)
      + if OfNode(last.from, typ, id) || OfNode(last.to, typ, id) then [] else [last]
  }

  /** An endpoint after interface `deleted` of one workload is gone: dropped, shifted down, or as it was. */
  function Reindex(e: Endpoint, typ: string, id: string, deleted: int): Option<Endpoint> {
    if !OfNode(e, typ, id) then Some(e)
    else if e.nic == deleted then None
    else if e.nic > deleted then Some(e.(nic := e.nic - 1))
    else Some(e)
  }

  function ReindexLink(link: Link, typ: string, id: string, deleted: int): seq<Link> {
    var from, to := Reindex(link.from, typ, id, deleted), Reindex(link.to, typ, id, deleted);
    if from.Some? && to.Some? then [Link(from.value, to.value)] else []
  }

  function Reindexed(links: seq<Link>, typ: string, id: string, deleted: int): seq<Link> {
    if links == [] then []
    else Reindexed(links[..|links| - 1], typ, id, deleted) + ReindexLink(links[|links| - 1], typ, id, deleted)
  }

  method RemoveNetworkLinksForEndpoint(s: LabState, e: Endpoint)
    modifies s
    ensures s.View() == old(s.View()).(links := WithoutEndpoint(old(s.links), e))
  {
    var links: seq<Link> := [];
    for i := 0 to |s.links|
      invariant s.View() == old(s.View()) && links == WithoutEndpoint(s.links[..i], e)
    {
      assert s.links[..i + 1][..i] == s.links[..i];
      if s.links[i].from == e || s.links[i].to == e {
        continue;
      }
      links := links + [s.links[i]];
    }
    assert s.links[..|s.links|] == s.links;
    s.links := links;
  }

  method RemoveNetworkLinksForNode(s: LabState, typ: string, id: string)
    modifies s
    ensures s.View() == old(s.View()).(links := WithoutNode(old(s.links), typ, id))
  {
    var links: seq<Link> := [];
    for i := 0 to |s.links|
      invariant s.View() == old(s.View()) && links == WithoutNode(s.links[..i], typ, id)
    {
      assert s.links[..i + 1][..i] == s.links[..i];
      var link := s.links[i];
      if (link.from.typ == typ && link.from.id == id) || (link.to.typ == typ && link.to.id == id) {
        continue;
      }
      links := links + [link];
    }
    assert s.links[..|s.links|] == s.links;
    s.links := links;
  }

  method RemoveNetworkLinksForDeletedNic(s: LabState, typ: string, id: string, deleted: int)
    modifies s
    ensures s.View() == old(s.View()).(links := Reindexed(old(s.links), typ, id, deleted))
  {
    var links: seq<Link> := [];
    for i := 0 to |s.links|
      invariant s.View() == old(s.View()) && links == Reindexed(s.links[..i], typ, id, deleted)
    {
      assert s.links[..i + 1][..i] == s.links[..i];
      var from := Reindex(s.links[i].from, typ, id, deleted);
      var to := Reindex(s.links[i].to, typ, id, deleted);
      if from.None? || to.None? {
        continue;
      }
      links := links + [Link(from.value, to.value)];
    }
    assert s.links[..|s.links|] == s.links;
    s.links := links;
  }

  // ---------------------------------------------------------------- what a filter keeps

  lemma {:induction false} InWithoutEndpoint(links: seq<Link>, e: Endpoint, x: Link)
    ensures x in WithoutEndpoint(links, e) <==> x in links && !Touches(x, e)
  {
    if links != [] {
      InWithoutEndpoint(links[..|links| - 1], e, x);
      assert links == links[..|links| - 1] + [links[|links| - 1]];
    }
  }

  lemma {:induction false} InWithoutNode(links: seq<Link>, typ: string, id: string, x: Link)
    ensures x in WithoutNode(links, typ, id) <==> x in links && !OfNode(x.from, typ, id) && !OfNode(x.to, typ, id)
  {
    if links != [] {
      InWithoutNode(links[..|links| - 1], typ, id, x);
      assert links == links[..|links| - 1] + [links[|links| - 1]];
    }
  }

  /** The old endpoint that a new one stands for; never the deleted interface. */
  function Up(e: Endpoint, typ: string, id: string, deleted: int): Endpoint {
    if OfNode(e, typ, id) && e.nic >= deleted then e.(nic := e.nic + 1) else e
  }

  function UpLink(x: Link, typ: string, id: string, deleted: int): Link {
    Link(Up(x.from, typ, id, deleted), Up(x.to, typ, id, deleted))
  }

  lemma ReindexInvertsUp(e: Endpoint, f: Endpoint, typ: string, id: string, deleted: int)
    ensures Reindex(e, typ, id, deleted) == Some(f) <==> Up(f, typ, id, deleted) == e
  {
  }

  /** Core of NIC deletion: the new links are exactly the old ones read through Up. */
  lemma {:induction false} InReindexed(links: seq<Link>, typ: string, id: string, deleted: int, x: Link)
    ensures x in Reindexed(links, typ, id, deleted) <==> UpLink(x, typ, id, deleted) in links
  {
    if links != [] {
      var last := links[|links| - 1];
      InReindexed(links[..|links| - 1], typ, id, deleted, x);
      assert links == links[..|links| - 1] + [last];
      ReindexInvertsUp(last.from, x.from, typ, id, deleted);
      ReindexInvertsUp(last.to, x.to, typ, id, deleted);
      assert x in ReindexLink(last, typ, id, deleted) <==> UpLink(x, typ, id, deleted) == last;
    }
  }

  lemma ApartFromAll(links: seq<Link>, x: Link)
    requires links != [] && LinksApart(links) && x in links[..|links| - 1]
    ensures var last := links[|links| - 1];
      !Touches(x, last.from) && !Touches(x, last.to)
  {
  }

  lemma ApartSnoc(links: seq<Link>, last: Link)
    requires LinksApart(links) && forall x | x in links :: !Touches(x, last.from) && !Touches(x, last.to)
    ensures LinksApart(links + [last])
  {
  }

  lemma {:induction false} WithoutEndpointApart(links: seq<Link>, e: Endpoint)
    requires LinksApart(links)
    ensures LinksApart(WithoutEndpoint(links, e))
  {
    if links != [] {
      var init, last := links[..|links| - 1], links[|links| - 1];
      WithoutEndpointApart(init, e);
      if !Touches(last, e) {
        forall x | x in WithoutEndpoint(init, e)
          ensures !Touches(x, last.from) && !Touches(x, last.to)
        {
          InWithoutEndpoint(init, e, x);
          ApartFromAll(links, x);
        }
        ApartSnoc(WithoutEndpoint(init, e), last);
      }
    }
  }

  lemma {:induction false} WithoutNodeApart(links: seq<Link>, typ: string, id: string)
    requires LinksApart(links)
    ensures LinksApart(WithoutNode(links, typ, id))
  {
    if links != [] {
      var init, last := links[..|links| - 1], links[|links| - 1];
      WithoutNodeApart(init, typ, id);
      if !OfNode(last.from, typ, id) && !OfNode(last.to, typ, id) {
        forall x | x in WithoutNode(init, typ, id)
          ensures !Touches(x, last.from) && !Touches(x, last.to)
        {
          InWithoutNode(init, typ, id, x);
          ApartFromAll(links, x);
        }
        ApartSnoc(WithoutNode(init, typ, id), last);
      }
    }
  }

  lemma {:induction false} ReindexedApart(links: seq<Link>, typ: string, id: string, deleted: int)
    requires LinksApart(links)
    ensures LinksApart(Reindexed(links, typ, id, deleted))
  {
    if links != [] {
      var init, last := links[..|links| - 1], links[|links| - 1];
      ReindexedApart(init, typ, id, deleted);
      var kept := ReindexLink(last, typ, id, deleted);
      if kept != [] {
        forall x | x in Reindexed(init, typ, id, deleted)
          ensures !Touches(x, kept[0].from) && !Touches(x, kept[0].to)
        {
          InReindexed(init, typ, id, deleted, x);
          ApartFromAll(links, UpLink(x, typ, id, deleted));
          ReindexInvertsUp(last.from, kept[0].from, typ, id, deleted);
          ReindexInvertsUp(last.to, kept[0].to, typ, id, deleted);
        }
        ApartSnoc(Reindexed(init, typ, id, deleted), kept[0]);
      }
    }
  }

  // ---------------------------------------------------------------- wiring

  /** The symmetric relation the links stand for. */
  predicate Linked(links: seq<Link>, a: Endpoint, b: Endpoint) {
    Link(a, b) in links || Link(b, a) in links
  }

  // ---------------------------------------------------------------- deleting an interface

  predicate IsWorkload(k: Kind) {
    k == VM || k == CT
  }

  function Workloads(l: Lab, k: Kind): seq<Workload>
    requires IsWorkload(k)
  {
    if k == VM then l.vms else l.containers
  }

  function WithWorkloads(l: Lab, k: Kind, ws: seq<Workload>): Lab
    requires IsWorkload(k)
  {
    if k == VM then l.(vms := ws) else l.(containers := ws)
  }

  function WithNics(l: Lab, k: Kind, i: nat, nics: seq<Nic>): Lab
    requires IsWorkload(k) && i < |Workloads(l, k)|
  {
    WithWorkloads(l, k, Workloads(l, k)[i := Workloads(l, k)[i].(nics := nics)])
  }

  function DeleteNicAt(l: Lab, k: Kind, i: nat, index: nat): Lab
    requires IsWorkload(k) && i < |Workloads(l, k)| && index < |Workloads(l, k)[i].nics|
  {
    var w := Workloads(l, k)[i];
    WithNics(l, k, i, w.nics[..index] + w.nics[index + 1..]).(links := Reindexed(l.links, KindText(k), w.id, index))
  }

  /** None where the operation refuses and leaves the lab alone. */
  function DeleteNic(l: Lab, k: Kind, ref: string, index: int): Option<Lab>
    requires IsWorkload(k)
  {
    var r := Resolve(l, k, ref);
    if !r.Found? || index < 0 then None
    else
      var i := Find(l, k, r.id);
      if i == Count(l, k) || (k == CT && IsDhcp(l.containers[i])) || index >= |Workloads(l, k)[i].nics| then None
      else Some(DeleteNicAt(l, k, i, index))
  }

  method SetNics(s: LabState, k: Kind, i: nat, nics: seq<Nic>)
    requires IsWorkload(k) && i < |Workloads(s.View(), k)|
    modifies s
    ensures s.View() == WithNics(old(s.View()), k, i, nics)
  {
    if k == VM {
      s.vms := s.vms[i := s.vms[i].(nics := nics)];
    } else {
      s.containers := s.containers[i := s.containers[i].(nics := nics)];
    }
  }

  /** DeleteVMNIC and DeleteContainerNIC up to their commit. */
  method DeleteWorkloadNic(s: LabState, k: Kind, ref: string, index: int) returns (ok: bool)
    requires IsWorkload(k)
    modifies s
    ensures match DeleteNic(old(s.View()), k, ref, index)
            case None => !ok && s.View() == old(s.View())
            case Some(after) => ok && s.View() == after
  {
    var l := s.View();
    var r := ResolveOne(l, k, ref);
    if !r.Found? || index < 0 {
      return false;
    }
    for i := 0 to Count(l, k)
      invariant s.View() == l && Find(l, k, r.id) >= i
    {
      var w := Workloads(l, k)[i];
      assert NodeAt(l, k, i).id == w.id;
      if w.id != r.id {
        continue;
      }
      if k == CT && IsDhcp(w) {
        return false;
      }
      if index >= |w.nics| {
        return false;
      }
      SetNics(s, k, i, w.nics[..index] + w.nics[index + 1..]);
      RemoveNetworkLinksForDeletedNic(s, KindText(k), r.id, index);
      return true;
    }
    return false;
  }

  // ---------------------------------------------------------------- rules that do not see interfaces

  /** Same nodes, disks and layout; only interfaces and links may differ. */
  predicate SameButNics(l: Lab, m: Lab) {
    && m.switches == l.switches && m.uplinks == l.uplinks && m.disks == l.disks
    && m.positions == l.positions && m.layoutLinks == l.layoutLinks
    && |m.vms| == |l.vms| && |m.containers| == |l.containers|
    && (forall i | 0 <= i < |l.vms| :: m.vms[i] == l.vms[i].(nics := m.vms[i].nics))
    && (forall i | 0 <= i < |l.containers| :: m.containers[i] == l.containers[i].(nics := m.containers[i].nics))
  }

  lemma SameFind(l: Lab, m: Lab, k: Kind, id: string)
    requires Count(m, k) == Count(l, k) && forall i | 0 <= i < Count(l, k) :: NodeAt(m, k, i) == NodeAt(l, k, i)
    ensures Find(m, k, id) == Find(l, k, id)
  {
    var f, g := Find(l, k, id), Find(m, k, id);
    assert f < Count(l, k) ==> NodeAt(m, k, f).id == id;
    assert g < Count(l, k) ==> NodeAt(l, k, g).id == id;
  }

  lemma SameNodes(l: Lab, m: Lab)
    requires SameButNics(l, m)
    ensures forall k: Kind :: Count(m, k) == Count(l, k)
    ensures forall k: Kind, i: nat | i < Count(l, k) :: NodeAt(m, k, i) == NodeAt(l, k, i)
    ensures forall k: Kind, id: string :: Find(m, k, id) == Find(l, k, id)
  {
    forall k: Kind, id: string
      ensures Find(m, k, id) == Find(l, k, id)
    {
      SameFind(l, m, k, id);
    }
  }

  lemma {:induction false} SameFindWorkload(ws: seq<Workload>, vs: seq<Workload>, id: string)
    requires |ws| == |vs| && forall i | 0 <= i < |ws| :: ws[i].id == vs[i].id
    ensures FindWorkload(ws, id) == FindWorkload(vs, id)
  {
    if ws != [] { SameFindWorkload(ws[1..], vs[1..], id); }
  }

  lemma SameButNicsKeepsIdentity(l: Lab, m: Lab)
    requires SameButNics(l, m) && IdentityOk(l)
    ensures IdentityOk(m)
  {
    SameNodes(l, m);
  }

  lemma SameButNicsKeepsSwitches(l: Lab, m: Lab)
    requires SameButNics(l, m) && SwitchesOk(l)
    ensures SwitchesOk(m)
  {
    SameNodes(l, m);
    forall i | 0 <= i < |l.switches|
      ensures SwitchOk(m, m.switches[i])
    {
      assert SwitchOk(l, l.switches[i]);
    }
  }

  lemma SameButNicsKeepsLayout(l: Lab, m: Lab)
    requires SameButNics(l, m) && LayoutOk(l)
    ensures LayoutOk(m)
  {
    SameNodes(l, m);
  }

  lemma SameButNicsKeepsDisks(l: Lab, m: Lab, resolve: PathFn)
    requires SameButNics(l, m) && DisksOk(l, resolve)
    ensures DisksOk(m, resolve)
  {
    forall i | 0 <= i < |l.disks|
      ensures DiskOk(m, m.disks[i], resolve)
    {
      var d := l.disks[i];
      assert DiskOk(l, d, resolve);
      SameFindWorkload(Group(l, d.attachedType), Group(m, d.attachedType), d.attachedTo);
    }
  }

  lemma SameButNicsKeeps(l: Lab, m: Lab, resolve: PathFn)
    requires SameButNics(l, m) && Valid(l, resolve)
    ensures IdentityOk(m) && SwitchesOk(m) && LayoutOk(m) && DisksOk(m, resolve)
  {
    SameButNicsKeepsIdentity(l, m);
    SameButNicsKeepsSwitches(l, m);
    SameButNicsKeepsLayout(l, m);
    SameButNicsKeepsDisks(l, m, resolve);
  }

  lemma SameNicRules(l: Lab, m: Lab, nic: Nic)
    requires SameButNics(l, m)
    ensures NicOk(m, nic) == NicOk(l, nic)
    ensures DhcpSwitchOk(m, nic.switch) == DhcpSwitchOk(l, nic.switch)
  {
    SameNodes(l, m);
  }

  // ---------------------------------------------------------------- what deletion guarantees

  /** The interface an endpoint names. */
  predicate IsNic(l: Lab, e: Endpoint, nic: Nic) {
    var ws := Group(l, e.typ);
    var i := FindWorkload(ws, e.id);
    i < |ws| && 0 <= e.nic < |ws[i].nics| && ws[i].nics[e.nic] == nic
  }

  lemma WithNicsIsSameButNics(l: Lab, k: Kind, i: nat, nics: seq<Nic>, links: seq<Link>)
    requires IsWorkload(k) && i < |Workloads(l, k)|
    ensures SameButNics(l, WithNics(l, k, i, nics).(links := links))
  {
  }

  /** Where an endpoint's workload sits after the interfaces of workload i were replaced. */
  lemma GroupWithNics(l: Lab, k: Kind, i: nat, nics: seq<Nic>, e: Endpoint)
    requires IdentityOk(l) && IsWorkload(k) && i < |Workloads(l, k)|
    ensures var m := WithNics(l, k, i, nics);
      var j := FindWorkload(Group(l, e.typ), e.id);
      && FindWorkload(Group(m, e.typ), e.id) == j
      && (j < |Group(l, e.typ)| ==>
            Group(m, e.typ)[j] == if OfNode(e, KindText(k), Workloads(l, k)[i].id)
                                  then Workloads(l, k)[i].(nics := nics) else Group(l, e.typ)[j])
  {
    var m := WithNics(l, k, i, nics);
    SameFindWorkload(Group(l, e.typ), Group(m, e.typ), e.id);
    if e.typ == KindText(k) {
      FindWorkloadIsFind(l, k, e.id);
      FindsNode(l, k, i);
      assert NodeAt(l, k, i).id == Workloads(l, k)[i].id;
    }
  }

  /** Every interface of the new lab is the old interface it stands for, and conversely. */
  lemma DeletionKeepsInterfaces(l: Lab, k: Kind, i: nat, index: nat, e: Endpoint, nic: Nic)
    requires IdentityOk(l) && IsWorkload(k) && i < |Workloads(l, k)| && index < |Workloads(l, k)[i].nics|
    requires e.nic >= 0
    ensures IsNic(DeleteNicAt(l, k, i, index), e, nic) <==> IsNic(l, Up(e, KindText(k), Workloads(l, k)[i].id, index), nic)
  {
    hide IdentityOk;
    var w := Workloads(l, k)[i];
    var nics := w.nics[..index] + w.nics[index + 1..];
    var up := Up(e, KindText(k), w.id, index);
    GroupWithNics(l, k, i, nics, e);
    assert Group(DeleteNicAt(l, k, i, index), e.typ) == Group(WithNics(l, k, i, nics), e.typ);
    if OfNode(e, KindText(k), w.id) {
      FindWorkloadIsFind(l, k, e.id);
      FindsNode(l, k, i);
      assert NodeAt(l, k, i).id == w.id;
      assert forall j | 0 <= j < |nics| :: nics[j] == w.nics[if j < index then j else j + 1];
    }
  }

  /** The wiring after deletion is the old wiring minus that interface, including links within one workload. */
  lemma DeletionKeepsWiring(l: Lab, k: Kind, i: nat, index: nat, a: Endpoint, b: Endpoint)
    requires IsWorkload(k) && i < |Workloads(l, k)| && index < |Workloads(l, k)[i].nics|
    ensures var typ, id := KindText(k), Workloads(l, k)[i].id;
      Linked(DeleteNicAt(l, k, i, index).links, a, b)
      <==> Linked(l.links, Up(a, typ, id, index), Up(b, typ, id, index))
  {
    var typ, id := KindText(k), Workloads(l, k)[i].id;
    InReindexed(l.links, typ, id, index, Link(a, b));
    InReindexed(l.links, typ, id, index, Link(b, a));
  }

  /** Up is a bijection onto the endpoints other than the deleted one. */
  lemma UpIsBijective(typ: string, id: string, deleted: int, e: Endpoint)
    ensures Up(e, typ, id, deleted) != Endpoint(typ, id, deleted)
    ensures e != Endpoint(typ, id, deleted)
       ==> Reindex(e, typ, id, deleted).Some? && Up(Reindex(e, typ, id, deleted).value, typ, id, deleted) == e
    ensures Reindex(Up(e, typ, id, deleted), typ, id, deleted) == Some(e)
  {
  }

  lemma EndpointOkIsFreeNic(l: Lab, e: Endpoint)
    ensures EndpointOk(l, e) <==> exists nic :: IsNic(l, e, nic) && Free(nic)
  {
    if EndpointOk(l, e) {
      var ws := Group(l, e.typ);
      assert IsNic(l, e, ws[FindWorkload(ws, e.id)].nics[e.nic]);
    }
  }

  lemma DeletionKeepsEndpoint(l: Lab, k: Kind, i: nat, index: nat, e: Endpoint)
    requires IdentityOk(l) && IsWorkload(k) && i < |Workloads(l, k)| && index < |Workloads(l, k)[i].nics|
    requires EndpointOk(l, Up(e, KindText(k), Workloads(l, k)[i].id, index))
    ensures EndpointOk(DeleteNicAt(l, k, i, index), e)
  {
    hide IdentityOk, EndpointOk, IsNic, DeleteNicAt;
    var up := Up(e, KindText(k), Workloads(l, k)[i].id, index);
    EndpointOkIsFreeNic(l, up);
    EndpointOkIsFreeNic(DeleteNicAt(l, k, i, index), e);
    var nic :| IsNic(l, up, nic) && Free(nic);
    assert e.nic >= 0 by { EndpointInRange(l, up); }
    DeletionKeepsInterfaces(l, k, i, index, e, nic);
  }

  lemma EndpointInRange(l: Lab, e: Endpoint)
    requires EndpointOk(l, e)
    ensures e.nic >= 0
  {
  }

  lemma DeletionKeepsLinks(l: Lab, k: Kind, i: nat, index: nat)
    requires IdentityOk(l) && LinksOk(l)
    requires IsWorkload(k) && i < |Workloads(l, k)| && index < |Workloads(l, k)[i].nics|
    ensures LinksOk(DeleteNicAt(l, k, i, index))
  {
    hide IdentityOk, EndpointOk;
    var m := DeleteNicAt(l, k, i, index);
    var typ, id := KindText(k), Workloads(l, k)[i].id;
    ReindexedApart(l.links, typ, id, index);
    forall x | x in m.links
      ensures x.from != x.to && EndpointOk(m, x.from) && EndpointOk(m, x.to)
    {
      InReindexed(l.links, typ, id, index, x);
      var was := UpLink(x, typ, id, index);
      assert was.from != was.to && EndpointOk(l, was.from) && EndpointOk(l, was.to);
      DeletionKeepsEndpoint(l, k, i, index, x.from);
      DeletionKeepsEndpoint(l, k, i, index, x.to);
    }
  }

  lemma NicsStayOk(l: Lab, k: Kind, i: nat, nics: seq<Nic>, links: seq<Link>)
    requires IsWorkload(k) && i < |Workloads(l, k)| && NetworksOk(l)
    requires forall j | 0 <= j < |nics| :: NicOk(l, nics[j])
    ensures NetworksOk(WithNics(l, k, i, nics).(links := links))
  {
    hide NicOk;
    var m := WithNics(l, k, i, nics).(links := links);
    WithNicsIsSameButNics(l, k, i, nics, links);
    forall nic
      ensures NicOk(m, nic) == NicOk(l, nic)
    {
      SameNicRules(l, m, nic);
    }
  }

  lemma DhcpStaysOk(l: Lab, k: Kind, i: nat, nics: seq<Nic>, links: seq<Link>)
    requires IsWorkload(k) && i < |Workloads(l, k)| && DhcpOk(l) && !(k == CT && IsDhcp(l.containers[i]))
    requires forall x | x in links :: !DhcpEnd(l, x.from) && !DhcpEnd(l, x.to)
    ensures DhcpOk(WithNics(l, k, i, nics).(links := links))
  {
    hide DhcpSwitchOk;
    var m := WithNics(l, k, i, nics).(links := links);
    WithNicsIsSameButNics(l, k, i, nics, links);
    assert forall j | 0 <= j < |l.containers| && IsDhcp(m.containers[j]) :: m.containers[j] == l.containers[j];
    forall nic: Nic
      ensures DhcpSwitchOk(m, nic.switch) == DhcpSwitchOk(l, nic.switch)
    {
      SameNicRules(l, m, nic);
    }
    forall e: Endpoint
      ensures DhcpEnd(m, e) ==> DhcpEnd(l, e)
    {
    }
    assert forall j | 0 <= j < |m.containers| && IsDhcp(m.containers[j]) ::
      DhcpSwitchOk(m, m.containers[j].nics[0].switch) == DhcpSwitchOk(l, m.containers[j].nics[0].switch);
  }

  /** An interface deletion keeps every rule of a valid lab. */
  lemma DeletionKeepsValid(l: Lab, k: Kind, ref: string, index: int, resolve: PathFn)
    requires Valid(l, resolve) && IsWorkload(k) && DeleteNic(l, k, ref, index).Some?
    ensures Valid(DeleteNic(l, k, ref, index).value, resolve)
  {
    hide IdentityOk, SwitchesOk, NetworksOk, DhcpOk, LinksOk, DisksOk, LayoutOk;
    var i := Find(l, k, Resolve(l, k, ref).id);
    var w := Workloads(l, k)[i];
    var nics := w.nics[..index] + w.nics[index + 1..];
    var links := Reindexed(l.links, KindText(k), w.id, index);
    WithNicsIsSameButNics(l, k, i, nics, links);
    SameButNicsKeeps(l, DeleteNicAt(l, k, i, index), resolve);
    DeletionKeepsLinks(l, k, i, index);
    assert NetworksOk(DeleteNicAt(l, k, i, index)) by {
      RemainingNicsOk(l, k, i, index);
      NicsStayOk(l, k, i, nics, links);
    }
    assert DhcpOk(DeleteNicAt(l, k, i, index)) by {
      RemainingLinksAvoidDhcp(l, KindText(k), w.id, index);
      DhcpStaysOk(l, k, i, nics, links);
    }
  }

  lemma RemainingNicsOk(l: Lab, k: Kind, i: nat, index: nat)
    requires NetworksOk(l) && IsWorkload(k) && i < |Workloads(l, k)| && index < |Workloads(l, k)[i].nics|
    ensures var w := Workloads(l, k)[i]; var nics := w.nics[..index] + w.nics[index + 1..];
      forall j | 0 <= j < |nics| :: NicOk(l, nics[j])
  {
    hide NicOk;
    var w := Workloads(l, k)[i];
    var nics := w.nics[..index] + w.nics[index + 1..];
    forall j | 0 <= j < |nics|
      ensures NicOk(l, nics[j])
    {
      assert nics[j] == w.nics[if j < index then j else j + 1];
    }
  }

  lemma RemainingLinksAvoidDhcp(l: Lab, typ: string, id: string, index: int)
    requires DhcpOk(l)
    ensures forall x | x in Reindexed(l.links, typ, id, index) :: !DhcpEnd(l, x.from) && !DhcpEnd(l, x.to)
  {
    forall x | x in Reindexed(l.links, typ, id, index)
      ensures !DhcpEnd(l, x.from) && !DhcpEnd(l, x.to)
    {
      InReindexed(l.links, typ, id, index, x);
      var was := UpLink(x, typ, id, index);
      assert !DhcpEnd(l, was.from) && !DhcpEnd(l, was.to);
      DhcpEndIgnoresNic(l, x.from, was.from);
      DhcpEndIgnoresNic(l, x.to, was.to);
    }
  }

  lemma DhcpEndIgnoresNic(l: Lab, e: Endpoint, f: Endpoint)
    requires e.typ == f.typ && e.id == f.id
    ensures DhcpEnd(l, e) == DhcpEnd(l, f)
  {
  }
}
