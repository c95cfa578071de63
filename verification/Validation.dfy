/**
 Validate as the loader and the saver run it: loops that fill tables and collect problems. They report
 nothing exactly on the labs that the declarative rules admit.
 */
module Validation {
  import opened Numerals
  import opened LabModel
  import opened ManagedNames
  import opened NetworkLinks
  import opened Relabelling
  import opened DiskRules

  datatype Problem =
    | InvalidId(id: string)
    | DuplicateReference(text: string)
    | UnsupportedMode(id: string)
    | MissingUplinks(id: string)
    | MissingNode(id: string)
    | BothSwitchAndUplink(id: string)
    | DhcpProblem(id: string)
    | SameEndpoints
    | LinkedTwice(key: string)
    | MissingEndpoint(key: string)
    | DiskProblem(id: string)
    | AttachedTwice(id: string)
    | LayoutProblem(id: string)
    | NameCollision(name: string)

  // ---------------------------------------------------------------- identities

  /** What a node can be called by, up to case. */
  function Refs(n: NodeName): set<string> {
    {Fold(n.id)} + if Named(n) then {Fold(n.name)} else {}
  }

  lemma ClashIsSharedRef(a: NodeName, b: NodeName)
    ensures Clash(a, b) <==> !(Refs(a) !! Refs(b))
  {
    hide Fold;
    if Clash(a, b) {
      var f := if RefersTo(a, Fold(b.id)) then Fold(b.id) else Fold(b.name);
      assert f in Refs(a) && f in Refs(b);
    }
  }

  function NamesOf(ws: seq<Workload>): seq<NodeName> {
    seq(|ws|, i requires 0 <= i < |ws| => NodeName(ws[i].id, ws[i].name))
  }

  /** All nodes in the order they are visited. */
  function Nodes(l: Lab): seq<NodeName> {
    seq(|l.switches|, i requires 0 <= i < |l.switches| => NodeName(l.switches[i].id, l.switches[i].name))
    + seq(|l.uplinks|, i requires 0 <= i < |l.uplinks| => NodeName(l.uplinks[i].id, l.uplinks[i].name))
    + NamesOf(l.vms) + NamesOf(l.containers)
  }

  function Offset(l: Lab, k: Kind): nat {
    match k
    case SW => 0
    case UP => |l.switches|
    case VM => |l.switches| + |l.uplinks|
    case CT => |l.switches| + |l.uplinks| + |l.vms|
  }

  lemma NodeInOrder(l: Lab, k: Kind, i: nat)
    requires i < Count(l, k)
    ensures Offset(l, k) + i < |Nodes(l)| && Nodes(l)[Offset(l, k) + i] == NodeAt(l, k, i)
  {
  }

  lemma PlaceInOrder(l: Lab, p: nat) returns (k: Kind, i: nat)
    requires p < |Nodes(l)|
    ensures i < Count(l, k) && Offset(l, k) + i == p
  {
    k := if p < |l.switches| then SW else if p < |l.switches| + |l.uplinks| then UP
         else if p < |l.switches| + |l.uplinks| + |l.vms| then VM else CT;
    i := p - Offset(l, k);
  }

  ghost predicate NodesOk(ns: seq<NodeName>) {
    && (forall i | 0 <= i < |ns| :: NameOk(ns[i]))
    && (forall i, j | 0 <= i < j < |ns| :: Refs(ns[i]) !! Refs(ns[j]))
  }

  lemma NodesOkIsIdentityOk(l: Lab)
    ensures NodesOk(Nodes(l)) <==> IdentityOk(l)
  {
    hide Nodes, NameOk, Clash, Refs;
    if NodesOk(Nodes(l)) {
      forall j: Kind, h: nat | h < Count(l, j)
        ensures NameOk(NodeAt(l, j, h))
      {
        NodeInOrder(l, j, h);
      }
      forall j: Kind, h: nat, k: Kind, i: nat | h < Count(l, j) && i < Count(l, k) && (j != k || h != i)
        ensures !Clash(NodeAt(l, j, h), NodeAt(l, k, i))
      {
        NodeInOrder(l, j, h);
        NodeInOrder(l, k, i);
        ClashIsSharedRef(NodeAt(l, j, h), NodeAt(l, k, i));
      }
    }
    if IdentityOk(l) {
      forall p: nat | p < |Nodes(l)|
        ensures NameOk(Nodes(l)[p])
      {
        var k, i := PlaceInOrder(l, p);
        NodeInOrder(l, k, i);
      }
      forall p: nat, q: nat | p < q < |Nodes(l)|
        ensures Refs(Nodes(l)[p]) !! Refs(Nodes(l)[q])
      {
        var j, h := PlaceInOrder(l, p);
        var k, i := PlaceInOrder(l, q);
        NodeInOrder(l, j, h);
        NodeInOrder(l, k, i);
        ClashIsSharedRef(NodeAt(l, j, h), NodeAt(l, k, i));
      }
    }
  }

  method Register(text: string, seen: set<string>, problems: seq<Problem>) returns (seen2: set<string>, problems2: seq<Problem>)
    ensures seen2 == seen + {Fold(text)}
    ensures problems2 == [] <==> problems == [] && Fold(text) !in seen
  {
    seen2, problems2 := seen, problems;
    if Fold(text) in seen {
      problems2 := problems + [DuplicateReference(text)];
    } else {
      seen2 := seen + {Fold(text)};
    }
    assert Fold(text) in seen ==> seen + {Fold(text)} == seen;
  }

  /** validateNodeIdentity with nodeIDProblem, for one node. */
  method CheckIdentity(n: NodeName, seen: set<string>, problems: seq<Problem>) returns (seen2: set<string>, problems2: seq<Problem>)
    ensures problems2 == [] <==> problems == [] && NameOk(n) && Refs(n) !! seen
    ensures problems2 == [] ==> seen2 == seen + Refs(n)
  {
    hide Fold, ValidId;
    seen2, problems2 := seen, problems;
    if !ValidNodeId(n.id) {
      problems2 := problems2 + [InvalidId(n.id)];
    }
    if n.id != "" {
      seen2, problems2 := Register(n.id, seen2, problems2);
    }
    assert ValidNodeId("") ==> false by { EmptyIsNoId(); }
    if n.name != "" && !EqualFold(n.name, n.id) {
      if !ValidNodeId(n.name) {
        problems2 := problems2 + [InvalidId(n.name)];
      } else {
        seen2, problems2 := Register(n.name, seen2, problems2);
      }
    }
  }

  lemma EmptyIsNoId()
    ensures !ValidId("")
  {
  }

  method ValidateIdentities(l: Lab) returns (problems: seq<Problem>)
    ensures problems == [] <==> IdentityOk(l)
  {
    hide Nodes, NameOk, Refs;
    var ns := Nodes(l);
    problems := [];
    var seen: set<string> := {};
    for i := 0 to |ns|
      invariant problems == [] <==> NodesOk(ns[..i])
      invariant problems == [] ==> forall f :: f in seen <==> exists h :: 0 <= h < i && f in Refs(ns[h])
    {
      NodesOkSnoc(ns, i, seen);
      seen, problems := CheckIdentity(ns[i], seen, problems);
    }
    assert ns[..|ns|] == ns;
    NodesOkIsIdentityOk(l);
  }

  lemma NodesOkSnoc(ns: seq<NodeName>, i: nat, seen: set<string>)
    requires i < |ns|
    ensures NodesOk(ns[..i + 1]) ==> NodesOk(ns[..i])
    ensures (forall f :: f in seen <==> exists h :: 0 <= h < i && f in Refs(ns[h])) ==>
      (NodesOk(ns[..i + 1]) <==> NodesOk(ns[..i]) && NameOk(ns[i]) && Refs(ns[i]) !! seen)
  {
    hide NameOk, Refs;
    var more := ns[..i + 1];
    assert forall h | 0 <= h < i :: more[h] == ns[h] && ns[..i][h] == ns[h];
    assert more[i] == ns[i];
    if (forall f :: f in seen <==> exists h :: 0 <= h < i && f in Refs(ns[h])) && NodesOk(more) {
      forall f | f in seen
        ensures f !in Refs(ns[i])
      {
        var h :| 0 <= h < i && f in Refs(ns[h]);
        assert Refs(more[h]) !! Refs(more[i]);
      }
    }
    if (forall f :: f in seen <==> exists h :: 0 <= h < i && f in Refs(ns[h])) && NodesOk(ns[..i]) && Refs(ns[i]) !! seen {
      forall h | 0 <= h < i
        ensures Refs(more[h]) !! Refs(more[i])
      {
        forall f | f in Refs(ns[h]) ensures f !in Refs(ns[i]) { assert f in seen; }
      }
    }
  }

  // ---------------------------------------------------------------- references to switches and uplinks

  method CollectIds(l: Lab, k: Kind) returns (ids: set<string>)
    ensures forall id :: id in ids <==> Has(l, k, id)
  {
    ids := {};
    for i := 0 to Count(l, k)
      invariant forall id :: id in ids <==> exists h: nat :: h < i && NodeAt(l, k, h).id == id
    {
      ids := ids + {NodeAt(l, k, i).id};
    }
    forall id
      ensures id in ids <==> Has(l, k, id)
    {
      if Has(l, k, id) { assert NodeAt(l, k, Find(l, k, id)).id == id; }
    }
  }

  method CheckUplinks(l: Lab, sw: Switch, uplinkIds: set<string>) returns (problems: seq<Problem>)
    requires forall id :: id in uplinkIds <==> Has(l, UP, id)
    ensures problems == [] <==> forall u | u in SwitchUplinks(sw) :: Has(l, UP, u)
  {
    hide Has, SwitchUplinks;
    problems := [];
    var ids := SwitchUplinks(sw);
    for i := 0 to |ids|
      invariant problems == [] <==> forall h | 0 <= h < i :: Has(l, UP, ids[h])
    {
      if ids[i] !in uplinkIds {
        problems := problems + [MissingNode(ids[i])];
      }
    }
  }

  method ValidateSwitches(l: Lab, uplinkIds: set<string>) returns (problems: seq<Problem>)
    requires forall id :: id in uplinkIds <==> Has(l, UP, id)
    ensures problems == [] <==> SwitchesOk(l)
  {
    hide Has, SwitchUplinks;
    problems := [];
    for i := 0 to |l.switches|
      invariant problems == [] <==> forall h | 0 <= h < i :: SwitchOk(l, l.switches[h])
    {
      var sw := l.switches[i];
      if sw.mode != "bridge" && sw.mode != "nat" && sw.mode != "macnat-bridge" {
        problems := problems + [UnsupportedMode(sw.id)];
      }
      if sw.mode == "macnat-bridge" && |SwitchUplinks(sw)| == 0 {
        problems := problems + [MissingUplinks(sw.id)];
      }
      var missing := CheckUplinks(l, sw, uplinkIds);
      problems := problems + missing;
    }
  }

  method CheckNics(l: Lab, w: Workload, switchIds: set<string>, uplinkIds: set<string>) returns (problems: seq<Problem>)
    requires forall id :: id in switchIds <==> Has(l, SW, id)
    requires forall id :: id in uplinkIds <==> Has(l, UP, id)
    ensures problems == [] <==> forall j | 0 <= j < |w.nics| :: NicOk(l, w.nics[j])
  {
    hide Has;
    problems := [];
    for j := 0 to |w.nics|
      invariant problems == [] <==> forall h | 0 <= h < j :: NicOk(l, w.nics[h])
    {
      var nic := w.nics[j];
      if nic.switch != "" && nic.uplink != "" {
        problems := problems + [BothSwitchAndUplink(w.id)];
        continue;
      }
      if nic.switch != "" && nic.switch !in switchIds {
        problems := problems + [MissingNode(nic.switch)];
      }
      if nic.uplink != "" && nic.uplink !in uplinkIds {
        problems := problems + [MissingNode(nic.uplink)];
      }
    }
  }

  method ValidateNics(l: Lab, ws: seq<Workload>, switchIds: set<string>, uplinkIds: set<string>) returns (problems: seq<Problem>)
    requires forall id :: id in switchIds <==> Has(l, SW, id)
    requires forall id :: id in uplinkIds <==> Has(l, UP, id)
    ensures problems == [] <==> NicsOk(l, ws)
  {
    hide Has, NicOk;
    problems := [];
    for i := 0 to |ws|
      invariant problems == [] <==> forall h, j | 0 <= h < i && 0 <= j < |ws[h].nics| :: NicOk(l, ws[h].nics[j])
    {
      var found := CheckNics(l, ws[i], switchIds, uplinkIds);
      problems := problems + found;
    }
  }

  // ---------------------------------------------------------------- DHCP services

  /** What validateDHCPContainers demands of one container, apart from the others. */
  predicate DhcpAlone(l: Lab, w: Workload) {
    w.service in {"", "dhcp"} &&
    (IsDhcp(w) ==>
      && w.disk == "" && |w.nics| == 1 && w.nics[0].switch != "" && w.nics[0].uplink == "" && w.nics[0].mac == ""
      && DhcpSwitchOk(l, w.nics[0].switch))
  }

  method CheckDhcpSwitch(l: Lab, i: nat) returns (problems: seq<Problem>)
    requires i < |l.switches|
    ensures problems == [] <==>
      && l.switches[i].mode == "nat"
      && forall u | u in SwitchUplinks(l.switches[i]) ::
           var j := Find(l, UP, u); j < |l.uplinks| ==> l.uplinks[j].mode != "macnat"
  {
    hide SwitchUplinks;
    var sw := l.switches[i];
    problems := [];
    if sw.mode != "nat" {
      problems := problems + [DhcpProblem(sw.id)];
    }
    var ids := SwitchUplinks(sw);
    for h := 0 to |ids|
      invariant problems == [] <==>
        && sw.mode == "nat"
        && forall g | 0 <= g < h :: var j := Find(l, UP, ids[g]); j < |l.uplinks| ==> l.uplinks[j].mode != "macnat"
    {
      var j := Find(l, UP, ids[h]);
      if j < |l.uplinks| && l.uplinks[j].mode == "macnat" {
        problems := problems + [DhcpProblem(sw.id)];
      }
    }
  }

  /** The managed settings and the single interface. */
  method CheckDhcpShape(w: Workload) returns (problems: seq<Problem>, single: bool)
    requires IsDhcp(w)
    ensures single <==> |w.nics| == 1 && w.nics[0].switch != "" && w.nics[0].uplink == ""
    ensures problems == [] <==> w.disk == "" && single && w.nics[0].mac == ""
  {
    problems := [];
    if w.disk != "" {
      problems := problems + [DhcpProblem(w.id)];
    }
    for j := 0 to |w.nics|
      invariant problems == [] <==> w.disk == "" && forall h | 0 <= h < j :: w.nics[h].mac == ""
    {
      if w.nics[j].mac != "" {
        problems := problems + [DhcpProblem(w.id)];
        break;
      }
    }
    single := |w.nics| == 1 && w.nics[0].switch != "" && w.nics[0].uplink == "";
    if !single {
      problems := problems + [DhcpProblem(w.id)];
    }
  }

  /** A service on an existing switch is entered in the table of servers. */
  predicate Entered(l: Lab, w: Workload, switch: string) {
    IsDhcp(w) && |w.nics| == 1 && w.nics[0].switch == switch && switch != "" && w.nics[0].uplink == "" && Has(l, SW, switch)
  }

  predicate SameServer(l: Lab, a: Workload, b: Workload) {
    |a.nics| == 1 && Entered(l, a, a.nics[0].switch) && Entered(l, b, a.nics[0].switch)
  }

  method ValidateServers(l: Lab) returns (problems: seq<Problem>)
    ensures problems == [] <==>
      && (forall i | 0 <= i < |l.containers| :: DhcpAlone(l, l.containers[i]))
      && (forall i, j | 0 <= i < j < |l.containers| :: !SameServer(l, l.containers[i], l.containers[j]))
  {
    hide SwitchUplinks;
    problems := [];
    var servers: set<string> := {};
    for i := 0 to |l.containers|
      invariant problems == [] <==>
        && (forall h | 0 <= h < i :: DhcpAlone(l, l.containers[h]))
        && (forall g, h | 0 <= g < h < i :: !SameServer(l, l.containers[g], l.containers[h]))
      invariant problems == [] ==> forall id :: id in servers <==> exists h :: 0 <= h < i && Entered(l, l.containers[h], id)
    {
      var w := l.containers[i];
      if w.service == "" {
        continue;
      }
      if w.service != "dhcp" {
        problems := problems + [DhcpProblem(w.id)];
        continue;
      }
      var shape, single := CheckDhcpShape(w);
      problems := problems + shape;
      if !single {
        continue;
      }
      var at := Find(l, SW, w.nics[0].switch);
      if at == |l.switches| {
        continue;
      }
      var found := CheckDhcpSwitch(l, at);
      problems := problems + found;
      if w.nics[0].switch in servers {
        problems := problems + [DhcpProblem(w.id)];
      } else {
        servers := servers + {w.nics[0].switch};
      }
    }
  }

  method CheckDhcpEnd(l: Lab, e: Endpoint) returns (problems: seq<Problem>)
    ensures problems == [] <==> !DhcpEnd(l, e)
  {
    problems := [];
    if e.typ != "container" {
      return;
    }
    for i := 0 to |l.containers|
      invariant problems == [] <==> !exists h :: 0 <= h < i && l.containers[h].id == e.id && IsDhcp(l.containers[h])
    {
      if l.containers[i].id == e.id && IsDhcp(l.containers[i]) {
        problems := problems + [DhcpProblem(e.id)];
      }
    }
  }

  /** validateDHCPContainers. */
  method ValidateDhcp(l: Lab) returns (problems: seq<Problem>)
    ensures NicsOk(l, l.containers) ==> (problems == [] <==> DhcpOk(l))
  {
    hide DhcpEnd, NicsOk, DhcpSwitchOk, DhcpAlone, SameServer;
    problems := ValidateServers(l);
    for k := 0 to |l.links|
      invariant problems == [] <==>
        && (forall i | 0 <= i < |l.containers| :: DhcpAlone(l, l.containers[i]))
        && (forall i, j | 0 <= i < j < |l.containers| :: !SameServer(l, l.containers[i], l.containers[j]))
        && (forall h | 0 <= h < k :: !DhcpEnd(l, l.links[h].from) && !DhcpEnd(l, l.links[h].to))
    {
      var from := CheckDhcpEnd(l, l.links[k].from);
      var to := CheckDhcpEnd(l, l.links[k].to);
      problems := problems + from + to;
    }
    if NicsOk(l, l.containers) { DhcpInParts(l); }
  }

  lemma DhcpInParts(l: Lab)
    requires NicsOk(l, l.containers)
    ensures DhcpOk(l) <==>
      && (forall i | 0 <= i < |l.containers| :: DhcpAlone(l, l.containers[i]))
      && (forall i, j | 0 <= i < j < |l.containers| :: !SameServer(l, l.containers[i], l.containers[j]))
      && (forall h | 0 <= h < |l.links| :: !DhcpEnd(l, l.links[h].from) && !DhcpEnd(l, l.links[h].to))
  {
    hide DhcpEnd, DhcpSwitchOk;
  }

  // ---------------------------------------------------------------- direct links

  /** For workload endpoints the key determines the endpoint, whatever characters their ids have. */
  lemma EndKeyInjective(a: Endpoint, b: Endpoint)
    requires EndKey(a) == EndKey(b) && a.typ in {"vm", "container"} && b.typ in {"vm", "container"}
    ensures a == b
  {
    hide Itoa;
    var key := EndKey(a);
    assert key[0] == a.typ[0] && key[0] == b.typ[0];
    assert a.typ == b.typ;
    LastColon(a);
    LastColon(b);
    var n := |a.typ| + 1;
    assert |a.id| == |b.id|;
    assert key[n..n + |a.id|] == a.id && key[n..n + |b.id|] == b.id;
    assert key[n + |a.id| + 1..] == Itoa(a.nic) && key[n + |b.id| + 1..] == Itoa(b.nic);
    ItoaInjective(a.nic, b.nic);
  }

  lemma LastColon(e: Endpoint)
    ensures var n := |e.typ| + 1 + |e.id|; n < |EndKey(e)| && EndKey(e)[n] == ':' && forall i | n < i < |EndKey(e)| :: EndKey(e)[i] != ':'
  {
    hide Itoa;
    ItoaCharacters(e.nic);
    var n := |e.typ| + 1 + |e.id|;
    assert forall i | n < i < |EndKey(e)| :: EndKey(e)[i] == Itoa(e.nic)[i - n - 1];
  }

  /** One endpoint of a link: problems, and the key it enters in the table of linked interfaces. */
  method CheckEndpoint(l: Lab, e: Endpoint, linked: set<string>) returns (linked2: set<string>, ok: bool)
    ensures ok <==> EndpointOk(l, e) && EndKey(e) !in linked
    ensures linked2 == if EndpointOk(l, e) then linked + {EndKey(e)} else linked
  {
    hide EndKey;
    linked2, ok := linked, true;
    if EndKey(e) in linked {
      ok := false;
    }
    if e.typ != "vm" && e.typ != "container" {
      return linked, false;
    }
    var ws := Group(l, e.typ);
    var i := FindWorkload(ws, e.id);
    if i == |ws| {
      return linked, false;
    }
    if e.nic < 0 || e.nic >= |ws[i].nics| {
      return linked, false;
    }
    if ws[i].nics[e.nic].switch != "" || ws[i].nics[e.nic].uplink != "" {
      return linked, false;
    }
    linked2 := linked + {EndKey(e)};
  }

  ghost predicate LinkOk(l: Lab, x: Link) {
    x.from != x.to && EndpointOk(l, x.from) && EndpointOk(l, x.to)
  }

  ghost predicate LinksOkTo(l: Lab, k: nat)
    requires k <= |l.links|
  {
    && (forall i | 0 <= i < k :: LinkOk(l, l.links[i]))
    && LinksApart(l.links[..k])
  }

  ghost predicate KeysOf(l: Lab, k: nat, linked: set<string>)
    requires k <= |l.links|
  {
    && (forall i | 0 <= i < k :: EndKey(l.links[i].from) in linked && EndKey(l.links[i].to) in linked)
    && (forall key | key in linked :: exists i :: 0 <= i < k && (key == EndKey(l.links[i].from) || key == EndKey(l.links[i].to)))
  }

  lemma EndpointIsWorkload(l: Lab, e: Endpoint)
    requires EndpointOk(l, e)
    ensures e.typ in {"vm", "container"}
  {
  }

  /** A link may follow exactly when its endpoints are good and new. */
  lemma OneMoreLink(l: Lab, k: nat, linked: set<string>)
    requires k < |l.links| && LinksOkTo(l, k) && KeysOf(l, k, linked)
    ensures LinksOkTo(l, k + 1) <==>
      LinkOk(l, l.links[k]) && EndKey(l.links[k].from) !in linked && EndKey(l.links[k].to) !in linked
  {
    hide EndKey, EndpointOk, LinkOk, LinksOkTo;
    if LinksOkTo(l, k + 1) { LastLinkIsNew(l, k, linked); }
    if LinkOk(l, l.links[k]) && EndKey(l.links[k].from) !in linked && EndKey(l.links[k].to) !in linked { NewLinkFits(l, k, linked); }
  }

  lemma LastLinkIsNew(l: Lab, k: nat, linked: set<string>)
    requires k < |l.links| && LinksOkTo(l, k + 1) && KeysOf(l, k, linked)
    ensures LinkOk(l, l.links[k]) && EndKey(l.links[k].from) !in linked && EndKey(l.links[k].to) !in linked
  {
    hide EndKey, EndpointOk, LinkOk;
    var x := l.links[k];
    var more := l.links[..k + 1];
    forall i | 0 <= i < k
      ensures EndKey(l.links[i].from) !in {EndKey(x.from), EndKey(x.to)} && EndKey(l.links[i].to) !in {EndKey(x.from), EndKey(x.to)}
    {
      assert LinkOk(l, l.links[i]) && LinkOk(l, x);
      assert !Touches(more[i], more[k].from) && !Touches(more[i], more[k].to);
      KeysApart(l, l.links[i], x);
    }
  }

  lemma NewTouchesNone(l: Lab, k: nat, linked: set<string>)
    requires k < |l.links| && KeysOf(l, k, linked)
    requires EndKey(l.links[k].from) !in linked && EndKey(l.links[k].to) !in linked
    ensures forall i | 0 <= i < k :: !Touches(l.links[i], l.links[k].from) && !Touches(l.links[i], l.links[k].to)
  {
    hide EndKey;
    forall i | 0 <= i < k
      ensures !Touches(l.links[i], l.links[k].from) && !Touches(l.links[i], l.links[k].to)
    {
      assert EndKey(l.links[i].from) in linked && EndKey(l.links[i].to) in linked;
    }
  }

  lemma NewLinkFits(l: Lab, k: nat, linked: set<string>)
    requires k < |l.links| && LinksOkTo(l, k) && KeysOf(l, k, linked)
    requires LinkOk(l, l.links[k]) && EndKey(l.links[k].from) !in linked && EndKey(l.links[k].to) !in linked
    ensures LinksOkTo(l, k + 1)
  {
    hide EndKey, LinkOk, Touches, KeysOf, LinksApart;
    var x := l.links[k];
    NewTouchesNone(l, k, linked);
    assert l.links[..k + 1] == l.links[..k] + [x];
    ApartSnoc(l.links[..k], x);
  }

  lemma KeysApart(l: Lab, a: Link, b: Link)
    requires LinkOk(l, a) && LinkOk(l, b) && !Touches(a, b.from) && !Touches(a, b.to)
    ensures EndKey(a.from) !in {EndKey(b.from), EndKey(b.to)} && EndKey(a.to) !in {EndKey(b.from), EndKey(b.to)}
  {
    hide EndKey, EndpointOk;
    EndpointIsWorkload(l, a.from);
    EndpointIsWorkload(l, a.to);
    EndpointIsWorkload(l, b.from);
    EndpointIsWorkload(l, b.to);
    if EndKey(a.from) == EndKey(b.from) { EndKeyInjective(a.from, b.from); }
    if EndKey(a.from) == EndKey(b.to) { EndKeyInjective(a.from, b.to); }
    if EndKey(a.to) == EndKey(b.from) { EndKeyInjective(a.to, b.from); }
    if EndKey(a.to) == EndKey(b.to) { EndKeyInjective(a.to, b.to); }
  }

  lemma FewerLinksOk(l: Lab, k: nat)
    requires k < |l.links| && LinksOkTo(l, k + 1)
    ensures LinksOkTo(l, k)
  {
    hide LinkOk;
    assert forall i | 0 <= i < k :: l.links[..k][i] == l.links[..k + 1][i];
  }

  lemma DifferentEndsDifferentKeys(l: Lab, x: Link)
    requires LinkOk(l, x)
    ensures EndKey(x.from) != EndKey(x.to)
  {
    hide EndKey, EndpointOk;
    EndpointIsWorkload(l, x.from);
    EndpointIsWorkload(l, x.to);
    if EndKey(x.from) == EndKey(x.to) { EndKeyInjective(x.from, x.to); }
  }

  method ValidateNetworkLinks(l: Lab) returns (problems: seq<Problem>)
    ensures problems == [] <==> LinksOk(l)
  {
    hide EndKey, EndpointOk, LinksOkTo;
    problems := [];
    var linked: set<string> := {};
    assert LinksOkTo(l, 0) by { NoLinksOk(l); }
    for k := 0 to |l.links|
      invariant problems == [] <==> LinksOkTo(l, k)
      invariant problems == [] ==> KeysOf(l, k, linked)
    {
      var x := l.links[k];
      if LinksOkTo(l, k + 1) { FewerLinksOk(l, k); }
      if LinksOkTo(l, k) && KeysOf(l, k, linked) { OneMoreLink(l, k, linked); }
      if LinkOk(l, x) { DifferentEndsDifferentKeys(l, x); }
      if EndKey(x.from) == EndKey(x.to) {
        problems := problems + [SameEndpoints];
        continue;
      }
      var first, second;
      linked, first := CheckEndpoint(l, x.from, linked);
      linked, second := CheckEndpoint(l, x.to, linked);
      if !first {
        problems := problems + [MissingEndpoint(EndKey(x.from))];
      }
      if !second {
        problems := problems + [MissingEndpoint(EndKey(x.to))];
      }
    }
    LinksOkToAll(l);
  }

  lemma NoLinksOk(l: Lab)
    ensures LinksOkTo(l, 0)
  {
  }

  lemma LinksOkToAll(l: Lab)
    ensures LinksOkTo(l, |l.links|) <==> LinksOk(l)
  {
    hide EndpointOk;
    assert l.links[..|l.links|] == l.links;
    assert forall i | 0 <= i < |l.links| :: LinkOk(l, l.links[i]) <==>
      l.links[i].from != l.links[i].to && EndpointOk(l, l.links[i].from) && EndpointOk(l, l.links[i].to);
  }

  // ---------------------------------------------------------------- disks

  ghost predicate IdsOkTo(disks: seq<Disk>, n: nat)
    requires n <= |disks|
  {
    (forall h | 0 <= h < n :: ValidId(disks[h].id)) && forall g, h | 0 <= g < h < n :: disks[g].id != disks[h].id
  }

  ghost predicate KeysTo(disks: seq<Disk>, n: nat, kinds: map<string, string>)
    requires n <= |disks|
  {
    && (forall h | 0 <= h < n :: disks[h].id in kinds)
    && (forall id | id in kinds :: exists h :: 0 <= h < n && disks[h].id == id && kinds[id] == DiskKind(disks[h]))
  }

  lemma OneMoreId(disks: seq<Disk>, n: nat, kinds: map<string, string>)
    requires n < |disks| && KeysTo(disks, n, kinds)
    ensures IdsOkTo(disks, n + 1) <==> IdsOkTo(disks, n) && ValidId(disks[n].id) && disks[n].id !in kinds
  {
    hide ValidId, DiskKind;
    if disks[n].id in kinds {
      var h :| 0 <= h < n && disks[h].id == disks[n].id;
    }
  }

  lemma OneMoreKey(disks: seq<Disk>, n: nat, kinds: map<string, string>)
    requires n < |disks| && KeysTo(disks, n, kinds)
    ensures KeysTo(disks, n + 1, kinds[disks[n].id := DiskKind(disks[n])])
  {
    hide DiskKind;
  }

  method IndexDisks(disks: seq<Disk>) returns (kinds: map<string, string>, problems: seq<Problem>)
    ensures problems == [] <==> IdsOkTo(disks, |disks|)
    ensures KeysTo(disks, |disks|, kinds)
  {
    hide IdsOkTo, KeysTo, ValidId;
    kinds, problems := map[], [];
    assert IdsOkTo(disks, 0) && KeysTo(disks, 0, map[]) by { NothingIndexed(disks); }
    for i := 0 to |disks|
      invariant problems == [] <==> IdsOkTo(disks, i)
      invariant KeysTo(disks, i, kinds)
    {
      OneMoreId(disks, i, kinds);
      OneMoreKey(disks, i, kinds);
      if !ValidId(disks[i].id) {
        problems := problems + [InvalidId(disks[i].id)];
      }
      if disks[i].id in kinds {
        problems := problems + [DuplicateReference(disks[i].id)];
      }
      kinds := kinds[disks[i].id := DiskKind(disks[i])];
    }
  }

  lemma NothingIndexed(disks: seq<Disk>)
    ensures IdsOkTo(disks, 0) && KeysTo(disks, 0, map[])
  {
  }

  lemma IndexedKinds(disks: seq<Disk>, kinds: map<string, string>)
    requires IdsOkTo(disks, |disks|) && KeysTo(disks, |disks|, kinds)
    ensures KindsOf(disks, kinds)
  {
    hide ValidId, DiskKind;
    forall id | id in kinds
      ensures FindDisk(disks, id) < |disks| && kinds[id] == DiskKind(disks[FindDisk(disks, id)])
    {
      var h :| 0 <= h < |disks| && disks[h].id == id && kinds[id] == DiskKind(disks[h]);
      FindsDisk(disks, h);
    }
  }

  /** What the middle loop checks of one disk. */
  predicate DiskAlone(l: Lab, d: Disk) {
    && d.path != "" && d.kind in {"", "base", "layer", "data"} && BaseOk(l.disks, d)
    && if d.attachedType == "" then d.attachedTo == ""
       else IsTarget(l, d.attachedType, d.attachedTo) && !(d.attachedType == "vm" && d.kind == "data")
  }

  predicate KindsOf(disks: seq<Disk>, kinds: map<string, string>) {
    && (forall id | id in kinds :: FindDisk(disks, id) < |disks| && kinds[id] == DiskKind(disks[FindDisk(disks, id)]))
    && (forall i | 0 <= i < |disks| :: disks[i].id in kinds)
  }

  method CheckDisk(l: Lab, d: Disk, kinds: map<string, string>, vmIds: set<string>, containerIds: set<string>) returns (problems: seq<Problem>)
    requires forall id :: id in vmIds <==> IsTarget(l, "vm", id)
    requires forall id :: id in containerIds <==> IsTarget(l, "container", id)
    ensures KindsOf(l.disks, kinds) ==> (problems == [] <==> DiskAlone(l, d))
  {
    problems := [];
    if d.path == "" {
      problems := problems + [DiskProblem(d.id)];
    }
    if d.kind != "" && d.kind != "base" && d.kind != "layer" && d.kind != "data" {
      problems := problems + [DiskProblem(d.id)];
    }
    var kind := DiskKind(d);
    if kind == "layer" && d.base == "" {
      problems := problems + [DiskProblem(d.id)];
    }
    if kind == "data" && d.base != "" {
      problems := problems + [DiskProblem(d.id)];
    }
    if kind == "base" && d.base != "" {
      problems := problems + [DiskProblem(d.id)];
    }
    if d.base != "" && (d.base == d.id || d.base !in kinds || kinds[d.base] != "base") {
      problems := problems + [DiskProblem(d.id)];
    }
    if d.attachedType == "" && d.attachedTo != "" {
      problems := problems + [DiskProblem(d.id)];
    }
    if d.attachedType == "vm" {
      if d.attachedTo !in vmIds {
        problems := problems + [MissingNode(d.attachedTo)];
      }
      if d.kind == "data" {
        problems := problems + [DiskProblem(d.id)];
      }
    } else if d.attachedType == "container" {
      if d.attachedTo !in containerIds {
        problems := problems + [MissingNode(d.attachedTo)];
      }
    } else if d.attachedType != "" {
      problems := problems + [DiskProblem(d.id)];
    }
    NoOtherTargets(l, d);
    if KindsOf(l.disks, kinds) && d.base != "" { SameKind(l.disks, kinds, d.base); }
  }

  lemma NoOtherTargets(l: Lab, d: Disk)
    ensures d.attachedType !in {"vm", "container"} ==> !IsTarget(l, d.attachedType, d.attachedTo)
  {
  }

  lemma SameKind(disks: seq<Disk>, kinds: map<string, string>, id: string)
    requires KindsOf(disks, kinds)
    ensures id in kinds <==> FindDisk(disks, id) < |disks|
  {
  }

  method CheckDisks(l: Lab, kinds: map<string, string>, vmIds: set<string>, containerIds: set<string>) returns (problems: seq<Problem>)
    requires forall id :: id in vmIds <==> IsTarget(l, "vm", id)
    requires forall id :: id in containerIds <==> IsTarget(l, "container", id)
    ensures KindsOf(l.disks, kinds) ==> (problems == [] <==> forall i | 0 <= i < |l.disks| :: DiskAlone(l, l.disks[i]))
  {
    hide IsTarget, DiskAlone, KindsOf;
    problems := [];
    for i := 0 to |l.disks|
      invariant KindsOf(l.disks, kinds) ==> (problems == [] <==> forall h | 0 <= h < i :: DiskAlone(l, l.disks[h]))
    {
      var found := CheckDisk(l, l.disks[i], kinds, vmIds, containerIds);
      problems := problems + found;
    }
  }

  function TargetKey(d: Disk): string {
    d.attachedType + ":" + d.attachedTo
  }

  predicate Placed(d: Disk) {
    d.attachedType != "" && d.attachedTo != ""
  }

  lemma TargetKeyInjective(a: Disk, b: Disk)
    requires a.attachedType in {"vm", "container"} && b.attachedType in {"vm", "container"}
    ensures TargetKey(a) == TargetKey(b) <==> a.attachedType == b.attachedType && a.attachedTo == b.attachedTo
  {
    if TargetKey(a) == TargetKey(b) {
      assert TargetKey(a)[0] == a.attachedType[0] && TargetKey(b)[0] == b.attachedType[0];
      assert TargetKey(a)[|a.attachedType| + 1..] == a.attachedTo && TargetKey(b)[|b.attachedType| + 1..] == b.attachedTo;
    }
  }

  /** The attachments seen so far: at most one per key, each agreeing with its workload's path. */
  ghost predicate PlacedOk(l: Lab, resolve: PathFn, n: nat)
    requires n <= |l.disks|
  {
    && (forall i | 0 <= i < n && Placed(l.disks[i]) ::
          PathAgrees(PathOf(l, l.disks[i].attachedType, l.disks[i].attachedTo), l.disks[i], resolve))
    && (forall i, j | 0 <= i < j < n && Placed(l.disks[i]) && Placed(l.disks[j]) :: TargetKey(l.disks[i]) != TargetKey(l.disks[j]))
  }

  method CheckAttachments(l: Lab, resolve: PathFn) returns (problems: seq<Problem>)
    ensures problems == [] <==> PlacedOk(l, resolve, |l.disks|)
  {
    hide TargetKey, PathOf;
    problems := [];
    var attached: set<string> := {};
    for i := 0 to |l.disks|
      invariant problems == [] <==> PlacedOk(l, resolve, i)
      invariant forall key :: key in attached <==> exists h :: 0 <= h < i && Placed(l.disks[h]) && key == TargetKey(l.disks[h])
    {
      var d := l.disks[i];
      if d.attachedType == "" || d.attachedTo == "" {
        continue;
      }
      var key := TargetKey(d);
      if key in attached {
        problems := problems + [AttachedTwice(d.id)];
        continue;
      }
      attached := attached + {key};
      var path := PathOf(l, d.attachedType, d.attachedTo);
      if path == "" {
        problems := problems + [DiskProblem(d.id)];
      } else if resolve(path) != resolve(d.path) {
        problems := problems + [DiskProblem(d.id)];
      }
    }
  }

  /** The three loops together check one disk. */
  lemma DiskInParts(l: Lab, d: Disk, resolve: PathFn)
    requires IdentityOk(l)
    ensures Plain(d) && BaseOk(l.disks, d) && AttachmentOk(l, d, resolve) <==>
      && ValidId(d.id) && DiskAlone(l, d)
      && (Placed(d) ==> PathAgrees(PathOf(l, d.attachedType, d.attachedTo), d, resolve))
    ensures (DiskAlone(l, d) || AttachmentOk(l, d, resolve)) && d.attachedType != "" ==>
      Placed(d) && d.attachedType in {"vm", "container"}
  {
    hide IdentityOk, ValidId, BaseOk, AttachmentOk, PathOf, IsTarget, PathAgrees;
    AttachmentInWords(l, d, resolve);
    TargetsAreNamed(l, d.attachedType, d.attachedTo);
  }

  ghost predicate DiskParts(l: Lab, resolve: PathFn) {
    && IdsOkTo(l.disks, |l.disks|)
    && (forall i | 0 <= i < |l.disks| :: DiskAlone(l, l.disks[i]))
    && PlacedOk(l, resolve, |l.disks|)
  }

  lemma PartsOfDisks(l: Lab, resolve: PathFn)
    requires IdentityOk(l) && DisksOk(l, resolve)
    ensures DiskParts(l, resolve)
  {
    hide IdentityOk, ValidId, BaseOk, AttachmentOk, PathOf, IsTarget, PathAgrees, TargetKey, DisksOk, DiskAlone;
    DisksInWords(l, resolve);
    forall i | 0 <= i < |l.disks|
      ensures ValidId(l.disks[i].id) && DiskAlone(l, l.disks[i])
      ensures Placed(l.disks[i]) ==> PathAgrees(PathOf(l, l.disks[i].attachedType, l.disks[i].attachedTo), l.disks[i], resolve)
      ensures l.disks[i].attachedType != "" ==> Placed(l.disks[i]) && l.disks[i].attachedType in {"vm", "container"}
    {
      assert l.disks[i] in l.disks;
      DiskInParts(l, l.disks[i], resolve);
    }
    KeysAreTargets(l.disks);
  }

  lemma DisksOfParts(l: Lab, resolve: PathFn)
    requires IdentityOk(l) && DiskParts(l, resolve)
    ensures DisksOk(l, resolve)
  {
    hide IdentityOk, ValidId, BaseOk, AttachmentOk, PathOf, IsTarget, PathAgrees, TargetKey, DisksOk, DiskAlone;
    DisksInWords(l, resolve);
    forall i | 0 <= i < |l.disks|
      ensures Plain(l.disks[i]) && BaseOk(l.disks, l.disks[i]) && AttachmentOk(l, l.disks[i], resolve)
      ensures l.disks[i].attachedType != "" ==> Placed(l.disks[i]) && l.disks[i].attachedType in {"vm", "container"}
    {
      DiskInParts(l, l.disks[i], resolve);
    }
    KeysAreTargets(l.disks);
  }

  lemma TargetsAreNamed(l: Lab, typ: string, id: string)
    requires IdentityOk(l)
    ensures IsTarget(l, typ, id) ==> id != "" && typ in {"vm", "container"}
  {
    if IsTarget(l, typ, id) {
      var k := if typ == "vm" then VM else CT;
      FindWorkloadIsFind(l, k, id);
      FindsNode(l, k, Find(l, k, id));
    }
  }

  lemma KeysAreTargets(disks: seq<Disk>)
    requires forall i | 0 <= i < |disks| && disks[i].attachedType != "" :: Placed(disks[i]) && disks[i].attachedType in {"vm", "container"}
    ensures Apart(disks) <==>
      forall i, j | 0 <= i < j < |disks| && Placed(disks[i]) && Placed(disks[j]) :: TargetKey(disks[i]) != TargetKey(disks[j])
  {
    hide TargetKey;
    forall i, j | 0 <= i < j < |disks|
      ensures SameTarget(disks[i], disks[j]) <==> Placed(disks[i]) && Placed(disks[j]) && TargetKey(disks[i]) == TargetKey(disks[j])
    {
      if disks[i].attachedType != "" && disks[j].attachedType != "" { TargetKeyInjective(disks[i], disks[j]); }
    }
  }

  lemma TargetIsNode(l: Lab, k: Kind, id: string)
    requires k == VM || k == CT
    ensures IsTarget(l, KindText(k), id) <==> Has(l, k, id)
  {
    FindWorkloadIsFind(l, k, id);
  }

  method ValidateDisks(l: Lab, resolve: PathFn, vmIds: set<string>, containerIds: set<string>) returns (problems: seq<Problem>)
    requires forall id :: id in vmIds <==> Has(l, VM, id)
    requires forall id :: id in containerIds <==> Has(l, CT, id)
    ensures IdentityOk(l) ==> (problems == [] <==> DisksOk(l, resolve))
  {
    hide Has, IsTarget, DiskAlone, KindsOf, IdsOkTo, KeysTo, PlacedOk, IdentityOk, DisksOk;
    forall id { TargetIsNode(l, VM, id); }
    forall id { TargetIsNode(l, CT, id); }
    var kinds, indexed := IndexDisks(l.disks);
    var checked := CheckDisks(l, kinds, vmIds, containerIds);
    var attached := CheckAttachments(l, resolve);
    problems := indexed + checked + attached;
    if IdsOkTo(l.disks, |l.disks|) { IndexedKinds(l.disks, kinds); }
    if IdentityOk(l) && DisksOk(l, resolve) { PartsOfDisks(l, resolve); }
    if IdentityOk(l) && problems == [] { DisksOfParts(l, resolve); }
  }

  // ---------------------------------------------------------------- layout

  method ValidatePositions(l: Lab, vmIds: set<string>, switchIds: set<string>, uplinkIds: set<string>, containerIds: set<string>)
    returns (problems: seq<Problem>)
    requires forall id :: id in vmIds <==> Has(l, VM, id)
    requires forall id :: id in switchIds <==> Has(l, SW, id)
    requires forall id :: id in uplinkIds <==> Has(l, UP, id)
    requires forall id :: id in containerIds <==> Has(l, CT, id)
    ensures problems == [] <==> forall id | id in l.positions :: HasNode(l, id)
  {
    hide Has;
    problems := [];
    var left := l.positions.Keys;
    while left != {}
      invariant left <= l.positions.Keys
      invariant problems == [] <==> forall id | id in l.positions && id !in left :: HasNode(l, id)
      decreases |left|
    {
      var id :| id in left;
      left := left - {id};
      if id !in vmIds && id !in switchIds && id !in uplinkIds && id !in containerIds {
        problems := problems + [LayoutProblem(id)];
      }
    }
  }

  method CheckLayoutEnd(l: Lab, e: LayoutEnd, vmIds: set<string>, switchIds: set<string>, uplinkIds: set<string>, containerIds: set<string>)
    returns (ok: bool)
    requires forall id :: id in vmIds <==> Has(l, VM, id)
    requires forall id :: id in switchIds <==> Has(l, SW, id)
    requires forall id :: id in uplinkIds <==> Has(l, UP, id)
    requires forall id :: id in containerIds <==> Has(l, CT, id)
    ensures ok <==> LayoutEndOk(l, e)
  {
    hide Has;
    if e.typ == "vm" {
      ok := e.id in vmIds;
    } else if e.typ == "switch" {
      ok := e.id in switchIds;
    } else if e.typ == "external" {
      ok := e.id in uplinkIds;
    } else if e.typ == "container" {
      ok := e.id in containerIds;
    } else {
      ok := false;
    }
  }

  method ValidateLayout(l: Lab, vmIds: set<string>, switchIds: set<string>, uplinkIds: set<string>, containerIds: set<string>)
    returns (problems: seq<Problem>)
    requires forall id :: id in vmIds <==> Has(l, VM, id)
    requires forall id :: id in switchIds <==> Has(l, SW, id)
    requires forall id :: id in uplinkIds <==> Has(l, UP, id)
    requires forall id :: id in containerIds <==> Has(l, CT, id)
    ensures problems == [] <==> LayoutOk(l)
  {
    hide Has, HasNode, LayoutEndOk;
    problems := ValidatePositions(l, vmIds, switchIds, uplinkIds, containerIds);
    for i := 0 to |l.layoutLinks|
      invariant problems == [] <==>
        && (forall id | id in l.positions :: HasNode(l, id))
        && (forall h | 0 <= h < i :: LayoutEndOk(l, l.layoutLinks[h].from) && LayoutEndOk(l, l.layoutLinks[h].to))
    {
      var from := CheckLayoutEnd(l, l.layoutLinks[i].from, vmIds, switchIds, uplinkIds, containerIds);
      var to := CheckLayoutEnd(l, l.layoutLinks[i].to, vmIds, switchIds, uplinkIds, containerIds);
      if !from {
        problems := problems + [LayoutProblem(l.layoutLinks[i].from.id)];
      }
      if !to {
        problems := problems + [LayoutProblem(l.layoutLinks[i].to.id)];
      }
    }
  }

  // ---------------------------------------------------------------- the whole

  /** The rules a saved lab obeys, the names of what the runtime makes of it included. */
  ghost predicate Accepted(n: Naming, l: Lab, resolve: PathFn) {
    Valid(l, resolve) && ManagedNamesOk(n, l)
  }

  /** Validate reports no problem exactly on the labs the rules admit. */
  method Validate(n: Naming, l: Lab, resolve: PathFn) returns (problems: seq<Problem>)
    ensures problems == [] <==> Accepted(n, l, resolve)
  {
    hide Has, IdentityOk, SwitchesOk, NicsOk, DhcpOk, LinksOk, DisksOk, LayoutOk, ManagedNamesOk;
    var switchIds := CollectIds(l, SW);
    var uplinkIds := CollectIds(l, UP);
    var vmIds := CollectIds(l, VM);
    var containerIds := CollectIds(l, CT);
    var identities := ValidateIdentities(l);
    var switches := ValidateSwitches(l, uplinkIds);
    var vmNics := ValidateNics(l, l.vms, switchIds, uplinkIds);
    var containerNics := ValidateNics(l, l.containers, switchIds, uplinkIds);
    var dhcp := ValidateDhcp(l);
    var disks := ValidateDisks(l, resolve, vmIds, containerIds);
    var links := ValidateNetworkLinks(l);
    var layout := ValidateLayout(l, vmIds, switchIds, uplinkIds, containerIds);
    var names := ValidateManagedNames(n, l);
    var collisions := seq(|names|, i requires 0 <= i < |names| => NameCollision(names[i]));
    problems := identities + switches + vmNics + containerNics + dhcp + collisions + disks + links + layout;
  }
}
