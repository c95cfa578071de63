/** The drawing of a lab: its nodes and edges as the route planner and its cache see them. */
module LabDrawing {
  import opened Numerals
  import opened LabModel
  import opened RoutePlanner
  import RouteGrid
  import RouteCache

  function NodeKey(typ: string, id: string): string {
    typ + ":" + id
  }

  /** Division as Go has it, towards zero. */
  function Quotient(n: int, d: int): int
    requires d > 0
  {
    if n < 0 then -((-n) / d) else n / d
  }

  function DefaultColumn(k: Kind): int {
    match k case VM => 4 case CT => 4 case UP => 52 case SW => 28
  }

  function DrawnNode(l: Lab, k: Kind, i: nat, caption: string): RouteCache.Node
    requires i < Count(l, k)
  {
    var id := NodeAt(l, k, i).id;
    var placed := id in l.positions;
    RouteCache.Node(KindText(k), id, if placed then Quotient(l.positions[id].x, 16) else DefaultColumn(k),
                    if placed then Quotient(l.positions[id].y, 24) else 3 + 8 * i, caption)
  }

  function LinkEdges(links: seq<Link>): seq<Edge> {
    if links == [] then []
    else
      var last := links[|links| - 1];
      LinkEdges(links[..|links| - 1]) + [Edge(NodeKey(last.from.typ, last.from.id), NodeKey(last.to.typ, last.to.id))]
  }

  /** The edges of a VM's interfaces: one for each attachment. */
  function VmNicEdges(id: string, nics: seq<Nic>): seq<Edge> {
    if nics == [] then []
    else
      var nic := nics[|nics| - 1];
      VmNicEdges(id, nics[..|nics| - 1])
      + (if nic.switch != "" then [Edge(NodeKey("vm", id), NodeKey("switch", nic.switch))] else [])
      + if nic.uplink != "" then [Edge(NodeKey("vm", id), NodeKey("external", nic.uplink))] else []
  }

  /** A container's interfaces: none for a linked one, and the switch before the uplink. */
  function CtNicEdges(l: Lab, id: string, nics: seq<Nic>): seq<Edge> {
    if nics == [] then []
    else
      var nic, index := nics[|nics| - 1], |nics| - 1;
      var linked := exists i | 0 <= i < |l.links| :: Touches(l.links[i], Endpoint("container", id, index));
      CtNicEdges(l, id, nics[..index])
      + if linked then []
        else if nic.switch != "" then [Edge(NodeKey("container", id), NodeKey("switch", nic.switch))]
        else if nic.uplink != "" then [Edge(NodeKey("container", id), NodeKey("external", nic.uplink))]
        else []
  }

  function UplinkEdges(id: string, uplinks: seq<string>): seq<Edge> {
    if uplinks == [] then []
    else UplinkEdges(id, uplinks[..|uplinks| - 1]) + [Edge(NodeKey("switch", id), NodeKey("external", uplinks[|uplinks| - 1]))]
  }

  function NodeEdges(l: Lab, k: Kind, i: nat): seq<Edge>
    requires i < Count(l, k)
  {
    match k
    case VM => VmNicEdges(l.vms[i].id, l.vms[i].nics)
    case CT => CtNicEdges(l, l.containers[i].id, l.containers[i].nics)
    case SW => UplinkEdges(l.switches[i].id, SwitchUplinks(l.switches[i]))
    case UP => []
  }

  function KindEdges(l: Lab, k: Kind, n: nat): seq<Edge>
    requires n <= Count(l, k)
  {
    if n == 0 then [] else KindEdges(l, k, n - 1) + NodeEdges(l, k, n - 1)
  }

  /** The edges ModelFromLab appends, in its order. */
  function DrawnEdges(l: Lab): seq<Edge> {
    LinkEdges(l.links) + KindEdges(l, VM, |l.vms|) + KindEdges(l, CT, |l.containers|) + KindEdges(l, SW, |l.switches|)
  }

  predicate Depicts(n: RouteCache.Node, l: Lab, k: Kind, i: nat) {
    i < Count(l, k) && n == DrawnNode(l, k, i, n.caption)
  }

  predicate IsDrawn(nodes: seq<RouteCache.Node>, l: Lab, k: Kind, i: nat) {
    exists h :: 0 <= h < |nodes| && Depicts(nodes[h], l, k, i)
  }

  /** ModelFromLab: one drawn node for each node of the lab, in whatever order sorting leaves them, and the edges. */
  ghost predicate Draws(m: RouteCache.Model, l: Lab) {
    && m.edges == DrawnEdges(l)
    && |m.nodes| == |l.vms| + |l.containers| + |l.switches| + |l.uplinks|
    && (forall h | 0 <= h < |m.nodes| :: exists k: Kind, i: nat :: Depicts(m.nodes[h], l, k, i))
    && forall k: Kind, i: nat | i < Count(l, k) :: IsDrawn(m.nodes, l, k, i)
  }

  // ---------------------------------------------------------------- identifiers and separators

  /** An identifier contains none of the characters that separate the parts of a key. */
  lemma IdsAreClean(id: string)
    requires ValidId(id)
    ensures '@' !in id && ':' !in id && ';' !in id && '>' !in id && '|' !in id
  {
  }

  lemma NodeIdsAreValid(l: Lab, k: Kind, id: string)
    requires IdentityOk(l) && Has(l, k, id)
    ensures ValidId(id)
  {
    assert NameOk(NodeAt(l, k, Find(l, k, id)));
  }

  predicate CleanEdges(edges: seq<Edge>) {
    forall i | 0 <= i < |edges| :: RouteCache.CleanEdge(edges[i])
  }

  lemma KeyAvoids(k: Kind, id: string, c: char)
    requires c !in id && (c == ';' || c == '>')
    ensures c !in NodeKey(KindText(k), id)
  {
    assert c !in KindText(k);
  }

  lemma CleanKeys(j: Kind, a: string, k: Kind, b: string)
    requires ValidId(a) && ValidId(b)
    ensures RouteCache.CleanEdge(Edge(NodeKey(KindText(j), a), NodeKey(KindText(k), b)))
  {
    hide NodeKey, KindText, ValidId;
    IdsAreClean(a);
    IdsAreClean(b);
    KeyAvoids(j, a, '>');
    KeyAvoids(k, b, ';');
  }

  lemma CleanConcat(a: seq<Edge>, b: seq<Edge>)
    requires CleanEdges(a) && CleanEdges(b)
    ensures CleanEdges(a + b)
  {
  }

  lemma EndIsClean(l: Lab, e: Endpoint) returns (k: Kind)
    requires IdentityOk(l) && EndpointOk(l, e)
    ensures e.typ == KindText(k) && ValidId(e.id)
  {
    k := if e.typ == "vm" then VM else CT;
    FindWorkloadIsFind(l, k, e.id);
    NodeIdsAreValid(l, k, e.id);
  }

  lemma {:induction false} LinkEdgesAreClean(l: Lab, n: nat)
    requires IdentityOk(l) && LinksOk(l) && n <= |l.links|
    ensures CleanEdges(LinkEdges(l.links[..n]))
  {
    hide IdentityOk, EndpointOk, ValidId;
    if n > 0 {
      LinkEdgesAreClean(l, n - 1);
      assert l.links[..n][..n - 1] == l.links[..n - 1];
      var j := EndIsClean(l, l.links[n - 1].from);
      var k := EndIsClean(l, l.links[n - 1].to);
      CleanKeys(j, l.links[n - 1].from.id, k, l.links[n - 1].to.id);
    }
  }

  lemma NicIsClean(l: Lab, k: Kind, id: string, nic: Nic)
    requires IdentityOk(l) && NicOk(l, nic) && ValidId(id)
    ensures nic.switch != "" ==> RouteCache.CleanEdge(Edge(NodeKey(KindText(k), id), NodeKey("switch", nic.switch)))
    ensures nic.uplink != "" ==> RouteCache.CleanEdge(Edge(NodeKey(KindText(k), id), NodeKey("external", nic.uplink)))
  {
    hide ValidId, IdentityOk;
    if nic.switch != "" {
      NodeIdsAreValid(l, SW, nic.switch);
      CleanKeys(k, id, SW, nic.switch);
    }
    if nic.uplink != "" {
      NodeIdsAreValid(l, UP, nic.uplink);
      CleanKeys(k, id, UP, nic.uplink);
    }
  }

  lemma {:induction false} NicEdgesAreClean(l: Lab, id: string, nics: seq<Nic>)
    requires IdentityOk(l) && ValidId(id) && forall j | 0 <= j < |nics| :: NicOk(l, nics[j])
    ensures CleanEdges(VmNicEdges(id, nics)) && CleanEdges(CtNicEdges(l, id, nics))
  {
    hide ValidId, IdentityOk, NicOk, RouteCache.CleanEdge;
    if nics != [] {
      NicEdgesAreClean(l, id, nics[..|nics| - 1]);
      NicIsClean(l, VM, id, nics[|nics| - 1]);
      NicIsClean(l, CT, id, nics[|nics| - 1]);
    }
  }

  lemma {:induction false} UplinkEdgesAreClean(l: Lab, id: string, uplinks: seq<string>)
    requires IdentityOk(l) && ValidId(id) && forall j | 0 <= j < |uplinks| :: Has(l, UP, uplinks[j])
    ensures CleanEdges(UplinkEdges(id, uplinks))
  {
    hide ValidId, IdentityOk, RouteCache.CleanEdge;
    if uplinks != [] {
      var last := uplinks[|uplinks| - 1];
      UplinkEdgesAreClean(l, id, uplinks[..|uplinks| - 1]);
      NodeIdsAreValid(l, UP, last);
      CleanKeys(SW, id, UP, last);
    }
  }

  lemma NodeEdgesAreClean(l: Lab, k: Kind, i: nat)
    requires IdentityOk(l) && SwitchesOk(l) && NetworksOk(l) && i < Count(l, k)
    ensures CleanEdges(NodeEdges(l, k, i))
  {
    hide ValidId, NicOk, SwitchUplinks, VmNicEdges, CtNicEdges, UplinkEdges;
    assert ValidId(NodeAt(l, k, i).id) by { OwnIdIsValid(l, k, i); }
    hide IdentityOk;
    match k
    case VM => NicEdgesAreClean(l, l.vms[i].id, l.vms[i].nics);
    case CT => NicEdgesAreClean(l, l.containers[i].id, l.containers[i].nics);
    case SW => UplinkEdgesAreClean(l, l.switches[i].id, SwitchUplinks(l.switches[i]));
    case UP =>
  }

  lemma OwnIdIsValid(l: Lab, k: Kind, i: nat)
    requires IdentityOk(l) && i < Count(l, k)
    ensures ValidId(NodeAt(l, k, i).id)
  {
    assert NameOk(NodeAt(l, k, i));
  }

  lemma {:induction false} KindEdgesAreClean(l: Lab, k: Kind, n: nat)
    requires IdentityOk(l) && SwitchesOk(l) && NetworksOk(l) && n <= Count(l, k)
    ensures CleanEdges(KindEdges(l, k, n))
  {
    hide IdentityOk, SwitchesOk, NetworksOk, NodeEdges, CleanEdges;
    if n > 0 {
      KindEdgesAreClean(l, k, n - 1);
      NodeEdgesAreClean(l, k, n - 1);
      CleanConcat(KindEdges(l, k, n - 1), NodeEdges(l, k, n - 1));
    } else {
      assert CleanEdges([]) by { NoEdges(); }
    }
  }

  lemma NoEdges()
    ensures CleanEdges([])
  {
  }

  lemma DrawnNodeIsClean(l: Lab, k: Kind, i: nat, caption: string)
    requires IdentityOk(l) && i < Count(l, k)
    ensures RouteCache.CleanNode(DrawnNode(l, k, i, caption))
  {
    OwnIdIsValid(l, k, i);
    IdsAreClean(NodeAt(l, k, i).id);
  }

  /** The drawing of every lab that meets the rules is free of the separators. */
  lemma DrawingIsClean(l: Lab, m: RouteCache.Model, resolve: PathFn)
    requires Valid(l, resolve) && Draws(m, l)
    ensures RouteCache.Clean(m)
  {
    hide IdentityOk, SwitchesOk, NetworksOk, DhcpOk, LinksOk, DisksOk, LayoutOk, LinkEdges, KindEdges, DrawnNode, RouteCache.CleanNode;
    LinkEdgesAreClean(l, |l.links|);
    assert l.links[..|l.links|] == l.links;
    KindEdgesAreClean(l, VM, |l.vms|);
    KindEdgesAreClean(l, CT, |l.containers|);
    KindEdgesAreClean(l, SW, |l.switches|);
    CleanConcat(LinkEdges(l.links), KindEdges(l, VM, |l.vms|));
    CleanConcat(LinkEdges(l.links) + KindEdges(l, VM, |l.vms|), KindEdges(l, CT, |l.containers|));
    CleanConcat(LinkEdges(l.links) + KindEdges(l, VM, |l.vms|) + KindEdges(l, CT, |l.containers|), KindEdges(l, SW, |l.switches|));
    forall h | 0 <= h < |m.nodes|
      ensures RouteCache.CleanNode(m.nodes[h])
    {
      var n := m.nodes[h];
      var k: Kind, i: nat :| Depicts(n, l, k, i);
      DrawnNodeIsClean(l, k, i, n.caption);
    }
  }

  /** So for any two labs FoxLab can hold, equal keys mean equal routes. */
  lemma EqualKeysEqualRoutes(l: Lab, k: Lab, resolve: PathFn, m: RouteCache.Model, v: RouteCache.View, n: RouteCache.Model, w: RouteCache.View,
                             a: seq<RouteGrid.Rect>, b: seq<RouteGrid.Rect>)
    requires Valid(l, resolve) && Valid(k, resolve) && Draws(m, l) && Draws(n, k)
    requires RouteCache.CacheKey(m, v) == RouteCache.CacheKey(n, w)
    requires RouteCache.ListsVisible(a, RouteCache.Layout(m.nodes, RouteCache.PaneOf(v), v), RouteCache.PaneOf(v))
    requires RouteCache.ListsVisible(b, RouteCache.Layout(n.nodes, RouteCache.PaneOf(w), w), RouteCache.PaneOf(w))
    ensures RouteCache.PlanFor(m, v, a) == RouteCache.PlanFor(n, w, b)
  {
    hide Valid, Draws, RouteCache.Clean, RouteCache.CacheKey, RouteCache.ListsVisible, RouteCache.PlanFor, RouteCache.Layout;
    DrawingIsClean(l, m, resolve);
    DrawingIsClean(k, n, resolve);
    RouteCache.EqualKeysEqualPlans(m, v, n, w, a, b);
  }
}
