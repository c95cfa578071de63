/** What of a lab is drawn, and where: its links, attachments and uplinks, and its nodes on the grid. */
module DrawnLab {
  import opened Numerals
  import opened LabModel
  import opened Lookup
  import opened NetworkLinks
  import opened RoutePlanner
  import opened LabDrawing
  import opened RouteGrid
  import RouteCache

  /** The text of a node of this kind. */
  function KeyOf(k: Kind, id: string): string {
    KindText(k) + ":" + id
  }

  /** Only keys of VMs and containers are those of workloads. */
  lemma WorkloadKeysAre(k: Kind, id: string)
    ensures WorkloadKey(KeyOf(k, id)) <==> k == VM || k == CT
  {
    var key := KeyOf(k, id);
    match k
    case VM => assert key[..3] == "vm:";
    case CT => assert key[..10] == "container:";
    case SW => assert key[0] == 's';
    case UP => assert key[0] == 'e';
  }

  // ---------------------------------------------------------------- edges

  ghost predicate IsLinkEdge(links: seq<Link>, edge: Edge) {
    exists x :: x in links && edge == Edge(x.from.typ + ":" + x.from.id, x.to.typ + ":" + x.to.id)
  }

  /** From a workload to the switch or the uplink that one of its interfaces is attached to. */
  ghost predicate IsNicEdge(k: Kind, w: Workload, edge: Edge) {
    exists nic :: nic in w.nics && AttachmentEdge(k, w.id, nic, edge)
  }

  predicate AttachmentEdge(k: Kind, id: string, nic: Nic, edge: Edge) {
    || (nic.switch != "" && edge == Edge(KeyOf(k, id), KeyOf(SW, nic.switch)))
    || (nic.uplink != "" && edge == Edge(KeyOf(k, id), KeyOf(UP, nic.uplink)))
  }

  ghost predicate IsUplinkEdge(sw: Switch, edge: Edge) {
    exists u :: u in SwitchUplinks(sw) && edge == Edge(KeyOf(SW, sw.id), KeyOf(UP, u))
  }

  lemma {:induction false} LinkEdgesAre(links: seq<Link>, edge: Edge)
    ensures edge in LinkEdges(links) <==> IsLinkEdge(links, edge)
  {
    if links != [] {
      var init, last := links[..|links| - 1], links[|links| - 1];
      LinkEdgesAre(init, edge);
      assert links == init + [last];
    }
  }

  lemma {:induction false} VmEdgesAre(id: string, nics: seq<Nic>, edge: Edge)
    ensures edge in VmNicEdges(id, nics) <==> exists nic :: nic in nics && AttachmentEdge(VM, id, nic, edge)
  {
    if nics != [] {
      var init, last := nics[..|nics| - 1], nics[|nics| - 1];
      VmEdgesAre(id, init, edge);
      assert nics == init + [last];
      assert forall nic :: nic in nics <==> nic in init || nic == last;
      assert edge in VmNicEdges(id, nics) <==> edge in VmNicEdges(id, init) || AttachmentEdge(VM, id, last, edge);
    }
  }

  /** The edges of one interface more. */
  lemma OneNicMore(l: Lab, id: string, nics: seq<Nic>, nic: Nic, edge: Edge)
    requires nic.switch == "" || nic.uplink == ""
    requires (exists h | 0 <= h < |l.links| :: Touches(l.links[h], Endpoint("container", id, |nics|))) ==> nic.switch == "" && nic.uplink == ""
    ensures edge in CtNicEdges(l, id, nics + [nic]) <==> edge in CtNicEdges(l, id, nics) || AttachmentEdge(CT, id, nic, edge)
  {
    hide Touches;
    var all := nics + [nic];
    assert all[..|all| - 1] == nics && all[|all| - 1] == nic;
  }

  /** A linked interface is attached to nothing, and none is attached to two things, so every attachment is drawn. */
  lemma {:induction false} ContainerEdgesAre(l: Lab, i: nat, n: nat, edge: Edge)
    requires IdentityOk(l) && NetworksOk(l) && LinksOk(l) && i < |l.containers| && n <= |l.containers[i].nics|
    ensures var w := l.containers[i];
      edge in CtNicEdges(l, w.id, w.nics[..n]) <==> exists nic :: nic in w.nics[..n] && AttachmentEdge(CT, w.id, nic, edge)
  {
    hide IdentityOk, NetworksOk, LinksOk, CtNicEdges, AttachmentEdge, Touches;
    var w := l.containers[i];
    if n > 0 {
      var init, nic := w.nics[..n - 1], w.nics[n - 1];
      ContainerEdgesAre(l, i, n - 1, edge);
      assert w.nics[..n] == init + [nic];
      OneAttachment(l, i, n - 1);
      LinkedIsFree(l, i, n - 1);
      OneNicMore(l, w.id, init, nic, edge);
      assert forall x :: x in w.nics[..n] <==> x in init || x == nic;
    } else {
      assert CtNicEdges(l, w.id, []) == [] by { NoNicEdges(l, w.id); }
    }
  }

  lemma NoNicEdges(l: Lab, id: string)
    ensures CtNicEdges(l, id, []) == []
  {
  }

  lemma OneAttachment(l: Lab, i: nat, j: nat)
    requires NetworksOk(l) && i < |l.containers| && j < |l.containers[i].nics|
    ensures l.containers[i].nics[j].switch == "" || l.containers[i].nics[j].uplink == ""
  {
    assert NicOk(l, l.containers[i].nics[j]);
  }

  lemma LinkedIsFree(l: Lab, i: nat, j: nat)
    requires IdentityOk(l) && LinksOk(l) && i < |l.containers| && j < |l.containers[i].nics|
    ensures (exists h | 0 <= h < |l.links| :: Touches(l.links[h], Endpoint("container", l.containers[i].id, j)))
        ==> l.containers[i].nics[j].switch == "" && l.containers[i].nics[j].uplink == ""
  {
    hide IdentityOk, EndpointOk, LinksApart;
    var e := Endpoint("container", l.containers[i].id, j);
    if h :| 0 <= h < |l.links| && Touches(l.links[h], e) {
      assert EndpointOk(l, e);
      EndedInIsFree(l, i, j);
    }
  }

  lemma EndedInIsFree(l: Lab, i: nat, j: nat)
    requires IdentityOk(l) && i < |l.containers| && j < |l.containers[i].nics| && EndpointOk(l, Endpoint("container", l.containers[i].id, j))
    ensures l.containers[i].nics[j].switch == "" && l.containers[i].nics[j].uplink == ""
  {
    hide IdentityOk;
    assert NodeAt(l, CT, i).id == l.containers[i].id;
    FindsNode(l, CT, i);
    FindWorkloadIsFind(l, CT, l.containers[i].id);
  }

  lemma {:induction false} UplinkEdgesAre(id: string, uplinks: seq<string>, edge: Edge)
    ensures edge in UplinkEdges(id, uplinks) <==> exists u :: u in uplinks && edge == Edge(KeyOf(SW, id), KeyOf(UP, u))
  {
    if uplinks != [] {
      var init, last := uplinks[..|uplinks| - 1], uplinks[|uplinks| - 1];
      UplinkEdgesAre(id, init, edge);
      assert uplinks == init + [last];
      assert forall u :: u in uplinks <==> u in init || u == last;
      assert edge in UplinkEdges(id, uplinks) <==> edge in UplinkEdges(id, init) || edge == Edge(KeyOf(SW, id), KeyOf(UP, last));
    }
  }

  /** What is drawn at node i. */
  ghost predicate HangsAt(l: Lab, k: Kind, i: nat, edge: Edge)
    requires i < Count(l, k)
  {
    match k
    case VM => IsNicEdge(VM, l.vms[i], edge)
    case CT => IsNicEdge(CT, l.containers[i], edge)
    case SW => IsUplinkEdge(l.switches[i], edge)
    case UP => false
  }

  lemma NodeEdgesAre(l: Lab, k: Kind, i: nat, edge: Edge)
    requires IdentityOk(l) && NetworksOk(l) && LinksOk(l) && i < Count(l, k)
    ensures edge in NodeEdges(l, k, i) <==> HangsAt(l, k, i, edge)
  {
    hide IdentityOk, NetworksOk, LinksOk, SwitchUplinks;
    match k
    case VM => VmEdgesAre(l.vms[i].id, l.vms[i].nics, edge);
    case CT =>
      ContainerEdgesAre(l, i, |l.containers[i].nics|, edge);
      assert l.containers[i].nics[..|l.containers[i].nics|] == l.containers[i].nics;
    case SW => UplinkEdgesAre(l.switches[i].id, SwitchUplinks(l.switches[i]), edge);
    case UP =>
  }

  lemma {:induction false} KindEdgesAre(l: Lab, k: Kind, n: nat, edge: Edge)
    requires IdentityOk(l) && NetworksOk(l) && LinksOk(l) && n <= Count(l, k)
    ensures edge in KindEdges(l, k, n) <==> exists i: nat :: i < n && HangsAt(l, k, i, edge)
  {
    hide IdentityOk, NetworksOk, LinksOk, NodeEdges, HangsAt;
    if n > 0 {
      KindEdgesAre(l, k, n - 1, edge);
      NodeEdgesAre(l, k, n - 1, edge);
    }
  }

  /** The edges of a valid lab are its direct links, the attachments of all its interfaces and the uplinks of its switches, and no others. */
  lemma EdgesAre(l: Lab, resolve: PathFn, edge: Edge)
    requires Valid(l, resolve)
    ensures edge in DrawnEdges(l) <==> IsLinkEdge(l.links, edge) || exists k: Kind, i: nat :: i < Count(l, k) && HangsAt(l, k, i, edge)
  {
    hide IdentityOk, NetworksOk, LinksOk, KindEdges, HangsAt, LinkEdges, IsLinkEdge;
    LinkEdgesAre(l.links, edge);
    KindEdgesAre(l, VM, |l.vms|, edge);
    KindEdgesAre(l, CT, |l.containers|, edge);
    KindEdgesAre(l, SW, |l.switches|, edge);
    assert forall i: nat | i < |l.uplinks| :: !HangsAt(l, UP, i, edge) by { NothingHangsAtUplinks(l, edge); }
  }

  lemma NothingHangsAtUplinks(l: Lab, edge: Edge)
    ensures forall i: nat | i < |l.uplinks| :: !HangsAt(l, UP, i, edge)
  {
  }

  // ---------------------------------------------------------------- nodes

  /** A node placed in column c and row r of the grid of 16 by 24 is drawn there; one without a place in its kind's column, eight rows below the one before. */
  lemma PlacedWhere(l: Lab, k: Kind, i: nat, caption: string, c: int, r: int)
    requires i < Count(l, k)
    ensures var id := NodeAt(l, k, i).id; var n := DrawnNode(l, k, i, caption);
      && n.typ == KindText(k) && n.id == id && n.caption == caption
      && (id in l.positions && l.positions[id] == Position(16 * c, 24 * r) ==> n.x == c && n.y == r)
      && (id !in l.positions ==> n.x == (if k == SW then 28 else if k == UP then 52 else 4) && n.y == 3 + 8 * i)
  {
  }

  // ---------------------------------------------------------------- rectangles

  lemma {:induction false} LayoutHas(nodes: seq<RouteCache.Node>, pane: Rect, v: RouteCache.View, key: string)
    ensures var rects := RouteCache.Layout(nodes, pane, v);
      && (key in rects <==> exists n :: n in nodes && n.typ + ":" + n.id == key)
      && (key in rects ==> exists n :: n in nodes && n.typ + ":" + n.id == key && rects[key] == RouteCache.NodeRect(n, pane, v))
  {
    hide RouteCache.NodeRect;
    if nodes != [] {
      var init, last := nodes[..|nodes| - 1], nodes[|nodes| - 1];
      LayoutHas(init, pane, v, key);
      assert nodes == init + [last];
      assert forall n :: n in nodes <==> n in init || n == last;
    }
  }

  lemma KeysTell(j: Kind, a: string, k: Kind, b: string)
    requires KeyOf(j, a) == KeyOf(k, b)
    ensures j == k && a == b
  {
    var x, y := KindText(j), KindText(k);
    var s := KeyOf(j, a);
    assert s[0] == x[0] == y[0];
    assert s[|x| + 1..] == a && s[|y| + 1..] == b;
  }

  lemma DrawnOne(l: Lab, m: RouteCache.Model, k: Kind, i: nat) returns (n: RouteCache.Node)
    requires Draws(m, l) && i < Count(l, k)
    ensures n in m.nodes && Depicts(n, l, k, i)
  {
    hide DrawnEdges, Depicts;
    assert IsDrawn(m.nodes, l, k, i);
    var h: int :| 0 <= h < |m.nodes| && Depicts(m.nodes[h], l, k, i);
    n := m.nodes[h];
  }

  lemma DepictedOne(l: Lab, m: RouteCache.Model, n: RouteCache.Node) returns (k: Kind, i: nat)
    requires Draws(m, l) && n in m.nodes
    ensures i < Count(l, k) && Depicts(n, l, k, i) && n.typ + ":" + n.id == KeyOf(k, NodeAt(l, k, i).id)
  {
    hide DrawnEdges, IsDrawn;
    var h: int :| 0 <= h < |m.nodes| && m.nodes[h] == n;
    k, i :| Depicts(m.nodes[h], l, k, i);
  }

  /** The rectangle of a node: its place on the grid, moved by the pane and the panning, 16 by 4 cells, or 18 by 5 for an uplink. */
  function RectangleOf(l: Lab, k: Kind, i: nat, pane: Rect, v: RouteCache.View): Rect
    requires i < Count(l, k)
  {
    var n := DrawnNode(l, k, i, "");
    Rect(pane.x + n.x + v.panX, pane.y + n.y + v.panY, if k == UP then 18 else 16, if k == UP then 5 else 4)
  }

  lemma DepictedRectangle(n: RouteCache.Node, l: Lab, k: Kind, i: nat, pane: Rect, v: RouteCache.View)
    requires Depicts(n, l, k, i)
    ensures i < Count(l, k) && RouteCache.NodeRect(n, pane, v) == RectangleOf(l, k, i, pane, v)
  {
    hide Quotient, DefaultColumn;
  }

  /** In the drawing of a lab every node has its rectangle, and there are no others. */
  lemma LaidOut(l: Lab, m: RouteCache.Model, pane: Rect, v: RouteCache.View, key: string)
    requires IdentityOk(l) && Draws(m, l)
    ensures var rects := RouteCache.Layout(m.nodes, pane, v);
      && (key in rects <==> exists k: Kind, i: nat :: i < Count(l, k) && key == KeyOf(k, NodeAt(l, k, i).id))
      && forall k: Kind, i: nat | i < Count(l, k) && key == KeyOf(k, NodeAt(l, k, i).id) :: key in rects && rects[key] == RectangleOf(l, k, i, pane, v)
  {
    hide IdentityOk, Draws, Depicts, RouteCache.Layout, RouteCache.NodeRect, RectangleOf, KeyOf;
    LayoutHas(m.nodes, pane, v, key);
    var rects := RouteCache.Layout(m.nodes, pane, v);
    if key in rects {
      var n :| n in m.nodes && n.typ + ":" + n.id == key;
      var k, i := DepictedOne(l, m, n);
    }
    forall k: Kind, i: nat | i < Count(l, k) && key == KeyOf(k, NodeAt(l, k, i).id)
      ensures key in rects && rects[key] == RectangleOf(l, k, i, pane, v)
    {
      var n := DrawnOne(l, m, k, i);
      var j, h := DepictedOne(l, m, n);
      KeyOfDrawn(n, l, k, i);
      assert n.typ + ":" + n.id == key;
      var o :| o in m.nodes && o.typ + ":" + o.id == key && rects[key] == RouteCache.NodeRect(o, pane, v);
      j, h := DepictedOne(l, m, o);
      KeysTell(j, NodeAt(l, j, h).id, k, NodeAt(l, k, i).id);
      SameIdSameNode(l, j, h, k, i);
      DepictedRectangle(o, l, k, i, pane, v);
    }
  }

  lemma KeyOfDrawn(n: RouteCache.Node, l: Lab, k: Kind, i: nat)
    requires Depicts(n, l, k, i)
    ensures i < Count(l, k) && n.typ + ":" + n.id == KeyOf(k, NodeAt(l, k, i).id)
  {
  }

  /** The drawing area is the whole view, or where that is wide and high enough all but 39 to 45 columns, about a third; the least width of 56 never comes to bear. */
  lemma PaneLeavesPanel(v: RouteCache.View)
    ensures var pane := RouteCache.PaneOf(v); var panel := v.width - pane.w;
      && pane.x == 0 && pane.y == 0 && pane.h == (if v.height < 0 then 0 else v.height)
      && if v.width < 112 || v.height < 18 then pane.w == (if v.width < 0 then 0 else v.width)
         else pane.w > 56 && panel == (if v.width < 117 then 39 else if v.width >= 132 then 45 else v.width / 3 + 1)
  {
  }
}
