/** The route cache: the text it is keyed by determines the plan. */
module RouteCache {
  import opened Numerals
  import opened RouteGrid
  import opened RouteSearch
  import opened RoutePorts
  import opened RoutePlanner

  /** A node of the drawn model; only the caption is not part of the key. */
  datatype Node = Node(typ: string, id: string, x: int, y: int, caption: string)
  datatype Model = Model(nodes: seq<Node>, edges: seq<Edge>)

  /** The size of the drawing area and how far it is panned. */
  datatype View = View(width: int, height: int, panX: int, panY: int)

  function AtLeastZero(n: int): int {
    if n < 0 then 0 else n
  }

  // ---------------------------------------------------------------- the key

  function NodeText(n: Node): string {
    n.typ + [':'] + (n.id + ['@'] + (Itoa(n.x) + [','] + (Itoa(n.y) + [';'])))
  }

  function NodesText(nodes: seq<Node>): string {
    if nodes == [] then [] else NodeText(nodes[0]) + NodesText(nodes[1..])
  }

  function EdgeText(e: Edge): string {
    (e.from + ['-']) + ['>'] + (e.to + [';'])
  }

  function EdgesText(edges: seq<Edge>): string {
    if edges == [] then [] else EdgeText(edges[0]) + EdgesText(edges[1..])
  }

  function ModelText(m: Model): string {
    NodesText(m.nodes) + ['|'] + EdgesText(m.edges)
  }

  /** renderRouteCacheKey. */
  function CacheKey(m: Model, v: View): string {
    Itoa(AtLeastZero(v.width)) + ['x'] + (Itoa(AtLeastZero(v.height)) + ['|'] + ("pan=" + (Itoa(v.panX) + [','] + (Itoa(v.panY) + ['|'] + ModelText(m)))))
  }

  /** The node loop of writeRouteCacheModel. */
  method WriteNodes(nodes: seq<Node>) returns (out: string)
    ensures out == NodesText(nodes)
  {
    hide NodeText, Itoa;
    out := [];
    for i := 0 to |nodes|
      invariant out + NodesText(nodes[i..]) == NodesText(nodes)
    {
      var n := nodes[i];
      var text := n.typ + ":" + n.id + "@" + Itoa(n.x) + "," + Itoa(n.y) + ";";
      assert text == NodeText(n) by { JoinedNode(n); }
      assert nodes[i..][1..] == nodes[i + 1..];
      assert out + (text + NodesText(nodes[i + 1..])) == (out + text) + NodesText(nodes[i + 1..]);
      out := out + text;
    }
  }

  lemma JoinedNode(n: Node)
    ensures n.typ + ":" + n.id + "@" + Itoa(n.x) + "," + Itoa(n.y) + ";" == NodeText(n)
  {
    hide Itoa;
  }

  /** The edge loop. */
  method WriteEdges(edges: seq<Edge>) returns (out: string)
    ensures out == EdgesText(edges)
  {
    hide EdgeText;
    out := [];
    for i := 0 to |edges|
      invariant out + EdgesText(edges[i..]) == EdgesText(edges)
    {
      var e := edges[i];
      var text := e.from + "->" + e.to + ";";
      assert text == EdgeText(e) by { JoinedEdge(e); }
      assert edges[i..][1..] == edges[i + 1..];
      assert out + (text + EdgesText(edges[i + 1..])) == (out + text) + EdgesText(edges[i + 1..]);
      out := out + text;
    }
  }

  lemma JoinedEdge(e: Edge)
    ensures e.from + "->" + e.to + ";" == EdgeText(e)
  {
  }

  method WriteModel(m: Model) returns (out: string)
    ensures out == ModelText(m)
  {
    var nodes := WriteNodes(m.nodes);
    var edges := WriteEdges(m.edges);
    return nodes + "|" + edges;
  }

  // ---------------------------------------------------------------- decoding

  predicate CleanNode(n: Node) {
    ':' !in n.typ && '|' !in n.typ && '@' !in n.id
  }

  predicate CleanEdge(e: Edge) {
    '>' !in e.from && ';' !in e.to
  }

  /** Free of the characters that separate the parts of a key. */
  predicate Clean(m: Model) {
    && (forall i | 0 <= i < |m.nodes| :: CleanNode(m.nodes[i]))
    && (forall i | 0 <= i < |m.edges| :: CleanEdge(m.edges[i]))
  }

  /** The first separator splits a text in one way only. */
  lemma FirstSeparator(a: string, b: string, c: char, x: string, y: string)
    requires c !in a && c !in b && a + [c] + x == b + [c] + y
    ensures a == b && x == y
  {
    var s := a + [c] + x;
    assert s[|a|] == c && s[|b|] == c;
    assert |a| == |b|;
    assert a == s[..|a|] && b == s[..|b|] && x == s[|a| + 1..] && y == s[|b| + 1..];
  }

  lemma ItoaHasNone(n: int, c: char)
    requires !IsDigit(c) && c != '-'
    ensures c !in Itoa(n)
  {
    ItoaCharacters(n);
  }

  lemma NodeDecodes(n: Node, o: Node, x: string, y: string)
    requires CleanNode(n) && CleanNode(o) && NodeText(n) + x == NodeText(o) + y
    ensures n.typ == o.typ && n.id == o.id && n.x == o.x && n.y == o.y && x == y
  {
    hide Itoa;
    var n1, o1 := Itoa(n.y) + [';'], Itoa(o.y) + [';'];
    var n2, o2 := Itoa(n.x) + [','] + n1, Itoa(o.x) + [','] + o1;
    var n3, o3 := n.id + ['@'] + n2, o.id + ['@'] + o2;
    assert NodeText(n) + x == n.typ + [':'] + (n3 + x) && NodeText(o) + y == o.typ + [':'] + (o3 + y);
    FirstSeparator(n.typ, o.typ, ':', n3 + x, o3 + y);
    assert n3 + x == n.id + ['@'] + (n2 + x) && o3 + y == o.id + ['@'] + (o2 + y);
    FirstSeparator(n.id, o.id, '@', n2 + x, o2 + y);
    CoordinatesDecode(n.x, n.y, o.x, o.y, x, y);
  }

  lemma CoordinatesDecode(nx: int, ny: int, ox: int, oy: int, x: string, y: string)
    requires Itoa(nx) + [','] + (Itoa(ny) + [';']) + x == Itoa(ox) + [','] + (Itoa(oy) + [';']) + y
    ensures nx == ox && ny == oy && x == y
  {
    hide Itoa;
    ItoaHasNone(nx, ',');
    ItoaHasNone(ox, ',');
    ItoaHasNone(ny, ';');
    ItoaHasNone(oy, ';');
    var n1, o1 := Itoa(ny) + [';'], Itoa(oy) + [';'];
    assert Itoa(nx) + [','] + n1 + x == Itoa(nx) + [','] + (n1 + x) && Itoa(ox) + [','] + o1 + y == Itoa(ox) + [','] + (o1 + y);
    FirstSeparator(Itoa(nx), Itoa(ox), ',', n1 + x, o1 + y);
    FirstSeparator(Itoa(ny), Itoa(oy), ';', x, y);
    ItoaInjective(nx, ox);
    ItoaInjective(ny, oy);
  }

  lemma EdgeDecodes(e: Edge, f: Edge, x: string, y: string)
    requires CleanEdge(e) && CleanEdge(f) && EdgeText(e) + x == EdgeText(f) + y
    ensures e == f && x == y
  {
    var e1, f1 := e.to + [';'], f.to + [';'];
    assert EdgeText(e) + x == (e.from + ['-']) + ['>'] + (e1 + x) && EdgeText(f) + y == (f.from + ['-']) + ['>'] + (f1 + y);
    FirstSeparator(e.from + ['-'], f.from + ['-'], '>', e1 + x, f1 + y);
    assert e.from == (e.from + ['-'])[..|e.from|] && f.from == (f.from + ['-'])[..|f.from|];
    assert e1 + x == e.to + [';'] + x && f1 + y == f.to + [';'] + y;
    FirstSeparator(e.to, f.to, ';', x, y);
  }

  /** What a key says of a node. */
  predicate SameNode(n: Node, o: Node) {
    n.typ == o.typ && n.id == o.id && n.x == o.x && n.y == o.y
  }

  predicate SameNodeLists(a: seq<Node>, b: seq<Node>) {
    |a| == |b| && forall i | 0 <= i < |a| :: SameNode(a[i], b[i])
  }

  lemma NodesStart(nodes: seq<Node>, x: string)
    requires nodes != [] && CleanNode(nodes[0])
    ensures (NodesText(nodes) + x)[0] != '|'
  {
    var text := NodesText(nodes) + x;
    if nodes[0].typ == [] {
      assert text[0] == ':';
    } else {
      assert text[0] == nodes[0].typ[0];
      assert nodes[0].typ[0] in nodes[0].typ;
    }
  }

  lemma NodesDoNotStartWithBar(nodes: seq<Node>, x: string, y: string)
    requires nodes != [] && CleanNode(nodes[0])
    ensures NodesText(nodes) + ['|'] + x != ['|'] + y
  {
    hide NodesText, CleanNode;
    NodesStart(nodes, ['|'] + x);
    assert NodesText(nodes) + ['|'] + x == NodesText(nodes) + (['|'] + x);
    assert (['|'] + y)[0] == '|';
  }

  lemma NoNodesText(x: string)
    ensures NodesText([]) + ['|'] + x == ['|'] + x && (['|'] + x)[1..] == x
  {
  }

  lemma NodesEndTogether(a: seq<Node>, b: seq<Node>, x: string, y: string)
    requires (forall i | 0 <= i < |a| :: CleanNode(a[i])) && (forall i | 0 <= i < |b| :: CleanNode(b[i]))
    requires NodesText(a) + ['|'] + x == NodesText(b) + ['|'] + y && (a == [] || b == [])
    ensures a == [] && b == [] && x == y
  {
    hide NodesText, CleanNode;
    NoNodesText(x);
    NoNodesText(y);
    if a != [] { NodesDoNotStartWithBar(a, x, y); }
    if b != [] { NodesDoNotStartWithBar(b, y, x); }
  }

  lemma {:induction false} NodesDecode(a: seq<Node>, b: seq<Node>, x: string, y: string)
    requires (forall i | 0 <= i < |a| :: CleanNode(a[i])) && (forall i | 0 <= i < |b| :: CleanNode(b[i]))
    requires NodesText(a) + ['|'] + x == NodesText(b) + ['|'] + y
    ensures SameNodeLists(a, b) && x == y
  {
    hide NodeText, CleanNode;
    if a == [] || b == [] {
      NodesEndTogether(a, b, x, y);
    } else {
      var ra, rb := NodesText(a[1..]) + ['|'] + x, NodesText(b[1..]) + ['|'] + y;
      assert NodesText(a) + ['|'] + x == NodeText(a[0]) + ra && NodesText(b) + ['|'] + y == NodeText(b[0]) + rb;
      NodeDecodes(a[0], b[0], ra, rb);
      NodesDecode(a[1..], b[1..], x, y);
      assert forall i | 1 <= i < |a| :: a[i] == a[1..][i - 1] && b[i] == b[1..][i - 1];
    }
  }

  lemma {:induction false} EdgesDecode(a: seq<Edge>, b: seq<Edge>)
    requires (forall i | 0 <= i < |a| :: CleanEdge(a[i])) && (forall i | 0 <= i < |b| :: CleanEdge(b[i]))
    requires EdgesText(a) == EdgesText(b)
    ensures a == b
  {
    if a != [] && b != [] {
      EdgeDecodes(a[0], b[0], EdgesText(a[1..]), EdgesText(b[1..]));
      EdgesDecode(a[1..], b[1..]);
      assert a == [a[0]] + a[1..] && b == [b[0]] + b[1..];
    }
  }

  /** Everything planning looks at. */
  predicate SameDrawing(m: Model, v: View, n: Model, w: View) {
    && SameNodeLists(m.nodes, n.nodes) && m.edges == n.edges
    && AtLeastZero(v.width) == AtLeastZero(w.width) && AtLeastZero(v.height) == AtLeastZero(w.height)
    && v.panX == w.panX && v.panY == w.panY
  }

  /** A key is uniquely decodable. */
  lemma KeyDecodes(m: Model, v: View, n: Model, w: View)
    requires Clean(m) && Clean(n) && CacheKey(m, v) == CacheKey(n, w)
    ensures SameDrawing(m, v, n, w)
  {
    hide Itoa, ModelText;
    var v1, w1 := Itoa(v.panX) + [','] + (Itoa(v.panY) + ['|'] + ModelText(m)), Itoa(w.panX) + [','] + (Itoa(w.panY) + ['|'] + ModelText(n));
    SizesDecode(v, w, "pan=" + v1, "pan=" + w1);
    assert ("pan=" + v1)[4..] == v1 && ("pan=" + w1)[4..] == w1;
    PansDecode(v, w, ModelText(m), ModelText(n));
    ModelsDecode(m, n);
  }

  lemma SizesDecode(v: View, w: View, x: string, y: string)
    requires Itoa(AtLeastZero(v.width)) + ['x'] + (Itoa(AtLeastZero(v.height)) + ['|'] + x)
          == Itoa(AtLeastZero(w.width)) + ['x'] + (Itoa(AtLeastZero(w.height)) + ['|'] + y)
    ensures AtLeastZero(v.width) == AtLeastZero(w.width) && AtLeastZero(v.height) == AtLeastZero(w.height) && x == y
  {
    hide Itoa;
    NumbersDecode(AtLeastZero(v.width), AtLeastZero(w.width), 'x', Itoa(AtLeastZero(v.height)) + ['|'] + x, Itoa(AtLeastZero(w.height)) + ['|'] + y);
    NumbersDecode(AtLeastZero(v.height), AtLeastZero(w.height), '|', x, y);
  }

  lemma PansDecode(v: View, w: View, x: string, y: string)
    requires Itoa(v.panX) + [','] + (Itoa(v.panY) + ['|'] + x) == Itoa(w.panX) + [','] + (Itoa(w.panY) + ['|'] + y)
    ensures v.panX == w.panX && v.panY == w.panY && x == y
  {
    hide Itoa;
    NumbersDecode(v.panX, w.panX, ',', Itoa(v.panY) + ['|'] + x, Itoa(w.panY) + ['|'] + y);
    NumbersDecode(v.panY, w.panY, '|', x, y);
  }

  lemma NumbersDecode(a: int, b: int, c: char, x: string, y: string)
    requires !IsDigit(c) && c != '-' && Itoa(a) + [c] + x == Itoa(b) + [c] + y
    ensures a == b && x == y
  {
    hide Itoa;
    ItoaHasNone(a, c);
    ItoaHasNone(b, c);
    FirstSeparator(Itoa(a), Itoa(b), c, x, y);
    ItoaInjective(a, b);
  }

  lemma ModelsDecode(m: Model, n: Model)
    requires Clean(m) && Clean(n) && ModelText(m) == ModelText(n)
    ensures SameNodeLists(m.nodes, n.nodes) && m.edges == n.edges
  {
    hide NodesText, EdgesText;
    NodesDecode(m.nodes, n.nodes, EdgesText(m.edges), EdgesText(n.edges));
    EdgesDecode(m.edges, n.edges);
  }

  // ---------------------------------------------------------------- the plan a key stands for

  /** graphBounds: the drawing area, less the inspector panel where there is room for one. */
  function GraphBounds(width: int, height: int): Rect {
    if width < 112 || height < 18 then Rect(0, 0, width, height)
    else
      var third := if width / 3 > 38 then width / 3 else 38;
      var panel := if third < 44 then third else 44;
      Rect(0, 0, if width - panel - 1 > 56 then width - panel - 1 else 56, height)
  }

  function NodeRect(n: Node, pane: Rect, v: View): Rect {
    Rect(pane.x + n.x + v.panX, pane.y + n.y + v.panY,
         if n.typ == "external" then 18 else 16, if n.typ == "external" then 5 else 4)
  }

  /** layoutNodeRectsWithPan: later nodes replace earlier ones of the same key. */
  function Layout(nodes: seq<Node>, pane: Rect, v: View): NodeRects {
    if nodes == [] then map[]
    else
      var n := nodes[|nodes| - 1];
      Layout(nodes[..|nodes| - 1], pane, v)[n.typ + ":" + n.id := NodeRect(n, pane, v)]
  }

  function PaneOf(v: View): Rect {
    GraphBounds(AtLeastZero(v.width), AtLeastZero(v.height))
  }

  /** visibleNodeRects lists the visible rectangles in whatever order the map is iterated. */
  ghost predicate ListsVisible(listed: seq<Rect>, rects: NodeRects, pane: Rect) {
    forall r :: r in listed <==> exists key :: key in rects && rects[key] == r && Intersects(r, pane)
  }

  /** planRenderRoutes for one such listing. */
  function PlanFor(m: Model, v: View, listed: seq<Rect>): seq<Visible> {
    var pane := PaneOf(v);
    PlanAll(pane, listed, Layout(m.nodes, pane, v), m.edges).visible
  }

  lemma {:induction false} SameLayout(a: seq<Node>, b: seq<Node>, pane: Rect, v: View, w: View)
    requires SameNodeLists(a, b) && v.panX == w.panX && v.panY == w.panY
    ensures Layout(a, pane, v) == Layout(b, pane, w)
  {
    if a != [] {
      SameLayout(a[..|a| - 1], b[..|b| - 1], pane, v, w);
      assert SameNode(a[|a| - 1], b[|b| - 1]);
    }
  }

  /** Equal keys mean equal planned routes, whatever order the node rectangles are iterated in. */
  lemma EqualKeysEqualPlans(m: Model, v: View, n: Model, w: View, a: seq<Rect>, b: seq<Rect>)
    requires Clean(m) && Clean(n) && CacheKey(m, v) == CacheKey(n, w)
    requires ListsVisible(a, Layout(m.nodes, PaneOf(v), v), PaneOf(v))
    requires ListsVisible(b, Layout(n.nodes, PaneOf(w), w), PaneOf(w))
    ensures PlanFor(m, v, a) == PlanFor(n, w, b)
  {
    hide CacheKey, Layout, Intersects, PlanEdges, Clean;
    KeyDecodes(m, v, n, w);
    var pane := PaneOf(v);
    SameLayout(m.nodes, n.nodes, pane, v, w);
    var rects := Layout(m.nodes, pane, v);
    assert SameRects(a, b);
    NodeOrderDoesNotMatter(pane, a, b, rects, StableSort(m.edges, EdgeBefore(rects)));
  }

  // ---------------------------------------------------------------- the cache

  class Cache {
    var key: string
    var routes: seq<Visible>
    ghost var model: Model
    ghost var view: View
    ghost var listed: seq<Rect>

    /** What is cached is the plan of some drawing with this key. */
    ghost predicate Coherent()
      reads this
    {
      key != "" ==>
        && Clean(model) && key == CacheKey(model, view)
        && ListsVisible(listed, Layout(model.nodes, PaneOf(view), view), PaneOf(view))
        && routes == PlanFor(model, view, listed)
    }

    constructor ()
      ensures key == ""
    {
      key, routes := "", [];
    }

    /** render's lookup without its move and pan reuse: the routes are those planned afresh, in any iteration order. */
    method Routes(m: Model, v: View, order: seq<Rect>) returns (found: seq<Visible>)
      requires Coherent() && Clean(m)
      requires ListsVisible(order, Layout(m.nodes, PaneOf(v), v), PaneOf(v))
      modifies this
      ensures Coherent() && found == PlanFor(m, v, order)
    {
      hide CacheKey, Layout, Clean, ListsVisible, PlanAll;
      var wanted := CacheKey(m, v);
      if wanted != key {
        var pane := PaneOf(v);
        var planner := new Planner(pane, order);
        var planned := planner.PlanVisibleRoutes(m.edges, Layout(m.nodes, pane, v));
        key, routes := wanted, planned;
        model, view, listed := m, v, order;
      } else {
        KeyIsNotEmpty(m, v);
        EqualKeysEqualPlans(model, view, m, v, listed, order);
      }
      return routes;
    }
  }

  lemma KeyIsNotEmpty(m: Model, v: View)
    ensures CacheKey(m, v) != ""
  {
  }
}
