/** Planning all visible routes one after the other, each reserving its cells before the next is planned. */
module RoutePlanner {
  import opened Numerals
  import opened RouteGrid
  import opened RouteSearch
  import opened RoutePorts

  datatype Edge = Edge(from: string, to: string)

  /** A planned route; strict means it was planned around everything reserved before. */
  datatype Visible = Visible(edge: Edge, route: Route, strict: bool)

  type NodeRects = map<string, Rect>

  function RectOf(rects: NodeRects, key: string): Rect {
    if key in rects then rects[key] else Rect(0, 0, 0, 0)
  }

  predicate Intersects(r: Rect, bounds: Rect) {
    && r.w > 0 && r.h > 0 && bounds.w > 0 && bounds.h > 0
    && r.x < bounds.x + bounds.w && r.x + r.w > bounds.x && r.y < bounds.y + bounds.h && r.y + r.h > bounds.y
  }

  predicate WorkloadKey(key: string) {
    (|key| >= 3 && key[..3] == "vm:") || (|key| >= 10 && key[..10] == "container:")
  }

  function Min(a: int, b: int): int {
    if a < b then a else b
  }

  /** edgeRoutePriority. */
  function Priority(edge: Edge, rects: NodeRects): int {
    var from, to := RectOf(rects, edge.from), RectOf(rects, edge.to);
    var fx, fy, tx, ty := from.x + Half(from.w), from.y + Half(from.h), to.x + Half(to.w), to.y + Half(to.h);
    (if WorkloadKey(edge.from) && WorkloadKey(edge.to) then 100000000 else 0)
    + Min(fy, ty) * 10000 + Abs(fy - ty) * 100 + Abs(fx - tx)
  }

  function EdgeBefore(rects: NodeRects): (Edge, Edge) -> bool {
    (a: Edge, b: Edge) => Priority(a, rects) < Priority(b, rects)
  }

  // ---------------------------------------------------------------- routes that leave the view

  function Clamp(v: int, low: int, high: int): int {
    if v < low then low else if v > high then high else v
  }

  function SidePort(node: Rect, other: Rect): Port {
    var y := Clamp(other.y + Half(other.h), node.y + 1, node.y + node.h - 2);
    if other.x + Half(other.w) >= node.x + Half(node.w) then
      Port(Point(node.x + node.w - 1, y), Point(node.x + node.w, y), RightSide, 0)
    else
      Port(Point(node.x, y), Point(node.x - 1, y), LeftSide, 0)
  }

  function BoundaryPoint(p: Point, d: Dir, bounds: Rect): Point {
    match d
    case Left => Point(bounds.x, p.y)
    case Right => Point(bounds.x + bounds.w - 1, p.y)
    case Up => Point(p.x, bounds.y)
    case Down => Point(p.x, bounds.y + bounds.h - 1)
  }

  function Reversed(cells: seq<Point>): seq<Point> {
    seq(|cells|, i requires 0 <= i < |cells| => cells[|cells| - 1 - i])
  }

  /** reverseRoutePoints, in place. */
  method ReverseRoutePoints(points: array<Point>)
    modifies points
    ensures points[..] == Reversed(old(points[..]))
  {
    var left, right := 0, points.Length - 1;
    while left < right
      invariant 0 <= left <= points.Length && right == points.Length - 1 - left
      invariant forall k | 0 <= k < points.Length ::
        points[k] == if left <= k <= right then old(points[k]) else old(points[points.Length - 1 - k])
    {
      points[left], points[right] := points[right], points[left];
      left, right := left + 1, right - 1;
    }
    assert points[..] == Reversed(old(points[..]));
  }

  function PlanPartial(f: Field, from: Rect, to: Rect, fromVisible: bool, toVisible: bool): Option<Route> {
    if fromVisible == toVisible then None
    else
      var visible, hidden := if toVisible then to else from, if toVisible then from else to;
      var start := SidePort(visible, hidden);
      var dir := ExitDir(start);
      if dir.None? then None
      else
        var end := BoundaryPoint(start.entry, dir.value, f.bounds);
        var cells := PathCells([start.entry, end]);
        if end == start.entry || cells.None? || !Clear(f, cells.value, true) then None
        else
          var far := Port(end, end, LeftSide, 0);
          Some(if toVisible then Route(Reversed(cells.value), far, start, 0, 0) else Route(cells.value, start, far, 0, 0))
  }

  // ---------------------------------------------------------------- one edge after the other

  datatype Plan = Plan(visible: seq<Visible>, occupied: Occupied, usage: map<string, nat>)

  function UsageOf(p: Plan, key: string): nat {
    if key in p.usage then p.usage[key] else 0
  }

  /** The route chosen for an edge whose ends are both visible, and whether it was planned strictly. */
  function ChooseRoute(f: Field, edge: Edge, from: Rect, to: Rect, used: nat): Option<(Route, bool)> {
    var strict := PlanRoute(f, from, to, false);
    var relaxed := PlanRoute(f, from, to, true);
    if WorkloadKey(edge.from) && WorkloadKey(edge.to) && relaxed.Some?
       && (strict.None? || (used > 0 && |relaxed.value.cells| < |strict.value.cells|)) then Some((relaxed.value, false))
    else if strict.Some? then Some((strict.value, true))
    else None
  }

  function RouteEdge(f: Field, rects: NodeRects, edge: Edge, used: nat): Option<(Route, bool)> {
    if edge.from !in rects || edge.to !in rects then None
    else
      var from, to := rects[edge.from], rects[edge.to];
      var fromVisible, toVisible := Intersects(from, f.bounds), Intersects(to, f.bounds);
      if !fromVisible || !toVisible then
        match PlanPartial(f, from, to, fromVisible, toVisible) case None => None case Some(r) => Some((r, false))
      else ChooseRoute(f, edge, from, to, used)
  }

  predicate CountsUsage(bounds: Rect, rects: NodeRects, edge: Edge) {
    && WorkloadKey(edge.from) && WorkloadKey(edge.to)
    && Intersects(RectOf(rects, edge.from), bounds) && Intersects(RectOf(rects, edge.to), bounds)
  }

  function PlanEdge(bounds: Rect, nodes: seq<Rect>, rects: NodeRects, p: Plan, edge: Edge): Plan {
    var chosen := RouteEdge(Field(bounds, nodes, p.occupied), rects, edge, UsageOf(p, edge.from));
    if chosen.None? then p
    else
      Plan(p.visible + [Visible(edge, chosen.value.0, chosen.value.1)], Reserved(p.occupied, chosen.value.0.cells),
           if CountsUsage(bounds, rects, edge) then p.usage[edge.from := UsageOf(p, edge.from) + 1] else p.usage)
  }

  function PlanEdges(bounds: Rect, nodes: seq<Rect>, rects: NodeRects, edges: seq<Edge>): Plan {
    if edges == [] then Plan([], map[], map[])
    else PlanEdge(bounds, nodes, rects, PlanEdges(bounds, nodes, rects, edges[..|edges| - 1]), edges[|edges| - 1])
  }

  function PlanAll(bounds: Rect, nodes: seq<Rect>, rects: NodeRects, edges: seq<Edge>): Plan {
    PlanEdges(bounds, nodes, rects, StableSort(edges, EdgeBefore(rects)))
  }

  class Planner {
    const bounds: Rect
    const nodes: seq<Rect>
    var occupied: Occupied

    constructor (bounds: Rect, nodes: seq<Rect>)
      ensures this.bounds == bounds && this.nodes == nodes && occupied == map[]
    {
      this.bounds, this.nodes, occupied := bounds, nodes, map[];
    }

    function View(): Field
      reads this
    {
      Field(bounds, nodes, occupied)
    }

    method Reserve(cells: seq<Point>)
      modifies this
      ensures occupied == Reserved(old(occupied), cells)
    {
      if |cells| < 2 {
        return;
      }
      assert cells[..1] == [cells[0]];
      for i := 1 to |cells|
        invariant occupied == Reserved(old(occupied), cells[..i])
      {
        assert cells[..i + 1][..i] == cells[..i];
        var a, b := cells[i - 1], cells[i];
        occupied := AddMask(occupied, a, MaskBetween(a, b));
        occupied := AddMask(occupied, b, MaskBetween(b, a));
      }
      assert cells[..|cells|] == cells;
    }

    /** A route between two visible nodes; between workloads occupied cells may be crossed. */
    method ChooseVisible(edge: Edge, from: Rect, to: Rect, used: nat) returns (chosen: Option<(Route, bool)>)
      ensures chosen == ChooseRoute(View(), edge, from, to, used)
    {
      hide PlanRoute;
      var route := PlanRouteWithOptions(View(), from, to, false);
      var strict := true;
      if WorkloadKey(edge.from) && WorkloadKey(edge.to) {
        var relaxed := PlanRouteWithOptions(View(), from, to, true);
        if route.None? && relaxed.Some? {
          route, strict := relaxed, false;
        } else if route.Some? && used > 0 && relaxed.Some? && |relaxed.value.cells| < |route.value.cells| {
          route, strict := relaxed, false;
        }
      }
      if route.None? {
        return None;
      }
      return Some((route.value, strict));
    }

    /** The loop body of planVisibleRoutes up to the reservation. */
    method PlanOne(edge: Edge, rects: NodeRects, used: nat) returns (chosen: Option<(Route, bool)>)
      ensures chosen == RouteEdge(View(), rects, edge, used)
    {
      hide PlanPartial, ChooseRoute;
      if edge.from !in rects || edge.to !in rects {
        return None;
      }
      var from, to := rects[edge.from], rects[edge.to];
      var fromVisible, toVisible := Intersects(from, bounds), Intersects(to, bounds);
      if !fromVisible || !toVisible {
        var partial := PlanPartial(View(), from, to, fromVisible, toVisible);
        if partial.None? {
          return None;
        }
        return Some((partial.value, false));
      }
      chosen := ChooseVisible(edge, from, to, used);
    }

    /** planVisibleRoutes. */
    method PlanVisibleRoutes(edges: seq<Edge>, rects: NodeRects) returns (visible: seq<Visible>)
      requires occupied == map[]
      modifies this
      ensures var plan := PlanAll(bounds, nodes, rects, edges); visible == plan.visible && occupied == plan.occupied
    {
      hide RouteEdge, Reserved, CountsUsage;
      var ordered := StableSort(edges, EdgeBefore(rects));
      visible := [];
      var usage: map<string, nat> := map[];
      for i := 0 to |ordered|
        invariant Plan(visible, occupied, usage) == PlanEdges(bounds, nodes, rects, ordered[..i])
      {
        assert ordered[..i + 1][..i] == ordered[..i];
        var edge := ordered[i];
        var used := if edge.from in usage then usage[edge.from] else 0;
        var chosen := PlanOne(edge, rects, used);
        if chosen.None? {
          continue;
        }
        Reserve(chosen.value.0.cells);
        if CountsUsage(bounds, rects, edge) {
          usage := usage[edge.from := used + 1];
        }
        visible := visible + [Visible(edge, chosen.value.0, chosen.value.1)];
      }
      assert ordered[..|ordered|] == ordered;
    }
  }

  // ---------------------------------------------------------------- guarantees

  /** Unit steps inside the bounds and outside every node. */
  predicate Sound(bounds: Rect, nodes: seq<Rect>, cells: seq<Point>) {
    |cells| >= 1 && Chain(cells) && forall i | 0 <= i < |cells| :: InRect(cells[i], bounds) && !InSomeNode(nodes, cells[i])
  }

  predicate Free(occupied: Occupied, cells: seq<Point>) {
    forall i | 0 <= i < |cells| :: MaskAt(occupied, cells[i]) == {}
  }

  lemma ClearIsSound(f: Field, cells: seq<Point>, relaxed: bool)
    requires |cells| >= 1 && Chain(cells) && Clear(f, cells, relaxed)
    ensures Sound(f.bounds, f.nodes, cells) && (!relaxed ==> Free(f.occupied, cells))
  {
    hide InSomeNode, Chain;
  }

  lemma PartialIsSound(f: Field, from: Rect, to: Rect, fromVisible: bool, toVisible: bool)
    requires PlanPartial(f, from, to, fromVisible, toVisible).Some?
    ensures Sound(f.bounds, f.nodes, PlanPartial(f, from, to, fromVisible, toVisible).value.cells)
  {
    hide Clear, Chain, PathCells, SidePort;
    var visible, hidden := if toVisible then to else from, if toVisible then from else to;
    var start := SidePort(visible, hidden);
    var end := BoundaryPoint(start.entry, ExitDir(start).value, f.bounds);
    var cells := PathCells([start.entry, end]).value;
    PathIsChain([start.entry, end]);
    ClearIsSound(f, cells, true);
    ReversedIsSound(f.bounds, f.nodes, cells);
  }

  lemma ReversedIsSound(bounds: Rect, nodes: seq<Rect>, cells: seq<Point>)
    requires Sound(bounds, nodes, cells)
    ensures Sound(bounds, nodes, Reversed(cells))
  {
    hide InSomeNode, Chain;
    ReversedChain(cells, Reversed(cells));
  }

  lemma ChosenIsSound(f: Field, rects: NodeRects, edge: Edge, used: nat)
    requires RouteEdge(f, rects, edge, used).Some?
    ensures var chosen := RouteEdge(f, rects, edge, used).value;
      Sound(f.bounds, f.nodes, chosen.0.cells) && (chosen.1 ==> Free(f.occupied, chosen.0.cells))
  {
    hide PlanRoute, PlanPartial, Sound, Free, Clear, Chain, Intersects;
    var from, to := rects[edge.from], rects[edge.to];
    var fromVisible, toVisible := Intersects(from, f.bounds), Intersects(to, f.bounds);
    if !fromVisible || !toVisible {
      PartialIsSound(f, from, to, fromVisible, toVisible);
    } else {
      forall relaxed | PlanRoute(f, from, to, relaxed).Some?
        ensures var cells := PlanRoute(f, from, to, relaxed).value.cells;
          Sound(f.bounds, f.nodes, cells) && (!relaxed ==> Free(f.occupied, cells))
      {
        PlanIsGood(f, from, to, relaxed);
        ClearIsSound(f, PlanRoute(f, from, to, relaxed).value.cells, relaxed);
      }
    }
  }

  predicate Meets(a: seq<Point>, b: seq<Point>) {
    exists i, j :: 0 <= i < |a| && 0 <= j < |b| && a[i] == b[j]
  }

  ghost predicate Occupies(occupied: Occupied, cells: seq<Point>) {
    forall i | 0 <= i < |cells| :: MaskAt(occupied, cells[i]) != {}
  }

  ghost predicate GoodPlan(bounds: Rect, nodes: seq<Rect>, p: Plan) {
    && (forall i | 0 <= i < |p.visible| :: Sound(bounds, nodes, p.visible[i].route.cells))
    && (forall i, j | 0 <= i < j < |p.visible| && p.visible[j].strict && |p.visible[i].route.cells| >= 2 ::
          !Meets(p.visible[i].route.cells, p.visible[j].route.cells))
    && (forall i | 0 <= i < |p.visible| && |p.visible[i].route.cells| >= 2 :: Occupies(p.occupied, p.visible[i].route.cells))
    && Symmetric(p.occupied)
  }

  lemma FreeDoesNotMeet(occupied: Occupied, a: seq<Point>, b: seq<Point>)
    requires Occupies(occupied, a) && Free(occupied, b)
    ensures !Meets(a, b)
  {
  }

  lemma StillOccupies(occupied: Occupied, a: seq<Point>, b: seq<Point>)
    requires Chain(b)
    ensures Occupies(occupied, a) ==> Occupies(Reserved(occupied, b), a)
    ensures |b| >= 2 ==> Occupies(Reserved(occupied, b), b)
  {
    hide Reserved, Chain;
    ReservedCells(occupied, b);
  }

  lemma GoodOneMore(bounds: Rect, nodes: seq<Rect>, rects: NodeRects, p: Plan, edge: Edge)
    requires GoodPlan(bounds, nodes, p)
    ensures GoodPlan(bounds, nodes, PlanEdge(bounds, nodes, rects, p, edge))
  {
    hide Sound, Free, Occupies, Meets, Symmetric, Reserved, RouteEdge, CountsUsage;
    var f := Field(bounds, nodes, p.occupied);
    var chosen := RouteEdge(f, rects, edge, UsageOf(p, edge.from));
    if chosen.Some? {
      var cells := chosen.value.0.cells;
      var m := PlanEdge(bounds, nodes, rects, p, edge);
      ChosenIsSound(f, rects, edge, UsageOf(p, edge.from));
      assert Chain(cells) by { SoundIsChain(bounds, nodes, cells); }
      ReservingKeepsSymmetry(p.occupied, cells);
      StillOccupies(p.occupied, cells, cells);
      forall i | 0 <= i < |p.visible| && |p.visible[i].route.cells| >= 2
        ensures Occupies(m.occupied, p.visible[i].route.cells)
        ensures chosen.value.1 ==> !Meets(p.visible[i].route.cells, cells)
      {
        StillOccupies(p.occupied, p.visible[i].route.cells, cells);
        if chosen.value.1 { FreeDoesNotMeet(p.occupied, p.visible[i].route.cells, cells); }
      }
      assert forall i | 0 <= i < |p.visible| :: m.visible[i] == p.visible[i];
    }
  }

  lemma SoundIsChain(bounds: Rect, nodes: seq<Rect>, cells: seq<Point>)
    requires Sound(bounds, nodes, cells)
    ensures Chain(cells)
  {
  }

  lemma {:induction false} PlanEdgesIsGood(bounds: Rect, nodes: seq<Rect>, rects: NodeRects, edges: seq<Edge>)
    ensures GoodPlan(bounds, nodes, PlanEdges(bounds, nodes, rects, edges))
  {
    hide GoodPlan, PlanEdge;
    if edges == [] {
      EmptyPlanIsGood(bounds, nodes);
    } else {
      PlanEdgesIsGood(bounds, nodes, rects, edges[..|edges| - 1]);
      GoodOneMore(bounds, nodes, rects, PlanEdges(bounds, nodes, rects, edges[..|edges| - 1]), edges[|edges| - 1]);
    }
  }

  lemma EmptyPlanIsGood(bounds: Rect, nodes: seq<Rect>)
    ensures GoodPlan(bounds, nodes, Plan([], map[], map[]))
  {
  }

  /**
   Every planned route is a chain of unit steps inside the bounds and outside every visible node; a
   strictly planned route shares no cell with any earlier route of two or more cells; and the masks left
   behind are symmetric.
   */
  lemma PlanIsSound(bounds: Rect, nodes: seq<Rect>, rects: NodeRects, edges: seq<Edge>)
    ensures GoodPlan(bounds, nodes, PlanAll(bounds, nodes, rects, edges))
  {
    PlanEdgesIsGood(bounds, nodes, rects, StableSort(edges, EdgeBefore(rects)));
  }

  // ---------------------------------------------------------------- the order of nodes

  ghost predicate SameRects(a: seq<Rect>, b: seq<Rect>) {
    forall r :: r in a <==> r in b
  }

  lemma SameRouteEdge(f: Field, g: Field, rects: NodeRects, edge: Edge, used: nat)
    requires SameNodes(f, g)
    ensures RouteEdge(f, rects, edge, used) == RouteEdge(g, rects, edge, used)
  {
    hide BestRoute, PairsBetween, SameNodes, Clear, PathCells, SidePort;
    SameFields(f, g);
    forall pairs, relaxed
      ensures BestRoute(f, pairs, relaxed) == BestRoute(g, pairs, relaxed)
    {
      SameBestRoute(f, g, pairs, relaxed);
    }
    forall cells, relaxed
      ensures Clear(f, cells, relaxed) == Clear(g, cells, relaxed)
    {
      SameClear(f, g, cells, relaxed);
    }
  }

  lemma SameClear(f: Field, g: Field, cells: seq<Point>, relaxed: bool)
    requires SameNodes(f, g)
    ensures Clear(f, cells, relaxed) == Clear(g, cells, relaxed)
  {
    hide InSomeNode, SameNodes;
    SameFields(f, g);
    forall p ensures InSomeNode(f.nodes, p) == InSomeNode(g.nodes, p) { SameBlocks(f, g, p); }
  }

  /** The plan does not depend on the order in which the node rectangles are listed. */
  lemma {:induction false} NodeOrderDoesNotMatter(bounds: Rect, a: seq<Rect>, b: seq<Rect>, rects: NodeRects, edges: seq<Edge>)
    requires SameRects(a, b)
    ensures PlanEdges(bounds, a, rects, edges) == PlanEdges(bounds, b, rects, edges)
  {
    hide RouteEdge, Reserved;
    if edges != [] {
      NodeOrderDoesNotMatter(bounds, a, b, rects, edges[..|edges| - 1]);
      var p := PlanEdges(bounds, a, rects, edges[..|edges| - 1]);
      var edge := edges[|edges| - 1];
      SameRouteEdge(Field(bounds, a, p.occupied), Field(bounds, b, p.occupied), rects, edge, UsageOf(p, edge.from));
    }
  }
}
