/**
 Which edges are drawn and along which route, said without the planner's own functions: by what clear paths there are
 between the candidate ports of two nodes, and from what was drawn before.
 */
module RouteChoice {
  import opened Numerals
  import opened RouteGrid
  import opened RouteSearch
  import opened RoutePorts
  import opened RoutePlanner
  import opened RouteShapes

  // ---------------------------------------------------------------- the routes there are

  function EndsBetween(s: Port, t: Port): Ends {
    Ends(s.entry, t.entry, DirBetween(s.border, s.entry), match DirBetween(t.border, t.entry) case None => None case Some(d) => Some(Opposite(d)))
  }

  /** A clear path between two candidate ports through one of the waypoint sets, with its cost and that of the ports. */
  predicate Connects(f: Field, from: Rect, to: Rect, relaxed: bool, r: Route, w: seq<Point>) {
    var e := EndsBetween(r.start, r.end);
    var path := Candidate(f, w, e, relaxed);
    && r.start in PortCandidates(from, to, f.bounds) && r.end in PortCandidates(to, from, f.bounds)
    && w in Waypoints(e) && path.Some? && path.value.cells == r.cells
    && r.pairScore == r.start.rank + r.end.rank + Manhattan(r.start.entry, r.end.entry) && r.cost == path.value.cost + r.pairScore
  }

  ghost predicate Offers(f: Field, from: Rect, to: Rect, relaxed: bool, r: Route) {
    && from.w >= 2 && from.h >= 2 && to.w >= 2 && to.h >= 2
    && exists w :: Connects(f, from, to, relaxed, r, w)
  }

  /** Cheaper; or as cheap and shorter; or from better ports; or starting higher up, or further left. */
  predicate Better(a: Route, b: Route)
    requires a.cells != [] && b.cells != []
  {
    if a.cost != b.cost then a.cost < b.cost
    else if |a.cells| != |b.cells| then |a.cells| < |b.cells|
    else if a.pairScore != b.pairScore then a.pairScore < b.pairScore
    else if a.cells[0].y != b.cells[0].y then a.cells[0].y < b.cells[0].y
    else a.cells[0].x < b.cells[0].x
  }

  /** One of the routes there are, with none better. */
  ghost predicate IsBest(f: Field, from: Rect, to: Rect, relaxed: bool, r: Route) {
    && Offers(f, from, to, relaxed, r) && r.cells != []
    && forall q | Offers(f, from, to, relaxed, q) :: q.cells != [] && !Better(q, r)
  }

  // ---------------------------------------------------------------- the search finds a best one

  /** Among the paths of one pair none is cheaper, and none as cheap is shorter. */
  lemma {:induction false} BestOfIsShortest(f: Field, sets: seq<seq<Point>>, e: Ends, relaxed: bool, w: seq<Point>)
    requires w in sets && Candidate(f, w, e, relaxed).Some?
    ensures var best := BestOf(f, sets, e, relaxed); var p := Candidate(f, w, e, relaxed).value;
      best.Some? && (best.value.cost < p.cost || (best.value.cost == p.cost && |best.value.cells| <= |p.cells|))
  {
    hide Candidate;
    assert sets == sets[..|sets| - 1] + [sets[|sets| - 1]];
    if w in sets[..|sets| - 1] { BestOfIsShortest(f, sets[..|sets| - 1], e, relaxed, w); }
  }

  predicate Along(f: Field, pairs: seq<Pair>, relaxed: bool, p: Pair) {
    p in pairs && RouteFor(f, p, relaxed).Some?
  }

  lemma RoutesHaveCells(f: Field, p: Pair, relaxed: bool)
    requires RouteFor(f, p, relaxed).Some?
    ensures var r := RouteFor(f, p, relaxed).value;
      r.cells != [] && r.pairScore == p.score && r.start == p.start && r.end == p.end && r.cells[0] == p.start.entry
  {
    hide BestPath, Clear, Chain;
    BestPathIsClear(f, EndsOf(p), relaxed);
  }

  lemma {:induction false} BestRouteIsBest(f: Field, pairs: seq<Pair>, relaxed: bool)
    ensures var best := BestRoute(f, pairs, relaxed);
      && (best.None? ==> forall p :: !Along(f, pairs, relaxed, p))
      && (best.Some? ==> best.value.cells != [] && exists p :: Along(f, pairs, relaxed, p) && RouteFor(f, p, relaxed) == best)
      && (forall p | Along(f, pairs, relaxed, p) :: best.Some? && RouteFor(f, p, relaxed).value.cells != [] && !Better(RouteFor(f, p, relaxed).value, best.value))
  {
    hide RouteFor, Better, TieBreak;
    if pairs != [] {
      var init, last := pairs[..|pairs| - 1], pairs[|pairs| - 1];
      BestRouteIsBest(f, init, relaxed);
      assert pairs == init + [last];
      var before, r := BestRoute(f, init, relaxed), RouteFor(f, last, relaxed);
      if r.Some? {
        RoutesHaveCells(f, last, relaxed);
        if before.Some? { ChosenIsBetter(r.value, before.value, last); }
      }
      forall p | Along(f, pairs, relaxed, p)
        ensures RouteFor(f, p, relaxed).value.cells != []
        ensures BestRoute(f, pairs, relaxed).Some? && !Better(RouteFor(f, p, relaxed).value, BestRoute(f, pairs, relaxed).value)
      {
        RoutesHaveCells(f, p, relaxed);
        if p in init {
          assert Along(f, init, relaxed, p);
          if r.Some? { BetterIsTransitive(RouteFor(f, p, relaxed).value, before.value, r.value); }
        } else {
          NotBetterThanItself(r.value);
        }
      }
      if BestRoute(f, pairs, relaxed) == r && r.Some? {
        assert Along(f, pairs, relaxed, last);
      } else if before.Some? {
        var p :| Along(f, init, relaxed, p) && RouteFor(f, p, relaxed) == before;
        assert Along(f, pairs, relaxed, p);
      }
    }
  }

  lemma NotBetterThanItself(r: Route)
    requires r.cells != []
    ensures !Better(r, r)
  {
  }

  /** What replaces the best so far is better than it; what does not is not. */
  lemma ChosenIsBetter(r: Route, best: Route, p: Pair)
    requires r.cells != [] && best.cells != [] && r.pairScore == p.score
    ensures r.cost < best.cost || (r.cost == best.cost && TieBreak(r.cells, p, best)) <==> Better(r, best)
  {
  }

  lemma BetterIsTransitive(a: Route, b: Route, c: Route)
    requires a.cells != [] && b.cells != [] && c.cells != []
    ensures !Better(a, b) && Better(c, b) ==> !Better(a, c)
  {
  }

  lemma RouteForConnects(f: Field, from: Rect, to: Rect, p: Pair, relaxed: bool)
    requires p in PairsBetween(from, to, f.bounds) && RouteFor(f, p, relaxed).Some?
    ensures exists w :: Connects(f, from, to, relaxed, RouteFor(f, p, relaxed).value, w)
  {
    hide PortCandidates, Waypoints, Candidate, AllPairs, StableSort;
    var e := EndsOf(p);
    BestOfIsCheapest(f, Waypoints(e), e, relaxed);
    SortHas(AllPairs(PortCandidates(from, to, f.bounds), PortCandidates(to, from, f.bounds)), PairBefore, p);
    ScoresOfAll(PortCandidates(from, to, f.bounds), PortCandidates(to, from, f.bounds), p);
    var w :| w in Waypoints(e) && Candidate(f, w, e, relaxed) == BestPath(f, e, relaxed);
    assert Connects(f, from, to, relaxed, RouteFor(f, p, relaxed).value, w);
  }

  /** Any route there is comes from a pair whose own route is no worse. */
  lemma ConnectedIsNoBetter(f: Field, from: Rect, to: Rect, relaxed: bool, q: Route, w: seq<Point>)
    requires Connects(f, from, to, relaxed, q, w)
    ensures var p := PairOf(q.start, q.end);
      && Along(f, PairsBetween(from, to, f.bounds), relaxed, p)
      && q.cells != [] && RouteFor(f, p, relaxed).value.cells != [] && !Better(q, RouteFor(f, p, relaxed).value)
  {
    hide PortCandidates, Waypoints, PathCost, Clear, PathCells, RankedPairs, Chain;
    var p := PairOf(q.start, q.end);
    var e := EndsBetween(q.start, q.end);
    PairIsRanked(from, to, f.bounds, q.start, q.end);
    assert EndsOf(p) == e;
    BestOfIsShortest(f, Waypoints(e), e, relaxed, w);
    PathIsChain(w);
    WaypointEnds(e, w);
    RoutesHaveCells(f, p, relaxed);
  }

  /** A route is found exactly if there is one, and then none is better. */
  lemma FindsBest(f: Field, from: Rect, to: Rect, relaxed: bool)
    ensures var r := PlanRoute(f, from, to, relaxed);
      if r.None? then forall q :: !Offers(f, from, to, relaxed, q) else IsBest(f, from, to, relaxed, r.value)
  {
    hide PairsBetween, BestRoute, RouteFor, Better, Connects;
    if from.w >= 2 && from.h >= 2 && to.w >= 2 && to.h >= 2 {
      var pairs := PairsBetween(from, to, f.bounds);
      var best := BestRoute(f, pairs, relaxed);
      BestRouteIsBest(f, pairs, relaxed);
      if best.Some? {
        var p :| Along(f, pairs, relaxed, p) && RouteFor(f, p, relaxed) == best;
        RouteForConnects(f, from, to, p, relaxed);
      }
      forall q | Offers(f, from, to, relaxed, q)
        ensures best.Some? && q.cells != [] && !Better(q, best.value)
      {
        var w :| Connects(f, from, to, relaxed, q, w);
        ConnectedIsNoBetter(f, from, to, relaxed, q, w);
        var r := RouteFor(f, PairOf(q.start, q.end), relaxed).value;
        WorseThanBest(q, r, best.value);
      }
    }
  }

  lemma WorseThanBest(a: Route, b: Route, c: Route)
    requires a.cells != [] && b.cells != [] && c.cells != []
    ensures !Better(a, b) && !Better(b, c) ==> !Better(a, c)
  {
  }

  lemma BestsAreAlike(f: Field, from: Rect, to: Rect, relaxed: bool, a: Route, b: Route)
    requires IsBest(f, from, to, relaxed, a) && IsBest(f, from, to, relaxed, b)
    ensures a.cost == b.cost && |a.cells| == |b.cells|
  {
    hide Offers;
  }

  // ---------------------------------------------------------------- both ends in view

  /** Between two VMs or containers. */
  predicate BetweenWorkloads(edge: Edge) {
    WorkloadKey(edge.from) && WorkloadKey(edge.to)
  }

  /** Some relaxed route is best and has fewer cells than a strict one that is best. */
  ghost predicate RelaxedIsShorter(f: Field, from: Rect, to: Rect) {
    exists a, b :: IsBest(f, from, to, true, a) && IsBest(f, from, to, false, b) && |a.cells| < |b.cells|
  }

  /** Between workloads occupied cells may be crossed: where there is no other way, or for a further link of one workload that gets shorter. */
  ghost predicate MayCross(f: Field, edge: Edge, from: Rect, to: Rect, used: nat) {
    BetweenWorkloads(edge) && ((forall r :: !Offers(f, from, to, false, r)) || (used > 0 && RelaxedIsShorter(f, from, to)))
  }

  /** The route of an edge whose two ends are in view: a best one, crossing occupied cells exactly where it may. */
  ghost predicate DrawsInView(f: Field, edge: Edge, from: Rect, to: Rect, used: nat, r: Route, strict: bool) {
    IsBest(f, from, to, !strict, r) && (strict <==> !MayCross(f, edge, from, to, used))
  }

  lemma InViewExactly(f: Field, edge: Edge, from: Rect, to: Rect, used: nat)
    ensures var chosen := ChooseRoute(f, edge, from, to, used);
      && (chosen.Some? <==> exists relaxed, r :: Offers(f, from, to, relaxed, r) && (relaxed ==> BetweenWorkloads(edge)))
      && (chosen.Some? ==> DrawsInView(f, edge, from, to, used, chosen.value.0, chosen.value.1))
      && (chosen.None? ==> forall r, strict :: !DrawsInView(f, edge, from, to, used, r, strict))
  {
    hide PlanRoute, Offers, Better, WorkloadKey;
    FindsBest(f, from, to, false);
    FindsBest(f, from, to, true);
    var strict, relaxed := PlanRoute(f, from, to, false), PlanRoute(f, from, to, true);
    if strict.Some? && relaxed.Some? {
      forall a, b | IsBest(f, from, to, true, a) && IsBest(f, from, to, false, b)
        ensures |a.cells| == |relaxed.value.cells| && |b.cells| == |strict.value.cells|
      {
        BestsAreAlike(f, from, to, true, a, relaxed.value);
        BestsAreAlike(f, from, to, false, b, strict.value);
      }
    }
    BestIsOffered(f, from, to);
  }

  lemma BestIsOffered(f: Field, from: Rect, to: Rect)
    ensures forall relaxed, r | IsBest(f, from, to, relaxed, r) :: Offers(f, from, to, relaxed, r)
  {
  }

  // ---------------------------------------------------------------- one end in view

  /** In view: at least one cell of the node is. */
  lemma InViewMeansACell(r: Rect, bounds: Rect)
    ensures Intersects(r, bounds) <==> exists p :: InRect(p, r) && InRect(p, bounds)
  {
    if Intersects(r, bounds) {
      var p := Point(if r.x < bounds.x then bounds.x else r.x, if r.y < bounds.y then bounds.y else r.y);
      assert InRect(p, r) && InRect(p, bounds);
    }
  }

  /** The hidden node is off to the right. */
  predicate OffRight(node: Rect, hidden: Rect) {
    hidden.x + Half(hidden.w) >= node.x + Half(node.w)
  }

  /** The row the ray leaves in: that of the hidden node's middle, or the nearest of the visible node's inner rows. */
  function RayRow(node: Rect, hidden: Rect): int {
    var middle := hidden.y + Half(hidden.h);
    if middle < node.y + 1 then node.y + 1 else if middle > node.y + node.h - 2 then node.y + node.h - 2 else middle
  }

  /** The ray from the side that faces the hidden node straight to the edge of the view. */
  function Ray(bounds: Rect, node: Rect, hidden: Rect): seq<Point> {
    var x0 := if OffRight(node, hidden) then node.x + node.w else node.x - 1;
    var x1 := if OffRight(node, hidden) then bounds.x + bounds.w - 1 else bounds.x;
    seq(Abs(x1 - x0) + 1, i requires 0 <= i <= Abs(x1 - x0) => Point(if x0 <= x1 then x0 + i else x0 - i, RayRow(node, hidden)))
  }

  /** The cells lie in the view and outside every node. */
  predicate Passable(f: Field, cells: seq<Point>) {
    forall i | 0 <= i < |cells| :: InRect(cells[i], f.bounds) && !InSomeNode(f.nodes, cells[i])
  }

  /** The same cells, forwards or backwards. */
  predicate Follows(cells: seq<Point>, ray: seq<Point>, forwards: bool) {
    |cells| == |ray| && forall i | 0 <= i < |ray| :: cells[i] == if forwards then ray[i] else ray[|ray| - 1 - i]
  }

  /** The route of an edge with one end in view: the ray, read towards `to`, where it has two cells or more and they are passable. */
  predicate DrawsPartly(f: Field, from: Rect, to: Rect, fromVisible: bool, r: Route) {
    var node, hidden := if fromVisible then from else to, if fromVisible then to else from;
    var ray := Ray(f.bounds, node, hidden);
    var near, far := if fromVisible then r.start else r.end, if fromVisible then r.end else r.start;
    && |ray| >= 2 && Passable(f, ray) && Follows(r.cells, ray, fromVisible)
    && near.entry == ray[0] && near.border == Point(if OffRight(node, hidden) then node.x + node.w - 1 else node.x, RayRow(node, hidden))
    && far.entry == ray[|ray| - 1] && far.border == ray[|ray| - 1]
  }

  lemma {:induction false} WalkInRow(p: Point, to: Point)
    requires p.y == to.y
    ensures |Walk(p, to)| == Abs(to.x - p.x)
    ensures forall i | 0 <= i < |Walk(p, to)| :: Walk(p, to)[i] == Point(if p.x <= to.x then p.x + i + 1 else p.x - i - 1, p.y)
    decreases Manhattan(p, to)
  {
    if p != to {
      var next := Toward(p, to);
      WalkInRow(next, to);
      assert forall i | 1 <= i < |Walk(p, to)| :: Walk(p, to)[i] == Walk(next, to)[i - 1];
    }
  }

  lemma RayIsPath(bounds: Rect, node: Rect, hidden: Rect)
    ensures var ray := Ray(bounds, node, hidden);
      && PathCells([ray[0], ray[|ray| - 1]]) == Some(ray)
      && ray[0] == SidePort(node, hidden).entry && ExitDir(SidePort(node, hidden)).Some?
      && ray[|ray| - 1] == BoundaryPoint(ray[0], ExitDir(SidePort(node, hidden)).value, bounds)
  {
    hide SidePort, BoundaryPoint;
    var ray := Ray(bounds, node, hidden);
    var a, b := ray[0], ray[|ray| - 1];
    RayStarts(bounds, node, hidden);
    WalkInRow(a, b);
    var cells := [a] + Walk(a, b);
    assert [a, b][..1] == [a] && PathCells([a]) == Some([a]);
    assert forall i | 1 <= i < |cells| :: cells[i] == Walk(a, b)[i - 1];
    assert cells == ray;
  }

  lemma RayStarts(bounds: Rect, node: Rect, hidden: Rect)
    ensures var ray := Ray(bounds, node, hidden); var port := SidePort(node, hidden);
      && ray[0] == port.entry && ExitDir(port) == Some(if OffRight(node, hidden) then Right else Left)
      && ray[|ray| - 1] == BoundaryPoint(ray[0], ExitDir(port).value, bounds)
  {
    hide Half;
    var ray := Ray(bounds, node, hidden);
    assert ray[0].y == RayRow(node, hidden) == ray[|ray| - 1].y;
    assert ray[0].x == if OffRight(node, hidden) then node.x + node.w else node.x - 1;
    assert ray[|ray| - 1].x == if OffRight(node, hidden) then bounds.x + bounds.w - 1 else bounds.x;
  }

  lemma PartlyExactly(f: Field, from: Rect, to: Rect, fromVisible: bool, toVisible: bool)
    ensures var r := PlanPartial(f, from, to, fromVisible, toVisible);
      && (fromVisible == toVisible ==> r.None?)
      && (fromVisible != toVisible && r.Some? ==> DrawsPartly(f, from, to, fromVisible, r.value))
      && (fromVisible != toVisible && r.None? ==> forall q :: !DrawsPartly(f, from, to, fromVisible, q))
  {
    hide Ray, InSomeNode, InRect, SidePort, PathCells, BoundaryPoint, ExitDir, Passable, Follows, Clear, Reversed;
    if fromVisible != toVisible {
      var node, hidden := if fromVisible then from else to, if fromVisible then to else from;
      var ray := Ray(f.bounds, node, hidden);
      assert |ray| >= 1 by { RayIsThere(f.bounds, node, hidden); }
      RayIsPath(f.bounds, node, hidden);
      SidePortStands(node, hidden);
      RayIsThere(f.bounds, node, hidden);
      var start := SidePort(node, hidden);
      assert [start.entry, BoundaryPoint(start.entry, ExitDir(start).value, f.bounds)] == [ray[0], ray[|ray| - 1]];
      PassableIsClear(f, ray);
    }
  }

  lemma PassableIsClear(f: Field, cells: seq<Point>)
    ensures Passable(f, cells) <==> Clear(f, cells, true)
    ensures Follows(cells, cells, true) && Follows(Reversed(cells), cells, false)
  {
    hide InRect, InSomeNode;
  }

  lemma RayIsThere(bounds: Rect, node: Rect, hidden: Rect)
    ensures var ray := Ray(bounds, node, hidden); |ray| >= 1 && (ray[0] == ray[|ray| - 1] <==> |ray| == 1)
  {
  }

  lemma SidePortStands(node: Rect, hidden: Rect)
    ensures SidePort(node, hidden).border == Point(if OffRight(node, hidden) then node.x + node.w - 1 else node.x, RayRow(node, hidden))
  {
  }

  // ---------------------------------------------------------------- one edge

  /** The edge is drawn along r: its ends both exist, and as above, depending on how many of them are in view. */
  ghost predicate Draws(f: Field, rects: NodeRects, edge: Edge, used: nat, r: Route, strict: bool) {
    && edge.from in rects && edge.to in rects
    && var from, to := rects[edge.from], rects[edge.to];
      if Intersects(from, f.bounds) && Intersects(to, f.bounds) then DrawsInView(f, edge, from, to, used, r, strict)
      else Intersects(from, f.bounds) != Intersects(to, f.bounds) && !strict && DrawsPartly(f, from, to, Intersects(from, f.bounds), r)
  }

  lemma DrawsExactly(f: Field, rects: NodeRects, edge: Edge, used: nat)
    ensures var chosen := RouteEdge(f, rects, edge, used);
      if chosen.Some? then Draws(f, rects, edge, used, chosen.value.0, chosen.value.1)
      else forall r, strict :: !Draws(f, rects, edge, used, r, strict)
  {
    hide PlanPartial, ChooseRoute, DrawsInView, DrawsPartly, Intersects;
    if edge.from in rects && edge.to in rects {
      var from, to := rects[edge.from], rects[edge.to];
      InViewExactly(f, edge, from, to, used);
      PartlyExactly(f, from, to, Intersects(from, f.bounds), Intersects(to, f.bounds));
    }
  }

  /** With both ends in view an edge is drawn exactly if there is a strict route, or between workloads a relaxed one. */
  lemma DrawnInViewExactly(f: Field, rects: NodeRects, edge: Edge, used: nat)
    requires edge.from in rects && edge.to in rects
    requires Intersects(rects[edge.from], f.bounds) && Intersects(rects[edge.to], f.bounds)
    ensures (exists r, strict :: Draws(f, rects, edge, used, r, strict))
       <==> exists relaxed, r :: Offers(f, rects[edge.from], rects[edge.to], relaxed, r) && (relaxed ==> BetweenWorkloads(edge))
  {
    hide Offers, DrawsInView, ChooseRoute, Intersects;
    var chosen := ChooseRoute(f, edge, rects[edge.from], rects[edge.to], used);
    InViewExactly(f, edge, rects[edge.from], rects[edge.to], used);
    if chosen.Some? { assert Draws(f, rects, edge, used, chosen.value.0, chosen.value.1); }
  }

  // ---------------------------------------------------------------- all edges

  /** What the routes drawn so far occupy. */
  function OccupiedBy(visible: seq<Visible>): Occupied {
    if visible == [] then map[] else Reserved(OccupiedBy(visible[..|visible| - 1]), visible[|visible| - 1].route.cells)
  }

  /** A link between two workloads that are both in view. */
  predicate LinksInView(bounds: Rect, rects: NodeRects, edge: Edge) {
    && BetweenWorkloads(edge) && edge.from in rects && edge.to in rects
    && Intersects(rects[edge.from], bounds) && Intersects(rects[edge.to], bounds)
  }

  /** How often a workload was the source of such a link. */
  function Uses(bounds: Rect, rects: NodeRects, visible: seq<Visible>, key: string): nat {
    if visible == [] then 0
    else
      var last := visible[|visible| - 1].edge;
      Uses(bounds, rects, visible[..|visible| - 1], key) + if last.from == key && LinksInView(bounds, rects, last) then 1 else 0
  }

  /** The edges taken in turn: each is drawn along a route that what was drawn before leaves it, or left out where there is none. */
  ghost predicate Drawn(bounds: Rect, nodes: seq<Rect>, rects: NodeRects, edges: seq<Edge>, visible: seq<Visible>) {
    if edges == [] then visible == []
    else
      var init, edge := edges[..|edges| - 1], edges[|edges| - 1];
      || (&& visible != [] && visible[|visible| - 1].edge == edge && Drawn(bounds, nodes, rects, init, visible[..|visible| - 1])
          && DrawsAfter(bounds, nodes, rects, visible[..|visible| - 1], edge, visible[|visible| - 1].route, visible[|visible| - 1].strict))
      || (&& Drawn(bounds, nodes, rects, init, visible)
          && forall r, strict :: !DrawsAfter(bounds, nodes, rects, visible, edge, r, strict))
  }

  ghost predicate DrawsAfter(bounds: Rect, nodes: seq<Rect>, rects: NodeRects, before: seq<Visible>, edge: Edge, r: Route, strict: bool) {
    Draws(Field(bounds, nodes, OccupiedBy(before)), rects, edge, Uses(bounds, rects, before, edge.from), r, strict)
  }

  /** What the planner carries along is what was drawn. */
  ghost predicate Tallies(bounds: Rect, rects: NodeRects, p: Plan) {
    && p.occupied == OccupiedBy(p.visible)
    && forall key :: UsageOf(p, key) == Uses(bounds, rects, p.visible, key)
  }

  lemma CountsInView(bounds: Rect, rects: NodeRects, edge: Edge)
    ensures CountsUsage(bounds, rects, edge) <==> LinksInView(bounds, rects, edge)
  {
  }

  lemma OneRouteMore(bounds: Rect, rects: NodeRects, visible: seq<Visible>, v: Visible, key: string)
    ensures OccupiedBy(visible + [v]) == Reserved(OccupiedBy(visible), v.route.cells)
    ensures Uses(bounds, rects, visible + [v], key)
         == Uses(bounds, rects, visible, key) + if v.edge.from == key && LinksInView(bounds, rects, v.edge) then 1 else 0
  {
    assert (visible + [v])[..|visible|] == visible;
  }

  lemma TalliesOneMore(bounds: Rect, nodes: seq<Rect>, rects: NodeRects, p: Plan, edge: Edge)
    requires Tallies(bounds, rects, p)
    ensures Tallies(bounds, rects, PlanEdge(bounds, nodes, rects, p, edge))
  {
    hide RouteEdge, Reserved, CountsUsage, LinksInView, Uses, OccupiedBy;
    CountsInView(bounds, rects, edge);
    var chosen := RouteEdge(Field(bounds, nodes, p.occupied), rects, edge, UsageOf(p, edge.from));
    if chosen.Some? {
      var m := PlanEdge(bounds, nodes, rects, p, edge);
      forall key
        ensures m.occupied == OccupiedBy(m.visible) && UsageOf(m, key) == Uses(bounds, rects, m.visible, key)
      {
        OneRouteMore(bounds, rects, p.visible, Visible(edge, chosen.value.0, chosen.value.1), key);
        assert UsageOf(p, key) == Uses(bounds, rects, p.visible, key);
      }
      assert UsageOf(m, "") == Uses(bounds, rects, m.visible, "");
    }
  }

  lemma {:induction false} PlanEdgesDraw(bounds: Rect, nodes: seq<Rect>, rects: NodeRects, edges: seq<Edge>)
    ensures var p := PlanEdges(bounds, nodes, rects, edges); Tallies(bounds, rects, p) && Drawn(bounds, nodes, rects, edges, p.visible)
  {
    hide PlanEdge, Tallies, Uses, OccupiedBy;
    if edges == [] {
      NothingDrawn(bounds, rects);
    } else {
      var p, edge := PlanEdges(bounds, nodes, rects, edges[..|edges| - 1]), edges[|edges| - 1];
      PlanEdgesDraw(bounds, nodes, rects, edges[..|edges| - 1]);
      TalliesOneMore(bounds, nodes, rects, p, edge);
      OneEdgeMore(bounds, nodes, rects, p, edge);
    }
  }

  lemma NothingDrawn(bounds: Rect, rects: NodeRects)
    ensures Tallies(bounds, rects, Plan([], map[], map[]))
  {
  }

  lemma OneEdgeMore(bounds: Rect, nodes: seq<Rect>, rects: NodeRects, p: Plan, edge: Edge)
    requires Tallies(bounds, rects, p)
    ensures var m := PlanEdge(bounds, nodes, rects, p, edge);
      || (&& m.visible != [] && m.visible[..|m.visible| - 1] == p.visible && m.visible[|m.visible| - 1].edge == edge
          && DrawsAfter(bounds, nodes, rects, p.visible, edge, m.visible[|m.visible| - 1].route, m.visible[|m.visible| - 1].strict))
      || (m.visible == p.visible && forall r, strict :: !DrawsAfter(bounds, nodes, rects, p.visible, edge, r, strict))
  {
    hide RouteEdge, Draws, Reserved, CountsUsage;
    DrawsExactly(Field(bounds, nodes, p.occupied), rects, edge, UsageOf(p, edge.from));
    assert UsageOf(p, edge.from) == Uses(bounds, rects, p.visible, edge.from);
  }

  // ---------------------------------------------------------------- priority

  function OfPriority(edges: seq<Edge>, rects: NodeRects, q: int): seq<Edge> {
    if edges == [] then []
    else OfPriority(edges[..|edges| - 1], rects, q) + if Priority(edges[|edges| - 1], rects) == q then [edges[|edges| - 1]] else []
  }

  /** The same edges in order of priority, those of one priority in the order given. */
  ghost predicate InPriorityOrder(edges: seq<Edge>, ordered: seq<Edge>, rects: NodeRects) {
    && (forall i, j | 0 <= i < j < |ordered| :: Priority(ordered[i], rects) <= Priority(ordered[j], rects))
    && forall q :: OfPriority(ordered, rects, q) == OfPriority(edges, rects, q)
  }

  lemma OfPrioritySnoc(edges: seq<Edge>, edge: Edge, rects: NodeRects, q: int)
    ensures OfPriority(edges + [edge], rects, q) == OfPriority(edges, rects, q) + if Priority(edge, rects) == q then [edge] else []
  {
    assert (edges + [edge])[..|edges|] == edges;
  }

  lemma {:induction false} InsertIsStable(edges: seq<Edge>, edge: Edge, rects: NodeRects, q: int)
    ensures OfPriority(Insert(edges, edge, EdgeBefore(rects)), rects, q) == OfPriority(edges + [edge], rects, q)
  {
    hide OfPriority, Priority;
    OfPrioritySnoc(edges, edge, rects, q);
    if edges != [] && EdgeBefore(rects)(edge, edges[|edges| - 1]) {
      var init, last := edges[..|edges| - 1], edges[|edges| - 1];
      InsertIsStable(init, edge, rects, q);
      OfPrioritySnoc(init, edge, rects, q);
      OfPrioritySnoc(init, last, rects, q);
      OfPrioritySnoc(Insert(init, edge, EdgeBefore(rects)), last, rects, q);
      assert edges == init + [last];
    }
  }

  lemma {:induction false} SortIsStable(edges: seq<Edge>, rects: NodeRects, q: int)
    ensures OfPriority(StableSort(edges, EdgeBefore(rects)), rects, q) == OfPriority(edges, rects, q)
  {
    hide Insert, Priority, OfPriority;
    if edges != [] {
      var init, last := edges[..|edges| - 1], edges[|edges| - 1];
      SortIsStable(init, rects, q);
      InsertIsStable(StableSort(init, EdgeBefore(rects)), last, rects, q);
      OfPrioritySnoc(StableSort(init, EdgeBefore(rects)), last, rects, q);
      OfPrioritySnoc(init, last, rects, q);
      assert edges == init + [last];
    }
  }

  lemma SortIsInPriorityOrder(edges: seq<Edge>, rects: NodeRects)
    ensures InPriorityOrder(edges, StableSort(edges, EdgeBefore(rects)), rects)
  {
    hide StableSort, Priority;
    var ordered := StableSort(edges, EdgeBefore(rects));
    RanksEdges(rects);
    SortSorts(edges, EdgeBefore(rects));
    forall i, j | 0 <= i < j < |ordered|
      ensures Priority(ordered[i], rects) <= Priority(ordered[j], rects)
    {
      assert !EdgeBefore(rects)(ordered[j], ordered[i]);
    }
    forall q { SortIsStable(edges, rects, q); }
  }

  lemma RanksEdges(rects: NodeRects)
    ensures IsRanking(EdgeBefore(rects))
  {
    hide Priority;
  }

  /**
   The routes planned are those of the edges in order of priority, each drawn along a best route that the ones before it
   leave, or left out exactly where there is none; and what is occupied afterwards is what they occupy.
   */
  lemma PlansExactly(bounds: Rect, nodes: seq<Rect>, rects: NodeRects, edges: seq<Edge>)
    ensures var p := PlanAll(bounds, nodes, rects, edges);
      p.occupied == OccupiedBy(p.visible)
      && exists ordered :: InPriorityOrder(edges, ordered, rects) && Drawn(bounds, nodes, rects, ordered, p.visible)
  {
    hide PlanEdges, Drawn, InPriorityOrder, StableSort;
    SortIsInPriorityOrder(edges, rects);
    PlanEdgesDraw(bounds, nodes, rects, StableSort(edges, EdgeBefore(rects)));
  }

  /** Links between workloads come after all else; then what is higher up, then the flatter edge, then the narrower. */
  lemma PriorityIsLexicographic(a: Edge, b: Edge, rects: NodeRects)
    requires forall edge | edge in [a, b] :: var (top, dy, dx) := Spread(edge, rects); 0 <= top < 10000 && dy < 100 && dx < 100
    ensures Priority(a, rects) < Priority(b, rects) <==>
      var (topA, dyA, dxA) := Spread(a, rects); var (topB, dyB, dxB) := Spread(b, rects);
      if BetweenWorkloads(a) != BetweenWorkloads(b) then BetweenWorkloads(b)
      else if topA != topB then topA < topB
      else if dyA != dyB then dyA < dyB
      else dxA < dxB
  {
    hide WorkloadKey, Half, RectOf;
    assert a in [a, b] && b in [a, b];
  }

  /** The higher of the two middles of an edge's ends, and how far they lie apart down and across. */
  function Spread(edge: Edge, rects: NodeRects): (int, nat, nat) {
    var from, to := RectOf(rects, edge.from), RectOf(rects, edge.to);
    var fx, fy, tx, ty := from.x + Half(from.w), from.y + Half(from.h), to.x + Half(to.w), to.y + Half(to.h);
    (if fy < ty then fy else ty, Abs(fy - ty), Abs(fx - tx))
  }
}
