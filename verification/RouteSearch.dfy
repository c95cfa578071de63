/** The cheapest clear path between two ports, over a fixed family of waypoint sets and the ranked port pairs. */
module RouteSearch {
  import opened Numerals
  import opened RouteGrid

  const NODE_WIDTH: int := 16
  const NODE_HEIGHT: int := 4

  /** What a search sees of the planner. */
  datatype Field = Field(bounds: Rect, nodes: seq<Rect>, occupied: Occupied)

  predicate InSomeNode(nodes: seq<Rect>, p: Point) {
    exists i | 0 <= i < |nodes| :: InRect(p, nodes[i])
  }

  predicate NearNode(nodes: seq<Rect>, p: Point) {
    exists i | 0 <= i < |nodes| :: InRect(p, Rect(nodes[i].x - 1, nodes[i].y - 1, nodes[i].w + 2, nodes[i].h + 2))
  }

  predicate Blocked(f: Field, p: Point, relaxed: bool) {
    !InRect(p, f.bounds) || (MaskAt(f.occupied, p) != {} && !relaxed) || InSomeNode(f.nodes, p)
  }

  predicate Clear(f: Field, cells: seq<Point>, relaxed: bool) {
    forall i | 0 <= i < |cells| :: !Blocked(f, cells[i], relaxed)
  }

  method PathClear(f: Field, cells: seq<Point>, relaxed: bool) returns (ok: bool)
    ensures ok == Clear(f, cells, relaxed)
  {
    for i := 0 to |cells|
      invariant forall j | 0 <= j < i :: !Blocked(f, cells[j], relaxed)
    {
      if Blocked(f, cells[i], relaxed) {
        return false;
      }
    }
    return true;
  }

  // ---------------------------------------------------------------- cost

  /** The two ends of a search and the directions in which a route leaves and arrives. */
  datatype Ends = Ends(start: Point, goal: Point, startDir: Option<Dir>, goalDir: Option<Dir>)

  function TurnPenalty(p: Point, e: Ends): nat {
    18 + (if Manhattan(p, e.start) < NODE_WIDTH then 160 else 0) + (if Manhattan(p, e.goal) < NODE_WIDTH then 160 else 0)
  }

  function DirInto(cells: seq<Point>, i: nat, e: Ends): Option<Dir>
    requires i < |cells|
  {
    if i == 0 then e.startDir else DirBetween(cells[i - 1], cells[i])
  }

  function StepCost(f: Field, cells: seq<Point>, i: nat, e: Ends, relaxed: bool): nat
    requires 1 <= i < |cells|
  {
    var before, dir := DirInto(cells, i - 1, e), DirInto(cells, i, e);
    10 + (if before.Some? && before != dir then TurnPenalty(cells[i - 1], e) else 0)
    + (if NearNode(f.nodes, cells[i]) then 25 else 0)
    + (if relaxed && MaskAt(f.occupied, cells[i]) != {} then 90 else 0)
  }

  /** Cost of the steps into the first n cells. */
  function StepsCost(f: Field, cells: seq<Point>, n: nat, e: Ends, relaxed: bool): nat
    requires 1 <= n <= |cells|
  {
    if n == 1 then 0 else StepsCost(f, cells, n - 1, e, relaxed) + StepCost(f, cells, n - 1, e, relaxed)
  }

  function PathCost(f: Field, cells: seq<Point>, e: Ends, relaxed: bool): nat {
    if cells == [] then 0
    else StepsCost(f, cells, |cells|, e, relaxed)
         + if e.goalDir.Some? && DirInto(cells, |cells| - 1, e) != e.goalDir then 18 else 0
  }

  method RoutePathCost(f: Field, cells: seq<Point>, e: Ends, relaxed: bool) returns (cost: nat)
    ensures cost == PathCost(f, cells, e, relaxed)
  {
    if |cells| == 0 {
      return 0;
    }
    cost := 0;
    var previous := e.startDir;
    for i := 1 to |cells|
      invariant cost == StepsCost(f, cells, i, e, relaxed) && previous == DirInto(cells, i - 1, e)
    {
      var dir := DirBetween(cells[i - 1], cells[i]);
      var step := 10;
      if previous.Some? && previous != dir {
        step := step + TurnPenalty(cells[i - 1], e);
      }
      if NearNode(f.nodes, cells[i]) {
        step := step + 25;
      }
      if relaxed && MaskAt(f.occupied, cells[i]) != {} {
        step := step + 90;
      }
      cost, previous := cost + step, dir;
    }
    if e.goalDir.Some? && previous != e.goalDir {
      cost := cost + 18;
    }
  }

  // ---------------------------------------------------------------- waypoints

  /** Integer division by two, truncating toward zero. */
  function Half(n: int): int {
    if n >= 0 then n / 2 else -((-n) / 2)
  }

  function Dx(d: Option<Dir>): int {
    if d == Some(Right) then 1 else if d == Some(Left) then -1 else 0
  }

  function Dy(d: Option<Dir>): int {
    if d == Some(Down) then 1 else if d == Some(Up) then -1 else 0
  }

  function Unique(values: seq<int>): seq<int> {
    if values == [] then []
    else
      var before, last := Unique(values[..|values| - 1]), values[|values| - 1];
      if last in before then before else before + [last]
  }

  function XLanes(e: Ends): seq<int> {
    Unique([Half(e.start.x + e.goal.x)]
           + (if Dx(e.startDir) != 0 then [e.start.x + Dx(e.startDir) * NODE_WIDTH] else [])
           + (if Dx(e.goalDir) != 0 then [e.goal.x - Dx(e.goalDir) * NODE_WIDTH] else []))
  }

  function YLanes(e: Ends): seq<int> {
    Unique([Half(e.start.y + e.goal.y)]
           + (if Dy(e.startDir) != 0 then [e.start.y + Dy(e.startDir) * NODE_HEIGHT] else [])
           + (if Dy(e.goalDir) != 0 then [e.goal.y - Dy(e.goalDir) * NODE_HEIGHT] else []))
  }

  function ThroughX(e: Ends, xs: seq<int>): seq<seq<Point>> {
    seq(|xs|, i requires 0 <= i < |xs| => [e.start, Point(xs[i], e.start.y), Point(xs[i], e.goal.y), e.goal])
  }

  function ThroughY(e: Ends, ys: seq<int>): seq<seq<Point>> {
    seq(|ys|, i requires 0 <= i < |ys| => [e.start, Point(e.start.x, ys[i]), Point(e.goal.x, ys[i]), e.goal])
  }

  function Waypoints(e: Ends): (sets: seq<seq<Point>>)
    ensures forall w | w in sets :: |w| >= 2 && w[0] == e.start && w[|w| - 1] == e.goal
  {
    [[e.start, e.goal], [e.start, Point(e.goal.x, e.start.y), e.goal], [e.start, Point(e.start.x, e.goal.y), e.goal]]
    + ThroughX(e, XLanes(e)) + ThroughY(e, YLanes(e))
  }

  // ---------------------------------------------------------------- the best path

  datatype Path = Path(cells: seq<Point>, cost: nat)

  /** The path through a waypoint set, where there is one and it is clear. */
  function Candidate(f: Field, waypoints: seq<Point>, e: Ends, relaxed: bool): Option<Path> {
    var cells := PathCells(waypoints);
    if cells.None? || !Clear(f, cells.value, relaxed) then None
    else Some(Path(cells.value, PathCost(f, cells.value, e, relaxed)))
  }

  predicate Improves(p: Path, best: Option<Path>) {
    best.None? || p.cost < best.value.cost || (p.cost == best.value.cost && |p.cells| < |best.value.cells|)
  }

  function BestOf(f: Field, sets: seq<seq<Point>>, e: Ends, relaxed: bool): Option<Path> {
    if sets == [] then None
    else
      var best := BestOf(f, sets[..|sets| - 1], e, relaxed);
      var p := Candidate(f, sets[|sets| - 1], e, relaxed);
      if p.Some? && Improves(p.value, best) then p else best
  }

  function BestPath(f: Field, e: Ends, relaxed: bool): Option<Path> {
    BestOf(f, Waypoints(e), e, relaxed)
  }

  method SimplePath(f: Field, e: Ends, relaxed: bool) returns (best: Option<Path>)
    ensures best == BestPath(f, e, relaxed)
  {
    hide Clear, PathCost, PathCells, Waypoints;
    var sets := Waypoints(e);
    best := None;
    for i := 0 to |sets|
      invariant best == BestOf(f, sets[..i], e, relaxed)
    {
      assert sets[..i + 1][..i] == sets[..i];
      var cells := PathCellsFromWaypoints(sets[i]);
      if cells.None? {
        continue;
      }
      var clear := PathClear(f, cells.value, relaxed);
      if !clear {
        continue;
      }
      var cost := RoutePathCost(f, cells.value, e, relaxed);
      if best.None? || cost < best.value.cost || (cost == best.value.cost && |cells.value| < |best.value.cells|) {
        best := Some(Path(cells.value, cost));
      }
    }
    assert sets[..|sets|] == sets;
  }

  /** Among the waypoint sets the result is a candidate, and no candidate is cheaper. */
  lemma {:induction false} BestOfIsCheapest(f: Field, sets: seq<seq<Point>>, e: Ends, relaxed: bool)
    ensures var best := BestOf(f, sets, e, relaxed);
      && (best.Some? ==> exists w :: w in sets && Candidate(f, w, e, relaxed) == best)
      && (forall w | w in sets && Candidate(f, w, e, relaxed).Some? ::
            best.Some? && best.value.cost <= Candidate(f, w, e, relaxed).value.cost)
  {
    hide Candidate;
    if sets != [] {
      BestOfIsCheapest(f, sets[..|sets| - 1], e, relaxed);
      assert sets == sets[..|sets| - 1] + [sets[|sets| - 1]];
    }
  }

  /** A found path is a chain of unit steps from start to goal, inside the bounds, outside every node, and strictly free if asked. */
  lemma BestPathIsClear(f: Field, e: Ends, relaxed: bool)
    requires BestPath(f, e, relaxed).Some?
    ensures var cells := BestPath(f, e, relaxed).value.cells;
      |cells| >= 1 && Chain(cells) && cells[0] == e.start && cells[|cells| - 1] == e.goal && Clear(f, cells, relaxed)
  {
    hide Clear, PathCost, PathCells, Waypoints, Chain;
    BestOfIsCheapest(f, Waypoints(e), e, relaxed);
    var w :| w in Waypoints(e) && Candidate(f, w, e, relaxed) == BestPath(f, e, relaxed);
    PathIsChain(w);
    WaypointEnds(e, w);
  }

  lemma WaypointEnds(e: Ends, w: seq<Point>)
    requires w in Waypoints(e)
    ensures |w| >= 2 && w[0] == e.start && w[|w| - 1] == e.goal
  {
  }

  // ---------------------------------------------------------------- relaxed against strict

  lemma {:induction false} StrictStepsCostTheSame(f: Field, cells: seq<Point>, n: nat, e: Ends)
    requires 1 <= n <= |cells| && Clear(f, cells, false)
    ensures StepsCost(f, cells, n, e, true) == StepsCost(f, cells, n, e, false)
  {
    if n > 1 { StrictStepsCostTheSame(f, cells, n - 1, e); }
  }

  lemma StrictCandidateIsRelaxed(f: Field, w: seq<Point>, e: Ends)
    requires Candidate(f, w, e, false).Some?
    ensures Candidate(f, w, e, true) == Candidate(f, w, e, false)
  {
    hide StepsCost;
    var cells := PathCells(w).value;
    assert Clear(f, cells, true);
    if cells != [] { StrictStepsCostTheSame(f, cells, |cells|, e); }
  }

  /** Allowing occupied cells never loses a path and never costs more. */
  lemma RelaxedPathIsNoWorse(f: Field, e: Ends)
    requires BestPath(f, e, false).Some?
    ensures BestPath(f, e, true).Some? && BestPath(f, e, true).value.cost <= BestPath(f, e, false).value.cost
  {
    hide Candidate, Waypoints;
    BestOfIsCheapest(f, Waypoints(e), e, false);
    BestOfIsCheapest(f, Waypoints(e), e, true);
    var w :| w in Waypoints(e) && Candidate(f, w, e, false) == BestPath(f, e, false);
    StrictCandidateIsRelaxed(f, w, e);
  }

  // ---------------------------------------------------------------- the order of nodes

  /** The same planner, its nodes listed in another order or with repetitions. */
  ghost predicate SameNodes(f: Field, g: Field) {
    f.bounds == g.bounds && f.occupied == g.occupied && forall r :: r in f.nodes <==> r in g.nodes
  }

  lemma SameBlocks(f: Field, g: Field, p: Point)
    requires SameNodes(f, g)
    ensures InSomeNode(f.nodes, p) == InSomeNode(g.nodes, p) && NearNode(f.nodes, p) == NearNode(g.nodes, p)
  {
    InNodeList(f.nodes, g.nodes, p);
    InNodeList(g.nodes, f.nodes, p);
  }

  lemma InNodeList(a: seq<Rect>, b: seq<Rect>, p: Point)
    requires forall r | r in a :: r in b
    ensures InSomeNode(a, p) ==> InSomeNode(b, p)
    ensures NearNode(a, p) ==> NearNode(b, p)
  {
    if InSomeNode(a, p) {
      var i :| 0 <= i < |a| && InRect(p, a[i]);
      assert a[i] in b;
    }
    if NearNode(a, p) {
      var i :| 0 <= i < |a| && InRect(p, Rect(a[i].x - 1, a[i].y - 1, a[i].w + 2, a[i].h + 2));
      assert a[i] in b;
    }
  }

  lemma {:induction false} SameStepsCost(f: Field, g: Field, cells: seq<Point>, n: nat, e: Ends, relaxed: bool)
    requires SameNodes(f, g) && 1 <= n <= |cells|
    ensures StepsCost(f, cells, n, e, relaxed) == StepsCost(g, cells, n, e, relaxed)
  {
    hide NearNode, SameNodes;
    if n > 1 {
      SameStepsCost(f, g, cells, n - 1, e, relaxed);
      SameBlocks(f, g, cells[n - 1]);
      assert f.occupied == g.occupied by { SameFields(f, g); }
    }
  }

  lemma SameFields(f: Field, g: Field)
    requires SameNodes(f, g)
    ensures f.bounds == g.bounds && f.occupied == g.occupied
  {
  }

  lemma SameCandidate(f: Field, g: Field, w: seq<Point>, e: Ends, relaxed: bool)
    requires SameNodes(f, g)
    ensures Candidate(f, w, e, relaxed) == Candidate(g, w, e, relaxed)
  {
    hide StepsCost, InSomeNode, SameNodes;
    SameFields(f, g);
    forall p ensures InSomeNode(f.nodes, p) == InSomeNode(g.nodes, p) { SameBlocks(f, g, p); }
    var cells := PathCells(w);
    if cells.Some? && cells.value != [] { SameStepsCost(f, g, cells.value, |cells.value|, e, relaxed); }
  }

  lemma {:induction false} SameBestOf(f: Field, g: Field, sets: seq<seq<Point>>, e: Ends, relaxed: bool)
    requires SameNodes(f, g)
    ensures BestOf(f, sets, e, relaxed) == BestOf(g, sets, e, relaxed)
  {
    hide Candidate, SameNodes;
    if sets != [] {
      SameBestOf(f, g, sets[..|sets| - 1], e, relaxed);
      SameCandidate(f, g, sets[|sets| - 1], e, relaxed);
    }
  }
}
