/** What the search ranges over and what it charges, in plain terms: paths, waypoint sets, costs, ports and their ranks. */
module RouteShapes {
  import opened Numerals
  import opened RouteGrid
  import opened RouteSearch
  import opened RoutePorts

  // ---------------------------------------------------------------- paths

  /** The way along the waypoints, corner to corner. */
  function Length(waypoints: seq<Point>): nat {
    if |waypoints| < 2 then 0
    else Length(waypoints[..|waypoints| - 1]) + Manhattan(waypoints[|waypoints| - 2], waypoints[|waypoints| - 1])
  }

  lemma {:induction false} WalkLength(p: Point, to: Point)
    requires Aligned(p, to)
    ensures |Walk(p, to)| == Manhattan(p, to)
    decreases Manhattan(p, to)
  {
    if p != to { WalkLength(Toward(p, to), to); }
  }

  /** There is a path exactly if each waypoint is level with the next, and it takes no step more than the way is long. */
  lemma {:induction false} PathIsStraight(waypoints: seq<Point>)
    ensures PathCells(waypoints).Some?
      <==> waypoints != [] && forall i | 0 <= i < |waypoints| - 1 :: waypoints[i].x == waypoints[i + 1].x || waypoints[i].y == waypoints[i + 1].y
    ensures PathCells(waypoints).Some? ==> |PathCells(waypoints).value| == 1 + Length(waypoints)
    ensures PathCells(waypoints).Some? ==> forall p | p in waypoints :: p in PathCells(waypoints).value
  {
    hide Walk;
    var n := |waypoints|;
    if n > 1 {
      var init := waypoints[..n - 1];
      PathIsStraight(init);
      assert forall i | 0 <= i < n - 1 :: init[i] == waypoints[i];
      if PathCells(waypoints).Some? {
        WalkLength(waypoints[n - 2], waypoints[n - 1]);
        PathIsChain(waypoints);
        assert forall p | p in waypoints :: p in init || p == waypoints[n - 1];
      }
    }
  }

  // ---------------------------------------------------------------- waypoint sets

  /** The columns a route may change level in: halfway, and sixteen cells out from an end left or entered sideways. */
  predicate IsXLane(e: Ends, x: int) {
    || x == Half(e.start.x + e.goal.x)
    || (e.startDir == Some(Right) && x == e.start.x + 16) || (e.startDir == Some(Left) && x == e.start.x - 16)
    || (e.goalDir == Some(Right) && x == e.goal.x - 16) || (e.goalDir == Some(Left) && x == e.goal.x + 16)
  }

  predicate IsYLane(e: Ends, y: int) {
    || y == Half(e.start.y + e.goal.y)
    || (e.startDir == Some(Down) && y == e.start.y + 4) || (e.startDir == Some(Up) && y == e.start.y - 4)
    || (e.goalDir == Some(Down) && y == e.goal.y - 4) || (e.goalDir == Some(Up) && y == e.goal.y + 4)
  }

  lemma {:induction false} UniqueHas(values: seq<int>, v: int)
    ensures v in Unique(values) <==> v in values
  {
    if values != [] {
      UniqueHas(values[..|values| - 1], v);
      assert values == values[..|values| - 1] + [values[|values| - 1]];
    }
  }

  lemma LanesAre(e: Ends, v: int)
    ensures v in XLanes(e) <==> IsXLane(e, v)
    ensures v in YLanes(e) <==> IsYLane(e, v)
  {
    hide Unique;
    UniqueHas([Half(e.start.x + e.goal.x)]
              + (if Dx(e.startDir) != 0 then [e.start.x + Dx(e.startDir) * NODE_WIDTH] else [])
              + (if Dx(e.goalDir) != 0 then [e.goal.x - Dx(e.goalDir) * NODE_WIDTH] else []), v);
    UniqueHas([Half(e.start.y + e.goal.y)]
              + (if Dy(e.startDir) != 0 then [e.start.y + Dy(e.startDir) * NODE_HEIGHT] else [])
              + (if Dy(e.goalDir) != 0 then [e.goal.y - Dy(e.goalDir) * NODE_HEIGHT] else []), v);
  }

  /** Straight on, round either corner, or over to a lane, along it and over to the goal. */
  ghost predicate IsWaypointSet(e: Ends, w: seq<Point>) {
    || w == [e.start, e.goal] || w == [e.start, Point(e.goal.x, e.start.y), e.goal] || w == [e.start, Point(e.start.x, e.goal.y), e.goal]
    || (exists x :: IsXLane(e, x) && w == [e.start, Point(x, e.start.y), Point(x, e.goal.y), e.goal])
    || (exists y :: IsYLane(e, y) && w == [e.start, Point(e.start.x, y), Point(e.goal.x, y), e.goal])
  }

  lemma InThroughX(e: Ends, xs: seq<int>, w: seq<Point>)
    ensures w in ThroughX(e, xs) <==> exists x :: x in xs && w == [e.start, Point(x, e.start.y), Point(x, e.goal.y), e.goal]
  {
    if x :| x in xs && w == [e.start, Point(x, e.start.y), Point(x, e.goal.y), e.goal] {
      var i :| 0 <= i < |xs| && xs[i] == x;
      assert ThroughX(e, xs)[i] == w;
    }
  }

  lemma InThroughY(e: Ends, ys: seq<int>, w: seq<Point>)
    ensures w in ThroughY(e, ys) <==> exists y :: y in ys && w == [e.start, Point(e.start.x, y), Point(e.goal.x, y), e.goal]
  {
    if y :| y in ys && w == [e.start, Point(e.start.x, y), Point(e.goal.x, y), e.goal] {
      var i :| 0 <= i < |ys| && ys[i] == y;
      assert ThroughY(e, ys)[i] == w;
    }
  }

  lemma WaypointSetsAre(e: Ends, w: seq<Point>)
    ensures w in Waypoints(e) <==> IsWaypointSet(e, w)
  {
    hide XLanes, YLanes, IsXLane, IsYLane, ThroughX, ThroughY;
    forall v { LanesAre(e, v); }
    InThroughX(e, XLanes(e), w);
    InThroughY(e, YLanes(e), w);
  }

  // ---------------------------------------------------------------- cost

  /** The step to cell i goes another way than the step before it, or than the start is left in. */
  predicate Turns(cells: seq<Point>, i: nat, e: Ends)
    requires 1 <= i < |cells|
  {
    if i == 1 then e.startDir.Some? && e.startDir != DirBetween(cells[0], cells[1])
    else DirBetween(cells[i - 2], cells[i - 1]).Some? && DirBetween(cells[i - 2], cells[i - 1]) != DirBetween(cells[i - 1], cells[i])
  }

  function TurnsOf(cells: seq<Point>, n: nat, e: Ends): set<nat>
    requires n <= |cells|
  {
    set i: nat | 1 <= i < n && Turns(cells, i, e)
  }

  function TurnsNear(cells: seq<Point>, n: nat, e: Ends, p: Point): set<nat>
    requires n <= |cells|
  {
    set i: nat | 1 <= i < n && Turns(cells, i, e) && Manhattan(cells[i - 1], p) < 16
  }

  function Crowded(f: Field, cells: seq<Point>, n: nat): set<nat>
    requires n <= |cells|
  {
    set i: nat | 1 <= i < n && NearNode(f.nodes, cells[i])
  }

  function Crossed(f: Field, cells: seq<Point>, n: nat): set<nat>
    requires n <= |cells|
  {
    set i: nat | 1 <= i < n && MaskAt(f.occupied, cells[i]) != {}
  }

  lemma OneTurnMore(cells: seq<Point>, n: nat, e: Ends, p: Point)
    requires 1 <= n < |cells|
    ensures |TurnsOf(cells, n + 1, e)| == |TurnsOf(cells, n, e)| + if Turns(cells, n, e) then 1 else 0
    ensures |TurnsNear(cells, n + 1, e, p)| == |TurnsNear(cells, n, e, p)| + if Turns(cells, n, e) && Manhattan(cells[n - 1], p) < 16 then 1 else 0
  {
    hide Turns, Manhattan;
    assert TurnsOf(cells, n + 1, e) == TurnsOf(cells, n, e) + if Turns(cells, n, e) then {n} else {};
    assert TurnsNear(cells, n + 1, e, p)
        == TurnsNear(cells, n, e, p) + if Turns(cells, n, e) && Manhattan(cells[n - 1], p) < 16 then {n} else {};
  }

  lemma OneCellMore(f: Field, cells: seq<Point>, n: nat)
    requires 1 <= n < |cells|
    ensures |Crowded(f, cells, n + 1)| == |Crowded(f, cells, n)| + if NearNode(f.nodes, cells[n]) then 1 else 0
    ensures |Crossed(f, cells, n + 1)| == |Crossed(f, cells, n)| + if MaskAt(f.occupied, cells[n]) != {} then 1 else 0
  {
    hide NearNode, MaskAt;
    assert Crowded(f, cells, n + 1) == Crowded(f, cells, n) + if NearNode(f.nodes, cells[n]) then {n} else {};
    assert Crossed(f, cells, n + 1) == Crossed(f, cells, n) + if MaskAt(f.occupied, cells[n]) != {} then {n} else {};
  }

  lemma NothingYet(f: Field, cells: seq<Point>, e: Ends)
    requires cells != []
    ensures TurnsOf(cells, 1, e) == {} && TurnsNear(cells, 1, e, e.start) == {} && TurnsNear(cells, 1, e, e.goal) == {}
    ensures Crowded(f, cells, 1) == {} && Crossed(f, cells, 1) == {}
  {
  }

  lemma {:induction false} StepsAreCounted(f: Field, cells: seq<Point>, n: nat, e: Ends, relaxed: bool)
    requires 1 <= n <= |cells|
    ensures StepsCost(f, cells, n, e, relaxed)
         == 10 * (n - 1) + 18 * |TurnsOf(cells, n, e)| + 160 * |TurnsNear(cells, n, e, e.start)| + 160 * |TurnsNear(cells, n, e, e.goal)|
            + 25 * |Crowded(f, cells, n)| + if relaxed then 90 * |Crossed(f, cells, n)| else 0
  {
    hide TurnsOf, TurnsNear, Crowded, Crossed, NearNode, MaskAt, Manhattan;
    if n == 1 {
      NothingYet(f, cells, e);
    } else {
      StepsAreCounted(f, cells, n - 1, e, relaxed);
      OneTurnMore(cells, n - 1, e, e.start);
      OneTurnMore(cells, n - 1, e, e.goal);
      OneCellMore(f, cells, n - 1);
    }
  }

  /**
   What a path costs: 10 a step, 18 a turn and 160 more for each end the turn is close to, 25 for each cell beside a
   node, 90 for each occupied cell where those may be crossed, and 18 if it does not arrive the way the goal asks.
   */
  lemma CostIsCounted(f: Field, cells: seq<Point>, e: Ends, relaxed: bool)
    requires cells != []
    ensures var n := |cells|;
      PathCost(f, cells, e, relaxed)
      == 10 * (n - 1) + 18 * |TurnsOf(cells, n, e)| + 160 * |TurnsNear(cells, n, e, e.start)| + 160 * |TurnsNear(cells, n, e, e.goal)|
         + 25 * |Crowded(f, cells, n)| + (if relaxed then 90 * |Crossed(f, cells, n)| else 0)
         + if e.goalDir.None? then 0
           else if n == 1 then (if e.startDir == e.goalDir then 0 else 18)
           else if DirBetween(cells[n - 2], cells[n - 1]) == e.goalDir then 0 else 18
  {
    hide TurnsOf, TurnsNear, Crowded, Crossed, StepsCost;
    StepsAreCounted(f, cells, |cells|, e, relaxed);
  }

  // ---------------------------------------------------------------- ports

  /** A port stands on a side between its corners and opens on the cell beside it. */
  predicate OnSide(node: Rect, border: Point, entry: Point, side: Side) {
    match side
    case LeftSide => border.x == node.x && entry == Point(node.x - 1, border.y) && node.y < border.y < node.y + node.h - 1
    case RightSide => border.x == node.x + node.w - 1 && entry == Point(node.x + node.w, border.y) && node.y < border.y < node.y + node.h - 1
    case TopSide => border.y == node.y && entry == Point(border.x, node.y - 1) && node.x < border.x < node.x + node.w - 1
    case BottomSide => border.y == node.y + node.h - 1 && entry == Point(border.x, node.y + node.h) && node.x < border.x < node.x + node.w - 1
  }

  /** Where a port comes in the order they are offered: row by row, then column by column. */
  function Place(node: Rect, border: Point, side: Side): int {
    match side
    case LeftSide => 2 * (border.y - node.y - 1)
    case RightSide => 2 * (border.y - node.y - 1) + 1
    case TopSide => 2 * Inner(node.h) + 2 * (border.x - node.x - 1)
    case BottomSide => 2 * Inner(node.h) + 2 * (border.x - node.x - 1) + 1
  }

  predicate IsPort(node: Rect, other: Rect, bounds: Rect, p: Port) {
    OnSide(node, p.border, p.entry, p.side) && InRect(p.entry, bounds)
    && p.rank == 10 * (SidePenalty(node, other, p.side) + OffCentre(other, p.border, p.side)) + Place(node, p.border, p.side)
  }

  /** How far the port is from the middle of the other node; rows count three times as much as columns. */
  function OffCentre(other: Rect, border: Point, side: Side): int {
    match side
    case LeftSide => 3 * Abs(border.y - (other.y + Half(other.h)))
    case RightSide => 3 * Abs(border.y - (other.y + Half(other.h)))
    case TopSide => Abs(border.x - (other.x + Half(other.w)))
    case BottomSide => Abs(border.x - (other.x + Half(other.w)))
  }

  lemma {:induction false} RowPortsAre(node: Rect, other: Rect, bounds: Rect, n: nat, p: Port)
    requires n <= Inner(node.h)
    ensures p in RowPorts(node, other, bounds, n)
       <==> p.side in {LeftSide, RightSide} && IsPort(node, other, bounds, p) && p.border.y <= node.y + n
  {
    hide SidePenalty, Half, Abs;
    if n > 0 { RowPortsAre(node, other, bounds, n - 1, p); }
  }

  lemma {:induction false} ColumnPortsAre(node: Rect, other: Rect, bounds: Rect, n: nat, p: Port)
    requires n <= Inner(node.w)
    ensures p in ColumnPorts(node, other, bounds, 2 * Inner(node.h), n)
       <==> p.side in {TopSide, BottomSide} && IsPort(node, other, bounds, p) && p.border.x <= node.x + n
  {
    hide SidePenalty, Half, Abs;
    if n > 0 { ColumnPortsAre(node, other, bounds, n - 1, p); }
  }

  /** The ports of a node are those on its sides that open inside the bounds, each ranked by its side, its place and how well it is aligned. */
  lemma PortsAre(node: Rect, other: Rect, bounds: Rect, p: Port)
    ensures p in AllPorts(node, other, bounds) <==> IsPort(node, other, bounds, p)
  {
    hide RowPorts, ColumnPorts, SidePenalty, OffCentre, Place, Half, Abs;
    RowPortsAre(node, other, bounds, Inner(node.h), p);
    ColumnPortsAre(node, other, bounds, Inner(node.w), p);
  }

  /** The candidates are all the ports, or where there are more than twelve, twelve of them; in order of rank. */
  lemma CandidatesAre(node: Rect, other: Rect, bounds: Rect)
    ensures var n, kept := |AllPorts(node, other, bounds)|, PortCandidates(node, other, bounds);
      && |kept| == (if n > 12 then 12 else n)
      && (forall p | p in kept :: IsPort(node, other, bounds, p))
      && (n <= 12 ==> forall p | IsPort(node, other, bounds, p) :: p in kept)
      && forall i, j | 0 <= i < j < |kept| :: kept[i].rank <= kept[j].rank
  {
    hide AllPorts, IsPort;
    var all := AllPorts(node, other, bounds);
    assert IsRanking(PortBefore);
    SortSorts(all, PortBefore);
    forall p
      ensures p in StableSort(all, PortBefore) <==> IsPort(node, other, bounds, p)
      ensures |StableSort(all, PortBefore)| == |all|
    {
      SortHas(all, PortBefore, p);
      PortsAre(node, other, bounds, p);
    }
    var kept := PortCandidates(node, other, bounds);
    assert |kept| > 0 ==> IsPort(node, other, bounds, kept[0]);
    SortHas(all, PortBefore, Port(Point(0, 0), Point(0, 0), LeftSide, 0));
    forall i, j | 0 <= i < j < |kept|
      ensures kept[i].rank <= kept[j].rank
    {
      assert !PortBefore(kept[j], kept[i]);
    }
  }

  /** The side that faces the other node across the wider distance is free; the one behind costs 75, the others 35 or 28. */
  lemma SidesAre(node: Rect, other: Rect)
    ensures var dx := other.x + Half(other.w) - (node.x + Half(node.w)); var dy := other.y + Half(other.h) - (node.y + Half(node.h));
      var cost := (s: Side) => SidePenalty(node, other, s);
      if Abs(dx) >= Abs(dy) then
        && cost(if dx >= 0 then RightSide else LeftSide) == 0 && cost(if dx >= 0 then LeftSide else RightSide) == 75
        && cost(TopSide) == 35 && cost(BottomSide) == 35
      else
        && cost(if dy >= 0 then BottomSide else TopSide) == 0 && cost(if dy >= 0 then TopSide else BottomSide) == 75
        && cost(LeftSide) == 28 && cost(RightSide) == 28
  {
  }
}
