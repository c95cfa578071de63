/** Cells, line masks and paths on the character grid. */
module RouteGrid {
  import opened Numerals

  datatype Point = Point(x: int, y: int)
  datatype Rect = Rect(x: int, y: int, w: int, h: int)
  datatype Dir = Up | Right | Down | Left

  predicate InRect(p: Point, r: Rect) {
    r.x <= p.x < r.x + r.w && r.y <= p.y < r.y + r.h
  }

  function Abs(n: int): nat {
    if n < 0 then -n else n
  }

  function Manhattan(a: Point, b: Point): nat {
    Abs(a.x - b.x) + Abs(a.y - b.y)
  }

  function Neighbour(p: Point, d: Dir): Point {
    match d
    case Up => Point(p.x, p.y - 1)
    case Right => Point(p.x + 1, p.y)
    case Down => Point(p.x, p.y + 1)
    case Left => Point(p.x - 1, p.y)
  }

  function Opposite(d: Dir): Dir {
    match d case Up => Down case Right => Left case Down => Up case Left => Right
  }

  /** directionBetween. */
  function DirBetween(a: Point, b: Point): (d: Option<Dir>)
    ensures d.Some? <==> Manhattan(a, b) == 1
    ensures d.Some? ==> b == Neighbour(a, d.value)
  {
    if b == Point(a.x, a.y - 1) then Some(Up)
    else if b == Point(a.x + 1, a.y) then Some(Right)
    else if b == Point(a.x, a.y + 1) then Some(Down)
    else if b == Point(a.x - 1, a.y) then Some(Left)
    else None
  }

  // ---------------------------------------------------------------- occupancy

  /** A line mask: the directions in which lines leave a cell. */
  type Mask = set<Dir>
  type Occupied = map<Point, Mask>

  function MaskAt(occupied: Occupied, p: Point): Mask {
    if p in occupied then occupied[p] else {}
  }

  function MaskBetween(a: Point, b: Point): Mask {
    var d := DirBetween(a, b);
    if d.Some? then {d.value} else {}
  }

  function AddMask(occupied: Occupied, p: Point, m: Mask): Occupied {
    occupied[p := MaskAt(occupied, p) + m]
  }

  function Reserved(occupied: Occupied, cells: seq<Point>): Occupied {
    if |cells| < 2 then occupied
    else
      var a, b := cells[|cells| - 2], cells[|cells| - 1];
      AddMask(AddMask(Reserved(occupied, cells[..|cells| - 1]), a, MaskBetween(a, b)), b, MaskBetween(b, a))
  }

  /** Every line out of a cell is a line into its neighbour. */
  ghost predicate Symmetric(occupied: Occupied) {
    forall p, d :: d in MaskAt(occupied, p) <==> Opposite(d) in MaskAt(occupied, Neighbour(p, d))
  }

  /** The lines one step along a route adds. */
  predicate StepHas(a: Point, b: Point, p: Point, d: Dir) {
    (a == p && b == Neighbour(p, d)) || (b == p && a == Neighbour(p, d))
  }

  lemma NeighbourDir(a: Point, b: Point, d: Dir)
    ensures d in MaskBetween(a, b) <==> b == Neighbour(a, d)
  {
  }

  lemma AddedMask(occupied: Occupied, a: Point, b: Point, p: Point, d: Dir)
    ensures d in MaskAt(AddMask(AddMask(occupied, a, MaskBetween(a, b)), b, MaskBetween(b, a)), p)
       <==> d in MaskAt(occupied, p) || StepHas(a, b, p, d)
  {
    NeighbourDir(a, b, d);
    NeighbourDir(b, a, d);
  }

  ghost predicate RouteHas(cells: seq<Point>, p: Point, d: Dir) {
    exists i :: 0 <= i < |cells| - 1 && StepHas(cells[i], cells[i + 1], p, d)
  }

  /** Reserving adds exactly the lines along the route, in both directions, and takes none away. */
  lemma {:induction false} ReservedExactly(occupied: Occupied, cells: seq<Point>, p: Point, d: Dir)
    ensures d in MaskAt(Reserved(occupied, cells), p) <==> d in MaskAt(occupied, p) || RouteHas(cells, p, d)
  {
    if |cells| >= 2 {
      var n := |cells|;
      var init := cells[..n - 1];
      ReservedExactly(occupied, init, p, d);
      AddedMask(Reserved(occupied, init), cells[n - 2], cells[n - 1], p, d);
      assert RouteHas(cells, p, d) <==> RouteHas(init, p, d) || StepHas(cells[n - 2], cells[n - 1], p, d) by {
        LastStep(cells, p, d);
      }
    }
  }

  lemma LastStep(cells: seq<Point>, p: Point, d: Dir)
    requires |cells| >= 2
    ensures RouteHas(cells, p, d)
       <==> RouteHas(cells[..|cells| - 1], p, d) || StepHas(cells[|cells| - 2], cells[|cells| - 1], p, d)
  {
    var n := |cells|;
    var init := cells[..n - 1];
    if RouteHas(cells, p, d) {
      var i :| 0 <= i < n - 1 && StepHas(cells[i], cells[i + 1], p, d);
      if i < n - 2 { assert StepHas(init[i], init[i + 1], p, d); }
    }
    if RouteHas(init, p, d) {
      var i :| 0 <= i < |init| - 1 && StepHas(init[i], init[i + 1], p, d);
      assert StepHas(cells[i], cells[i + 1], p, d);
    }
    if StepHas(cells[n - 2], cells[n - 1], p, d) {
      assert 0 <= n - 2 < |cells| - 1 && StepHas(cells[n - 2], cells[n - 2 + 1], p, d);
    }
  }

  lemma StepHasBothWays(a: Point, b: Point, p: Point, d: Dir)
    ensures StepHas(a, b, p, d) <==> StepHas(a, b, Neighbour(p, d), Opposite(d))
  {
  }

  lemma RouteHasBothWays(cells: seq<Point>, p: Point, d: Dir)
    ensures RouteHas(cells, p, d) <==> RouteHas(cells, Neighbour(p, d), Opposite(d))
  {
    forall i | 0 <= i < |cells| - 1
      ensures StepHas(cells[i], cells[i + 1], p, d) <==> StepHas(cells[i], cells[i + 1], Neighbour(p, d), Opposite(d))
    {
      StepHasBothWays(cells[i], cells[i + 1], p, d);
    }
    if RouteHas(cells, p, d) {
      var i :| 0 <= i < |cells| - 1 && StepHas(cells[i], cells[i + 1], p, d);
      assert StepHas(cells[i], cells[i + 1], Neighbour(p, d), Opposite(d));
    }
    if RouteHas(cells, Neighbour(p, d), Opposite(d)) {
      var i :| 0 <= i < |cells| - 1 && StepHas(cells[i], cells[i + 1], Neighbour(p, d), Opposite(d));
      assert StepHas(cells[i], cells[i + 1], p, d);
    }
  }

  /** Whatever is reserved, the masks stay symmetric. */
  lemma ReservingKeepsSymmetry(occupied: Occupied, cells: seq<Point>)
    requires Symmetric(occupied)
    ensures Symmetric(Reserved(occupied, cells))
  {
    hide RouteHas, Reserved;
    forall p, d
      ensures d in MaskAt(Reserved(occupied, cells), p) <==> Opposite(d) in MaskAt(Reserved(occupied, cells), Neighbour(p, d))
    {
      ReservedExactly(occupied, cells, p, d);
      ReservedExactly(occupied, cells, Neighbour(p, d), Opposite(d));
      RouteHasBothWays(cells, p, d);
    }
  }

  /** A chain of unit steps. */
  predicate Chain(cells: seq<Point>) {
    forall i | 0 <= i < |cells| - 1 :: DirBetween(cells[i], cells[i + 1]).Some?
  }

  /** A chain of two or more cells occupies each of its cells; a single cell occupies nothing. */
  lemma ReservedCells(occupied: Occupied, cells: seq<Point>)
    requires Chain(cells)
    ensures |cells| >= 2 ==> forall p | p in cells :: MaskAt(Reserved(occupied, cells), p) != {}
    ensures |cells| < 2 ==> Reserved(occupied, cells) == occupied
    ensures forall p | MaskAt(occupied, p) != {} :: MaskAt(Reserved(occupied, cells), p) != {}
  {
    hide Reserved;
    if |cells| >= 2 {
      forall p | p in cells
        ensures MaskAt(Reserved(occupied, cells), p) != {}
      {
        var i :| 0 <= i < |cells| && cells[i] == p;
        var j := if i == 0 then 1 else i - 1;
        var d := DirBetween(p, cells[j]).value;
        assert StepHas(cells[if i == 0 then 0 else j], cells[(if i == 0 then 0 else j) + 1], p, d);
        ReservedExactly(occupied, cells, p, d);
      }
    } else {
      NothingReserved(occupied, cells);
    }
    forall p | MaskAt(occupied, p) != {}
      ensures MaskAt(Reserved(occupied, cells), p) != {}
    {
      var d :| d in MaskAt(occupied, p);
      ReservedExactly(occupied, cells, p, d);
    }
  }

  lemma NothingReserved(occupied: Occupied, cells: seq<Point>)
    requires |cells| < 2
    ensures Reserved(occupied, cells) == occupied
  {
  }

  // ---------------------------------------------------------------- paths through waypoints

  function Sign(n: int): int {
    if n < 0 then -1 else if n > 0 then 1 else 0
  }

  predicate Aligned(a: Point, b: Point) {
    a.x == b.x || a.y == b.y
  }

  function Toward(p: Point, to: Point): Point {
    Point(p.x + Sign(to.x - p.x), p.y + Sign(to.y - p.y))
  }

  /** The cells after p on the straight line to an aligned point. */
  function Walk(p: Point, to: Point): seq<Point>
    requires Aligned(p, to)
    decreases Manhattan(p, to)
  {
    if p == to then [] else [Toward(p, to)] + Walk(Toward(p, to), to)
  }

  function PathCells(waypoints: seq<Point>): Option<seq<Point>> {
    if waypoints == [] then None
    else if |waypoints| == 1 then Some(waypoints)
    else
      var n := |waypoints|;
      var before := PathCells(waypoints[..n - 1]);
      if before.None? || !Aligned(waypoints[n - 2], waypoints[n - 1]) then None
      else Some(before.value + Walk(waypoints[n - 2], waypoints[n - 1]))
  }

  /** The inner loop: one cell at a time; the Manhattan distance left is what decreases. */
  method AppendWalk(before: seq<Point>, from: Point, to: Point) returns (cells: seq<Point>)
    requires Aligned(from, to) && before != [] && before[|before| - 1] == from
    ensures cells == before + Walk(from, to) && cells[|cells| - 1] == to
  {
    cells := before;
    var dx, dy := Sign(to.x - from.x), Sign(to.y - from.y);
    var point := from;
    while point != to
      invariant Aligned(point, to)
      invariant point != to ==> dx == Sign(to.x - point.x) && dy == Sign(to.y - point.y)
      invariant |cells| > 0 && cells[|cells| - 1] == point
      invariant before + Walk(from, to) == cells + Walk(point, to)
      decreases Manhattan(point, to)
    {
      assert Point(point.x + dx, point.y + dy) == Toward(point, to);
      point := Point(point.x + dx, point.y + dy);
      if point != cells[|cells| - 1] {
        cells := cells + [point];
      }
    }
  }

  method PathCellsFromWaypoints(waypoints: seq<Point>) returns (path: Option<seq<Point>>)
    ensures path == PathCells(waypoints)
  {
    if |waypoints| == 0 {
      return None;
    }
    var cells := [waypoints[0]];
    assert waypoints[..1] == [waypoints[0]];
    for i := 1 to |waypoints|
      invariant PathCells(waypoints[..i]) == Some(cells) && |cells| > 0 && cells[|cells| - 1] == waypoints[i - 1]
    {
      var from, to := waypoints[i - 1], waypoints[i];
      assert waypoints[..i + 1][..i] == waypoints[..i];
      if Sign(to.x - from.x) != 0 && Sign(to.y - from.y) != 0 {
        LaterPathsFail(waypoints, i + 1);
        return None;
      }
      cells := AppendWalk(cells, from, to);
    }
    assert waypoints[..|waypoints|] == waypoints;
    return Some(cells);
  }

  lemma {:induction false} LaterPathsFail(waypoints: seq<Point>, n: nat)
    requires 1 <= n <= |waypoints| && PathCells(waypoints[..n]).None?
    ensures PathCells(waypoints).None?
    decreases |waypoints| - n
  {
    if n == |waypoints| {
      assert waypoints[..n] == waypoints;
    } else {
      assert waypoints[..n + 1][..n] == waypoints[..n];
      LaterPathsFail(waypoints, n + 1);
    }
  }

  predicate JoinedTo(p: Point, cells: seq<Point>, to: Point) {
    && Chain([p] + cells)
    && ([p] + cells)[|cells|] == to
  }

  lemma {:induction false} WalkIsChain(p: Point, to: Point)
    requires Aligned(p, to)
    ensures JoinedTo(p, Walk(p, to), to)
    decreases Manhattan(p, to)
  {
    if p != to {
      var next := Toward(p, to);
      WalkIsChain(next, to);
      var rest := [next] + Walk(next, to);
      var all := [p] + Walk(p, to);
      assert all == [p] + rest;
      assert forall i | 1 <= i < |all| - 1 :: all[i] == rest[i - 1] && all[i + 1] == rest[i];
    }
  }

  /** A path runs from its first waypoint to its last in unit steps. */
  lemma {:induction false} PathIsChain(waypoints: seq<Point>)
    requires PathCells(waypoints).Some?
    ensures var cells := PathCells(waypoints).value;
      |cells| >= 1 && Chain(cells) && cells[0] == waypoints[0] && cells[|cells| - 1] == waypoints[|waypoints| - 1]
  {
    var n := |waypoints|;
    if n > 1 {
      PathIsChain(waypoints[..n - 1]);
      WalkIsChain(waypoints[n - 2], waypoints[n - 1]);
      JoinedChains(PathCells(waypoints[..n - 1]).value, Walk(waypoints[n - 2], waypoints[n - 1]), waypoints[n - 1]);
    }
  }

  lemma JoinedChains(cells: seq<Point>, more: seq<Point>, to: Point)
    requires |cells| >= 1 && Chain(cells) && JoinedTo(cells[|cells| - 1], more, to)
    ensures var all := cells + more; Chain(all) && all[|all| - 1] == to
  {
    var all := cells + more;
    var tail := [cells[|cells| - 1]] + more;
    forall i | 0 <= i < |all| - 1
      ensures DirBetween(all[i], all[i + 1]).Some?
    {
      if i < |cells| - 1 {
        assert all[i] == cells[i] && all[i + 1] == cells[i + 1];
      } else {
        assert all[i] == tail[i - (|cells| - 1)] && all[i + 1] == tail[i + 1 - (|cells| - 1)];
      }
    }
  }

  lemma ReversedChain(cells: seq<Point>, back: seq<Point>)
    requires Chain(cells) && |back| == |cells| && forall i | 0 <= i < |cells| :: back[i] == cells[|cells| - 1 - i]
    ensures Chain(back)
  {
    forall i | 0 <= i < |back| - 1
      ensures DirBetween(back[i], back[i + 1]).Some?
    {
      assert DirBetween(cells[|cells| - 2 - i], cells[|cells| - 1 - i]).Some?;
    }
  }
}
