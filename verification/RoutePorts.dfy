/** Where routes may leave a node, in which order port pairs are tried, and the best route over all of them. */
module RoutePorts {
  import opened Numerals
  import opened RouteGrid
  import opened RouteSearch

  const MAX_PORTS: nat := 12

  // ---------------------------------------------------------------- stable sorting

  /** x goes after everything it does not precede. */
  function Insert<T>(xs: seq<T>, x: T, before: (T, T) -> bool): seq<T> {
    if xs != [] && before(x, xs[|xs| - 1]) then Insert(xs[..|xs| - 1], x, before) + [xs[|xs| - 1]] else xs + [x]
  }

  /** sort.SliceStable. */
  function StableSort<T>(xs: seq<T>, before: (T, T) -> bool): seq<T> {
    if xs == [] then [] else Insert(StableSort(xs[..|xs| - 1], before), xs[|xs| - 1], before)
  }

  ghost predicate SortedBy<T(!new)>(xs: seq<T>, before: (T, T) -> bool) {
    forall i, j | 0 <= i < j < |xs| :: !before(xs[j], xs[i])
  }

  /** before compares by some key: neither side preceding is as good as being equal. */
  ghost predicate IsRanking<T(!new)>(before: (T, T) -> bool) {
    && (forall a, b | before(a, b) :: !before(b, a))
    && (forall a, b, c | !before(a, b) && !before(b, c) :: !before(a, c))
  }

  lemma {:induction false} InsertHas<T>(xs: seq<T>, x: T, before: (T, T) -> bool, y: T)
    ensures y in Insert(xs, x, before) <==> y in xs || y == x
    ensures |Insert(xs, x, before)| == |xs| + 1
  {
    if xs != [] && before(x, xs[|xs| - 1]) {
      InsertHas(xs[..|xs| - 1], x, before, y);
      assert xs == xs[..|xs| - 1] + [xs[|xs| - 1]];
    }
  }

  lemma {:induction false} InsertSorts<T(!new)>(xs: seq<T>, x: T, before: (T, T) -> bool)
    requires IsRanking(before) && SortedBy(xs, before)
    ensures SortedBy(Insert(xs, x, before), before)
  {
    if xs != [] && before(x, xs[|xs| - 1]) {
      var init, last := xs[..|xs| - 1], xs[|xs| - 1];
      InsertSorts(init, x, before);
      var inserted := Insert(init, x, before);
      forall i | 0 <= i < |inserted|
        ensures !before(last, inserted[i])
      {
        InsertHas(init, x, before, inserted[i]);
      }
    } else {
      forall i | 0 <= i < |xs|
        ensures !before(x, xs[i])
      {
        assert !before(xs[|xs| - 1], xs[i]) || i == |xs| - 1;
      }
    }
  }

  lemma {:induction false} SortSorts<T(!new)>(xs: seq<T>, before: (T, T) -> bool)
    requires IsRanking(before)
    ensures SortedBy(StableSort(xs, before), before)
  {
    if xs != [] {
      SortSorts(xs[..|xs| - 1], before);
      InsertSorts(StableSort(xs[..|xs| - 1], before), xs[|xs| - 1], before);
    }
  }

  lemma {:induction false} SortHas<T>(xs: seq<T>, before: (T, T) -> bool, y: T)
    ensures y in StableSort(xs, before) <==> y in xs
    ensures |StableSort(xs, before)| == |xs|
  {
    if xs != [] {
      SortHas(xs[..|xs| - 1], before, y);
      InsertHas(StableSort(xs[..|xs| - 1], before), xs[|xs| - 1], before, y);
      assert xs == xs[..|xs| - 1] + [xs[|xs| - 1]];
    }
  }

  // ---------------------------------------------------------------- ports

  datatype Side = LeftSide | RightSide | TopSide | BottomSide
  datatype Port = Port(border: Point, entry: Point, side: Side, rank: int)

  function SidePenalty(node: Rect, other: Rect, side: Side): int {
    var dx := other.x + Half(other.w) - (node.x + Half(node.w));
    var dy := other.y + Half(other.h) - (node.y + Half(node.h));
    if Abs(dx) >= Abs(dy) then
      if (dx >= 0 && side == RightSide) || (dx < 0 && side == LeftSide) then 0
      else if side == TopSide || side == BottomSide then 35
      else 75
    else if (dy >= 0 && side == BottomSide) || (dy < 0 && side == TopSide) then 0
    else if side == LeftSide || side == RightSide then 28
    else 75
  }

  function PortRank(node: Rect, other: Rect, border: Point, side: Side, order: int): int {
    var distance := if side == LeftSide || side == RightSide then 3 * Abs(border.y - (other.y + Half(other.h)))
                    else Abs(border.x - (other.x + Half(other.w)));
    (SidePenalty(node, other, side) + distance) * 10 + order
  }

  function Offer(node: Rect, other: Rect, bounds: Rect, border: Point, entry: Point, side: Side, order: int): seq<Port> {
    if InRect(entry, bounds) then [Port(border, entry, side, PortRank(node, other, border, side, order))] else []
  }

  /** The ports beside the first n inner rows. */
  function RowPorts(node: Rect, other: Rect, bounds: Rect, n: nat): seq<Port> {
    if n == 0 then []
    else
      var y, order := node.y + n, 2 * (n - 1);
      RowPorts(node, other, bounds, n - 1)
      + Offer(node, other, bounds, Point(node.x, y), Point(node.x - 1, y), LeftSide, order)
      + Offer(node, other, bounds, Point(node.x + node.w - 1, y), Point(node.x + node.w, y), RightSide, order + 1)
  }

  /** The ports above and below the first n inner columns; `from` orders were used before. */
  function ColumnPorts(node: Rect, other: Rect, bounds: Rect, from: int, n: nat): seq<Port> {
    if n == 0 then []
    else
      var x, order := node.x + n, from + 2 * (n - 1);
      ColumnPorts(node, other, bounds, from, n - 1)
      + Offer(node, other, bounds, Point(x, node.y), Point(x, node.y - 1), TopSide, order)
      + Offer(node, other, bounds, Point(x, node.y + node.h - 1), Point(x, node.y + node.h), BottomSide, order + 1)
  }

  function Inner(n: int): nat {
    if n > 2 then n - 2 else 0
  }

  function AllPorts(node: Rect, other: Rect, bounds: Rect): seq<Port> {
    RowPorts(node, other, bounds, Inner(node.h)) + ColumnPorts(node, other, bounds, 2 * Inner(node.h), Inner(node.w))
  }

  predicate PortBefore(a: Port, b: Port) {
    if a.rank != b.rank then a.rank < b.rank
    else if a.border.y != b.border.y then a.border.y < b.border.y
    else a.border.x < b.border.x
  }

  function PortCandidates(node: Rect, other: Rect, bounds: Rect): seq<Port> {
    var sorted := StableSort(AllPorts(node, other, bounds), PortBefore);
    if |sorted| > MAX_PORTS then sorted[..MAX_PORTS] else sorted
  }

  /** Truncation keeps the best ports: none that was dropped precedes one that was kept. */
  lemma KeptPortsAreBest(node: Rect, other: Rect, bounds: Rect, dropped: Port, kept: Port)
    requires kept in PortCandidates(node, other, bounds)
    requires dropped in AllPorts(node, other, bounds) && dropped !in PortCandidates(node, other, bounds)
    ensures !PortBefore(dropped, kept) && kept in AllPorts(node, other, bounds)
  {
    hide AllPorts;
    var all := AllPorts(node, other, bounds);
    var sorted := StableSort(all, PortBefore);
    assert IsRanking(PortBefore);
    SortSorts(all, PortBefore);
    SortHas(all, PortBefore, kept);
    SortHas(all, PortBefore, dropped);
    var i :| 0 <= i < |sorted| && i < MAX_PORTS && sorted[i] == kept;
    var j :| 0 <= j < |sorted| && sorted[j] == dropped;
  }

  // ---------------------------------------------------------------- pairs

  datatype Pair = Pair(start: Port, end: Port, score: int)

  /** The pair of two candidate ports; its score is their ranks and their distance. */
  function PairOf(s: Port, t: Port): Pair {
    Pair(s, t, s.rank + t.rank + Manhattan(s.entry, t.entry))
  }

  function PairsFrom(start: Port, ends: seq<Port>): seq<Pair> {
    seq(|ends|, i requires 0 <= i < |ends| => PairOf(start, ends[i]))
  }

  function AllPairs(starts: seq<Port>, ends: seq<Port>): seq<Pair> {
    if starts == [] then [] else AllPairs(starts[..|starts| - 1], ends) + PairsFrom(starts[|starts| - 1], ends)
  }

  predicate PairBefore(a: Pair, b: Pair) {
    a.score < b.score
  }

  /** rankedPortPairs: by score, and in order of creation where scores are equal. */
  function RankedPairs(starts: seq<Port>, ends: seq<Port>): seq<Pair> {
    StableSort(AllPairs(starts, ends), PairBefore)
  }

  lemma {:induction false} PairsOfAll(starts: seq<Port>, ends: seq<Port>, s: Port, t: Port)
    requires s in starts && t in ends
    ensures exists p :: p in RankedPairs(starts, ends) && p.start == s && p.end == t
  {
    var i :| 0 <= i < |starts| && starts[i] == s;
    PairIsThere(starts, ends, i, t);
    var p :| p in AllPairs(starts, ends) && p.start == s && p.end == t;
    SortHas(AllPairs(starts, ends), PairBefore, p);
  }

  lemma {:induction false} PairIsThere(starts: seq<Port>, ends: seq<Port>, i: nat, t: Port)
    requires i < |starts| && t in ends
    ensures exists p :: p in AllPairs(starts, ends) && p.start == starts[i] && p.end == t
  {
    var n := |starts|;
    if i == n - 1 {
      var j :| 0 <= j < |ends| && ends[j] == t;
      assert PairsFrom(starts[n - 1], ends)[j] in AllPairs(starts, ends);
    } else {
      PairIsThere(starts[..n - 1], ends, i, t);
    }
  }

  // ---------------------------------------------------------------- the best route

  datatype Route = Route(cells: seq<Point>, start: Port, end: Port, cost: int, pairScore: int)

  function ExitDir(p: Port): Option<Dir> {
    DirBetween(p.border, p.entry)
  }

  function ApproachDir(p: Port): Option<Dir> {
    match ExitDir(p) case None => None case Some(d) => Some(Opposite(d))
  }

  function EndsOf(p: Pair): Ends {
    Ends(p.start.entry, p.end.entry, ExitDir(p.start), ApproachDir(p.end))
  }

  predicate TieBreak(cells: seq<Point>, pair: Pair, best: Route) {
    if |cells| != |best.cells| then |cells| < |best.cells|
    else if pair.score != best.pairScore then pair.score < best.pairScore
    else if cells == [] then false
    else if cells[0].y != best.cells[0].y then cells[0].y < best.cells[0].y
    else cells[0].x < best.cells[0].x
  }

  function RouteFor(f: Field, p: Pair, relaxed: bool): Option<Route> {
    match BestPath(f, EndsOf(p), relaxed)
    case None => None
    case Some(path) => Some(Route(path.cells, p.start, p.end, path.cost + p.score, p.score))
  }

  function Choose(best: Option<Route>, r: Option<Route>, p: Pair): Option<Route> {
    if r.None? then best
    else if best.None? || r.value.cost < best.value.cost
            || (r.value.cost == best.value.cost && TieBreak(r.value.cells, p, best.value)) then r
    else best
  }

  function BestRoute(f: Field, pairs: seq<Pair>, relaxed: bool): Option<Route> {
    if pairs == [] then None
    else
      var last := pairs[|pairs| - 1];
      Choose(BestRoute(f, pairs[..|pairs| - 1], relaxed), RouteFor(f, last, relaxed), last)
  }

  function PairsBetween(from: Rect, to: Rect, bounds: Rect): seq<Pair> {
    RankedPairs(PortCandidates(from, to, bounds), PortCandidates(to, from, bounds))
  }

  function PlanRoute(f: Field, from: Rect, to: Rect, relaxed: bool): Option<Route> {
    if from.w < 2 || from.h < 2 || to.w < 2 || to.h < 2 then None
    else BestRoute(f, PairsBetween(from, to, f.bounds), relaxed)
  }

  method PlanRouteWithOptions(f: Field, from: Rect, to: Rect, relaxed: bool) returns (best: Option<Route>)
    ensures best == PlanRoute(f, from, to, relaxed)
  {
    hide BestPath, PairsBetween;
    if from.w < 2 || from.h < 2 || to.w < 2 || to.h < 2 {
      return None;
    }
    var pairs := PairsBetween(from, to, f.bounds);
    best := None;
    for i := 0 to |pairs|
      invariant best == BestRoute(f, pairs[..i], relaxed)
    {
      assert pairs[..i + 1][..i] == pairs[..i];
      var pair := pairs[i];
      var path := SimplePath(f, EndsOf(pair), relaxed);
      if path.None? {
        continue;
      }
      var cost := path.value.cost + pair.score;
      if best.None? || cost < best.value.cost || (cost == best.value.cost && TieBreak(path.value.cells, pair, best.value)) {
        best := Some(Route(path.value.cells, pair.start, pair.end, cost, pair.score));
      }
    }
    assert pairs[..|pairs|] == pairs;
  }

  lemma {:induction false} BestRouteIsCheapest(f: Field, pairs: seq<Pair>, relaxed: bool)
    ensures var best := BestRoute(f, pairs, relaxed);
      && (best.Some? ==> exists p :: p in pairs && RouteFor(f, p, relaxed) == best)
      && (forall p | p in pairs && RouteFor(f, p, relaxed).Some? ::
            best.Some? && best.value.cost <= RouteFor(f, p, relaxed).value.cost)
  {
    hide RouteFor;
    if pairs != [] {
      BestRouteIsCheapest(f, pairs[..|pairs| - 1], relaxed);
      assert pairs == pairs[..|pairs| - 1] + [pairs[|pairs| - 1]];
    }
  }

  /**
   The planned route is the cheapest clear path over all candidate ports of both nodes and all waypoint
   sets, path cost and port ranks taken together; it exists whenever any such path is clear.
   */
  lemma PlanIsCheapest(f: Field, from: Rect, to: Rect, relaxed: bool, s: Port, t: Port, w: seq<Point>)
    requires from.w >= 2 && from.h >= 2 && to.w >= 2 && to.h >= 2
    requires s in PortCandidates(from, to, f.bounds) && t in PortCandidates(to, from, f.bounds)
    requires var e := Ends(s.entry, t.entry, ExitDir(s), ApproachDir(t)); w in Waypoints(e) && Candidate(f, w, e, relaxed).Some?
    ensures var e := Ends(s.entry, t.entry, ExitDir(s), ApproachDir(t)); var plan := PlanRoute(f, from, to, relaxed);
      plan.Some? && plan.value.cost
        <= Candidate(f, w, e, relaxed).value.cost + PairOf(s, t).score
  {
    hide PortCandidates, Waypoints, Candidate, RankedPairs;
    var e := Ends(s.entry, t.entry, ExitDir(s), ApproachDir(t));
    var p := PairOf(s, t);
    PairIsRanked(from, to, f.bounds, s, t);
    assert EndsOf(p) == e;
    BestOfIsCheapest(f, Waypoints(e), e, relaxed);
    BestRouteIsCheapest(f, PairsBetween(from, to, f.bounds), relaxed);
  }

  lemma {:induction false} ScoresOfAll(starts: seq<Port>, ends: seq<Port>, p: Pair)
    requires p in AllPairs(starts, ends)
    ensures p == PairOf(p.start, p.end)
    ensures p.start in starts && p.end in ends
  {
    if starts != [] && p !in PairsFrom(starts[|starts| - 1], ends) { ScoresOfAll(starts[..|starts| - 1], ends, p); }
  }

  lemma PairIsRanked(from: Rect, to: Rect, bounds: Rect, s: Port, t: Port)
    requires s in PortCandidates(from, to, bounds) && t in PortCandidates(to, from, bounds)
    ensures PairOf(s, t) in PairsBetween(from, to, bounds)
  {
    hide PortCandidates, AllPairs, StableSort;
    var starts, ends := PortCandidates(from, to, bounds), PortCandidates(to, from, bounds);
    PairsOfAll(starts, ends, s, t);
    var p :| p in RankedPairs(starts, ends) && p.start == s && p.end == t;
    SortHas(AllPairs(starts, ends), PairBefore, p);
    ScoresOfAll(starts, ends, p);
  }

  /** Allowing occupied cells never loses a route and never costs more. */
  lemma RelaxedRouteIsNoWorse(f: Field, from: Rect, to: Rect)
    requires PlanRoute(f, from, to, false).Some?
    ensures PlanRoute(f, from, to, true).Some? && PlanRoute(f, from, to, true).value.cost <= PlanRoute(f, from, to, false).value.cost
  {
    hide PairsBetween, BestPath;
    var pairs := PairsBetween(from, to, f.bounds);
    BestRouteIsCheapest(f, pairs, false);
    BestRouteIsCheapest(f, pairs, true);
    var p :| p in pairs && RouteFor(f, p, false) == BestRoute(f, pairs, false);
    RelaxedPathIsNoWorse(f, EndsOf(p));
  }

  predicate GoodRoute(f: Field, r: Route, relaxed: bool) {
    |r.cells| >= 1 && Chain(r.cells) && Clear(f, r.cells, relaxed) && r.cells[0] == r.start.entry && r.cells[|r.cells| - 1] == r.end.entry
  }

  lemma PlanIsGood(f: Field, from: Rect, to: Rect, relaxed: bool)
    requires PlanRoute(f, from, to, relaxed).Some?
    ensures GoodRoute(f, PlanRoute(f, from, to, relaxed).value, relaxed)
  {
    hide PairsBetween, BestPath, Clear, Chain;
    var pairs := PairsBetween(from, to, f.bounds);
    BestRouteIsCheapest(f, pairs, relaxed);
    var p :| p in pairs && RouteFor(f, p, relaxed) == BestRoute(f, pairs, relaxed);
    BestPathIsClear(f, EndsOf(p), relaxed);
  }

  lemma {:induction false} SameBestRoute(f: Field, g: Field, pairs: seq<Pair>, relaxed: bool)
    requires SameNodes(f, g)
    ensures BestRoute(f, pairs, relaxed) == BestRoute(g, pairs, relaxed)
  {
    hide SameNodes, BestOf, Waypoints, TieBreak;
    if pairs != [] {
      SameBestRoute(f, g, pairs[..|pairs| - 1], relaxed);
      var e := EndsOf(pairs[|pairs| - 1]);
      SameBestOf(f, g, Waypoints(e), e, relaxed);
    }
  }
}
