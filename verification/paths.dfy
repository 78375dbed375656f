/** `EnvGraph.get_path` and the path cost built on it: the shortest route
    between two coordinates, given as the coordinates it visits (the origin
    left out) and the move actions that follow it. */
module Paths {
  import opened Results
  import opened Grid
  import opened Search
  import Actions

  /** `get_path`'s pair of lists: coordinates visited and actions taken. */
  datatype Route = Route(cords: seq<Cell>, actions: seq<int>)

  /** The action `get_path` emits for a step whose node index changes by
      delta. West and East are tested before North, so with a single column a
      step up (delta -1 == -cols) is read as West. */
  function ActionOf(cols: nat, delta: int): (r: int)
    ensures r in {Actions.South, Actions.North, Actions.East, Actions.West}
    ensures cols >= 2 && delta in {-1, 1, -(cols as int), cols as int} ==> Offset(cols, r) == delta
  {
    if delta == -1 then Actions.West
    else if delta == 1 then Actions.East
    else if delta == -(cols as int) then Actions.North
    else Actions.South
  }

  /** The change of node index a move action makes on a grid of `cols`
      columns. */
  function Offset(cols: nat, a: int): int
  {
    if a == Actions.South then cols
    else if a == Actions.North then -(cols as int)
    else if a == Actions.East then 1
    else if a == Actions.West then -1
    else 0
  }

  /** Where a move action takes a taxi: south and north change the row, east
      and west the column; any other action leaves it in place. */
  function Move(c: Cell, a: int): Cell
  {
    if a == Actions.South then Cell(c.row + 1, c.col)
    else if a == Actions.North then Cell(c.row - 1, c.col)
    else if a == Actions.East then Cell(c.row, c.col + 1)
    else if a == Actions.West then Cell(c.row, c.col - 1)
    else c
  }

  /** The cells reached after each action, performing them in order from c. */
  function Replay(c: Cell, actions: seq<int>): (r: seq<Cell>)
    ensures |r| == |actions|
    decreases |actions|
  {
    if actions == [] then []
    else [Move(c, actions[0])] + Replay(Move(c, actions[0]), actions[1..])
  }

  /** The coordinates of the nodes of p. */
  function NodeCells(g: EnvGraph, p: seq<int>): (r: seq<Cell>)
    requires g.cols > 0
    ensures |r| == |p|
    ensures forall i :: 0 <= i < |p| ==> r[i] == NodeToCors(g, p[i])
  {
    seq(|p|, i requires 0 <= i < |p| => NodeToCors(g, p[i]))
  }

  /** One action per step of the node sequence p. */
  function StepActions(cols: nat, p: seq<int>): (r: seq<int>)
    ensures |p| > 0 ==> |r| == |p| - 1
    decreases |p|
  {
    if |p| < 2 then []
    else [ActionOf(cols, p[1] - p[0])] + StepActions(cols, p[1..])
  }

  /** The two coordinates name the same node, or two graph nodes joined by a walk. */
  ghost predicate Routable(g: EnvGraph, origin: Cell, target: Cell)
    requires Valid(g)
  {
    || CorsToNode(g, origin) == CorsToNode(g, target)
    || (&& InGraph(g, CorsToNode(g, origin)) && InGraph(g, CorsToNode(g, target))
        && Connected(g, CorsToNode(g, origin), CorsToNode(g, target)))
  }

  /** `get_path(origin, target)`. Both coordinates are turned into nodes
      without any range check. The same node gives two empty lists; otherwise
      the search's failures surface unchanged, and a found path gives one
      coordinate and one action per edge, ending at the target's node. */
  function GetPath(g: EnvGraph, origin: Cell, target: Cell): (r: Result<Route, PathError>)
    requires Valid(g)
    ensures r.Success? <==> Routable(g, origin, target)
    ensures r.Success? ==> |r.value.cords| == |r.value.actions|
    ensures r.Success? ==> (r.value.cords == [] <==> CorsToNode(g, origin) == CorsToNode(g, target))
    ensures r == Failure(NodeNotFound) <==>
              CorsToNode(g, origin) != CorsToNode(g, target) &&
              (!InGraph(g, CorsToNode(g, origin)) || !InGraph(g, CorsToNode(g, target)))
    ensures r == Failure(NoPath) <==>
              CorsToNode(g, origin) != CorsToNode(g, target) &&
              InGraph(g, CorsToNode(g, origin)) && InGraph(g, CorsToNode(g, target)) &&
              !Connected(g, CorsToNode(g, origin), CorsToNode(g, target))
    ensures r.Success? && r.value.cords != [] ==>
              g.cols > 0 && r.value.cords[|r.value.cords| - 1] == NodeToCors(g, CorsToNode(g, target))
  {
    var s, t := CorsToNode(g, origin), CorsToNode(g, target);
    if s == t then Success(Route([], []))
    else
      var p :- ShortestPath(g, s, t);
      InGraphHasColumns(g, s);
      Success(Route(NodeCells(g, p)[1..], StepActions(g.cols, p)))
  }

  /** The node path behind a route between two different nodes. */
  lemma RouteUnfolds(g: EnvGraph, origin: Cell, target: Cell)
    requires Valid(g) && GetPath(g, origin, target).Success?
    requires CorsToNode(g, origin) != CorsToNode(g, target)
    ensures var p := ShortestPath(g, CorsToNode(g, origin), CorsToNode(g, target));
            && p.Success? && g.cols > 0 && |p.value| >= 2
            && GetPath(g, origin, target).value == Route(NodeCells(g, p.value)[1..], StepActions(g.cols, p.value))
  {
    InGraphHasColumns(g, CorsToNode(g, origin));
  }

  /** The route is a walk: the first coordinate neighbours the origin, and
      each coordinate neighbours the next. */
  lemma RouteStepsAreEdges(g: EnvGraph, origin: Cell, target: Cell)
    requires Valid(g) && GetPath(g, origin, target).Success?
    ensures var cs := GetPath(g, origin, target).value.cords;
            && (cs != [] ==> Adj(g, CorsToNode(g, origin), CorsToNode(g, cs[0])))
            && (forall i, j :: 0 <= i && j == i + 1 && j < |cs| ==>
                  Adj(g, CorsToNode(g, cs[i]), CorsToNode(g, cs[j])))
  {
    var s, t := CorsToNode(g, origin), CorsToNode(g, target);
    if s != t {
      RouteUnfolds(g, origin, target);
      var p := ShortestPath(g, s, t).value;
      var cs := GetPath(g, origin, target).value.cords;
      assert CorsToNode(g, cs[0]) == p[1];
      assert Adj(g, p[0], p[1]);
      forall i, j | 0 <= i && j == i + 1 && j < |cs|
        ensures Adj(g, CorsToNode(g, cs[i]), CorsToNode(g, cs[j]))
      {
        assert CorsToNode(g, cs[i]) == p[i + 1] && CorsToNode(g, cs[j]) == p[j + 1];
      }
    }
  }

  /** The route's length is the distance between the two nodes: no walk
      between them has fewer edges. */
  lemma RouteIsShortest(g: EnvGraph, origin: Cell, target: Cell)
    requires Valid(g) && GetPath(g, origin, target).Success?
    ensures IsDistance(g, CorsToNode(g, origin), CorsToNode(g, target),
                       |GetPath(g, origin, target).value.cords|)
  {
    var s, t := CorsToNode(g, origin), CorsToNode(g, target);
    if s == t {
      assert IsWalkBetween(g, [s], s, t);
    } else {
      RouteUnfolds(g, origin, target);
      ShortestPathMeasuresDistance(g, s, t);
    }
  }

  /** When the target's column lies inside the grid, the route ends exactly
      at the target coordinate. */
  lemma RouteEndsAtTarget(g: EnvGraph, origin: Cell, target: Cell)
    requires Valid(g) && GetPath(g, origin, target).Success?
    requires GetPath(g, origin, target).value.cords != []
    requires 0 <= target.col < g.cols
    ensures var cs := GetPath(g, origin, target).value.cords; cs[|cs| - 1] == target
  {
    CoordinateRoundTrip(g, target);
  }

  // ---------------------------------------------------------------------------
  // Replaying the actions
  // ---------------------------------------------------------------------------

  /** No east edge leaves the last column, so each east edge joins two cells
      of one row. */
  predicate Aligned(g: EnvGraph)
    requires Valid(g)
  {
    forall u :: 0 <= u < |g.east| && g.east[u] ==> g.cols > 0 && u % g.cols != g.cols - 1
  }

  /** A map whose right frame has no `:` builds an aligned graph. */
  lemma FramedRowsAreAligned(desc: seq<string>, g: EnvGraph)
    requires Build(desc) == Success(g)
    requires forall r :: 0 <= r < g.rows ==> RightWall(desc, g.cols, r)
    ensures Aligned(g)
  {
    forall u | 0 <= u < |g.east| && g.east[u]
      ensures g.cols > 0 && u % g.cols != g.cols - 1
    {
      BuiltFlags(desc, g, u);
      ScannedNodeRows(g, u);
      assert RightWall(desc, g.cols, NodeToCors(g, u).row);
    }
  }

  /** The node cols further on is the cell below. */
  lemma CellBelow(g: EnvGraph, u: int)
    requires g.cols > 0
    ensures NodeToCors(g, u + g.cols) == Cell(NodeToCors(g, u).row + 1, NodeToCors(g, u).col)
  {
    var a := NodeToCors(g, u);
    assert u + g.cols == (a.row + 1) * g.cols + a.col;
    DivModUnique(u + g.cols, g.cols, a.row + 1, a.col);
  }

  /** The next node is the cell to the right, unless u ends its row. */
  lemma CellRight(g: EnvGraph, u: int)
    requires g.cols > 0 && u % g.cols != g.cols - 1
    ensures NodeToCors(g, u + 1) == Cell(NodeToCors(g, u).row, NodeToCors(g, u).col + 1)
  {
    var a := NodeToCors(g, u);
    DivModUnique(u + 1, g.cols, a.row, a.col + 1);
  }

  /** In an aligned graph with at least two columns, the action emitted for
      an edge moves a taxi from the edge's first cell to its second. */
  lemma StepMatchesAction(g: EnvGraph, u: int, v: int)
    requires Valid(g) && g.cols >= 2 && Aligned(g) && Adj(g, u, v)
    ensures Move(NodeToCors(g, u), ActionOf(g.cols, v - u)) == NodeToCors(g, v)
  {
    AdjFacts(g, u, v);
    if v == u + g.cols {
      CellBelow(g, u);
    } else if v == u - g.cols {
      CellBelow(g, v);
    } else if v == u + 1 {
      assert g.east[u];
      CellRight(g, u);
    } else {
      assert v == u - 1 && g.east[v];
      CellRight(g, v);
    }
  }

  /** The tail of a walk is a walk, and its first two nodes are neighbours. */
  lemma WalkTail(g: EnvGraph, p: seq<int>)
    requires Valid(g) && |p| > 1 && IsWalk(g, p)
    ensures IsWalk(g, p[1..]) && Adj(g, p[0], p[1])
  {
    var q := p[1..];
    forall i, j | 0 <= i && j == i + 1 && j < |q|
      ensures Adj(g, q[i], q[j])
    {
      assert q[i] == p[i + 1] && q[j] == p[j + 1];
    }
  }

  lemma NodeCellsSplit(g: EnvGraph, p: seq<int>)
    requires g.cols > 0 && |p| > 1
    ensures NodeCells(g, p)[1..] == [NodeToCors(g, p[1])] + NodeCells(g, p[1..])[1..]
  {
  }

  lemma ReplaySplit(c: Cell, a: int, rest: seq<int>)
    ensures Replay(c, [a] + rest) == [Move(c, a)] + Replay(Move(c, a), rest)
  {
    assert ([a] + rest)[1..] == rest;
  }

  lemma {:induction false} ReplayFollowsWalk(g: EnvGraph, p: seq<int>)
    requires Valid(g) && g.cols >= 2 && Aligned(g) && |p| > 0 && IsWalk(g, p)
    ensures Replay(NodeToCors(g, p[0]), StepActions(g.cols, p)) == NodeCells(g, p)[1..]
    decreases |p|
  {
    if |p| > 1 {
      WalkTail(g, p);
      ReplayFollowsWalk(g, p[1..]);
      StepMatchesAction(g, p[0], p[1]);
      NodeCellsSplit(g, p);
      ReplaySplit(NodeToCors(g, p[0]), ActionOf(g.cols, p[1] - p[0]), StepActions(g.cols, p[1..]));
    }
  }

  /** Performing the route's actions from the origin visits exactly the
      route's coordinates, provided the origin lies inside the grid, the grid
      has at least two columns and no east edge wraps to the next row. */
  lemma ReplayMatchesRoute(g: EnvGraph, origin: Cell, target: Cell)
    requires Valid(g) && g.cols >= 2 && Aligned(g) && 0 <= origin.col < g.cols
    requires GetPath(g, origin, target).Success?
    ensures var route := GetPath(g, origin, target).value;
            Replay(origin, route.actions) == route.cords
  {
    var s, t := CorsToNode(g, origin), CorsToNode(g, target);
    if s != t {
      RouteUnfolds(g, origin, target);
      var p := ShortestPath(g, s, t).value;
      CoordinateRoundTrip(g, origin);
      ReplayFollowsWalk(g, p);
    }
  }

  /** With a single column the replay breaks: every step up a south edge is
      emitted as West, which leaves the grid instead of reaching the cell
      above. */
  lemma SingleColumnStepUpIsWest(g: EnvGraph, r: int)
    requires Valid(g) && g.cols == 1 && 0 <= r && r + 1 < |g.south| && g.south[r]
    ensures GetPath(g, Cell(r + 1, 0), Cell(r, 0)) == Success(Route([Cell(r, 0)], [Actions.West]))
    ensures Replay(Cell(r + 1, 0), [Actions.West]) == [Cell(r + 1, -1)]
  {
    var s, t := r + 1, r;
    assert CorsToNode(g, Cell(r + 1, 0)) == s && CorsToNode(g, Cell(r, 0)) == t;
    assert Adj(g, s, t);
    assert IsWalkBetween(g, [s, t], s, t);
    RouteUnfolds(g, Cell(r + 1, 0), Cell(r, 0));
    var p := ShortestPath(g, s, t).value;
    assert |p| == 2;
    assert p == [s, t];
    assert p[1..] == [t];
    assert StepActions(g.cols, p) == [Actions.West];
    assert NodeToCors(g, t) == Cell(r, 0);
    assert NodeCells(g, p)[1..] == [Cell(r, 0)];
  }

  // ---------------------------------------------------------------------------
  // Path cost
  // ---------------------------------------------------------------------------

  /** `path_cost`: the number of coordinates on the route. It is the distance
      between the two nodes, zero exactly for the same node, and it fails
      exactly when the nodes differ and an endpoint is missing or unreachable. */
  function PathCost(g: EnvGraph, origin: Cell, target: Cell): (r: Result<nat, PathError>)
    requires Valid(g)
    ensures r.Success? ==> (r.value == 0 <==> CorsToNode(g, origin) == CorsToNode(g, target))
    ensures CorsToNode(g, origin) == CorsToNode(g, target) ==> r == Success(0)
  {
    var route :- GetPath(g, origin, target);
    Success(|route.cords|)
  }

  /** The cost of a route is the distance between its end points: it exists
      exactly when the target can be reached, and it is zero exactly when
      origin and target are the same node. */
  lemma PathCostMeasures(g: EnvGraph, origin: Cell, target: Cell)
    requires Valid(g)
    ensures var r := PathCost(g, origin, target);
            && (r.Success? <==> Routable(g, origin, target))
            && (r.Success? ==> IsDistance(g, CorsToNode(g, origin), CorsToNode(g, target), r.value))
            && (r.Success? ==> (r.value == 0 <==> CorsToNode(g, origin) == CorsToNode(g, target)))
  {
    if GetPath(g, origin, target).Success? {
      RouteIsShortest(g, origin, target);
    }
  }
}
