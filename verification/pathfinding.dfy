/** The search nodes, constants, heuristic and step costs of the A* search,
    together with the predecessor chain a node carries and the routes such a
    chain describes. */
module Pathfinding {
  import opened Wrappers
  import opened Grid

  /** A search node: the cell it stands for, its cost from the start (g), its
      estimate to the goal (h), their sum (f) and the node it was reached from.
      The predecessor is held by value, so a node carries its whole chain. */
  datatype PathNode = PathNode(
    cell: Cell,
    gCost: int,
    hCost: int,
    fCost: int,
    cameFrom: Option<PathNode>)

  /** The eight neighbour offsets, row above first, then the same row, then the row below. */
  const DirectionalX: seq<int> := [-1, 0, 1, -1, 1, -1, 0, 1]
  const DirectionalY: seq<int> := [-1, -1, -1, 0, 0, 1, 1, 1]

  /** Cost of an orthogonal step. */
  const DistBetween: int := 10

  /** Cost of a diagonal step: the square root of 2 * DistBetween^2, truncated
      to an integer (see DiagonalCostIsTruncatedSqrt). */
  const DiagonalCost: int := 14

  /** The integer square root, rounded down. */
  function FloorSqrt(n: nat): (r: nat)
    ensures r * r <= n < (r + 1) * (r + 1)
  {
    if n == 0 then 0
    else
      var s := FloorSqrt(n - 1);
      if (s + 1) * (s + 1) <= n then
        assert n < (s + 2) * (s + 2) by {
          assert (s + 2) * (s + 2) == (s + 1) * (s + 1) + 2 * s + 3;
        }
        s + 1
      else
        s
  }

  lemma SquareMonotone(a: nat, b: nat)
    requires a <= b
    ensures a * a <= b * b
  {
    assert a * a <= a * b;
    assert a * b <= b * b;
  }

  /** The diagonal step cost is what converting sqrt(10 * 10 * 2) to an
      integer yields: the integer part of the root of 200. */
  lemma DiagonalCostIsTruncatedSqrt()
    ensures DiagonalCost == FloorSqrt(2 * DistBetween * DistBetween)
  {
    var r := FloorSqrt(2 * DistBetween * DistBetween);
    if r < DiagonalCost {
      SquareMonotone(r + 1, DiagonalCost);
    } else if r > DiagonalCost {
      SquareMonotone(DiagonalCost + 1, r);
    }
  }

  function Abs(n: int): nat
  {
    if n < 0 then -n else n
  }

  /** The heuristic: the Manhattan distance between the two cells' coordinates,
      in grid units and not scaled by the step cost. */
  function Heuristic(a: Cell, b: Cell): (h: int)
    ensures h >= 0
    ensures h == 0 <==> a.x == b.x && a.y == b.y
  {
    Abs(a.x - b.x) + Abs(a.y - b.y)
  }

  lemma HeuristicSymmetric(a: Cell, b: Cell)
    ensures Heuristic(a, b) == Heuristic(b, a)
  {
  }

  /** One of the eight single steps of a chess king. */
  predicate IsKingOffset(dx: int, dy: int)
  {
    -1 <= dx <= 1 && -1 <= dy <= 1 && (dx != 0 || dy != 0)
  }

  /** `b` is one king move away from `a`. */
  predicate KingMove(a: Cell, b: Cell)
  {
    IsKingOffset(b.x - a.x, b.y - a.y)
  }

  /** The index of a king offset in the two direction tables. */
  function DirectionOf(dx: int, dy: int): (d: int)
    requires IsKingOffset(dx, dy)
    ensures 0 <= d < 8 && DirectionalX[d] == dx && DirectionalY[d] == dy
  {
    var k := 3 * (dy + 1) + (dx + 1);
    if k < 4 then k else k - 1
  }

  /** Each table index is the index DirectionOf gives for its own offset. */
  lemma DirectionOfTable(d: int)
    requires 0 <= d < 8
    ensures IsKingOffset(DirectionalX[d], DirectionalY[d])
    ensures DirectionOf(DirectionalX[d], DirectionalY[d]) == d
  {
    DirectionIsKingOffset(d);
  }

  /** The table index of the king move from `a` to `b`, or 8, past the end
      of the tables, when `b` is not one king move from `a`. */
  function MoveDirection(a: Cell, b: Cell): (d: int)
    ensures 0 <= d <= 8
    ensures d < 8 <==> KingMove(a, b)
    ensures d < 8 ==> b.x == a.x + DirectionalX[d] && b.y == a.y + DirectionalY[d]
  {
    if KingMove(a, b) then DirectionOf(b.x - a.x, b.y - a.y) else 8
  }

  /** The direction tables list exactly the eight king offsets. */
  lemma DirectionsAreKingOffsets(dx: int, dy: int)
    ensures IsKingOffset(dx, dy) <==> exists d :: 0 <= d < 8 && DirectionalX[d] == dx && DirectionalY[d] == dy
  {
    if IsKingOffset(dx, dy) {
      var d := DirectionOf(dx, dy);
    }
    if exists d :: 0 <= d < 8 && DirectionalX[d] == dx && DirectionalY[d] == dy {
      var d :| 0 <= d < 8 && DirectionalX[d] == dx && DirectionalY[d] == dy;
      DirectionIsKingOffset(d);
    }
  }

  lemma DirectionIsKingOffset(d: int)
    requires 0 <= d < 8
    ensures IsKingOffset(DirectionalX[d], DirectionalY[d])
  {
    assert d == 0 || d == 1 || d == 2 || d == 3 || d == 4 || d == 5 || d == 6 || d == 7;
  }

  /** Cost of a step in direction `d`: DistBetween when one of the offsets is
      zero, DiagonalCost otherwise. */
  function StepCost(d: int): (c: int)
    requires 0 <= d < 8
    ensures c == DistBetween || c == DiagonalCost
  {
    if DirectionalX[d] == 0 || DirectionalY[d] == 0 then DistBetween else DiagonalCost
  }

  /** Cost of the move between two cells a king move apart. */
  function MoveCost(a: Cell, b: Cell): int
  {
    if a.x == b.x || a.y == b.y then DistBetween else DiagonalCost
  }

  /** A step in direction `d` costs what the move between its two cells costs. */
  lemma StepCostIsMoveCost(a: Cell, b: Cell, d: int)
    requires 0 <= d < 8
    requires b.x == a.x + DirectionalX[d] && b.y == a.y + DirectionalY[d]
    ensures StepCost(d) == MoveCost(a, b)
    ensures StepCost(d) == DistBetween <==> (a.x == b.x || a.y == b.y)
  {
  }

  /** The cells of a node's predecessor chain, the node's own cell first and
      the chain's root last. */
  function Chain(n: PathNode): (path: seq<Cell>)
    ensures |path| > 0 && path[0] == n.cell
    decreases n
  {
    match n.cameFrom
    case None => [n.cell]
    case Some(p) => [n.cell] + Chain(p)
  }

  /** `n` was created for `parent` by one expansion step: it stands for an open
      board cell one king move from the parent's cell, its g-cost adds the
      move's cost to the parent's, its h-cost is the heuristic to `goal` and
      its f-cost their sum. */
  ghost predicate IsChild(game: GameData, goal: Cell, parent: PathNode, n: PathNode)
    requires Covers(game)
  {
    && n.cameFrom == Some(parent)
    && IsOpenBoardCell(game, n.cell)
    && KingMove(parent.cell, n.cell)
    && n.gCost == parent.gCost + MoveCost(parent.cell, n.cell)
    && n.hCost == Heuristic(n.cell, goal)
    && n.fCost == n.gCost + n.hCost
  }

  /** A node the search can hold: the start node with all costs zero, or a
      child of such a node. */
  ghost predicate ValidNode(game: GameData, start: Cell, goal: Cell, n: PathNode)
    requires Covers(game)
    decreases n
  {
    match n.cameFrom
    case None => n == PathNode(start, 0, 0, 0, None)
    case Some(p) => IsChild(game, goal, p, n) && ValidNode(game, start, goal, p)
  }

  /** A step of a goal-first list of cells: the cell at `i` is an open board
      cell one king move from the cell after it. */
  ghost predicate RouteStep(game: GameData, p: seq<Cell>, i: int)
    requires Covers(game) && 0 <= i < |p| - 1
  {
    KingMove(p[i + 1], p[i]) && IsOpenBoardCell(game, p[i])
  }

  /** `p` lists, goal first and start last, a walk by king moves from `start`
      to `goal` whose every cell except the start is an open board cell. */
  ghost predicate IsRoute(game: GameData, start: Cell, goal: Cell, p: seq<Cell>)
    requires Covers(game)
  {
    && |p| > 0
    && p[0] == goal
    && p[|p| - 1] == start
    && forall i :: 0 <= i < |p| - 1 ==> RouteStep(game, p, i)
  }

  ghost predicate Reachable(game: GameData, start: Cell, goal: Cell)
    requires Covers(game)
  {
    exists p :: IsRoute(game, start, goal, p)
  }

  /** The total movement cost of a list of cells. */
  function RouteCost(p: seq<Cell>): int
    decreases |p|
  {
    if |p| <= 1 then 0 else MoveCost(p[1], p[0]) + RouteCost(p[1..])
  }

  predicate Distinct(p: seq<Cell>)
  {
    forall i, j :: 0 <= i < j < |p| ==> p[i] != p[j]
  }

  /** The chain of a valid node is a route from the start to the node's cell,
      and its g-cost is the sum of the step costs along that route. */
  lemma {:induction false} ValidNodeChain(game: GameData, start: Cell, goal: Cell, n: PathNode)
    requires Covers(game) && ValidNode(game, start, goal, n)
    ensures IsRoute(game, start, n.cell, Chain(n))
    ensures n.gCost == RouteCost(Chain(n))
    decreases n
  {
    match n.cameFrom
    case None =>
    case Some(p) =>
      ValidNodeChain(game, start, goal, p);
      var tail := Chain(p);
      var path := Chain(n);
      assert path == [n.cell] + tail;
      assert path[1..] == tail;
      forall i | 0 <= i < |path| - 1
        ensures RouteStep(game, path, i)
      {
        if i > 0 {
          assert RouteStep(game, tail, i - 1);
        }
      }
  }

  /** A route between two different cells ends on an open board cell. */
  lemma RouteGoalIsOpen(game: GameData, start: Cell, goal: Cell, p: seq<Cell>)
    requires Covers(game) && IsRoute(game, start, goal, p) && start != goal
    ensures IsOpenBoardCell(game, goal)
  {
    assert RouteStep(game, p, 0);
  }

  /** A goal that is blocked, out of bounds, or whose `solid` flag disagrees
      with the board is reachable only from itself. */
  lemma UnmatchableGoal(game: GameData, start: Cell, goal: Cell)
    requires Covers(game)
    requires start != goal && !IsOpenBoardCell(game, goal)
    ensures !Reachable(game, start, goal)
  {
    if Reachable(game, start, goal) {
      var p :| IsRoute(game, start, goal, p);
      RouteGoalIsOpen(game, start, goal, p);
    }
  }

  /** On a board with no in-bounds cell the only route is the trivial one. */
  lemma EmptyBoardRoutes(start: Cell, goal: Cell)
    ensures Reachable(DefaultGameData(), start, goal) <==> start == goal
  {
    var game := DefaultGameData();
    if start == goal {
      assert IsRoute(game, start, goal, [start]);
    } else {
      UnmatchableGoal(game, start, goal);
    }
  }

  /** The heuristic never overestimates: along any walk by king moves the
      movement cost is at least the Manhattan distance between its ends,
      since a king move changes that distance by at most 2. */
  lemma {:induction false} HeuristicAdmissible(p: seq<Cell>)
    requires |p| > 0
    requires forall i :: 0 <= i < |p| - 1 ==> KingMove(p[i + 1], p[i])
    ensures Heuristic(p[|p| - 1], p[0]) <= RouteCost(p)
    decreases |p|
  {
    if |p| > 1 {
      var tail := p[1..];
      forall i | 0 <= i < |tail| - 1
        ensures KingMove(tail[i + 1], tail[i])
      {
        assert KingMove(p[i + 2], p[i + 1]);
      }
      HeuristicAdmissible(tail);
      assert KingMove(p[1], p[0]);
    }
  }

  /** In particular no route is cheaper than the heuristic between its ends. */
  lemma RouteCostBoundsHeuristic(game: GameData, start: Cell, goal: Cell, p: seq<Cell>)
    requires Covers(game) && IsRoute(game, start, goal, p)
    ensures Heuristic(start, goal) <= RouteCost(p)
  {
    forall i | 0 <= i < |p| - 1
      ensures KingMove(p[i + 1], p[i])
    {
      assert RouteStep(game, p, i);
    }
    HeuristicAdmissible(p);
  }
}
