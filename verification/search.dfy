/** The `find_path` procedure: an open and a closed set held as sequences of
    search nodes, first-minimum selection on the f-cost, expansion of the
    eight neighbours, and reconstruction of the path from the goal node's
    predecessor chain. */
module Search {
  import opened Wrappers
  import opened Grid
  import opened Pathfinding

  /** The cells the nodes of a set stand for. */
  function CellsOf(nodes: seq<PathNode>): set<Cell>
  {
    set n | n in nodes :: n.cell
  }

  /** No two nodes stand for the same cell. */
  predicate UniqueCells(nodes: seq<PathNode>)
  {
    forall i, j :: 0 <= i < j < |nodes| ==> nodes[i].cell != nodes[j].cell
  }

  lemma CellsOfAppend(a: seq<PathNode>, b: seq<PathNode>)
    ensures CellsOf(a + b) == CellsOf(a) + CellsOf(b)
  {
    forall c | c in CellsOf(a + b)
      ensures c in CellsOf(a) + CellsOf(b)
    {
      var n :| n in a + b && n.cell == c;
    }
  }

  /** Removal of the node at index `k`, later nodes moving down by one. */
  function RemoveAt(s: seq<PathNode>, k: nat): (r: seq<PathNode>)
    requires k < |s|
    ensures |r| == |s| - 1
    ensures forall n :: n in r ==> n in s
  {
    s[..k] + s[k + 1..]
  }

  /** Where the nodes of `s` land after removing index `k`. */
  lemma RemoveAtIndex(s: seq<PathNode>, k: nat, i: nat)
    requires k < |s| && i < |s| - 1
    ensures RemoveAt(s, k)[i] == s[if i < k then i else i + 1]
  {
  }

  lemma RemoveAtUnique(s: seq<PathNode>, k: nat)
    requires k < |s| && UniqueCells(s)
    ensures UniqueCells(RemoveAt(s, k))
    ensures forall i :: 0 <= i < |RemoveAt(s, k)| ==> RemoveAt(s, k)[i].cell != s[k].cell
  {
    var r := RemoveAt(s, k);
    forall i | 0 <= i < |r|
      ensures r[i].cell != s[k].cell
    {
      RemoveAtIndex(s, k, i);
    }
    forall i, j | 0 <= i < j < |r|
      ensures r[i].cell != r[j].cell
    {
      RemoveAtIndex(s, k, i);
      RemoveAtIndex(s, k, j);
    }
  }

  lemma RemoveAtCellsSplit(s: seq<PathNode>, k: nat)
    requires k < |s|
    ensures CellsOf(s) == CellsOf(RemoveAt(s, k)) + {s[k].cell}
  {
    assert s == s[..k] + [s[k]] + s[k + 1..];
    CellsOfAppend(s[..k] + [s[k]], s[k + 1..]);
    CellsOfAppend(s[..k], [s[k]]);
    CellsOfAppend(s[..k], s[k + 1..]);
    assert CellsOf([s[k]]) == {s[k].cell};
  }

  /** Removing one node of a set without repeated cells removes exactly its cell. */
  lemma RemoveAtCells(s: seq<PathNode>, k: nat)
    requires k < |s| && UniqueCells(s)
    ensures CellsOf(RemoveAt(s, k)) == CellsOf(s) - {s[k].cell}
    ensures UniqueCells(RemoveAt(s, k))
  {
    RemoveAtUnique(s, k);
    RemoveAtCellsSplit(s, k);
    var r := RemoveAt(s, k);
    assert s[k].cell !in CellsOf(r);
  }

  /** Selection of the node to expand: the first node, in storage order,
      whose f-cost is the smallest in the open set. */
  method SelectLowest(openSet: seq<PathNode>) returns (lowest: nat)
    requires |openSet| > 0
    ensures lowest < |openSet|
    ensures forall j :: 0 <= j < |openSet| ==> openSet[lowest].fCost <= openSet[j].fCost
    ensures forall j :: 0 <= j < lowest ==> openSet[j].fCost > openSet[lowest].fCost
  {
    lowest := 0;
    for i := 0 to |openSet|
      invariant lowest < |openSet|
      invariant forall j :: 0 <= j < i ==> openSet[lowest].fCost <= openSet[j].fCost
      invariant forall j :: 0 <= j < lowest ==> openSet[j].fCost > openSet[lowest].fCost
    {
      if openSet[i].fCost < openSet[lowest].fCost {
        lowest := i;
      }
    }
  }

  /** The index of the first node standing for cell `c`, if there is one. */
  function FindByCell(nodes: seq<PathNode>, c: Cell): (r: Option<nat>)
    ensures r.None? <==> c !in CellsOf(nodes)
    ensures r.Some? ==> r.value < |nodes| && nodes[r.value].cell == c
    ensures r.Some? ==> forall j :: 0 <= j < r.value ==> nodes[j].cell != c
  {
    if |nodes| == 0 then None
    else if nodes[0].cell == c then Some(0)
    else
      assert nodes == [nodes[0]] + nodes[1..];
      CellsOfAppend([nodes[0]], nodes[1..]);
      match FindByCell(nodes[1..], c)
      case None => None
      case Some(k) => Some(k + 1)
  }

  /** The neighbour of `c` in direction `d`, if in bounds and passable, is
      among the cells `seen`. */
  ghost predicate NeighbourSeen(game: GameData, c: Cell, d: int, seen: set<Cell>)
    requires Covers(game) && 0 <= d < 8
  {
    var x := c.x + DirectionalX[d];
    var y := c.y + DirectionalY[d];
    InBounds(game, x, y) && !At(game, x, y).solid ==> At(game, x, y) in seen
  }

  /** Every in-bounds, passable neighbour of `c` is among the cells `seen`. */
  ghost predicate Expanded(game: GameData, c: Cell, seen: set<Cell>)
    requires Covers(game)
  {
    forall d :: 0 <= d < 8 ==> NeighbourSeen(game, c, d, seen)
  }

  lemma ExpandedGrows(game: GameData, c: Cell, seen: set<Cell>, more: set<Cell>)
    requires Covers(game) && Expanded(game, c, seen) && seen <= more
    ensures Expanded(game, c, more)
  {
    forall d | 0 <= d < 8
      ensures NeighbourSeen(game, c, d, more)
    {
      assert NeighbourSeen(game, c, d, seen);
    }
  }

  /** What holds after the directions below `d` have been expanded into
      `newOpen`: the entries of `openSet` are untouched; the appended ones are
      children of `current` for cells neither closed nor initially open,
      in strictly increasing direction order below `d`; no cell repeats; and
      every passable neighbour in those directions is closed or open. */
  ghost predicate Expanding(game: GameData, goal: Cell, current: PathNode,
                            openSet: seq<PathNode>, closedSet: seq<PathNode>,
                            newOpen: seq<PathNode>, d: int)
    requires Covers(game) && 0 <= d <= 8
  {
    && |openSet| <= |newOpen| && newOpen[..|openSet|] == openSet
    && UniqueCells(newOpen)
    && (forall k :: |openSet| <= k < |newOpen| ==>
          && IsChild(game, goal, current, newOpen[k])
          && newOpen[k].cell !in CellsOf(closedSet)
          && newOpen[k].cell !in CellsOf(openSet)
          && MoveDirection(current.cell, newOpen[k].cell) < d)
    && (forall k, k' :: |openSet| <= k < k' < |newOpen| ==>
          MoveDirection(current.cell, newOpen[k].cell) < MoveDirection(current.cell, newOpen[k'].cell))
    && (forall e :: 0 <= e < d ==> NeighbourSeen(game, current.cell, e, CellsOf(closedSet) + CellsOf(newOpen)))
  }

  /** A direction whose neighbour is rejected or already open adds nothing. */
  lemma SkipNeighbour(game: GameData, goal: Cell, current: PathNode,
                      openSet: seq<PathNode>, closedSet: seq<PathNode>,
                      newOpen: seq<PathNode>, d: int)
    requires Covers(game) && 0 <= d < 8
    requires Expanding(game, goal, current, openSet, closedSet, newOpen, d)
    requires NeighbourSeen(game, current.cell, d, CellsOf(closedSet) + CellsOf(newOpen))
    ensures Expanding(game, goal, current, openSet, closedSet, newOpen, d + 1)
  {
  }

  /** The node built for the neighbour in direction `d` is a child of
      `current` lying in direction `d`. */
  lemma ChildInDirection(game: GameData, goal: Cell, current: PathNode, d: int, child: PathNode)
    requires WellFormed(game) && 0 <= d < 8
    requires InBounds(game, current.cell.x + DirectionalX[d], current.cell.y + DirectionalY[d])
    requires child.cell == At(game, current.cell.x + DirectionalX[d], current.cell.y + DirectionalY[d])
    requires !child.cell.solid
    requires child.gCost == current.gCost + StepCost(d)
    requires child.hCost == Heuristic(child.cell, goal)
    requires child.fCost == child.gCost + child.hCost
    requires child.cameFrom == Some(current)
    ensures IsChild(game, goal, current, child)
    ensures MoveDirection(current.cell, child.cell) == d
  {
    var x := current.cell.x + DirectionalX[d];
    var y := current.cell.y + DirectionalY[d];
    assert child.cell.x == x && child.cell.y == y;
    DirectionIsKingOffset(d);
    StepCostIsMoveCost(current.cell, child.cell, d);
    DirectionOfTable(d);
  }

  /** Appending the child for the neighbour in direction `d`, which is in
      bounds, passable, not closed and not open, keeps the expansion facts. */
  lemma AppendChild(game: GameData, goal: Cell, current: PathNode,
                    openSet: seq<PathNode>, closedSet: seq<PathNode>,
                    newOpen: seq<PathNode>, d: int, child: PathNode)
    requires WellFormed(game) && 0 <= d < 8
    requires Expanding(game, goal, current, openSet, closedSet, newOpen, d)
    requires InBounds(game, current.cell.x + DirectionalX[d], current.cell.y + DirectionalY[d])
    requires child.cell == At(game, current.cell.x + DirectionalX[d], current.cell.y + DirectionalY[d])
    requires !child.cell.solid
    requires child.cell !in CellsOf(closedSet) && child.cell !in CellsOf(newOpen)
    requires child.gCost == current.gCost + StepCost(d)
    requires child.hCost == Heuristic(child.cell, goal)
    requires child.fCost == child.gCost + child.hCost
    requires child.cameFrom == Some(current)
    ensures Expanding(game, goal, current, openSet, closedSet, newOpen + [child], d + 1)
  {
    ChildInDirection(game, goal, current, d, child);
    var after := newOpen + [child];
    CellsOfAppend(newOpen, [child]);
    assert after[..|openSet|] == openSet;
    assert CellsOf(openSet) <= CellsOf(newOpen) by {
      CellsOfAppend(openSet, newOpen[|openSet|..]);
      assert newOpen == openSet + newOpen[|openSet|..];
    }
    forall i, j | 0 <= i < j < |after|
      ensures after[i].cell != after[j].cell
    {
      if j == |newOpen| {
        assert after[i] in newOpen;
      }
    }
    forall e | 0 <= e < d + 1
      ensures NeighbourSeen(game, current.cell, e, CellsOf(closedSet) + CellsOf(after))
    {
      if e < d {
        assert NeighbourSeen(game, current.cell, e, CellsOf(closedSet) + CellsOf(newOpen));
      }
    }
  }

  /** Expansion of `current`: each of the eight neighbours, in the order of
      the direction tables, is rejected when out of bounds, already closed or
      solid; one that is already open is left exactly as it is, even when the
      new route to it is cheaper; any other is appended as a child of
      `current`, so the children appear in direction-table order. */
  method Expand(game: GameData, endCell: Cell, current: PathNode,
                openSet: seq<PathNode>, closedSet: seq<PathNode>)
    returns (newOpen: seq<PathNode>)
    requires WellFormed(game)
    requires UniqueCells(openSet)
    ensures |openSet| <= |newOpen| && newOpen[..|openSet|] == openSet
    ensures UniqueCells(newOpen)
    ensures forall k :: |openSet| <= k < |newOpen| ==>
              && IsChild(game, endCell, current, newOpen[k])
              && newOpen[k].cell !in CellsOf(closedSet)
              && newOpen[k].cell !in CellsOf(openSet)
    ensures forall k, k' :: |openSet| <= k < k' < |newOpen| ==>
              MoveDirection(current.cell, newOpen[k].cell) < MoveDirection(current.cell, newOpen[k'].cell)
    ensures Expanded(game, current.cell, CellsOf(closedSet) + CellsOf(newOpen))
  {
    newOpen := openSet;
    for d := 0 to 8
      invariant Expanding(game, endCell, current, openSet, closedSet, newOpen, d)
    {
      var x := current.cell.x + DirectionalX[d];
      var y := current.cell.y + DirectionalY[d];
      if x < 0 || x >= game.boardSizeX || y < 0 || y >= game.boardSizeY
         || game.board[y][x] in CellsOf(closedSet)
         || game.board[y][x].solid
      {
        // the neighbour is rejected
        SkipNeighbour(game, endCell, current, openSet, closedSet, newOpen, d);
      } else {
        var neighbour := game.board[y][x];
        var tentativeG := current.gCost + StepCost(d);
        match FindByCell(newOpen, neighbour)
        case Some(_) =>
          // Whether or not the open entry's g-cost is at most tentativeG,
          // nothing is changed.
          SkipNeighbour(game, endCell, current, openSet, closedSet, newOpen, d);
        case None =>
          var h := Heuristic(neighbour, endCell);
          var child := PathNode(neighbour, tentativeG, h, tentativeG + h, Some(current));
          AppendChild(game, endCell, current, openSet, closedSet, newOpen, d, child);
          newOpen := newOpen + [child];
      }
    }
  }

  /** Path reconstruction: the goal node's cell, then the cells of its
      predecessors, following the chain to its root. */
  method ReconstructPath(goalNode: PathNode) returns (path: seq<Cell>)
    ensures path == Chain(goalNode)
  {
    var pathNode := goalNode;
    path := [goalNode.cell];
    while pathNode.cameFrom.Some?
      invariant path + Chain(pathNode)[1..] == Chain(goalNode)
      decreases pathNode
    {
      var previous := pathNode.cameFrom.value;
      assert Chain(pathNode)[1..] == Chain(previous);
      assert Chain(previous) == [previous.cell] + Chain(previous)[1..];
      path := path + [previous.cell];
      pathNode := previous;
    }
  }

  /** The chain of `n` repeats no cell, and every cell of it except `n`'s own
      is among the closed cells. */
  ghost predicate SettledHistory(n: PathNode, closedCells: set<Cell>)
  {
    var chain := Chain(n);
    Distinct(chain) && forall i :: 1 <= i < |chain| ==> chain[i] in closedCells
  }

  lemma SettledHistoryGrows(n: PathNode, closedCells: set<Cell>, more: set<Cell>)
    requires SettledHistory(n, closedCells) && closedCells <= more
    ensures SettledHistory(n, more)
  {
  }

  /** A child created for `current` for a cell neither closed nor equal to
      `current`'s keeps a repetition-free chain once `current` is closed. */
  lemma ChildHistory(current: PathNode, child: PathNode, closedCells: set<Cell>)
    requires child.cameFrom == Some(current)
    requires SettledHistory(current, closedCells)
    requires child.cell !in closedCells && child.cell != current.cell
    ensures SettledHistory(child, closedCells + {current.cell})
  {
    var tail := Chain(current);
    var chain := Chain(child);
    assert chain == [child.cell] + tail;
    forall i, j | 0 <= i < j < |chain|
      ensures chain[i] != chain[j]
    {
      if i == 0 && j > 1 {
        assert chain[j] == tail[j - 1] && tail[j - 1] in closedCells;
      }
    }
  }

  /** When the closed cells contain the start, miss the goal and have all
      their passable neighbours among themselves, no route reaches the goal. */
  lemma ClosedRegionExcludesGoal(game: GameData, start: Cell, goal: Cell, closedCells: set<Cell>)
    requires Covers(game)
    requires start in closedCells && goal !in closedCells
    requires forall c :: c in closedCells ==> Expanded(game, c, closedCells)
    ensures !Reachable(game, start, goal)
  {
    if Reachable(game, start, goal) {
      var p :| IsRoute(game, start, goal, p);
      RouteInside(game, start, goal, closedCells, p, 0);
    }
  }

  /** Every cell of a route to the goal lies in a region closed under
      passable neighbours that contains the start. */
  lemma {:induction false} RouteInside(game: GameData, start: Cell, goal: Cell,
                                       closedCells: set<Cell>, p: seq<Cell>, i: int)
    requires Covers(game)
    requires start in closedCells
    requires forall c :: c in closedCells ==> Expanded(game, c, closedCells)
    requires IsRoute(game, start, goal, p) && 0 <= i < |p|
    ensures p[i] in closedCells
    decreases |p| - i
  {
    if i < |p| - 1 {
      RouteInside(game, start, goal, closedCells, p, i + 1);
      assert RouteStep(game, p, i);
      var d := DirectionOf(p[i].x - p[i + 1].x, p[i].y - p[i + 1].y);
      assert NeighbourSeen(game, p[i + 1], d, closedCells);
    }
  }

  /** What holds of the open and closed sets between two iterations of the
      search: every open node is valid and has a repetition-free chain whose
      older cells are all closed; neither set repeats a cell and no cell is
      both open and closed; the goal is never closed; the start is open or
      closed; and every closed cell has all its passable neighbours open or
      closed. */
  ghost predicate SearchInvariant(game: GameData, start: Cell, goal: Cell,
                                  openSet: seq<PathNode>, closedSet: seq<PathNode>)
    requires Covers(game)
  {
    && (forall n :: n in openSet ==> ValidNode(game, start, goal, n) && SettledHistory(n, CellsOf(closedSet)))
    && UniqueCells(openSet)
    && UniqueCells(closedSet)
    && CellsOf(openSet) !! CellsOf(closedSet)
    && goal !in CellsOf(closedSet)
    && start in CellsOf(openSet) + CellsOf(closedSet)
    && forall c :: c in CellsOf(closedSet) ==> Expanded(game, c, CellsOf(openSet) + CellsOf(closedSet))
  }

  /** The number of in-bounds board cells neither open nor closed. */
  ghost function Unseen(game: GameData, openSet: seq<PathNode>, closedSet: seq<PathNode>): nat
    requires Covers(game)
  {
    |BoardCells(game) - (CellsOf(openSet) + CellsOf(closedSet))|
  }

  lemma {:induction false} SubsetCard<T>(a: set<T>, b: set<T>)
    requires a <= b
    ensures |a| <= |b|
    decreases b
  {
    if b != {} {
      var e :| e in b;
      SubsetCard(a - {e}, b - {e});
    }
  }

  lemma ProperSubsetCard<T>(a: set<T>, b: set<T>, e: T)
    requires a <= b && e in b && e !in a
    ensures |a| < |b|
  {
    SubsetCard(a, b - {e});
  }

  /** One iteration that does not meet the goal: `current`, taken out of
      `openBefore` to leave `popped`, is expanded into `newOpen`, whose new
      entries are children of `current` for cells neither closed nor open. */
  ghost predicate Step(game: GameData, goal: Cell, current: PathNode,
                       openBefore: seq<PathNode>, popped: seq<PathNode>,
                       newOpen: seq<PathNode>, closedBefore: seq<PathNode>)
    requires Covers(game)
  {
    && current in openBefore && current.cell != goal
    && |popped| == |openBefore| - 1
    && (forall n :: n in popped ==> n in openBefore)
    && CellsOf(popped) == CellsOf(openBefore) - {current.cell}
    && |popped| <= |newOpen| && newOpen[..|popped|] == popped
    && UniqueCells(newOpen)
    && (forall k :: |popped| <= k < |newOpen| ==>
          && IsChild(game, goal, current, newOpen[k])
          && newOpen[k].cell !in CellsOf(closedBefore)
          && newOpen[k].cell !in CellsOf(popped))
    && Expanded(game, current.cell, CellsOf(closedBefore) + CellsOf(newOpen))
  }

  /** The facts about one iteration's sets that the parts of Advance share. */
  lemma StepCells(game: GameData, start: Cell, goal: Cell, current: PathNode,
                  openBefore: seq<PathNode>, popped: seq<PathNode>,
                  newOpen: seq<PathNode>, closedBefore: seq<PathNode>)
    requires WellFormed(game)
    requires SearchInvariant(game, start, goal, openBefore, closedBefore)
    requires Step(game, goal, current, openBefore, popped, newOpen, closedBefore)
    ensures CellsOf(closedBefore + [current]) == CellsOf(closedBefore) + {current.cell}
    ensures current.cell !in CellsOf(closedBefore)
    ensures CellsOf(newOpen) == CellsOf(popped) + CellsOf(newOpen[|popped|..])
    ensures forall c :: c in CellsOf(newOpen[|popped|..]) ==>
              c != current.cell && c !in CellsOf(closedBefore) && c !in CellsOf(popped) && IsOpenBoardCell(game, c)
    ensures CellsOf(newOpen) + CellsOf(closedBefore + [current])
            == CellsOf(openBefore) + CellsOf(closedBefore) + CellsOf(newOpen[|popped|..])
  {
    var added := newOpen[|popped|..];
    assert newOpen == popped + added;
    CellsOfAppend(popped, added);
    CellsOfAppend(closedBefore, [current]);
    assert CellsOf([current]) == {current.cell};
    assert current.cell in CellsOf(openBefore);
    forall c | c in CellsOf(added)
      ensures c != current.cell && c !in CellsOf(closedBefore) && c !in CellsOf(popped) && IsOpenBoardCell(game, c)
    {
      var n :| n in added && n.cell == c;
      var k :| 0 <= k < |added| && added[k] == n;
      assert IsChild(game, goal, current, newOpen[|popped| + k]);
    }
  }

  lemma AdvanceNodes(game: GameData, start: Cell, goal: Cell, current: PathNode,
                     openBefore: seq<PathNode>, popped: seq<PathNode>,
                     newOpen: seq<PathNode>, closedBefore: seq<PathNode>)
    requires WellFormed(game)
    requires SearchInvariant(game, start, goal, openBefore, closedBefore)
    requires Step(game, goal, current, openBefore, popped, newOpen, closedBefore)
    ensures forall n :: n in newOpen ==>
              ValidNode(game, start, goal, n) && SettledHistory(n, CellsOf(closedBefore + [current]))
  {
    StepCells(game, start, goal, current, openBefore, popped, newOpen, closedBefore);
    var closedAfter := CellsOf(closedBefore + [current]);
    forall n | n in newOpen
      ensures ValidNode(game, start, goal, n) && SettledHistory(n, closedAfter)
    {
      var k :| 0 <= k < |newOpen| && newOpen[k] == n;
      if k < |popped| {
        assert n == popped[k];
        SettledHistoryGrows(n, CellsOf(closedBefore), closedAfter);
      } else {
        assert IsChild(game, goal, current, n);
        assert n.cell in CellsOf(newOpen[|popped|..]) by {
          assert newOpen[|popped|..][k - |popped|] == n;
        }
        ChildHistory(current, n, CellsOf(closedBefore));
      }
    }
  }

  lemma AdvanceSets(game: GameData, start: Cell, goal: Cell, current: PathNode,
                    openBefore: seq<PathNode>, popped: seq<PathNode>,
                    newOpen: seq<PathNode>, closedBefore: seq<PathNode>)
    requires WellFormed(game)
    requires SearchInvariant(game, start, goal, openBefore, closedBefore)
    requires Step(game, goal, current, openBefore, popped, newOpen, closedBefore)
    ensures UniqueCells(closedBefore + [current])
    ensures CellsOf(newOpen) !! CellsOf(closedBefore + [current])
    ensures goal !in CellsOf(closedBefore + [current])
    ensures start in CellsOf(newOpen) + CellsOf(closedBefore + [current])
    ensures forall c :: c in CellsOf(closedBefore + [current]) ==>
              Expanded(game, c, CellsOf(newOpen) + CellsOf(closedBefore + [current]))
  {
    StepCells(game, start, goal, current, openBefore, popped, newOpen, closedBefore);
    var closedAfter := closedBefore + [current];
    forall i, j | 0 <= i < j < |closedAfter|
      ensures closedAfter[i].cell != closedAfter[j].cell
    {
      if j == |closedBefore| {
        assert closedAfter[i] in closedBefore;
      }
    }
    var seenBefore := CellsOf(openBefore) + CellsOf(closedBefore);
    var seenAfter := CellsOf(newOpen) + CellsOf(closedAfter);
    forall c | c in CellsOf(closedAfter)
      ensures Expanded(game, c, seenAfter)
    {
      if c == current.cell {
        ExpandedGrows(game, c, CellsOf(closedBefore) + CellsOf(newOpen), seenAfter);
      } else {
        ExpandedGrows(game, c, seenBefore, seenAfter);
      }
    }
  }

  lemma AdvanceMeasure(game: GameData, start: Cell, goal: Cell, current: PathNode,
                       openBefore: seq<PathNode>, popped: seq<PathNode>,
                       newOpen: seq<PathNode>, closedBefore: seq<PathNode>)
    requires WellFormed(game)
    requires SearchInvariant(game, start, goal, openBefore, closedBefore)
    requires Step(game, goal, current, openBefore, popped, newOpen, closedBefore)
    ensures || Unseen(game, newOpen, closedBefore + [current]) < Unseen(game, openBefore, closedBefore)
            || (Unseen(game, newOpen, closedBefore + [current]) == Unseen(game, openBefore, closedBefore)
                && |newOpen| < |openBefore|)
  {
    StepCells(game, start, goal, current, openBefore, popped, newOpen, closedBefore);
    var added := newOpen[|popped|..];
    var universe := BoardCells(game);
    var seenBefore := CellsOf(openBefore) + CellsOf(closedBefore);
    var seenAfter := CellsOf(newOpen) + CellsOf(closedBefore + [current]);
    if |added| > 0 {
      var c := added[0].cell;
      assert c in CellsOf(added);
      OpenBoardCellIsBoardCell(game, c);
      ProperSubsetCard(universe - seenAfter, universe - seenBefore, c);
    } else {
      assert newOpen == popped;
    }
  }

  /** One iteration that does not meet the goal keeps the invariant, and
      either fewer board cells are unseen or the open set has shrunk. */
  lemma Advance(game: GameData, start: Cell, goal: Cell, current: PathNode,
                openBefore: seq<PathNode>, popped: seq<PathNode>,
                newOpen: seq<PathNode>, closedBefore: seq<PathNode>)
    requires WellFormed(game)
    requires SearchInvariant(game, start, goal, openBefore, closedBefore)
    requires Step(game, goal, current, openBefore, popped, newOpen, closedBefore)
    ensures SearchInvariant(game, start, goal, newOpen, closedBefore + [current])
    ensures || Unseen(game, newOpen, closedBefore + [current]) < Unseen(game, openBefore, closedBefore)
            || (Unseen(game, newOpen, closedBefore + [current]) == Unseen(game, openBefore, closedBefore)
                && |newOpen| < |openBefore|)
  {
    AdvanceNodes(game, start, goal, current, openBefore, popped, newOpen, closedBefore);
    AdvanceSets(game, start, goal, current, openBefore, popped, newOpen, closedBefore);
    AdvanceMeasure(game, start, goal, current, openBefore, popped, newOpen, closedBefore);
  }

  /** The search starts with the start node alone in the open set. */
  lemma InitialInvariant(game: GameData, start: Cell, goal: Cell)
    requires WellFormed(game)
    ensures SearchInvariant(game, start, goal, [PathNode(start, 0, 0, 0, None)], [])
  {
    var startNode := PathNode(start, 0, 0, 0, None);
    assert CellsOf([startNode]) == {start};
    assert CellsOf([]) == {};
  }

  /** A node taken from the open set for the goal spells out a repetition-free
      route from the start to the goal. */
  lemma GoalReached(game: GameData, start: Cell, goal: Cell,
                    openSet: seq<PathNode>, closedSet: seq<PathNode>, current: PathNode)
    requires WellFormed(game)
    requires SearchInvariant(game, start, goal, openSet, closedSet)
    requires current in openSet && current.cell == goal
    ensures IsRoute(game, start, goal, Chain(current))
    ensures Distinct(Chain(current))
    ensures Reachable(game, start, goal)
  {
    ValidNodeChain(game, start, goal, current);
  }

  /** When the open set runs empty, the closed cells form a region closed
      under passable neighbours that holds the start but not the goal. */
  lemma Exhausted(game: GameData, start: Cell, goal: Cell, closedSet: seq<PathNode>)
    requires WellFormed(game)
    requires SearchInvariant(game, start, goal, [], closedSet)
    ensures !Reachable(game, start, goal)
  {
    assert CellsOf([]) + CellsOf(closedSet) == CellsOf(closedSet);
    ClosedRegionExcludesGoal(game, start, goal, CellsOf(closedSet));
  }

  /** The search of the program. On a well-formed board it returns the
      goal-first route its predecessor chain spells out, or nothing exactly
      when no route from the start reaches the goal. Neither endpoint is
      checked for solidity, and the goal is matched by full cell equality. */
  method FindPath(game: GameData, startCell: Cell, endCell: Cell) returns (result: Option<seq<Cell>>)
    requires WellFormed(game)
    ensures startCell == endCell ==> result == Some([startCell])
    ensures result.Some? ==> IsRoute(game, startCell, endCell, result.value)
    ensures result.Some? ==> Distinct(result.value)
    ensures result.None? <==> !Reachable(game, startCell, endCell)
  {
    var startNode := PathNode(startCell, 0, 0, 0, None);
    var openSet := [startNode];
    var closedSet: seq<PathNode> := [];
    InitialInvariant(game, startCell, endCell);

    while |openSet| > 0
      invariant SearchInvariant(game, startCell, endCell, openSet, closedSet)
      invariant startCell == endCell ==> openSet == [startNode]
      decreases Unseen(game, openSet, closedSet), |openSet|
    {
      var lowest := SelectLowest(openSet);
      var current := openSet[lowest];
      ghost var openBefore := openSet;
      openSet := RemoveAt(openSet, lowest);
      RemoveAtCells(openBefore, lowest);

      if current.cell == endCell {
        var path := ReconstructPath(current);
        GoalReached(game, startCell, endCell, openBefore, closedSet, current);
        return Some(path);
      }

      ghost var popped := openSet;
      ghost var closedBefore := closedSet;
      openSet := Expand(game, endCell, current, openSet, closedSet);
      closedSet := closedSet + [current];
      assert Step(game, endCell, current, openBefore, popped, openSet, closedBefore);
      Advance(game, startCell, endCell, current, openBefore, popped, openSet, closedBefore);
    }
    Exhausted(game, startCell, endCell, closedSet);
    return None;
  }
}
