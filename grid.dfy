/**
 * The square grid, the search nodes and the parent links between them:
 * neighbour generation and path reconstruction.
 */
module Grid {
  import opened Wrappers

  datatype Cell = Cell(x: int, y: int)

  /** The `Node` record. The C `parent` pointer becomes the index of the
      parent node in the node table; costs are integers. */
  datatype Node = Node(x: int, y: int, cost: int, heuristic: int, total: int, parent: Option<nat>)

  function CellOf(n: Node): Cell {
    Cell(n.x, n.y)
  }

  function Abs(a: int): nat {
    if a < 0 then -a else a
  }

  /** Both coordinates lie in `[0, gridSize)`. */
  predicate InGrid(c: Cell, gridSize: int) {
    0 <= c.x < gridSize && 0 <= c.y < gridSize
  }

  /** `a` and `b` differ by exactly 1 in exactly one axis. */
  predicate UnitStep(a: Cell, b: Cell) {
    Abs(a.x - b.x) + Abs(a.y - b.y) == 1
  }

  /** `c` is a grid cell one unit step from `a`. */
  predicate StepInGrid(a: Cell, c: Cell, gridSize: int) {
    InGrid(c, gridSize) && UnitStep(a, c)
  }

  /** The four moves of `find_neighbors`, in its order: +x, -x, +y, -y. */
  function Steps(c: Cell): seq<Cell> {
    [Cell(c.x + 1, c.y), Cell(c.x - 1, c.y), Cell(c.x, c.y + 1), Cell(c.x, c.y - 1)]
  }

  /** The cells of `cs` that lie on the grid, in their order. */
  function InGridOnly(cs: seq<Cell>, gridSize: int): (r: seq<Cell>)
    ensures |r| <= |cs|
  {
    if cs == [] then []
    else
      var last := cs[|cs| - 1];
      InGridOnly(cs[..|cs| - 1], gridSize) + (if InGrid(last, gridSize) then [last] else [])
  }

  /** Filtering keeps exactly the cells of `cs` on the grid. */
  lemma {:induction false} InGridOnlyMembers(cs: seq<Cell>, gridSize: int, c: Cell)
    ensures c in InGridOnly(cs, gridSize) <==> c in cs && InGrid(c, gridSize)
  {
    if cs != [] {
      var init := cs[..|cs| - 1];
      InGridOnlyMembers(init, gridSize, c);
      assert cs == init + [cs[|cs| - 1]];
    }
  }

  /** The cells of the nodes `ns`, in their order. */
  function Cells(ns: seq<Node>): (r: seq<Cell>)
    ensures |r| == |ns| && forall k :: 0 <= k < |ns| ==> r[k] == CellOf(ns[k])
  {
    if ns == [] then [] else Cells(ns[..|ns| - 1]) + [CellOf(ns[|ns| - 1])]
  }

  /** The four moves are exactly the unit steps. */
  lemma StepsAreUnitSteps(a: Cell, b: Cell)
    ensures b in Steps(a) <==> UnitStep(a, b)
  {
  }

  /** `find_neighbors`: a fresh node, with cost 0 and `current` as parent,
      for each of the four unit moves from `current` that stays on the
      grid, in the order +x, -x, +y, -y. `currentId` is `current`'s place in
      the node table. */
  method FindNeighbors(current: Node, currentId: nat, gridSize: int) returns (neighbors: seq<Node>)
    ensures Cells(neighbors) == InGridOnly(Steps(CellOf(current)), gridSize)
    ensures |neighbors| <= 4
    ensures forall c :: c in Cells(neighbors) <==> StepInGrid(CellOf(current), c, gridSize)
    ensures forall k :: 0 <= k < |neighbors| ==>
      neighbors[k].cost == 0 && neighbors[k].parent == Some(currentId) &&
      StepInGrid(CellOf(current), CellOf(neighbors[k]), gridSize)
  {
    var dx := [1, -1, 0, 0];
    var dy := [0, 0, 1, -1];
    ghost var moves := Steps(CellOf(current));
    neighbors := [];
    for i := 0 to 4
      invariant Cells(neighbors) == InGridOnly(moves[..i], gridSize)
      invariant forall k :: 0 <= k < |neighbors| ==>
        neighbors[k].cost == 0 && neighbors[k].parent == Some(currentId)
    {
      var newX := current.x + dx[i];
      var newY := current.y + dy[i];
      assert Cell(newX, newY) == moves[i];
      assert moves[..i + 1][..i] == moves[..i];
      if 0 <= newX < gridSize && 0 <= newY < gridSize {
        neighbors := neighbors + [Node(newX, newY, 0, 0, 0, Some(currentId))];
      }
    }
    assert moves[..4] == moves;
    forall c
      ensures c in Cells(neighbors) <==> StepInGrid(CellOf(current), c, gridSize)
    {
      InGridOnlyMembers(moves, gridSize, c);
      StepsAreUnitSteps(CellOf(current), c);
    }
    forall k | 0 <= k < |neighbors|
      ensures StepInGrid(CellOf(current), CellOf(neighbors[k]), gridSize)
    {
      assert Cells(neighbors)[k] in Cells(neighbors);
    }
  }

  /** From the corner cell (0, 0) of a 10 by 10 grid, where the demo search
      starts, only the +x and +y moves stay on the grid. */
  lemma CornerNeighbours()
    ensures InGridOnly(Steps(Cell(0, 0)), 10) == [Cell(1, 0), Cell(0, 1)]
  {
    var moves := Steps(Cell(0, 0));
    assert moves[..1] == [Cell(1, 0)] && moves[..1][..0] == [];
    assert moves[..2][..1] == moves[..1] && moves[..3][..2] == moves[..2] && moves[..4][..3] == moves[..3];
    assert moves[..4] == moves;
    assert InGridOnly(moves[..1], 10) == [Cell(1, 0)];
    assert InGridOnly(moves[..2], 10) == [Cell(1, 0)];
    assert InGridOnly(moves[..3], 10) == [Cell(1, 0), Cell(0, 1)];
  }

  /** The parent links of a node table form a forest rooted at slot 0: the
      root has no parent and every other node's parent comes before it. */
  predicate Linked(t: seq<Node>) {
    |t| > 0 && t[0].parent == None &&
    forall i :: 0 < i < |t| ==> t[i].parent.Some? && t[i].parent.value < i
  }

  /** Node `i` of the table lies on the grid, one unit step away from its
      parent, which comes before it, and costs one more than its parent. */
  predicate ChildOk(t: seq<Node>, i: nat, gridSize: int)
    requires i < |t|
  {
    t[i].parent.Some? && t[i].parent.value < i &&
    var p := t[i].parent.value;
    InGrid(CellOf(t[i]), gridSize) && UnitStep(CellOf(t[p]), CellOf(t[i])) && t[i].cost == t[p].cost + 1
  }

  /** The node table of one search from `start` (whose cost is
      `startCost`): the root sits at `start` and every other node is a
      well-placed child. */
  predicate SearchTable(t: seq<Node>, start: Cell, startCost: int, gridSize: int) {
    Linked(t) && CellOf(t[0]) == start && t[0].cost == startCost &&
    forall i :: 0 < i < |t| ==> ChildOk(t, i, gridSize)
  }

  /** `reconstruct_path`: the cells of the parent chain of node `i`, from
      the root down to `i` itself. */
  function ReconstructPath(t: seq<Node>, i: nat): (path: seq<Cell>)
    requires Linked(t) && i < |t|
    ensures |path| > 0 && path[0] == CellOf(t[0]) && path[|path| - 1] == CellOf(t[i])
    ensures |path| <= i + 1
    decreases i
  {
    match t[i].parent
    case None => [CellOf(t[i])]
    case Some(p) => ReconstructPath(t, p) + [CellOf(t[i])]
  }

  /** Along a reconstructed path every move is a unit step onto the grid, and
      the path has one cell more than the steps the node's cost counts. */
  lemma {:induction false} PathFollowsTable(t: seq<Node>, start: Cell, startCost: int, gridSize: int, i: nat)
    requires SearchTable(t, start, startCost, gridSize) && i < |t|
    ensures var path := ReconstructPath(t, i);
      path[0] == start && |path| == t[i].cost - startCost + 1 &&
      forall k :: 0 < k < |path| ==> InGrid(path[k], gridSize) && UnitStep(path[k - 1], path[k])
    decreases i
  {
    if i > 0 {
      assert ChildOk(t, i, gridSize);
      var p := t[i].parent.value;
      PathFollowsTable(t, start, startCost, gridSize, p);
      var prefix := ReconstructPath(t, p);
      assert ReconstructPath(t, i) == prefix + [CellOf(t[i])];
    }
  }

  /** Adding nodes to the table does not change the path of a node already
      in it. */
  lemma {:induction false} PathStable(t: seq<Node>, extra: seq<Node>, i: nat)
    requires Linked(t) && Linked(t + extra) && i < |t|
    ensures ReconstructPath(t + extra, i) == ReconstructPath(t, i)
    decreases i
  {
    assert (t + extra)[i] == t[i];
    if i > 0 {
      PathStable(t, extra, t[i].parent.value);
    }
  }
}
