/**
 * The search driver `a_star_algorithm`, as written: no closed set, every
 * generated neighbour is inserted into the open set. The loop runs for at
 * most `fuel` rounds.
 */
module AStar {
  import opened Wrappers
  import opened Heap
  import opened Grid

  /** How the driver loop ends: the goal was popped (the popped node and
      the path `reconstruct_path` emits for it), the open set ran dry, or
      the round budget ran out. */
  datatype Outcome = GoalReached(goalNode: nat, path: seq<Cell>) | Exhausted | OutOfFuel

  /** Each node's `total_cost` is its cost plus its heuristic, and the
      heuristic is `h` towards `goal`. */
  predicate Totals(t: seq<Node>, goal: Cell, h: (Cell, Cell) -> int) {
    forall i :: 0 <= i < |t| ==> TotalOk(t[i], goal, h)
  }

  predicate TotalOk(n: Node, goal: Cell, h: (Cell, Cell) -> int) {
    n.heuristic == h(CellOf(n), goal) && n.total == n.cost + n.heuristic
  }

  /** Appending a child of node `p` that is one unit step from it, on the
      grid, one cost unit dearer, and whose total is cost plus heuristic,
      keeps the table a search table. */
  lemma AppendChild(t: seq<Node>, start: Cell, startCost: int, gridSize: int, goal: Cell,
                    h: (Cell, Cell) -> int, n: Node, p: nat)
    requires SearchTable(t, start, startCost, gridSize) && Totals(t, goal, h)
    requires p < |t| && n.parent == Some(p) && n.cost == t[p].cost + 1
    requires InGrid(CellOf(n), gridSize) && UnitStep(CellOf(t[p]), CellOf(n))
    requires n.heuristic == h(CellOf(n), goal) && n.total == n.cost + n.heuristic
    ensures SearchTable(t + [n], start, startCost, gridSize) && Totals(t + [n], goal, h)
  {
    var t' := t + [n];
    forall i | 0 < i < |t'|
      ensures ChildOk(t', i, gridSize)
    {
      if i < |t| {
        assert ChildOk(t, i, gridSize);
        assert t'[i] == t[i] && t'[t[i].parent.value] == t[t[i].parent.value];
      }
    }
  }

  /** The queue entries `es` refer to nodes of the table `t` and carry
      their `total_cost`. */
  predicate Matches(es: seq<Entry>, t: seq<Node>) {
    forall e | e in es :: Refers(e, t)
  }

  predicate Refers(e: Entry, t: seq<Node>) {
    e.id < |t| && e.key == t[e.id].total
  }

  /** Removing an entry keeps the queue matching the table. */
  lemma RemoveMatches(es: seq<Entry>, es': seq<Entry>, t: seq<Node>, e: Entry)
    requires Matches(es, t) && Bag(es') == Bag(es) - multiset{e}
    ensures Matches(es', t)
  {
    BagIsMultiset(es);
    BagIsMultiset(es');
    forall x | x in es'
      ensures Refers(x, t)
    {
      assert x in Bag(es');
      assert x in Bag(es);
    }
  }

  /** The node the driver makes of a neighbour at cell `c` of node `p`:
      cost `cost`, its heuristic towards `goal`, total = cost + heuristic,
      and `p` as parent. */
  function ChildNode(c: Cell, cost: int, p: nat, goal: Cell, h: (Cell, Cell) -> int): Node {
    Node(c.x, c.y, cost, h(c, goal), cost + h(c, goal), Some(p))
  }

  /** The nodes `ChildNode` makes of the cells `cs`, in their order. */
  function ChildNodes(cs: seq<Cell>, cost: int, p: nat, goal: Cell, h: (Cell, Cell) -> int): (r: seq<Node>)
    ensures |r| == |cs| && forall k :: 0 <= k < |cs| ==> r[k] == ChildNode(cs[k], cost, p, goal, h)
  {
    if cs == [] then []
    else
      var n := |cs| - 1;
      ChildNodes(cs[..n], cost, p, goal, h) + [ChildNode(cs[n], cost, p, goal, h)]
  }

  /** Taking one more cell of `ns` adds the node made of it. */
  lemma ChildNodesStep(ns: seq<Node>, i: nat, cost: int, p: nat, goal: Cell, h: (Cell, Cell) -> int)
    requires i < |ns|
    ensures ChildNodes(Cells(ns[..i + 1]), cost, p, goal, h) ==
      ChildNodes(Cells(ns[..i]), cost, p, goal, h) + [ChildNode(CellOf(ns[i]), cost, p, goal, h)]
  {
    assert ns[..i + 1][..i] == ns[..i];
    assert Cells(ns[..i + 1]) == Cells(ns[..i]) + [CellOf(ns[i])];
    assert (Cells(ns[..i]) + [CellOf(ns[i])])[..i] == Cells(ns[..i]);
  }

  /** The nodes one expansion of node `p` appends to the table: one per
      on-grid neighbour of `p`, in the order +x, -x, +y, -y, each one cost
      unit dearer than `p`. */
  function Children(t: seq<Node>, p: nat, gridSize: int, goal: Cell, h: (Cell, Cell) -> int): seq<Node>
    requires p < |t|
  {
    ChildNodes(InGridOnly(Steps(CellOf(t[p])), gridSize), t[p].cost + 1, p, goal, h)
  }

  /** The queue entries of nodes `ns`, numbered from `base` on. */
  function NewEntries(base: nat, ns: seq<Node>): multiset<Entry>
  {
    if ns == [] then multiset{}
    else
      var n := |ns| - 1;
      NewEntries(base, ns[..n]) + multiset{Entry(base + n, ns[n].total)}
  }

  /** The definition of `NewEntries`, one step, with the shorter sequence
      `init` and the last entry `e` named by the caller. */
  lemma NewEntriesLast(base: nat, ns: seq<Node>, init: seq<Node>, e: Entry)
    requires ns != [] && init == ns[..|ns| - 1] && e == Entry(base + |ns| - 1, ns[|ns| - 1].total)
    ensures NewEntries(base, ns) == NewEntries(base, init) + multiset{e}
  {
  }

  /** Appending one node adds its entry. */
  lemma NewEntriesSnoc(base: nat, ns: seq<Node>, n: Node)
    ensures NewEntries(base, ns + [n]) == NewEntries(base, ns) + multiset{Entry(base + |ns|, n.total)}
  {
    assert (ns + [n])[..|ns|] == ns;
  }

  /** Adding the entry of one more node to `initial` plus the entries of
      `ns` gives `initial` plus the entries of `ns + [n]`. */
  lemma NewEntriesStep(initial: multiset<Entry>, base: nat, ns: seq<Node>, n: Node, current: multiset<Entry>)
    requires current == initial + NewEntries(base, ns)
    ensures current + multiset{Entry(base + |ns|, n.total)} == initial + NewEntries(base, ns + [n])
  {
    NewEntriesSnoc(base, ns, n);
  }

  /** Adding one entry to a union adds it to the second part. */
  lemma UnionSnoc(initial: multiset<Entry>, bag: multiset<Entry>, e: Entry, current: multiset<Entry>)
    requires current == initial + bag
    ensures current + multiset{e} == initial + (bag + multiset{e})
  {
  }

  /** The entries of `ns` numbered from `base` are those of its nodes. */
  lemma {:induction false} NewEntriesMember(base: nat, ns: seq<Node>, e: Entry)
    requires e in NewEntries(base, ns)
    ensures base <= e.id < base + |ns| && e.key == ns[e.id - base].total
  {
    var n := |ns| - 1;
    if e != Entry(base + n, ns[n].total) {
      NewEntriesMember(base, ns[..n], e);
      assert ns[..n][e.id - base] == ns[e.id - base];
    }
  }

  /** A queue that matched the table and gained the entries of the nodes
      `kids` appended to it matches the grown table. */
  lemma GrownMatches(es: seq<Entry>, es': seq<Entry>, t: seq<Node>, kids: seq<Node>)
    requires Matches(es, t)
    requires Bag(es') == Bag(es) + NewEntries(|t|, kids)
    ensures Matches(es', t + kids)
  {
    BagIsMultiset(es);
    BagIsMultiset(es');
    forall e | e in es'
      ensures Refers(e, t + kids)
    {
      assert e in Bag(es');
      if e in Bag(es) {
        assert Refers(e, t) && (t + kids)[e.id] == t[e.id];
      } else {
        NewEntriesMember(|t|, kids, e);
      }
    }
  }

  /** The queue entries of the table nodes that are not in `ex`. */
  function Open(t: seq<Node>, ex: seq<nat>): multiset<Entry>
  {
    if t == [] then multiset{}
    else
      var n := |t| - 1;
      Open(t[..n], ex) + (if n in ex then multiset{} else multiset{Entry(n, t[n].total)})
  }

  /** The last node of the table, when open, adds its entry `e` to the
      open ones of the nodes `init` before it. */
  lemma OpenLast(t: seq<Node>, ex: seq<nat>, init: seq<Node>, e: Entry)
    requires t != [] && |t| - 1 !in ex
    requires init == t[..|t| - 1] && e == Entry(|t| - 1, t[|t| - 1].total)
    ensures Open(t, ex) == Open(init, ex) + multiset{e}
  {
  }

  /** The last node of the table, when expanded, adds nothing. */
  lemma OpenLastClosed(t: seq<Node>, ex: seq<nat>)
    requires t != [] && |t| - 1 in ex
    ensures Open(t, ex) == Open(t[..|t| - 1], ex)
  {
  }

  /** An entry is open exactly when it is the entry of a table node that is
      not in `ex`. */
  lemma {:induction false} OpenMember(t: seq<Node>, ex: seq<nat>, e: Entry)
    ensures e in Open(t, ex) <==> e.id < |t| && e.id !in ex && e.key == t[e.id].total
  {
    if t != [] {
      var n := |t| - 1;
      var last := if n in ex then multiset{} else multiset{Entry(n, t[n].total)};
      assert Open(t, ex) == Open(t[..n], ex) + last;
      assert e in last <==> e.id == n && n !in ex && e.key == t[n].total;
      OpenMember(t[..n], ex, e);
      if e.id < n {
        assert t[..n][e.id] == t[e.id];
      }
    }
  }

  /** Only the members of `ex` below the table's length matter. */
  lemma {:induction false} OpenSame(t: seq<Node>, ex: seq<nat>, ex': seq<nat>)
    requires forall k :: 0 <= k < |t| ==> (k in ex <==> k in ex')
    ensures Open(t, ex) == Open(t, ex')
  {
    if t != [] {
      OpenSame(t[..|t| - 1], ex, ex');
    }
  }

  /** Taking an entry out before or after adding others is the same. */
  lemma RemoveThenUnion(a: multiset<Entry>, e: Entry, b: multiset<Entry>)
    requires e in a
    ensures (a - multiset{e}) + b == (a + b) - multiset{e}
  {
  }

  /** Expanding node `p` takes its entry out of the open ones. */
  lemma {:induction false} OpenPop(t: seq<Node>, ex: seq<nat>, p: nat)
    requires p < |t| && p !in ex
    ensures Open(t, ex + [p]) == Open(t, ex) - multiset{Entry(p, t[p].total)}
  {
    var n := |t| - 1;
    var init := t[..n];
    var e := Entry(p, t[p].total);
    if p < n {
      assert init[p] == t[p];
      OpenPop(init, ex, p);
      OpenMember(init, ex, e);
      if n in ex {
        OpenLastClosed(t, ex);
        OpenLastClosed(t, ex + [p]);
      } else {
        assert n !in ex + [p];
        OpenLast(t, ex, init, Entry(n, t[n].total));
        OpenLast(t, ex + [p], init, Entry(n, t[n].total));
        RemoveThenUnion(Open(init, ex), e, multiset{Entry(n, t[n].total)});
      }
    } else {
      assert p in ex + [p];
      OpenLast(t, ex, init, e);
      OpenLastClosed(t, ex + [p]);
      OpenSame(init, ex, ex + [p]);
    }
  }

  /** Appending nodes that are not in `ex` adds exactly their entries. */
  lemma {:induction false} OpenAppend(t: seq<Node>, ex: seq<nat>, ns: seq<Node>)
    requires forall k :: k in ex ==> k < |t|
    ensures Open(t + ns, ex) == Open(t, ex) + NewEntries(|t|, ns)
    decreases |ns|
  {
    if ns == [] {
      assert t + ns == t;
    } else {
      var u := t + ns;
      var n := |u| - 1;
      var m := |ns| - 1;
      var e := Entry(n, ns[m].total);
      var init := t + ns[..m];
      assert u[..n] == init && u[n] == ns[m];
      OpenAppend(t, ex, ns[..m]);
      assert n !in ex;
      OpenLast(u, ex, init, e);
      NewEntriesLast(|t|, ns, ns[..m], e);
      UnionSnoc(Open(t, ex), NewEntries(|t|, ns[..m]), e, Open(init, ex));
    }
  }

  /** The open entries after a round that expands node `p` and appends
      `kids`: the old ones without `p`'s, plus the entries of `kids`. */
  lemma OpenAfterExpand(t: seq<Node>, ex: seq<nat>, p: nat, kids: seq<Node>)
    requires forall k :: k in ex ==> k < |t|
    requires p < |t| && p !in ex
    ensures Open(t + kids, ex + [p]) == Open(t, ex) - multiset{Entry(p, t[p].total)} + NewEntries(|t|, kids)
  {
    OpenPop(t, ex, p);
    OpenAppend(t, ex + [p], kids);
  }

  /** Queue contents equal to the open entries match the table. */
  lemma OpenMatches(es: seq<Entry>, t: seq<Node>, ex: seq<nat>)
    requires Bag(es) == Open(t, ex)
    ensures Matches(es, t)
  {
    BagIsMultiset(es);
    forall e | e in es
      ensures Refers(e, t)
    {
      assert e in Bag(es);
      OpenMember(t, ex, e);
    }
  }

  /** The entry popped from a queue holding the open entries belongs to a
      node not yet expanded, and that node's total is the least among all
      nodes not yet expanded. */
  lemma PopIsBest(es: seq<Entry>, t: seq<Node>, ex: seq<nat>, e: Entry)
    requires Bag(es) == Open(t, ex) && e in Bag(es) && KeysAtLeast(es, e.key)
    ensures e.id < |t| && e.id !in ex && e.key == t[e.id].total
    ensures forall k :: 0 <= k < |t| && k !in ex ==> t[e.id].total <= t[k].total
  {
    OpenMember(t, ex, e);
    forall k | 0 <= k < |t| && k !in ex
      ensures t[e.id].total <= t[k].total
    {
      OpenMember(t, ex, Entry(k, t[k].total));
      KeysAtLeastMember(es, e.key, Entry(k, t[k].total));
    }
  }

  /** Appending the children of node `p`, built from cells that are on the
      grid and one unit step from `p`, keeps the table a search table. */
  lemma {:induction false} AppendChildren(t: seq<Node>, start: Cell, startCost: int, gridSize: int, goal: Cell,
                                          h: (Cell, Cell) -> int, p: nat, cs: seq<Cell>)
    requires SearchTable(t, start, startCost, gridSize) && Totals(t, goal, h) && p < |t|
    requires forall k :: 0 <= k < |cs| ==> StepInGrid(CellOf(t[p]), cs[k], gridSize)
    ensures var grown := t + ChildNodes(cs, t[p].cost + 1, p, goal, h);
      SearchTable(grown, start, startCost, gridSize) && Totals(grown, goal, h)
    decreases |cs|
  {
    if cs != [] {
      var init := cs[..|cs| - 1];
      var c := cs[|cs| - 1];
      AppendChildren(t, start, startCost, gridSize, goal, h, p, init);
      var prefix := t + ChildNodes(init, t[p].cost + 1, p, goal, h);
      assert prefix[p] == t[p];
      AppendChild(prefix, start, startCost, gridSize, goal, h, ChildNode(c, t[p].cost + 1, p, goal, h), p);
      assert t + ChildNodes(cs, t[p].cost + 1, p, goal, h) == prefix + [ChildNode(c, t[p].cost + 1, p, goal, h)];
    } else {
      assert t + ChildNodes(cs, t[p].cost + 1, p, goal, h) == t;
    }
  }

  /** The nodes made of the neighbours `find_neighbors` reports for node
      `p` are `p`'s children, and appending them keeps the table a search
      table. */
  lemma NeighbourChildren(t: seq<Node>, start: Cell, startCost: int, gridSize: int, goal: Cell,
                          h: (Cell, Cell) -> int, p: nat, current: Node, neighbors: seq<Node>, kids: seq<Node>)
    requires SearchTable(t, start, startCost, gridSize) && Totals(t, goal, h) && p < |t| && current == t[p]
    requires forall k :: 0 <= k < |neighbors| ==> StepInGrid(CellOf(current), CellOf(neighbors[k]), gridSize)
    requires Cells(neighbors) == InGridOnly(Steps(CellOf(current)), gridSize)
    requires kids == ChildNodes(Cells(neighbors), current.cost + 1, p, goal, h)
    ensures kids == Children(t, p, gridSize, goal, h)
    ensures SearchTable(t + kids, start, startCost, gridSize) && Totals(t + kids, goal, h)
  {
    AppendChildren(t, start, startCost, gridSize, goal, h, p, Cells(neighbors));
  }

  /** One round of the loop over the neighbours: the neighbour gets cost
      `current.cost + 1`, its heuristic and total, and `current` (node
      `currentId`) as parent, and is inserted into the open set as node
      `id`. The test for a better cost always passes, because a fresh
      neighbour has cost 0. */
  method Relax(openSet: PriorityQueue, current: Node, currentId: nat, id: nat, neighbor: Node, goal: Cell, h: (Cell, Cell) -> int)
    returns (added: Node)
    requires openSet.Valid() && neighbor.cost == 0
    modifies openSet, openSet.nodes
    ensures openSet.Valid() && (openSet.nodes == old(openSet.nodes) || fresh(openSet.nodes))
    ensures added == ChildNode(CellOf(neighbor), current.cost + 1, currentId, goal, h)
    ensures Bag(openSet.Contents()) == old(Bag(openSet.Contents())) + multiset{Entry(id, added.total)}
  {
    var tentative := current.cost + 1;
    added := neighbor;
    if tentative < neighbor.cost || neighbor.cost == 0 {
      var hn := h(CellOf(neighbor), goal);
      added := neighbor.(parent := Some(currentId), cost := tentative, heuristic := hn, total := tentative + hn);
      var ok := openSet.Insert(Entry(id, added.total), true);
    }
  }

  /** The loop over the neighbours in `a_star_algorithm`: every neighbour,
      in order, becomes a new node with `current` (node `currentId`) as
      parent, numbered on from `base`, and the open set gains exactly the
      entries of the new nodes. */
  method Expand(openSet: PriorityQueue, current: Node, currentId: nat, base: nat, neighbors: seq<Node>,
                goal: Cell, h: (Cell, Cell) -> int)
    returns (kids: seq<Node>)
    requires openSet.Valid()
    requires forall k :: 0 <= k < |neighbors| ==> neighbors[k].cost == 0
    modifies openSet, openSet.nodes
    ensures openSet.Valid() && (openSet.nodes == old(openSet.nodes) || fresh(openSet.nodes))
    ensures kids == ChildNodes(Cells(neighbors), current.cost + 1, currentId, goal, h)
    ensures Bag(openSet.Contents()) == old(Bag(openSet.Contents())) + NewEntries(base, kids)
  {
    ghost var initial := Bag(openSet.Contents());
    kids := [];
    for i := 0 to |neighbors|
      invariant openSet.Valid() && (openSet.nodes == old(openSet.nodes) || fresh(openSet.nodes))
      invariant kids == ChildNodes(Cells(neighbors[..i]), current.cost + 1, currentId, goal, h)
      invariant Bag(openSet.Contents()) == initial + NewEntries(base, kids)
    {
      ghost var before := Bag(openSet.Contents());
      var added := Relax(openSet, current, currentId, base + |kids|, neighbors[i], goal, h);
      NewEntriesStep(initial, base, kids, added, before);
      ChildNodesStep(neighbors, i, current.cost + 1, currentId, goal, h);
      kids := kids + [added];
    }
    assert neighbors[..|neighbors|] == neighbors;
  }

  /** The outcome `GoalReached(i, path)` is right for the table `t`: node
      `i` sits at `goal` and `path` is its reconstructed chain, which runs
      from `start` to `goal` through unit steps on the grid and has one
      cell per cost unit above `startCost`, plus one. */
  predicate GoalPath(t: seq<Node>, i: nat, path: seq<Cell>, start: Cell, startCost: int, goal: Cell, gridSize: int) {
    Linked(t) && i < |t| && CellOf(t[i]) == goal && path == ReconstructPath(t, i) &&
    path[0] == start && path[|path| - 1] == goal &&
    |path| == t[i].cost - startCost + 1 &&
    forall k :: 0 < k < |path| ==> InGrid(path[k], gridSize) && UnitStep(path[k - 1], path[k])
  }

  /** One round of the loop in `a_star_algorithm`: stop if the open set is
      empty; otherwise pop the smallest key, stop if its node is at the
      goal, and else insert all its neighbours. `popped` is the entry taken
      out of the open set; `done == None` means the loop goes on. */
  method Round(openSet: PriorityQueue, table: seq<Node>, start: Cell, startCost: int, goal: Cell,
               gridSize: int, h: (Cell, Cell) -> int)
    returns (done: Option<Outcome>, popped: Option<Entry>, grown: seq<Node>)
    requires openSet.Valid() && Matches(openSet.Contents(), table)
    requires SearchTable(table, start, startCost, gridSize) && Totals(table, goal, h)
    modifies openSet, openSet.nodes
    ensures openSet.Valid() && (openSet.nodes == old(openSet.nodes) || fresh(openSet.nodes))
    ensures SearchTable(grown, start, startCost, gridSize) && Totals(grown, goal, h)
    ensures Matches(openSet.Contents(), grown)
    ensures popped.None? <==> old(openSet.Contents()) == []
    ensures popped.None? ==> done == Some(Exhausted) && grown == table && openSet.Contents() == []
    ensures popped.Some? ==>
      popped.value in old(Bag(openSet.Contents())) && KeysAtLeast(old(openSet.Contents()), popped.value.key) &&
      popped.value.id < |table|
    ensures popped.Some? && CellOf(table[popped.value.id]) == goal ==>
      done == Some(GoalReached(popped.value.id, ReconstructPath(table, popped.value.id))) && grown == table &&
      GoalPath(grown, popped.value.id, ReconstructPath(table, popped.value.id), start, startCost, goal, gridSize)
    ensures popped.Some? && CellOf(table[popped.value.id]) != goal ==>
      done == None && grown == table + Children(table, popped.value.id, gridSize, goal, h) &&
      Bag(openSet.Contents()) ==
        old(Bag(openSet.Contents())) - multiset{popped.value} + NewEntries(|table|, Children(table, popped.value.id, gridSize, goal, h))
  {
    grown := table;
    var empty := openSet.IsEmpty();
    if empty {
      return Some(Exhausted), None, grown;
    }
    ghost var before := openSet.Contents();
    popped := openSet.Pop();
    RemoveMatches(before, openSet.Contents(), table, popped.value);
    assert before[0] in before && Refers(popped.value, table);
    var currentId := popped.value.id;
    var current := table[currentId];
    if current.x == goal.x && current.y == goal.y {
      PathFollowsTable(table, start, startCost, gridSize, currentId);
      return Some(GoalReached(currentId, ReconstructPath(table, currentId))), popped, grown;
    }
    var neighbors := FindNeighbors(current, currentId, gridSize);
    ghost var rest := openSet.Contents();
    var kids := Expand(openSet, current, currentId, |table|, neighbors, goal, h);
    NeighbourChildren(table, start, startCost, gridSize, goal, h, currentId, current, neighbors, kids);
    GrownMatches(rest, openSet.Contents(), table, kids);
    grown := table + kids;
    done := None;
  }

  /** The start node: at `start`, with cost `startCost`, no parent, and
      total = cost + heuristic. */
  function Root(start: Cell, startCost: int, goal: Cell, h: (Cell, Cell) -> int): Node {
    Node(start.x, start.y, startCost, h(start, goal), startCost + h(start, goal), None)
  }

  /** The table after expanding the nodes `ps`, in order, from `t0`: each
      expansion appends the children of the expanded node. An index outside
      the table expands nothing. */
  function Unfold(t0: seq<Node>, ps: seq<nat>, gridSize: int, goal: Cell, h: (Cell, Cell) -> int): seq<Node>
  {
    if ps == [] then t0
    else
      var prev := Unfold(t0, ps[..|ps| - 1], gridSize, goal, h);
      var p := ps[|ps| - 1];
      if p < |prev| then prev + Children(prev, p, gridSize, goal, h) else prev
  }

  /** The table after the first `j` expansions is a prefix of the table
      after all of them: expanding only appends. */
  lemma {:induction false} UnfoldPrefix(t0: seq<Node>, ps: seq<nat>, j: nat, gridSize: int, goal: Cell, h: (Cell, Cell) -> int)
    requires j <= |ps|
    ensures var a := Unfold(t0, ps[..j], gridSize, goal, h);
      var b := Unfold(t0, ps, gridSize, goal, h);
      |a| <= |b| && b[..|a|] == a
    decreases |ps|
  {
    if j < |ps| {
      var init := ps[..|ps| - 1];
      assert init[..j] == ps[..j];
      UnfoldPrefix(t0, init, j, gridSize, goal, h);
    } else {
      assert ps[..j] == ps;
    }
  }

  /** No node is expanded twice. */
  predicate NoRepeats(ps: seq<nat>) {
    forall i, j :: 0 <= i < j < |ps| ==> ps[i] != ps[j]
  }

  /** When node `ex[j]` was popped, the table had `n` nodes: `ex[j]` was
      one of them, and it had the least total among those not expanded
      before it. */
  predicate Chosen(t: seq<Node>, ex: seq<nat>, j: nat, n: nat)
    requires j < |ex|
  {
    ex[j] < n && n <= |t| &&
    forall k :: 0 <= k < n && k !in ex[..j] ==> t[ex[j]].total <= t[k].total
  }

  /** Growing the table and expanding more nodes keeps earlier choices
      valid. */
  lemma ChosenExtend(t: seq<Node>, t': seq<Node>, ex: seq<nat>, p: nat, j: nat, n: nat)
    requires j < |ex| && Chosen(t, ex, j, n)
    requires |t| <= |t'| && t'[..|t|] == t
    ensures Chosen(t', ex + [p], j, n)
  {
    var ex' := ex + [p];
    assert ex'[..j] == ex[..j] && ex'[j] == ex[j];
    forall k | 0 <= k < n && k !in ex'[..j]
      ensures t'[ex'[j]].total <= t'[k].total
    {
      assert t'[k] == t[k] && t'[ex[j]] == t[ex[j]];
    }
  }

  /** What the driver loop keeps between rounds: `table` is a search table
      and is what expanding the nodes `ex` in order produces from the start
      node; no node was expanded twice; each expanded node was off the goal
      and had, when popped, the least total among the nodes not yet
      expanded; and a start at the goal is never expanded. */
  ghost predicate Explored(table: seq<Node>, ex: seq<nat>, start: Cell, startCost: int, goal: Cell,
                           gridSize: int, h: (Cell, Cell) -> int)
  {
    var root := Root(start, startCost, goal, h);
    SearchTable(table, start, startCost, gridSize) && Totals(table, goal, h) &&
    table == Unfold([root], ex, gridSize, goal, h) &&
    NoRepeats(ex) &&
    (forall j :: 0 <= j < |ex| ==>
      ex[j] < |table| && CellOf(table[ex[j]]) != goal &&
      Chosen(table, ex, j, |Unfold([root], ex[..j], gridSize, goal, h)|)) &&
    (start == goal ==> ex == [])
  }

  /** Expanding one more node appends its children to the table. */
  lemma UnfoldSnoc(t0: seq<Node>, ps: seq<nat>, p: nat, gridSize: int, goal: Cell, h: (Cell, Cell) -> int)
    requires p < |Unfold(t0, ps, gridSize, goal, h)|
    ensures var t := Unfold(t0, ps, gridSize, goal, h);
      Unfold(t0, ps + [p], gridSize, goal, h) == t + Children(t, p, gridSize, goal, h)
  {
    assert (ps + [p])[..|ps|] == ps;
  }

  /** Popping `p`, the least total among the nodes not yet expanded, keeps
      every expansion a best-first choice once the table grows. */
  lemma ChosenAfterExpand(table: seq<Node>, grown: seq<Node>, ex: seq<nat>, p: nat, root: Node,
                          gridSize: int, goal: Cell, h: (Cell, Cell) -> int)
    requires forall j :: 0 <= j < |ex| ==>
      ex[j] < |table| && CellOf(table[ex[j]]) != goal &&
      Chosen(table, ex, j, |Unfold([root], ex[..j], gridSize, goal, h)|)
    requires table == Unfold([root], ex, gridSize, goal, h)
    requires p < |table| && CellOf(table[p]) != goal
    requires forall k :: 0 <= k < |table| && k !in ex ==> table[p].total <= table[k].total
    requires |table| <= |grown| && grown[..|table|] == table
    ensures var ex' := ex + [p];
      forall j :: 0 <= j < |ex'| ==>
        ex'[j] < |grown| && CellOf(grown[ex'[j]]) != goal &&
        Chosen(grown, ex', j, |Unfold([root], ex'[..j], gridSize, goal, h)|)
  {
    var ex' := ex + [p];
    forall j | 0 <= j < |ex'|
      ensures ex'[j] < |grown| && CellOf(grown[ex'[j]]) != goal &&
        Chosen(grown, ex', j, |Unfold([root], ex'[..j], gridSize, goal, h)|)
    {
      if j < |ex| {
        assert ex'[..j] == ex[..j];
        assert grown[ex[j]] == table[ex[j]];
        ChosenExtend(table, grown, ex, p, j, |Unfold([root], ex[..j], gridSize, goal, h)|);
      } else {
        assert ex'[..j] == ex;
        assert grown[p] == table[p];
        forall k | 0 <= k < |table| && k !in ex'[..j]
          ensures grown[ex'[j]].total <= grown[k].total
        {
          assert grown[k] == table[k];
        }
      }
    }
  }

  /** No node is expanded twice after expanding one not expanded before. */
  lemma NoRepeatsSnoc(ps: seq<nat>, p: nat)
    requires NoRepeats(ps) && p !in ps
    ensures NoRepeats(ps + [p])
  {
    var qs := ps + [p];
    forall i, j | 0 <= i < j < |qs|
      ensures qs[i] != qs[j]
    {
      if j == |ps| {
        assert qs[i] == ps[i];
      }
    }
  }

  lemma ExploredIntro(table: seq<Node>, ex: seq<nat>, start: Cell, startCost: int, goal: Cell,
                      gridSize: int, h: (Cell, Cell) -> int)
    requires SearchTable(table, start, startCost, gridSize) && Totals(table, goal, h)
    requires table == Unfold([Root(start, startCost, goal, h)], ex, gridSize, goal, h)
    requires NoRepeats(ex)
    requires forall j :: 0 <= j < |ex| ==>
      ex[j] < |table| && CellOf(table[ex[j]]) != goal &&
      Chosen(table, ex, j, |Unfold([Root(start, startCost, goal, h)], ex[..j], gridSize, goal, h)|)
    requires start != goal
    ensures Explored(table, ex, start, startCost, goal, gridSize, h)
  {
  }

  /** Expanding a node `p` that is open, off the goal and of least total
      keeps `Explored`. */
  lemma Advance(table: seq<Node>, ex: seq<nat>, p: nat, start: Cell, startCost: int, goal: Cell,
                gridSize: int, h: (Cell, Cell) -> int)
    requires Explored(table, ex, start, startCost, goal, gridSize, h)
    requires p < |table| && p !in ex && CellOf(table[p]) != goal
    requires forall k :: 0 <= k < |table| && k !in ex ==> table[p].total <= table[k].total
    requires var grown := table + Children(table, p, gridSize, goal, h);
      SearchTable(grown, start, startCost, gridSize) && Totals(grown, goal, h)
    ensures Explored(table + Children(table, p, gridSize, goal, h), ex + [p], start, startCost, goal, gridSize, h)
  {
    var root := Root(start, startCost, goal, h);
    var grown := table + Children(table, p, gridSize, goal, h);
    UnfoldSnoc([root], ex, p, gridSize, goal, h);
    assert grown[..|table|] == table;
    ChosenAfterExpand(table, grown, ex, p, root, gridSize, goal, h);
    NoRepeatsSnoc(ex, p);
    if ex == [] {
      assert table == [root];
    }
    ExploredIntro(grown, ex + [p], start, startCost, goal, gridSize, h);
  }

  /** Every expanded node is a table node. */
  lemma ExpandedInTable(table: seq<Node>, ex: seq<nat>, start: Cell, startCost: int, goal: Cell,
                        gridSize: int, h: (Cell, Cell) -> int)
    requires Explored(table, ex, start, startCost, goal, gridSize, h)
    ensures forall k :: k in ex ==> k < |table|
  {
    forall k | k in ex
      ensures k < |table|
    {
      var j :| 0 <= j < |ex| && ex[j] == k;
    }
  }

  /** Under `Explored`, every expansion was of a node already in the table
      and appended exactly that node's children: no step of `ex` is
      skipped by `Unfold`. */
  lemma ExpansionsAppend(table: seq<Node>, ex: seq<nat>, j: nat, start: Cell, startCost: int, goal: Cell,
                         gridSize: int, h: (Cell, Cell) -> int)
    requires Explored(table, ex, start, startCost, goal, gridSize, h) && j < |ex|
    ensures var root := Root(start, startCost, goal, h);
      var before := Unfold([root], ex[..j], gridSize, goal, h);
      ex[j] < |before| &&
      Unfold([root], ex[..j + 1], gridSize, goal, h) == before + Children(before, ex[j], gridSize, goal, h)
  {
    assert ex[..j + 1][..j] == ex[..j];
  }

  /** With no open entries left, every table node has been expanded. */
  lemma NothingOpen(t: seq<Node>, ex: seq<nat>)
    requires Open(t, ex) == multiset{}
    ensures forall k :: 0 <= k < |t| ==> k in ex
  {
    forall k | 0 <= k < |t|
      ensures k in ex
    {
      OpenMember(t, ex, Entry(k, t[k].total));
    }
  }

  /** Before the first round: the table holds the start node alone,
      nothing is expanded, and the start node's entry is the only open one. */
  lemma Begin(start: Cell, startCost: int, goal: Cell, gridSize: int, h: (Cell, Cell) -> int)
    ensures var table := [Root(start, startCost, goal, h)];
      Explored(table, [], start, startCost, goal, gridSize, h) &&
      Open(table, []) == multiset{Entry(0, table[0].total)}
  {
    var table := [Root(start, startCost, goal, h)];
    assert table[..0] == [];
  }

  /** One pass of the loop body of `a_star_algorithm` over the state the
      loop keeps: the open set holds exactly the entries of the nodes not
      yet expanded. Either the loop stops, with an outcome that is right
      for the table, or one more node is expanded and the state is kept. */
  method Turn(openSet: PriorityQueue, table: seq<Node>, ghost expanded: seq<nat>, start: Cell, startCost: int,
              goal: Cell, gridSize: int, h: (Cell, Cell) -> int)
    returns (done: Option<Outcome>, grown: seq<Node>, ghost ex: seq<nat>, ghost p: nat)
    requires openSet.Valid() && Explored(table, expanded, start, startCost, goal, gridSize, h)
    requires Bag(openSet.Contents()) == Open(table, expanded)
    modifies openSet, openSet.nodes
    ensures openSet.Valid() && (openSet.nodes == old(openSet.nodes) || fresh(openSet.nodes))
    ensures done.Some? ==> grown == table && ex == expanded && !done.value.OutOfFuel?
    ensures done.None? ==>
      p < |table| && p !in expanded && ex == expanded + [p] && grown == table + Children(table, p, gridSize, goal, h) &&
      Explored(grown, ex, start, startCost, goal, gridSize, h) &&
      Bag(openSet.Contents()) == Open(grown, ex)
    ensures done == Some(Exhausted) ==> forall k :: 0 <= k < |table| ==> k in expanded
    ensures done.Some? && done.value.GoalReached? ==>
      GoalPath(table, done.value.goalNode, done.value.path, start, startCost, goal, gridSize) &&
      done.value.goalNode !in expanded &&
      forall k :: 0 <= k < |table| && k !in expanded ==> table[done.value.goalNode].total <= table[k].total
    ensures start == goal && expanded == [] ==> done == Some(GoalReached(0, [start]))
  {
    ghost var before := openSet.Contents();
    OpenMatches(before, table, expanded);
    var popped;
    done, popped, grown := Round(openSet, table, start, startCost, goal, gridSize, h);
    ex, p := expanded, 0;
    if popped.None? {
      NothingOpen(table, expanded);
      return;
    }
    var e := popped.value;
    PopIsBest(before, table, expanded, e);
    if done.Some? {
      if start == goal && expanded == [] {
        assert table == [Root(start, startCost, goal, h)];
      }
      return;
    }
    ExpandedInTable(table, expanded, start, startCost, goal, gridSize, h);
    OpenAfterExpand(table, expanded, e.id, Children(table, e.id, gridSize, goal, h));
    Advance(table, expanded, e.id, start, startCost, goal, gridSize, h);
    ex, p := expanded + [e.id], e.id;
  }

  /** `a_star_algorithm`. The start node sits at `start` with cost
      `startCost` and no parent; `h` stands for the heuristic. Besides the
      outcome it returns the node table: the start node and every node the
      driver inserted into the open set, in insertion order. `expanded`
      lists the nodes the loop popped and expanded, in order; the table is
      exactly what those expansions produce. */
  method Search(start: Cell, startCost: int, goal: Cell, gridSize: int, h: (Cell, Cell) -> int, fuel: nat)
    returns (r: Outcome, table: seq<Node>, ghost expanded: seq<nat>)
    ensures Explored(table, expanded, start, startCost, goal, gridSize, h)
    ensures |expanded| <= fuel && (r.OutOfFuel? <==> |expanded| == fuel)
    ensures r.GoalReached? ==>
      GoalPath(table, r.goalNode, r.path, start, startCost, goal, gridSize) && r.goalNode !in expanded &&
      forall k :: 0 <= k < |table| && k !in expanded ==> table[r.goalNode].total <= table[k].total
    ensures r.Exhausted? ==> forall k :: 0 <= k < |table| ==> k in expanded
    ensures fuel > 0 && start == goal ==> r == GoalReached(0, [start])
  {
    var openSet := new PriorityQueue(100);
    table := [Node(start.x, start.y, startCost, h(start, goal), startCost + h(start, goal), None)];
    var ok := openSet.Insert(Entry(0, table[0].total), true);
    expanded := [];
    Begin(start, startCost, goal, gridSize, h);
    var remaining: nat := fuel;
    while remaining > 0
      invariant openSet.Valid() && fresh(openSet) && fresh(openSet.nodes)
      invariant Explored(table, expanded, start, startCost, goal, gridSize, h)
      invariant Bag(openSet.Contents()) == Open(table, expanded)
      invariant |expanded| + remaining == fuel
      decreases remaining
    {
      var done, grown, ex, p := Turn(openSet, table, expanded, start, startCost, goal, gridSize, h);
      if done.Some? {
        return done.value, table, expanded;
      }
      expanded := ex;
      table := grown;
      remaining := remaining - 1;
    }
    return OutOfFuel, table, expanded;
  }
}
