# A* grid search: a Dafny model of `backend/astar_algorithm.c`

This project models the C A* search on a square grid, as the code is written.
It has two parts and a driver that joins them.

- The open set. `PriorityQueue` is a binary min-heap of node references in a
  growable array, keyed on each node's `total_cost`. Here it is the class
  `Heap.PriorityQueue`. Its `array<Entry>` field `nodes` and its `size` and
  `capacity` fields are updated in place by `Insert`, `Pop`, `HeapifyUp`,
  `HeapifyDown` and `Resize`. The heap order and the multiset of stored
  entries are proved for every operation. The contracts that callers see
  count the entries with `Heap.Bag`, a multiset built one slot at a time,
  and `Heap.BagIsMultiset` proves it equal to Dafny's `multiset` of the
  slots.
- Neighbour generation and path reconstruction (`Grid`). `FindNeighbors`
  makes up to four unit moves, in the order +x, -x, +y, -y, and keeps the
  ones that stay in `[0, gridSize)`. `ReconstructPath` walks the parent
  links from the root down to a node.
- The driver `AStar.Search` (`a_star_algorithm`). Each round pops the
  smallest key and stops once the popped node's coordinates equal the goal.
  Otherwise it expands the node's neighbours with cost `current.cost + 1` and
  inserts every one of them. The code has no closed set and no best-cost
  check, and the model follows it.

Modelling choices:

- Nodes live in a node table, a `seq<Node>`. A C pointer becomes an index
  into it, so `parent` is an `Option<nat>` holding the parent's index.
- A heap slot is an `Entry(id, key)`: the node's index and its `total_cost`.
  Copying the key into the entry matches the C code. The driver never
  changes a node's `total_cost` after inserting it, because every neighbour
  is a new node. `AStar.Search` keeps the invariant `key == table[id].total`.
- Costs and keys are integers. The heuristic (`sqrt` of squared distances
  in `float`) becomes a parameter `h: (Cell, Cell) -> int`.
- The allocator's answer to `realloc` becomes the parameter `granted` of
  `Resize`. `Insert` passes it through as `grow`. A refused resize drops the
  insert, as at lines 64-66. The driver always passes `true`.
- The driver loop runs at most `fuel` rounds.
- `Search` returns what `a_star_algorithm` prints: the path, as a sequence.
  It also returns the node table and the index of the goal node it popped.
- `Search` also returns, as a ghost, the list `expanded` of nodes it popped
  and expanded, in order. `AStar.Unfold` says what table those expansions
  produce. `AStar.Open` gives the entries of the table nodes not in
  `expanded`. The open set holds exactly these, counted with multiplicity.
- `AStar.Explored` is what the loop keeps between rounds. The table is what
  the expansions produce. No node is expanded twice. Each expanded node was
  already in the table when it was popped, and expanding it appended exactly
  its children (`AStar.ExpansionsAppend`). It was off the goal and had the least total among the nodes still open when it was
  popped. This is the best-first order of the search. It is not a claim of
  optimality, because the code has no closed set.

The comment at backend/astar_algorithm.c:170-171 says that a full
implementation would keep a closed set and would skip a neighbour already
open with a lower cost. The code does neither, and this model follows the
code: a cell may be expanded several times, once per node made for it.

## Model

| member | source | states |
|---|---|---|
| `Heap.PriorityQueue.constructor` | backend/astar_algorithm.c:25-38 | A new queue is empty, is a valid heap, and has the requested capacity. |
| `Heap.PriorityQueue.Resize` | backend/astar_algorithm.c:40-47 | If the allocator agrees, capacity becomes `newCapacity`, the storage is new and every slot both sizes share keeps its entry. If it refuses, nothing changes. Either way the stored entries and `size` are unchanged. |
| `Heap.PriorityQueue.HeapifyUp` | backend/astar_algorithm.c:49-61 | Input: a heap whose only defect is that slot `index` may be smaller than its parent. Output: a valid heap with the same multiset of entries and the same `size`. Slots past `size` are untouched. |
| `Heap.PriorityQueue.Insert` | backend/astar_algorithm.c:63-71 | When full, the capacity first doubles. The insert happens exactly when there was room or the resize was granted. Then `size` grows by one and the multiset is the old one plus the new entry. Otherwise the contents are unchanged. The heap stays valid in both cases. |
| `Heap.PriorityQueue.HeapifyDown` | backend/astar_algorithm.c:73-92 | Input: a heap whose only defect is that slot `index` may be larger than its children. Output: a valid heap with the same multiset and `size`. Slots past `size` are untouched. |
| `Heap.PriorityQueue.Pop` | backend/astar_algorithm.c:94-101 | An empty queue gives `None` and stays unchanged. Otherwise the result is the old root, and its key is at most every stored key. `size` drops by one, the multiset loses exactly that entry, and the heap stays valid. |
| `Heap.PriorityQueue.IsEmpty` | backend/astar_algorithm.c:103-105 | True exactly when the queue stores no entries. |
| `Heap.PriorityQueue.PopTwice` | backend/astar_algorithm.c:94-101 | Two pops in a row, with no insert between them, return non-decreasing keys. If the first pop finds the queue empty, so does the second. |
| `Heap.RootIsMin` | backend/astar_algorithm.c:94-96 | In a heap, the root's key is at most the key in any slot. |
| `Heap.RootIsMinAll` | backend/astar_algorithm.c:94-96 | In a non-empty heap, no stored key is below the root's. |
| `Heap.SwapUp` | backend/astar_algorithm.c:50-60 | One step of the sift-up: swapping a slot that is smaller than its parent with that parent moves the only defect to the parent's slot. |
| `Heap.SwapDown` | backend/astar_algorithm.c:86-90 | One step of the sift-down: swapping a slot with its smallest child, when that child is smaller, moves the only defect to the child's slot. |
| `Heap.SmallestOfFamily` | backend/astar_algorithm.c:74-84 | The slot `heapify_down` picks from a parent and its two children is either the parent or one of its children. Its key is at most every child's. |
| `Heap.SettledDown` | backend/astar_algorithm.c:86 | If no child of the defective slot is smaller than it, the array is already a heap. |
| `Heap.Append` | backend/astar_algorithm.c:68-70 | Appending to a heap leaves the new last slot as the only defect. |
| `Heap.RemoveRoot` | backend/astar_algorithm.c:96-99 | Moving the last entry into the root and dropping the last slot removes exactly the root. The only defect left is at the root. |
| `Heap.KeysAtLeastMember` | backend/astar_algorithm.c:94-101 | A lower bound on all keys of a sequence holds for each of its members. |
| `Grid.FindNeighbors` | backend/astar_algorithm.c:107-128 | The result holds at most 4 nodes. Their cells are the on-grid cells among +x, -x, +y, -y, in that order. A cell is in the result exactly when it is on the grid and one unit step from `current`. Each result has cost 0 and `current` as parent. |
| `Grid.InGridOnlyMembers` | backend/astar_algorithm.c:112-116 | The bounds filter keeps a cell exactly when it is one of the candidates and lies in `[0, gridSize)` on both axes. |
| `Grid.StepsAreUnitSteps` | backend/astar_algorithm.c:109-114 | The four moves from `dx`/`dy` are exactly the cells that differ by 1 in exactly one axis. |
| `Grid.CornerNeighbours` | backend/astar_algorithm.c:107-128 | From (0, 0) on a 10 by 10 grid, where the demo starts, only (1, 0) and (0, 1) are generated, in that order. |
| `Grid.ReconstructPath` | backend/astar_algorithm.c:130-134 | The emitted cells run from the root of the parent chain to the node itself. The path is non-empty and no longer than the node's index plus one. |
| `Grid.PathFollowsTable` | backend/astar_algorithm.c:130-134 | In a search table, a node's path starts at `start`. Every later cell is on the grid and one unit step from the cell before it. The path has `cost - startCost + 1` cells, so cost counts the chain's steps. |
| `Grid.PathStable` | backend/astar_algorithm.c:130-134 | Adding nodes to the table does not change the path of a node already in it. |
| `AStar.AppendChild` | backend/astar_algorithm.c:163-168 | A node added whose parent is an earlier node still gives a search table, provided the node is one unit step from the parent, on the grid, one cost unit dearer, and has total = cost + heuristic. |
| `AStar.RemoveMatches` | backend/astar_algorithm.c:148 | Popping an entry keeps every remaining queue entry pointing at a table node and carrying that node's total. |
| `AStar.ChildNodes` | backend/astar_algorithm.c:163-168 | One node per cell, in order. Each node sits at its cell, has the given cost, its heuristic towards the goal, total = cost + heuristic, and the expanded node as parent. |
| `AStar.ChildNodesStep` | backend/astar_algorithm.c:160-168 | Handling one more neighbour, in order, appends exactly the node made of that neighbour. |
| `AStar.NewEntriesMember` | backend/astar_algorithm.c:172 | Each entry inserted for new nodes numbered from `base` names one of them and carries that node's total. |
| `AStar.GrownMatches` | backend/astar_algorithm.c:160-174 | A queue that matched the table, and that gained exactly the entries of nodes appended to the table, matches the grown table. |
| `AStar.OpenMember` | backend/astar_algorithm.c:145-172 | An entry is open exactly when it names a table node that has not been expanded and carries that node's total. Both directions are proved. |
| `AStar.OpenSame` | backend/astar_algorithm.c:148 | The open entries depend only on which table nodes are in the expanded list. |
| `AStar.OpenPop` | backend/astar_algorithm.c:148 | Expanding an open node takes exactly its entry out of the open ones. |
| `AStar.OpenAppend` | backend/astar_algorithm.c:172 | Appending nodes that are not expanded adds exactly their entries to the open ones. |
| `AStar.OpenAfterExpand` | backend/astar_algorithm.c:147-174 | After a round that expands node `p`, the open entries are the old ones without `p`'s, plus the entries of the appended children. |
| `AStar.OpenMatches` | backend/astar_algorithm.c:145-172 | A queue holding exactly the open entries has every entry pointing at a table node and carrying its total. |
| `AStar.PopIsBest` | backend/astar_algorithm.c:148 | The entry popped from a queue holding exactly the open entries names a node that is not yet expanded and carries its total. That node's total is at most the total of every node not yet expanded. |
| `AStar.AppendChildren` | backend/astar_algorithm.c:160-174 | Appending the nodes made of cells that are on the grid and one unit step from node `p` keeps the table a search table whose totals are cost + heuristic. |
| `AStar.NeighbourChildren` | backend/astar_algorithm.c:156-174 | The nodes made of what `find_neighbors` returns for node `p` are exactly `p`'s children: one per on-grid neighbour, in the order +x, -x, +y, -y. Appending them keeps the table a search table. |
| `AStar.Relax` | backend/astar_algorithm.c:161-173 | The neighbour becomes a node at its cell, with `current` as parent, cost `current.cost + 1` and total = cost + heuristic. The open set gains exactly that node's entry. The branch is always taken, because a fresh neighbour's cost is 0. |
| `AStar.Expand` | backend/astar_algorithm.c:156-174 | Every neighbour is inserted, in order. The new nodes are exactly those made of the neighbours' cells, numbered on from `base`. The open set gains exactly their entries and nothing else. |
| `AStar.Round` | backend/astar_algorithm.c:147-175 | It stops with `Exhausted` exactly when the open set was empty, and then nothing changes. Otherwise the popped entry was in the open set, had the least key and names a table node. If that node is at the goal, the result is `GoalReached` with its reconstructed path, and the path runs from `start` to the goal as in `GoalPath`. Otherwise the table grows by exactly the node's children. The open set becomes the old one, less the popped entry, plus the children's entries. The table stays a search table and the queue stays matched to it. |
| `AStar.UnfoldPrefix` | backend/astar_algorithm.c:147-175 | Expanding only appends to the table: the table after the first `j` expansions is a prefix of the table after all of them. |
| `AStar.ChosenExtend` | backend/astar_algorithm.c:147-175 | A node that had the least total among the open nodes when it was popped keeps that property once the table grows and more nodes are expanded. |
| `AStar.UnfoldSnoc` | backend/astar_algorithm.c:156-174 | Expanding one more node appends exactly its children to the table. |
| `AStar.ChosenAfterExpand` | backend/astar_algorithm.c:147-175 | If the popped node is off the goal and has the least total among the nodes not yet expanded, then after it is expanded every expansion so far, this one included, was such a best choice. |
| `AStar.Advance` | backend/astar_algorithm.c:147-175 | Expanding an open node that is off the goal and has the least total keeps `Explored`. |
| `AStar.ExpandedInTable` | backend/astar_algorithm.c:148 | Every expanded node is a node of the table. |
| `AStar.NothingOpen` | backend/astar_algorithm.c:147 | When no entry is open, every table node has been expanded. |
| `AStar.Begin` | backend/astar_algorithm.c:137-145 | Before the loop, the table holds the start node alone and nothing is expanded. `Explored` holds, and the start node's entry is the only open one. |
| `AStar.ExpansionsAppend` | backend/astar_algorithm.c:147-175 | Under `Explored`, the `j`-th expanded node was already in the table built by the expansions before it, and that expansion appended exactly its children. |
| `AStar.Turn` | backend/astar_algorithm.c:147-175 | One pass of the loop body, starting from `Explored` and an open set that holds exactly the open entries. It may stop. `Exhausted` means every table node was expanded. `GoalReached` carries the goal path of an unexpanded node with the least total. Otherwise it names the popped node `p`: `p` was in the table and not expanded, `expanded` grows by `p` alone, the table grows by `p`'s children alone, and `Explored` and the open-set equality are kept. With `start == goal` and nothing expanded, it returns `GoalReached(0, [start])`. |
| `AStar.Search` | backend/astar_algorithm.c:136-178 | `Explored` holds at the end. The table is a search table rooted at `start`, every node has total = cost + `h`, and the table is exactly what the expansions in `expanded` produce, each of them of a node already in the table. No node is expanded twice. Each expanded node was off the goal and had the least total among the nodes still open. At most `fuel` nodes are expanded, and the result is `OutOfFuel` exactly when `fuel` of them were. On `GoalReached`, the goal node is unexpanded and has the least total among the unexpanded nodes. Its path is the reconstructed chain from `start` to the goal: unit steps on the grid, `cost - startCost + 1` cells. On `Exhausted`, every table node was expanded. When `start == goal` and `fuel > 0`, the result is `GoalReached(0, [start])`. |

## Left out

- Printing: the `printf` calls at lines 65, 133, 139 and 152. The path is returned as a sequence instead.
- Allocation failure of `create_priority_queue` (lines 26-33) and of `malloc` in `find_neighbors` (lines 117-118). Both are assumed to succeed. `free` and the leaked nodes (line 177) are not modelled.
- `Grid.FindNeighbors`: the contract does not fix a fresh neighbour's `heuristic` and `total`. `malloc` leaves them uninitialised (lines 117-124), and the driver overwrites both before they are read (lines 167-168). The model's body writes 0.
- A failed resize inside the driver. `Search` always passes `grow = true`. `Insert` alone models the refused resize.
- `Heap.PriorityQueue.constructor`: requires `capacity > 0`. With capacity 0, doubling gives 0 again: either `realloc(p, 0)` returns NULL, the resize fails and the insert is skipped (lines 64-66), or it returns a pointer and the store at line 68 may go out of bounds. The only caller passes 100.
- `Heap.PriorityQueue.Resize`: requires `size <= newCapacity`. The C function would also shrink below `size` and lose entries, but its only caller doubles.
- The `heuristic` function (lines 21-23) and all `float` arithmetic. Costs and keys are integers, and the heuristic is the parameter `h`.
- C `int` overflow of `capacity * 2`, `size` and coordinates. Dafny integers are unbounded.
- `AStar.Search`: which of several entries with equal keys the heap pops is not stated. The contract says only that the popped node has the least total.
- Termination and optimality of `a_star_algorithm`. The code has no closed set and no best-cost check (lines 164 and 170-171), so neither holds in general. The model's loop is bounded by `fuel`. Nothing is claimed about path length being the Manhattan distance, or about a path never revisiting a cell. Without a closed set the parent chain of a node can come back to a cell it has already passed.
- `AStar.Search`: takes the start node as a cell plus a cost, with no parent. The demo in `main` (lines 180-188) passes a start node whose parent is NULL. `main` itself is not modelled.
