# A* grid search and bubble sort, modelled in Dafny

This project models two routines of a JavaScript algorithms collection.

- `aStar` (graph/AStar/AStar.js) searches a grid of cells for a path. It works with `getNeighbors` and `heuristic` from the same file.
- `bubbleSort` (sort/BubbleSort/BubbleSort.js).

## What the A* search does

`aStar` first builds one node record per grid cell. Each record starts with:

- `G` and `F` set to `Infinity`;
- `H` unset (`null`);
- no parent;
- its `closed` and `visited` flags false.

The start node goes on an open list. Each round of the main loop does the following:

1. It scans the open list for the first node with the strictly smallest `F`.
2. It splices that node out.
3. If the node is the goal, it returns the reversed chain of parent links. The start node has no parent, so the start itself is left out.
4. Otherwise it marks the node closed and relaxes its in-bounds orthogonal neighbours.

An empty open list returns `[]`.

The code never gives the start node a `G` of 0. So every `G` and `F` stays `Infinity` for the whole run, because `Infinity + 1` is `Infinity` and `Infinity < Infinity` is false. This has three consequences:

- the scan always picks the head of the open list;
- a node gets its parent only when it is first discovered;
- the search is therefore a breadth-first search.

The heuristic is computed and stored but never changes the outcome. The model keeps this behaviour and proves what breadth-first search guarantees on a unit-cost grid:

- a non-empty result is a walk from the start to the goal through non-wall cells, without the start;
- no walk to the goal is shorter;
- `[]` comes back exactly when the start is the goal or the goal cannot be reached;
- the main loop runs at most `h * w` rounds: every round but the one that returns the path closes one more of the `h * w` nodes, and the goal itself is never closed, so the returning round still fits within the bound.

Textbook A* seeds the start with `G = 0` and marks it visited. This code does neither: it leaves the start's scores at `Infinity` and its `visited` flag false. The model follows the code.

## Modules

| module | file | contents |
|---|---|---|
| `ExtNat` | `ext_nat.dfy` | `G` and `F` as naturals extended with `Inf` (JavaScript's `Infinity`); JavaScript `+` and `<` on them |
| `Grid` | `grid.dfy` | positions, bounds, `WALL`, `getNeighbors`, `heuristic`, walks through passable cells, reachability |
| `NodeTable` | `node_table.dfy` | the node record, the table built at the start of `aStar`, closing a node, relaxing one neighbour |
| `SearchInvariants` | `search_invariants.dfy` | the ghost breadth-first-search invariant of the main loop and the lemmas that preserve it |
| `AStar` | `astar.dfy` | the minimum-`F` scan, path reconstruction, the relaxation loop, the main loop |
| `BubbleSort` | `bubble_sort.dfy` | the two nested loops of `bubbleSort`, with an insertion sort as an independent reference |

The ghost `Trace` records the breadth-first depth of every discovered node. It lets the invariant say two things:

- the open list holds nodes of one depth followed by nodes of the next depth;
- every passable neighbour of an expanded node has been discovered at most one level deeper.

`Search` returns one extra value, `rounds`, which counts the rounds of the main loop, the returning one included. The loop invariant ties it to the size of the closed set, which is a subset of the `h * w` table keys. In the round that finds the goal, the goal is a key that is not closed, so the closed set is strictly smaller than the keys and the extra round keeps `rounds <= h * w`.

## Model

| member | source | states |
|---|---|---|
| ExtNat.LessIsStrictTotalOrder | graph/AStar/AStar.js:69-73 | JavaScript `<` on scores that are `Infinity` or naturals is irreflexive, asymmetric, transitive and total, which the minimum scan relies on |
| ExtNat.InfinityAbsorbs | graph/AStar/AStar.js:99-113 | `Infinity + 1` is `Infinity` and `Infinity` is never strictly below anything, so a score computed from an infinite `G` stays infinite |
| Grid.Neighbors | graph/AStar/AStar.js:24-32 | at most four cells come back, without repeats, and a cell comes back exactly when it is in bounds and one orthogonal step from the node |
| Grid.GetNeighbors | graph/AStar/AStar.js:18-32 | with the source's own `HEIGHT` and `WIDTH` of 3, a cell comes back exactly when it is on the 3 by 3 grid and one orthogonal step from the node, without repeats |
| Grid.Cells | graph/AStar/AStar.js:40-44 | the two nested loops enumerate exactly the in-bounds positions, `h * w` of them |
| Grid.Heuristic | graph/AStar/AStar.js:34-36 | the Manhattan distance to `(endX, endY)` is zero exactly at the goal |
| Grid.HeuristicConsistent | graph/AStar/AStar.js:34-36 | one orthogonal step changes the heuristic by at most one |
| Grid.HeuristicAdmissible | graph/AStar/AStar.js:34-36 | no chain of orthogonal moves from a cell to the goal is shorter than the heuristic of that cell |
| NodeTable.InitTable | graph/AStar/AStar.js:39-58 | the table has one node per in-bounds cell, and each node has that cell's position and value, `H` unset, infinite `G` and `F`, both flags false and no parent |
| NodeTable.TableSize | graph/AStar/AStar.js:39-58 | the table built from an `h` by `w` grid has `h * w` nodes |
| NodeTable.CloseNode | graph/AStar/AStar.js:88 | only the expanded node's `closed` flag changes, and it becomes true |
| NodeTable.RelaxNeighbor | graph/AStar/AStar.js:90-115 | closed and wall neighbours are skipped without change; a neighbour is appended to the open list exactly when it is seen for the first time, and then gets its heuristic, the `visited` flag and the expanded node as parent; when the expanded node's `G` is infinite, a neighbour seen before is left unchanged |
| SearchInvariants.Init | graph/AStar/AStar.js:39-62 | the fresh table with only the start on the open list satisfies the main loop's invariant, with nothing closed |
| SearchInvariants.Close | graph/AStar/AStar.js:75-88 | taking the head of the open list (not the goal) and closing it establishes the relaxation loop's invariant |
| SearchInvariants.ClosingCounts | graph/AStar/AStar.js:88 | closing an open node adds exactly that node to the closed set, so the closed set grows by one |
| SearchInvariants.Relax | graph/AStar/AStar.js:90-115 | relaxing one more in-bounds neighbour keeps the relaxation loop's invariant and leaves the closed set alone |
| SearchInvariants.Finish | graph/AStar/AStar.js:90-116 | once every in-bounds neighbour is relaxed, the expanded node is covered and the main loop's invariant holds again |
| SearchInvariants.WalkDepth | graph/AStar/AStar.js:90-115 | along any walk from the start, each cell within the expanded depth is discovered no deeper than its position on the walk |
| SearchInvariants.GoalOptimal | graph/AStar/AStar.js:75-86 | when the goal is the node taken from the open list, no walk from the start to the goal is shorter than its recorded depth |
| SearchInvariants.ExhaustedUnreachable | graph/AStar/AStar.js:64-119 | when the open list runs empty, no walk from the start reaches the goal |
| AStar.BestIndex | graph/AStar/AStar.js:68-73 | the scan returns the first position whose `F` is minimal: nothing on the list is strictly smaller, and everything before it is strictly larger |
| AStar.FirstMinimumUnique | graph/AStar/AStar.js:68-73 | the position the scan returns is determined by the open list |
| AStar.FifoSelection | graph/AStar/AStar.js:68-75 | while every `F` is `Infinity` the scan takes the head of the open list, so the open list is a first-in first-out queue |
| AStar.ReverseSnoc | graph/AStar/AStar.js:81-85 | reversing a list with one more element at its end puts that element first, which is how the path collected from the goal backwards comes out in walking order |
| AStar.ReverseReverse | graph/AStar/AStar.js:85 | reversing twice gives the list back |
| AStar.Reconstruct | graph/AStar/AStar.js:79-85 | following parent links back from the goal and reversing gives a walk from the start to the goal, through non-wall cells, whose length is the goal's depth, and without the start |
| AStar.RelaxNeighbors | graph/AStar/AStar.js:90-115 | compared with the table before the loop: the keys and every `closed` flag are unchanged; the open list gains exactly the neighbours that were not closed, not walls and not yet visited, appended in `getNeighbors` order (which fixes the first-in first-out order and so which shortest path comes back); each of them becomes visited with its heuristic and the expanded node as parent; cells that are not neighbours are unchanged, and while the expanded node's `G` is infinite so are neighbours seen before |
| AStar.RelaxFoldEffect | graph/AStar/AStar.js:90-115 | relaxing distinct neighbours one after another appends the unseen ones in order and changes the nodes only as described for `RelaxNeighbors`, proved by induction over the neighbour list |
| AStar.Fresh | graph/AStar/AStar.js:92-106 | a cell is listed exactly when it is one of the neighbours and is not closed, not a wall and not yet visited |
| AStar.RelaxAllMidway | graph/AStar/AStar.js:90-115 | relaxing any in-bounds neighbours of the expanded node, in order, keeps the table keys and the closed set, only appends to the open list, and keeps the relaxation loop's invariant |
| AStar.ExpandNeighbors | graph/AStar/AStar.js:88-115 | after the relaxation loop the main loop's invariant holds again, the closed set and the table keys are unchanged, and the old open list is a prefix of the new one |
| AStar.ExpandBest | graph/AStar/AStar.js:75-115 | a round that does not end the search closes exactly the selected node, which was open, and restores the main loop's invariant |
| AStar.PathEnds | graph/AStar/AStar.js:78-86 | a walk to the goal that leaves out its start is empty exactly when the start is the goal or the goal is unreachable, and otherwise ends at the goal |
| AStar.FoundAnswer | graph/AStar/AStar.js:78-86 | when the goal is reached, the rebuilt path ends at the goal, is empty exactly when the start is the goal, and no walk to the goal is shorter |
| AStar.Search | graph/AStar/AStar.js:38-120 | a non-empty result is a walk through non-wall cells from the start to the goal, without the start; the result is `[]` exactly when the start is the goal or the goal is unreachable; no walk to the goal is shorter; the main loop runs at most `h * w` rounds, the one that returns the path included |
| BubbleSort.Swap | sort/BubbleSort/BubbleSort.js:14-16 | the three assignments exchange positions `j` and `j + 1` and leave the rest alone |
| BubbleSort.SwapPermutes | sort/BubbleSort/BubbleSort.js:14-16 | a swap keeps the multiset of elements |
| BubbleSort.SwapStable | sort/BubbleSort/BubbleSort.js:13-17 | swapping neighbours that are strictly out of order keeps the array a rearrangement of the input in which equal elements keep their input order |
| BubbleSort.SwapKeepsSuffix | sort/BubbleSort/BubbleSort.js:12-17 | a swap in front of the inner loop's bound leaves the final suffix final |
| BubbleSort.CompareSwapStep | sort/BubbleSort/BubbleSort.js:12-17 | one compare-and-swap keeps the inner loop's invariant and moves the larger of the two elements to the right |
| BubbleSort.Pass | sort/BubbleSort/BubbleSort.js:12-18 | one inner-loop pass over the first `n` elements moves their largest element to position `n - 1`, changes nothing from position `n` on, keeps the multiset of elements and the stable rearrangement, and changes nothing in a sorted array |
| BubbleSort.Sort | sort/BubbleSort/BubbleSort.js:10-22 | the result is sorted, has the input's length and multiset, and is a rearrangement of the input; a sorted input comes back unchanged; the result equals what the reference insertion sort produces |
| BubbleSort.SortedUnique | sort/BubbleSort/BubbleSort.js:10-22 | two sorted sequences with the same multiset are equal, so the sorted result is determined by the input's elements |

## Left out

- The `console.log` demonstration calls (graph/AStar/AStar.js:122-128, sort/BubbleSort/BubbleSort.js:24-26) are output only.
- The unused `FREE` constant is left out. Only whether a cell equals `WALL` matters.
- Search: an out-of-bounds start cell is excluded by the precondition, because the source fails with a run-time error on it. An out-of-bounds goal needs no precondition: the goal position is never used to index the grid (it is only compared with node positions and used in the heuristic's arithmetic), so the model lets the search run out and return `[]`.
- Search: the grid is `h` rows of `w` cells. The same `h` and `w` bound `getNeighbors`, where the source reads its fixed `HEIGHT` and `WIDTH` of 3. The two agree exactly on the 3 by 3 grids the source is written for; `Grid.GetNeighbors` is the fixed-bound version.
- Search: the path is returned as positions rather than as the node records at those positions.
- Search: the mutable node objects, and the object references used as parents, become an immutable map from positions to records that holds parent positions.
- JavaScript floating-point numbers and `NaN` are not modelled. Scores are naturals or `Infinity`, and the sorted elements are integers.
- Sort: comparisons between values of mixed or non-numeric type are not modelled, because they depend on JavaScript's coercion rules.
- Search: the ensures `rounds <= h * w` does not by itself tie `rounds` to the loop's iterations; the body increments it once per round, as the loop invariant `rounds == |ClosedSet(t)|` records.
- Sort: the stability clause (`Rearranges` and `Stable` with the ghost `perm`) follows the swaps the code makes, which move only strictly out-of-order neighbours. On integers it does not tell this sort apart from an unstable one: equal integers cannot be told apart, so a sorted arrangement with the same multiset always has a stable witness.
- Sort: the array is modelled as a value that is passed in and returned. The model does not cover mutation in place, or returning the same array object.
- A variant of the search that seeds the start with `G = 0`, so that the heuristic guides it, is not modelled. The code does not do this.
