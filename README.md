# Sliding-tile puzzle A* search, modelled in Dafny

The program solves a one-dimensional sliding-tile puzzle with seven cells. The
cells hold three black tiles (2), three white tiles (1) and one empty cell (0).
A move slides a tile into the empty cell from 1, 2 or 3 positions away. Moves
across 1 or 2 positions cost 1. A move across 3 positions costs 2. The goal is
any board where no black tile sits to the left of a white tile. The program
runs A* with this heuristic: for each white tile, count the black tiles to its
left.

This Dafny project models the program's search core:

- `Tiles` (`tiles.dfy`): the board as a sequence of seven integers, the
  `TileState` node and cell counting.
- `Heuristics` (`heuristic.dfy`): `calcHeuristic` and `isGoal`. Both are
  methods that keep the program's nested loops. They are proved against the
  function `Heuristic` and against an independent definition: the set of
  inversions, meaning pairs of a black cell before a white cell.
- `Successors` (`successors.dfy`): `generateSuccessors` as a loop over the
  offsets {-3, -2, -1, 1, 2, 3}. The spec functions are `Offsets` (the
  in-bounds offsets, in order) and `Successor` (the node built for one
  offset).
- `BoardKey` (`board_key.dfy`): `stringTileBoard`, the key used for the closed
  list. It models C++ `to_string` on each cell.
- `AStar` (`astar.dfy`): the `aStarSearch` loop and the walk up the parent
  links in `printSolutionPath`. The search is modelled as follows:
  - Nodes whose heap-allocated parent copies live on are kept in `arena`, the
    sequence of expanded nodes. A parent is an index into `arena`.
  - The priority queue is a multiset. A pop takes some node of least `f`.
  - The `unordered_map<string, bool>` closed list is the set of keys mapped
    to `true`.
  - The search returns either the solution path it collects, goal first,
    with its total cost, or `NoSolution`. The program prints that path in
    reverse, from the initial board to the goal.

Properties proved about the search:

- Each board is expanded at most once.
- The loop terminates, because the closed keys grow inside the finite set of
  keys of encoded boards.
- A reported solution ends at a goal, its cost is the goal node's `f`, which
  equals its `g`, and the path walks back to the initial node by single moves.
- When the frontier runs empty on a board with one empty cell, no goal is
  reachable by moves.

## Model

| member | source | states |
|---|---|---|
| `Heuristics.CalcHeuristic` | SlidingTilePuzzle.cpp:26-35 | The nested loops return the heuristic of the board. That equals the number of black-before-white index pairs and lies between 0 and 21. |
| `Heuristics.HeuristicCountsInversions` | SlidingTilePuzzle.cpp:26-35 | The heuristic is exactly the size of the set of pairs j < i with a black cell at j and a white cell at i. |
| `Heuristics.HeuristicBound` | SlidingTilePuzzle.cpp:26-35 | Twice the heuristic never exceeds n(n-1) for a board of n cells, so it never exceeds the number of index pairs. |
| `Heuristics.BoardHeuristicBound` | SlidingTilePuzzle.cpp:26-35 | On a seven-cell board the heuristic is at most 21. |
| `Heuristics.HeuristicZeroIff` | SlidingTilePuzzle.cpp:25-42 | The heuristic is zero if and only if no black cell precedes a white cell. |
| `Heuristics.IsGoal` | SlidingTilePuzzle.cpp:38-42 | The goal test holds if and only if the heuristic is zero, and if and only if the board has no inversion. |
| `Heuristics.HeuristicConcat` | SlidingTilePuzzle.cpp:26-35 | The heuristic of a concatenation is the two parts' heuristics, plus the number of black cells of the first part times the number of white cells of the second. |
| `Heuristics.SwapWithEmptyChange` | SlidingTilePuzzle.cpp:59-61 | Derived, not stated by the code: moving a tile into the empty cell across k cells changes the heuristic by at most k. |
| `Successors.OffsetsSpec` | SlidingTilePuzzle.cpp:50-58 | The offsets used are exactly those of {-3,-2,-1,1,2,3} that keep the empty cell on the board. They are strictly increasing, so each appears once and in the program's order. There are between 3 and 6. |
| `Successors.GenerateSuccessors` | SlidingTilePuzzle.cpp:44-77 | Returns one successor per in-bounds offset, in order. Its k-th element is the node for the k-th offset. A node is in the result if and only if it is generated from the parent by some in-bounds offset. |
| `Successors.AllSuccessors` | SlidingTilePuzzle.cpp:53-75 | The successors collected over all six offsets have the count, the order and the membership stated by `GenerateSuccessors`. |
| `Successors.SuccessorConserves` | SlidingTilePuzzle.cpp:59-61 | A successor's empty index is the parent's plus d. The moved tile lands in the old empty cell and every other cell is unchanged. The multiset of cells is preserved and the new empty index holds the empty cell. |
| `Successors.SuccessorCosts` | SlidingTilePuzzle.cpp:64-71 | g grows by 2 for offsets of size 3 and by 1 otherwise. h is the heuristic of the new board, equal to its inversion count, and f = g + h. Derived: h changes by at most the cost of the move. |
| `BoardKey.KeyOfValidCells` | SlidingTilePuzzle.cpp:80-85 | On boards of encoded cells, the key has one character per cell, and character i is the digit of cell i. |
| `BoardKey.KeyInjective` | SlidingTilePuzzle.cpp:80-85 | On boards of encoded cells, equal keys mean equal boards. |
| `BoardKey.StringTileBoard` | SlidingTilePuzzle.cpp:80-85 | The loop builds the key of the board. On encoded cells that key is seven digit characters, one per cell in order. |
| `AStar.MinimumExists` | SlidingTilePuzzle.cpp:19-23 | A non-empty frontier has a node whose f is least, which is what `top()` of the min-f queue returns. |
| `AStar.SolutionPath` | SlidingTilePuzzle.cpp:104-109 | The walk collects the goal first and stops at the node without a parent. Each collected node is followed by the arena entry its parent index names. |
| `AStar.ChainIsSolutionPath` | SlidingTilePuzzle.cpp:105-109 | On a linked arena, the collected chain ends at the initial node and keeps the tiles of the input. Each node is generated from the next one by one move. |
| `AStar.SolutionCost` | SlidingTilePuzzle.cpp:64-68 | The g of a solution lies between its number of moves and twice that. |
| `AStar.AStarSearch` | SlidingTilePuzzle.cpp:124-167 | Expanded boards are distinct, none is a goal, and each parent link points to an earlier expansion. A reported solution is a solution path ending at a goal, with total cost = f = g. On `NoSolution`, every move out of an expanded board leads to an expanded board, and with one empty cell no goal board is reachable. |
| `AStar.StartSearch` | SlidingTilePuzzle.cpp:125-137 | The initial node alone on the frontier, with empty closed list and arena, satisfies the loop invariant. |
| `AStar.Popped` | SlidingTilePuzzle.cpp:140-148 | A popped node is a well-formed node of the search linked into the arena. If its heuristic is zero, its f equals its g, including for the initial node whose f is left at 0. |
| `AStar.DiscardStep` | SlidingTilePuzzle.cpp:152-153 | Skipping a popped node whose key is closed keeps the loop invariant, because its board was already expanded. |
| `AStar.ExpandStep` | SlidingTilePuzzle.cpp:155 | Closing a new key adds exactly that key and keeps the arena's boards distinct and goal-free. The key lies in the finite key set, which makes the loop terminate. |
| `AStar.PushSuccessors` | SlidingTilePuzzle.cpp:159-163 | The frontier gains exactly the successors whose keys are not closed. |
| `AStar.Unclosed` | SlidingTilePuzzle.cpp:159-163 | The pushed successors are exactly those whose key is not closed, and there are no more of them than successors. |
| `AStar.PushedCovered` | SlidingTilePuzzle.cpp:159-163 | After the pushes, every successor's board is expanded or on the frontier, and the frontier stays linked into the arena. |
| `AStar.AllPushed` | SlidingTilePuzzle.cpp:158-163 | Once all successors are handled, the loop invariant holds again, including coverage of the moves out of the node just expanded. |
| `AStar.ClosedKeyBoard` | SlidingTilePuzzle.cpp:152 | A closed key stands for an expanded board. |
| `AStar.Exhausted` | SlidingTilePuzzle.cpp:139-166 | When the frontier runs empty, the expanded boards are closed under moves. With one empty cell, no board reachable from the input is a goal. |
| `AStar.ReachedIsExpanded` | SlidingTilePuzzle.cpp:139-166 | Every board reachable from the input by moves was expanded. |
| `AStar.SuccessorsAreNodes` | SlidingTilePuzzle.cpp:158 | The successors of the last expansion keep the node invariant (tiles conserved, costs consistent) and link to it. |

## Left out

- Console output is not modelled. This covers `printBoard`, the printing half of `printSolutionPath` and every `cout` line. The model returns the collected path and the total cost instead.
- `main` and its hard-coded input board are not modelled.
- The priority queue's internals and tie-breaking are not modelled. The model pops some node of least `f`, so any tie-breaking the library uses is allowed.
- The hashing of `unordered_map` is not modelled. Its `operator[]`, which inserts `false` for a missing key, is modelled as "key not in the closed set".
- The `new TileState` parent copies, their aliasing and the memory they leak are not modelled. The parent copy equals the expanded node, so it is represented by that node's index in `arena`.
- The integers `g`, `h` and `f` are unbounded. Overflow cannot happen at this puzzle's sizes and is not modelled.
- AStarSearch: requires the empty cell at index 3, because the program hard-codes `emptySpace = 3` for the initial node. On other inputs the program would swap tiles that are not the empty cell.
- AStarSearch: requires every cell to be 0, 1 or 2. The program does not check this, and keys of multi-digit values could collide.
- AStarSearch: does not prove that the first goal popped has the least cost, meaning A* optimality. Only the heuristic's consistency is proved, in `SwapWithEmptyChange` and `SuccessorCosts`.
- AStarSearch: completeness (no goal is reachable after `NoSolution`) is stated only for boards with one empty cell, which is what the program's input has.
- The initial node's `f = 0` quirk is kept as written. It only matters while that node is alone on the frontier.
