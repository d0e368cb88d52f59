# Maze engine of Maze-Solver, in Dafny

This project models the engine behind the Maze-Solver page (`script.js`):

- the binary heap `PriorityQueue`;
- the chunked loop runner `whileAsync`;
- the grid geometry of `Point` and the side tables of `Maze`;
- the randomized depth-first carvers `generate` and `generateMultipleSolutions`, with `shuffleArray`;
- the pathfinders `solveBFS`, `solveDFS` and `solveAStar`, with the walk-back along `previous` links that replays the found route;
- the player's `movePlayer` / `setPlayerPosition`;
- the `solving` / `reseting` / `solved` flags that decide which operation may start.

Modules follow the structure of the script:

- `Optional` and `Collections`: small shared helpers.
- `Geometry`: `Point`, the side tables and `heuristic`.
- `Grid`: the blocks' `open` flags as a map from cell to open sides, walks through open walls, and `getAdjacents`.
- `Heap`: `PriorityQueue` as a class whose `_heap` array is a sequence field. Its two loops are proved against the pure functions `SiftUp` and `SiftDown`.
- `Scheduler`: `whileAsync`.
- `Generator`: the carver, one loop body per `CarveStep`. Its result is proved to be a spanning tree of open wall pairs over the walls that stood before. A fresh, closed grid therefore becomes a maze in which every cell reaches every other.
- `Search`: the three solvers. They share the neighbour scan `for (var side in block.open)` and one loop invariant over the set of waiting entries. BFS additionally keeps a depth invariant that makes its route a shortest one.
- `Session`: the `Maze` object as a class with the player's position, the walls and the flags.

`reset` and the three solvers end in a `.then` callback that clears a busy flag (`reseting` at script.js:224-227, `solving` at script.js:420-422, 528-530 and 729-731). The model splits each of these operations in two: a method that runs its `whileAsync` loops to completion, and a `...Settled` method for the closing callback. Other calls can arrive between the two, and their guards see the flag still set. `generate` and `generateMultipleSolutions` return their `whileAsync` promise with no callback and no flag.

Each `whileAsync(cond, body, chunkSize)` call of the script is modelled as the plain loop `while (cond()) body()`. `Scheduler.WhileAsync` proves, for any chunk size, that the chunked timer loop makes exactly the calls of that plain loop. This covers the sizes the script passes: 100 for the carvers (script.js:314, 594), 1 for the replays (script.js:407, 416), and the default 10 for the search loops (script.js:358-392).

Where the program's own text and its code disagree, the model follows the code:

- **The heap.** `PriorityQueue` lays `_heap` out as a binary heap with `_parent`, `_leftChild` and `_rightChild`, and its sift-up loop swaps while the parent compares greater (script.js:29-35), which keeps the least entry at the root. The A* description the page shows promises "the shortest path" and "an optimal path" (script.js:636). As written, `dequeue` picks the right child whenever the left one does not move, or when the right one is below the left. It does not compare the right child with the sifted element. So `dequeue` can break heap order, and it can return something other than the minimum; see "## Findings". The solvers model the page as written and use this `dequeue`, so the model claims no optimality for A*.
- **`generateMultipleSolutions`** (script.js:552). Its name promises a maze with several solutions. On closed blocks it carves a spanning tree, just as `generate` does. Only when run over an already carved maze does it open alternative routes, by overlaying a second tree (`Generator.GenerateMultipleSolutions`).

## Model

| member | source | states |
|---|---|---|
| Heap.Parent | script.js:6-8 | the parent slot is -1 at the root and otherwise an earlier slot of which the given one is the left or right child |
| Heap.ParentOfChild | script.js:6-16 | both children of a slot have it as their parent |
| Heap.SiftUpPermutes | script.js:27-35 | the sift-up loop only rearranges the heap |
| Heap.QueuePermutes | script.js:24-36 | `queue` adds exactly the queued value to the multiset of entries |
| Heap.QueueKeepsOrder | script.js:24-36 | under a consistent comparator, `queue` keeps an ordered heap ordered |
| Heap.ChildToSwap | script.js:50-65 | the chosen swap slot is a child of the current slot, inside the heap |
| Heap.SiftDownPermutes | script.js:46-71 | the sift-down loop only rearranges the heap |
| Heap.DequeuePermutes | script.js:38-75 | `dequeue` removes exactly one copy of the root |
| Heap.DequeueCanBreakOrder | script.js:55-65 | an ordered heap [0,5,1,6,6,8,9,7] that `dequeue` leaves unordered, as [1,5,9,6,6,8,7] |
| Heap.DequeueCanMissMinimum | script.js:24-75 | after queueing 0, 0, 7, 0 and one `dequeue`, the root is 7 while a 0 remains |
| Heap.RootIsLeast | script.js:38-39 | under a consistent comparator the root of an ordered heap compares no greater than any entry |
| Heap.IntendedChildToSwap | script.js:55-65 | the corrected swap slot is a child of the current slot, inside the heap |
| Heap.IntendedSiftDownPermutes | script.js:46-71 | the corrected sift-down loop only rearranges the heap |
| Heap.IntendedDequeuePermutes | script.js:38-75 | the corrected `dequeue` removes exactly one copy of the root |
| Heap.IntendedChoiceIsLeast | script.js:55-65 | the corrected choice moves up a child no greater than the sifted element and its sibling, and stops only when the sifted element is no greater than both children |
| Heap.IntendedSiftDownRestoresOrder | script.js:46-71 | the corrected sift-down loop leaves an ordered heap |
| Heap.IntendedDequeueKeepsOrder | script.js:38-75 | the corrected `dequeue` keeps an ordered heap ordered |
| Heap.IntendedDequeueExample | script.js:55-65 | on the heap [0,5,1,6,6,8,9,7] the corrected `dequeue` leaves the ordered [1,5,7,6,6,8,9] |
| Heap.PriorityQueue.constructor | script.js:1-4 | a new queue holds the given comparator and an empty heap |
| Heap.PriorityQueue.Swap | script.js:18-22 | `_swap` exchanges exactly the two slots |
| Heap.PriorityQueue.Queue | script.js:24-36 | the new heap is the old one pushed and sifted up: one longer, with the value added, and still ordered when it was ordered |
| Heap.PriorityQueue.Dequeue | script.js:38-79 | returns the old root (nothing on an empty heap) and leaves the sifted-down rest, one shorter, with one copy of the root removed |
| Heap.PriorityQueue.IntendedDequeue | script.js:38-79 | returns the old root, a least entry of an ordered heap, and leaves the correctly sifted rest, ordered when the heap was |
| Scheduler.ChunkSize | script.js:82 | a chunk size of 0 means 10, any other is kept |
| Scheduler.StopsOnce | script.js:81-96 | the number of body calls before the condition fails is unique |
| Scheduler.WhileAsync | script.js:81-96 | the chunked loop makes exactly the calls of `while (cond()) body()`, stops at the first failing state, and uses `calls / chunk + 1` timer ticks |
| Geometry.KeyIndex | script.js:185 | each side has a position in the key order of the `open` record |
| Geometry.SideIndex | script.js:245 | `sides.indexOf(s)` is the first position of `s` in the side table |
| Geometry.SideTables | script.js:153-160 | the side, opposite-side and delta tables agree index for index |
| Geometry.OppositeUndoesMove | script.js:153-160 | the opposite of the opposite is the side itself, no side is its own opposite, and the opposite move returns to the cell |
| Geometry.MoveInjective | script.js:155-160 | distinct sides lead to distinct neighbours |
| Geometry.Heuristic | script.js:127-131 | the Manhattan distance is zero exactly between equal points |
| Geometry.HeuristicMetric | script.js:127-131 | the heuristic is symmetric and obeys the triangle inequality |
| Geometry.StepCost | script.js:696-698 | every neighbour is one heuristic unit away, so `g` grows by one per step |
| Geometry.SideTowards | script.js:155-160 | finds the side leading to a neighbour, or reports that no side does |
| Geometry.SideTowardsMove | script.js:155-160 | the side found towards a neighbour is the side that was taken |
| Geometry.AllCells | script.js:212-218 | the grid's cells are exactly the points inside the bounds |
| Geometry.CellCount | script.js:274 | a grid of bounds x by y has `blockCount = x * y` cells |
| Geometry.ClosedRegionCoversGrid | script.js:230-241 | a set of cells that holds the start and every in-bounds neighbour of its cells covers the grid |
| Grid.ClosedGrid | script.js:211-218 | `reset` lays out one block per cell, every wall standing |
| Grid.OpenStepThrough | script.js:373-387 | an open side towards an in-bounds cell is a move the solvers take |
| Grid.WalkInBounds | script.js:382-387 | every cell of a walk lies inside the grid |
| Grid.ReversedWalk | script.js:308-312 | across walls carved in pairs a walk can be retraced backwards |
| Grid.JoinedWalk | script.js:305-312 | two walks that meet join into one walk |
| Grid.ReachableThrough | script.js:308-312 | across walls carved in pairs, reachability is symmetric and transitive |
| Grid.GetAdjacents | script.js:230-241 | returns, in table order, each in-bounds unvisited neighbour exactly once, correctly tagged with its side and the opposite side |
| Collections.Reversed | script.js:395-414 | reversal mirrors every position, the order in which `path.pop()` replays a path |
| Collections.SwappedPermutes | script.js:598-603 | a swap only rearranges a sequence |
| Generator.ShuffledPermutes | script.js:598-603 | a Fisher-Yates shuffle is a permutation |
| Generator.ShuffleArray | script.js:598-603 | the array ends as the shuffle of its old contents, a permutation of them |
| Generator.Choose | script.js:582-584 | the carved neighbour is a candidate: the last element after shuffling for `generateMultipleSolutions`, and `adjacents[rand % length]` for `generate` (script.js:303-304) |
| Generator.KnockDownKeepsTree | script.js:305-312 | opening `np.side` and `np.oppositeSide` opens exactly the new tree link in both directions |
| Generator.DryStackCoversGrid | script.js:282-284 | the stack cannot run dry while cells remain unvisited |
| Generator.VisitKeepsState | script.js:289-294 | marking the top visited with the next index keeps the carving invariant |
| Generator.PopKeepsState | script.js:296-301 | popping a top without unvisited neighbours keeps the carving invariant |
| Generator.PushKeepsState | script.js:303-312 | carving into a candidate and pushing it keeps the carving invariant |
| Generator.PopRemaining | script.js:296-301 | a pop brings the loop closer to its end |
| Generator.PushRemaining | script.js:303-312 | a push brings the loop closer to its end |
| Generator.CarveStep | script.js:283-313 | one body call keeps the carving invariant and strictly decreases what is left to do, so `visited.size < blockCount` eventually fails |
| Generator.Carve | script.js:273-316 | the carver visits every cell once with indices 0..n-1 and opens, on top of the walls before, exactly the links of a tree rooted at the start |
| Generator.CarverDone | script.js:282 | a loop that has visited all `blockCount` cells leaves such a carved tree |
| Generator.CarvedTreeSymmetric | script.js:308-312 | carving keeps walls carved in pairs |
| Generator.CarvedTreeOpen | script.js:308-312 | every tree link is open in both directions |
| Generator.CarvedTreeConnected | script.js:273-316 | a carved tree connects every cell with every other |
| Generator.CarvedTreeProperties | script.js:273-316 | carving keeps every open wall, opens `x * y - 1` wall pairs, keeps the walls symmetric and connects the grid |
| Generator.Generate | script.js:273-316 | `generate` carves a spanning tree over the blocks: symmetric if they were, and connected |
| Generator.GenerateMultipleSolutions | script.js:552-596 | `generateMultipleSolutions` carves a second spanning tree over the current blocks, keeping every wall that was open |
| Search.Route | script.js:395-399 | the route of an entry runs from its root to its cell, one cell per link |
| Search.RouteIsWalk | script.js:389-399 | the `previous` chain of a queued entry is a walk through open walls from the search start |
| Search.WalkBack | script.js:395-399 | the collected path, reversed after the start, is the route of the last entry |
| Search.ElementsPrefix | script.js:390 | appending an entry adds exactly that entry to the set of waiting ones |
| Search.Successors | script.js:373-391 | the scan yields, in key order, one entry linked back to the expanded one for each open side towards an in-bounds, unexpanded cell, and no other |
| Search.LinkedInBounds | script.js:382-387 | every linked entry lies inside the grid |
| Search.ExpandShrinks | script.js:370 | expanding a cell shrinks the set of unexpanded cells |
| Search.SkipKeepsInv | script.js:366-368 | taking an entry of an expanded cell keeps the search invariant |
| Search.ExpandKeepsInv | script.js:370-391 | expanding a cell and queueing its successors keeps the search invariant |
| Search.SuccessorsLinked | script.js:389 | the successors of an expanded entry are linked back to the start |
| Search.ExpandKeepsClosed | script.js:373-391 | after an expansion every open neighbour of an expanded cell is expanded or waiting |
| Search.ExpandKeepsListed | script.js:370 | each cell is expanded at most once |
| Search.WalkStaysIn | script.js:373-391 | a walk that starts in a set closed under open steps stays in it |
| Search.SearchStarts | script.js:352-355 | at the start only the start entry waits and nothing is expanded |
| Search.SearchDone | script.js:360 | when the frontier is empty or the target was taken, the last entry is the target exactly when it is reachable, and an unsuccessful search expanded every reachable cell |
| Search.ShortestBoundsRoutes | script.js:351-393 | no route found by any search is shorter than the breadth-first one |
| Search.HeadIsShortest | script.js:363 | the head of the breadth-first queue has a shortest route to its cell |
| Search.EntersQueue | script.js:373-391 | a walk leaving the expanded region enters it through a cell queued no deeper than the walk so far |
| Search.BfsSkipKeeps | script.js:363-368 | skipping an expanded head keeps the breadth-first invariant |
| Search.BfsExpandKeeps | script.js:370-391 | expanding the head and appending its successors keeps the breadth-first invariant |
| Search.BfsStep | script.js:362-392 | one `queue.shift()` round takes the head; it leaves `visited` and the expansion order as they were when the head's cell is already expanded, and otherwise adds that cell to both; it keeps both invariants and makes progress |
| Search.SolveBFS | script.js:351-393 | breadth-first search ends on the target exactly when it is reachable, by a shortest route; the expansion order built by `Search.BfsStep` lists every expanded cell once |
| Search.DfsStep | script.js:469-500 | one `stack.pop()` round takes the top; it leaves `visited` and the expansion order as they were when the top's cell is already expanded, and otherwise adds that cell to both; it keeps the search invariant and makes progress |
| Search.SolveDFS | script.js:458-501 | depth-first search ends on the target exactly when it is reachable, by a walk through open walls |
| Search.Queued | script.js:699 | queueing a record adds exactly its entry to the waiting ones |
| Search.ByCostConsistent | script.js:658 | the A* comparator `(a, b) => a.f - b.f` is consistent, so the heap's order lemmas apply to it |
| Search.QueuedCosts | script.js:659-699 | queued records keep exact `g` and `f` values |
| Search.Dequeued | script.js:667 | dequeueing removes at most the root's entry from the waiting ones |
| Search.SuccessorCost | script.js:696-698 | a successor's record has `g` = its depth and `f = g + h` |
| Search.QueueSuccessor | script.js:694-699 | one queueing round adds the successor with its exact costs |
| Search.QueueSuccessors | script.js:678-700 | every successor is queued with its exact costs, and nothing else |
| Search.AStarStep | script.js:666-701 | one `dequeue` round takes the root's entry; it leaves `visited` and the expansion order as they were when that cell is already expanded, and otherwise adds the cell to both; it keeps the search invariant and the exact costs, and makes progress |
| Search.SolveAStar | script.js:654-702 | best-first search ends on the target exactly when it is reachable, by a walk through open walls |
| Session.DefaultOptions | script.js:134-151 | with no options the maze is 20 by 10 and runs from (0,0) to (19,9), both inside the grid |
| Session.DefaultTargetIsCorner | script.js:151 | the default target is the bottom-right cell of any grid |
| Session.Attempt | script.js:243-259 | a move goes through exactly when the side is open towards an in-bounds cell; a move off the grid is refused first |
| Session.AttemptReversible | script.js:243-259 | across symmetric walls the opposite key undoes every move |
| Session.MovesWalk | script.js:169-177 | the cells visited by a sequence of key presses form a walk through open walls |
| Session.RouteHitsTarget | script.js:411-414 | the replayed route steps onto the target exactly when the search found it from elsewhere |
| Session.FreshMaze | script.js:211-224 | `reset` followed by `generate` opens a spanning tree rooted at the start over blocks with every wall standing, so the maze is symmetric and connected |
| Session.Maze.constructor | script.js:133-178 | the options with their defaults, the player on the start, all flags cleared |
| Session.Maze.SetPlayerPosition | script.js:261-271 | the player moves; the first arrival on the target sets `solved` and calls `onSolved` unless a solver replays |
| Session.Maze.MovePlayer | script.js:243-259 | the move's outcome is `Attempt`'s; only a successful move changes the position and the solved state |
| Session.Maze.Reset | script.js:197-224 | refused while solving or resetting, leaving everything unchanged; otherwise the player is back on the start, `solved` is cleared, and the walls are a spanning tree carved into fresh closed blocks, hence connected |
| Session.Maze.ResetSettled | script.js:224-227 | the callback puts the player on the start and clears `reseting` |
| Session.Maze.GenerateMultipleSolutions | script.js:552-596 | the new walls are the old ones with a spanning tree rooted at the start carved in: every open wall stays open, the maze stays connected, and nothing else changes |
| Session.Maze.Replay | script.js:394-418 | the player walks the found route through open walls onto the last entry, `solved` set when the route steps onto the target |
| Session.Maze.FollowPath | script.js:411-418 | popping the path moves the player cell by cell to the route's end |
| Session.Maze.SolveBFS | script.js:318-419 | refused while busy; otherwise the walls and `reseting` are kept, and the player walks from where it stood to the target exactly when it is reachable, by a shortest route |
| Session.Maze.SolveDFS | script.js:425-527 | refused while busy; otherwise the walls and `reseting` are kept, and the player walks from where it stood to the target exactly when it is reachable |
| Session.Maze.SolveAStar | script.js:621-728 | refused while busy; otherwise the walls and `reseting` are kept, and the player walks from where it stood to the target exactly when it is reachable |
| Session.Maze.SolveSettled | script.js:420-422 | the final callback of every solver (also script.js:528-530 and 729-731) clears `solving` and nothing else |

## Left out

- DOM work is not modelled: block elements, CSS classes, `addEphemeralClass`, the description and time-complexity HTML, and `block.dataset.index`. Visit indices are returned by the carver, not stored on blocks.
- `document.onkeydown` and `keyCodeDirMap` are not modelled: key codes are DOM input. `Session.MovesWalk` covers any sequence of directions.
- `clearMaze` and `clearMazeAndReset` are not modelled. `clearMaze` (script.js:532-539) only removes the `visited` and `path` classes. `clearMazeAndReset` (script.js:541-549) removes them too and then calls `setPlayerPosition(this.startPosition)`, which is modelled as `Session.Maze.SetPlayerPosition`.
- `generateRandomEnd` is not modelled: it reassigns the target while a `reset` it has just started is running, which makes it an interleaving of two asynchronous operations.
- Timers, `period`, and promise resolution are not modelled. `whileAsync` runs its loop to completion. Interleavings are expressed only through the split into a loop method and a `...Settled` method.
- `Math.random` becomes an input: `rolls` for `generate`, and `draws` for every shuffle.
- `parseInt` and JSON serialization are not modelled: points are integer pairs and set keys are the points themselves.
- Session.Maze.Replay: leaves out the first replay pass, the one that colours the path. The second pass, which moves the player, is modelled in sequence with the search.
- Session.Maze.constructor: requires the start and the target to be inside the grid, because the source looks up their blocks. Before the first `reset` the model has closed blocks, and the player stands on the start; in the source there are no blocks yet and `position` is undefined.
- Search.SolveAStar: claims no shortest route, because it uses `dequeue` as written, which can break heap order (`Heap.DequeueCanBreakOrder`). The corrected `Heap.PriorityQueue.IntendedDequeue` is not wired into the solver, which models the page as it behaves.
- Session.Maze.SolveAStar: claims no shortest route, for the same reason.
- The neighbour scan of the three solvers is one method, `Search.Successors`. In A*, the costs and the queueing of the successors happen in a second loop over its result (`Search.QueueSuccessors`), in the same order.
- `onSolved` is modelled as a counter of calls, `solvedNotices`.

## Findings

| source | as written | input that shows it | evidently intended | confidence | as-written member | corrected member |
|---|---|---|---|---|---|---|
| script.js:60-65 | the right child replaces the sifted element whenever the left child was not chosen, without comparing it with that element | the ordered heap [0,5,1,6,6,8,9,7] dequeues to [1,5,9,6,6,8,7], with 9 above 8 and 7; queueing 0, 0, 7, 0 and dequeueing once leaves [7,0,0], whose root 7 is not least | the right child moves up only when it compares below the sifted element, or below the left child if that one was chosen; `dequeue` then keeps heap order and always returns a least entry | high, not executed | Heap.DequeueCanBreakOrder, Heap.DequeueCanMissMinimum | Heap.PriorityQueue.IntendedDequeue, Heap.IntendedDequeueKeepsOrder, Heap.RootIsLeast |
