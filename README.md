# Wave_Astar maze core in Dafny

This project models the two algorithmic parts of Wave_Astar:

- **Eller's row-by-row maze generator** (`eller_algorithm.py`). The generator keeps one vector of set ids for the current row. Its right-border pass merges neighbouring sets where it removes a wall. Its down-border pass leaves every set at least one way down. It then clears the ids under the down walls. On the last row it walls every down border and merges every remaining set into one.
- **The incremental best-first pathfinder** (`test.py`). This covers the point helpers, the `PathPoint` nodes with their parent and child links, `get_closest`, and the `Maze`. The `Maze` part covers its odd sizing, its frame and Eller walls, start and goal placement, one `find_path` expansion per call, `backtrack_path`, the colour gradient and its rotation, and the editing guards.

Modules, leaves first:

| module | file | models |
|---|---|---|
| `Cells` | `cells.dfy` | colours, markers, cells and points, `get_neighbors`, plus the list operations the source uses (`list.remove`, `[::-1]`, rotation) |
| `Grids` | `grids.dfy` | the maze's `map` as a `seq<seq<Cell>>`, `get_point`, `remove_if_marker`, `generate_field` and the two clearing loops |
| `Eller` | `eller.dfy` | `eller_algorithm.py`, imperative: `merge_sets` works on an `array<int>` in place, the counting functions are loops, and `generate_labyrinth` rewrites one `sets` array row by row |
| `PathPoints` | `pathpoints.dfy` | `PathPoint` as an arena class of nodes addressed by `nat` handles, with `parent`/`child` as optional handles; `change_length`, `change_parent` and `get_closest` |
| `Expansions` | `expansions.dfy` | the loop of `find_path` over the eight neighbours, stated on values (`Visit`, `Visits`) together with what it does |
| `Searches` | `searches.dfy` | one whole `find_path` call on values (`Step`), and the search invariant `Sound` that it keeps |
| `Gradients` | `gradients.dfy` | `apply_gradient_first_time` and `shift_gradient` as edits of the grid |
| `Mazes` | `maze.dfy` | the `Maze` class: fields updated in place by methods whose `ensures` tie the new state to the functions above |

Randomness is passed in as data. The coin flips of the right-border and down-border passes are the oracles `rightCoin, downCoin: (nat, nat) -> bool`, indexed by (row, column). The rejection sampling of `set_path_coords` is a finite sequence of drawn (start, goal) pairs. So every property holds for every sequence of coin flips and draws. `math.sqrt(2)` is the constant `diagonal: real`, required to be positive. Path costs are reals, with no floating-point behaviour modelled.

Behaviour of the source a reader may not expect:

- The editing guard protects only the Start and Goal cells themselves, not the cells next to them (test.py:241-244).
- `draw_cell`/`clear_cell` do not reset the search themselves. The click handler calls `restate_solution` before them.
- `is_cell_drawable` is false while `last_changed` is `None`. So the first edit after construction never changes a cell; it only records the point. `DrawCell`/`ClearCell` state this.
- `set_path_coords` first tries the middle of column 0 and of the last column. Column 0 is always wall, so the first candidate pair is always rejected and the draws decide.
- Relaxation goes through `change_parent`, which propagates a decrease down the `child` chain. `find_path` only reparents frontier nodes, though, and frontier nodes never have a child (`Leaves`, part of `Mazes.Maze.Valid`). So inside `find_path` the propagation touches the reparented node alone (`PathPoints.Arena.ChangeLeafParent`).

## Model

| member | source | states |
|---|---|---|
| `Eller.Merged` | eller_algorithm.py:4-8 | length kept; when the ids differ, `set_number2` no longer occurs; entries not equal to it are unchanged and those equal to it become `set_number1`; two cells share an id afterwards iff they did before or both were in one of the two merged sets |
| `Eller.MergeSets` | eller_algorithm.py:4-8 | the in-place loop leaves the array equal to `Merged` of its old contents |
| `Eller.GenerateRightBorders` | eller_algorithm.py:11-21 | one border per cell and the last one is a wall; border i is a wall iff the coin says so or cells i and i+1 already share a set when the pass reaches them; the row ends as the right pass of the old row; an open border lies between cells of one set; sets are never split and no new id appears |
| `Eller.OpenRightBorderJoins` | eller_algorithm.py:16-19 | a border the pass leaves open joins cells i and i+1 for the rest of the pass |
| `Eller.RightPassCoarsens` | eller_algorithm.py:14-19 | the right pass never separates two cells that share an id |
| `Eller.RightPassIds` | eller_algorithm.py:14-19 | every id after the right pass was an id of the row before it |
| `Eller.NumberOfElementsInSet` | eller_algorithm.py:24-29 | the count equals the number of occurrences of the id in the row |
| `Eller.NumberOfHorizontalBordersInSet` | eller_algorithm.py:32-37 | the count equals the number of the set's cells with a down wall, and it is at most the set's size |
| `Eller.SealedPlusOpen` | eller_algorithm.py:24-37 | a set's cells with a down wall plus those without one make up all of its cells |
| `Eller.SealedAtMostElements` | eller_algorithm.py:24-37 | the number of down walls of a set never exceeds the set's size |
| `Eller.OpenCountOne` | eller_algorithm.py:45-46 | when the pass reaches cell i, the guard `elements - borders != 1` fails exactly when cell i is the last cell of its set still open downwards |
| `Eller.GenerateDownBorders` | eller_algorithm.py:40-48 | one border per cell; a border is a wall iff its coin says so and the cell is not the last open cell of its set; every set keeps at least one cell with an open down border |
| `Eller.KeepsOpening` | eller_algorithm.py:40-48 | the down-border choice rule leaves every set an opening |
| `Eller.NumberFreshCells` | eller_algorithm.py:62-66 | cells with id 0 get fresh ids at least the old `next_set`, increasing left to right; afterwards every id is non-zero and below the new `next_set`, and other ids are unchanged |
| `Eller.ClearUnderWalls` | eller_algorithm.py:72-75 | the array becomes `Cleared` of the old one: 0 under down walls, unchanged elsewhere |
| `Eller.Cleared` | eller_algorithm.py:72-75 | an entry is 0 iff it lies under a down wall or was 0; entries with an opening keep their id |
| `Eller.JoinLastRow` | eller_algorithm.py:76-81 | every down border becomes a wall; the set vector becomes the right pass with a coin that never keeps a wall (`RightPass(old, Never, width - 1)`); a right wall at i survives iff it was a wall and cells i and i+1 already shared a set when the loop reached them (`RightWall(old, Never, i)`), so walls are removed exactly where two sets are joined; the last wall stays; afterwards all cells share one id, which was already an id of the row |
| `Eller.OneRow` | eller_algorithm.py:61-81 | one iteration of the main loop satisfies `RowOk`: fresh ids, then on other rows the right pass, with border i a wall iff its coin says so or cells i and i+1 already share a set (`RightWall`), the down rule with an opening per set and ids cleared under walls, or on the last row all down walls, the set vector after the right pass joined by the pass that never keeps a wall, border i a wall iff both `RightWall(numbered, coin, i)` and `RightWall(joined, Never, i)` hold, and one set (`LastDone`); all ids stay below `next_set` |
| `Eller.GenerateLabyrinth` | eller_algorithm.py:51-83 | `height` rows of `width` right and down borders; the last right border of each row is a wall; the whole last row of down borders is walls; every row satisfies `RowOk` (so a right border is a wall iff `RightWall` holds for it on all rows but the last, and on the last row iff the coin-driven pass and the joining pass both keep it), each starting from the previous row's set vector; every border is thus fixed by the coins |
| `Eller.RowIdsCleared` | eller_algorithm.py:72-75 | on every row but the last, the set vector leaving the row is 0 exactly where the down border is a wall |
| `Eller.TraceShapes` | eller_algorithm.py:76-83 | a complete trace gives both matrices their shape, right walls on the east edge and a walled last row |
| `Cells.AddColors` | test.py:11-15 | the result minus `color1` is `color2`, or `color1` minus the result is `color2` when `subtract` is set |
| `Cells.AddColorsRoundTrip` | test.py:11-15 | adding and then subtracting the same colour, in either order, is the identity |
| `Cells.ManhattanDistance` | test.py:39-40 | the distance is 0 iff the points are equal, and it bounds the row and the column difference |
| `Cells.ManhattanMetric` | test.py:39-40 | the distance is symmetric and obeys the triangle inequality |
| `Cells.GetNeighbors` | test.py:48-54 | exactly 8 points in row-major order, pairwise distinct; a point is among them iff it differs from `self` and is at most 1 away in row and in column |
| `Cells.RingFacts` | test.py:48-54 | the eight neighbours are in strictly increasing row-major order and are exactly the points around p |
| `Cells.NeighbourDistance` | test.py:319-321 | a neighbour is at Manhattan distance 1 or 2, and at 2 iff it is diagonal |
| `Cells.SetColorOverwrites` | test.py:59-63 | on a `custom` cell, a second `set_color` overwrites the first; the cell stays `custom` and no marker is added or removed |
| `Cells.AddMarkerCounts` | test.py:56-57 | `add_marker` puts `m` last, adds exactly one occurrence of `m`, leaves the count of every other marker and keeps the colour |
| `Cells.RemoveFirstCounts` | test.py:154-156 | `list.remove` takes away one occurrence of the element and nothing else |
| `Cells.Reverse` | test.py:364 | `path[::-1]`: same length, element i is the old element `len - 1 - i` |
| `Cells.ReverseInvolution` | test.py:364 | reversing twice gives the path back |
| `Cells.RotateRight` | test.py:368-371 | same length; new first is old last, new element i is old element i-1 |
| `Cells.RotateRightPermutes` | test.py:368-371 | rotation keeps the multiset of elements |
| `Grids.EmptyFieldBlank` | test.py:189-195 | the fresh field has `height` rows of `width` cells, without any start, goal or wall marker and without colour |
| `Grids.RemoveIfMarker` | test.py:154-156 | when the cell has the marker, its first occurrence is removed; otherwise the grid is unchanged; no other cell and no colour changes |
| `Grids.ResetAtIdempotent` | test.py:373-381 | resetting the same cells twice is resetting them once |
| `Grids.ResetAtUnique` | test.py:373-381 | after `clear_pathpoint_list` the start and goal markers are still unique, and every reset cell holds one marker, never a wall |
| `Grids.Cleared` | test.py:256-262 | cells of the listed points other than the start become `[empty]` with their colour kept; all other cells are unchanged |
| `Grids.ClearedTwice` | test.py:256-262 | clearing the frontier's cells and then the closed list's is clearing both lists at once |
| `Grids.ClearedUnique` | test.py:256-262 | clearing spares the start cell and a goal without a node, so both stay unique |
| `PathPoints.Appended` | test.py:67-73 | the new node is last, without a child, with the given point, length and parent; the parent's child becomes the new node and nothing else changes |
| `PathPoints.Arena.NewNode` | test.py:67-73 | the constructor appends the node by `Appended`, returns its handle and keeps the link invariant |
| `PathPoints.Arena.ChangeLength` | test.py:81-84 | exactly the nodes on the child chain from h lose `difference` from their length; no other node and no point, parent or child changes |
| `PathPoints.ChainClosed` | test.py:81-84 | the chain change_length walks is closed under `child` |
| `PathPoints.Arena.ChangeParent` | test.py:75-79 | the node ends with length `new_dist` and parent `other`; the old parent's child is cleared; the whole chain shifts by the same amount; a cheaper parent only lowers lengths; on a childless node only it and its old parent change |
| `PathPoints.Reparented` | test.py:75-79 | change_parent on a childless node: its length becomes `new_dist`, its parent `other`; other nodes keep length and parent, and a child link is kept or cleared |
| `PathPoints.Arena.ChangeLeafParent` | test.py:75-79 | change_parent on a childless node gives `Reparented` of the old arena |
| `PathPoints.GetClosest` | test.py:90-98 | None iff the list is empty; otherwise a position whose node has the least length plus Manhattan distance to the goal, with every earlier node strictly worse (the strict `<` picks the first) |
| `PathPoints.FindClosest` | test.py:90-98 | the source's one-pass minimum scan returns what `GetClosest` does |
| `Expansions.RelaxedAt` | test.py:326-331 | the inner loop lowers exactly the frontier nodes at n dearer than `closest.length + offset`, to that value with parent `closest`; every other node keeps its length |
| `Expansions.RelaxedSeen` | test.py:326-331 | the inner loop clears `is_possible` exactly when some frontier node lies at n |
| `Expansions.RelaxedUseful` | test.py:326-331 | the inner loop sets `is_useful` exactly when it reparents some node |
| `Expansions.VisitsGrown` | test.py:318-340 | after the neighbour loop: old nodes keep their points, one new node per admissible neighbour is appended, the frontier is the old one followed by the new non-goal nodes, and exactly their cells gain a `path` marker |
| `Expansions.VisitsAdmissible` | test.py:322-331 | every node the loop creates is at a neighbour that is in bounds, not closed, not a wall or the start, and had no frontier node |
| `Expansions.CreatedMembers` | test.py:322-339 | a neighbour gets a node iff it is admissible; it joins the frontier iff it is also not the goal |
| `Expansions.VisitsNodes` | test.py:336-339 | each new node has parent `closest`, length `closest.length + offset` and no child; no old node but `closest` gains a child; links stay consistent |
| `Expansions.VisitsLength` | test.py:326-331 | an old node's length and parent change only when a neighbour relaxed it: the new length is then `closest.length + offset` and the parent `closest` |
| `Expansions.VisitsLower` | test.py:326-331 | relaxation only lowers costs: no old node ends dearer than it began |
| `Expansions.VisitsUseful` | test.py:316-331 | `is_useful` ends true iff some neighbour relaxed some frontier node |
| `Expansions.VisitsFlags` | test.py:332-337 | `is_path_found` is set iff the goal got a node, which is then `last_track_point`; `is_successful` iff any node was created |
| `Expansions.VisitsTrack` | test.py:334-336 | when the goal is reached, `last_track_point` is a node at the goal with parent `closest` and length `closest.length + offset`, and it is not in the frontier |
| `Expansions.VisitsDistinct` | test.py:318-340 | the loop never puts a point twice in the frontier |
| `Expansions.VisitsParents` | test.py:326-339 | after the neighbour loop every old node keeps its parent or is a frontier node reparented to `closest`, and every new node has parent `closest` |
| `Expansions.VisitsKeeps` | test.py:318-340 | the loop moves no start, goal or wall marker |
| `Searches.ExpandFrontier` | test.py:345 | `search_area.remove(closest)` takes exactly the chosen node out of the frontier |
| `Searches.ExpandWorked` | test.py:344 | the chosen node is appended to `worked_points` |
| `Searches.ExpandMembers` | test.py:318-345 | after an expansion the frontier's points are the old ones plus the added neighbours, less the chosen one |
| `Searches.ExpandEnds` | test.py:318-345 | the start still has a node among the frontier and closed nodes, and the goal has none |
| `Searches.StepSound` | test.py:307-345 | one `find_path` call keeps the search invariant: bounds, consistent links, unique start and goal markers, no point twice in the frontier, no frontier node with a child |
| `Searches.StepTrack` | test.py:307-345 | a call either leaves `is_path_found` and `last_track_point` alone, or finds the path with `last_track_point` a node at the goal |
| `Searches.StepRanked` | test.py:307-345 | one `find_path` call keeps the order of expansion: each closed node's parent was closed before it, each frontier node's parent is closed, closed points are distinct and none lies in the frontier |
| `Searches.StepFinds` | test.py:332-336 | the call that finds the path leaves as `last_track_point` a node at the goal whose parent is closed |
| `Gradients.ShadeLinear` | test.py:347-355 | after i additions of the step, each component is the start plus i times the step |
| `Gradients.GradientApproaches` | test.py:347-355 | after `len(path)` rounded-down steps from the start colour, every component is at or below the end colour's, by less than `len(path)` |
| `Gradients.PaintedCells` | test.py:347-355 | on a path without repeats, cell i gains one `custom` marker and colour start + i·step; other cells are untouched |
| `Gradients.PaintedKeeps` | test.py:347-355 | painting moves no start, goal or wall marker |
| `Gradients.ShiftingEarlier` | test.py:370-371 | on a path without repeats, after i turns of the swap loop, the cell at position j < i holds the colour of the cell before it (the first holds the carried colour) |
| `Gradients.ShiftingUntouched` | test.py:370-371 | after i turns of the swap loop, the cells not yet reached and the cells off the path are unchanged |
| `Gradients.ShiftRotates` | test.py:368-371 | on a path without repeats (the maze's path is one, see `Mazes.Maze.ShiftPath`), the path's colours are rotated right by one and keep their multiset; markers and cells off the path do not change |
| `Gradients.ShiftedKeeps` | test.py:368-371 | the rotation moves no start, goal or wall marker |
| `Mazes.ForcedOdd` | test.py:109-112 | the result is odd; an odd size is kept and an even one is raised by one |
| `Mazes.WallsHaveMeaning` | test.py:174-187 | after `generate_walls`: the whole outer frame is wall, the labyrinth cells (odd row, odd column) are open, and a cell between two labyrinth cells is wall iff the border between them is set |
| `Mazes.WalledFieldUnmarked` | test.py:174-187 | a freshly walled field carries no start and no goal marker |
| `Mazes.WallGrid` | test.py:174-187 | the field generate_walls builds from a labyrinth of h by w cells has 2h+1 rows of 2w+1 cells |
| `Mazes.WalledIsWallGrid` | test.py:174-187 | a field the two loops of generate_walls have finished equals `WallGrid` of the borders |
| `Mazes.WallGridMeaning` | test.py:174-187 | with a walled east edge and last row, `WallGrid` has a walled frame, open labyrinth cells and walls exactly where the borders are set |
| `Mazes.PlacedUnique` | test.py:169-170 | marking start and goal on a fresh field leaves exactly one of each, where they were placed |
| `Mazes.StartMovedUnique` | test.py:264-268 | after `move_start` the one start marker is on the new cell and the goal marker is where it was |
| `Mazes.GoalMovedUnique` | test.py:270-277 | after `move_goal` the start marker is where it was and the one goal marker is on the new cell |
| `Mazes.HopTraced` | test.py:357-361 | a hop of `backtrack_path` appends a point not yet on the path and moves to a node closed earlier, so the path keeps no repeats |
| `Mazes.EndTraced` | test.py:362-366 | the completed path, reversed, has no repeats |
| `Mazes.Maze.constructor` | test.py:102-130 | odd dimensions; the walled field is `WallGrid` of a labyrinth `generate_labyrinth` can return for the coins (`WalledBy`); the draws are used as `PlacedBy` says; flags off and path empty; when a start and a goal were placed, the maze invariant and the order invariant `Ordered` hold and the frontier is one start node of cost 0, with nothing closed |
| `Mazes.Maze.Build` | test.py:120-130 | `generate_walls`, `set_path_coords` and the first frontier: the field is walled as `WalledBy` says, the draws are used as `PlacedBy` says, and when placed the invariants hold with the start node alone in the frontier |
| `Mazes.Maze.WallField` | test.py:174-187 | the fresh field becomes `WallGrid` of the generated borders, recorded in `walled`, without start or goal marker |
| `Mazes.Maze.Populate` | test.py:121-130 | `set_path_coords` on the walled field then the first frontier: the draws are used as `PlacedBy` says; when placed, `Valid` and `Ordered` hold and the frontier is the start node alone |
| `Mazes.Maze.PlaceStartGoal` | test.py:161-172 | on the walled field: every rejected draw was unacceptable; when one is accepted, start and goal are two distinct cells of the field holding the one start and the one goal marker; otherwise the grid, start and goal are unchanged |
| `Mazes.Maze.GenerateWalls` | test.py:174-187 | the field becomes `WallGrid` of the borders `generate_labyrinth(width // 2, height // 2)` returns (a trace satisfying `TraceOk`, a walled east edge and last row), carries no start or goal marker, and has the meaning `WallsMeaning` states |
| `Mazes.Maze.SetPathCoords` | test.py:161-172 | the first acceptable candidate (two distinct non-wall cells) is taken and marked `start` and `goal`; every earlier candidate was unacceptable; when the draws run out the grid, start and goal are unchanged |
| `Mazes.Maze.RestateSolution` | test.py:132-143 | custom markers off start and goal, confirmed off the goal, the search cells cleared, flags and path reset, and a fresh start node as the only frontier node |
| `Mazes.Maze.ClearPathfind` | test.py:256-262 | the grid becomes `Cleared` over the frontier and closed points, sparing the start |
| `Mazes.Maze.MoveStart` | test.py:264-268 | out of bounds, or on the start or the goal: no change; otherwise the start moves to p, the search is restated and p becomes `[empty, start]`; the invariant holds |
| `Mazes.Maze.MoveGoal` | test.py:270-277 | same guard; otherwise the search is restated, the old goal loses `goal` and `custom`, the start loses `custom`, and p becomes `[empty, goal]` |
| `Mazes.Maze.FindPath` | test.py:307-345 | the call keeps the maze invariant and leaves the search fields equal to `Step` of the old ones; before the path is found it keeps `Ordered` |
| `Mazes.Maze.Relax` | test.py:326-331 | the inner loop over `search_area` leaves the arena as `Relaxed` states and sets `is_possible`/`is_useful` from it |
| `Mazes.Maze.CreateNode` | test.py:332-340 | at the goal, `is_path_found` is set and the new node becomes `last_track_point` without joining the frontier; elsewhere the node joins the frontier and its cell gains `path` |
| `Mazes.Maze.ExpandNeighbours` | test.py:315-340 | the loop over the eight neighbours ends in the state `Visits` gives |
| `Mazes.Maze.Close` | test.py:341-345 | `wrong` is added when nothing was created or relaxed; the chosen node moves from `search_area` to `worked_points` |
| `Mazes.Maze.BacktrackPath` | test.py:357-366 | while `last_track_point` is set: its cell gains `confirmed`, is appended to the path, and tracing moves to the parent; otherwise the path is complete and reversed, the search cells are cleared and the gradient is painted |
| `Mazes.Maze.TraceHop` | test.py:358-361 | the tracked node's cell gains `confirmed`, its point is appended to the path and tracing moves to its parent; the order invariant, and so a path without repeats, is kept |
| `Mazes.Maze.ApplyGradientFirstTime` | test.py:347-355 | the grid becomes `Painted` with the start colour and the rounded-down step towards the end colour |
| `Mazes.Maze.ShiftGradient` | test.py:368-371 | the grid becomes `Shifted` of the old grid along the path |
| `Mazes.Maze.ShiftPath` | test.py:368-371 | on the complete path, which `Ordered` keeps free of repeats, the grid becomes `Shifted` and the path's colours are rotated right by one place; the maze invariant holds |
| `Mazes.Maze.NextStep` | test.py:298-305 | nothing while not working; otherwise what `Advance` states, including the fields each branch leaves alone; `Valid` and `Ordered` hold before and after |
| `Mazes.Maze.Advance` | test.py:299-305 | before the path is found, the search fields become `Step` of the old ones; then, until the path is complete, one tracing step as `Backtracked` states; then the grid becomes `Shifted` along the unchanged path; once the path is found, `closest` and the search lists stay as they were, and once it is complete so does `last_track_point`; `Valid` and `Ordered` are kept |
| `Mazes.Maze.Conclude` | test.py:302-305 | while the path is incomplete, one tracing step as `Backtracked` states; once it is complete, the path's colours are rotated right by one place and the path and `last_track_point` stay as they were; `closest` and the search lists never change; `Valid` and `Ordered` are kept |
| `Mazes.Maze.ClearPathPointList` | test.py:373-381 | the grid becomes `ResetAt` over the points of the listed nodes |
| `Mazes.Maze.DrawableIsNotStartOrGoal` | test.py:241-244 | a drawable cell is neither the start nor the goal |
| `Mazes.Maze.DrawCell` | test.py:246-249 | a drawable cell becomes `[wall]`, nothing else changes; no-op when `last_changed` is None or equals p; start and goal cells never change; `last_changed` becomes p |
| `Mazes.Maze.ClearCell` | test.py:251-254 | a drawable cell becomes `[empty]`, with the same guards and `last_changed` update as `draw_cell` |

## Left out

- `pygame_utils.py` and `display.py`: widgets, the event loop and frame timing are presentation and I/O.
- `Maze.draw_on_screen` and `Maze.catch_click` (test.py:212-239, 279-296): pixel drawing and floating-point click geometry.
- `Point.__str__`, `Marker.__str__` and the `print` calls (test.py:337, 406-413): output only.
- `Maze.rebuild`, `clear_path`, `clear_point_list`, `change_solving` and `change_editing` (test.py:145-149, 197-210, 383-403) are not modelled. They are driven by the UI and reuse the operations above (`restate_solution`, `generate_walls`, `set_path_coords`, `clear_pathpoint_list`).
- `random.randint` is given as data: coin oracles for the generator and a finite list of draws for `set_path_coords`.
- `Mazes.Maze.constructor`: the source's rejection loop can run forever. With a finite list of draws, the model instead reports `placed == false`, and then promises nothing about start, goal or the search.
- `math.sqrt(2)` is the positive real `diagonal`; IEEE rounding of path costs is not modelled.
- Each cell holds its own marker list. The source shares the default `markers=[]` list between `Point` objects created without markers, but those points (neighbours, start, goal) never have markers added.
- `set_color` raising `TypeError` is a precondition of `Cells.SetColor`.
- Generator input: `generate_right_borders` fails on an empty row (`borders[-1]`). So `Eller.GenerateRightBorders` requires a non-empty row, and `GenerateLabyrinth` and the `Maze` constructor require `width // 2 > 0` whenever `height // 2 > 0`.
- `Mazes.Maze.BacktrackPath`: the final call divides by the path's length, so the model requires a non-empty path when `last_track_point` is None. That always holds after a goal node was found.
- `Mazes.Maze.DrawCell`, `Mazes.Maze.ClearCell`, `Mazes.Maze.MoveStart`, `Mazes.Maze.MoveGoal`: they require the maze invariant (unique start and goal, a start node among the frontier or closed nodes). The constructor, `restate_solution` and every modelled method establish it.
- Connectivity and acyclicity of the whole generated maze, across all rows, are not proved. Only the per-row invariants above are.
- Optimality of the found path is not claimed. With diagonal steps the Manhattan heuristic can overestimate, and closed nodes are never reopened.
