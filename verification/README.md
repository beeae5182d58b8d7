# Eight-connected grid A*, modelled in Dafny

This project models the search core of a small Python A* visualiser:

- **the grid and octile distance**: a list of rows of 0 (free) and 1 (obstacle), the eight
  neighbour offsets, and `octile_distance`, which is `max(dx, dy) + ½·min(dx, dy)`;
- **the heap search `astar`** and its `process_neighbor`: both the module-level copy and the
  `AStarApplication` method copy. It is modelled as a class `Engine` whose `Step` resumes the
  generator once. Its state is the heap list, `g_score`, `f_score` and `came_from`;
- **the queue search `queueastar`**, with its `open_set_hash` membership set, as a class
  `QueueEngine`;
- **`reconstruct_path`**: the predecessor walk, then `start` is appended and the list is reversed;
- **the endpoint checks**: `is_surrounded` and `end_obstacle` / `end_is_obstacle`, plus the guard
  of `Visualizer.visualize`, the report order of `handle_invalid_nodes`, and the way
  `astar_visualized` consumes the search steps;
- **the older list-based `astar`** with `Node` parent links;
- **the settings dialog**: the size, density and endpoint validators, `validateInputs`, and the
  hand-drawn grid (`insertMaze`, `updateMazeCell`);
- **the application's choice of heuristic**.

All scores are counted in half steps. A distance d is the integer 2·d, so the octile distance
is `2·max + min`, one orthogonal step costs 2 and one diagonal step costs 3. Every value the
source computes is a multiple of ½, so this is exact.

The heap search is generic in its step cost. The step cost is a function that gives at least
one whole step (2) between adjacent cells: `octile_distance` in the module copy,
`self.heuristic` in the application copy. The priority always adds the octile distance to the
goal.

The search invariant (`HeapSearch.ValidState`) says five things:
- start is scored 0 and has no predecessor;
- f is g plus the octile distance to the goal;
- every linked cell is free and adjacent to its predecessor;
- along every link, the predecessor's g plus the step cost is at most the cell's g;
- every queued cell is scored.

From this invariant the model proves that `reconstruct_path` terminates on the search's
`came_from`. The path it rebuilds is a walk from start to the cell through free cells, and it
costs no more than the g recorded for that cell.

Python's list indexing is modelled exactly where the source can reach it: negative indices
wrap, and an index past the end raises IndexError. This covers the endpoint reads of
`end_obstacle`, the grid reads of the list search, and the tuple reads of the point validator.

## Model

| member | source | states |
|---|---|---|
| Grid.DirectionsReachNeighbours | A_Star_Implementation.py:57-72 | the eight offsets reach exactly the cells adjacent to the expanded one |
| Grid.PyIndex | A_Star_Implementation.py:198 | a list index succeeds iff it lies in [-n, n), and then it selects i or n + i |
| Grid.PyRead | A_Star_Implementation.py:198 | a read inside a rectangular grid yields that cell's value |
| Octile.OctileTwice | A_Star_Implementation.py:157-160 | half of the result equals max(dx, dy) + (1 - 1/2)·min(dx, dy) over the reals (same formula as AstarApplication.py:86-99) |
| Octile.OctileSymmetric | A_Star_Implementation.py:157-160 | the octile distance is symmetric |
| Octile.OctileZeroIffSame | A_Star_Implementation.py:157-160 | the octile distance is 0 iff the two cells are equal |
| Octile.OctileOfNeighbour | A_Star_Implementation.py:157-160 | between adjacent cells it is 1 (2 half steps) orthogonally and 1.5 (3) diagonally |
| Octile.OctileAsNorms | A_Star_Implementation.py:157-160 | twice the octile distance is the L1 norm plus the L-infinity norm of the difference |
| Octile.OctileTriangle | A_Star_Implementation.py:157-160 | the octile distance obeys the triangle inequality |
| Octile.OctileAdmissible | A_Star_Implementation.py:178-182 | the octile heuristic never overestimates: any walk, costed by octile steps, is at least the octile distance between its ends |
| Frontier.LexLeTotalOrder | A_Star_Implementation.py:64 | the tuple order on (f, row, col) that heappop uses is total, antisymmetric and transitive |
| Frontier.MinIndex | A_Star_Implementation.py:64 | heappop removes an entry no larger than any other in the heap |
| Frontier.RemoveAt | A_Star_Implementation.py:64 | after the pop the heap holds every other entry, with multiplicities, and one entry fewer |
| Frontier.PoppedEntryIsDetermined | A_Star_Implementation.py:64 | ties are broken deterministically: any least entry equals the one popped |
| EndpointChecks.SurroundedFrom | A_Star_Implementation.py:15-19 | the offset scan from index i returns True iff no remaining offset lands in bounds on a 0 |
| EndpointChecks.IsSurrounded | A_Star_Implementation.py:12-19 | false iff some adjacent cell is in bounds and 0; the node's own cell is never read (also Visualizer.py:55-71) |
| EndpointChecks.ScanCoversNeighbours | A_Star_Implementation.py:14-19 | the eight-offset scan decides the same as "every adjacent cell is blocked" |
| EndpointChecks.EndIsObstacle | A_Star_Implementation.py:197-201 | true iff the end cell holds 1, or it is readable and the start cell holds 1; the end is read first, and an IndexError on either read propagates (also Visualizer.py:40-53) |
| PathReconstruction.HopsAreLinks | utils.py:26-28 | the loop visits a chain of came_from links from current, stopping at the first cell outside the map |
| PathReconstruction.Reverse | utils.py:30 | `path.reverse()` puts element \|s\|-1-i at index i |
| PathReconstruction.ReconstructedShape | utils.py:25-31 | the result starts with start; it ends with current iff current is a key, and is [start] otherwise; its length is hops + 1; after index 0 each cell is the predecessor of the next; the first pair is a link only when the chain ends at start |
| PathReconstruction.ReconstructPath | utils.py:25-31 | the loop, the append of start and the in-place reverse compute exactly that list (also A_Star_Implementation.py:167-174) |
| HeapSearch.OctileIsStepCost | A_Star_Implementation.py:178 | the octile distance between adjacent cells is at least one whole step |
| HeapSearch.Initial | A_Star_Implementation.py:58-61 | start is the only scored cell, at g 0 with no predecessor, and the only queued cell |
| HeapSearch.Relax | A_Star_Implementation.py:176-183 | a free neighbour ends up scored and no other cell becomes scored; no score rises; every queued cell stays queued, and a newly scored cell is queued |
| HeapSearch.RelaxTouchesOnlyNeighbour | A_Star_Implementation.py:176-183 | nothing changes unless the neighbour is free and new or strictly improved; an update sets its g to g[cur] + cost, its predecessor to cur and its f to g + octile(nb, goal), pushes exactly one entry and touches no other cell |
| HeapSearch.RelaxFrom | A_Star_Implementation.py:70-72 | after the direction loop every free neighbour is scored, no scored or queued cell is lost, and every newly scored cell is queued |
| HeapSearch.InitialIsValid | A_Star_Implementation.py:58-61 | the initial heap [(0, start)], g {start: 0} and f {start: h(start)} satisfy the invariant |
| HeapSearch.RelaxKeepsShape | A_Star_Implementation.py:177-181 | start keeps g 0 and never gets a predecessor; scored cells are start plus the linked cells |
| HeapSearch.RelaxKeepsF | A_Star_Implementation.py:181-182 | f stays g plus the octile distance to the goal |
| HeapSearch.RelaxKeepsAdjacentFree | A_Star_Implementation.py:177-180 | every linked cell is in bounds, holds 0, and is adjacent to its predecessor |
| HeapSearch.RelaxKeepsBounded | A_Star_Implementation.py:178-181 | each link's predecessor g plus the step cost stays at most the cell's g |
| HeapSearch.RelaxKeepsQueued | A_Star_Implementation.py:183 | every heap entry names a scored cell |
| HeapSearch.RelaxKeepsValid | A_Star_Implementation.py:176-183 | process_neighbor keeps the whole invariant and never unscores a cell |
| HeapSearch.RelaxFromKeepsValid | A_Star_Implementation.py:70-72 | relaxing the neighbours in direction order keeps the invariant |
| HeapSearch.PopKeepsValid | A_Star_Implementation.py:64 | popping any entry keeps the invariant, and the popped cell is scored |
| HeapSearch.ValidIsRanked | A_Star_Implementation.py:67-68 | g strictly drops along every predecessor link, so the reconstruction loop terminates |
| HeapSearch.ShapeIsRooted | A_Star_Implementation.py:58-60 | start is the only scored cell without a predecessor, so every chain of came_from links ends at start |
| HeapSearch.ChainLinks | A_Star_Implementation.py:67-68 | when every chain ends at start, the path rebuilt from start or a linked cell starts at start, ends at that cell, and follows a link at every step |
| HeapSearch.ChainIsFreeWalk | A_Star_Implementation.py:67-68 | the rebuilt path is a walk between adjacent cells through free cells after start |
| HeapSearch.ChainCostAtMostG | A_Star_Implementation.py:178-181 | the rebuilt path's step-cost sum is at most the g recorded for its last cell |
| HeapSearch.ExpansionSettles | A_Star_Implementation.py:70-72 | relaxing the eight neighbours scores every free neighbour, so the cell counts as expanded, and the cells scored meanwhile are queued |
| HeapSearch.PopKeepsQueued | A_Star_Implementation.py:64 | after a pop, every scored cell other than the popped one and the expanded ones is still queued |
| HeapSearch.WalkStaysScored | A_Star_Implementation.py:63-72 | when every scored cell has been expanded, a free walk from a scored cell never leaves the scored cells |
| HeapSearch.ExhaustedIsUnreachable | A_Star_Implementation.py:63-74 | once the heap is empty and every scored cell has been expanded, every cell a free walk from start reaches was expanded; a goal never expanded is unreachable |
| HeapSearch.ScoredIsReachable | A_Star_Implementation.py:176-183 | every scored cell is reached from start by a free walk |
| HeapSearch.AfterResume | A_Star_Implementation.py:67-72 | resuming after a yielded cell relaxes its neighbours: its free neighbours are scored and no scored cell is lost |
| HeapSearch.SettledIsOk | A_Star_Implementation.py:63-72 | the search invariant, settled expanded cells, an unexpanded goal and every other scored cell queued make up the invariant of a running generator |
| HeapSearch.ExpansionKeepsParts | A_Star_Implementation.py:70-72 | expanding the pending cell keeps the search invariant, settles that cell and keeps the other scored cells queued |
| HeapSearch.ExpansionKeepsOk | A_Star_Implementation.py:67-72 | expanding a pending cell other than the goal keeps the running-generator invariant, with that cell expanded |
| HeapSearch.PopKeepsOk | A_Star_Implementation.py:63-65 | a pop keeps the running-generator invariant with the popped cell pending, and that cell is reachable from start |
| HeapSearch.ExhaustionKeepsOk | A_Star_Implementation.py:63-74 | an empty heap with nothing pending gives the invariant of a returned generator, and no free walk leads from start to the goal |
| HeapSearch.Engine.constructor | A_Star_Implementation.py:55-61 | the heap starts as [(0, start)] with g {start: 0}, f {start: h(start)} and no links; the invariant holds |
| HeapSearch.Engine.ProcessNeighbor | A_Star_Implementation.py:176-183 | the in-place updates equal Relax of the old containers |
| HeapSearch.Engine.ExpandNeighbors | A_Star_Implementation.py:70-72 | the eight updates equal RelaxFrom of the old containers, and the invariant holds |
| HeapSearch.Engine.ExpandPending | A_Star_Implementation.py:67-72 | the pending cell, not the goal, has its neighbours relaxed as RelaxFrom says and joins the expanded cells; the invariant holds |
| HeapSearch.Engine.Resume | A_Star_Implementation.py:67-72 | the work after a yield equals AfterResume of the old containers; nothing is pending afterwards and the invariant holds |
| HeapSearch.Engine.Finish | A_Star_Implementation.py:67-68 | the return after the goal stops the generator and leaves its containers as they are |
| HeapSearch.Engine.Step | A_Star_Implementation.py:63-74 | after the goal was yielded the generator returns; otherwise the yielded cell's neighbours are relaxed, then the lexicographic minimum is popped and yielded, or the None triple comes once the heap is empty; the None triple comes only when no free walk leads from start to the goal, and every yielded cell is reachable from start; the invariant is kept (also AstarApplication.py:150-171) |
| HeapSearch.Engine.Pop | A_Star_Implementation.py:63-65 | the least (f, cell) leaves the heap and its cell is yielded; an empty heap yields the None triple |
| QueueSearch.RelaxQueuedScores | A_Star_Implementation.py:42-50 | the scores change exactly as in process_neighbor; the queue and the hash set grow only for an improved cell not yet queued |
| QueueSearch.InitialQueue | A_Star_Implementation.py:25-30 | start is the only scored cell, at g 0 with no predecessor; open_set_hash is {start} and equals the set of queued cells |
| QueueSearch.RelaxQueued | A_Star_Implementation.py:42-50 | a free neighbour ends up scored and no other cell does; open_set_hash only grows, holds every newly scored cell, and keeps equal to the set of queued cells |
| QueueSearch.RelaxQueuedIdle | A_Star_Implementation.py:42-44 | a neighbour that is not free, or neither new nor strictly cheaper, changes nothing |
| QueueSearch.RelaxQueuedFrom | A_Star_Implementation.py:40-50 | after the direction loop every free neighbour is scored, no scored cell is lost, and open_set_hash only grows, holds every newly scored cell and equals the set of queued cells |
| QueueSearch.QueuedCellIsNotPushedAgain | A_Star_Implementation.py:48-50 | an improved cell that is already queued is not pushed again and keeps its stale entry |
| QueueSearch.EmptyQueueEmptyHash | A_Star_Implementation.py:30-34 | when the queue is empty, open_set_hash is empty |
| QueueSearch.UniqueRemoveAt | A_Star_Implementation.py:33-34 | removing one entry keeps cells unique and removes exactly that cell from the queued set |
| QueueSearch.InitialQueueIsValid | A_Star_Implementation.py:25-30 | the initial queue, hash set and scores satisfy the queue invariant |
| QueueSearch.PushIsRelax | A_Star_Implementation.py:44-50 | a push is process_neighbor's push, and the cell joins open_set_hash |
| QueueSearch.NoPushIsRelax | A_Star_Implementation.py:44-48 | without a push only the scores change, as in process_neighbor |
| QueueSearch.PushKeepsValid | A_Star_Implementation.py:48-50 | pushing a new cell keeps open_set_hash equal to the queued cells and each cell queued once |
| QueueSearch.NoPushKeepsValid | A_Star_Implementation.py:44-48 | improving an already-queued cell keeps the queue invariant |
| QueueSearch.RelaxQueuedKeepsValid | A_Star_Implementation.py:40-50 | one neighbour update keeps the queue invariant |
| QueueSearch.RelaxQueuedFromKeepsValid | A_Star_Implementation.py:40-50 | the eight neighbour updates keep the queue invariant |
| QueueSearch.PopAt | A_Star_Implementation.py:33-34 | get removes one entry and its cell leaves open_set_hash; the scores are untouched |
| QueueSearch.QueuePopKeepsValid | A_Star_Implementation.py:33-34 | the popped cell was in open_set_hash and scored, and the invariant survives the pop |
| QueueSearch.QueueExpansionSettles | A_Star_Implementation.py:40-50 | relaxing the eight neighbours scores every free neighbour, so the cell counts as expanded, and the cells scored meanwhile are queued |
| QueueSearch.QueueAfterResume | A_Star_Implementation.py:37-50 | resuming after a yielded cell relaxes its neighbours: its free neighbours are scored and no scored cell is lost |
| QueueSearch.QueueSettledIsOk | A_Star_Implementation.py:32-50 | the queue invariant, settled expanded cells, an unexpanded goal and every other scored cell queued make up the invariant of a running queueastar |
| QueueSearch.QueueExpansionKeepsParts | A_Star_Implementation.py:40-50 | expanding the pending cell keeps the queue invariant, settles that cell and keeps the other scored cells queued |
| QueueSearch.QueueExpansionKeepsOk | A_Star_Implementation.py:37-50 | expanding a pending cell other than the goal keeps the running invariant, with that cell expanded |
| QueueSearch.QueuePopKeepsOk | A_Star_Implementation.py:32-35 | a pop keeps the running invariant with the popped cell pending, and that cell is reachable from start |
| QueueSearch.QueueExhaustionKeepsOk | A_Star_Implementation.py:32-52 | an empty queue with nothing pending leaves open_set_hash empty, gives the invariant of a returned generator, and no free walk leads from start to the goal |
| QueueSearch.QueueEngine.constructor | A_Star_Implementation.py:22-30 | the queue starts with (0, start) and hash {start}, the step cost is octile, and the invariant holds |
| QueueSearch.QueueEngine.ProcessQueued | A_Star_Implementation.py:42-50 | the in-place updates equal RelaxQueued of the old containers |
| QueueSearch.QueueEngine.ExpandNeighbors | A_Star_Implementation.py:40-50 | the neighbour loop equals RelaxQueuedFrom, and the invariant holds |
| QueueSearch.QueueEngine.ExpandPending | A_Star_Implementation.py:37-50 | the pending cell, not the goal, has its neighbours relaxed as RelaxQueuedFrom says and joins the expanded cells; the invariant holds |
| QueueSearch.QueueEngine.Resume | A_Star_Implementation.py:37-50 | the work after a yield equals QueueAfterResume of the old containers; nothing is pending afterwards and the invariant holds |
| QueueSearch.QueueEngine.Finish | A_Star_Implementation.py:37-38 | the return after the goal stops the generator and leaves its containers as they are |
| QueueSearch.QueueEngine.Step | A_Star_Implementation.py:32-52 | one resume of queueastar: returns after the goal, otherwise relaxes, then pops the least entry and yields it, or yields the None triple on an empty queue; the None triple comes only when no free walk leads from start to the goal, and every yielded cell is reachable from start |
| QueueSearch.QueueEngine.Pop | A_Star_Implementation.py:32-35 | an empty queue yields the None triple with an empty hash set; otherwise the least entry is taken |
| QueueSearch.QueueEngine.PopMin | A_Star_Implementation.py:33-35 | get of the least entry and removal of its cell from open_set_hash keep the invariant |
| Visualizer.CheckEndpoints | Visualizer.py:78-98 | the search runs iff both endpoint reads succeed, neither is 1, and both endpoints have a free neighbour; otherwise the first failing check, in the order blocked endpoint, start surrounded, goal surrounded, is reported |
| Visualizer.AstarVisualized | Visualizer.py:150-166 | a None step ends the run without a path, and that happens only when no free walk leads from start to the goal; a path found runs from start to the goal between adjacent cells through free cells; a run that reaches the step bound has painted exactly that many cells; the goal is never painted as expanded; start is expanded first |
| Visualizer.RunSteps | Visualizer.py:150-166 | the later steps: painted cells are only appended, at most one per step, and never include the goal; a run that reaches the step bound painted one cell per step; NoPath comes when the engine yields the None triple, so only when the goal is unreachable; a path found is the reconstructed path and runs from start to the goal through free cells |
| Visualizer.Visualize | Visualizer.py:73-86 | the search runs exactly when the guard passes, and a rejection reports the guard's reason; a search without a path means the goal is unreachable; a path found runs from start to the goal through free cells |
| ListSearch.SqDist | A-Star_Implementation.py:155 | the squared Euclidean distance is 0 iff the cells are equal |
| ListSearch.CrashPersists | A-Star_Implementation.py:125-137 | an IndexError in the neighbour loop ends the whole search |
| ListSearch.ScanCrashes | A-Star_Implementation.py:124-143 | the scan of the first n offsets raises IndexError iff one of them lands in range on a cell past the end of its own row; otherwise it keeps at most one cell per offset |
| ListSearch.ScanSound | A-Star_Implementation.py:125-143 | the children are exactly the adjacent walkable cells in offset order, and every recorded obstacle is an in-range non-zero neighbour |
| ListSearch.ScanNeighbours | A-Star_Implementation.py:124-143 | the child loop computes ScanUpTo over all eight offsets |
| ListSearch.MakeChild | A-Star_Implementation.py:140-156 | a child's parent is the expanded node, g = parent.g + 1, and f = g + squared distance to end |
| ListSearch.EnqueueAt | A-Star_Implementation.py:139-164 | the open list keeps its nodes in place, and after them the i-th child is made from the i-th walkable cell: one child per walkable cell, in order |
| ListSearch.EnqueueKeepsPositions | A-Star_Implementation.py:163-164 | appending children keeps every position already in the open list |
| ListSearch.AppendChildren | A-Star_Implementation.py:146-164 | every child is appended to the open list, in order, whatever the open and closed lists hold: the loop computes Enqueue |
| ListSearch.ChainShape | A-Star_Implementation.py:117-121 | the parent chain of a node has g + 1 positions, from the node to start, each adjacent to the next and walkable except start |
| ListSearch.NodePath | A-Star_Implementation.py:117-122 | the parent walk followed by path[::-1] is the reversed chain |
| ListSearch.PathShape | A-Star_Implementation.py:117-122 | the returned path runs from start to the node in g steps between adjacent walkable cells |
| ListSearch.FirstLeastIsLeast | A-Star_Implementation.py:103-108 | the selected node has a least f, and every node before it has a strictly larger f |
| ListSearch.SelectMin | A-Star_Implementation.py:103-108 | the strict-< scan returns the lowest index among the nodes of least f |
| ListSearch.PopCurrent | A-Star_Implementation.py:103-111 | that node leaves the open list and every other node stays, in order |
| ListSearch.ChildrenWellFormed | A-Star_Implementation.py:140-164 | children made from adjacent walkable cells of a well-formed node keep every open node well-formed: parent adjacent, g one more, h the squared distance |
| ListSearch.GoalPath | A-Star_Implementation.py:116-122 | on reaching the end, the returned path runs from start to end between adjacent walkable cells |
| ListSearch.Expand | A-Star_Implementation.py:123-164 | one expansion appends a child per walkable neighbour and records the blocked ones, keeping every open node well-formed; an IndexError in the scan propagates |
| ListSearch.IterationShape | A-Star_Implementation.py:100-164 | an iteration that goes on expanded a node other than end and records its position; one that stops either returned a path after recording end, or raised IndexError |
| ListSearch.IterationGrows | A-Star_Implementation.py:111-113 | an iteration that goes on records exactly one more expanded cell |
| ListSearch.IterationSkipsEnd | A-Star_Implementation.py:113-116 | an iteration that goes on does not record end |
| ListSearch.IterationFinds | A-Star_Implementation.py:116-122 | when the selected node sits on end, the iteration returns the reversed parent chain with end recorded last |
| ListSearch.IterationRaises | A-Star_Implementation.py:124-137 | when the neighbour scan raises, so does the iteration |
| ListSearch.IterationExpands | A-Star_Implementation.py:110-164 | otherwise the iteration goes on with the node popped, its children appended, its position expanded and the scan's obstacles recorded |
| ListSearch.ListRunEnds | A-Star_Implementation.py:100-165 | an empty open list ends in the error of the unassigned path; a spent iteration bound stops the run |
| ListSearch.ListRunStep | A-Star_Implementation.py:100-164 | with a non-empty open list and iterations left, the run is one iteration followed by the rest of the run |
| ListSearch.ListRunShort | A-Star_Implementation.py:100-113 | a run that ends in the error records at most one cell per iteration |
| ListSearch.ListRunFull | A-Star_Implementation.py:100-113 | a run that reaches the iteration bound records exactly one cell per iteration |
| ListSearch.ListRunMissesEnd | A-Star_Implementation.py:113-122 | a run that ends without a path never records end, unless it was recorded before |
| ListSearch.ListRunEndsAtEnd | A-Star_Implementation.py:113-122 | a run that returns a path recorded end last |
| ListSearch.IterationKeepsWellFormed | A-Star_Implementation.py:110-164 | an iteration keeps every open node well-formed, and a path it returns is a walkable path from start to end |
| ListSearch.IterationKeepsObstacles | A-Star_Implementation.py:131-137 | an iteration records only in-range non-zero cells as obstacles |
| ListSearch.ListRunFound | A-Star_Implementation.py:100-164 | from well-formed open nodes, a returned path is a walkable path from start to end |
| ListSearch.ListRunObstacles | A-Star_Implementation.py:131-137 | unless a read raised, every obstacle the run records is an in-range non-zero cell |
| ListSearch.ListRunPrefix | A-Star_Implementation.py:113 | unless a read raised, the cells expanded before the run stay a prefix of those it records |
| ListSearch.ListRunPicks | A-Star_Implementation.py:103-113 | unless a read raised, the next cell recorded is the one the selection scan picks |
| ListSearch.OffsetsReachNeighbours | A-Star_Implementation.py:125-128 | each of the eight adjacent cells is reached by one of the child loop's offsets |
| ListSearch.ChildForNeighbour | A-Star_Implementation.py:124-164 | a walkable neighbour of the expanded node gets a child node in the open list |
| ListSearch.ExpansionKeepsPending | A-Star_Implementation.py:110-164 | expanding the selected node keeps every walkable neighbour of an expanded cell expanded or in the open list |
| ListSearch.IterationKeepsPending | A-Star_Implementation.py:100-164 | an iteration that goes on keeps every walkable neighbour of an expanded cell expanded or in the open list |
| ListSearch.ListRunExhausts | A-Star_Implementation.py:100-165 | a run that ends in the error leaves the expanded cells closed under walkable neighbours |
| ListSearch.PathStaysExpanded | A-Star_Implementation.py:124-143 | a walkable path from an expanded start stays among expanded cells closed under walkable neighbours |
| ListSearch.ListRunFromRoot | A-Star_Implementation.py:81-165 | from the start node alone: a returned path is walkable from start to end and end was expanded last; unless a read raised, obstacles are real and start is expanded first; the error comes only after end was never expanded; one cell per iteration; [start] at once when start is end |
| ListSearch.ListRunNoPath | A-Star_Implementation.py:100-165 | the error of an exhausted open list comes only when no walkable path leads from start to end |
| ListSearch.MainLoop | A-Star_Implementation.py:100-164 | the while loop from the given lists computes the run the iteration function describes |
| ListSearch.ListAstar | A-Star_Implementation.py:81-165 | a returned path runs from start to end between adjacent walkable cells, and end is the last cell expanded; recorded obstacles are in-range non-zero cells; start is expanded first; the error of an exhausted open list comes only when end was never expanded and no walkable path leads from start to end; a run that reaches the iteration bound expanded one cell per iteration; when start is end the result is [start] at once |
| Settings.ValidateMazeSize | SettingsMenu.py:314-321 | accepts iff the converted size is positive, and returns it unchanged |
| Settings.ValidateObstacleDensity | SettingsMenu.py:330-337 | accepts iff 0 ≤ d ≤ 1, both bounds inclusive |
| Settings.PointInRange | SettingsMenu.py:353-355 | true iff both coordinates lie in [0, size); the chained comparison raises on a missing size or coordinate only when evaluation reaches it |
| Settings.ValidateStartEndPoints | SettingsMenu.py:349-364 | points pass iff both convert, both are in range and they differ; start is checked before end, and equality only after both bounds |
| Settings.AcceptedPointsFitTheGrid | SettingsMenu.py:353-359 | accepted points imply a valid size and two distinct cells inside the size × size grid |
| Settings.DefaultPointsAccepted | SettingsMenu.py:375-377 | the default endpoints (0, 0) and (9, 9) pass for the default size 10 |
| Settings.ValidateInputs | SettingsMenu.py:287-305 | the result is the conjunction of the size check, the density check (only for a random maze) and the point check; it raises exactly when the point check does |
| Settings.RefusedSizeRaises | SettingsMenu.py:290-301 | a refused size makes the point check raise for any start with a non-negative first coordinate |
| Settings.ValidateInputsIntended | SettingsMenu.py:287-305 | the same conjunction, which never raises |
| Settings.Zeros | SettingsMenu.py:115 | n rows of n zeros |
| Settings.Buttons | SettingsMenu.py:106-113 | one button key per cell of the n × n grid |
| Settings.SetCellKeepsGrid | SettingsMenu.py:129-134 | writing 0 or 1 keeps the grid square and 0/1, stores the value, and leaves every other cell unchanged |
| Settings.SetCell | SettingsMenu.py:129-134 | the grid keeps its shape, the chosen cell holds the new value and every other cell is unchanged |
| Settings.SettingsMenu.constructor | SettingsMenu.py:37 | the grid starts empty |
| Settings.SettingsMenu.InsertMaze | SettingsMenu.py:93-115 | the buttons are dropped; a refused size keeps the old grid; an accepted size gives a button per cell and a size × size grid of zeros |
| Settings.SettingsMenu.UpdateMazeCell | SettingsMenu.py:125-134 | a toggled cell becomes 1 when checked and 0 otherwise, with every other cell unchanged; a cell without a button raises KeyError |
| Settings.InsertedMazeIsSearchable | SettingsMenu.py:115 | a fresh grid is rectangular, 0/1, and free everywhere in bounds |
| Application.SelectHeuristic | AstarApplication.py:69 | euclidean iff the setting is exactly "euclidean"; octile for any other or missing value |
| Application.OctileSettingPicksOctile | AstarApplication.py:69 | the dialog's "octile" choice selects octile |
| Application.StepCostOf | AstarApplication.py:133 | octile gives a valid step cost for the search; euclidean is not modelled |
| Application.AStarApplication.constructor | AstarApplication.py:21-38 | predefined settings with bypass are applied at once; otherwise the heuristic is octile with no grid or endpoints, the state before the settings dialog can apply anything |
| Application.AStarApplication.HandleUpdatedSettings | AstarApplication.py:62-70 | the grid, the endpoints and the selected heuristic are taken from the settings, which are marked applied |
| Application.AStarApplication.OnVisualizationComplete | AstarApplication.py:74-78 | the applied flag is cleared and nothing else changes |

## Left out

- **Euclidean distance.** `euclidean_distance` uses a square root on floats. `Application.StepCostOf` gives no step cost for it, and the engines take any step cost of at least one whole step between adjacent cells.
- **Floating point.** Scores are exact half-step integers, and densities are exact reals. A NaN density, which `float()` accepts and both comparisons let through, is not represented.
- **Rendering and dialogs.** Colours, `prepare_color_maze`, `update_cell`, `draw_path`, message boxes, timers, `sys.exit`, `visualize_astar`, `visualize_maze`, the colour pickers and the dialog layout are I/O.
- **Launch scripts.** `main.py` and `RunForData.py` are not part of this model.
- **Random mazes.** Every `generate_maze` copy depends on `random.uniform`. So does `MazeSetter`'s random branch.
- **Text parsing.** `int()`/`float()` on the line-edit texts is taken as already done: `None` stands for a ValueError.
- **Logging and prints.** `setup_logging` and every `print`.
- **Generator containers.** The generator hands its live containers to the caller. Each step here returns only the yielded cell, and the containers are fields of the engine.
- **Heap layout.** The heap array's arrangement is not modelled. The heap is a list whose pop removes the lexicographic minimum, as heapq's does.
- **PriorityQueue locking.** The queue is a plain list with the same pop.
- HeapSearch.Engine.Step: optimality of the path found is not proved. The model proves that the path is a free walk from start whose cost is at most the recorded g, that every yielded cell is reachable, and that the None triple comes only when the goal is unreachable.
- QueueSearch.QueueEngine.Step: optimality is not proved. Here it would need more than for the heap search: an improved cell already in `open_set_hash` is not pushed again and keeps its stale priority (A_Star_Implementation.py:48-50), so cells need not leave the queue in order of their current f. The model proves the same walk, reachability and completeness facts as for the heap search.
- Visualizer.AstarVisualized: termination of the search is not proved, so `fuel` bounds the loop. A run that reaches the bound ends with `OutOfFuel` after exactly `fuel` painted cells. The steps before it are the source's own.
- ListSearch.ListAstar: takes at most `fuel` iterations, ending with `OutOfFuel`. The source may loop for ever, because children are re-appended without any duplicate check.
- **The list search's closed list.** It is kept only as `expanded`, the positions popped. The closed-list and open-list loops have no effect, and the model omits them.
- **List-search nodes.** They are values. `g`, `h` and `f`, which the source assigns after construction, are given when the node is built.
- PathReconstruction.ReconstructPath: requires a rank that strictly drops along the links. On a cyclic `came_from` the source loops for ever.
- HeapSearch.Engine.constructor: requires a rectangular grid with a first row, as both searches read `len(matrix[0])`. Ragged rows are not modelled for the heap and queue searches or the surrounded check; the source's grids are square.
- **Settings-dialog side effects.** `useDefaultSettings`, `saveSettings` and the heuristic combo box only assemble and emit a settings dictionary. Of them, the model keeps the default values and the heuristic selection.
- **Application side effects.** `open_settings_menu`, `start_visualization` and `on_settings_menu_closed` open windows or exit.

## Findings

| source | as written | input that shows it | evidently intended | confidence | as-written member | corrected member |
|---|---|---|---|---|---|---|
| SettingsMenu.py:290-303 | a refused maze size is passed on as `None` to the point check, whose chained comparison `0 <= x < None` raises TypeError; the exception escapes `validateInputs` instead of it returning False | maze size 0, start point 0,0, end point 1,1 | report the bad size and return False without raising | medium, not executed | Settings.RefusedSizeRaises | Settings.ValidateInputsIntended |
