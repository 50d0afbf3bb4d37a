# Procedural dungeon generator: a verified model of its core

This project models the part of a Unity procedural dungeon generator
that decides the layout of a dungeon. The same pipeline exists as a 2D
and a 3D generator:

1. Rooms are drawn at random and placed on a grid of cells. A candidate
   is rejected when it leaves the grid or when an earlier room meets the
   candidate grown by one cell on each side. In 3D the margin is only
   horizontal, so rooms may sit directly on top of each other.
2. The room centres are triangulated. The hallway edges are Prim's
   spanning tree of that triangulation, plus each other edge whose
   random draw is below the loop rate.
3. Each selected edge gets a path from an A* search. The path is carved
   into the grid:
   - empty cells become hallway;
   - a room cell next to a hallway cell becomes a door;
   - in 3D, a room cell next to a stairway cell also becomes a door;
   - in 3D, each change of level stamps a four-cell staircase.
   The hallway cells on the path, the doors and the staircases are
   recorded in lists.

The project is built from these modules:

- `Prim` (`prim.dfy`) covers:
  - the undirected identity of an edge: its `==`, `!=`, `Equals` and `GetHashCode`;
  - Prim's algorithm as a method.
  Lemmas about that method show:
  - the tree has one more vertex than it has edges;
  - every tree vertex is reachable from the start along tree edges;
  - when the graph is connected, the tree spans it.
- `EdgeSelection` (`edge_selection.dfy`) covers the hallway-edge selection both generators share. A hash set of edges is modelled as a list without two equal edges, in insertion order.
- `Generator2D` and `Generator3D` (`generator2d.dfy`, `generator3d.dfy`) each hold a `Generator` class. The class owns:
  - the grid as an `array2` or `array3`;
  - the fields the source's methods update: rooms, selected edges, hallway pieces and, in 3D, stairway pieces and doors.
  The methods are proved against functions over the grid as a value (a sequence of columns in 2D, a map from position to cell type in 3D). The lemmas state what carving promises:
  - cells only change in the allowed ways;
  - every cell of a carved path stays non-empty;
  - every staircase stands;
  - each door record names a former room cell beside a hallway or staircase on its path;
  - cells no path touches are unchanged.
- `Wrappers` (`wrappers.dfy`) is an `Option` type.

Random draws are inputs: the candidate rooms, and one number per
remaining edge for the loop decision. The paths the A* search returns
are inputs too, one `Option` per selected edge. The cost callback handed
to the search is modelled as a function of the grid.

Rooms may sit one cell closer than a buffer-against-buffer test would
allow: the code tests each existing room against the buffered candidate
only. The model follows the code (`Accepts`, `BufferSeparates`).

## Model

| member | source | states |
|---|---|---|
| Prim.SameEdgeIffSameEndpoints | Assets/Prim.cs:14-30 | two edges are `==` exactly when their endpoint sets are equal |
| Prim.EqualityIgnoresOrder | Assets/Prim.cs:29-46 | an edge equals its reversal whatever the weights, both by `==` and by `Equals(object)` |
| Prim.EqualityIsEquivalence | Assets/Prim.cs:14-34 | `==` with its null cases is reflexive, symmetric and transitive, and `!=` is its negation |
| Prim.EqualEdgesHashEqually | Assets/Prim.cs:48-50 | equal edges have equal hash codes (XOR of the endpoint hashes), so the hash agrees with `Equals` |
| Prim.EndpointsAppend | Assets/Prim.cs:60-64 | the vertex set of `edges + [e]` is that of `edges` plus both endpoints of `e` |
| Prim.EndpointsContain | Assets/Prim.cs:60-64 | both endpoints of every edge are in the collected vertex set |
| Prim.EndpointsOnly | Assets/Prim.cs:60-64 | every collected vertex is an endpoint of some edge |
| Prim.CollectVertices | Assets/Prim.cs:56-64 | the loop collects exactly the endpoints of all edges |
| Prim.LightestCrossingEdge | Assets/Prim.cs:74-91 | when an edge is found, it has exactly one closed endpoint and is the first lightest such edge; when none is found, no edge crosses the closed set |
| Prim.MinimumSpanningTree | Assets/Prim.cs:54-121 | the result is a Prim run from `start`, and its vertices lie within the graph's. Either every vertex is reached, or no edge leaves the tree (the disconnected case that breaks out of the loop) |
| Prim.PassPreservesInvariant | Assets/Prim.cs:99-112 | adding the chosen edge moves exactly its open endpoint from the open set to the closed set and keeps the loop invariant |
| Prim.PassExit | Assets/Prim.cs:72-97 | when the loop stops, the tree either covers every vertex or has no crossing edge |
| Prim.PrimRunExtend | Assets/Prim.cs:85-100 | appending the first lightest crossing edge extends a Prim run |
| Prim.PrimRunPrefix | Assets/Prim.cs:72-113 | every prefix of a Prim run is a Prim run |
| Prim.PrimRunSteps | Assets/Prim.cs:72-113 | the k-th tree edge is the first lightest edge crossing the tree built before it |
| Prim.AddCrossingEdge | Assets/Prim.cs:102-112 | a crossing edge adds exactly one new vertex, its open endpoint |
| Prim.TreeSize | Assets/Prim.cs:72-113 | a tree of n edges has n + 1 vertices, so it has no cycle |
| Prim.TreeConnected | Assets/Prim.cs:99-112 | every tree vertex is joined to the start by a walk along tree edges |
| Prim.WalkStaysClosed | Assets/Prim.cs:93-97 | with no crossing edge, no walk leaves the closed set |
| Prim.SpanningWhenConnected | Assets/Prim.cs:54-121 | when every vertex is reachable from the start, the result spans all vertices and has one edge fewer than there are vertices |
| EdgeSelection.AddMembers | Assets/Scripts2D/Generator2D.cs:178-182 | `HashSet.Add` holds the old members plus the new edge and never holds two equal edges |
| EdgeSelection.FromListContains | Assets/Scripts2D/Generator2D.cs:174-175 | a hash set built from a list contains exactly the list's edges, up to edge equality |
| EdgeSelection.FromListShape | Assets/Scripts2D/Generator2D.cs:174-175 | that set has no duplicates, takes its elements from the list, and is no longer than the list |
| EdgeSelection.ExceptWithContains | Assets/Scripts2D/Generator2D.cs:176 | `ExceptWith` keeps exactly the members not in the other set |
| EdgeSelection.ExceptWithShape | Assets/Scripts2D/Generator2D.cs:176 | `ExceptWith` keeps a set duplicate-free and only removes elements |
| EdgeSelection.RemainingBounded | Assets/Scripts2D/Generator2D.cs:175-176 | the remaining edges are distinct input edges, no more than there are input edges |
| EdgeSelection.RemainingContains | Assets/Scripts2D/Generator2D.cs:175-176 | an edge remains exactly when it is an input edge and not a tree edge |
| EdgeSelection.RemainingOutsideTree | Assets/Scripts2D/Generator2D.cs:174-176 | no remaining edge is in the tree's set |
| EdgeSelection.AdmittedOnly | Assets/Scripts2D/Generator2D.cs:178-182 | every admitted edge is a remaining edge whose draw is below the loop rate |
| EdgeSelection.AdmittedAll | Assets/Scripts2D/Generator2D.cs:178-182 | every remaining edge whose draw is below the loop rate is admitted |
| EdgeSelection.AdmittedOrder | Assets/Scripts2D/Generator2D.cs:178-182 | admitted edges keep the order in which the remaining set enumerates them |
| EdgeSelection.NotYetSelected | Assets/Scripts2D/Generator2D.cs:178-182 | `selectedEdges.Add` of a remaining edge always appends it, because it is not yet selected |
| EdgeSelection.AddLoopEdges | Assets/Scripts2D/Generator2D.cs:178-182 | the loop leaves the tree's set followed by exactly the admitted remaining edges |
| EdgeSelection.SelectEdges | Assets/Scripts2D/Generator2D.cs:165-183 | the tree is the whole Prim run from the first edge's `u`: it reaches every vertex, or no edge leaves it. The result is the tree's set followed by the admitted remaining edges. It holds only input edges, no two of them equal |
| EdgeSelection.SelectionContainsTree | Assets/Scripts2D/Generator2D.cs:172-174 | every spanning-tree edge is selected |
| EdgeSelection.SelectionWithinEdges | Assets/Scripts2D/Generator2D.cs:172-182 | every selected edge is an input edge |
| EdgeSelection.SelectionDistinct | Assets/Scripts2D/Generator2D.cs:174-182 | no two selected edges are equal |
| EdgeSelection.NonTreeEdgeSelectedIff | Assets/Scripts3D/Generator3D.cs:217-226 | a non-tree edge is selected exactly when the draw at its place in the remaining set is below the loop rate |
| Generator2D.IntersectIffSharedCell | Assets/Scripts2D/Generator2D.cs:24-27 | two non-empty rooms intersect exactly when they share a cell, and intersection is symmetric |
| Generator2D.BufferSeparates | Assets/Scripts2D/Generator2D.cs:132-139 | a room that misses a candidate's buffer is at least two cells away from it on some axis |
| Generator2D.BufferSymmetric | Assets/Scripts2D/Generator2D.cs:132-139 | a meets b's buffer exactly when b meets a's buffer |
| Generator2D.PlaceAllProperties | Assets/Scripts2D/Generator2D.cs:118-153 | the placed rooms are candidates inside the grid, no more than the candidates, and all rooms stay pairwise separated |
| Generator2D.SeparatedRoomsApart | Assets/Scripts2D/Generator2D.cs:118-153 | cells of two different placed rooms are at least two apart on some axis |
| Generator2D.InAnyAppend | Assets/Scripts2D/Generator2D.cs:146-150 | a cell is in some room of `rooms + [r]` exactly when it is in some room of `rooms` or in `r` |
| Generator2D.StepCost | Assets/Scripts2D/Generator2D.cs:200-221 | every move is traversable and costs the heuristic plus 0 to 10 |
| Generator2D.StepCostOrder | Assets/Scripts2D/Generator2D.cs:203-216 | door < hallway < empty < room in cost, a room adding 10 |
| Generator2D.GetNeighbors | Assets/Scripts2D/Generator2D.cs:311-320 | four neighbours, exactly the cells one step away along an axis |
| Generator2D.CarveColumnsAt | Assets/Scripts2D/Generator2D.cs:225-258 | every carved column holds the closed-form value of each of its cells |
| Generator2D.CarveGridAt | Assets/Scripts2D/Generator2D.cs:225-258 | the carved grid holds, at each cell, the closed-form result of carving the whole path |
| Generator2D.CarvedHallwayIff | Assets/Scripts2D/Generator2D.cs:230-233 | a path cell ends up a hallway exactly when it was empty or a hallway |
| Generator2D.CarveChanges | Assets/Scripts2D/Generator2D.cs:225-258 | an empty path cell becomes a hallway and a room never does. Cells off the path are unchanged. The only changes are empty to hallway and room to door |
| Generator2D.CarveLeavesNoRoomBesideHallway | Assets/Scripts2D/Generator2D.cs:236-252 | after carving, no two consecutive path cells are a room and a hallway |
| Generator2D.CarvedDoorsFaceHallways | Assets/Scripts2D/Generator2D.cs:243-251 | every room cell made a door is next, along the path, to a cell that ends up a hallway |
| Generator2D.CarvePreservesOpen | Assets/Scripts2D/Generator2D.cs:225-258 | a path cell is open (empty or hallway) after carving exactly when it was open before |
| Generator2D.CarveIdempotent | Assets/Scripts2D/Generator2D.cs:225-258 | carving the same path a second time changes nothing |
| Generator2D.CarveStep | Assets/Scripts2D/Generator2D.cs:228-252 | one loop iteration in closed form: the hallway write, then the two door rules in their order |
| Generator2D.CarvedHallwayCells | Assets/Scripts2D/Generator2D.cs:261-268 | a cell is recorded exactly when it is on the path and was open before carving |
| Generator2D.HallwayCellsAreHallways | Assets/Scripts2D/Generator2D.cs:261-268 | every recorded piece is a hallway on the grid it was read from |
| Generator2D.CarveKeepsHallway | Assets/Scripts2D/Generator2D.cs:225-258 | carving never changes a hallway cell |
| Generator2D.CarveKeepsHallways | Assets/Scripts2D/Generator2D.cs:225-258 | hallway pieces recorded earlier stay hallways when another path is carved |
| Generator2D.AppendHallwayCells | Assets/Scripts2D/Generator2D.cs:261-268 | appending a path's recorded cells keeps every recorded piece a hallway |
| Generator2D.RecordedAreHallways | Assets/Scripts2D/Generator2D.cs:189-271 | after all paths, every piece recorded by them is a hallway on the final grid |
| Generator2D.CarveAllStep | Assets/Scripts2D/Generator2D.cs:189-258 | a missing path leaves the grid alone, and a found one is carved into the grid left by the earlier ones |
| Generator2D.RecordedStep | Assets/Scripts2D/Generator2D.cs:223-268 | a found path appends its hallway cells, read after its carving |
| Generator2D.Generator.constructor | Assets/Scripts2D/Generator2D.cs:73-85 | an all-empty grid of the configured size, no rooms, empty lists, and a loop rate of 0.125 when the configured one is not positive |
| Generator2D.Generator.BufferClear | Assets/Scripts2D/Generator2D.cs:134-139 | the answer is true exactly when no placed room meets the buffer |
| Generator2D.Generator.StampRoom | Assets/Scripts2D/Generator2D.cs:148-150 | exactly the room's cells become Room |
| Generator2D.Generator.GenerateRooms | Assets/Scripts2D/Generator2D.cs:118-153 | the rooms are the old ones plus the candidates `PlaceAll` accepts. Exactly their cells become Room, and the other fields are unchanged |
| Generator2D.Generator.GenerateHallways | Assets/Scripts2D/Generator2D.cs:165-183 | `selectedEdges` is the selection over the whole Prim run from the first edge's `u`, which reaches every vertex or has no edge leaving it. The other fields are unchanged |
| Generator2D.Generator.CarvePath | Assets/Scripts2D/Generator2D.cs:225-258 | the grid becomes the carving of the path into the old grid |
| Generator2D.Generator.RecordHallways | Assets/Scripts2D/Generator2D.cs:261-268 | `hallwayPieces` gains exactly the path's hallway cells, in path order |
| Generator2D.Generator.PathfindStep | Assets/Scripts2D/Generator2D.cs:189-270 | handling one more selected edge keeps grid and list equal to the fold over the edges handled so far |
| Generator2D.Generator.PathfindHallways | Assets/Scripts2D/Generator2D.cs:185-272 | the grid and `hallwayPieces` are the fold over all paths, and every newly recorded piece is a hallway on the final grid |
| Generator2D.Generator.IsDoorwayCells | Assets/Scripts2D/Generator2D.cs:437-442 | `isDoorway` holds exactly when the first cell is a door and the second is on the grid and a hallway |
| Generator2D.Generator.CarvedDoorsAreDoorways | Assets/Scripts2D/Generator2D.cs:437-442 | right after a path is carved, `isDoorway` holds for each door it made and its hallway neighbour on the path; the returned index `i` places the two at positions `i - 1` and `i` of the path |
| Generator2D.CarveKeepsDoor | Assets/Scripts2D/Generator2D.cs:225-258 | carving never changes a door cell |
| Generator2D.CarveAllKeepsDoorway | Assets/Scripts2D/Generator2D.cs:189-271 | a door beside a hallway stays so while the later paths are carved |
| Generator2D.Generator.FinalDoorsAreDoorways | Assets/Scripts2D/Generator2D.cs:437-442 | on the final grid, after all paths, `isDoorway` holds for each door any path made and its hallway neighbour on that path; the returned index `i` places the two at positions `i - 1` and `i` of that path |
| Generator3D.IntersectIffSharedCell | Assets/Scripts3D/Generator3D.cs:37-42 | two non-empty boxes intersect exactly when they share a cell, and intersection is symmetric |
| Generator3D.BufferSeparates | Assets/Scripts3D/Generator3D.cs:153-162 | a room that misses a candidate's buffer is two cells away on x or z, or on another level |
| Generator3D.StackedRoomsPass | Assets/Scripts3D/Generator3D.cs:153-162 | any two rooms on disjoint ranges of levels pass the buffer test both ways, whatever their x/z overlap, since the buffer has no vertical margin |
| Generator3D.BufferSymmetric | Assets/Scripts3D/Generator3D.cs:153-162 | a meets b's buffer exactly when b meets a's buffer |
| Generator3D.PlaceAllProperties | Assets/Scripts3D/Generator3D.cs:135-181 | the placed rooms are candidates inside the grid, no more than the candidates, and all rooms stay pairwise separated |
| Generator3D.SeparatedRoomsApart | Assets/Scripts3D/Generator3D.cs:135-181 | cells of two different placed rooms are two apart on x or z, or on different levels |
| Generator3D.InAnyAppend | Assets/Scripts3D/Generator3D.cs:171-180 | a cell is in some room of `rooms + [r]` exactly when it is in some room of `rooms` or in `r` |
| Generator3D.FlatCost | Assets/Scripts3D/Generator3D.cs:250-270 | a move on one level is never a staircase, is traversable exactly when the target is not a stairway, and costs the heuristic plus 0 to 5 |
| Generator3D.FlatCostOrder | Assets/Scripts3D/Generator3D.cs:254-267 | hallway = door < empty < room in cost |
| Generator3D.Clamp | Assets/Scripts3D/Generator3D.cs:283-284 | `Mathf.Clamp(v, -1, 1)`: the sign of `v`, or `v` itself in range |
| Generator3D.StairCost | Assets/Scripts3D/Generator3D.cs:275-304 | a staircase is traversable exactly when both ends are open, the cells above and beside are on the grid and the whole footprint is empty. It costs 100 over the heuristic once both ends are open |
| Generator3D.MoveCost | Assets/Scripts3D/Generator3D.cs:244-310 | only level changes are staircases. A flat move is blocked only by a stairway. A traversable staircase has an empty footprint and costs 100 over the heuristic |
| Generator3D.GetNeighbors | Assets/Scripts3D/Generator3D.cs:433-442 | four neighbours, exactly the cells one step away along x or z on the same level |
| Generator3D.CarvableStepIn | Assets/Scripts3D/Generator3D.cs:314-372 | on a carvable path, every iteration reads and writes only cells on the grid |
| Generator3D.GrowsTransitive | Assets/Scripts3D/Generator3D.cs:318-369 | the allowed cell changes compose |
| Generator3D.OpenCellSpec | Assets/Scripts3D/Generator3D.cs:318-321 | the path cell becomes non-empty by an allowed change, and every other cell is unchanged |
| Generator3D.DoorAt | Assets/Scripts3D/Generator3D.cs:329-355 | a door is recorded exactly when one of the two cells is a room and the other a hallway or stairway. The record names the room as the door and the other cell as its hallway |
| Generator3D.StairCellsSpec | Assets/Scripts3D/Generator3D.cs:359-369 | exactly the four footprint cells become stairway |
| Generator3D.StepPhases | Assets/Scripts3D/Generator3D.cs:316-372 | one iteration is the hallway write, then the door rule on the updated grid, then the staircase stamp on a level change |
| Generator3D.StepCellsSpec | Assets/Scripts3D/Generator3D.cs:316-372 | one iteration changes cells only in the allowed ways and leaves the path cell non-empty |
| Generator3D.StepBuildsStairs | Assets/Scripts3D/Generator3D.cs:359-369 | after an iteration that changes level, its four footprint cells are stairway |
| Generator3D.StepCellsFrameAt | Assets/Scripts3D/Generator3D.cs:316-372 | an iteration changes no cell other than the current and previous path cells and the footprint |
| Generator3D.StepDoorsSpec | Assets/Scripts3D/Generator3D.cs:329-355 | an iteration records at most one door. It was a room cell and is now a door, or a later stamp made it stairway. It joins the iteration's two path cells |
| Generator3D.StairPiecesAtLevelChanges | Assets/Scripts3D/Generator3D.cs:359-370 | every recorded stair piece starts at a level change of the path and has that step's direction |
| Generator3D.HallwayCellsSpec | Assets/Scripts3D/Generator3D.cs:378-385 | a cell is recorded exactly when it is on the path and a hallway on the grid |
| Generator3D.CarveRunLists | Assets/Scripts3D/Generator3D.cs:314-376 | carving a path appends one stair piece per level change and leaves `hallwayPieces` alone |
| Generator3D.CarveRunGrows | Assets/Scripts3D/Generator3D.cs:314-376 | carving a path changes cells only in the allowed ways |
| Generator3D.CarveRunOpens | Assets/Scripts3D/Generator3D.cs:314-376 | every carved path cell is non-empty afterwards |
| Generator3D.CarveRunStairs | Assets/Scripts3D/Generator3D.cs:359-372 | every staircase the path built still stands when the path is done |
| Generator3D.CarveRunFrame | Assets/Scripts3D/Generator3D.cs:314-376 | cells no iteration touches are unchanged |
| Generator3D.CarveRunDoors | Assets/Scripts3D/Generator3D.cs:329-355 | the old door records stay a prefix. Each new one names a former room cell, now a door or a stairway, joined to its neighbour on the path |
| Generator3D.GrowsKeepsStairs | Assets/Scripts3D/Generator3D.cs:318-369 | a staircase once built is never overwritten |
| Generator3D.KeepsTransitive | Assets/Scripts3D/Generator3D.cs:233-391 | the promises about the grid and the three lists carry over from one handled edge to the next |
| Generator3D.HandleCells | Assets/Scripts3D/Generator3D.cs:312-376 | a found path is carved (cells non-empty, staircases standing) and leaves untouched cells alone |
| Generator3D.PathStairsStand | Assets/Scripts3D/Generator3D.cs:359-370 | every stair piece a path records has its four cells stairway when the path is done |
| Generator3D.HandleKeeps | Assets/Scripts3D/Generator3D.cs:312-390 | one edge keeps all promises, appends its stair pieces and its hallway cells (read after carving), and records doors only on its path |
| Generator3D.HandleAllKeeps | Assets/Scripts3D/Generator3D.cs:233-391 | after all edges: cells changed only as allowed, lists only appended to, every recorded door, stair piece and hallway piece still true of the grid, every found path carved, untouched cells unchanged |
| Generator3D.Generator.constructor | Assets/Scripts3D/Generator3D.cs:94-108 | an all-empty grid of the configured size, no rooms, empty lists, and a loop rate of 0.125 when the configured one is not positive |
| Generator3D.Generator.BufferClear | Assets/Scripts3D/Generator3D.cs:155-162 | the answer is true exactly when no placed room meets the buffer |
| Generator3D.Generator.StampRoom | Assets/Scripts3D/Generator3D.cs:176-179 | exactly the room's cells become Room |
| Generator3D.Generator.TryRoom | Assets/Scripts3D/Generator3D.cs:151-180 | a candidate is added exactly when it is clear of the placed rooms and inside the grid, and then exactly its cells become Room |
| Generator3D.Generator.GenerateRooms | Assets/Scripts3D/Generator3D.cs:135-181 | the rooms are the old ones plus the candidates `PlaceAll` accepts. Exactly their cells become Room, and the other fields are unchanged |
| Generator3D.Generator.GenerateHallways | Assets/Scripts3D/Generator3D.cs:203-227 | `selectedEdges` is the selection over the whole Prim run from the first edge's `u`, which reaches every vertex or has no edge leaving it. The other fields are unchanged |
| Generator3D.Generator.OpenAt | Assets/Scripts3D/Generator3D.cs:318-321 | the grid becomes the grid with the path cell opened |
| Generator3D.Generator.PlaceDoor | Assets/Scripts3D/Generator3D.cs:329-355 | the door rule's cell becomes a door and its record is appended to `doors`, or nothing changes |
| Generator3D.Generator.StampStairs | Assets/Scripts3D/Generator3D.cs:366-369 | the four footprint cells become stairway |
| Generator3D.Generator.PlaceStairs | Assets/Scripts3D/Generator3D.cs:359-371 | the footprint is stamped and the piece (direction, start cell) is appended to `stairwayPieces` |
| Generator3D.Generator.CarveCell | Assets/Scripts3D/Generator3D.cs:316-372 | one loop iteration moves grid, doors and stair pieces as the step function says |
| Generator3D.Generator.CarvePath | Assets/Scripts3D/Generator3D.cs:314-376 | the grid, doors and stair pieces become the carving of the whole path |
| Generator3D.Generator.RecordHallways | Assets/Scripts3D/Generator3D.cs:378-385 | `hallwayPieces` gains exactly the path's hallway cells, in path order |
| Generator3D.Generator.PathfindStep | Assets/Scripts3D/Generator3D.cs:233-391 | handling one more selected edge keeps the state equal to the fold over the edges handled so far |
| Generator3D.Generator.PathfindHallways | Assets/Scripts3D/Generator3D.cs:229-392 | the state is the fold over all paths, with every promise of `HandleAllKeeps`: cells change only as allowed, and every recorded door, stair piece and hallway piece holds. Found paths are carved, untouched cells are unchanged, and rooms and edges stay the same |
| Generator3D.Generator.IsDoorwayCells | Assets/Scripts3D/Generator3D.cs:557-563 | `isDoorway` holds exactly when both cells are on the grid, the first a door and the second a hallway |

## Left out

- Unity scene building is not modelled: prefab instantiation, wall and mesh construction, the player's start position and the depth-first hallway grouping. They draw the layout rather than decide it.
- The Delaunay triangulation is not part of this model. The generators take its edges as input.
- The A* path finder is not part of this model. Its answers are inputs, one optional path per selected edge; the model proves what happens for any such path. The cost callback it is given is modelled (`StepCost`, `MoveCost`).
- Random numbers, the seed and its reporting are inputs.
- The 3D restart when no room was placed is not modelled. `GenerateRooms` calls `Start` from inside itself (Generator3D.cs:183-187). The nested run allocates a new grid and room list and runs the whole pipeline, scene building included. When it returns, the outer run goes on: it triangulates, selects edges and carves paths a second time, on the nested run's rooms and already-carved grid (124-126). Then it builds the scene again (111). The hallway, stairway and door lists are never cleared, so the second pass appends to what the first filled. The model describes one pass.
- Logging and debug drawing are not modelled.
- Distances are floats in the source. Here the edge weight and the heuristic are natural numbers, and only their order matters.
- Prim.MinimumSpanningTree: the model proves Prim's selection rule at each step and the spanning and tree properties. It does not prove that the total weight is minimal over all spanning trees.
- EdgeSelection: `HashSet` enumeration order is unspecified in .NET. The model fixes it to insertion order.
- EdgeSelection.SelectEdges: requires a non-empty edge list, because the source reads `edges[0]` and would throw on an empty one.
- Generator2D.Generator.IsDoorway: requires the door cell on the grid, because the source indexes it before any bounds check.
- Generator3D.Generator.IsDoorwayCells: requires the cells' heights on the grid, because the source bounds-checks only x and z before indexing.
- Generator3D.StairCost: requires the cells the staircase test reads without a bounds check (`a + 2h`, `a + v + 2h`) to be on the grid when they are read.
- Generator3D.Generator.PathfindHallways: requires each path's staircase footprints on the grid, because the carving stamps them without a bounds check.
- Generator2D.Generator.PathfindHallways: requires each path on the grid, as the path finder returns it.
- Generator3D.Generator.GenerateRooms: requires non-empty candidates, which the source guarantees by drawing sizes from 1 up.
- Generator2D.Generator.GenerateRooms: the same requirement as in 3D.
- `stairwayPieces` records its direction as a float vector in the source. Here it is the integer sum of the vertical and horizontal offsets, which is the same value.
- Generator3D.CarveRunOpens: states that path cells are non-empty rather than hallway. A later staircase may overwrite a hallway, so non-empty is all the source guarantees.
