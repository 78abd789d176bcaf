# Sprite path-finding: a verified model

This project models the path-finding block of a MakeCode Arcade extension
(`main.ts`). The block lets one sprite track another. Every tick, the follower:

- snapshots the tile map's obstacles as a column-major `boolean[][]`;
- lays a grid of search nodes over that snapshot;
- runs A* from its own tile to the target sprite's tile. The search is 4-connected, every step costs 1, and the heuristic is the Manhattan distance;
- sets its velocity towards the first tile of the walk found, or stops when there is none.

The model keeps the source's shape:

- **Imperative code becomes methods.** `createObstacleMap`, `createGrid`, the search loop, its selection scan, its neighbour loop and the tick are methods with loops and invariants.
- **The search grid is a class.** `SearchGrid` holds the `Node[][]` the search updates in place, as a field of type `seq<seq<Node>>`.
- **Pure code becomes functions.** `manhattanDistance`, `getNeighbors` and `removeElement` are functions.

The properties are proved against a reference definition of walks over the obstacle map (`Paths`):

- the search returns a shortest walk when one exists;
- it returns the empty list exactly when the target is the start or cannot be reached;
- the tick sends the follower along the first step of such a walk.

The search's loop invariant (`PathFinder.SearchInv`) has these parts:

- every node sits at its own position;
- `f = g + h`, and `h` is the Manhattan distance once a node has been visited;
- parent links strictly lower `g` and lead to the start;
- every passable neighbour of a closed node is closed or on the open list, at most one step dearer;
- closed nodes carry optimal `g` values.

Termination is measured by the set of tiles not yet closed.

Modules, one per file:

- `Tiles`: coordinates, the `>> 4` tile conversion, and the Manhattan distance.
- `ObstacleMaps`: the tile map interface, and `createObstacleMap`.
- `Paths`: walks, reachability and shortest walks, used as the specification.
- `SearchGrids`: the node type, the grid class, `createGrid`, and `getNeighbors`.
- `PathFinder`: `aStar`, its invariant, and the lemmas that keep it.
- `Tracker`: the sprite and one tick of `spriteTrackTargetSprite`.

## Model

| member | source | states |
|---|---|---|
| Tiles.TileOf | main.ts:16-23 | the tile of a pixel coordinate `p` is the `t` with `16*t <= p < 16*t+16` (the `>> 4` shift) |
| Tiles.ManhattanDistance | main.ts:201-203 | the distance is a natural number, zero exactly when the two tiles are the same |
| Tiles.ManhattanTriangle | main.ts:201-203 | the Manhattan heuristic obeys the triangle inequality, so it is consistent for unit steps |
| Paths.PathLengthBound | main.ts:165 | no walk is shorter than the Manhattan distance between its ends, so the heuristic stored in `h` is admissible |
| Paths.Reversed | main.ts:145 | `reverse()` yields a list of the same length with element `i` taken from position `n-1-i` |
| ObstacleMaps.CreateObstacleMap | main.ts:68-83 | the map has `areaWidth>>4` columns of `areaHeight>>4` entries; each entry is the tile map's `isObstacle` answer; every tile is queried exactly once |
| ObstacleMaps.SnapshotOfCreated | main.ts:68-83 | the map built equals the tile map's obstacle snapshot as a value |
| SearchGrids.CreateGrid | main.ts:102-122 | a fresh grid with one node per map entry: the entry becomes the wall flag; the node is at its own position, with zero costs, not visited, not closed and without a parent |
| SearchGrids.Neighbors | main.ts:184-199 | at most four positions; each is in the grid and 4-adjacent to the element; every in-grid 4-adjacent position is listed |
| SearchGrids.NeighborsInDirectionOrder | main.ts:189-196 | the neighbours come in the order west, east, north, south, so no position is listed twice |
| SearchGrids.NeighborListInDirectionOrder | main.ts:189-196 | the four tests, west, east, north and south, yield their positions in strictly increasing direction order |
| PathFinder.FirstIndex | main.ts:150 | the index found holds the element, and no earlier position does |
| PathFinder.RemoveElement | main.ts:150 | a present element loses its first occurrence only: the result is the list before that occurrence followed by the list after it, in order; removing an absent element changes nothing; no other element is lost or added |
| PathFinder.RemoveElementDistinct | main.ts:150 | on a duplicate-free open list, removal keeps it duplicate-free and removes the element entirely |
| PathFinder.LowestIndex | main.ts:131-135 | the scan returns the index of an open node of least `f`, and it is the first such node |
| PathFinder.InitialInvariant | main.ts:126-128 | a fresh grid with the open list `[start]` satisfies the search invariant |
| PathFinder.CloseKeepsInvariant | main.ts:149-151 | removing the popped non-target node from the open list and closing it keeps the invariant; exactly that tile leaves the not-yet-closed set |
| PathFinder.PoppedIsOptimal | main.ts:130-135 | the open node of least `f` has a `g` no larger than the length of any walk from the start to it |
| PathFinder.RelaxKeepsInvariant | main.ts:159-176 | giving a passable, open neighbour `g+1`, the current node as parent and `f = g+h` keeps the invariant; this covers a first visit that sets `h` and pushes, and an improvement |
| PathFinder.Relax | main.ts:155-175 | what a pass makes of one node: a closed node or a wall is unchanged; any other node ends up visited with g at most the offered cost; a visited node keeps its heuristic and never gets dearer; position, wall and closed flags never change |
| PathFinder.FirstVisits | main.ts:161-166 | the positions pushed by a run of passes are exactly those whose node is open, passable and not yet visited |
| PathFinder.RelaxNeighbor | main.ts:155-175 | the new grid is the old one with only the neighbour's node replaced, by what `Relax` makes of it (skipped, first visit, improvement or no change); the open list gains the neighbour at its end exactly on a first visit and is otherwise unchanged |
| PathFinder.PassPushed | main.ts:161-166 | a pass that pushes exactly on a first visit extends the open list to the old list followed by the first visits among the neighbours so far, in neighbour order |
| PathFinder.PassUpdates | main.ts:154-175 | one more pass leaves every neighbour handled so far as `Relax` of its node before the loop and every other node as before the loop; the offered cost is the current node's g before the loop, since the current node is not among its neighbours |
| PathFinder.RelaxKeepsLoop | main.ts:154-175 | each outcome of a pass (skip, first visit, improvement, no change) keeps the search invariant and the loop's frame: closed flags and closed nodes stay unchanged, and every neighbour handled so far is closed, a wall, or visited at most one step dearer than the current node |
| PathFinder.PassKeepsLoop | main.ts:154-175 | one pass keeps all four parts of the loop invariant: the search invariant, the frame, the updated neighbours and the open list |
| PathFinder.VisitNeighbor | main.ts:154-175 | one iteration of the neighbour loop, `RelaxNeighbor` on `neighbors[i]`, takes the loop invariant from `i` to `i + 1` |
| PathFinder.NeighborsDistinct | main.ts:184-199 | `getNeighbors` lists no position twice and never the element itself, so the passes of one expansion touch distinct nodes |
| PathFinder.UpdatedAll | main.ts:154-176 | after all passes, every neighbour holds `Relax` of its node before the loop, every other node is as before, and the open list is the old list followed by the first visits among the neighbours |
| PathFinder.Expand | main.ts:152-176 | every node outside `getNeighbors(current)` is unchanged; each neighbour holds what one pass makes of its node before the expansion; the open list is the old one followed by the neighbours seen for the first time, in `getNeighbors` order; the full search invariant is restored and the set of tiles not yet closed is unchanged |
| PathFinder.Reconstruct | main.ts:137-146 | following parents from the target and reversing gives a walk from the start to the target whose length is the target's `g`; it is empty exactly when the target is the start |
| PathFinder.FoundIsShortest | main.ts:138-146 | when the target is the open node of least `f`, its reconstructed walk is a shortest walk |
| PathFinder.ExhaustedUnreachable | main.ts:130 | when the open list runs dry, the target is not the start and cannot be reached |
| PathFinder.AStar | main.ts:124-182 | the result is empty exactly when the target is the start or unreachable; otherwise it is a shortest walk to the target, of length equal to the target's `g`; wall flags never change |
| Tracker.TileAt | main.ts:16-23 | a sprite's tile is the one containing its top-left pixel |
| Tracker.Heading | main.ts:53-56 | towards an adjacent tile the velocity has magnitude `speed` on exactly one axis; towards the current tile it is zero |
| Tracker.FirstStepAdjacent | main.ts:53-54 | the first tile of a shortest walk is a passable tile adjacent to the follower's tile (north, south, east or west) |
| Tracker.SearchFrom | main.ts:30-40 | searching a fresh grid over the map finds nothing exactly when the target tile is the follower's tile or unreachable; otherwise the walk it finds is a shortest walk from the follower's tile to the target's tile |
| Tracker.TrackTick | main.ts:13-57 | see the breakdown below this table |

`Tracker.TrackTick` ensures four things:

- It does nothing when the two sprites share a tile.
- It stops the follower when the target's tile is unreachable. The velocity and acceleration are zeroed, and the position is untouched.
- Otherwise, it sets the velocity towards the first tile of a shortest walk. The acceleration and position are untouched.
- Each outcome holds exactly under its stated condition on the old positions and the tile map.

## Left out

- The 250 ms `game.onUpdateInterval` scheduling is not modelled. `TrackTick` is one invocation of the callback.
- The `console.log` calls are not modelled. They have no effect on state.
- The scene's tile map is not modelled. It is reduced to its pixel extent and an `isObstacle` function, given as a parameter (`ObstacleMaps.TileMap`).
- `TrackTick` models the case where the follower's tile is outside the map as the outcome `OffGrid`, and writes nothing. There, `grid[start.x][start.y]` is undefined, and the source's search throws at the first property access. The exception itself is not modelled.
- Tiles.TileOf: models `>> 4` as floor division by 16 of an integer. JavaScript's `>>` first converts its operand to a 32-bit integer, truncating toward zero and wrapping beyond ±2^31; neither the truncation of a fractional value nor the wrap-around is modelled.
- Tracker.TileAt: a sprite's `left` and `top` are modelled as integers, but in the source they are numbers that can be fractional. For a negative fractional position the two disagree: `left = -0.5` gives tile 0 in the source (the truncation yields 0) and tile −1 here, which is off the grid, so the model reports `OffGrid` where the source searches from tile 0.
- Tracker.Sprite: velocities are unbounded integers. MakeCode's fixed-point representation of sprite velocity, and `speed` as a non-integer number, are not modelled.
- The node's `parent` is modelled as the position of the parent node, not a reference to it. Nodes never move in the grid, so following a position reaches the same node.
- `getNeighbors` is modelled as returning the positions of the neighbouring nodes rather than the node objects. The neighbour loop reads and writes each node through the grid by that position.
- `maxGridSize` (main.ts:3) is declared but never used by the source, so it is not part of this model.
- `PathFinder.RelaxNeighbor`, `PathFinder.Expand`, `PathFinder.Reconstruct` and `Tracker.SearchFrom` each name a block of code that the source writes inline. Their bodies are the source's statements. `PathFinder.VisitNeighbor` is one iteration of the neighbour loop: a call of `RelaxNeighbor` together with the proof that the loop invariant is kept.
