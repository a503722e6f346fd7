# Maze walker and grid pathfinder

A Dafny model of two small grid demonstrations. The model keeps their algorithms and drops the pygame drawing and event loops.

- **Maze walker** (`game/maze.py`, modules `MazeGeometry` and `Maze`). The `play` function builds a lattice of cells. Each cell has four wall flags (N, S, E, W) plus `occupied` and `traversed` flags. A `Walker` then carves passages with a randomized depth-first walk, one step per frame. Backtracking goes along its `path` stack.
  - `Maze.Grid` holds the cells' mutable attributes as arrays indexed by cell number.
  - `MazeGeometry.Layout` holds the fixed part: each cell's position, the position-to-cell dict and the neighbour table.
  - `Maze.Walker` has the source's `current_cell`, `path` and `walking` fields.
  - Every walker method is tied to a value-level step (`Forward`, `Back`, `Start`) on a `WalkState`. The lemmas prove the walk invariant (`Carving`) about that state.
- **Pathfinder** (`game/pathfinding.py`, module `Pathfinding`). A `Player` moves in one of two ways: by four keys, or along a path found by breadth-first search. The search explores positions reachable through the eight `STEPS` scaled by the speed of 3.
  - Every position is checked against the screen bounds and the obstacle rectangles.
  - The search keeps an arena of `PathPoint`s in creation order. Each point names its parent by index.
  - It uses a FIFO of arena indices and a `visited` set.
  - `Search` is proved to return a shortest route of valid steps that meets the target. When it returns the empty path, either the start already meets the target or no route meets it.

Details of the code's behaviour worth noting:
- `set_start` does not clear `path`.
- The search never puts the start position into `visited`, so a later point may revisit the start's coordinates.
- Rectangles that only touch along an edge do not collide.
- A `PathPoint`'s rectangle and the player's rectangle are both 20 by 20. Neither is one step wide.
- The step order is N, S, W, E, NW, SE, SW, NE.
- `walk_to` pushes the destination cell and `set_start` pushes nothing. As a result, the walk does not always visit every cell. The model proves no coverage or perfect-maze property.

## Model

| member | source | states |
|---|---|---|
| MazeGeometry.Carved | game/maze.py:71-83 | the walls after `remove_walls`: for two aligned cells, each loses the flag that faces the other; otherwise nothing changes (its properties are the three lemmas below) |
| MazeGeometry.CarveDirections | game/maze.py:71-83 | each of the four relative directions clears exactly its own opposite pair of flags (E/W, S/N, W/E, N/S), and no other flag changes |
| MazeGeometry.CarveUnaligned | game/maze.py:71-83 | two cells that differ in both coordinates, or share a position, keep all their flags |
| MazeGeometry.CarveIdempotent | game/maze.py:71-83 | carving only clears flags, never sets one; carving the same pair twice equals carving it once |
| Maze.Grid.RemoveWalls | game/maze.py:71-83 | the wall array after `remove_walls` is the carve of the old one for the two cells' positions |
| Maze.Grid.constructor | game/maze.py:154-172 | a fresh grid of `(W / size) * (H / size)` cells at `(i * size, j * size)`; all walls are up and nothing is occupied or traversed; position dict and numbering are inverse; the neighbour table is the one `play` builds |
| MazeGeometry.BuildCells | game/maze.py:154-161 | creates one cell per row and column, in row-major order, at the scaled coordinates; the dict maps each position back to its cell |
| MazeGeometry.Around | game/maze.py:164-169 | the four positions probed for a cell, one `size` step left, right, up and down, in the source's order |
| MazeGeometry.BuildNeighbours | game/maze.py:163-172 | every cell's list is the cells present at its four orthogonal positions, in the source's probing order |
| MazeGeometry.Present | game/maze.py:170-172 | the probed positions present in the dict contribute their cells, and nothing else is listed |
| MazeGeometry.TableInside | game/maze.py:163-172 | every listed neighbour is a cell of the grid |
| MazeGeometry.NeighbourIff | game/maze.py:163-172 | a cell is a neighbour exactly when it lies one `size` step away along one axis (both directions) |
| MazeGeometry.NeighbourFacts | game/maze.py:163-172 | the table is symmetric; no cell is its own neighbour; neighbours lie inside the grid (no wrap-around) and differ by exactly `size` in exactly one coordinate |
| MazeGeometry.Untraversed | game/maze.py:123 | the candidates are exactly the neighbours whose `traversed` flag is clear |
| Maze.Walker.constructor | game/maze.py:96-99 | no current cell, empty path, not walking |
| Maze.Walker.SetStart | game/maze.py:138-141 | the start becomes current, occupied and traversed; path and every other flag are unchanged; on a fresh grid with an empty path the walk invariant holds |
| MazeGeometry.Start | game/maze.py:138-141 | `set_start` on the walk state: occupy and traverse the start, and keep the path (its invariant is `StartCarving`) |
| MazeGeometry.StartCarving | game/maze.py:138-141 | `set_start` on a fresh grid establishes the walk invariant with no forward steps |
| Maze.Walker.WalkTo | game/maze.py:101-110 | requires a current cell; afterwards the walls are carved between the old and new cell; the old cell is unoccupied; the new cell is current, occupied and traversed; the path gains the new cell at its end |
| Maze.Walker.WalkBack | game/maze.py:112-119 | on a non-empty path it returns true, pops the last entry and makes it the only newly occupied current cell, with `traversed` untouched; on an empty path it returns false and changes nothing |
| Maze.Walker.Walk | game/maze.py:122-130 | one walk step: forward to an untraversed neighbour, else back when the path is non-empty, else false with no change; it preserves the walk invariant |
| MazeGeometry.Forward | game/maze.py:101-110 | `walk_to` on the walk state: carve towards the destination, unoccupy the old cell, occupy and traverse the destination, push it (its invariant is `ForwardKeeps`) |
| MazeGeometry.Back | game/maze.py:112-118 | `walk_back` on a non-empty path: pop the last entry and occupy it instead of the current cell (its invariant is `BackKeeps`) |
| MazeGeometry.Walked | game/maze.py:122-130 | the possible outcomes of one `walk`: forward to some untraversed neighbour, else back, else false with no change (its properties are `WalkedOutcome` and `WalkedKeeps`) |
| MazeGeometry.WalkedOutcome | game/maze.py:122-130 | `walk` returns false exactly when the current cell has no untraversed neighbour and the path is empty, and then nothing changes; a forward step goes to a neighbour that was untraversed |
| MazeGeometry.WalkedForward | game/maze.py:123-126 | a step to any untraversed neighbour is a possible outcome of `walk` |
| MazeGeometry.ForwardKeeps | game/maze.py:101-110 | a forward step keeps the invariant, traverses exactly one more cell and opens exactly one passage (two flags) |
| MazeGeometry.BackKeeps | game/maze.py:112-119 | a step back keeps the invariant and traverses nothing new |
| MazeGeometry.WalkedKeeps | game/maze.py:101-130 | every walk step preserves the invariant, counting forward steps |
| MazeGeometry.CarvingOneOccupied | game/maze.py:101-119 | under the invariant, exactly one cell is occupied and it is the current one |
| MazeGeometry.CarveKeepsAgreement | game/maze.py:71-83 | carving between adjacent cells keeps the two flags of every adjacent pair equal |
| Maze.Walker.Pause | game/maze.py:132-133 | the walker stops walking |
| Maze.Walker.Unpause | game/maze.py:135-136 | the walker walks |
| Maze.Grid.ClearTraversed | game/maze.py:194-196 | no cell is traversed afterwards |
| Maze.Walker.Advance | game/maze.py:191-197 | a paused walker changes nothing; a walking one walks; when the walk reports false, every `traversed` flag is cleared and the walker pauses, with no other change |
| Pathfinding.Collide | game/pathfinding.py:129 | `colliderect` on integer rectangles: strict overlap on both axes |
| Pathfinding.CollideSymmetric | game/pathfinding.py:129 | overlap does not depend on which rectangle asks |
| Pathfinding.TouchingApart | game/pathfinding.py:129 | rectangles that meet only along an edge do not collide |
| Pathfinding.Steps | game/pathfinding.py:7-12 | the eight unit moves in the source's order: N, S, W, E, NW, SE, SW, NE |
| Pathfinding.PathPoint.Footprint | game/pathfinding.py:24-29 | a point's rectangle: a fixed 20 by 20 square with its corner at the point |
| Pathfinding.StepFrom | game/pathfinding.py:176-178 | one entry of `STEPS` scaled by the speed: the position always changes, and each coordinate by at most the speed |
| Pathfinding.Hits | game/pathfinding.py:168 | the point's fixed 20 by 20 rectangle overlaps the target |
| Pathfinding.Steer | game/pathfinding.py:96-104 | the position the keys ask for: `d` wins over `a` and `w` wins over `s` (proved against the source's sequential updates by `Move`) |
| Pathfinding.Player.constructor | game/pathfinding.py:89-93 | a new player stands at the given position, in manual mode, with no target and an empty path |
| Pathfinding.Player.Footprint | game/pathfinding.py:127 | the player's 20 by 20 rectangle moved to the position under test |
| Pathfinding.Player.CheckBounds | game/pathfinding.py:119-124 | true exactly when the player's rectangle at `(x, y)` leaves the screen |
| Pathfinding.Player.CheckCollisions | game/pathfinding.py:126-132 | true exactly when some obstacle overlaps the player's rectangle at `(x, y)` |
| Pathfinding.Player.ValidateNewPos | game/pathfinding.py:110-116 | true exactly when the rectangle stays on screen and no obstacle overlaps it |
| Pathfinding.Player.ValidInBox | game/pathfinding.py:119-124 | every valid position lies in the finite box of on-screen corners |
| Pathfinding.Player.MoveFrom | game/pathfinding.py:95-108 | a move either leaves both coordinates alone or moves to the keys' target when that is valid |
| Pathfinding.Player.Move | game/pathfinding.py:95-108 | applying `s`, `a`, `d`, `w` in the source's order, then the validity check, lands where `MoveFrom` says |
| Pathfinding.Player.MoveKeepsValid | game/pathfinding.py:95-108 | a player on a valid position never moves onto an invalid one |
| Pathfinding.Player.MoveBounded | game/pathfinding.py:95-108 | one move changes each coordinate by at most the speed; no keys means no move |
| Pathfinding.Player.Update | game/pathfinding.py:135-148 | the toggle flips `manual`; in manual mode with keys, the path is dropped and the player moves; out of manual mode with a target, one pathfinding turn; otherwise nothing changes |
| Pathfinding.Player.Pathfind | game/pathfinding.py:153-189 | with a path left, it jumps to the first waypoint and drops it; when the old path was a route, the rest still is and the new position is valid; with no path, it stays put and the new path is a shortest route to the target |
| Pathfinding.Player.RouteTail | game/pathfinding.py:155-159 | after the first waypoint of a route is taken, the rest is a route from that waypoint, and the waypoint was a valid single step |
| Pathfinding.Player.Search | game/pathfinding.py:161-189 | a route of valid scaled steps whose last point meets the target, with no route that meets it shorter; empty exactly when the start already meets it or no route does |
| Pathfinding.Player.FoundShortest | game/pathfinding.py:164-174 | when the dequeued point meets the target, its parent chain is a shortest route |
| Pathfinding.Player.ExhaustedNone | game/pathfinding.py:164 | when the frontier empties with no hit, no route meets the target |
| Pathfinding.Player.Covered | game/pathfinding.py:164-189 | every prefix of any route ends at a position the search has a point for, with a chain no longer than the prefix |
| Pathfinding.Player.ChainRoute | game/pathfinding.py:169-172 | the chain along the parent links to any point is a route from the start ending at that point |
| Pathfinding.Player.EnqueueSteps | game/pathfinding.py:176-189 | trying the eight steps in order keeps the search invariant with one more point expanded; the arena, the queue and the visited set only grow; either the unvisited part of the box shrinks or the queue stays as it was |
| Pathfinding.Player.TryStep | game/pathfinding.py:177-189 | one step: a visited or invalid position leaves the arena, the queue and the visited set unchanged; otherwise exactly one point at the new position with the current point as parent is appended, its index is queued and the position is marked visited; the search invariant is kept either way |
| Pathfinding.Player.Rebuild | game/pathfinding.py:169-173 | following parents back to the start and reversing gives the point's forward chain, start excluded |
| Pathfinding.Player.RouteExtend | game/pathfinding.py:183-189 | a route extended by a valid step is a route ending at the new point |
| Pathfinding.Reverse | game/pathfinding.py:173 | `list(reversed(s))`: same length, and entry `k` is the entry of `s` at the mirrored index, counted from its end |
| Pathfinding.ReverseSnoc | game/pathfinding.py:173 | reversing `s + [v]` puts `v` first |

## Left out

- Drawing is left out: `Cell.draw`, `Block.draw`, surfaces, fonts, `display.flip` and `clock.tick`. It is I/O. A cell's `image`, `rect` and `wall_thickness` are dropped with it.
- The event loops of both `play` functions are left out: QUIT handling, `pygame.key.get_pressed` and `pygame.init`. The space-key toggle at game/maze.py:184-188 is covered only through `Pause` and `Unpause`.
- The choice of the starting cell (game/maze.py:174-178) is left out. It uses `random.choice`, so `SetStart` accepts any cell.
- `random.choice` in `walk` is modelled as an arbitrary pick among the candidates. Its uniform distribution is not modelled.
- The mouse toggle of obstacles (game/pathfinding.py:210-217) is left out. It depends on pygame sprite groups. Obstacles are a sequence of rectangles passed in.
- `Player.distance_from_target` is left out. It uses floating-point square roots and is never called.
- `PathPoint.pos` is left out. It refers to undefined names and is never used.
- All `__str__` and `__repr__` methods are left out. They only format text.
- `settings.WIDTH`, `settings.HEIGHT` and `SCREEN_SIZE` are not part of this model. They become the `width` and `height` of `Player` and the arguments of `Grid`'s constructor.
- The grid's cell size is a constructor argument instead of the constant 20.
- Walls are booleans, where the source uses 1 and 0.
- The player's `path` holds waypoint coordinates instead of `PathPoint` objects. Once a path is built, only the coordinates are read.
- `update`'s keys argument is an `Option`. `None` stands for the call made without keys. `args[2] or []` becomes the obstacle sequence.
- Pathfinding.Collide: pygame's rule that a rectangle with zero width or height collides with nothing is not modelled. Every rectangle the program builds has a positive size; the model's `Rect` does not require one.
- Maze.Walker.Walk: no coverage or perfect-maze property is stated. The code does not guarantee one, because `set_start` never pushes the start cell.
- Pathfinding.Player.Search: the contract says the route is a shortest one but not which. The code always returns the one its fixed `STEPS` order reaches first, and that tie-break is not stated.
- Pathfinding.Player.Pathfind: which shortest route it stores in `path` is not stated, for the same reason as `Search`.
- Maze.Walker.Inv: it is proved only for a walk that starts with `SetStart` on a fresh grid and an empty path. That is how `play` starts it. After the reset that ends a walk (game/maze.py:194-197), the current cell is no longer traversed, so a walk resumed by unpausing is outside `Inv`.
