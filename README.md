# Rescue simulator turn engine in Dafny

This project models the core of the rescue simulator: a two-team grid game. Each team fields
trucks, jeeps, cars and motorcycles. Vehicles collect items (persons, weapons, clothing, food,
medicine) and bring them back to their team's base column for points. Mines of five kinds make
rectangular areas deadly.

The model covers five parts:

- **`Positions`, `Items`, `Mines`**: cells, the item kinds with their point values, and the mine
  kinds with their blast half-extents (`classes/Item.py`, `classes/Mine.py`).
- **`Pathfinding`**: the grid of occupants. It holds the 4-neighbour enumeration and the four
  breadth-first searches of `pathfinding.py`.
  - Each search is a `method` with the search loop (frontier queue, `came_from` map, path
    reconstruction).
  - Each is proved against the specification `Answers`: a returned path is a walk from the start
    over walkable cells, ends on a target, meets no target before its end, and is a shortest
    such walk. `None` is returned only when no target is reachable.
  - `bfs` returns `None` exactly when the start differs from the goal and the goal is off the
    grid or unreachable. When both cells are on the grid it always returns a path, and every
    path it returns has length |dx|+|dy|+1.
- **`Players`**: the team ledger of `classes/Player.py`, a class with `points` and a roster.
- **`Vehicles`**: the vehicle of `classes/Vehicle.py`, a class with its position, cargo, path and
  state.
  - `plan` is specified by `Planned`, and `execute_move` by the value-level function
    `MoveOutcome`: the new board, position, cargo, path, state and points earned.
  - Lemmas prove that a move never overfills the vehicle, never loses points, delivers the whole
    cargo at base, and touches only the two cells involved.
- **`Manager`**: the world of `map_manager.py`, a class holding the grid, the mines, the danger
  matrix, the collision policy and the two teams.
  - The consistency invariant `Valid` says four things:
    - the grid and the danger matrix are `width` by `height`;
    - every vehicle on the grid, a destroyed one included, stands where its position says;
    - the two rosters are disjoint, duplicate-free and owned by their teams;
    - each roster vehicle is the occupant of its own cell and carries no more than its capacity.
  - `UpdateDangerZones` rebuilds the danger matrix. Each flag is set exactly when a grid mine's
    rectangle covers the cell or the cell holds a vehicle.
  - `NextTurn` runs planning, intent collection, conflict resolution, sequential execution, the
    danger recompute and the collision check. Each phase is a method with its own contract.
    The contract of the execution phase does not compose the final board; that relation is
    stated one step at a time by `Step`. Afterwards:
    - the world is consistent and no vehicle joined a roster;
    - a vehicle stays in its roster exactly when no mine threatens its new cell;
    - points never decrease;
    - the danger matrix is correct.
  - `CheckCollisions` removes vehicles that share a cell, then vehicles inside a mine
    rectangle. The model proves that in a consistent world the first half removes nothing,
    because `execute_move` never steps onto an occupied cell.

Collections used by the source are modelled in `Collections`:
- the insertion-ordered dictionaries `target_map`, `pos_map` and `intent_by_vehicle` are
  association lists `Groups` and `seq<(K, V)>`, built by `AddTo`/`GroupBy` and thinned by `Drop`;
- in-place roster removal is `Keep`.

Identity of vehicles and teams is object identity (`is`), as in the source. Items and mines are
values.

## Model

| member | source | states |
|---|---|---|
| Items.Item.value | classes/Item.py:14-32 | Person and Weapon are worth 50, Clothing 5, Food 10, Heal 20 |
| Items.SumValuesAppend | classes/Vehicle.py:102-107 | the value of a concatenated load is the sum of the two loads' values |
| Items.SumValuesNonNegative | classes/Vehicle.py:102-107 | a delivered load is never worth a negative amount |
| Mines.Mine.xRadius | classes/Mine.py:14-32 | O1 and T1 reach 10 columns, O2 5, T2 1, G1 7 |
| Mines.Mine.yRadius | classes/Mine.py:14-32 | O1 reaches 10 rows, O2 and T2 5, T1 1, G1 7 |
| Mines.Teleport | classes/Mine.py:34-35 | teleporting a G1 mine changes its position to the new one and keeps its kind and its 7x7 radii |
| Mines.TeleportShiftsBlast | classes/Mine.py:34-35 | a mine lies in its own blast rectangle; a teleported mine's rectangle is the old one shifted by the displacement |
| Pathfinding.AllCells | pathfinding.py:3-5 | the set of cells is exactly the cells `in_bounds` accepts |
| Pathfinding.NeighborCells | pathfinding.py:7-14 | the neighbours are exactly the in-bounds cells at Manhattan distance 1, in the order left, right, down, up, at most four |
| Pathfinding.Neighbors | pathfinding.py:7-14 | the loop over the four offsets returns exactly NeighborCells |
| Pathfinding.FieldOf | pathfinding.py:61-72 | a search's open cells are exactly its walkable cells and its goals exactly its target cells |
| Pathfinding.Explore | pathfinding.py:79-98 | the hazard-aware BFS loop: a found path is a duplicate-free walk from the start over walkable cells that ends on a goal, meets none before, and is no longer than any walk to a goal; None only when no goal is reachable |
| Pathfinding.Expand | pathfinding.py:81-97 | one pass over a cell's neighbours keeps the search invariants (discovered paths are walks, layers in BFS order, no goal seen yet) or returns a nearest route, and makes progress |
| Pathfinding.Arrive | pathfinding.py:89-96 | rebuilding through `came_from` and reversing yields the discovered path of the current cell extended by the goal |
| Pathfinding.FoundNearest | pathfinding.py:86-96 | the first goal discovered in BFS order ends a route of minimal length |
| Pathfinding.ExhaustedUnreachable | pathfinding.py:79-98 | when the queue empties with every discovered cell expanded, no walk from the start reaches a goal |
| Pathfinding.WalkLength | pathfinding.py:16-42 | a walk is at least as long as the Manhattan distance between its ends plus one |
| Pathfinding.StaircaseWalk | pathfinding.py:16-42 | between two in-bounds cells there is a walk of exactly Manhattan distance plus one cells |
| Pathfinding.StaircaseReachesGoal | pathfinding.py:16-42 | bfs ignores contents, so an in-bounds goal is always reachable from an in-bounds start |
| Pathfinding.Bfs | pathfinding.py:16-42 | `[start]` when start equals goal; otherwise a found path starts at start, ends at goal, consecutive cells are neighbours and its length is the Manhattan distance plus one; None exactly when the goal is off the grid or unreachable; always a path when start and goal are both on the grid |
| Pathfinding.AnswersFacts | pathfinding.py:45-201 | a search returns a path exactly when the start test holds or a target is reachable, and the path begins at the start |
| Pathfinding.FindNearestItem | pathfinding.py:45-98 | `[start]` when the start cell holds an item; otherwise a nearest route over cells neither dangerous nor mined that ends on the first item met, or None when none is reachable |
| Pathfinding.FindNearestPerson | pathfinding.py:100-153 | as FindNearestItem with Person as the target; other items are walked over |
| Pathfinding.FindPathToColumn | pathfinding.py:156-201 | `[start]` when start is in the column and walkable; otherwise a nearest route to a walkable cell of the column with no earlier cell in it, or None |
| Players.Player.constructor | classes/Player.py:19-22 | a new team has its name, no points and an empty roster; the strategy is not stored |
| Players.Player.AddVehicle | classes/Player.py:24-26 | the vehicle is appended at the end of the roster; points are unchanged |
| Players.Player.AddPoints | classes/Player.py:28-30 | points grow by exactly the amount; the roster is unchanged |
| Vehicles.SetCell | classes/Vehicle.py:75-89 | writing one cell changes that cell only and keeps the board's shape |
| Vehicles.SizedBounds | classes/Vehicle.py:62 | on a board of the manager's size, the width/height bounds test is `in_bounds` |
| Vehicles.Vehicle.constructor | classes/Vehicle.py:8-17 | a vehicle starts with the given team, position, capacity, load and person flag, an empty path and state idle |
| Vehicles.Vehicle.Truck | classes/Vehicle.py:134-136 | a truck carries 3, any item, starting empty and idle |
| Vehicles.Vehicle.Jeep | classes/Vehicle.py:138-140 | a jeep carries 2, any item, starting empty and idle |
| Vehicles.Vehicle.Car | classes/Vehicle.py:142-144 | a car carries 1, any item, starting empty and idle |
| Vehicles.Vehicle.Motorcycle | classes/Vehicle.py:146-148 | a motorcycle carries 1, persons only, starting empty and idle |
| Vehicles.Vehicle.PeekNext | classes/Vehicle.py:53-55 | the next step exists exactly when the path is non-empty and is its head |
| Vehicles.Vehicle.Plan | classes/Vehicle.py:32-51 | a vehicle with a path keeps it. Otherwise one with room heads for the nearest safe item (path without its first cell, collecting). Failing that it heads for the nearest safe cell of its base column (returning; column 0 for player 1, width-1 otherwise). With neither, path and state stay as they were. Position and cargo never change |
| Vehicles.PlanCollects | classes/Vehicle.py:40-45 | a found item path is non-empty and its tail is a collecting plan |
| Vehicles.PlanReturns | classes/Vehicle.py:46-51 | a found base path becomes a returning plan; no path leaves the plan empty |
| Vehicles.Vehicle.PickItem | classes/Vehicle.py:116-122 | an item is taken exactly when there is room and it is a person or the vehicle takes any item; it is appended, and the load never exceeds capacity |
| Vehicles.Vehicle.DropItem | classes/Vehicle.py:124-128 | reports whether the item was carried and removes its first occurrence only |
| Vehicles.Vehicle.Settle | classes/Vehicle.py:91-114 | the step is consumed when it is the path head; a full vehicle drops its path and returns; a returning vehicle on its base column earns its load's value and goes idle with nothing |
| Vehicles.Vehicle.ExecuteMove | classes/Vehicle.py:57-114 | the new board, position, load, path, state and points earned are those of MoveOutcome: off-grid or occupied targets only drop the path; a refused item drops the path and restores the vehicle's own cell; otherwise the vehicle vacates its cell, takes the item, stands on the target and settles |
| Vehicles.Vehicle.MoveKeepsCapacity | classes/Vehicle.py:78-85 | a move never overfills the vehicle and never loses points |
| Vehicles.Vehicle.MoveDelivers | classes/Vehicle.py:95-114 | a successful step onto the base column while returning or full delivers the whole cargo, with the picked item, for its total value |
| Vehicles.Vehicle.MoveFrame | classes/Vehicle.py:72-89 | a move changes no cell other than the vehicle's own and the target |
| Vehicles.Vehicle.MoveKeepsOthers | classes/Vehicle.py:66-89 | a move never overwrites a mine or another vehicle, and afterwards the vehicle occupies exactly the cell of its new position |
| Vehicles.Overwrite | classes/Vehicle.py:84 | writing a cell twice leaves the second value |
| Vehicles.Restore | classes/Vehicle.py:73-84 | a vehicle that vacates its cell and is written back leaves the cell as if it had never left |
| Collections.GroupByGroups | map_manager.py:415-425 | `setdefault(key, []).append(v)` over a sequence builds a map whose keys are distinct and whose list for each key is that key's values in order |
| Collections.GroupBySize | map_manager.py:415-425 | the lists of the map hold exactly as many entries as were added |
| Collections.AddToShape | map_manager.py:424 | adding to a present key extends its list in place; a new key is appended at the end |
| Collections.CrowdedIsShared | map_manager.py:477-484 | with distinct vehicles, the members of lists longer than one are exactly the vehicles sharing a key with another |
| Collections.Keep | map_manager.py:499-500 | removing a set from a roster keeps exactly the other vehicles |
| Collections.RemoveFirstKeep | map_manager.py:499-500 | `list.remove` of one vehicle from a duplicate-free roster is Keep of one more vehicle |
| Collections.KeepAppend | map_manager.py:477 | removal distributes over the concatenation of the two rosters |
| Collections.KeepOrder | map_manager.py:499-500 | removal keeps the remaining vehicles in their roster order |
| Collections.KeepNoDuplicates | map_manager.py:499-500 | removal keeps a roster duplicate-free |
| Collections.RemoveFirstCount | classes/Vehicle.py:126 | `list.remove` removes one occurrence and nothing else |
| Collections.Drop | map_manager.py:442 | deleting intents keeps exactly the pairs of the vehicles not deleted |
| Collections.DropDrop | map_manager.py:437-444 | deleting in two rounds is deleting the union |
| Collections.DropAppend | map_manager.py:442 | deleting intents distributes over concatenation |
| Collections.DropOrder | map_manager.py:442-447 | deleting intents keeps the remaining intents in insertion order, the order they are executed in |
| Manager.AllClear | map_manager.py:45 | the fresh danger matrix has the grid's shape and no flag set |
| Manager.EmptyBoard | map_manager.py:23 | the fresh grid has its size and every cell empty |
| Manager.SetFlag | map_manager.py:380 | setting one flag changes that flag only |
| Manager.PaintBlast | map_manager.py:375-380 | the loops over a mine's clipped rectangle set exactly the in-bounds flags inside its rectangle |
| Manager.DangerMeaning | map_manager.py:369-383 | after visiting every cell, a flag is set exactly when some mine's rectangle covers it or it holds a vehicle |
| Manager.CollidedMeaning | map_manager.py:483-484 | a vehicle collides exactly when another roster entry has its position |
| Manager.PositionGroups | map_manager.py:477-484 | with distinct vehicles, the crowded entries of the position map are exactly the colliding vehicles, and everything in the map is a roster vehicle |
| Manager.PositionMap | map_manager.py:477-480 | builds the position map of the roster in roster order; its crowded members are the colliding vehicles |
| Manager.GridMineListMeaning | map_manager.py:510-519 | a mine is collected exactly when some grid cell holds it |
| Manager.GridMinesHit | map_manager.py:522-526 | a cell is hit by a collected mine exactly when some grid mine threatens it |
| Manager.GridMinesDoom | map_manager.py:522-550 | the vehicles hit by the collected mines are exactly the ones on threatened cells |
| Manager.BlastedDoomed | map_manager.py:522-550 | removing vehicles mine by mine, with `break`, removes exactly the vehicles on threatened cells, each once |
| Manager.DoomedMeaning | map_manager.py:522-526 | a roster vehicle is doomed exactly when a mine threatens the cell it stands on |
| Manager.WinnerIndex | map_manager.py:436 | Python `max` by capacity: the winner has the greatest capacity, and every vehicle before it has strictly less, so it is the first of the maximal ones |
| Manager.Intents | map_manager.py:415-425 | every intent pairs a roster vehicle with a non-empty path and its path head, and every such vehicle has one |
| Manager.IntentsDistinct | map_manager.py:425 | a duplicate-free roster gives at most one intent per vehicle |
| Manager.CollectIntents | map_manager.py:415-425 | the loop builds exactly the intents of the roster in roster order and groups them by target cell |
| Manager.YieldingMember | map_manager.py:428-444 | a vehicle yields exactly when it is in a contested cell's list and is not that list's winner |
| Manager.ResolvedApart | map_manager.py:428-444 | after resolution, no two approved intents target the same cell |
| Manager.WinnerKeeps | map_manager.py:437-444 | the winner of every target cell keeps its intent, so with ResolvedApart exactly one vehicle heading for each cell is approved |
| Manager.OneEntry | map_manager.py:423-425 | a vehicle with one intent is listed under one target cell only |
| Manager.PlanEach | map_manager.py:403-412 | every roster vehicle, in order, ends with the plan Planned gives it, with position and cargo unchanged |
| Manager.MapManager.constructor | map_manager.py:18-26 | a new world has two fresh empty teams named Player 1 and Player 2, an empty grid, no mines, a clear danger matrix, policy allow_crash, and is consistent |
| Manager.MapManager.Clear | map_manager.py:37-55 | every cell is empty, no mines, a clear danger matrix and both rosters empty; size, points and policy are kept and the world stays consistent |
| Manager.MapManager.UpdateDangerZones | map_manager.py:365-383 | the matrix is rebuilt from scratch: a flag is set exactly when a grid mine's rectangle covers the cell or the cell holds a vehicle; nothing else changes |
| Manager.MapManager.FieldedKeep | map_manager.py:499-500 | removing vehicles from the rosters keeps them disjoint, duplicate-free and on their cells |
| Manager.MapManager.NextTurn | map_manager.py:385-473 | the world stays consistent; no vehicle joins a roster; a vehicle stays exactly when no mine threatens its new cell; no team loses points; the danger matrix flags exactly the threatened and occupied cells; mines and policy are kept; only vehicles of the rosters at entry may change |
| Manager.MapManager.Move | map_manager.py:403-455 | planning, intents, resolution and execution keep the world consistent, the rosters as they are, and points non-decreasing; only vehicles of the rosters at entry may change |
| Manager.MapManager.PlanAll | map_manager.py:403-412 | every roster vehicle has the plan Planned gives it against the current grid and danger matrix; positions and cargo are unchanged; the world stays consistent |
| Manager.MapManager.Resolve | map_manager.py:428-444 | under allow_crash every intent stands. Otherwise exactly the yielding vehicles lose their intents and have their paths emptied; every other path is unchanged |
| Manager.MapManager.YieldAll | map_manager.py:428-444 | the loop over the target map deletes exactly the yielding vehicles' intents and paths |
| Manager.MapManager.YieldAt | map_manager.py:429-444 | one contested cell makes everyone but its winner yield; an uncontested one changes nothing |
| Manager.MapManager.YieldGroup | map_manager.py:437-444 | every vehicle of the list other than the winner loses its path and its intent; the winner keeps both |
| Manager.MapManager.YieldMember | map_manager.py:437-444 | one list entry: a vehicle other than the winner loses its path and its intent; the winner keeps both |
| Manager.MapManager.ExecuteAll | map_manager.py:447-455 | executing the approved steps in order keeps the world consistent, keeps the rosters, and never lowers points; only vehicles of the rosters at entry may change |
| Manager.MapManager.Step | map_manager.py:449 | one execute_move inside the world: its outcome is MoveOutcome on the world's grid, the world stays consistent, and points never drop |
| Manager.MapManager.NoCollisions | map_manager.py:483-503 | in a consistent world no two roster vehicles share a position, so the collision loop removes nothing |
| Manager.MapManager.CheckCollisions | map_manager.py:475-550 | in a consistent world the rosters lose exactly the vehicles standing on a threatened cell, keeping order; points are unchanged and the world stays consistent |
| Manager.MapManager.RemoveCollided | map_manager.py:476-503 | every vehicle that shares its position with another roster vehicle is removed from its roster, and no other |
| Manager.MapManager.WithdrawCrowded | map_manager.py:483-500 | every member of a position list longer than one is removed, and no other |
| Manager.MapManager.WithdrawAll | map_manager.py:486-500 | every vehicle of the list is removed from its own team's roster |
| Manager.MapManager.Withdraw | map_manager.py:499-500 | one vehicle is removed from its own team's roster, the other roster untouched |
| Manager.MapManager.CollectMines | map_manager.py:509-519 | collects the grid's mines column by column |
| Manager.MapManager.Strike | map_manager.py:522-550 | a vehicle is removed exactly when some collected mine's rectangle holds it, at most once |
| Manager.MapManager.RemoveBlasted | map_manager.py:521-550 | the rosters lose exactly the vehicles inside some collected mine's rectangle |
| Manager.MapManager.RemoveDoomed | map_manager.py:509-550 | the rosters lose exactly the vehicles on a threatened cell; the world stays consistent |

## Left out

- Persistence (`save_game`, `load_game`, the game-folder helper) is file I/O and serialisation. The constructor does not create a game folder.
- `new_game` and `get_empty_cell` place mines and items at random. The fixed vehicle setup of `new_game` is not modelled either; the constructor, `Clear` and `AddVehicle` cover its building blocks.
- The G1 toggle of `next_turn` calls `toggle()`, which `Mine_G1` does not define. `NextTurn` therefore requires that the toggle turn is not reached or that no G1 mine is listed.
- The closing `unload_if_at_base` loop of `next_turn` calls a method that `Vehicle` does not define. It is omitted; delivery happens inside `execute_move`.
- The `try/except` fallbacks to `move()` and the exception swallowing around `plan`, `execute_move`, `add_points` and `list.remove` are not modelled. The modelled calls do not raise under the invariant. `move()` and the empty `return_to_base` are not modelled.
- Debug snapshots, collision messages, sprites and rendering are output only.
- `under_item` is never set by any modelled code, so the restore branches of `check_collisions` never fire. Their "clear the cell" statements are no-ops, so destroyed vehicles stay on the grid; the model keeps them there.
- Python negative indices: `execute_move` writes `grid[old_x][old_y]` without a bounds test when an item is refused. `ExecuteMove` requires only that the vehicle's position is on the grid. That the vehicle stands on its own cell there comes from the world invariant, which `Step` assumes.
- Items are compared as values (kind and position), so two equal items on the same cell are indistinguishable to `DropItem`.
- Strategies are never attached to vehicles and are not modelled.
- Manager.MapManager.Resolve: under allow_crash it returns before looking at the target map. Every group is skipped there anyway, so the outcome is the same.
- Manager.MapManager.ExecuteAll: its contract does not chain the per-step MoveOutcome of each approved intent into one final board. That per-step relation is stated by Manager.MapManager.Step, which it calls for each intent.
- Manager.MapManager.NextTurn: its contract states the rosters, points and danger matrix after the turn. It states the new positions and paths only through the contracts of its phases.
- Manager.MapManager.CheckCollisions: it requires the world invariant, under which its collision half removes nothing. The collision removal itself is stated without that invariant by Manager.MapManager.RemoveCollided.
