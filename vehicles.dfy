/** The vehicles of classes/Vehicle.py: planning a path with the searches, one step of movement
    with pickup and delivery, and the cargo list. */
module Vehicles {
  import opened Wrappers
  import opened Positions
  import opened Items
  import opened Pathfinding
  import opened Players
  import opened Collections

  /** The `state` string, which only ever holds 'idle', 'collecting' or 'returning'. */
  datatype State = Idle | Collecting | Returning

  /** A cell of the game grid and the grid itself, `grid[x][y]`. */
  type Cell = Occupant<Vehicle>
  type Board = Grid<Vehicle>

  /** The grid is `width` columns of `height` cells, so the map manager's bounds test
      `0 <= x < width and 0 <= y < height` is InBounds. */
  predicate Sized(grid: Board, width: int, height: int)
  {
    |grid| == width && forall i :: 0 <= i < |grid| ==> |grid[i]| == height
  }

  lemma SizedBounds(grid: Board, width: int, height: int, p: Pos)
    requires Sized(grid, width, height)
    ensures InBounds(grid, p) <==> 0 <= p.x < width && 0 <= p.y < height
  {
  }

  /** `grid[p.x][p.y] = c`: only that cell changes. */
  function SetCell(grid: Board, p: Pos, c: Cell): (g: Board)
    requires InBounds(grid, p)
    ensures |g| == |grid| && forall i :: 0 <= i < |g| ==> |g[i]| == |grid[i]|
    ensures forall q :: InBounds(grid, q) ==> g[q.x][q.y] == if q == p then c else grid[q.x][q.y]
  {
    grid[p.x := grid[p.x][p.y := c]]
  }

  /** Two boards of the same shape with the same cells are the same board. */
  lemma SameBoard(a: Board, b: Board)
    requires |a| == |b| && forall i :: 0 <= i < |a| ==> |a[i]| == |b[i]|
    requires forall x, y :: 0 <= x < |a| && 0 <= y < |a[x]| ==> a[x][y] == b[x][y]
    ensures a == b
  {
    forall i | 0 <= i < |a| ensures a[i] == b[i] {
      assert forall y :: 0 <= y < |a[i]| ==> a[i][y] == b[i][y];
    }
  }

  /** `if grid[x][y] is self: grid[x][y] = None` for the vehicle's old cell. */
  function Vacate(grid: Board, p: Pos, v: Vehicle): (g: Board)
    requires InBounds(grid, p)
  {
    if grid[p.x][p.y] == VehicleAt(v) then SetCell(grid, p, Empty) else grid
  }

  /** `if path and path[0] == target: path.pop(0)`. */
  function Advance(path: seq<Pos>, target: Pos): (r: seq<Pos>)
  {
    if path != [] && path[0] == target then path[1..] else path
  }

  /** The base column of a team: column 0 for player 1, the last column for player 2. */
  function BaseColumn(isPlayer1: bool, width: int): int
  {
    if isPlayer1 then 0 else width - 1
  }

  /** A step onto `target` is possible: in bounds and holding nothing or an item. */
  predicate Enterable(grid: Board, target: Pos)
  {
    InBounds(grid, target) && (grid[target.x][target.y].Empty? || grid[target.x][target.y].ItemAt?)
  }

  /** What plan leaves in `path` and `state`. A vehicle with a path keeps it. Otherwise a vehicle
      with room heads for a nearest reachable item; failing that, for a nearest reachable cell of
      its base column; and with neither it keeps an empty path and its state. A new path is the
      search result without its first cell, the vehicle's own position. */
  ghost predicate Planned(grid: Board, danger: seq<seq<bool>>, baseX: int, position: Pos, loaded: nat, capacity: int,
                          path0: seq<Pos>, state0: State, path: seq<Pos>, state: State)
  {
    var items := Safe(danger, AnyItem);
    var home := Safe(danger, Column(baseX));
    var itemHere := IsGoal(grid, items, position);
    var homeHere := IsGoal(grid, home, position) && Walkable(grid, home, position);
    if path0 != [] then path == path0 && state == state0
    else if loaded < capacity && Finds(grid, items, position, itemHere) then
      state == Collecting && Answers(grid, items, position, itemHere, Some([position] + path))
    else if Finds(grid, home, position, homeHere) then
      state == Returning && Answers(grid, home, position, homeHere, Some([position] + path))
    else
      path == [] && state == state0
  }

  /** Plan's first outcome: a reachable item was found, and the path leads there. */
  lemma PlanCollects(grid: Board, danger: seq<seq<bool>>, baseX: int, position: Pos, loaded: nat, capacity: int,
                     state0: State, found: Option<seq<Pos>>)
    requires loaded < capacity && found.Some?
    requires Answers(grid, Safe(danger, AnyItem), position, IsGoal(grid, Safe(danger, AnyItem), position), found)
    ensures found.value != []
    ensures Planned(grid, danger, baseX, position, loaded, capacity, [], state0, found.value[1..], Collecting)
  {
    var items := Safe(danger, AnyItem);
    AnswersFacts(grid, items, position, IsGoal(grid, items, position), found);
    assert [position] + found.value[1..] == found.value;
  }

  /** Plan's other outcomes: with no room or no reachable item, the path leads home when home is
      reachable, and otherwise nothing changes. */
  lemma PlanReturns(grid: Board, danger: seq<seq<bool>>, baseX: int, position: Pos, loaded: nat, capacity: int,
                    state0: State, items: Option<seq<Pos>>, found: Option<seq<Pos>>)
    requires loaded < capacity ==>
               items.None? && Answers(grid, Safe(danger, AnyItem), position, IsGoal(grid, Safe(danger, AnyItem), position), items)
    requires Answers(grid, Safe(danger, Column(baseX)), position,
                     IsGoal(grid, Safe(danger, Column(baseX)), position) && Walkable(grid, Safe(danger, Column(baseX)), position), found)
    ensures found.Some? ==> found.value != []
    ensures Planned(grid, danger, baseX, position, loaded, capacity, [], state0,
                    if found.Some? then found.value[1..] else [], if found.Some? then Returning else state0)
  {
    var home := Safe(danger, Column(baseX));
    if loaded < capacity {
      AnswersFacts(grid, Safe(danger, AnyItem), position, IsGoal(grid, Safe(danger, AnyItem), position), items);
    }
    AnswersFacts(grid, home, position, IsGoal(grid, home, position) && Walkable(grid, home, position), found);
    if found.Some? {
      assert [position] + found.value[1..] == found.value;
    }
  }

  /** The vehicle's fields after one step and the points it earned. */
  datatype After = After(position: Pos, cargo: seq<Item>, path: seq<Pos>, state: State, earned: int)

  /** The result of one step: the new board and the vehicle after it. */
  datatype Moved = Moved(board: Board, after: After)

  /** `grid[x][y] = a` then `grid[x][y] = b` is `grid[x][y] = b`. */
  lemma Overwrite(grid: Board, p: Pos, a: Cell, b: Cell)
    requires InBounds(grid, p)
    ensures SetCell(SetCell(grid, p, a), p, b) == SetCell(grid, p, b)
  {
    SameBoard(SetCell(SetCell(grid, p, a), p, b), SetCell(grid, p, b));
  }

  /** Putting the vehicle back on the cell it may have left is putting it there. */
  lemma Restore(grid: Board, p: Pos, v: Vehicle)
    requires InBounds(grid, p)
    ensures SetCell(Vacate(grid, p, v), p, VehicleAt(v)) == SetCell(grid, p, VehicleAt(v))
  {
    if grid[p.x][p.y] == VehicleAt(v) {
      Overwrite(grid, p, Empty, VehicleAt(v));
    }
  }

  class Vehicle {
    const team: Player<Vehicle>
    var position: Pos
    const capacity: int
    var load: seq<Item>
    /** The cells still to visit, not including the current position. */
    var path: seq<Pos>
    var state: State
    const onlyPersons: bool

    /** A vehicle starts with an empty path in state idle. */
    constructor (team: Player<Vehicle>, position: Pos, capacity: int, load: seq<Item>, onlyPersons: bool)
      ensures this.team == team && this.position == position && this.capacity == capacity
      ensures this.load == load && this.onlyPersons == onlyPersons && path == [] && state == Idle
    {
      this.team := team;
      this.position := position;
      this.capacity := capacity;
      this.load := load;
      this.onlyPersons := onlyPersons;
      path := [];
      state := Idle;
    }

    /** Truck: capacity 3, any item. */
    constructor Truck(team: Player<Vehicle>, position: Pos)
      ensures this.team == team && this.position == position && capacity == 3 && !onlyPersons
      ensures load == [] && path == [] && state == Idle
    {
      this.team := team;
      this.position := position;
      capacity := 3;
      load := [];
      onlyPersons := false;
      path := [];
      state := Idle;
    }

    /** Jeep: capacity 2, any item. */
    constructor Jeep(team: Player<Vehicle>, position: Pos)
      ensures this.team == team && this.position == position && capacity == 2 && !onlyPersons
      ensures load == [] && path == [] && state == Idle
    {
      this.team := team;
      this.position := position;
      capacity := 2;
      load := [];
      onlyPersons := false;
      path := [];
      state := Idle;
    }

    /** Car: capacity 1, any item. */
    constructor Car(team: Player<Vehicle>, position: Pos)
      ensures this.team == team && this.position == position && capacity == 1 && !onlyPersons
      ensures load == [] && path == [] && state == Idle
    {
      this.team := team;
      this.position := position;
      capacity := 1;
      load := [];
      onlyPersons := false;
      path := [];
      state := Idle;
    }

    /** Motorcycle: capacity 1, persons only. */
    constructor Motorcycle(team: Player<Vehicle>, position: Pos)
      ensures this.team == team && this.position == position && capacity == 1 && onlyPersons
      ensures load == [] && path == [] && state == Idle
    {
      this.team := team;
      this.position := position;
      capacity := 1;
      load := [];
      onlyPersons := true;
      path := [];
      state := Idle;
    }

    /** pick_item's test: there is room, and a persons-only vehicle takes only a Person. */
    predicate Accepts(cargo: seq<Item>, item: Item)
    {
      |cargo| < capacity && (!onlyPersons || item.kind == Person)
    }

    /** peek_next: the head of the path, None for an empty path. */
    function PeekNext(): (r: Option<Pos>)
      reads this
      ensures r.Some? <==> path != []
      ensures r.Some? ==> r.value == path[0]
    {
      if path != [] then Some(path[0]) else None
    }

    /** plan: searches only when the path is empty and never touches the grid. */
    method Plan(grid: Board, danger: seq<seq<bool>>, player1: Player<Vehicle>, width: int)
      requires path == [] ==> InBounds(grid, position) && Covers(grid, danger)
      modifies this
      ensures Planned(grid, danger, BaseColumn(team == player1, width), position, |load|, capacity,
                      old(path), old(state), path, state)
      ensures position == old(position) && load == old(load)
    {
      if path != [] {
        return;
      }
      var items: Option<seq<Pos>> := None;
      if |load| < capacity {
        items := FindNearestItem(grid, position, danger);
        if items.Some? {
          PlanCollects(grid, danger, BaseColumn(team == player1, width), position, |load|, capacity, state, items);
        }
        if items.Some? && items.value != [] {
          path := items.value[1..];
          state := Collecting;
          return;
        }
      }
      var baseX := if player1 == team then 0 else width - 1;
      var found := FindPathToColumn(grid, position, baseX, danger);
      PlanReturns(grid, danger, baseX, position, |load|, capacity, state, items, found);
      if found.Some? && found.value != [] {
        path := found.value[1..];
        state := Returning;
      }
    }

    /** pick_item: appends the item exactly when Accepts holds, so the load never exceeds the
        capacity. */
    method PickItem(item: Item) returns (picked: bool)
      modifies this
      ensures picked == Accepts(old(load), item)
      ensures load == if picked then old(load) + [item] else old(load)
      ensures |old(load)| <= capacity ==> |load| <= capacity
      ensures position == old(position) && path == old(path) && state == old(state)
    {
      if |load| >= capacity {
        return false;
      }
      if onlyPersons && item.kind != Person {
        return false;
      }
      load := load + [item];
      return true;
    }

    /** drop_item: removes the first occurrence of the item when it is carried. */
    method DropItem(item: Item) returns (dropped: bool)
      modifies this
      ensures dropped == (item in old(load))
      ensures load == RemoveFirst(old(load), item)
      ensures position == old(position) && path == old(path) && state == old(state)
    {
      if item in load {
        load := RemoveFirst(load, item);
        return true;
      }
      RemoveFirstAbsent(load, item);
      return false;
    }

    /** The second half of execute_move, once the vehicle stands on `target` with `cargo`: the
        step is consumed, a full vehicle drops its path and turns to returning, and a returning
        vehicle on its base column delivers its whole load for its value, going idle. */
    function Settled(baseX: int, target: Pos, cargo: seq<Item>, path: seq<Pos>, state: State): (a: After)
    {
      var full := |cargo| >= capacity;
      var state1 := if full then Returning else state;
      if state1 == Returning && target.x == baseX then After(target, [], [], Idle, SumValues(cargo))
      else After(target, cargo, if full then [] else Advance(path, target), state1, 0)
    }

    /** What execute_move does, on values. A step off the grid or onto a vehicle or mine only
        drops the path. A refused item also drops the path, and the vehicle's own cell is set to
        the vehicle. Otherwise the vehicle leaves its cell (when it was there), takes the item if
        there was one, stands on `target` and settles there. */
    function MoveOutcome(grid: Board, baseX: int, target: Pos,
                         position: Pos, cargo: seq<Item>, path: seq<Pos>, state: State): (m: Moved)
      requires InBounds(grid, position)
    {
      if !Enterable(grid, target) then Moved(grid, After(position, cargo, [], state, 0))
      else
        var dest := grid[target.x][target.y];
        if dest.ItemAt? && !Accepts(cargo, dest.item) then
          Moved(SetCell(grid, position, VehicleAt(this)), After(position, cargo, [], state, 0))
        else
          Moved(SetCell(Vacate(grid, position, this), target, VehicleAt(this)),
                Settled(baseX, target, cargo + (if dest.ItemAt? then [dest.item] else []), path, state))
    }

    /** The tail of execute_move from the consumed step on. */
    method Settle(baseX: int)
      modifies this, team
      ensures Settled(baseX, old(position), old(load), old(path), old(state))
              == After(position, load, path, state, team.points - old(team.points))
      ensures team.vehicles == old(team.vehicles)
    {
      if path != [] && path[0] == position {
        path := path[1..];
      }
      if |load| >= capacity {
        path := [];
        state := Returning;
      }
      if state == Returning && position.x == baseX {
        var total := 0;
        var i := 0;
        while i < |load|
          invariant 0 <= i <= |load| && total == SumValues(load[..i])
        {
          assert load[..i + 1][..i] == load[..i];
          total := total + load[i].value();
          i := i + 1;
        }
        assert load[..i] == load;
        team.AddPoints(total);
        load := [];
        state := Idle;
        path := [];
      }
    }

    /** execute_move: one step towards `target`, as MoveOutcome says; the points delivered go to
        the team. */
    method ExecuteMove(grid: Board, width: int, height: int, player1: Player<Vehicle>, target: Pos)
      returns (g: Board)
      requires Sized(grid, width, height) && InBounds(grid, position)
      modifies this, team
      ensures MoveOutcome(grid, BaseColumn(team == player1, width), target, old(position), old(load), old(path), old(state))
              == Moved(g, After(position, load, path, state, team.points - old(team.points)))
      ensures team.vehicles == old(team.vehicles)
    {
      SizedBounds(grid, width, height, target);
      SizedBounds(grid, width, height, position);
      if !(0 <= target.x < width && 0 <= target.y < height) {
        path := [];
        return grid;
      }
      var dest := grid[target.x][target.y];
      if !dest.Empty? && !dest.ItemAt? {
        path := [];
        return grid;
      }
      var old_ := position;
      g := grid;
      // The source's own bounds guard on the old cell; the precondition already makes it hold.
      if 0 <= old_.x < width && 0 <= old_.y < height {
        if g[old_.x][old_.y] == VehicleAt(this) {
          g := SetCell(g, old_, Empty);
        }
      }
      assert g == Vacate(grid, old_, this);
      ghost var vacated := g;
      if dest.ItemAt? {
        var picked := PickItem(dest.item);
        if picked {
          g := SetCell(g, target, Empty);
        } else {
          path := [];
          g := SetCell(g, old_, VehicleAt(this));
          Restore(grid, old_, this);
          return g;
        }
      }
      assert load == old(load) + (if dest.ItemAt? then [dest.item] else []);
      position := target;
      g := SetCell(g, target, VehicleAt(this));
      if dest.ItemAt? {
        Overwrite(vacated, target, Empty, VehicleAt(this));
      }
      Settle(BaseColumn(player1 == team, width));
    }

    /** A step never overfills: a load within the capacity stays within it, and the points
        earned are the value of a delivered load, never negative. */
    lemma MoveKeepsCapacity(grid: Board, baseX: int, target: Pos, position: Pos, cargo: seq<Item>, path: seq<Pos>, state: State)
      requires InBounds(grid, position) && |cargo| <= capacity
      ensures |MoveOutcome(grid, baseX, target, position, cargo, path, state).after.cargo| <= capacity
      ensures MoveOutcome(grid, baseX, target, position, cargo, path, state).after.earned >= 0
    {
      var m := MoveOutcome(grid, baseX, target, position, cargo, path, state);
      if Enterable(grid, target) {
        var dest := grid[target.x][target.y];
        if !(dest.ItemAt? && !Accepts(cargo, dest.item)) {
          SumValuesNonNegative(cargo + (if dest.ItemAt? then [dest.item] else []));
        }
      }
    }

    /** A delivery empties the load, leaves the vehicle idle with no path and earns exactly the
        value of everything it carried, the item just taken included. */
    lemma MoveDelivers(grid: Board, baseX: int, target: Pos, position: Pos, cargo: seq<Item>, path: seq<Pos>, state: State)
      requires InBounds(grid, position) && Enterable(grid, target)
      requires var dest := grid[target.x][target.y]; !(dest.ItemAt? && !Accepts(cargo, dest.item))
      requires target.x == baseX && (state == Returning || |cargo| + (if grid[target.x][target.y].ItemAt? then 1 else 0) >= capacity)
      ensures var dest := grid[target.x][target.y];
              MoveOutcome(grid, baseX, target, position, cargo, path, state).after
              == After(target, [], [], Idle, SumValues(cargo) + (if dest.ItemAt? then dest.item.value() else 0))
    {
      var dest := grid[target.x][target.y];
      var taken := if dest.ItemAt? then [dest.item] else [];
      SumValuesAppend(cargo, taken);
      if dest.ItemAt? {
        assert taken[..0] == [];
      }
      assert SumValues(cargo + taken) == SumValues(cargo) + (if dest.ItemAt? then dest.item.value() else 0);
      assert MoveOutcome(grid, baseX, target, position, cargo, path, state).after == Settled(baseX, target, cargo + taken, path, state);
    }

    /** A step changes at most two cells, the vehicle's old cell and the target, and keeps the
        shape of the board. */
    lemma MoveFrame(grid: Board, baseX: int, target: Pos, position: Pos, cargo: seq<Item>, path: seq<Pos>, state: State)
      requires InBounds(grid, position)
      ensures var b := MoveOutcome(grid, baseX, target, position, cargo, path, state).board;
              |b| == |grid| && (forall i :: 0 <= i < |b| ==> |b[i]| == |grid[i]|) &&
              forall q :: InBounds(grid, q) && q != position && q != target ==> b[q.x][q.y] == grid[q.x][q.y]
    {
    }

    /** On a board where the vehicle stands on its own cell, a step keeps every other vehicle and
        every mine in place and leaves the vehicle on exactly one cell, the one it now occupies. */
    lemma MoveKeepsOthers(grid: Board, baseX: int, target: Pos, position: Pos, cargo: seq<Item>, path: seq<Pos>, state: State)
      requires InBounds(grid, position) && grid[position.x][position.y] == VehicleAt(this)
      requires forall q :: InBounds(grid, q) && grid[q.x][q.y] == VehicleAt(this) ==> q == position
      ensures var m := MoveOutcome(grid, baseX, target, position, cargo, path, state);
              forall q :: InBounds(grid, q) && (grid[q.x][q.y].MineAt? || (grid[q.x][q.y].VehicleAt? && grid[q.x][q.y].vehicle != this))
                ==> m.board[q.x][q.y] == grid[q.x][q.y]
      ensures var m := MoveOutcome(grid, baseX, target, position, cargo, path, state);
              InBounds(grid, m.after.position) &&
              forall q :: InBounds(grid, q) ==> (m.board[q.x][q.y] == VehicleAt(this) <==> q == m.after.position)
      ensures var m := MoveOutcome(grid, baseX, target, position, cargo, path, state);
              forall q :: InBounds(grid, q) && m.board[q.x][q.y].VehicleAt? && m.board[q.x][q.y].vehicle != this
                ==> m.board[q.x][q.y] == grid[q.x][q.y]
    {
      var m := MoveOutcome(grid, baseX, target, position, cargo, path, state);
      MoveFrame(grid, baseX, target, position, cargo, path, state);
    }
  }
}
