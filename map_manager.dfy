/** The turn engine of map_manager.py: the world (grid, mines, danger matrix, the two teams),
    resetting it, rebuilding the danger matrix and resolving one turn. */
module Manager {
  import opened Wrappers
  import opened Positions
  import opened Items
  import opened Mines
  import opened Pathfinding
  import opened Players
  import opened Collections
  import opened Vehicles

  /** A danger matrix of `width` columns of `height` flags, indexed `danger[x][y]`. */
  predicate Shaped(d: seq<seq<bool>>, width: int, height: int)
  {
    |d| == width && forall i :: 0 <= i < |d| ==> |d[i]| == height
  }

  /** `[[False for _ in range(height)] for _ in range(width)]`. */
  function AllClear(width: nat, height: nat): (d: seq<seq<bool>>)
    ensures Shaped(d, width, height)
    ensures forall a, b :: 0 <= a < width && 0 <= b < height ==> !d[a][b]
  {
    seq(width, _ => seq(height, _ => false))
  }

  /** `[[None for _ in range(height)] for _ in range(width)]`. */
  function EmptyBoard(width: nat, height: nat): (g: Board)
    ensures Sized(g, width, height)
    ensures forall a, b :: 0 <= a < width && 0 <= b < height ==> g[a][b] == Empty
  {
    seq(width, _ => seq(height, _ => Empty))
  }

  /** `danger_zones[p.x][p.y] = True`: only that flag changes. */
  function SetFlag(d: seq<seq<bool>>, p: Pos): (r: seq<seq<bool>>)
    requires 0 <= p.x < |d| && 0 <= p.y < |d[p.x]|
    ensures |r| == |d| && forall i :: 0 <= i < |d| ==> |r[i]| == |d[i]|
    ensures forall a, b :: 0 <= a < |d| && 0 <= b < |d[a]| ==> r[a][b] == (d[a][b] || Pos(a, b) == p)
  {
    d[p.x := d[p.x][p.y := true]]
  }

  /** Some mine on the grid has `p` in its blast rectangle (centred on the mine's own position). */
  ghost predicate Threatened(grid: Board, p: Pos)
  {
    exists x, y :: 0 <= x < |grid| && 0 <= y < |grid[x]| && grid[x][y].MineAt? && grid[x][y].mine.InBlast(p)
  }

  /** What the object in cell `q` marks in the danger matrix: its blast rectangle for a mine, its
      own cell for a vehicle. */
  predicate Paints(grid: Board, q: Pos, p: Pos)
  {
    InBounds(grid, q) &&
    ((grid[q.x][q.y].MineAt? && grid[q.x][q.y].mine.InBlast(p)) || (grid[q.x][q.y].VehicleAt? && q == p))
  }

  /** The flag of `p` after the cells `(x, 0) .. (x, y - 1)` of column `x` have been visited. */
  function ColumnPaints(grid: Board, x: int, y: nat, p: Pos): bool
  {
    y > 0 && (ColumnPaints(grid, x, y - 1, p) || Paints(grid, Pos(x, y - 1), p))
  }

  /** The flag of `p` after the columns `0 .. x - 1`, of `height` cells each, have been visited. */
  function ColumnsPaint(grid: Board, x: nat, height: nat, p: Pos): bool
  {
    x > 0 && (ColumnsPaint(grid, x - 1, height, p) || ColumnPaints(grid, x - 1, height, p))
  }

  lemma {:induction false} ColumnPaintsMeaning(grid: Board, x: int, y: nat, p: Pos)
    ensures ColumnPaints(grid, x, y, p) <==> exists b :: 0 <= b < y && Paints(grid, Pos(x, b), p)
    decreases y
  {
    if y > 0 {
      ColumnPaintsMeaning(grid, x, y - 1, p);
    }
  }

  lemma {:induction false} ColumnsPaintMeaning(grid: Board, x: nat, height: nat, p: Pos)
    ensures ColumnsPaint(grid, x, height, p) <==> exists a, b :: 0 <= a < x && 0 <= b < height && Paints(grid, Pos(a, b), p)
    decreases x
  {
    if x > 0 {
      ColumnsPaintMeaning(grid, x - 1, height, p);
      ColumnPaintsMeaning(grid, x - 1, height, p);
      if ColumnPaints(grid, x - 1, height, p) {
        var b :| 0 <= b < height && Paints(grid, Pos(x - 1, b), p);
        assert 0 <= x - 1 < x && Paints(grid, Pos(x - 1, b), p);
      }
      if exists a, b :: 0 <= a < x && 0 <= b < height && Paints(grid, Pos(a, b), p) {
        var a, b :| 0 <= a < x && 0 <= b < height && Paints(grid, Pos(a, b), p);
        if a == x - 1 {
          assert Paints(grid, Pos(x - 1, b), p);
        }
      }
    }
  }

  /** After the whole grid is visited, a cell's flag is set exactly when a grid mine's rectangle
      covers it or it holds a vehicle. */
  lemma DangerMeaning(grid: Board, width: nat, height: nat, p: Pos)
    requires Sized(grid, width, height) && InBounds(grid, p)
    ensures ColumnsPaint(grid, width, height, p) <==> Threatened(grid, p) || grid[p.x][p.y].VehicleAt?
  {
    ColumnsPaintMeaning(grid, width, height, p);
    if Threatened(grid, p) {
      var x, y :| 0 <= x < |grid| && 0 <= y < |grid[x]| && grid[x][y].MineAt? && grid[x][y].mine.InBlast(p);
      assert Paints(grid, Pos(x, y), p);
    }
    if grid[p.x][p.y].VehicleAt? {
      assert Paints(grid, p, p);
    }
    if ColumnsPaint(grid, width, height, p) {
      var a, b :| 0 <= a < width && 0 <= b < height && Paints(grid, Pos(a, b), p);
      if grid[a][b].MineAt? && grid[a][b].mine.InBlast(p) {
        assert Threatened(grid, p);
      }
    }
  }

  /** The `dx`/`dy` loops of update_danger_zones: marks every in-bounds cell of the mine's blast
      rectangle, and nothing else. */
  method PaintBlast(d: seq<seq<bool>>, width: nat, height: nat, m: Mine) returns (r: seq<seq<bool>>)
    requires Shaped(d, width, height)
    ensures Shaped(r, width, height)
    ensures forall a, b :: 0 <= a < width && 0 <= b < height ==> r[a][b] == (d[a][b] || m.InBlast(Pos(a, b)))
  {
    r := d;
    var mx, my := m.position.x, m.position.y;
    var xr: int, yr: int := m.xRadius(), m.yRadius();
    for dx := -xr to xr + 1
      invariant Shaped(r, width, height)
      invariant forall a, b :: 0 <= a < width && 0 <= b < height ==>
                  r[a][b] == (d[a][b] || (m.InBlast(Pos(a, b)) && a - mx < dx))
    {
      for dy := -yr to yr + 1
        invariant Shaped(r, width, height)
        invariant forall a, b :: 0 <= a < width && 0 <= b < height ==>
                    r[a][b] == (d[a][b] || (m.InBlast(Pos(a, b)) && (a - mx < dx || (a - mx == dx && b - my < dy))))
      {
        var nx, ny := mx + dx, my + dy;
        if 0 <= nx < width && 0 <= ny < height {
          r := SetFlag(r, Pos(nx, ny));
        }
      }
    }
  }

  /** The `(position, vehicle)` pairs check_collisions groups, in roster order. */
  function Located(vs: seq<Vehicle>): (r: seq<(Pos, Vehicle)>)
    reads vs
    ensures |r| == |vs| && forall i :: 0 <= i < |vs| ==> r[i] == (vs[i].position, vs[i])
  {
    if vs == [] then [] else Located(vs[..|vs| - 1]) + [(vs[|vs| - 1].position, vs[|vs| - 1])]
  }

  /** The vehicles of `vs` whose position another vehicle of `vs` shares. */
  ghost function Collided(vs: seq<Vehicle>): set<Vehicle>
    reads vs
  {
    Shared(Located(vs))
  }

  /** A vehicle is in Collided exactly when a different entry of `vs` has its position. */
  lemma CollidedMeaning(vs: seq<Vehicle>, v: Vehicle)
    ensures v in Collided(vs) <==>
              exists i, j :: 0 <= i < |vs| && 0 <= j < |vs| && i != j && vs[i] == v && vs[j].position == vs[i].position
  {
    var pairs := Located(vs);
    if v in Collided(vs) {
      var i :| 0 <= i < |pairs| && (exists j :: 0 <= j < |pairs| && j != i && pairs[j].0 == pairs[i].0) && pairs[i].1 == v;
      var j :| 0 <= j < |pairs| && j != i && pairs[j].0 == pairs[i].0;
      assert vs[i] == v && vs[j].position == vs[i].position;
    }
  }

  /** Grouping a roster without duplicates by position: the entries listing more than one
      vehicle list exactly the collided vehicles, and every listed vehicle is from the roster. */
  lemma PositionGroups(vs: seq<Vehicle>)
    ensures var g := GroupBy(Located(vs)); NoDuplicates(vs) ==> Crowded(g, |g|) == Collided(vs)
    ensures var g := GroupBy(Located(vs)); forall k, v :: 0 <= k < |g| && v in g[k].1 ==> v in vs
  {
    var pairs := Located(vs);
    var g := GroupBy(pairs);
    if NoDuplicates(vs) {
      assert DistinctValues(pairs);
      CrowdedIsShared(pairs);
    }
    forall k, v | 0 <= k < |g| && v in g[k].1 ensures v in vs {
      GroupedFrom(pairs, k, v);
    }
  }

  /** `for v in vehicles: pos_map.setdefault(v.position, []).append(v)`. */
  method PositionMap(vehicles: seq<Vehicle>) returns (posMap: Groups<Pos, Vehicle>)
    ensures posMap == GroupBy(Located(vehicles))
    ensures NoDuplicates(vehicles) ==> Crowded(posMap, |posMap|) == Collided(vehicles)
    ensures forall k, v :: 0 <= k < |posMap| && v in posMap[k].1 ==> v in vehicles
  {
    posMap := [];
    for i := 0 to |vehicles|
      invariant posMap == GroupBy(Located(vehicles[..i]))
    {
      assert vehicles[..i + 1][..i] == vehicles[..i];
      posMap := AddTo(posMap, vehicles[i].position, vehicles[i]);
    }
    assert vehicles[..|vehicles|] == vehicles;
    PositionGroups(vehicles);
  }

  /** Some mine of `found` has `p` in its blast rectangle. */
  ghost predicate Hit(found: seq<Mine>, p: Pos)
  {
    exists k :: 0 <= k < |found| && found[k].InBlast(p)
  }

  /** The vehicles of `pairs` whose position is inside the blast rectangle of some mine of
      `found`. */
  ghost function Blasted(pairs: seq<(Pos, Vehicle)>, found: seq<Mine>): set<Vehicle>
  {
    if pairs == [] then {}
    else Blasted(pairs[..|pairs| - 1], found) + (if Hit(found, pairs[|pairs| - 1].0) then {pairs[|pairs| - 1].1} else {})
  }

  /** One more pair adds its vehicle exactly when its position is hit. */
  lemma BlastedStep(pairs: seq<(Pos, Vehicle)>, i: nat, found: seq<Mine>)
    requires i < |pairs|
    ensures Blasted(pairs[..i + 1], found) == Blasted(pairs[..i], found) + (if Hit(found, pairs[i].0) then {pairs[i].1} else {})
  {
    assert pairs[..i + 1][..i] == pairs[..i];
  }

  /** The vehicles of `pairs` whose position is inside the blast rectangle of some mine on the
      grid. */
  ghost function Doomed(pairs: seq<(Pos, Vehicle)>, grid: Board): set<Vehicle>
  {
    set i | 0 <= i < |pairs| && Threatened(grid, pairs[i].0) :: pairs[i].1
  }

  /** When `found` hits exactly the cells the grid's mines threaten, its blasted vehicles are the
      doomed ones. */
  lemma {:induction false} BlastedDoomed(pairs: seq<(Pos, Vehicle)>, found: seq<Mine>, grid: Board)
    requires forall i :: 0 <= i < |pairs| ==> (Hit(found, pairs[i].0) <==> Threatened(grid, pairs[i].0))
    ensures Blasted(pairs, found) == Doomed(pairs, grid)
    decreases |pairs|
  {
    if pairs != [] {
      var init := pairs[..|pairs| - 1];
      BlastedDoomed(init, found, grid);
    }
  }

  /** The mines of cells `(x, 0) .. (x, y - 1)`, in order. */
  function ColumnMines(grid: Board, x: int, y: nat): seq<Mine>
  {
    if y == 0 then []
    else ColumnMines(grid, x, y - 1) +
         (if InBounds(grid, Pos(x, y - 1)) && grid[x][y - 1].MineAt? then [grid[x][y - 1].mine] else [])
  }

  /** The mines of columns `0 .. x - 1`, of `height` cells each, in x-major order. */
  function GridMineList(grid: Board, x: nat, height: nat): seq<Mine>
  {
    if x == 0 then [] else GridMineList(grid, x - 1, height) + ColumnMines(grid, x - 1, height)
  }

  lemma {:induction false} ColumnMinesMeaning(grid: Board, x: int, y: nat, m: Mine)
    ensures m in ColumnMines(grid, x, y) <==> exists b :: 0 <= b < y && InBounds(grid, Pos(x, b)) && grid[x][b] == MineAt(m)
    decreases y
  {
    if y > 0 {
      ColumnMinesMeaning(grid, x, y - 1, m);
    }
  }

  lemma {:induction false} GridMineListMeaning(grid: Board, x: nat, height: nat, m: Mine)
    ensures m in GridMineList(grid, x, height) <==>
              exists a, b :: 0 <= a < x && 0 <= b < height && InBounds(grid, Pos(a, b)) && grid[a][b] == MineAt(m)
    decreases x
  {
    if x > 0 {
      GridMineListMeaning(grid, x - 1, height, m);
      ColumnMinesMeaning(grid, x - 1, height, m);
      if m in ColumnMines(grid, x - 1, height) {
        var b :| 0 <= b < height && InBounds(grid, Pos(x - 1, b)) && grid[x - 1][b] == MineAt(m);
        assert 0 <= x - 1 < x;
      }
      if exists a, b :: 0 <= a < x && 0 <= b < height && InBounds(grid, Pos(a, b)) && grid[a][b] == MineAt(m) {
        var a, b :| 0 <= a < x && 0 <= b < height && InBounds(grid, Pos(a, b)) && grid[a][b] == MineAt(m);
        if a == x - 1 {
          assert InBounds(grid, Pos(x - 1, b)) && grid[x - 1][b] == MineAt(m);
        }
      }
    }
  }

  /** The vehicles in the blast of some mine of the grid's mine list are exactly the ones
      standing on a threatened cell. */
  lemma GridMinesDoom(grid: Board, width: nat, height: nat, pairs: seq<(Pos, Vehicle)>)
    requires Sized(grid, width, height)
    ensures Blasted(pairs, GridMineList(grid, width, height)) == Doomed(pairs, grid)
  {
    var found := GridMineList(grid, width, height);
    forall i | 0 <= i < |pairs|
      ensures Hit(found, pairs[i].0) <==> Threatened(grid, pairs[i].0)
    {
      GridMinesHit(grid, width, height, pairs[i].0);
    }
    BlastedDoomed(pairs, found, grid);
  }

  /** The mine list of the whole grid holds exactly the grid's mines, so a vehicle is hit by it
      exactly when some grid mine threatens its cell. */
  lemma GridMinesHit(grid: Board, width: nat, height: nat, p: Pos)
    requires Sized(grid, width, height)
    ensures Hit(GridMineList(grid, width, height), p) <==> Threatened(grid, p)
  {
    var found := GridMineList(grid, width, height);
    if Hit(found, p) {
      var k :| 0 <= k < |found| && found[k].InBlast(p);
      GridMineListMeaning(grid, width, height, found[k]);
    }
    if Threatened(grid, p) {
      var x, y :| 0 <= x < |grid| && 0 <= y < |grid[x]| && grid[x][y].MineAt? && grid[x][y].mine.InBlast(p);
      GridMineListMeaning(grid, width, height, grid[x][y].mine);
      assert InBounds(grid, Pos(x, y)) && grid[x][y] == MineAt(grid[x][y].mine);
    }
  }

  /** The index of `max(vs, key=lambda v: v.capacity)`: a vehicle of greatest capacity, the
      first one when several tie. */
  function WinnerIndex(vs: seq<Vehicle>): (k: nat)
    requires vs != []
    ensures k < |vs|
    ensures forall i :: 0 <= i < |vs| ==> vs[i].capacity <= vs[k].capacity
    ensures forall i :: 0 <= i < k ==> vs[i].capacity < vs[k].capacity
    decreases |vs|
  {
    if |vs| == 1 then 0
    else
      var k := WinnerIndex(vs[..|vs| - 1]);
      if vs[|vs| - 1].capacity > vs[k].capacity then |vs| - 1 else k
  }

  /** intent_by_vehicle: the `(next cell, vehicle)` pair of every vehicle of `vs` with a planned
      step, in roster order. */
  function Intents(vs: seq<Vehicle>): (r: seq<(Pos, Vehicle)>)
    reads vs
    ensures forall k :: 0 <= k < |r| ==> r[k].1 in vs && r[k].1.path != [] && r[k].0 == r[k].1.path[0]
    ensures forall i :: 0 <= i < |vs| && vs[i].path != [] ==> (vs[i].path[0], vs[i]) in r
    decreases |vs|
  {
    if vs == [] then []
    else
      var v := vs[|vs| - 1];
      Intents(vs[..|vs| - 1]) + (if v.path != [] then [(v.path[0], v)] else [])
  }

  /** A roster without duplicates has at most one intent per vehicle. */
  lemma {:induction false} IntentsDistinct(vs: seq<Vehicle>)
    requires NoDuplicates(vs)
    ensures DistinctValues(Intents(vs))
    decreases |vs|
  {
    if vs != [] {
      var init := vs[..|vs| - 1];
      IntentsDistinct(init);
      var r := Intents(init);
      forall k | 0 <= k < |r| ensures r[k].1 != vs[|vs| - 1] {
        var j :| 0 <= j < |init| && init[j] == r[k].1;
        assert vs[j] == init[j];
      }
    }
  }

  /** The vehicles of the first `k` entries of `targets` that yield: in an entry listing more
      than one vehicle, every vehicle but the winner. */
  ghost function Yielding(targets: Groups<Pos, Vehicle>, k: nat): set<Vehicle>
    requires k <= |targets|
  {
    if k == 0 then {}
    else
      var vs := targets[k - 1].1;
      Yielding(targets, k - 1) + (if |vs| > 1 then Members(vs) - {vs[WinnerIndex(vs)]} else {})
  }

  /** A vehicle yields exactly when it is listed in a contested entry whose winner it is not. */
  lemma {:induction false} YieldingMember(targets: Groups<Pos, Vehicle>, k: nat, v: Vehicle)
    requires k <= |targets|
    ensures v in Yielding(targets, k) <==>
              exists a :: 0 <= a < k && |targets[a].1| > 1 && v in targets[a].1 && v != targets[a].1[WinnerIndex(targets[a].1)]
  {
    if k > 0 {
      YieldingMember(targets, k - 1, v);
    }
  }

  /** Under prefer_move the intents left after resolution have pairwise different targets: of
      the vehicles heading for one cell only the winner keeps its step. */
  lemma ResolvedApart(intents: seq<(Pos, Vehicle)>, i: nat, j: nat)
    requires DistinctValues(intents)
    requires var approved := Drop(intents, Yielding(GroupBy(intents), |GroupBy(intents)|));
             i < j < |approved|
    ensures var approved := Drop(intents, Yielding(GroupBy(intents), |GroupBy(intents)|));
            approved[i].0 != approved[j].0
  {
    var g := GroupBy(intents);
    var gone := Yielding(g, |g|);
    var approved := Drop(intents, gone);
    DropDistinct(intents, gone);
    if approved[i].0 == approved[j].0 {
      var key := approved[i].0;
      var v, w := approved[i].1, approved[j].1;
      var n :| 0 <= n < |intents| && intents[n] == approved[i];
      var m :| 0 <= m < |intents| && intents[m] == approved[j];
      Contested(intents, key, v, w, n, m);
      var a := IndexOf(Keys(g), key);
      var winner := g[a].1[WinnerIndex(g[a].1)];
      var loser := if v != winner then v else w;
      YieldingMember(g, |g|, loser);
    }
  }

  /** Two different vehicles heading for one cell share that cell's entry, which then lists more
      than one vehicle. */
  lemma Contested(intents: seq<(Pos, Vehicle)>, key: Pos, v: Vehicle, w: Vehicle, n: nat, m: nat)
    requires n < |intents| && m < |intents| && intents[n] == (key, v) && intents[m] == (key, w) && v != w
    ensures key in Keys(GroupBy(intents))
    ensures var g := GroupBy(intents); var a := IndexOf(Keys(g), key);
            a < |g| && |g[a].1| > 1 && v in g[a].1 && w in g[a].1
  {
    var g := GroupBy(intents);
    GroupByGroups(intents);
    assert key in Keys(g);
    var a := IndexOf(Keys(g), key);
    assert g[a].1 == Select(intents, key);
    SelectMember(intents, key, v);
    SelectMember(intents, key, w);
    TwoMembers(g[a].1, v, w);
  }

  /** Under prefer_move the winner of every entry keeps its intent: together with
      `ResolvedApart`, exactly one vehicle heading for each target cell is approved. */
  lemma WinnerKeeps(intents: seq<(Pos, Vehicle)>, a: nat)
    requires DistinctValues(intents)
    requires a < |GroupBy(intents)|
    ensures var g := GroupBy(intents); var vs := g[a].1;
            vs != [] && (g[a].0, vs[WinnerIndex(vs)]) in Drop(intents, Yielding(g, |g|))
  {
    var g := GroupBy(intents);
    GroupByGroups(intents);
    var key, vs := g[a].0, g[a].1;
    var winner := vs[WinnerIndex(vs)];
    SelectMember(intents, key, winner);
    var n :| 0 <= n < |intents| && intents[n] == (key, winner);
    YieldingMember(g, |g|, winner);
    if winner in Yielding(g, |g|) {
      var b :| 0 <= b < |g| && |g[b].1| > 1 && winner in g[b].1 && winner != g[b].1[WinnerIndex(g[b].1)];
      OneEntry(intents, a, b, winner);
      assert false;
    }
    assert intents[n].1 !in Yielding(g, |g|);
  }

  /** When every vehicle has at most one intent, each vehicle is listed in one entry only. */
  lemma OneEntry(intents: seq<(Pos, Vehicle)>, a: nat, b: nat, v: Vehicle)
    requires DistinctValues(intents)
    requires a < |GroupBy(intents)| && b < |GroupBy(intents)|
    requires v in GroupBy(intents)[a].1 && v in GroupBy(intents)[b].1
    ensures a == b
  {
    var g := GroupBy(intents);
    GroupByGroups(intents);
    SelectMember(intents, g[a].0, v);
    SelectMember(intents, g[b].0, v);
    var n :| 0 <= n < |intents| && intents[n] == (g[a].0, v);
    var m :| 0 <= m < |intents| && intents[m] == (g[b].0, v);
    assert n == m;
    assert g[a].0 == g[b].0;
  }

  /** A roster vehicle is doomed exactly when a mine of the grid threatens its position. */
  lemma DoomedMeaning(vs: seq<Vehicle>, grid: Board, v: Vehicle)
    requires v in vs
    ensures v in Doomed(Located(vs), grid) <==> Threatened(grid, v.position)
  {
    var pairs := Located(vs);
    var i :| 0 <= i < |vs| && vs[i] == v;
    assert pairs[i] == (v.position, v);
  }

  /** The intent collection of next_turn: `intent_by_vehicle` pairs every vehicle that has a
      next step with that step's cell, and `target_map` groups those vehicles by the cell, both
      in roster order. */
  method CollectIntents(vehicles: seq<Vehicle>) returns (targets: Groups<Pos, Vehicle>, intents: seq<(Pos, Vehicle)>)
    ensures intents == Intents(vehicles)
    ensures targets == GroupBy(intents)
  {
    targets, intents := [], [];
    for i := 0 to |vehicles|
      invariant intents == Intents(vehicles[..i])
      invariant targets == GroupBy(intents)
    {
      assert vehicles[..i + 1][..i] == vehicles[..i];
      var v := vehicles[i];
      var next := v.PeekNext();
      if next.Some? {
        targets := AddTo(targets, next.value, v);
        assert (intents + [(next.value, v)])[..|intents|] == intents;
        intents := intents + [(next.value, v)];
      }
    }
    assert vehicles[..|vehicles|] == vehicles;
  }

  /** The planning loop of next_turn: every vehicle of `vehicles`, in order, plans against the
      same grid and danger map; only paths and states change. */
  method PlanEach(vehicles: seq<Vehicle>, grid: Board, danger: seq<seq<bool>>, player1: Player<Vehicle>, width: int)
    requires NoDuplicates(vehicles) && Covers(grid, danger)
    requires forall j :: 0 <= j < |vehicles| ==> InBounds(grid, vehicles[j].position)
    modifies set v | v in vehicles
    ensures forall j :: 0 <= j < |vehicles| ==>
              Planned(grid, danger, BaseColumn(vehicles[j].team == player1, width), vehicles[j].position,
                      |vehicles[j].load|, vehicles[j].capacity, old(vehicles[j].path), old(vehicles[j].state),
                      vehicles[j].path, vehicles[j].state)
    ensures forall j :: 0 <= j < |vehicles| ==> vehicles[j].position == old(vehicles[j].position) && vehicles[j].load == old(vehicles[j].load)
  {
    for i := 0 to |vehicles|
      invariant forall j :: 0 <= j < i ==>
                  Planned(grid, danger, BaseColumn(vehicles[j].team == player1, width), vehicles[j].position,
                          |vehicles[j].load|, vehicles[j].capacity, old(vehicles[j].path), old(vehicles[j].state),
                          vehicles[j].path, vehicles[j].state)
      invariant forall j :: i <= j < |vehicles| ==> vehicles[j].path == old(vehicles[j].path) && vehicles[j].state == old(vehicles[j].state)
      invariant forall j :: 0 <= j < |vehicles| ==> vehicles[j].position == old(vehicles[j].position) && vehicles[j].load == old(vehicles[j].load)
    {
      vehicles[i].Plan(grid, danger, player1, width);
    }
  }

  class MapManager {
    const player1: Player<Vehicle>
    const player2: Player<Vehicle>
    const width: nat
    const height: nat
    var grid: Board
    var mines: seq<Mine>
    var danger: seq<seq<bool>>
    var collisionPolicy: string
    /** Every vehicle that has been put on the grid, destroyed ones included. */
    ghost var fleet: set<Vehicle>

    /** `list(player1.vehicles) + list(player2.vehicles)`. */
    function Roster(): seq<Vehicle>
      reads this, player1, player2
    {
      player1.vehicles + player2.vehicles
    }

    /** The two teams are distinct, their rosters hold distinct vehicles, and every vehicle in a
        roster belongs to that roster's team. */
    ghost predicate Teams()
      reads this, player1, player2
    {
      player1 != player2 && NoDuplicates(Roster()) && Owns(player1.vehicles, player2.vehicles)
    }

    /** Every vehicle of `s1` belongs to player 1 and every vehicle of `s2` to player 2. */
    ghost predicate Owns(s1: seq<Vehicle>, s2: seq<Vehicle>)
    {
      (forall v :: v in s1 ==> v.team == player1) && (forall v :: v in s2 ==> v.team == player2)
    }

    /** The world is consistent: the grid and the danger matrix are `width` by `height`; the
        teams are as Teams says; every roster vehicle is within its capacity and stands on its own
        cell of the grid; and every vehicle on the grid (a destroyed one included) stands where its
        position says. */
    ghost predicate Valid()
      reads this, player1, player2, fleet
    {
      Placed() && Shaped(danger, width, height) && Fielded(player1.vehicles, player2.vehicles)
    }

    /** The grid is `width` by `height` and every vehicle on it (a destroyed one included) is in
        the fleet and stands where its position says. */
    ghost predicate Placed()
      reads this, fleet
    {
      Sized(grid, width, height) &&
      forall x, y :: 0 <= x < width && 0 <= y < height && grid[x][y].VehicleAt? ==>
        grid[x][y].vehicle in fleet && grid[x][y].vehicle.position == Pos(x, y)
    }

    /** Rosters `s1` and `s2` are as Teams says, and each of their vehicles is in the fleet
        and on its own cell of the grid within its capacity. */
    ghost predicate Fielded(s1: seq<Vehicle>, s2: seq<Vehicle>)
      reads this, fleet
    {
      player1 != player2 && NoDuplicates(s1 + s2) && Owns(s1, s2) &&
      forall v :: v in s1 + s2 ==> v in fleet && OnBoard(v)
    }

    /** Withdrawing vehicles from the rosters keeps them fielded. */
    lemma FieldedKeep(s1: seq<Vehicle>, s2: seq<Vehicle>, gone: set<Vehicle>)
      requires Fielded(s1, s2)
      ensures Fielded(Keep(s1, gone), Keep(s2, gone))
    {
      KeepAppend(s1, s2, gone);
      KeepNoDuplicates(s1 + s2, gone);
      KeepMembers(s1, gone);
      KeepMembers(s2, gone);
    }

    /** A roster vehicle stands on the grid cell of its position and carries at most its
        capacity. */
    predicate OnBoard(v: Vehicle)
      reads this, v
    {
      InBounds(grid, v.position) && grid[v.position.x][v.position.y] == VehicleAt(v) && |v.load| <= v.capacity
    }

    /** A new world: two empty teams, an empty grid, no mines, no danger, policy allow_crash. */
    constructor (width: nat, height: nat)
      ensures Valid() && fresh(player1) && fresh(player2)
      ensures this.width == width && this.height == height
      ensures grid == EmptyBoard(width, height) && mines == [] && danger == AllClear(width, height)
      ensures collisionPolicy == "allow_crash" && fleet == {}
      ensures player1.name == "Player 1" && player1.points == 0 && player1.vehicles == []
      ensures player2.name == "Player 2" && player2.points == 0 && player2.vehicles == []
    {
      player1 := new Player("Player 1");
      player2 := new Player("Player 2");
      this.width := width;
      this.height := height;
      grid := EmptyBoard(width, height);
      mines := [];
      danger := AllClear(width, height);
      collisionPolicy := "allow_crash";
      fleet := {};
    }

    /** clear: every cell empty, no mines, no danger and both rosters empty; the points and the
        size of the world stay. */
    method Clear()
      requires Valid()
      modifies this, player1, player2
      ensures Valid()
      ensures forall a, b :: 0 <= a < width && 0 <= b < height ==> grid[a][b] == Empty
      ensures mines == [] && danger == AllClear(width, height)
      ensures player1.vehicles == [] && player2.vehicles == []
      ensures player1.points == old(player1.points) && player2.points == old(player2.points)
      ensures collisionPolicy == old(collisionPolicy) && fleet == old(fleet)
    {
      var g := grid;
      for x := 0 to width
        invariant Sized(g, width, height)
        invariant forall a, b :: 0 <= a < width && 0 <= b < height ==>
                    g[a][b] == if a < x then Empty else grid[a][b]
      {
        for y := 0 to height
          invariant Sized(g, width, height)
          invariant forall a, b :: 0 <= a < width && 0 <= b < height ==>
                      g[a][b] == if a < x || (a == x && b < y) then Empty else grid[a][b]
        {
          g := SetCell(g, Pos(x, y), Empty);
        }
      }
      grid := g;
      mines := [];
      danger := AllClear(width, height);
      player1.vehicles := [];
      player2.vehicles := [];
    }

    /** update_danger_zones: rebuilds the matrix from scratch; a flag is set exactly when some
        grid mine's rectangle covers the cell or the cell holds a vehicle. */
    method UpdateDangerZones()
      requires Valid()
      modifies this
      ensures Valid()
      ensures forall a, b :: 0 <= a < width && 0 <= b < height ==>
                (danger[a][b] <==> Threatened(grid, Pos(a, b)) || grid[a][b].VehicleAt?)
      ensures grid == old(grid) && mines == old(mines) && collisionPolicy == old(collisionPolicy) && fleet == old(fleet)
    {
      var d := AllClear(width, height);
      for x := 0 to width
        modifies {}
        invariant Shaped(d, width, height)
        invariant forall a, b :: 0 <= a < width && 0 <= b < height ==> d[a][b] == ColumnsPaint(grid, x, height, Pos(a, b))
      {
        for y := 0 to height
          modifies {}
          invariant Shaped(d, width, height)
          invariant forall a, b :: 0 <= a < width && 0 <= b < height ==>
                      d[a][b] == (ColumnsPaint(grid, x, height, Pos(a, b)) || ColumnPaints(grid, x, y, Pos(a, b)))
        {
          var obj := grid[x][y];
          if obj.MineAt? {
            d := PaintBlast(d, width, height, obj.mine);
          }
          if obj.VehicleAt? {
            var vp := obj.vehicle.position;
            d := SetFlag(d, vp);
          }
        }
      }
      danger := d;
      forall a, b | 0 <= a < width && 0 <= b < height
        ensures danger[a][b] <==> Threatened(grid, Pos(a, b)) || grid[a][b].VehicleAt?
      {
        DangerMeaning(grid, width, height, Pos(a, b));
      }
    }

    /** `if v in v.team.vehicles: v.team.vehicles.remove(v)`: the rosters lose `v`, kept as the
        vehicles of `s1` and `s2` not in `gone + {v}`. */
    method Withdraw(v: Vehicle, ghost s1: seq<Vehicle>, ghost s2: seq<Vehicle>, ghost gone: set<Vehicle>)
      requires player1 != player2 && NoDuplicates(s1 + s2) && v in s1 + s2
      requires Owns(s1, s2)
      requires player1.vehicles == Keep(s1, gone) && player2.vehicles == Keep(s2, gone)
      modifies player1, player2
      ensures player1.vehicles == Keep(s1, gone + {v}) && player2.vehicles == Keep(s2, gone + {v})
      ensures player1.points == old(player1.points) && player2.points == old(player2.points)
    {
      NoDuplicatesSplit(s1, s2);
      if v in v.team.vehicles {
        v.team.vehicles := RemoveFirst(v.team.vehicles, v);
      }
      if v in s1 {
        KeepUnchanged(s2, gone, v);
        RemoveFirstKeep(s1, gone, v);
        if v !in Keep(s1, gone) {
          RemoveFirstAbsent(Keep(s1, gone), v);
        }
      } else {
        KeepUnchanged(s1, gone, v);
        RemoveFirstKeep(s2, gone, v);
        if v !in Keep(s2, gone) {
          RemoveFirstAbsent(Keep(s2, gone), v);
        }
      }
    }

    /** check_collisions: first every vehicle sharing its position with another roster vehicle
        leaves its roster, then every remaining vehicle inside the blast rectangle of a mine on
        the grid does. A consistent world has no shared positions, so what leaves is exactly the
        vehicles the grid's mines threaten; the grid itself is untouched. */
    method CheckCollisions()
      requires Valid()
      modifies player1, player2
      ensures Valid()
      ensures player1.vehicles == Keep(old(player1.vehicles), old(Doomed(Located(Roster()), grid)))
      ensures player2.vehicles == Keep(old(player2.vehicles), old(Doomed(Located(Roster()), grid)))
      ensures player1.points == old(player1.points) && player2.points == old(player2.points)
    {
      ghost var s1, s2 := player1.vehicles, player2.vehicles;
      ghost var pairs := Located(Roster());
      NoCollisions();
      RemoveCollided();
      KeepNothing(s1);
      KeepNothing(s2);
      assert player1.vehicles == s1 && player2.vehicles == s2;
      assert unchanged(fleet);
      assert Located(Roster()) == pairs;
      RemoveDoomed();
    }

    /** The mine half of check_collisions: every roster vehicle inside the blast rectangle of a
        mine on the grid leaves its roster. */
    method RemoveDoomed()
      requires Valid()
      modifies player1, player2
      ensures Valid()
      ensures player1.vehicles == Keep(old(player1.vehicles), old(Doomed(Located(Roster()), grid)))
      ensures player2.vehicles == Keep(old(player2.vehicles), old(Doomed(Located(Roster()), grid)))
      ensures player1.points == old(player1.points) && player2.points == old(player2.points)
    {
      ghost var s1, s2 := player1.vehicles, player2.vehicles;
      ghost var pairs := Located(Roster());
      ghost var doomed := Doomed(pairs, grid);
      var found := CollectMines();
      GridMinesDoom(grid, width, height, pairs);
      RemoveBlasted(found);
      Withdrawn(doomed);
    }

    /** next_turn: every roster vehicle plans; the vehicles with a next step announce it; under
        prefer_move contested cells are resolved; the approved steps are executed in order; the
        danger matrix is recomputed; and collisions are checked. Afterwards the world is
        consistent, no vehicle joined a roster, a vehicle stays in its roster exactly when no
        mine threatens the cell it now stands on, no team lost points and the danger matrix
        flags exactly the threatened cells and the vehicles' cells. The turn number only decides
        when the alternating mines would toggle, which this model requires not to happen. */
    method NextTurn(currentTurn: int)
      requires Valid()
      requires (currentTurn + 1) % 7 != 0 || forall i :: 0 <= i < |mines| ==> mines[i].kind != G1
      modifies this, player1, player2, set v | v in Roster()
      ensures Valid()
      ensures forall v :: v in Roster() ==> v in old(Roster())
      ensures forall v :: v in old(Roster()) ==> (v in Roster() <==> !Threatened(grid, v.position))
      ensures player1.points >= old(player1.points) && player2.points >= old(player2.points)
      ensures forall a, b :: 0 <= a < width && 0 <= b < height ==>
                (danger[a][b] <==> Threatened(grid, Pos(a, b)) || grid[a][b].VehicleAt?)
      ensures mines == old(mines) && collisionPolicy == old(collisionPolicy) && fleet == old(fleet)
    {
      var vehicles := Roster();
      ghost var s1, s2 := player1.vehicles, player2.vehicles;
      Move();
      UpdateDangerZones();
      label checking:
      CheckCollisions();
      ghost var doomed := old@checking(Doomed(Located(Roster()), grid));
      forall v | v in vehicles ensures v in Roster() <==> !Threatened(grid, v.position) {
        KeepSplit(s1, s2, doomed, v);
        DoomedMeaning(vehicles, grid, v);
      }
      KeepMembers(s1, doomed);
      KeepMembers(s2, doomed);
    }

    /** The movement part of next_turn: planning, intents, resolution and execution. The rosters
        stay as they are and no team loses points. */
    method Move()
      requires Valid()
      modifies this, player1, player2, set v | v in Roster()
      ensures Valid()
      ensures player1.vehicles == old(player1.vehicles) && player2.vehicles == old(player2.vehicles)
      ensures player1.points >= old(player1.points) && player2.points >= old(player2.points)
      ensures mines == old(mines) && collisionPolicy == old(collisionPolicy) && fleet == old(fleet)
    {
      var vehicles := Roster();
      PlanAll();
      var targets, intents := CollectIntents(vehicles);
      forall k, v | 0 <= k < |targets| && v in targets[k].1 ensures v in Roster() {
        GroupedFrom(intents, k, v);
      }
      var approved := Resolve(targets, intents);
      ExecuteAll(approved);
    }

    /** The planning phase of next_turn: every roster vehicle plans, in roster order. Planning
        reads only the grid and the danger matrix and moves nothing, so each vehicle ends with
        the path and state Planned gives it and the world stays consistent. */
    method PlanAll()
      requires Valid()
      modifies set v | v in Roster()
      ensures Valid()
      ensures forall v :: v in Roster() ==>
                Planned(grid, danger, BaseColumn(v.team == player1, width), v.position, |v.load|, v.capacity,
                        old(v.path), old(v.state), v.path, v.state)
      ensures forall v :: v in Roster() ==> v.position == old(v.position) && v.load == old(v.load)
    {
      var vehicles := Roster();
      assert forall j :: 0 <= j < |vehicles| ==> OnBoard(vehicles[j]);
      PlanEach(vehicles, grid, danger, player1, width);
      KeptValid();
    }

    /** Withdrawing a set of vehicles from both rosters, and changing nothing else the world reads,
        keeps it consistent. */
    twostate lemma Withdrawn(gone: set<Vehicle>)
      requires old(Valid()) && unchanged(this)
      requires forall v :: v in old(fleet) ==> v.position == old(v.position) && v.load == old(v.load)
      requires player1.vehicles == Keep(old(player1.vehicles), gone)
      requires player2.vehicles == Keep(old(player2.vehicles), gone)
      ensures Valid()
    {
      FieldedKeep(old(player1.vehicles), old(player2.vehicles), gone);
    }

    /** Valid depends on the vehicles only through their positions and loads, so any change to
        their other fields keeps it. */
    twostate lemma KeptValid()
      requires old(Valid()) && unchanged(this, player1, player2)
      requires forall v :: v in old(fleet) ==> v.position == old(v.position) && v.load == old(v.load)
      ensures Valid()
    {
    }

    /** The conflict resolution of next_turn. Under allow_crash every intent stands. Otherwise,
        for every cell that more than one vehicle heads for, the vehicle of greatest capacity
        (the first of them on a tie) keeps its step and every other one drops its path and its
        intent. Nothing else changes. */
    method Resolve(targets: Groups<Pos, Vehicle>, intents: seq<(Pos, Vehicle)>) returns (approved: seq<(Pos, Vehicle)>)
      requires Valid()
      requires forall k, v :: 0 <= k < |targets| && v in targets[k].1 ==> v in Roster()
      modifies set v | v in Roster()
      ensures Valid()
      ensures approved == if collisionPolicy == "allow_crash" then intents else Drop(intents, Yielding(targets, |targets|))
      ensures forall v :: v in Roster() ==>
                v.path == if collisionPolicy != "allow_crash" && v in Yielding(targets, |targets|) then [] else old(v.path)
      ensures forall v :: v in Roster() ==> v.position == old(v.position) && v.load == old(v.load) && v.state == old(v.state)
    {
      approved := intents;
      if collisionPolicy == "allow_crash" {
        return;
      }
      approved := YieldAll(targets, intents, Members(Roster()));
      assert Placed();
      assert Fielded(player1.vehicles, player2.vehicles);
    }

    /** The prefer_move loop of the conflict resolution, over the vehicles of `roster`. */
    method YieldAll(targets: Groups<Pos, Vehicle>, intents: seq<(Pos, Vehicle)>, ghost roster: set<Vehicle>)
      returns (approved: seq<(Pos, Vehicle)>)
      requires forall k, v :: 0 <= k < |targets| && v in targets[k].1 ==> v in roster
      modifies roster
      ensures approved == Drop(intents, Yielding(targets, |targets|))
      ensures forall v :: v in roster ==> v.path == if v in Yielding(targets, |targets|) then [] else old(v.path)
      ensures forall v :: v in roster ==> v.position == old(v.position) && v.load == old(v.load) && v.state == old(v.state)
    {
      approved := intents;
      DropNothing(intents);
      ghost var gone: set<Vehicle> := {};
      for k := 0 to |targets|
        invariant gone == Yielding(targets, k)
        invariant approved == Drop(intents, gone)
        invariant forall v :: v in roster ==> v.path == if v in gone then [] else old(v.path)
        invariant forall v :: v in roster ==> v.position == old(v.position) && v.load == old(v.load) && v.state == old(v.state)
      {
        approved, gone := YieldAt(targets, k, intents, approved, gone, roster);
      }
    }

    /** One iteration of YieldAll: the group of `targets[k]` yields to its winner. */
    method YieldAt(targets: Groups<Pos, Vehicle>, k: nat, intents: seq<(Pos, Vehicle)>, approved: seq<(Pos, Vehicle)>,
                   ghost gone: set<Vehicle>, ghost roster: set<Vehicle>)
      returns (approved': seq<(Pos, Vehicle)>, ghost gone': set<Vehicle>)
      requires k < |targets| && gone == Yielding(targets, k) && approved == Drop(intents, gone)
      requires forall v :: v in targets[k].1 ==> v in roster
      requires forall v :: v in roster && v in gone ==> v.path == []
      modifies roster
      ensures gone' == Yielding(targets, k + 1) && approved' == Drop(intents, gone')
      ensures forall v :: v in roster ==> v.path == if v in gone' then [] else old(v.path)
      ensures forall v :: v in roster ==> v.position == old(v.position) && v.load == old(v.load) && v.state == old(v.state)
    {
      approved', gone' := approved, gone;
      var vs := targets[k].1;
      if |vs| > 1 {
        var winner := vs[WinnerIndex(vs)];
        approved' := YieldGroup(vs, winner, approved);
        DropDrop(intents, gone, Members(vs) - {winner});
        gone' := gone + (Members(vs) - {winner});
      }
    }

    /** `for v in vs: if v is not winner: v.path = []; del intent_by_vehicle[v]`. */
    method YieldGroup(group: seq<Vehicle>, winner: Vehicle, intents: seq<(Pos, Vehicle)>) returns (kept: seq<(Pos, Vehicle)>)
      modifies set v | v in group
      ensures kept == Drop(intents, Members(group) - {winner})
      ensures forall v :: v in group ==> v.path == if v != winner then [] else old(v.path)
      ensures forall v :: v in group ==> v.position == old(v.position) && v.load == old(v.load) && v.state == old(v.state)
    {
      kept := intents;
      DropNothing(intents);
      ghost var done: set<Vehicle> := {};
      assert group[..0] == [] && Members(group[..0]) == {} && done - {winner} == {};
      for m := 0 to |group|
        invariant done == Members(group[..m])
        invariant kept == Drop(intents, done - {winner})
        invariant forall v :: v in group ==> v.path == if v in done && v != winner then [] else old(v.path)
        invariant forall v :: v in group ==> v.position == old(v.position) && v.load == old(v.load) && v.state == old(v.state)
      {
        var v := group[m];
        assert group[..m + 1] == group[..m] + [v];
        MembersAppend(group[..m], v);
        kept := YieldMember(v, winner, intents, kept, done);
        done := done + {v};
      }
      assert group[..|group|] == group;
    }

    /** One entry of the loser loop: a vehicle other than the winner loses its path and intent. */
    method YieldMember(v: Vehicle, winner: Vehicle, intents: seq<(Pos, Vehicle)>, kept: seq<(Pos, Vehicle)>,
                       ghost done: set<Vehicle>) returns (kept': seq<(Pos, Vehicle)>)
      requires kept == Drop(intents, done - {winner})
      modifies v
      ensures kept' == Drop(intents, (done + {v}) - {winner})
      ensures v.path == if v != winner then [] else old(v.path)
      ensures v.position == old(v.position) && v.load == old(v.load) && v.state == old(v.state)
    {
      kept' := kept;
      if v != winner {
        v.path := [];
        DropDrop(intents, done - {winner}, {v});
        assert (done - {winner}) + {v} == (done + {v}) - {winner};
        kept' := Drop(kept, {v});
      } else {
        assert done - {winner} == (done + {v}) - {winner};
      }
    }

    /** The execution phase of next_turn: every approved `(target, vehicle)` pair, in order, makes
        one step. The world stays consistent, the rosters stay as they are and no team loses
        points. */
    method ExecuteAll(approved: seq<(Pos, Vehicle)>)
      requires Valid()
      requires forall k :: 0 <= k < |approved| ==> approved[k].1 in Roster()
      modifies this, player1, player2, set v | v in Roster()
      ensures Valid()
      ensures player1.vehicles == old(player1.vehicles) && player2.vehicles == old(player2.vehicles)
      ensures player1.points >= old(player1.points) && player2.points >= old(player2.points)
      ensures mines == old(mines) && danger == old(danger) && collisionPolicy == old(collisionPolicy) && fleet == old(fleet)
    {
      for k := 0 to |approved|
        invariant Valid()
        invariant player1.vehicles == old(player1.vehicles) && player2.vehicles == old(player2.vehicles)
        invariant player1.points >= old(player1.points) && player2.points >= old(player2.points)
        invariant mines == old(mines) && danger == old(danger) && collisionPolicy == old(collisionPolicy) && fleet == old(fleet)
      {
        var (target, v) := approved[k];
        assert v.team == player1 || v.team == player2;
        Step(v, target);
      }
    }

    /** One approved move of next_turn's execution phase: the vehicle steps as MoveOutcome says,
        the board it leaves becomes the grid, and the world stays consistent. */
    method Step(v: Vehicle, target: Pos)
      requires Valid() && v in Roster()
      modifies this, v, v.team
      ensures Valid()
      ensures v.MoveOutcome(old(grid), BaseColumn(v.team == player1, width), target,
                            old(v.position), old(v.load), old(v.path), old(v.state))
              == Moved(grid, After(v.position, v.load, v.path, v.state, v.team.points - old(v.team.points)))
      ensures v.team.points >= old(v.team.points)
      ensures player1.vehicles == old(player1.vehicles) && player2.vehicles == old(player2.vehicles)
      ensures mines == old(mines) && danger == old(danger) && collisionPolicy == old(collisionPolicy) && fleet == old(fleet)
    {
      assert OnBoard(v);
      ghost var g0 := grid;
      ghost var baseX := BaseColumn(v.team == player1, width);
      ghost var m := v.MoveOutcome(g0, baseX, target, v.position, v.load, v.path, v.state);
      v.MoveKeepsOthers(g0, baseX, target, v.position, v.load, v.path, v.state);
      v.MoveKeepsCapacity(g0, baseX, target, v.position, v.load, v.path, v.state);
      v.MoveFrame(g0, baseX, target, v.position, v.load, v.path, v.state);
      var g := v.ExecuteMove(grid, width, height, player1, target);
      assert m.board == g && m.after.position == v.position && m.after.cargo == v.load;
      grid := g;
      forall x, y | 0 <= x < width && 0 <= y < height && grid[x][y].VehicleAt?
        ensures grid[x][y].vehicle in fleet && grid[x][y].vehicle.position == Pos(x, y)
      {
        SizedBounds(g0, width, height, Pos(x, y));
        if grid[x][y].vehicle != v {
          assert grid[x][y] == g0[x][y];
        }
      }
      assert Placed();
      forall u | u in Roster() ensures u in fleet && OnBoard(u) {
        assert old(OnBoard(u));
        if u != v {
          assert grid[u.position.x][u.position.y] == g0[u.position.x][u.position.y];
        }
      }
    }

    /** In a consistent world no two roster vehicles share a position: each stands on its own
        cell of the grid. */
    lemma NoCollisions()
      requires Valid()
      ensures Collided(Roster()) == {}
    {
      var vs := Roster();
      forall i, j | 0 <= i < |vs| && 0 <= j < |vs| && i != j
        ensures vs[j].position != vs[i].position
      {
        assert OnBoard(vs[i]) && OnBoard(vs[j]);
      }
      forall v ensures v !in Collided(vs) {
        CollidedMeaning(vs, v);
      }
    }

    /** The collision half of check_collisions: groups the roster by position and removes every
        vehicle of a position held by more than one. */
    method RemoveCollided()
      requires Teams()
      modifies player1, player2
      ensures player1.vehicles == Keep(old(player1.vehicles), old(Collided(Roster())))
      ensures player2.vehicles == Keep(old(player2.vehicles), old(Collided(Roster())))
      ensures player1.points == old(player1.points) && player2.points == old(player2.points)
    {
      var vehicles := Roster();
      ghost var s1, s2 := player1.vehicles, player2.vehicles;
      var posMap := PositionMap(vehicles);
      WithdrawCrowded(posMap, s1, s2);
    }

    /** `for pos, vs in pos_map.items(): if len(vs) > 1: ...`: every vehicle of an entry with
        more than one vehicle leaves its roster. */
    method WithdrawCrowded(posMap: Groups<Pos, Vehicle>, ghost s1: seq<Vehicle>, ghost s2: seq<Vehicle>)
      requires player1 != player2 && NoDuplicates(s1 + s2) && Owns(s1, s2)
      requires forall k, v :: 0 <= k < |posMap| && v in posMap[k].1 ==> v in s1 + s2
      requires player1.vehicles == s1 && player2.vehicles == s2
      modifies player1, player2
      ensures player1.vehicles == Keep(s1, Crowded(posMap, |posMap|))
      ensures player2.vehicles == Keep(s2, Crowded(posMap, |posMap|))
      ensures player1.points == old(player1.points) && player2.points == old(player2.points)
    {
      ghost var removed: set<Vehicle> := {};
      KeepNothing(s1);
      KeepNothing(s2);
      for k := 0 to |posMap|
        invariant player1.vehicles == Keep(s1, removed) && player2.vehicles == Keep(s2, removed)
        invariant player1.points == old(player1.points) && player2.points == old(player2.points)
        invariant removed == Crowded(posMap, k)
      {
        var group := posMap[k].1;
        if |group| > 1 {
          WithdrawAll(group, s1, s2, removed);
          removed := removed + Members(group);
        }
      }
    }

    /** `for v in vs: if v in v.team.vehicles: v.team.vehicles.remove(v)`. */
    method WithdrawAll(group: seq<Vehicle>, ghost s1: seq<Vehicle>, ghost s2: seq<Vehicle>, ghost gone: set<Vehicle>)
      requires player1 != player2 && NoDuplicates(s1 + s2)
      requires forall v :: v in group ==> v in s1 + s2
      requires Owns(s1, s2)
      requires player1.vehicles == Keep(s1, gone) && player2.vehicles == Keep(s2, gone)
      modifies player1, player2
      ensures player1.vehicles == Keep(s1, gone + Members(group)) && player2.vehicles == Keep(s2, gone + Members(group))
      ensures player1.points == old(player1.points) && player2.points == old(player2.points)
    {
      ghost var removed := gone;
      for m := 0 to |group|
        invariant player1.vehicles == Keep(s1, removed) && player2.vehicles == Keep(s2, removed)
        invariant player1.points == old(player1.points) && player2.points == old(player2.points)
        invariant removed == gone + Members(group[..m])
      {
        var v := group[m];
        assert group[..m + 1] == group[..m] + [v];
        MembersAppend(group[..m], v);
        Withdraw(v, s1, s2, removed);
        removed := removed + {v};
      }
      assert group[..|group|] == group;
    }

    /** The mine list of check_collisions: the mines held by the grid, collected in x-major
        order. */
    method CollectMines() returns (found: seq<Mine>)
      requires Sized(grid, width, height)
      ensures found == GridMineList(grid, width, height)
    {
      found := [];
      for x := 0 to width
        invariant found == GridMineList(grid, x, height)
      {
        for y := 0 to height
          invariant found == GridMineList(grid, x, height) + ColumnMines(grid, x, y)
        {
          var obj := grid[x][y];
          if obj.MineAt? {
            found := found + [obj.mine];
          }
        }
      }
    }

    /** The inner loop of the mine half of check_collisions for one vehicle: at the first mine
        whose blast rectangle holds the vehicle, the vehicle leaves its roster and the loop
        stops. */
    method Strike(v: Vehicle, found: seq<Mine>, ghost s1: seq<Vehicle>, ghost s2: seq<Vehicle>, ghost gone: set<Vehicle>)
      returns (hit: bool)
      requires player1 != player2 && NoDuplicates(s1 + s2) && v in s1 + s2
      requires Owns(s1, s2)
      requires player1.vehicles == Keep(s1, gone) && player2.vehicles == Keep(s2, gone)
      modifies player1, player2
      ensures hit == Hit(found, v.position)
      ensures player1.vehicles == Keep(s1, if hit then gone + {v} else gone)
      ensures player2.vehicles == Keep(s2, if hit then gone + {v} else gone)
      ensures player1.points == old(player1.points) && player2.points == old(player2.points)
    {
      var vx, vy := v.position.x, v.position.y;
      for k := 0 to |found|
        invariant forall j :: 0 <= j < k ==> !found[j].InBlast(v.position)
      {
        var mine := found[k];
        if Abs(vx - mine.position.x) <= mine.xRadius() && Abs(vy - mine.position.y) <= mine.yRadius() {
          Withdraw(v, s1, s2, gone);
          return true;
        }
      }
      return false;
    }

    /** The mine half of check_collisions: every roster vehicle inside some mine's blast
        rectangle is removed, once (the inner loop stops at the first such mine). */
    method RemoveBlasted(found: seq<Mine>)
      requires Teams()
      modifies player1, player2
      ensures player1.vehicles == Keep(old(player1.vehicles), old(Blasted(Located(Roster()), found)))
      ensures player2.vehicles == Keep(old(player2.vehicles), old(Blasted(Located(Roster()), found)))
      ensures player1.points == old(player1.points) && player2.points == old(player2.points)
    {
      var vehicles := Roster();
      ghost var s1, s2 := player1.vehicles, player2.vehicles;
      ghost var pairs := Located(vehicles);
      ghost var removed: set<Vehicle> := {};
      KeepNothing(s1);
      KeepNothing(s2);
      assert player1 != player2 && NoDuplicates(vehicles) && Owns(s1, s2);
      for i := 0 to |vehicles|
        invariant player1.vehicles == Keep(s1, removed) && player2.vehicles == Keep(s2, removed)
        invariant player1.points == old(player1.points) && player2.points == old(player2.points)
        invariant removed == Blasted(pairs[..i], found)
      {
        BlastedStep(pairs, i, found);
        var v := vehicles[i];
        assert pairs[i] == (v.position, v);
        var hit := Strike(v, found, s1, s2, removed);
        if hit {
          removed := removed + {v};
        }
      }
      assert pairs[..|vehicles|] == pairs;
    }
  }
}
