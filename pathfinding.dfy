/** The breadth-first searches of pathfinding.py over a grid given as a list of columns, indexed
    `grid[x][y]`. */
module Pathfinding {
  import opened Wrappers
  import opened Positions
  import opened Items
  import opened Mines

  /** What a grid cell holds (`None`, an Item, a Mine or a Vehicle). The pathfinder does not know
      the vehicle type, so it is a parameter. */
  datatype Occupant<V> = Empty | ItemAt(item: Item) | MineAt(mine: Mine) | VehicleAt(vehicle: V)

  /** Every column has as many cells as the first one. */
  predicate Rectangular<T>(m: seq<seq<T>>)
  {
    forall i :: 0 <= i < |m| ==> |m[i]| == |m[0]|
  }

  /** The grids the simulator builds: `width` lists of `height` cells. */
  type Grid<V> = g: seq<seq<Occupant<V>>> | Rectangular(g) witness []

  /** in_bounds: `len(grid)` columns of `len(grid[0])` cells (no cell at all in an empty grid). */
  predicate InBounds<T>(grid: seq<seq<T>>, p: Pos)
  {
    0 <= p.x < |grid| && 0 <= p.y < |grid[0]|
  }

  /** The set of all in-bounds cells. */
  function AllCells<T>(grid: seq<seq<T>>): (r: set<Pos>)
    ensures forall p :: p in r <==> InBounds(grid, p)
  {
    set x: int, y: int | 0 <= x < |grid| && 0 <= y < |grid[0]| :: Pos(x, y)
  }

  /** The four directions in the order neighbors tries them. */
  const Deltas: seq<(int, int)> := [(-1, 0), (1, 0), (0, -1), (0, 1)]

  function Shift(p: Pos, d: (int, int)): Pos
  {
    Pos(p.x + d.0, p.y + d.1)
  }

  /** `[q]` when `q` is in bounds, `[]` otherwise. */
  function IfInBounds<T>(grid: seq<seq<T>>, q: Pos): seq<Pos>
  {
    if InBounds(grid, q) then [q] else []
  }

  /** The in-bounds cells among the first `i` directions, in order. */
  function Candidates<T>(grid: seq<seq<T>>, p: Pos, i: nat): seq<Pos>
    requires i <= |Deltas|
  {
    if i == 0 then [] else Candidates(grid, p, i - 1) + IfInBounds(grid, Shift(p, Deltas[i - 1]))
  }

  /** Position of the direction from `p` to `q` in Deltas (4 when `q` is not a neighbour). */
  function Direction(p: Pos, q: Pos): nat
  {
    if q == Pos(p.x - 1, p.y) then 0
    else if q == Pos(p.x + 1, p.y) then 1
    else if q == Pos(p.x, p.y - 1) then 2
    else if q == Pos(p.x, p.y + 1) then 3
    else 4
  }

  /** What neighbors(grid, p) returns: exactly the in-bounds cells at Manhattan distance 1,
      in the fixed order (x-1, y), (x+1, y), (x, y-1), (x, y+1). */
  function NeighborCells<T>(grid: seq<seq<T>>, p: Pos): (r: seq<Pos>)
    ensures forall q :: q in r <==> InBounds(grid, q) && Manhattan(p, q) == 1
    ensures forall i, j :: 0 <= i < j < |r| ==> Direction(p, r[i]) < Direction(p, r[j])
    ensures |r| <= 4
  {
    CandidatesFacts(grid, p, 4);
    forall q | InBounds(grid, q) && Manhattan(p, q) == 1
      ensures q in Candidates(grid, p, 4)
    {
      var j := Direction(p, q);
      assert j < 4 && q == Shift(p, Deltas[j]);
    }
    Candidates(grid, p, 4)
  }

  lemma {:induction false} CandidatesFacts<T>(grid: seq<seq<T>>, p: Pos, i: nat)
    requires i <= |Deltas|
    ensures forall q :: q in Candidates(grid, p, i) ==> InBounds(grid, q) && Manhattan(p, q) == 1 && Direction(p, q) < i
    ensures forall j :: 0 <= j < i && InBounds(grid, Shift(p, Deltas[j])) ==> Shift(p, Deltas[j]) in Candidates(grid, p, i)
    ensures forall k, l :: 0 <= k < l < |Candidates(grid, p, i)| ==>
              Direction(p, Candidates(grid, p, i)[k]) < Direction(p, Candidates(grid, p, i)[l])
    ensures |Candidates(grid, p, i)| <= i
  {
    if i > 0 {
      CandidatesFacts(grid, p, i - 1);
      var q := Shift(p, Deltas[i - 1]);
      assert Direction(p, q) == i - 1;
      assert Manhattan(p, q) == 1;
    }
  }

  /** neighbors: the loop over the four directions, appending the in-bounds ones. */
  method Neighbors<T>(grid: seq<seq<T>>, p: Pos) returns (results: seq<Pos>)
    ensures results == NeighborCells(grid, p)
  {
    results := [];
    var i := 0;
    while i < |Deltas|
      invariant 0 <= i <= |Deltas|
      invariant results == Candidates(grid, p, i)
    {
      var neighbor := Shift(p, Deltas[i]);
      if InBounds(grid, neighbor) {
        results := results + [neighbor];
      }
      i := i + 1;
    }
  }

  /** What a search looks for. `Plain` is bfs: every in-bounds cell is walkable and the goal is one
      cell. `Safe` is one of the hazard-aware searches: cells marked in `danger` and mine cells are
      not walkable. */
  datatype Search = Plain(goal: Pos) | Safe(danger: seq<seq<bool>>, target: Target)

  /** The hazard-aware targets: any Item, a Person only, or any cell of a column. */
  datatype Target = AnyItem | PersonOnly | Column(x: int)

  /** `danger_zones and danger_zones[x][y]`: an empty danger matrix marks nothing. */
  predicate Marked(danger: seq<seq<bool>>, p: Pos)
  {
    danger != [] && 0 <= p.x < |danger| && 0 <= p.y < |danger[p.x]| && danger[p.x][p.y]
  }

  /** The searches index `danger_zones[x][y]` for in-bounds cells: a non-empty danger matrix has
      the grid's shape. */
  predicate Covers<V>(grid: Grid<V>, danger: seq<seq<bool>>)
  {
    danger != [] ==> |danger| == |grid| && forall i :: 0 <= i < |danger| ==> |danger[i]| == |grid[0]|
  }

  /** The `walkable` helper of the searches (for bfs: any in-bounds cell). */
  predicate Walkable<V>(grid: Grid<V>, s: Search, p: Pos)
  {
    InBounds(grid, p) && (s.Safe? ==> !Marked(s.danger, p) && !grid[p.x][p.y].MineAt?)
  }

  /** The test a search applies to a newly discovered cell. */
  predicate IsGoal<V>(grid: Grid<V>, s: Search, p: Pos)
  {
    InBounds(grid, p) &&
    match s
    case Plain(goal) => p == goal
    case Safe(_, AnyItem) => grid[p.x][p.y].ItemAt?
    case Safe(_, PersonOnly) => grid[p.x][p.y].ItemAt? && grid[p.x][p.y].item.kind == Person
    case Safe(_, Column(x)) => p.x == x
  }

  /** What a search sees of the grid: the cells it may step on and the cells that end it. The
      loop's invariants and the searches' contracts are stated over this value. */
  datatype Field = Field(open: set<Pos>, goals: set<Pos>)

  ghost function FieldOf<V>(grid: Grid<V>, s: Search): (f: Field)
    ensures forall p :: p in f.open <==> Walkable(grid, s, p)
    ensures forall p :: p in f.goals <==> IsGoal(grid, s, p)
  {
    Field(set p | p in AllCells(grid) && Walkable(grid, s, p), set p | p in AllCells(grid) && IsGoal(grid, s, p))
  }

  function Last(w: seq<Pos>): Pos
    requires w != []
  {
    w[|w| - 1]
  }

  /** A walk: each cell after the first is an in-bounds neighbour of its predecessor and walkable. */
  ghost predicate IsWalk(f: Field, w: seq<Pos>)
  {
    |w| >= 1 &&
    forall i :: 0 < i < |w| ==> Adjacent(w[i - 1], w[i]) && w[i] in f.open
  }

  ghost predicate Distinct(w: seq<Pos>)
  {
    forall i, j :: 0 <= i < j < |w| ==> w[i] != w[j]
  }

  /** A path a search may return from its loop: a walk from `start` with no repeated cell that
      ends on a goal and meets no goal before its last cell (the start excepted). */
  ghost predicate Route(f: Field, start: Pos, path: seq<Pos>)
  {
    IsWalk(f, path) && |path| >= 2 && path[0] == start && Last(path) in f.goals &&
    (forall i :: 0 < i < |path| - 1 ==> path[i] !in f.goals) &&
    Distinct(path)
  }

  /** No walk from `start` reaches a goal in fewer than `n` cells (BFS finds a nearest goal). */
  ghost predicate Nearest(f: Field, start: Pos, n: nat)
  {
    forall w :: IsWalk(f, w) && w[0] == start && |w| >= 2 && Last(w) in f.goals ==> n <= |w|
  }

  /** No walk from `start` of at least one step ends on a goal. */
  ghost predicate Unreachable(f: Field, start: Pos)
  {
    forall w :: IsWalk(f, w) && w[0] == start && |w| >= 2 ==> Last(w) !in f.goals
  }

  /** The shape of `came_from`: every discovered cell but the start points to a discovered parent,
      and `pathTo` (the path the parents spell out) extends the parent's path by one cell. */
  ghost predicate Tree(cameFrom: map<Pos, Option<Pos>>, pathTo: map<Pos, seq<Pos>>, start: Pos)
  {
    cameFrom.Keys == pathTo.Keys && start in cameFrom && cameFrom[start] == None && pathTo[start] == [start] &&
    forall p :: p in cameFrom && p != start ==>
      cameFrom[p].Some? && cameFrom[p].value in cameFrom && pathTo[p] == pathTo[cameFrom[p].value] + [p]
  }

  /** Every prefix of a discovered path is the discovered path of its last cell. */
  ghost predicate Prefixed(pathTo: map<Pos, seq<Pos>>)
  {
    forall p, i :: p in pathTo && 0 <= i < |pathTo[p]| ==>
      pathTo[p][i] in pathTo && pathTo[pathTo[p][i]] == pathTo[p][..i + 1]
  }

  /** Every discovered path is a walk from `start` to its cell. */
  ghost predicate Walks(f: Field, start: Pos, pathTo: map<Pos, seq<Pos>>)
  {
    forall p :: p in pathTo ==> IsWalk(f, pathTo[p]) && pathTo[p][0] == start && Last(pathTo[p]) == p
  }

  /** A cell whose walkable neighbours are all discovered, at most one layer further out. */
  ghost predicate ClosedCell(f: Field, pathTo: map<Pos, seq<Pos>>, p: Pos)
    requires p in pathTo
  {
    forall c :: Adjacent(p, c) && c in f.open ==> c in pathTo && |pathTo[c]| <= |pathTo[p]| + 1
  }

  function Reversed(s: seq<Pos>): (r: seq<Pos>)
    ensures |r| == |s|
  {
    if s == [] then [] else [s[|s| - 1]] + Reversed(s[..|s| - 1])
  }

  lemma ReversedAppend(s: seq<Pos>, c: Pos)
    ensures Reversed(s + [c]) == [c] + Reversed(s)
  {
    assert (s + [c])[..|s + [c]| - 1] == s;
  }

  /** The layer argument of breadth-first search: when every discovered cell whose path has at
      most `d` cells is closed, every walk from the start of at most `d + 1` cells ends on a
      discovered cell whose path is no longer than the walk. */
  lemma {:induction false} WalkEndsDiscovered(f: Field, start: Pos,
                                                  pathTo: map<Pos, seq<Pos>>, d: nat, w: seq<Pos>)
    requires start in pathTo && |pathTo[start]| == 1
    requires forall p :: p in pathTo && |pathTo[p]| <= d ==> ClosedCell(f, pathTo, p)
    requires IsWalk(f, w) && w[0] == start && |w| <= d + 1
    ensures Last(w) in pathTo && |pathTo[Last(w)]| <= |w|
    decreases |w|
  {
    if |w| > 1 {
      var w' := w[..|w| - 1];
      assert IsWalk(f, w') by {
        forall i | 0 < i < |w'| ensures Adjacent(w'[i - 1], w'[i]) && w'[i] in f.open {
          assert w'[i] == w[i] && w'[i - 1] == w[i - 1];
        }
      }
      WalkEndsDiscovered(f, start, pathTo, d, w');
      assert Adjacent(w[|w| - 2], w[|w| - 1]) && w[|w| - 1] in f.open;
      assert Last(w') == w[|w| - 2];
    }
  }

  lemma WalkExtend(f: Field, w: seq<Pos>, c: Pos)
    requires IsWalk(f, w) && Adjacent(Last(w), c) && c in f.open
    ensures IsWalk(f, w + [c])
  {
    var w' := w + [c];
    forall i | 0 < i < |w'| ensures Adjacent(w'[i - 1], w'[i]) && w'[i] in f.open {
      if i < |w| {
        assert w'[i] == w[i] && w'[i - 1] == w[i - 1];
      }
    }
  }

  /** What `came_from` satisfies throughout a search. */
  ghost predicate Discovered(f: Field, start: Pos,
                                cameFrom: map<Pos, Option<Pos>>, pathTo: map<Pos, seq<Pos>>)
  {
    Tree(cameFrom, pathTo, start) && Prefixed(pathTo) && Walks(f, start, pathTo) &&
    cameFrom.Keys <= f.open + {start}
  }

  /** No discovered cell other than the start is a goal. */
  ghost predicate NoGoalYet(f: Field, start: Pos, pathTo: map<Pos, seq<Pos>>)
  {
    forall p :: p in pathTo && p != start ==> p !in f.goals
  }

  /** The queue discipline while the neighbours of `current` (path length `len`) are expanded:
      the queue holds discovered cells of the current or the next layer in order, nothing
      discovered lies further out, and every other discovered cell out of the queue is closed. */
  ghost predicate Layered(f: Field, pathTo: map<Pos, seq<Pos>>,
                             q: seq<Pos>, current: Pos, len: nat)
  {
    current in pathTo && |pathTo[current]| == len &&
    (forall c :: c in q ==> c in pathTo && len <= |pathTo[c]| <= len + 1) &&
    (forall i, j :: 0 <= i < j < |q| ==> |pathTo[q[i]]| <= |pathTo[q[j]]|) &&
    (forall p :: p in pathTo ==> |pathTo[p]| <= len + 1) &&
    (forall p :: p in pathTo && p !in q && p != current ==> ClosedCell(f, pathTo, p))
  }

  /** Discovering one more walkable neighbour keeps `came_from` well formed. */
  lemma Discover(f: Field, start: Pos,
                    cameFrom: map<Pos, Option<Pos>>, pathTo: map<Pos, seq<Pos>>, current: Pos, nbr: Pos)
    requires Discovered(f, start, cameFrom, pathTo)
    requires current in cameFrom && nbr !in cameFrom
    requires Adjacent(current, nbr) && nbr in f.open
    ensures Discovered(f, start, cameFrom[nbr := Some(current)], pathTo[nbr := pathTo[current] + [nbr]])
  {
    TreeGrows(cameFrom, pathTo, start, current, nbr);
    PrefixedGrows(pathTo, current, nbr);
    WalksGrow(f, start, pathTo, current, nbr);
  }

  /** Adding a cell to the tree keeps every closed cell closed. */
  lemma ClosedGrows(f: Field, pathTo: map<Pos, seq<Pos>>, current: Pos, nbr: Pos)
    requires current in pathTo && nbr !in pathTo
    ensures forall p :: p in pathTo && ClosedCell(f, pathTo, p) ==>
              ClosedCell(f, pathTo[nbr := pathTo[current] + [nbr]], p)
  {
    var pt := pathTo[nbr := pathTo[current] + [nbr]];
    forall p | p in pathTo && ClosedCell(f, pathTo, p) ensures ClosedCell(f, pt, p) {
      forall c | Adjacent(p, c) && c in f.open ensures c in pt && |pt[c]| <= |pt[p]| + 1 {
        assert c in pathTo;
      }
    }
  }

  lemma TreeGrows(cameFrom: map<Pos, Option<Pos>>, pathTo: map<Pos, seq<Pos>>, start: Pos, current: Pos, nbr: Pos)
    requires Tree(cameFrom, pathTo, start) && current in cameFrom && nbr !in cameFrom
    ensures Tree(cameFrom[nbr := Some(current)], pathTo[nbr := pathTo[current] + [nbr]], start)
  {
  }

  lemma PrefixedGrows(pathTo: map<Pos, seq<Pos>>, current: Pos, nbr: Pos)
    requires Prefixed(pathTo) && current in pathTo && nbr !in pathTo
    ensures Prefixed(pathTo[nbr := pathTo[current] + [nbr]])
  {
    var pt := pathTo[nbr := pathTo[current] + [nbr]];
    forall p, i | p in pt && 0 <= i < |pt[p]| ensures pt[p][i] in pt && pt[pt[p][i]] == pt[p][..i + 1] {
      if p == nbr && i < |pathTo[current]| {
        assert pt[p][i] == pathTo[current][i];
        assert pt[p][..i + 1] == pathTo[current][..i + 1];
        assert pathTo[current][i] in pathTo;
      } else if p == nbr {
        assert pt[p][..i + 1] == pt[p];
      } else {
        assert pt[p] == pathTo[p];
        assert pathTo[p][i] in pathTo;
      }
    }
  }

  lemma WalksGrow(f: Field, start: Pos, pathTo: map<Pos, seq<Pos>>, current: Pos, nbr: Pos)
    requires Walks(f, start, pathTo) && current in pathTo && nbr !in pathTo
    requires Adjacent(current, nbr) && nbr in f.open
    ensures Walks(f, start, pathTo[nbr := pathTo[current] + [nbr]])
  {
    WalkExtend(f, pathTo[current], nbr);
  }

  /** The outer-loop view of the queue: discovered cells in layer order spanning at most two
      layers, and every discovered cell outside the queue closed. */
  ghost predicate Queued(f: Field, pathTo: map<Pos, seq<Pos>>, q: seq<Pos>)
  {
    (forall c :: c in q ==> c in pathTo) &&
    (forall i, j :: 0 <= i < j < |q| ==> |pathTo[q[i]]| <= |pathTo[q[j]]|) &&
    (q != [] ==> forall p :: p in pathTo ==> |pathTo[p]| <= |pathTo[q[0]]| + 1) &&
    (forall p :: p in pathTo && p !in q ==> ClosedCell(f, pathTo, p))
  }

  /** The first `k` neighbours of the current cell that are walkable have been discovered. */
  ghost predicate Expanded(f: Field, pathTo: map<Pos, seq<Pos>>,
                              ns: seq<Pos>, k: nat, len: nat)
    requires k <= |ns|
  {
    forall j :: 0 <= j < k && ns[j] in f.open ==> ns[j] in pathTo && |pathTo[ns[j]]| <= len + 1
  }

  /** Popping the head of the queue starts the expansion of its layer. */
  lemma LayeredEnter(f: Field, pathTo: map<Pos, seq<Pos>>, q: seq<Pos>)
    requires q != [] && Queued(f, pathTo, q)
    ensures Layered(f, pathTo, q[1..], q[0], |pathTo[q[0]]|)
  {
    var len := |pathTo[q[0]]|;
    forall c | c in q[1..] ensures c in pathTo && len <= |pathTo[c]| <= len + 1 {
      var i :| 0 <= i < |q[1..]| && q[1..][i] == c;
      assert q[i + 1] == c;
    }
    forall i, j | 0 <= i < j < |q[1..]| ensures |pathTo[q[1..][i]]| <= |pathTo[q[1..][j]]| {
      assert q[1..][i] == q[i + 1] && q[1..][j] == q[j + 1];
    }
    forall p | p in pathTo && p !in q[1..] && p != q[0] ensures ClosedCell(f, pathTo, p) {
      assert p !in q;
    }
  }

  /** Discovering a non-goal neighbour and appending it to the queue keeps the layering. */
  lemma LayeredAdd(f: Field, pathTo: map<Pos, seq<Pos>>, q: seq<Pos>,
                      current: Pos, len: nat, nbr: Pos, ns: seq<Pos>, k: nat)
    requires Layered(f, pathTo, q, current, len) && nbr !in pathTo
    requires k < |ns| && ns[k] == nbr && Expanded(f, pathTo, ns, k, len)
    ensures Layered(f, pathTo[nbr := pathTo[current] + [nbr]], q + [nbr], current, len)
    ensures Expanded(f, pathTo[nbr := pathTo[current] + [nbr]], ns, k + 1, len)
  {
    ClosedGrows(f, pathTo, current, nbr);
    var pt := pathTo[nbr := pathTo[current] + [nbr]];
    var q' := q + [nbr];
    forall c | c in q' ensures c in pt && len <= |pt[c]| <= len + 1 {
      if c != nbr {
        assert c in q;
      }
    }
    forall i, j | 0 <= i < j < |q'| ensures |pt[q'[i]]| <= |pt[q'[j]]| {
      if j < |q| {
        assert q'[i] == q[i] && q'[j] == q[j];
        assert q[i] != nbr && q[j] != nbr;
      } else {
        assert q'[i] == q[i];
      }
    }
    forall p | p in pt && p !in q' && p != current ensures ClosedCell(f, pt, p) {
      assert p in pathTo && p !in q;
    }
    forall j | 0 <= j < k + 1 && ns[j] in f.open ensures ns[j] in pt && |pt[ns[j]]| <= len + 1 {
      if j < k {
        assert ns[j] in pathTo;
      }
    }
  }

  /** A neighbour already discovered, or not walkable, needs no work. */
  lemma ExpandedSkip(f: Field, pathTo: map<Pos, seq<Pos>>, q: seq<Pos>,
                        current: Pos, len: nat, ns: seq<Pos>, k: nat)
    requires Layered(f, pathTo, q, current, len)
    requires k < |ns| && Expanded(f, pathTo, ns, k, len)
    requires ns[k] in pathTo || ns[k] !in f.open
    ensures Expanded(f, pathTo, ns, k + 1, len)
  {
  }

  /** With every neighbour expanded, the current cell is closed and the outer view holds again. */
  lemma LayeredExit(f: Field, pathTo: map<Pos, seq<Pos>>, q: seq<Pos>,
                       current: Pos, len: nat, ns: seq<Pos>)
    requires Layered(f, pathTo, q, current, len)
    requires (forall c :: Adjacent(current, c) && c in f.open ==> c in ns) && Expanded(f, pathTo, ns, |ns|, len)
    ensures Queued(f, pathTo, q)
  {
    assert ClosedCell(f, pathTo, current) by {
      forall c | Adjacent(current, c) && c in f.open
        ensures c in pathTo && |pathTo[c]| <= |pathTo[current]| + 1
      {
        assert c in ns;
        var j :| 0 <= j < |ns| && ns[j] == c;
      }
    }
    if q != [] {
      assert q[0] in q;
    }
  }

  /** Cells whose path is shorter than the current cell's are closed. */
  lemma LowerLayersClosed(f: Field, pathTo: map<Pos, seq<Pos>>,
                             q: seq<Pos>, current: Pos, len: nat)
    requires Layered(f, pathTo, q, current, len)
    ensures forall p :: p in pathTo && |pathTo[p]| <= len - 1 ==> ClosedCell(f, pathTo, p)
  {
  }

  /** The path to the first goal discovered from `current` is a route and a nearest one. */
  lemma FoundNearest(f: Field, start: Pos,
                        cameFrom: map<Pos, Option<Pos>>, pathTo: map<Pos, seq<Pos>>, current: Pos, nbr: Pos)
    requires Discovered(f, start, cameFrom, pathTo) && NoGoalYet(f, start, pathTo)
    requires !(start in f.goals && start in f.open)
    requires current in cameFrom && nbr !in cameFrom
    requires Adjacent(current, nbr) && nbr in f.open && nbr in f.goals
    requires forall p :: p in pathTo && |pathTo[p]| < |pathTo[current]| ==> ClosedCell(f, pathTo, p)
    ensures Route(f, start, pathTo[current] + [nbr]) && Nearest(f, start, |pathTo[current] + [nbr]|)
  {
    Discover(f, start, cameFrom, pathTo, current, nbr);
    var pt := pathTo[nbr := pathTo[current] + [nbr]];
    var path := pt[nbr];
    assert Distinct(path) by {
      forall i, j | 0 <= i < j < |path| ensures path[i] != path[j] {
        assert pt[path[i]] == path[..i + 1];
        assert pt[path[j]] == path[..j + 1];
      }
    }
    forall i | 0 < i < |path| - 1 ensures path[i] !in f.goals {
      assert path[i] == pathTo[current][i];
      assert path[i] in pathTo && path[i] != path[0];
    }
    var len := |pathTo[current]|;
    forall w | IsWalk(f, w) && w[0] == start && |w| >= 2 && Last(w) in f.goals
      ensures len + 1 <= |w|
    {
      if |w| <= len {
        WalkEndsDiscovered(f, start, pathTo, len - 1, w);
        assert false;
      }
    }
  }

  /** Once every discovered cell is closed, no walk of at least one step reaches a goal. */
  lemma ExhaustedUnreachable(f: Field, start: Pos, pathTo: map<Pos, seq<Pos>>)
    requires start in pathTo && |pathTo[start]| == 1 && NoGoalYet(f, start, pathTo)
    requires !(start in f.goals && start in f.open)
    requires forall p :: p in pathTo ==> ClosedCell(f, pathTo, p)
    ensures Unreachable(f, start)
  {
    forall w | IsWalk(f, w) && w[0] == start && |w| >= 2 ensures Last(w) !in f.goals {
      WalkEndsDiscovered(f, start, pathTo, |w|, w);
      assert Adjacent(w[|w| - 2], w[|w| - 1]) && w[|w| - 1] in f.open;
    }
  }

  /** The `while q` loop shared by the four searches: BFS from `start` over walkable cells, each
      cell entering `came_from` (and the queue) at most once, returning the path to the first
      goal it discovers. It returns None only once the queue is exhausted, and then no goal is
      reachable. */
  method Explore<V>(grid: Grid<V>, s: Search, start: Pos) returns (r: Option<seq<Pos>>)
    requires !(IsGoal(grid, s, start) && Walkable(grid, s, start))
    ensures r.Some? ==> Route(FieldOf(grid, s), start, r.value) && Nearest(FieldOf(grid, s), start, |r.value|)
    ensures r.None? ==> Unreachable(FieldOf(grid, s), start)
  {
    ghost var f := FieldOf(grid, s);
    var q := [start];
    var cameFrom: map<Pos, Option<Pos>> := map[start := None];
    ghost var pathTo: map<Pos, seq<Pos>> := map[start := [start]];
    while q != []
      invariant Discovered(f, start, cameFrom, pathTo) && NoGoalYet(f, start, pathTo)
      invariant Queued(f, pathTo, q)
      decreases f.open - cameFrom.Keys, |q|
    {
      var current := q[0];
      var ns := NeighborCells(grid, current);
      LayeredEnter(f, pathTo, q);
      var found;
      cameFrom, pathTo, q, found := Expand(grid, s, f, start, cameFrom, pathTo, q[1..], current, ns, |pathTo[current]|);
      if found.Some? {
        return found;
      }
    }
    ExhaustedUnreachable(f, start, pathTo);
    return None;
  }

  /** One turn of the `while q` loop: the `for nbr in neighbors(grid, current)` loop, which
      discovers each walkable neighbour not yet in `came_from` and either returns the path to it
      when it is a goal or appends it to the queue. */
  method Expand<V>(grid: Grid<V>, s: Search, ghost f: Field, start: Pos, cameFrom0: map<Pos, Option<Pos>>,
                   ghost pathTo0: map<Pos, seq<Pos>>, q0: seq<Pos>, current: Pos, ns: seq<Pos>, ghost len: nat)
    returns (cameFrom: map<Pos, Option<Pos>>, ghost pathTo: map<Pos, seq<Pos>>, q: seq<Pos>, r: Option<seq<Pos>>)
    requires f == FieldOf(grid, s)
    requires Discovered(f, start, cameFrom0, pathTo0) && NoGoalYet(f, start, pathTo0)
    requires start !in f.goals || start !in f.open
    requires Layered(f, pathTo0, q0, current, len) && ns == NeighborCells(grid, current)
    ensures r.Some? ==> Route(f, start, r.value) && Nearest(f, start, |r.value|)
    ensures r.None? ==> Discovered(f, start, cameFrom, pathTo) && NoGoalYet(f, start, pathTo) && Queued(f, pathTo, q)
    ensures r.None? ==> f.open - cameFrom.Keys < f.open - cameFrom0.Keys ||
                        (cameFrom.Keys == cameFrom0.Keys && |q| == |q0|)
  {
    cameFrom, pathTo, q := cameFrom0, pathTo0, q0;
    assert forall c :: Adjacent(current, c) && c in f.open ==> c in ns;
    var k := 0;
    while k < |ns|
      invariant 0 <= k <= |ns|
      invariant Discovered(f, start, cameFrom, pathTo) && NoGoalYet(f, start, pathTo)
      invariant Layered(f, pathTo, q, current, len)
      invariant Expanded(f, pathTo, ns, k, len)
      invariant f.open - cameFrom.Keys < f.open - cameFrom0.Keys || (cameFrom.Keys == cameFrom0.Keys && q == q0)
    {
      var nbr := ns[k];
      if nbr !in cameFrom && Walkable(grid, s, nbr) {
        assert nbr in f.open;
        if IsGoal(grid, s, nbr) {
          assert nbr in f.goals;
          LowerLayersClosed(f, pathTo, q, current, len);
          FoundNearest(f, start, cameFrom, pathTo, current, nbr);
          var path := Arrive(f, start, cameFrom, pathTo, current, nbr);
          return cameFrom, pathTo, q, Some(path);
        }
        assert nbr !in pathTo;
        LayeredAdd(f, pathTo, q, current, len, nbr, ns, k);
        Discover(f, start, cameFrom, pathTo, current, nbr);
        cameFrom := cameFrom[nbr := Some(current)];
        pathTo := pathTo[nbr := pathTo[current] + [nbr]];
        q := q + [nbr];
      } else {
        assert nbr in cameFrom ==> nbr in pathTo;
        ExpandedSkip(f, pathTo, q, current, len, ns, k);
      }
      k := k + 1;
    }
    LayeredExit(f, pathTo, q, current, len, ns);
    r := None;
  }

  /** The goal branch: the `while cur is not None` loop walks `came_from` up from `current`
      appending each cell, and `path.reverse()` puts the result in order; this rebuilds exactly
      the discovered path to `nbr`. */
  method Arrive(ghost f: Field, start: Pos, cameFrom: map<Pos, Option<Pos>>, ghost pathTo: map<Pos, seq<Pos>>,
                current: Pos, nbr: Pos) returns (path: seq<Pos>)
    requires Tree(cameFrom, pathTo, start) && current in cameFrom
    ensures path == pathTo[current] + [nbr]
  {
    ghost var found := pathTo[current] + [nbr];
    path := [nbr];
    var cur: Option<Pos> := Some(current);
    ReversedAppend([], nbr);
    while cur.Some?
      invariant cur.Some? ==> cur.value in cameFrom && pathTo[cur.value] + Reversed(path) == found
      invariant cur.None? ==> Reversed(path) == found
      decreases if cur.Some? then |pathTo[cur.value]| else 0
    {
      var c := cur.value;
      ParentStep(cameFrom, pathTo, start, found, path, c);
      path := path + [c];
      cur := cameFrom[c];
    }
    path := Reversed(path);
  }

  /** One step of the walk up `came_from`: prepending the parent's path keeps the reversed
      partial path a suffix of the path being rebuilt. */
  lemma ParentStep(cameFrom: map<Pos, Option<Pos>>, pathTo: map<Pos, seq<Pos>>, start: Pos,
                   found: seq<Pos>, path: seq<Pos>, c: Pos)
    requires Tree(cameFrom, pathTo, start) && c in cameFrom && pathTo[c] + Reversed(path) == found
    ensures cameFrom[c].Some? ==>
              cameFrom[c].value in cameFrom && pathTo[cameFrom[c].value] + Reversed(path + [c]) == found
    ensures cameFrom[c].None? ==> Reversed(path + [c]) == found
  {
    ReversedAppend(path, c);
  }

  /** A walk needs at least one cell per unit of Manhattan distance between its ends, plus one. */
  lemma {:induction false} WalkLength(f: Field, w: seq<Pos>)
    requires IsWalk(f, w)
    ensures Manhattan(w[0], Last(w)) + 1 <= |w|
    decreases |w|
  {
    if |w| > 1 {
      var w' := w[..|w| - 1];
      assert IsWalk(f, w') by {
        forall i | 0 < i < |w'| ensures Adjacent(w'[i - 1], w'[i]) && w'[i] in f.open {
          assert w'[i] == w[i] && w'[i - 1] == w[i - 1];
        }
      }
      WalkLength(f, w');
      assert Adjacent(w[|w| - 2], w[|w| - 1]);
    }
  }

  /** One step from `a` towards `b`: along x first, then along y. */
  function StepTowards(a: Pos, b: Pos): (c: Pos)
    requires a != b
    ensures Adjacent(a, c) && Manhattan(c, b) + 1 == Manhattan(a, b)
  {
    if a.x < b.x then Pos(a.x + 1, a.y)
    else if a.x > b.x then Pos(a.x - 1, a.y)
    else if a.y < b.y then Pos(a.x, a.y + 1)
    else Pos(a.x, a.y - 1)
  }

  /** The staircase walk from `a` to `b`. */
  function Staircase(a: Pos, b: Pos): (w: seq<Pos>)
    decreases Manhattan(a, b)
  {
    if a == b then [a] else [a] + Staircase(StepTowards(a, b), b)
  }

  /** On a grid without obstacles the staircase between two in-bounds cells is a walk of exactly
      Manhattan + 1 cells. */
  lemma {:induction false} StaircaseWalk<T>(grid: seq<seq<T>>, f: Field, a: Pos, b: Pos)
    requires InBounds(grid, a) && InBounds(grid, b)
    requires forall p :: InBounds(grid, p) ==> p in f.open
    ensures IsWalk(f, Staircase(a, b)) && Staircase(a, b)[0] == a && Last(Staircase(a, b)) == b
    ensures |Staircase(a, b)| == Manhattan(a, b) + 1
    decreases Manhattan(a, b)
  {
    if a != b {
      var c := StepTowards(a, b);
      StaircaseWalk(grid, f, c, b);
      var rest := Staircase(c, b);
      var w := [a] + rest;
      assert w == Staircase(a, b);
      forall i | 0 < i < |w| ensures Adjacent(w[i - 1], w[i]) && w[i] in f.open {
        assert w[i] == rest[i - 1];
        if i > 1 {
          assert w[i - 1] == rest[i - 2];
        }
      }
    }
  }

  /** bfs: `[start]` when start is the goal; otherwise a shortest walk over in-bounds cells from
      `start` to `goal`, or None when there is none. */
  method Bfs<V>(grid: Grid<V>, start: Pos, goal: Pos) returns (r: Option<seq<Pos>>)
    ensures start == goal ==> r == Some([start])
    ensures start != goal && r.Some? ==>
              Route(FieldOf(grid, Plain(goal)), start, r.value) && Last(r.value) == goal
    ensures start != goal && r.Some? ==> |r.value| == Manhattan(start, goal) + 1
    ensures r.None? <==> start != goal && (!InBounds(grid, goal) || Unreachable(FieldOf(grid, Plain(goal)), start))
    ensures InBounds(grid, start) && InBounds(grid, goal) ==> r.Some?
  {
    if start == goal {
      return Some([start]);
    }
    ghost var f := FieldOf(grid, Plain(goal));
    r := Explore(grid, Plain(goal), start);
    if InBounds(grid, goal) {
      assert goal in f.goals;
      if r.Some? {
        WalkLength(f, r.value);
        if InBounds(grid, start) {
          StaircaseWalk(grid, f, start, goal);
        } else {
          EnterFromOutside(grid, f, start, r.value[1], goal);
        }
      } else {
        StaircaseReachesGoal(grid, f, start, goal);
      }
    }
  }

  /** A start just outside the grid enters it by a step towards every in-bounds cell, so prefixing
      that step to the staircase gives a walk of Manhattan + 1 cells. */
  lemma EnterFromOutside<T>(grid: seq<seq<T>>, f: Field, start: Pos, c: Pos, goal: Pos)
    requires !InBounds(grid, start) && InBounds(grid, c) && InBounds(grid, goal) && Adjacent(start, c)
    requires forall p :: InBounds(grid, p) ==> p in f.open
    ensures exists w :: IsWalk(f, w) && w[0] == start && Last(w) == goal && |w| == Manhattan(start, goal) + 1
  {
    assert Manhattan(c, goal) + 1 == Manhattan(start, goal);
    StaircaseWalk(grid, f, c, goal);
    var rest := Staircase(c, goal);
    var w := [start] + rest;
    forall i | 0 < i < |w| ensures Adjacent(w[i - 1], w[i]) && w[i] in f.open {
      assert w[i] == rest[i - 1];
      if i > 1 {
        assert w[i - 1] == rest[i - 2];
      }
    }
    assert Last(w) == Last(rest);
  }

  /** For in-bounds ends the staircase shows the goal is reachable. */
  lemma StaircaseReachesGoal<T>(grid: seq<seq<T>>, f: Field, start: Pos, goal: Pos)
    requires start != goal && InBounds(grid, goal) && goal in f.goals
    requires forall p :: InBounds(grid, p) ==> p in f.open
    ensures InBounds(grid, start) ==> !Unreachable(f, start)
  {
    if InBounds(grid, start) {
      StaircaseWalk(grid, f, start, goal);
    }
  }

  /** The common shape of the three hazard-aware searches: `[start]` when the start cell already
      satisfies the immediate test, otherwise the path to a nearest goal over walkable cells, or
      None when no goal is reachable. */
  ghost predicate Answers<V>(grid: Grid<V>, s: Search, start: Pos, here: bool, r: Option<seq<Pos>>)
  {
    (here ==> r == Some([start])) &&
    (!here && r.Some? ==> Route(FieldOf(grid, s), start, r.value) && Nearest(FieldOf(grid, s), start, |r.value|)) &&
    (!here && r.None? ==> Unreachable(FieldOf(grid, s), start))
  }

  /** A goal counts as found by a search when the start test holds or some walk reaches one. */
  ghost predicate Finds<V>(grid: Grid<V>, s: Search, start: Pos, here: bool)
  {
    here || !Unreachable(FieldOf(grid, s), start)
  }

  /** What the callers of a search rely on: it returns a path exactly when a goal can be found, and
      a returned path starts at `start`. */
  lemma AnswersFacts<V>(grid: Grid<V>, s: Search, start: Pos, here: bool, r: Option<seq<Pos>>)
    requires Answers(grid, s, start, here, r)
    ensures r.Some? <==> Finds(grid, s, start, here)
    ensures r.Some? ==> |r.value| >= 1 && r.value[0] == start
  {
    if r.Some? && !here {
      assert IsWalk(FieldOf(grid, s), r.value) && |r.value| >= 2;
    }
  }

  /** find_nearest_item: the start test is "the start cell holds an Item". */
  method FindNearestItem<V>(grid: Grid<V>, start: Pos, danger: seq<seq<bool>>) returns (r: Option<seq<Pos>>)
    requires InBounds(grid, start) && Covers(grid, danger)
    ensures Answers(grid, Safe(danger, AnyItem), start, grid[start.x][start.y].ItemAt?, r)
  {
    if grid[start.x][start.y].ItemAt? {
      return Some([start]);
    }
    r := Explore(grid, Safe(danger, AnyItem), start);
  }

  /** find_nearest_person: the start test is "the start cell holds a Person". */
  method FindNearestPerson<V>(grid: Grid<V>, start: Pos, danger: seq<seq<bool>>) returns (r: Option<seq<Pos>>)
    requires InBounds(grid, start) && Covers(grid, danger)
    ensures Answers(grid, Safe(danger, PersonOnly), start,
                    grid[start.x][start.y].ItemAt? && grid[start.x][start.y].item.kind == Person, r)
  {
    if grid[start.x][start.y].ItemAt? && grid[start.x][start.y].item.kind == Person {
      return Some([start]);
    }
    r := Explore(grid, Safe(danger, PersonOnly), start);
  }

  /** find_path_to_column: the start test is "the start is in the target column and walkable". */
  method FindPathToColumn<V>(grid: Grid<V>, start: Pos, targetX: int, danger: seq<seq<bool>>)
    returns (r: Option<seq<Pos>>)
    requires start.x == targetX ==> InBounds(grid, start)
    requires Covers(grid, danger)
    ensures Answers(grid, Safe(danger, Column(targetX)), start,
                    start.x == targetX && Walkable(grid, Safe(danger, Column(targetX)), start), r)
  {
    if start.x == targetX && Walkable(grid, Safe(danger, Column(targetX)), start) {
      return Some([start]);
    }
    r := Explore(grid, Safe(danger, Column(targetX)), start);
  }
}
