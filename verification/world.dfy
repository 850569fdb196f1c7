/** landscape.py and agent.py: the grid of cells, the agents that live on it and the
    population list. The three are one module because they refer to each other: a cell holds
    its occupant, `put` writes the occupant's coordinates, and every agent behaviour takes the
    landscape. Random draws are parameters; the callbacks that field_of_view and
    moore_neighborhood hand each visited cell to are replaced by the sequence of visits, which
    the caller folds over. */
module World {
  import opened Wrappers
  import opened ExtReals
  import opened Events
  import opened AgentMath
  import Stats

  /** Python's `list[i]`: a negative index counts from the end. */
  function PyIndex(i: int, n: nat): int
  {
    if i < 0 then i + n else i
  }

  /** Cell.update_sugar's arithmetic: grow by `growth`, then clamp to the capacity. */
  function Regrown(sugar: real, capacity: real, growth: real): (r: real)
    ensures r <= capacity && r <= sugar + growth
    ensures r == capacity || r == sugar + growth
  {
    var s := sugar + growth;
    if s > capacity then capacity else s
  }

  /** Taking a coordinate that is already in range modulo the grid size leaves it alone. */
  lemma ModOfInRange(a: int, n: int)
    requires 0 <= a < n
    ensures a % n == a
  {
  }

  /** Regrowth at a non-negative rate over a non-negative interval keeps the sugar between 0
      and the capacity, and never lowers it. */
  lemma RegrowthKeepsBounds(sugar: real, capacity: real, alpha: real, diff: real)
    requires 0.0 <= sugar <= capacity && 0.0 <= alpha && 0.0 <= diff
    ensures var r := Regrown(sugar, capacity, diff * alpha); 0.0 <= sugar <= r <= capacity
  {
    assert diff * alpha >= 0.0;
  }

  /** A cell that is full stays full, whatever the elapsed time. */
  lemma FullCellStaysFull(capacity: real, alpha: real, diff: real)
    requires 0.0 <= alpha && 0.0 <= diff
    ensures Regrown(capacity, capacity, diff * alpha) == capacity
  {
    assert diff * alpha >= 0.0;
  }

  class Cell {
    const x: int
    const y: int
    const capacity: int
    const level: int
    var sugar: real
    var agent: Agent?

    /** Cell(x, y): the capacity is a draw of `randint(0, MAX_POSSIBLE_SUGAR)`, the level a
        draw of `randint(1, MAX_HEIGHT)`; the cell starts full and empty. */
    constructor (x: int, y: int, capacity: nat, level: nat, maxSugar: nat, maxHeight: nat)
      requires capacity <= maxSugar && 1 <= level <= maxHeight
      ensures this.x == x && this.y == y && this.capacity == capacity && this.level == level
      ensures sugar == capacity as real && agent == null
    {
      this.x := x;
      this.y := y;
      this.capacity := capacity;
      this.level := level;
      sugar := capacity as real;
      agent := null;
    }

    /** update_sugar(tLast, tNow) with the growth rate ALPHA given as `alpha`. */
    method UpdateSugar(alpha: real, tLast: real, tNow: real)
      modifies this`sugar
      ensures sugar == Regrown(old(sugar), capacity as real, (tNow - tLast) * alpha)
    {
      var diff := tNow - tLast;
      sugar := sugar + diff * alpha;
      if sugar > capacity as real {
        sugar := capacity as real;
      }
    }
  }

  class Landscape {
    const rows: nat
    const cols: nat
    /** `landscape[y][x]`; the lists themselves are never changed, only the cells. */
    const grid: seq<seq<Cell>>
    /** The cells of the grid, as a frame. */
    ghost const cells: set<Cell>
    /** ALPHA, the regrowth rate per unit of time. */
    const alpha: real
    var tLastSugarUpdate: real

    /** `grid` is `rows` lists of `cols` cells, the cell at `[y][x]` knows its coordinates,
        and `cells` holds exactly the grid's cells. Every cell sits at a distinct position,
        so the cells are distinct objects. */
    ghost predicate Shape()
    {
      && |grid| == rows
      && (forall y :: 0 <= y < rows ==> |grid[y]| == cols)
      && (forall y, x :: 0 <= y < rows && 0 <= x < cols ==>
            grid[y][x].x == x && grid[y][x].y == y && grid[y][x] in cells)
      && (forall c :: c in cells ==> 0 <= c.y < rows && 0 <= c.x < cols && grid[c.y][c.x] == c)
    }

    /** Every cell holds between 0 and its capacity of sugar. */
    ghost predicate Bounded()
      reads cells
    {
      forall c :: c in cells ==> 0.0 <= c.sugar <= c.capacity as real
    }

    /** The agents standing on some cell. */
    ghost function Occupants(): set<Agent>
      reads cells
    {
      set c | c in cells && c.agent != null :: c.agent
    }

    /** Landscape(rows, cols): the cells are made row by row, each from its two draws. */
    constructor (rows: nat, cols: nat, alpha: real, capacities: seq<seq<nat>>, levels: seq<seq<nat>>,
                 maxSugar: nat, maxHeight: nat)
      requires |capacities| == rows && |levels| == rows
      requires forall y :: 0 <= y < rows ==> |capacities[y]| == cols && |levels[y]| == cols
      requires forall y, x :: 0 <= y < rows && 0 <= x < cols ==>
        capacities[y][x] <= maxSugar && 1 <= levels[y][x] <= maxHeight
      ensures Shape() && Bounded()
      ensures this.rows == rows && this.cols == cols && this.alpha == alpha && tLastSugarUpdate == 0.0
      ensures forall y, x :: 0 <= y < rows && 0 <= x < cols ==>
        && grid[y][x].capacity == capacities[y][x] && grid[y][x].level == levels[y][x]
        && grid[y][x].sugar == capacities[y][x] as real && grid[y][x].agent == null
      ensures Occupants() == {}
    {
      var g: seq<seq<Cell>> := [];
      ghost var cs: set<Cell> := {};
      for y := 0 to rows
        invariant |g| == y
        invariant forall yy :: 0 <= yy < y ==> |g[yy]| == cols
        invariant forall yy, xx :: 0 <= yy < y && 0 <= xx < cols ==>
          && g[yy][xx].x == xx && g[yy][xx].y == yy && g[yy][xx] in cs
          && g[yy][xx].capacity == capacities[yy][xx] && g[yy][xx].level == levels[yy][xx]
          && g[yy][xx].sugar == capacities[yy][xx] as real && g[yy][xx].agent == null
        invariant forall c :: c in cs ==> 0 <= c.y < y && 0 <= c.x < cols && g[c.y][c.x] == c
      {
        var line: seq<Cell> := [];
        ghost var ls: set<Cell> := {};
        for x := 0 to cols
          invariant |line| == x
          invariant forall xx :: 0 <= xx < x ==>
            && line[xx].x == xx && line[xx].y == y && line[xx] in ls
            && line[xx].capacity == capacities[y][xx] && line[xx].level == levels[y][xx]
            && line[xx].sugar == capacities[y][xx] as real && line[xx].agent == null
          invariant forall c :: c in ls ==> c.y == y && 0 <= c.x < x && line[c.x] == c
          invariant forall yy, xx :: 0 <= yy < y && 0 <= xx < cols ==>
            && g[yy][xx].sugar == capacities[yy][xx] as real && g[yy][xx].agent == null
        {
          var cell := new Cell(x, y, capacities[y][x], levels[y][x], maxSugar, maxHeight);
          line := line + [cell];
          ls := ls + {cell};
        }
        g := g + [line];
        cs := cs + ls;
      }
      this.rows := rows;
      this.cols := cols;
      this.alpha := alpha;
      grid := g;
      cells := cs;
      tLastSugarUpdate := 0.0;
      new;
      assert Occupants() == {} by {
        forall c | c in cells ensures c.agent == null {
          assert grid[c.y][c.x] == c;
        }
      }
    }

    /** valid_coord(x, y). */
    predicate ValidCoord(x: int, y: int)
    {
      0 <= x < cols && 0 <= y < rows
    }

    /** get_cell(x, y): the cell at `(x, y)` on the grid, None off the grid. The modulo the
        source applies only runs on coordinates that are already in range, so nothing wraps
        round, whatever its doc-comment says about a torus (GetCellNoWrap). */
    function GetCell(x: int, y: int): (c: Cell?)
      requires Shape()
      ensures c != null <==> ValidCoord(x, y)
      ensures c != null ==> c == grid[y][x] && c.x == x && c.y == y && c in cells
    {
      if ValidCoord(x, y) then grid[y][x] else null
    }

    /** The cell get_cell returns is `landscape[y % rows][x % cols]`, as the source indexes it. */
    lemma GetCellNoWrap(x: int, y: int)
      requires Shape() && ValidCoord(x, y)
      ensures GetCell(x, y) == grid[y % rows][x % cols]
    {
      ModOfInRange(x, cols);
      ModOfInRange(y, rows);
    }

    /** is_empty(x, y) reads `landscape[y][x]` directly, so it accepts Python's negative
        indices and fails with an IndexError beyond them. */
    function IsEmpty(x: int, y: int): (b: bool)
      requires Shape() && 0 <= x + cols && x < cols && 0 <= y + rows && y < rows
      reads cells
      ensures ValidCoord(x, y) ==> (b <==> GetCell(x, y).agent == null)
      ensures b <==> GetCell(PyIndex(x, cols), PyIndex(y, rows)).agent == null
    {
      grid[PyIndex(y, rows)][PyIndex(x, cols)].agent == null
    }

    /** put(obj, x, y): succeeds exactly on a valid, empty coordinate; then the cell holds
        the agent and the agent records the coordinate. A failed put changes nothing. */
    method Put(obj: Agent, x: int, y: int) returns (ok: bool)
      requires Shape()
      modifies obj`col, obj`row, (if ValidCoord(x, y) then {grid[y][x]} else {})`agent
      ensures ok <==> old(ValidCoord(x, y) && IsEmpty(x, y))
      ensures ok ==> grid[y][x].agent == obj && obj.col == x && obj.row == y
      ensures !ok ==> obj.col == old(obj.col) && obj.row == old(obj.row)
      ensures !ok && ValidCoord(x, y) ==> grid[y][x].agent == old(grid[y][x].agent)
    {
      ok := false;
      if ValidCoord(x, y) {
        if IsEmpty(x, y) {
          obj.col := x;
          obj.row := y;
          GetCell(x, y).agent := obj;
          ok := true;
        }
      }
    }

    /** remove(x, y): the cell at `(x, y)` is left without an occupant. On an occupied
        coordinate off the grid `get_cell` gives None and the source fails, hence the
        precondition. */
    method Remove(x: int, y: int)
      requires Shape() && 0 <= x + cols && x < cols && 0 <= y + rows && y < rows
      requires ValidCoord(x, y) || IsEmpty(x, y)
      modifies (if ValidCoord(x, y) then {grid[y][x]} else {})`agent
      ensures ValidCoord(x, y) ==> grid[y][x].agent == null
    {
      if !IsEmpty(x, y) {
        GetCell(x, y).agent := null;
      }
    }

    /** move(x0, y0, x1, y1): put the occupant of `(x0, y0)` at `(x1, y1)`, then clear
        `(x0, y0)` whether or not the put succeeded. With no occupant nothing happens. */
    method Move(x0: int, y0: int, x1: int, y1: int)
      requires Shape() && ValidCoord(x0, y0)
      modifies {grid[y0][x0]}`agent, (if ValidCoord(x1, y1) then {grid[y1][x1]} else {})`agent
      modifies (if grid[y0][x0].agent != null then {grid[y0][x0].agent} else {})`col
      modifies (if grid[y0][x0].agent != null then {grid[y0][x0].agent} else {})`row
      ensures old(grid[y0][x0].agent) == null ==>
        && grid[y0][x0].agent == null
        && (ValidCoord(x1, y1) ==> grid[y1][x1].agent == old(grid[y1][x1].agent))
      ensures var a := old(grid[y0][x0].agent);
        a != null ==>
          && grid[y0][x0].agent == null
          && (old(ValidCoord(x1, y1) && IsEmpty(x1, y1)) ==>
                grid[y1][x1].agent == a && a.col == x1 && a.row == y1)
          && (!old(ValidCoord(x1, y1) && IsEmpty(x1, y1)) ==>
                && a.col == old(a.col) && a.row == old(a.row)
                && (ValidCoord(x1, y1) && (x1, y1) != (x0, y0) ==>
                      grid[y1][x1].agent == old(grid[y1][x1].agent)))
    {
      var oldCell := GetCell(x0, y0);
      if oldCell.agent == null {
        return;
      }
      var _ := Put(oldCell.agent, x1, y1);
      Remove(x0, y0);
    }

    /** Where next_open ends with the draws `draws`: at the first of the first `rows * cols`
        draws that is empty, else at the last of them; at `(0, 0)` on an empty grid. */
    ghost predicate FirstOpen(draws: seq<(int, int)>, p: (int, int))
      requires Shape() && |draws| >= rows * cols
      requires forall k :: 0 <= k < |draws| ==> 0 <= draws[k].0 < cols && 0 <= draws[k].1 < rows
      reads cells
    {
      if rows * cols == 0 then p == (0, 0)
      else
        exists k :: 0 <= k < rows * cols && p == draws[k]
          && (forall j :: 0 <= j < k ==> !IsEmpty(draws[j].0, draws[j].1))
          && (IsEmpty(draws[k].0, draws[k].1) || k == rows * cols - 1)
    }

    /** next_open(): up to `rows * cols` tries, each drawing `x` then `y`; the first empty draw
        ends the search. `tries` never exceeds `maxTries`, so the `(None, None)` branch is dead:
        when no draw is empty the last draw is returned, and `(0, 0)` on an empty grid. */
    method NextOpen(draws: seq<(int, int)>) returns (r: Option<(int, int)>)
      requires Shape()
      requires |draws| >= rows * cols
      requires forall k :: 0 <= k < |draws| ==> 0 <= draws[k].0 < cols && 0 <= draws[k].1 < rows
      ensures r.Some? && FirstOpen(draws, r.value)
    {
      var tries := 0;
      var maxTries := rows * cols;
      var x, y := 0, 0;
      while tries < maxTries
        invariant 0 <= tries <= maxTries
        invariant tries == 0 ==> (x, y) == (0, 0)
        invariant tries > 0 ==> (x, y) == draws[tries - 1]
        invariant forall j :: 0 <= j < tries ==> !IsEmpty(draws[j].0, draws[j].1)
      {
        tries := tries + 1;
        x, y := draws[tries - 1].0, draws[tries - 1].1;
        if IsEmpty(x, y) {
          break;
        }
      }
      if tries <= maxTries {
        r := Some((x, y));
      } else {
        r := None;
      }
    }

    /** Whether the cell at `(c.x, c.y)` comes before `(x, y)` in the row-by-row scan. */
    static predicate Before(c: Cell, x: int, y: int)
    {
      c.y < y || (c.y == y && c.x < x)
    }

    /** The cell's sugar after update_sugar has passed over it, or before. */
    ghost predicate Regrew(c: Cell, before: real, growth: real, done: bool)
      reads c
    {
      c.sugar == if c.capacity > 0 && done then Regrown(before, c.capacity as real, growth) else before
    }

    /** The inner loop of update_sugar: the cells of row `y`, left to right. */
    method UpdateRow(y: int, tLast: real, t: real)
      requires Shape() && 0 <= y < rows
      modifies cells`sugar
      ensures forall c :: c in cells ==> Regrew(c, old(c.sugar), (t - tLast) * alpha, c.y == y)
    {
      ghost var growth := (t - tLast) * alpha;
      for x := 0 to cols
        invariant forall c :: c in cells ==> Regrew(c, old(c.sugar), growth, c.y == y && c.x < x)
      {
        var cell := GetCell(x, y);
        if cell.capacity > 0 {
          cell.UpdateSugar(alpha, tLast, t);
        }
      }
    }

    /** update_sugar(t): every cell with a positive capacity regrows over the time since the
        last update; cells of capacity 0 are skipped; then the update time becomes `t`. */
    method UpdateSugar(t: real)
      requires Shape()
      modifies cells`sugar, this`tLastSugarUpdate
      ensures tLastSugarUpdate == t
      ensures forall c :: c in cells ==>
        c.sugar == if c.capacity > 0
                   then Regrown(old(c.sugar), c.capacity as real, (t - old(tLastSugarUpdate)) * alpha)
                   else old(c.sugar)
      ensures old(Bounded()) && 0.0 <= alpha && old(tLastSugarUpdate) <= t ==> Bounded()
    {
      ghost var growth := (t - tLastSugarUpdate) * alpha;
      for y := 0 to rows
        invariant tLastSugarUpdate == old(tLastSugarUpdate)
        invariant forall c :: c in cells ==> Regrew(c, old(c.sugar), growth, c.y < y)
      {
        UpdateRow(y, tLastSugarUpdate, t);
      }
      if old(Bounded()) && 0.0 <= alpha && old(tLastSugarUpdate) <= t {
        forall c | c in cells ensures 0.0 <= c.sugar <= c.capacity as real {
          assert Regrew(c, old(c.sugar), growth, true);
          assert old(0.0 <= c.sugar <= c.capacity as real);
          if c.capacity > 0 {
            RegrowthKeepsBounds(old(c.sugar), c.capacity as real, alpha, t - tLastSugarUpdate);
          }
        }
      }
      forall c | c in cells
        ensures c.sugar == if c.capacity > 0 then Regrown(old(c.sugar), c.capacity as real, growth)
                           else old(c.sugar)
      {
        assert Regrew(c, old(c.sugar), growth, true);
      }
      tLastSugarUpdate := t;
    }
  }

  /** The four unit offsets field_of_view walks, before they are shuffled. */
  const Directions: seq<(int, int)> := [(0, 1), (1, 0), (0, -1), (-1, 0)]

  /** `random.shuffle(directions)` produced `dirs`. */
  predicate IsShuffle(dirs: seq<(int, int)>)
  {
    multiset(dirs) == multiset(Directions)
  }

  /** A shuffle holds nothing but the four unit offsets. */
  lemma ShuffledDirections(dirs: seq<(int, int)>)
    requires IsShuffle(dirs)
    ensures |dirs| == 4 && forall i :: 0 <= i < |dirs| ==> dirs[i] in Directions
  {
    assert |dirs| == |multiset(dirs)| == |multiset(Directions)|;
    forall i | 0 <= i < |dirs| ensures dirs[i] in Directions {
      assert dirs[i] in multiset(dirs);
    }
  }

  /** The cell `(col, row)` and the eight around it are on the grid, so the scans never get
      None from get_cell. */
  predicate Interior(land: Landscape, col: int, row: int)
  {
    1 <= col && col + 1 < land.cols && 1 <= row && row + 1 < land.rows
  }

  /** `n` visits of `cell`, at `dist` 0, 1, ..., n - 1. */
  function Repeat(cell: Cell, n: nat): (r: seq<(Cell, nat)>)
    ensures |r| == n && forall d :: 0 <= d < n ==> r[d] == (cell, d)
  {
    seq(n, d requires 0 <= d < n => (cell, d))
  }

  /** The first `n` visits field_of_view makes in direction `d`: the adjacent cell, once per
      `dist`, when it is not too high to see. */
  function Sighting(land: Landscape, col: int, row: int, vision: nat, d: (int, int), n: nat): (r: seq<(Cell, nat)>)
    requires land.Shape() && vision > 0 && Interior(land, col, row) && d in Directions && n <= vision
    ensures forall i :: 0 <= i < |r| ==> r[i].0 in land.cells && r[i].1 < vision
  {
    var cell := land.GetCell(col + d.0, row + d.1);
    var own := land.GetCell(col, row);
    if cell.level <= vision + own.level then Repeat(cell, n) else []
  }

  /** One more `dist` adds at most one visit, at that `dist`. */
  lemma SightingStep(land: Landscape, col: int, row: int, vision: nat, d: (int, int), n: nat)
    requires land.Shape() && vision > 0 && Interior(land, col, row) && d in Directions && n < vision
    ensures var cell := land.GetCell(col + d.0, row + d.1);
      Sighting(land, col, row, vision, d, n + 1) == Sighting(land, col, row, vision, d, n)
        + (if cell.level <= vision + land.GetCell(col, row).level then [(cell, n)] else [])
  {
    var cell := land.GetCell(col + d.0, row + d.1);
    assert Repeat(cell, n + 1) == Repeat(cell, n) + [(cell, n)];
  }

  /** The visits field_of_view hands to its callback, in order, for the directions `dirs`.
      The offset is never scaled by `dist`: every visit is to a cell next to the agent. */
  function FovVisits(land: Landscape, col: int, row: int, vision: nat, dirs: seq<(int, int)>): (r: seq<(Cell, nat)>)
    requires land.Shape() && (vision > 0 ==> Interior(land, col, row))
    requires forall i :: 0 <= i < |dirs| ==> dirs[i] in Directions
    ensures forall i :: 0 <= i < |r| ==> r[i].0 in land.cells && r[i].1 < vision
  {
    if dirs == [] || vision == 0 then []
    else
      FovVisits(land, col, row, vision, dirs[..|dirs| - 1])
        + Sighting(land, col, row, vision, dirs[|dirs| - 1], vision)
  }

  /** The visits for the first `i + 1` directions extend those for the first `i`. */
  lemma FovVisitsStep(land: Landscape, col: int, row: int, vision: nat, dirs: seq<(int, int)>, i: nat)
    requires land.Shape() && (vision > 0 ==> Interior(land, col, row))
    requires forall i :: 0 <= i < |dirs| ==> dirs[i] in Directions
    requires i < |dirs|
    ensures vision == 0 ==> FovVisits(land, col, row, vision, dirs[..i + 1]) == []
    ensures vision > 0 ==> (FovVisits(land, col, row, vision, dirs[..i + 1]) ==
      FovVisits(land, col, row, vision, dirs[..i]) + Sighting(land, col, row, vision, dirs[i], vision))
  {
    assert dirs[..i + 1][..i] == dirs[..i];
  }

  /** The cells field_of_view visits, in order. */
  function VisitedCells(land: Landscape, col: int, row: int, vision: nat, dirs: seq<(int, int)>): (cs: seq<Cell>)
    requires land.Shape() && (vision > 0 ==> Interior(land, col, row))
    requires forall i :: 0 <= i < |dirs| ==> dirs[i] in Directions
    ensures OnLand(land, cs) && cs == CellsOf(FovVisits(land, col, row, vision, dirs))
  {
    CellsOf(FovVisits(land, col, row, vision, dirs))
  }

  /** One step of move's scan, on the keys it compares: the cell at `i` (empty with sugar `s`,
      or occupied) is taken exactly when it is empty with more than `m`, and then it is
      the new maximum and a first visit (`dist == 0`). An empty cell with sugar equal to `m`
      comes after a maximum already found. */
  lemma MoveScanStep(keys: seq<ExtReal>, i: nat, dist: nat, m: real, s: real, empty: bool)
    requires i < |keys| && keys[i] == (if empty then Fin(s) else NegInf) && (empty ==> 0.0 <= s)
    requires dist > 0 ==> i > 0 && keys[i - 1] == keys[i]
    requires !SomeAboveNegInf(keys[..i]) ==> m == -1.0
    requires SomeAboveNegInf(keys[..i]) ==> keys[ArgMax(keys[..i])] == Fin(m)
    ensures empty && s > m ==>
      SomeAboveNegInf(keys[..i + 1]) && ArgMax(keys[..i + 1]) == i && dist == 0
    ensures !(empty && s > m) ==>
      && (SomeAboveNegInf(keys[..i + 1]) <==> SomeAboveNegInf(keys[..i]))
      && (SomeAboveNegInf(keys[..i]) ==> ArgMax(keys[..i + 1]) == ArgMax(keys[..i]))
    ensures empty && s == m ==> SomeAboveNegInf(keys[..i])
  {
    ArgMaxStep(keys, i);
    if dist > 0 {
      assert keys[..i][i - 1] == keys[i];
    }
  }

  /** Each visit at `dist > 0` repeats the visit before it, one step further. */
  ghost predicate Chained(visits: seq<(Cell, nat)>)
  {
    forall i :: 0 <= i < |visits| && visits[i].1 > 0 ==>
      i > 0 && visits[i - 1] == (visits[i].0, visits[i].1 - 1)
  }

  lemma {:induction false} FovChained(land: Landscape, col: int, row: int, vision: nat, dirs: seq<(int, int)>)
    requires land.Shape() && (vision > 0 ==> Interior(land, col, row))
    requires forall i :: 0 <= i < |dirs| ==> dirs[i] in Directions
    ensures Chained(FovVisits(land, col, row, vision, dirs))
  {
    if dirs != [] && vision > 0 {
      var front := dirs[..|dirs| - 1];
      FovChained(land, col, row, vision, front);
      var v := FovVisits(land, col, row, vision, front);
      var w := Sighting(land, col, row, vision, dirs[|dirs| - 1], vision);
      var all := v + w;
      forall i | 0 <= i < |all| && all[i].1 > 0 ensures i > 0 && all[i - 1] == (all[i].0, all[i].1 - 1) {
        if i >= |v| {
          assert all[i] == w[i - |v|];
          assert i - |v| > 0;
          assert all[i - 1] == w[i - 1 - |v|];
        } else {
          assert all[i] == v[i] && all[i - 1] == v[i - 1];
        }
      }
    }
  }

  /** `c` is one of the four cells next to `(col, row)`. */
  predicate Adjacent(c: Cell, col: int, row: int)
    reads {}
  {
    (if c.x < col then col - c.x else c.x - col) + (if c.y < row then row - c.y else c.y - row) == 1
  }

  /** Every visit in direction `d` is to the cell one step away in that direction. */
  lemma SightingAdjacent(land: Landscape, col: int, row: int, vision: nat, d: (int, int), n: nat)
    requires land.Shape() && vision > 0 && Interior(land, col, row) && d in Directions && n <= vision
    ensures forall i :: 0 <= i < |Sighting(land, col, row, vision, d, n)| ==>
      Adjacent(Sighting(land, col, row, vision, d, n)[i].0, col, row)
  {
    var c := land.GetCell(col + d.0, row + d.1);
    assert Adjacent(c, col, row) by {
      assert c.x == col + d.0 && c.y == row + d.1;
      assert d == (0, 1) || d == (1, 0) || d == (0, -1) || d == (-1, 0);
    }
  }

  /** As written, field_of_view never looks further than the four adjacent cells, whatever the
      vision: every visited cell is one step from the agent. */
  lemma {:induction false} FovAdjacentOnly(land: Landscape, col: int, row: int, vision: nat, dirs: seq<(int, int)>)
    requires land.Shape() && (vision > 0 ==> Interior(land, col, row))
    requires forall i :: 0 <= i < |dirs| ==> dirs[i] in Directions
    ensures forall i :: 0 <= i < |FovVisits(land, col, row, vision, dirs)| ==>
      Adjacent(FovVisits(land, col, row, vision, dirs)[i].0, col, row)
  {
    if dirs != [] && vision > 0 {
      var front := dirs[..|dirs| - 1];
      FovAdjacentOnly(land, col, row, vision, front);
      SightingAdjacent(land, col, row, vision, dirs[|dirs| - 1], vision);
      var v := FovVisits(land, col, row, vision, front);
      var w := Sighting(land, col, row, vision, dirs[|dirs| - 1], vision);
      AdjacentConcat(v, w, col, row);
    }
  }

  /** Two sequences of adjacent visits concatenate to one. */
  lemma AdjacentConcat(v: seq<(Cell, nat)>, w: seq<(Cell, nat)>, col: int, row: int)
    requires forall i :: 0 <= i < |v| ==> Adjacent(v[i].0, col, row)
    requires forall i :: 0 <= i < |w| ==> Adjacent(w[i].0, col, row)
    ensures forall i :: 0 <= i < |v + w| ==> Adjacent((v + w)[i].0, col, row)
  {
    forall i | 0 <= i < |v + w| ensures Adjacent((v + w)[i].0, col, row) {
      if i >= |v| {
        assert (v + w)[i] == w[i - |v|];
      }
    }
  }

  function CellsOf(visits: seq<(Cell, nat)>): (cs: seq<Cell>)
    ensures |cs| == |visits| && forall i :: 0 <= i < |visits| ==> cs[i] == visits[i].0
  {
    seq(|visits|, i requires 0 <= i < |visits| => visits[i].0)
  }

  /** Every cell of `cs` belongs to the landscape. */
  ghost predicate OnLand(land: Landscape, cs: seq<Cell>)
  {
    forall i :: 0 <= i < |cs| ==> cs[i] in land.cells
  }

  /** What the best-empty-cell scans compare: the sugar of an empty cell, `-inf` for an
      occupied one (which they skip). */
  function EmptySugars(land: Landscape, cs: seq<Cell>): (keys: seq<ExtReal>)
    requires OnLand(land, cs)
    reads land.cells
    ensures |keys| == |cs|
  {
    if cs == [] then []
    else
      var c := cs[|cs| - 1];
      EmptySugars(land, cs[..|cs| - 1]) + [if c.agent == null then Fin(c.sugar) else NegInf]
  }

  /** Position `i` of EmptySugars is the sugar of `cs[i]` when that cell is empty, `-inf`
      when it is occupied. */
  lemma {:induction false} EmptySugarsAt(land: Landscape, cs: seq<Cell>)
    requires OnLand(land, cs)
    ensures forall i :: 0 <= i < |cs| ==>
      EmptySugars(land, cs)[i] == if cs[i].agent == null then Fin(cs[i].sugar) else NegInf
  {
    if cs != [] {
      var front := cs[..|cs| - 1];
      assert forall i :: 0 <= i < |front| ==> front[i] == cs[i];
      EmptySugarsAt(land, front);
    }
  }

  /** The first empty cell of `cs` with the greatest sugar, null when every cell is occupied.
      This is the strict-`>` scan of get_best_birth_cell, and of move (whose threshold of -1
      is below every sugar level). */
  function BestEmpty(land: Landscape, cs: seq<Cell>): (best: Cell?)
    requires OnLand(land, cs)
    reads land.cells
  {
    var keys := EmptySugars(land, cs);
    if SomeAboveNegInf(keys) then cs[ArgMax(keys)] else null
  }

  /** BestEmpty is null exactly when every cell is occupied; otherwise it is an empty cell
      with at least the sugar of every empty cell of `cs`, and with more than any empty cell
      before it. */
  lemma BestEmptyIsBest(land: Landscape, cs: seq<Cell>)
    requires OnLand(land, cs)
    ensures BestEmpty(land, cs) == null <==> forall i :: 0 <= i < |cs| ==> cs[i].agent != null
    ensures BestEmpty(land, cs) != null ==>
      && BestEmpty(land, cs) in cs && BestEmpty(land, cs).agent == null
      && (forall j :: 0 <= j < |cs| && cs[j].agent == null ==> cs[j].sugar <= BestEmpty(land, cs).sugar)
    ensures BestEmpty(land, cs) != null ==>
      forall j :: 0 <= j < ArgMax(EmptySugars(land, cs)) && cs[j].agent == null ==>
        cs[j].sugar < BestEmpty(land, cs).sugar
  {
    var keys := EmptySugars(land, cs);
    EmptySugarsAt(land, cs);
    if SomeAboveNegInf(keys) {
      var k := ArgMax(keys);
      assert keys[k] != NegInf;
      assert forall j :: 0 <= j < |cs| ==> Le(keys[j], keys[k]);
    } else {
      assert forall i :: 0 <= i < |cs| ==> keys[i] == NegInf;
    }
  }

  /** Whether `a` may be chosen as a mate at time `t`: alive and not gestating. */
  predicate Eligible(a: Agent, t: real)
    reads a`alive, a`periodG, a`tReproduce
  {
    !IsGestating(a.periodG, a.tReproduce, t) && a.alive
  }

  /** Once reproduce has found a mate (`t_reproduce = inf` with a drawn gestation period),
      the agent gestates at every time, so no scan picks it as a mate before its birth. */
  lemma CourtedIsNotEligible(a: Agent, w: Agent, t: real, gestation: real, wait: real, sugarBefore: real,
                             mateBefore: Agent?, periodBefore: ExtReal, birthBefore: ExtReal, later: real)
    requires a.Courted(w, t, gestation, wait, sugarBefore, mateBefore, periodBefore, birthBefore)
    ensures !Eligible(a, later)
  {
  }

  /** After birth a live parent gets a finite `t_reproduce` again; it is a possible mate
      exactly once its gestation period has passed since that time. */
  lemma WeanedEligibility(a: Agent, t: real, wait: real, later: real)
    requires a.alive && a.periodG.Fin? && a.tReproduce == Fin(t + wait)
    ensures Eligible(a, later) <==> later > t + wait + a.periodG.r
  {
  }

  /** A newborn has drawn no gestation period and is a possible mate at every time. */
  lemma NewbornIsEligible(a: Agent, t: real, x: int, y: int, metab: real, vision: nat, sugar: real,
                          moveWait: real, reproduceWait: real, later: real)
    requires a.Born(t, x, y, metab, vision, sugar, moveWait, reproduceWait)
    ensures Eligible(a, later)
  {
  }

  /** What reproduce's scan compares: the sugar of a cell whose occupant may be chosen,
      `-inf` for the others. */
  function MateSugars(land: Landscape, cs: seq<Cell>, t: real): (keys: seq<ExtReal>)
    requires OnLand(land, cs)
    reads land.cells, land.Occupants()`alive, land.Occupants()`periodG, land.Occupants()`tReproduce
    ensures |keys| == |cs|
  {
    if cs == [] then []
    else
      var c := cs[|cs| - 1];
      assert c.agent != null ==> c.agent in land.Occupants();
      MateSugars(land, cs[..|cs| - 1], t) + [if c.agent != null && Eligible(c.agent, t) then Fin(c.sugar) else NegInf]
  }

  /** Position `i` of MateSugars is the sugar of `cs[i]` when its occupant may be chosen. */
  lemma {:induction false} MateSugarsAt(land: Landscape, cs: seq<Cell>, t: real)
    requires OnLand(land, cs)
    ensures forall i :: 0 <= i < |cs| ==>
      MateSugars(land, cs, t)[i]
        == if cs[i].agent != null && Eligible(cs[i].agent, t) then Fin(cs[i].sugar) else NegInf
  {
    if cs != [] {
      var front := cs[..|cs| - 1];
      assert forall i :: 0 <= i < |front| ==> front[i] == cs[i];
      MateSugarsAt(land, front, t);
    }
  }

  /** The occupant reproduce settles on: of the first cell with the greatest sugar among those
      whose occupant is alive and not gestating; null when there is none. */
  function BestMate(land: Landscape, cs: seq<Cell>, t: real): (mate: Agent?)
    requires OnLand(land, cs)
    reads land.cells, land.Occupants()`alive, land.Occupants()`periodG, land.Occupants()`tReproduce
  {
    var keys := MateSugars(land, cs, t);
    if SomeAboveNegInf(keys) then cs[ArgMax(keys)].agent else null
  }

  /** BestMate is null exactly when no cell holds an eligible occupant; otherwise it is the
      eligible occupant of a cell with at least the sugar of every such cell, and with more
      than any such cell before it. */
  lemma BestMateIsWealthiest(land: Landscape, cs: seq<Cell>, t: real)
    requires OnLand(land, cs)
    ensures BestMate(land, cs, t) == null <==>
      forall i :: 0 <= i < |cs| ==> cs[i].agent == null || !Eligible(cs[i].agent, t)
    ensures BestMate(land, cs, t) != null ==>
      && var k := ArgMax(MateSugars(land, cs, t));
      && 0 <= k < |cs| && BestMate(land, cs, t) == cs[k].agent && Eligible(cs[k].agent, t)
      && (forall j :: 0 <= j < |cs| && cs[j].agent != null && Eligible(cs[j].agent, t) ==> cs[j].sugar <= cs[k].sugar)
      && (forall j :: 0 <= j < k && cs[j].agent != null && Eligible(cs[j].agent, t) ==> cs[j].sugar < cs[k].sugar)
  {
    var keys := MateSugars(land, cs, t);
    MateSugarsAt(land, cs, t);
    if SomeAboveNegInf(keys) {
      var k := ArgMax(keys);
      assert keys[k] != NegInf;
      assert forall j :: 0 <= j < |cs| ==> Le(keys[j], keys[k]);
    } else {
      assert forall i :: 0 <= i < |cs| ==> keys[i] == NegInf;
    }
  }

  /** Row `r` of the Moore neighbourhood of column `col`, left to right. */
  function MooreRow(land: Landscape, col: int, r: int): (cs: seq<Cell>)
    requires land.Shape() && 0 <= r < land.rows && 1 <= col < land.cols - 1
    ensures OnLand(land, cs)
  {
    [land.grid[r][col - 1], land.grid[r][col], land.grid[r][col + 1]]
  }

  /** The first `n` rows of the Moore neighbourhood of (col, row), from the top. */
  function MooreRows(land: Landscape, col: int, row: int, n: nat): (cs: seq<Cell>)
    requires land.Shape() && Interior(land, col, row) && n <= 3
    ensures OnLand(land, cs) && |cs| == 3 * n
  {
    if n == 0 then [] else MooreRows(land, col, row, n - 1) + MooreRow(land, col, row - 2 + n)
  }

  /** Position `k` of MooreRows is row `k / 3`, column `k % 3` of the neighbourhood. */
  lemma {:induction false} MooreRowsAt(land: Landscape, col: int, row: int, n: nat)
    requires land.Shape() && Interior(land, col, row) && n <= 3
    ensures forall k :: 0 <= k < 3 * n ==>
      MooreRows(land, col, row, n)[k].y == row - 1 + k / 3 &&
      MooreRows(land, col, row, n)[k].x == col - 1 + k % 3
  {
    if n > 0 {
      MooreRowsAt(land, col, row, n - 1);
      assert forall k :: 3 * (n - 1) <= k < 3 * n ==> k / 3 == n - 1 && k % 3 == k - 3 * (n - 1);
    }
  }

  /** The nine cells moore_neighborhood looks at, row by row from the top left. */
  function MooreCells(land: Landscape, col: int, row: int): (cs: seq<Cell>)
    requires land.Shape() && Interior(land, col, row)
    ensures OnLand(land, cs) && |cs| == 9
  {
    MooreRows(land, col, row, 3)
  }

  /** The cells of `cs` that `a` does not stand on, in order. */
  function NotHeldBy(land: Landscape, cs: seq<Cell>, a: Agent): (r: seq<Cell>)
    requires OnLand(land, cs)
    reads land.cells
    ensures OnLand(land, r) && |r| <= |cs|
  {
    if cs == [] then []
    else
      var c := cs[|cs| - 1];
      var front := NotHeldBy(land, cs[..|cs| - 1], a);
      if c.agent != a then front + [c] else front
  }

  /** NotHeldBy keeps exactly the cells `a` is not on. */
  lemma {:induction false} NotHeldByMembers(land: Landscape, cs: seq<Cell>, a: Agent)
    requires OnLand(land, cs)
    ensures forall i :: 0 <= i < |NotHeldBy(land, cs, a)| ==>
      NotHeldBy(land, cs, a)[i].agent != a && NotHeldBy(land, cs, a)[i] in cs
    ensures forall i :: 0 <= i < |cs| && cs[i].agent != a ==> cs[i] in NotHeldBy(land, cs, a)
    decreases |cs|
  {
    if cs != [] {
      var front := cs[..|cs| - 1];
      NotHeldByMembers(land, front, a);
      assert forall i :: 0 <= i < |cs| - 1 ==> front[i] == cs[i];
    }
  }

  /** NotHeldBy of a concatenation is the concatenation of the two. */
  lemma {:induction false} NotHeldByAppend(land: Landscape, cs: seq<Cell>, ds: seq<Cell>, a: Agent)
    requires OnLand(land, cs) && OnLand(land, ds)
    ensures OnLand(land, cs + ds)
    ensures NotHeldBy(land, cs + ds, a) == NotHeldBy(land, cs, a) + NotHeldBy(land, ds, a)
    decreases |ds|
  {
    if ds == [] {
      assert cs + ds == cs;
    } else {
      var front := ds[..|ds| - 1];
      assert (cs + ds)[..|cs + ds| - 1] == cs + front;
      NotHeldByAppend(land, cs, front, a);
    }
  }

  /** The sugar _maximum_pair compares for a best birth cell, `-inf` for None. */
  function BirthSugar(c: Cell?): ExtReal
    reads c
  {
    if c == null then NegInf else Fin(c.sugar)
  }

  /** birth's `_maximum_pair([selfBestSugar, mateBestSugar], [selfBest, mateBest])`: the
      mate's cell only when it is strictly sweeter, the mother's otherwise (None when both are
      None). */
  function BirthChoice(selfBest: Cell?, mateBest: Cell?): (c: Cell?)
    reads selfBest, mateBest
    ensures c == null <==> selfBest == null && mateBest == null
    ensures c == mateBest <== mateBest != null && (selfBest == null || selfBest.sugar < mateBest.sugar)
    ensures c == selfBest <== selfBest != null && (mateBest == null || mateBest.sugar <= selfBest.sugar)
  {
    var values := [BirthSugar(selfBest), BirthSugar(mateBest)];
    TwoWayMaximum(values[0], values[1]);
    if SomeAboveNegInf(values) then [selfBest, mateBest][ArgMax(values)] else selfBest
  }

  /** The cell birth settles on for parents `a` and `mate`: the sweeter of the two best empty
      cells of their Moore neighbourhoods, the mother's on a tie. */
  ghost function BirthSpot(land: Landscape, a: Agent, mate: Agent): (c: Cell?)
    requires land.Shape() && Interior(land, a.col, a.row) && Interior(land, mate.col, mate.row)
    reads land.cells, a`col, a`row, mate`col, mate`row
  {
    BirthChoice(BestEmpty(land, NotHeldBy(land, MooreCells(land, a.col, a.row), a)),
                BestEmpty(land, NotHeldBy(land, MooreCells(land, mate.col, mate.row), mate)))
  }

  /** BirthSpot is null exactly when all eighteen neighbouring cells of the two parents are
      occupied; otherwise it is an empty cell of one of the two neighbourhoods with at least
      the sugar of every empty cell of either. */
  lemma BirthSpotIsBest(land: Landscape, a: Agent, mate: Agent)
    requires land.Shape() && Interior(land, a.col, a.row) && Interior(land, mate.col, mate.row)
    ensures var ns, nm := MooreCells(land, a.col, a.row), MooreCells(land, mate.col, mate.row);
      BirthSpot(land, a, mate) == null <==>
        (forall i :: 0 <= i < 9 ==> ns[i].agent != null) && (forall i :: 0 <= i < 9 ==> nm[i].agent != null)
    ensures var ns, nm := MooreCells(land, a.col, a.row), MooreCells(land, mate.col, mate.row);
      var c := BirthSpot(land, a, mate);
      c != null ==>
        && c in land.cells && c.agent == null && (c in ns || c in nm)
        && (forall i :: 0 <= i < 9 && ns[i].agent == null ==> ns[i].sugar <= c.sugar)
        && (forall i :: 0 <= i < 9 && nm[i].agent == null ==> nm[i].sugar <= c.sugar)
  {
    var ns, nm := MooreCells(land, a.col, a.row), MooreCells(land, mate.col, mate.row);
    var vs, vm := NotHeldBy(land, ns, a), NotHeldBy(land, nm, mate);
    NotHeldByMembers(land, ns, a);
    NotHeldByMembers(land, nm, mate);
    BestEmptyIsBest(land, vs);
    BestEmptyIsBest(land, vm);
  }

  /** The calendar entry of a newborn: its first event, nothing when there is no baby. */
  function BabyEvent(baby: Agent?): seq<Event<Agent>>
    reads baby
  {
    if baby == null || baby.tNextEventType.None? then []
    else [Event(baby.tNextEventTime, baby.tNextEventType.value, baby)]
  }

  /** The `Agent(...)` call of birth: a baby at `spot`, with the chosen traits. */
  method Deliver(land: Landscape, calendar: EventCalendar<Agent>, t: real, spot: Cell,
                 metab: real, vision: nat, moveWait: real, reproduceWait: real) returns (baby: Agent)
    requires land.Shape() && spot in land.cells && metab != 0.0
    requires 0.0 < moveWait && 0.0 <= reproduceWait
    modifies land.cells`sugar, calendar`calendar
    ensures fresh(baby) && baby.Born(t, spot.x, spot.y, metab, vision, old(spot.sugar), moveWait, reproduceWait)
    ensures spot.sugar == 0.0 && forall c :: c in land.cells && c != spot ==> c.sugar == old(c.sugar)
    ensures calendar.calendar == old(calendar.calendar) + BabyEvent(baby)
  {
    assert land.grid[spot.y][spot.x] == spot;
    baby := new Agent(land, calendar, None, t, Some(spot.y), Some(spot.x), Some(metab), Some(vision),
                      [], 1.0, 1, moveWait, reproduceWait);
  }

  function Abs(x: real): real
  {
    if x < 0.0 then -x else x
  }

  class Agent {
    var id: Option<nat>
    var sugar: real
    /** The sugar expected by the time of the next event. */
    var nextSugar: real
    var mate: Agent?
    var alive: bool
    var row: int
    var col: int
    const metab: real
    const vision: nat
    var tNextEventTime: ExtReal
    var tNextEventType: Option<EventType>
    var tMove: real
    var tDie: ExtReal
    var tReproduce: ExtReal
    var tBirth: ExtReal
    var periodG: ExtReal

    /** None of the pending times is `-inf`; the source never sets one to it. */
    ghost predicate Clock()
      reads this`tDie, this`tReproduce, this`tBirth
    {
      tDie != NegInf && tReproduce != NegInf && tBirth != NegInf
    }

    /** What setNextEvent leaves behind, given the calendar `before` and the death time
        `dieBefore` it started from: one event of this agent appended, at the earliest pending
        time once `t_die` has been checked, and `nextSugar` projected to that time; on a
        ZeroDivisionError the calendar and `t_die` are as they were, and the next event is the
        earliest pending one before the death check, which the first get_next_event recorded. */
    ghost predicate Rescheduled(t: real, calendar: EventCalendar<Agent>, before: seq<Event<Agent>>,
                                dieBefore: ExtReal, status: Result<(), Fault>)
      reads this, calendar
    {
      && dieBefore != NegInf && tReproduce != NegInf && tBirth != NegInf
      && var s := NextSchedule(tMove, dieBefore, tReproduce, tBirth, sugar, metab, t);
      && (status.Failure? <==> s.Failure?)
      && (s.Success? ==>
            && tDie == s.value.tDie
            && tNextEventTime == s.value.time && tNextEventType == Some(s.value.kind)
            && calendar.calendar == before + [Event(s.value.time, s.value.kind, this)]
            && nextSugar == ComputeSugar(sugar, metab, t, s.value.time.r))
      && (s.Failure? ==>
            && tDie == dieBefore && calendar.calendar == before
            && var p := Pending(tMove, dieBefore, tReproduce, tBirth);
            && SomeBelowInf(p)
            && tNextEventTime == p[ArgMin(p)] && tNextEventType == Some(EventOrder[ArgMin(p)]))
    }

    /** Agent(landscape, calendar, id, t, row, col, metab, vision). Without both `row` and
        `col` the agent takes the coordinate next_open draws from `placement`; without `metab`
        or `vision` it takes the draw `metabDraw` (of `uniform(1, 4)`) or `visionDraw` (of
        `ceil(uniform(1, 6))`). `moveWait` and `reproduceWait` are the two `expovariate` draws.
        The agent eats the sugar of its cell, which it does not occupy (only
        AgentList.full_add puts it there), and schedules its first event. */
    constructor (land: Landscape, calendar: EventCalendar<Agent>, id: Option<nat>, t: real,
                 row: Option<int>, col: Option<int>, metab: Option<real>, vision: Option<nat>,
                 placement: seq<(int, int)>, metabDraw: real, visionDraw: nat,
                 moveWait: real, reproduceWait: real)
      requires land.Shape()
      requires row.Some? && col.Some? ==> land.ValidCoord(col.value, row.value)
      requires row.None? || col.None? ==>
        && land.rows * land.cols > 0 && |placement| >= land.rows * land.cols
        && forall k :: 0 <= k < |placement| ==> 0 <= placement[k].0 < land.cols && 0 <= placement[k].1 < land.rows
      requires 1.0 <= metabDraw <= 4.0 && 1 <= visionDraw <= 6
      requires metab.Some? ==> metab.value != 0.0
      requires 0.0 < moveWait && 0.0 <= reproduceWait
      modifies land.cells`sugar, calendar`calendar
      ensures this.id == id && alive && mate == null
      ensures row.Some? && col.Some? ==> this.row == row.value && this.col == col.value
      ensures row.None? || col.None? ==>
        var p := (this.col, this.row); old(land.FirstOpen(placement, p))
      ensures this.metab == (if metab.Some? then metab.value else metabDraw)
      ensures this.vision == (if vision.Some? then vision.value else visionDraw)
      ensures tMove == t + moveWait && tReproduce == Fin(t + 1.0 + reproduceWait)
      ensures tBirth == PosInf && periodG == PosInf
      ensures land.ValidCoord(this.col, this.row)
      ensures var cell := land.grid[this.row][this.col];
        && sugar == old(cell.sugar) && cell.sugar == 0.0
        && forall c :: c in land.cells && c != cell ==> c.sugar == old(c.sugar)
      ensures Clock() && Rescheduled(t, calendar, old(calendar.calendar), PosInf, Success(()))
    {
      this.id := id;
      sugar := 0.0;
      nextSugar := 0.0;
      mate := null;
      alive := true;
      var r, c := 0, 0;
      if row.None? || col.None? {
        var p := land.NextOpen(placement);
        c, r := p.value.0, p.value.1;
      } else {
        r, c := row.value, col.value;
      }
      this.row := r;
      this.col := c;
      this.metab := if metab.Some? then metab.value else metabDraw;
      this.vision := if vision.Some? then vision.value else visionDraw;
      tNextEventTime, tNextEventType := PosInf, None;
      tMove := t + moveWait;
      tDie := PosInf;
      tReproduce := Fin(t + 1.0 + reproduceWait);
      tBirth := PosInf;
      periodG := PosInf;
      new;
      Start(land, calendar, t);
    }

    /** The state of an agent just made by `Agent(landscape, calendar, t=t, row=y, col=x,
        metab=metab0, vision=vision0)` on a cell that held `sugar0`: no id, alive, unmated,
        the sugar of its cell eaten, the two first waits added to `t`, and its first event
        the earliest of its pending times (a new agent cannot hit a ZeroDivisionError). */
    ghost predicate Born(t: real, x: int, y: int, metab0: real, vision0: nat, sugar0: real,
                         moveWait: real, reproduceWait: real)
      reads this
    {
      && id == None && alive && mate == null && col == x && row == y
      && metab == metab0 && vision == vision0 && sugar == sugar0
      && tMove == t + moveWait && tReproduce == Fin(t + 1.0 + reproduceWait)
      && tBirth == PosInf && periodG == PosInf
      && var s := NextSchedule(tMove, PosInf, tReproduce, PosInf, sugar, metab, t);
      && s.Success? && tDie == s.value.tDie
      && tNextEventTime == s.value.time && tNextEventType == Some(s.value.kind)
      && nextSugar == ComputeSugar(sugar, metab, t, s.value.time.r)
    }

    /** The end of the constructor: `eat` the agent's cell, then setNextEvent, which cannot
        fail for a new agent. */
    method Start(land: Landscape, calendar: EventCalendar<Agent>, t: real)
      requires land.Shape() && land.ValidCoord(col, row)
      requires tDie == PosInf && tBirth == PosInf && t < tMove && tReproduce.Fin? && t < tReproduce.r
      requires metab != 0.0
      modifies this`sugar, land.cells`sugar
      modifies this`tNextEventTime, this`tNextEventType, this`tDie, this`nextSugar, calendar`calendar
      ensures var cell := land.grid[row][col];
        && sugar == old(sugar) + old(cell.sugar) && cell.sugar == 0.0
        && forall c :: c in land.cells && c != cell ==> c.sugar == old(c.sugar)
      ensures Clock() && Rescheduled(t, calendar, old(calendar.calendar), PosInf, Success(()))
      ensures unchanged(this`id, this`alive, this`mate, this`row, this`col, this`tMove, this`tReproduce, this`tBirth, this`periodG)
    {
      Eat(land.GetCell(col, row));
      FreshAgentSchedules(tMove, tReproduce.r, sugar, metab, t);
      var status := SetNextEvent(t, calendar);
      assert status.Success?;
    }

    /** _minimum_pair(values, results): the first minimum, with its result. When every value
        is `inf` the source indexes `results` with `inf` and fails, hence the precondition. */
    method MinimumPair<R>(values: seq<ExtReal>, results: seq<R>) returns (minValue: ExtReal, result: R)
      requires |values| == |results| && SomeBelowInf(values)
      ensures minValue == values[ArgMin(values)] && result == results[ArgMin(values)]
    {
      var minIndex: Option<nat> := None;
      minValue := PosInf;
      for i := 0 to |values|
        invariant SomeBelowInf(values[..i]) ==>
          minIndex == Some(ArgMin(values[..i])) && minValue == values[ArgMin(values[..i])]
        invariant !SomeBelowInf(values[..i]) ==> minIndex == None && minValue == PosInf
      {
        ArgMinStep(values, i);
        var val := values[i];
        if Lt(val, minValue) {
          minValue := val;
          minIndex := Some(i);
        }
      }
      assert values[..|values|] == values;
      result := results[minIndex.value];
    }

    /** _maximum_pair(values, results): the first maximum, with its result; `(-inf,
        results[0])` when nothing is above `-inf`. An empty list makes `results[0]` fail. */
    method MaximumPair<R>(values: seq<ExtReal>, results: seq<R>) returns (maxValue: ExtReal, result: R)
      requires |values| == |results| && |values| > 0
      ensures SomeAboveNegInf(values) ==>
        maxValue == values[ArgMax(values)] && result == results[ArgMax(values)]
      ensures !SomeAboveNegInf(values) ==> maxValue == NegInf && result == results[0]
    {
      var maxIndex: Option<nat> := None;
      maxValue := NegInf;
      for i := 0 to |values|
        invariant SomeAboveNegInf(values[..i]) ==>
          maxIndex == Some(ArgMax(values[..i])) && maxValue == values[ArgMax(values[..i])]
        invariant !SomeAboveNegInf(values[..i]) ==> maxIndex == None && maxValue == NegInf
      {
        ArgMaxStep(values, i);
        var val := values[i];
        if Lt(maxValue, val) {
          maxValue := val;
          maxIndex := Some(i);
        }
      }
      assert values[..|values|] == values;
      if maxIndex.None? {
        result := results[0];
      } else {
        result := results[maxIndex.value];
      }
    }

    /** get_next_event(): the earliest pending time and its type, ties going in the order
        MOVE, DIE, REPRODUCE, BIRTH. `t_move` is finite, so there is always one. */
    method GetNextEvent() returns (time: ExtReal, kind: EventType)
      requires Clock()
      ensures var p := Pending(tMove, tDie, tReproduce, tBirth);
        SomeBelowInf(p) && time == p[ArgMin(p)] && kind == EventOrder[ArgMin(p)]
      ensures time.Fin? && Le(time, Fin(tMove))
    {
      var p := Pending(tMove, tDie, tReproduce, tBirth);
      assert p[0] != PosInf;
      time, kind := MinimumPair(p, EventOrder);
    }

    /** check_for_death(t, tNext): adopt the predicted death time when there is one and it is
        strictly before `t_move`. */
    method CheckForDeath(t: real, tNext: real) returns (status: Result<(), Fault>)
      modifies this`tDie
      ensures match ComputeDeath(sugar, metab, t, tNext)
        case Failure(e) => status == Failure(e) && tDie == old(tDie)
        case Success(d) => status == Success(()) && tDie == CheckedDie(tMove, old(tDie), d)
    {
      var deathTime := ComputeDeath(sugar, metab, t, tNext);
      if deathTime.Failure? {
        return Failure(deathTime.error);
      }
      if deathTime.value != NegInf {
        if Lt(deathTime.value, Fin(tMove)) {
          tDie := deathTime.value;
        }
      }
      status := Success(());
    }

    /** setNextEvent(t, calendar). */
    method SetNextEvent(t: real, calendar: EventCalendar<Agent>) returns (status: Result<(), Fault>)
      requires Clock()
      modifies this`tNextEventTime, this`tNextEventType, this`tDie, this`nextSugar, calendar`calendar
      ensures Clock() && Rescheduled(t, calendar, old(calendar.calendar), old(tDie), status)
      ensures status.Failure? ==> nextSugar == old(nextSugar)
    {
      var time, kind := GetNextEvent();
      tNextEventTime, tNextEventType := time, Some(kind);
      var checked := CheckForDeath(t, tNextEventTime.r);
      if checked.Failure? {
        return Failure(checked.error);
      }
      time, kind := GetNextEvent();
      tNextEventTime, tNextEventType := time, Some(kind);
      calendar.Add(Event(tNextEventTime, kind, this));
      nextSugar := ComputeSugar(sugar, metab, t, tNextEventTime.r);
      status := Success(());
    }

    /** eat(cell): take all of the cell's sugar; the total of the two is unchanged. */
    method Eat(cell: Cell)
      modifies this`sugar, cell`sugar
      ensures sugar == old(sugar) + old(cell.sugar) && cell.sugar == 0.0
      ensures sugar + cell.sugar == old(sugar) + old(cell.sugar)
    {
      sugar := sugar + cell.sugar;
      cell.sugar := 0.0;
    }

    /** field_of_view(landscape, evaluate), returning what it would hand to `evaluate`. */
    method FieldOfView(land: Landscape, dirs: seq<(int, int)>) returns (visits: seq<(Cell, nat)>)
      requires land.Shape() && IsShuffle(dirs) && (vision > 0 ==> Interior(land, col, row))
      ensures |dirs| == 4 && forall i :: 0 <= i < |dirs| ==> dirs[i] in Directions
      ensures visits == FovVisits(land, col, row, vision, dirs)
    {
      ShuffledDirections(dirs);
      var agentCell := land.GetCell(col, row);
      visits := [];
      for i := 0 to |dirs|
        invariant visits == FovVisits(land, col, row, vision, dirs[..i])
      {
        FovVisitsStep(land, col, row, vision, dirs, i);
        var seen := LookAlong(land, agentCell, dirs[i]);
        visits := visits + seen;
      }
      assert dirs[..|dirs|] == dirs;
    }

    /** field_of_view's inner loop, for one direction. */
    method LookAlong(land: Landscape, agentCell: Cell?, direction: (int, int)) returns (seen: seq<(Cell, nat)>)
      requires land.Shape() && direction in Directions && (vision > 0 ==> Interior(land, col, row))
      requires agentCell == land.GetCell(col, row)
      ensures vision == 0 ==> seen == []
      ensures vision > 0 ==> seen == Sighting(land, col, row, vision, direction, vision)
    {
      seen := [];
      for dist := 0 to vision
        invariant vision == 0 ==> seen == []
        invariant vision > 0 ==> seen == Sighting(land, col, row, vision, direction, dist)
      {
        SightingStep(land, col, row, vision, direction, dist);
        var x := col + direction.0;
        var y := row + direction.1;
        var currentCell := land.GetCell(x, y);
        if currentCell.level <= vision + agentCell.level {
          seen := seen + [(currentCell, dist)];
        }
      }
    }

    /** move's scan: the first empty visited cell with the greatest sugar. Its tie branch
        (equal sugar at a smaller distance) names an undefined variable; it cannot be reached,
        because a cell's first visit is at distance 0 and sugar is never negative. */
    method MoveTarget(land: Landscape, visits: seq<(Cell, nat)>) returns (maxCell: Cell?)
      requires land.Bounded() && OnLand(land, CellsOf(visits)) && Chained(visits)
      ensures maxCell == BestEmpty(land, CellsOf(visits))
    {
      ghost var keys := EmptySugars(land, CellsOf(visits));
      EmptySugarsAt(land, CellsOf(visits));
      var maxSugar: real := -1.0;
      var minDist: ExtReal := PosInf;
      maxCell := null;
      for i := 0 to |visits|
        invariant !SomeAboveNegInf(keys[..i]) ==> maxCell == null && maxSugar == -1.0 && minDist == PosInf
        invariant SomeAboveNegInf(keys[..i]) ==>
          var k := ArgMax(keys[..i]);
          && maxCell == visits[k].0 && visits[k].1 == 0
          && minDist == Fin(0.0) && keys[k] == Fin(maxSugar)
      {
        var cell, dist := visits[i].0, visits[i].1;
        assert cell in land.cells;
        if dist > 0 {
          assert visits[i - 1] == (cell, dist - 1);
        }
        MoveScanStep(keys, i, dist, maxSugar, cell.sugar, cell.agent == null);
        maxSugar, maxCell, minDist := Evaluate(cell, dist, maxSugar, maxCell, minDist);
      }
      assert keys[..|visits|] == keys;
    }

    /** move's `evaluate` callback: take an empty cell with more sugar than the best so far. */
    method Evaluate(cell: Cell, dist: nat, maxSugar: real, maxCell: Cell?, minDist: ExtReal)
      returns (maxSugar': real, maxCell': Cell?, minDist': ExtReal)
      requires cell.agent == null && cell.sugar == maxSugar ==> minDist == Fin(0.0)
      ensures cell.agent == null && cell.sugar > maxSugar ==>
        maxSugar' == cell.sugar && maxCell' == cell && minDist' == Fin(dist as real)
      ensures !(cell.agent == null && cell.sugar > maxSugar) ==>
        maxSugar' == maxSugar && maxCell' == maxCell && minDist' == minDist
    {
      maxSugar', maxCell', minDist' := maxSugar, maxCell, minDist;
      if cell.agent == null {
        if cell.sugar > maxSugar {
          maxSugar' := cell.sugar;
          maxCell' := cell;
          minDist' := Fin(dist as real);
        } else if cell.sugar == maxSugar {
          if Lt(Fin(dist as real), minDist) {
            assert false;
          }
        }
      }
    }

    /** move's search: field_of_view folded with its evaluate callback. */
    method ChooseTarget(land: Landscape, dirs: seq<(int, int)>) returns (maxCell: Cell?)
      requires land.Shape() && land.Bounded() && IsShuffle(dirs) && (vision > 0 ==> Interior(land, col, row))
      ensures |dirs| == 4 && forall i :: 0 <= i < |dirs| ==> dirs[i] in Directions
      ensures maxCell == BestEmpty(land, VisitedCells(land, col, row, vision, dirs))
    {
      var visits := FieldOfView(land, dirs);
      FovChained(land, col, row, vision, dirs);
      maxCell := MoveTarget(land, visits);
    }

    /** The agent standing on this agent's recorded cell, if any: the one landscape.move
        relocates, which is usually this agent but need not be (a baby is never placed, and
        an agent's old cell may have been taken since). */
    ghost function Occupant(land: Landscape): (o: Agent?)
      requires land.Shape()
      reads this`col, this`row, land.cells
      ensures o != null ==> land.ValidCoord(col, row) && land.grid[row][col].agent == o
    {
      var own := land.GetCell(col, row);
      if own == null then null else own.agent
    }

    /** Occupant as a frame. */
    ghost function Lodgers(land: Landscape): set<Agent>
      requires land.Shape()
      reads this`col, this`row, land.cells
    {
      if Occupant(land) == null then {} else {Occupant(land)}
    }

    /** The state move leaves behind, given the cell it chose (`target`) and, from before it:
        the sugar after metabolism, the target's sugar, the recorded cell `own`, its occupant
        `occ` and the agent's position. The agent has the sugar it had plus the target's, which
        is eaten down to 0. With an occupant, the occupant stands on the target and `own` is
        empty; the agent itself only moves when it was that occupant. */
    ghost predicate Went(target: Cell?, sugar0: real, targetSugar0: real, own: Cell?, occ: Agent?,
                         col0: int, row0: int)
      reads this`sugar, this`col, this`row, target, own, occ
    {
      && sugar == (if target == null then sugar0 else sugar0 + targetSugar0)
      && (target != null ==> target.sugar == 0.0)
      && (target != null && own != null && occ != null ==>
            target.agent == occ && occ.col == target.x && occ.row == target.y && own.agent == null)
      && (target == null || occ != this ==> col == col0 && row == row0)
    }

    /** move(t, landscape, calendar): bring the sugar up to date, go to the best empty cell in
        view (when there is one) and eat its sugar, draw the next move time and reschedule. */
    method Move(t: real, land: Landscape, calendar: EventCalendar<Agent>, dirs: seq<(int, int)>, wait: real)
      returns (status: Result<(), Fault>)
      requires land.Shape() && land.Bounded() && IsShuffle(dirs) && Clock()
      requires vision > 0 ==> Interior(land, col, row)
      modifies this`sugar, this`col, this`row, this`tMove, land.cells`sugar, land.cells`agent
      modifies Lodgers(land)`col, Lodgers(land)`row
      modifies this`tNextEventTime, this`tNextEventType, this`tDie, this`nextSugar, calendar`calendar
      ensures var target := old(BestEmpty(land, VisitedCells(land, col, row, vision, dirs)));
        var own := old(land.GetCell(col, row));
        var occ := old(Occupant(land));
        && Went(target, old(nextSugar), old(if target == null then 0.0 else target.sugar), own, occ, old(col), old(row))
        && (occ != null && occ != this && target == null ==> occ.col == old(occ.col) && occ.row == old(occ.row))
        && (forall c :: c in land.cells && c != target ==> c.sugar == old(c.sugar))
        && (forall c :: c in land.cells && (target == null || occ == null || (c != target && c != own)) ==>
              c.agent == old(c.agent))
      ensures land.Bounded()
      ensures tMove == t + Abs(wait)
      ensures Clock() && Rescheduled(t, calendar, old(calendar.calendar), old(tDie), status)
    {
      ghost var occ := Occupant(land);
      Seek(land, dirs);
      status := Reschedule(t, calendar, wait, land, occ);
    }

    /** The end of move: the next move time, then setNextEvent, which leave the landscape
        (`land`) and every other agent (`occ`) alone. */
    method Reschedule(t: real, calendar: EventCalendar<Agent>, wait: real, ghost land: Landscape, ghost occ: Agent?)
      returns (status: Result<(), Fault>)
      requires Clock()
      modifies this`tMove, this`tNextEventTime, this`tNextEventType, this`tDie, this`nextSugar, calendar`calendar
      ensures tMove == t + Abs(wait)
      ensures Clock() && Rescheduled(t, calendar, old(calendar.calendar), old(tDie), status)
      ensures unchanged(this`sugar, this`col, this`row) && unchanged(land.cells)
      ensures occ != null && occ != this ==> unchanged(occ)
    {
      tMove := t + Abs(wait);
      status := SetNextEvent(t, calendar);
    }

    /** The first half of move: the scan, `self.sugar = self.nextSugar` (which the scan does
        not read, so it may come second), then the step to the cell found and the meal. */
    method Seek(land: Landscape, dirs: seq<(int, int)>)
      requires land.Shape() && land.Bounded() && IsShuffle(dirs)
      requires vision > 0 ==> Interior(land, col, row)
      modifies this`sugar, this`col, this`row, land.cells`sugar, land.cells`agent
      modifies Lodgers(land)`col, Lodgers(land)`row
      ensures var target := old(BestEmpty(land, VisitedCells(land, col, row, vision, dirs)));
        var own := old(land.GetCell(col, row));
        var occ := old(Occupant(land));
        && Went(target, old(nextSugar), old(if target == null then 0.0 else target.sugar), own, occ, old(col), old(row))
        && (occ != null && occ != this && target == null ==> occ.col == old(occ.col) && occ.row == old(occ.row))
        && (forall c :: c in land.cells && c != target ==> c.sugar == old(c.sugar))
        && (forall c :: c in land.cells && (target == null || occ == null || (c != target && c != own)) ==>
              c.agent == old(c.agent))
      ensures land.Bounded()
    {
      var maxCell := ChooseTarget(land, dirs);
      BestEmptyIsBest(land, VisitedCells(land, col, row, vision, dirs));
      GoAndEat(land, maxCell);
    }

    /** `self.sugar = self.nextSugar`, then landscape.move from the recorded cell to `target`
        (when there is one), which relocates whoever stands there, and the meal. */
    method GoAndEat(land: Landscape, target: Cell?)
      requires land.Shape() && land.Bounded()
      requires target != null ==> target in land.cells && target.agent == null
      requires target != null ==> land.ValidCoord(col, row)
      modifies this`sugar, this`col, this`row, land.cells`sugar, land.cells`agent
      modifies Lodgers(land)`col, Lodgers(land)`row
      ensures var own := old(land.GetCell(col, row));
        var occ := old(Occupant(land));
        && Went(target, old(nextSugar), old(if target == null then 0.0 else target.sugar), own, occ, old(col), old(row))
        && (occ != null && occ != this && target == null ==> occ.col == old(occ.col) && occ.row == old(occ.row))
        && (forall c :: c in land.cells && c != target ==> c.sugar == old(c.sugar))
        && (forall c :: c in land.cells && (target == null || occ == null || (c != target && c != own)) ==>
              c.agent == old(c.agent))
      ensures land.Bounded()
    {
      sugar := nextSugar;
      if target != null {
        assert land.grid[target.y][target.x] == target;
        land.Move(col, row, target.x, target.y);
        Eat(target);
      }
    }

    /** reproduce's scan over the visited cells. */
    method Wealthiest(land: Landscape, visits: seq<(Cell, nat)>, t: real) returns (wealthiest: Agent?)
      requires land.Shape() && OnLand(land, CellsOf(visits))
      ensures wealthiest == BestMate(land, CellsOf(visits), t)
    {
      ghost var keys := MateSugars(land, CellsOf(visits), t);
      MateSugarsAt(land, CellsOf(visits), t);
      var maxSugar: ExtReal := NegInf;
      wealthiest := null;
      for i := 0 to |visits|
        invariant !SomeAboveNegInf(keys[..i]) ==> wealthiest == null && maxSugar == NegInf
        invariant SomeAboveNegInf(keys[..i]) ==>
          wealthiest == visits[ArgMax(keys[..i])].0.agent && maxSugar == keys[ArgMax(keys[..i])]
      {
        ArgMaxStep(keys, i);
        var cell := visits[i].0;
        assert cell in land.cells;
        if cell.agent != null {
          var cand := cell.agent;
          assert cand in land.Occupants();
          if Lt(maxSugar, Fin(cell.sugar)) && !IsGestating(cand.periodG, cand.tReproduce, t) && cand.alive {
            wealthiest := cand;
            maxSugar := Fin(cell.sugar);
          }
        }
      }
      assert keys[..|visits|] == keys;
      assert land.Occupants() == old(land.Occupants());
      assert keys == MateSugars(land, CellsOf(visits), t);
      if SomeAboveNegInf(keys) {
        assert CellsOf(visits)[ArgMax(keys)] == visits[ArgMax(keys)].0;
        assert wealthiest == visits[ArgMax(keys)].0.agent;
      } else {
        assert wealthiest == null;
      }
    }

    /** reproduce's search: field_of_view folded with find_wealthiest. */
    method ChooseMate(land: Landscape, dirs: seq<(int, int)>, t: real) returns (wealthiest: Agent?)
      requires land.Shape() && IsShuffle(dirs) && (vision > 0 ==> Interior(land, col, row))
      ensures |dirs| == 4 && forall i :: 0 <= i < |dirs| ==> dirs[i] in Directions
      ensures wealthiest == BestMate(land, VisitedCells(land, col, row, vision, dirs), t)
    {
      var visits := FieldOfView(land, dirs);
      wealthiest := Wealthiest(land, visits, t);
    }

    /** reproduce(t, landscape, calendar): look for a mate in view, then court it and
        reschedule. */
    method Reproduce(t: real, land: Landscape, calendar: EventCalendar<Agent>, dirs: seq<(int, int)>,
                     gestation: real, wait: real) returns (status: Result<(), Fault>)
      requires land.Shape() && IsShuffle(dirs) && Clock()
      requires vision > 0 ==> Interior(land, col, row)
      modifies this`sugar, this`mate, this`periodG, this`tBirth, this`tReproduce
      modifies this`tNextEventTime, this`tNextEventType, this`tDie, this`nextSugar, calendar`calendar
      ensures Courted(old(BestMate(land, VisitedCells(land, col, row, vision, dirs), t)), t, gestation, wait,
                      old(nextSugar), old(mate), old(periodG), old(tBirth))
      ensures Clock() && Rescheduled(t, calendar, old(calendar.calendar), old(tDie), status)
    {
      var wealthiest := ChooseMate(land, dirs, t);
      assert land.Occupants() == old(land.Occupants());
      status := Court(t, calendar, wealthiest, gestation, wait);
    }

    /** The mating state reproduce leaves, given the mate `w` it found (or null) and the
        state before: the sugar brought up to date; with a mate, the gestation period drawn
        and the birth due at its end, with no further reproduce pending; without one, the
        next attempt due a little after `t`. */
    ghost predicate Courted(w: Agent?, t: real, gestation: real, wait: real,
                            sugarBefore: real, mateBefore: Agent?, periodBefore: ExtReal, birthBefore: ExtReal)
      reads this
    {
      && sugar == sugarBefore
      && (w != null ==>
            mate == w && periodG == Fin(gestation) && tBirth == Fin(t + gestation) && tReproduce == PosInf)
      && (w == null ==>
            && mate == mateBefore && periodG == periodBefore && tBirth == birthBefore
            && tReproduce == Fin(t + 0.001 + wait))
    }

    /** reproduce once the scan has picked `w`. The scan reads no field this writes, so
        doing it before `self.sugar = self.nextSugar` changes nothing. */
    method Court(t: real, calendar: EventCalendar<Agent>, w: Agent?, gestation: real, wait: real)
      returns (status: Result<(), Fault>)
      requires Clock()
      modifies this`sugar, this`mate, this`periodG, this`tBirth, this`tReproduce
      modifies this`tNextEventTime, this`tNextEventType, this`tDie, this`nextSugar, calendar`calendar
      ensures Courted(w, t, gestation, wait, old(nextSugar), old(mate), old(periodG), old(tBirth))
      ensures Clock() && Rescheduled(t, calendar, old(calendar.calendar), old(tDie), status)
    {
      sugar := nextSugar;
      if w != null {
        mate := w;
        periodG := Fin(gestation);
        tBirth := Fin(t + gestation);
        tReproduce := PosInf;
      } else {
        tReproduce := Fin(t + 0.001 + wait);
      }
      status := SetNextEvent(t, calendar);
    }

    /** moore_neighborhood(landscape, evaluate), returning what it would hand to `evaluate`:
        the nine cells around and under the agent, row by row, leaving out any it stands on. */
    method MooreNeighborhood(land: Landscape) returns (visits: seq<Cell>)
      requires land.Shape() && Interior(land, col, row)
      ensures visits == NotHeldBy(land, MooreCells(land, col, row), this)
    {
      visits := [];
      for y := 0 to 3
        invariant visits == NotHeldBy(land, MooreRows(land, col, row, y), this)
      {
        var checkY := row - 1 + y;
        var seen := MooreRowScan(land, checkY);
        NotHeldByAppend(land, MooreRows(land, col, row, y), MooreRow(land, col, checkY), this);
        visits := visits + seen;
      }
    }

    /** The inner loop of moore_neighborhood, over row `checkY`. */
    method MooreRowScan(land: Landscape, checkY: int) returns (seen: seq<Cell>)
      requires land.Shape() && 0 <= checkY < land.rows && 1 <= col < land.cols - 1
      ensures seen == NotHeldBy(land, MooreRow(land, col, checkY), this)
    {
      ghost var all := MooreRow(land, col, checkY);
      seen := [];
      for x := 0 to 3
        invariant seen == NotHeldBy(land, all[..x], this)
      {
        var checkX := col - 1 + x;
        var checkCell := land.GetCell(checkX, checkY);
        assert all[x] == checkCell;
        assert all[..x + 1][..x] == all[..x];
        if checkCell.agent != this {
          seen := seen + [checkCell];
        }
      }
      assert all[..3] == all;
    }

    /** birth's choice of a cell: the best birth cells of both parents, weighed by
        _maximum_pair. */
    method BirthCell(land: Landscape) returns (cell: Cell?)
      requires land.Shape() && mate != null
      requires Interior(land, col, row) && Interior(land, mate.col, mate.row)
      ensures cell == BirthSpot(land, this, mate)
      ensures cell != null ==> cell in land.cells
    {
      var selfBest := GetBestBirthCell(land);
      var mateBest := mate.GetBestBirthCell(land);
      var maxSugar;
      maxSugar, cell := MaximumPair([BirthSugar(selfBest), BirthSugar(mateBest)], [selfBest, mateBest]);
      BirthSpotIsBest(land, this, mate);
    }

    /** The end of birth: no mate and no birth pending, the next reproduce due `wait` after
        `t`, and the next event scheduled. */
    method Wean(t: real, calendar: EventCalendar<Agent>, wait: real) returns (status: Result<(), Fault>)
      requires Clock()
      modifies this`mate, this`tBirth, this`tReproduce
      modifies this`tNextEventTime, this`tNextEventType, this`tDie, this`nextSugar, calendar`calendar
      ensures mate == null && tBirth == PosInf && tReproduce == Fin(t + wait)
      ensures Clock() && Rescheduled(t, calendar, old(calendar.calendar), old(tDie), status)
    {
      mate := null;
      tBirth := PosInf;
      tReproduce := Fin(t + wait);
      status := SetNextEvent(t, calendar);
    }

    /** birth(t, landscape, calendar): when both partners are alive and one of their Moore
        neighbourhoods has an empty cell, a baby is made on the best one, with the metabolism
        and vision of the parent `metabFromMate` and `visionFromMate` pick (the two
        `random.choice` draws); the baby is not put on the landscape. Then the mother drops
        her mate and reschedules. */
    method Birth(t: real, land: Landscape, calendar: EventCalendar<Agent>,
                 metabFromMate: bool, visionFromMate: bool, moveWait: real, reproduceWait: real, wait: real)
      returns (baby: Agent?, status: Result<(), Fault>)
      requires land.Shape() && mate != null && Clock()
      requires alive && mate.alive ==> Interior(land, col, row) && Interior(land, mate.col, mate.row)
      requires alive && mate.alive ==> metab != 0.0 && mate.metab != 0.0
      requires 0.0 < moveWait && 0.0 <= reproduceWait
      modifies land.cells`sugar, this`mate, this`tBirth, this`tReproduce
      modifies this`tNextEventTime, this`tNextEventType, this`tDie, this`nextSugar, calendar`calendar
      ensures var spot := old(if alive && mate.alive then BirthSpot(land, this, mate) else null);
        && (baby == null <==> spot == null)
        && (baby != null ==> fresh(baby) && baby.Born(t, spot.x, spot.y,
              old(if metabFromMate then mate.metab else metab), old(if visionFromMate then mate.vision else vision),
              old(spot.sugar), moveWait, reproduceWait))
        && (spot != null ==> spot.sugar == 0.0)
        && (forall c :: c in land.cells && c != spot ==> c.sugar == old(c.sugar))
      ensures mate == null && tBirth == PosInf && tReproduce == Fin(t + wait)
      ensures Clock() && Rescheduled(t, calendar, old(calendar.calendar) + BabyEvent(baby), old(tDie), status)
    {
      baby := Conceive(t, land, calendar, metabFromMate, visionFromMate, moveWait, reproduceWait);
      status := Wean(t, calendar, wait);
    }

    /** The first half of birth: the baby, if there is one. */
    method Conceive(t: real, land: Landscape, calendar: EventCalendar<Agent>,
                    metabFromMate: bool, visionFromMate: bool, moveWait: real, reproduceWait: real)
      returns (baby: Agent?)
      requires land.Shape() && mate != null
      requires alive && mate.alive ==> Interior(land, col, row) && Interior(land, mate.col, mate.row)
      requires alive && mate.alive ==> metab != 0.0 && mate.metab != 0.0
      requires 0.0 < moveWait && 0.0 <= reproduceWait
      modifies land.cells`sugar, calendar`calendar
      ensures var spot := old(if alive && mate.alive then BirthSpot(land, this, mate) else null);
        && (baby == null <==> spot == null)
        && (baby != null ==> fresh(baby) && baby.Born(t, spot.x, spot.y,
              old(if metabFromMate then mate.metab else metab), old(if visionFromMate then mate.vision else vision),
              old(spot.sugar), moveWait, reproduceWait))
        && (spot != null ==> spot.sugar == 0.0)
        && (forall c :: c in land.cells && c != spot ==> c.sugar == old(c.sugar))
      ensures calendar.calendar == old(calendar.calendar) + BabyEvent(baby)
    {
      baby := null;
      if alive && mate.alive {
        var spot := BirthCell(land);
        if spot != null {
          var m := if metabFromMate then mate.metab else metab;
          var v := if visionFromMate then mate.vision else vision;
          baby := Deliver(land, calendar, t, spot, m, v, moveWait, reproduceWait);
        }
      }
    }

    /** get_best_birth_cell(landscape): the first empty neighbouring cell with the most sugar. */
    method GetBestBirthCell(land: Landscape) returns (maxCell: Cell?)
      requires land.Shape() && Interior(land, col, row)
      ensures maxCell == BestEmpty(land, NotHeldBy(land, MooreCells(land, col, row), this))
    {
      var visits := MooreNeighborhood(land);
      ghost var keys := EmptySugars(land, visits);
      EmptySugarsAt(land, visits);
      var maxSugar: ExtReal := NegInf;
      maxCell := null;
      for i := 0 to |visits|
        invariant !SomeAboveNegInf(keys[..i]) ==> maxCell == null && maxSugar == NegInf
        invariant SomeAboveNegInf(keys[..i]) ==>
          maxCell == visits[ArgMax(keys[..i])] && maxSugar == keys[ArgMax(keys[..i])]
      {
        ArgMaxStep(keys, i);
        var cell := visits[i];
        if cell.agent == null {
          if Lt(maxSugar, Fin(cell.sugar)) {
            maxSugar := Fin(cell.sugar);
            maxCell := cell;
          }
        }
      }
      assert keys[..|visits|] == keys;
    }
  }
}
