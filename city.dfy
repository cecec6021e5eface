/** The city map of `city.py`: a `rows` x `columns` matrix of cell tokens,
    obstacles scattered over it when it is built, and towers that mark the
    square around them as covered. */
module City {
  import opened PyText

  datatype Option<T> = None | Some(value: T)
  datatype Result<T, E> = Ok(value: T) | Err(error: E)

  /** The four tokens a cell of the map can hold. */
  datatype Cell = Empty | Block | Tower | Covered

  /** The string each cell holds in the source: '-' for an empty cell,
      'block' for an obstacle, "Tower", and the Cyrillic letter te (U+0442)
      for a covered cell. None of them holds a tab or a newline, which is
      what makes the text dump readable back. */
  function Token(c: Cell): (t: string)
    ensures |t| >= 1 && '\t' !in t && '\n' !in t
  {
    match c
    case Empty => "-"
    case Block => "block"
    case Tower => "Tower"
    case Covered => "\U{0442}"
  }

  /** Distinct cells have distinct tokens. */
  lemma TokenInjective(c: Cell, d: Cell)
    requires Token(c) == Token(d)
    ensures c == d
  {
  }

  // ---------------------------------------------------------------------
  // Configuration: SideRange.validate and CoverageRange.validate

  /** Which assignment in the constructor raised `ValueError`. */
  datatype ConfigError = InvalidRows | InvalidColumns | InvalidCoverage

  /** `SideRange.validate`: a side is at least 1. */
  predicate SideValid(value: int) {
    value >= 1
  }

  /** `CoverageRange.validate`: the obstacle fraction is at least 0.3. */
  predicate CoverageValid(value: real) {
    value >= 0.3
  }

  /** The constructor assigns rows, columns and coverage in that order, each
      assignment running its validator; the first that fails raises and no
      grid is built. */
  function CheckConfig(rows: int, columns: int, coverage: real): (r: Option<ConfigError>)
    ensures r == None <==> SideValid(rows) && SideValid(columns) && CoverageValid(coverage)
    ensures r == Some(InvalidRows) <==> rows < 1
    ensures r == Some(InvalidColumns) <==> rows >= 1 && columns < 1
    ensures r == Some(InvalidCoverage) <==> rows >= 1 && columns >= 1 && coverage < 0.3
  {
    if !SideValid(rows) then Some(InvalidRows)
    else if !SideValid(columns) then Some(InvalidColumns)
    else if !CoverageValid(coverage) then Some(InvalidCoverage)
    else None
  }

  // ---------------------------------------------------------------------
  // Obstacle scatter

  /** `int(rows * columns * coverage)`: how many coordinates the scatter
      draws, the product truncated to an integer. */
  function ObstacleTarget(rows: int, columns: int, coverage: real): (n: nat)
    requires SideValid(rows) && SideValid(columns) && CoverageValid(coverage)
    ensures n as real <= (rows * columns) as real * coverage < n as real + 1.0
  {
    assert (rows * columns) as real >= 1.0;
    assert (rows * columns) as real * coverage >= 0.0;
    ((rows * columns) as real * coverage).Floor
  }

  /** Every drawn coordinate names a cell of the map, as `randint(0, rows-1)`
      and `randint(0, columns-1)` guarantee. A draw is (row, column). */
  predicate DrawsInBounds(draws: seq<(int, int)>, rows: int, columns: int) {
    forall k :: 0 <= k < |draws| ==> 0 <= draws[k].0 < rows && 0 <= draws[k].1 < columns
  }

  /** The cells hit by a sequence of draws; a cell drawn twice is one cell. */
  function DrawnCells(draws: seq<(int, int)>): (cells: set<(int, int)>)
    ensures forall p :: p in cells <==> p in draws
    ensures |cells| <= |draws|
  {
    if draws == [] then {}
    else
      var rest := DrawnCells(draws[1..]);
      assert forall p :: p in draws <==> p == draws[0] || p in draws[1..];
      {draws[0]} + rest
  }

  /** One more draw adds its cell to the cells drawn so far. */
  lemma DrawnCellsSnoc(draws: seq<(int, int)>, k: nat)
    requires k < |draws|
    ensures DrawnCells(draws[..k + 1]) == DrawnCells(draws[..k]) + {draws[k]}
  {
    assert draws[..k + 1] == draws[..k] + [draws[k]];
  }

  predicate Distinct(draws: seq<(int, int)>) {
    forall i, j :: 0 <= i < j < |draws| ==> draws[i] != draws[j]
  }

  /** The scatter reaches its target number of obstacles exactly when no
      coordinate is drawn twice: a repeated draw is not retried. */
  lemma {:induction false} DrawnCellsExact(draws: seq<(int, int)>)
    ensures |DrawnCells(draws)| == |draws| <==> Distinct(draws)
  {
    if draws != [] {
      var rest := draws[1..];
      DrawnCellsExact(rest);
      DrawnCellsCons(draws);
      if draws[0] in rest {
        var k :| 0 <= k < |rest| && rest[k] == draws[0];
        assert draws[k + 1] == draws[0];
      } else {
        DistinctTail(draws);
      }
    }
  }

  /** Drawing a cell adds one to the count exactly when it was not drawn
      later in the sequence. */
  lemma DrawnCellsCons(draws: seq<(int, int)>)
    requires draws != []
    ensures |DrawnCells(draws)| ==
      |DrawnCells(draws[1..])| + if draws[0] in draws[1..] then 0 else 1
  {
    var rest := DrawnCells(draws[1..]);
    assert DrawnCells(draws) == {draws[0]} + rest;
    if draws[0] in draws[1..] {
      assert {draws[0]} + rest == rest;
    } else {
      assert draws[0] !in rest;
    }
  }

  /** A sequence whose head does not recur is distinct exactly when its tail
      is. */
  lemma DistinctTail(draws: seq<(int, int)>)
    requires draws != [] && draws[0] !in draws[1..]
    ensures Distinct(draws) <==> Distinct(draws[1..])
  {
    var rest := draws[1..];
    if Distinct(rest) {
      forall i, j | 0 <= i < j < |draws| ensures draws[i] != draws[j] {
        if i == 0 { assert draws[j] == rest[j - 1]; }
        else { assert draws[i] == rest[i - 1] && draws[j] == rest[j - 1]; }
      }
    }
    if Distinct(draws) {
      forall i, j | 0 <= i < j < |rest| ensures rest[i] != rest[j] {
        assert rest[i] == draws[i + 1] && rest[j] == draws[j + 1];
      }
    }
  }

  // ---------------------------------------------------------------------
  // The map as a value, and what a tower does to it

  /** The map as rows of cells. */
  type Grid = seq<seq<Cell>>

  predicate Rectangular(g: Grid, rows: int, columns: int) {
    |g| == rows && forall i :: 0 <= i < |g| ==> |g[i]| == columns
  }

  /** The (row, column) positions of the cells of `g` that hold `c`. */
  function CellsOf(g: Grid, c: Cell): set<(int, int)> {
    set i, j | 0 <= i < |g| && 0 <= j < |g[i]| && g[i][j] == c :: (i, j)
  }

  /** After the scatter on an empty map, the obstacle cells are exactly the
      drawn cells. */
  lemma ScatteredBlocks(g: Grid, rows: int, columns: int, draws: seq<(int, int)>)
    requires Rectangular(g, rows, columns) && DrawsInBounds(draws, rows, columns)
    requires forall i, j :: 0 <= i < rows && 0 <= j < columns ==>
      g[i][j] == if (i, j) in DrawnCells(draws) then Block else Empty
    ensures CellsOf(g, Block) == DrawnCells(draws)
  {
  }

  /** Cell (i, j) lies in the square of half-width `radius` around the tower
      at column x, row y. */
  predicate InSquare(i: int, j: int, x: int, y: int, radius: int) {
    y - radius <= i <= y + radius && x - radius <= j <= x + radius
  }

  /** What `set_tower(x, y, radius)` leaves in cell (i, j) that held
      `before`. */
  function TowerCell(before: Cell, i: int, j: int, x: int, y: int, radius: int): Cell {
    if i == y && j == x then Tower
    else if InSquare(i, j, x, y, radius) && before != Tower then Covered
    else before
  }

  /** The map after `set_tower(x, y, radius)`: the centre holds a tower,
      every other cell of the square that held no tower is covered, and
      every other cell keeps its token. */
  function PlaceTower(g: Grid, x: int, y: int, radius: int): (h: Grid)
    ensures |h| == |g| && forall i :: 0 <= i < |g| ==> |h[i]| == |g[i]|
    ensures 0 <= y < |g| && 0 <= x < |g[y]| ==> h[y][x] == Tower
    ensures forall i, j ::
      (0 <= i < |g| && 0 <= j < |g[i]| && (i, j) != (y, x) &&
       InSquare(i, j, x, y, radius) && g[i][j] != Tower) ==> h[i][j] == Covered
    ensures forall i, j ::
      (0 <= i < |g| && 0 <= j < |g[i]| && (i, j) != (y, x) &&
       (!InSquare(i, j, x, y, radius) || g[i][j] == Tower)) ==> h[i][j] == g[i][j]
  {
    seq(|g|, i requires 0 <= i < |g| =>
      seq(|g[i]|, j requires 0 <= j < |g[i]| => TowerCell(g[i][j], i, j, x, y, radius)))
  }

  /** A tower adds exactly one tower cell, its own, and never removes one. */
  lemma TowersAfterPlace(g: Grid, x: int, y: int, radius: int)
    requires 0 <= y < |g| && 0 <= x < |g[y]|
    ensures CellsOf(PlaceTower(g, x, y, radius), Tower) == CellsOf(g, Tower) + {(y, x)}
  {
  }

  /** A tower destroys exactly the obstacles in its square and under its
      own cell: nothing protects an obstacle from being covered. */
  lemma BlocksAfterPlace(g: Grid, x: int, y: int, radius: int)
    ensures CellsOf(PlaceTower(g, x, y, radius), Block)
         == set p | p in CellsOf(g, Block) && !InSquare(p.0, p.1, x, y, radius) && p != (y, x)
  {
  }

  /** After a tower, no cell of its square is left empty or blocked. */
  lemma SquareCoveredAfterPlace(g: Grid, x: int, y: int, radius: int, i: int, j: int)
    requires 0 <= i < |g| && 0 <= j < |g[i]|
    requires InSquare(i, j, x, y, radius) || (i == y && j == x)
    ensures PlaceTower(g, x, y, radius)[i][j] in {Tower, Covered}
  {
  }

  /** Placing the same tower twice changes nothing the first time did not. */
  lemma {:induction false} PlaceTowerIdempotent(g: Grid, x: int, y: int, radius: int)
    ensures PlaceTower(PlaceTower(g, x, y, radius), x, y, radius) == PlaceTower(g, x, y, radius)
  {
    var h := PlaceTower(g, x, y, radius);
    var hh := PlaceTower(h, x, y, radius);
    forall i | 0 <= i < |g| ensures hh[i] == h[i] {
      assert forall j :: 0 <= j < |g[i]| ==> hh[i][j] == h[i][j];
    }
  }

  /** The map after several towers does not depend on the order in which they
      were placed. */
  lemma {:induction false} PlaceTowerCommutes(g: Grid, x1: int, y1: int, r1: int, x2: int, y2: int, r2: int)
    ensures PlaceTower(PlaceTower(g, x1, y1, r1), x2, y2, r2)
         == PlaceTower(PlaceTower(g, x2, y2, r2), x1, y1, r1)
  {
    var a := PlaceTower(PlaceTower(g, x1, y1, r1), x2, y2, r2);
    var b := PlaceTower(PlaceTower(g, x2, y2, r2), x1, y1, r1);
    forall i | 0 <= i < |g| ensures a[i] == b[i] {
      assert forall j :: 0 <= j < |g[i]| ==> a[i][j] == b[i][j];
    }
  }

  // ---------------------------------------------------------------------
  // The text dump: CityGrid.__str__

  function Tokens(row: seq<Cell>): (ts: seq<string>)
    ensures |ts| == |row| && forall k :: 0 <= k < |row| ==> ts[k] == Token(row[k])
  {
    seq(|row|, k requires 0 <= k < |row| => Token(row[k]))
  }

  /** One line of the dump: the row's tokens joined by tabs. */
  function Line(row: seq<Cell>): string {
    Join(Tokens(row), '\t')
  }

  function Lines(g: Grid): (ls: seq<string>)
    ensures |ls| == |g| && forall i :: 0 <= i < |g| ==> ls[i] == Line(g[i])
  {
    seq(|g|, i requires 0 <= i < |g| => Line(g[i]))
  }

  /** The whole dump: the lines joined by newlines, row-major. It holds
      nothing but newlines, tabs and the characters of the cells' tokens. */
  function Render(g: Grid): (s: string)
    ensures forall c :: c in s ==>
      (c == '\n' || c == '\t' ||
       exists i, j :: 0 <= i < |g| && 0 <= j < |g[i]| && c in Token(g[i][j]))
  {
    forall c, i | 0 <= i < |g| && c in Line(g[i]) && c != '\t'
      ensures exists j :: 0 <= j < |g[i]| && c in Token(g[i][j])
    {
      var k :| 0 <= k < |g[i]| && c in Tokens(g[i])[k];
    }
    Join(Lines(g), '\n')
  }

  /** The dump of a map with at least one row and at least one cell per row
      splits on newlines into exactly one line per row, and each line splits
      on tabs into exactly that row's tokens. */
  lemma RenderLines(g: Grid)
    requires |g| >= 1 && forall i :: 0 <= i < |g| ==> |g[i]| >= 1
    ensures Split(Render(g), '\n') == Lines(g)
    ensures forall i :: 0 <= i < |g| ==> Split(Lines(g)[i], '\t') == Tokens(g[i])
  {
    forall i | 0 <= i < |g| ensures Split(Lines(g)[i], '\t') == Tokens(g[i]) && '\n' !in Lines(g)[i] {
      SplitJoin(Tokens(g[i]), '\t');
    }
    SplitJoin(Lines(g), '\n');
  }

  /** The dump loses nothing: two maps of that shape with the same dump are
      the same map. */
  lemma RenderDeterminesMap(g: Grid, h: Grid)
    requires |g| >= 1 && forall i :: 0 <= i < |g| ==> |g[i]| >= 1
    requires |h| >= 1 && forall i :: 0 <= i < |h| ==> |h[i]| >= 1
    requires Render(g) == Render(h)
    ensures g == h
  {
    RenderLines(g);
    RenderLines(h);
    forall i | 0 <= i < |g| ensures g[i] == h[i] {
      assert Tokens(g[i]) == Tokens(h[i]);
      forall j | 0 <= j < |g[i]| ensures g[i][j] == h[i][j] {
        TokenInjective(g[i][j], h[i][j]);
      }
    }
  }

  // ---------------------------------------------------------------------
  // The grid object

  class CityGrid {
    const rows: int
    const columns: int
    const coverage: real
    /** `city_map`: row y, column x is `cityMap[y, x]`. */
    const cityMap: array2<Cell>

    ghost predicate Valid() {
      SideValid(rows) && SideValid(columns) && CoverageValid(coverage) &&
      cityMap.Length0 == rows && cityMap.Length1 == columns
    }

    /** The current map as a value. */
    function Snapshot(): (g: Grid)
      reads cityMap
      ensures Rectangular(g, cityMap.Length0, cityMap.Length1)
      ensures forall i, j :: 0 <= i < cityMap.Length0 && 0 <= j < cityMap.Length1 ==> g[i][j] == cityMap[i, j]
    {
      seq(cityMap.Length0, i requires 0 <= i < cityMap.Length0 reads cityMap =>
        seq(cityMap.Length1, j requires 0 <= j < cityMap.Length1 reads cityMap => cityMap[i, j]))
    }

    /** The obstacle cells of the map. */
    ghost function Blocks(): set<(int, int)>
      reads cityMap
    {
      CellsOf(Snapshot(), Block)
    }

    /** `CityGrid(rows, columns, coverage)`: validates, then builds. The
        random coordinates the scatter would draw are given as `draws`. */
    static method Create(rows: int, columns: int, coverage: real, draws: seq<(int, int)>)
      returns (r: Result<CityGrid, ConfigError>)
      requires CheckConfig(rows, columns, coverage) == None ==>
        |draws| == ObstacleTarget(rows, columns, coverage) && DrawsInBounds(draws, rows, columns)
      ensures r.Err? <==> CheckConfig(rows, columns, coverage) != None
      ensures r.Err? ==> CheckConfig(rows, columns, coverage) == Some(r.error)
      ensures r.Ok? ==> fresh(r.value) && fresh(r.value.cityMap) && r.value.Valid()
      ensures r.Ok? ==> r.value.rows == rows && r.value.columns == columns && r.value.coverage == coverage
      ensures r.Ok? ==> forall i, j :: 0 <= i < rows && 0 <= j < columns ==>
        r.value.cityMap[i, j] == if (i, j) in DrawnCells(draws) then Block else Empty
      ensures r.Ok? ==> r.value.Blocks() == DrawnCells(draws)
      ensures r.Ok? ==> |r.value.Blocks()| <= ObstacleTarget(rows, columns, coverage)
    {
      var err := CheckConfig(rows, columns, coverage);
      if err.Some? {
        return Err(err.value);
      }
      var grid := new CityGrid(rows, columns, coverage, draws);
      return Ok(grid);
    }

    /** The body of `__init__` once the three values are valid: a map of
        `rows` rows of `columns` empty cells, then the obstacle scatter. */
    constructor (rows: int, columns: int, coverage: real, draws: seq<(int, int)>)
      requires SideValid(rows) && SideValid(columns) && CoverageValid(coverage)
      requires |draws| == ObstacleTarget(rows, columns, coverage)
      requires DrawsInBounds(draws, rows, columns)
      ensures Valid() && fresh(cityMap)
      ensures this.rows == rows && this.columns == columns && this.coverage == coverage
      ensures forall i, j :: 0 <= i < rows && 0 <= j < columns ==>
        cityMap[i, j] == if (i, j) in DrawnCells(draws) then Block else Empty
      ensures Blocks() == DrawnCells(draws)
      ensures |Blocks()| <= ObstacleTarget(rows, columns, coverage)
    {
      this.rows := rows;
      this.columns := columns;
      this.coverage := coverage;
      cityMap := new Cell[rows, columns]((i, j) => Empty);
      new;
      InitBlocks(cityMap, rows, columns, coverage, draws);
      ScatteredBlocks(Snapshot(), rows, columns, draws);
    }

    /** `__init_blocks`: for each of the `ObstacleTarget` draws, mark that
        cell as an obstacle. The inner loop runs at most once, so a cell that
        is already an obstacle is not redrawn. */
    static method InitBlocks(cityMap: array2<Cell>, rows: int, columns: int, coverage: real,
                             draws: seq<(int, int)>)
      requires SideValid(rows) && SideValid(columns) && CoverageValid(coverage)
      requires cityMap.Length0 == rows && cityMap.Length1 == columns
      requires |draws| == ObstacleTarget(rows, columns, coverage)
      requires DrawsInBounds(draws, rows, columns)
      modifies cityMap
      ensures forall i, j :: 0 <= i < rows && 0 <= j < columns ==>
        cityMap[i, j] == if (i, j) in DrawnCells(draws) then Block else old(cityMap[i, j])
    {
      var n := ObstacleTarget(rows, columns, coverage);
      for k := 0 to n
        invariant forall i, j :: 0 <= i < rows && 0 <= j < columns ==>
          cityMap[i, j] == if (i, j) in DrawnCells(draws[..k]) then Block else old(cityMap[i, j])
      {
        var x := draws[k].0;
        var y := draws[k].1;
        while cityMap[x, y] != Block
          invariant forall i, j :: 0 <= i < rows && 0 <= j < columns && (i, j) != (x, y) ==>
            cityMap[i, j] == if (i, j) in DrawnCells(draws[..k]) then Block else old(cityMap[i, j])
          decreases if cityMap[x, y] == Block then 0 else 1
        {
          cityMap[x, y] := Block;
        }
        DrawnCellsSnoc(draws, k);
      }
      assert draws[..n] == draws;
    }

    /** `__set_coverage_of_tover(i, j)`: marks cell (i, j) covered unless it
        holds a tower. The cell is read with Python's indexing first, so a
        negative index reads a cell counted from the end; the `>= 0` tests
        then stop the write, and an index out of range raises `IndexError`,
        which is swallowed. */
    method SetCoverageOfTower(i: int, j: int)
      requires Valid()
      modifies cityMap
      ensures forall a, b :: 0 <= a < rows && 0 <= b < columns ==>
        cityMap[a, b] == if a == i && b == j && old(cityMap[a, b]) != Tower then Covered else old(cityMap[a, b])
    {
      var row := PyIndex(i, rows);
      if row.None? {
        return;  // IndexError
      }
      var column := PyIndex(j, columns);
      if column.None? {
        return;  // IndexError
      }
      if cityMap[row.value, column.value] != Tower && i >= 0 && j >= 0 {
        cityMap[row.value, column.value] := Covered;
      }
    }

    /** `set_tower(x, y, radius)`: puts a tower at column x, row y (on
        whatever the cell held, an obstacle included), then covers every
        cell of the square of half-width `radius` around it that is inside
        the map and holds no tower. */
    method SetTower(x: int, y: int, radius: int)
      requires Valid()
      requires 0 <= x < columns && 0 <= y < rows
      modifies cityMap
      ensures cityMap[y, x] == Tower
      ensures forall i, j ::
        (0 <= i < rows && 0 <= j < columns && (i, j) != (y, x) &&
         InSquare(i, j, x, y, radius) && old(cityMap[i, j]) != Tower) ==> cityMap[i, j] == Covered
      ensures forall i, j ::
        (0 <= i < rows && 0 <= j < columns && (i, j) != (y, x) &&
         (!InSquare(i, j, x, y, radius) || old(cityMap[i, j]) == Tower)) ==> cityMap[i, j] == old(cityMap[i, j])
      ensures Snapshot() == PlaceTower(old(Snapshot()), x, y, radius)
    {
      cityMap[y, x] := Tower;
      var i := y - radius;
      while i < y + radius + 1
        invariant y - radius <= i && (radius >= 0 ==> i <= y + radius + 1)
        invariant forall a, b :: 0 <= a < rows && 0 <= b < columns ==>
          cityMap[a, b] == if a < i then TowerCell(old(cityMap[a, b]), a, b, x, y, radius)
                           else if (a, b) == (y, x) then Tower else old(cityMap[a, b])
      {
        var j := x - radius;
        while j < x + radius + 1
          invariant x - radius <= j <= x + radius + 1
          invariant forall a, b :: 0 <= a < rows && 0 <= b < columns ==>
            cityMap[a, b] == if a < i || (a == i && b < j) then TowerCell(old(cityMap[a, b]), a, b, x, y, radius)
                             else if (a, b) == (y, x) then Tower else old(cityMap[a, b])
        {
          SetCoverageOfTower(i, j);
          j := j + 1;
        }
        i := i + 1;
      }
      ghost var before := old(Snapshot());
      assert forall a :: 0 <= a < rows ==> Snapshot()[a] == PlaceTower(before, x, y, radius)[a];
    }

    /** `__str__`: the map row-major, cells separated by tabs and rows by
        newlines. */
    function ToString(): (s: string)
      reads cityMap
      requires Valid()
      ensures |Split(s, '\n')| == rows
      ensures forall i :: 0 <= i < rows ==> Split(Split(s, '\n')[i], '\t') == Tokens(Snapshot()[i])
    {
      RenderLines(Snapshot());
      Render(Snapshot())
    }
  }

  /** Python's `xs[k]` on a list of length n: a negative k counts from the
      end; None stands for `IndexError`. */
  function PyIndex(k: int, n: nat): (r: Option<nat>)
    ensures r.Some? <==> -(n as int) <= k < n
    ensures r.Some? ==> r.value < n && (k >= 0 ==> r.value == k) && (k < 0 ==> r.value == k + n)
  {
    if 0 <= k < n then Some(k)
    else if -(n as int) <= k < 0 then Some(k + n)
    else None
  }
}
