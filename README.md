# City grid: obstacles, towers and coverage

A model of the `CityGrid` class of `city.py`: a `rows` x `columns` map of
cell tokens (`'-'` empty, `'block'` obstacle, `"Tower"`, and the Cyrillic
letter te for a covered cell). Building a grid validates its three
parameters, then scatters obstacles over an all-empty map. `set_tower`
puts a tower on a cell and covers the square around it, clipped to the
map. `__str__` dumps the map as tab- and newline-separated text.

Files:

- `text.dfy`, module `PyText`: Python's `str.join` and `str.split` for a
  one-character separator. It proves that each undoes the other.
- `city.dfy`, module `City`:
  - the cell tokens and the parameter validators;
  - the map as a value (`Grid`) and `PlaceTower`, the value-level meaning of
    `set_tower`, with lemmas about it;
  - the text dump `Render` with its read-back lemmas;
  - the class `CityGrid`. Its map is an `array2<Cell>` that the scatter and
    `set_tower` update in place, cell by cell, in loops that carry
    invariants.

The random coordinates of the scatter are a parameter, `draws`: one
(row, column) pair per draw, each inside the map, as `randint(0, rows-1)` and
`randint(0, columns-1)` guarantee.

Two behaviours of the code worth knowing:

- The scatter does not retry a cell that is already an obstacle. The inner
  `while` of `__init_blocks` runs at most once. So the obstacle count is at
  most `int(rows*columns*coverage)`, and it equals that target exactly when
  no cell is drawn twice (`DrawnCellsExact`).
- `set_tower` does not refuse an obstacle cell and does not protect
  obstacles inside its square. They become covered (`BlocksAfterPlace`).

## Model

| member | source | states |
|---|---|---|
| City.CheckConfig | city.py:45-47 | The grid is accepted exactly when rows >= 1, columns >= 1 and coverage >= 0.3 (the tests of lines 15-17 and 31-33). Otherwise the first failing assignment, in the order rows, columns, coverage, is the one reported |
| City.CityGrid.Create | city.py:41-55 | Construction fails exactly when the validation fails, and then no grid is produced. On success, the new grid has the given dimensions, every drawn cell is `'block'` and every other cell is `'-'`, so its obstacle cells are exactly the drawn cells, at most `int(rows*columns*coverage)` of them |
| City.CityGrid.constructor | city.py:48-55 | The map has `rows` rows of `columns` cells. After the scatter, each drawn cell is `'block'` and every other cell is still `'-'`. The obstacle set equals the set of drawn cells, and its size is at most the target |
| City.ObstacleTarget | city.py:59 | The number of draws is the product rows*columns*coverage truncated: it is at most the product and more than the product minus one |
| City.DrawnCells | city.py:58-63 | A cell is hit by the draws exactly when it occurs among them. The number of distinct hit cells is at most the number of draws |
| City.DrawnCellsSnoc | city.py:59-63 | One more draw adds exactly its cell to the set of cells drawn so far |
| City.DrawnCellsExact | city.py:58-63 | The number of distinct hit cells equals the number of draws exactly when no cell is drawn twice, because duplicates are not retried |
| City.DrawnCellsCons | city.py:58-63 | A draw adds one to the number of distinct hit cells exactly when that cell is not among the other draws |
| City.DistinctTail | city.py:58-63 | A sequence of draws whose first cell does not recur is duplicate-free exactly when the rest is |
| City.ScatteredBlocks | city.py:48-63 | On a map whose cells are `'block'` where drawn and `'-'` elsewhere, the obstacle cells are exactly the drawn cells |
| City.CityGrid.InitBlocks | city.py:58-63 | In place on the array: every drawn cell becomes `'block'` and every cell not drawn keeps its old token |
| City.PyIndex | city.py:67 | Python list indexing: an index in [-n, n) finds a cell, and a negative index counts from the end. Any other index is an `IndexError` |
| City.CityGrid.SetCoverageOfTower | city.py:65-70 | Only cell (i, j) can change, and only when it is inside the map. It becomes covered unless it holds a tower. A negative index reads a wrapped cell but never writes it. An index past the end changes nothing and raises nothing |
| City.CityGrid.SetTower | city.py:72-76 | The centre becomes `"Tower"`, even on an obstacle. Every other in-map cell of the square that was not a tower becomes covered, obstacles included. Cells outside the square and tower cells are unchanged. The new map is `PlaceTower` of the old |
| City.PlaceTower | city.py:65-76 | The map after a tower as a value: same shape; the centre, when inside the map, holds a tower; every other in-map cell of the square that held no tower is covered, obstacles included; every other cell keeps its token |
| City.TowersAfterPlace | city.py:72-76 | A tower adds exactly one tower cell, its own, and never removes one (the helper never overwrites `"Tower"`, line 67) |
| City.BlocksAfterPlace | city.py:65-76 | The obstacles left after a tower are exactly the earlier obstacles outside its square and not under its centre |
| City.SquareCoveredAfterPlace | city.py:72-76 | After a tower, every in-map cell of its square, and its centre, holds a tower or is covered |
| City.PlaceTowerIdempotent | city.py:72-76 | Placing the same tower a second time leaves the map as the first placement left it |
| City.PlaceTowerCommutes | city.py:72-76 | Two placements give the same map in either order |
| City.Token | city.py:48-73 | Every cell token is non-empty and holds neither a tab nor a newline |
| City.TokenInjective | city.py:48-73 | Distinct cells have distinct tokens |
| City.Render | city.py:78-79 | The dump (each row's tokens joined by tabs, the rows joined by newlines) holds nothing but newlines, tabs and characters of the cells' tokens |
| City.RenderLines | city.py:78-79 | The dump of a map with at least one row and one column splits on newlines into exactly one line per row. Each line splits on tabs into exactly that row's tokens |
| City.RenderDeterminesMap | city.py:78-79 | Two such maps with the same dump are equal: the dump loses nothing |
| City.CityGrid.ToString | city.py:78-79 | The dump of the grid splits into `rows` lines. Line i splits into the tokens of row i of the map |
| PyText.Join | city.py:79 | A character occurs in the joined string exactly when it occurs in a part, or it is the separator and there are at least two parts |
| PyText.Split | city.py:79 | Python's `split` never returns an empty list, and no piece holds the separator |
| PyText.SplitAfterPrefix | city.py:79 | Splitting a string that starts with a separator-free prefix glues that prefix to the first piece of the rest |
| PyText.SplitJoin | city.py:79 | Splitting a join of at least one separator-free part gives back the parts |
| PyText.JoinSplit | city.py:79 | Joining the pieces of a split gives back the string |

## Left out

- The random source (`randint`, lines 1 and 60-61) is replaced by the `draws` parameter.
- Floating point: `coverage` is a `real`, so `int(rows * columns * coverage)` is the exact product truncated, not the IEEE-rounded one. A NaN or infinite coverage, which line 32 lets through and line 59 then rejects, is not modelled.
- The descriptor machinery (`__set_name__`, `__get__`, `__set__`, lines 5-13 and 21-29) is not modelled; only the validators are. Reassigning `rows`, `columns` or `coverage` after construction is not modelled either, because the model's fields are constants.
- The `isinstance` checks of lines 16 and 32 are covered by Dafny's types. A `bool` side passes line 16 (`True` behaves as 1, which the model covers); an `int` coverage, which line 32 rejects, is not modelled, since coverage is a `real`.
- City.CityGrid.SetTower: requires the tower centre inside the map. A negative centre would wrap under Python indexing (line 73), and one past the end raises an uncaught `IndexError`.
- The `__main__` demo and its `print` (lines 82-85) are I/O.
