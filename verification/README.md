# Game of Life engine — a Dafny model

This project models the simulation engine of a Game of Life written with
PySide6 (Qt for Python) in `main.py`. Most of the engine lives in the
`GameOfLifeWindow` class. The cell flip lives in `GridWidget.toggle_at`.

The board is a `rows` x `cols` grid of 0/1 cells together with a `wrap` flag.
The flag selects one of two boundary policies:

- bounded: off-grid neighbours are skipped;
- toroidal: indices wrap modulo the grid size.

The model covers:

- one generation, `next_state`: the neighbour count over the eight Moore
  offsets, then the survive-on-2-or-3, born-on-3 rule;
- `pattern_offsets`: the `#` positions of a text pattern, in row-major order;
- `insert_pattern_center`: a pattern stamped with its bounding box centred on
  the grid, wrapped or clipped;
- the name lookup of `insert_selected_pattern`;
- `clear`;
- the cell flip inside `toggle_at`;
- `randomize`, with its random draws supplied by the caller.

Modules:

- `Grids`: grid shape, coordinate resolution, `clear`, toggle and randomize.
- `Neighbourhood`: the count, both as a function and as the loop.
- `Generation`: the rule, the step function and the step loop.
- `Patterns`: offsets and the pattern catalog.
- `Stamping`: centred insertion and the named lookup.
- `Engine`: the window state as a `Board`, plus one `Command` for each way
  the window changes it:
  - the step button (`step_once`) and the timer's `tick` are both `StepOnce`;
  - a mouse flip is `ToggleCell`;
  - the clear, randomize and insert buttons are `ClearCells`,
    `RandomizeCells` and `InsertNamed`;
  - the wrap check box is `SetWrap`.
- `Examples`: concrete boards, including the catalog's blinker.

The model keeps one point of the source exactly as written. The toroidal count
is a sum over the eight offsets, not over distinct cells. On a torus with one or
two rows (or columns), the same cell can therefore be counted several times,
and a cell can even count itself. `Neighbourhood` proves the count equals the
number of distinct live neighbour cells in two cases only:

- the bounded policy, on every grid;
- the toroidal policy, when rows and columns are both at least 3.

`Examples` shows the one-row torus where a full row of three has count 8 and
dies.

Python's `(x + n) % n` with a positive `n` is floor modulo. For a positive
divisor it agrees with Dafny's Euclidean `%`, so `Grids.Wrap` writes it as is.

## Model

| member | source | states |
|---|---|---|
| Grids.Wrap | main.py:300-303 | the wrapped index `(x + n) % n` always lies in `[0, n)` |
| Grids.WrapNear | main.py:300-303 | for a coordinate at most one grid length off, wrapping adds or subtracts `n` once, or leaves an on-grid index alone |
| Grids.Resolve | main.py:298-306 | under wrap, every computed coordinate lands on the grid. Bounded, a coordinate lands iff it is on the grid, and it lands on itself |
| Grids.ResolveOnGrid | main.py:298-306 | under either policy, an on-grid coordinate resolves to itself |
| Grids.Clear | main.py:265-268 | `clear` leaves a `rows` x `cols` grid whose every cell is 0 |
| Grids.Toggle | main.py:61-62 | an in-range cell goes to 0 if it was 1 and to 1 otherwise, and every other cell keeps its value. A coordinate outside the grid (bounds from the grid and its first row) changes nothing. Dimensions are kept |
| Grids.ToggleKeepsBinary | main.py:61-62 | flipping keeps a 0/1 grid 0/1 |
| Grids.ToggleInvolution | main.py:61-62 | flipping the same cell twice gives back the original 0/1 grid |
| Grids.Randomize | main.py:271-275 | the result is a `rows` x `cols` 0/1 grid, and cell (r, c) is 1 exactly when its draw says alive |
| Grids.RandomizeNoneIsClear | main.py:271-275 | if no draw says alive, randomizing equals clearing |
| Grids.RandomizeAllAlive | main.py:271-275 | if every draw says alive, every cell is 1 |
| Neighbourhood.ContributionReads | main.py:294-306 | what `Contribution` adds to the count for one offset. Under wrap it is the cell at the wrapped coordinate. Bounded, it is the cell at the offset coordinate when that is on the grid, and 0 when it is off the grid. On a 0/1 grid it is 0 or 1. The eight offsets walked, in loop order, are the constant `Neighbourhood.Offsets` |
| Neighbourhood.SumOver | main.py:293-306 | on a 0/1 grid, the sum over a list of offsets lies between 0 and the number of offsets |
| Neighbourhood.Neighbours | main.py:292-306 | on a 0/1 grid, the neighbour count lies in 0..8 |
| Neighbourhood.CountNeighbours | main.py:292-306 | the nested offset loop, with its wrap and bounds branches, computes exactly the offset sum `Neighbours` |
| Neighbourhood.OffsetsAreMoore | main.py:295-297 | the offsets walked are exactly the pairs in {-1,0,1}² other than (0, 0) |
| Neighbourhood.OffsetsDistinct | main.py:295-297 | no offset is walked twice |
| Neighbourhood.NeighboursExpand | main.py:295-306 | the count is the eight contributions added in loop order |
| Neighbourhood.BoundedCornerAtMostThree | main.py:304-306 | bounded, the corner (0, 0) of a 0/1 grid has a count of at most 3 |
| Neighbourhood.TorusCornerNeighbour | main.py:300-303 | toroidal, the up-left offset of (0, 0) reads cell (rows-1, cols-1) |
| Neighbourhood.OneRowTorusSeesItself | main.py:300-303 | toroidal with one row, both vertical offsets of a cell read the cell itself |
| Neighbourhood.TwoRowTorusSeesRowTwice | main.py:300-303 | toroidal with two rows, `dr = -1` and `dr = +1` read the same cell |
| Neighbourhood.LiveTargetsMembership | main.py:295-306 | a cell is among the live cells a list of offsets reads iff it is on the grid, holds 1, and some offset of the list reads it |
| Neighbourhood.SumIsLiveTargetCount | main.py:295-306 | when no two offsets read the same cell, the sum on a 0/1 grid equals the number of distinct live cells read |
| Neighbourhood.BoundedCountIsLiveNeighbours | main.py:304-306 | bounded, the count equals the number of live cells in the on-grid 3x3 box around the cell, the cell itself excluded |
| Neighbourhood.WrapSeparates | main.py:300-303 | with at least 3 rows, the wrapped rows r-1, r, r+1 are pairwise different |
| Neighbourhood.TorusCountIsLiveNeighbours | main.py:300-303 | toroidal with rows and columns both at least 3, the count equals the number of distinct live cells around the cell on the torus |
| Generation.RuleCases | main.py:307-310 | the survive/birth rule `Rule`, defined from the predicate `AliveNext`. A live cell (value 1) stays alive exactly on 2 or 3 neighbours. Any other cell becomes alive exactly on 3. The stored value is always 0 or 1 |
| Generation.Next | main.py:287-311 | the next generation has `rows` rows of `cols` 0/1 cells. A cell is 1 iff it was 1 and has 2 or 3 neighbours, or it was not 1 and has exactly 3. All counts are taken on the old grid |
| Generation.NextState | main.py:287-311 | the cell-by-cell loop builds exactly the grid `Next` describes |
| Generation.NextIsLocal | main.py:293-310 | a cell's next value depends only on its old value and the old values its eight offsets read |
| Generation.SumOverAgree | main.py:295-306 | two grids that agree on what each offset reads give the same sum |
| Generation.SumOverEmpty | main.py:295-306 | on an all-dead grid every offset sum is 0 |
| Generation.EmptyStaysEmpty | main.py:307-310 | the all-dead grid is its own next generation under either policy |
| Patterns.Catalog | main.py:143-208 | the eleven named patterns of the window, row strings copied verbatim, including the three 12-character Pulsar rows. Every entry has at least one row |
| Patterns.CatalogRowsAreDotsAndHashes | main.py:143-208 | every catalog row is written in `.` and `#` only |
| Patterns.RowOffsets | main.py:315-318 | the positions listed for one row are exactly its `#` columns, in increasing order |
| Patterns.PatternOffsets | main.py:313-319 | `(r, c)` is listed iff `strings[r][c] == '#'`, and the list is strictly row-major |
| Patterns.PatternOffsetsDistinct | main.py:313-319 | no position is listed twice |
| Patterns.RowMajorUnique | main.py:313-319 | two strictly row-major lists holding the same positions are equal |
| Patterns.PatternOffsetsUnique | main.py:313-319 | every strictly row-major list of exactly the `#` positions equals the listed offsets |
| Stamping.Origin | main.py:329-332 | the top-left corner `(rows//2 - ph//2, cols//2 - pw//2)`. Its height is the number of rows and its width the length of `strings[0]`. It centres the bounding box to within one cell in each direction |
| Stamping.SmallPatternFits | main.py:329-332 | a pattern no taller than the grid, and no wider in its first row, has its whole bounding box on the grid |
| Stamping.SetAlive | main.py:336-342 | one target write sets that cell to 1 and leaves every other cell as it was |
| Stamping.StampAll | main.py:333-342 | after the loop over the offsets, a cell is 1 if some offset lands on it. Otherwise it keeps its value |
| Stamping.HitIffCovers | main.py:328-335 | an offset of the pattern lands on a cell iff some `#` of the pattern, placed at the corner, resolves to it |
| Stamping.InsertPatternCenter | main.py:327-343 | a cell becomes 1 iff some `#` of the pattern, placed at the centred corner and wrapped or clipped, resolves to it. Every other cell keeps its value |
| Stamping.InsertOnlySetsAlive | main.py:336-342 | stamping never sets a cell to 0, and keeps a 0/1 grid 0/1 |
| Stamping.BoundedInsertClosedForm | main.py:340-342 | bounded, cell (i, j) becomes 1 exactly when the pattern has a `#` at (i - top, j - left), and otherwise keeps its value |
| Stamping.InsertIdempotent | main.py:327-343 | stamping the same pattern twice gives the same grid as stamping it once |
| Stamping.InsertSelected | main.py:321-325 | a name the catalog lacks, or one with an empty pattern, leaves the grid unchanged. A known name stamps its pattern in the centre |
| Engine.NewBoard | main.py:89-97 | a fresh window is a valid all-dead `rows` x `cols` board with wrap off |
| Engine.Apply | main.py:244-285 | every command keeps the board valid and its size unchanged. Only the wrap check box changes `wrap` |
| Engine.Run | main.py:244-285 | any sequence of commands keeps the board valid and its size unchanged |
| Engine.ReachableIsValid | main.py:89-97 | every board reachable from a fresh window is valid and keeps the window's size |
| Engine.ClearIdempotent | main.py:265-268 | clearing twice is clearing once |
| Engine.ClearedBoardIsStill | main.py:277-280 | stepping a cleared board leaves it as it is |
| Engine.ToggleTwiceIsIdentity | main.py:61-62 | flipping the same cell twice restores the board |
| Engine.UnknownPatternIsNoOp | main.py:321-325 | inserting a name the catalog does not hold leaves the board unchanged |
| Engine.InsertNamedLooksUp | main.py:321-325 | the insert command, for any name, is the catalog lookup followed by stamping or doing nothing |
| Engine.InsertNamedStamps | main.py:321-325 | inserting a catalog name stamps that name's pattern, which is never empty, centred on the grid |
| Examples.BlinkerStampedCentred | main.py:327-343 | stamping `["###"]` into an empty 3x3 grid gives the horizontal blinker |
| Examples.BlinkerInsertedCentred | main.py:321-325 | choosing "Blinker" in a fresh 3x3 window gives the horizontal blinker |
| Examples.NextFromRules | main.py:287-311 | a grid that agrees with the rule at every cell is the next generation |
| Examples.HorizontalTurns | main.py:287-311 | bounded, the horizontal blinker steps to the vertical one |
| Examples.VerticalTurns | main.py:287-311 | bounded, the vertical blinker steps to the horizontal one |
| Examples.BlinkerHasPeriodTwo | main.py:287-311 | the blinker returns after two steps and differs after one |
| Examples.OneRowTorusCountsRowThrice | main.py:300-303 | on a 1x3 torus, a full row's middle cell has count 8, and the whole row dies |
| Examples.LoneCellOnTinyTorus | main.py:292-310 | a single live cell on a 1x1 grid has count 8 on the torus and 0 bounded, and dies either way |

## Left out

- Qt and its event plumbing are left out because they hold no engine logic. That covers painting, colours and themes, the preview widget, the layout, signals and slots, the timer behind `toggle_run`, `show_info`/`info_text`, and `main`.
- The pixel-to-cell conversion in `toggle_at` is left out. It divides float event positions by the cell size. `Grids.Toggle` takes the integer `(r, c)` it produces.
- `Grids.Randomize` does not model `random.random()` or the 0.2 threshold. Floats and a global random generator are outside the model, so the caller supplies each cell's outcome as `draw(r, c)`.
- The catalog appears as data in `Patterns.Catalog`, and one entry is used in `Examples`. Most entries have no separate property.
- Some Pulsar rows hold 12 characters instead of 13. Stamping handles ragged patterns as written: the width comes from the first row only. Those rows contain only `.`, so the length difference changes nothing stamped.
- `Engine.Valid` and `Engine.NewBoard` require at least one row and one column.
  - Zero rows fails in the source: `GridWidget.__init__` reads `grid[0]` (main.py:30).
  - Zero columns mostly runs: the clear, randomize and step loops do nothing, a toggle is out of range, and a bounded insertion skips every target. Only a wrapped insertion fails, with a division by zero in `(cc2 + self.cols) % self.cols` (main.py:338).
  - Requiring `cols >= 1` is therefore a modelling choice. It keeps every board shape one on which all commands are defined.
- `GridWidget.grid` and the window's `grid` always refer to the same list. A step builds a new list and points both at it (main.py:278-279, 283-284). The model keeps one grid per board, which is what that sharing amounts to, so the two references are not represented separately.
- `next_state` leaves its input unchanged. That holds by construction of a pure function, so it is not a separate property.
