/**
 The cell grid of the Game of Life window and the mutators that touch it
 directly: the wrap-or-clip resolution of a coordinate, `clear`, the cell flip
 of `toggle_at`, and `randomize` with its random draws supplied by the caller.

 A grid is a list of rows, each a list of integer cells; the window only ever
 stores 0 (dead) and 1 (alive) in it.
 */
module Grids {

  datatype Option<T> = None | Some(value: T)

  type Grid = seq<seq<int>>

  /** A cell coordinate (row, column). */
  type Cell = (int, int)

  /** `g` has exactly `rows` rows of exactly `cols` entries each. */
  predicate Shaped(g: Grid, rows: int, cols: int) {
    |g| == rows && cols >= 0 && forall r :: 0 <= r < |g| ==> |g[r]| == cols
  }

  /** Every entry of `g` is 0 or 1. */
  predicate Binary(g: Grid) {
    forall r, c :: 0 <= r < |g| && 0 <= c < |g[r]| ==> g[r][c] == 0 || g[r][c] == 1
  }

  predicate InGrid(rows: int, cols: int, p: Cell) {
    0 <= p.0 < rows && 0 <= p.1 < cols
  }

  /** Python's `(x + n) % n` for a positive `n`: floor modulo, never negative. */
  function Wrap(x: int, n: int): (w: int)
    requires n > 0
    ensures 0 <= w < n
  {
    (x + n) % n
  }

  /**
   Where a computed coordinate `(rr, cc)` lands: under wrap both indices are
   reduced modulo the grid size; otherwise a coordinate off the grid lands
   nowhere.  Both `next_state` and `insert_pattern_center` resolve coordinates
   this way.
   */
  function Resolve(rows: int, cols: int, wrap: bool, rr: int, cc: int): (t: Option<Cell>)
    requires rows > 0 && cols > 0
    ensures t.Some? ==> InGrid(rows, cols, t.value)
    ensures !wrap ==> (t.Some? <==> InGrid(rows, cols, (rr, cc)))
    ensures !wrap && t.Some? ==> t.value == (rr, cc)
    ensures wrap ==> t.Some?
  {
    if wrap then Some((Wrap(rr, rows), Wrap(cc, cols)))
    else if 0 <= rr < rows && 0 <= cc < cols then Some((rr, cc))
    else None
  }

  /** Off the grid by at most one grid length, `Wrap` is a single correction. */
  lemma WrapNear(x: int, n: int)
    requires n > 0 && -n <= x < 2 * n
    ensures Wrap(x, n) == if x < 0 then x + n else if x >= n then x - n else x
  {
  }

  /** Under either policy a coordinate already on the grid resolves to itself. */
  lemma ResolveOnGrid(rows: int, cols: int, wrap: bool, rr: int, cc: int)
    requires rows > 0 && cols > 0 && InGrid(rows, cols, (rr, cc))
    ensures Resolve(rows, cols, wrap, rr, cc) == Some((rr, cc))
  {
    WrapNear(rr, rows);
    WrapNear(cc, cols);
  }

  /** The grid `clear` leaves behind: every cell dead. */
  function Clear(rows: nat, cols: nat): (g: Grid)
    ensures Shaped(g, rows, cols) && Binary(g)
    ensures forall r, c :: 0 <= r < rows && 0 <= c < cols ==> g[r][c] == 0
  {
    seq(rows, _ => seq(cols, _ => 0))
  }

  /** All rows are as long as the first (vacuous for an empty grid). */
  predicate Rectangular(g: Grid) {
    forall r :: 0 <= r < |g| ==> |g[r]| == |g[0]|
  }

  /**
   The cell flip of `toggle_at`: a cell inside the grid (bounds taken from the
   grid itself and its first row) goes to 0 if it was 1 and to 1 otherwise;
   a coordinate outside leaves the grid as it is.
   */
  function Toggle(g: Grid, r: int, c: int): (g': Grid)
    requires Rectangular(g)
    ensures |g'| == |g| && forall i :: 0 <= i < |g| ==> |g'[i]| == |g[i]|
    ensures !(0 <= r < |g| && 0 <= c < |g[0]|) ==> g' == g
    ensures 0 <= r < |g| && 0 <= c < |g[0]| ==>
      && g'[r][c] == (if g[r][c] == 1 then 0 else 1)
      && forall i, j :: 0 <= i < |g| && 0 <= j < |g[i]| && (i, j) != (r, c) ==> g'[i][j] == g[i][j]
  {
    if 0 <= r < |g| && 0 <= c < |g[0]| then
      g[r := g[r][c := if g[r][c] == 1 then 0 else 1]]
    else
      g
  }

  /** Flipping stays within 0/1 ... */
  lemma ToggleKeepsBinary(g: Grid, r: int, c: int)
    requires Rectangular(g) && Binary(g)
    ensures Binary(Toggle(g, r, c))
  {
  }

  /** ... and flipping the same cell twice restores a 0/1 grid. */
  lemma ToggleInvolution(g: Grid, r: int, c: int)
    requires Rectangular(g) && Binary(g)
    ensures Toggle(Toggle(g, r, c), r, c) == g
  {
    var g1 := Toggle(g, r, c);
    var g2 := Toggle(g1, r, c);
    if 0 <= r < |g| && 0 <= c < |g[0]| {
      assert g2[r] == g[r];
    }
  }

  /**
   `randomize`: the cell (r, c) comes out alive exactly when the caller-supplied
   draw for it says so; `draw(r, c)` stands for the outcome of
   `random.random() < 0.2` for that cell.
   */
  function Randomize(rows: nat, cols: nat, draw: (int, int) -> bool): (g: Grid)
    ensures Shaped(g, rows, cols) && Binary(g)
    ensures forall r, c :: 0 <= r < rows && 0 <= c < cols ==> (g[r][c] == 1 <==> draw(r, c))
  {
    seq(rows, r => seq(cols, c => if draw(r, c) then 1 else 0))
  }

  /** When no draw falls under the threshold, randomizing is clearing. */
  lemma RandomizeNoneIsClear(rows: nat, cols: nat, draw: (int, int) -> bool)
    requires forall r, c :: !draw(r, c)
    ensures Randomize(rows, cols, draw) == Clear(rows, cols)
  {
    var g, z := Randomize(rows, cols, draw), Clear(rows, cols);
    forall r | 0 <= r < rows
      ensures g[r] == z[r]
    {
    }
  }

  /** When every draw falls under the threshold, every cell is alive. */
  lemma RandomizeAllAlive(rows: nat, cols: nat, draw: (int, int) -> bool)
    requires forall r, c :: draw(r, c)
    ensures forall r, c :: 0 <= r < rows && 0 <= c < cols ==> Randomize(rows, cols, draw)[r][c] == 1
  {
  }
}
