/**
 The engine state of the Game of Life window and the commands that change it:
 step (`step_once`/`tick`), cell flip (`toggle_at`), `clear`, `randomize`,
 pattern insertion (`insert_selected_pattern`) and the wrap check box.  The
 window's grid is replaced wholesale by a step and updated in place by the
 other commands; here every command maps an old board to a new one.
 */
module Engine {
  import opened Grids
  import opened Generation
  import opened Patterns
  import opened Stamping

  /** The simulation part of the window: its size, its grid and the wrap flag. */
  datatype Board = Board(rows: int, cols: int, grid: Grid, wrap: bool)

  /** What every reachable board satisfies: a non-empty `rows` x `cols` grid of 0/1 cells. */
  predicate Valid(b: Board) {
    b.rows >= 1 && b.cols >= 1 && Shaped(b.grid, b.rows, b.cols) && Binary(b.grid)
  }

  /** A fresh window: every cell dead, wrap off. */
  function NewBoard(rows: int, cols: int): (b: Board)
    requires rows >= 1 && cols >= 1
    ensures Valid(b) && b.rows == rows && b.cols == cols && !b.wrap
    ensures forall r, c :: 0 <= r < rows && 0 <= c < cols ==> b.grid[r][c] == 0
  {
    Board(rows, cols, Clear(rows, cols), false)
  }

  datatype Command =
    | StepOnce
    | ToggleCell(r: int, c: int)
    | ClearCells
    | RandomizeCells(draw: (int, int) -> bool)
    | InsertNamed(name: string)
    | SetWrap(on: bool)

  /** One command; the size never changes and a valid board stays valid. */
  function Apply(b: Board, cmd: Command): (b': Board)
    requires Valid(b)
    ensures Valid(b') && b'.rows == b.rows && b'.cols == b.cols
    ensures !cmd.SetWrap? ==> b'.wrap == b.wrap
  {
    match cmd
    case StepOnce => b.(grid := Next(b.grid, b.rows, b.cols, b.wrap))
    case ToggleCell(r, c) =>
      ToggleKeepsBinary(b.grid, r, c);
      b.(grid := Toggle(b.grid, r, c))
    case ClearCells => b.(grid := Clear(b.rows, b.cols))
    case RandomizeCells(draw) => b.(grid := Randomize(b.rows, b.cols, draw))
    case InsertNamed(name) =>
      var g' := InsertSelected(b.grid, b.rows, b.cols, b.wrap, Catalog(), name);
      assert Binary(g') by {
        if name in Catalog() && |Catalog()[name]| > 0 {
          InsertOnlySetsAlive(b.grid, b.rows, b.cols, b.wrap, Catalog()[name]);
        }
      }
      b.(grid := g')
    case SetWrap(on) => b.(wrap := on)
  }

  /** A sequence of commands, in order. */
  function Run(b: Board, cmds: seq<Command>): (b': Board)
    requires Valid(b)
    ensures Valid(b') && b'.rows == b.rows && b'.cols == b.cols
    decreases |cmds|
  {
    if |cmds| == 0 then b else Run(Apply(b, cmds[0]), cmds[1..])
  }

  /** Every board the window can reach from a fresh one is valid. */
  lemma ReachableIsValid(rows: int, cols: int, cmds: seq<Command>)
    requires rows >= 1 && cols >= 1
    ensures Valid(Run(NewBoard(rows, cols), cmds))
    ensures Run(NewBoard(rows, cols), cmds).rows == rows
    ensures Run(NewBoard(rows, cols), cmds).cols == cols
  {
  }

  /** Clearing twice is clearing once. */
  lemma ClearIdempotent(b: Board)
    requires Valid(b)
    ensures Apply(Apply(b, ClearCells), ClearCells) == Apply(b, ClearCells)
  {
  }

  /** A cleared board is a still life under either boundary policy. */
  lemma ClearedBoardIsStill(b: Board)
    requires Valid(b)
    ensures Apply(Apply(b, ClearCells), StepOnce) == Apply(b, ClearCells)
  {
    EmptyStaysEmpty(b.rows, b.cols, b.wrap);
  }

  /** Flipping the same cell twice gives back the board. */
  lemma ToggleTwiceIsIdentity(b: Board, r: int, c: int)
    requires Valid(b)
    ensures Apply(Apply(b, ToggleCell(r, c)), ToggleCell(r, c)) == b
  {
    ToggleInvolution(b.grid, r, c);
  }

  /** Inserting a name the catalog does not hold changes nothing. */
  lemma UnknownPatternIsNoOp(b: Board, name: string)
    requires Valid(b) && name !in Catalog()
    ensures Apply(b, InsertNamed(name)) == b
  {
  }

  /** Inserting a name the catalog holds stamps that name's pattern in the centre. */
  lemma InsertNamedStamps(b: Board, name: string)
    requires Valid(b) && name in Catalog()
    ensures |Catalog()[name]| > 0
    ensures Apply(b, InsertNamed(name)).grid == InsertPatternCenter(b.grid, b.rows, b.cols, b.wrap, Catalog()[name])
  {
    InsertNamedLooksUp(b, name);
  }

  /** The insert command is the catalog lookup of `insert_selected_pattern`, whatever the name. */
  lemma InsertNamedLooksUp(b: Board, name: string)
    requires Valid(b)
    ensures Apply(b, InsertNamed(name)).grid == InsertSelected(b.grid, b.rows, b.cols, b.wrap, Catalog(), name)
  {
  }
}
