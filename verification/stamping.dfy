/**
 `insert_pattern_center` and the name lookup of `insert_selected_pattern`:
 a pattern is stamped so that its bounding box (height = number of rows, width
 = length of the FIRST row) sits in the middle of the grid.  Every `#` target
 cell is set to 1; under wrap the target is reduced modulo the grid size,
 otherwise a target off the grid is silently dropped.  No cell is ever set
 to 0.
 */
module Stamping {
  import opened Grids
  import opened Patterns

  /**
   The top-left corner `(rows // 2 - ph // 2, cols // 2 - pw // 2)`, with the
   height `ph` the number of rows and the width `pw` the length of the first
   row.  It centres the stamp to within half a cell: twice the top margin plus
   the height differs from the grid height by at most one, and likewise for
   the width.
   */
  function Origin(rows: nat, cols: nat, strings: Pattern): (o: (int, int))
    requires |strings| > 0
    ensures -1 <= 2 * o.0 + |strings| - rows <= 1
    ensures -1 <= 2 * o.1 + |strings[0]| - cols <= 1
  {
    (rows / 2 - |strings| / 2, cols / 2 - |strings[0]| / 2)
  }

  /**
   A pattern no taller and no wider (by its first row) than the grid has its
   whole bounding box on the grid, so bounded stamping clips none of it.
   */
  lemma SmallPatternFits(rows: nat, cols: nat, strings: Pattern)
    requires |strings| > 0 && |strings| <= rows && |strings[0]| <= cols
    ensures var o := Origin(rows, cols, strings);
      && 0 <= o.0 && o.0 + |strings| <= rows
      && 0 <= o.1 && o.1 + |strings[0]| <= cols
  {
  }

  /** Where offset `d` of a stamp placed at `o` lands, if anywhere. */
  function Place(rows: int, cols: int, wrap: bool, o: (int, int), d: (int, int)): Option<Cell>
    requires rows > 0 && cols > 0
  {
    Resolve(rows, cols, wrap, o.0 + d.0, o.1 + d.1)
  }

  /** Some offset of `offs`, placed at `o`, lands on cell `p`. */
  ghost predicate Hit(rows: int, cols: int, wrap: bool, o: (int, int), offs: seq<(int, int)>, p: Cell)
    requires rows > 0 && cols > 0
  {
    exists k :: 0 <= k < |offs| && Place(rows, cols, wrap, o, offs[k]) == Some(p)
  }

  lemma HitCons(rows: int, cols: int, wrap: bool, o: (int, int), offs: seq<(int, int)>, p: Cell)
    requires rows > 0 && cols > 0 && |offs| > 0
    ensures Hit(rows, cols, wrap, o, offs, p) <==>
      Place(rows, cols, wrap, o, offs[0]) == Some(p) || Hit(rows, cols, wrap, o, offs[1..], p)
  {
    if Hit(rows, cols, wrap, o, offs, p) {
      var k :| 0 <= k < |offs| && Place(rows, cols, wrap, o, offs[k]) == Some(p);
      if k > 0 {
        assert offs[1..][k - 1] == offs[k];
      }
    }
    if Hit(rows, cols, wrap, o, offs[1..], p) {
      var k :| 0 <= k < |offs[1..]| && Place(rows, cols, wrap, o, offs[1..][k]) == Some(p);
      assert offs[k + 1] == offs[1..][k];
    }
  }

  /** Set the cell `t` (if any) to 1. */
  function SetAlive(g: Grid, rows: int, cols: int, t: Option<Cell>): (g': Grid)
    requires Shaped(g, rows, cols) && (t.Some? ==> InGrid(rows, cols, t.value))
    ensures Shaped(g', rows, cols)
    ensures forall i, j :: 0 <= i < rows && 0 <= j < cols ==> g'[i][j] == (if t == Some((i, j)) then 1 else g[i][j])
  {
    if t.Some? then g[t.value.0 := g[t.value.0][t.value.1 := 1]] else g
  }

  /** Set the cell each offset of `offs` lands on, in list order. */
  function StampAll(g: Grid, rows: int, cols: int, wrap: bool, o: (int, int), offs: seq<(int, int)>): (g': Grid)
    requires rows > 0 && cols > 0 && Shaped(g, rows, cols)
    ensures Shaped(g', rows, cols)
    ensures forall i, j :: 0 <= i < rows && 0 <= j < cols ==>
      g'[i][j] == (if Hit(rows, cols, wrap, o, offs, (i, j)) then 1 else g[i][j])
    decreases |offs|
  {
    if |offs| == 0 then g
    else
      var g1 := SetAlive(g, rows, cols, Place(rows, cols, wrap, o, offs[0]));
      var g' := StampAll(g1, rows, cols, wrap, o, offs[1..]);
      assert forall i, j :: 0 <= i < rows && 0 <= j < cols ==>
        (Hit(rows, cols, wrap, o, offs, (i, j)) <==>
          Place(rows, cols, wrap, o, offs[0]) == Some((i, j)) || Hit(rows, cols, wrap, o, offs[1..], (i, j))) by {
        forall i, j | 0 <= i < rows && 0 <= j < cols {
          HitCons(rows, cols, wrap, o, offs, (i, j));
        }
      }
      g'
  }

  /** Some `#` of the pattern, placed at `o`, resolves to cell `p`. */
  ghost predicate Covers(rows: int, cols: int, wrap: bool, o: (int, int), strings: Pattern, p: Cell)
    requires rows > 0 && cols > 0
  {
    exists dr, dc :: 0 <= dr < |strings| && 0 <= dc < |strings[dr]| && strings[dr][dc] == '#'
      && Place(rows, cols, wrap, o, (dr, dc)) == Some(p)
  }

  /** The offsets of a pattern hit exactly the cells its `#` characters cover. */
  lemma HitIffCovers(rows: int, cols: int, wrap: bool, o: (int, int), strings: Pattern, p: Cell)
    requires rows > 0 && cols > 0
    ensures Hit(rows, cols, wrap, o, PatternOffsets(strings), p) <==> Covers(rows, cols, wrap, o, strings, p)
  {
    var offs := PatternOffsets(strings);
    if Hit(rows, cols, wrap, o, offs, p) {
      var k :| 0 <= k < |offs| && Place(rows, cols, wrap, o, offs[k]) == Some(p);
      assert offs[k] in offs;
      assert Marked(strings, offs[k]);
      assert strings[offs[k].0][offs[k].1] == '#';
    }
    if Covers(rows, cols, wrap, o, strings, p) {
      var dr, dc :| 0 <= dr < |strings| && 0 <= dc < |strings[dr]| && strings[dr][dc] == '#'
        && Place(rows, cols, wrap, o, (dr, dc)) == Some(p);
      assert Marked(strings, (dr, dc));
      assert (dr, dc) in offs;
      var k :| 0 <= k < |offs| && offs[k] == (dr, dc);
    }
  }

  /**
   `insert_pattern_center`: exactly the cells some `#` of the pattern lands on
   become 1; every other cell keeps its value.
   */
  function InsertPatternCenter(g: Grid, rows: int, cols: int, wrap: bool, strings: Pattern): (g': Grid)
    requires rows > 0 && cols > 0 && Shaped(g, rows, cols) && |strings| > 0
    ensures Shaped(g', rows, cols)
    ensures forall i, j :: 0 <= i < rows && 0 <= j < cols ==>
      g'[i][j] == (if Covers(rows, cols, wrap, Origin(rows, cols, strings), strings, (i, j)) then 1 else g[i][j])
  {
    var o := Origin(rows, cols, strings);
    var offs := PatternOffsets(strings);
    var g' := StampAll(g, rows, cols, wrap, o, offs);
    assert forall i, j :: 0 <= i < rows && 0 <= j < cols ==>
      (Hit(rows, cols, wrap, o, offs, (i, j)) <==> Covers(rows, cols, wrap, o, strings, (i, j))) by {
      forall i, j | 0 <= i < rows && 0 <= j < cols {
        HitIffCovers(rows, cols, wrap, o, strings, (i, j));
      }
    }
    g'
  }

  /** Stamping only ever turns cells on, so a 0/1 grid stays 0/1. */
  lemma InsertOnlySetsAlive(g: Grid, rows: int, cols: int, wrap: bool, strings: Pattern)
    requires rows > 0 && cols > 0 && Shaped(g, rows, cols) && |strings| > 0
    ensures var g' := InsertPatternCenter(g, rows, cols, wrap, strings);
      forall i, j :: 0 <= i < rows && 0 <= j < cols ==> g'[i][j] == 1 || g'[i][j] == g[i][j]
    ensures Binary(g) ==> Binary(InsertPatternCenter(g, rows, cols, wrap, strings))
  {
  }

  /**
   Bounded stamping in closed form: cell (i, j) becomes 1 exactly when the
   pattern has a `#` at (i - top, j - left).
   */
  lemma BoundedInsertClosedForm(g: Grid, rows: int, cols: int, strings: Pattern, i: int, j: int)
    requires rows > 0 && cols > 0 && Shaped(g, rows, cols) && |strings| > 0
    requires 0 <= i < rows && 0 <= j < cols
    ensures var o := Origin(rows, cols, strings);
      InsertPatternCenter(g, rows, cols, false, strings)[i][j]
        == if Marked(strings, (i - o.0, j - o.1)) then 1 else g[i][j]
  {
    var o := Origin(rows, cols, strings);
    if Marked(strings, (i - o.0, j - o.1)) {
      assert Place(rows, cols, false, o, (i - o.0, j - o.1)) == Some((i, j));
    }
  }

  /** Stamping the same pattern twice is stamping it once. */
  lemma InsertIdempotent(g: Grid, rows: int, cols: int, wrap: bool, strings: Pattern)
    requires rows > 0 && cols > 0 && Shaped(g, rows, cols) && |strings| > 0
    ensures var once := InsertPatternCenter(g, rows, cols, wrap, strings);
      InsertPatternCenter(once, rows, cols, wrap, strings) == once
  {
    var once := InsertPatternCenter(g, rows, cols, wrap, strings);
    var twice := InsertPatternCenter(once, rows, cols, wrap, strings);
    forall i | 0 <= i < rows
      ensures twice[i] == once[i]
    {
    }
  }

  /**
   `insert_selected_pattern`: a name the catalog does not hold, or one whose
   pattern has no rows, leaves the grid as it is; otherwise the named pattern
   is stamped in the centre.
   */
  function InsertSelected(g: Grid, rows: int, cols: int, wrap: bool, catalog: map<string, Pattern>, name: string): (g': Grid)
    requires rows > 0 && cols > 0 && Shaped(g, rows, cols)
    ensures Shaped(g', rows, cols)
    ensures name !in catalog ==> g' == g
    ensures name in catalog && |catalog[name]| == 0 ==> g' == g
    ensures name in catalog && |catalog[name]| > 0 ==> g' == InsertPatternCenter(g, rows, cols, wrap, catalog[name])
  {
    if name in catalog && |catalog[name]| > 0 then InsertPatternCenter(g, rows, cols, wrap, catalog[name])
    else g
  }
}
