/**
 Concrete boards: the catalog's blinker oscillates with period two, and on a
 one-row torus the offset-multiplicity of the count decides a cell's fate.
 */
module Examples {
  import opened Grids
  import opened Neighbourhood
  import opened Generation
  import opened Patterns
  import opened Stamping
  import opened Engine

  const Horizontal: Grid := [
    [0, 0, 0],
    [1, 1, 1],
    [0, 0, 0]
  ]

  const Vertical: Grid := [
    [0, 1, 0],
    [0, 1, 0],
    [0, 1, 0]
  ]

  lemma RowOfThreeOrigin(p: Pattern)
    requires p == ["###"]
    ensures Origin(3, 3, p) == (1, 0)
  {
  }

  lemma RowOfThreeMarked(p: Pattern, j: int)
    requires p == ["###"] && 0 <= j < 3
    ensures Marked(p, (0, j))
  {
  }

  lemma ThreeByThreeStamp(z: Grid, p: Pattern, i: int, j: int)
    requires Shaped(z, 3, 3) && |p| == 1 && |p[0]| == 3 && 0 <= i < 3 && 0 <= j < 3
    requires Origin(3, 3, p) == (1, 0)
    ensures InsertPatternCenter(z, 3, 3, false, p)[i][j] == if Marked(p, (i - 1, j)) then 1 else z[i][j]
  {
    BoundedInsertClosedForm(z, 3, 3, p, i, j);
  }

  lemma BlinkerStampCell(z: Grid, p: Pattern, i: int, j: int)
    requires z == Clear(3, 3) && p == ["###"] && 0 <= i < 3 && 0 <= j < 3
    ensures InsertPatternCenter(z, 3, 3, false, p)[i][j] == if i == 1 then 1 else 0
  {
    RowOfThreeOrigin(p);
    ThreeByThreeStamp(z, p, i, j);
    if i == 1 {
      RowOfThreeMarked(p, j);
    }
  }

  /** A 3 x 3 grid whose middle row alone is alive is the horizontal blinker. */
  lemma IsHorizontal(g: Grid)
    requires Shaped(g, 3, 3)
    requires forall i, j :: 0 <= i < 3 && 0 <= j < 3 ==> g[i][j] == if i == 1 then 1 else 0
    ensures g == Horizontal
  {
    assert g[0] == Horizontal[0];
    assert g[1] == Horizontal[1];
    assert g[2] == Horizontal[2];
  }

  /** Stamping a row of three into an empty 3 x 3 grid fills the middle row. */
  lemma BlinkerStampedCentred(z: Grid, p: Pattern)
    requires z == Clear(3, 3) && p == ["###"]
    ensures InsertPatternCenter(z, 3, 3, false, p) == Horizontal
  {
    var g := InsertPatternCenter(z, 3, 3, false, p);
    forall i, j | 0 <= i < 3 && 0 <= j < 3
      ensures g[i][j] == if i == 1 then 1 else 0
    {
      BlinkerStampCell(z, p, i, j);
    }
    IsHorizontal(g);
  }

  lemma CatalogBlinker()
    ensures "Blinker" in Catalog() && Catalog()["Blinker"] == ["###"]
  {
  }

  /** Choosing "Blinker" in a fresh 3 x 3 window fills the middle row. */
  lemma BlinkerInsertedCentred()
    ensures Apply(NewBoard(3, 3), InsertNamed("Blinker")).grid == Horizontal
  {
    CatalogBlinker();
    InsertNamedStamps(NewBoard(3, 3), "Blinker");
    BlinkerStampedCentred(Clear(3, 3), Catalog()["Blinker"]);
  }

  /** A cell's rule value, with its count spelled out offset by offset. */
  lemma CellRule(g: Grid, rows: int, cols: int, wrap: bool, i: int, j: int, v: int)
    requires Shaped(g, rows, cols) && InGrid(rows, cols, (i, j))
    requires v == Rule(g[i][j],
      Contribution(g, rows, cols, wrap, i, j, (-1, -1)) + Contribution(g, rows, cols, wrap, i, j, (-1, 0))
      + Contribution(g, rows, cols, wrap, i, j, (-1, 1)) + Contribution(g, rows, cols, wrap, i, j, (0, -1))
      + Contribution(g, rows, cols, wrap, i, j, (0, 1)) + Contribution(g, rows, cols, wrap, i, j, (1, -1))
      + Contribution(g, rows, cols, wrap, i, j, (1, 0)) + Contribution(g, rows, cols, wrap, i, j, (1, 1)))
    ensures Rule(g[i][j], Neighbours(g, rows, cols, wrap, i, j)) == v
  {
    NeighboursExpand(g, rows, cols, wrap, i, j);
  }

  /** A grid that agrees with the rule at every cell is the next generation. */
  lemma NextFromRules(g: Grid, rows: int, cols: int, wrap: bool, h: Grid)
    requires Shaped(g, rows, cols) && Shaped(h, rows, cols)
    requires forall i, j :: 0 <= i < rows && 0 <= j < cols ==> h[i][j] == Rule(g[i][j], Neighbours(g, rows, cols, wrap, i, j))
    ensures Next(g, rows, cols, wrap) == h
  {
    var ng := Next(g, rows, cols, wrap);
    forall i | 0 <= i < rows
      ensures ng[i] == h[i]
    {
    }
  }

  // The blinker steps are proved one row at a time: each row lemma spells out
  // three cells, which keeps every proof small; `NextFromRules` then
  // assembles the grid.

  lemma HorizontalRow0(g: Grid)
    requires g == Horizontal
    ensures forall j :: 0 <= j < 3 ==> Vertical[0][j] == Rule(g[0][j], Neighbours(g, 3, 3, false, 0, j))
  {
    CellRule(g, 3, 3, false, 0, 0, 0);
    CellRule(g, 3, 3, false, 0, 1, 1);
    CellRule(g, 3, 3, false, 0, 2, 0);
  }

  lemma HorizontalRow1(g: Grid)
    requires g == Horizontal
    ensures forall j :: 0 <= j < 3 ==> Vertical[1][j] == Rule(g[1][j], Neighbours(g, 3, 3, false, 1, j))
  {
    CellRule(g, 3, 3, false, 1, 0, 0);
    CellRule(g, 3, 3, false, 1, 1, 1);
    CellRule(g, 3, 3, false, 1, 2, 0);
  }

  lemma HorizontalRow2(g: Grid)
    requires g == Horizontal
    ensures forall j :: 0 <= j < 3 ==> Vertical[2][j] == Rule(g[2][j], Neighbours(g, 3, 3, false, 2, j))
  {
    CellRule(g, 3, 3, false, 2, 0, 0);
    CellRule(g, 3, 3, false, 2, 1, 1);
    CellRule(g, 3, 3, false, 2, 2, 0);
  }

  lemma HorizontalTurns(g: Grid)
    requires g == Horizontal
    ensures Next(g, 3, 3, false) == Vertical
  {
    HorizontalRow0(g);
    HorizontalRow1(g);
    HorizontalRow2(g);
    NextFromRules(g, 3, 3, false, Vertical);
  }

  lemma VerticalRow0(g: Grid)
    requires g == Vertical
    ensures forall j :: 0 <= j < 3 ==> Horizontal[0][j] == Rule(g[0][j], Neighbours(g, 3, 3, false, 0, j))
  {
    CellRule(g, 3, 3, false, 0, 0, 0);
    CellRule(g, 3, 3, false, 0, 1, 0);
    CellRule(g, 3, 3, false, 0, 2, 0);
  }

  lemma VerticalRow1(g: Grid)
    requires g == Vertical
    ensures forall j :: 0 <= j < 3 ==> Horizontal[1][j] == Rule(g[1][j], Neighbours(g, 3, 3, false, 1, j))
  {
    CellRule(g, 3, 3, false, 1, 0, 1);
    CellRule(g, 3, 3, false, 1, 1, 1);
    CellRule(g, 3, 3, false, 1, 2, 1);
  }

  lemma VerticalRow2(g: Grid)
    requires g == Vertical
    ensures forall j :: 0 <= j < 3 ==> Horizontal[2][j] == Rule(g[2][j], Neighbours(g, 3, 3, false, 2, j))
  {
    CellRule(g, 3, 3, false, 2, 0, 0);
    CellRule(g, 3, 3, false, 2, 1, 0);
    CellRule(g, 3, 3, false, 2, 2, 0);
  }

  lemma VerticalTurns(g: Grid)
    requires g == Vertical
    ensures Next(g, 3, 3, false) == Horizontal
  {
    VerticalRow0(g);
    VerticalRow1(g);
    VerticalRow2(g);
    NextFromRules(g, 3, 3, false, Horizontal);
  }

  /** Bounded: the blinker flips between horizontal and vertical and back. */
  lemma BlinkerHasPeriodTwo()
    ensures Next(Horizontal, 3, 3, false) == Vertical
    ensures Next(Next(Horizontal, 3, 3, false), 3, 3, false) == Horizontal
    ensures Next(Horizontal, 3, 3, false) != Horizontal
  {
    HorizontalTurns(Horizontal);
    VerticalTurns(Vertical);
    assert Vertical[0][0] != Horizontal[1][0];
  }

  /**
   One-row torus: each cell of a full row of three reads the row above and the
   row below, which are its own row, so its count is 8 although only 2
   different cells neighbour it; the whole row dies.
   */
  lemma OneRowTorusCountsRowThrice()
    ensures Neighbours([[1, 1, 1]], 1, 3, true, 0, 1) == 8
    ensures Next([[1, 1, 1]], 1, 3, true) == [[0, 0, 0]]
  {
    var g := [[1, 1, 1]];
    CellRule(g, 1, 3, true, 0, 0, 0);
    CellRule(g, 1, 3, true, 0, 1, 0);
    CellRule(g, 1, 3, true, 0, 2, 0);
    NeighboursExpand(g, 1, 3, true, 0, 1);
    NextFromRules(g, 1, 3, true, [[0, 0, 0]]);
  }

  /** A lone cell on a 1 x 1 grid is its own eight torus neighbours and dies of overcrowding; bounded, it dies of loneliness. */
  lemma LoneCellOnTinyTorus()
    ensures Neighbours([[1]], 1, 1, true, 0, 0) == 8
    ensures Neighbours([[1]], 1, 1, false, 0, 0) == 0
    ensures Next([[1]], 1, 1, true) == [[0]]
    ensures Next([[1]], 1, 1, false) == [[0]]
  {
    NeighboursExpand([[1]], 1, 1, true, 0, 0);
    NeighboursExpand([[1]], 1, 1, false, 0, 0);
    NextFromRules([[1]], 1, 1, true, [[0]]);
    NextFromRules([[1]], 1, 1, false, [[0]]);
  }
}
