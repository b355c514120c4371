/**
 One generation of `next_state`: every cell of a fresh grid is computed from
 the OLD grid alone, by the survival/birth rule applied to the cell's old value
 and its neighbour count.
 */
module Generation {
  import opened Grids
  import opened Neighbourhood

  /** Alive in the next generation: a cell holding 1 survives on 2 or 3 neighbours; any other cell is born on exactly 3. */
  predicate AliveNext(cell: int, n: int) {
    (cell == 1 && (n == 2 || n == 3)) || (cell != 1 && n == 3)
  }

  /** The rule for one cell, as the 0/1 value the grid stores. */
  function Rule(cell: int, n: int): int {
    if AliveNext(cell, n) then 1 else 0
  }

  /**
   The transitions `Rule` allows: a live cell lives on exactly when it has 2
   or 3 neighbours, any other cell comes alive exactly when it has 3, and
   nothing but 0 or 1 is ever stored.
   */
  lemma RuleCases(cell: int, n: int)
    ensures Rule(cell, n) == 0 || Rule(cell, n) == 1
    ensures cell == 1 ==> (Rule(cell, n) == 1 <==> n == 2 || n == 3)
    ensures cell != 1 ==> (Rule(cell, n) == 1 <==> n == 3)
  {
  }

  /** The next generation of a `rows` x `cols` grid under the given boundary policy. */
  function Next(g: Grid, rows: int, cols: int, wrap: bool): (ng: Grid)
    requires Shaped(g, rows, cols)
    ensures Shaped(ng, rows, cols) && Binary(ng)
    ensures forall r, c :: 0 <= r < rows && 0 <= c < cols ==>
      (ng[r][c] == 1 <==> AliveNext(g[r][c], Neighbours(g, rows, cols, wrap, r, c)))
  {
    seq(rows, r requires 0 <= r < rows =>
      seq(cols, c requires 0 <= c < cols => Rule(g[r][c], Neighbours(g, rows, cols, wrap, r, c))))
  }

  /** The generation loop: row by row, cell by cell, count then apply the rule. */
  method NextState(g: Grid, rows: int, cols: int, wrap: bool) returns (ng: Grid)
    requires Shaped(g, rows, cols)
    ensures ng == Next(g, rows, cols, wrap)
  {
    ghost var spec := Next(g, rows, cols, wrap);
    ng := [];
    var r := 0;
    while r < rows
      invariant 0 <= r <= rows
      invariant |ng| == r
      invariant forall i :: 0 <= i < r ==> ng[i] == spec[i]
    {
      var row: seq<int> := [];
      var c := 0;
      while c < cols
        invariant 0 <= c <= cols
        invariant |row| == c
        invariant forall j :: 0 <= j < c ==> row[j] == spec[r][j]
      {
        var n := CountNeighbours(g, rows, cols, wrap, r, c);
        var v := if g[r][c] == 1 then (if n == 2 || n == 3 then 1 else 0) else (if n == 3 then 1 else 0);
        row := row + [v];
        c := c + 1;
      }
      ng := ng + [row];
      r := r + 1;
    }
  }

  /**
   The next value of (r, c) depends only on the old value of (r, c) and the
   old values of the cells its eight offsets read.
   */
  lemma NextIsLocal(g: Grid, h: Grid, rows: int, cols: int, wrap: bool, r: int, c: int)
    requires Shaped(g, rows, cols) && Shaped(h, rows, cols) && InGrid(rows, cols, (r, c))
    requires g[r][c] == h[r][c]
    requires forall k :: 0 <= k < |Offsets| ==>
      Contribution(g, rows, cols, wrap, r, c, Offsets[k]) == Contribution(h, rows, cols, wrap, r, c, Offsets[k])
    ensures Next(g, rows, cols, wrap)[r][c] == Next(h, rows, cols, wrap)[r][c]
  {
    SumOverAgree(g, h, rows, cols, wrap, r, c, Offsets);
  }

  lemma {:induction false} SumOverAgree(g: Grid, h: Grid, rows: int, cols: int, wrap: bool, r: int, c: int, offs: seq<(int, int)>)
    requires Shaped(g, rows, cols) && Shaped(h, rows, cols) && InGrid(rows, cols, (r, c))
    requires forall k :: 0 <= k < |offs| ==>
      Contribution(g, rows, cols, wrap, r, c, offs[k]) == Contribution(h, rows, cols, wrap, r, c, offs[k])
    ensures SumOver(g, rows, cols, wrap, r, c, offs) == SumOver(h, rows, cols, wrap, r, c, offs)
  {
    if |offs| > 0 {
      var pre := offs[..|offs| - 1];
      assert forall k :: 0 <= k < |pre| ==> pre[k] == offs[k];
      SumOverAgree(g, h, rows, cols, wrap, r, c, pre);
    }
  }

  /** An empty grid has only zero counts ... */
  lemma {:induction false} SumOverEmpty(rows: int, cols: int, wrap: bool, r: int, c: int, offs: seq<(int, int)>)
    requires rows >= 0 && cols >= 0 && InGrid(rows, cols, (r, c))
    ensures SumOver(Clear(rows, cols), rows, cols, wrap, r, c, offs) == 0
  {
    if |offs| > 0 {
      SumOverEmpty(rows, cols, wrap, r, c, offs[..|offs| - 1]);
    }
  }

  /** ... so it stays empty: nothing is ever born from nothing. */
  lemma EmptyStaysEmpty(rows: nat, cols: nat, wrap: bool)
    ensures Next(Clear(rows, cols), rows, cols, wrap) == Clear(rows, cols)
  {
    var z := Clear(rows, cols);
    var nz := Next(z, rows, cols, wrap);
    forall r | 0 <= r < rows
      ensures nz[r] == z[r]
    {
      forall c | 0 <= c < cols
        ensures nz[r][c] == 0
      {
        SumOverEmpty(rows, cols, wrap, r, c, Offsets);
      }
    }
  }
}
