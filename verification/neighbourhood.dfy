/**
 The neighbour count of `next_state`: the sum of the old grid over the eight
 Moore offsets, each offset resolved by the boundary policy (clipped when
 bounded, wrapped when toroidal).

 The count is a sum over OFFSETS, not over distinct cells: on a torus with two
 or fewer rows (or columns) several offsets land on the same cell, or on the
 cell itself, and that cell is counted once per offset.  The lemmas below say
 exactly when the count equals the number of distinct live neighbour cells.
 */
module Neighbourhood {
  import opened Grids

  /** The eight Moore offsets in the order of the nested `dr`/`dc` loops, with (0, 0) skipped. */
  const Offsets: seq<(int, int)> := [(-1, -1), (-1, 0), (-1, 1), (0, -1), (0, 1), (1, -1), (1, 0), (1, 1)]

  /** A Moore offset: both components in {-1, 0, 1}, not both zero. */
  predicate IsMooreOffset(d: (int, int)) {
    -1 <= d.0 <= 1 && -1 <= d.1 <= 1 && d != (0, 0)
  }

  /** The cell that offset `d` of cell (r, c) reads, if any. */
  function Target(rows: int, cols: int, wrap: bool, r: int, c: int, d: (int, int)): Option<Cell>
    requires rows > 0 && cols > 0
  {
    Resolve(rows, cols, wrap, r + d.0, c + d.1)
  }

  /** What offset `d` adds to the count of (r, c): the old value it reads, or 0 when clipped. */
  function Contribution(g: Grid, rows: int, cols: int, wrap: bool, r: int, c: int, d: (int, int)): int
    requires Shaped(g, rows, cols) && InGrid(rows, cols, (r, c))
  {
    match Target(rows, cols, wrap, r, c, d)
    case Some(p) => g[p.0][p.1]
    case None => 0
  }

  /**
   What one offset reads, in the terms of the counting loop: under wrap the
   cell at the wrapped coordinate; bounded, the cell at the offset coordinate
   when it is on the grid and 0 when it is not.
   */
  lemma ContributionReads(g: Grid, rows: int, cols: int, wrap: bool, r: int, c: int, d: (int, int))
    requires Shaped(g, rows, cols) && InGrid(rows, cols, (r, c))
    ensures wrap ==> Contribution(g, rows, cols, wrap, r, c, d) == g[Wrap(r + d.0, rows)][Wrap(c + d.1, cols)]
    ensures !wrap && InGrid(rows, cols, (r + d.0, c + d.1)) ==> Contribution(g, rows, cols, wrap, r, c, d) == g[r + d.0][c + d.1]
    ensures !wrap && !InGrid(rows, cols, (r + d.0, c + d.1)) ==> Contribution(g, rows, cols, wrap, r, c, d) == 0
    ensures Binary(g) ==> Contribution(g, rows, cols, wrap, r, c, d) == 0 || Contribution(g, rows, cols, wrap, r, c, d) == 1
  {
  }

  /** The sum of the contributions of `offs`; on a 0/1 grid at most one per offset. */
  function SumOver(g: Grid, rows: int, cols: int, wrap: bool, r: int, c: int, offs: seq<(int, int)>): (n: int)
    requires Shaped(g, rows, cols) && InGrid(rows, cols, (r, c))
    ensures Binary(g) ==> 0 <= n <= |offs|
  {
    if |offs| == 0 then 0
    else SumOver(g, rows, cols, wrap, r, c, offs[..|offs| - 1]) + Contribution(g, rows, cols, wrap, r, c, offs[|offs| - 1])
  }

  /** The neighbour count `n` of cell (r, c). */
  function Neighbours(g: Grid, rows: int, cols: int, wrap: bool, r: int, c: int): (n: int)
    requires Shaped(g, rows, cols) && InGrid(rows, cols, (r, c))
    ensures Binary(g) ==> 0 <= n <= 8
  {
    SumOver(g, rows, cols, wrap, r, c, Offsets)
  }

  /** The counting loop: walks the offsets in order, accumulating what each reads. */
  method CountNeighbours(g: Grid, rows: int, cols: int, wrap: bool, r: int, c: int) returns (n: int)
    requires Shaped(g, rows, cols) && InGrid(rows, cols, (r, c))
    ensures n == Neighbours(g, rows, cols, wrap, r, c)
  {
    n := 0;
    var k := 0;
    while k < |Offsets|
      invariant 0 <= k <= |Offsets|
      invariant n == SumOver(g, rows, cols, wrap, r, c, Offsets[..k])
    {
      var rr := r + Offsets[k].0;
      var cc := c + Offsets[k].1;
      if wrap {
        rr := (rr + rows) % rows;
        cc := (cc + cols) % cols;
        n := n + g[rr][cc];
      } else if 0 <= rr < rows && 0 <= cc < cols {
        n := n + g[rr][cc];
      }
      assert Offsets[..k + 1][..k] == Offsets[..k];
      k := k + 1;
    }
    assert Offsets[..k] == Offsets;
  }

  /** Every entry of `Offsets` is a Moore offset, and every Moore offset is one of them. */
  lemma OffsetsAreMoore()
    ensures forall k :: 0 <= k < |Offsets| ==> IsMooreOffset(Offsets[k])
    ensures forall d :: IsMooreOffset(d) ==> d in Offsets
  {
    forall k | 0 <= k < |Offsets|
      ensures IsMooreOffset(Offsets[k])
    {
      assert Offsets[k] in Offsets;
    }
  }

  /** No offset appears twice in `Offsets`. */
  lemma OffsetsDistinct()
    ensures forall i, j :: 0 <= i < j < |Offsets| ==> Offsets[i] != Offsets[j]
  {
    forall i, j | 0 <= i < j < |Offsets|
      ensures Offsets[i] != Offsets[j]
    {
      assert Code(Offsets[i]) == i && Code(Offsets[j]) == j by {
        OffsetCode(i);
        OffsetCode(j);
      }
    }
  }

  /** The position of a Moore offset in `Offsets`. */
  function Code(d: (int, int)): int {
    var k := (d.0 + 1) * 3 + (d.1 + 1);
    if k > 4 then k - 1 else k
  }

  lemma OffsetCode(k: int)
    requires 0 <= k < |Offsets|
    ensures Code(Offsets[k]) == k
  {
  }

  /** The offset count expanded term by term, in loop order. */
  lemma NeighboursExpand(g: Grid, rows: int, cols: int, wrap: bool, r: int, c: int)
    requires Shaped(g, rows, cols) && InGrid(rows, cols, (r, c))
    ensures Neighbours(g, rows, cols, wrap, r, c)
      == Contribution(g, rows, cols, wrap, r, c, (-1, -1)) + Contribution(g, rows, cols, wrap, r, c, (-1, 0))
       + Contribution(g, rows, cols, wrap, r, c, (-1, 1)) + Contribution(g, rows, cols, wrap, r, c, (0, -1))
       + Contribution(g, rows, cols, wrap, r, c, (0, 1)) + Contribution(g, rows, cols, wrap, r, c, (1, -1))
       + Contribution(g, rows, cols, wrap, r, c, (1, 0)) + Contribution(g, rows, cols, wrap, r, c, (1, 1))
  {
    SumOverSnoc(g, rows, cols, wrap, r, c, Offsets, 0);
    SumOverSnoc(g, rows, cols, wrap, r, c, Offsets, 1);
    SumOverSnoc(g, rows, cols, wrap, r, c, Offsets, 2);
    SumOverSnoc(g, rows, cols, wrap, r, c, Offsets, 3);
    SumOverSnoc(g, rows, cols, wrap, r, c, Offsets, 4);
    SumOverSnoc(g, rows, cols, wrap, r, c, Offsets, 5);
    SumOverSnoc(g, rows, cols, wrap, r, c, Offsets, 6);
    SumOverSnoc(g, rows, cols, wrap, r, c, Offsets, 7);
    assert Offsets[..0] == [];
    assert Offsets[..8] == Offsets;
  }

  lemma SumOverSnoc(g: Grid, rows: int, cols: int, wrap: bool, r: int, c: int, offs: seq<(int, int)>, k: int)
    requires Shaped(g, rows, cols) && InGrid(rows, cols, (r, c)) && 0 <= k < |offs|
    ensures SumOver(g, rows, cols, wrap, r, c, offs[..k + 1])
      == SumOver(g, rows, cols, wrap, r, c, offs[..k]) + Contribution(g, rows, cols, wrap, r, c, offs[k])
  {
    assert offs[..k + 1][..k] == offs[..k];
  }

  /** Bounded: a corner cell has only three neighbours on the grid. */
  lemma BoundedCornerAtMostThree(g: Grid, rows: int, cols: int)
    requires rows > 0 && cols > 0 && Shaped(g, rows, cols) && Binary(g)
    ensures Neighbours(g, rows, cols, false, 0, 0) <= 3
  {
    NeighboursExpand(g, rows, cols, false, 0, 0);
  }

  /** Toroidal: the opposite corner (rows-1, cols-1) is the up-left neighbour of (0, 0). */
  lemma TorusCornerNeighbour(g: Grid, rows: int, cols: int)
    requires rows > 0 && cols > 0 && Shaped(g, rows, cols)
    ensures Target(rows, cols, true, 0, 0, (-1, -1)) == Some((rows - 1, cols - 1))
    ensures Contribution(g, rows, cols, true, 0, 0, (-1, -1)) == g[rows - 1][cols - 1]
  {
  }

  /** Toroidal, one row: the vertical offsets of (r, c) land back on (r, c) itself. */
  lemma OneRowTorusSeesItself(rows: int, cols: int, r: int, c: int)
    requires rows == 1 && cols > 0 && InGrid(rows, cols, (r, c))
    ensures Target(rows, cols, true, r, c, (-1, 0)) == Some((r, c))
    ensures Target(rows, cols, true, r, c, (1, 0)) == Some((r, c))
  {
    WrapNear(c, cols);
  }

  /** Toroidal, two rows: `dr = -1` and `dr = +1` read the same row. */
  lemma TwoRowTorusSeesRowTwice(rows: int, cols: int, r: int, c: int, dc: int)
    requires rows == 2 && cols > 0 && InGrid(rows, cols, (r, c))
    ensures Target(rows, cols, true, r, c, (-1, dc)) == Target(rows, cols, true, r, c, (1, dc))
  {
    WrapNear(r - 1, rows);
    WrapNear(r + 1, rows);
  }

  // ---------------------------------------------------------------------------
  // The count against the set of distinct live neighbour cells.

  /** The live cells that `offs` read, each once however many offsets reach it. */
  ghost function LiveTargets(g: Grid, rows: int, cols: int, wrap: bool, r: int, c: int, offs: seq<(int, int)>): set<Cell>
    requires Shaped(g, rows, cols) && InGrid(rows, cols, (r, c))
  {
    if |offs| == 0 then {}
    else
      var t := Target(rows, cols, wrap, r, c, offs[|offs| - 1]);
      LiveTargets(g, rows, cols, wrap, r, c, offs[..|offs| - 1])
        + (if t.Some? && g[t.value.0][t.value.1] == 1 then {t.value} else {})
  }

  /** No two offsets of `offs` read the same cell. */
  ghost predicate DistinctTargets(rows: int, cols: int, wrap: bool, r: int, c: int, offs: seq<(int, int)>)
    requires rows > 0 && cols > 0
  {
    forall i, j :: 0 <= i < j < |offs| && Target(rows, cols, wrap, r, c, offs[i]).Some? ==>
      Target(rows, cols, wrap, r, c, offs[i]) != Target(rows, cols, wrap, r, c, offs[j])
  }

  lemma {:induction false} LiveTargetsMembership(g: Grid, rows: int, cols: int, wrap: bool, r: int, c: int, offs: seq<(int, int)>, p: Cell)
    requires Shaped(g, rows, cols) && InGrid(rows, cols, (r, c))
    ensures p in LiveTargets(g, rows, cols, wrap, r, c, offs) <==>
      InGrid(rows, cols, p) && g[p.0][p.1] == 1
      && exists k :: 0 <= k < |offs| && Target(rows, cols, wrap, r, c, offs[k]) == Some(p)
  {
    if |offs| > 0 {
      var pre := offs[..|offs| - 1];
      LiveTargetsMembership(g, rows, cols, wrap, r, c, pre, p);
      if exists k :: 0 <= k < |pre| && Target(rows, cols, wrap, r, c, pre[k]) == Some(p) {
        var k :| 0 <= k < |pre| && Target(rows, cols, wrap, r, c, pre[k]) == Some(p);
        assert offs[k] == pre[k];
      }
      if exists k :: 0 <= k < |offs| && Target(rows, cols, wrap, r, c, offs[k]) == Some(p) {
        var k :| 0 <= k < |offs| && Target(rows, cols, wrap, r, c, offs[k]) == Some(p);
        if k < |pre| {
          assert pre[k] == offs[k];
        }
      }
    }
  }

  /**
   When the offsets read pairwise different cells, their sum on a 0/1 grid is
   the number of distinct live cells they read.
   */
  lemma {:induction false} SumIsLiveTargetCount(g: Grid, rows: int, cols: int, wrap: bool, r: int, c: int, offs: seq<(int, int)>)
    requires Shaped(g, rows, cols) && InGrid(rows, cols, (r, c)) && Binary(g)
    requires DistinctTargets(rows, cols, wrap, r, c, offs)
    ensures SumOver(g, rows, cols, wrap, r, c, offs) == |LiveTargets(g, rows, cols, wrap, r, c, offs)|
  {
    if |offs| > 0 {
      var last := |offs| - 1;
      var pre := offs[..last];
      DistinctPrefix(rows, cols, wrap, r, c, offs);
      SumIsLiveTargetCount(g, rows, cols, wrap, r, c, pre);
      var t := Target(rows, cols, wrap, r, c, offs[last]);
      if t.Some? && g[t.value.0][t.value.1] == 1 {
        NewTargetIsFresh(g, rows, cols, wrap, r, c, offs);
      }
    }
  }

  lemma DistinctPrefix(rows: int, cols: int, wrap: bool, r: int, c: int, offs: seq<(int, int)>)
    requires rows > 0 && cols > 0 && |offs| > 0
    requires DistinctTargets(rows, cols, wrap, r, c, offs)
    ensures DistinctTargets(rows, cols, wrap, r, c, offs[..|offs| - 1])
  {
    var pre := offs[..|offs| - 1];
    forall i, j | 0 <= i < j < |pre| && Target(rows, cols, wrap, r, c, pre[i]).Some?
      ensures Target(rows, cols, wrap, r, c, pre[i]) != Target(rows, cols, wrap, r, c, pre[j])
    {
      assert pre[i] == offs[i] && pre[j] == offs[j];
    }
  }

  /** With distinct targets, the cell the last offset reads is not read by any earlier one. */
  lemma NewTargetIsFresh(g: Grid, rows: int, cols: int, wrap: bool, r: int, c: int, offs: seq<(int, int)>)
    requires Shaped(g, rows, cols) && InGrid(rows, cols, (r, c)) && |offs| > 0
    requires DistinctTargets(rows, cols, wrap, r, c, offs)
    requires Target(rows, cols, wrap, r, c, offs[|offs| - 1]).Some?
    ensures Target(rows, cols, wrap, r, c, offs[|offs| - 1]).value !in LiveTargets(g, rows, cols, wrap, r, c, offs[..|offs| - 1])
  {
    var last := |offs| - 1;
    var pre := offs[..last];
    var p := Target(rows, cols, wrap, r, c, offs[last]).value;
    LiveTargetsMembership(g, rows, cols, wrap, r, c, pre, p);
  }

  /** Bounded: the live cells among the up to eight on-grid cells around (r, c). */
  ghost function LiveBoxNeighbours(g: Grid, rows: int, cols: int, r: int, c: int): set<Cell>
    requires Shaped(g, rows, cols)
  {
    set i, j | r - 1 <= i <= r + 1 && c - 1 <= j <= c + 1 && 0 <= i < rows && 0 <= j < cols
      && (i, j) != (r, c) && g[i][j] == 1 :: (i, j)
  }

  /** Bounded: the count of a cell is the number of live cells around it on the grid. */
  lemma BoundedCountIsLiveNeighbours(g: Grid, rows: int, cols: int, r: int, c: int)
    requires Shaped(g, rows, cols) && InGrid(rows, cols, (r, c)) && Binary(g)
    ensures Neighbours(g, rows, cols, false, r, c) == |LiveBoxNeighbours(g, rows, cols, r, c)|
  {
    BoundedTargetsDistinct(rows, cols, r, c);
    SumIsLiveTargetCount(g, rows, cols, false, r, c, Offsets);
    var live := LiveTargets(g, rows, cols, false, r, c, Offsets);
    forall p
      ensures p in live <==> p in LiveBoxNeighbours(g, rows, cols, r, c)
    {
      BoundedLiveTarget(g, rows, cols, r, c, p);
    }
    assert live == LiveBoxNeighbours(g, rows, cols, r, c);
  }

  lemma BoundedTargetsDistinct(rows: int, cols: int, r: int, c: int)
    requires rows > 0 && cols > 0
    ensures DistinctTargets(rows, cols, false, r, c, Offsets)
  {
    OffsetsDistinct();
  }

  lemma BoundedLiveTarget(g: Grid, rows: int, cols: int, r: int, c: int, p: Cell)
    requires Shaped(g, rows, cols) && InGrid(rows, cols, (r, c))
    ensures p in LiveTargets(g, rows, cols, false, r, c, Offsets) <==> p in LiveBoxNeighbours(g, rows, cols, r, c)
  {
    LiveTargetsMembership(g, rows, cols, false, r, c, Offsets, p);
    if p in LiveBoxNeighbours(g, rows, cols, r, c) {
      BoxCellIsTarget(rows, cols, r, c, p);
    }
    if p in LiveTargets(g, rows, cols, false, r, c, Offsets) {
      var k :| 0 <= k < |Offsets| && Target(rows, cols, false, r, c, Offsets[k]) == Some(p);
      OffsetsAreMoore();
      assert IsMooreOffset(Offsets[k]);
    }
  }

  lemma BoxCellIsTarget(rows: int, cols: int, r: int, c: int, p: Cell)
    requires rows > 0 && cols > 0 && InGrid(rows, cols, p)
    requires IsMooreOffset((p.0 - r, p.1 - c))
    ensures exists k :: 0 <= k < |Offsets| && Target(rows, cols, false, r, c, Offsets[k]) == Some(p)
  {
    var d := (p.0 - r, p.1 - c);
    OffsetsAreMoore();
    var k :| 0 <= k < |Offsets| && Offsets[k] == d;
    assert Target(rows, cols, false, r, c, Offsets[k]) == Some(p);
  }

  /** Toroidal: row `i` is row `r` or one of the two rows next to it around the torus. */
  predicate CyclicNear(i: int, r: int, n: int)
    requires n > 0
  {
    i == Wrap(r - 1, n) || i == r || i == Wrap(r + 1, n)
  }

  /** Toroidal: the live cells among the distinct cells around (r, c) on the torus. */
  ghost function LiveTorusNeighbours(g: Grid, rows: int, cols: int, r: int, c: int): set<Cell>
    requires Shaped(g, rows, cols) && rows > 0 && cols > 0
  {
    set i, j | 0 <= i < rows && 0 <= j < cols && CyclicNear(i, r, rows) && CyclicNear(j, c, cols)
      && (i, j) != (r, c) && g[i][j] == 1 :: (i, j)
  }

  /** With at least three rows, the wrapped rows r-1, r, r+1 are pairwise different. */
  lemma WrapSeparates(r: int, n: int, a: int, b: int)
    requires n >= 3 && 0 <= r < n && -1 <= a <= 1 && -1 <= b <= 1
    ensures Wrap(r + a, n) == Wrap(r + b, n) <==> a == b
  {
    WrapNear(r + a, n);
    WrapNear(r + b, n);
  }

  /**
   Toroidal, at least three rows and three columns: the eight offsets read eight
   different cells, none of them (r, c), so the count is the number of live
   cells around (r, c) on the torus.
   */
  lemma TorusCountIsLiveNeighbours(g: Grid, rows: int, cols: int, r: int, c: int)
    requires Shaped(g, rows, cols) && InGrid(rows, cols, (r, c)) && Binary(g)
    requires rows >= 3 && cols >= 3
    ensures Neighbours(g, rows, cols, true, r, c) == |LiveTorusNeighbours(g, rows, cols, r, c)|
  {
    TorusTargetsDistinct(rows, cols, r, c);
    SumIsLiveTargetCount(g, rows, cols, true, r, c, Offsets);
    var live := LiveTargets(g, rows, cols, true, r, c, Offsets);
    forall p
      ensures p in live <==> p in LiveTorusNeighbours(g, rows, cols, r, c)
    {
      TorusLiveTarget(g, rows, cols, r, c, p);
    }
    assert live == LiveTorusNeighbours(g, rows, cols, r, c);
  }

  lemma TorusTargetsDistinct(rows: int, cols: int, r: int, c: int)
    requires InGrid(rows, cols, (r, c)) && rows >= 3 && cols >= 3
    ensures DistinctTargets(rows, cols, true, r, c, Offsets)
  {
    OffsetsAreMoore();
    OffsetsDistinct();
    forall i, j | 0 <= i < j < |Offsets|
      ensures Target(rows, cols, true, r, c, Offsets[i]) != Target(rows, cols, true, r, c, Offsets[j])
    {
      WrapSeparates(r, rows, Offsets[i].0, Offsets[j].0);
      WrapSeparates(c, cols, Offsets[i].1, Offsets[j].1);
    }
  }

  lemma TorusLiveTarget(g: Grid, rows: int, cols: int, r: int, c: int, p: Cell)
    requires Shaped(g, rows, cols) && InGrid(rows, cols, (r, c)) && rows >= 3 && cols >= 3
    ensures p in LiveTargets(g, rows, cols, true, r, c, Offsets) <==> p in LiveTorusNeighbours(g, rows, cols, r, c)
  {
    LiveTargetsMembership(g, rows, cols, true, r, c, Offsets, p);
    if p in LiveTorusNeighbours(g, rows, cols, r, c) {
      TorusCellIsTarget(rows, cols, r, c, p);
    }
    if p in LiveTargets(g, rows, cols, true, r, c, Offsets) {
      var k :| 0 <= k < |Offsets| && Target(rows, cols, true, r, c, Offsets[k]) == Some(p);
      OffsetsAreMoore();
      TorusTargetIsNear(rows, cols, r, c, Offsets[k]);
    }
  }

  /** Every cell around (r, c) on the torus is read by some offset. */
  lemma TorusCellIsTarget(rows: int, cols: int, r: int, c: int, p: Cell)
    requires InGrid(rows, cols, (r, c)) && InGrid(rows, cols, p) && rows >= 3 && cols >= 3
    requires CyclicNear(p.0, r, rows) && CyclicNear(p.1, c, cols) && p != (r, c)
    ensures exists k :: 0 <= k < |Offsets| && Target(rows, cols, true, r, c, Offsets[k]) == Some(p)
  {
    var dr := if p.0 == r then 0 else if p.0 == Wrap(r - 1, rows) then -1 else 1;
    var dc := if p.1 == c then 0 else if p.1 == Wrap(c - 1, cols) then -1 else 1;
    WrapNear(r, rows);
    WrapNear(c, cols);
    assert Target(rows, cols, true, r, c, (dr, dc)) == Some(p);
    OffsetsAreMoore();
    assert IsMooreOffset((dr, dc));
    var k :| 0 <= k < |Offsets| && Offsets[k] == (dr, dc);
  }

  /** Every offset reads a cell around (r, c) on the torus, never (r, c) itself. */
  lemma TorusTargetIsNear(rows: int, cols: int, r: int, c: int, d: (int, int))
    requires InGrid(rows, cols, (r, c)) && rows >= 3 && cols >= 3 && IsMooreOffset(d)
    ensures var p := Target(rows, cols, true, r, c, d).value;
      CyclicNear(p.0, r, rows) && CyclicNear(p.1, c, cols) && p != (r, c)
  {
    WrapSeparates(r, rows, 0, d.0);
    WrapSeparates(c, cols, 0, d.1);
    WrapNear(r, rows);
    WrapNear(c, cols);
  }
}
