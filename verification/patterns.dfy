/**
 Stamp patterns: a pattern is a list of text rows in which `#` marks a live
 cell.  `pattern_offsets` turns it into the row-major list of the (row, column)
 positions of its `#` characters.  The window's catalog maps names to patterns.
 */
module Patterns {

  type Pattern = seq<string>

  /** Row-major order on positions: by row, then by column. */
  predicate Before(a: (int, int), b: (int, int)) {
    a.0 < b.0 || (a.0 == b.0 && a.1 < b.1)
  }

  /** Strictly increasing in row-major order (hence free of duplicates). */
  predicate RowMajor(offs: seq<(int, int)>) {
    forall i, j :: 0 <= i < j < |offs| ==> Before(offs[i], offs[j])
  }

  /** Position (r, c) of `strings` holds a `#`. */
  predicate Marked(strings: Pattern, p: (int, int)) {
    0 <= p.0 < |strings| && 0 <= p.1 < |strings[p.0]| && strings[p.0][p.1] == '#'
  }

  /** The `#` positions of one row `row`, which is row number `r` of its pattern, left to right. */
  function RowOffsets(row: string, r: int): (offs: seq<(int, int)>)
    ensures forall p :: p in offs <==> p.0 == r && 0 <= p.1 < |row| && row[p.1] == '#'
    ensures RowMajor(offs)
  {
    if |row| == 0 then []
    else
      var last := |row| - 1;
      var pre := RowOffsets(row[..last], r);
      assert forall p :: p in pre ==> p.1 < last;
      pre + (if row[last] == '#' then [(r, last)] else [])
  }

  /** `pattern_offsets`: every `#` position of the pattern, in row-major order. */
  function PatternOffsets(strings: Pattern): (offs: seq<(int, int)>)
    ensures forall p :: p in offs <==> Marked(strings, p)
    ensures RowMajor(offs)
  {
    if |strings| == 0 then []
    else
      var last := |strings| - 1;
      var pre := PatternOffsets(strings[..last]);
      assert forall p :: p in pre ==> p.0 < last;
      pre + RowOffsets(strings[last], last)
  }

  /** No position is listed twice. */
  lemma PatternOffsetsDistinct(strings: Pattern)
    ensures var offs := PatternOffsets(strings);
      forall i, j :: 0 <= i < |offs| && 0 <= j < |offs| && i != j ==> offs[i] != offs[j]
  {
    var offs := PatternOffsets(strings);
    forall i, j | 0 <= i < |offs| && 0 <= j < |offs| && i != j
      ensures offs[i] != offs[j]
    {
      if i < j {
        assert Before(offs[i], offs[j]);
      } else {
        assert Before(offs[j], offs[i]);
      }
    }
  }

  /** Two lists that hold the same positions in strictly row-major order are the same list. */
  lemma {:induction false} RowMajorUnique(a: seq<(int, int)>, b: seq<(int, int)>)
    requires RowMajor(a) && RowMajor(b)
    requires forall p :: p in a <==> p in b
    ensures a == b
  {
    assert |a| > 0 ==> a[0] in b;
    assert |b| > 0 ==> b[0] in a;
    if |a| > 0 && |b| > 0 {
      // the first element of each is the least position of the common set
      assert a[0] in b;
      assert b[0] in a;
      var i :| 0 <= i < |b| && b[i] == a[0];
      var j :| 0 <= j < |a| && a[j] == b[0];
      assert a[0] == b[0];
      forall p
        ensures p in a[1..] <==> p in b[1..]
      {
        if p in a[1..] {
          var k :| 1 <= k < |a| && a[k] == p;
          assert Before(a[0], a[k]);
          assert p in b;
          var m :| 0 <= m < |b| && b[m] == p;
          assert m != 0;
          assert b[1..][m - 1] == p;
        }
        if p in b[1..] {
          var k :| 1 <= k < |b| && b[k] == p;
          assert Before(b[0], b[k]);
          assert p in a;
          var m :| 0 <= m < |a| && a[m] == p;
          assert m != 0;
          assert a[1..][m - 1] == p;
        }
      }
      RowMajorUnique(a[1..], b[1..]);
      assert a == [a[0]] + a[1..];
      assert b == [b[0]] + b[1..];
    }
  }

  /**
   `pattern_offsets` is characterised by its contract: any list of exactly the
   `#` positions in strictly row-major order is its result.
   */
  lemma PatternOffsetsUnique(strings: Pattern, offs: seq<(int, int)>)
    requires RowMajor(offs)
    requires forall p :: p in offs <==> Marked(strings, p)
    ensures offs == PatternOffsets(strings)
  {
    RowMajorUnique(offs, PatternOffsets(strings));
  }

  /**
   The window's pattern catalog, name to rows.  Every entry has at least one
   row, so the lookup never meets an empty pattern.
   */
  function Catalog(): (c: map<string, Pattern>)
    ensures forall name :: name in c ==> |c[name]| > 0
  {
    map[
      "Glider" := [".#.", "..#", "###"],
      "Pulsar" := [
        "..###...###..",
        "............",
        "#....#.#....#",
        "#....#.#....#",
        "#....#.#....#",
        "..###...###..",
        "............",
        "..###...###..",
        "#....#.#....#",
        "#....#.#....#",
        "#....#.#....#",
        "............",
        "..###...###.."
      ],
      "Spaceship (LWSS)" := [".#..#", "#....", "#...#", "####."],
      "Blinker" := ["###"],
      "Toad" := [".###", "###."],
      "Beacon" := ["##..", "##..", "..##", "..##"],
      "Block" := ["##", "##"],
      "Boat" := ["#..", ".##", ".#."],
      "Loaf" := [".##.", "#..#", ".#.#", "..#."],
      "Tub" := [".#.", "#.#", ".#."],
      "Pentomino R" := ["..#", ".##", ".#."]
    ]
  }

  /** Every row of every catalog entry is written in `.` and `#` only. */
  lemma CatalogRowsAreDotsAndHashes()
    ensures forall name, i, j :: name in Catalog() && 0 <= i < |Catalog()[name]| && 0 <= j < |Catalog()[name][i]| ==>
      Catalog()[name][i][j] in ".#"
  {
  }
}
