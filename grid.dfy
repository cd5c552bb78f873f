/**
 * The Sudoku grid as the engine sees it: 81 cells, the cell with coordinates
 * (x, y) stored at index 9 * x + y, which is how the C array `field[9][9]`,
 * indexed `field[x][y]`, is laid out in memory. 0 marks an empty cell and
 * 1..9 are digits.
 *
 * Three kinds of unit constrain a cell (x, y): the cells with the same x, the
 * cells with the same y, and the cells of the 3x3 block (x / 3, y / 3).
 */
module Grid {

  /** An unsigned 8-bit value (`uint8_t`). */
  type Byte = b: int | 0 <= b < 256

  /** Every cell is empty or holds a digit. */
  predicate WellFormed(g: seq<int>) {
    |g| == 81 && forall q | 0 <= q < 81 :: 0 <= g[q] <= 9
  }

  /** The value of cell (x, y). */
  function At(g: seq<int>, x: int, y: int): int
    requires |g| == 81 && 0 <= x < 9 && 0 <= y < 9
  {
    g[9 * x + y]
  }

  /** (i, j) has the same x, the same y, or lies in the same block as (x, y). */
  predicate SameUnit(x: int, y: int, i: int, j: int) {
    x == i || y == j || (x / 3 == i / 3 && y / 3 == j / 3)
  }

  /** Some cell sharing a unit with (x, y), (x, y) included, holds d. */
  predicate Excluded(g: seq<int>, x: int, y: int, d: int)
    requires |g| == 81
  {
    exists i, j | 0 <= i < 9 && 0 <= j < 9 && SameUnit(x, y, i, j) :: At(g, i, j) == d
  }

  /** No other cell sharing a unit with (x, y) holds the value of (x, y). */
  predicate CellValid(g: seq<int>, x: int, y: int)
    requires |g| == 81 && 0 <= x < 9 && 0 <= y < 9
  {
    forall i, j | 0 <= i < 9 && 0 <= j < 9 && (i != x || j != y) && SameUnit(x, y, i, j) ::
      At(g, i, j) != At(g, x, y)
  }

  /** Two different filled cells of one unit hold the same digit. */
  predicate Clash(g: seq<int>, x: int, y: int, i: int, j: int)
    requires |g| == 81
  {
    && 0 <= x < 9 && 0 <= y < 9 && 0 <= i < 9 && 0 <= j < 9
    && (i != x || j != y) && SameUnit(x, y, i, j)
    && At(g, x, y) != 0 && At(g, x, y) == At(g, i, j)
  }

  /** A finished grid: every cell holds a digit that no other cell of its units holds. */
  predicate Solved(h: seq<int>) {
    && |h| == 81
    && (forall q | 0 <= q < 81 :: 1 <= h[q] <= 9)
    && (forall x, y | 0 <= x < 9 && 0 <= y < 9 :: CellValid(h, x, y))
  }

  /**
   * h finishes g from position s on, in the order 9 * x + y: cells before s
   * keep their value, later filled cells keep theirs, later empty cells get a
   * digit, and every cell from s on is valid in h.
   */
  ghost predicate Completion(g: seq<int>, s: int, h: seq<int>)
    requires |g| == 81
  {
    && |h| == 81
    && (forall q | 0 <= q < 81 && q < s :: h[q] == g[q])
    && (forall q | 0 <= q < 81 && s <= q :: if g[q] == 0 then 1 <= h[q] <= 9 else h[q] == g[q])
    && (forall i, j | 0 <= i < 9 && 0 <= j < 9 && s <= 9 * i + j :: CellValid(h, i, j))
  }

  /** g has no completion from position s. */
  ghost predicate NoCompletion(g: seq<int>, s: int)
    requires |g| == 81
  {
    forall h :: !Completion(g, s, h)
  }

  /** a comes no later than b in lexicographic order. */
  ghost predicate LexNoLater(a: seq<int>, b: seq<int>) {
    a == b || exists k | 0 <= k < |a| && k < |b| :: a[..k] == b[..k] && a[k] < b[k]
  }

  /** h comes no later than any completion of g from position s. */
  ghost predicate Least(g: seq<int>, s: int, h: seq<int>)
    requires |g| == 81
  {
    forall h' | Completion(g, s, h') :: LexNoLater(h, h')
  }

  /** The number of empty cells. */
  function EmptyCount(g: seq<int>): nat {
    if g == [] then 0 else (if g[0] == 0 then 1 else 0) + EmptyCount(g[1..])
  }

  /** Filling an empty cell lowers the number of empty cells by one. */
  lemma {:induction false} EmptyCountFill(g: seq<int>, q: int, v: int)
    requires 0 <= q < |g| && g[q] == 0 && v != 0
    ensures EmptyCount(g[q := v]) == EmptyCount(g) - 1
  {
    if q == 0 {
      assert g[q := v][1..] == g[1..];
    } else {
      EmptyCountFill(g[1..], q - 1, v);
      assert g[q := v][1..] == g[1..][q - 1 := v];
    }
  }

  /** Different coordinates are different positions. */
  lemma PositionsDiffer(x: int, y: int, i: int, j: int)
    requires 0 <= x < 9 && 0 <= y < 9 && 0 <= i < 9 && 0 <= j < 9
    ensures 9 * x + y == 9 * i + j <==> x == i && y == j
  {
  }

  /** A completion of the whole grid is a finished grid that keeps every given digit. */
  lemma CompletionIsSolved(g: seq<int>, h: seq<int>)
    requires WellFormed(g) && Completion(g, 0, h)
    ensures Solved(h)
    ensures forall q | 0 <= q < 81 && g[q] != 0 :: h[q] == g[q]
  {
  }

  /** A grid in which two filled squares of one unit hold the same digit has no completion. */
  lemma ClashMeansNoCompletion(g: seq<int>, x: int, y: int, i: int, j: int)
    requires |g| == 81 && Clash(g, x, y, i, j)
    ensures NoCompletion(g, 0)
  {
    forall h | |h| == 81 && (forall q | 0 <= q < 81 && g[q] != 0 :: h[q] == g[q])
      ensures !CellValid(h, x, y)
    {
      PositionsDiffer(x, y, i, j);
      assert At(h, i, j) == At(h, x, y);
    }
  }

  /** The integers lo..hi-1 as a set. */
  function Range(lo: int, hi: int): (r: set<int>)
    decreases hi - lo
  {
    if lo >= hi then {} else Range(lo, hi - 1) + {hi - 1}
  }

  lemma {:induction false} RangeCount(lo: int, hi: int)
    requires lo <= hi
    ensures |Range(lo, hi)| == hi - lo
    ensures forall v :: v in Range(lo, hi) <==> lo <= v < hi
    decreases hi - lo
  {
    if lo < hi {
      RangeCount(lo, hi - 1);
    }
  }

  /** A sequence of distinct values taken from m is no longer than m is large. */
  lemma {:induction false} DistinctWithin(s: seq<int>, m: set<int>)
    requires forall k | 0 <= k < |s| :: s[k] in m
    requires forall k, l | 0 <= k < l < |s| :: s[k] != s[l]
    ensures |s| <= |m|
  {
    if |s| > 0 {
      var v := s[|s| - 1];
      DistinctWithin(s[..|s| - 1], m - {v});
      assert m == (m - {v}) + {v};
    }
  }

  /** n different values from 1..n are all of 1..n. */
  lemma DistinctCover(s: seq<int>, n: int)
    requires |s| == n && forall k | 0 <= k < n :: 1 <= s[k] <= n
    requires forall k, l | 0 <= k < l < n :: s[k] != s[l]
    ensures forall d | 1 <= d <= n :: d in s
  {
    RangeCount(1, n + 1);
    forall d | 1 <= d <= n ensures d in s {
      if d !in s {
        var m := Range(1, n + 1) - {d};
        assert Range(1, n + 1) == m + {d};
        DistinctWithin(s, m);
      }
    }
  }

  /** The line x, the line y and the block of (x, y) each hold digit d. */
  ghost predicate UnitsHold(h: seq<int>, x: int, y: int, d: int)
    requires |h| == 81 && 0 <= x < 9 && 0 <= y < 9
  {
    && (exists j | 0 <= j < 9 :: At(h, x, j) == d)
    && (exists i | 0 <= i < 9 :: At(h, i, y) == d)
    && (exists i, j | 0 <= i < 9 && 0 <= j < 9 && i / 3 == x / 3 && j / 3 == y / 3 :: At(h, i, j) == d)
  }

  /**
   * In a finished grid every unit holds every digit, and so, being free of
   * repeats, each digit exactly once.
   */
  lemma SolvedUnitsHoldEveryDigit(h: seq<int>)
    requires Solved(h)
    ensures forall x, y, d | 0 <= x < 9 && 0 <= y < 9 && 1 <= d <= 9 :: UnitsHold(h, x, y, d)
  {
    forall x, y, d | 0 <= x < 9 && 0 <= y < 9 && 1 <= d <= 9 ensures UnitsHold(h, x, y, d) {
      var line := seq(9, j requires 0 <= j < 9 => At(h, x, j));
      forall k, l | 0 <= k < l < 9 ensures line[k] != line[l] {
        assert CellValid(h, x, k) && SameUnit(x, k, x, l);
      }
      DistinctCover(line, 9);
      assert d in line;
      var j :| 0 <= j < 9 && line[j] == d;
      assert At(h, x, j) == d;

      var column := seq(9, i requires 0 <= i < 9 => At(h, i, y));
      forall k, l | 0 <= k < l < 9 ensures column[k] != column[l] {
        assert CellValid(h, k, y) && SameUnit(k, y, l, y);
      }
      DistinctCover(column, 9);
      assert d in column;
      var i :| 0 <= i < 9 && column[i] == d;
      assert At(h, i, y) == d;

      BlockHoldsEveryDigit(h, x / 3, y / 3, d);
    }
  }

  /** The square of block (blockX, blockY) at place k, row by row. */
  function BlockCell(blockX: int, blockY: int, k: int): (c: (int, int))
    requires 0 <= blockX < 3 && 0 <= blockY < 3 && 0 <= k < 9
    ensures 0 <= c.0 < 9 && 0 <= c.1 < 9 && c.0 / 3 == blockX && c.1 / 3 == blockY
  {
    var r := if k < 3 then 0 else if k < 6 then 1 else 2;
    (3 * blockX + r, 3 * blockY + (k - 3 * r))
  }

  lemma BlockHoldsEveryDigit(h: seq<int>, blockX: int, blockY: int, d: int)
    requires Solved(h) && 0 <= blockX < 3 && 0 <= blockY < 3 && 1 <= d <= 9
    ensures exists i, j | 0 <= i < 9 && 0 <= j < 9 && i / 3 == blockX && j / 3 == blockY :: At(h, i, j) == d
  {
    var block := seq(9, k requires 0 <= k < 9 => At(h, BlockCell(blockX, blockY, k).0, BlockCell(blockX, blockY, k).1));
    forall k, l | 0 <= k < l < 9 ensures block[k] != block[l] {
      var c, e := BlockCell(blockX, blockY, k), BlockCell(blockX, blockY, l);
      assert c != e;
      assert CellValid(h, c.0, c.1) && SameUnit(c.0, c.1, e.0, e.1);
    }
    DistinctCover(block, 9);
    assert d in block;
    var k :| 0 <= k < 9 && block[k] == d;
    var c := BlockCell(blockX, blockY, k);
    assert At(h, c.0, c.1) == d;
  }
}
