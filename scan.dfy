/**
 * The order in which `fieldGetPossibleNumbers` visits the cells sharing a
 * unit with (x, y), and the digits it collects on the way.
 */
module Scan {
  import opened Grid

  /**
   * The k-th cell fieldGetPossibleNumbers looks at for (x, y): first row x
   * (the cells (x, 0..8)), then column y (the cells (0..8, y)), then the
   * block of (x, y) row by row.
   */
  function ScanCell(x: int, y: int, k: int): (c: (int, int))
    requires 0 <= x < 9 && 0 <= y < 9 && 0 <= k < 27
    ensures 0 <= c.0 < 9 && 0 <= c.1 < 9 && SameUnit(x, y, c.0, c.1)
  {
    if k < 9 then (x, k)
    else if k < 18 then (k - 9, y)
    else
      var r := if k < 21 then 0 else if k < 24 then 1 else 2;
      (x / 3 * 3 + r, y / 3 * 3 + (k - 18 - 3 * r))
  }

  function ScanIndex(x: int, y: int, k: int): (q: int)
    requires 0 <= x < 9 && 0 <= y < 9 && 0 <= k < 27
    ensures 0 <= q < 81
  {
    9 * ScanCell(x, y, k).0 + ScanCell(x, y, k).1
  }

  /** The block part of the scan visits cell (x / 3 * 3 + r, y / 3 * 3 + c) at step 18 + 3 * r + c. */
  lemma BlockScanCell(x: int, y: int, r: int, c: int)
    requires 0 <= x < 9 && 0 <= y < 9 && 0 <= r < 3 && 0 <= c < 3
    ensures ScanIndex(x, y, 18 + 3 * r + c) == 9 * (x / 3 * 3 + r) + y / 3 * 3 + c
  {
  }

  /** The digits of the first k scanned cells, in scan order, empty cells skipped (repetitions kept). */
  function Scanned(g: seq<int>, x: int, y: int, k: int): seq<int>
    requires |g| == 81 && 0 <= x < 9 && 0 <= y < 9 && 0 <= k <= 27
  {
    if k == 0 then []
    else if g[ScanIndex(x, y, k - 1)] != 0 then Scanned(g, x, y, k - 1) + [g[ScanIndex(x, y, k - 1)]]
    else Scanned(g, x, y, k - 1)
  }

  /** Step 18 + 3 * r + c of the scan appends the digit of block square (x / 3 * 3 + r, y / 3 * 3 + c), if any. */
  lemma BlockScanStep(g: seq<int>, x: int, y: int, r: int, c: int)
    requires |g| == 81 && 0 <= x < 9 && 0 <= y < 9 && 0 <= r < 3 && 0 <= c < 3
    ensures var q := 9 * (x / 3 * 3 + r) + y / 3 * 3 + c;
      0 <= q < 81 &&
      Scanned(g, x, y, 18 + 3 * r + c + 1) ==
        if g[q] != 0 then Scanned(g, x, y, 18 + 3 * r + c) + [g[q]] else Scanned(g, x, y, 18 + 3 * r + c)
  {
    BlockScanCell(x, y, r, c);
  }

  lemma {:induction false} ScannedMembers(g: seq<int>, x: int, y: int, k: int)
    requires |g| == 81 && 0 <= x < 9 && 0 <= y < 9 && 0 <= k <= 27
    ensures forall d :: d in Scanned(g, x, y, k) <==> d != 0 && exists t | 0 <= t < k :: g[ScanIndex(x, y, t)] == d
  {
    if k > 0 {
      ScannedMembers(g, x, y, k - 1);
    }
  }

  /** Every cell sharing a unit with (x, y) is scanned at some step. */
  lemma ScanReaches(x: int, y: int, i: int, j: int) returns (t: int)
    requires 0 <= x < 9 && 0 <= y < 9 && 0 <= i < 9 && 0 <= j < 9 && SameUnit(x, y, i, j)
    ensures 0 <= t < 27 && ScanIndex(x, y, t) == 9 * i + j
  {
    if i == x {
      t := j;
    } else if j == y {
      t := 9 + i;
    } else {
      var r, c := i - x / 3 * 3, j - y / 3 * 3;
      assert 0 <= r < 3 && 0 <= c < 3;
      BlockScanCell(x, y, r, c);
      t := 18 + 3 * r + c;
    }
  }

  /** A digit is among the scanned digits exactly when some cell sharing a unit with (x, y) holds it. */
  lemma ScannedCorrect(g: seq<int>, x: int, y: int)
    requires |g| == 81 && 0 <= x < 9 && 0 <= y < 9
    ensures forall d | 1 <= d <= 9 :: d in Scanned(g, x, y, 27) <==> Excluded(g, x, y, d)
  {
    ScannedMembers(g, x, y, 27);
    forall d | 1 <= d <= 9 && Excluded(g, x, y, d) ensures d in Scanned(g, x, y, 27) {
      var i, j :| 0 <= i < 9 && 0 <= j < 9 && SameUnit(x, y, i, j) && At(g, i, j) == d;
      var t := ScanReaches(x, y, i, j);
      assert g[ScanIndex(x, y, t)] == d;
    }
    forall d | d in Scanned(g, x, y, 27) ensures Excluded(g, x, y, d) {
      var t :| 0 <= t < 27 && g[ScanIndex(x, y, t)] == d;
      var c := ScanCell(x, y, t);
      assert At(g, c.0, c.1) == d;
    }
  }
}
