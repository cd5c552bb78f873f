/**
 * The facts behind the backtracking search `fieldFillNextSquare`: the order in
 * which it visits cells and how the completions of a grid from one position
 * relate to those from the next.
 */
module Search {
  import opened Grid

  /**
   * The position of the first cell that fillNextSquare(x, y) visits, 81 when
   * it visits none: a y past the last cell moves to y = 0 of the next x
   * (uint8_t arithmetic), and an x past the last cell means the grid is done.
   */
  function Start(x: Byte, y: Byte): (s: int)
    ensures 0 <= s <= 81
    ensures x < 9 && y < 9 ==> s == 9 * x + y
    ensures x < 9 && y == 9 ==> s == 9 * x + 9
  {
    var nx := if y >= 9 then (x + 1) % 256 else x;
    var ny := if y >= 9 then 0 else y;
    if nx >= 9 then 81 else 9 * nx + ny
  }

  /** From the position past the last cell, the only completion is the grid itself. */
  lemma CompletionAtEnd(g: seq<int>)
    requires |g| == 81
    ensures Completion(g, 81, g) && Least(g, 81, g)
  {
    forall h | Completion(g, 81, h) ensures LexNoLater(g, h) {
      assert h == g;
    }
  }

  /**
   * At a filled cell, the completions from its position are those from the
   * next position, provided the cell is valid; there are none otherwise.
   */
  lemma FixedCellStep(g: seq<int>, x: int, y: int, p: int)
    requires |g| == 81 && 0 <= x < 9 && 0 <= y < 9 && p == 9 * x + y && At(g, x, y) != 0
    ensures forall h :: Completion(g, p, h) <==> CellValid(g, x, y) && Completion(g, p + 1, h)
  {
    forall h | Completion(g, p, h) ensures CellValid(g, x, y) {
      assert CellValid(h, x, y);
      forall i, j | 0 <= i < 9 && 0 <= j < 9 && (i != x || j != y) && SameUnit(x, y, i, j)
        ensures At(g, i, j) != At(g, x, y)
      {
        PositionsDiffer(x, y, i, j);
      }
    }
    forall h | CellValid(g, x, y) && Completion(g, p + 1, h) ensures CellValid(h, x, y) {
      forall i, j | 0 <= i < 9 && 0 <= j < 9 && (i != x || j != y) && SameUnit(x, y, i, j)
        ensures At(h, i, j) != At(h, x, y)
      {
        PositionsDiffer(x, y, i, j);
        if p < 9 * i + j {
          assert CellValid(h, i, j) && SameUnit(i, j, x, y);
        }
      }
    }
  }

  /** At an empty cell, the completions that put d there are those of the grid with d placed. */
  lemma EmptyCellStep(g: seq<int>, x: int, y: int, p: int, d: int)
    requires |g| == 81 && 0 <= x < 9 && 0 <= y < 9 && p == 9 * x + y && At(g, x, y) == 0 && 1 <= d <= 9
    ensures forall h :: Completion(g, p, h) && h[p] == d <==> Completion(g[p := d], p, h)
  {
  }

  /** A digit that is invalid at (x, y), or leaves nothing to complete, is in no completion. */
  lemma DigitRejected(g: seq<int>, x: int, y: int, p: int, d: int)
    requires |g| == 81 && 0 <= x < 9 && 0 <= y < 9 && p == 9 * x + y && At(g, x, y) == 0 && 1 <= d <= 9
    requires !CellValid(g[p := d], x, y) || NoCompletion(g[p := d], p + 1)
    ensures forall h | Completion(g, p, h) :: h[p] != d
  {
    EmptyCellStep(g, x, y, p, d);
    FixedCellStep(g[p := d], x, y, p);
  }

  /**
   * When no completion puts a digit below d at (x, y), the first completion
   * with d placed is the first completion of the grid.
   */
  lemma DigitAccepted(g: seq<int>, x: int, y: int, p: int, d: int, h: seq<int>)
    requires |g| == 81 && 0 <= x < 9 && 0 <= y < 9 && p == 9 * x + y && At(g, x, y) == 0 && 1 <= d <= 9
    requires forall h' | Completion(g, p, h') :: h'[p] >= d
    requires CellValid(g[p := d], x, y)
    requires Completion(g[p := d], p + 1, h) && Least(g[p := d], p + 1, h)
    ensures Completion(g, p, h) && Least(g, p, h)
  {
    EmptyCellStep(g, x, y, p, d);
    FixedCellStep(g[p := d], x, y, p);
    forall h' | Completion(g, p, h') ensures LexNoLater(h, h') {
      if h'[p] != d {
        assert h[..p] == h'[..p];
      }
    }
  }

  /** At a valid filled cell, the first completion from the next position is the first from this one. */
  lemma FixedCellLeast(g: seq<int>, x: int, y: int, h: seq<int>)
    requires |g| == 81 && 0 <= x < 9 && 0 <= y < 9 && At(g, x, y) != 0 && CellValid(g, x, y)
    requires Least(g, 9 * x + y + 1, h)
    ensures Least(g, 9 * x + y, h)
  {
    FixedCellStep(g, x, y, 9 * x + y);
  }
}
