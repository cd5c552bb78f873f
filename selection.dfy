/**
 * Moving the selected square with the cursor keys (`fieldMove`). The
 * selection is a pair (x, y) with x the position within a line and y the
 * line; with automatic movement on, stepping off either end of a line wraps
 * to the neighbouring line, otherwise the step is clipped.
 */
module Selection {

  datatype Direction = Up | Left | Right | Down

  /** The position of square (x, y) when the lines are read top to bottom, left to right. */
  function ReadingIndex(x: int, y: int): int {
    9 * y + x
  }

  /**
   * The selection after one step in `direction`. With automatic movement,
   * Left and Right step backwards and forwards in reading order and stop at
   * the first and the last square; without it they stay on their line.
   */
  function Moved(x: int, y: int, direction: Direction, autoMove: bool): (r: (int, int))
    requires 0 <= x < 9 && 0 <= y < 9
    ensures 0 <= r.0 < 9 && 0 <= r.1 < 9
    ensures direction == Up ==> r.0 == x && r.1 == Max(y - 1, 0)
    ensures direction == Down ==> r.0 == x && r.1 == Min(y + 1, 8)
    ensures direction == Right && autoMove ==> ReadingIndex(r.0, r.1) == Min(ReadingIndex(x, y) + 1, 80)
    ensures direction == Left && autoMove ==> ReadingIndex(r.0, r.1) == Max(ReadingIndex(x, y) - 1, 0)
    ensures direction == Right && !autoMove ==> r.1 == y && r.0 == Min(x + 1, 8)
    ensures direction == Left && !autoMove ==> r.1 == y && r.0 == Max(x - 1, 0)
    decreases if direction == Left || direction == Right then 1 else 0
  {
    match direction
    case Up => (x, if y == 0 then 0 else y - 1)
    case Down => (x, if y == 8 then 8 else y + 1)
    case Left =>
      if x - 1 < 0 then
        if autoMove && y > 0 then Moved(8, y, Up, autoMove) else (0, y)
      else (x - 1, y)
    case Right =>
      if x + 1 == 9 then
        if autoMove && y < 8 then Moved(0, y, Down, autoMove) else (8, y)
      else (x + 1, y)
  }

  function Min(a: int, b: int): int { if a < b then a else b }
  function Max(a: int, b: int): int { if a < b then b else a }

  /** Two squares with the same reading position are the same square. */
  lemma ReadingIndexInjective(x: int, y: int, i: int, j: int)
    requires 0 <= x < 9 && 0 <= y < 9 && 0 <= i < 9 && 0 <= j < 9
    requires ReadingIndex(x, y) == ReadingIndex(i, j)
    ensures x == i && y == j
  {
  }

  /** A step left undoes a step right that was not stopped at the end. */
  lemma LeftUndoesRight(x: int, y: int, autoMove: bool)
    requires 0 <= x < 9 && 0 <= y < 9
    requires if autoMove then ReadingIndex(x, y) < 80 else x < 8
    ensures var (x1, y1) := Moved(x, y, Right, autoMove); Moved(x1, y1, Left, autoMove) == (x, y)
  {
    var (x1, y1) := Moved(x, y, Right, autoMove);
    var (x2, y2) := Moved(x1, y1, Left, autoMove);
    if autoMove {
      ReadingIndexInjective(x2, y2, x, y);
    }
  }

  /** A step right undoes a step left that was not stopped at the start. */
  lemma RightUndoesLeft(x: int, y: int, autoMove: bool)
    requires 0 <= x < 9 && 0 <= y < 9
    requires if autoMove then ReadingIndex(x, y) > 0 else x > 0
    ensures var (x1, y1) := Moved(x, y, Left, autoMove); Moved(x1, y1, Right, autoMove) == (x, y)
  {
    var (x1, y1) := Moved(x, y, Left, autoMove);
    var (x2, y2) := Moved(x1, y1, Right, autoMove);
    if autoMove {
      ReadingIndexInjective(x2, y2, x, y);
    }
  }
}
