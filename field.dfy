/**
 * The game field (`field.c`): the 9x9 grid of squares, the selected square
 * and the operations the window binds to keys — moving the selection,
 * entering a digit, clearing the grid, the naked-single simplifier and the
 * backtracking solver.
 */
module SudokuField {
  import opened Grid
  import opened Simplification
  import opened Scan
  import opened Search
  import opened Selection
  import opened Stacks

  class Field {
    /** `field[x][y]`, stored at index 9 * x + y. */
    const cells: array<int>
    var selectionX: int
    var selectionY: int
    var autoMove: bool

    /** 81 squares, each empty or holding a digit, and the selection on the grid. */
    ghost predicate Valid()
      reads this, cells
    {
      cells.Length == 81 && WellFormed(cells[..]) && 0 <= selectionX < 9 && 0 <= selectionY < 9
    }

    /** The static initial state: an empty grid, the top-left square selected, automatic movement on. */
    constructor ()
      ensures Valid() && fresh(cells)
      ensures forall q | 0 <= q < 81 :: cells[q] == 0
      ensures selectionX == 0 && selectionY == 0 && autoMove
    {
      cells := new int[81](_ => 0);
      selectionX, selectionY := 0, 0;
      autoMove := true;
    }

    /** fieldMove: one step of the selection; Left and Right wrap to the neighbouring line when `autoMove` is on. */
    method Move(direction: Direction)
      requires Valid()
      modifies this
      ensures Valid() && autoMove == old(autoMove)
      ensures (selectionX, selectionY) == Moved(old(selectionX), old(selectionY), direction, autoMove)
      decreases if direction == Left || direction == Right then 1 else 0
    {
      match direction
      case Up =>
        selectionY := if selectionY == 0 then 0 else selectionY - 1;
      case Left =>
        selectionX := selectionX - 1;
        if selectionX < 0 {
          if autoMove && selectionY > 0 {
            selectionX := 8;
            Move(Up);
          } else {
            selectionX := 0;
          }
        }
      case Right =>
        selectionX := selectionX + 1;
        if selectionX == 9 {
          if autoMove && selectionY < 8 {
            selectionX := 0;
            Move(Down);
          } else {
            selectionX := 8;
          }
        }
      case Down =>
        selectionY := if selectionY == 8 then 8 else selectionY + 1;
    }

    /** fieldSetValue: write a digit, or 0 to empty the square, into the selected square, then step right when `autoMove` is on. */
    method SetValue(value: int)
      requires Valid() && 0 <= value <= 9
      modifies this, cells
      ensures Valid() && autoMove == old(autoMove)
      ensures cells[..] == old(cells[..])[9 * old(selectionX) + old(selectionY) := value]
      ensures (selectionX, selectionY) ==
        if autoMove then Moved(old(selectionX), old(selectionY), Right, autoMove) else (old(selectionX), old(selectionY))
    {
      cells[9 * selectionX + selectionY] := value;
      if autoMove {
        Move(Right);
      }
    }

    /** fieldClear: once the user confirms, empty every square; the selection stays. */
    method Clear(confirmed: bool)
      requires Valid()
      modifies cells
      ensures Valid()
      ensures confirmed ==> forall x, y | 0 <= x < 9 && 0 <= y < 9 :: At(cells[..], x, y) == 0
      ensures !confirmed ==> cells[..] == old(cells[..])
    {
      if !confirmed {
        return;
      }
      forall q | 0 <= q < 81 {
        cells[q] := 0;
      }
    }

    /**
     * fieldIsSquareValid: the value of (x, y) occurs nowhere else in its line
     * x, its line y or its block. The block scan skips the squares that share
     * x or y with (x, y); the first two scans have covered those.
     */
    method IsSquareValid(x: int, y: int) returns (valid: bool)
      requires Valid() && 0 <= x < 9 && 0 <= y < 9
      ensures valid <==> CellValid(cells[..], x, y)
    {
      ghost var g := cells[..];
      var val := cells[9 * x + y];
      assert val == At(g, x, y);

      var col := 0;
      while col < 9
        invariant 0 <= col <= 9
        invariant forall j | 0 <= j < col && j != y :: At(g, x, j) != val
      {
        if cells[9 * x + col] == val && col != y {
          assert At(g, x, col) == val && SameUnit(x, y, x, col);
          return false;
        }
        col := col + 1;
      }

      var row := 0;
      while row < 9
        invariant 0 <= row <= 9
        invariant forall i | 0 <= i < row && i != x :: At(g, i, y) != val
      {
        if cells[9 * row + y] == val && row != x {
          assert At(g, row, y) == val && SameUnit(x, y, row, y);
          return false;
        }
        row := row + 1;
      }

      valid := IsBlockValid(x, y, val);
    }

    /**
     * The block scan of fieldIsSquareValid: no square of the block of (x, y)
     * outside line x and line y holds val.
     */
    method IsBlockValid(x: int, y: int, val: int) returns (valid: bool)
      requires cells.Length == 81 && 0 <= x < 9 && 0 <= y < 9
      ensures valid <==> forall i, j | 0 <= i < 9 && 0 <= j < 9 && i != x && j != y && SameUnit(x, y, i, j) ::
        At(cells[..], i, j) != val
    {
      ghost var g := cells[..];
      var squareX := x / 3;
      var squareY := y / 3;
      var row := 0;
      while row < 3
        invariant 0 <= row <= 3
        invariant forall i, j | 3 * squareX <= i < 3 * squareX + row && 3 * squareY <= j < 3 * squareY + 3 && i != x && j != y ::
          At(g, i, j) != val
      {
        var col := 0;
        ghost var i0 := squareX * 3 + row;
        while col < 3
          invariant 0 <= col <= 3
          invariant forall i, j | 3 * squareX <= i < 3 * squareX + row && 3 * squareY <= j < 3 * squareY + 3 && i != x && j != y ::
            At(g, i, j) != val
          invariant forall j | 3 * squareY <= j < 3 * squareY + col && i0 != x && j != y :: At(g, i0, j) != val
        {
          if cells[9 * (squareX * 3 + row) + squareY * 3 + col] == val && squareX * 3 + row != x && squareY * 3 + col != y {
            assert At(g, squareX * 3 + row, squareY * 3 + col) == val && SameUnit(x, y, squareX * 3 + row, squareY * 3 + col);
            return false;
          }
          col := col + 1;
        }
        row := row + 1;
      }

      forall i, j | 0 <= i < 9 && 0 <= j < 9 && i != x && j != y && SameUnit(x, y, i, j)
        ensures At(g, i, j) != val
      {
        assert 3 * squareX <= i < 3 * squareX + 3 && 3 * squareY <= j < 3 * squareY + 3;
      }
      return true;
    }

    /**
     * The block scan of fieldGetPossibleNumbers: push the digits of the block
     * of (x, y), row by row, onto `usedNumbers`, which already holds the
     * digits of row x and column y.
     */
    method PushBlockNumbers(usedNumbers: Stack, x: int, y: int)
      requires cells.Length == 81 && 0 <= x < 9 && 0 <= y < 9
      requires usedNumbers.Valid() && usedNumbers.Contents() == Scanned(cells[..], x, y, 18)
      modifies usedNumbers
      ensures usedNumbers.Valid() && usedNumbers.Contents() == Scanned(cells[..], x, y, 27)
    {
      ghost var k := 18;
      var row := 0;
      while row < 3
        invariant 0 <= row <= 3 && k == 18 + 3 * row
        invariant usedNumbers.Valid() && usedNumbers.Contents() == Scanned(cells[..], x, y, k)
      {
        var col := 0;
        while col < 3
          invariant 0 <= col <= 3 && k == 18 + 3 * row + col
          invariant usedNumbers.Valid() && usedNumbers.Contents() == Scanned(cells[..], x, y, k)
        {
          PushBlockSquare(usedNumbers, x, y, row, col);
          col, k := col + 1, k + 1;
        }
        row := row + 1;
      }
    }

    /** One square of the block scan: push the digit of (x / 3 * 3 + row, y / 3 * 3 + col), if it holds one. */
    method PushBlockSquare(usedNumbers: Stack, x: int, y: int, row: int, col: int)
      requires cells.Length == 81 && 0 <= x < 9 && 0 <= y < 9 && 0 <= row < 3 && 0 <= col < 3
      requires usedNumbers.Valid() && usedNumbers.Contents() == Scanned(cells[..], x, y, 18 + 3 * row + col)
      modifies usedNumbers
      ensures usedNumbers.Valid() && usedNumbers.Contents() == Scanned(cells[..], x, y, 18 + 3 * row + col + 1)
    {
      var squareX := x / 3;
      var squareY := y / 3;
      BlockScanStep(cells[..], x, y, row, col);
      if cells[9 * (squareX * 3 + row) + squareY * 3 + col] != 0 {
        usedNumbers.Push(cells[9 * (squareX * 3 + row) + squareY * 3 + col]);
      }
    }

    /**
     * The first part of fieldGetPossibleNumbers: a new stack holding the
     * digits of row x, then of column y, then of the block of (x, y).
     */
    method UsedNumbers(x: int, y: int) returns (usedNumbers: Stack)
      requires Valid() && 0 <= x < 9 && 0 <= y < 9
      ensures fresh(usedNumbers) && usedNumbers.Valid()
      ensures usedNumbers.Contents() == Scanned(cells[..], x, y, 27)
    {
      ghost var g := cells[..];
      usedNumbers := new Stack();

      var col := 0;
      while col < 9
        invariant 0 <= col <= 9
        invariant fresh(usedNumbers) && usedNumbers.Valid()
        invariant usedNumbers.Contents() == Scanned(g, x, y, col)
      {
        if cells[9 * x + col] != 0 {
          usedNumbers.Push(cells[9 * x + col]);
        }
        col := col + 1;
      }

      var row := 0;
      while row < 9
        invariant 0 <= row <= 9
        invariant fresh(usedNumbers) && usedNumbers.Valid()
        invariant usedNumbers.Contents() == Scanned(g, x, y, 9 + row)
      {
        if cells[9 * row + y] != 0 {
          usedNumbers.Push(cells[9 * row + y]);
        }
        row := row + 1;
      }

      PushBlockNumbers(usedNumbers, x, y);
    }

    /**
     * fieldGetPossibleNumbers: collect the digits of row x, column y and the
     * block of (x, y) on a stack of used numbers, then return, in ascending
     * order, the digits 1..9 not among them.
     */
    method GetPossibleNumbers(x: int, y: int) returns (possible: Stack)
      requires Valid() && 0 <= x < 9 && 0 <= y < 9
      ensures fresh(possible) && possible.Valid()
      ensures possible.Contents() == Candidates(cells[..], x, y)
    {
      var usedNumbers := UsedNumbers(x, y);
      ScannedCorrect(cells[..], x, y);
      possible := UnusedNumbers(usedNumbers, x, y);
    }

    /**
     * The last part of fieldGetPossibleNumbers: a new stack holding, in
     * ascending order, the digits 1..9 that `usedNumbers` does not hold.
     */
    method UnusedNumbers(usedNumbers: Stack, x: int, y: int) returns (possible: Stack)
      requires cells.Length == 81 && 0 <= x < 9 && 0 <= y < 9 && usedNumbers.Valid()
      requires forall d | 1 <= d <= 9 :: d in usedNumbers.Contents() <==> Excluded(cells[..], x, y, d)
      ensures fresh(possible) && possible.Valid()
      ensures possible.Contents() == Candidates(cells[..], x, y)
    {
      possible := new Stack();
      var i := 1;
      while i < 10
        invariant 1 <= i <= 10
        invariant fresh(possible) && possible.Valid()
        invariant possible.Contents() == CandidatesBelow(cells[..], x, y, i)
      {
        var used := usedNumbers.Contains(i);
        if !used {
          possible.Push(i);
        }
        i := i + 1;
      }
    }

    /**
     * fieldSimplify: fill every empty square whose candidates are a single
     * digit, sweeping the grid until a sweep fills nothing. The result fills
     * only empty squares, each with the one digit its units leave it; no empty
     * square is left with a single candidate; a grid with no such square is
     * left alone (so simplifying twice changes nothing more); and the grid has
     * exactly the completions it had before.
     */
    method Simplify()
      requires Valid()
      modifies cells
      ensures Valid()
      ensures Simplified(old(cells[..]), cells[..])
      ensures IsFixedPoint(cells[..])
      ensures IsFixedPoint(old(cells[..])) ==> cells[..] == old(cells[..])
      ensures forall h :: Completion(old(cells[..]), 0, h) <==> Completion(cells[..], 0, h)
      ensures forall x, y, i, j | Clash(cells[..], x, y, i, j) :: Clash(old(cells[..]), x, y, i, j)
    {
      ghost var g0 := cells[..];
      var somethingChanged := true;
      while somethingChanged
        invariant Valid()
        invariant Simplified(g0, cells[..])
        invariant forall h :: Completion(g0, 0, h) <==> Completion(cells[..], 0, h)
        invariant !somethingChanged ==> IsFixedPoint(cells[..])
        invariant IsFixedPoint(g0) ==> cells[..] == g0
        decreases EmptyCount(cells[..]) + (if somethingChanged then 1 else 0)
      {
        somethingChanged := SimplifySweep(g0);
      }
      SimplifiedAddsNoClash(g0, cells[..]);
    }

    /**
     * One sweep of fieldSimplify over the squares, line by line. It reports a
     * change exactly when the grid it started from was not yet a fixed point,
     * and then leaves fewer empty squares; the completions stay the same.
     */
    method SimplifySweep(ghost g0: seq<int>) returns (somethingChanged: bool)
      requires Valid() && |g0| == 81 && Simplified(g0, cells[..])
      modifies cells
      ensures Valid() && Simplified(g0, cells[..])
      ensures forall h :: Completion(old(cells[..]), 0, h) <==> Completion(cells[..], 0, h)
      ensures somethingChanged <==> !IsFixedPoint(old(cells[..]))
      ensures !somethingChanged ==> cells[..] == old(cells[..])
      ensures somethingChanged ==> EmptyCount(cells[..]) < EmptyCount(old(cells[..]))
    {
      ghost var passStart := cells[..];
      somethingChanged := false;
      var x := 0;
      while x < 9
        invariant 0 <= x <= 9
        invariant Valid() && Simplified(g0, cells[..])
        invariant forall h :: Completion(passStart, 0, h) <==> Completion(cells[..], 0, h)
        invariant !somethingChanged ==> cells[..] == passStart
        invariant !somethingChanged ==> LinesFixed(passStart, x)
        invariant somethingChanged ==> EmptyCount(cells[..]) < EmptyCount(passStart)
        invariant somethingChanged ==> !IsFixedPoint(passStart)
      {
        var changed := SimplifyLine(x, g0);
        if changed {
          somethingChanged := true;
        }
        x := x + 1;
      }
      LinesFixedCells(passStart, 9);
    }

    /**
     * The inner loop of fieldSimplify's sweep: squares (x, 0) to (x, 8). Without
     * a change, none of them was an empty square with a single candidate.
     */
    method SimplifyLine(x: int, ghost g0: seq<int>) returns (changed: bool)
      requires Valid() && 0 <= x < 9 && |g0| == 81 && Simplified(g0, cells[..])
      modifies cells
      ensures Valid() && Simplified(g0, cells[..])
      ensures forall h :: Completion(old(cells[..]), 0, h) <==> Completion(cells[..], 0, h)
      ensures !changed ==> cells[..] == old(cells[..])
      ensures !changed ==> LineFixed(old(cells[..]), x, 9)
      ensures changed ==> EmptyCount(cells[..]) < EmptyCount(old(cells[..])) && !IsFixedPoint(old(cells[..]))
    {
      ghost var lineStart := cells[..];
      changed := false;
      var y := 0;
      while y < 9
        invariant 0 <= y <= 9
        invariant Valid() && Simplified(g0, cells[..])
        invariant forall h :: Completion(lineStart, 0, h) <==> Completion(cells[..], 0, h)
        invariant !changed ==> cells[..] == lineStart
        invariant !changed ==> LineFixed(lineStart, x, y)
        invariant changed ==> EmptyCount(cells[..]) < EmptyCount(lineStart) && !IsFixedPoint(lineStart)
      {
        var squareChanged := SimplifySquare(x, y, g0);
        if squareChanged {
          changed := true;
        }
        y := y + 1;
      }
    }

    /**
     * The body of fieldSimplify's sweep for square (x, y): an empty square
     * whose units leave a single candidate gets that digit; otherwise nothing
     * changes. Either way the grid keeps its completions and stays a
     * simplification of g0.
     */
    method SimplifySquare(x: int, y: int, ghost g0: seq<int>) returns (changed: bool)
      requires Valid() && 0 <= x < 9 && 0 <= y < 9 && |g0| == 81 && Simplified(g0, cells[..])
      modifies cells
      ensures Valid() && Simplified(g0, cells[..])
      ensures changed <==> Determined(old(cells[..]), x, y)
      ensures changed ==> cells[..] == old(cells[..])[9 * x + y := Candidates(old(cells[..]), x, y)[0]]
      ensures !changed ==> cells[..] == old(cells[..])
      ensures changed ==> EmptyCount(cells[..]) < EmptyCount(old(cells[..]))
      ensures forall h :: Completion(old(cells[..]), 0, h) <==> Completion(cells[..], 0, h)
    {
      var p := 9 * x + y;
      if cells[p] != 0 {
        return false;
      }
      var possible := GetPossibleNumbers(x, y);
      DeterminedSingleCandidate(cells[..], x, y);
      if possible.length != 1 {
        return false;
      }
      ghost var g := cells[..];
      var value := possible.Pop();
      CommitSoleCandidate(g0, g, x, y, value);
      cells[p] := value;
      assert cells[..] == g[p := value];
      return true;
    }

    /**
     * fieldFillNextSquare: depth-first search over the squares from (x0, y0)
     * on, in the order of the grid's storage, trying 1..9 in every empty
     * square. On success the grid holds the first completion in lexicographic
     * order; on failure the grid is as it was and it has no completion.
     */
    method FillNextSquare(x0: Byte, y0: Byte) returns (solved: bool)
      requires Valid()
      modifies cells
      ensures Valid()
      ensures solved ==> Completion(old(cells[..]), Start(x0, y0), cells[..]) && Least(old(cells[..]), Start(x0, y0), cells[..])
      ensures !solved ==> cells[..] == old(cells[..]) && NoCompletion(old(cells[..]), Start(x0, y0))
      decreases 81 - Start(x0, y0), 1
    {
      var x, y := x0, y0;
      if y >= 9 {
        y := 0;
        x := (x as int + 1) % 256;
      }
      if x >= 9 {
        assert Start(x0, y0) == 81;
        CompletionAtEnd(cells[..]);
        return true;
      }
      assert Start(x0, y0) == 9 * x + y;
      if cells[9 * x + y] != 0 {
        solved := FillFilledSquare(x, y);
      } else {
        solved := FillEmptySquare(x, y);
      }
    }

    /** The search at a square that already holds a digit: check it, then go on with the next square. */
    method FillFilledSquare(x: Byte, y: Byte) returns (solved: bool)
      requires Valid() && x < 9 && y < 9 && cells[9 * x + y] != 0
      modifies cells
      ensures Valid()
      ensures solved ==> Completion(old(cells[..]), 9 * x + y, cells[..]) && Least(old(cells[..]), 9 * x + y, cells[..])
      ensures !solved ==> cells[..] == old(cells[..]) && NoCompletion(old(cells[..]), 9 * x + y)
      decreases 81 - (9 * x + y), 0
    {
      ghost var g := cells[..];
      var valid := IsSquareValid(x, y);
      FixedCellStep(g, x, y, 9 * x + y);
      if !valid {
        return false;
      }
      solved := FillNextSquare(x, y + 1);
      if solved {
        FixedCellLeast(g, x, y, cells[..]);
      }
    }

    /**
     * The search at an empty square: try 1..9 in turn and go on with the next
     * square for each digit the square's units allow; empty the square again
     * when none leads to a completion.
     */
    method FillEmptySquare(x: Byte, y: Byte) returns (solved: bool)
      requires Valid() && x < 9 && y < 9 && cells[9 * x + y] == 0
      modifies cells
      ensures Valid()
      ensures solved ==> Completion(old(cells[..]), 9 * x + y, cells[..]) && Least(old(cells[..]), 9 * x + y, cells[..])
      ensures !solved ==> cells[..] == old(cells[..]) && NoCompletion(old(cells[..]), 9 * x + y)
      decreases 81 - (9 * x + y), 0
    {
      var p := 9 * x + y;
      ghost var g := cells[..];
      cells[p] := 1;
      while cells[p] <= 9
        invariant 1 <= cells[p] <= 10
        invariant cells[..] == g[p := cells[p]]
        invariant forall h | Completion(g, p, h) :: h[p] >= cells[p]
        decreases 10 - cells[p]
      {
        var d := cells[p];
        assert cells[..] == g[p := d];
        var valid := IsSquareValid(x, y);
        if valid {
          solved := FillNextSquare(x, y + 1);
          if solved {
            DigitAccepted(g, x, y, p, d, cells[..]);
            return;
          }
        }
        DigitRejected(g, x, y, p, d);
        cells[p] := d + 1;
      }
      cells[p] := 0;
      assert cells[..] == g;
      return false;
    }

    /**
     * fieldSolve: simplify, then search from the first square. On success the
     * grid is a finished Sudoku keeping every given digit, the first such in
     * lexicographic order, and every line and block holds each digit exactly
     * once; on failure no finished Sudoku keeps the givens and the grid is
     * left simplified, which for a grid the simplifier cannot change means
     * the grid is exactly as it was.
     */
    method Solve() returns (solved: bool)
      requires Valid()
      modifies cells
      ensures Valid()
      ensures solved ==> Solved(cells[..]) && Completion(old(cells[..]), 0, cells[..]) && Least(old(cells[..]), 0, cells[..])
      ensures solved ==> forall x, y, d | 0 <= x < 9 && 0 <= y < 9 && 1 <= d <= 9 :: UnitsHold(cells[..], x, y, d)
      ensures !solved ==> NoCompletion(old(cells[..]), 0) && Simplified(old(cells[..]), cells[..]) && IsFixedPoint(cells[..])
      ensures !solved && IsFixedPoint(old(cells[..])) ==> cells[..] == old(cells[..])
    {
      ghost var g0 := cells[..];
      Simplify();
      solved := FillNextSquare(0, 0);
      if solved {
        CompletionIsSolved(g0, cells[..]);
        SolvedUnitsHoldEveryDigit(cells[..]);
      }
    }
  }
}
