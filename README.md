# SudokuSolver engine in Dafny

A model of the Sudoku engine of SudokuSolver: the 9x9 game field `field[x][y]`
with its selected square, the candidate computation, the validity check of a
square, the naked-single simplifier, the backtracking search, and the growable
`stack_t` buffer the engine uses as a small set of digits.

The grid is an `array<int>` of 81 cells, with cell (x, y) at index `9 * x + y`,
which is how the C array `uint8_t field[9][9]` is laid out. 0 marks an empty
square and 1..9 are digits. A square is constrained by three units:
- the squares with the same x;
- the squares with the same y;
- the squares of its 3x3 block (x / 3, y / 3).

The C comments call the first unit a "row" in one function and a "column" in
another. The indexing is the same in both, so the model names the units only by
coordinate.

Modules, one concept each:
- `Grid` (grid.dfy) holds the grid as a value:
  - well-formedness, units, `Excluded`, `CellValid`, `Clash`, `Solved`;
  - the search specification: `Completion` (a finished grid that keeps every
    cell before a position and every given digit), `NoCompletion`, and `Least`
    (lexicographically first);
  - `EmptyCount`, the termination measure of the simplifier.
- `Scan` (scan.dfy): the order in which `fieldGetPossibleNumbers` visits squares
  and the digits it collects.
- `Simplification` (simplification.dfy): the candidates of a square, forced digits,
  the fixed point of the simplifier, and what a simplified grid is.
- `Search` (search.dfy): the facts behind the backtracking search, one square at
  a time.
- `Selection` (selection.dfy): cursor movement as a function.
- `Stacks` (stack.dfy): `stack_t` as a class.
- `SudokuField` (field.dfy): class `Field`, with the grid array and the
  selection as fields and the `field.c` operations as methods.

Each method is proved against the specification functions. The search returns
the first completion in lexicographic order when it succeeds. When it fails, the
grid is unchanged and no completion exists. The simplifier writes only sole
candidates, keeps the set of completions unchanged, and stops at a fixed point.

The C functions `fieldIsSquareValid`, `fieldGetPossibleNumbers`,
`fieldSimplify` and `fieldFillNextSquare` are each split into a few methods:
- their own loops stay as loops in those methods;
- the `for` loop in `fieldFillNextSquare` that uses the square itself as its
  counter stays a loop over `cells[p]`;
- the recursion stays recursion.

## Model

| member | source | states |
|---|---|---|
| Grid.EmptyCountFill | src/field.c:184-188 | writing a digit into an empty square lowers the number of empty squares by one, which is why the simplifier's repeat loop ends |
| Grid.CompletionIsSolved | src/field.c:405-424 | a completion from position 0 is a finished grid: every square holds a digit, none clashes with its units, and every given digit is kept |
| Grid.ClashMeansNoCompletion | src/field.c:410-413 | a grid in which two filled squares of one unit hold the same digit has no completion, so the search, and with it Solve, fails on it |
| Grid.SolvedUnitsHoldEveryDigit | src/field.c:197-206 | in a finished grid the line x, the line y and the block of every square each hold every digit 1..9; with no repeats, each exactly once |
| Grid.BlockHoldsEveryDigit | src/field.c:197-206 | in a finished grid every 3x3 block holds every digit 1..9 |
| Scan.ScanCell | src/field.c:328-350 | the k-th square the candidate scan visits lies in line x, in line y or in the block of (x, y), inside the grid |
| Scan.BlockScanStep | src/field.c:341-349 | step 18 + 3 * row + col of the scan reads square (x / 3 * 3 + row, y / 3 * 3 + col), which lies inside the grid, and adds its digit to the collected digits exactly when it is not 0 |
| Scan.ScannedMembers | src/field.c:328-350 | the collected digits are exactly the non-zero values of the squares visited in the first k steps |
| Scan.ScanReaches | src/field.c:341-350 | every square that shares a unit with (x, y) is visited at some step of the scan, including the block squares reached through squareX * 3 + row, squareY * 3 + col |
| Scan.ScannedCorrect | src/field.c:324-350 | after the three scans, a digit 1..9 is among the used numbers exactly when some square sharing a unit with (x, y) holds it |
| Simplification.CandidatesBelowCorrect | src/field.c:352-356 | the digits pushed for i < n are ascending and are exactly the digits below n that no square of the units holds |
| Simplification.CandidatesCorrect | src/field.c:324-361 | d is a possible number of (x, y) if and only if 1 <= d <= 9 and no square with the same x, the same y or in the same block holds d; the result is ascending, hence without duplicates |
| Simplification.CandidatesBelowForced | src/field.c:352-356 | when digit e is forced, the ascending candidate list is e alone once e has been reached, and empty before that |
| Simplification.SoleCandidate | src/field.c:184-189 | the possible numbers are exactly [e] if and only if e is a free digit and every other digit is held in one of the units |
| Simplification.DeterminedSingleCandidate | src/field.c:177-189 | the square is one the simplifier fills (empty, with a forced digit) if and only if it is empty and has exactly one possible number |
| Simplification.LineFixedCells | src/field.c:175-192 | the recursive "no determined square among (x, 0..n-1)" is the same as the quantified statement |
| Simplification.LinesFixedCells | src/field.c:174-193 | the recursive "no determined square with x below n" is the same as the quantified statement; for n = 9 it is the fixed point |
| Simplification.CompletionDigitIsFree | src/field.c:184-188 | in any completion, an empty square receives a digit that none of the filled squares of its units holds |
| Simplification.CommitKeepsCompletions | src/field.c:184-188 | writing a forced digit into an empty square loses no completion and adds none |
| Simplification.CommitKeepsForced | src/field.c:184-188 | a later write of a free digit elsewhere keeps an earlier written digit forced in its square |
| Simplification.CommitKeepsSimplified | src/field.c:184-188 | writing a forced digit keeps the grid a simplification of the starting grid: givens untouched, every written square holds the digit forced there |
| Simplification.CommitSoleCandidate | src/field.c:184-188 | writing the sole possible number of an empty square writes a digit, keeps the grid well formed and simplified, removes one empty square and keeps the completions |
| Simplification.SimplifiedAddsNoClash | src/field.c:174-191 | every clash in a simplified grid was already a clash of the starting grid: the simplifier never creates one |
| Simplification.WrittenCellClashesWithNothing | src/field.c:184-188 | a square the simplifier wrote is in no clash |
| Search.Start | src/field.c:399-408 | the position fillNextSquare(x, y) starts at: y past the line moves to y = 0 of x + 1 (uint8_t arithmetic), and x past the grid means position 81 (done) |
| Search.CompletionAtEnd | src/field.c:405-408 | past the last square the grid is its own, and first, completion |
| Search.FixedCellStep | src/field.c:410-416 | at a filled square, the completions from its position are those from the next one when the square is valid, and there are none otherwise |
| Search.EmptyCellStep | src/field.c:417-418 | at an empty square, the completions that place d there are those of the grid with d placed |
| Search.DigitRejected | src/field.c:418-423 | a digit that is invalid at the square, or that leaves no completion of the rest, appears at that square in no completion |
| Search.DigitAccepted | src/field.c:418-422 | if no digit below d works and d leads to a first completion of the rest, that completion is the first completion from the square |
| Search.FixedCellLeast | src/field.c:410-416 | at a valid filled square, the first completion from the next position is the first from this one |
| Selection.Moved | src/field.c:89-130 | the selection stays in 0..8; Up and Down clip; with autoMove, Right and Left step one square forward or back in reading order and stop at the first and last square; without it they clip on the line |
| Selection.LeftUndoesRight | src/field.c:95-123 | a step left undoes a step right that was not stopped at the end |
| Selection.RightUndoesLeft | src/field.c:95-123 | a step right undoes a step left that was not stopped at the start |
| Stacks.Stack.constructor | src/stack.c:20-28 | stackNew: an empty stack with capacity 8 |
| Stacks.Stack.Push | src/stack.c:35-47 | stackPush: appends the value, leaves the earlier elements unchanged and adds 1 to the length; capacity grows by 8 exactly when the stack was full, so length <= capacity is kept |
| Stacks.Stack.Pop | src/stack.c:49-65 | stackPop, on a non-empty stack: returns the last element, removes it and keeps the rest; capacity drops by 8 exactly when capacity - length > 10 and capacity >= 9, and length <= capacity is kept |
| Stacks.Stack.Contains | src/stack.c:67-76 | stackContains: true if and only if one of the first `length` elements equals the value; the stack is not changed |
| Stacks.PushThenPop | src/stack.c:35-65 | a push followed by a pop returns the pushed value and restores the elements and the length |
| SudokuField.Field.constructor | src/field.c:24-52 | the static initial state: every square empty, square (0, 0) selected, autoMove on |
| SudokuField.Field.Move | src/field.c:89-130 | fieldMove moves the selection as Moved says and keeps autoMove |
| SudokuField.Field.SetValue | src/field.c:132-136 | fieldSetValue changes only the selected square, then moves right when autoMove is on |
| SudokuField.Field.Clear | src/field.c:234-238 | fieldClear: after confirmation every square is empty; without it nothing changes |
| SudokuField.Field.IsSquareValid | src/field.c:363-393 | true if and only if no other square with the same x, the same y or in the same block holds the value of (x, y); the block loop's both-coordinates-differ guard misses nothing, because the two line loops cover the rest |
| SudokuField.Field.IsBlockValid | src/field.c:379-392 | the block loop: true if and only if no square of the block that differs from (x, y) in both coordinates holds the value |
| SudokuField.Field.UsedNumbers | src/field.c:324-350 | the used-numbers stack holds the digits of line x, then line y, then the block, in visiting order |
| SudokuField.Field.PushBlockNumbers | src/field.c:340-350 | the block loop pushes the block's digits row by row after those of the two lines |
| SudokuField.Field.PushBlockSquare | src/field.c:346-348 | one pass of the block loop's body pushes the digit of square (squareX * 3 + row, squareY * 3 + col) if it holds one, so the used numbers are the scan's digits one step further |
| SudokuField.Field.UnusedNumbers | src/field.c:352-356 | given used numbers that are exactly the digits excluded at (x, y), the new stack holds the candidates of (x, y), ascending |
| SudokuField.Field.GetPossibleNumbers | src/field.c:324-361 | fieldGetPossibleNumbers returns a new stack whose elements are exactly the candidates of (x, y), ascending |
| SudokuField.Field.Simplify | src/field.c:167-195 | fieldSimplify: ends at a fixed point (no empty square has a single candidate); writes only empty squares, each with the digit forced there; leaves a fixed point untouched, so a second call changes nothing; keeps exactly the same completions; creates no clash |
| SudokuField.Field.SimplifySweep | src/field.c:170-193 | one pass of the do-while: reports a change exactly when the grid was not a fixed point, and then leaves fewer empty squares |
| SudokuField.Field.SimplifyLine | src/field.c:175-192 | the inner loop over y for one x: without a change, no square of the line was determined |
| SudokuField.Field.SimplifySquare | src/field.c:177-191 | the loop body: fills the square with its possible number exactly when it is empty with a single candidate, and otherwise changes nothing |
| SudokuField.Field.FillNextSquare | src/field.c:395-429 | on true, the grid is the lexicographically first completion from the start position (squares before it untouched); on false, the grid is exactly as on entry and no completion exists |
| SudokuField.Field.FillFilledSquare | src/field.c:410-416 | at a filled square: invalid means false with the grid unchanged; otherwise the result of the search from the next square |
| SudokuField.Field.FillEmptySquare | src/field.c:417-428 | at an empty square: digits 1..9 tried in ascending order, the first that leads to a completion kept; after 9 failures the square is reset to 0 |
| SudokuField.Field.Solve | src/field.c:197-206 | fieldSolve: on success, the grid is solved, keeps every given digit, is the first completion, and every line and block holds each digit exactly once; on failure, the original grid had no completion and the grid is left simplified, at a fixed point; a grid the simplifier cannot change is left exactly as it was, since every square the search tried is reset |

## Left out

- Rendering, textures, fonts, window-size and DPI handling in `field.c`:
  `fieldPrepare`, `fieldCleanUp`, `fieldDraw` and the highlight, draw and update
  helpers. They are SDL drawing and floating point.
- The message boxes:
  - in `fieldClear`, the user's answer is the parameter `confirmed`;
  - in `fieldSolve`, "The Sudoku can not be solved" is the false result of `Solve`.
- `window.c` key dispatch. It shows that `fieldSetValue` only receives 0..9;
  `SetValue` requires that.
- `autoMove` is a field of `Field`. Nothing in the program changes it after its
  initial value, so no operation that toggles it is modelled.
- `stackDelete` and all freeing, and `calloc`, `realloc` and `memcpy` as byte
  operations:
  - the element size is always 1 (`sizeof(uint8_t)`) in the engine, so elements
    are `int` values;
  - bytes a `realloc` adds are modelled as zeros;
  - the static 4-byte return buffer of `stackPop` becomes a plain return value.
- Stacks.Stack.Pop: requires a non-empty stack. The C code does not check this;
  popping an empty stack would underflow `length`, and the engine never does it.
- `selectionX` and `selectionY` are `int8_t` in C and `int` in the model. Their
  values stay in -1..9, so no wrap-around occurs.
- Squares are `uint8_t` in C and `int` in the model. `fieldFillNextSquare`'s
  counter reaches at most 10, so no wrap-around occurs.
- The coordinates of `fieldFillNextSquare` are `uint8_t`, and the model keeps
  that as the `Byte` type.
- `application.c`, `resources.c` and the headers are not part of this model:
  initialisation, the event loop, fonts and the help text.
