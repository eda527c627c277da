# Backtracking Sudoku solver — a verified Dafny model

This project models the solving core of `ai_sudoku_solver`, a small
desktop Sudoku solver. The core is three Python functions:

- `find_empty` returns the first cell holding 0, in row-major order.
- `is_valid` decides whether a digit may go into a cell. The digit must be
  absent from that cell's row, its column and its 3x3 box.
- `solve` runs a depth-first search on one shared 9x9 board. It takes the
  first empty cell and tries the digits 1 to 9 in order. A digit that passes
  `is_valid` is written into the board, and the search recurses. When the
  recursive call fails, the cell is set back to 0.

The model has three modules:

- `Rules` (`rules.dfy`) states the rules of Sudoku on immutable grids
  (`seq<seq<int>>`, 0 = empty). It defines when two cells share a unit, a
  consistent grid, a completed Sudoku (`IsSolution`), "keeps the given
  digits" (`Agrees`), a solution of a puzzle (`SolutionOf`), "every filled-in
  digit fits its units" (`PlacedFit`), a filling of a puzzle that may
  contradict itself (`FillsAround`), the count of empty cells (`Zeros`)
  and row-major order on grids (`LexLess`). It also holds the lemmas the search relies on.
- `Solver` (`solver.dfy`) holds the three operations. The board is an
  `array2<int>` of fixed size 9x9. `FindEmpty` and `IsValid` are read-only
  functions (`reads board`). `Solve` is a recursive method with
  `modifies board`. Its contract speaks about `Cells(board)`, the board's
  contents read as a grid. The recursion is proved to terminate on the
  number of empty cells, which each recursive call lowers by exactly one.
- `Scenarios` (`scenarios.dfy`) holds callers of `Solve`: on a blank board,
  on a board with one given digit, and on any valid Sudoku with one cell
  emptied. Each conclusion follows from `Solve`'s contract and the lemmas
  of `Rules`; `SolveBlank` and `SolveOneGiven` also use an explicit valid
  Sudoku (`Pattern`).

What `Solve` is proved to do, for every 9x9 board whose cells are in 0..9:

- It writes only into cells that were 0. Every given digit keeps its value.
- On failure the board is cell for cell what it was on entry.
- On success no cell is 0, and every digit it wrote into a former 0
  differs from every other cell of its row, column and box, even when the
  given digits contradict each other.
- On success from a board whose given digits are consistent, the board is a
  valid Sudoku. This holds because every digit is placed only where it does
  not clash.
- A board with no empty cell succeeds at once, even when its digits
  contradict each other.
- A filling of the board is a grid of digits 1..9 that keeps the given
  digits and in which every digit filled into a former 0 differs from every
  other cell of its row, column and box (`FillsAround`). The given digits
  themselves may contradict each other. `Solve` fails exactly when the board
  has no filling, and on success it returns the first filling in row-major
  order. By `Rules.FirstFillUnique` that answer is determined by the puzzle,
  whatever the given digits are.
- When the given digits are consistent, the fillings are exactly the valid
  Sudokus that keep them (`Rules.FillsAroundIffSolution`). The contract also
  states this case directly: failure means no valid Sudoku keeps the given
  digits, and on success no such Sudoku comes before the result.

Contradictory given digits need not make the search fail. The code never
checks the given digits against each other:
`ai_sudoku_solver/ai_sudoku_solver.py:6-8` returns `True` for a full board
whatever it holds. A contradiction among the given digits can also survive a
successful search when the empty cells can be filled around it. The model
follows the code. `Solve` promises a valid Sudoku only when the given digits
are consistent, and it promises success on any full board.

## Model

| member | source | states |
|---|---|---|
| `Solver.FindEmpty` | ai_sudoku_solver/ai_sudoku_solver.py:42-47 | Returns a cell holding 0 with no 0 before it in row-major order; returns None exactly when no cell holds 0 |
| `Solver.FindEmptyFrom` | ai_sudoku_solver/ai_sudoku_solver.py:43-47 | The nested scan resumed at (i, j) finds the first 0 at or after (i, j), or None exactly when there is none from (i, j) on |
| `Solver.IsValid` | ai_sudoku_solver/ai_sudoku_solver.py:22-40 | True exactly when num occurs nowhere in the cell's row, its column, or the 3x3 box with corner (3*(row/3), 3*(col/3)); reads the board and changes nothing |
| `Solver.Solve` | ai_sudoku_solver/ai_sudoku_solver.py:5-20 | Writes only former zeros; failure restores the board exactly; success leaves no 0 and every digit written into a former 0 differs from every other cell of its row, column and box; a full board succeeds; success from consistent givens is a valid Sudoku; it fails exactly when the board has no filling and otherwise returns the first filling in row-major order; the same two facts stated for valid Sudokus keeping the givens |
| `Rules.ZerosPlace` | ai_sudoku_solver/ai_sudoku_solver.py:9-15 | Writing a digit into an empty cell leaves exactly one empty cell fewer, so each recursive call sees one fewer zero |
| `Rules.ZerosFull` | ai_sudoku_solver/ai_sudoku_solver.py:6-8 | The count of empty cells is 0 exactly when the grid is full, the case where the search stops with success |
| `Rules.PlaceKeepsConsistent` | ai_sudoku_solver/ai_sudoku_solver.py:12-13 | Placing a digit that does not clash keeps a consistent grid consistent |
| `Rules.PlaceStep` | ai_sudoku_solver/ai_sudoku_solver.py:11-15 | A placement that passes the check keeps cells in 0..9, lowers the count of empty cells and keeps consistency |
| `Rules.PlacedFitAfterPlace` | ai_sudoku_solver/ai_sudoku_solver.py:12-16 | A digit that passed the check and was kept by the successful recursive call still differs from every other cell of its row, column and box in the final board |
| `Rules.FillPlaced` | ai_sudoku_solver/ai_sudoku_solver.py:11-13 | A filling that holds v in the empty cell is a filling of the board with v written there |
| `Rules.FillClashExcludes` | ai_sudoku_solver/ai_sudoku_solver.py:11-12 | A digit the check rejects for an empty cell is in that cell in no filling of the board |
| `Rules.FillRefutedExcludes` | ai_sudoku_solver/ai_sudoku_solver.py:13-18 | When no filling exists after writing v, no filling of the board has v in that cell |
| `Rules.FillAfterPlace` | ai_sudoku_solver/ai_sudoku_solver.py:11-16 | With every smaller digit ruled out in the first empty cell, a result no filling of the placed board precedes is preceded by no filling of the board |
| `Rules.SolvedAfterPlace` | ai_sudoku_solver/ai_sudoku_solver.py:11-16 | A successful recursive result keeps the caller's givens, its filled digits fit their units, it is a valid Sudoku when the caller's givens are consistent, and no filling or solution of the caller's board comes before it in row-major order |
| `Rules.Exhausted` | ai_sudoku_solver/ai_sudoku_solver.py:11-20 | When every digit 1..9 is ruled out for the empty cell, the board has no filling and no solution, the case where the search returns False |
| `Rules.FullIsFirst` | ai_sudoku_solver/ai_sudoku_solver.py:6-8 | A full board is its own first filling, and its own first solution when its digits are consistent: its digits fit their units vacuously, it is a valid Sudoku when consistent, and no filling or solution comes before it, the case where the search returns True at once |
| `Rules.LexTotal` | ai_sudoku_solver/ai_sudoku_solver.py:11 | Of two different grids one comes first in row-major order |
| `Rules.FirstSolutionUnique` | ai_sudoku_solver/ai_sudoku_solver.py:5-20 | Two solutions of one board that are each first in row-major order are equal, so for consistent givens the search's answer is determined by the puzzle |
| `Rules.FirstFillUnique` | ai_sudoku_solver/ai_sudoku_solver.py:5-20 | Two fillings of one board that are each first in row-major order are equal, so the search's answer is determined by the puzzle whatever the givens |
| `Rules.FillsAroundIffSolution` | ai_sudoku_solver/ai_sudoku_solver.py:5-20 | Every solution keeping the givens is a filling, and for consistent givens the fillings are exactly those solutions |
| `Rules.SolutionsFill` | ai_sudoku_solver/ai_sudoku_solver.py:5-20 | Every solution keeping the givens is a filling of the board |
| `Rules.SolutionIffUnitsComplete` | ai_sudoku_solver/ai_sudoku_solver.py:25-38 | A grid with no duplicate in any row, column or box and all cells in 1..9 is exactly one whose every row, column and box holds each digit exactly once |
| `Rules.SolutionUnits` | ai_sudoku_solver/ai_sudoku_solver.py:25-38 | A completed valid Sudoku holds each digit exactly once in every row, column and box |
| `Rules.UnitsSolution` | ai_sudoku_solver/ai_sudoku_solver.py:25-38 | A grid whose rows, columns and boxes each hold every digit once is a completed valid Sudoku |
| `Rules.ForcedDigit` | ai_sudoku_solver/ai_sudoku_solver.py:22-40 | In a valid Sudoku with one cell emptied, a digit 1..9 passes the check there exactly when it is the missing one: the missing digit passes, and no other does |
| `Scenarios.SolveBlank` | ai_sudoku_solver/ai_sudoku_solver.py:5-20 | A blank board is solved into a valid Sudoku |
| `Scenarios.SolveOneGiven` | ai_sudoku_solver/ai_sudoku_solver.py:5-20 | A board with only digit d at row 0, column 0 is solved into a valid Sudoku that keeps d there |
| `Scenarios.SolveOneMissing` | ai_sudoku_solver/ai_sudoku_solver.py:5-20 | A valid Sudoku with one cell emptied is solved by writing back exactly the missing digit |

## Left out

- The `SudokuGUI` class and the start-up block (`ai_sudoku_solver/ai_sudoku_solver.py:50-120`): widget creation, text entry, dialogs and rendering. They are user-interface code and calls into a foreign toolkit.
- The input parsing in `get_board`. Its only effect on the core is that every cell is 0 or 1..9, which `Solve` requires of its caller.
- Board sizes other than 9x9. `find_empty` reads the size from the board, but every other line assumes 9x9, so the model fixes it.
- Python's list-of-lists board, where rows could alias each other, is modelled as one `array2<int>` with 81 independent cells.
- Running time: the model proves termination, not the exponential bound on the work done.
