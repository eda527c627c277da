/**
 * The backtracking solver: find the first empty cell, check a candidate
 * digit against its row, column and box, and search depth-first on one
 * shared 9x9 board, undoing every placement that leads nowhere.
 */
module Solver {
  import opened Rules

  datatype Option<T> = None | Some(value: T)

  predicate IsBoard(board: array2<int>)
  {
    board.Length0 == 9 && board.Length1 == 9
  }

  /** The board's current contents as a value grid. */
  ghost function Cells(board: array2<int>): (g: Grid)
    reads board
    requires IsBoard(board)
    ensures IsGrid(g)
    ensures forall i, j :: InGrid(i, j) ==> g[i][j] == board[i, j]
  {
    Rows(board, 9)
  }

  /** The first n rows of the board. */
  ghost function Rows(board: array2<int>, n: nat): (g: Grid)
    reads board
    requires IsBoard(board) && n <= 9
    ensures |g| == n
    ensures forall i :: 0 <= i < n ==> |g[i]| == 9 && forall j :: 0 <= j < 9 ==> g[i][j] == board[i, j]
  {
    if n == 0 then [] else Rows(board, n - 1) + [RowOf(board, n - 1, 9)]
  }

  /** The first n cells of row i. */
  ghost function RowOf(board: array2<int>, i: nat, n: nat): (row: seq<int>)
    reads board
    requires IsBoard(board) && i < 9 && n <= 9
    ensures |row| == n && forall j :: 0 <= j < n ==> row[j] == board[i, j]
  {
    if n == 0 then [] else RowOf(board, i, n - 1) + [board[i, n - 1]]
  }

  /**
   * The first cell holding 0, scanning rows top to bottom and each row left
   * to right; None when no cell holds 0.
   */
  function FindEmpty(board: array2<int>): (pos: Option<(int, int)>)
    reads board
    requires IsBoard(board)
    ensures pos.Some? ==>
      var (i, j) := pos.value;
      InGrid(i, j) && Cells(board)[i][j] == 0 &&
      forall k, l :: InGrid(k, l) && Before(k, l, i, j) ==> Cells(board)[k][l] != 0
    ensures pos.None? <==> Full(Cells(board))
  {
    FindEmptyFrom(board, 0, 0)
  }

  /** The scan of FindEmpty, resumed at row i, column j. */
  function FindEmptyFrom(board: array2<int>, i: int, j: int): (pos: Option<(int, int)>)
    reads board
    requires IsBoard(board) && 0 <= i <= 9 && 0 <= j <= 9
    decreases 9 - i, 9 - j
    ensures pos.Some? ==>
      var (r, c) := pos.value;
      InGrid(r, c) && board[r, c] == 0 && !Before(r, c, i, j) &&
      forall k, l :: InGrid(k, l) && !Before(k, l, i, j) && Before(k, l, r, c) ==> board[k, l] != 0
    ensures pos.None? <==>
      forall k, l :: InGrid(k, l) && !Before(k, l, i, j) ==> board[k, l] != 0
  {
    if i == 9 then None
    else if j == 9 then FindEmptyFrom(board, i + 1, 0)
    else if board[i, j] == 0 then Some((i, j))
    else FindEmptyFrom(board, i, j + 1)
  }

  /**
   * Whether num may go into (row, col): it must not already occur in that
   * row, that column, or the 3x3 box whose top-left corner is
   * (3 * (row / 3), 3 * (col / 3)). The cell itself is inspected too.
   */
  function IsValid(board: array2<int>, num: int, row: int, col: int): (ok: bool)
    reads board
    requires IsBoard(board) && InGrid(row, col)
    ensures ok <==> !Clash(Cells(board), num, row, col)
  {
    if exists i | 0 <= i < 9 :: board[row, i] == num then
      false
    else if exists i | 0 <= i < 9 :: board[i, col] == num then
      false
    else
      var boxX, boxY := col / 3, row / 3;
      !exists i, j | boxY * 3 <= i < boxY * 3 + 3 && boxX * 3 <= j < boxX * 3 + 3 :: board[i, j] == num
  }

  /**
   * Depth-first search with chronological undo on the shared board.
   * Success leaves a full board that keeps every given digit, in which every
   * digit written fits its row, column and box, and a valid Sudoku when the
   * given digits were consistent; failure leaves the board
   * exactly as it was. The search fails exactly when the board has no
   * filling, and otherwise returns its first filling in row-major order.
   */
  method Solve(board: array2<int>) returns (solved: bool)
    requires IsBoard(board) && Digits(Cells(board))
    modifies board
    decreases Zeros(Cells(board))
    ensures Digits(Cells(board))
    ensures Agrees(Cells(board), old(Cells(board)))
    ensures !solved ==> Cells(board) == old(Cells(board))
    ensures solved ==> Full(Cells(board))
    ensures solved ==> PlacedFit(Cells(board), old(Cells(board)))
    ensures solved && Consistent(old(Cells(board))) ==> IsSolution(Cells(board))
    ensures Full(old(Cells(board))) ==> solved
    ensures !solved ==> forall s :: !SolutionOf(s, old(Cells(board)))
    ensures solved ==> forall s :: SolutionOf(s, old(Cells(board))) ==> !LexLess(s, Cells(board))
    ensures !solved ==> forall f :: !FillsAround(f, old(Cells(board)))
    ensures solved ==> forall f :: FillsAround(f, old(Cells(board))) ==> !LexLess(f, Cells(board))
  {
    var empty := FindEmpty(board);
    if empty.None? {
      FullIsFirst(Cells(board));
      return true;
    }
    var (row, col) := empty.value;
    ghost var g0 := Cells(board);

    for num := 1 to 10
      invariant Cells(board) == g0
      invariant forall f :: FillsAround(f, g0) ==> f[row][col] >= num
    {
      if IsValid(board, num, row, col) {
        board[row, col] := num;
        ghost var g1 := Place(g0, row, col, num);
        SameCells(Cells(board), g1);
        PlaceStep(g0, row, col, num);
        solved := Solve(board);
        if solved {
          SolvedAfterPlace(g0, g1, Cells(board), row, col, num);
          return;
        }
        board[row, col] := 0;
        SameCells(Cells(board), g0);
        FillRefutedExcludes(g0, row, col, num);
      } else {
        FillClashExcludes(g0, row, col, num);
      }
    }
    Exhausted(g0, row, col);
    return false;
  }
}
