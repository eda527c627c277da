/**
 * Callers of the solver: on a blank board, on a board with one given digit,
 * and on any valid Sudoku with one cell emptied. What each concludes
 * follows from Solve's contract and the lemmas of Rules; the first two also
 * use an explicit valid Sudoku that shows their boards are solvable.
 */
module Scenarios {
  import opened Rules
  import opened Solver

  /** Row i's shift in the pattern grid: rows 0..8 start at 0, 3, 6, 1, 4, 7, 2, 5, 8. */
  ghost function Shift(i: int): int
  {
    3 * (i % 3) + i / 3
  }

  /**
   * A complete grid whose cell (0, 0) holds d: row i is 1..9 rotated by
   * Shift(i), then every digit is rotated by d - 1.
   */
  ghost function Pattern(d: int): (s: Grid)
    ensures IsGrid(s)
    ensures forall i, j :: InGrid(i, j) ==> s[i][j] == (Shift(i) + j + d - 1) % 9 + 1
  {
    seq(9, i requires 0 <= i < 9 => seq(9, j requires 0 <= j < 9 => (Shift(i) + j + d - 1) % 9 + 1))
  }

  /** Two numbers less than 9 apart with the same remainder mod 9 are equal. */
  lemma SameResidue(x: int, y: int)
    requires x % 9 == y % 9 && -9 < x - y < 9
    ensures x == y
  {
  }

  lemma PatternCellsDiffer(d: int, i: int, j: int, r: int, c: int)
    requires InGrid(i, j) && InGrid(r, c) && (i, j) != (r, c) && SameUnit(i, j, r, c)
    ensures (Shift(i) + j + d - 1) % 9 != (Shift(r) + c + d - 1) % 9
  {
    var x, y := Shift(i) + j + d - 1, Shift(r) + c + d - 1;
    assert 0 <= Shift(i) < 9 && 0 <= Shift(r) < 9;
    if i == r {
      assert x - y == j - c;
    } else if j == c {
      assert Shift(i) != Shift(r);
    } else {
      assert i / 3 == r / 3 && j / 3 == c / 3;
      assert x - y == 3 * (i % 3 - r % 3) + (j % 3 - c % 3);
    }
    if x % 9 == y % 9 {
      SameResidue(x, y);
    }
  }

  /** For every digit d there is a valid Sudoku with d in its top-left cell. */
  lemma {:induction false} PatternIsSolution(d: int)
    requires 1 <= d <= 9
    ensures IsSolution(Pattern(d)) && Pattern(d)[0][0] == d
  {
    var s := Pattern(d);
    forall i, j, r, c {:trigger SameUnit(i, j, r, c)}
      | InGrid(i, j) && InGrid(r, c) && (i, j) != (r, c) && SameUnit(i, j, r, c)
      ensures s[i][j] != s[r][c]
    {
      PatternCellsDiffer(d, i, j, r, c);
    }
  }

  /** A blank board is solved, into a valid Sudoku. */
  method SolveBlank() returns (board: array2<int>, solved: bool)
    ensures IsBoard(board) && solved && IsSolution(Cells(board))
  {
    board := new int[9, 9]((i, j) => 0);
    PatternIsSolution(1);
    assert SolutionOf(Pattern(1), Cells(board));
    solved := Solve(board);
  }

  /** A board whose only given digit is d at row 0, column 0 is solved around it. */
  method SolveOneGiven(d: int) returns (board: array2<int>, solved: bool)
    requires 1 <= d <= 9
    ensures IsBoard(board) && solved && IsSolution(Cells(board)) && board[0, 0] == d
  {
    board := new int[9, 9]((i, j) => if i == 0 && j == 0 then d else 0);
    PatternIsSolution(d);
    assert SolutionOf(Pattern(d), Cells(board));
    solved := Solve(board);
  }

  /**
   * A board that is a valid Sudoku s with one cell emptied is solved by
   * writing s's digit back into that cell.
   */
  method SolveOneMissing(board: array2<int>, ghost s: Grid, r: int, c: int) returns (solved: bool)
    requires IsBoard(board) && IsSolution(s) && InGrid(r, c)
    requires board[r, c] == 0
    requires forall i, j :: InGrid(i, j) && (i, j) != (r, c) ==> board[i, j] == s[i][j]
    modifies board
    ensures solved && Cells(board) == s
  {
    ghost var g0 := Cells(board);
    assert SolutionOf(s, g0);
    solved := Solve(board);
    ghost var h := Cells(board);
    ghost var v := h[r][c];
    if Clash(g0, v, r, c) {
      FillClashExcludes(g0, r, c, v);
      SolutionsFill(g0);
    }
    ForcedDigit(g0, s, r, c, v);
    SameCells(h, s);
  }
}
