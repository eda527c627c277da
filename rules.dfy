/**
 * The rules of 9x9 Sudoku, stated on immutable grids.
 *
 * A grid is nine rows of nine integers; 0 marks an empty cell and 1..9 a
 * digit. The solver works on a mutable board; its contracts speak about the
 * value grid read from that board at a given moment.
 */
module Rules {

  type Grid = seq<seq<int>>

  /** Nine rows of nine cells each. */
  ghost predicate IsGrid(g: Grid)
  {
    |g| == 9 && forall i :: 0 <= i < 9 ==> |g[i]| == 9
  }

  ghost predicate InGrid(i: int, j: int)
  {
    0 <= i < 9 && 0 <= j < 9
  }

  /** Every cell is empty (0) or a digit 1..9. */
  ghost predicate Digits(g: Grid)
  {
    IsGrid(g) && forall i, j :: InGrid(i, j) ==> 0 <= g[i][j] <= 9
  }

  /** No cell is empty. */
  ghost predicate Full(g: Grid)
    requires IsGrid(g)
  {
    forall i, j :: InGrid(i, j) ==> g[i][j] != 0
  }

  /**
   * Cells (i, j) and (r, c) share a row, a column or a 3x3 box. A cell
   * shares all three with itself.
   */
  ghost predicate SameUnit(i: int, j: int, r: int, c: int)
  {
    i == r || j == c || (i / 3 == r / 3 && j / 3 == c / 3)
  }

  /** Cell (k, l) comes before cell (i, j) in row-major order. */
  ghost predicate Before(k: int, l: int, i: int, j: int)
  {
    k < i || (k == i && l < j)
  }

  /**
   * g comes before h in row-major order: they agree up to some cell, where
   * g holds the smaller number.
   */
  ghost predicate LexLess(g: Grid, h: Grid)
    requires IsGrid(g) && IsGrid(h)
  {
    exists i, j :: InGrid(i, j) && g[i][j] < h[i][j] &&
      forall k, l :: InGrid(k, l) && Before(k, l, i, j) ==> g[k][l] == h[k][l]
  }

  /** Digit v already occurs in the row, the column or the box of (r, c). */
  ghost predicate Clash(g: Grid, v: int, r: int, c: int)
    requires IsGrid(g)
  {
    exists i, j :: InGrid(i, j) && SameUnit(i, j, r, c) && g[i][j] == v
  }

  /** No two distinct cells of one row, column or box hold the same digit. */
  ghost predicate Consistent(g: Grid)
    requires IsGrid(g)
  {
    forall i, j, r, c {:trigger SameUnit(i, j, r, c)} ::
      InGrid(i, j) && InGrid(r, c) && (i, j) != (r, c) && SameUnit(i, j, r, c) && g[i][j] != 0
      ==> g[i][j] != g[r][c]
  }

  /** A completed, valid Sudoku. */
  ghost predicate IsSolution(s: Grid)
  {
    IsGrid(s) && (forall i, j :: InGrid(i, j) ==> 1 <= s[i][j] <= 9) && Consistent(s)
  }

  /** g keeps every non-empty cell of h. */
  ghost predicate Agrees(g: Grid, h: Grid)
    requires IsGrid(g) && IsGrid(h)
  {
    forall i, j :: InGrid(i, j) && h[i][j] != 0 ==> g[i][j] == h[i][j]
  }

  /** s is a completed, valid Sudoku that keeps every given digit of g. */
  ghost predicate SolutionOf(s: Grid, g: Grid)
    requires IsGrid(g)
  {
    IsSolution(s) && Agrees(s, g)
  }

  /**
   * Every cell that is empty in g holds, in h, a digit that differs from
   * every other cell of its row, column and box, whatever g's given digits
   * say about each other.
   */
  ghost predicate PlacedFit(h: Grid, g: Grid)
    requires IsGrid(h) && IsGrid(g)
  {
    forall i, j, r, c {:trigger SameUnit(i, j, r, c)} ::
      InGrid(i, j) && InGrid(r, c) && (i, j) != (r, c) && SameUnit(i, j, r, c) && g[i][j] == 0
      ==> h[i][j] != h[r][c]
  }

  /**
   * f is what a successful search may leave behind from g whatever g's
   * given digits say about each other: every cell holds a digit, the given
   * digits are kept, and every digit filled in fits its row, column and box.
   */
  ghost predicate FillsAround(f: Grid, g: Grid)
    requires IsGrid(g)
  {
    IsGrid(f) && (forall i, j :: InGrid(i, j) ==> 1 <= f[i][j] <= 9) && Agrees(f, g) && PlacedFit(f, g)
  }

  /** g with digit v written into cell (r, c). */
  ghost function Place(g: Grid, r: int, c: int, v: int): (h: Grid)
    requires IsGrid(g) && InGrid(r, c)
    ensures IsGrid(h)
    ensures h[r][c] == v
    ensures forall i, j :: InGrid(i, j) && (i, j) != (r, c) ==> h[i][j] == g[i][j]
  {
    g[r := g[r][c := v]]
  }

  /** Two grids with the same cells are the same grid. */
  lemma SameCells(g: Grid, h: Grid)
    requires IsGrid(g) && IsGrid(h)
    requires forall i, j :: InGrid(i, j) ==> g[i][j] == h[i][j]
    ensures g == h
  {
    forall i | 0 <= i < 9
      ensures g[i] == h[i]
    {
      assert forall j :: 0 <= j < 9 ==> g[i][j] == h[i][j];
    }
  }

  /** Number of empty cells in one row. */
  ghost function RowZeros(row: seq<int>): nat
  {
    if row == [] then 0 else (if row[0] == 0 then 1 else 0) + RowZeros(row[1..])
  }

  /** Number of empty cells in the grid. */
  ghost function Zeros(g: Grid): nat
  {
    if g == [] then 0 else RowZeros(g[0]) + Zeros(g[1..])
  }

  lemma {:induction false} RowZerosUpdate(row: seq<int>, c: int, v: int)
    requires 0 <= c < |row| && row[c] == 0 && v != 0
    ensures RowZeros(row[c := v]) == RowZeros(row) - 1
  {
    if c > 0 {
      assert row[c := v][1..] == row[1..][c - 1 := v];
      RowZerosUpdate(row[1..], c - 1, v);
    } else {
      assert row[c := v][1..] == row[1..];
    }
  }

  lemma {:induction false} RowZerosNone(row: seq<int>)
    ensures RowZeros(row) == 0 <==> forall j :: 0 <= j < |row| ==> row[j] != 0
  {
    if row != [] {
      RowZerosNone(row[1..]);
      assert forall j :: 1 <= j < |row| ==> row[j] == row[1..][j - 1];
    }
  }

  /** Filling one empty cell removes exactly one empty cell. */
  lemma {:induction false} ZerosPlace(g: Grid, r: int, c: int, v: int)
    requires IsGrid(g) && InGrid(r, c) && g[r][c] == 0 && v != 0
    ensures Zeros(Place(g, r, c, v)) == Zeros(g) - 1
  {
    ZerosUpdate(g, r, c, v);
  }

  lemma {:induction false} ZerosUpdate(g: Grid, r: int, c: int, v: int)
    requires 0 <= r < |g| && 0 <= c < |g[r]| && g[r][c] == 0 && v != 0
    ensures Zeros(g[r := g[r][c := v]]) == Zeros(g) - 1
  {
    var h := g[r := g[r][c := v]];
    if r > 0 {
      assert h[1..] == g[1..][r - 1 := g[1..][r - 1][c := v]];
      ZerosUpdate(g[1..], r - 1, c, v);
    } else {
      assert h[1..] == g[1..];
      RowZerosUpdate(g[0], c, v);
    }
  }

  /** A grid has no empty cell exactly when its count of empty cells is 0. */
  lemma {:induction false} ZerosFull(g: Grid)
    requires IsGrid(g)
    ensures Zeros(g) == 0 <==> Full(g)
  {
    ZerosNone(g);
  }

  lemma {:induction false} ZerosNone(g: Grid)
    ensures Zeros(g) == 0 <==> forall i, j :: 0 <= i < |g| && 0 <= j < |g[i]| ==> g[i][j] != 0
  {
    if g != [] {
      RowZerosNone(g[0]);
      ZerosNone(g[1..]);
      assert forall i :: 1 <= i < |g| ==> g[i] == g[1..][i - 1];
    }
  }

  /**
   * Writing a digit that does not clash keeps a consistent grid consistent:
   * every digit the search places respects the rules at the moment it is
   * placed.
   */
  lemma PlaceKeepsConsistent(g: Grid, r: int, c: int, v: int)
    requires IsGrid(g) && InGrid(r, c) && g[r][c] == 0 && v != 0
    requires Consistent(g) && !Clash(g, v, r, c)
    ensures Consistent(Place(g, r, c, v))
  {
  }

  /**
   * Filling the empty cell (r, c) with a digit that does not clash keeps
   * the cells in range, removes one empty cell and keeps a consistent grid
   * consistent.
   */
  lemma PlaceStep(g: Grid, r: int, c: int, v: int)
    requires Digits(g) && InGrid(r, c) && g[r][c] == 0 && 1 <= v <= 9 && !Clash(g, v, r, c)
    ensures Digits(Place(g, r, c, v))
    ensures Zeros(Place(g, r, c, v)) < Zeros(g)
    ensures Consistent(g) ==> Consistent(Place(g, r, c, v))
  {
    ZerosPlace(g, r, c, v);
    if Consistent(g) {
      PlaceKeepsConsistent(g, r, c, v);
    }
  }

  /**
   * A digit that did not clash when written into (r, c), kept by the
   * recursive result h, still fits there once the cell counts as filled in.
   */
  lemma PlacedFitAfterPlace(g: Grid, h: Grid, r: int, c: int, v: int)
    requires IsGrid(g) && IsGrid(h) && InGrid(r, c) && g[r][c] == 0
    requires !Clash(g, v, r, c)
    requires Agrees(h, Place(g, r, c, v)) && h[r][c] == v
    requires PlacedFit(h, Place(g, r, c, v))
    ensures PlacedFit(h, g)
  {
    var g1 := Place(g, r, c, v);
    forall i, j, k, l {:trigger SameUnit(i, j, k, l)}
      | InGrid(i, j) && InGrid(k, l) && (i, j) != (k, l) && SameUnit(i, j, k, l) && g[i][j] == 0
      ensures h[i][j] != h[k][l]
    {
      if (i, j) != (r, c) {
        assert g1[i][j] == 0;
      } else if g[k][l] != 0 {
        assert h[k][l] == g1[k][l] == g[k][l];
      } else {
        assert g1[k][l] == 0 && SameUnit(k, l, i, j);
      }
    }
  }

  /** Row-major order is total: of two different grids one comes first. */
  lemma LexTotal(g: Grid, h: Grid)
    requires IsGrid(g) && IsGrid(h) && g != h
    ensures LexLess(g, h) || LexLess(h, g)
  {
    if forall k, l :: InGrid(k, l) ==> g[k][l] == h[k][l] {
      SameCells(g, h);
    } else {
      LexTotalFrom(g, h, 0);
    }
  }

  lemma {:induction false} LexTotalFrom(g: Grid, h: Grid, n: nat)
    requires IsGrid(g) && IsGrid(h) && n <= 81
    requires forall k, l :: InGrid(k, l) && 9 * k + l < n ==> g[k][l] == h[k][l]
    requires exists k, l :: InGrid(k, l) && g[k][l] != h[k][l]
    ensures LexLess(g, h) || LexLess(h, g)
    decreases 81 - n
  {
    if n < 81 {
      var i, j := n / 9, n % 9;
      assert forall k, l :: InGrid(k, l) && Before(k, l, i, j) ==> 9 * k + l < n;
      if g[i][j] < h[i][j] {
        assert LexLess(g, h);
      } else if h[i][j] < g[i][j] {
        assert LexLess(h, g);
      } else {
        LexTotalFrom(g, h, n + 1);
      }
    }
  }

  /**
   * At most one solution keeping g's digits has no such solution before it:
   * the search's answer is determined by the puzzle.
   */
  lemma FirstSolutionUnique(g: Grid, a: Grid, b: Grid)
    requires IsGrid(g)
    requires SolutionOf(a, g) && SolutionOf(b, g)
    requires forall s :: SolutionOf(s, g) ==> !LexLess(s, a)
    requires forall s :: SolutionOf(s, g) ==> !LexLess(s, b)
    ensures a == b
  {
    if a != b {
      LexTotal(a, b);
    }
  }

  /**
   * Every solution keeping g's digits fills around g, and when g's digits
   * are consistent the two notions coincide.
   */
  lemma FillsAroundIffSolution(g: Grid, f: Grid)
    requires IsGrid(g)
    ensures SolutionOf(f, g) ==> FillsAround(f, g)
    ensures Consistent(g) ==> (FillsAround(f, g) <==> SolutionOf(f, g))
  {
    if Consistent(g) && FillsAround(f, g) {
      forall i, j, r, c {:trigger SameUnit(i, j, r, c)}
        | InGrid(i, j) && InGrid(r, c) && (i, j) != (r, c) && SameUnit(i, j, r, c) && f[i][j] != 0
        ensures f[i][j] != f[r][c]
      {
        if g[i][j] != 0 && g[r][c] == 0 {
          assert SameUnit(r, c, i, j);
        }
      }
    }
  }

  /** Every solution keeping g's digits fills around g. */
  lemma SolutionsFill(g: Grid)
    requires IsGrid(g)
    ensures forall s :: SolutionOf(s, g) ==> FillsAround(s, g)
  {
    forall s | SolutionOf(s, g)
      ensures FillsAround(s, g)
    {
      FillsAroundIffSolution(g, s);
    }
  }

  /** A filling of g that holds v in the empty cell (r, c) fills around g with v placed. */
  lemma FillPlaced(f: Grid, g: Grid, r: int, c: int, v: int)
    requires IsGrid(g) && InGrid(r, c) && FillsAround(f, g) && f[r][c] == v
    ensures FillsAround(f, Place(g, r, c, v))
  {
  }

  /** No filling around g has a clashing digit v in the empty cell (r, c). */
  lemma FillClashExcludes(g: Grid, r: int, c: int, v: int)
    requires IsGrid(g) && InGrid(r, c) && g[r][c] == 0 && v != 0 && Clash(g, v, r, c)
    ensures forall f :: FillsAround(f, g) ==> f[r][c] != v
  {
    var i, j :| InGrid(i, j) && SameUnit(i, j, r, c) && g[i][j] == v;
    assert SameUnit(r, c, i, j);
  }

  /**
   * Nothing fills around g with v placed in the empty cell (r, c), so no
   * filling around g has v in (r, c).
   */
  lemma FillRefutedExcludes(g: Grid, r: int, c: int, v: int)
    requires IsGrid(g) && InGrid(r, c)
    requires forall f :: !FillsAround(f, Place(g, r, c, v))
    ensures forall f :: FillsAround(f, g) ==> f[r][c] != v
  {
    forall f | FillsAround(f, g)
      ensures f[r][c] != v
    {
      if f[r][c] == v {
        FillPlaced(f, g, r, c, v);
      }
    }
  }

  /**
   * A result h of the search from g with v in its first empty cell (r, c)
   * that no filling of that board precedes is preceded by no filling around
   * g, once every smaller digit is ruled out for (r, c).
   */
  lemma FillAfterPlace(g: Grid, h: Grid, r: int, c: int, v: int)
    requires IsGrid(g) && IsGrid(h) && InGrid(r, c) && g[r][c] == 0 && v != 0
    requires forall k, l :: InGrid(k, l) && Before(k, l, r, c) ==> g[k][l] != 0
    requires forall f :: FillsAround(f, g) ==> f[r][c] >= v
    requires Agrees(h, Place(g, r, c, v))
    requires forall f :: FillsAround(f, Place(g, r, c, v)) ==> !LexLess(f, h)
    ensures forall f :: FillsAround(f, g) ==> !LexLess(f, h)
  {
    forall f | FillsAround(f, g)
      ensures !LexLess(f, h)
    {
      if f[r][c] == v {
        FillPlaced(f, g, r, c, v);
      }
    }
  }

  /**
   * At most one filling around g has no filling before it, whether or not
   * g's digits are consistent: the search's answer is determined by the
   * puzzle.
   */
  lemma FirstFillUnique(g: Grid, a: Grid, b: Grid)
    requires IsGrid(g)
    requires FillsAround(a, g) && FillsAround(b, g)
    requires forall f :: FillsAround(f, g) ==> !LexLess(f, a)
    requires forall f :: FillsAround(f, g) ==> !LexLess(f, b)
    ensures a == b
  {
    if a != b {
      LexTotal(a, b);
    }
  }

  /**
   * What a successful search from g with v in its first empty cell (r, c)
   * promises about its result h carries over to g itself, once v passed
   * the check and every smaller digit is ruled out for (r, c).
   */
  lemma SolvedAfterPlace(g: Grid, g1: Grid, h: Grid, r: int, c: int, v: int)
    requires IsGrid(g) && IsGrid(h) && InGrid(r, c) && g[r][c] == 0 && 1 <= v <= 9
    requires !Clash(g, v, r, c)
    requires forall k, l :: InGrid(k, l) && Before(k, l, r, c) ==> g[k][l] != 0
    requires forall f :: FillsAround(f, g) ==> f[r][c] >= v
    requires g1 == Place(g, r, c, v)
    requires Agrees(h, g1) && PlacedFit(h, g1)
    requires Consistent(g1) ==> IsSolution(h)
    requires forall f :: FillsAround(f, g1) ==> !LexLess(f, h)
    ensures Agrees(h, g)
    ensures PlacedFit(h, g)
    ensures Consistent(g) ==> IsSolution(h)
    ensures forall f :: FillsAround(f, g) ==> !LexLess(f, h)
    ensures forall s :: SolutionOf(s, g) ==> !LexLess(s, h)
  {
    if Consistent(g) {
      PlaceKeepsConsistent(g, r, c, v);
    }
    PlacedFitAfterPlace(g, h, r, c, v);
    FillAfterPlace(g, h, r, c, v);
    SolutionsFill(g);
  }

  /**
   * A full grid is the only filling around itself: the search stops there
   * with the grid as its answer, a valid Sudoku when it is consistent.
   */
  lemma FullIsFirst(g: Grid)
    requires Digits(g) && Full(g)
    ensures PlacedFit(g, g)
    ensures Consistent(g) ==> IsSolution(g)
    ensures forall f :: FillsAround(f, g) ==> !LexLess(f, g)
    ensures forall s :: SolutionOf(s, g) ==> !LexLess(s, g)
  {
  }

  /**
   * When every digit is ruled out for the empty cell (r, c), nothing fills
   * around g, and in particular no solution keeps g's digits.
   */
  lemma Exhausted(g: Grid, r: int, c: int)
    requires IsGrid(g) && InGrid(r, c)
    requires forall f :: FillsAround(f, g) ==> f[r][c] >= 10
    ensures forall f :: !FillsAround(f, g)
    ensures forall s :: !SolutionOf(s, g)
  {
    SolutionsFill(g);
  }

  /** Column c, top to bottom. */
  ghost function Column(g: Grid, c: int): (col: seq<int>)
    requires IsGrid(g) && 0 <= c < 9
    ensures |col| == 9 && forall i :: 0 <= i < 9 ==> col[i] == g[i][c]
  {
    seq(9, i requires 0 <= i < 9 => g[i][c])
  }

  /*
   * Boxes are numbered 0..8 row-major, and so are the cells of each box:
   * cell k of box b is (BoxRow(b, k), BoxCol(b, k)).
   */
  ghost function BoxRow(b: int, k: int): int { 3 * (b / 3) + k / 3 }
  ghost function BoxCol(b: int, k: int): int { 3 * (b % 3) + k % 3 }

  /** The box that holds cell (i, j), and the cell's place in it. */
  ghost function BoxOf(i: int, j: int): int { 3 * (i / 3) + j / 3 }
  ghost function PlaceInBox(i: int, j: int): int { 3 * (i % 3) + j % 3 }

  /** Box b, its cells in row-major order. */
  ghost function Box(g: Grid, b: int): (box: seq<int>)
    requires IsGrid(g) && 0 <= b < 9
    ensures |box| == 9
    ensures forall k :: 0 <= k < 9 ==> box[k] == g[BoxRow(b, k)][BoxCol(b, k)]
  {
    seq(9, k requires 0 <= k < 9 => g[BoxRow(b, k)][BoxCol(b, k)])
  }

  /** No value occurs twice in xs. */
  ghost predicate Distinct(xs: seq<int>)
  {
    forall k, m :: 0 <= k < m < |xs| ==> xs[k] != xs[m]
  }

  /** Nine cells that hold each digit 1..9 exactly once. */
  ghost predicate EachDigitOnce(xs: seq<int>)
  {
    |xs| == 9 && Distinct(xs) && forall v :: 1 <= v <= 9 ==> v in xs
  }

  /** A set held in a sequence has no more elements than the sequence. */
  lemma {:induction false} SetWithinSeq(xs: seq<int>, S: set<int>)
    requires forall v :: v in S ==> v in xs
    ensures |S| <= |xs|
  {
    if xs == [] {
      assert forall v :: v !in S;
      assert S == {};
    } else {
      var x := xs[0];
      assert forall v :: v in S - {x} ==> v in xs[1..];
      SetWithinSeq(xs[1..], S - {x});
    }
  }

  /** n distinct values drawn from a set of n values take every value in it. */
  lemma {:induction false} DistinctFillsSet(xs: seq<int>, S: set<int>)
    requires |xs| == |S| && Distinct(xs)
    requires forall k :: 0 <= k < |xs| ==> xs[k] in S
    ensures forall v :: v in S ==> v in xs
  {
    if xs != [] {
      var x := xs[0];
      assert forall k :: 0 <= k < |xs| - 1 ==> xs[1..][k] == xs[k + 1] && xs[k + 1] != x;
      assert Distinct(xs[1..]);
      DistinctFillsSet(xs[1..], S - {x});
      forall v | v in S
        ensures v in xs
      {
        if v != x {
          assert v in xs[1..];
        }
      }
    }
  }

  /** n distinct values that take every value of a set of n values stay inside it. */
  lemma {:induction false} DistinctCoverStaysInSet(xs: seq<int>, S: set<int>)
    requires |xs| == |S| && Distinct(xs)
    requires forall v :: v in S ==> v in xs
    ensures forall k :: 0 <= k < |xs| ==> xs[k] in S
  {
    if xs != [] {
      var x := xs[0];
      assert forall k :: 0 <= k < |xs| - 1 ==> xs[1..][k] == xs[k + 1] && xs[k + 1] != x;
      assert Distinct(xs[1..]);
      if x in S {
        assert forall v :: v in S - {x} ==> v in xs[1..];
        DistinctCoverStaysInSet(xs[1..], S - {x});
      } else {
        assert forall v :: v in S ==> v in xs[1..];
        SetWithinSeq(xs[1..], S);
      }
    }
  }

  /** Nine distinct digits are each digit once. */
  lemma NineDistinctDigits(xs: seq<int>)
    requires |xs| == 9 && Distinct(xs)
    requires forall k :: 0 <= k < 9 ==> 1 <= xs[k] <= 9
    ensures EachDigitOnce(xs)
  {
    var digits := {1, 2, 3, 4, 5, 6, 7, 8, 9};
    assert |digits| == 9;
    DistinctFillsSet(xs, digits);
  }

  /** Each digit once means nine distinct digits. */
  lemma EachDigitOnceDigits(xs: seq<int>)
    requires EachDigitOnce(xs)
    ensures forall k :: 0 <= k < 9 ==> 1 <= xs[k] <= 9
  {
    var digits := {1, 2, 3, 4, 5, 6, 7, 8, 9};
    assert |digits| == 9;
    DistinctCoverStaysInSet(xs, digits);
  }

  /** Every row, column and box of g holds each digit exactly once. */
  ghost predicate UnitsComplete(g: Grid)
    requires IsGrid(g)
  {
    forall u :: 0 <= u < 9 ==> EachDigitOnce(g[u]) && EachDigitOnce(Column(g, u)) && EachDigitOnce(Box(g, u))
  }

  /**
   * A completed valid Sudoku is exactly a grid whose every row, column and
   * box holds each digit 1..9 exactly once.
   */
  lemma SolutionIffUnitsComplete(g: Grid)
    requires IsGrid(g)
    ensures IsSolution(g) <==> UnitsComplete(g)
  {
    if IsSolution(g) {
      SolutionUnits(g);
    }
    if UnitsComplete(g) {
      UnitsSolution(g);
    }
  }

  lemma SolutionUnits(g: Grid)
    requires IsSolution(g)
    ensures UnitsComplete(g)
  {
    forall u | 0 <= u < 9
      ensures EachDigitOnce(g[u]) && EachDigitOnce(Column(g, u)) && EachDigitOnce(Box(g, u))
    {
      forall k, m | 0 <= k < m < 9
        ensures g[u][k] != g[u][m]
      {
        assert SameUnit(u, k, u, m);
      }
      NineDistinctDigits(g[u]);
      var col := Column(g, u);
      forall k, m | 0 <= k < m < 9
        ensures col[k] != col[m]
      {
        assert SameUnit(k, u, m, u);
      }
      NineDistinctDigits(col);
      var box := Box(g, u);
      forall k, m | 0 <= k < m < 9
        ensures box[k] != box[m]
      {
        BoxCell(u, k);
        BoxCell(u, m);
        assert SameUnit(BoxRow(u, k), BoxCol(u, k), BoxRow(u, m), BoxCol(u, m));
      }
      NineDistinctDigits(box);
    }
  }

  /** Cell k of box b is in the grid, in box b, at place k. */
  lemma BoxCell(b: int, k: int)
    requires 0 <= b < 9 && 0 <= k < 9
    ensures InGrid(BoxRow(b, k), BoxCol(b, k))
    ensures BoxRow(b, k) / 3 == b / 3 && BoxCol(b, k) / 3 == b % 3
    ensures BoxOf(BoxRow(b, k), BoxCol(b, k)) == b && PlaceInBox(BoxRow(b, k), BoxCol(b, k)) == k
  {
  }

  /** Cell (i, j) is cell PlaceInBox(i, j) of box BoxOf(i, j). */
  lemma CellBox(i: int, j: int)
    requires InGrid(i, j)
    ensures 0 <= BoxOf(i, j) < 9 && 0 <= PlaceInBox(i, j) < 9
    ensures BoxRow(BoxOf(i, j), PlaceInBox(i, j)) == i && BoxCol(BoxOf(i, j), PlaceInBox(i, j)) == j
  {
    DivModThree(i / 3, j / 3);
    DivModThree(i % 3, j % 3);
  }

  /** Splitting 3 * a + b with b in 0..2 by 3 gives back a and b. */
  lemma DivModThree(a: int, b: int)
    requires 0 <= b < 3
    ensures (3 * a + b) / 3 == a && (3 * a + b) % 3 == b
  {
  }

  lemma UnitsSolution(g: Grid)
    requires IsGrid(g) && UnitsComplete(g)
    ensures IsSolution(g)
  {
    forall i, j | InGrid(i, j)
      ensures 1 <= g[i][j] <= 9
    {
      EachDigitOnceDigits(g[i]);
    }
    forall i, j, r, c | InGrid(i, j) && InGrid(r, c) && (i, j) != (r, c) && SameUnit(i, j, r, c)
      ensures g[i][j] != g[r][c]
    {
      UnitsDistinct(g, i, j, r, c);
    }
  }

  /** Two distinct cells sharing a unit of a grid whose units are complete differ. */
  lemma UnitsDistinct(g: Grid, i: int, j: int, r: int, c: int)
    requires IsGrid(g) && UnitsComplete(g)
    requires InGrid(i, j) && InGrid(r, c) && (i, j) != (r, c) && SameUnit(i, j, r, c)
    ensures g[i][j] != g[r][c]
  {
    if i == r {
      assert EachDigitOnce(g[i]);
    } else if j == c {
      var col := Column(g, j);
      assert EachDigitOnce(col);
      assert col[i] == g[i][j] && col[r] == g[r][c];
    } else {
      var b := BoxOf(i, j);
      assert EachDigitOnce(Box(g, b));
      BoxDistinct(g, b, i, j, r, c);
    }
  }

  lemma BoxDistinct(g: Grid, b: int, i: int, j: int, r: int, c: int)
    requires IsGrid(g) && 0 <= b < 9 && EachDigitOnce(Box(g, b))
    requires InGrid(i, j) && InGrid(r, c) && (i, j) != (r, c)
    requires b == BoxOf(i, j) && b == BoxOf(r, c)
    ensures g[i][j] != g[r][c]
  {
    CellBox(i, j);
    CellBox(r, c);
    var box := Box(g, b);
    var k, m := PlaceInBox(i, j), PlaceInBox(r, c);
    assert box[k] == g[i][j] && box[m] == g[r][c];
    assert k != m;
  }

  /**
   * When g is a solution s with the one cell (r, c) emptied, a digit passes
   * the check in (r, c) exactly when it is s's own: the missing digit is
   * forced.
   */
  lemma ForcedDigit(g: Grid, s: Grid, r: int, c: int, v: int)
    requires IsSolution(s) && IsGrid(g) && InGrid(r, c) && g[r][c] == 0
    requires forall i, j :: InGrid(i, j) && (i, j) != (r, c) ==> g[i][j] == s[i][j]
    requires 1 <= v <= 9
    ensures !Clash(g, v, r, c) <==> v == s[r][c]
  {
    if v == s[r][c] {
      forall i, j | InGrid(i, j) && SameUnit(i, j, r, c)
        ensures g[i][j] != v
      {
        if (i, j) != (r, c) {
          assert SameUnit(r, c, i, j);
        }
      }
    }
    if !Clash(g, v, r, c) {
      SolutionUnits(s);
      assert v in s[r];
      var j :| 0 <= j < 9 && s[r][j] == v;
    }
  }
}
