/** Specification of a 9x9 Sudoku grid as a value: rows of cells, 0 meaning
    empty. The solver's array is related to these definitions by a snapshot. */
module Grid {

  type Grid = seq<seq<int>>

  /** Exactly 9 rows of exactly 9 cells. */
  predicate IsGrid(g: Grid)
  {
    |g| == 9 && forall i | 0 <= i < 9 :: |g[i]| == 9
  }

  /** A grid whose every cell is 0 (empty) or a digit 1..9. */
  predicate IsPuzzle(g: Grid)
  {
    IsGrid(g) && forall i, j | 0 <= i < 9 && 0 <= j < 9 :: 0 <= g[i][j] <= 9
  }

  /** First row (or column) of the 3x3 box that holds index k. */
  function BoxStart(k: int): (s: int)
    requires 0 <= k < 9
    ensures s == 0 || s == 3 || s == 6
    ensures s <= k < s + 3
  {
    k - k % 3
  }

  /** The check made before a digit is written at (row, col): `num` is absent
      from the row, from the column and from the 3x3 box anchored at
      (BoxStart(row), BoxStart(col)). The target cell is scanned as well. */
  predicate CanPlace(g: Grid, row: int, col: int, num: int)
    requires IsGrid(g) && 0 <= row < 9 && 0 <= col < 9
  {
    (forall x | 0 <= x < 9 :: g[row][x] != num) &&
    (forall x | 0 <= x < 9 :: g[x][col] != num) &&
    (forall i, j | 0 <= i < 3 && 0 <= j < 3 :: BoxCell(g, row, col, i, j) != num)
  }

  /** The cell at offset (i, j) inside the box that holds (row, col). */
  function BoxCell(g: Grid, row: int, col: int, i: int, j: int): int
    requires IsGrid(g) && 0 <= row < 9 && 0 <= col < 9 && 0 <= i < 3 && 0 <= j < 3
  {
    g[BoxStart(row) + i][BoxStart(col) + j]
  }

  /** (k, l) is another cell of the same row, column or box as (i, j). */
  predicate Peers(i: int, j: int, k: int, l: int)
    requires 0 <= i < 9 && 0 <= j < 9 && 0 <= k < 9 && 0 <= l < 9
  {
    (i != k || j != l) &&
    (i == k || j == l || (BoxStart(i) == BoxStart(k) && BoxStart(j) == BoxStart(l)))
  }

  /** No peer of (i, j) holds the value of (i, j). */
  predicate ClashFree(g: Grid, i: int, j: int)
    requires IsGrid(g) && 0 <= i < 9 && 0 <= j < 9
  {
    forall k, l | 0 <= k < 9 && 0 <= l < 9 && Peers(i, j, k, l) :: g[k][l] != g[i][j]
  }

  /** No cell is empty. */
  predicate NoEmpty(g: Grid)
    requires IsGrid(g)
  {
    forall i, j | 0 <= i < 9 && 0 <= j < 9 :: g[i][j] != 0
  }

  /** (i, j) is empty and every cell before it in row-major order is not. */
  predicate IsFirstEmpty(g: Grid, i: int, j: int)
    requires IsGrid(g)
  {
    0 <= i < 9 && 0 <= j < 9 && g[i][j] == 0 &&
    forall k, l | 0 <= k < 9 && 0 <= l < 9 && (k < i || (k == i && l < j)) :: g[k][l] != 0
  }

  /** The coordinates of the empty cells. */
  function EmptyCells(g: Grid): set<(int, int)>
    requires IsGrid(g)
  {
    set i, j | 0 <= i < 9 && 0 <= j < 9 && g[i][j] == 0 :: (i, j)
  }

  /** g with cell (r, c) set to v. */
  function Place(g: Grid, r: int, c: int, v: int): (h: Grid)
    requires IsGrid(g) && 0 <= r < 9 && 0 <= c < 9
    ensures IsGrid(h) && h[r][c] == v
    ensures forall i, j | 0 <= i < 9 && 0 <= j < 9 && (i != r || j != c) :: h[i][j] == g[i][j]
  {
    g[r := g[r][c := v]]
  }

  /** What the solver produces from g0: every given (non-zero) cell is kept,
      and every empty cell now holds a digit 1..9 that no peer holds. */
  predicate Completion(g0: Grid, g: Grid)
    requires IsGrid(g0)
  {
    IsGrid(g) &&
    forall i, j | 0 <= i < 9 && 0 <= j < 9 ::
      if g0[i][j] == 0 then 1 <= g[i][j] <= 9 && ClashFree(g, i, j)
      else g[i][j] == g0[i][j]
  }

  /** Every given cell of g0 has the same value in g. */
  predicate KeepsGivens(g0: Grid, g: Grid)
    requires IsGrid(g0) && IsGrid(g)
  {
    forall i, j | 0 <= i < 9 && 0 <= j < 9 && g0[i][j] != 0 :: g[i][j] == g0[i][j]
  }

  /** No two given cells that are peers hold the same value. */
  predicate GivensConsistent(g0: Grid)
    requires IsGrid(g0)
  {
    forall i, j | 0 <= i < 9 && 0 <= j < 9 && g0[i][j] != 0 ::
      forall k, l | 0 <= k < 9 && 0 <= l < 9 && g0[k][l] != 0 && Peers(i, j, k, l) :: g0[k][l] != g0[i][j]
  }

  /** A solved Sudoku: every cell is a digit 1..9 that no peer holds. */
  predicate IsSolvedSudoku(g: Grid)
  {
    IsGrid(g) && forall i, j | 0 <= i < 9 && 0 <= j < 9 :: 1 <= g[i][j] <= 9 && ClashFree(g, i, j)
  }

  lemma BoxStartOfBoxCell(k: int, i: int)
    requires 0 <= k < 9 && 0 <= i < 3
    ensures BoxStart(k) + i < 9 && BoxStart(BoxStart(k) + i) == BoxStart(k)
  {
  }

  /** The check is exactly "num differs from the target cell and from every
      peer of the target cell". */
  lemma CanPlaceIffAbsentFromPeers(g: Grid, r: int, c: int, num: int)
    requires IsGrid(g) && 0 <= r < 9 && 0 <= c < 9
    ensures CanPlace(g, r, c, num) <==>
      g[r][c] != num && forall k, l | 0 <= k < 9 && 0 <= l < 9 && Peers(r, c, k, l) :: g[k][l] != num
  {
    if CanPlace(g, r, c, num) {
      forall k, l | 0 <= k < 9 && 0 <= l < 9 && Peers(r, c, k, l) ensures g[k][l] != num {
        if k != r && l != c {
          assert BoxCell(g, r, c, k - BoxStart(k), l - BoxStart(l)) != num;
        }
      }
    }
    if g[r][c] != num && forall k, l | 0 <= k < 9 && 0 <= l < 9 && Peers(r, c, k, l) :: g[k][l] != num {
      forall i, j | 0 <= i < 3 && 0 <= j < 3 ensures BoxCell(g, r, c, i, j) != num {
        BoxStartOfBoxCell(r, i);
        BoxStartOfBoxCell(c, j);
        if BoxStart(r) + i != r || BoxStart(c) + j != c {
          assert Peers(r, c, BoxStart(r) + i, BoxStart(c) + j);
        }
      }
      forall x | 0 <= x < 9 ensures g[r][x] != num && g[x][c] != num {
        if x != c { assert Peers(r, c, r, x); }
        if x != r { assert Peers(r, c, x, c); }
      }
    }
  }

  /** Writing a non-zero value into an empty cell removes exactly that cell
      from the empty cells, so the set strictly shrinks. */
  lemma EmptyCellsShrink(g: Grid, r: int, c: int, v: int)
    requires IsGrid(g) && 0 <= r < 9 && 0 <= c < 9 && g[r][c] == 0 && v != 0
    ensures EmptyCells(Place(g, r, c, v)) == EmptyCells(g) - {(r, c)}
    ensures EmptyCells(Place(g, r, c, v)) < EmptyCells(g)
  {
  }

  /** A grid with no empty cell is its own (and only) completion. */
  lemma FullGridCompletion(g0: Grid, g: Grid)
    requires IsGrid(g0) && NoEmpty(g0)
    ensures Completion(g0, g0)
    ensures IsGrid(g) ==> (Completion(g0, g) <==> g == g0)
  {
    if IsGrid(g) && Completion(g0, g) {
      forall i | 0 <= i < 9 ensures g[i] == g0[i] {
        assert forall j | 0 <= j < 9 :: g[i][j] == g0[i][j];
      }
    }
  }

  /** Success step of the search: a digit that passes the check at the empty
      cell (r, c), followed by a completion of the grid with that digit in
      place, is a completion of the grid before the write. */
  lemma PlaceThenComplete(g0: Grid, r: int, c: int, d: int, g: Grid)
    requires IsGrid(g0) && 0 <= r < 9 && 0 <= c < 9 && g0[r][c] == 0
    requires 1 <= d <= 9 && CanPlace(g0, r, c, d)
    requires Completion(Place(g0, r, c, d), g)
    ensures Completion(g0, g)
  {
    var h := Place(g0, r, c, d);
    CanPlaceIffAbsentFromPeers(g0, r, c, d);
    assert g[r][c] == d;
    forall k, l | 0 <= k < 9 && 0 <= l < 9 && Peers(r, c, k, l) ensures g[k][l] != g[r][c] {
      if g0[k][l] == 0 {
        assert h[k][l] == 0 && ClashFree(g, k, l) && Peers(k, l, r, c);
      } else {
        assert h[k][l] == g0[k][l];
      }
    }
    assert ClashFree(g, r, c);
  }

  /** Backtracking step of the search, read backwards: any completion of g0
      puts at the empty cell (r, c) a digit that passes the check there, and
      is a completion of g0 with that digit in place. */
  lemma CompletionThroughCell(g0: Grid, r: int, c: int, g: Grid)
    requires IsGrid(g0) && 0 <= r < 9 && 0 <= c < 9 && g0[r][c] == 0
    requires Completion(g0, g)
    ensures 1 <= g[r][c] <= 9 && CanPlace(g0, r, c, g[r][c])
    ensures Completion(Place(g0, r, c, g[r][c]), g)
  {
  }

  /** When the givens are mutually consistent and in range, the completions
      are exactly the solved Sudokus that keep the givens. */
  lemma CompletionIsSolution(g0: Grid, g: Grid)
    requires IsPuzzle(g0) && GivensConsistent(g0) && IsGrid(g)
    ensures Completion(g0, g) <==> IsSolvedSudoku(g) && KeepsGivens(g0, g)
  {
  }
}
