/** The search engine: the constraint check, the scan for the first empty
    cell and the in-place backtracking search, over a 9x9 array of cells. */
module Solver {
  import opened Grid

  datatype Option<T> = None | Some(value: T)

  /** The contents of the board as a grid value. */
  function Cells(b: array2<int>): (g: Grid)
    reads b
    ensures |g| == b.Length0
    ensures forall i | 0 <= i < b.Length0 :: |g[i]| == b.Length1
    ensures forall i, j | 0 <= i < b.Length0 && 0 <= j < b.Length1 :: g[i][j] == b[i, j]
  {
    seq(b.Length0, i requires 0 <= i < b.Length0 reads b =>
      seq(b.Length1, j requires 0 <= j < b.Length1 reads b => b[i, j]))
  }

  /** Two grids with the same cells are the same grid. */
  lemma SameCells(g: Grid, h: Grid)
    requires IsGrid(g) && IsGrid(h)
    requires forall i, j | 0 <= i < 9 && 0 <= j < 9 :: g[i][j] == h[i][j]
    ensures g == h
  {
    forall i | 0 <= i < 9 ensures g[i] == h[i] {
      assert forall j | 0 <= j < 9 :: g[i][j] == h[i][j];
    }
  }

  /** `num` may go at (row, col) exactly when it is absent from that row,
      that column and that 3x3 box. */
  method IsValid(board: array2<int>, row: int, col: int, num: int) returns (ok: bool)
    requires board.Length0 == 9 && board.Length1 == 9
    requires 0 <= row < 9 && 0 <= col < 9
    ensures ok == CanPlace(Cells(board), row, col, num)
  {
    for x := 0 to 9
      invariant forall y | 0 <= y < x :: board[row, y] != num
    {
      if board[row, x] == num {
        return false;
      }
    }
    for x := 0 to 9
      invariant forall y | 0 <= y < x :: board[y, col] != num
    {
      if board[x, col] == num {
        return false;
      }
    }
    var startRow := row - row % 3;
    var startCol := col - col % 3;
    assert startRow == BoxStart(row) && startCol == BoxStart(col);
    for i := 0 to 3
      invariant forall i', j' | 0 <= i' < i && 0 <= j' < 3 :: BoxCell(Cells(board), row, col, i', j') != num
    {
      for j := 0 to 3
        invariant forall i', j' | 0 <= i' < i && 0 <= j' < 3 :: BoxCell(Cells(board), row, col, i', j') != num
        invariant forall j' | 0 <= j' < j :: BoxCell(Cells(board), row, col, i, j') != num
      {
        if board[i + startRow, j + startCol] == num {
          assert BoxCell(Cells(board), row, col, i, j) == num;
          return false;
        }
      }
    }
    return true;
  }

  /** The first empty cell in row-major order, or None when there is none. */
  method FindEmptyLocation(board: array2<int>) returns (r: Option<(int, int)>)
    requires board.Length0 == 9 && board.Length1 == 9
    ensures r.None? <==> NoEmpty(Cells(board))
    ensures r.Some? ==> IsFirstEmpty(Cells(board), r.value.0, r.value.1)
  {
    for i := 0 to 9
      invariant forall k, l | 0 <= k < i && 0 <= l < 9 :: board[k, l] != 0
    {
      for j := 0 to 9
        invariant forall k, l | 0 <= k < i && 0 <= l < 9 :: board[k, l] != 0
        invariant forall l | 0 <= l < j :: board[i, l] != 0
      {
        if board[i, j] == 0 {
          return Some((i, j));
        }
      }
    }
    return None;
  }

  /** Depth-first backtracking search in place. On success the board is a
      completion of the entry board; on failure the board is as on entry and
      no completion of the entry board exists. A board with no empty cell is
      reported solved and left as it is, whether or not its digits clash. */
  method SolveSudoku(board: array2<int>) returns (solved: bool)
    requires board.Length0 == 9 && board.Length1 == 9
    modifies board
    ensures solved ==> Completion(old(Cells(board)), Cells(board))
    ensures solved && IsPuzzle(old(Cells(board))) && GivensConsistent(old(Cells(board))) ==>
      IsSolvedSudoku(Cells(board)) && KeepsGivens(old(Cells(board)), Cells(board))
    ensures !solved ==> Cells(board) == old(Cells(board))
    ensures !solved ==> forall g :: !Completion(old(Cells(board)), g)
    ensures NoEmpty(old(Cells(board))) ==> solved && Cells(board) == old(Cells(board))
    decreases EmptyCells(Cells(board))
  {
    ghost var g0 := Cells(board);
    var empty := FindEmptyLocation(board);
    if empty.None? {
      FullGridCompletion(g0, g0);
      if IsPuzzle(g0) && GivensConsistent(g0) {
        CompletionIsSolution(g0, g0);
      }
      return true;
    }
    var row, col := empty.value.0, empty.value.1;
    for num := 1 to 10
      invariant Cells(board) == g0
      invariant forall g | Completion(g0, g) :: g[row][col] >= num
    {
      var ok := IsValid(board, row, col, num);
      if ok {
        board[row, col] := num;
        SameCells(Cells(board), Place(g0, row, col, num));
        EmptyCellsShrink(g0, row, col, num);
        solved := SolveSudoku(board);
        if solved {
          PlaceThenComplete(g0, row, col, num, Cells(board));
          if IsPuzzle(g0) && GivensConsistent(g0) {
            CompletionIsSolution(g0, Cells(board));
          }
          return;
        }
        board[row, col] := 0;
        SameCells(Cells(board), g0);
      }
      forall g | Completion(g0, g) ensures g[row][col] != num {
        CompletionThroughCell(g0, row, col, g);
      }
    }
    solved := false;
  }
}
