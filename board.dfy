/** The puzzle state and its backtracking search (class `Board` of sudoku.py). */
module Sudoku {
  import opened Wrappers
  import opened Rules

  class Board {
    /** The 9×9 grid, rewritten in place by `Solver`. */
    var board: Grid

    ghost predicate Valid()
      reads this
    {
      WellFormed(board)
    }

    constructor (board: Grid)
      requires WellFormed(board)
      ensures Valid() && this.board == board
    {
      this.board := board;
    }

    /** First empty cell in row-major order, or `None` when the grid is full. */
    method FindEmptyCell() returns (empty: Option<(int, int)>)
      requires Valid()
      ensures empty.None? <==> Full(board)
      ensures empty.Some? ==> IsFirstEmpty(board, empty.value.0, empty.value.1)
    {
      for row := 0 to 9
        invariant forall r, c :: 0 <= r < row && 0 <= c < 9 ==> board[r][c] != 0
      {
        var col := IndexOf(board[row], 0);
        if col.Some? {
          return Some((row, col.value));
        }
      }
      return None;
    }

    function ValidInRow(row: int, num: int): (ok: bool)
      reads this
      requires Valid() && 0 <= row < 9
      ensures ok <==> AbsentFromRow(board, row, num)
    {
      num !in board[row]
    }

    function ValidInCol(col: int, num: int): (ok: bool)
      reads this
      requires Valid() && 0 <= col < 9
      ensures ok <==> AbsentFromCol(board, col, num)
    {
      num !in Column(board, col)
    }

    /** Scans the nine cells of the 3×3 block holding (row, col). */
    method ValidInSquare(row: int, col: int, num: int) returns (ok: bool)
      requires Valid() && InGrid(row, col)
      ensures ok <==> AbsentFromBox(board, row, col, num)
    {
      var rowStart := (row / 3) * 3;
      var colStart := (col / 3) * 3;
      for r := rowStart to rowStart + 3
        invariant forall i, j :: rowStart <= i < r && colStart <= j < colStart + 3 ==> board[i][j] != num
      {
        for c := colStart to colStart + 3
          invariant forall i, j :: rowStart <= i < r && colStart <= j < colStart + 3 ==> board[i][j] != num
          invariant forall j :: colStart <= j < c ==> board[r][j] != num
        {
          if board[r][c] == num {
            return false;
          }
        }
      }
      return true;
    }

    /** `num` may go at `empty`: it is absent from that cell's row, column and block. */
    method IsValid(empty: (int, int), num: int) returns (ok: bool)
      requires Valid() && InGrid(empty.0, empty.1)
      ensures ok <==> CanPlace(board, empty.0, empty.1, num)
    {
      var (row, col) := empty;
      var validInRow := ValidInRow(row, num);
      var validInCol := ValidInCol(col, num);
      var validInSquare := ValidInSquare(row, col, num);
      ok := validInRow && validInCol && validInSquare;
    }

    /** Backtracking search: fills the first empty cell with each digit 1..9 that
        passes `IsValid`, recurses, and resets the cell to 0 when the recursion fails. */
    method Solver() returns (solved: bool)
      requires Valid()
      modifies this
      ensures Valid()
      ensures Full(old(board)) ==> solved && board == old(board)
      ensures solved ==> Full(board) && Extends(old(board), board)
      ensures solved && Consistent(old(board)) ==> IsCompletion(old(board), board)
      ensures !solved ==> board == old(board) && !Solvable(old(board))
      ensures solved ==> forall h :: IsCompletion(old(board), h) ==> RowMajorLeq(board, h)
      decreases ZeroCount(board)
    {
      var nextEmpty := FindEmptyCell();
      if nextEmpty.None? {
        forall h | IsCompletion(board, h) ensures RowMajorLeq(board, h) {
          FullGridIsLeast(board, h);
        }
        return true;
      }
      var (row, col) := nextEmpty.value;
      ghost var start := board;
      for guess := 1 to 10
        invariant board == start
        invariant forall h :: IsCompletion(start, h) ==> guess <= h[row][col]
      {
        var ok := IsValid(nextEmpty.value, guess);
        if ok {
          board := board[row := board[row][col := guess]];
          PlaceFillsOneCell(start, row, col, guess);
          if Consistent(start) {
            PlacePreservesConsistency(start, row, col, guess);
          }
          solved := Solver();
          if solved {
            SolvedAfterPlace(start, row, col, guess, board);
            FirstSuccessIsLeast(start, row, col, guess, board);
            return true;
          }
          board := board[row := board[row][col := 0]];
          assert board[row] == start[row];
        }
        GuessRuledOut(start, row, col, guess);
      }
      return false;
    }
  }

  /** A solved grid with one cell cleared: building a board from it and running
      the search succeeds and puts the cleared digit back. */
  method SolveClearedCell(h: Grid, row: int, col: int) returns (b: Board)
    requires IsSolution(h) && InGrid(row, col)
    ensures b.Valid() && b.board == h
  {
    ClearedCellIsRestored(h, row, col);
    b := new Board(Place(h, row, col, 0));
    var solved := b.Solver();
    assert solved;
  }

  /** Two boards built from the same puzzle whose clues do not clash end the search
      with the same answer and the same grid. */
  method SolveTwice(g: Grid) returns (s1: bool, s2: bool, b1: Board, b2: Board)
    requires WellFormed(g) && Consistent(g)
    ensures s1 == s2 && b1.board == b2.board
  {
    b1 := new Board(g);
    s1 := b1.Solver();
    b2 := new Board(g);
    s2 := b2.Solver();
    if s1 && s2 {
      RowMajorLeqAntisymmetric(b1.board, b2.board);
    }
  }
}
