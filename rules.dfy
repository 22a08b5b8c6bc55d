/** The rules of 9×9 Sudoku over a grid of integers, row-major, where 0 marks an
    empty cell and 1..9 a placed digit. Everything here is a pure value: the
    `Sudoku.Board` class keeps a `Grid` and is specified with these definitions. */
module Rules {
  import opened Wrappers

  type Grid = seq<seq<int>>

  predicate InGrid(r: int, c: int) {
    0 <= r < 9 && 0 <= c < 9
  }

  /** Nine rows of nine cells, each holding 0..9. */
  predicate WellFormed(g: Grid) {
    |g| == 9 && forall r :: 0 <= r < 9 ==> |g[r]| == 9 && forall c :: 0 <= c < 9 ==> 0 <= g[r][c] <= 9
  }

  /** First row (or column) of the 3×3 block holding index `i`. */
  function BoxStart(i: int): int {
    (i / 3) * 3
  }

  /** Cell (r, c) lies in the 3×3 block that holds (row, col). */
  predicate InBox(row: int, col: int, r: int, c: int) {
    BoxStart(row) <= r < BoxStart(row) + 3 && BoxStart(col) <= c < BoxStart(col) + 3
  }

  /** Two distinct cells that share a row, a column or a 3×3 block. */
  predicate Peers(r1: int, c1: int, r2: int, c2: int) {
    (r1 != r2 || c1 != c2) &&
    (r1 == r2 || c1 == c2 || (BoxStart(r1) == BoxStart(r2) && BoxStart(c1) == BoxStart(c2)))
  }

  /** The column `col`, top to bottom: a digit is missing from it exactly when
      it is absent from every row of that column. */
  function Column(g: Grid, col: int): (s: seq<int>)
    requires WellFormed(g) && 0 <= col < 9
    ensures |s| == 9
    ensures forall num :: num !in s <==> AbsentFromCol(g, col, num)
  {
    var s := seq(9, r requires 0 <= r < 9 => g[r][col]);
    assert forall r :: 0 <= r < 9 ==> s[r] == g[r][col];
    s
  }

  /** The 3×3 block holding (row, col), read row by row: its nine entries are
      exactly the cells that `InBox` describes. */
  function Box(g: Grid, row: int, col: int): (s: seq<int>)
    requires WellFormed(g) && InGrid(row, col)
    ensures |s| == 9
    ensures forall num :: num !in s <==> AbsentFromBox(g, row, col, num)
  {
    var s := seq(9, k requires 0 <= k < 9 => g[BoxStart(row) + k / 3][BoxStart(col) + k % 3]);
    BoxReadsBlock(g, row, col, s);
    s
  }

  lemma BoxOffset(dr: int, dc: int)
    requires 0 <= dr < 3 && 0 <= dc < 3
    ensures (dr * 3 + dc) / 3 == dr && (dr * 3 + dc) % 3 == dc
  {
  }

  /** A block read row by row holds a digit exactly when some cell of the block does. */
  lemma BoxReadsBlock(g: Grid, row: int, col: int, s: seq<int>)
    requires WellFormed(g) && InGrid(row, col)
    requires |s| == 9 && forall k :: 0 <= k < 9 ==> s[k] == g[BoxStart(row) + k / 3][BoxStart(col) + k % 3]
    ensures forall num :: num !in s <==> AbsentFromBox(g, row, col, num)
  {
    var r0, c0 := BoxStart(row), BoxStart(col);
    forall num ensures num !in s <==> AbsentFromBox(g, row, col, num) {
      if num in s {
        var k :| 0 <= k < 9 && s[k] == num;
        assert InBox(row, col, r0 + k / 3, c0 + k % 3);
      } else {
        forall r, c | InBox(row, col, r, c) ensures g[r][c] != num {
          BoxOffset(r - r0, c - c0);
          var k := (r - r0) * 3 + (c - c0);
          assert s[k] == g[r][c];
        }
      }
    }
  }

  predicate AbsentFromRow(g: Grid, row: int, num: int)
    requires WellFormed(g) && 0 <= row < 9
  {
    forall c :: 0 <= c < 9 ==> g[row][c] != num
  }

  predicate AbsentFromCol(g: Grid, col: int, num: int)
    requires WellFormed(g) && 0 <= col < 9
  {
    forall r :: 0 <= r < 9 ==> g[r][col] != num
  }

  ghost predicate AbsentFromBox(g: Grid, row: int, col: int, num: int)
    requires WellFormed(g) && InGrid(row, col)
  {
    forall r, c :: InBox(row, col, r, c) ==> g[r][c] != num
  }

  /** `num` appears nowhere in the row, the column or the block of (row, col). */
  ghost predicate CanPlace(g: Grid, row: int, col: int, num: int)
    requires WellFormed(g) && InGrid(row, col)
  {
    AbsentFromRow(g, row, num) && AbsentFromCol(g, col, num) && AbsentFromBox(g, row, col, num)
  }

  /** No nonzero digit is repeated in any row, column or 3×3 block. */
  predicate Consistent(g: Grid)
    requires WellFormed(g)
  {
    forall r1, c1, r2, c2 ::
      (0 <= r1 < 9 && 0 <= c1 < 9 && 0 <= r2 < 9 && 0 <= c2 < 9 &&
       Peers(r1, c1, r2, c2) && g[r1][c1] != 0) ==> g[r1][c1] != g[r2][c2]
  }

  /** No cell is empty. */
  predicate Full(g: Grid)
    requires WellFormed(g)
  {
    forall r, c :: 0 <= r < 9 && 0 <= c < 9 ==> g[r][c] != 0
  }

  /** `h` keeps every clue (nonzero cell) of `g`. */
  predicate Extends(g: Grid, h: Grid)
    requires WellFormed(g) && WellFormed(h)
  {
    forall r, c :: 0 <= r < 9 && 0 <= c < 9 && g[r][c] != 0 ==> h[r][c] == g[r][c]
  }

  /** A solved grid: full, and no digit repeated in a row, column or block. */
  predicate IsSolution(h: Grid) {
    WellFormed(h) && Full(h) && Consistent(h)
  }

  /** `h` is a solution that keeps the clues of `g`. */
  predicate IsCompletion(g: Grid, h: Grid)
    requires WellFormed(g)
  {
    IsSolution(h) && Extends(g, h)
  }

  ghost predicate Solvable(g: Grid)
    requires WellFormed(g)
  {
    exists h :: IsCompletion(g, h)
  }

  /** (row, col) is empty and every cell before it in row-major order is filled. */
  predicate IsFirstEmpty(g: Grid, row: int, col: int)
    requires WellFormed(g)
  {
    InGrid(row, col) && g[row][col] == 0 &&
    forall r, c :: 0 <= r < 9 && 0 <= c < 9 && (r < row || (r == row && c < col)) ==> g[r][c] != 0
  }

  /** Cell (r1, c1) comes before (r2, c2) in row-major order. */
  predicate Before(r1: int, c1: int, r2: int, c2: int) {
    r1 < r2 || (r1 == r2 && c1 < c2)
  }

  /** `a` and `b` hold the same value in every cell before (row, col). */
  predicate AgreeBefore(a: Grid, b: Grid, row: int, col: int)
    requires WellFormed(a) && WellFormed(b)
  {
    forall r, c :: 0 <= r < 9 && 0 <= c < 9 && Before(r, c, row, col) ==> a[r][c] == b[r][c]
  }

  /** `a` is `b`, or comes first when the two are compared cell by cell in
      row-major order: the order in which the search meets solutions. */
  ghost predicate RowMajorLeq(a: Grid, b: Grid)
    requires WellFormed(a) && WellFormed(b)
  {
    a == b || exists row, col :: InGrid(row, col) && AgreeBefore(a, b, row, col) && a[row][col] < b[row][col]
  }

  /** The grid with (row, col) set to `v` and every other cell as it was. */
  function Place(g: Grid, row: int, col: int, v: int): (p: Grid)
    requires WellFormed(g) && InGrid(row, col) && 0 <= v <= 9
    ensures WellFormed(p)
    ensures p[row][col] == v
    ensures forall r, c :: 0 <= r < 9 && 0 <= c < 9 && (r != row || c != col) ==> p[r][c] == g[r][c]
  {
    g[row := g[row][col := v]]
  }

  /** Index of the first `x` in `s`, if any (Python's `list.index`, whose
      `ValueError` becomes `None`). */
  function IndexOf(s: seq<int>, x: int): (i: Option<nat>)
    ensures i.Some? ==> i.value < |s| && s[i.value] == x && forall j :: 0 <= j < i.value ==> s[j] != x
    ensures i.None? <==> x !in s
  {
    if |s| == 0 then None
    else if s[0] == x then Some(0)
    else
      match IndexOf(s[1..], x)
      case None => None
      case Some(k) => Some(k + 1)
  }

  function Occurrences(s: seq<int>, x: int): nat {
    if |s| == 0 then 0 else (if s[0] == x then 1 else 0) + Occurrences(s[1..], x)
  }

  /** Number of empty cells: the measure that every recursive solver call lowers. */
  function ZeroCount(g: Grid): nat {
    if |g| == 0 then 0 else Occurrences(g[0], 0) + ZeroCount(g[1..])
  }

  // ---------------------------------------------------------------------------
  // Lemmas

  lemma {:induction false} OccurrencesAfterUpdate(s: seq<int>, i: int, v: int, x: int)
    requires 0 <= i < |s|
    ensures Occurrences(s[i := v], x) + (if s[i] == x then 1 else 0)
         == Occurrences(s, x) + (if v == x then 1 else 0)
  {
    if i > 0 {
      assert s[i := v][1..] == s[1..][i - 1 := v];
      OccurrencesAfterUpdate(s[1..], i - 1, v, x);
    } else {
      assert s[i := v][1..] == s[1..];
    }
  }

  lemma {:induction false} ZeroCountAfterRowUpdate(g: Grid, row: int, newRow: seq<int>)
    requires 0 <= row < |g|
    ensures ZeroCount(g[row := newRow]) + Occurrences(g[row], 0) == ZeroCount(g) + Occurrences(newRow, 0)
  {
    if row > 0 {
      assert g[row := newRow][1..] == g[1..][row - 1 := newRow];
      ZeroCountAfterRowUpdate(g[1..], row - 1, newRow);
    } else {
      assert g[row := newRow][1..] == g[1..];
    }
  }

  /** Filling an empty cell with a digit removes exactly one empty cell. */
  lemma PlaceFillsOneCell(g: Grid, row: int, col: int, v: int)
    requires WellFormed(g) && InGrid(row, col) && g[row][col] == 0 && 1 <= v <= 9
    ensures ZeroCount(Place(g, row, col, v)) == ZeroCount(g) - 1
  {
    OccurrencesAfterUpdate(g[row], col, v, 0);
    ZeroCountAfterRowUpdate(g, row, g[row][col := v]);
  }

  lemma SameBoxIffInBox(row: int, col: int, r: int, c: int)
    requires InGrid(row, col) && InGrid(r, c)
    ensures InBox(row, col, r, c) <==> BoxStart(row) == BoxStart(r) && BoxStart(col) == BoxStart(c)
  {
  }

  /** A digit that passes the row, column and block checks at an empty cell
      keeps a consistent grid consistent. */
  lemma PlacePreservesConsistency(g: Grid, row: int, col: int, v: int)
    requires WellFormed(g) && Consistent(g) && InGrid(row, col) && g[row][col] == 0
    requires 1 <= v <= 9 && CanPlace(g, row, col, v)
    ensures Consistent(Place(g, row, col, v))
  {
  }

  /** Every completion of `g` writes, at an empty cell, a digit that passes the
      checks there, and it is also a completion once that digit is placed. */
  lemma CompletionDigitIsPlaceable(g: Grid, h: Grid, row: int, col: int)
    requires WellFormed(g) && IsCompletion(g, h) && InGrid(row, col) && g[row][col] == 0
    ensures 1 <= h[row][col] <= 9
    ensures CanPlace(g, row, col, h[row][col])
    ensures IsCompletion(Place(g, row, col, h[row][col]), h)
  {
    var v := h[row][col];
    forall r, c | InBox(row, col, r, c) ensures g[r][c] != v {
      if g[r][c] != 0 && (r != row || c != col) {
        SameBoxIffInBox(row, col, r, c);
        assert Peers(row, col, r, c);
      }
    }
    forall c | 0 <= c < 9 ensures g[row][c] != v {
      if g[row][c] != 0 {
        assert Peers(row, col, row, c);
      }
    }
    forall r | 0 <= r < 9 ensures g[r][col] != v {
      if g[r][col] != 0 {
        assert Peers(row, col, r, col);
      }
    }
  }

  /** A guess that fails the checks, or after which the puzzle has no solution,
      is the digit of no solution at that cell. */
  lemma GuessRuledOut(g: Grid, row: int, col: int, guess: int)
    requires WellFormed(g) && InGrid(row, col) && g[row][col] == 0 && 1 <= guess <= 9
    requires !CanPlace(g, row, col, guess) || !Solvable(Place(g, row, col, guess))
    ensures forall h :: IsCompletion(g, h) ==> h[row][col] != guess
  {
    forall h | IsCompletion(g, h) ensures h[row][col] != guess {
      CompletionDigitIsPlaceable(g, h, row, col);
    }
  }

  /** A solution reached after placing a digit at an empty cell keeps the
      clues of the grid before the placement. */
  lemma SolvedAfterPlace(g: Grid, row: int, col: int, guess: int, h: Grid)
    requires WellFormed(g) && InGrid(row, col) && g[row][col] == 0 && 1 <= guess <= 9
    requires WellFormed(h) && Extends(Place(g, row, col, guess), h)
    ensures Extends(g, h)
    ensures Consistent(h) && Full(h) ==> IsCompletion(g, h)
  {
    var p := Place(g, row, col, guess);
    forall r, c | 0 <= r < 9 && 0 <= c < 9 && g[r][c] != 0 ensures h[r][c] == g[r][c] {
      assert p[r][c] == g[r][c];
    }
  }

  /** Two grids each no later than the other in row-major order are equal, so a
      least solution, when one exists, is unique. */
  lemma RowMajorLeqAntisymmetric(a: Grid, b: Grid)
    requires WellFormed(a) && WellFormed(b)
    requires RowMajorLeq(a, b) && RowMajorLeq(b, a)
    ensures a == b
  {
  }

  /** A full grid is its own only completion. */
  lemma FullGridIsLeast(g: Grid, h: Grid)
    requires WellFormed(g) && Full(g) && IsCompletion(g, h)
    ensures RowMajorLeq(g, h)
  {
    forall r | 0 <= r < 9 ensures g[r] == h[r] {
      assert forall c :: 0 <= c < 9 ==> g[r][c] == h[r][c];
    }
  }

  /** After a guess at the first empty cell, any grid that keeps the guess and
      every clue comes before each solution with a larger digit there, since
      all earlier cells are clues. */
  lemma SmallerGuessComesFirst(g: Grid, row: int, col: int, guess: int, result: Grid, h: Grid)
    requires WellFormed(g) && IsFirstEmpty(g, row, col) && 1 <= guess <= 9
    requires WellFormed(result) && Extends(Place(g, row, col, guess), result)
    requires IsCompletion(g, h) && guess < h[row][col]
    ensures RowMajorLeq(result, h)
  {
    var p := Place(g, row, col, guess);
    assert result[row][col] == guess;
    forall r, c | 0 <= r < 9 && 0 <= c < 9 && Before(r, c, row, col) ensures result[r][c] == h[r][c] {
      assert g[r][c] != 0 && p[r][c] == g[r][c];
    }
    assert AgreeBefore(result, h, row, col);
  }

  /** The search's first success is the least solution: guesses below `guess`
      lead to no solution, and the recursion returned the least solution of the
      grid with `guess` placed. */
  lemma FirstSuccessIsLeast(g: Grid, row: int, col: int, guess: int, result: Grid)
    requires WellFormed(g) && IsFirstEmpty(g, row, col) && 1 <= guess <= 9
    requires WellFormed(result) && Extends(Place(g, row, col, guess), result)
    requires forall h :: IsCompletion(g, h) ==> guess <= h[row][col]
    requires forall h :: IsCompletion(Place(g, row, col, guess), h) ==> RowMajorLeq(result, h)
    ensures forall h :: IsCompletion(g, h) ==> RowMajorLeq(result, h)
  {
    forall h | IsCompletion(g, h) ensures RowMajorLeq(result, h) {
      CompletionDigitIsPlaceable(g, h, row, col);
      if guess < h[row][col] {
        SmallerGuessComesFirst(g, row, col, guess, result, h);
      }
    }
  }

  /** A sequence of pairwise distinct values drawn from a set is no longer than the set. */
  lemma {:induction false} DistinctWithin(s: seq<int>, within: set<int>)
    requires forall i :: 0 <= i < |s| ==> s[i] in within
    requires forall i, j :: 0 <= i < j < |s| ==> s[i] != s[j]
    ensures |s| <= |within|
  {
    if |s| > 0 {
      var last := s[|s| - 1];
      DistinctWithin(s[..|s| - 1], within - {last});
    }
  }

  /** Nine pairwise distinct digits in 1..9 include every digit. */
  lemma NineDistinctDigitsCoverAll(s: seq<int>, d: int)
    requires |s| == 9 && forall i :: 0 <= i < 9 ==> 1 <= s[i] <= 9
    requires forall i, j :: 0 <= i < j < 9 ==> s[i] != s[j]
    requires 1 <= d <= 9
    ensures d in s
  {
    if d !in s {
      var digits := {1, 2, 3, 4, 5, 6, 7, 8, 9};
      assert |digits - {d}| == 8;
      DistinctWithin(s, digits - {d});
    }
  }

  /** The k-th cell of a block, read row by row, lies in that block, and
      distinct k give distinct cells. */
  lemma BoxCell(row: int, k: int)
    requires 0 <= row < 9 && 0 <= k < 9
    ensures 0 <= BoxStart(row) + k / 3 < 9 && BoxStart(BoxStart(row) + k / 3) == BoxStart(row)
  {
  }

  lemma BoxIndexInjective(i: int, j: int)
    requires 0 <= i < j < 9
    ensures i / 3 != j / 3 || i % 3 != j % 3
  {
  }

  lemma SolutionRowHasEveryDigit(h: Grid, row: int, d: int)
    requires IsSolution(h) && 0 <= row < 9 && 1 <= d <= 9
    ensures d in h[row]
  {
    forall i, j | 0 <= i < j < 9 ensures h[row][i] != h[row][j] {
      assert Peers(row, i, row, j);
    }
    NineDistinctDigitsCoverAll(h[row], d);
  }

  lemma SolutionColumnHasEveryDigit(h: Grid, col: int, d: int)
    requires IsSolution(h) && 0 <= col < 9 && 1 <= d <= 9
    ensures d in Column(h, col)
  {
    var column := Column(h, col);
    forall i, j | 0 <= i < j < 9 ensures column[i] != column[j] {
      assert Peers(i, col, j, col);
    }
    NineDistinctDigitsCoverAll(column, d);
  }

  /** The i-th and j-th cells of a block, read row by row, are peers. */
  lemma BoxCellsArePeers(row: int, col: int, i: int, j: int)
    requires InGrid(row, col) && 0 <= i < j < 9
    ensures InGrid(BoxStart(row) + i / 3, BoxStart(col) + i % 3)
    ensures InGrid(BoxStart(row) + j / 3, BoxStart(col) + j % 3)
    ensures Peers(BoxStart(row) + i / 3, BoxStart(col) + i % 3, BoxStart(row) + j / 3, BoxStart(col) + j % 3)
  {
    BoxCell(row, i);
    BoxCell(col, i % 3);
    BoxCell(row, j);
    BoxCell(col, j % 3);
    BoxIndexInjective(i, j);
  }

  lemma SolutionBoxHasEveryDigit(h: Grid, row: int, col: int, d: int)
    requires IsSolution(h) && InGrid(row, col) && 1 <= d <= 9
    ensures d in Box(h, row, col)
  {
    var box := Box(h, row, col);
    var r0, c0 := BoxStart(row), BoxStart(col);
    forall i, j | 0 <= i < j < 9 ensures box[i] != box[j] {
      BoxCellsArePeers(row, col, i, j);
      var r1, c1, r2, c2 := r0 + i / 3, c0 + i % 3, r0 + j / 3, c0 + j % 3;
      assert box[i] == h[r1][c1] && box[j] == h[r2][c2];
      assert h[r1][c1] != 0;
    }
    forall k | 0 <= k < 9 ensures 1 <= box[k] <= 9 {
      BoxCell(row, k);
      BoxCell(col, k % 3);
      var r, c := r0 + k / 3, c0 + k % 3;
      assert box[k] == h[r][c] && h[r][c] != 0;
    }
    NineDistinctDigitsCoverAll(box, d);
  }

  /** A grid with a single empty cell has at most one completion: the digit
      missing from that cell's row. */
  lemma OneHoleCompletionIsUnique(g: Grid, row: int, col: int, h1: Grid, h2: Grid)
    requires WellFormed(g) && InGrid(row, col)
    requires forall r, c :: 0 <= r < 9 && 0 <= c < 9 && (r != row || c != col) ==> g[r][c] != 0
    requires IsCompletion(g, h1) && IsCompletion(g, h2)
    ensures h1 == h2
  {
    var d := h1[row][col];
    SolutionRowHasEveryDigit(h2, row, d);
    var c' :| 0 <= c' < 9 && h2[row][c'] == d;
    if c' != col {
      assert h1[row][c'] == g[row][c'] == h2[row][c'];
      assert Peers(row, c', row, col);
    }
    forall r | 0 <= r < 9 ensures h1[r] == h2[r] {
      assert forall c :: 0 <= c < 9 ==> h1[r][c] == h2[r][c];
    }
  }

  /** Clearing one cell of a solution gives a consistent, solvable puzzle whose
      only completion is that solution. */
  lemma ClearedCellIsRestored(h: Grid, row: int, col: int)
    requires IsSolution(h) && InGrid(row, col)
    ensures Consistent(Place(h, row, col, 0))
    ensures Solvable(Place(h, row, col, 0))
    ensures forall h' :: IsCompletion(Place(h, row, col, 0), h') ==> h' == h
  {
    var g := Place(h, row, col, 0);
    assert IsCompletion(g, h);
    forall h' | IsCompletion(g, h') ensures h' == h {
      OneHoleCompletionIsUnique(g, row, col, h', h);
    }
  }
}
