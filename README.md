# Sudoku backtracking solver — a verified model

This project models the `Board` class of `sudoku.py`, a 9×9 Sudoku solver. The
board is a grid of integers, row-major, where 0 marks an empty cell and 1..9 a
placed digit. The class finds the first empty cell in row-major order. It checks
whether a digit is absent from a row, a column or a 3×3 block. Its recursive
`solver` writes each admissible guess into the grid in place, recurses, and
resets the cell to 0 when the recursion fails.

Layout:

- `wrappers.dfy` — module `Wrappers`: the `Option` type, standing for a value or Python's `None`.
- `rules.dfy` — module `Rules`: the grid as a value (`Grid = seq<seq<int>>`) and the rules of the game.
  It defines well-formedness (9×9, values 0..9), the row, column and block absence predicates,
  `Consistent` (no nonzero digit repeated among peers), `Full`, `Extends` (clues kept),
  `IsCompletion` and `Solvable`. It also holds the lemmas about placements and solutions.
- `board.dfy` — module `Sudoku`: class `Board`, whose field `board` is the grid that `Solver` rewrites.
  The read-only queries are methods or functions with no `modifies` clause. Each is proved equal to
  its `Rules` specification, so repeated calls on an unchanged grid answer the same.
  `ValidInCol` tests membership in the column, the meaning of the source's `all(...)` over the rows.

What `Solver` is proved to do, for every well-formed 9×9 grid:

- a grid with no empty cell gives `true` and is left unchanged;
- on `true` the grid has no empty cell and every clue (nonzero cell on entry) keeps its value;
- on `true`, if the clues did not clash, the grid is a solution of the puzzle: full, with no digit
  repeated in any row, column or block (`IsCompletion`);
- on `false` the grid equals its value on entry, and no solution of the puzzle exists (`!Solvable`);
- on `true` the grid is no greater in row-major order (`RowMajorLeq`) than any solution of the puzzle.
  So, if the clues did not clash, it is the least solution: at the first cell where it differs from
  any other solution it holds the smaller digit, it is the first solution the digit-by-digit traversal
  reaches, and two runs on the same puzzle leave the same grid (`SolveTwice`). A puzzle with clashing
  clues has no solution, so for it this clause says nothing and the grid left on `true` is not pinned
  down;
- it terminates: every recursive call runs on a grid with one empty cell fewer (`decreases ZeroCount(board)`).

For a puzzle whose clues do not clash, `true` is therefore returned exactly when a solution
exists. The lemmas `SolutionRowHasEveryDigit`, `SolutionColumnHasEveryDigit` and
`SolutionBoxHasEveryDigit` show that in a solution every row, column and block holds each digit
1..9 exactly once. `ClearedCellIsRestored` shows that a solved grid with one cell cleared has that
solution as its only completion. By `Solver`'s contract, solving such a grid therefore succeeds and
restores the cleared digit. `SolveClearedCell` proves this as a verified client of `Solver`'s
contract: it builds a `Board` from such a grid, calls `Solver`, and is proved to end on the solved grid.

A grid whose clues already clash is not always reported unsolvable. When no empty cell remains,
`solver` answers `True` at once (sudoku.py:145-148). When empty cells remain, it can also fill them
and answer `True`, because the clashing clues are never re-examined. The model follows the code:
soundness is stated only for input whose clues do not clash.

## Model

| member | source | states |
|---|---|---|
| `Sudoku.Board.constructor` | sudoku.py:2-7 | the board keeps the caller's 9×9 grid as its state |
| `Sudoku.Board.FindEmptyCell` | sudoku.py:63-75 | returns `None` exactly when no cell is 0; otherwise the returned cell is 0 and every cell before it in row-major order is nonzero |
| `Rules.IndexOf` | sudoku.py:65-73 | `contents.index(0)`: the index of the first occurrence, or `None` exactly when the value does not occur (the `ValueError` path) |
| `Sudoku.Board.ValidInRow` | sudoku.py:78-83 | true iff no cell of the row holds `num` |
| `Sudoku.Board.ValidInCol` | sudoku.py:89-98 | true iff no row 0..8 holds `num` in that column |
| `Sudoku.Board.ValidInSquare` | sudoku.py:102-118 | true iff `num` is absent from the nine cells of the block whose corner is `((row / 3) * 3, (col / 3) * 3)` |
| `Sudoku.Board.IsValid` | sudoku.py:121-139 | true iff the row, column and block checks all hold for the cell; reads only |
| `Sudoku.Board.Solver` | sudoku.py:142-168 | a full grid gives true, unchanged; true leaves a full grid that keeps every clue, and a solution when the clues did not clash; false leaves the grid as on entry, and then no solution exists; on true the grid is no greater in row-major order than any solution, so when the clues did not clash it is the least solution, the first one the guesses 1..9 reach (with clashing clues no solution exists and this says nothing); terminates on the number of empty cells |
| `Rules.PlaceFillsOneCell` | sudoku.py:158-162 | writing a digit into an empty cell lowers the number of empty cells by exactly one, the measure of the recursion |
| `Rules.PlacePreservesConsistency` | sudoku.py:155-160 | placing a digit that passes the three checks at an empty cell keeps a grid with no repeated digit free of repeats |
| `Rules.CompletionDigitIsPlaceable` | sudoku.py:152-168 | every solution of the puzzle puts, at the empty cell, a digit in 1..9 that passes the checks there, and remains a solution once that digit is placed, so the guess loop cannot skip it |
| `Rules.GuessRuledOut` | sudoku.py:155-165 | a guess that fails the checks, or whose recursion found no solution, is the digit of no solution at that cell; after all nine guesses this makes `False` mean the puzzle has no solution |
| `Rules.SolvedAfterPlace` | sudoku.py:160-163 | a full grid reached after placing a guess keeps every clue of the grid before the guess, and if it has no repeated digit it is a solution of that grid |
| `Rules.FullGridIsLeast` | sudoku.py:145-148 | a grid with no empty cell, returned as it is, is no greater in row-major order than any of its solutions (its only one is itself) |
| `Rules.SmallerGuessComesFirst` | sudoku.py:152-162 | a grid reached from a guess smaller than a solution's digit at the first empty cell comes before that solution in row-major order |
| `Rules.FirstSuccessIsLeast` | sudoku.py:152-163 | when no solution has a digit below the current guess at the empty cell, a grid no greater than every solution of the guessed grid is no greater than every solution of the puzzle: the first guess whose recursion succeeds yields the least solution |
| `Rules.RowMajorLeqAntisymmetric` | sudoku.py:142-168 | two grids each no greater than the other are equal, so the least solution `solver` returns is unique |
| `Sudoku.SolveTwice` | sudoku.py:170-174 | two boards built from the same puzzle whose clues do not clash end the search with the same answer and the same grid |
| `Sudoku.SolveClearedCell` | sudoku.py:170-174 | building a `Board` from a solved grid with one cell cleared and running the search restores the solved grid |
| `Rules.SolutionRowHasEveryDigit` | sudoku.py:83 | every row of a solution contains each digit 1..9 (with no repeats, exactly once), so on a solution, such as the grid `solver` returns for clues that do not clash, no digit passes the row check |
| `Rules.SolutionColumnHasEveryDigit` | sudoku.py:94-98 | every column of a solution contains each digit 1..9, so on a solution, such as the grid `solver` returns for clues that do not clash, no digit passes the column check |
| `Rules.SolutionBoxHasEveryDigit` | sudoku.py:108-118 | every 3×3 block of a solution contains each digit 1..9, so on a solution, such as the grid `solver` returns for clues that do not clash, no digit passes the block check |
| `Rules.OneHoleCompletionIsUnique` | sudoku.py:142-168 | a puzzle with a single empty cell has at most one solution |
| `Rules.ClearedCellIsRestored` | sudoku.py:142-168 | clearing one cell of a solution gives a consistent, solvable puzzle whose only solution is the original grid |

## Left out

- `Board.__str__` (sudoku.py:11-61): text rendering with box-drawing borders; presentation only.
- `solve_sudoku` and the hard-coded puzzle (sudoku.py:170-194): a driver that prints before and after the solve; `SolveClearedCell` and `SolveTwice` keep only its build-then-solve call sequence.
- Malformed input: the code does no checking, so a 9×9 grid with values 0..9 is a precondition (`WellFormed`).
- Sharing of the grid: in Python the board is the caller's own list of lists, mutated in place and seen by the caller afterwards. Here the `Board` object owns its grid as a value field that `Solver` reassigns; the effect on the object's state is the same, but aliasing with other references to the grid is not modelled.
- Python's recursion limit and integer representation: recursion depth is at most the number of empty cells (81), and all values stay in 0..9.
- `Sudoku.Board.Solver`: for a puzzle whose clues clash, the contract does not pin down which filled grid `true` leaves or which answer is given, although the code is deterministic there too; characterising that case would need a notion of filling that ignores the clashing clues, which the model does not define.
