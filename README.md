# Sudoku solver core, modelled in Dafny

This project models the algorithmic core of a small Sudoku-solving web service:
the structural check applied to a decoded board (`validate_board`), the
placement check (`is_valid`), the scan for the first empty cell
(`find_empty_location`) and the depth-first backtracking search that fills the
board in place (`solve_sudoku`).

- `grid.dfy`, module `Grid`: the board as a value (`seq<seq<int>>`, 0 = empty)
  and the specification vocabulary: the 3x3 box anchor, the placement check
  `CanPlace`, peers of a cell, the first empty cell, the set of empty cells,
  and `Completion(g0, g)`: every given cell of `g0` kept, every empty cell
  filled with a digit 1..9 that no peer holds. Lemmas relate these notions.
- `solver.dfy`, module `Solver`: the three search-engine functions as methods
  over a 9x9 `array2<int>`, with the source's loops, early returns, in-place
  writes and writes of 0 on backtracking. `Cells(board)` is the snapshot that
  ties the array to the `Grid` definitions.
- `validate.dfy`, module `Validate`: a decoded value is `Val = Int | List |
  Other`; the check returns `Ok` (the source's `(True, None)`) or
  `Err(reason)` (the source's `(False, message)`), and `Message(reason)`
  gives the source's exact message text.

What is proved, in short:

- `IsValid` returns exactly `CanPlace`, and `CanPlace` holds exactly when the
  digit differs from the target cell and from all 20 peers of it.
- `FindEmptyLocation` returns `None` exactly when the board has no 0 cell,
  and otherwise the row-major-first 0 cell.
- `SolveSudoku` terminates (the set of empty cells strictly shrinks at each
  recursive call). On `true` the board is a completion of the entry board. On
  `false` the board is back to its entry state and no completion of the entry
  board exists at all, so the search is complete. A board with no 0 cell is
  reported solved and left unchanged, even when its digits clash. When the
  given digits are in 0..9 and mutually consistent, a successful result is a
  solved Sudoku that keeps every given digit, and conversely every such
  Sudoku is a completion.
- `ValidateBoard` accepts exactly the lists of 9 lists of 9 integers in 0..9.
  Otherwise it reports the first failing check in scan order. That first
  violation is unique, and different reasons give different message texts.

`is_valid` also scans the target cell itself, not only the other cells of
its row, column and box, and `CanPlace` does the same. This never
changes the result inside the solver, because the target cell is always
empty there and the candidate digits are 1..9.

## Model

| member | source | states |
|---|---|---|
| `Grid.BoxStart` | solver.py:10-11 | the box anchor `k - k % 3` is 0, 3 or 6 and `k` lies in `[anchor, anchor + 3)`, so every index the box scan reads is in 0..8 |
| `Grid.CanPlaceIffAbsentFromPeers` | solver.py:1-17 | the row, column and box scans succeed exactly when the digit differs from the target cell and from every cell sharing its row, column or box |
| `Grid.EmptyCellsShrink` | solver.py:38-40 | writing a digit into an empty cell removes exactly that cell from the empty cells, so each recursive call has strictly fewer empty cells |
| `Grid.FullGridCompletion` | solver.py:29-32 | a board with no empty cell is its own completion and its only one |
| `Grid.PlaceThenComplete` | solver.py:36-41 | a digit that passes the check at the empty cell, followed by a completion of the board with that digit in place, is a completion of the board before the write |
| `Grid.CompletionThroughCell` | solver.py:36-45 | every completion puts at an empty cell a digit 1..9 that passes the check there and is a completion of the board with that digit written, so trying all nine digits misses no completion |
| `Grid.CompletionIsSolution` | solver.py:28-45 | for given digits in 0..9 with no two equal peers, the completions are exactly the solved Sudokus that keep the given digits |
| `Solver.IsValid` | solver.py:1-17 | returns true exactly when the digit is absent from the row, from the column and from the 3x3 box anchored at `(row - row % 3, col - col % 3)` |
| `Solver.FindEmptyLocation` | solver.py:20-25 | returns None exactly when no cell is 0; otherwise a 0 cell before which, in row-major order, no cell is 0 |
| `Solver.SolveSudoku` | solver.py:28-45 | terminates; on true the board is a completion of the entry board (givens unchanged, blanks filled with clash-free digits 1..9, hence a solved Sudoku when the givens are consistent); on false the board equals the entry board and no completion exists; with no 0 cell it returns true and changes nothing |
| `Validate.ValidateBoard` | solver.py:48-69 | accepts exactly a list of 9 lists of 9 integers in 0..9; otherwise returns the first failing check in the order list, row count, then per row list and length and per cell integer and range |
| `Validate.FirstViolationUnique` | solver.py:48-69 | a refused board has exactly one first violation and a well-formed board has none, so the reported reason is determined by the board |
| `Validate.Decimal` | solver.py:57-67 | the index text in a message is a non-empty run of decimal digits without a leading zero; an index below 10 (every index a message can show) prints as its single digit |
| `Validate.DecimalValue` | solver.py:57-67 | reading the printed index text back as a decimal number gives the index |
| `Validate.DecimalInjective` | solver.py:57-67 | different indices print as different decimal texts |
| `Validate.Message` | solver.py:49-67 | the message starts with 'B' for the board-level checks, 'R' for the row checks and 'C' for the cell checks, and the row and cell messages print the row index right after "Row " or "Cell [" |
| `Validate.MessageInjective` | solver.py:49-67 | different reasons give different messages, so a message names the kind of violation and the offending row and cell |

## Left out

- The web layer is not part of this model: request decoding, the HTTP routes
  and status codes, CORS, static files, the health check and the proxy that
  fetches a puzzle from a third-party service are I/O glue. The deep copy the
  caller makes before solving is the caller's choice and is not modelled.
- The browser script (board rendering, event handlers, requests) is user
  interface and asynchronous I/O and is not modelled.
- `ValidateBoard` treats `Int` as the only accepted cell kind. The language
  quirk that also accepts booleans as integers is not modelled.
- `Validate.ValidateBoard` returns the reason as a datatype. The source's
  message text is the separate function `Message`, and the source's tuple
  shape `(ok, message)` is not reproduced.
- `Solver.SolveSudoku` works on a 9x9 array of distinct cells. Row lists that
  alias each other, ragged rows and boards of another shape are not
  modelled; the solver is only called on boards that passed the check.
- `Solver.SolveSudoku` states the final board only. That every intermediate
  write goes to an entry-empty cell and is in 0..9 follows from the code but
  is not stated as a contract of its own.
- The order of the search is not stated: the model does not prove that a
  board with several completions gets the lexicographically first one.
- The early exit of the scans (cells after a violation are not visited) is
  not observable in a value model and is not stated.
