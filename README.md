# Sudoku backtracking solver, modelled in Dafny

This project models the solving core of a 9x9 Sudoku solver that works by
constraint satisfaction. The solver takes a grid of integers. A cell holding 0
is empty and a cell holding 1..9 is a given. The solver fills the grid in place
by depth-first backtracking:

- `find_empty_location` picks the first empty cell in row-major order.
- `solve` tries the digits 1..9 in ascending order at that cell.
- `is_valid` accepts a digit that occurs nowhere in the cell's row, column or
  3x3 box.
- An accepted digit is written into the cell and the rest of the grid is solved
  recursively. If that fails, the digit is overwritten with 0 again.
- `solve` returns true at the first success, and false once every digit has
  failed.

The project has four modules:

- `Grid` (Grid.dfy) holds the board as a value (`seq<seq<int>>`) and the rules
  of the puzzle:
  - `Peers`: two cells that share a row, a column or a box.
  - `NoConflicts`: no digit occurs twice among peers.
  - `Placeable`: the condition `is_valid` checks, with the box found from its
    top-left corner `(3 * (row / 3), 3 * (col / 3))`.
  - `Completes(b, s)`: `s` keeps every given of `b` and puts a digit 1..9 in
    every empty cell of `b`.
  - `Solvable`: some conflict-free completion exists.
  - `Solved`: the board is filled with digits and has no conflict.
- `Backtracking` (Backtracking.dfy) is the search as functions on board values:
  - `ScanFrom` and `FirstEmpty` are the row-major scan.
  - `Search` and `TryDigits` are `solve` and its digit loop. They are mutually
    recursive and terminate because each recursive search has one empty cell
    fewer.
  - The lemmas here prove what the search guarantees. `SolveOutcome` collects
    what a caller of `solve` may rely on, and `SearchOutcome` proves it of the
    search.
- `Scenarios` (Scenarios.dfy) shows the search succeeding on a board with empty
  cells: on the grid with every cell empty it succeeds and returns a solved
  board. A conflict-free completion of that grid is exhibited and
  `SearchDecides` does the rest.
- `Solver` (Solver.dfy) holds the three operations of the source as methods on
  the mutable grid, an `array2<int>` of size 9x9:
  - `IsValid` and `FindEmptyLocation` only read the grid. They are loops with
    early returns, proved equal to `Placeable` and `FirstEmpty`.
  - `Solve` is recursive and `modifies` the grid. It is proved to return what
    `Search` returns and to leave the grid as `Search` describes.
  - The body of the digit loop for an accepted digit is a method of its own,
    `TryPlacement`: write the digit, recurse, write 0 back on failure. It runs
    the same steps in the same order as the source. Splitting it out keeps each
    proof small.

`Search` is a function of the input board alone, so `Solve` is deterministic:
two equal grids give the same outcome and the same final grid.

The input is never checked for conflicts, and the source does not check it
either. So "the input has no conflict" is a hypothesis of the soundness
results only. Completeness needs no hypothesis: whenever `Solve` fails, no
conflict-free completion exists. A grid that is already full is returned as
solved even when it has conflicts, because the source does not re-check it
(`SearchOnComplete`). The digit range 0..9 is needed only for the statement
that a solved board holds nothing but digits.

## Model

| member | source | states |
|---|---|---|
| `Solver.IsValid` | CSP_hulseman.py:8-21 | returns true exactly when `num` occurs nowhere in row `row`, nowhere in column `col` and nowhere in the 3x3 box whose corner is `(3*(row/3), 3*(col/3))`; the grid is only read |
| `Grid.BoxCorner` | CSP_hulseman.py:16-18 | the box scanned from the corner `(3*(row/3), 3*(col/3))` holds exactly the cells whose row and column have the same quotient by 3 as `(row, col)` |
| `Grid.PlaceableAvoidsPeers` | CSP_hulseman.py:11-20 | a digit that passes the check occurs in no peer of the cell, that is in no other cell of its row, column or box |
| `Grid.PlaceKeepsNoConflicts` | CSP_hulseman.py:39-40 | writing a digit that passed the check into a conflict-free board leaves it conflict-free |
| `Grid.PlaceConflictFreeIsPlaceable` | CSP_hulseman.py:8-21 | conversely, a non-zero digit whose placement into an empty cell leaves the board conflict-free passes the check, so the check rejects no digit that could be placed without conflict |
| `Grid.FillShrinks` | CSP_hulseman.py:40-42 | writing a non-zero digit into an empty cell removes exactly that cell from the empty cells, so each recursive call has one empty cell fewer |
| `Grid.SolutionDigitPlaceable` | CSP_hulseman.py:8-21 | in any conflict-free completion of a board, the digit it puts in an empty cell passes the check on that board, and the completion still completes the board with that digit written in |
| `Grid.SolvedRowHoldsAllDigits` | CSP_hulseman.py:11-12 | every row of a solved board holds each digit 1..9 exactly once |
| `Grid.SolvedColumnHoldsAllDigits` | CSP_hulseman.py:13-14 | every column of a solved board holds each digit 1..9 exactly once |
| `Grid.SolvedBoxHoldsAllDigits` | CSP_hulseman.py:16-20 | every 3x3 box of a solved board holds each digit 1..9 exactly once |
| `Backtracking.ScanFrom` | CSP_hulseman.py:25-29 | a cell the scan returns is on the board, holds 0 and does not come before the start position |
| `Backtracking.ScanFromSkipsFilled` | CSP_hulseman.py:25-29 | every cell the scan passes over from the start position up to the cell it returns is filled; when it returns None, every cell from the start position on is filled |
| `Backtracking.FirstEmptyIsFirst` | CSP_hulseman.py:23-29 | the scan returns `(r, c)` exactly when `(r, c)` is empty and every earlier cell in row-major order is filled, and returns None exactly when no cell is empty |
| `Solver.FindEmptyLocation` | CSP_hulseman.py:23-29 | returns the first empty cell in row-major order (it is empty, all cells before it are filled), or None exactly when the grid has no 0; the grid is only read |
| `Backtracking.Search` | CSP_hulseman.py:31-47 | `solve` as a function of the input board: with no empty cell the board itself, otherwise the digit loop at the first empty cell. Its own contract states only that a returned board is 9x9; what the result means is stated by `SearchSound`, `SearchComplete` and `SearchOutcome` |
| `Backtracking.TryDigits` | CSP_hulseman.py:37-47 | the digit loop from digit `num` on. Its own contract states only that a returned board is 9x9; `TryDigitsSound` and `TryDigitsExhausts` state what it does |
| `Backtracking.SearchOnComplete` | CSP_hulseman.py:33-35 | on a board with no empty cell the search succeeds at once and returns the board unchanged |
| `Backtracking.SearchSound` | CSP_hulseman.py:38-43 | a successful search returns a board with no empty cell that keeps every given of the input and holds a digit 1..9 in every cell the input left empty; from a conflict-free board it returns a conflict-free board |
| `Backtracking.TryDigitsSound` | CSP_hulseman.py:38-43 | a digit loop that succeeds returns a full board that keeps the givens and fills the empty cells with digits 1..9; from a conflict-free board the result is conflict-free |
| `Backtracking.TryDigitsExhausts` | CSP_hulseman.py:38-47 | when the digit loop fails from digit `num` on, the search fails for every digit from `num` to 9 that passes the check |
| `Backtracking.SearchComplete` | CSP_hulseman.py:38-47 | when the search fails, no assignment of digits 1..9 to the empty cells gives a conflict-free board |
| `Backtracking.SearchDecides` | CSP_hulseman.py:31-47 | on a conflict-free board the search succeeds exactly when a conflict-free completion exists |
| `Backtracking.SearchSolves` | CSP_hulseman.py:33-43 | on a conflict-free board of values 0..9, a successful search ends in a full, conflict-free board of digits 1..9 |
| `Backtracking.SearchOutcome` | CSP_hulseman.py:31-47 | the search keeps every promise of `SolveOutcome`: on success the returned board is full, keeps the givens and is conflict-free (solved, for digits 0..9) when the input is; on failure no conflict-free completion exists; on a conflict-free input it succeeds exactly when the input is solvable; a full input comes back unchanged |
| `Solver.Solve` | CSP_hulseman.py:31-47 | returns what the search returns and leaves its board in the grid; on failure the grid is exactly the input. Through `SolveOutcome`: on success the grid is full, keeps every given and stays conflict-free when the input was; on failure no conflict-free completion exists; on a conflict-free input it succeeds exactly when the input is solvable; a full input is returned at once and unchanged |
| `Solver.TryPlacement` | CSP_hulseman.py:39-45 | after writing the digit and recursing, the outcome is the search from the board with the digit written in; on failure the cell holds 0 again and the grid equals its state before the write |
| `Scenarios.EmptyBoardSolved` | CSP_hulseman.py:31-47 | on the grid with every cell empty the search succeeds, and the board it returns is solved: full, digits 1..9 only, no conflict |

## Left out

- `print_grid` (console output), `get_user_input` (reading rows from standard input and parsing them with `int()`) and `main` (the puzzle menu, its two hard-coded sample puzzles and the messages it prints) are not modelled. They are input and output around the solver.
- The grid's shape is a precondition. Every method requires an `array2` of size 9x9. The source takes any list of lists. With fewer than 9 rows it may fail with an index error, in the column test or in the scan for an empty cell; rows after the ninth are never read. A short row may make it fail with an index error, and a longer row is accepted, its extra entries taking part in the row check. None of these cases is modelled.
- `Solver.IsValid` requires `0 <= row, col < 9`. The source would also accept negative indices, which Python counts from the end, but `solve` never passes them.
- A grid built from Python lists could share one row list between several rows, so that one write changes several cells. The model's `array2` has no such aliasing.
- Solving the two sample puzzles of `main` to their literal solutions is not modelled. That needs the exponential search to run, and the model only proves properties of all inputs.
- Running time and stack depth are not modelled. Termination is proved with the count of empty cells as the measure.
