/**
 * The solver on the mutable grid: a 9x9 array that `Solve` fills in place,
 * writing tentative digits and writing 0 back when the search below a digit
 * fails. Each method is proved to compute the function of module Backtracking that
 * describes it, and `Solve`'s contract spells out what that means for the
 * caller.
 */
module Solver {
  import opened Grid
  import opened Backtracking

  /** The grid's contents as a board value. */
  ghost function Cells(g: array2<int>): (b: Board)
    requires g.Length0 == 9 && g.Length1 == 9
    reads g
    ensures Shaped(b) && forall r, c :: InBounds(r, c) ==> b[r][c] == g[r, c]
  {
    seq(9, r requires 0 <= r < 9 reads g => seq(9, c requires 0 <= c < 9 reads g => g[r, c]))
  }

  /**
   * `is_valid`: whether `num` may go at (row, col), that is, whether it is
   * absent from the row, from the column and from the 3x3 box of the cell.
   * The grid is only read.
   */
  method IsValid(g: array2<int>, row: int, col: int, num: int) returns (ok: bool)
    requires g.Length0 == 9 && g.Length1 == 9 && InBounds(row, col)
    ensures ok <==> Placeable(Cells(g), row, col, num)
  {
    for c := 0 to 9
      invariant forall j :: 0 <= j < c ==> g[row, j] != num
    {
      if g[row, c] == num {
        return false;
      }
    }
    for r := 0 to 9
      invariant forall i :: 0 <= i < r ==> g[i, col] != num
    {
      if g[r, col] == num {
        return false;
      }
    }
    var startRow, startCol := 3 * (row / 3), 3 * (col / 3);
    for r := startRow to startRow + 3
      invariant forall i, j :: startRow <= i < r && startCol <= j < startCol + 3 ==> g[i, j] != num
    {
      for c := startCol to startCol + 3
        invariant forall i, j :: startRow <= i < r && startCol <= j < startCol + 3 ==> g[i, j] != num
        invariant forall j :: startCol <= j < c ==> g[r, j] != num
      {
        if g[r, c] == num {
          return false;
        }
      }
    }
    return true;
  }

  /**
   * `find_empty_location`: the first cell holding 0 in row-major order, or
   * None when the grid has no empty cell.
   */
  method FindEmptyLocation(g: array2<int>) returns (loc: Option<Cell>)
    requires g.Length0 == 9 && g.Length1 == 9
    ensures loc == FirstEmpty(Cells(g))
    ensures loc.Some? ==>
      && InBounds(loc.value.0, loc.value.1) && g[loc.value.0, loc.value.1] == 0
      && forall i, j :: InBounds(i, j) && Precedes(i, j, loc.value.0, loc.value.1) ==> g[i, j] != 0
    ensures loc.None? <==> forall i, j :: InBounds(i, j) ==> g[i, j] != 0
  {
    ghost var b := Cells(g);
    for r := 0 to 9
      invariant FirstEmpty(b) == ScanFrom(b, r, 0)
    {
      for c := 0 to 9
        invariant FirstEmpty(b) == ScanFrom(b, r, c)
      {
        if g[r, c] == 0 {
          loc := Some((r, c));
          FirstEmptyIsFirst(b, r, c);
          return;
        }
      }
    }
    loc := None;
    FirstEmptyIsFirst(b, 0, 0);
  }

  /**
   * `solve`: fills the empty cells of the grid in place by depth-first
   * search, trying digits 1..9 in ascending order at the first empty cell.
   * The outcome is the one Search describes; on success the givens are kept,
   * every empty cell holds a digit and a conflict-free input stays
   * conflict-free; on failure the grid is exactly as it was and no
   * conflict-free completion exists.
   */
  method Solve(g: array2<int>) returns (solved: bool)
    requires g.Length0 == 9 && g.Length1 == 9
    modifies g
    ensures solved == Search(old(Cells(g))).Some?
    ensures solved ==> Cells(g) == Search(old(Cells(g))).value
    ensures !solved ==> Cells(g) == old(Cells(g))
    ensures SolveOutcome(old(Cells(g)), solved, Cells(g))
    decreases |EmptyCells(Cells(g))|, 1
  {
    ghost var b := Cells(g);
    SearchOutcome(b);
    var loc := FindEmptyLocation(g);
    if loc.None? {
      return true;
    }
    var (row, col) := loc.value;
    for num := 1 to 10
      invariant Cells(g) == b
      invariant Search(b) == TryDigits(b, row, col, num)
    {
      var ok := IsValid(g, row, col, num);
      TryDigitsStep(b, row, col, num);
      if ok {
        solved := TryPlacement(g, row, col, num);
        if solved {
          return true;
        }
      }
    }
    return false;
  }

  /**
   * The body of `solve`'s digit loop for a digit that passed the check:
   * write it tentatively into the empty cell, solve the rest, and write 0
   * back if that fails. The outcome is the search from the board with the
   * digit written in; on failure the grid is as it was.
   */
  method TryPlacement(g: array2<int>, row: int, col: int, num: int) returns (solved: bool)
    requires g.Length0 == 9 && g.Length1 == 9 && InBounds(row, col) && g[row, col] == 0 && num != 0
    modifies g
    ensures solved == Search(Place(old(Cells(g)), row, col, num)).Some?
    ensures solved ==> Cells(g) == Search(Place(old(Cells(g)), row, col, num)).value
    ensures !solved ==> Cells(g) == old(Cells(g))
    decreases |EmptyCells(Cells(g))|, 0
  {
    ghost var b := Cells(g);
    g[row, col] := num;
    BoardExt(Cells(g), Place(b, row, col, num));
    FillShrinks(b, row, col, num);
    solved := Solve(g);
    if !solved {
      g[row, col] := 0;
      BoardExt(Cells(g), b);
    }
  }
}
