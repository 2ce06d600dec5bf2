/**
 * The solver as functions on board values: the row-major scan for an empty
 * cell and the depth-first backtracking search. The methods on the mutable
 * grid in module Solver are proved to compute exactly these, and the lemmas
 * here say what the search guarantees: the result is a conflict-free
 * completion of the input, and a failure means that none exists.
 */
module Backtracking {
  import opened Grid

  datatype Option<T> = None | Some(value: T)

  /** Cell (i, j) comes strictly before cell (r, c) in row-major order. */
  predicate Precedes(i: int, j: int, r: int, c: int) {
    i < r || (i == r && j < c)
  }

  /**
   * The first empty cell at or after position (r, c) in row-major order;
   * (r, 9) stands for the start of row r + 1 and (9, _) for the end of the
   * board.
   */
  function ScanFrom(b: Board, r: int, c: int): (loc: Option<Cell>)
    requires Shaped(b) && 0 <= r <= 9 && 0 <= c <= 9
    ensures loc.Some? ==>
      && InBounds(loc.value.0, loc.value.1)
      && b[loc.value.0][loc.value.1] == 0
      && !Precedes(loc.value.0, loc.value.1, r, c)
    decreases 9 - r, 9 - c
  {
    if r == 9 then None
    else if c == 9 then ScanFrom(b, r + 1, 0)
    else if b[r][c] == 0 then Some((r, c))
    else ScanFrom(b, r, c + 1)
  }

  /**
   * The scan from (r, c) skips only filled cells: every cell from (r, c) up
   * to the one it returns is filled, and when it returns nothing every cell
   * from (r, c) on is filled.
   */
  lemma {:induction false} ScanFromSkipsFilled(b: Board, r: int, c: int)
    requires Shaped(b) && 0 <= r <= 9 && 0 <= c <= 9
    ensures ScanFrom(b, r, c).Some? ==>
      var (lr, lc) := ScanFrom(b, r, c).value;
      forall i, j :: InBounds(i, j) && !Precedes(i, j, r, c) && Precedes(i, j, lr, lc) ==> b[i][j] != 0
    ensures ScanFrom(b, r, c).None? ==>
      forall i, j :: InBounds(i, j) && !Precedes(i, j, r, c) ==> b[i][j] != 0
    decreases 9 - r, 9 - c
  {
    if r == 9 {
    } else if c == 9 {
      ScanFromSkipsFilled(b, r + 1, 0);
    } else if b[r][c] != 0 {
      ScanFromSkipsFilled(b, r, c + 1);
    }
  }

  /** The empty cell `find_empty_location` returns: the first in row-major order. */
  function FirstEmpty(b: Board): (loc: Option<Cell>)
    requires Shaped(b)
  {
    ScanFrom(b, 0, 0)
  }

  /**
   * FirstEmpty picks (r, c) exactly when (r, c) is empty and every cell
   * before it is filled, and finds nothing exactly when no cell is empty.
   */
  lemma FirstEmptyIsFirst(b: Board, r: int, c: int)
    requires Shaped(b)
    ensures FirstEmpty(b) == Some((r, c)) <==>
      && InBounds(r, c) && b[r][c] == 0
      && forall i, j :: InBounds(i, j) && Precedes(i, j, r, c) ==> b[i][j] != 0
    ensures FirstEmpty(b).None? <==> Complete(b)
  {
    var loc := FirstEmpty(b);
    ScanFromSkipsFilled(b, 0, 0);
    if InBounds(r, c) && b[r][c] == 0
       && forall i, j :: InBounds(i, j) && Precedes(i, j, r, c) ==> b[i][j] != 0
    {
      assert !Precedes(r, c, 0, 0);
      assert loc.Some?;
      var (lr, lc) := loc.value;
      assert !Precedes(lr, lc, r, c);
      assert !Precedes(r, c, lr, lc);
    }
    if !Complete(b) {
      var i, j :| InBounds(i, j) && b[i][j] == 0;
      assert !Precedes(i, j, 0, 0);
    }
  }

  /**
   * `solve` as a function: None when the search fails, otherwise the board it
   * leaves behind. With no empty cell left the board is returned as it is;
   * otherwise the first empty cell is tried with the digits 1..9 in turn.
   */
  ghost function Search(b: Board): (res: Option<Board>)
    requires Shaped(b)
    ensures res.Some? ==> Shaped(res.value)
    decreases |EmptyCells(b)|, 1, 0
  {
    match FirstEmpty(b)
    case None => Some(b)
    case Some(loc) => TryDigits(b, loc.0, loc.1, 1)
  }

  /**
   * The `for num in range(1, 10)` loop of `solve` from digit `num` on: the
   * first digit that passes the placement check and whose recursive search
   * succeeds gives the result; a digit whose search fails is undone (the
   * next digit is tried on b itself).
   */
  ghost function TryDigits(b: Board, row: int, col: int, num: int): (res: Option<Board>)
    requires Shaped(b) && InBounds(row, col) && b[row][col] == 0 && 1 <= num <= 10
    ensures res.Some? ==> Shaped(res.value)
    decreases |EmptyCells(b)|, 0, 10 - num
  {
    if num == 10 then None
    else if Placeable(b, row, col, num) then
      FillShrinks(b, row, col, num);
      match Search(Place(b, row, col, num))
      case Some(s) => Some(s)
      case None => TryDigits(b, row, col, num + 1)
    else TryDigits(b, row, col, num + 1)
  }

  /**
   * TryDigits unfolded one step, nothing more. Solve's loop calls it so that
   * its invariant is re-established from this fact alone, which keeps that
   * proof small.
   */
  lemma TryDigitsStep(b: Board, row: int, col: int, num: int)
    requires Shaped(b) && InBounds(row, col) && b[row][col] == 0 && 1 <= num < 10
    ensures !Placeable(b, row, col, num) ==> TryDigits(b, row, col, num) == TryDigits(b, row, col, num + 1)
    ensures Placeable(b, row, col, num) ==>
      TryDigits(b, row, col, num) ==
        if Search(Place(b, row, col, num)).Some? then Search(Place(b, row, col, num))
        else TryDigits(b, row, col, num + 1)
  {
  }

  /**
   * A failed digit loop from num failed for num itself and fails from num + 1:
   * a one-step corollary of TryDigits, stated apart to keep TryDigitsExhausts small.
   */
  lemma TryDigitsFails(b: Board, row: int, col: int, num: int)
    requires Shaped(b) && InBounds(row, col) && b[row][col] == 0 && 1 <= num < 10
    requires TryDigits(b, row, col, num).None?
    ensures Placeable(b, row, col, num) ==> Search(Place(b, row, col, num)).None?
    ensures TryDigits(b, row, col, num + 1).None?
  {
  }

  /** On a board with no empty cell, the search succeeds at once and changes nothing. */
  lemma SearchOnComplete(b: Board)
    requires Shaped(b) && Complete(b)
    ensures Search(b) == Some(b)
  {
    FirstEmptyIsFirst(b, 0, 0);
  }

  /**
   * Soundness: a successful search returns a full board that keeps every
   * given of b and has a digit 1..9 in every cell b left empty; from a
   * conflict-free board it returns a conflict-free board.
   */
  lemma {:induction false} SearchSound(b: Board)
    requires Shaped(b)
    ensures Search(b).Some? ==>
      && Completes(b, Search(b).value) && Complete(Search(b).value)
      && (NoConflicts(b) ==> NoConflicts(Search(b).value))
    decreases |EmptyCells(b)|, 1, 0
  {
    match FirstEmpty(b)
    case None =>
      FirstEmptyIsFirst(b, 0, 0);
      CompleteCompletesItself(b);
    case Some(loc) =>
      TryDigitsSound(b, loc.0, loc.1, 1);
  }

  lemma {:induction false} TryDigitsSound(b: Board, row: int, col: int, num: int)
    requires Shaped(b) && InBounds(row, col) && b[row][col] == 0 && 1 <= num <= 10
    ensures TryDigits(b, row, col, num).Some? ==>
      && Completes(b, TryDigits(b, row, col, num).value) && Complete(TryDigits(b, row, col, num).value)
      && (NoConflicts(b) ==> NoConflicts(TryDigits(b, row, col, num).value))
    decreases |EmptyCells(b)|, 0, 10 - num
  {
    if num < 10 {
      if Placeable(b, row, col, num) {
        var next := Place(b, row, col, num);
        FillShrinks(b, row, col, num);
        SearchSound(next);
        if Search(next).Some? {
          CompletesAfterPlace(b, row, col, num, Search(next).value);
          if NoConflicts(b) {
            PlaceKeepsNoConflicts(b, row, col, num);
          }
        }
      }
      TryDigitsSound(b, row, col, num + 1);
    }
  }

  /**
   * When the digit loop fails from `num` on, every digit from `num` to 9 that
   * passes the placement check leads to a failed search.
   */
  lemma {:induction false} TryDigitsExhausts(b: Board, row: int, col: int, num: int, d: int)
    requires Shaped(b) && InBounds(row, col) && b[row][col] == 0 && 1 <= num <= 10
    requires TryDigits(b, row, col, num).None?
    requires num <= d <= 9
    ensures Placeable(b, row, col, d) ==> Search(Place(b, row, col, d)).None?
    decreases 10 - num
  {
    TryDigitsFails(b, row, col, num);
    if d != num {
      TryDigitsExhausts(b, row, col, num + 1, d);
    }
  }

  /**
   * Completeness: when the search fails, no assignment of digits 1..9 to the
   * empty cells gives a conflict-free board.
   */
  lemma {:induction false} SearchComplete(b: Board)
    requires Shaped(b) && Search(b).None?
    ensures !Solvable(b)
    decreases |EmptyCells(b)|
  {
    if s :| Completes(b, s) && NoConflicts(s) {
      match FirstEmpty(b)
      case None =>
      case Some(loc) =>
        var (row, col) := loc;
        SolutionDigitPlaceable(b, s, row, col);
        var d := s[row][col];
        TryDigitsExhausts(b, row, col, 1, d);
        FillShrinks(b, row, col, d);
        SearchComplete(Place(b, row, col, d));
        assert false;
    }
  }

  /**
   * On a conflict-free board, the search succeeds exactly when the board can
   * be completed without conflicts.
   */
  lemma SearchDecides(b: Board)
    requires Shaped(b) && NoConflicts(b)
    ensures Search(b).Some? <==> Solvable(b)
  {
    if Search(b).Some? {
      SearchSound(b);
      var s := Search(b).value;
      assert Completes(b, s) && NoConflicts(s);
    } else {
      SearchComplete(b);
    }
  }

  /**
   * On a conflict-free board of digits 0..9, a successful search ends in a
   * solved board: filled, digits only, no conflict.
   */
  lemma SearchSolves(b: Board)
    requires Shaped(b) && NoConflicts(b) && InDigitRange(b) && Search(b).Some?
    ensures Solved(Search(b).value)
  {
    SearchSound(b);
    var s := Search(b).value;
    forall r, c | InBounds(r, c) ensures 0 <= s[r][c] <= 9 {
      assert 0 <= b[r][c] <= 9;
    }
  }

  /**
   * What a solver run on board b that reports `solved` and leaves board
   * `after` behind promises: on success a full board that keeps the givens
   * of b, conflict-free (and solved) when b is; on failure b itself, and no
   * conflict-free completion of b exists; on a conflict-free b, success
   * exactly when b is solvable; on a full b, success with b unchanged.
   */
  ghost predicate SolveOutcome(b: Board, solved: bool, after: Board)
    requires Shaped(b) && Shaped(after)
  {
    && (solved ==> Complete(after) && Completes(b, after))
    && (solved && NoConflicts(b) ==> NoConflicts(after))
    && (solved && NoConflicts(b) && InDigitRange(b) ==> Solved(after))
    && (!solved ==> after == b && !Solvable(b))
    && (NoConflicts(b) ==> (solved <==> Solvable(b)))
    && (Complete(b) ==> solved && after == b)
  }

  /**
   * The search keeps the promises of SolveOutcome: on success with the board
   * it returns, on failure with b itself left behind.
   */
  lemma SearchOutcome(b: Board)
    requires Shaped(b)
    ensures Search(b).Some? ==> SolveOutcome(b, true, Search(b).value)
    ensures Search(b).None? ==> SolveOutcome(b, false, b)
  {
    SearchSound(b);
    if Complete(b) {
      SearchOnComplete(b);
    }
    if Search(b).None? {
      SearchComplete(b);
    }
    if NoConflicts(b) {
      SearchDecides(b);
      if Search(b).Some? && InDigitRange(b) {
        SearchSolves(b);
      }
    }
  }
}
