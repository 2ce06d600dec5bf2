/**
 * The Sudoku board as a value: nine rows of nine integers, 0 meaning an empty
 * cell and 1..9 a digit. This module states the rules of the puzzle (which
 * cells constrain each other, when a digit may be placed, what a solution of a
 * partially filled board is) independently of the search that finds one.
 */
module Grid {

  /** Nine rows of nine cells, indexed board[row][col]; Shaped says so. */
  type Board = seq<seq<int>>

  type Cell = (int, int)

  predicate Shaped(b: Board) {
    |b| == 9 && forall r :: 0 <= r < 9 ==> |b[r]| == 9
  }

  predicate InBounds(r: int, c: int) {
    0 <= r < 9 && 0 <= c < 9
  }

  /** Every cell holds 0 (empty) or a digit 1..9: what the input is expected to hold. */
  ghost predicate InDigitRange(b: Board)
    requires Shaped(b)
  {
    forall r, c :: InBounds(r, c) ==> 0 <= b[r][c] <= 9
  }

  /** No cell is empty. */
  ghost predicate Complete(b: Board)
    requires Shaped(b)
  {
    forall r, c :: InBounds(r, c) ==> b[r][c] != 0
  }

  /** The empty cells of the board. */
  function EmptyCells(b: Board): (e: set<Cell>)
    requires Shaped(b)
  {
    set r, c | 0 <= r < 9 && 0 <= c < 9 && b[r][c] == 0 :: (r, c)
  }

  /** The board with cell (r, c) overwritten by v, as `grid[row][col] = v` does. */
  function Place(b: Board, r: int, c: int, v: int): (b': Board)
    requires Shaped(b) && InBounds(r, c)
    ensures Shaped(b') && b'[r][c] == v
    ensures forall i, j :: InBounds(i, j) && (i, j) != (r, c) ==> b'[i][j] == b[i][j]
  {
    b[r := b[r][c := v]]
  }

  /** Two boards are equal when they agree cell by cell. */
  lemma {:induction false} BoardExt(a: Board, b: Board)
    requires Shaped(a) && Shaped(b)
    requires forall r, c :: InBounds(r, c) ==> a[r][c] == b[r][c]
    ensures a == b
  {
    forall r | 0 <= r < 9
      ensures a[r] == b[r]
    {
      assert forall c :: 0 <= c < 9 ==> a[r][c] == b[r][c] by {
        forall c | 0 <= c < 9 ensures a[r][c] == b[r][c] {
          assert InBounds(r, c);
        }
      }
    }
  }

  /** Filling an empty cell with a digit removes exactly that cell from the empty ones. */
  lemma FillShrinks(b: Board, r: int, c: int, v: int)
    requires Shaped(b) && InBounds(r, c) && b[r][c] == 0 && v != 0
    ensures EmptyCells(Place(b, r, c, v)) == EmptyCells(b) - {(r, c)}
    ensures |EmptyCells(Place(b, r, c, v))| == |EmptyCells(b)| - 1
  {
    var b' := Place(b, r, c, v);
    assert EmptyCells(b') == EmptyCells(b) - {(r, c)} by {
      forall p | p in EmptyCells(b') ensures p in EmptyCells(b) - {(r, c)} {
        assert InBounds(p.0, p.1);
      }
      forall p | p in EmptyCells(b) - {(r, c)} ensures p in EmptyCells(b') {
        assert InBounds(p.0, p.1);
      }
    }
    assert (r, c) in EmptyCells(b);
  }

  // ---------------------------------------------------------------------------
  // Constraint groups

  /** Two cells in the same 3x3 box. */
  predicate SameBox(r1: int, c1: int, r2: int, c2: int) {
    r1 / 3 == r2 / 3 && c1 / 3 == c2 / 3
  }

  /** Two distinct cells that share a row, a column or a box. */
  predicate Peers(r1: int, c1: int, r2: int, c2: int) {
    (r1, c1) != (r2, c2) && (r1 == r2 || c1 == c2 || SameBox(r1, c1, r2, c2))
  }

  /** No digit occurs twice in any row, column or box (empty cells are ignored). */
  ghost predicate NoConflicts(b: Board)
    requires Shaped(b)
  {
    forall r1, c1, r2, c2 {:trigger Peers(r1, c1, r2, c2)} ::
      InBounds(r1, c1) && InBounds(r2, c2) && Peers(r1, c1, r2, c2) && b[r1][c1] != 0
      ==> b[r1][c1] != b[r2][c2]
  }

  /**
   * The box of (row, col) as the source computes it: rows and columns from
   * the top-left corner (3 * (row / 3), 3 * (col / 3)) to two beyond it.
   */
  predicate InBoxOf(row: int, col: int, r: int, c: int) {
    3 * (row / 3) <= r < 3 * (row / 3) + 3 && 3 * (col / 3) <= c < 3 * (col / 3) + 3
  }

  lemma BoxCorner(row: int, col: int, r: int, c: int)
    requires InBounds(row, col) && InBounds(r, c)
    ensures InBoxOf(row, col, r, c) <==> SameBox(row, col, r, c)
  {
  }

  /**
   * `num` may be written at (row, col): it occurs nowhere in the row, nowhere
   * in the column and nowhere in the box of that cell.
   */
  ghost predicate Placeable(b: Board, row: int, col: int, num: int)
    requires Shaped(b) && InBounds(row, col)
  {
    && (forall c :: 0 <= c < 9 ==> b[row][c] != num)
    && (forall r :: 0 <= r < 9 ==> b[r][col] != num)
    && (forall r, c :: InBoxOf(row, col, r, c) ==> InBounds(r, c) && b[r][c] != num)
  }

  /** A placeable digit is absent from every peer of the cell. */
  lemma {:induction false} PlaceableAvoidsPeers(b: Board, row: int, col: int, num: int, r: int, c: int)
    requires Shaped(b) && InBounds(row, col) && InBounds(r, c)
    requires Placeable(b, row, col, num) && Peers(row, col, r, c)
    ensures b[r][c] != num
  {
    if r != row && c != col {
      BoxCorner(row, col, r, c);
      assert InBoxOf(row, col, r, c);
    }
  }

  /** Writing a placeable digit into a board without conflicts creates none. */
  lemma {:induction false} PlaceKeepsNoConflicts(b: Board, row: int, col: int, num: int)
    requires Shaped(b) && InBounds(row, col) && NoConflicts(b)
    requires Placeable(b, row, col, num)
    ensures NoConflicts(Place(b, row, col, num))
  {
    var b' := Place(b, row, col, num);
    forall r1, c1, r2, c2 |
      InBounds(r1, c1) && InBounds(r2, c2) && Peers(r1, c1, r2, c2) && b'[r1][c1] != 0
      ensures b'[r1][c1] != b'[r2][c2]
    {
      if (r1, c1) == (row, col) {
        PlaceableAvoidsPeers(b, row, col, num, r2, c2);
      } else if (r2, c2) == (row, col) {
        PlaceableAvoidsPeers(b, row, col, num, r1, c1);
      }
    }
  }

  /**
   * The converse: a non-zero digit whose placement into an empty cell leaves
   * the board without conflicts passes the placement check.
   */
  lemma {:induction false} PlaceConflictFreeIsPlaceable(b: Board, row: int, col: int, num: int)
    requires Shaped(b) && InBounds(row, col) && b[row][col] == 0 && num != 0
    requires NoConflicts(Place(b, row, col, num))
    ensures Placeable(b, row, col, num)
  {
    var b' := Place(b, row, col, num);
    assert InBounds(row, col) && b'[row][col] == num;
    forall c | 0 <= c < 9 ensures b[row][c] != num {
      if c != col {
        assert InBounds(row, c) && Peers(row, col, row, c);
        assert b'[row][c] == b[row][c];
      }
    }
    forall r | 0 <= r < 9 ensures b[r][col] != num {
      if r != row {
        assert InBounds(r, col) && Peers(row, col, r, col);
        assert b'[r][col] == b[r][col];
      }
    }
    forall r, c | InBoxOf(row, col, r, c) ensures InBounds(r, c) && b[r][c] != num {
      BoxCorner(row, col, r, c);
      if (r, c) != (row, col) {
        assert Peers(row, col, r, c);
        assert b'[r][c] == b[r][c];
      }
    }
  }

  // ---------------------------------------------------------------------------
  // Solutions of a partially filled board

  /**
   * s is an assignment of digits 1..9 to the empty cells of b: every given
   * (non-zero cell of b) is kept, every empty cell of b holds a digit in s.
   */
  ghost predicate Completes(b: Board, s: Board)
    requires Shaped(b)
  {
    Shaped(s) && KeepsGivens(b, s) && (forall r, c :: InBounds(r, c) && b[r][c] == 0 ==> 1 <= s[r][c] <= 9)
  }

  /** Every non-zero cell of b holds the same value in s. */
  ghost predicate KeepsGivens(b: Board, s: Board)
    requires Shaped(b) && Shaped(s)
  {
    forall r, c :: InBounds(r, c) && b[r][c] != 0 ==> s[r][c] == b[r][c]
  }

  /** Some assignment of digits to the empty cells leaves no conflict. */
  ghost predicate Solvable(b: Board)
    requires Shaped(b)
  {
    exists s :: Completes(b, s) && NoConflicts(s)
  }

  /**
   * In a conflict-free completion s of b, the digit s puts in an empty cell of
   * b passes the placement check on b, and s still completes b with that digit
   * written in.
   */
  lemma {:induction false} SolutionDigitPlaceable(b: Board, s: Board, row: int, col: int)
    requires Shaped(b) && InBounds(row, col) && b[row][col] == 0
    requires Completes(b, s) && NoConflicts(s)
    ensures Placeable(b, row, col, s[row][col])
    ensures Completes(Place(b, row, col, s[row][col]), s)
  {
    var d := s[row][col];
    assert InBounds(row, col);
    forall r, c | InBounds(r, c) && Peers(row, col, r, c)
      ensures b[r][c] != d
    {
      assert s[row][col] != s[r][c];
    }
    forall c | 0 <= c < 9 ensures b[row][c] != d {
      assert InBounds(row, c);
      if c != col { assert Peers(row, col, row, c); }
    }
    forall r | 0 <= r < 9 ensures b[r][col] != d {
      assert InBounds(r, col);
      if r != row { assert Peers(row, col, r, col); }
    }
    forall r, c | InBoxOf(row, col, r, c) ensures InBounds(r, c) && b[r][c] != d {
      BoxCorner(row, col, r, c);
      if (r, c) != (row, col) { assert Peers(row, col, r, c); }
    }
  }

  /** A completion of b with one empty cell filled in is a completion of b. */
  lemma {:induction false} CompletesAfterPlace(b: Board, row: int, col: int, num: int, s: Board)
    requires Shaped(b) && InBounds(row, col) && b[row][col] == 0 && 1 <= num <= 9
    requires Completes(Place(b, row, col, num), s)
    ensures Completes(b, s)
  {
    var b' := Place(b, row, col, num);
    forall r, c | InBounds(r, c) && b[r][c] != 0 ensures s[r][c] == b[r][c] {
      assert b'[r][c] == b[r][c];
    }
    forall r, c | InBounds(r, c) && b[r][c] == 0 ensures 1 <= s[r][c] <= 9 {
      if (r, c) != (row, col) { assert b'[r][c] == 0; }
    }
  }

  /** A complete board is a completion of itself. */
  lemma CompleteCompletesItself(b: Board)
    requires Shaped(b) && Complete(b)
    ensures Completes(b, b)
  {
  }

  // ---------------------------------------------------------------------------
  // Solved boards

  /** A filled board of digits 1..9 with no conflict. */
  ghost predicate Solved(s: Board)
    requires Shaped(s)
  {
    Complete(s) && InDigitRange(s) && NoConflicts(s)
  }

  const AllDigits: set<int> := {1, 2, 3, 4, 5, 6, 7, 8, 9}

  /** The nine values of row i, left to right. */
  function RowValues(b: Board, i: int): (v: seq<int>)
    requires Shaped(b) && 0 <= i < 9
  {
    b[i]
  }

  /** The nine values of column j, top to bottom. */
  function ColValues(b: Board, j: int): (v: seq<int>)
    requires Shaped(b) && 0 <= j < 9
  {
    seq(9, r requires 0 <= r < 9 => b[r][j])
  }

  /** The nine values of box k (boxes numbered row-major), read row by row. */
  function BoxValues(b: Board, k: int): (v: seq<int>)
    requires Shaped(b) && 0 <= k < 9
  {
    seq(9, t requires 0 <= t < 9 => b[3 * (k / 3) + t / 3][3 * (k % 3) + t % 3])
  }

  ghost predicate Distinct(v: seq<int>) {
    forall i, j :: 0 <= i < j < |v| ==> v[i] != v[j]
  }

  /** A sequence without repetitions has as many distinct values as elements. */
  lemma {:induction false} DistinctCard(v: seq<int>)
    requires Distinct(v)
    ensures |set x | x in v| == |v|
  {
    if |v| > 0 {
      var rest := v[1..];
      assert Distinct(rest) by {
        forall i, j | 0 <= i < j < |rest| ensures rest[i] != rest[j] {
          assert rest[i] == v[i + 1] && rest[j] == v[j + 1];
        }
      }
      DistinctCard(rest);
      assert (set x | x in v) == (set x | x in rest) + {v[0]};
      assert v[0] !in (set x | x in rest) by {
        forall i | 0 <= i < |rest| ensures rest[i] != v[0] {
          assert rest[i] == v[i + 1];
        }
      }
    }
  }

  /** Nine distinct digits are all of 1..9. */
  lemma NineDistinctDigits(v: seq<int>)
    requires |v| == 9 && Distinct(v) && forall i :: 0 <= i < 9 ==> 1 <= v[i] <= 9
    ensures (set x | x in v) == AllDigits
  {
    var present := set x | x in v;
    DistinctCard(v);
    assert present <= AllDigits;
    assert |AllDigits| == 9;
    assert |AllDigits - present| == 0;
  }

  /** The cell box k lists at position t. */
  lemma {:induction false} BoxPosition(k: int, t: int)
    requires 0 <= k < 9 && 0 <= t < 9
    ensures InBounds(3 * (k / 3) + t / 3, 3 * (k % 3) + t % 3)
    ensures (3 * (k / 3) + t / 3) / 3 == k / 3 && (3 * (k % 3) + t % 3) / 3 == k % 3
  {
  }

  /** Two different positions of box k are two peer cells. */
  lemma {:induction false} BoxPositionsArePeers(k: int, i: int, j: int)
    requires 0 <= k < 9 && 0 <= i < j < 9
    ensures Peers(3 * (k / 3) + i / 3, 3 * (k % 3) + i % 3, 3 * (k / 3) + j / 3, 3 * (k % 3) + j % 3)
  {
    BoxPosition(k, i);
    BoxPosition(k, j);
    assert i / 3 != j / 3 || i % 3 != j % 3;
  }

  /**
   * Two peer cells of a solved board hold different digits: NoConflicts at
   * one pair of cells, stated apart to keep SolvedBoxHoldsAllDigits small.
   */
  lemma SolvedPeersDiffer(s: Board, r1: int, c1: int, r2: int, c2: int)
    requires Shaped(s) && Solved(s) && InBounds(r1, c1) && InBounds(r2, c2) && Peers(r1, c1, r2, c2)
    ensures s[r1][c1] != s[r2][c2]
  {
  }

  /** Every row of a solved board holds each of the digits 1..9 exactly once. */
  lemma SolvedRowHoldsAllDigits(s: Board, k: int)
    requires Shaped(s) && Solved(s) && 0 <= k < 9
    ensures (set x | x in RowValues(s, k)) == AllDigits
  {
    var row := RowValues(s, k);
    forall i, j | 0 <= i < j < 9 ensures row[i] != row[j] {
      assert InBounds(k, i) && InBounds(k, j) && Peers(k, i, k, j);
    }
    forall i | 0 <= i < 9 ensures 1 <= row[i] <= 9 {
      assert InBounds(k, i);
    }
    NineDistinctDigits(row);
  }

  /** Every column of a solved board holds each of the digits 1..9 exactly once. */
  lemma SolvedColumnHoldsAllDigits(s: Board, k: int)
    requires Shaped(s) && Solved(s) && 0 <= k < 9
    ensures (set x | x in ColValues(s, k)) == AllDigits
  {
    var col := ColValues(s, k);
    forall i, j | 0 <= i < j < 9 ensures col[i] != col[j] {
      assert InBounds(i, k) && InBounds(j, k) && Peers(i, k, j, k);
    }
    forall i | 0 <= i < 9 ensures 1 <= col[i] <= 9 {
      assert InBounds(i, k);
    }
    NineDistinctDigits(col);
  }

  /** Every box of a solved board holds each of the digits 1..9 exactly once. */
  lemma SolvedBoxHoldsAllDigits(s: Board, k: int)
    requires Shaped(s) && Solved(s) && 0 <= k < 9
    ensures (set x | x in BoxValues(s, k)) == AllDigits
  {
    var box := BoxValues(s, k);
    forall i, j | 0 <= i < j < 9 ensures box[i] != box[j] {
      BoxPosition(k, i);
      BoxPosition(k, j);
      BoxPositionsArePeers(k, i, j);
      SolvedPeersDiffer(s, 3 * (k / 3) + i / 3, 3 * (k % 3) + i % 3, 3 * (k / 3) + j / 3, 3 * (k % 3) + j % 3);
    }
    forall i | 0 <= i < 9 ensures 1 <= box[i] <= 9 {
      BoxPosition(k, i);
    }
    NineDistinctDigits(box);
  }
}
