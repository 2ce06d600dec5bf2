/**
 * The search on the grid with every cell empty: it succeeds, and the board it
 * returns is solved. The success follows from SearchDecides once one
 * conflict-free completion is exhibited; the search itself is not unfolded.
 */
module Scenarios {
  import opened Grid
  import opened Backtracking

  /** The grid with every cell empty. */
  function EmptyBoard(): (b: Board)
    ensures Shaped(b)
    ensures forall r, c :: InBounds(r, c) ==> b[r][c] == 0
  {
    seq(9, r => seq(9, c => 0))
  }

  /**
   * A filled board: row r holds the digits 1..9 rotated left by
   * 3 * (r % 3) + r / 3, so that rows 0, 3, 6 start 1, 2, 3 and each band of
   * three rows shifts by three.
   */
  function Pattern(): (w: Board)
    ensures Shaped(w)
    ensures forall r, c :: InBounds(r, c) ==> w[r][c] == (3 * (r % 3) + r / 3 + c) % 9 + 1
  {
    seq(9, r requires 0 <= r < 9 => seq(9, c requires 0 <= c < 9 => (3 * (r % 3) + r / 3 + c) % 9 + 1))
  }

  /** Two integers less than 9 apart that differ have different residues mod 9. */
  lemma ResiduesDiffer(x: int, y: int)
    requires x != y && -9 < x - y < 9
    ensures x % 9 != y % 9
  {
  }

  /** The pattern's offset 3 * (r % 3) + r / 3 tells the rows apart. */
  lemma {:induction false} OffsetsDiffer(r1: int, r2: int)
    requires 0 <= r1 < 9 && 0 <= r2 < 9 && r1 != r2
    ensures 3 * (r1 % 3) + r1 / 3 != 3 * (r2 % 3) + r2 / 3
  {
    assert r1 == 3 * (r1 / 3) + r1 % 3 && r2 == 3 * (r2 / 3) + r2 % 3;
  }

  /** Two peer cells of the pattern hold different digits. */
  lemma {:induction false} PatternPeersDiffer(r1: int, c1: int, r2: int, c2: int)
    requires InBounds(r1, c1) && InBounds(r2, c2) && Peers(r1, c1, r2, c2)
    ensures Pattern()[r1][c1] != Pattern()[r2][c2]
  {
    var x := 3 * (r1 % 3) + r1 / 3 + c1;
    var y := 3 * (r2 % 3) + r2 / 3 + c2;
    if r1 == r2 {
      assert x - y == c1 - c2;
    } else if c1 == c2 {
      OffsetsDiffer(r1, r2);
    } else {
      assert r1 / 3 == r2 / 3 && c1 / 3 == c2 / 3;
      assert r1 % 3 != r2 % 3;
      assert -3 < c1 - c2 < 3;
    }
    ResiduesDiffer(x, y);
  }

  /** The pattern is a solved board. */
  lemma PatternSolved()
    ensures Solved(Pattern())
  {
    var w := Pattern();
    forall r1, c1, r2, c2 | InBounds(r1, c1) && InBounds(r2, c2) && Peers(r1, c1, r2, c2)
      ensures w[r1][c1] != w[r2][c2]
    {
      PatternPeersDiffer(r1, c1, r2, c2);
    }
  }

  /**
   * On the grid with every cell empty the search succeeds, and the board it
   * returns is solved: a full, conflict-free board of digits 1..9.
   */
  lemma EmptyBoardSolved()
    ensures Search(EmptyBoard()).Some?
    ensures Solved(Search(EmptyBoard()).value)
  {
    var e := EmptyBoard();
    PatternSolved();
    assert Completes(e, Pattern());
    SearchDecides(e);
    SearchSolves(e);
  }
}
