/**
 * The interface of the game board as the driver sees it.  The board's grid,
 * gravity and win scan are not part of this model: the board is represented by
 * the drops it has accepted, in order, and its two decisions (whether `set`
 * places a checker, and who has won) are arbitrary functions of that history
 * that the caller supplies.
 */
module Boards {

  const ROWS := 6
  const COLUMNS := 7

  /** The cell marks the board declares: empty, the two players, and the two winning-line highlights. */
  datatype Mark = Unmarked | Red | Black | Gray | Pink

  predicate IsPlayer(m: Mark) {
    m == Red || m == Black
  }

  /** One checker placed on the board. */
  datatype Drop = Drop(column: int, mark: Mark)

  /** Whether `set(column, mark)` places the checker on a board holding the given drops. */
  type SetRule = (seq<Drop>, int, Mark) -> bool

  /** What `getWinner()` answers for a board holding the given drops. */
  type WinnerRule = seq<Drop> -> Mark

  /** Every accepted drop names a column of the board and a player. */
  ghost predicate WellFormed(drops: seq<Drop>) {
    forall i :: 0 <= i < |drops| ==> 0 <= drops[i].column < COLUMNS && IsPlayer(drops[i].mark)
  }

  class Board {
    var drops: seq<Drop>

    /** A new board is empty. */
    constructor()
      ensures drops == []
    {
      drops := [];
    }

    /** `set(column, mark)`: either places the checker or throws and leaves the board as it was. */
    method Set(column: int, mark: Mark, accepts: SetRule) returns (placed: bool)
      modifies this
      ensures placed == accepts(old(drops), column, mark)
      ensures drops == if placed then old(drops) + [Drop(column, mark)] else old(drops)
    {
      placed := accepts(drops, column, mark);
      if placed {
        drops := drops + [Drop(column, mark)];
      }
    }
  }
}
