/** The game session: the live board, the automated opponent, and whose
    turn it is. */
module Games {
  import opened Boards
  import opened Ai

  /** The player whose turn follows p's. Floor modulo by a positive divisor
      agrees with Dafny's Euclidean %. */
  function NextPlayer(p: int): (q: int)
    ensures 1 <= q <= 2
    ensures p == 1 ==> q == 2
    ensures p == 2 ==> q == 1
  {
    p % 2 + 1
  }

  /** Toggling twice hands the turn back to the same one of the two players. */
  lemma NextPlayerTwice(p: int)
    ensures NextPlayer(NextPlayer(p)) == (if p % 2 == 0 then 2 else 1)
    ensures p == 1 || p == 2 ==> NextPlayer(NextPlayer(p)) == p
  {
    if p % 2 == 0 {
      assert NextPlayer(p) == 1;
    } else {
      assert NextPlayer(p) == 2;
    }
  }

  class Game {
    var board: Board
    var ai: AI
    /** The mark the next human move places, 1 to begin with. */
    var player: int

    /** A blank board, the default opponent (search, minimizing with mark 2),
        and player 1 to move. */
    constructor ()
      ensures board.Valid() && fresh(board) && fresh(ai)
      ensures board.Cells() == Grids.Blank && board.markedSquares == 0
      ensures ai.level == 1 && ai.player == 2 && player == 1
    {
      board := new Board();
      ai := new AI(1, 2);
      player := 1;
    }

    /** Passes the turn: 1 and 2 alternate. */
    method NextTurn()
      modifies this
      ensures player == NextPlayer(old(player))
      ensures board == old(board) && ai == old(ai)
    {
      player := NextPlayer(player);
    }
  }
}
