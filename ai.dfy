/** The automated opponent: a random policy over the legal moves, and an
    exhaustive minimax search with alpha-beta pruning over private copies of
    the board. */
module Ai {
  import opened Grids
  import opened Boards
  import opened GameTree

  /** r, found by a search with window (lo, hi), relates to the true value v
      as fail-soft alpha-beta promises: an upper bound at or below lo, a lower
      bound at or above hi, and exact strictly inside. */
  predicate FailSoft(r: int, v: int, lo: int, hi: int) {
    (r <= lo ==> v <= r) && (r >= hi ==> v >= r) && (lo < r < hi ==> v == r)
  }

  function Max(x: int, y: int): int { if x < y then y else x }

  function Min(x: int, y: int): int { if x < y then x else y }

  /** The maximizer's loop state after the first i moves, against the true
      values vs: alpha has absorbed every result, the running best bounds the
      true best so far from above, and equals it, with its index, once it is
      above the caller's alpha. */
  predicate MaxLoop(vs: seq<int>, i: nat, alpha: int, beta: int, maxEval: int, bestIdx: int, a: int)
    requires i <= |vs|
  {
    (i == 0 ==> maxEval == NegInf && a == alpha) &&
    (i > 0 ==> -1 <= maxEval <= 1 && 0 <= bestIdx < i && a == Max(alpha, maxEval) && a < beta) &&
    Pick(vs, true, i).0 <= maxEval &&
    (maxEval > alpha ==> maxEval == Pick(vs, true, i).0 && (i > 0 ==> bestIdx == Pick(vs, true, i).1))
  }

  /** One step of the maximizer's loop: the i-th result e, searched with
      window (a, beta), moves the state to (maxEval', bestIdx', a'); that
      state either keeps the loop state or cuts off with a result no greater
      than the true best. */
  lemma MaxStep(vs: seq<int>, i: nat, alpha: int, beta: int, maxEval: int, bestIdx: int, a: int, e: int,
                maxEval': int, bestIdx': int, a': int)
    requires GameValues(vs) && i < |vs| && alpha < beta
    requires MaxLoop(vs, i, alpha, beta, maxEval, bestIdx, a)
    requires -1 <= e <= 1 && FailSoft(e, vs[i], a, beta)
    requires maxEval' == (if e > maxEval then e else maxEval)
    requires bestIdx' == (if e > maxEval then i else bestIdx)
    requires a' == (if e > a then e else a)
    ensures a' < beta ==> MaxLoop(vs, i + 1, alpha, beta, maxEval', bestIdx', a')
    ensures beta <= a' ==> maxEval' == e && bestIdx' == i && beta <= e <= Pick(vs, true, i + 1).0
  {
  }

  /** The minimizer's loop state, the mirror image of MaxLoop. */
  predicate MinLoop(vs: seq<int>, i: nat, alpha: int, beta: int, minEval: int, bestIdx: int, b: int)
    requires i <= |vs|
  {
    (i == 0 ==> minEval == PosInf && b == beta) &&
    (i > 0 ==> -1 <= minEval <= 1 && 0 <= bestIdx < i && b == Min(beta, minEval) && alpha < b) &&
    minEval <= Pick(vs, false, i).0 &&
    (minEval < beta ==> minEval == Pick(vs, false, i).0 && (i > 0 ==> bestIdx == Pick(vs, false, i).1))
  }

  /** One step of the minimizer's loop, the mirror image of MaxStep. */
  lemma MinStep(vs: seq<int>, i: nat, alpha: int, beta: int, minEval: int, bestIdx: int, b: int, e: int,
                minEval': int, bestIdx': int, b': int)
    requires GameValues(vs) && i < |vs| && alpha < beta
    requires MinLoop(vs, i, alpha, beta, minEval, bestIdx, b)
    requires -1 <= e <= 1 && FailSoft(e, vs[i], alpha, b)
    requires minEval' == (if e < minEval then e else minEval)
    requires bestIdx' == (if e < minEval then i else bestIdx)
    requires b' == (if e < b then e else b)
    ensures alpha < b' ==> MinLoop(vs, i + 1, alpha, beta, minEval', bestIdx', b')
    ensures b' <= alpha ==> minEval' == e && bestIdx' == i && Pick(vs, false, i + 1).0 <= e <= alpha
  {
  }

  class AI {
    /** 0 selects the random policy; any other level selects the search. */
    var level: int
    /** The mark the minimizer places. */
    var player: int

    /** Game's constructor builds the opponent with level 1 and player 2. */
    constructor (level: int, player: int)
      ensures this.level == level && this.player == player
    {
      this.level := level;
      this.player := player;
    }

    /** The legal move at position idx of the row-major list; idx stands for
        the random index drawn uniformly from that list's positions. */
    method Rnd(board: Board, idx: int) returns (m: Coord)
      requires board.ValidShape()
      requires 0 <= idx < |EmptySquares(board.Cells())|
      ensures m == EmptySquares(board.Cells())[idx]
      ensures InRange(m) && board.Cells()[Index(m)] == 0
    {
      var emptySquares := board.GetEmptySquares();
      EmptyUpToExact(board.Cells(), 9);
      assert emptySquares[idx] in emptySquares;
      m := emptySquares[idx];
    }

    /** Fail-soft alpha-beta search. A result at or below alpha is an upper
        bound of the true value, one at or above beta a lower bound, and one
        strictly inside the window is the true value together with the first
        best move. The board is not modified: every branch marks a fresh copy. */
    method Minimax(board: Board, alpha: int, beta: int, maximizing: bool) returns (r: int, move: Option<Coord>)
      requires board.Valid() && player != 0 && alpha < beta
      decreases 9 - CountMarked(board.Cells()), 3, 0
      ensures -1 <= r <= 1
      ensures Winner(board.Cells()) == 1 ==> (r, move) == (1, None)
      ensures Winner(board.Cells()) == 2 ==> (r, move) == (-1, None)
      ensures Winner(board.Cells()) != 1 && Winner(board.Cells()) != 2 && CountMarked(board.Cells()) == 9 ==> (r, move) == (0, None)
      ensures move.None? <==> IsLeaf(board.Cells())
      ensures move.Some? ==> InRange(move.value) && board.Cells()[Index(move.value)] == 0
      ensures r <= alpha ==> Search(board.Cells(), maximizing, player).0 <= r
      ensures r >= beta ==> Search(board.Cells(), maximizing, player).0 >= r
      ensures alpha < r < beta ==> (r, move) == Search(board.Cells(), maximizing, player)
    {
      FullIffNoMoves(board.Cells());
      var outcome := board.FinalState();
      if outcome == 1 {
        return 1, None;
      }
      if outcome == 2 {
        return -1, None;
      } else if board.IsFull() {
        return 0, None;
      }
      ghost var g := board.Cells();
      ghost var vs := ChildValues(g, maximizing, player);
      SearchPicksAmongChildren(g, maximizing, player);
      ghost var j;
      if maximizing {
        r, move, j := MaxBranch(board, g, vs, alpha, beta);
      } else {
        r, move, j := MinBranch(board, g, vs, alpha, beta);
      }
      EmptyUpToExact(g, 9);
      assert EmptySquares(g)[j] in EmptySquares(g);
    }

    /** The maximizer's side of the search: marks 1 on a copy for each legal
        move in turn, raising its lower bound a, and stops once a reaches beta.
        The result relates to the best child value as fail-soft promises, and
        inside the window it comes with the first move reaching it. */
    method MaxBranch(board: Board, ghost g: Grid, ghost vs: seq<int>, alpha: int, beta: int)
      returns (maxEval: int, bestMove: Option<Coord>, ghost bestIdx: int)
      requires board.Valid() && player != 0 && alpha < beta
      requires g == board.Cells() && !IsLeaf(g) && vs == ChildValues(g, true, player)
      decreases 9 - CountMarked(board.Cells()), 2, 0
      ensures 0 <= bestIdx < |vs| && bestMove == Some(EmptySquares(g)[bestIdx]) && -1 <= maxEval <= 1
      ensures FailSoft(maxEval, Pick(vs, true, |vs|).0, alpha, beta)
      ensures alpha < maxEval < beta ==> bestIdx == Pick(vs, true, |vs|).1
    {
      FullIffNoMoves(g);
      var emptySquares := board.GetEmptySquares();
      maxEval, bestMove, bestIdx := NegInf, None, -1;
      var a := alpha;
      var i := 0;
      while i < |emptySquares|
        invariant 0 <= i <= |emptySquares| == |vs|
        invariant MaxLoop(vs, i, alpha, beta, maxEval, bestIdx, a)
        invariant i > 0 ==> bestMove == Some(emptySquares[bestIdx])
      {
        var eval := TryMove(board, g, vs, true, i, emptySquares[i], a, beta);
        ghost var (e0, j0, a0) := (maxEval, bestIdx, a);
        if eval > maxEval {
          maxEval, bestMove, bestIdx := eval, Some(emptySquares[i]), i;
        }
        if eval > a {
          a := eval;
        }
        MaxStep(vs, i, alpha, beta, e0, j0, a0, eval, maxEval, bestIdx, a);
        if beta <= a {
          PickMonotone(vs, true, i + 1, |vs|);
          return;
        }
        i := i + 1;
      }
    }

    /** The minimizer's side of the search, the mirror image of MaxBranch:
        marks player, lowers its upper bound b, and stops once b reaches alpha. */
    method MinBranch(board: Board, ghost g: Grid, ghost vs: seq<int>, alpha: int, beta: int)
      returns (minEval: int, bestMove: Option<Coord>, ghost bestIdx: int)
      requires board.Valid() && player != 0 && alpha < beta
      requires g == board.Cells() && !IsLeaf(g) && vs == ChildValues(g, false, player)
      decreases 9 - CountMarked(board.Cells()), 2, 0
      ensures 0 <= bestIdx < |vs| && bestMove == Some(EmptySquares(g)[bestIdx]) && -1 <= minEval <= 1
      ensures FailSoft(minEval, Pick(vs, false, |vs|).0, alpha, beta)
      ensures alpha < minEval < beta ==> bestIdx == Pick(vs, false, |vs|).1
    {
      FullIffNoMoves(g);
      var emptySquares := board.GetEmptySquares();
      minEval, bestMove, bestIdx := PosInf, None, -1;
      var b := beta;
      var i := 0;
      while i < |emptySquares|
        invariant 0 <= i <= |emptySquares| == |vs|
        invariant MinLoop(vs, i, alpha, beta, minEval, bestIdx, b)
        invariant i > 0 ==> bestMove == Some(emptySquares[bestIdx])
      {
        var eval := TryMove(board, g, vs, false, i, emptySquares[i], alpha, b);
        ghost var (e0, j0, b0) := (minEval, bestIdx, b);
        if eval < minEval {
          minEval, bestMove, bestIdx := eval, Some(emptySquares[i]), i;
        }
        if eval < b {
          b := eval;
        }
        MinStep(vs, i, alpha, beta, e0, j0, b0, eval, minEval, bestIdx, b);
        if b <= alpha {
          PickMonotone(vs, false, i + 1, |vs|);
          return;
        }
        i := i + 1;
      }
    }

    /** One iteration's work in either branch: plays the i-th legal move m
        for the side to move on a deep copy of the board and searches the
        copy, for the other side, with window (alpha, beta). The result
        relates to the true value of that move as fail-soft promises. */
    method TryMove(board: Board, ghost g: Grid, ghost vs: seq<int>, maximizing: bool, i: nat, m: Coord, alpha: int, beta: int)
      returns (e: int)
      requires board.Valid() && player != 0 && alpha < beta
      requires g == board.Cells() && vs == ChildValues(g, maximizing, player)
      requires i < |EmptySquares(g)| && m == EmptySquares(g)[i]
      decreases 9 - CountMarked(board.Cells()), 1, 0
      ensures -1 <= e <= 1 && FailSoft(e, vs[i], alpha, beta)
    {
      EmptyUpToExact(g, 9);
      ChildValueAt(g, maximizing, player, i);
      assert m in EmptySquares(g);
      var tempBoard := new Board.Copy(board);
      tempBoard.MarkSqr(m.0, m.1, if maximizing then 1 else player);
      assert tempBoard.Cells() == Child(g, maximizing, player, i);
      var childMove;
      e, childMove := Minimax(tempBoard, alpha, beta, !maximizing);
    }

    /** The move the engine hands back: a random legal move at level 0, and
        otherwise the search's move at the root, where the engine is the
        minimizer and the window is (-infinity, +infinity). */
    method Eval(mainBoard: Board, idx: int) returns (move: Option<Coord>)
      requires mainBoard.ValidShape() && (level != 0 ==> mainBoard.Valid())
      requires level == 0 ==> 0 <= idx < |EmptySquares(mainBoard.Cells())|
      requires level != 0 ==> player != 0
      ensures level == 0 ==> move == Some(EmptySquares(mainBoard.Cells())[idx])
      ensures level != 0 ==> move == Search(mainBoard.Cells(), false, player).1
    {
      if level == 0 {
        var m := Rnd(mainBoard, idx);
        move := Some(m);
      } else {
        var eval;
        eval, move := Minimax(mainBoard, NegInf, PosInf, false);
      }
    }
  }
}
