/** The game value the search computes, stated without pruning: the
    maximizer always marks 1, the minimizer marks `player`; a win for 1 is
    worth +1, a win for 2 is worth -1 and a full board 0. Children are
    taken in row-major order and the best one is replaced only on a strictly
    better value, so among equally good moves the earliest is chosen. */
module GameTree {
  import opened Grids

  /** The stand-ins for -infinity and +infinity: every game value lies between them. */
  const NegInf: int := -2
  const PosInf: int := 2

  /** The mark placed by the side to move. */
  function Mover(maximizing: bool, player: int): int {
    if maximizing then 1 else player
  }

  function Play(g: Grid, m: Coord, p: int): Grid
    requires InRange(m)
  {
    g[Index(m) := p]
  }

  /** The positions where the search stops: a line of 1s, a line of 2s, or a full board. */
  predicate IsLeaf(g: Grid) {
    Winner(g) == 1 || Winner(g) == 2 || CountMarked(g) == 9
  }

  /** v replaces best for the side to move: strictly greater for the
      maximizer, strictly less for the minimizer. */
  predicate Improves(maximizing: bool, v: int, best: int) {
    if maximizing then v > best else v < best
  }

  /** Every value is a game value, strictly between the two stand-ins for infinity. */
  predicate GameValues(vs: seq<int>) {
    forall i :: 0 <= i < |vs| ==> -1 <= vs[i] <= 1
  }

  /** The running best over the first k values and the index where it was
      found (-1 before any), replacing the best only on a strict improvement. */
  function Pick(vs: seq<int>, maximizing: bool, k: nat): (res: (int, int))
    requires k <= |vs|
    ensures k == 0 ==> res.1 == -1
    ensures 0 < k && GameValues(vs) ==> 0 <= res.1 < k && res.0 == vs[res.1]
  {
    if k == 0 then (if maximizing then NegInf else PosInf, -1)
    else
      var prev := Pick(vs, maximizing, k - 1);
      if Improves(maximizing, vs[k - 1], prev.0) then (vs[k - 1], k - 1) else prev
  }

  /** Among the first k values, the pick is the value at its index, no value
      improves on it, and every earlier value differs from it: it is the
      first best value. */
  lemma {:induction false} PickIsFirstBest(vs: seq<int>, maximizing: bool, k: nat)
    requires 0 < k <= |vs| && GameValues(vs)
    ensures var (v, j) := Pick(vs, maximizing, k);
      0 <= j < k && v == vs[j] &&
      (forall i :: 0 <= i < k ==> !Improves(maximizing, vs[i], v)) &&
      (forall i :: 0 <= i < j ==> vs[i] != v)
  {
    if k > 1 {
      PickIsFirstBest(vs, maximizing, k - 1);
    }
  }

  /** Looking at more values never makes the pick worse for the side to move. */
  lemma {:induction false} PickMonotone(vs: seq<int>, maximizing: bool, k: nat, n: nat)
    requires k <= n <= |vs|
    decreases n
    ensures !Improves(maximizing, Pick(vs, maximizing, k).0, Pick(vs, maximizing, n).0)
  {
    if k < n {
      PickMonotone(vs, maximizing, k, n - 1);
    }
  }

  /** The position after the side to move plays the i-th legal move. */
  function Child(g: Grid, maximizing: bool, player: int, i: nat): (c: Grid)
    requires player != 0 && i < |EmptySquares(g)|
    ensures c == Play(g, EmptySquares(g)[i], Mover(maximizing, player))
    ensures CountMarked(c) == CountMarked(g) + 1
  {
    var m := EmptySquares(g)[i];
    EmptyUpToExact(g, 9);
    PlaceOnEmptyCounts(g, Index(m), Mover(maximizing, player));
    Play(g, m, Mover(maximizing, player))
  }

  /** The unpruned minimax value of g with the side to move, and the move
      chosen (None at a leaf). */
  function Search(g: Grid, maximizing: bool, player: int): (res: (int, Option<Coord>))
    requires player != 0
    decreases 9 - CountMarked(g), 2, 0
    ensures -1 <= res.0 <= 1
    ensures res.1.None? <==> IsLeaf(g)
  {
    var w := Winner(g);
    if w == 1 then (1, None)
    else if w == 2 then (-1, None)
    else if CountMarked(g) == 9 then (0, None)
    else
      EmptyUpToCount(g, 9);
      var vs := ChildValues(g, maximizing, player);
      PickIsFirstBest(vs, maximizing, |vs|);
      var (v, j) := Pick(vs, maximizing, |vs|);
      (v, Some(EmptySquares(g)[j]))
  }

  /** The values of the positions reached by each legal move, in row-major order. */
  function ChildValues(g: Grid, maximizing: bool, player: int): (vs: seq<int>)
    requires player != 0
    decreases 9 - CountMarked(g), 1, 0
    ensures |vs| == |EmptySquares(g)| && GameValues(vs)
  {
    ChildValuesUpTo(g, maximizing, player, |EmptySquares(g)|)
  }

  /** The values of the positions reached by the first k legal moves. */
  function ChildValuesUpTo(g: Grid, maximizing: bool, player: int, k: nat): (vs: seq<int>)
    requires player != 0 && k <= |EmptySquares(g)|
    decreases 9 - CountMarked(g), 0, k
    ensures |vs| == k && GameValues(vs)
  {
    if k == 0 then []
    else ChildValuesUpTo(g, maximizing, player, k - 1) + [Search(Child(g, maximizing, player, k - 1), !maximizing, player).0]
  }

  lemma {:induction false} ChildValuesUpToAt(g: Grid, maximizing: bool, player: int, k: nat, i: nat)
    requires player != 0 && i < k <= |EmptySquares(g)|
    decreases k
    ensures ChildValuesUpTo(g, maximizing, player, k)[i] == Search(Child(g, maximizing, player, i), !maximizing, player).0
  {
    if i < k - 1 {
      ChildValuesUpToAt(g, maximizing, player, k - 1, i);
    }
  }

  /** The i-th child value is the search value of the position after the
      i-th legal move, with the other side to move. */
  lemma ChildValueAt(g: Grid, maximizing: bool, player: int, i: nat)
    requires player != 0 && i < |EmptySquares(g)|
    ensures ChildValues(g, maximizing, player)[i] == Search(Child(g, maximizing, player, i), !maximizing, player).0
  {
    ChildValuesUpToAt(g, maximizing, player, |EmptySquares(g)|, i);
  }

  /** Away from a leaf, the search picks among the values of the legal moves. */
  lemma SearchPicksAmongChildren(g: Grid, maximizing: bool, player: int)
    requires player != 0 && !IsLeaf(g)
    ensures var vs := ChildValues(g, maximizing, player);
      0 < |vs| &&
      Search(g, maximizing, player) == (Pick(vs, maximizing, |vs|).0, Some(EmptySquares(g)[Pick(vs, maximizing, |vs|).1]))
  {
    EmptyUpToCount(g, 9);
  }

  /** The search at a leaf: +1 for a line of 1s, -1 for a line of 2s, 0 for a full board. */
  lemma LeafValues(g: Grid, maximizing: bool, player: int)
    requires player != 0
    ensures Winner(g) == 1 ==> Search(g, maximizing, player) == (1, None)
    ensures Winner(g) == 2 ==> Search(g, maximizing, player) == (-1, None)
    ensures Winner(g) != 1 && Winner(g) != 2 && EmptySquares(g) == [] ==> Search(g, maximizing, player) == (0, None)
  {
    FullIffNoMoves(g);
  }

  /** Away from a leaf, the search value is the best value over all legal
      moves, and the chosen move is the first legal move in row-major order
      that achieves it. */
  lemma BestMoveIsFirstOptimal(g: Grid, maximizing: bool, player: int)
    requires player != 0 && !IsLeaf(g)
    ensures var vs := ChildValues(g, maximizing, player);
      0 < |vs| &&
      exists j :: (0 <= j < |vs| && Search(g, maximizing, player) == (vs[j], Some(EmptySquares(g)[j])) &&
        (forall i :: 0 <= i < |vs| ==> !Improves(maximizing, vs[i], vs[j])) &&
        (forall i :: 0 <= i < j ==> vs[i] != vs[j]))
  {
    EmptyUpToCount(g, 9);
    var vs := ChildValues(g, maximizing, player);
    PickIsFirstBest(vs, maximizing, |vs|);
    var j := Pick(vs, maximizing, |vs|).1;
    assert Search(g, maximizing, player) == (vs[j], Some(EmptySquares(g)[j]));
  }
}
