/** The rules of the 3×3 board, stated on board snapshots (values): the eight
    lines and the winner classification, the fill count, and the list of
    legal moves in row-major order. */
module Grids {

  datatype Option<T> = None | Some(value: T)

  /** A board snapshot in row-major order: cell (row, col) sits at index
      3 * row + col. 0 is an empty cell, 1 and 2 are the players' marks. */
  type Grid = g: seq<int> | |g| == 9 witness [0, 0, 0, 0, 0, 0, 0, 0, 0]

  /** A move, as the pair (row, col). */
  type Coord = (int, int)

  const Blank: Grid := [0, 0, 0, 0, 0, 0, 0, 0, 0]

  predicate InRange(m: Coord) {
    0 <= m.0 < 3 && 0 <= m.1 < 3
  }

  function Index(m: Coord): (i: nat)
    requires InRange(m)
    ensures i < 9
  {
    3 * m.0 + m.1
  }

  function CoordOf(i: nat): (m: Coord)
    requires i < 9
    ensures InRange(m) && Index(m) == i
  {
    (i / 3, i % 3)
  }

  lemma CoordOfIndex(m: Coord)
    requires InRange(m)
    ensures CoordOf(Index(m)) == m
  {
    var i := Index(m);
    assert i / 3 == m.0 && i % 3 == m.1 by {
      if m.0 == 0 {
      } else if m.0 == 1 {
      } else {
      }
    }
  }

  /** The cells of line k, in the order the lines are examined:
      columns 0..2, then rows 0..2, then the main diagonal, then the
      anti-diagonal. */
  function Line(k: nat): (t: (nat, nat, nat))
    requires k < 8
    ensures t.0 < 9 && t.1 < 9 && t.2 < 9
  {
    if k < 3 then (k, 3 + k, 6 + k)
    else if k < 6 then (3 * (k - 3), 3 * (k - 3) + 1, 3 * (k - 3) + 2)
    else if k == 6 then (0, 4, 8)
    else (6, 4, 2)
  }

  /** Line k holds three equal non-empty marks. */
  predicate Completed(g: Grid, k: nat)
    requires k < 8
  {
    var (a, b, c) := Line(k);
    g[a] == g[b] && g[b] == g[c] && g[c] != 0
  }

  /** The first completed line at or after k, or 8 when there is none. */
  function FirstCompleted(g: Grid, k: nat): (j: nat)
    requires k <= 8
    decreases 8 - k
    ensures k <= j <= 8
    ensures j < 8 ==> Completed(g, j)
    ensures forall i :: k <= i < j ==> !Completed(g, i)
  {
    if k == 8 then 8
    else if Completed(g, k) then k
    else FirstCompleted(g, k + 1)
  }

  /** The winner classification: 0 when no line is completed, otherwise
      the mark of the first completed line in the fixed order. */
  function Winner(g: Grid): (w: int)
    ensures w == 0 <==> forall k :: 0 <= k < 8 ==> !Completed(g, k)
    ensures w != 0 ==>
      exists k :: 0 <= k < 8 && Completed(g, k) && w == g[Line(k).0] &&
        forall i :: 0 <= i < k ==> !Completed(g, i)
  {
    var j := FirstCompleted(g, 0);
    if j == 8 then 0 else g[Line(j).0]
  }

  /** The winner is the mark of any completed line that no earlier line precedes. */
  lemma WinnerOfFirstLine(g: Grid, k: nat)
    requires k < 8 && Completed(g, k)
    requires forall i :: 0 <= i < k ==> !Completed(g, i)
    ensures Winner(g) == g[Line(k).0]
  {
    assert FirstCompleted(g, 0) == k;
  }

  // ---------------------------------------------------------------------
  // Fill count

  /** The number of non-empty cells among the first n. */
  function Marked(g: Grid, n: nat): (c: nat)
    requires n <= 9
    ensures c <= n
  {
    if n == 0 then 0 else Marked(g, n - 1) + (if g[n - 1] != 0 then 1 else 0)
  }

  function CountMarked(g: Grid): nat {
    Marked(g, 9)
  }

  /** Writing p into cell i changes the count of the first n cells by the
      change in that one cell's occupancy, and by nothing else. */
  lemma {:induction false} MarkedAfterPlace(g: Grid, i: nat, p: int, n: nat)
    requires i < 9 && n <= 9
    ensures Marked(g[i := p], n) ==
      Marked(g, n) + (if i < n then (if p != 0 then 1 else 0) - (if g[i] != 0 then 1 else 0) else 0)
  {
    if n > 0 {
      MarkedAfterPlace(g, i, p, n - 1);
    }
  }

  /** Placing a mark on an empty cell adds exactly one to the fill count. */
  lemma PlaceOnEmptyCounts(g: Grid, i: nat, p: int)
    requires i < 9 && g[i] == 0 && p != 0
    ensures CountMarked(g[i := p]) == CountMarked(g) + 1
  {
    MarkedAfterPlace(g, i, p, 9);
  }

  /** Placing a mark on an occupied cell leaves the number of marked cells
      as it was, although the board's counter still goes up by one. */
  lemma PlaceOnOccupiedKeepsCount(g: Grid, i: nat, p: int)
    requires i < 9 && g[i] != 0 && p != 0
    ensures CountMarked(g[i := p]) == CountMarked(g)
  {
    MarkedAfterPlace(g, i, p, 9);
  }

  /** No cell among the first n is marked exactly when all of them are 0. */
  lemma {:induction false} MarkedZeroIffBlank(g: Grid, n: nat)
    requires n <= 9
    ensures Marked(g, n) == 0 <==> forall i :: 0 <= i < n ==> g[i] == 0
  {
    if n > 0 {
      MarkedZeroIffBlank(g, n - 1);
    }
  }

  /** A sequence of placements, each on a cell that is empty when it is made,
      with a non-zero mark. */
  predicate LegalPlacements(g: Grid, moves: seq<(Coord, int)>)
    decreases |moves|
  {
    moves == [] ||
    (InRange(moves[0].0) && g[Index(moves[0].0)] == 0 && moves[0].1 != 0 &&
     LegalPlacements(g[Index(moves[0].0) := moves[0].1], moves[1..]))
  }

  function PlaceAll(g: Grid, moves: seq<(Coord, int)>): Grid
    requires LegalPlacements(g, moves)
    decreases |moves|
  {
    if moves == [] then g
    else PlaceAll(g[Index(moves[0].0) := moves[0].1], moves[1..])
  }

  /** The fill count grows by exactly the number of placements made on empty cells. */
  lemma {:induction false} FillCountIsPlacementCount(g: Grid, moves: seq<(Coord, int)>)
    requires LegalPlacements(g, moves)
    decreases |moves|
    ensures CountMarked(PlaceAll(g, moves)) == CountMarked(g) + |moves|
  {
    if moves != [] {
      var h := g[Index(moves[0].0) := moves[0].1];
      PlaceOnEmptyCounts(g, Index(moves[0].0), moves[0].1);
      FillCountIsPlacementCount(h, moves[1..]);
    }
  }

  // ---------------------------------------------------------------------
  // Legal moves

  /** The empty cells among the first n, in row-major order. */
  function EmptyUpTo(g: Grid, n: nat): (e: seq<Coord>)
    requires n <= 9
    ensures forall i :: 0 <= i < |e| ==> InRange(e[i])
  {
    if n == 0 then []
    else EmptyUpTo(g, n - 1) + (if g[n - 1] == 0 then [CoordOf(n - 1)] else [])
  }

  function EmptySquares(g: Grid): seq<Coord> {
    EmptyUpTo(g, 9)
  }

  /** The listed moves are exactly the coordinates of the empty cells among the first n. */
  lemma {:induction false} EmptyUpToExact(g: Grid, n: nat)
    requires n <= 9
    ensures forall m :: m in EmptyUpTo(g, n) <==> InRange(m) && Index(m) < n && g[Index(m)] == 0
  {
    if n > 0 {
      EmptyUpToExact(g, n - 1);
      forall m | InRange(m) && Index(m) == n - 1
        ensures m == CoordOf(n - 1)
      {
        CoordOfIndex(m);
      }
    }
  }

  /** The listed moves are in strictly increasing row-major order, so none repeats. */
  lemma {:induction false} EmptyUpToIncreasing(g: Grid, n: nat)
    requires n <= 9
    ensures forall i, j :: 0 <= i < j < |EmptyUpTo(g, n)| ==>
      Index(EmptyUpTo(g, n)[i]) < Index(EmptyUpTo(g, n)[j])
  {
    if n > 0 {
      EmptyUpToIncreasing(g, n - 1);
      EmptyUpToExact(g, n - 1);
      var e := EmptyUpTo(g, n - 1);
      assert forall i :: 0 <= i < |e| ==> e[i] in e;
    }
  }

  /** Every cell among the first n is either listed as a move or counted as marked. */
  lemma {:induction false} EmptyUpToCount(g: Grid, n: nat)
    requires n <= 9
    ensures |EmptyUpTo(g, n)| + Marked(g, n) == n
  {
    if n > 0 {
      EmptyUpToCount(g, n - 1);
    }
  }

  /** The full board has no legal move, and only the full board. */
  lemma FullIffNoMoves(g: Grid)
    ensures CountMarked(g) == 9 <==> EmptySquares(g) == []
  {
    EmptyUpToCount(g, 9);
  }
}
