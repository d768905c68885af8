/** The live board: a 3×3 grid of marks updated in place, with a counter of
    the marks placed so far. */
module Boards {
  import opened Grids

  class Board {
    var squares: array2<int>
    var markedSquares: int

    /** The grid is 3×3, as every board's grid is. */
    ghost predicate ValidShape()
      reads this
    {
      squares.Length0 == 3 && squares.Length1 == 3
    }

    /** The board's snapshot, row-major. */
    function Cells(): (g: Grid)
      reads this, squares
      requires ValidShape()
      ensures forall r, c :: 0 <= r < 3 && 0 <= c < 3 ==> g[3 * r + c] == squares[r, c]
    {
      [squares[0, 0], squares[0, 1], squares[0, 2],
       squares[1, 0], squares[1, 1], squares[1, 2],
       squares[2, 0], squares[2, 1], squares[2, 2]]
    }

    /** The count invariant: the counter equals the number of marked cells. */
    ghost predicate Valid()
      reads this, squares
    {
      ValidShape() && markedSquares == CountMarked(Cells())
    }

    constructor ()
      ensures Valid() && fresh(squares)
      ensures Cells() == Blank && markedSquares == 0
    {
      squares := new int[3, 3]((r, c) => 0);
      markedSquares := 0;
      new;
      MarkedZeroIffBlank(Cells(), 9);
    }

    /** A deep copy: a fresh grid with the same marks and the same counter. */
    constructor Copy(other: Board)
      requires other.ValidShape()
      ensures ValidShape() && fresh(squares)
      ensures Cells() == other.Cells() && markedSquares == other.markedSquares
    {
      squares := new int[3, 3]((r, c) reads other, other.squares =>
        if 0 <= r < other.squares.Length0 && 0 <= c < other.squares.Length1 then other.squares[r, c] else 0);
      markedSquares := other.markedSquares;
    }

    /** The winner classification, scanning columns, then rows, then the
        main diagonal, then the anti-diagonal, and stopping at the first
        completed line. */
    method FinalState() returns (w: int)
      requires ValidShape()
      ensures w == Winner(Cells())
    {
      ghost var g := Cells();
      for col := 0 to 3
        invariant forall k :: 0 <= k < col ==> !Completed(g, k)
      {
        if squares[0, col] == squares[1, col] && squares[1, col] == squares[2, col] && squares[2, col] != 0 {
          WinnerOfFirstLine(g, col);
          return squares[0, col];
        }
      }
      for row := 0 to 3
        invariant forall k :: 0 <= k < 3 + row ==> !Completed(g, k)
      {
        if squares[row, 0] == squares[row, 1] && squares[row, 1] == squares[row, 2] && squares[row, 2] != 0 {
          WinnerOfFirstLine(g, 3 + row);
          return squares[row, 0];
        }
      }
      if squares[0, 0] == squares[1, 1] && squares[1, 1] == squares[2, 2] && squares[2, 2] != 0 {
        WinnerOfFirstLine(g, 6);
        return squares[1, 1];
      }
      if squares[2, 0] == squares[1, 1] && squares[1, 1] == squares[0, 2] && squares[0, 2] != 0 {
        WinnerOfFirstLine(g, 7);
        return squares[1, 1];
      }
      return 0;
    }

    /** Writes player's mark into cell (row, col) and bumps the counter. There
        is no check that the cell was empty: an occupied cell is overwritten,
        and the count invariant survives only a mark placed on an empty cell. */
    method MarkSqr(row: int, col: int, player: int)
      requires ValidShape() && 0 <= row < 3 && 0 <= col < 3
      modifies this, squares
      ensures ValidShape() && squares == old(squares)
      ensures Cells() == old(Cells())[3 * row + col := player]
      ensures markedSquares == old(markedSquares) + 1
      ensures old(Valid()) && old(Cells())[3 * row + col] == 0 && player != 0 ==> Valid()
    {
      ghost var g := Cells();
      squares[row, col] := player;
      markedSquares := markedSquares + 1;
      if g[3 * row + col] == 0 && player != 0 {
        PlaceOnEmptyCounts(g, 3 * row + col, player);
      }
    }

    function EmptySqr(row: int, col: int): (b: bool)
      reads this, squares
      requires ValidShape() && 0 <= row < 3 && 0 <= col < 3
      ensures b <==> (row, col) in EmptySquares(Cells())
    {
      EmptyUpToExact(Cells(), 9);
      squares[row, col] == 0
    }

    /** The legal moves, row by row and column by column. */
    method GetEmptySquares() returns (empties: seq<Coord>)
      requires ValidShape()
      ensures empties == EmptySquares(Cells())
    {
      ghost var g := Cells();
      empties := [];
      for row := 0 to 3
        invariant empties == EmptyUpTo(g, 3 * row)
      {
        for col := 0 to 3
          invariant empties == EmptyUpTo(g, 3 * row + col)
        {
          CoordOfIndex((row, col));
          if EmptySqr(row, col) {
            empties := empties + [(row, col)];
          }
        }
      }
    }

    /** A test of the counter alone; under the count invariant it holds
        exactly when no legal move is left. */
    function IsFull(): (b: bool)
      reads this, squares
      requires ValidShape()
      ensures Valid() ==> (b <==> EmptySquares(Cells()) == [])
    {
      FullIffNoMoves(Cells());
      markedSquares == 9
    }

    /** A test of the counter alone; under the count invariant it holds
        exactly when every cell is 0. */
    function IsEmpty(): (b: bool)
      reads this, squares
      requires ValidShape()
      ensures Valid() ==> (b <==> forall i :: 0 <= i < 9 ==> Cells()[i] == 0)
    {
      MarkedZeroIffBlank(Cells(), 9);
      markedSquares == 0
    }
  }
}
