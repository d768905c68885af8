# Tic-tac-toe decision engine, modelled and proved in Dafny

This project models the rule and decision core of a 3×3 tic-tac-toe game
with a computer opponent. The core has three parts:

- **The board.** It is a 3×3 grid of marks, where 0 is an empty cell and 1
  and 2 are the players' marks, together with a counter of the marks placed.
  The board can:
  - classify the winner by scanning columns, then rows, then the two
    diagonals;
  - place a mark in place;
  - list the empty cells in row-major order;
  - test whether it is full or empty by reading the counter.
- **The opponent.** It either picks a random empty cell (level 0) or runs
  an exhaustive minimax search with alpha-beta pruning (any other level).
  The maximizer always marks 1 and the minimizer marks the opponent's own
  `player`. At the root the opponent searches as the minimizer with the
  window (−∞, +∞).
- **The turn toggle** between players 1 and 2.

The project has five modules:

- `Grids` (`grids.dfy`) states the rules on board snapshots. A snapshot is
  a row-major `seq<int>` of length 9, in which cell (row, col) sits at
  index 3·row + col. This module defines the eight lines in scan order,
  the winner, the fill count and the list of legal moves.
- `Boards` (`boards.dfy`) is the live board: a class over an `array2<int>`
  and its counter. `Cells()` reads the array back as a snapshot. `Valid()`
  is the count invariant: the counter equals the number of marked cells.
- `GameTree` (`game_tree.dfy`) is the unpruned reference game value
  `Search`. Children come in row-major order and the best is replaced only
  on a strict improvement, so among equal values the earliest move wins.
- `Ai` (`ai.dfy`) is the opponent as a class. It has
  `Rnd`, `Minimax` (split into `MaxBranch`, `MinBranch` and the per-move
  `TryMove`, which marks a deep copy and searches it) and `Eval`.
- `Games` (`games.dfy`) is the game session and its turn toggle.

The search is proved correct in the usual fail-soft sense. Call `V` the
unpruned value of the position.

- A result `r` at or below alpha means `V <= r`.
- A result at or above beta means `V >= r`.
- A result strictly inside the window is `V` itself, together with the
  first optimal move.

The root window (−2, +2) contains every game value. So `Eval` returns
exactly the move `Search` picks: the first legal move in row-major order
that reaches the position's value. `Minimax` has no `modifies` clause, so
the caller's board is provably left unchanged.

## Model

| member | source | states |
|---|---|---|
| Grids.FirstCompleted | main.py:23-60 | the index of the first line, from k on in scan order, holding three equal non-zero marks (8 when none), with no completed line before it |
| Grids.Winner | main.py:23-60 | 0 exactly when no column, row or diagonal is completed; otherwise the mark of a completed line that no earlier line in the order columns 0..2, rows 0..2, main diagonal, anti-diagonal precedes |
| Grids.WinnerOfFirstLine | main.py:23-60 | any completed line with no completed line before it determines the winner |
| Boards.Board.FinalState | main.py:23-60 | the scan with early returns yields exactly Winner of the board's snapshot |
| Boards.Board.constructor | main.py:17-21 | a fresh all-zero grid with counter 0, satisfying the count invariant |
| Boards.Board.Copy | main.py:113 | a deep copy: a fresh grid holding the same marks and the same counter |
| Boards.Board.MarkSqr | main.py:62-64 | cell (row, col) becomes player, every other cell is unchanged, the counter grows by exactly 1, and the count invariant survives a non-zero mark on an empty cell |
| Boards.Board.EmptySqr | main.py:66-67 | true exactly when (row, col) is among the legal moves |
| Boards.Board.GetEmptySquares | main.py:69-76 | the nested loops return exactly the listed legal moves of the snapshot |
| Boards.Board.IsFull | main.py:78-79 | under the count invariant, true exactly when no legal move is left |
| Boards.Board.IsEmpty | main.py:81-82 | under the count invariant, true exactly when every cell is 0 |
| Grids.MarkedAfterPlace | main.py:62-64 | writing one cell changes the count of marked cells by that cell's change in occupancy only |
| Grids.PlaceOnEmptyCounts | main.py:62-64 | a non-zero mark on an empty cell adds exactly one marked cell, matching the counter's increment |
| Grids.PlaceOnOccupiedKeepsCount | main.py:62-64 | a mark on an occupied cell leaves the number of marked cells unchanged, while the counter still grows |
| Grids.FillCountIsPlacementCount | main.py:62-64 | after any sequence of marks on empty cells, the number of marked cells has grown by the number of marks |
| Grids.MarkedZeroIffBlank | main.py:81-82 | no cell is counted as marked exactly when every cell is 0 |
| Grids.EmptyUpTo | main.py:69-76 | every listed move is a coordinate on the board |
| Grids.EmptyUpToExact | main.py:69-76 | a coordinate is listed exactly when it is on the board, within the scanned prefix, and its cell is 0 |
| Grids.EmptyUpToIncreasing | main.py:69-76 | the listed moves are in strictly increasing row-major order, so none repeats |
| Grids.EmptyUpToCount | main.py:69-76 | the number of listed moves plus the number of marked cells is the number of cells scanned, so the full list has 9 − count entries |
| Grids.FullIffNoMoves | main.py:69-79 | all nine cells are marked exactly when the list of legal moves is empty |
| Grids.CoordOfIndex | main.py:69-76 | the row-major index of a coordinate leads back to the same coordinate |
| Ai.AI.constructor | main.py:87-89 | the opponent's level and mark are the given ones |
| Ai.AI.Rnd | main.py:91-95 | for any index in range, the move at that position of the legal-move list, hence an empty cell on the board |
| GameTree.Pick | main.py:108-118 | the running best over the first k values, replaced only on a strict improvement, sits at an index below k and is the value there |
| GameTree.PickIsFirstBest | main.py:116-118 | the pick is a value no earlier or later value improves on, and no earlier value equals it: the first best value |
| GameTree.PickMonotone | main.py:116-118 | examining more moves never makes the running best worse for the side to move |
| GameTree.Child | main.py:113-114 | the position after the i-th legal move of the side to move has exactly one more marked cell |
| GameTree.Search | main.py:97-147 | the unpruned game value lies in {−1, 0, 1}, and a move is chosen exactly away from the leaves (a line of 1s, a line of 2s, a full board) |
| GameTree.ChildValues | main.py:111-115 | one game value per legal move |
| GameTree.ChildValuesUpTo | main.py:111-115 | one game value for each of the first k legal moves |
| GameTree.ChildValuesUpToAt | main.py:111-115 | the i-th of the first k child values is the search value after the i-th legal move |
| GameTree.ChildValueAt | main.py:111-115 | the i-th child value is the search value, with the other side to move, of the position after the i-th legal move |
| GameTree.SearchPicksAmongChildren | main.py:107-147 | away from a leaf, the search value and move are the strict-improvement pick over the child values, in row-major order |
| GameTree.LeafValues | main.py:98-105 | a line of 1s is worth +1, a line of 2s −1, and a full board without either is worth 0, all with no move |
| GameTree.BestMoveIsFirstOptimal | main.py:116-118 | away from a leaf, the chosen move reaches a value no legal move improves on, and no earlier legal move reaches that value |
| Ai.MaxStep | main.py:112-124 | one maximizer iteration either keeps the loop state (alpha raised to the running best, running best exact once above the caller's alpha) or cuts off at beta with a result no greater than the true best |
| Ai.MinStep | main.py:133-145 | the mirror image of MaxStep for the minimizer, cutting off at alpha |
| Ai.AI.TryMove | main.py:112-115 | marking the i-th legal move on a deep copy and searching it returns a game value that relates to that move's true value as fail-soft promises |
| Ai.AI.MaxBranch | main.py:107-126 | the maximizer's loop returns a legal move and a game value related to the best child value as fail-soft promises, with the first best move inside the window |
| Ai.AI.MinBranch | main.py:128-147 | the minimizer's loop, the mirror image of MaxBranch |
| Ai.AI.Minimax | main.py:97-147 | terminal results (1, None), (−1, None), (0, None); value in {−1, 0, 1}; a move exactly away from the leaves, on an empty cell; a result at or below alpha bounds the true value from above, one at or above beta from below, and one strictly inside the window equals Search's value and move |
| Ai.AI.Eval | main.py:149-156 | level 0 returns the random legal move at the given index; any other level returns Search's move for the minimizer at the root, that is the first optimal move |
| Games.NextPlayer | main.py:197-198 | the next player is 1 or 2, and 1 and 2 hand the turn to each other |
| Games.NextPlayerTwice | main.py:197-198 | two toggles lead back to the same player whenever the turn starts at 1 or 2 |
| Games.Game.constructor | main.py:160-166 | a fresh blank board with the count invariant, the default opponent (level 1, mark 2), and player 1 to move |
| Games.Game.NextTurn | main.py:197-198 | the player becomes NextPlayer of the old player; board and opponent are kept |

## Left out

- Rendering and window set-up are not modelled. This covers the module-level
  pygame initialisation, `screen.fill`, the `show=True` drawing branches of
  `final_state`, `show_lines` and `draw_fig`. They are display side effects
  with no logic.
- The `main` event loop is not modelled. It holds the mouse and keyboard
  dispatch and the pixel-to-cell conversion, and it is the only code that
  changes the opponent's `level`. It is I/O plumbing.
- `Game.make_move` (main.py:192-195) is not modelled. It is `MarkSqr` with
  the current player, then drawing, then `NextTurn`, all of which are
  modelled apart from the drawing.
- `reset`, `change_game_mode` and `is_over` are thin orchestration and are
  not modelled. `is_over` is `Winner(...) != 0 || IsFull()`.
- Games.Game.constructor: the `game_mode` and `running` fields
  (main.py:165-166) are not modelled. They are read and written only by the
  event loop and the mode toggle, which are left out.
- Ai.AI.Rnd: `random.randrange` is replaced by the index parameter `idx`,
  with `0 <= idx < |moves|`. Uniformity is not modelled.
- Ai.AI.Eval: at level 0 it requires an index in range, so it excludes a
  board with no empty cell. There `random.randrange(0, 0)` raises
  ValueError (main.py:93), and the model has no such error path. The
  event loop never asks for a move on a full board: `is_over` stops the
  game first (main.py:248-251, 258-259).
- Cells are integers, not numpy floats. Python's negative indices, where
  `-1` means the last row, are not modelled: every caller passes 0..2, and
  the methods require it.
- `math.inf` and `-math.inf` are the integers 2 and −2, which lie strictly
  outside every game value. Callers may pass any integer window with
  alpha < beta.
- `copy.deepcopy` is `Board.Copy`, a fresh grid and counter. The unused
  alias `self.empty_squares` in the board's constructor is not modelled.
- Ai.AI.Minimax: requires the count invariant `Valid()`, and so does
  Ai.AI.Eval at level 1. Without the invariant the source's behaviour
  departs from the game value, and the model does not promise it:
  - if overwrites push the counter to 9 while cells are still empty, the
    source returns (0, None) early (main.py:104-105);
  - if the counter passes 9, a full grid with no completed line misses the
    `is_full` test. The loop over no empty cells then returns (−inf, None)
    or (+inf, None) (main.py:108-126, 129-147).

  The invariant holds wherever the source calls the search. A human move is
  made only on a cell `empty_sqr` accepts (main.py:245), and the engine's
  own move is an empty cell.
- Ai.AI.Minimax and Ai.AI.Eval at level 1 require a non-zero `player`. The
  source itself stops with any mark: `mark_sqr` adds 1 to the counter
  whatever the mark (main.py:64), and `is_full` ends the recursion once
  the counter reaches 9 (main.py:104-105). The model needs the requirement
  for its own reasons:
  - `Search` measures termination by the grid's fill count;
  - `IsLeaf` reads the grid;
  - a 0 mark on a copy breaks `Valid()`.

  The requirement is met wherever the source builds an opponent. The only
  one is `AI()`, with player 2 (main.py:87, 163).
- The opponent's default constructor arguments (level 1, mark 2) become
  explicit constructor parameters. `Game`'s constructor passes the
  defaults.
