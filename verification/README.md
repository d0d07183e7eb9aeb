# Tic-tac-toe engine in Dafny

A model of `tictactoe.py`, a small engine that plays tic-tac-toe perfectly by
exhaustive minimax search, together with proofs about it.

The model has four modules:

- `Wrappers` (`wrappers.dfy`): the `Option` type, standing for Python's `None`.
- `Counting` (`counting.dfy`): occurrence counts in a sequence, and the size of
  the set of a duplicate-free sequence.
- `Game` (`game.dfy`): the board-state model. A `Board` is a 3x3 grid of
  `Cell`s, each `Empty` or `Filled(X)` / `Filled(O)`. An `Action` is a pair of
  unbounded integers, so a move off the board can be asked for and is
  rejected. It covers `initial_state`, `player`, `actions`, `result`,
  `winner`, `terminal` and `utility`. `result` returns a `MoveOutcome`:
  the successor board, or `InvalidMove` where the engine raises
  `ValueError("Invalid move")`. `Apply` is its legal-move branch. The search
  uses `Apply` directly, since it only ever plays legal moves.
- `Search` (`search.dfy`): `maxValue`, `minValue` and `minimax`. The two
  value functions are mutually recursive. Their termination measure is the
  number of empty squares, which every move lowers by one. The loops
  `v = max(v, ...)` and `v = min(v, ...)` become `MaxOf` and `MinOf` over the
  sequence of successor values. The sort-then-take-the-head in `minimax`
  becomes `FirstMax` / `FirstMin`: the first position holding the best value,
  which is what a stable sort puts first.

The legal moves are enumerated in row-major order by `Moves`, the order of
the engine's nested loops. `Actions` is the set of those moves.

`winner` is modelled branch for branch, including its `if/elif` diagonal
test. In that test the anti-diagonal is only looked at when the main
diagonal's three cells are not all equal. It is checked against `FirstWin`,
a plain scan of all eight lines in the same order. The two always agree
(`WinnerIsFirstCompletedLine`). The `elif` never hides a win, because the
two diagonals share the centre square (`SkippedAntiDiagonalIsMainDiagonalWin`,
`SkippedAntiDiagonalIsEmpty`).

Equal-valued moves are not ordered by their coordinates. `minimax` sorts
the (value, move) pairs by value alone, so among equal values the order is
the iteration order of a Python `set`.

## Model

| member | source | states |
|---|---|---|
| Game.InitialStateStartsGame | tictactoe.py:13-19 | The starting board has nine legal moves, X is to move, and the game is not over. |
| Game.Actions | tictactoe.py:43-54 | The actions are exactly the on-board squares that are empty, and there are as many as there are empty cells. |
| Game.ActionsAndMarks | tictactoe.py:43-54 | The number of actions plus the number of placed marks is 9. A board with no empty cell has no action. |
| Game.Player | tictactoe.py:22-40 | No player is to move exactly when no cell is empty. |
| Game.PlayerSpec | tictactoe.py:22-40 | No player is to move exactly when 9 marks are placed, i.e. when there is no action. Otherwise O is to move exactly when X has more marks than O, and X is to move otherwise. |
| Game.PlayerAlternates | tictactoe.py:22-40 | On a board with equal mark counts or one extra X, and a free square, X moves exactly when the counts are equal and O exactly when X is one ahead. |
| Game.Result | tictactoe.py:57-67 | The move is rejected as invalid exactly when it is off the board or names an occupied square. Otherwise the outcome is the board after the legal move. |
| Game.Apply | tictactoe.py:63-67 | A legal move leaves exactly one empty square fewer; this is the measure the search recursion decreases. |
| Game.ApplySpec | tictactoe.py:63-65 | A legal move is always made by a player. The mover's mark fills the chosen square and every other square keeps its contents. The mover's mark count rises by one and the other player's stays the same. |
| Game.ApplyRemovesAction | tictactoe.py:61-65 | After a legal move, the legal moves are the previous ones minus the square just filled. |
| Game.ApplyKeepsAlternation | tictactoe.py:65 | Since the mover is the one `player` names, a legal move keeps the mark counts equal or one ahead for X. |
| Game.WinnerSpec | tictactoe.py:70-92 | A reported winner has three in a row. No winner is reported exactly when neither mark has three in a row. |
| Game.WinnerIsFirstCompletedLine | tictactoe.py:70-92 | The if/elif chain reports the mark of the first completed line among rows, columns, main diagonal, anti-diagonal, exactly like a plain scan of all eight lines. |
| Game.SkippedAntiDiagonalIsMainDiagonalWin | tictactoe.py:85-90 | When the main diagonal's cells are all equal, a completed anti-diagonal makes the main diagonal a win for the same mark, so skipping the anti-diagonal loses nothing. |
| Game.SkippedAntiDiagonalIsEmpty | tictactoe.py:85-92 | When the main diagonal is all empty, the anti-diagonal cannot be a win for either mark, so falling through to "no winner" is right. |
| Game.TerminalSpec | tictactoe.py:95-105 | The game is over exactly when a mark has three in a row or there is no legal move left. |
| Game.Utility | tictactoe.py:108-119 | The value of a finished game lies in {-1, 0, 1}. |
| Game.UtilitySpec | tictactoe.py:108-119 | On a finished board the value is 1 exactly when X is the winner and -1 exactly when O is. It is 0 exactly when no one has three in a row, and then the board is full. |
| Search.MaxOfIsMaximum | tictactoe.py:160-161 | The max-accumulating loop returns an upper bound of every value that is itself one of the values. |
| Search.MinOfIsMinimum | tictactoe.py:150-151 | The min-accumulating loop returns a lower bound of every value that is itself one of the values. |
| Search.FirstMax | tictactoe.py:133-134 | The head of the descending stable sort is a position holding the greatest value, and every earlier position holds a smaller value. |
| Search.FirstMin | tictactoe.py:141-142 | The head of the ascending stable sort is a position holding the least value, and every earlier position holds a larger value. |
| Search.MaxValue | tictactoe.py:155-163 | X's minimax value lies in [-1, 1]. |
| Search.MinValue | tictactoe.py:145-153 | O's minimax value lies in [-1, 1]. |
| Search.MaxValueIsBestReply | tictactoe.py:155-163 | A finished board is worth its utility. Otherwise X's value is at least the `minValue` of every successor, and equals that of some successor reached by a legal move. |
| Search.MinValueIsBestReply | tictactoe.py:145-153 | A finished board is worth its utility. Otherwise O's value is at most the `maxValue` of every successor, and equals that of some successor reached by a legal move. |
| Search.Minimax | tictactoe.py:122-142 | No move is returned exactly when the game is over. A returned move is always a legal action. |
| Search.MinimaxIsOptimalForX | tictactoe.py:128-134 | With X to move, the chosen move's successor has the greatest `minValue` of all legal moves, and that value is the board's `maxValue`. |
| Search.MinimaxIsOptimalForO | tictactoe.py:136-142 | With O to move, the chosen move's successor has the least `maxValue` of all legal moves, and that value is the board's `minValue`. |

## Left out

- `math.inf` starting values (tictactoe.py:146, 156): values are integers. On a board that is not over there is at least one legal move (`NotOverHasMoves`), so the starting value never reaches the result.
- Search.Minimax: among equally good moves, Python picks the first in the iteration order of a `set`, which the language leaves unspecified. The model takes the first in row-major order. The optimality lemmas say only that the chosen move is a best one, which is true whichever best move is taken.
- `copy.deepcopy` (tictactoe.py:64): boards are immutable values, so the input board is never changed.
- Game.Utility: requires a finished board. On any other board the engine falls off the end and returns `None`, and callers are expected not to ask.
- Board shapes other than 3x3: `Board` is a grid of exactly three rows of three cells, the only shape the engine indexes.
- Dynamically typed inputs: cells hold only `X`, `O` or empty. Actions are pairs of integers, not arbitrary Python values.
- Values of the search on concrete boards, such as "the empty board is a draw": proving them would mean unfolding the full game tree.
