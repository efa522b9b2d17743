# Tic-tac-toe board model and minimax search

This project models the tic-tac-toe player in `TicTacToe/tictactoe.py` and proves properties of the model. It has two modules.

- `TicTacToe` (`tictactoe.dfy`) is the board model:
  - the empty starting board;
  - whose turn it is, inferred from the mark counts;
  - the set of legal moves;
  - applying a move, with its two error cases;
  - the winner, terminal and utility tests over the eight lines of the board.
- `Minimax` (`minimax.dfy`) is the exhaustive game-tree search:
  - `MaxValue` and `MinValue` are mutually recursive. `MaxValue` returns the largest `MinValue` over the children of a board, with the first move reaching it. `MinValue` returns the smallest `MaxValue` over the children, with the first move reaching it. On a finished game both return the utility and no move. Neither looks at whose turn it is, exactly like the program's `max_value` and `min_value`.
  - `Minimax` picks X's maximising move or O's minimising move, and no move once the game is over.

Boards are immutable values: a 3×3 grid of cells, where a cell is `Empty` or `Marked(X)` / `Marked(O)`. Applying a move returns either a new board or a `MoveError`, which stands for the exception the program raises. The search recurses on the number of legal moves, which drops by one with every mark played, so termination is proved rather than assumed.

The legal moves form a set, as in the program. The program's loops iterate that set in Python's unspecified hash order. The model iterates the same moves in row-major order (`ActionOrder`) instead, and states the tie-breaking ("the first move reaching the best value is kept") relative to that order.

## Model

| member | source | states |
|---|---|---|
| TicTacToe.InitialState | TicTacToe/tictactoe.py:12-18 | every cell of the starting board is empty |
| TicTacToe.InitialStateFacts | TicTacToe/tictactoe.py:12-18 | on the starting board X moves first, the counts are balanced, exactly the nine in-range cells are legal moves, nobody has won, the game is not over and the utility is 0 |
| TicTacToe.Player | TicTacToe/tictactoe.py:21-31 | X is to move exactly when X and O have the same number of marks on the board, otherwise O |
| TicTacToe.ResultAlternates | TicTacToe/tictactoe.py:58-60 | on a board reached by alternating play, a successful move keeps X's count equal to O's or one ahead, and hands the turn to the other player |
| TicTacToe.ResultCounts | TicTacToe/tictactoe.py:58-60 | a successful move adds exactly one mark of the player to move, leaves the opponent's marks alone and removes one empty cell |
| TicTacToe.Actions | TicTacToe/tictactoe.py:34-43 | a move is legal exactly when both coordinates are in 0..2 and the cell is empty |
| TicTacToe.EmptyFrom | TicTacToe/tictactoe.py:39-42 | the nested-loop scan from (i, j) yields only empty in-range cells at or after (i, j), in strictly increasing row-major position |
| TicTacToe.EmptyFromComplete | TicTacToe/tictactoe.py:39-42 | the scan from (i, j) misses no empty cell at or after (i, j) |
| TicTacToe.ActionOrder | TicTacToe/tictactoe.py:34-43 | the enumeration lists exactly the legal moves, each once, in strictly increasing row-major position |
| TicTacToe.ActionsCountEmpties | TicTacToe/tictactoe.py:34-43 | there are exactly as many legal moves as empty cells, and the enumeration has that many entries |
| TicTacToe.Result | TicTacToe/tictactoe.py:46-61 | an out-of-range coordinate fails with the format error whatever the board; an occupied cell fails as occupied; the move succeeds exactly when it is legal, puts the mover's mark in the target cell and leaves every other cell unchanged |
| TicTacToe.ResultRemovesAction | TicTacToe/tictactoe.py:55-61 | after a successful move the legal moves are the old ones minus the move played, one fewer |
| TicTacToe.Winner | TicTacToe/tictactoe.py:64-90 | a reported winner owns a complete row, column or diagonal |
| TicTacToe.DiagonalsExclusive | TicTacToe/tictactoe.py:83-88 | no board has one player on the main diagonal and the other on the anti-diagonal, so grouping the diagonal checks by mark gives the same answer as checking them line by line |
| TicTacToe.WinnerIsFirstInScan | TicTacToe/tictactoe.py:64-90 | the winner is m exactly when the first complete line in the scan order belongs to m: rows, then columns (X before O on each), then X on either diagonal, then O on either diagonal |
| TicTacToe.WinnerNoneIffNoLine | TicTacToe/tictactoe.py:64-90 | there is no winner exactly when neither player owns a complete row, column or diagonal |
| TicTacToe.WinnerHasLine | TicTacToe/tictactoe.py:64-90 | a reported winner owns a complete line |
| TicTacToe.SoleLineWins | TicTacToe/tictactoe.py:64-90 | when only one player owns a complete line, that player is the winner, whatever the scan order |
| TicTacToe.FirstInScanUnique | TicTacToe/tictactoe.py:64-90 | at most one (line, mark) pair is the first complete line in the scan |
| TicTacToe.Terminal | TicTacToe/tictactoe.py:93-104 | the game is over exactly when there is a winner or no legal move is left |
| TicTacToe.EmptyInRowsIffMoves | TicTacToe/tictactoe.py:100-104 | some row contains an empty cell exactly when there is a legal move |
| TicTacToe.FullBoardIsTerminal | TicTacToe/tictactoe.py:100-104 | once nine marks are on the board there is no legal move and the game is over |
| TicTacToe.CountsSumToNine | TicTacToe/tictactoe.py:25-26 | the empty cells, the X marks and the O marks together account for all nine cells |
| TicTacToe.NonTerminalHasMove | TicTacToe/tictactoe.py:140 | a board whose game is not over has at least one move to enumerate |
| TicTacToe.Utility | TicTacToe/tictactoe.py:107-117 | the utility is 1 exactly when X has won, -1 exactly when O has won, and 0 exactly when nobody has |
| Minimax.Minimax | TicTacToe/tictactoe.py:120-132 | no move is returned exactly when the game is over; a returned move is legal and applies without error; X's move comes from `MaxValue` and O's from `MinValue` |
| Minimax.MinimaxIsLocallyOptimal | TicTacToe/tictactoe.py:120-132 | the chosen move is the mover's best one ply down: for X no legal move leads to a larger `MinValue`, for O none leads to a smaller `MaxValue` |
| Minimax.MaxValue | TicTacToe/tictactoe.py:134-145 | on a finished game the value is the utility and there is no move; otherwise a legal move is returned; the value is always -1, 0 or 1 |
| Minimax.MaxValueIsBestChild | TicTacToe/tictactoe.py:138-145 | off a finished game the value is the largest `MinValue` over all children, the returned move reaches it, and every move enumerated before it gives a strictly smaller value |
| Minimax.MaxValueAchieved | TicTacToe/tictactoe.py:141-144 | the returned move leads to a child whose `MinValue` is the returned value |
| Minimax.MaxValueBoundsChild | TicTacToe/tictactoe.py:140-143 | no legal move leads to a child with a larger `MinValue` than the returned value |
| Minimax.MaxValueFirstBest | TicTacToe/tictactoe.py:142-144 | moves enumerated before the returned one lead to strictly smaller values, so the first best move is kept |
| Minimax.MaxLoop | TicTacToe/tictactoe.py:138-145 | the strict-improvement loop returns at least its start value, a value no smaller than any remaining entry, keeps the old best when nothing beats the start, and otherwise points at the first entry reaching the final value |
| Minimax.FirstMax | TicTacToe/tictactoe.py:138-145 | started from minus infinity, the loop returns the maximum of the child values and the position of its first occurrence |
| Minimax.MinValuesOf | TicTacToe/tictactoe.py:140-141 | one child value per enumerated move, each in -1..1 |
| Minimax.MinValuesOfAt | TicTacToe/tictactoe.py:140-141 | entry n of the child values is the `MinValue` of the board reached by enumerated move n |
| Minimax.MinValue | TicTacToe/tictactoe.py:148-159 | on a finished game the value is the utility and there is no move; otherwise a legal move is returned; the value is always -1, 0 or 1 |
| Minimax.MinValueIsBestChild | TicTacToe/tictactoe.py:152-159 | off a finished game the value is the smallest `MaxValue` over all children, the returned move reaches it, and every move enumerated before it gives a strictly larger value |
| Minimax.MinValueAchieved | TicTacToe/tictactoe.py:155-158 | the returned move leads to a child whose `MaxValue` is the returned value |
| Minimax.MinValueBoundsChild | TicTacToe/tictactoe.py:154-157 | no legal move leads to a child with a smaller `MaxValue` than the returned value |
| Minimax.MinValueFirstBest | TicTacToe/tictactoe.py:156-158 | moves enumerated before the returned one lead to strictly larger values, so the first best move is kept |
| Minimax.MinLoop | TicTacToe/tictactoe.py:152-159 | the mirror image of `MaxLoop`: at most the start value, no larger than any remaining entry, and pointing at the first entry reaching it |
| Minimax.FirstMin | TicTacToe/tictactoe.py:152-159 | started from plus infinity, the loop returns the minimum of the child values and the position of its first occurrence |
| Minimax.MaxValuesOf | TicTacToe/tictactoe.py:154-155 | one child value per enumerated move, each in -1..1 |
| Minimax.MaxValuesOfAt | TicTacToe/tictactoe.py:154-155 | entry n of the child values is the `MaxValue` of the board reached by enumerated move n |
| Minimax.Child | TicTacToe/tictactoe.py:141 | the board reached by a legal move has exactly one legal move fewer, which is the measure that makes the search terminate |

## Left out

- `copy.deepcopy` (line 58) is not modelled as a separate step. Boards are immutable values, so the board a move is applied to can never be changed.
- Of the type checks in `result` (lines 50-52), only the range check is modelled. A move is a pair of integers, so "not a tuple", "wrong length" and "not an int" cannot arise. A Python `bool` coordinate is not modelled either.
- The `ValueError` and `Exception` the program raises become the two `MoveError` values, which are returned rather than raised.
- `math.inf` (lines 138 and 152) becomes the sentinels -2 and +2. Every game value lies in -1..1, so the comparisons `new_v > v` and `new_v < v` behave the same.
- Python's iteration order over the set returned by `actions` is unspecified. The search iterates the same moves in row-major order instead. So the model fixes which of several equally good moves is returned, where the program leaves that to the hash order.
- `MaxValue` / `MinValue` compute all child values first and then run the strict-improvement loop over them. The program interleaves the two steps. The results are the same because evaluating a child has no side effects.
- Whole-tree optimality is not proved beyond the one-ply characterisation that `MaxValueIsBestChild` and `MinValueIsBestChild` give. This includes the claim that the starting position is a draw under perfect play, and that the first move is a corner or the centre. Those facts need the full 9-ply game tree to be evaluated inside the verifier.
- `Balanced` (reachability by alternating play) is a precondition only of `ResultAlternates`. Like the program, every other operation accepts any 3×3 board.

## Notes

- Scan order of `winner`. The program checks the rows, then the columns, with X before O on each line. It then checks X on either diagonal before O on either diagonal. The model follows this code exactly (`Winner`, `Rank`). A strict line-by-line order would put O's main diagonal before X's anti-diagonal. The two orders cannot disagree, because both diagonals pass through the centre cell, so one player cannot own one diagonal while the other player owns the other (`DiagonalsExclusive`).
