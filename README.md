# Tic Tac Toe board model

A model of the `Game` class of a human-versus-computer Tic Tac Toe game. The
board has three rows of three cells. Each cell holds `'_'` (empty), `'O'` (the
human) or `'X'` (the computer). The human marks a square the presentation layer
hands in. The computer marks an empty square of its own choosing. The game
reports how many squares are left, whether a player holds a full row, column or
diagonal, whether the game is tied or still running, and renders the board as
text.

Two modules:

- `Board` (board.dfy) holds the board as a value (`Grid = seq<seq<char>>`)
  and the definitions the class is proved against:
  - `CountCells` and `Occurrences` count marks.
  - `Squares` is the set of squares holding a mark. `CountIsCardinality` ties it to the count.
  - `RowWin`, `ColWin`, `DiagonalWin` and `AntiDiagonalWin` make up `Wins`.
  - `Full`, `IsTie` and `IsRunning` are the end-of-game predicates.
  - `Render` is the text form.
  - `Replay` applies moves under the calling protocol the game expects.
- `TicTacToe` (game.dfy) holds the class `Game`. Its fields `board` and `size`
  are the source's `board` and `size`. `InitializeBoard`, `HumanMove` and
  `ComputerMove` reassign `board`. `MaxMovesRemaining`, `WonByRow`,
  `WonByCol`, `WonByDiagonal` and `ToString` keep the source's `for` loops.
  `Tied`, `StillRunning` and `DidWin` combine those calls as the source does,
  and `SquareAvailable` is a function reading one cell. Each query is proved
  equal to its `Board` definition. `Valid()` is the class invariant: `size` is 3, the board is 3×3,
  and every cell holds one of the three marks.

## Model

| member | source | states |
|---|---|---|
| `TicTacToe.Game.constructor` | Game.cpp:10-13 | a new game has size 3, an empty 3×3 board and 9 moves remaining |
| `TicTacToe.Game.InitializeBoard` | Game.cpp:18-24 | the board is replaced by `size` rows of three `'_'` cells. Afterwards 9 cells are empty and no square holds `'O'` or `'X'` |
| `TicTacToe.Game.HumanMove` | Game.cpp:34-36 | writes `'O'` at (row, col) for any in-range square, occupied or not. Every other cell is unchanged. The empty count drops by exactly one when the square was empty and is unchanged when it was not |
| `TicTacToe.Game.ComputerMove` | Game.cpp:45-63 | on a board with an empty cell, returns an in-range square that was empty and writes `'X'` there. No other cell changes. The set of empty squares loses exactly that square and the count drops by one |
| `TicTacToe.Game.ToString` | Game.cpp:71-80 | the text is 21 characters long. Character `7r + 2c` is cell (r, c) and is followed by a space; character `7r + 6` is a newline |
| `TicTacToe.Game.SquareAvailable` | Game.cpp:88-90 | true exactly when the square belongs to the set of empty squares |
| `TicTacToe.Game.Tied` | Game.cpp:98-101 | true exactly when no cell is empty and neither player holds a line |
| `TicTacToe.Game.MaxMovesRemaining` | Game.cpp:111-120 | equals the number of empty squares (both as a count and as the size of the set of empty squares) and lies in [0, 9] |
| `TicTacToe.Game.StillRunning` | Game.cpp:126-128 | true exactly when some cell is empty and neither player holds a line. When true, at least one empty cell remains for the computer's move |
| `TicTacToe.Game.DidWin` | Game.cpp:136-140 | true exactly when the player fills some row, some column, the main diagonal or the anti-diagonal |
| `TicTacToe.Game.WonByRow` | Game.cpp:144-154 | counting each row's matching cells finds a count of 3 exactly when some row is entirely the player's |
| `TicTacToe.Game.WonByCol` | Game.cpp:156-166 | counting each column's matching cells finds a count of 3 exactly when some column is entirely the player's |
| `TicTacToe.Game.WonByDiagonal` | Game.cpp:168-187 | true exactly when every `board[i][i]` or every `board[i][2-i]` is the player's. The downward scan of `board[size-r-1][r]` covers the anti-diagonal |
| `Board.EmptyGrid` | Game.cpp:18-24 | the new board is 3×3 with every cell `'_'` |
| `Board.EmptyGridCounts` | Game.cpp:18-24 | a new board has 9 empty cells and no `'O'` or `'X'` |
| `Board.SetCell` | Game.cpp:34-36 | a single cell write sets exactly that cell, keeps the 3×3 shape and keeps every cell a legal mark |
| `Board.Occurrences` | Game.cpp:111-120 | the count of a character in a row never exceeds the row's length |
| `Board.OccurrencesAll` | Game.cpp:144-154 | a line's count equals its length exactly when every cell of the line holds the character (the "sum == size" test of the line scans) |
| `Board.RowSquaresCard` | Game.cpp:111-120 | the count of a character in one row equals the size of the set of that row's squares holding it |
| `Board.CountIsCardinality` | Game.cpp:111-120 | the cell-by-cell count of a mark equals the number of squares holding it |
| `Board.SquaresAfterWrite` | Game.cpp:55-58 | writing one cell adds or removes only that square from the set of squares holding a mark |
| `Board.EmptyCountAfterWrite` | Game.cpp:34-36 | writing `'O'` or `'X'` lowers the empty count by one on an empty cell and leaves it unchanged on an occupied one |
| `Board.CountsPartition` | Game.cpp:111-120 | on a legal board the empty, `'O'` and `'X'` counts add up to 9, so the empty count lies in [0, 9] |
| `Board.OccurrencesPartition` | Game.cpp:111-120 | in a row of legal marks, the counts of the three marks add up to the row length |
| `Board.RowsPartition` | Game.cpp:111-120 | over rows of three legal marks, the counts of the three marks add up to three per row |
| `Board.WriteKeepsOthersLosing` | Game.cpp:136-140 | writing one player's mark never completes a line for the other player |
| `Board.BothCanWinOnConstructedBoard` | Game.cpp:136-140 | on a board built directly, with a row of `'O'` and a row of `'X'`, the win test reports both players |
| `Board.FullIffNoEmptyCells` | Game.cpp:98-101 | "no moves remaining" (a count of 0) means exactly that no cell is empty, and that the set of empty squares is empty |
| `Board.EndStates` | Game.cpp:126-128 | running means an empty cell is left and nobody has won. A running game has a move left. A game that is not running is tied or won. A tie has no winner |
| `Board.Replay` | TTTGUI.hpp:141-181 | replaying moves, each applied only while the game runs and on an empty in-range square, keeps the board 3×3 |
| `Board.ReplayAtMostOneWinner` | Game.cpp:126-128 | under that protocol, starting from a board without a double win, both players never hold a line at the same time |
| `Board.CellsText` | Game.cpp:71-80 | a row's text is two characters per cell |
| `Board.CellsTextAt` | Game.cpp:71-80 | in a row's text, each cell's character comes first and a space follows it |
| `Board.RenderLength` | Game.cpp:71-80 | the rendering of rows of three cells is seven characters per row |
| `Board.RenderAt` | Game.cpp:71-80 | character `7r + 2c` of the rendering is cell (r, c) and is followed by a space. Character `7r + 6` is a newline |
| `Board.RenderLayout` | Game.cpp:71-80 | the same layout, stated for every row and column at once |

## Left out

- The random choice in `computerMove` is not modelled: the `srand(time(NULL))` call, the `rand() % 3` draws and the `times` retry counter are gone. `ComputerMove` picks some empty square nondeterministically. Its contract holds for every choice and says nothing about the distribution.
- `TicTacToe.Game.ComputerMove`: requires at least one empty cell. On a full board the source's `while(true)` loop never exits, so there is no outcome to model. The presentation layer calls it only while `stillRunning()` holds, and `StillRunning` proves that an empty cell exists then.
- `TicTacToe.Game.HumanMove` and `TicTacToe.Game.SquareAvailable`: require the coordinates to be in [0, 3). For `humanMove` the comment at Game.cpp:28 states this precondition. For `squareAvailable` it is guaranteed by the caller, since the presentation layer only passes positions of its 3×3 button grid (TTTGUI.hpp:111-115, 151-153). An out-of-range index is undefined behaviour in the source.
- A board on which both players hold a line is not resolved. It is unreachable under the calling protocol (`Board.ReplayAtMostOneWinner`). A board built directly can still have both lines, and the predicates report it as is (`Board.BothCanWinOnConstructedBoard`).
- No error results: the code reports no error for an out-of-range square, an occupied square or a full board. The model follows the code and states these cases as preconditions or, for the occupied square, as the overwrite the code performs.
- Integer width: every count here is at most 9 and the rendered text is 21 characters long, so `int` cannot overflow and nothing is lost by using unbounded integers.
- The presentation layer (TTTGUI.hpp) is not part of this model: the widgets, icon table and dialogs. Its click handler appears only as the protocol behind `Board.Replay`: a move needs the game running and the square available.
