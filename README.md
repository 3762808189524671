# Connect Four rule engine, modelled in Dafny

This project models the rule engine of a terminal Connect Four game. Two
players take turns dropping pieces into the columns of a 6 × 7 board. A
piece falls to the lowest empty row of its column. The first player to have
four of their pieces in a row wins: horizontally, vertically or along either
diagonal. A cell holds 0 when it is empty, 1 for player 1's piece and 2 for
player 2's piece. Row 0 is the bottom row.

The model has four modules:

- `Board` (board.dfy) holds the board as a value (`seq<seq<int>>`). It
  defines the constants `RowCount` = 6, `ColumnCount` = 7 and
  `WinningChainLength` = 4, writing a cell, the column test, the next open
  row, gravity and the count of occupied cells. It also proves how a drop
  affects them.
- `Chains` (chains.dfy) says what a winning chain is, independently of the
  scan. It gives the start cells the scan visits in each of the four
  directions, and proves that these are exactly the cells from which a
  whole chain stays on the board.
- `Engine` (engine.dfy) holds the board as the program keeps it: an
  `array2<int>` that is changed in place. It has `CreateBoard`,
  `DropPiece`, `IsValidLocation`, `GetNextOpenRow` and the four-family scan
  `WinningMove`. Each is proved against the value-level definitions through
  `Snapshot`, the grid that the array currently holds.
- `Connect4` (game.dfy) has the class `Game` with the loop's three
  variables: `board`, `turn` (0 or 1) and `gameOver`. `Step` is one
  iteration of the loop and takes an already-parsed column. `Play` is the
  loop itself, fed a finite list of parsed columns. The value-level
  `NextState` and `Run` state what one iteration and a whole run do to the
  three variables; `Step` and `Play` are proved to agree with them.

The object invariant `Game.Valid` holds in every reachable state:

- every cell holds 0, 1 or 2;
- the board satisfies gravity: in each column the occupied cells form a
  contiguous run from row 0;
- while the game is not over, neither player has a chain;
- once it is over, the player whose turn it still is has one.

The program has no draw detection, so on a full board every column is
refused and the loop never ends. The win test returns only a bool. Players
are the integers 1 and 2. There is no reset.

## Model

| member | source | states |
|---|---|---|
| `Board.EmptyGrid` | connect4.py:8-9 | The new board has 6 rows of 7 cells, and every cell is 0 (empty). |
| `Board.EmptyGridInvariants` | connect4.py:8-9 | The new board has no occupied cell, holds only 0/1/2 and satisfies gravity. |
| `Board.Place` | connect4.py:11-12 | Writing a piece sets cell (row, col) to that piece and leaves every other cell unchanged. |
| `Board.NextOpenRow` | connect4.py:17-20 | For a column that accepts a drop, the result is a row on the board whose cell in that column is empty, and every row below it in that column is occupied. So it is the smallest empty row. |
| `Board.NextOpenRowIsStackTop` | connect4.py:17-20 | Under gravity, a cell of the column is empty if and only if its row is at or above the next open row. So a piece lands directly on top of the column's stack. |
| `Board.ValidLocationIffRoom` | connect4.py:14-15 | Under gravity, a column accepts a drop if and only if it lies in [0, 7) and has an empty cell somewhere. Checking the top cell alone is therefore enough. |
| `Board.FullBoardRejectsEveryColumn` | connect4.py:14-15 | On a board with every cell occupied, no column (on or off the board) accepts a drop. With no draw detection, the loop can then make no further move. |
| `Board.PlacePreservesGravity` | connect4.py:65-68 | Dropping any piece into the next open row of an accepted column keeps gravity. |
| `Board.PlaceAddsOne` | connect4.py:65-68 | Writing a non-zero piece into an empty cell increases the number of occupied cells by exactly one. |
| `Chains.ScanStartIffFits` | connect4.py:25-51 | For each of the four directions, a start cell lies within that scan's loop bounds if and only if every cell of the chain from it is on the board. So the loops read no index outside 6 × 7 and skip no chain that fits. |
| `Chains.ChainStartsInScan` | connect4.py:25-51 | Every chain of equal pieces starts at a cell that the scan for its direction visits. |
| `Chains.NoChainFromScan` | connect4.py:25-51 | If no visited start cell in any of the four families begins a chain of `piece`, then `piece` has no chain anywhere. |
| `Chains.NoChainOnEmptyGrid` | connect4.py:25-51 | On the new board, no non-zero piece (in particular neither player 1 nor player 2) has a chain. |
| `Chains.EmptyGridHasZeroChain` | connect4.py:25-51 | Asked about piece 0, the win test reports a chain on the new board, because the empty cells themselves form one. |
| `Chains.PlaceKeepsOtherChainless` | connect4.py:65-75 | Writing piece p never gives a different piece q a chain that q did not already have. |
| `Engine.CreateBoard` | connect4.py:8-9 | Returns a freshly allocated 6 × 7 array whose contents are the empty board. |
| `Engine.DropPiece` | connect4.py:11-12 | Afterwards the array holds the old grid with exactly cell (row, col) set to `piece`. |
| `Engine.IsValidLocation` | connect4.py:14-15 | Holds exactly when the column lies in [0, 7) and its top cell is empty. It is false for every column off the board, and it reads the array only after the range test. |
| `Engine.GetNextOpenRow` | connect4.py:17-20 | Returns a row in [0, 6) whose cell is empty, with every row below it occupied. This equals `NextOpenRow` of the current grid. |
| `Engine.AllMatch` | connect4.py:30 | For a start cell inside the scan bounds, returns true exactly when all four cells of the chain in the given direction hold `piece`. |
| `Engine.WinningMove` | connect4.py:25-51 | Returns true if and only if some start cell and direction give four consecutive cells on the board, all equal to `piece`. It only reads the board. |
| `Connect4.Game.constructor` | connect4.py:53-56 | The game starts with an empty board (no occupied cell), `turn` 0 and `gameOver` false, and satisfies the invariant. |
| `Connect4.Game.Step` | connect4.py:65-77 | Keeps the invariant and the same array. If the column is refused, the board, `turn` and `gameOver` are unchanged. Otherwise: the board becomes the old board with piece 1 (turn 0) or 2 (turn 1) in the column's lowest open row; one more cell is occupied; `gameOver` holds exactly when that player now has a chain; `turn` toggles between 0 and 1 when the move does not win and stays put when it does. The new state is `NextState` of the old one. |
| `Connect4.NextState` | connect4.py:65-77 | One iteration on the state as a value. The game can end in this iteration only when the player who just moved (whose turn is kept) now has a chain. The result is still a 6 × 7 board. |
| `Connect4.RunAccounting` | connect4.py:58-79 | Running the loop over a script of selections until the game is over adds exactly one occupied cell per accepted selection. At most as many selections are accepted as are read, and at most as many are read as are given. A selection is left unread only when the game is over. |
| `Connect4.Game.Play` | connect4.py:58-79 | The final board, `turn` and `gameOver` are those of `Run`, i.e. of one `Step` per selection, in order, for as long as the game is not over. `consumed` is the number of selections read and `accepted` the number of those whose column accepted a drop. Consequently, through `RunAccounting`, a selection is left unread only when the game is over, a game that is already over reads nothing and changes nothing, and the number of occupied cells grows by exactly the number of accepted moves. |

## Left out

- Rendering: `print_board`, `np.flip` and every `print` call are terminal output and are not modelled.
- Input: `input()`, the `int()` conversion and the `ValueError` handler are not modelled. `Step` takes an already-parsed integer column. Non-numeric input makes the source loop again with nothing changed, which is the same as an iteration that never happened.
- `Connect4.Game.Play` takes a finite list of selections in place of unbounded keyboard input. It stops when the list runs out, where the program would wait for more input.
- Cells are `int`. The source's numpy board stores float64 values, but they only ever hold 0, 1 or 2, so the comparisons behave the same.
- `Engine.GetNextOpenRow` requires that the column accepts a drop. On a full column the source falls off the end of its loop and returns `None`; the loop in the source is only reached after that check. The model's loop runs while the current cell is occupied. It has the same result as the source's `for` loop with an early return whenever the top cell is empty.
- `Connect4.Game.Step` requires `gameOver` to be false, because the loop guard `while not game_over` runs the body only then. `Play` models the guard.
- `Engine.DropPiece` requires the cell to be on the board. Its only caller passes a checked column and a row from `GetNextOpenRow`.
- The board size and chain length are the constants 6, 7 and 4, as in the source. They are not parameters.
