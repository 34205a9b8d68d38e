# Tic-tac-toe minimax engine

A Dafny model of the search engine of a tic-tac-toe game whose automated
player, X, picks its moves by exhaustive minimax (`main.cpp`, lines 13-161).
The engine has four operations on a 3×3 grid of chars. In play each cell holds
`'X'`, `'O'` or `' '`, but the code never checks this, and the model allows any
character:

- `isMovesLeft` asks whether any cell is unmarked.
- `evaluate` scores a position +10 (X has a line), -10 (O has a line) or 0.
  It scans rows, then columns, then the two diagonals, and the first line of three equal X or O cells decides.
- `minimax` values a position by trying every unmarked cell in row-major order.
  It marks the cell, recurses with the turn passed, and unmarks the cell again.
  The maximizer starts its running best at `INT_MIN` and the minimizer at `INT_MAX`.
- `findBestMove` tries an X mark on every unmarked cell and values it with `minimax` (O to move).
  It keeps the first cell whose value is strictly greater than the best so far.
  It returns `(-1, -1)` when no cell is unmarked.

The model is in four modules:

- `Position` holds:
  - the marks and `Move`;
  - the grid's shape (`IsGrid`, 3 rows of 3 cells of an `array2<char>`), its row-major view `Cells` and the write step `SetCell`;
  - `Board`, the nine cells as a value in row-major order, where cell (i, j) is element 3·i + j;
  - the eight lines in scan order.
- `Evaluation` holds the two read-only scans.
  `Evaluate` and `IsMovesLeft` are methods over the grid that have no `modifies` clause, so they cannot change it.
  Each is proved equal to a pure function on the board, and those functions are characterised by lemmas.
- `Search` holds `GameValue`, the pure minimax value, which is mutually recursive with `Fold`.
  `Fold` is the fold of the search loop over the cells.
  The module also holds the in-place `Minimax` method, which is proved to restore the grid and to return `GameValue`.
- `BestMove` holds `BestMoveOf`, the pure argmax scan, and the in-place `FindBestMove` method proved equal to it.
  It also holds lemmas that characterise the selected move as the first maximal unmarked cell.

Cells may hold any character, as in the source. Nothing assumes the board is reachable in play.

## Model

| member | source | states |
|---|---|---|
| Evaluation.IsMovesLeft | main.cpp:24-33 | the result is true exactly when some cell (i, j) of the grid is `' '`, and it equals `HasEmpty` of the board; the grid is only read |
| Position.HasEmptyIff | main.cpp:24-33 | `HasEmpty` holds exactly when one of the nine cells is unmarked |
| Evaluation.Evaluate | main.cpp:37-66 | the result of the row, column and diagonal scan with early returns equals `Score` of the board; the grid is only read |
| Evaluation.Score | main.cpp:37-66 | the evaluation of a whole board, the scan of all eight lines, is -10, 0 or +10 |
| Evaluation.ScoreFrom | main.cpp:37-66 | the scan of lines k..7 yields -10, 0 or +10 |
| Evaluation.ScoreFromFirstLine | main.cpp:37-66 | the scan of lines k..7 gives +10 exactly when some line in that range is three X and no earlier line in the range is three O; -10 symmetrically; 0 exactly when no line in the range is full of either mark |
| Evaluation.ScoreIsFirstWinningLine | main.cpp:36-66 | the evaluation is in {-10, 0, 10}; it is +10 (-10) exactly when the first line in scan order that is full of one mark is X's (O's); it is 0 exactly when no line is full of X or of O |
| Evaluation.ScoreOneSided | main.cpp:36-66 | where O holds no line, the evaluation is +10 exactly when X holds some line, and symmetrically for O |
| Position.EmptyCountMark | main.cpp:90-95 | marking an unmarked cell lowers the number of unmarked cells by one, which is the measure the recursion decreases |
| Position.SetCell | main.cpp:92-148 | writing a mark into cell (i, j) changes just element 3·i + j of the board; this models each make-move and undo-move write, at lines 92, 98, 114, 120, 142 and 148 |
| Search.GameValue | main.cpp:70-126 | the pure minimax value is always -10, 0 or 10, so the `INT_MIN`/`INT_MAX` initialisers never escape |
| Search.Fold | main.cpp:83-124 | the fold of the cell loop yields a score once its running best is a score or an unmarked cell remains among those still to scan |
| Search.FoldIsBest | main.cpp:83-124 | the maximizer's (minimizer's) fold over cells k..8 is at least (at most) its start and every child value of an unmarked cell in range, and equals the start or one of those child values |
| Search.GameValueIsMinimax | main.cpp:70-126 | a won position gives the evaluation for either player to move; a full undecided position gives 0; otherwise the value is the maximum (X to move) or minimum (O to move) of the child values over the unmarked cells, and one of them attains it |
| Search.Minimax | main.cpp:70-126 | the grid is the same on return as on entry; the result is `GameValue` of the entry board for the player to move, whatever `depth` is, and lies in {-10, 0, 10} |
| BestMove.MoveValue | main.cpp:142-145 | the value `moveVal` of X marking cell k, `minimax` with O to move, is -10, 0 or +10 |
| BestMove.MoveValuesFrom | main.cpp:140-145 | element j - k of the values compared is the minimax value of X marking cell j, with O to move |
| BestMove.MoveValues | main.cpp:140-145 | element k of the values compared is the minimax value of X marking cell k, with O to move |
| BestMove.BestFromScans | main.cpp:137-158 | scanning the remaining cells keeps the scan invariant: there is no move only if every scanned cell is marked; otherwise the move is an unmarked scanned cell whose value is the running best, no scanned unmarked cell has a greater value, and none before it has an equal value |
| BestMove.BestFrom | main.cpp:137-158 | the strict-`>` scan of cells k..8 returns its starting move or an unmarked in-grid cell at index k or later |
| BestMove.BestMoveOf | main.cpp:129-161 | the move selected is `(-1, -1)` or an unmarked cell inside the grid |
| BestMove.BestMoveIsFirstMaximum | main.cpp:129-161 | with no unmarked cell the result is `(-1, -1)`; otherwise it is an unmarked cell with maximal value among all unmarked cells, and every unmarked cell before it in row-major order has a smaller value |
| BestMove.FirstBestIsUnique | main.cpp:150-155 | the first maximal unmarked cell is unique, so the strict `>` tie-break determines the result |
| BestMove.BestMoveAchievesGameValue | main.cpp:129-161 | on an undecided position with an unmarked cell, the selected move's value is the game value of the position with X to move |
| BestMove.CompletingMoveWins | main.cpp:140-145 | where O holds no line, an X mark that completes a line has value +10 |
| BestMove.WinningMoveIsFound | main.cpp:129-161 | where O holds no line and X can complete a line in one move, the selected move has value +10 |
| BestMove.UnblockedLoses | main.cpp:140-145 | if X's mark at k completes no X line and O can complete a line at another free cell t, X's move at k is worth -10 |
| BestMove.ForcedBlock | main.cpp:129-161 | a forced block: O can complete a line at the free cell t, no X move wins at once, and X at t is not lost; then the selected move is t |
| BestMove.OnlyLiveMoveSelected | main.cpp:137-158 | a free cell worth more than -10 while every other free cell is worth -10 is the move selected |
| BestMove.DoubleThreatTakesFirstFree | main.cpp:129-161 | a double threat: O can complete lines at two different free cells and no X move wins at once; then every move is worth -10, and the selected move is the first free cell in row-major order |
| BestMove.WinNextMove | main.cpp:70-102 | with X to move, no O line, and a free cell whose X mark completes a line, the game value is +10 |
| BestMove.FirstFreeWinSelected | main.cpp:137-158 | a free cell worth +10 with no free cell before it in row-major order is the move selected |
| BestMove.ForkRepliesLose | main.cpp:83-102 | on `ForkBoard` with X at (0, 1), every O reply leaves a position worth +10 to X |
| BestMove.ForkWins | main.cpp:140-145 | on `ForkBoard`, X's mark at (0, 1) is worth +10 |
| BestMove.ForkBeforeWin | main.cpp:129-161 | on `ForkBoard` ("O   XX  O", row-major), X's mark at (1, 0) completes row 1 and is worth +10, and X's mark at (0, 1) is worth +10 too; the move selected is (0, 1), not the immediate win |
| BestMove.TryMove | main.cpp:140-148 | marking cell (i, j) with X, calling `minimax` with O to move and unmarking the cell restores the grid; the value returned is element 3·i + j of the compared values |
| BestMove.FindBestMove | main.cpp:129-161 | the grid is the same on return as on entry, and the move returned is `BestMoveOf` the entry board |

## Left out

- The `TicTacToeWindow` Qt class and `main` (main.cpp:165-301), including the turn alternation in `handleButtonClick`. They are GUI and event-loop code over libraries that are not part of this model.
- The caller's use of a `(-1, -1)` move as an index (main.cpp:248) is GUI code too.
- Search.Minimax: the source writes the maximizer's and the minimizer's loops out separately (main.cpp:83-125). The model writes one loop, parametrised by the mark placed, the initial running best and the fold with `max` or `min`. The two source loops differ only in those three things.
- Search.Minimax: `depth` is an unbounded `int`. The source's `int` could in principle overflow, but the recursion is at most nine calls deep.
- `INT_MIN` and `INT_MAX` are taken as the 32-bit values. The properties proved need only that they lie below -10 and above 10.
- BestMove.FindBestMove: on a full board the result is `(-1, -1)`, as the code returns, not an error value.
- Reachability invariants (balanced X/O counts, at most one winner) are not assumed.
- There is no proof that optimal play from the empty board is a draw: that statement needs the whole game tree to be evaluated.
- BestMove.WinningMoveIsFound: states only that the selected move is worth +10, not that it is the winning cell. A stronger promise, that the engine returns the cell that wins at once, does not hold in the code: values carry no depth (main.cpp:145, 151), so an earlier cell that forces a win later ties with the immediate win and is kept. `BestMove.ForkBeforeWin` shows this on `ForkBoard` ("O   XX  O"): `BestMoveOf` selects the fork at (0, 1) ahead of the immediate win at (1, 0).
- BestMove.ForcedBlock: requires that the blocking move at t is not itself lost. The unconditional wording, that the engine always returns the blocking cell against a threat, is false under a double threat. There every move is worth -10, and the first free cell is returned (`BestMove.DoubleThreatTakesFirstFree`).
- Performance and the size of the search tree are not modelled.
