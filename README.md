# Tic-tac-toe decision engine

This is a Dafny model of the decision engine of a human-versus-computer tic-tac-toe game
(`tic_tac_toe_ai.py`). It has two parts:

- **The rules evaluator.** `is_winner` reports whether a mark fills a row, a column or a
  diagonal. `is_draw` reports whether no cell is blank. Both are pure predicates over a board.
- **The move selector.** `minimax` is a recursive search on one shared grid. It first checks,
  in order, for a computer win, a human win, a full board and the Medium depth cut-off. It then
  marks each empty cell in row-major order, recurses, and clears the cell again. `best_move`
  picks the computer's move. On Easy it takes a random empty cell. On Medium and Hard it takes
  the first empty cell, in row-major order, of greatest score: a later cell replaces the
  candidate only when its score is strictly greater.

The model has three modules and a wrapper module:

- `Rules` (`rules.dfy`) holds the board and the checks.
  - A board is a sequence of nine cells in row-major order: row `i`, column `j` is at `3*i + j`.
  - The human's mark is `X`, the computer's is `O`.
  - It also holds the row-major list of empty cells and the empty-cell count that the search
    decreases.
- `GameTree` (`gametree.dfy`) is the pure specification.
  - `Value` and `Sweep` give the score of a position, in the same check order and the same
    row-major scan as the source.
  - `Scan` is the top-level best-move scan.
  - The lemmas prove the score range, the terminal order, optimality over the children, the
    role of depth, and the best-move characterisation.
- `Engine` (`engine.dfy`) holds the imperative code.
  - The grid is an `array<Cell>` of length nine, which the methods mark and unmark in place.
  - `Minimax` and `SearchMove` run the source's nested row/column loops.
  - Each method is proved against the specification: its result equals `Value`, or the loop
    state equals `Scan` of the scores seen so far, and the grid is unchanged afterwards.
- `Wrappers` (`wrappers.dfy`) holds `Option`, which stands for Python's `None`.

The board and the difficulty are globals in the source. Here they are passed explicitly. The
checks read the same board the search mutates, so one board passed around is the same thing.
The configured difficulty string becomes the `Difficulty` that `Minimax`, `SearchMove` and
`BestMove` take through `GameTree.DifficultyOf`, which makes the same comparisons as the source.

## Model

| member | source | states |
|---|---|---|
| `Rules.IsWinner` | tic_tac_toe_ai.py:74-84 | the mark fills row 0, 1 or 2, column 0, 1 or 2, the diagonal (i, i) or the anti-diagonal (i, 2 - i); a definition, whose agreement with the line table is `WinnerIffLine` |
| `Rules.WinnerIffLine` | tic_tac_toe_ai.py:74-84 | `IsWinner(b, p)` holds exactly when one of the eight lines of the independent line table (three rows, three columns, two diagonals) holds `p` in all three cells |
| `Rules.IsDraw` | tic_tac_toe_ai.py:87-89 | every cell (i, j) with i, j < 3 is not `Empty`, whatever the lines hold; a definition, characterised by `DrawIffNoEmptyCell` |
| `Rules.DrawIffNoEmptyCell` | tic_tac_toe_ai.py:87-89 | `IsDraw(b)` holds exactly when no cell of the board is `Empty` |
| `Rules.FullWonBoardIsDraw` | tic_tac_toe_ai.py:87-89 | an illustration on one board of what `DrawIffNoEmptyCell` implies: a full board on which `X` has a row is both won and a draw, since `IsDraw` ignores lines |
| `Rules.EmptyCellsFrom` | tic_tac_toe_ai.py:129 | the empty cells at row-major positions `k` and later: membership exactly for on-board empty cells at or after `k`, in strictly increasing row-major order |
| `Rules.EmptyCells` | tic_tac_toe_ai.py:129 | the list holds exactly the on-board cells that are `Empty`, each once, in strictly increasing row-major order |
| `Rules.DrawIffNoEmptyCells` | tic_tac_toe_ai.py:128-130 | the list of empty cells is empty exactly when `IsDraw` holds |
| `Rules.CountMatchesCells` | tic_tac_toe_ai.py:129 | the number of empty cells counted by `EmptyCount` is the length of the empty-cell list |
| `Rules.DrawIffCountZero` | tic_tac_toe_ai.py:98-99 | the empty-cell count the search decreases is zero exactly on a full board, where the search stops |
| `Rules.PlaceShrinks` | tic_tac_toe_ai.py:108-110 | marking an empty cell leaves exactly one empty cell fewer, so each recursive search call is on a smaller measure and the search terminates |
| `GameTree.DifficultyOf` | tic_tac_toe_ai.py:40 | the difficulty is Easy exactly for the string "Easy", Medium exactly for "Medium", and Hard for every other string |
| `GameTree.Value` | tic_tac_toe_ai.py:92-123 | the score of a node: 1 on a computer win, else -1 on a human win, else 0 on a full board, else 0 for Medium at depth 2 or more, else the row-major scan `Sweep` from the sentinel; a definition, whose properties are `TerminalOrder`, `ValueInRange`, `ValueIsOptimal` and `DepthOnlyCutsMedium` |
| `GameTree.Sweep` | tic_tac_toe_ai.py:104-123 | the scan from position `k`: an occupied cell is skipped, an empty cell is marked for the layer and its child scored one level deeper for the other side, and the running best takes the max (maximizing) or min (minimizing); a definition, bounded by `SweepInRange` and `SweepBounds` |
| `GameTree.TerminalOrder` | tic_tac_toe_ai.py:94-102 | a computer win scores 1; otherwise a human win scores -1; otherwise a full board scores 0; otherwise Medium at depth 2 or more scores 0 |
| `GameTree.BothWinScoresOne` | tic_tac_toe_ai.py:94-97 | an illustration on one board of the order stated by `TerminalOrder`: where both marks have a row the score is 1, since the computer's win is checked first |
| `GameTree.ValueInRange` | tic_tac_toe_ai.py:98-123 | every score is -1, 0 or 1, at every depth, for either side and every difficulty, so the infinite starting scores never escape |
| `GameTree.SweepInRange` | tic_tac_toe_ai.py:104-123 | the scan over the remaining positions ends in -1..1 when it starts in range, or from the sentinel with an empty cell still ahead |
| `GameTree.SweepBounds` | tic_tac_toe_ai.py:104-123 | the scan's result is at least (maximizing; at most when minimizing) its start and every later child's score, and equals its start or some later child's score |
| `GameTree.ValueIsOptimal` | tic_tac_toe_ai.py:104-123 | past the terminal checks, the maximizing score bounds every child's score from above (the minimizing one from below) and some empty cell's child attains it |
| `GameTree.DepthOnlyCutsMedium` | tic_tac_toe_ai.py:101-102 | for Easy and Hard the score does not depend on the depth |
| `GameTree.SweepDepth` | tic_tac_toe_ai.py:104-123 | for Easy and Hard, the scan over the remaining positions does not depend on the depth |
| `GameTree.MoveScore` | tic_tac_toe_ai.py:137-138 | a top-level candidate's score: the value of the board with the computer's mark at `k`, at depth 0, from the human's side; a definition |
| `GameTree.Scan` | tic_tac_toe_ai.py:132-142 | the top-level scan over the first positions: starts at `None` with the sentinel, and an empty cell replaces the candidate only when its score is strictly greater; a definition, characterised by `ScanIsBest` |
| `GameTree.IsBestMove` | tic_tac_toe_ai.py:132-143 | the move is an on-board empty cell whose score is at least every empty cell's and strictly greater than every earlier empty cell's; a definition, made unique by `BestMoveUnique` and existing by `BestMoveExists` |
| `GameTree.ScanExtend` | tic_tac_toe_ai.py:136-142 | scoring one more position keeps the seen scores equal to the cells' scores, and the scan moves to that cell exactly when it is empty and its score is strictly greater than the best so far |
| `GameTree.ScanStep` | tic_tac_toe_ai.py:140-142 | visiting one more position keeps the candidate the first empty cell, in row-major order, of greatest score so far |
| `GameTree.ScanPrefix` | tic_tac_toe_ai.py:132-142 | after any number of positions, the scan holds the first empty cell, in row-major order, of greatest score among them, or `None` with the sentinel if there was none |
| `GameTree.ScanIsBest` | tic_tac_toe_ai.py:132-143 | after all nine positions the scan is `None` exactly on a full board, and otherwise an empty cell of maximal score with every earlier empty cell scoring strictly less |
| `GameTree.BestMoveUnique` | tic_tac_toe_ai.py:140-142 | the strict comparison makes the best move unique |
| `GameTree.BestMoveExists` | tic_tac_toe_ai.py:132-143 | every board with an empty cell has a best move |
| `Engine.Minimax` | tic_tac_toe_ai.py:92-123 | the returned score is the specified `Value` of the grid, is in -1..1, and the grid is returned exactly as it was found |
| `Engine.TryCell` | tic_tac_toe_ai.py:108-112 | marking an empty cell, searching one level deeper for the other side and clearing it yields that child's score and leaves the grid unchanged |
| `Engine.EasyMove` | tic_tac_toe_ai.py:128-130 | `None` exactly on a full board; otherwise an element of the row-major empty-cell list, an on-board empty cell |
| `Engine.SearchMove` | tic_tac_toe_ai.py:132-143 | `None` exactly on a full board, otherwise the best move (maximal score, first in row-major order); the grid is unchanged |
| `Engine.ScoreMove` | tic_tac_toe_ai.py:136-139 | one top-level candidate's score is the depth-0 minimizing score of the grid with the computer's mark there, and the grid is unchanged |
| `Engine.BestMove` | tic_tac_toe_ai.py:126-143 | `None` exactly on a full board, otherwise an on-board empty cell; Easy takes the drawn element of the empty-cell list, Medium and Hard the best move; the grid is unchanged |
| `Engine.SingleEmptyCellChosen` | tic_tac_toe_ai.py:126-143 | with exactly one empty cell left, Easy chooses it and so does every best move |

## Left out

- Rendering is not modelled: pygame set-up, the window, the colours, `draw_grid`, `draw_figures` and the screen refresh in `reset_board` (lines 14-71 and 146-151). It is all I/O.
- The event loop is not modelled: mouse-to-cell mapping, the turn sequence, the messages and the reset after a finished game (lines 154-196). It is user-interface plumbing, not engine logic.
- The randomness of `random.choice` is not modelled. The draw is the parameter `rand` of `EasyMove` and `BestMove`, which picks position `rand mod n` of the empty-cell list. Only membership in the list is proved. Uniformity is a statistical claim.
- The floating-point starting scores `-inf` and `inf` are the integers -2 and 2. `ValueInRange` shows that they never reach a result, so only the comparisons matter.
- The grid is one array of nine cells in row-major order, not a list of three row lists. Aliasing between rows cannot arise in the source's use and is not modelled.
- An unknown difficulty string is not rejected: the code never checks it, and any string other than "Easy" or "Medium" plays as Hard (`DifficultyOf`).
- The source's inner place/score/undo step is factored into the helper methods `TryCell` and `ScoreMove`. Their statements are those of the source's loop body.
- Two whole-game claims are not proved: that Hard play never loses, and that Medium can be beaten. They need an exhaustive evaluation of the game from the empty board, not a property of any single call.
