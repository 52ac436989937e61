# Four-in-a-row engine and computer opponent

This project models the four-in-a-row part of the game collection in
`app.py`. It covers:

- The board object `Connect4Logic`: a 6 x 7 grid of integer cells. A cell is
  0 when empty, 1 for the human player and 2 for the computer. Row 0 is the
  top and row 5 the floor.
- Its operations: dropping a piece under gravity, testing whether a column can
  be played, and testing for four in a line.
- The static evaluation: `evaluate_window` and `score_position`.
- The computer opponent `minimax`: a depth-limited search with fail-soft
  alpha-beta pruning.

The project has four modules:

- `Rules` (Rules.dfy) states the game on board values (`Grid`, a sequence
  of rows):
  - where a dropped piece lands (`LandingRow`) and the board after the drop
    (`Drop`);
  - the playability test (`IsValid`) and the win scan (`CheckWin`);
  - a reference definition of "four in a line" (`HasFour`);
  - the gravity invariant (`Settled`).
- `Logic` (Logic.dfy) is the class `Connect4Logic`. It holds the board as an
  `array2<int>` field and updates it in place. `DropPiece` runs the source's
  upward scan. `CheckWin` runs the source's four nested scans, and each scan
  is proved to find a window exactly when one exists.
- `Evaluation` (Evaluation.dfy) defines the window score (`EvaluateWindow`)
  and the board score (`Score`). The method `ScorePosition` runs the source's
  loops and is proved to compute `Score`.
- `Search` (Search.dfy) defines the search as a function (`AlphaBeta` and
  its column loop `Loop`). It also gives plain minimax without pruning
  (`Value`) as an independent reference. `Minimax` is a recursive method on
  arrays: it deep-copies the board for each branch and is proved to return
  what `AlphaBeta` gives. The search is proved sound against `Value` in the
  fail-soft sense. At the top-level window (-inf, inf) it returns the exact
  minimax value and a playable column that reaches it.

`random.choice` over the playable columns is modelled as an arbitrary choice
(`:|`). The first column the loop tries always beats the ±inf starting
value, so it always replaces the random pick, and `LoopIgnoresPick` proves
that the pick never affects the result. The returned column is therefore
deterministic: among equal best scores it is the first one tried, in
increasing column order. Ties are not broken at random: among equal best
scores the lowest column tried wins.

## Model

| member | source | states |
|---|---|---|
| Logic.Connect4Logic.constructor | app.py:51-52 | The object shares the given board; with no board it gets a fresh all-empty 6 x 7 board |
| Logic.Connect4Logic.DropPiece | app.py:54-59 | Returns the landing row of the old board (None for a full column), and the new board is the old board after the drop |
| Logic.Connect4Logic.IsValid | app.py:61-62 | A column is playable exactly when its top cell is empty, and a piece dropped into a playable column lands |
| Rules.LandingRowLowest | app.py:54-59 | The landing row is the lowest empty cell of the column: it is empty and every cell below it is occupied; there is none exactly when every cell of the column is occupied |
| Rules.DropCells | app.py:54-59 | A drop writes the piece into the landing cell and changes no other cell; a full column leaves the board unchanged |
| Rules.DropKeepsOccupied | app.py:55-57 | A drop never overwrites an occupied cell |
| Rules.DropKeepsSettled | app.py:54-59 | Dropping a nonzero piece keeps the gravity invariant (no occupied cell above an empty one) |
| Rules.ValidIffDropSucceeds | app.py:54-62 | An empty top cell means the drop succeeds; on a settled board the drop succeeds exactly when the top cell is empty |
| Rules.DropCountsOne | app.py:54-59 | A successful drop of a real piece occupies exactly one more cell; a rejected drop occupies none |
| Rules.CheckWinIffFour | app.py:64-82 | The win scan succeeds exactly when four cells holding the piece lie in a row, a column or a diagonal somewhere on the board |
| Rules.ScanFindsFour | app.py:64-82 | Every window the scan accepts is a line of four on the board |
| Rules.FourIsFound | app.py:64-82 | Every line of four on the board lies in a window the scan visits |
| Rules.WinPersists | app.py:56-57 | Once a player has four in a line, any later drop keeps the win |
| Logic.ScanHorizontal | app.py:66-69 | Finds a horizontal window of four exactly when one exists among columns 0..3 |
| Logic.ScanVertical | app.py:70-73 | Finds a vertical window of four exactly when one exists among rows 0..2 |
| Logic.ScanDownRight | app.py:74-77 | Finds a down-right diagonal window exactly when one exists starting in rows 0..2 and columns 0..3 |
| Logic.ScanUpRight | app.py:78-81 | Finds an up-right diagonal window exactly when one exists starting in rows 3..5 and columns 0..3 |
| Logic.Connect4Logic.CheckWin | app.py:64-82 | The scanning method answers the same as the win test on the current board |
| Evaluation.EvaluateWindow | app.py:85-99 | A window of four scores between -4 and 100 |
| Evaluation.WindowScoreMeaning | app.py:85-99 | A window scores 100 exactly when all four cells hold the piece, and scores below zero exactly when the opponent has three cells and one is empty |
| Evaluation.WinIffFullWindow | app.py:64-82 | Some window of the evaluation scores 100 exactly when the win scan finds four in a line |
| Evaluation.ScoreBounds | app.py:101-135 | Every board scores between -4 per window and 100 per window (69 windows) plus 3 per centre-column piece |
| Evaluation.LineScore | app.py:112-114 | The inner window loop adds up the scores of the windows at one outer index |
| Evaluation.OrientationScore | app.py:110-133 | The outer loop adds up the scores of every window of one orientation |
| Evaluation.ScorePosition | app.py:101-135 | Computes the board score (centre bonus plus all window scores), which lies between the bounds above |
| Search.ValidLocsExact | app.py:139 | The playable-column list holds exactly the columns whose top cell is empty, in increasing order |
| Search.PlayableColumns | app.py:139 | Collecting, in increasing order, the columns whose top cell the board object reports empty gives exactly `ValidLocs` of the board |
| Search.DeepCopy | app.py:154 | The copy is a fresh board with the same cells |
| Search.Minimax | app.py:137-175 | The search method returns the column and value the search function gives for the board |
| Search.ColumnLoop | app.py:150-175 | Whatever column the random pick starts from, the loop over the playable columns ends with the column loop's result |
| Search.SearchChild | app.py:153-156 | Trying a column on a deep copy gives the search value of the child position, with the other side to move |
| Search.LoopRound | app.py:153-161 | One round of the loop on the board: the child's score replaces the best so far only when strictly better, alpha or beta moves, and the loop then stops when alpha >= beta or goes on with the next column, exactly as the loop function does |
| Search.LoopStep | app.py:157-161 | Bridge between the loop's rounds and the loop function: one round's update is the loop function unfolded once |
| Search.SearchResult | app.py:139-148 | The value lies in [-10 000 000, 10 000 000]. A column is returned exactly when the position is expanded, and it is then playable. A computer win is worth 10 000 000, a human win -10 000 000, a full board 0, and a depth-0 leaf its score for piece 2 |
| Search.LoopIgnoresPick | app.py:152 | The column `random.choice` starts from never changes the result |
| Search.AlphaBetaSound | app.py:150-175 | Against plain minimax, the result obeys the fail-soft bounds, and a result inside (alpha, beta) is reached by the returned column |
| Search.ValueIsBestMove | app.py:150-175 | Plain minimax gives an expanded position the best child value for the side to move, and some playable column reaches it |
| Search.RootSearchOptimal | app.py:137-175 | Called with alpha = -inf and beta = inf, the search returns the exact minimax value and a playable column that reaches it |
| Search.TakesImmediateWin | app.py:150-162 | At depth 1, when a winning drop exists, the computer picks a winning column and reports 10 000 000 |

## Left out

- The Streamlit user interface, the SQLite room and user storage with its
  polling, password hashing, the embedded Tetris game and the session-state
  turn handling in `app.py`. They are presentation, I/O and timing, outside
  the game logic.
- The cascading variant of the game (markers, match-count parity, a growing
  ceiling) and its heuristic opponent. Neither appears in the game's code, so
  there is nothing to model them from.
- Which column `random.choice` returns: the model leaves it unspecified within
  the playable columns.
- The floating-point infinities used as starting values for alpha, beta and
  the best value. They are modelled as the integers ±(10 000 000 + 1). Every
  real score lies strictly between them, and there is no other floating-point
  arithmetic.
- Python's truthiness test in `board if board else ...` becomes an optional
  board argument. An empty list given as the board, which Python would
  replace with a fresh board, is not modelled: the board is always 6 x 7.
- Logic.Connect4Logic.DropPiece: Python's negative column indices are not
  modelled. Every caller passes a column from 0 to 6, and the method requires
  one.
- Evaluation.ScorePosition: takes the board as a value rather than as the
  array. The source only reads the board there.
