# Connect four and tic-tac-toe: rules and computer players

This project models the rules and the computer players of two board games in Dafny, and proves properties of that model.

Connect four:
- A 6 x 7 board of '-', 'X' and 'O'.
- The board methods of `Connect4GUI`: gravity drop, full test, line scan, turn change and the 42-character state string.
- The integer window heuristic `evaluate_board` / `score_position` / `evaluate_window`.
- Four opponents:
  - depth-4 minimax over copied boards;
  - the same search with alpha-beta pruning;
  - a rule-based player (win, block, centre, any open column);
  - a tabular Q-learning agent.

Tic-tac-toe:
- The `TicTacToe` class: a 3 x 3 board and the player to move.
- The computer-versus-computer game loop.
- Four opponents:
  - exhaustive minimax that writes a mark into the live board and takes it back;
  - alpha-beta on the same scheme;
  - a rule-based player (win, block, first blank cell);
  - a Q-learning agent with its training loop.

Modules, one per source concern:

| module | file | form |
|---|---|---|
| `Options` | options.dfy | the `Option` datatype |
| `QUpdate` | qupdate.dfy | the table lookup and the blended update both Q-learning opponents use |
| `Connect4Board` | connect4_board.dfy | class `Connect4Game` (fields `board`, `turn`) with looping methods; board functions and lemmas |
| `Connect4Heuristic` | connect4_heuristic.dfy | pure score functions, and methods on an `array2<char>` that write a trial piece and undo it |
| `Connect4Search` | connect4_search.dfy | `simulate_drop_piece`, minimax and alpha-beta as functions on board values; the two `choose_move` loops as methods |
| `Connect4Default` | connect4_default.dfy | `check_win_on_board`, `get_move` and `choose_move` as loops |
| `Connect4QLearning` | connect4_qlearning.dfy | class `QLearningOpponent`, whose methods update the table and epsilon |
| `TicTacToeBoard` | tictactoe_board.dfy | class `TicTacToe`; `check_win`, `check_draw` and `get_empty_cells` as functions |
| `TicTacToeSearch` | tictactoe_search.dfy | recursive methods that mark `game.board` and restore it, each proved equal to a value function |
| `TicTacToeDefault` | tictactoe_default.dfy | the probe loops of the rule-based player |
| `TicTacToeQLearning` | tictactoe_qlearning.dfy | class `QLearningOpponent`: update, move choice, training |
| `TicTacToeGame` | tictactoe_game.dfy | `play_ai_vs_ai_game` |

Modelling choices:
- Random choices (`random.choice`, `np.random.choice`) become a pick with `:|` from the set the source chooses from. The contracts state only what every pick satisfies.
- The uniform samples compared with epsilon become `real` parameters: `draw`, `draws`.
- Q-values, rates and epsilon are `real`, so there is no floating-point rounding.
- `float('-inf')` and `float('inf')` in the connect-four search become the datatype `Ext` = `NegInf | Fin(n) | PosInf`.
- A pickled table that may or may not exist becomes the `saved: Option<QTable>` argument of each constructor.

Behaviour of the source that the model keeps as it is:
- Connect-four minimax and alpha-beta stop on `game.check_win() or game.is_full()` of the live game, not the searched board. In the model this is the `over` argument, which is the same at every node.
- The connect-four maximiser always drops 'O' and the minimiser 'X'.
- Connect-four `DefaultOpponent.choose_move` skips a winning or blocking move in column 0, because 0 is false in Python (`Truthy`).
- The connect-four agent reads Q-values under tuple-of-tuple keys (`Grid`). Its updates are stored under 42-character strings (`Text`), so reads never see them (`TextUpdatesInvisibleToGrid`).
- Both tic-tac-toe search opponents place 'X' at the root, whichever side they play.
- Tic-tac-toe `DefaultOpponent.choose_move` also takes a win at (0, 0), because a non-empty tuple is true in Python.
- Where the source indexes or chooses from an empty list (a `choose_move` on a full board), the model returns `None`.

Tic-tac-toe `train` lowers epsilon linearly, `max(epsilon_min, epsilon - epsilon_min * (iteration / 200))`, at the start of each episode, and `epsilon_decay` is never read. The model follows this code. Only the connect-four agent decays epsilon multiplicatively.

## Model

| member | source | states |
|---|---|---|
| `Connect4Board.EmptyBoard` | Connect4/Connect4.py:155 | a 6 x 7 board with every cell '-' |
| `Connect4Board.Connect4Game.constructor` | Connect4/Connect4.py:154-156 | a new game has the empty board and 'X' to move |
| `Connect4Board.LowestEmptyFrom` | Connect4/Connect4.py:215-218 | the bottom-up scan finds an empty cell at or above the start row with every cell between it and the start occupied, or reports that none of those cells is empty |
| `Connect4Board.Connect4Game.DropPiece` | Connect4/Connect4.py:212-219 | returns true iff the column's top cell is empty; if not, the board is unchanged; if so, the board is the old one with `turn` in the lowest empty cell of the column, and `turn` is unchanged |
| `Connect4Board.DropKeepsGravity` | Connect4/Connect4.py:212-219 | a drop into a column with an empty top cell lands, and no empty cell lies below a filled one afterwards if none did before |
| `Connect4Board.FullMeansAllFilled` | Connect4/Connect4.py:221-222 | under gravity, `is_full` holds iff all 42 cells are occupied |
| `Connect4Board.Connect4Game.CheckLine` | Connect4/Connect4.py:224-233 | true iff four in-bounds cells from the start, stepping by (dRow, dCol), all hold `turn` |
| `Connect4Board.Connect4Game.CheckWin` | Connect4/Connect4.py:235-244 | true iff some cell starts a horizontal, vertical, down-right or down-left run of four of `turn` |
| `Connect4Board.VerticalFourWins` | Connect4/Connect4.py:240 | four of p stacked in one column count as a win |
| `Connect4Board.Connect4Game.ChangeTurn` | Connect4/Connect4.py:246-247 | 'X' passes to 'O', anything else to 'X'; the board is unchanged |
| `Connect4Board.Connect4Game.GetStateRepresentation` | Connect4/Connect4.py:295-300 | returns the row-by-row concatenation of the cells, 42 characters long |
| `Connect4Board.FingerprintAt` | Connect4/Connect4.py:295-300 | cell (r, c) is character 7r + c of the state string |
| `Connect4Board.FingerprintInjective` | Connect4/Connect4.py:295-300 | boards with equal state strings are equal |
| `Connect4Heuristic.EvaluateWindow` | Connect4/Connect4.py:372-390 | the score is one of 100, -150, 10, -50, 0 (the two blocks never both fire); on a four-cell window a positive score means no opponent piece and a negative one no own piece |
| `Connect4Heuristic.CountsFit` | Connect4/Connect4.py:377-379 | the counts of three distinct marks add up to at most the window length |
| `Connect4Heuristic.HorizontalScore` | Connect4/Connect4.py:353-355 | the horizontal windows score between -150 and 100 per window |
| `Connect4Heuristic.PositionScore` | Connect4/Connect4.py:346-370 | a position scores between -1050 and 700: at most seven windows count |
| `Connect4Heuristic.ReadWindow` | Connect4/Connect4.py:354-366 | the four array cells read along a direction are the board's cells along it |
| `Connect4Heuristic.ScoreRow` | Connect4/Connect4.py:353-355 | the horizontal loop returns the score of the windows at columns max(0, col-3) .. min(4, col+1) - 1 |
| `Connect4Heuristic.ScoreWindows` | Connect4/Connect4.py:352-367 | the loop and the three window tests return the horizontal, vertical and both diagonal window scores |
| `Connect4Heuristic.ScorePosition` | Connect4/Connect4.py:346-370 | returns the position score of the board with the trial piece; afterwards the cell holds '-' and every other cell is unchanged |
| `Connect4Heuristic.EvaluateBoard` | Connect4/Connect4.py:330-344 | returns 6 per own piece in the centre column plus, over every empty cell, own minus opponent position score; the board is left exactly as it was |
| `Connect4Search.MaxE` | Connect4/Connect4Opponents.py:32 | `max` over extended values is an upper bound of both arguments and equals one of them |
| `Connect4Search.MinE` | Connect4/Connect4Opponents.py:40 | `min` over extended values is a lower bound of both arguments and equals one of them |
| `Connect4Search.SimulateDrop` | Connect4/Connect4Opponents.py:13-19 | succeeds iff the column has an empty cell; on failure returns the input board; on success the copy holds `player` in the lowest empty cell and matches the input everywhere else |
| `Connect4Search.TopEmptyIsValid` | Connect4/Connect4Opponents.py:47-49 | a column with an empty top cell always takes a simulated piece |
| `Connect4Search.MaxFoldIsUpperBound` | Connect4/Connect4Opponents.py:26-33 | the maximising loop's result is at least its start value and at least the minimax value of every column that takes an 'O' |
| `Connect4Search.MaxFoldAttained` | Connect4/Connect4Opponents.py:26-33 | the maximising loop's result is its start value or the value of one such column |
| `Connect4Search.MinFoldIsLowerBound` | Connect4/Connect4Opponents.py:34-41 | the minimising loop's result is at most its start value and at most the value of every column that takes an 'X' |
| `Connect4Search.MinFoldAttained` | Connect4/Connect4Opponents.py:34-41 | the minimising loop's result is its start value or the value of one such column |
| `Connect4Search.MaxStep` | Connect4/Connect4Opponents.py:71-74 | one maximising step with the alpha update keeps the fail-soft relation to minimax |
| `Connect4Search.MinStep` | Connect4/Connect4Opponents.py:82-85 | one minimising step with the beta update keeps the fail-soft relation to minimax |
| `Connect4Search.AlphaBetaBounds` | Connect4/Connect4Opponents.py:62-86 | with alpha < beta: an alpha-beta value at or below alpha bounds minimax from above, one inside the window equals it, one at or above beta bounds it from below |
| `Connect4Search.MaxFoldBounds` | Connect4/Connect4Opponents.py:65-75 | the pruned maximising loop stands in the same relation to the full one |
| `Connect4Search.MinFoldBounds` | Connect4/Connect4Opponents.py:76-86 | the pruned minimising loop stands in the same relation to the full one |
| `Connect4Search.AlphaBetaIsMinimax` | Connect4/Connect4Opponents.py:62-86 | from the window (-inf, +inf), alpha-beta returns exactly the minimax value |
| `Connect4Search.RootScoresAgree` | Connect4/Connect4Opponents.py:93-95 | both `choose_move`s give every column the same score |
| `Connect4Search.MinimaxChooseMove` | Connect4/Connect4Opponents.py:43-59 | `None` iff no column is open; otherwise an open column whose score is at least that of every open column |
| `Connect4Search.AlphaBetaChooseMove` | Connect4/Connect4Opponents.py:88-104 | the same, with alpha-beta scores (equal to the minimax scores by `RootScoresAgree`) |
| `Connect4Search.TiesStep` | Connect4/Connect4Opponents.py:50-55 | the `>` / `==` update keeps `best_score` an upper bound of the scores of the open columns so far and `possible_moves` exactly columns reaching it |
| `Connect4Search.TiedIsBest` | Connect4/Connect4Opponents.py:44-59 | after all seven columns, every tied column scores at least as much as every open column |
| `Connect4Search.PickTied` | Connect4/Connect4Opponents.py:56-59 | `None` iff no column is open; otherwise an open column whose score is at least that of every open column |
| `Connect4Search.MinimaxTies` | Connect4/Connect4Opponents.py:44-55 | after the loop, `best_score` bounds the minimax score of every open column and `possible_moves` lists open columns reaching it, non-empty when a column is open |
| `Connect4Search.AlphaBetaTies` | Connect4/Connect4Opponents.py:89-100 | the same, with alpha-beta scores |
| `Connect4Default.CheckWinOnBoard` | Connect4/Connect4Opponents.py:128-145 | true iff the board has four of `player` in a row in one of the four directions |
| `Connect4Default.DetectorsAgree` | Connect4/Connect4Opponents.py:128-145 | for the side to move, `check_win_on_board` and `Connect4GUI.check_win` give the same answer |
| `Connect4Default.FirstWinningFrom` | Connect4/Connect4Opponents.py:107-111 | the lowest column from `col` on whose drop wins, with no winning column before it, or none if no column wins |
| `Connect4Default.GetMove` | Connect4/Connect4Opponents.py:107-111 | returns the lowest-numbered winning column, or `None` |
| `Connect4Default.DefaultChooseMove` | Connect4/Connect4Opponents.py:113-126 | a truthy win, else a truthy block, else the centre column if its bottom cell is empty, else some open column, else `None` |
| `Connect4Default.RandomOpenColumn` | Connect4/Connect4Opponents.py:124-126 | some open column when one exists, `None` when none is open |
| `Connect4QLearning.MaxOf` | Connect4/Connect4Opponents.py:167 | `max` of a non-empty list is an element and bounds every element |
| `Connect4QLearning.QValues` | Connect4/Connect4Opponents.py:166 | seven entries, entry c the stored value of (state, c) or 0 |
| `Connect4QLearning.MaxFutureQ` | Connect4/Connect4Opponents.py:176 | the largest stored value of the state over all seven columns, missing entries as 0, and attained by one column |
| `QUpdate.BlendMovesTowardTarget` | Connect4/Connect4Opponents.py:174-177 | with alpha in [0, 1] the updated value lies between the old value and the target, and its gap to the target shrinks by 1 - alpha; the same rule is TicTacToe/TicTacToeOpponents.py:195 |
| `Connect4QLearning.QLearningOpponent.constructor` | Connect4/Connect4Opponents.py:148-155 | the parameters as given (defaults 0, 0.6, 0.9, 0.995, 0.01); the saved table, or an empty one |
| `Connect4QLearning.QLearningOpponent.ChooseMove` | Connect4/Connect4Opponents.py:161-169 | exploring: an open column, or `None` when none is open; exploiting: some column whose Q-value is the largest of all seven |
| `Connect4QLearning.QLearningOpponent.UpdateQTable` | Connect4/Connect4Opponents.py:171-177 | only key (prevState, action) changes; it becomes Q + alpha(r - Q) when done, else Q + alpha(r + gamma * max future Q - Q); the parameters are unchanged |
| `Connect4QLearning.NextEpsilon` | Connect4/Connect4Opponents.py:204 | the new epsilon is at least epsilon_min and is epsilon_min or epsilon * decay |
| `Connect4QLearning.EpsilonSchedule` | Connect4/Connect4Opponents.py:204 | with decay in [0, 1], epsilon stays between epsilon_min and its start and never grows from one episode to the next |
| `Connect4QLearning.QLearningOpponent.DecayEpsilon` | Connect4/Connect4Opponents.py:204 | epsilon takes one decay step; nothing else changes |
| `Connect4QLearning.GetState` | Connect4/Connect4Opponents.py:157-159 | the key is the board itself, as a tuple of rows |
| `Connect4QLearning.TextUpdatesInvisibleToGrid` | Connect4/Connect4Opponents.py:157-166 | updates stored under string states never change a value `choose_move` reads under a tuple state |
| `Connect4QLearning.Reward` | Connect4/Connect4Opponents.py:192-196 | the reward the code's comment describes: 1 for the agent's win, -0.5 for a full board with no line, 0 otherwise |
| `Connect4QLearning.AgentWinNotRewarded` | Connect4/Connect4Opponents.py:192-196 | a winning move of 'O' is not rewarded 1 as written, but is under the intended reward |
| `TicTacToeBoard.EmptyBoard` | TicTacToe/TicTacToe.py:10 | a 3 x 3 board of ' ' |
| `TicTacToeBoard.Place` | TicTacToe/TicTacToe.py:16 | the written cell holds the mark and every other cell is unchanged |
| `TicTacToeBoard.PlaceUndo` | TicTacToe/TicTacToeOpponents.py:37-41 | writing back a cell's old content after a write gives the original board |
| `TicTacToeBoard.CheckWinIsALine` | TicTacToe/TicTacToe.py:26-34 | `check_win(p)` holds iff one of the three rows, three columns or two diagonals holds p in all three cells |
| `TicTacToeBoard.PlaceOtherKeepsNoWin` | TicTacToe/TicTacToe.py:26-34 | writing q into a blank cell cannot give a different player p a line |
| `TicTacToeBoard.EmptyFromSpec` | TicTacToe/TicTacToe.py:40 | the comprehension from position k on lists exactly the blank cells from k on, in increasing row-major order |
| `TicTacToeBoard.GetEmptyCellsSpec` | TicTacToe/TicTacToe.py:39-40 | `get_empty_cells` lists every blank cell and nothing else, in row-major order, without repeats |
| `TicTacToeBoard.EmptyCellsAreBlank` | TicTacToe/TicTacToe.py:39-40 | every listed cell is blank, and there are at most nine |
| `TicTacToeBoard.PlaceShrinksFrom` | TicTacToe/TicTacToe.py:40 | marking a blank cell removes it alone from the listing from position k on |
| `TicTacToeBoard.PlaceShrinks` | TicTacToe/TicTacToe.py:39-40 | marking a blank cell leaves one blank cell fewer |
| `TicTacToeBoard.CheckDrawIsNoEmptyCell` | TicTacToe/TicTacToe.py:36-40 | `check_draw` holds iff `get_empty_cells` is empty, whoever has a line |
| `TicTacToeBoard.Other` | TicTacToe/TicTacToe.py:23-24 | the next player is 'X' or 'O', and differs from a current 'X' or 'O' |
| `TicTacToeBoard.OtherTwice` | TicTacToe/TicTacToe.py:23-24 | switching twice from 'X' or 'O' is the identity |
| `TicTacToeBoard.TicTacToe.constructor` | TicTacToe/TicTacToe.py:9-11 | an all-blank board with 'X' to move |
| `TicTacToeBoard.TicTacToe.MakeMove` | TicTacToe/TicTacToe.py:14-21 | returns true iff the cell was blank; then exactly that cell holds `player`; otherwise the board is unchanged; the player to move is unchanged |
| `TicTacToeBoard.TicTacToe.SwitchPlayer` | TicTacToe/TicTacToe.py:23-24 | the player to move becomes `Other` of the old one; the board is unchanged |
| `TicTacToeBoard.TicTacToe.Reset` | TicTacToe/TicTacToe.py:42-44 | an all-blank board with 'X' to move |
| `TicTacToeSearch.Evaluate` | TicTacToe/TicTacToeOpponents.py:11-17 | 10 iff X has a line, -10 iff only O has one, 0 iff neither has |
| `TicTacToeSearch.MaxOverAtLeast` | TicTacToe/TicTacToeOpponents.py:32-42 | the maximising loop ends at the largest of -1000 and the values of the cells marked 'X' |
| `TicTacToeSearch.MinOverAtMost` | TicTacToe/TicTacToeOpponents.py:43-53 | the minimising loop ends at the smallest of 1000 and the values of the cells marked 'O' |
| `TicTacToeSearch.MinimaxRange` | TicTacToe/TicTacToeOpponents.py:21-53 | from a reachable depth, minimax lies in [-10, 10]: the sentinels never survive |
| `TicTacToeSearch.MaxOverRange` | TicTacToe/TicTacToeOpponents.py:32-42 | the maximising loop from -1000 over a non-empty cell list ends in [-10, 10] |
| `TicTacToeSearch.MinOverRange` | TicTacToe/TicTacToeOpponents.py:43-53 | the minimising loop from 1000 over a non-empty cell list ends in [-10, 10] |
| `TicTacToeSearch.AlphaBetaBounds` | TicTacToe/TicTacToeOpponents.py:78-116 | within -1000 <= alpha < beta <= 1000, alpha-beta bounds minimax in the fail-soft sense |
| `TicTacToeSearch.MaxOverBounds` | TicTacToe/TicTacToeOpponents.py:89-102 | the pruned maximising loop stands in that relation to the full one |
| `TicTacToeSearch.MinOverBounds` | TicTacToe/TicTacToeOpponents.py:103-116 | the pruned minimising loop stands in that relation to the full one |
| `TicTacToeSearch.AlphaBetaIsMinimax` | TicTacToe/TicTacToeOpponents.py:78-116 | from (-1000, 1000), alpha-beta returns exactly the minimax value |
| `TicTacToeSearch.Minimax` | TicTacToe/TicTacToeOpponents.py:21-53 | returns the minimax value of the board it found, and leaves the board and the player to move as they were |
| `TicTacToeSearch.MaximizeOver` | TicTacToe/TicTacToeOpponents.py:32-42 | returns the maximising loop's value and restores the board |
| `TicTacToeSearch.MinimizeOver` | TicTacToe/TicTacToeOpponents.py:43-53 | returns the minimising loop's value and restores the board |
| `TicTacToeSearch.AlphaBeta` | TicTacToe/TicTacToeOpponents.py:78-116 | returns the alpha-beta value of the board it found and restores the board, on the pruning path too |
| `TicTacToeSearch.MaximizeOverAB` | TicTacToe/TicTacToeOpponents.py:89-102 | returns the pruned maximising loop's value and restores the board |
| `TicTacToeSearch.MinimizeOverAB` | TicTacToe/TicTacToeOpponents.py:103-116 | returns the pruned minimising loop's value and restores the board |
| `TicTacToeSearch.ScoreWithMinimax` | TicTacToe/TicTacToeOpponents.py:59-62 | the score of a blank cell, X placed, in [-10, 10]; the board is restored |
| `TicTacToeSearch.ScoreWithAlphaBeta` | TicTacToe/TicTacToeOpponents.py:124-127 | the alpha-beta score of a blank cell, equal to the minimax score; the board is restored |
| `TicTacToeSearch.TiesStep` | TicTacToe/TicTacToeOpponents.py:66-70 | the `>` / `==` update keeps `best_score` an upper bound of the scores so far and `possible_moves` the cells reaching it |
| `TicTacToeSearch.TiedIsBest` | TicTacToe/TicTacToeOpponents.py:56-74 | after all blank cells, every tied cell scores at least as much as every blank cell |
| `TicTacToeSearch.PickTied` | TicTacToe/TicTacToeOpponents.py:71-74 | `None` iff the tie list is empty, else one of its cells |
| `TicTacToeSearch.MinimaxChooseMove` | TicTacToe/TicTacToeOpponents.py:55-74 | `None` iff the board is full; otherwise a blank cell whose score is the maximum over all blank cells; the board is restored |
| `TicTacToeSearch.AlphaBetaChooseMove` | TicTacToe/TicTacToeOpponents.py:118-138 | the same, with alpha-beta scores |
| `TicTacToeDefault.FirstCompleting` | TicTacToe/TicTacToeOpponents.py:143-148 | the first listed cell from k on that gives p a line, with none before it; none iff no such cell |
| `TicTacToeDefault.CompletingMoveIsFirst` | TicTacToe/TicTacToeOpponents.py:142-158 | the probe finds the row-major-first blank cell that completes a line for p, and finds none iff no blank cell does |
| `TicTacToeDefault.CompletingFound` | TicTacToe/TicTacToeOpponents.py:142-148 | a found cell is blank, gives p a line, and no blank cell before it in row-major order does |
| `TicTacToeDefault.CompletingNone` | TicTacToe/TicTacToeOpponents.py:142-148 | when the probe finds nothing, no blank cell gives p a line |
| `TicTacToeDefault.ProbeFor` | TicTacToe/TicTacToeOpponents.py:143-149 | the probe loop returns that cell and leaves the board and player as they were |
| `TicTacToeDefault.GetWinningMove` | TicTacToe/TicTacToeOpponents.py:142-149 | the completing cell for the side to move; the board is unchanged |
| `TicTacToeDefault.GetBlockingMove` | TicTacToe/TicTacToeOpponents.py:151-158 | the completing cell for the other side; the board is unchanged |
| `TicTacToeDefault.DefaultChooseMove` | TicTacToe/TicTacToeOpponents.py:160-172 | the win, else the block, else the first blank cell, else `None`; `None` iff the board is full; the answer is a blank cell; the board is unchanged |
| `TicTacToeQLearning.RowText` | TicTacToe/TicTacToeOpponents.py:186 | a row's text is 15 characters with cell c at position 2 + 5c |
| `TicTacToeQLearning.GetState` | TicTacToe/TicTacToeOpponents.py:185-186 | the state text is 51 characters |
| `TicTacToeQLearning.GetStateAt` | TicTacToe/TicTacToeOpponents.py:185-186 | cell (r, c) is character 3 + 17r + 5c of the state text |
| `TicTacToeQLearning.GetStateInjective` | TicTacToe/TicTacToeOpponents.py:185-186 | two boards have the same state text iff they are equal |
| `TicTacToeQLearning.NextMax` | TicTacToe/TicTacToeOpponents.py:190-194 | 0 with no cells; otherwise the largest stored value (0 when missing) over the cells, attained by one of them |
| `TicTacToeQLearning.StepReward` | TicTacToe/TicTacToeOpponents.py:208-214 | the reward is 1, 0.5 or 0 |
| `TicTacToeQLearning.StepRewardOfMove` | TicTacToe/TicTacToeOpponents.py:208-214 | after a move on an open board: 1 iff the mover has a line, 0.5 iff it does not and the board is full, 0 iff neither |
| `TicTacToeQLearning.EpsilonClosedForm` | TicTacToe/TicTacToeOpponents.py:201 | after n episodes epsilon is max(epsilon_min, epsilon - epsilon_min * n(n-1)/400) |
| `TicTacToeQLearning.SpentStep` | TicTacToe/TicTacToeOpponents.py:201 | the running sum of iteration/200 grows by n/200 at step n |
| `TicTacToeQLearning.EpsilonSchedule` | TicTacToe/TicTacToeOpponents.py:201 | epsilon stays between epsilon_min and its start and never grows |
| `TicTacToeQLearning.QLearningOpponent.constructor` | TicTacToe/TicTacToeOpponents.py:176-183 | rate 0.1, gamma 0.95, epsilon 0.1, floor 0.01, decay 0.995; the saved table or an empty one |
| `TicTacToeQLearning.QLearningOpponent.UpdateQValue` | TicTacToe/TicTacToeOpponents.py:188-195 | only key (state, action) changes; it becomes old + rate * (r + gamma * next_max - old), with next_max over the currently blank cells, 0 if none |
| `TicTacToeQLearning.QLearningOpponent.ChooseMove` | TicTacToe/TicTacToeOpponents.py:234-242 | `None` iff the board is full; otherwise a blank cell, and when exploiting, one whose Q-value is the largest over the blank cells |
| `TicTacToeQLearning.QLearningOpponent.Train` | TicTacToe/TicTacToeOpponents.py:197-221 | after n episodes epsilon is the n-step schedule value; the episodes returned were each played and non-empty; the table is the old one after the updates of every move of every episode, in order; the last game ended, and the side to move is the one after its last mover |
| `TicTacToeQLearning.QLearningOpponent.Episode` | TicTacToe/TicTacToeOpponents.py:198-220 | one epsilon step; the moves returned form a played episode from the blank board; the table is the old one after their updates in order; the board is the one after the last move and is no longer in play; the side to move is the one after the last mover |
| `TicTacToeQLearning.QLearningOpponent.PlayTurn` | TicTacToe/TicTacToeOpponents.py:204-220 | one pass of the `while` body extends the played episode by one legal move by the side to move, applies that move's update, passes the turn and leaves one blank cell fewer |
| `TicTacToeQLearning.QLearningOpponent.LearnTurn` | TicTacToe/TicTacToeOpponents.py:216-217 | the `update_q_value` call with the state before the move, the mover's reward and the state after it is the move's `Learn` step |
| `TicTacToeQLearning.Mover` | TicTacToe/TicTacToeOpponents.py:199-220 | the side of move n is 'X' or 'O' |
| `TicTacToeQLearning.MoverNext` | TicTacToe/TicTacToeOpponents.py:220 | after move n the turn passes to the other side |
| `TicTacToeQLearning.MoverParity` | TicTacToe/TicTacToeOpponents.py:199-220 | 'X' makes the even moves of an episode and 'O' the odd ones |
| `TicTacToeQLearning.PlayedExtend` | TicTacToe/TicTacToeOpponents.py:204-220 | a move that follows a played episode extends it to a played episode |
| `TicTacToeQLearning.UpdateIsLearn` | TicTacToe/TicTacToeOpponents.py:188-195 | a table that agrees with `update_q_value`'s result on every key is the `Learn` step of the move |
| `TicTacToeQLearning.LearnAllSnoc` | TicTacToe/TicTacToeOpponents.py:204-220 | the updates of an episode one move longer are those of the shorter one, then the new move's |
| `TicTacToeQLearning.LearnKeys` | TicTacToe/TicTacToeOpponents.py:195 | one update adds the entry of the state before the move and the cell, and changes no other entry |
| `TicTacToeQLearning.LearnAllKeys` | TicTacToe/TicTacToeOpponents.py:204-220 | after an episode the table's keys are the old keys plus exactly the entries its moves wrote |
| `TicTacToeQLearning.LearnAllKeeps` | TicTacToe/TicTacToeOpponents.py:204-220 | an episode leaves every entry it did not write at its old value |
| `TicTacToeQLearning.AllPlayedExtend` | TicTacToe/TicTacToeOpponents.py:198-220 | one more played, non-empty episode keeps all episodes played |
| `TicTacToeQLearning.LearnEpisodesSnoc` | TicTacToe/TicTacToeOpponents.py:198-220 | the table after one more episode is the table after the earlier ones followed by that episode's updates |
| `TicTacToeGame.StrategyMove` | TicTacToe/TicTacToe.py:266 | every strategy leaves the game as it was and returns a blank cell, or `None` iff the board is full |
| `TicTacToeGame.PlayAiVsAiGame` | TicTacToe/TicTacToe.py:263-272 | the game ends within nine moves with "X" or "O" (that player has a line, the other does not) or "Draw" (the board is full and nobody has a line); the moves made and the blank cells left add up to nine |
| `TicTacToeBoard.EmptyBoardIsOpen` | TicTacToe/TicTacToe.py:264 | a new game has no line, is not a draw and has nine blank cells |
| `TicTacToeBoard.BlankFrom` | TicTacToe/TicTacToe.py:40 | on an all-blank board the listing from position k on has 9 - k cells |

## Left out

- The tkinter GUIs of both games: widgets, canvas drawing, clicks, message boxes, timers (`master.after`), `play`, `check_and_handle_game_end`, `ai_move`, `execute_ai_move` and the GUI methods of `TicTacToe/TicTacToe.py` other than `play_ai_vs_ai_game`. They only route input and draw.
- The connect-four `QLearningOpponent.train` episode loop and `Connect4GUI.train_ai`. They drive the GUI's `play`. Only their reward (`RewardAsWritten`, `Reward`) and epsilon step (`DecayEpsilon`) are modelled.
- `load_q_table` and `save_q_table` of both agents: pickle file I/O. A loaded table is the constructors' `saved` argument. The save at the end of tic-tac-toe `train` is not modelled.
- `start_performance_analysis`, `log_matchup_results_to_csv` and the tqdm progress bars: reporting and CSV file I/O.
- Randomness: each random choice is a nondeterministic pick from the set the source chooses from. The samples compared with epsilon are parameters.
- Floating point: Q-values, rates and epsilon are exact reals.
- `TicTacToeGame.PlayAiVsAiGame` takes each strategy as a `Strategy` value instead of a `strategies` dictionary on the `TicTacToe` object. `get_strategy` builds a fresh opponent each time; the learning strategy carries its agent.
- `TicTacToeQLearning.CharText`: Python's repr escapes a quote or backslash, and CharText does not. Boards hold only ' ', 'X' and 'O', so this never arises.
- `Connect4Search.MinimaxChooseMove`, `Connect4Search.AlphaBetaChooseMove`, `Connect4QLearning.QLearningOpponent.ChooseMove` (exploring), `TicTacToeSearch.MinimaxChooseMove`, `TicTacToeSearch.AlphaBetaChooseMove`, `TicTacToeDefault.DefaultChooseMove`, `TicTacToeQLearning.QLearningOpponent.ChooseMove`: on a full board the source raises an error (an index into an empty list, or a random choice from one); the model returns `None` there instead.
- `Connect4Heuristic.ScorePosition`: promises the board back unchanged only for an empty trial cell, which is how `evaluate_board` calls it. For an occupied cell the source leaves '-' there, and so does the model.

## Findings

| source | as written | input that shows it | evidently intended | confidence | as-written member | corrected member |
|---|---|---|---|---|---|---|
| Connect4/Connect4Opponents.py:188-196 | the reward is computed after `play` has passed the turn, so `check_win` looks for a line of the side that did not move | the agent 'O' completes four in a row on a board where 'X' has no line: the reward is 0 (or -0.5 on a full board), never 1 | reward 1 when the agent's move wins, as the comment on line 194 says | not executed | `Connect4QLearning.RewardAsWritten`, `Connect4QLearning.AgentWinNotRewarded` | `Connect4QLearning.Reward` |
