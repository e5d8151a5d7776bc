/** `MinimaxOpponent` and `MinimaxWithAlphaBetaOpponent` of
    TicTacToe/TicTacToeOpponents.py.  The searches write a mark into
    `game.board`, recurse and write the blank back; they are methods on the
    game, each proved to compute a value function of the board it found and
    to leave that board as it was. */
module TicTacToeSearch {
  import opened Options
  import opened TicTacToeBoard

  /** `Opponent.evaluate`: 10 when X has a line, otherwise -10 when O has
      one, otherwise 0. */
  function Evaluate(b: Board): (score: int)
    requires WellFormed(b)
    ensures score == 10 <==> CheckWin(b, 'X')
    ensures score == -10 <==> !CheckWin(b, 'X') && CheckWin(b, 'O')
    ensures score == 0 <==> !CheckWin(b, 'X') && !CheckWin(b, 'O')
  {
    if CheckWin(b, 'X') then 10
    else if CheckWin(b, 'O') then -10
    else 0
  }

  function Max(a: int, b: int): int { if a < b then b else a }
  function Min(a: int, b: int): int { if a < b then a else b }

  // ---------------------------------------------------------------------
  // `MinimaxOpponent.minimax`
  // ---------------------------------------------------------------------

  /** What `minimax` returns: 10 - depth when X has a line, depth - 10 when
      O has one, 0 on a full board, and otherwise the best value over the
      blank cells, X maximising from -1000 and O minimising from 1000. */
  function MinimaxValue(b: Board, depth: int, isMaximizing: bool): int
    requires WellFormed(b)
    decreases EmptyCount(b), 2, 0
  {
    EmptyCellsAreBlank(b);
    var score := Evaluate(b);
    if score == 10 then score - depth
    else if score == -10 then score + depth
    else if CheckDraw(b) then 0
    else if isMaximizing then MaxOver(b, depth, GetEmptyCells(b), 0, -1000)
    else MinOver(b, depth, GetEmptyCells(b), 0, 1000)
  }

  /** The value of the board with `mark` written into a blank cell, searched
      at the given depth and turn. */
  function ChildValue(b: Board, cell: Cell, mark: char, depth: int, isMaximizing: bool): int
    requires WellFormed(b) && InBounds(cell) && At(b, cell) == Blank && mark != Blank
    decreases EmptyCount(b), 0, 0
  {
    PlaceShrinks(b, cell, mark);
    MinimaxValue(Place(b, cell, mark), depth, isMaximizing)
  }

  /** The maximising loop from the k-th blank cell on, `best` so far. */
  function MaxOver(b: Board, depth: int, cells: seq<Cell>, k: nat, best: int): int
    requires WellFormed(b) && AllBlank(b, cells) && k <= |cells|
    decreases EmptyCount(b), 1, |cells| - k
  {
    if k == |cells| then best
    else MaxOver(b, depth, cells, k + 1, Max(best, ChildValue(b, cells[k], 'X', depth + 1, false)))
  }

  /** The minimising loop from the k-th blank cell on, `best` so far. */
  function MinOver(b: Board, depth: int, cells: seq<Cell>, k: nat, best: int): int
    requires WellFormed(b) && AllBlank(b, cells) && k <= |cells|
    decreases EmptyCount(b), 1, |cells| - k
  {
    if k == |cells| then best
    else MinOver(b, depth, cells, k + 1, Min(best, ChildValue(b, cells[k], 'O', depth + 1, true)))
  }

  /** The maximising loop ends at the largest of `best` and the values of
      the cells from k on. */
  lemma {:induction false} MaxOverAtLeast(b: Board, depth: int, cells: seq<Cell>, k: nat, best: int)
    requires WellFormed(b) && AllBlank(b, cells) && k <= |cells|
    ensures best <= MaxOver(b, depth, cells, k, best)
    ensures forall i :: k <= i < |cells| ==> ChildValue(b, cells[i], 'X', depth + 1, false) <= MaxOver(b, depth, cells, k, best)
    ensures MaxOver(b, depth, cells, k, best) == best ||
      exists i :: k <= i < |cells| && MaxOver(b, depth, cells, k, best) == ChildValue(b, cells[i], 'X', depth + 1, false)
    decreases |cells| - k
  {
    if k < |cells| {
      MaxOverAtLeast(b, depth, cells, k + 1, Max(best, ChildValue(b, cells[k], 'X', depth + 1, false)));
    }
  }

  /** The minimising loop ends at the smallest of `best` and the values of
      the cells from k on. */
  lemma {:induction false} MinOverAtMost(b: Board, depth: int, cells: seq<Cell>, k: nat, best: int)
    requires WellFormed(b) && AllBlank(b, cells) && k <= |cells|
    ensures MinOver(b, depth, cells, k, best) <= best
    ensures forall i :: k <= i < |cells| ==> MinOver(b, depth, cells, k, best) <= ChildValue(b, cells[i], 'O', depth + 1, true)
    ensures MinOver(b, depth, cells, k, best) == best ||
      exists i :: k <= i < |cells| && MinOver(b, depth, cells, k, best) == ChildValue(b, cells[i], 'O', depth + 1, true)
    decreases |cells| - k
  {
    if k < |cells| {
      MinOverAtMost(b, depth, cells, k + 1, Min(best, ChildValue(b, cells[k], 'O', depth + 1, true)));
    }
  }

  /** Searched from a reachable depth (depth plus the blank cells at most
      nine), minimax lies in [-10, 10]: the -1000 and 1000 starting values
      never survive, because a board that is not full has a blank cell. */
  lemma {:induction false} MinimaxRange(b: Board, depth: int, isMaximizing: bool)
    requires WellFormed(b) && 0 <= depth && depth + EmptyCount(b) <= Size * Size
    ensures -10 <= MinimaxValue(b, depth, isMaximizing) <= 10
    decreases EmptyCount(b), 2, 0
  {
    GetEmptyCellsSpec(b);
    CheckDrawIsNoEmptyCell(b);
    var score := Evaluate(b);
    if score == 10 || score == -10 || CheckDraw(b) {
    } else if isMaximizing {
      MaxOverRange(b, depth, GetEmptyCells(b), 0, -1000);
    } else {
      MinOverRange(b, depth, GetEmptyCells(b), 0, 1000);
    }
  }

  lemma {:induction false} MaxOverRange(b: Board, depth: int, cells: seq<Cell>, k: nat, best: int)
    requires WellFormed(b) && AllBlank(b, cells) && k <= |cells|
    requires 0 <= depth && depth + EmptyCount(b) <= Size * Size
    requires (-10 <= best <= 10) || (best == -1000 && k < |cells|)
    ensures -10 <= MaxOver(b, depth, cells, k, best) <= 10
    decreases EmptyCount(b), 1, |cells| - k
  {
    if k < |cells| {
      var child := Place(b, cells[k], 'X');
      PlaceShrinks(b, cells[k], 'X');
      MinimaxRange(child, depth + 1, false);
      MaxOverRange(b, depth, cells, k + 1, Max(best, ChildValue(b, cells[k], 'X', depth + 1, false)));
    }
  }

  lemma {:induction false} MinOverRange(b: Board, depth: int, cells: seq<Cell>, k: nat, best: int)
    requires WellFormed(b) && AllBlank(b, cells) && k <= |cells|
    requires 0 <= depth && depth + EmptyCount(b) <= Size * Size
    requires (-10 <= best <= 10) || (best == 1000 && k < |cells|)
    ensures -10 <= MinOver(b, depth, cells, k, best) <= 10
    decreases EmptyCount(b), 1, |cells| - k
  {
    if k < |cells| {
      var child := Place(b, cells[k], 'O');
      PlaceShrinks(b, cells[k], 'O');
      MinimaxRange(child, depth + 1, true);
      MinOverRange(b, depth, cells, k + 1, Min(best, ChildValue(b, cells[k], 'O', depth + 1, true)));
    }
  }

  // ---------------------------------------------------------------------
  // `MinimaxWithAlphaBetaOpponent.minimax_with_alpha_beta`
  // ---------------------------------------------------------------------

  /** What `minimax_with_alpha_beta` returns: as `minimax`, except that a
      loop stops at the first cell after which beta <= alpha. */
  function AlphaBetaValue(b: Board, depth: int, isMaximizing: bool, alpha: int, beta: int): int
    requires WellFormed(b)
    decreases EmptyCount(b), 1
  {
    EmptyCellsAreBlank(b);
    var score := Evaluate(b);
    if score == 10 then score - depth
    else if score == -10 then score + depth
    else if CheckDraw(b) then 0
    else if isMaximizing then MaxOverAB(b, depth, GetEmptyCells(b), 0, alpha, beta, -1000)
    else MinOverAB(b, depth, GetEmptyCells(b), 0, alpha, beta, 1000)
  }

  /** The maximising loop: `best = max(best, value)`, then
      `alpha = max(alpha, best)`, then stop if beta <= alpha. */
  function MaxOverAB(b: Board, depth: int, cells: seq<Cell>, k: nat, alpha: int, beta: int, best: int): int
    requires WellFormed(b) && AllBlank(b, cells) && k <= |cells|
    decreases EmptyCount(b), 0, |cells| - k
  {
    if k == |cells| then best
    else
      PlaceShrinks(b, cells[k], 'X');
      var value := AlphaBetaValue(Place(b, cells[k], 'X'), depth + 1, false, alpha, beta);
      var best' := Max(best, value);
      var alpha' := Max(alpha, best');
      if beta <= alpha' then best'
      else MaxOverAB(b, depth, cells, k + 1, alpha', beta, best')
  }

  /** The minimising loop: `best = min(best, value)`, then
      `beta = min(beta, best)`, then stop if beta <= alpha. */
  function MinOverAB(b: Board, depth: int, cells: seq<Cell>, k: nat, alpha: int, beta: int, best: int): int
    requires WellFormed(b) && AllBlank(b, cells) && k <= |cells|
    decreases EmptyCount(b), 0, |cells| - k
  {
    if k == |cells| then best
    else
      PlaceShrinks(b, cells[k], 'O');
      var value := AlphaBetaValue(Place(b, cells[k], 'O'), depth + 1, true, alpha, beta);
      var best' := Min(best, value);
      var beta' := Min(beta, best');
      if beta' <= alpha then best'
      else MinOverAB(b, depth, cells, k + 1, alpha, beta', best')
  }

  /** What a fail-soft alpha-beta value v says about the minimax value m
      under the window (alpha, beta). */
  predicate Bounds(v: int, m: int, alpha: int, beta: int) {
    && (v <= alpha ==> m <= v)
    && (alpha < v < beta ==> v == m)
    && (beta <= v ==> v <= m)
  }

  lemma {:induction false} AlphaBetaBounds(b: Board, depth: int, isMaximizing: bool, alpha: int, beta: int)
    requires WellFormed(b) && -1000 <= alpha < beta <= 1000
    ensures Bounds(AlphaBetaValue(b, depth, isMaximizing, alpha, beta), MinimaxValue(b, depth, isMaximizing), alpha, beta)
    decreases EmptyCount(b), 1
  {
    GetEmptyCellsSpec(b);
    CheckDrawIsNoEmptyCell(b);
    var score := Evaluate(b);
    if score == 10 || score == -10 || CheckDraw(b) {
    } else if isMaximizing {
      MaxOverBounds(b, depth, GetEmptyCells(b), 0, alpha, alpha, beta, -1000, -1000);
    } else {
      MinOverBounds(b, depth, GetEmptyCells(b), 0, alpha, beta, beta, 1000, 1000);
    }
  }

  lemma {:induction false} MaxOverBounds(b: Board, depth: int, cells: seq<Cell>, k: nat, alpha0: int, alpha: int, beta: int,
                                         bestAB: int, bestMM: int)
    requires WellFormed(b) && AllBlank(b, cells) && k <= |cells|
    requires -1000 <= alpha0 < beta <= 1000 && alpha == Max(alpha0, bestAB) && alpha < beta
    requires Bounds(bestAB, bestMM, alpha0, beta)
    ensures Bounds(MaxOverAB(b, depth, cells, k, alpha, beta, bestAB), MaxOver(b, depth, cells, k, bestMM), alpha0, beta)
    decreases EmptyCount(b), 0, |cells| - k
  {
    if k < |cells| {
      PlaceShrinks(b, cells[k], 'X');
      var child := Place(b, cells[k], 'X');
      AlphaBetaBounds(child, depth + 1, false, alpha, beta);
      var bestAB' := Max(bestAB, AlphaBetaValue(child, depth + 1, false, alpha, beta));
      var bestMM' := Max(bestMM, ChildValue(b, cells[k], 'X', depth + 1, false));
      var alpha' := Max(alpha, bestAB');
      if beta <= alpha' {
        MaxOverAtLeast(b, depth, cells, k + 1, bestMM');
      } else {
        MaxOverBounds(b, depth, cells, k + 1, alpha0, alpha', beta, bestAB', bestMM');
      }
    }
  }

  lemma {:induction false} MinOverBounds(b: Board, depth: int, cells: seq<Cell>, k: nat, alpha: int, beta0: int, beta: int,
                                         bestAB: int, bestMM: int)
    requires WellFormed(b) && AllBlank(b, cells) && k <= |cells|
    requires -1000 <= alpha < beta0 <= 1000 && beta == Min(beta0, bestAB) && alpha < beta
    requires Bounds(bestAB, bestMM, alpha, beta0)
    ensures Bounds(MinOverAB(b, depth, cells, k, alpha, beta, bestAB), MinOver(b, depth, cells, k, bestMM), alpha, beta0)
    decreases EmptyCount(b), 0, |cells| - k
  {
    if k < |cells| {
      PlaceShrinks(b, cells[k], 'O');
      var child := Place(b, cells[k], 'O');
      AlphaBetaBounds(child, depth + 1, true, alpha, beta);
      var bestAB' := Min(bestAB, AlphaBetaValue(child, depth + 1, true, alpha, beta));
      var bestMM' := Min(bestMM, ChildValue(b, cells[k], 'O', depth + 1, true));
      var beta' := Min(beta, bestAB');
      if beta' <= alpha {
        MinOverAtMost(b, depth, cells, k + 1, bestMM');
      } else {
        MinOverBounds(b, depth, cells, k + 1, alpha, beta0, beta', bestAB', bestMM');
      }
    }
  }

  /** With the window (-1000, 1000) that `choose_move` passes, alpha-beta
      returns exactly the minimax value. */
  lemma AlphaBetaIsMinimax(b: Board, depth: int, isMaximizing: bool)
    requires WellFormed(b) && 0 <= depth && depth + EmptyCount(b) <= Size * Size
    ensures AlphaBetaValue(b, depth, isMaximizing, -1000, 1000) == MinimaxValue(b, depth, isMaximizing)
  {
    AlphaBetaBounds(b, depth, isMaximizing, -1000, 1000);
    MinimaxRange(b, depth, isMaximizing);
  }

  // ---------------------------------------------------------------------
  // The searches as the source runs them, on `game.board`
  // ---------------------------------------------------------------------

  /** `minimax`: tries each blank cell in place and writes the blank back
      after the recursive call. */
  method Minimax(game: TicTacToe, depth: int, isMaximizing: bool) returns (value: int)
    requires WellFormed(game.board)
    modifies game
    ensures game.board == old(game.board) && game.currentPlayer == old(game.currentPlayer)
    ensures value == MinimaxValue(old(game.board), depth, isMaximizing)
    decreases EmptyCount(game.board), 1
  {
    var score := Evaluate(game.board);
    if score == 10 {
      return score - depth;
    }
    if score == -10 {
      return score + depth;
    }
    if CheckDraw(game.board) {
      return 0;
    }
    CheckDrawIsNoEmptyCell(game.board);
    EmptyCellsAreBlank(game.board);
    if isMaximizing {
      value := MaximizeOver(game, depth);
    } else {
      value := MinimizeOver(game, depth);
    }
  }

  /** The `is_maximizing` branch of `minimax`: X in each blank cell. */
  method MaximizeOver(game: TicTacToe, depth: int) returns (best: int)
    requires WellFormed(game.board) && GetEmptyCells(game.board) != []
    requires AllBlank(game.board, GetEmptyCells(game.board))
    modifies game
    ensures game.board == old(game.board) && game.currentPlayer == old(game.currentPlayer)
    ensures best == MaxOver(game.board, depth, GetEmptyCells(game.board), 0, -1000)
    decreases EmptyCount(game.board), 0
  {
    ghost var b := game.board;
    best := -1000;
    var cells := GetEmptyCells(game.board);
    for k := 0 to |cells|
      invariant game.board == b && game.currentPlayer == old(game.currentPlayer)
      invariant MaxOver(b, depth, cells, k, best) == MaxOver(b, depth, cells, 0, -1000)
    {
      var cell := cells[k];
      PlaceShrinks(b, cell, 'X');
      game.board := Place(game.board, cell, 'X');
      var v := Minimax(game, depth + 1, false);
      best := Max(best, v);
      game.board := Place(game.board, cell, Blank);
      PlaceUndo(b, cell, 'X');
    }
  }

  /** The other branch of `minimax`: O in each blank cell. */
  method MinimizeOver(game: TicTacToe, depth: int) returns (best: int)
    requires WellFormed(game.board) && GetEmptyCells(game.board) != []
    requires AllBlank(game.board, GetEmptyCells(game.board))
    modifies game
    ensures game.board == old(game.board) && game.currentPlayer == old(game.currentPlayer)
    ensures best == MinOver(game.board, depth, GetEmptyCells(game.board), 0, 1000)
    decreases EmptyCount(game.board), 0
  {
    ghost var b := game.board;
    best := 1000;
    var cells := GetEmptyCells(game.board);
    for k := 0 to |cells|
      invariant game.board == b && game.currentPlayer == old(game.currentPlayer)
      invariant MinOver(b, depth, cells, k, best) == MinOver(b, depth, cells, 0, 1000)
    {
      var cell := cells[k];
      PlaceShrinks(b, cell, 'O');
      game.board := Place(game.board, cell, 'O');
      var v := Minimax(game, depth + 1, true);
      best := Min(best, v);
      game.board := Place(game.board, cell, Blank);
      PlaceUndo(b, cell, 'O');
    }
  }

  /** `minimax_with_alpha_beta`: as `Minimax`, narrowing its own copy of
      the window and leaving the loop as soon as beta <= alpha; the blank is
      written back before the test, so the board is restored on that path
      too. */
  method AlphaBeta(game: TicTacToe, depth: int, isMaximizing: bool, alpha: int, beta: int) returns (value: int)
    requires WellFormed(game.board)
    modifies game
    ensures game.board == old(game.board) && game.currentPlayer == old(game.currentPlayer)
    ensures value == AlphaBetaValue(old(game.board), depth, isMaximizing, alpha, beta)
    decreases EmptyCount(game.board), 1
  {
    var score := Evaluate(game.board);
    if score == 10 {
      return score - depth;
    }
    if score == -10 {
      return score + depth;
    }
    if CheckDraw(game.board) {
      return 0;
    }
    CheckDrawIsNoEmptyCell(game.board);
    EmptyCellsAreBlank(game.board);
    if isMaximizing {
      value := MaximizeOverAB(game, depth, alpha, beta);
    } else {
      value := MinimizeOverAB(game, depth, alpha, beta);
    }
  }

  /** The `is_maximizing` branch of `minimax_with_alpha_beta`. */
  method MaximizeOverAB(game: TicTacToe, depth: int, alpha: int, beta: int) returns (best: int)
    requires WellFormed(game.board) && GetEmptyCells(game.board) != []
    requires AllBlank(game.board, GetEmptyCells(game.board))
    modifies game
    ensures game.board == old(game.board) && game.currentPlayer == old(game.currentPlayer)
    ensures best == MaxOverAB(game.board, depth, GetEmptyCells(game.board), 0, alpha, beta, -1000)
    decreases EmptyCount(game.board), 0
  {
    ghost var b := game.board;
    best := -1000;
    var a := alpha;
    var cells := GetEmptyCells(game.board);
    var k := 0;
    while k < |cells|
      invariant 0 <= k <= |cells|
      invariant game.board == b && game.currentPlayer == old(game.currentPlayer)
      invariant MaxOverAB(b, depth, cells, k, a, beta, best) == MaxOverAB(b, depth, cells, 0, alpha, beta, -1000)
    {
      var cell := cells[k];
      PlaceShrinks(b, cell, 'X');
      game.board := Place(game.board, cell, 'X');
      var v := AlphaBeta(game, depth + 1, false, a, beta);
      game.board := Place(game.board, cell, Blank);
      PlaceUndo(b, cell, 'X');
      best := Max(best, v);
      a := Max(a, best);
      if beta <= a {
        break;
      }
      k := k + 1;
    }
  }

  /** The other branch of `minimax_with_alpha_beta`. */
  method MinimizeOverAB(game: TicTacToe, depth: int, alpha: int, beta: int) returns (best: int)
    requires WellFormed(game.board) && GetEmptyCells(game.board) != []
    requires AllBlank(game.board, GetEmptyCells(game.board))
    modifies game
    ensures game.board == old(game.board) && game.currentPlayer == old(game.currentPlayer)
    ensures best == MinOverAB(game.board, depth, GetEmptyCells(game.board), 0, alpha, beta, 1000)
    decreases EmptyCount(game.board), 0
  {
    ghost var b := game.board;
    best := 1000;
    var z := beta;
    var cells := GetEmptyCells(game.board);
    var k := 0;
    while k < |cells|
      invariant 0 <= k <= |cells|
      invariant game.board == b && game.currentPlayer == old(game.currentPlayer)
      invariant MinOverAB(b, depth, cells, k, alpha, z, best) == MinOverAB(b, depth, cells, 0, alpha, beta, 1000)
    {
      var cell := cells[k];
      PlaceShrinks(b, cell, 'O');
      game.board := Place(game.board, cell, 'O');
      var v := AlphaBeta(game, depth + 1, true, alpha, z);
      game.board := Place(game.board, cell, Blank);
      PlaceUndo(b, cell, 'O');
      best := Min(best, v);
      z := Min(z, best);
      if z <= alpha {
        break;
      }
      k := k + 1;
    }
  }

  /** The score `choose_move` gives a blank cell: X placed there, then
      `minimax` from depth 0 with O to move.  Both search opponents place
      'X', whichever side they play. */
  function RootScore(b: Board, cell: Cell): int
    requires WellFormed(b) && InBounds(cell) && At(b, cell) == Blank
  {
    ChildValue(b, cell, 'X', 0, false)
  }

  /** One pass of the `MinimaxOpponent.choose_move` loop body: X into the
      cell, `minimax(game, 0, False)`, the blank back. */
  method ScoreWithMinimax(game: TicTacToe, cell: Cell) returns (score: int)
    requires WellFormed(game.board) && InBounds(cell) && At(game.board, cell) == Blank
    modifies game
    ensures game.board == old(game.board) && game.currentPlayer == old(game.currentPlayer)
    ensures score == RootScore(game.board, cell)
    ensures -10 <= score <= 10
  {
    ghost var b := game.board;
    GetEmptyCellsSpec(b);
    game.board := Place(game.board, cell, 'X');
    PlaceShrinks(b, cell, 'X');
    MinimaxRange(game.board, 0, false);
    score := Minimax(game, 0, false);
    game.board := Place(game.board, cell, Blank);
    PlaceUndo(b, cell, 'X');
  }

  /** One pass of the `MinimaxWithAlphaBetaOpponent.choose_move` loop body:
      X into the cell, `minimax_with_alpha_beta(game, 0, False, -1000,
      1000)`, the blank back.  The score is the minimax score. */
  method ScoreWithAlphaBeta(game: TicTacToe, cell: Cell) returns (score: int)
    requires WellFormed(game.board) && InBounds(cell) && At(game.board, cell) == Blank
    modifies game
    ensures game.board == old(game.board) && game.currentPlayer == old(game.currentPlayer)
    ensures score == RootScore(game.board, cell)
    ensures -10 <= score <= 10
  {
    ghost var b := game.board;
    GetEmptyCellsSpec(b);
    game.board := Place(game.board, cell, 'X');
    PlaceShrinks(b, cell, 'X');
    AlphaBetaIsMinimax(game.board, 0, false);
    MinimaxRange(game.board, 0, false);
    score := AlphaBeta(game, 0, false, -1000, 1000);
    game.board := Place(game.board, cell, Blank);
    PlaceUndo(b, cell, 'X');
  }

  /** The bookkeeping of both `choose_move` loops after the first k cells:
      `bestScore` bounds their scores (-1000 before the first), and
      `possible_moves` holds (score, cell) for exactly the cells reaching it,
      `tied` giving each one's position in `cells`. */
  ghost predicate Ties(b: Board, cells: seq<Cell>, k: nat, bestScore: int,
                       possibleMoves: seq<(int, Cell)>, tied: seq<nat>)
    requires WellFormed(b) && AllBlank(b, cells)
  {
    && k <= |cells|
    && |tied| == |possibleMoves|
    && (forall i :: 0 <= i < k ==> RootScore(b, cells[i]) <= bestScore)
    && (forall t :: 0 <= t < |tied| ==>
          tied[t] < k && possibleMoves[t] == (bestScore, cells[tied[t]]) && RootScore(b, cells[tied[t]]) == bestScore)
    && (possibleMoves == [] <==> k == 0)
    && (k == 0 ==> bestScore == -1000)
  }

  /** One pass of the `if score > best_score ... elif score == best_score`
      update keeps the bookkeeping. */
  lemma TiesStep(b: Board, cells: seq<Cell>, k: nat, bestScore: int,
                 possibleMoves: seq<(int, Cell)>, tied: seq<nat>, score: int)
    requires WellFormed(b) && AllBlank(b, cells)
    requires Ties(b, cells, k, bestScore, possibleMoves, tied) && k < |cells|
    requires score == RootScore(b, cells[k]) && -1000 < score
    ensures score > bestScore ==>
      Ties(b, cells, k + 1, score, [(score, cells[k])], [k])
    ensures score == bestScore ==>
      Ties(b, cells, k + 1, bestScore, possibleMoves + [(score, cells[k])], tied + [k])
    ensures score < bestScore ==>
      Ties(b, cells, k + 1, bestScore, possibleMoves, tied)
  {
  }

  /** After every blank cell has been scored, a cell of the tie beats every
      blank cell. */
  lemma TiedIsBest(b: Board, cells: seq<Cell>, bestScore: int,
                   possibleMoves: seq<(int, Cell)>, tied: seq<nat>, t: nat)
    requires WellFormed(b) && cells == GetEmptyCells(b) && AllBlank(b, cells)
    requires Ties(b, cells, |cells|, bestScore, possibleMoves, tied) && t < |tied|
    ensures forall cell :: InBounds(cell) && At(b, cell) == Blank ==>
      RootScore(b, cell) <= RootScore(b, possibleMoves[t].1)
  {
    GetEmptyCellsSpec(b);
    forall cell | InBounds(cell) && At(b, cell) == Blank
      ensures RootScore(b, cell) <= RootScore(b, possibleMoves[t].1)
    {
      var i :| 0 <= i < |cells| && cells[i] == cell;
      assert RootScore(b, cells[i]) <= bestScore;
    }
  }

  /** `MinimaxOpponent.choose_move`: score every blank cell, keep those tied
      for the best score and pick one of them.  On a full board the source
      indexes an empty list; that is the `None` here. */
  method MinimaxChooseMove(game: TicTacToe) returns (move: Option<Cell>)
    requires WellFormed(game.board)
    modifies game
    ensures game.board == old(game.board) && game.currentPlayer == old(game.currentPlayer)
    ensures move.None? <==> GetEmptyCells(game.board) == []
    ensures move.Some? ==> InBounds(move.value) && At(game.board, move.value) == Blank
    ensures move.Some? ==> forall cell :: InBounds(cell) && At(game.board, cell) == Blank ==>
      RootScore(game.board, cell) <= RootScore(game.board, move.value)
  {
    ghost var b := game.board;
    var bestScore := -1000;
    var cells := GetEmptyCells(game.board);
    EmptyCellsAreBlank(game.board);
    var possibleMoves: seq<(int, Cell)> := [];
    ghost var tied: seq<nat> := [];
    for k := 0 to |cells|
      invariant game.board == b && game.currentPlayer == old(game.currentPlayer)
      invariant Ties(b, cells, k, bestScore, possibleMoves, tied)
    {
      var cell := cells[k];
      var score := ScoreWithMinimax(game, cell);
      TiesStep(b, cells, k, bestScore, possibleMoves, tied, score);
      if score > bestScore {
        bestScore := score;
        possibleMoves := [(score, cell)];
        tied := [k];
      } else if score == bestScore {
        possibleMoves := possibleMoves + [(score, cell)];
        tied := tied + [k];
      }
    }
    move := PickTied(possibleMoves);
    if move.Some? {
      ghost var t :| 0 <= t < |possibleMoves| && possibleMoves[t].1 == move.value;
      TiedIsBest(b, cells, bestScore, possibleMoves, tied, t);
    }
  }

  /** `MinimaxWithAlphaBetaOpponent.choose_move`: as `MinimaxChooseMove`,
      each cell scored by alpha-beta from (-1000, 1000).  The cell it picks
      is best by plain minimax too. */
  method AlphaBetaChooseMove(game: TicTacToe) returns (move: Option<Cell>)
    requires WellFormed(game.board)
    modifies game
    ensures game.board == old(game.board) && game.currentPlayer == old(game.currentPlayer)
    ensures move.None? <==> GetEmptyCells(game.board) == []
    ensures move.Some? ==> InBounds(move.value) && At(game.board, move.value) == Blank
    ensures move.Some? ==> forall cell :: InBounds(cell) && At(game.board, cell) == Blank ==>
      RootScore(game.board, cell) <= RootScore(game.board, move.value)
  {
    ghost var b := game.board;
    var bestScore := -1000;
    var cells := GetEmptyCells(game.board);
    EmptyCellsAreBlank(game.board);
    var possibleMoves: seq<(int, Cell)> := [];
    ghost var tied: seq<nat> := [];
    for k := 0 to |cells|
      invariant game.board == b && game.currentPlayer == old(game.currentPlayer)
      invariant Ties(b, cells, k, bestScore, possibleMoves, tied)
    {
      var cell := cells[k];
      var score := ScoreWithAlphaBeta(game, cell);
      TiesStep(b, cells, k, bestScore, possibleMoves, tied, score);
      if score > bestScore {
        bestScore := score;
        possibleMoves := [(score, cell)];
        tied := [k];
      } else if score == bestScore {
        possibleMoves := possibleMoves + [(score, cell)];
        tied := tied + [k];
      }
    }
    move := PickTied(possibleMoves);
    if move.Some? {
      ghost var t :| 0 <= t < |possibleMoves| && possibleMoves[t].1 == move.value;
      TiedIsBest(b, cells, bestScore, possibleMoves, tied, t);
    }
  }

  /** The ending of both `choose_move`s: a random member of the tie when
      there are several, the only one when there is one, and `None` where
      the source would index an empty list. */
  method PickTied(possibleMoves: seq<(int, Cell)>) returns (move: Option<Cell>)
    ensures move.None? <==> possibleMoves == []
    ensures move.Some? ==> exists t :: 0 <= t < |possibleMoves| && possibleMoves[t].1 == move.value
  {
    if |possibleMoves| > 1 {
      var moves := seq(|possibleMoves|, t requires 0 <= t < |possibleMoves| => possibleMoves[t].1);
      assert moves[0] in moves;
      var pick :| pick in moves;
      return Some(pick);
    } else if |possibleMoves| == 1 {
      return Some(possibleMoves[0].1);
    }
    return None;
  }
}
