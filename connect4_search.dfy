/** The searching opponents of Connect4/Connect4Opponents.py:
    `simulate_drop_piece`, `MinimaxOpponent` and `AlphaBetaOpponent`.  The
    searches only build copies of the board, so they are functions; the
    `choose_move` loops are methods. */
module Connect4Search {
  import opened Options
  import opened Connect4Board
  import opened Connect4Heuristic

  /** `Opponent.depth`, the search depth set by `Opponent.__init__`. */
  function Depth(): nat { 4 }

  /** Search values: the evaluation's integers together with the
      `float('-inf')` and `float('inf')` the folds start from. */
  datatype Ext = NegInf | Fin(n: int) | PosInf

  predicate Le(a: Ext, b: Ext) {
    a.NegInf? || b.PosInf? || (a.Fin? && b.Fin? && a.n <= b.n)
  }

  predicate Lt(a: Ext, b: Ext) {
    !Le(b, a)
  }

  /** Python's `max` on two search values. */
  function MaxE(a: Ext, b: Ext): (m: Ext)
    ensures Le(a, m) && Le(b, m) && (m == a || m == b)
  {
    if Le(a, b) then b else a
  }

  /** Python's `min` on two search values. */
  function MinE(a: Ext, b: Ext): (m: Ext)
    ensures Le(m, a) && Le(m, b) && (m == a || m == b)
  {
    if Le(a, b) then a else b
  }

  /** `simulate_drop_piece`: the board with `player` in the lowest empty cell
      of `col`, and True; or, when the column has no empty cell, the board
      itself and False.  Boards are values here, so the input is never
      changed. */
  function SimulateDrop(b: Board, col: int, player: char): (res: (Board, bool))
    requires WellFormed(b) && 0 <= col < Cols
    ensures WellFormed(res.0)
    ensures res.1 <==> exists r :: 0 <= r < Rows && b[r][col] == Empty
    ensures !res.1 ==> res.0 == b
    ensures res.1 ==>
      LowestEmpty(b, col).Some? &&
      var row := LowestEmpty(b, col).value;
      && row < Rows && b[row][col] == Empty
      && (forall k :: row < k < Rows ==> b[k][col] != Empty)
      && res.0[row][col] == player
      && (forall r, c :: InBounds(r, c) && (r, c) != (row, col) ==> res.0[r][c] == b[r][c])
  {
    match LowestEmpty(b, col)
    case Some(row) => (Place(b, row, col, player), true)
    case None => (b, false)
  }

  /** A column with an empty top cell always takes a piece. */
  lemma TopEmptyIsValid(b: Board, col: int, player: char)
    requires WellFormed(b) && 0 <= col < Cols && b[0][col] == Empty
    ensures SimulateDrop(b, col, player).1
  {
    assert b[0][col] == Empty;
  }

  // ---------------------------------------------------------------------
  // `MinimaxOpponent.minimax`
  // ---------------------------------------------------------------------

  /** `minimax`.  `over` is `game.check_win() or game.is_full()`: the test
      looks at the live game, not at `b`, so it is the same at every node of
      the search.  The maximiser always drops 'O' and the minimiser 'X',
      whoever `player` is; leaves are `evaluate_board(b, player)`. */
  function Minimax(over: bool, b: Board, depth: nat, player: char, maximizing: bool): Ext
    requires WellFormed(b)
    decreases depth, 1
  {
    if depth == 0 || over then Fin(BoardScore(b, player))
    else if maximizing then MaxFold(over, b, depth, player, 0, NegInf)
    else MinFold(over, b, depth, player, 0, PosInf)
  }

  /** The `for col` loop of the maximising branch from column `col` on, with
      `maxEval` equal to `acc`. */
  function MaxFold(over: bool, b: Board, depth: nat, player: char, col: nat, acc: Ext): Ext
    requires WellFormed(b) && depth > 0 && col <= Cols
    decreases depth, 0, Cols - col
  {
    if col == Cols then acc
    else
      var next := SimulateDrop(b, col, 'O');
      if next.1 then MaxFold(over, b, depth, player, col + 1, MaxE(acc, Minimax(over, next.0, depth - 1, player, false)))
      else MaxFold(over, b, depth, player, col + 1, acc)
  }

  /** The `for col` loop of the minimising branch from column `col` on, with
      `minEval` equal to `acc`. */
  function MinFold(over: bool, b: Board, depth: nat, player: char, col: nat, acc: Ext): Ext
    requires WellFormed(b) && depth > 0 && col <= Cols
    decreases depth, 0, Cols - col
  {
    if col == Cols then acc
    else
      var next := SimulateDrop(b, col, 'X');
      if next.1 then MinFold(over, b, depth, player, col + 1, MinE(acc, Minimax(over, next.0, depth - 1, player, true)))
      else MinFold(over, b, depth, player, col + 1, acc)
  }

  /** The maximising fold is at least its accumulator and at least the value
      of every child from `col` on. */
  lemma {:induction false} MaxFoldIsUpperBound(over: bool, b: Board, depth: nat, player: char, col: nat, acc: Ext)
    requires WellFormed(b) && depth > 0 && col <= Cols
    ensures Le(acc, MaxFold(over, b, depth, player, col, acc))
    ensures forall c :: col <= c < Cols && SimulateDrop(b, c, 'O').1 ==>
      Le(Minimax(over, SimulateDrop(b, c, 'O').0, depth - 1, player, false), MaxFold(over, b, depth, player, col, acc))
    decreases Cols - col
  {
    if col < Cols {
      var next := SimulateDrop(b, col, 'O');
      if next.1 {
        MaxFoldIsUpperBound(over, b, depth, player, col + 1, MaxE(acc, Minimax(over, next.0, depth - 1, player, false)));
      } else {
        MaxFoldIsUpperBound(over, b, depth, player, col + 1, acc);
      }
    }
  }

  /** The maximum is attained: the fold ends at its accumulator or at the
      value of a column from `col` on that takes a piece. */
  lemma {:induction false} MaxFoldAttained(over: bool, b: Board, depth: nat, player: char, col: nat, acc: Ext)
    requires WellFormed(b) && depth > 0 && col <= Cols
    ensures MaxFold(over, b, depth, player, col, acc) == acc ||
      exists c :: col <= c < Cols && SimulateDrop(b, c, 'O').1 &&
        MaxFold(over, b, depth, player, col, acc) == Minimax(over, SimulateDrop(b, c, 'O').0, depth - 1, player, false)
    decreases Cols - col
  {
    if col < Cols {
      var next := SimulateDrop(b, col, 'O');
      if next.1 {
        MaxFoldAttained(over, b, depth, player, col + 1, MaxE(acc, Minimax(over, next.0, depth - 1, player, false)));
      } else {
        MaxFoldAttained(over, b, depth, player, col + 1, acc);
      }
    }
  }

  /** The minimising fold is at most its accumulator and at most the value
      of every child from `col` on. */
  lemma {:induction false} MinFoldIsLowerBound(over: bool, b: Board, depth: nat, player: char, col: nat, acc: Ext)
    requires WellFormed(b) && depth > 0 && col <= Cols
    ensures Le(MinFold(over, b, depth, player, col, acc), acc)
    ensures forall c :: col <= c < Cols && SimulateDrop(b, c, 'X').1 ==>
      Le(MinFold(over, b, depth, player, col, acc), Minimax(over, SimulateDrop(b, c, 'X').0, depth - 1, player, true))
    decreases Cols - col
  {
    if col < Cols {
      var next := SimulateDrop(b, col, 'X');
      if next.1 {
        MinFoldIsLowerBound(over, b, depth, player, col + 1, MinE(acc, Minimax(over, next.0, depth - 1, player, true)));
      } else {
        MinFoldIsLowerBound(over, b, depth, player, col + 1, acc);
      }
    }
  }

  /** The minimum is attained: the fold ends at its accumulator or at the
      value of a column from `col` on that takes a piece. */
  lemma {:induction false} MinFoldAttained(over: bool, b: Board, depth: nat, player: char, col: nat, acc: Ext)
    requires WellFormed(b) && depth > 0 && col <= Cols
    ensures MinFold(over, b, depth, player, col, acc) == acc ||
      exists c :: col <= c < Cols && SimulateDrop(b, c, 'X').1 &&
        MinFold(over, b, depth, player, col, acc) == Minimax(over, SimulateDrop(b, c, 'X').0, depth - 1, player, true)
    decreases Cols - col
  {
    if col < Cols {
      var next := SimulateDrop(b, col, 'X');
      if next.1 {
        MinFoldAttained(over, b, depth, player, col + 1, MinE(acc, Minimax(over, next.0, depth - 1, player, true)));
      } else {
        MinFoldAttained(over, b, depth, player, col + 1, acc);
      }
    }
  }

  // ---------------------------------------------------------------------
  // `AlphaBetaOpponent.minimax_with_alpha_beta`
  // ---------------------------------------------------------------------

  /** `minimax_with_alpha_beta`: `minimax` with the window (alpha, beta);
      a branch stops looking at further columns once beta <= alpha. */
  function AlphaBeta(over: bool, b: Board, depth: nat, alpha: Ext, beta: Ext, player: char, maximizing: bool): Ext
    requires WellFormed(b)
    decreases depth, 1
  {
    if depth == 0 || over then Fin(BoardScore(b, player))
    else if maximizing then MaxFoldAB(over, b, depth, alpha, beta, player, 0, NegInf)
    else MinFoldAB(over, b, depth, alpha, beta, player, 0, PosInf)
  }

  /** The maximising loop from column `col` on, with the current `alpha` and
      `maxEval` equal to `acc`. */
  function MaxFoldAB(over: bool, b: Board, depth: nat, alpha: Ext, beta: Ext, player: char, col: nat, acc: Ext): Ext
    requires WellFormed(b) && depth > 0 && col <= Cols
    decreases depth, 0, Cols - col
  {
    if col == Cols then acc
    else
      var next := SimulateDrop(b, col, 'O');
      if !next.1 then MaxFoldAB(over, b, depth, alpha, beta, player, col + 1, acc)
      else
        var e := AlphaBeta(over, next.0, depth - 1, alpha, beta, player, false);
        var acc' := MaxE(acc, e);
        var alpha' := MaxE(alpha, e);
        if Le(beta, alpha') then acc'
        else MaxFoldAB(over, b, depth, alpha', beta, player, col + 1, acc')
  }

  /** The minimising loop from column `col` on, with the current `beta` and
      `minEval` equal to `acc`. */
  function MinFoldAB(over: bool, b: Board, depth: nat, alpha: Ext, beta: Ext, player: char, col: nat, acc: Ext): Ext
    requires WellFormed(b) && depth > 0 && col <= Cols
    decreases depth, 0, Cols - col
  {
    if col == Cols then acc
    else
      var next := SimulateDrop(b, col, 'X');
      if !next.1 then MinFoldAB(over, b, depth, alpha, beta, player, col + 1, acc)
      else
        var e := AlphaBeta(over, next.0, depth - 1, alpha, beta, player, true);
        var acc' := MinE(acc, e);
        var beta' := MinE(beta, e);
        if Le(beta', alpha) then acc'
        else MinFoldAB(over, b, depth, alpha, beta', player, col + 1, acc')
  }

  /** What a fail-soft alpha-beta value v says about the minimax value m
      under the window (alpha, beta): below the window v bounds m from
      above, inside it v is exact, above it v bounds m from below. */
  predicate Bounds(v: Ext, m: Ext, alpha: Ext, beta: Ext) {
    && (Le(v, alpha) ==> Le(m, v))
    && (Lt(alpha, v) && Lt(v, beta) ==> v == m)
    && (Le(beta, v) ==> Le(v, m))
  }

  /** One visited column of the maximising loop keeps the bound. */
  lemma MaxStep(accAB: Ext, accMM: Ext, e: Ext, m: Ext, alpha0: Ext, alpha: Ext, beta: Ext)
    requires Lt(alpha0, beta) && alpha == MaxE(alpha0, accAB) && Lt(alpha, beta)
    requires Bounds(accAB, accMM, alpha0, beta) && Bounds(e, m, alpha, beta)
    ensures Bounds(MaxE(accAB, e), MaxE(accMM, m), alpha0, beta)
  {
  }

  /** One visited column of the minimising loop keeps the bound. */
  lemma MinStep(accAB: Ext, accMM: Ext, e: Ext, m: Ext, alpha: Ext, beta0: Ext, beta: Ext)
    requires Lt(alpha, beta0) && beta == MinE(beta0, accAB) && Lt(alpha, beta)
    requires Bounds(accAB, accMM, alpha, beta0) && Bounds(e, m, alpha, beta)
    ensures Bounds(MinE(accAB, e), MinE(accMM, m), alpha, beta0)
  {
  }

  /** Alpha-beta under any non-empty window bounds minimax in the sense of
      `Bounds`. */
  lemma {:induction false} AlphaBetaBounds(over: bool, b: Board, depth: nat, alpha: Ext, beta: Ext, player: char, maximizing: bool)
    requires WellFormed(b) && Lt(alpha, beta)
    ensures Bounds(AlphaBeta(over, b, depth, alpha, beta, player, maximizing), Minimax(over, b, depth, player, maximizing), alpha, beta)
    decreases depth, 1
  {
    if depth == 0 || over {
    } else if maximizing {
      MaxFoldBounds(over, b, depth, alpha, alpha, beta, player, 0, NegInf, NegInf);
    } else {
      MinFoldBounds(over, b, depth, alpha, beta, beta, player, 0, PosInf, PosInf);
    }
  }

  lemma {:induction false} MaxFoldBounds(over: bool, b: Board, depth: nat, alpha0: Ext, alpha: Ext, beta: Ext, player: char,
                                         col: nat, accAB: Ext, accMM: Ext)
    requires WellFormed(b) && depth > 0 && col <= Cols
    requires Lt(alpha0, beta) && alpha == MaxE(alpha0, accAB) && Lt(alpha, beta)
    requires Bounds(accAB, accMM, alpha0, beta)
    ensures Bounds(MaxFoldAB(over, b, depth, alpha, beta, player, col, accAB), MaxFold(over, b, depth, player, col, accMM), alpha0, beta)
    decreases depth, 0, Cols - col
  {
    if col < Cols {
      var next := SimulateDrop(b, col, 'O');
      if !next.1 {
        MaxFoldBounds(over, b, depth, alpha0, alpha, beta, player, col + 1, accAB, accMM);
      } else {
        var e := AlphaBeta(over, next.0, depth - 1, alpha, beta, player, false);
        var m := Minimax(over, next.0, depth - 1, player, false);
        AlphaBetaBounds(over, next.0, depth - 1, alpha, beta, player, false);
        MaxStep(accAB, accMM, e, m, alpha0, alpha, beta);
        var acc' := MaxE(accAB, e);
        var alpha' := MaxE(alpha, e);
        assert alpha' == MaxE(alpha0, acc');
        if Le(beta, alpha') {
          MaxFoldIsUpperBound(over, b, depth, player, col + 1, MaxE(accMM, m));
        } else {
          MaxFoldBounds(over, b, depth, alpha0, alpha', beta, player, col + 1, acc', MaxE(accMM, m));
        }
      }
    }
  }

  lemma {:induction false} MinFoldBounds(over: bool, b: Board, depth: nat, alpha: Ext, beta0: Ext, beta: Ext, player: char,
                                         col: nat, accAB: Ext, accMM: Ext)
    requires WellFormed(b) && depth > 0 && col <= Cols
    requires Lt(alpha, beta0) && beta == MinE(beta0, accAB) && Lt(alpha, beta)
    requires Bounds(accAB, accMM, alpha, beta0)
    ensures Bounds(MinFoldAB(over, b, depth, alpha, beta, player, col, accAB), MinFold(over, b, depth, player, col, accMM), alpha, beta0)
    decreases depth, 0, Cols - col
  {
    if col < Cols {
      var next := SimulateDrop(b, col, 'X');
      if !next.1 {
        MinFoldBounds(over, b, depth, alpha, beta0, beta, player, col + 1, accAB, accMM);
      } else {
        var e := AlphaBeta(over, next.0, depth - 1, alpha, beta, player, true);
        var m := Minimax(over, next.0, depth - 1, player, true);
        AlphaBetaBounds(over, next.0, depth - 1, alpha, beta, player, true);
        MinStep(accAB, accMM, e, m, alpha, beta0, beta);
        var acc' := MinE(accAB, e);
        var beta' := MinE(beta, e);
        assert beta' == MinE(beta0, acc');
        if Le(beta', alpha) {
          MinFoldIsLowerBound(over, b, depth, player, col + 1, MinE(accMM, m));
        } else {
          MinFoldBounds(over, b, depth, alpha, beta0, beta', player, col + 1, acc', MinE(accMM, m));
        }
      }
    }
  }

  /** Started with the window (-inf, +inf), as `choose_move` starts it,
      alpha-beta returns exactly the minimax value. */
  lemma AlphaBetaIsMinimax(over: bool, b: Board, depth: nat, player: char, maximizing: bool)
    requires WellFormed(b)
    ensures AlphaBeta(over, b, depth, NegInf, PosInf, player, maximizing) == Minimax(over, b, depth, player, maximizing)
  {
    AlphaBetaBounds(over, b, depth, NegInf, PosInf, player, maximizing);
  }

  // ---------------------------------------------------------------------
  // The two `choose_move`s
  // ---------------------------------------------------------------------

  /** `game.check_win() or game.is_full()` on the live game. */
  ghost predicate GameOver(b: Board, turn: char)
    requires WellFormed(b)
  {
    HasFour(b, turn) || IsFull(b)
  }

  /** The columns `choose_move` considers: top cell empty. */
  predicate Open(b: Board, col: int)
    requires WellFormed(b)
  {
    0 <= col < Cols && b[0][col] == Empty
  }

  /** The score `MinimaxOpponent.choose_move` gives column `col`: the piece
      of `player` dropped, then `minimax` at full depth, maximising exactly
      when `player` is 'O'. */
  function MinimaxRootScore(over: bool, b: Board, col: int, player: char): Ext
    requires WellFormed(b) && 0 <= col < Cols
  {
    Minimax(over, SimulateDrop(b, col, player).0, Depth(), player, player == 'O')
  }

  /** The score `AlphaBetaOpponent.choose_move` gives column `col`. */
  function AlphaBetaRootScore(over: bool, b: Board, col: int, player: char): Ext
    requires WellFormed(b) && 0 <= col < Cols
  {
    AlphaBeta(over, SimulateDrop(b, col, player).0, Depth(), NegInf, PosInf, player, player == 'O')
  }

  /** Both openers score every column alike. */
  lemma RootScoresAgree(over: bool, b: Board, col: int, player: char)
    requires WellFormed(b) && 0 <= col < Cols
    ensures AlphaBetaRootScore(over, b, col, player) == MinimaxRootScore(over, b, col, player)
  {
    AlphaBetaIsMinimax(over, SimulateDrop(b, col, player).0, Depth(), player, player == 'O');
  }

  /** The bookkeeping of both `choose_move` loops after columns 0 .. col-1:
      `bestScore` bounds the score of every open column so far (-inf before
      the first), and `possible_moves` holds exactly open columns reaching
      it, non-empty once an open column has been seen. */
  ghost predicate Ties(b: Board, score: int -> Ext, col: int, bestScore: Ext, possibleMoves: seq<int>)
    requires WellFormed(b)
  {
    && 0 <= col <= Cols
    && (forall c :: 0 <= c < col && Open(b, c) ==> Le(score(c), bestScore))
    && (forall i :: 0 <= i < |possibleMoves| ==>
          0 <= possibleMoves[i] < col && Open(b, possibleMoves[i]) && score(possibleMoves[i]) == bestScore)
    && (forall c :: 0 <= c < col && Open(b, c) ==> possibleMoves != [])
    && (possibleMoves == [] ==> bestScore == NegInf)
  }

  /** One column of the loop keeps the bookkeeping: an open column scored
      above, at or below the best so far, or a full column skipped. */
  lemma TiesStep(b: Board, score: int -> Ext, col: int, bestScore: Ext, possibleMoves: seq<int>, s: Ext)
    requires WellFormed(b) && Ties(b, score, col, bestScore, possibleMoves) && col < Cols
    requires Open(b, col) && s == score(col)
    ensures Lt(bestScore, s) ==> Ties(b, score, col + 1, s, [col])
    ensures s == bestScore ==> Ties(b, score, col + 1, bestScore, possibleMoves + [col])
    ensures !Lt(bestScore, s) && s != bestScore ==> Ties(b, score, col + 1, bestScore, possibleMoves)
  {
  }

  /** After all seven columns, a tied column scores at least as much as
      every open column. */
  lemma TiedIsBest(b: Board, score: int -> Ext, bestScore: Ext, possibleMoves: seq<int>, i: int)
    requires WellFormed(b) && Ties(b, score, Cols, bestScore, possibleMoves) && 0 <= i < |possibleMoves|
    ensures forall c :: Open(b, c) ==> Le(score(c), score(possibleMoves[i]))
  {
  }

  /** `MinimaxRootScore` of every column, -inf off the board. */
  function MinimaxScores(over: bool, b: Board, player: char): int -> Ext
    requires WellFormed(b)
  {
    c => if 0 <= c < Cols then MinimaxRootScore(over, b, c, player) else NegInf
  }

  /** `AlphaBetaRootScore` of every column, -inf off the board. */
  function AlphaBetaScores(over: bool, b: Board, player: char): int -> Ext
    requires WellFormed(b)
  {
    c => if 0 <= c < Cols then AlphaBetaRootScore(over, b, c, player) else NegInf
  }

  /** The ending of both `choose_move`s: a random member of the tie when
      there are several, the only one when there is one, and `None` where
      the source would index an empty list.  The column picked is open and
      scores at least as much as every open column. */
  method PickTied(ghost b: Board, ghost score: int -> Ext, ghost bestScore: Ext, possibleMoves: seq<int>) returns (move: Option<int>)
    requires WellFormed(b) && Ties(b, score, Cols, bestScore, possibleMoves)
    ensures move.None? <==> forall c :: 0 <= c < Cols ==> !Open(b, c)
    ensures move.Some? ==> Open(b, move.value)
    ensures move.Some? ==> forall c :: Open(b, c) ==> Le(score(c), score(move.value))
  {
    if |possibleMoves| > 1 {
      assert possibleMoves[0] in possibleMoves;
      var pick :| pick in possibleMoves;
      move := Some(pick);
    } else if |possibleMoves| == 1 {
      move := Some(possibleMoves[0]);
    } else {
      move := None;
    }
    if move.Some? {
      ghost var i :| 0 <= i < |possibleMoves| && possibleMoves[i] == move.value;
      TiedIsBest(b, score, bestScore, possibleMoves, i);
    }
  }

  /** `MinimaxOpponent.choose_move`: score every open column, keep the
      columns tied for the best score and pick one of them (the random
      choice is any member of the tie).  With no open column the source
      indexes an empty list; that is the `None` here. */
  method MinimaxChooseMove(game: Connect4Game, player: char) returns (move: Option<int>)
    requires WellFormed(game.board)
    ensures move.None? <==> forall c :: 0 <= c < Cols ==> !Open(game.board, c)
    ensures move.Some? ==> Open(game.board, move.value)
    ensures move.Some? ==> forall c :: Open(game.board, c) ==>
      Le(MinimaxRootScore(GameOver(game.board, game.turn), game.board, c, player),
         MinimaxRootScore(GameOver(game.board, game.turn), game.board, move.value, player))
  {
    var won := game.CheckWin();
    var over := won || IsFull(game.board);
    var bestScore, possibleMoves := MinimaxTies(over, game.board, player, MinimaxScores(over, game.board, player));
    move := PickTied(game.board, MinimaxScores(over, game.board, player), bestScore, possibleMoves);
  }

  /** The scoring loop of `MinimaxChooseMove`: every open column is scored.
      `score` names the score of each column. */
  method MinimaxTies(over: bool, b: Board, player: char, ghost score: int -> Ext) returns (bestScore: Ext, possibleMoves: seq<int>)
    requires WellFormed(b)
    requires forall c {:trigger MinimaxRootScore(over, b, c, player)} :: 0 <= c < Cols ==> score(c) == MinimaxRootScore(over, b, c, player)
    ensures Ties(b, score, Cols, bestScore, possibleMoves)
  {
    bestScore := NegInf;
    possibleMoves := [];
    for col := 0 to Cols
      invariant Ties(b, score, col, bestScore, possibleMoves)
    {
      if b[0][col] == Empty {
        var next := SimulateDrop(b, col, player);
        TopEmptyIsValid(b, col, player);
        if next.1 {
          var s := MinimaxRootScore(over, b, col, player);
          TiesStep(b, score, col, bestScore, possibleMoves, s);
          if Lt(bestScore, s) {
            bestScore := s;
            possibleMoves := [col];
          } else if s == bestScore {
            possibleMoves := possibleMoves + [col];
          }
        }
      }
    }
  }

  /** `AlphaBetaOpponent.choose_move`: as `MinimaxChooseMove`, scoring with
      alpha-beta from (-inf, +inf).  By `RootScoresAgree` the column it
      picks is also a best column by plain minimax. */
  method AlphaBetaChooseMove(game: Connect4Game, player: char) returns (move: Option<int>)
    requires WellFormed(game.board)
    ensures move.None? <==> forall c :: 0 <= c < Cols ==> !Open(game.board, c)
    ensures move.Some? ==> Open(game.board, move.value)
    ensures move.Some? ==> forall c :: Open(game.board, c) ==>
      Le(AlphaBetaRootScore(GameOver(game.board, game.turn), game.board, c, player),
         AlphaBetaRootScore(GameOver(game.board, game.turn), game.board, move.value, player))
  {
    var won := game.CheckWin();
    var over := won || IsFull(game.board);
    var bestScore, possibleMoves := AlphaBetaTies(over, game.board, player, AlphaBetaScores(over, game.board, player));
    move := PickTied(game.board, AlphaBetaScores(over, game.board, player), bestScore, possibleMoves);
  }

  /** The scoring loop of `AlphaBetaChooseMove`: every open column is scored.
      `score` names the score of each column. */
  method AlphaBetaTies(over: bool, b: Board, player: char, ghost score: int -> Ext) returns (bestScore: Ext, possibleMoves: seq<int>)
    requires WellFormed(b)
    requires forall c {:trigger AlphaBetaRootScore(over, b, c, player)} :: 0 <= c < Cols ==> score(c) == AlphaBetaRootScore(over, b, c, player)
    ensures Ties(b, score, Cols, bestScore, possibleMoves)
  {
    bestScore := NegInf;
    possibleMoves := [];
    for col := 0 to Cols
      invariant Ties(b, score, col, bestScore, possibleMoves)
    {
      if b[0][col] == Empty {
        var next := SimulateDrop(b, col, player);
        TopEmptyIsValid(b, col, player);
        if next.1 {
          var s := AlphaBetaRootScore(over, b, col, player);
          TiesStep(b, score, col, bestScore, possibleMoves, s);
          if Lt(bestScore, s) {
            bestScore := s;
            possibleMoves := [col];
          } else if s == bestScore {
            possibleMoves := possibleMoves + [col];
          }
        }
      }
    }
  }
}
