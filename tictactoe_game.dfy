/** `GUI.play_ai_vs_ai_game` of TicTacToe/TicTacToe.py: two computer
    players take turns on a fresh game until one of them completes a line
    or the board fills up. */
module TicTacToeGame {
  import opened Options
  import opened TicTacToeBoard
  import opened TicTacToeSearch
  import opened TicTacToeDefault
  import opened TicTacToeQLearning

  /** The opponents the game can be given, as `get_strategy` builds them. */
  datatype Strategy =
    | MinimaxPlayer
    | AlphaBetaPlayer
    | RuleBasedPlayer
    | LearningPlayer(agent: QLearningOpponent)

  /** `strategy.choose_move(game)`.  `draw` is the random sample the
      learning agent uses.  Every strategy leaves the board as it found it
      and answers with a blank cell, or `None` on a full board. */
  method StrategyMove(strategy: Strategy, game: TicTacToe, draw: real) returns (move: Option<Cell>)
    requires WellFormed(game.board)
    modifies game
    ensures game.board == old(game.board) && game.currentPlayer == old(game.currentPlayer)
    ensures move.None? <==> GetEmptyCells(game.board) == []
    ensures move.Some? ==> InBounds(move.value) && At(game.board, move.value) == Blank
  {
    match strategy
    case MinimaxPlayer =>
      move := MinimaxChooseMove(game);
    case AlphaBetaPlayer =>
      move := AlphaBetaChooseMove(game);
    case RuleBasedPlayer =>
      move := DefaultChooseMove(game);
    case LearningPlayer(agent) =>
      move := agent.ChooseMove(game, draw);
  }

  /** `play_ai_vs_ai_game`: X's strategy moves first, then the players
      alternate.  The result is the mover's mark as soon as the mover has a
      line, or "Draw" once the board is full without one; the game ends
      within nine moves.  `draws(ply)` are the random samples of each move,
      and `finalBoard` is the board the game ends on. */
  method PlayAiVsAiGame(xStrategy: Strategy, oStrategy: Strategy, draws: nat -> real)
    returns (outcome: string, ghost finalBoard: Board, ghost plies: nat)
    ensures outcome == "X" || outcome == "O" || outcome == "Draw"
    ensures WellFormed(finalBoard) && 1 <= plies <= Size * Size
    ensures plies + EmptyCount(finalBoard) == Size * Size
    ensures outcome == "X" ==> CheckWin(finalBoard, 'X') && !CheckWin(finalBoard, 'O')
    ensures outcome == "O" ==> CheckWin(finalBoard, 'O') && !CheckWin(finalBoard, 'X')
    ensures outcome == "Draw" ==> CheckDraw(finalBoard) && !CheckWin(finalBoard, 'X') && !CheckWin(finalBoard, 'O')
  {
    var game := new TicTacToe();
    EmptyBoardIsOpen();
    var ply: nat := 0;
    while true
      invariant fresh(game)
      invariant WellFormed(game.board) && (game.currentPlayer == 'X' || game.currentPlayer == 'O')
      invariant !CheckWin(game.board, 'X') && !CheckWin(game.board, 'O') && !CheckDraw(game.board)
      invariant ply + EmptyCount(game.board) == Size * Size
      decreases EmptyCount(game.board)
    {
      CheckDrawIsNoEmptyCell(game.board);
      var strategy := if game.currentPlayer == 'X' then xStrategy else oStrategy;
      var move := StrategyMove(strategy, game, draws(ply));
      var mover := game.currentPlayer;
      ghost var before := game.board;
      PlaceShrinks(before, move.value, mover);
      PlaceOtherKeepsNoWin(before, move.value, mover, Other(mover));
      var ok := game.MakeMove(move.value, mover);
      ply := ply + 1;
      if CheckWin(game.board, mover) {
        return [mover], game.board, ply;
      } else if CheckDraw(game.board) {
        return "Draw", game.board, ply;
      }
      game.SwitchPlayer();
    }
  }
}
