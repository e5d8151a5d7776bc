/** `DefaultOpponent` of Connect4/Connect4Opponents.py: win if possible,
    else block, else take the centre, else any open column. */
module Connect4Default {
  import opened Options
  import opened Connect4Board
  import opened Connect4Heuristic
  import opened Connect4Search

  /** `check_win_on_board`: scan the rows, the columns, the down-right
      diagonals and then the up-right diagonals for four of `player`.  It
      decides the same predicate as `Connect4Game.CheckWin` does for the side
      to move, although it walks the fourth direction the other way. */
  method CheckWinOnBoard(b: Board, player: char) returns (won: bool)
    requires WellFormed(b)
    ensures won == HasFour(b, player)
  {
    for row := 0 to Rows
      invariant forall r, c :: r < row ==> !LineAt(b, player, r, c, Horizontal)
    {
      for col := 0 to Cols - 3
        invariant forall r, c :: (r < row || (r == row && c < col)) ==> !LineAt(b, player, r, c, Horizontal)
      {
        if b[row][col] == player && b[row][col + 1] == player && b[row][col + 2] == player && b[row][col + 3] == player {
          assert LineAt(b, player, row, col, Horizontal);
          return true;
        }
      }
    }
    for col := 0 to Cols
      invariant forall r, c :: c < col ==> !LineAt(b, player, r, c, Vertical)
    {
      for row := 0 to Rows - 3
        invariant forall r, c :: (c < col || (c == col && r < row)) ==> !LineAt(b, player, r, c, Vertical)
      {
        if b[row][col] == player && b[row + 1][col] == player && b[row + 2][col] == player && b[row + 3][col] == player {
          assert LineAt(b, player, row, col, Vertical);
          return true;
        }
      }
    }
    for row := 0 to Rows - 3
      invariant forall r, c :: r < row ==> !LineAt(b, player, r, c, DownRight)
    {
      for col := 0 to Cols - 3
        invariant forall r, c :: (r < row || (r == row && c < col)) ==> !LineAt(b, player, r, c, DownRight)
      {
        if b[row][col] == player && b[row + 1][col + 1] == player && b[row + 2][col + 2] == player && b[row + 3][col + 3] == player {
          assert LineAt(b, player, row, col, DownRight);
          return true;
        }
      }
    }
    // The up-right run from (row, col) is the down-left run from
    // (row - 3, col + 3).
    for row := 3 to Rows
      invariant forall r, c :: r < row - 3 ==> !LineAt(b, player, r, c, DownLeft)
    {
      for col := 0 to Cols - 3
        invariant forall r, c :: (r < row - 3 || (r == row - 3 && c < col + 3)) ==> !LineAt(b, player, r, c, DownLeft)
      {
        if b[row][col] == player && b[row - 1][col + 1] == player && b[row - 2][col + 2] == player && b[row - 3][col + 3] == player {
          assert LineAt(b, player, row - 3, col + 3, DownLeft);
          return true;
        }
      }
    }
    assert forall r, c, d :: !LineAt(b, player, r, c, d) by {
      forall r, c, d
        ensures !LineAt(b, player, r, c, d)
      {
        match d
        case Horizontal =>
        case Vertical =>
        case DownRight =>
        case DownLeft =>
      }
    }
    return false;
  }

  /** For the side to move, `check_win_on_board` and `Connect4GUI.check_win`
      give the same answer on the game's board. */
  method DetectorsAgree(game: Connect4Game) returns (viaGame: bool, viaBoard: bool)
    requires WellFormed(game.board)
    ensures viaGame == viaBoard
    ensures viaGame <==> exists r, c, d :: LineAt(game.board, game.turn, r, c, d)
  {
    viaGame := game.CheckWin();
    viaBoard := CheckWinOnBoard(game.board, game.turn);
  }

  /** Dropping `player` into `col` succeeds and makes four in a row. */
  ghost predicate WinningDrop(b: Board, player: char, col: int)
    requires WellFormed(b) && 0 <= col < Cols
  {
    SimulateDrop(b, col, player).1 && HasFour(SimulateDrop(b, col, player).0, player)
  }

  /** The lowest-numbered winning column from `col` on, if any. */
  ghost function FirstWinningFrom(b: Board, player: char, col: nat): (m: Option<int>)
    requires WellFormed(b) && col <= Cols
    ensures m.Some? ==> col <= m.value < Cols && WinningDrop(b, player, m.value)
    ensures m.Some? ==> forall c :: col <= c < m.value ==> !WinningDrop(b, player, c)
    ensures m.None? ==> forall c :: col <= c < Cols ==> !WinningDrop(b, player, c)
    decreases Cols - col
  {
    if col == Cols then None
    else if WinningDrop(b, player, col) then Some(col)
    else FirstWinningFrom(b, player, col + 1)
  }

  /** `get_move`: the first column, left to right, whose simulated drop wins
      for `player`; `None` when there is none. */
  method GetMove(b: Board, player: char) returns (move: Option<int>)
    requires WellFormed(b)
    ensures move == FirstWinningFrom(b, player, 0)
  {
    for col := 0 to Cols
      invariant FirstWinningFrom(b, player, 0) == FirstWinningFrom(b, player, col)
    {
      var next := SimulateDrop(b, col, player);
      if next.1 {
        var won := CheckWinOnBoard(next.0, player);
        if won {
          return Some(col);
        }
      }
    }
    return None;
  }

  /** Python's truth test on `get_move`'s result: `None` and column 0 are
      both false. */
  predicate Truthy(m: Option<int>) {
    m.Some? && m.value != 0
  }

  /** `choose_move`: a winning column, else a blocking column, else the
      centre column when its bottom cell is empty, else a random open
      column, else `None`.  A win or block in column 0 is not taken. */
  method DefaultChooseMove(game: Connect4Game, player: char) returns (move: Option<int>)
    requires WellFormed(game.board)
    ensures var b := game.board;
      var win := FirstWinningFrom(b, player, 0);
      var block := FirstWinningFrom(b, Opponent(player), 0);
      if Truthy(win) then move == win
      else if Truthy(block) then move == block
      else if b[Rows - 1][Cols / 2] == Empty then move == Some(Cols / 2)
      else if exists c :: Open(b, c) then move.Some? && Open(b, move.value)
      else move == None
  {
    var oppPlayer := Opponent(player);
    var winningMove := GetMove(game.board, player);
    if Truthy(winningMove) {
      return winningMove;
    }
    var blockingMove := GetMove(game.board, oppPlayer);
    if Truthy(blockingMove) {
      return blockingMove;
    }
    if game.board[Rows - 1][Cols / 2] == Empty {
      return Some(Cols / 2);
    }
    move := RandomOpenColumn(game.board);
  }

  /** The fallback of `choose_move`: a random column whose top cell is
      empty, or `None` when there is none. */
  method RandomOpenColumn(b: Board) returns (move: Option<int>)
    requires WellFormed(b)
    ensures (exists c :: Open(b, c)) ==> move.Some? && Open(b, move.value)
    ensures (forall c :: !Open(b, c)) ==> move == None
  {
    var validMoves: seq<int> := [];
    for col := 0 to Cols
      invariant forall i :: 0 <= i < |validMoves| ==> Open(b, validMoves[i])
      invariant forall c :: 0 <= c < col && Open(b, c) ==> c in validMoves
    {
      if b[0][col] == Empty {
        validMoves := validMoves + [col];
      }
    }
    if validMoves != [] {
      assert validMoves[0] in validMoves;
      var pick :| pick in validMoves;
      move := Some(pick);
    } else {
      move := None;
    }
  }
}
