/** `DefaultOpponent` of TicTacToe/TicTacToeOpponents.py: take a cell that
    wins, else one that stops the other side's line, else the first blank
    cell.  Each probe writes a mark into `game.board`, tests `check_win` and
    writes the blank back. */
module TicTacToeDefault {
  import opened Options
  import opened TicTacToeBoard

  /** Writing p into the cell gives p a line. */
  predicate Completes(b: Board, cell: Cell, p: char)
    requires WellFormed(b) && InBounds(cell)
  {
    CheckWin(Place(b, cell, p), p)
  }

  /** The first cell of `cells` from position k on that completes a line
      for p. */
  function FirstCompleting(b: Board, cells: seq<Cell>, k: nat, p: char): (m: Option<Cell>)
    requires WellFormed(b) && AllBlank(b, cells) && k <= |cells|
    ensures m.Some? ==> exists i :: k <= i < |cells| && cells[i] == m.value && Completes(b, m.value, p) &&
                                    (forall j :: k <= j < i ==> !Completes(b, cells[j], p))
    ensures m.None? ==> forall i :: k <= i < |cells| ==> !Completes(b, cells[i], p)
    decreases |cells| - k
  {
    if k == |cells| then None
    else if Completes(b, cells[k], p) then Some(cells[k])
    else FirstCompleting(b, cells, k + 1, p)
  }

  /** The move the probe loop over `get_empty_cells` finds for p. */
  function CompletingMove(b: Board, p: char): Option<Cell>
    requires WellFormed(b)
  {
    EmptyCellsAreBlank(b);
    FirstCompleting(b, GetEmptyCells(b), 0, p)
  }

  /** The move found is the blank cell, first in row-major order, that
      completes a line for p; there is none exactly when no blank cell
      does. */
  lemma CompletingMoveIsFirst(b: Board, p: char)
    requires WellFormed(b)
    ensures var m := CompletingMove(b, p);
      && (m.Some? ==> InBounds(m.value) && At(b, m.value) == Blank && Completes(b, m.value, p))
      && (m.Some? ==> forall cell :: InBounds(cell) && At(b, cell) == Blank && Index(cell) < Index(m.value) ==>
            !Completes(b, cell, p))
      && (m.None? <==> forall cell :: InBounds(cell) && At(b, cell) == Blank ==> !Completes(b, cell, p))
  {
    if CompletingMove(b, p).Some? {
      CompletingFound(b, p);
    } else {
      CompletingNone(b, p);
    }
  }

  /** A found move is a blank cell that completes a line, and no blank cell
      before it in row-major order does. */
  lemma CompletingFound(b: Board, p: char)
    requires WellFormed(b) && CompletingMove(b, p).Some?
    ensures var m := CompletingMove(b, p).value;
      && InBounds(m) && At(b, m) == Blank && Completes(b, m, p)
      && forall cell :: InBounds(cell) && At(b, cell) == Blank && Index(cell) < Index(m) ==> !Completes(b, cell, p)
  {
    GetEmptyCellsSpec(b);
    var cells := GetEmptyCells(b);
    var m := CompletingMove(b, p).value;
    var i :| 0 <= i < |cells| && cells[i] == m && Completes(b, m, p) &&
             (forall j :: 0 <= j < i ==> !Completes(b, cells[j], p));
    forall cell | InBounds(cell) && At(b, cell) == Blank && Index(cell) < Index(m)
      ensures !Completes(b, cell, p)
    {
      var j :| 0 <= j < |cells| && cells[j] == cell;
      EarlierInOrder(cells, i, j);
    }
  }

  /** In a list sorted by row-major position, a cell with an earlier
      position sits at an earlier index. */
  lemma EarlierInOrder(cells: seq<Cell>, i: int, j: int)
    requires forall a, b :: 0 <= a < b < |cells| ==> Index(cells[a]) < Index(cells[b])
    requires 0 <= i < |cells| && 0 <= j < |cells| && Index(cells[j]) < Index(cells[i])
    ensures j < i
  {
  }

  /** When nothing is found, no blank cell completes a line. */
  lemma CompletingNone(b: Board, p: char)
    requires WellFormed(b) && CompletingMove(b, p).None?
    ensures forall cell :: InBounds(cell) && At(b, cell) == Blank ==> !Completes(b, cell, p)
  {
    GetEmptyCellsSpec(b);
    var cells := GetEmptyCells(b);
    forall cell | InBounds(cell) && At(b, cell) == Blank
      ensures !Completes(b, cell, p)
    {
      var j :| 0 <= j < |cells| && cells[j] == cell;
    }
  }

  /** The probe loop shared by `get_winning_move` and `get_blocking_move`:
      p into each blank cell in turn, `check_win(p)`, the blank back, and
      the first cell that wins is returned. */
  method ProbeFor(game: TicTacToe, p: char) returns (move: Option<Cell>)
    requires WellFormed(game.board)
    modifies game
    ensures game.board == old(game.board) && game.currentPlayer == old(game.currentPlayer)
    ensures move == CompletingMove(game.board, p)
  {
    ghost var b := game.board;
    var cells := GetEmptyCells(game.board);
    EmptyCellsAreBlank(game.board);
    for k := 0 to |cells|
      invariant game.board == b && game.currentPlayer == old(game.currentPlayer)
      invariant FirstCompleting(b, cells, k, p) == FirstCompleting(b, cells, 0, p)
    {
      var cell := cells[k];
      game.board := Place(game.board, cell, p);
      if CheckWin(game.board, p) {
        game.board := Place(game.board, cell, Blank);
        PlaceUndo(b, cell, p);
        return Some(cell);
      }
      game.board := Place(game.board, cell, Blank);
      PlaceUndo(b, cell, p);
    }
    return None;
  }

  /** `get_winning_move`: a blank cell that gives the side to move a line. */
  method GetWinningMove(game: TicTacToe) returns (move: Option<Cell>)
    requires WellFormed(game.board)
    modifies game
    ensures game.board == old(game.board) && game.currentPlayer == old(game.currentPlayer)
    ensures move == CompletingMove(game.board, game.currentPlayer)
  {
    move := ProbeFor(game, game.currentPlayer);
  }

  /** `get_blocking_move`: a blank cell that would give the other side a
      line; the other side is 'O' when 'X' is to move and 'X' otherwise. */
  method GetBlockingMove(game: TicTacToe) returns (move: Option<Cell>)
    requires WellFormed(game.board)
    modifies game
    ensures game.board == old(game.board) && game.currentPlayer == old(game.currentPlayer)
    ensures move == CompletingMove(game.board, Other(game.currentPlayer))
  {
    var opponent := if game.currentPlayer == 'X' then 'O' else 'X';
    move := ProbeFor(game, opponent);
  }

  /** `choose_move`: the winning cell if there is one, else the blocking
      cell, else the first blank cell.  A found cell is a non-empty tuple,
      so Python's truth test accepts (0, 0) too.  On a full board the source
      indexes an empty list; that is the `None` here. */
  method DefaultChooseMove(game: TicTacToe) returns (move: Option<Cell>)
    requires WellFormed(game.board)
    modifies game
    ensures game.board == old(game.board) && game.currentPlayer == old(game.currentPlayer)
    ensures var b := game.board;
      var win := CompletingMove(b, game.currentPlayer);
      var block := CompletingMove(b, Other(game.currentPlayer));
      if win.Some? then move == win
      else if block.Some? then move == block
      else if GetEmptyCells(b) != [] then move == Some(GetEmptyCells(b)[0])
      else move.None?
    ensures move.None? <==> GetEmptyCells(game.board) == []
    ensures move.Some? ==> InBounds(move.value) && At(game.board, move.value) == Blank
  {
    CompletingMoveIsFirst(game.board, game.currentPlayer);
    CompletingMoveIsFirst(game.board, Other(game.currentPlayer));
    GetEmptyCellsSpec(game.board);
    var winningMove := GetWinningMove(game);
    if winningMove.Some? {
      return winningMove;
    }
    var blockingMove := GetBlockingMove(game);
    if blockingMove.Some? {
      return blockingMove;
    }
    var cells := GetEmptyCells(game.board);
    if cells == [] {
      return None;
    }
    return Some(cells[0]);
  }
}
