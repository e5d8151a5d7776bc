/** The `TicTacToe` class of TicTacToe/TicTacToe.py: a 3 x 3 board of
    ' ', 'X' and 'O' and the player to move.  The queries (`check_win`,
    `check_draw`, `get_empty_cells`) are comprehensions over the board and
    are functions of it here; the updates are methods of the class. */
module TicTacToeBoard {

  const Size: nat := 3
  const Blank: char := ' '

  type Board = seq<seq<char>>
  type Cell = (int, int)

  predicate WellFormed(b: Board) {
    |b| == Size && forall r :: 0 <= r < Size ==> |b[r]| == Size
  }

  predicate InBounds(cell: Cell) {
    0 <= cell.0 < Size && 0 <= cell.1 < Size
  }

  /** The position of a cell in row-major order. */
  function Index(cell: Cell): int {
    Size * cell.0 + cell.1
  }

  /** The cell at row-major position k. */
  function CellAt(k: int): (cell: Cell)
    requires 0 <= k < Size * Size
    ensures InBounds(cell) && Index(cell) == k
  {
    (k / Size, k % Size)
  }

  function At(b: Board, cell: Cell): char
    requires WellFormed(b) && InBounds(cell)
  {
    b[cell.0][cell.1]
  }

  /** The board of the constructor and of `reset`. */
  function EmptyBoard(): (b: Board)
    ensures WellFormed(b)
    ensures forall r, c :: 0 <= r < Size && 0 <= c < Size ==> b[r][c] == Blank
  {
    [[Blank, Blank, Blank], [Blank, Blank, Blank], [Blank, Blank, Blank]]
  }

  /** `board[row][col] = m`. */
  function Place(b: Board, cell: Cell, m: char): (b': Board)
    requires WellFormed(b) && InBounds(cell)
    ensures WellFormed(b')
    ensures At(b', cell) == m
    ensures forall other :: InBounds(other) && other != cell ==> At(b', other) == At(b, other)
  {
    b[cell.0 := b[cell.0][cell.1 := m]]
  }

  /** Writing back what a cell held gives the board back. */
  lemma PlaceUndo(b: Board, cell: Cell, m: char)
    requires WellFormed(b) && InBounds(cell)
    ensures Place(Place(b, cell, m), cell, At(b, cell)) == b
  {
    var b' := Place(Place(b, cell, m), cell, At(b, cell));
    assert b'[cell.0] == b[cell.0];
    assert forall r :: 0 <= r < Size ==> b'[r] == b[r];
  }

  // ---------------------------------------------------------------------
  // `check_win`
  // ---------------------------------------------------------------------

  /** The eight lines of the board: three rows, three columns and the two
      diagonals. */
  const Lines: seq<seq<Cell>> := [
    [(0, 0), (0, 1), (0, 2)], [(1, 0), (1, 1), (1, 2)], [(2, 0), (2, 1), (2, 2)],
    [(0, 0), (1, 0), (2, 0)], [(0, 1), (1, 1), (2, 1)], [(0, 2), (1, 2), (2, 2)],
    [(0, 0), (1, 1), (2, 2)], [(0, 2), (1, 1), (2, 0)]
  ]

  /** All three cells of line k hold p. */
  predicate LineOf(b: Board, k: int, p: char)
    requires WellFormed(b) && 0 <= k < |Lines|
  {
    At(b, Lines[k][0]) == p && At(b, Lines[k][1]) == p && At(b, Lines[k][2]) == p
  }

  /** `a == b == c == player` on three cells. */
  predicate Three(b: Board, c1: Cell, c2: Cell, c3: Cell, p: char)
    requires WellFormed(b) && InBounds(c1) && InBounds(c2) && InBounds(c3)
  {
    At(b, c1) == p && At(b, c2) == p && At(b, c3) == p
  }

  /** `check_win(player)`: the three rows (`i` in `range(3)`), the three
      columns and the two diagonals, written out. */
  function CheckWin(b: Board, player: char): bool
    requires WellFormed(b)
  {
    || Three(b, (0, 0), (0, 1), (0, 2), player)
    || Three(b, (1, 0), (1, 1), (1, 2), player)
    || Three(b, (2, 0), (2, 1), (2, 2), player)
    || Three(b, (0, 0), (1, 0), (2, 0), player)
    || Three(b, (0, 1), (1, 1), (2, 1), player)
    || Three(b, (0, 2), (1, 2), (2, 2), player)
    || Three(b, (0, 0), (1, 1), (2, 2), player)
    || Three(b, (0, 2), (1, 1), (2, 0), player)
  }

  /** `check_win` holds exactly when one of the eight lines is full of the
      player's mark. */
  lemma CheckWinIsALine(b: Board, player: char)
    requires WellFormed(b)
    ensures CheckWin(b, player) <==> exists k :: 0 <= k < |Lines| && LineOf(b, k, player)
  {
    if CheckWin(b, player) {
      if Three(b, (0, 0), (0, 1), (0, 2), player) {
        assert LineOf(b, 0, player);
      } else if Three(b, (1, 0), (1, 1), (1, 2), player) {
        assert LineOf(b, 1, player);
      } else if Three(b, (2, 0), (2, 1), (2, 2), player) {
        assert LineOf(b, 2, player);
      } else if Three(b, (0, 0), (1, 0), (2, 0), player) {
        assert LineOf(b, 3, player);
      } else if Three(b, (0, 1), (1, 1), (2, 1), player) {
        assert LineOf(b, 4, player);
      } else if Three(b, (0, 2), (1, 2), (2, 2), player) {
        assert LineOf(b, 5, player);
      } else if Three(b, (0, 0), (1, 1), (2, 2), player) {
        assert LineOf(b, 6, player);
      } else {
        assert LineOf(b, 7, player);
      }
    }
    if k :| 0 <= k < |Lines| && LineOf(b, k, player) {
      assert k == 0 || k == 1 || k == 2 || k == 3 || k == 4 || k == 5 || k == 6 || k == 7;
    }
  }

  /** A mark other than p written into a blank cell cannot give p a line. */
  lemma PlaceOtherKeepsNoWin(b: Board, cell: Cell, m: char, p: char)
    requires WellFormed(b) && InBounds(cell) && At(b, cell) == Blank && m != p && p != Blank
    requires !CheckWin(b, p)
    ensures !CheckWin(Place(b, cell, m), p)
  {
  }

  // ---------------------------------------------------------------------
  // `get_empty_cells` and `check_draw`
  // ---------------------------------------------------------------------

  /** The comprehension of `get_empty_cells` from row-major position k on. */
  function EmptyFrom(b: Board, k: nat): seq<Cell>
    requires WellFormed(b) && k <= Size * Size
    decreases Size * Size - k
  {
    if k == Size * Size then []
    else if At(b, CellAt(k)) == Blank then [CellAt(k)] + EmptyFrom(b, k + 1)
    else EmptyFrom(b, k + 1)
  }

  lemma {:induction false} EmptyFromSpec(b: Board, k: nat)
    requires WellFormed(b) && k <= Size * Size
    ensures var cells := EmptyFrom(b, k);
      && (forall i :: 0 <= i < |cells| ==> InBounds(cells[i]) && At(b, cells[i]) == Blank && k <= Index(cells[i]))
      && (forall j :: k <= j < Size * Size && At(b, CellAt(j)) == Blank ==> CellAt(j) in cells)
      && (forall i, j :: 0 <= i < j < |cells| ==> Index(cells[i]) < Index(cells[j]))
      && |cells| <= Size * Size - k
    decreases Size * Size - k
  {
    if k < Size * Size {
      EmptyFromSpec(b, k + 1);
      var rest := EmptyFrom(b, k + 1);
      if At(b, CellAt(k)) == Blank {
        var cells := [CellAt(k)] + rest;
        assert EmptyFrom(b, k) == cells;
        assert forall i :: 0 < i < |cells| ==> cells[i] == rest[i - 1];
        assert forall j :: k < j < Size * Size && At(b, CellAt(j)) == Blank ==> CellAt(j) in rest;
      } else {
        assert EmptyFrom(b, k) == rest;
      }
    }
  }

  /** `get_empty_cells`: the cells holding ' ', row by row. */
  function GetEmptyCells(b: Board): seq<Cell>
    requires WellFormed(b)
  {
    EmptyFrom(b, 0)
  }

  /** `get_empty_cells` lists every blank cell and nothing else, in
      row-major order, each once. */
  lemma GetEmptyCellsSpec(b: Board)
    requires WellFormed(b)
    ensures var cells := GetEmptyCells(b);
      && (forall i :: 0 <= i < |cells| ==> InBounds(cells[i]) && At(b, cells[i]) == Blank)
      && (forall cell :: InBounds(cell) && At(b, cell) == Blank ==> cell in cells)
      && (forall i, j :: 0 <= i < j < |cells| ==> Index(cells[i]) < Index(cells[j]))
      && |cells| <= Size * Size
  {
    EmptyFromSpec(b, 0);
    assert forall cell :: InBounds(cell) ==> CellAt(Index(cell)) == cell;
  }

  /** The cells of the list are blank cells of b. */
  predicate AllBlank(b: Board, cells: seq<Cell>)
    requires WellFormed(b)
  {
    forall i :: 0 <= i < |cells| ==> InBounds(cells[i]) && At(b, cells[i]) == Blank
  }

  /** The part of `GetEmptyCellsSpec` the searches need. */
  lemma EmptyCellsAreBlank(b: Board)
    requires WellFormed(b)
    ensures AllBlank(b, GetEmptyCells(b)) && EmptyCount(b) <= Size * Size
  {
    GetEmptyCellsSpec(b);
  }

  /** The number of blank cells, the measure every search descends on. */
  function EmptyCount(b: Board): nat
    requires WellFormed(b)
  {
    |GetEmptyCells(b)|
  }

  lemma {:induction false} PlaceShrinksFrom(b: Board, cell: Cell, m: char, k: nat)
    requires WellFormed(b) && InBounds(cell) && At(b, cell) == Blank && m != Blank && k <= Size * Size
    ensures |EmptyFrom(Place(b, cell, m), k)| == |EmptyFrom(b, k)| - (if k <= Index(cell) then 1 else 0)
    decreases Size * Size - k
  {
    if k < Size * Size {
      PlaceShrinksFrom(b, cell, m, k + 1);
      if CellAt(k) != cell {
        assert At(Place(b, cell, m), CellAt(k)) == At(b, CellAt(k));
      }
    }
  }

  /** Marking a blank cell leaves one blank cell fewer. */
  lemma PlaceShrinks(b: Board, cell: Cell, m: char)
    requires WellFormed(b) && InBounds(cell) && At(b, cell) == Blank && m != Blank
    ensures EmptyCount(Place(b, cell, m)) == EmptyCount(b) - 1
  {
    PlaceShrinksFrom(b, cell, m, 0);
  }

  /** `check_draw`: no cell is blank, whoever has won. */
  function CheckDraw(b: Board): bool
    requires WellFormed(b)
  {
    forall r, c :: 0 <= r < Size && 0 <= c < Size ==> b[r][c] != Blank
  }

  /** The board is full exactly when `get_empty_cells` is empty. */
  lemma CheckDrawIsNoEmptyCell(b: Board)
    requires WellFormed(b)
    ensures CheckDraw(b) <==> GetEmptyCells(b) == []
  {
    GetEmptyCellsSpec(b);
    if !CheckDraw(b) {
      var r, c :| 0 <= r < Size && 0 <= c < Size && b[r][c] == Blank;
      assert At(b, (r, c)) == Blank;
    }
    if GetEmptyCells(b) != [] {
      var cell := GetEmptyCells(b)[0];
      assert b[cell.0][cell.1] == Blank;
    }
  }

  /** `switch_player`'s choice: 'O' after 'X', 'X' after anything else. */
  function Other(p: char): (q: char)
    ensures q == 'X' || q == 'O'
    ensures p == 'X' || p == 'O' ==> q != p
  {
    if p == 'X' then 'O' else 'X'
  }

  /** Switching twice from 'X' or 'O' gives the same player back. */
  lemma OtherTwice(p: char)
    requires p == 'X' || p == 'O'
    ensures Other(Other(p)) == p
  {
  }

  /** A fresh game is not over: nobody has a line and all nine cells are
      blank. */
  lemma EmptyBoardIsOpen()
    ensures !CheckWin(EmptyBoard(), 'X') && !CheckWin(EmptyBoard(), 'O') && !CheckDraw(EmptyBoard())
    ensures EmptyCount(EmptyBoard()) == Size * Size
  {
    var b := EmptyBoard();
    assert At(b, (0, 0)) == Blank;
    BlankFrom(b, 0);
  }

  /** On a blank board every cell from row-major position k on is listed. */
  lemma {:induction false} BlankFrom(b: Board, k: nat)
    requires WellFormed(b) && k <= Size * Size
    requires forall r, c :: 0 <= r < Size && 0 <= c < Size ==> b[r][c] == Blank
    ensures |EmptyFrom(b, k)| == Size * Size - k
    decreases Size * Size - k
  {
    if k < Size * Size {
      BlankFrom(b, k + 1);
      assert At(b, CellAt(k)) == Blank;
    }
  }

  /** The `board` and `current_player` fields of `TicTacToe`.  The
      `strategies` field is passed to the game loop instead. */
  class TicTacToe {
    var board: Board
    var currentPlayer: char

    /** `__init__`: an all-blank board with 'X' to move. */
    constructor ()
      ensures board == EmptyBoard() && currentPlayer == 'X'
    {
      board := EmptyBoard();
      currentPlayer := 'X';
    }

    /** `is_move_valid`: the cell is blank. */
    function IsMoveValid(cell: Cell): bool
      reads this
      requires WellFormed(board) && InBounds(cell)
    {
      At(board, cell) == Blank
    }

    /** `make_move`: write `player` into the cell if it is blank and report
        whether it did; otherwise leave the board alone. */
    method MakeMove(cell: Cell, player: char) returns (ok: bool)
      requires WellFormed(board) && InBounds(cell)
      modifies this
      ensures currentPlayer == old(currentPlayer)
      ensures ok <==> At(old(board), cell) == Blank
      ensures ok ==> board == Place(old(board), cell, player)
      ensures !ok ==> board == old(board)
    {
      if IsMoveValid(cell) {
        board := Place(board, cell, player);
        return true;
      }
      return false;
    }

    /** `switch_player`. */
    method SwitchPlayer()
      modifies this
      ensures board == old(board)
      ensures currentPlayer == Other(old(currentPlayer))
    {
      currentPlayer := if currentPlayer == 'X' then 'O' else 'X';
    }

    /** `reset`: the state of a new game. */
    method Reset()
      modifies this
      ensures board == EmptyBoard() && currentPlayer == 'X'
    {
      board := EmptyBoard();
      currentPlayer := 'X';
    }
  }
}
