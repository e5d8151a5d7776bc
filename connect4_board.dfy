/** The connect-four board held by `Connect4GUI` (Connect4/Connect4.py): the
    grid fields `rows`, `cols`, `win_length`, `board` and `turn` and the rule
    methods that act on them.  The canvas and the widgets are not part of
    this model. */
module Connect4Board {
  import opened Options

  const Rows: nat := 6
  const Cols: nat := 7
  const WinLength: nat := 4
  /** The mark of an unoccupied cell. */
  const Empty: char := '-'

  /** `board[row][col]`, row 0 at the top. */
  type Board = seq<seq<char>>

  predicate WellFormed(b: Board) {
    |b| == Rows && forall r :: 0 <= r < Rows ==> |b[r]| == Cols
  }

  predicate InBounds(r: int, c: int) {
    0 <= r < Rows && 0 <= c < Cols
  }

  function EmptyBoard(): (b: Board)
    ensures WellFormed(b)
    ensures forall r, c :: InBounds(r, c) ==> b[r][c] == Empty
  {
    seq(Rows, _ => seq(Cols, _ => Empty))
  }

  /** The board with cell (r, c) set to m. */
  function Place(b: Board, r: int, c: int, m: char): (b': Board)
    requires WellFormed(b) && InBounds(r, c)
    ensures WellFormed(b')
  {
    b[r := b[r][c := m]]
  }

  /** Two boards that agree on every cell are the same board. */
  lemma BoardExt(b1: Board, b2: Board)
    requires WellFormed(b1) && WellFormed(b2)
    requires forall r, c :: InBounds(r, c) ==> b1[r][c] == b2[r][c]
    ensures b1 == b2
  {
    forall r | 0 <= r < Rows
      ensures b1[r] == b2[r]
    {
      assert forall c :: 0 <= c < Cols ==> b1[r][c] == b2[r][c];
    }
  }

  /** No empty cell lies below a filled cell in any column. */
  ghost predicate Gravity(b: Board)
    requires WellFormed(b)
  {
    forall r, c {:trigger b[r][c]} :: 0 <= r < Rows - 1 && 0 <= c < Cols && b[r][c] != Empty ==> b[r + 1][c] != Empty
  }

  /** The first empty cell of column `col` met when scanning from `row`
      upwards to the top, as `reversed(range(rows))` does. */
  function LowestEmptyFrom(b: Board, col: int, row: int): (r: Option<nat>)
    requires WellFormed(b) && 0 <= col < Cols && -1 <= row < Rows
    ensures r.Some? ==> r.value <= row && b[r.value][col] == Empty
    ensures r.Some? ==> forall k :: r.value < k <= row ==> b[k][col] != Empty
    ensures r.None? ==> forall k :: 0 <= k <= row ==> b[k][col] != Empty
    decreases row + 1
  {
    if row < 0 then None
    else if b[row][col] == Empty then Some(row)
    else LowestEmptyFrom(b, col, row - 1)
  }

  /** The row a piece dropped into `col` lands on, if any. */
  function LowestEmpty(b: Board, col: int): Option<nat>
    requires WellFormed(b) && 0 <= col < Cols
  {
    LowestEmptyFrom(b, col, Rows - 1)
  }

  /** `is_full`: the top cell of every column is occupied. */
  function IsFull(b: Board): bool
    requires WellFormed(b)
  {
    forall c :: 0 <= c < Cols ==> b[0][c] != Empty
  }

  /** Under gravity an occupied top cell means the whole column is occupied. */
  lemma {:induction false} ColumnFilled(b: Board, c: int, r: int)
    requires WellFormed(b) && Gravity(b) && InBounds(r, c)
    requires b[0][c] != Empty
    ensures b[r][c] != Empty
    decreases r
  {
    if r > 0 {
      ColumnFilled(b, c, r - 1);
    }
  }

  /** Under gravity, `is_full` holds exactly when all 42 cells are occupied. */
  lemma FullMeansAllFilled(b: Board)
    requires WellFormed(b) && Gravity(b)
    ensures IsFull(b) <==> forall r, c :: InBounds(r, c) ==> b[r][c] != Empty
  {
    if IsFull(b) {
      forall r, c | InBounds(r, c)
        ensures b[r][c] != Empty
      {
        ColumnFilled(b, c, r);
      }
    }
  }

  /** A drop into a column whose top cell is empty lands, and the board
      still satisfies gravity afterwards. */
  lemma DropKeepsGravity(b: Board, col: int, p: char)
    requires WellFormed(b) && Gravity(b) && 0 <= col < Cols
    requires b[0][col] == Empty
    ensures LowestEmpty(b, col).Some?
    ensures Gravity(Place(b, LowestEmpty(b, col).value, col, p))
  {
    var row := LowestEmpty(b, col).value;
    var b' := Place(b, row, col, p);
    if row > 0 {
      assert b[row - 1][col] == Empty;
    }
    forall r, c {:trigger b'[r][c]} | 0 <= r < Rows - 1 && 0 <= c < Cols && b'[r][c] != Empty
      ensures b'[r + 1][c] != Empty
    {
      if c == col && r + 1 == row {
        assert false;
      }
    }
  }

  /** The four directions `check_win` scans. */
  datatype Direction = Horizontal | Vertical | DownRight | DownLeft

  function DRow(d: Direction): int {
    if d == Horizontal then 0 else 1
  }

  function DCol(d: Direction): int {
    match d
    case Horizontal => 1
    case Vertical => 0
    case DownRight => 1
    case DownLeft => -1
  }

  /** `win_length` cells from (r, c), stepping by (dr, dc), are all on the
      board and all hold p. */
  predicate RunFrom(b: Board, p: char, r: int, c: int, dr: int, dc: int)
    requires WellFormed(b)
  {
    && InBounds(r, c) && InBounds(r + 3 * dr, c + 3 * dc)
    && b[r][c] == p
    && b[r + dr][c + dc] == p
    && b[r + 2 * dr][c + 2 * dc] == p
    && b[r + 3 * dr][c + 3 * dc] == p
  }

  predicate LineAt(b: Board, p: char, r: int, c: int, d: Direction)
    requires WellFormed(b)
  {
    RunFrom(b, p, r, c, DRow(d), DCol(d))
  }

  /** Four of p in a row: horizontally, vertically or on either diagonal. */
  ghost predicate HasFour(b: Board, p: char)
    requires WellFormed(b)
  {
    exists r, c, d :: LineAt(b, p, r, c, d)
  }

  /** A vertical run of four in one column is a win. */
  lemma VerticalFourWins(b: Board, p: char, r: int, c: int)
    requires WellFormed(b) && InBounds(r, c) && r + 3 < Rows
    requires b[r][c] == p && b[r + 1][c] == p && b[r + 2][c] == p && b[r + 3][c] == p
    ensures HasFour(b, p)
  {
    assert LineAt(b, p, r, c, Vertical);
  }

  /** The board read row by row, as `get_state_representation` builds it. */
  function Flatten(rows: seq<seq<char>>): seq<char> {
    if rows == [] then [] else Flatten(rows[..|rows| - 1]) + rows[|rows| - 1]
  }

  lemma {:induction false} FlattenPrefix(b: Board, n: nat)
    requires WellFormed(b) && n <= Rows
    ensures |Flatten(b[..n])| == Cols * n
    ensures forall r, c :: 0 <= r < n && 0 <= c < Cols ==> Flatten(b[..n])[Cols * r + c] == b[r][c]
  {
    if n > 0 {
      FlattenPrefix(b, n - 1);
      assert b[..n][..n - 1] == b[..n - 1];
    }
  }

  /** The fingerprint has one character per cell, cell (r, c) at 7r + c. */
  lemma FingerprintAt(b: Board, r: int, c: int)
    requires WellFormed(b) && InBounds(r, c)
    ensures |Flatten(b)| == Rows * Cols
    ensures Flatten(b)[Cols * r + c] == b[r][c]
  {
    FlattenPrefix(b, Rows);
    assert b[..Rows] == b;
  }

  /** Different boards have different fingerprints. */
  lemma FingerprintInjective(b1: Board, b2: Board)
    requires WellFormed(b1) && WellFormed(b2)
    requires Flatten(b1) == Flatten(b2)
    ensures b1 == b2
  {
    forall r, c | InBounds(r, c)
      ensures b1[r][c] == b2[r][c]
    {
      FingerprintAt(b1, r, c);
      FingerprintAt(b2, r, c);
    }
    BoardExt(b1, b2);
  }

  /** The `board` and `turn` fields of `Connect4GUI`. */
  class Connect4Game {
    var board: Board
    var turn: char

    /** `initialize_game`: an empty board with 'X' to move. */
    constructor ()
      ensures board == EmptyBoard() && turn == 'X'
    {
      board := EmptyBoard();
      turn := 'X';
    }

    /** `drop_piece`: refuse a column whose top cell is occupied; otherwise
        write `turn` into the lowest empty cell of the column. */
    method DropPiece(col: int) returns (ok: bool)
      requires WellFormed(board) && 0 <= col < Cols
      modifies this
      ensures turn == old(turn) && WellFormed(board)
      ensures ok == (old(board)[0][col] == Empty)
      ensures !ok ==> board == old(board)
      ensures ok ==> (LowestEmpty(old(board), col).Some? &&
                      board == Place(old(board), LowestEmpty(old(board), col).value, col, turn))
    {
      if board[0][col] != Empty {
        return false;
      }
      var row := Rows - 1;
      while row >= 0
        invariant -1 <= row < Rows
        invariant board == old(board)
        invariant LowestEmptyFrom(board, col, row) == LowestEmpty(board, col)
        decreases row + 1
      {
        if board[row][col] == Empty {
          board := Place(board, row, col, turn);
          return true;
        }
        row := row - 1;
      }
      return true;
    }

    /** `check_line`: walk from the start cell in steps of (dRow, dCol)
        while the cell is on the board and holds `turn`; succeed at the
        `win_length`-th such cell. */
    method CheckLine(startRow: int, startCol: int, dRow: int, dCol: int) returns (found: bool)
      requires WellFormed(board)
      ensures found == RunFrom(board, turn, startRow, startCol, dRow, dCol)
    {
      var count := 0;
      var row, col := startRow, startCol;
      while InBounds(row, col) && board[row][col] == turn
        invariant 0 <= count < WinLength
        invariant row == startRow + Steps(count, dRow) && col == startCol + Steps(count, dCol)
        invariant count >= 1 ==> InBounds(startRow, startCol) && board[startRow][startCol] == turn
        invariant count >= 2 ==>
          InBounds(startRow + dRow, startCol + dCol) && board[startRow + dRow][startCol + dCol] == turn
        invariant count >= 3 ==>
          InBounds(startRow + 2 * dRow, startCol + 2 * dCol) && board[startRow + 2 * dRow][startCol + 2 * dCol] == turn
        decreases WinLength - count
      {
        count := count + 1;
        if count == WinLength {
          return true;
        }
        row := row + dRow;
        col := col + dCol;
      }
      return false;
    }

    /** `check_win`: some cell holding `turn` starts a run of four in one of
        the four directions. */
    method CheckWin() returns (won: bool)
      requires WellFormed(board)
      ensures won == HasFour(board, turn)
    {
      for row := 0 to Rows
        invariant forall r, c, d :: 0 <= r < row && LineAt(board, turn, r, c, d) ==> false
      {
        for col := 0 to Cols
          invariant forall r, c, d :: (0 <= r < row || (r == row && c < col)) && LineAt(board, turn, r, c, d) ==> false
        {
          if board[row][col] == turn {
            var found := CheckLine(row, col, 0, 1);
            if !found {
              found := CheckLine(row, col, 1, 0);
            }
            if !found {
              found := CheckLine(row, col, 1, 1);
            }
            if !found {
              found := CheckLine(row, col, 1, -1);
            }
            if found {
              assert LineAt(board, turn, row, col, Horizontal) || LineAt(board, turn, row, col, Vertical)
                  || LineAt(board, turn, row, col, DownRight) || LineAt(board, turn, row, col, DownLeft);
              return true;
            }
            assert forall d :: !LineAt(board, turn, row, col, d);
          }
        }
      }
      return false;
    }

    /** `change_turn`: 'X' passes to 'O', anything else to 'X'. */
    method ChangeTurn()
      modifies this
      ensures board == old(board)
      ensures turn == if old(turn) == 'X' then 'O' else 'X'
    {
      turn := if turn == 'X' then 'O' else 'X';
    }

    /** `get_state_representation`: the cells concatenated row by row. */
    method GetStateRepresentation() returns (state: string)
      requires WellFormed(board)
      ensures state == Flatten(board)
      ensures |state| == Rows * Cols
    {
      state := "";
      for row := 0 to Rows
        invariant state == Flatten(board[..row])
      {
        for col := 0 to Cols
          invariant state == Flatten(board[..row]) + board[row][..col]
        {
          state := state + [board[row][col]];
          assert board[row][..col + 1] == board[row][..col] + [board[row][col]];
        }
        assert board[..row + 1][..row] == board[..row];
        assert board[row][..Cols] == board[row];
      }
      assert board[..Rows] == board;
      FlattenPrefix(board, Rows);
    }
  }

  /** `k` steps of size d, for the positions `check_line` visits. */
  function Steps(k: int, d: int): int {
    if k <= 0 then 0 else if k == 1 then d else if k == 2 then 2 * d else 3 * d
  }
}
