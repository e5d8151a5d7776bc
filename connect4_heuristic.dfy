/** The positional heuristic of `Connect4GUI` (Connect4/Connect4.py):
    `evaluate_window`, `score_position` and `evaluate_board`.  The pure
    functions say what the score is; the methods do what the source does,
    writing a trial piece into the board they are given and undoing it. */
module Connect4Heuristic {
  import opened Connect4Board

  /** `opp_player`: 'X' for 'O', and 'O' for anything else. */
  function Opponent(p: char): char {
    if p == 'O' then 'X' else 'O'
  }

  function Max(a: int, b: int): int { if a < b then b else a }
  function Min(a: int, b: int): int { if a < b then a else b }

  /** `list.count`. */
  function Count(w: seq<char>, x: char): nat {
    if w == [] then 0 else (if w[0] == x then 1 else 0) + Count(w[1..], x)
  }

  /** Three distinct marks cannot together occur more often than there are
      cells. */
  lemma {:induction false} CountsFit(w: seq<char>, a: char, b: char, c: char)
    requires a != b && b != c && a != c
    ensures Count(w, a) + Count(w, b) + Count(w, c) <= |w|
  {
    if w != [] {
      CountsFit(w[1..], a, b, c);
    }
  }

  lemma OwnOpponentEmptyFit(w: seq<char>, player: char)
    ensures player != Empty ==> Count(w, player) + Count(w, Opponent(player)) + Count(w, Empty) <= |w|
  {
    if player != Empty {
      CountsFit(w, player, Opponent(player), Empty);
    }
  }

  /** `evaluate_window`: +100 for three of the player's pieces and a gap,
      otherwise -150 for three of the opponent's and a gap; then +10 for two
      and two gaps, otherwise -50 for the opponent's two and two gaps.  The
      two blocks never both fire, so only five scores occur, and a positive
      (negative) score on a four-cell window means the opponent (player) has
      no piece in it. */
  function EvaluateWindow(window: seq<char>, player: char): (score: int)
    ensures score in {100, -150, 10, -50, 0}
    ensures |window| == WinLength && player != Empty && score > 0 ==> Count(window, Opponent(player)) == 0
    ensures |window| == WinLength && player != Empty && score < 0 ==> Count(window, player) == 0
  {
    var playerCount := Count(window, player);
    var oppCount := Count(window, Opponent(player));
    var emptyCount := Count(window, Empty);
    OwnOpponentEmptyFit(window, player);
    (if playerCount == 3 && emptyCount == 1 then 100
     else if oppCount == 3 && emptyCount == 1 then -150
     else 0)
    +
    (if playerCount == 2 && emptyCount == 2 then 10
     else if oppCount == 2 && emptyCount == 2 then -50
     else 0)
  }

  /** `board[row][c:c+4]`. */
  function HWindow(b: Board, r: int, c: int): seq<char>
    requires WellFormed(b) && InBounds(r, c) && c + 3 < Cols
  {
    [b[r][c], b[r][c + 1], b[r][c + 2], b[r][c + 3]]
  }

  /** `[board[r][col] for r in range(row, row+4)]`. */
  function VWindow(b: Board, r: int, c: int): seq<char>
    requires WellFormed(b) && InBounds(r, c) && r + 3 < Rows
  {
    [b[r][c], b[r + 1][c], b[r + 2][c], b[r + 3][c]]
  }

  /** `[board[row+i][col+i] for i in range(4)]`. */
  function DiagWindow(b: Board, r: int, c: int): seq<char>
    requires WellFormed(b) && InBounds(r, c) && r + 3 < Rows && c + 3 < Cols
  {
    [b[r][c], b[r + 1][c + 1], b[r + 2][c + 2], b[r + 3][c + 3]]
  }

  /** `[board[row-i][col+i] for i in range(4)]`. */
  function AntiDiagWindow(b: Board, r: int, c: int): seq<char>
    requires WellFormed(b) && InBounds(r, c) && r >= 3 && c + 3 < Cols
  {
    [b[r][c], b[r - 1][c + 1], b[r - 2][c + 2], b[r - 3][c + 3]]
  }

  /** The horizontal windows of `row` starting at columns lo .. hi-1. */
  function HorizontalScore(b: Board, row: int, lo: int, hi: int, player: char): (score: int)
    requires WellFormed(b) && 0 <= row < Rows && 0 <= lo && hi <= Cols - 3
    ensures lo <= hi ==> -150 * (hi - lo) <= score <= 100 * (hi - lo)
    ensures hi <= lo ==> score == 0
    decreases hi - lo
  {
    if hi <= lo then 0
    else HorizontalScore(b, row, lo, hi - 1, player) + EvaluateWindow(HWindow(b, row, hi - 1), player)
  }

  /** The vertical window that starts at the trial piece, if it fits. */
  function VerticalScore(b: Board, row: int, col: int, player: char): int
    requires WellFormed(b) && InBounds(row, col)
  {
    if row <= Rows - 4 then EvaluateWindow(VWindow(b, row, col), player) else 0
  }

  /** The down-right diagonal window that starts at the trial piece, if it
      fits. */
  function DiagScore(b: Board, row: int, col: int, player: char): int
    requires WellFormed(b) && InBounds(row, col)
  {
    if row <= Rows - 4 && col <= Cols - 4 then EvaluateWindow(DiagWindow(b, row, col), player) else 0
  }

  /** The up-right diagonal window that starts at the trial piece, if it
      fits. */
  function AntiDiagScore(b: Board, row: int, col: int, player: char): int
    requires WellFormed(b) && InBounds(row, col)
  {
    if row >= 3 && col <= Cols - 4 then EvaluateWindow(AntiDiagWindow(b, row, col), player) else 0
  }

  /** What `score_position` returns: the windows through the trial piece,
      scored with the piece in place.  At most seven windows count. */
  function PositionScore(b: Board, row: int, col: int, player: char): (score: int)
    requires WellFormed(b) && InBounds(row, col)
    ensures -150 * 7 <= score <= 100 * 7
  {
    var placed := Place(b, row, col, player);
    HorizontalScore(placed, row, Max(0, col - 3), Min(Cols - 3, col + 1), player)
    + VerticalScore(placed, row, col, player)
    + DiagScore(placed, row, col, player)
    + AntiDiagScore(placed, row, col, player)
  }

  /** The centre column, top to bottom. */
  function CenterColumn(b: Board): seq<char>
    requires WellFormed(b)
  {
    seq(Rows, i requires 0 <= i < Rows => b[i][Cols / 2])
  }

  /** The contribution of one cell to `evaluate_board`: only empty cells
      score, for the player minus for the opponent. */
  function CellScore(b: Board, player: char, r: int, c: int): int
    requires WellFormed(b) && InBounds(r, c)
  {
    if b[r][c] == Empty then PositionScore(b, r, c, player) - PositionScore(b, r, c, Opponent(player)) else 0
  }

  /** The cells of row r left of column c. */
  function RowScore(b: Board, player: char, r: int, c: int): int
    requires WellFormed(b) && 0 <= r < Rows && 0 <= c <= Cols
  {
    if c == 0 then 0 else RowScore(b, player, r, c - 1) + CellScore(b, player, r, c - 1)
  }

  /** The cells of the rows above row r. */
  function RowsScore(b: Board, player: char, r: int): int
    requires WellFormed(b) && 0 <= r <= Rows
  {
    if r == 0 then 0 else RowsScore(b, player, r - 1) + RowScore(b, player, r - 1, Cols)
  }

  /** What `evaluate_board` returns: six per own piece in the centre column
      plus the cell contributions in row-major order. */
  function BoardScore(b: Board, player: char): int
    requires WellFormed(b)
  {
    6 * Count(CenterColumn(b), player) + RowsScore(b, player, Rows)
  }

  /** The array holds board b, cell for cell: b is the list of lists that
      `score_position` and `evaluate_board` receive, read as a value. */
  ghost predicate Holds(a: array2<char>, b: Board)
    reads a
  {
    a.Length0 == Rows && a.Length1 == Cols && WellFormed(b) &&
    forall r, c :: InBounds(r, c) ==> a[r, c] == b[r][c]
  }

  /** Four cells of the array read along (dr, dc) from (r, c): the window
      slices and comprehensions of `score_position`. */
  function ReadWindow(a: array2<char>, ghost b: Board, r: int, c: int, dr: int, dc: int): (w: seq<char>)
    reads a
    requires Holds(a, b) && InBounds(r, c) && InBounds(r + 3 * dr, c + 3 * dc)
    requires -1 <= dr <= 1 && -1 <= dc <= 1
    ensures w == [b[r][c], b[r + dr][c + dc], b[r + 2 * dr][c + 2 * dc], b[r + 3 * dr][c + 3 * dc]]
  {
    [a[r, c], a[r + dr, c + dc], a[r + 2 * dr, c + 2 * dc], a[r + 3 * dr, c + 3 * dc]]
  }

  /** `score_position`: write the trial piece, score the windows, then set
      the cell back to '-'.  The cell ends up empty whatever it held; every
      other cell is as before. */
  method ScorePosition(board: array2<char>, ghost b: Board, row: int, col: int, player: char) returns (score: int)
    requires Holds(board, b) && InBounds(row, col)
    modifies board
    ensures Holds(board, Place(b, row, col, Empty))
    ensures score == PositionScore(b, row, col, player)
  {
    ghost var placed := Place(b, row, col, player);
    board[row, col] := player;
    assert Holds(board, placed);
    score := ScoreWindows(board, placed, row, col, player);
    board[row, col] := Empty;
  }

  /** The window loop and the three window tests of `score_position`, on
      the board with the trial piece in place. */
  method ScoreWindows(board: array2<char>, ghost placed: Board, row: int, col: int, player: char) returns (score: int)
    requires Holds(board, placed) && InBounds(row, col)
    ensures score == HorizontalScore(placed, row, Max(0, col - 3), Min(Cols - 3, col + 1), player)
      + VerticalScore(placed, row, col, player) + DiagScore(placed, row, col, player)
      + AntiDiagScore(placed, row, col, player)
  {
    score := ScoreRow(board, placed, row, col, player);
    ghost var horizontal := score;
    if row <= Rows - 4 {
      var window := ReadWindow(board, placed, row, col, 1, 0);
      assert window == VWindow(placed, row, col);
      score := score + EvaluateWindow(window, player);
    }
    assert score == horizontal + VerticalScore(placed, row, col, player);
    ghost var vertical := score;
    if row <= Rows - 4 && 0 <= col <= Cols - 4 {
      var window := ReadWindow(board, placed, row, col, 1, 1);
      assert window == DiagWindow(placed, row, col);
      score := score + EvaluateWindow(window, player);
    }
    assert score == vertical + DiagScore(placed, row, col, player);
    ghost var diagonal := score;
    if row >= 3 && 0 <= col <= Cols - 4 {
      var window := ReadWindow(board, placed, row, col, -1, 1);
      assert window == AntiDiagWindow(placed, row, col);
      score := score + EvaluateWindow(window, player);
    }
    assert score == diagonal + AntiDiagScore(placed, row, col, player);
  }

  /** The horizontal loop of `score_position`: the windows of the row
      starting at columns max(0, col - 3) .. min(cols - 3, col + 1) - 1. */
  method ScoreRow(board: array2<char>, ghost placed: Board, row: int, col: int, player: char) returns (score: int)
    requires Holds(board, placed) && InBounds(row, col)
    ensures score == HorizontalScore(placed, row, Max(0, col - 3), Min(Cols - 3, col + 1), player)
  {
    score := 0;
    var lo, hi := Max(0, col - 3), Min(Cols - 3, col + 1);
    var c := lo;
    while c < hi
      invariant lo <= c <= Max(lo, hi)
      invariant score == HorizontalScore(placed, row, lo, c, player)
    {
      var window := ReadWindow(board, placed, row, c, 0, 1);
      assert window == HWindow(placed, row, c);
      score := score + EvaluateWindow(window, player);
      c := c + 1;
    }
  }

  /** `evaluate_board`: returns the board score and leaves every cell of the
      board as it found it, because it only tries pieces on empty cells. */
  method EvaluateBoard(board: array2<char>, ghost b: Board, player: char) returns (score: int)
    requires Holds(board, b)
    modifies board
    ensures Holds(board, b)
    ensures score == BoardScore(b, player)
  {
    score := 0;
    var oppPlayer := Opponent(player);
    var centerColumn := seq(Rows, i requires 0 <= i < Rows reads board => board[i, Cols / 2]);
    assert centerColumn == CenterColumn(b);
    score := score + Count(centerColumn, player) * 6;
    for row := 0 to Rows
      invariant Holds(board, b)
      invariant score == 6 * Count(CenterColumn(b), player) + RowsScore(b, player, row)
    {
      for col := 0 to Cols
        invariant Holds(board, b)
        invariant score == 6 * Count(CenterColumn(b), player) + RowsScore(b, player, row) + RowScore(b, player, row, col)
      {
        if board[row, col] == Empty {
          var own := ScorePosition(board, b, row, col, player);
          BoardExt(Place(b, row, col, Empty), b);
          score := score + own;
          var theirs := ScorePosition(board, b, row, col, oppPlayer);
          BoardExt(Place(b, row, col, Empty), b);
          score := score - theirs;
        }
      }
    }
  }
}
