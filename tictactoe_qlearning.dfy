/** `QLearningOpponent` of TicTacToe/TicTacToeOpponents.py: a table of
    Q-values keyed by (board text, cell), the epsilon-greedy move, the update
    rule and the training loop with its reward and epsilon schedule.
    Q-values and rates are reals (no floating-point rounding). */
module TicTacToeQLearning {
  import opened Options
  import opened TicTacToeBoard
  import opened QUpdate

  // ---------------------------------------------------------------------
  // `get_state`: `str(game.board)`
  // ---------------------------------------------------------------------

  /** Python's repr of a one-character string: the character in single
      quotes. */
  function CharText(ch: char): string {
    ['\'', ch, '\'']
  }

  /** The repr of one row, e.g. "['X', ' ', 'O']". */
  function RowText(row: seq<char>): (s: string)
    requires |row| == Size
    ensures |s| == 15
    ensures forall c :: 0 <= c < Size ==> s[2 + 5 * c] == row[c]
  {
    "[" + CharText(row[0]) + ", " + CharText(row[1]) + ", " + CharText(row[2]) + "]"
  }

  /** `get_state`: the repr of the list of rows, 51 characters long. */
  function GetState(b: Board): (s: string)
    requires WellFormed(b)
    ensures |s| == 51
  {
    "[" + RowText(b[0]) + ", " + RowText(b[1]) + ", " + RowText(b[2]) + "]"
  }

  /** Cell (r, c) of the board is character 3 + 17r + 5c of its text. */
  lemma GetStateAt(b: Board, r: int, c: int)
    requires WellFormed(b) && 0 <= r < Size && 0 <= c < Size
    ensures GetState(b)[3 + 17 * r + 5 * c] == b[r][c]
  {
    var s := GetState(b);
    var rows := [RowText(b[0]), RowText(b[1]), RowText(b[2])];
    assert s == "[" + rows[0] + ", " + rows[1] + ", " + rows[2] + "]";
    assert s[1 + 17 * r..1 + 17 * r + 15] == rows[r];
    assert rows[r][2 + 5 * c] == b[r][c];
  }

  /** Two boards share a state key exactly when they are the same board:
      the table never mixes up positions. */
  lemma GetStateInjective(b1: Board, b2: Board)
    requires WellFormed(b1) && WellFormed(b2)
    ensures GetState(b1) == GetState(b2) <==> b1 == b2
  {
    if GetState(b1) == GetState(b2) {
      forall r | 0 <= r < Size
        ensures b1[r] == b2[r]
      {
        forall c | 0 <= c < Size
          ensures b1[r][c] == b2[r][c]
        {
          GetStateAt(b1, r, c);
          GetStateAt(b2, r, c);
        }
      }
    }
  }

  // ---------------------------------------------------------------------
  // The table and the update rule
  // ---------------------------------------------------------------------

  type QTable = map<(string, Cell), real>

  /** `next_max`: the largest Q-value of `state` over the given cells, 0
      when there are none. */
  function NextMax(q: QTable, state: string, cells: seq<Cell>): (m: real)
    ensures cells == [] ==> m == 0.0
    ensures cells != [] ==> exists i :: 0 <= i < |cells| && m == Get(q, (state, cells[i]))
    ensures forall i :: 0 <= i < |cells| ==> Get(q, (state, cells[i])) <= m
    decreases |cells|
  {
    if |cells| == 0 then 0.0
    else if |cells| == 1 then Get(q, (state, cells[0]))
    else
      var rest := NextMax(q, state, cells[1..]);
      assert forall i :: 1 <= i < |cells| ==> cells[i] == cells[1..][i - 1];
      if Get(q, (state, cells[0])) < rest then rest else Get(q, (state, cells[0]))
  }

  // ---------------------------------------------------------------------
  // `train`: the reward and the epsilon schedule
  // ---------------------------------------------------------------------

  /** The reward `train` gives the side that just moved: 1 when it now has
      a line, else 0.5 when the board is full, else 0.  The turn has not
      been passed yet, so the line looked for is the mover's own. */
  function StepReward(b: Board, mover: char): (r: real)
    requires WellFormed(b)
    ensures r == 1.0 || r == 0.5 || r == 0.0
  {
    if CheckWin(b, mover) then 1.0
    else if CheckDraw(b) then 0.5
    else 0.0
  }

  /** On a board where nobody has a line, a move into a blank cell earns 1
      exactly when it completes the mover's line, 0.5 exactly when it fills
      the board without one, and 0 when play goes on. */
  lemma StepRewardOfMove(b: Board, cell: Cell, mover: char)
    requires WellFormed(b) && InBounds(cell) && At(b, cell) == Blank && mover != Blank
    requires !CheckWin(b, 'X') && !CheckWin(b, 'O')
    ensures var after := Place(b, cell, mover);
      && (StepReward(after, mover) == 1.0 <==> CheckWin(after, mover))
      && (StepReward(after, mover) == 0.5 <==> !CheckWin(after, mover) && GetEmptyCells(after) == [])
      && (StepReward(after, mover) == 0.0 <==> !CheckWin(after, mover) && GetEmptyCells(after) != [])
  {
    CheckDrawIsNoEmptyCell(Place(b, cell, mover));
  }

  /** The start-of-episode step: `max(epsilon_min, epsilon - epsilon_min *
      (iteration / 200))`, a linear decrease; `epsilon_decay` is not used. */
  function EpsilonStep(epsilon: real, epsilonMin: real, iteration: nat): real {
    var e := epsilon - epsilonMin * (iteration as real / 200.0);
    if epsilonMin < e then e else epsilonMin
  }

  /** Epsilon after the steps of iterations 0 .. n - 1. */
  function EpsilonAfter(epsilon: real, epsilonMin: real, n: nat): real {
    if n == 0 then epsilon else EpsilonStep(EpsilonAfter(epsilon, epsilonMin, n - 1), epsilonMin, n - 1)
  }

  /** epsilon_min's multiplier summed over iterations 0 .. n - 1:
      (0 + 1 + ... + (n - 1)) / 200. */
  function Spent(n: nat): real {
    (n * (n - 1)) as real / 400.0
  }

  lemma SpentStep(m: nat)
    ensures Spent(m + 1) == Spent(m) + m as real / 200.0
  {
    assert (m + 1) * m == m * (m - 1) + 2 * m;
  }

  lemma Distribute(x: real, y: real, z: real)
    ensures x * (y + z) == x * y + x * z
  {
  }

  /** The steps add up: after n episodes epsilon is the larger of the floor
      and the start less epsilon_min * n(n - 1) / 400. */
  lemma {:induction false} EpsilonClosedForm(epsilon: real, epsilonMin: real, n: nat)
    requires 0.0 <= epsilonMin <= epsilon
    ensures var e := epsilon - epsilonMin * Spent(n);
      EpsilonAfter(epsilon, epsilonMin, n) == if epsilonMin < e then e else epsilonMin
  {
    if n > 0 {
      var m := n - 1;
      EpsilonClosedForm(epsilon, epsilonMin, m);
      SpentStep(m);
      var a := epsilonMin * Spent(m);
      var step := epsilonMin * (m as real / 200.0);
      Distribute(epsilonMin, Spent(m), m as real / 200.0);
      assert 0.0 <= step;
      var prev := EpsilonAfter(epsilon, epsilonMin, m);
      assert EpsilonAfter(epsilon, epsilonMin, n) == EpsilonStep(prev, epsilonMin, m);
      if epsilonMin < epsilon - a {
        assert prev == epsilon - a;
      } else {
        assert prev == epsilonMin;
      }
    }
  }

  /** Epsilon stays between the floor and the start and never grows from
      one episode to the next. */
  lemma EpsilonSchedule(epsilon: real, epsilonMin: real, n: nat)
    requires 0.0 <= epsilonMin <= epsilon
    ensures epsilonMin <= EpsilonAfter(epsilon, epsilonMin, n) <= epsilon
    ensures EpsilonAfter(epsilon, epsilonMin, n + 1) <= EpsilonAfter(epsilon, epsilonMin, n)
  {
    EpsilonClosedForm(epsilon, epsilonMin, n);
    EpsilonClosedForm(epsilon, epsilonMin, n + 1);
    SpentStep(n);
    Distribute(epsilonMin, Spent(n), n as real / 200.0);
    assert 0.0 <= epsilonMin * (n as real / 200.0);
    assert 0.0 <= epsilonMin * Spent(n);
  }

  // ---------------------------------------------------------------------
  // What `train` does to the table
  // ---------------------------------------------------------------------

  /** One move of a training episode: the board before it, the cell the
      agent chose and the side that moved. */
  datatype Step = Step(before: Board, cell: Cell, mover: char)

  /** The step writes into a cell of a well-formed board. */
  predicate StepOk(s: Step) {
    WellFormed(s.before) && InBounds(s.cell)
  }

  predicate AllOk(steps: seq<Step>) {
    forall i :: 0 <= i < |steps| ==> StepOk(steps[i])
  }

  /** The board after the step. */
  function After(s: Step): Board
    requires StepOk(s)
  {
    Place(s.before, s.cell, s.mover)
  }

  /** Neither side has a line and a blank cell remains: the condition of
      the `while` loop of `train`. */
  predicate InPlay(b: Board)
    requires WellFormed(b)
  {
    !CheckWin(b, 'X') && !CheckWin(b, 'O') && !CheckDraw(b)
  }

  /** The side that makes move n of an episode: 'X' after `reset`, then
      `switch_player` after every move. */
  function Mover(n: nat): (p: char)
    ensures p == 'X' || p == 'O'
  {
    if n == 0 then 'X' else Other(Mover(n - 1))
  }

  /** The side after move n is the other one. */
  lemma MoverNext(n: nat)
    ensures Mover(n + 1) == Other(Mover(n))
  {
  }

  /** 'X' makes the even moves and 'O' the odd ones. */
  lemma {:induction false} MoverParity(n: nat)
    ensures Mover(n) == (if n % 2 == 0 then 'X' else 'O')
  {
    if n > 0 {
      MoverParity(n - 1);
    }
  }

  /** The last move of an episode. */
  function Last(steps: seq<Step>): Step
    requires steps != []
  {
    steps[|steps| - 1]
  }

  /** Move `s` may follow the moves `prefix` of an episode: the first move
      is made on the blank board, every later one on the board after the
      move before it; it goes into a blank cell of a board still in play,
      and it is made by the side whose turn it is. */
  predicate StepFollows(prefix: seq<Step>, s: Step) {
    && StepOk(s)
    && (prefix == [] ==> s.before == EmptyBoard())
    && (prefix != [] ==> StepOk(Last(prefix)) && s.before == After(Last(prefix)))
    && At(s.before, s.cell) == Blank
    && InPlay(s.before)
    && s.mover == Mover(|prefix|)
  }

  /** A training episode as played: every move follows the moves before
      it. */
  predicate Played(steps: seq<Step>)
    decreases |steps|
  {
    steps != [] ==> Played(steps[..|steps| - 1]) && StepFollows(steps[..|steps| - 1], Last(steps))
  }

  /** The entry the step's `update_q_value` call writes: the state before
      the move with the cell moved into. */
  function KeyOf(s: Step): (string, Cell)
    requires StepOk(s)
  {
    (GetState(s.before), s.cell)
  }

  /** The value it writes there: the old entry blended toward the mover's
      reward plus the discounted best value of the state after the move
      over the cells still blank. */
  function NewValue(q: QTable, s: Step, rate: real, gamma: real): real
    requires StepOk(s)
  {
    var after := After(s);
    var nextMax := NextMax(q, GetState(after), GetEmptyCells(after));
    Blend(Get(q, KeyOf(s)), Discounted(StepReward(after, s.mover), gamma, nextMax), rate)
  }

  /** The table after the step's `update_q_value` call. */
  function Learn(q: QTable, s: Step, rate: real, gamma: real): QTable
    requires StepOk(s)
  {
    q[KeyOf(s) := NewValue(q, s, rate, gamma)]
  }

  /** The table after the updates of the steps, in order. */
  function LearnAll(q: QTable, steps: seq<Step>, rate: real, gamma: real): QTable
    requires AllOk(steps)
    decreases |steps|
  {
    if steps == [] then q
    else Learn(LearnAll(q, steps[..|steps| - 1], rate, gamma), steps[|steps| - 1], rate, gamma)
  }

  /** The table after whole episodes, in order. */
  function LearnEpisodes(q: QTable, episodes: seq<seq<Step>>, rate: real, gamma: real): QTable
    requires AllPlayed(episodes)
    decreases |episodes|
  {
    if episodes == [] then q
    else LearnAll(LearnEpisodes(q, episodes[..|episodes| - 1], rate, gamma), episodes[|episodes| - 1], rate, gamma)
  }

  /** The entries the steps write: the state before each move with the
      cell moved into. */
  function Touched(steps: seq<Step>): set<(string, Cell)>
    requires AllOk(steps)
    decreases |steps|
  {
    if steps == [] then {}
    else Touched(steps[..|steps| - 1]) + {KeyOf(steps[|steps| - 1])}
  }

  /** An episode's updates add exactly its own entries to the table. */
  lemma {:induction false} LearnAllKeys(q: QTable, steps: seq<Step>, rate: real, gamma: real)
    requires AllOk(steps)
    ensures LearnAll(q, steps, rate, gamma).Keys == q.Keys + Touched(steps)
    decreases |steps|
  {
    if steps != [] {
      var n := |steps| - 1;
      var front := steps[..n];
      var before := LearnAll(q, front, rate, gamma);
      LearnAllKeys(q, front, rate, gamma);
      LearnKeys(before, steps[n], rate, gamma);
      assert LearnAll(q, steps, rate, gamma) == Learn(before, steps[n], rate, gamma);
      assert Touched(steps) == Touched(front) + {KeyOf(steps[n])};
    }
  }

  /** An episode's updates change no entry other than its own. */
  lemma {:induction false} LearnAllKeeps(q: QTable, steps: seq<Step>, rate: real, gamma: real)
    requires AllOk(steps)
    ensures forall k :: k in q && k !in Touched(steps) ==> k in LearnAll(q, steps, rate, gamma) && LearnAll(q, steps, rate, gamma)[k] == q[k]
    decreases |steps|
  {
    if steps != [] {
      var n := |steps| - 1;
      LearnAllKeeps(q, steps[..n], rate, gamma);
      LearnKeys(LearnAll(q, steps[..n], rate, gamma), steps[n], rate, gamma);
    }
  }

  /** One update adds the step's entry and changes no other entry. */
  lemma LearnKeys(q: QTable, s: Step, rate: real, gamma: real)
    requires StepOk(s)
    ensures Learn(q, s, rate, gamma).Keys == q.Keys + {KeyOf(s)}
    ensures forall k :: k in q && k != KeyOf(s) ==> Learn(q, s, rate, gamma)[k] == q[k]
  {
  }

  /** A legal move from the end of a played episode still in play extends
      it, and the updates of the longer episode are those of the shorter
      one followed by the new move's. */
  lemma PlayedExtend(steps: seq<Step>, s: Step)
    requires Played(steps) && AllOk(steps) && StepFollows(steps, s)
    ensures Played(steps + [s]) && AllOk(steps + [s])
    ensures (steps + [s])[..|steps|] == steps && Last(steps + [s]) == s
  {
    var t := steps + [s];
    assert t[..|steps|] == steps;
    assert forall i :: 0 <= i < |steps| ==> t[i] == steps[i];
  }

  /** The updates of an episode one move longer are those of the shorter
      one followed by the new move's. */
  lemma LearnAllSnoc(q: QTable, steps: seq<Step>, s: Step, rate: real, gamma: real)
    requires AllOk(steps) && StepOk(s) && AllOk(steps + [s])
    ensures LearnAll(q, steps + [s], rate, gamma) == Learn(LearnAll(q, steps, rate, gamma), s, rate, gamma)
  {
    assert (steps + [s])[..|steps|] == steps;
  }

  /** A table that differs from `before` only in the step's entry, which
      holds the value `update_q_value` computes from the state before the
      move, the mover's reward and the state after it, is the step's
      `Learn`. */
  lemma UpdateIsLearn(before: QTable, after: QTable, s: Step, rate: real, gamma: real,
                      state: string, reward: real, nextState: string, board: Board)
    requires StepOk(s) && board == After(s)
    requires state == GetState(s.before) && nextState == GetState(board) && reward == StepReward(board, s.mover)
    requires after.Keys == before.Keys + {(state, s.cell)}
    requires forall k :: k in before && k != (state, s.cell) ==> after[k] == before[k]
    requires after[(state, s.cell)] ==
      Blend(Get(before, (state, s.cell)), Discounted(reward, gamma, NextMax(before, nextState, GetEmptyCells(board))), rate)
    ensures after == Learn(before, s, rate, gamma)
  {
  }

  /** Every episode was played and made at least one move. */
  predicate AllPlayed(episodes: seq<seq<Step>>) {
    forall e :: 0 <= e < |episodes| ==> Played(episodes[e]) && episodes[e] != [] && AllOk(episodes[e])
  }

  /** One more played episode keeps the episodes played. */
  lemma AllPlayedExtend(episodes: seq<seq<Step>>, steps: seq<Step>)
    requires AllPlayed(episodes)
    requires Played(steps) && steps != [] && AllOk(steps)
    ensures AllPlayed(episodes + [steps])
  {
    var all := episodes + [steps];
    assert forall e :: 0 <= e < |episodes| ==> all[e] == episodes[e];
  }

  /** The table after one more episode is the table after the earlier ones
      followed by the new one's updates. */
  lemma LearnEpisodesSnoc(q: QTable, episodes: seq<seq<Step>>, steps: seq<Step>, rate: real, gamma: real)
    requires AllPlayed(episodes) && AllOk(steps) && AllPlayed(episodes + [steps])
    ensures LearnEpisodes(q, episodes + [steps], rate, gamma) == LearnAll(LearnEpisodes(q, episodes, rate, gamma), steps, rate, gamma)
  {
    assert (episodes + [steps])[..|episodes|] == episodes;
  }

  /** The Q-learning agent's table and parameters. */
  class QLearningOpponent {
    var q: QTable
    var learningRate: real
    var gamma: real
    var epsilon: real
    var epsilonMin: real
    var epsilonDecay: real

    /** `__init__`, then `load_q_table`: `saved` is the pickled table,
        `None` when the file does not exist. */
    constructor (saved: Option<QTable>)
      ensures learningRate == 0.1 && gamma == 0.95 && epsilon == 0.1
      ensures epsilonMin == 0.01 && epsilonDecay == 0.995
      ensures q == if saved.Some? then saved.value else map[]
    {
      learningRate := 0.1;
      gamma := 0.95;
      epsilon := 0.1;
      epsilonMin := 0.01;
      epsilonDecay := 0.995;
      q := if saved.Some? then saved.value else map[];
    }

    /** `update_q_value`: only the entry (state, action) changes.  It moves
        from its old value (0 when missing) toward the reward plus the
        discounted best value of `nextState` over the cells that are blank
        on the game's board now. */
    method UpdateQValue(game: TicTacToe, state: string, action: Cell, reward: real, nextState: string)
      requires WellFormed(game.board)
      modifies this
      ensures learningRate == old(learningRate) && gamma == old(gamma) && epsilon == old(epsilon)
      ensures epsilonMin == old(epsilonMin) && epsilonDecay == old(epsilonDecay)
      ensures q.Keys == old(q).Keys + {(state, action)}
      ensures forall k :: k in old(q) && k != (state, action) ==> q[k] == old(q)[k]
      ensures q[(state, action)] == Blend(Get(old(q), (state, action)),
                                          Discounted(reward, gamma, NextMax(old(q), nextState, GetEmptyCells(game.board))),
                                          learningRate)
    {
      var oldValue := Get(q, (state, action));
      var emptyCells := GetEmptyCells(game.board);
      var nextMax: real;
      if emptyCells != [] {
        nextMax := NextMax(q, nextState, emptyCells);
      } else {
        nextMax := 0.0;
      }
      assert nextMax == NextMax(q, nextState, emptyCells);
      q := q[(state, action) := Blend(oldValue, Discounted(reward, gamma, nextMax), learningRate)];
    }

    /** `choose_move`.  `draw` is the `np.random.uniform(0, 1)` sample.
        Below epsilon: a random blank cell.  Otherwise: a random blank cell
        among those whose Q-value in this state is the largest.  On a full
        board the source fails on an empty list; that is the `None` here. */
    method ChooseMove(game: TicTacToe, draw: real) returns (action: Option<Cell>)
      requires WellFormed(game.board)
      ensures action.None? <==> GetEmptyCells(game.board) == []
      ensures action.Some? ==> InBounds(action.value) && At(game.board, action.value) == Blank
      ensures epsilon <= draw && action.Some? ==>
        forall cell :: InBounds(cell) && At(game.board, cell) == Blank ==>
          Get(q, (GetState(game.board), cell)) <= Get(q, (GetState(game.board), action.value))
    {
      var state := GetState(game.board);
      var cells := GetEmptyCells(game.board);
      GetEmptyCellsSpec(game.board);
      if cells == [] {
        return None;
      }
      if draw < epsilon {
        assert cells[0] in cells;
        var pick :| pick in cells;
        return Some(pick);
      }
      var maxQ := NextMax(q, state, cells);
      var best := set i | 0 <= i < |cells| && Get(q, (state, cells[i])) == maxQ;
      var top :| 0 <= top < |cells| && maxQ == Get(q, (state, cells[top]));
      assert top in best;
      var i :| i in best;
      return Some(cells[i]);
    }

    /** `train`: `iterations` episodes of self-play on `game`.
        `draws(episode, ply)` are the random samples of `choose_move`, and
        `episodes` are the games played.  The table is the old one after
        every move of every episode, in order. */
    method Train(game: TicTacToe, iterations: nat, draws: (nat, nat) -> real)
      returns (ghost episodes: seq<seq<Step>>)
      requires WellFormed(game.board)
      modifies this, game
      ensures learningRate == old(learningRate) && gamma == old(gamma)
      ensures epsilonMin == old(epsilonMin) && epsilonDecay == old(epsilonDecay)
      ensures epsilon == EpsilonAfter(old(epsilon), epsilonMin, iterations)
      ensures |episodes| == iterations
      ensures AllPlayed(episodes)
      ensures q == LearnEpisodes(old(q), episodes, learningRate, gamma)
      ensures WellFormed(game.board)
      ensures iterations > 0 ==> game.board == After(Last(episodes[iterations - 1])) && !InPlay(game.board)
      ensures iterations > 0 ==> game.currentPlayer == Mover(|episodes[iterations - 1]|)
    {
      episodes := [];
      for iteration := 0 to iterations
        invariant learningRate == old(learningRate) && gamma == old(gamma)
        invariant epsilonMin == old(epsilonMin) && epsilonDecay == old(epsilonDecay)
        invariant epsilon == EpsilonAfter(old(epsilon), epsilonMin, iteration)
        invariant |episodes| == iteration
        invariant AllPlayed(episodes)
        invariant q == LearnEpisodes(old(q), episodes, learningRate, gamma)
        invariant WellFormed(game.board)
        invariant iteration > 0 ==> game.board == After(Last(episodes[iteration - 1])) && !InPlay(game.board)
        invariant iteration > 0 ==> game.currentPlayer == Mover(|episodes[iteration - 1]|)
      {
        var steps := Episode(game, iteration, draws);
        AllPlayedExtend(episodes, steps);
        LearnEpisodesSnoc(old(q), episodes, steps, learningRate, gamma);
        episodes := episodes + [steps];
      }
    }

    /** One pass of the `train` loop: `reset` and the epsilon step; then,
        until a line or a full board, the agent moves for the side to move,
        that side is rewarded, the entry of the state before the move is
        updated and the turn passes.  `steps` are the moves made: the table
        is the old one after their updates, the board is the one after the
        last move, that board is no longer in play, and the side to move is
        the one after the last mover. */
    method Episode(game: TicTacToe, iteration: nat, draws: (nat, nat) -> real)
      returns (ghost steps: seq<Step>)
      modifies this, game
      ensures learningRate == old(learningRate) && gamma == old(gamma)
      ensures epsilonMin == old(epsilonMin) && epsilonDecay == old(epsilonDecay)
      ensures epsilon == EpsilonStep(old(epsilon), epsilonMin, iteration)
      ensures Played(steps) && steps != [] && AllOk(steps)
      ensures q == LearnAll(old(q), steps, learningRate, gamma)
      ensures game.board == After(Last(steps)) && WellFormed(game.board) && !InPlay(game.board)
      ensures game.currentPlayer == Mover(|steps|)
    {
      game.Reset();
      epsilon := EpsilonStep(epsilon, epsilonMin, iteration);
      ghost var q0 := q;
      EmptyBoardIsOpen();
      var state := GetState(game.board);
      var ply := 0;
      steps := [];
      while !CheckWin(game.board, 'X') && !CheckWin(game.board, 'O') && !CheckDraw(game.board)
        invariant WellFormed(game.board) && game.currentPlayer == Mover(|steps|)
        invariant learningRate == old(learningRate) && gamma == old(gamma)
        invariant epsilonMin == old(epsilonMin) && epsilonDecay == old(epsilonDecay)
        invariant epsilon == EpsilonStep(old(epsilon), epsilonMin, iteration)
        invariant Played(steps) && AllOk(steps)
        invariant steps == [] ==> game.board == EmptyBoard()
        invariant steps != [] ==> game.board == After(Last(steps))
        invariant state == GetState(game.board)
        invariant q == LearnAll(q0, steps, learningRate, gamma)
        decreases EmptyCount(game.board)
      {
        state, steps := PlayTurn(game, state, draws(iteration, ply), steps, q0);
        ply := ply + 1;
      }
    }

    /** The body of the `train` loop: the agent chooses a cell for the side
        to move, that side's mark is written there, the side is rewarded,
        the entry of the state before the move is updated and the turn
        passes.  `longer` is `steps` with the move made: still played, and
        the table is `q0` after the updates of all its moves. */
    method PlayTurn(game: TicTacToe, state: string, draw: real, ghost steps: seq<Step>, ghost q0: QTable)
      returns (nextState: string, ghost longer: seq<Step>)
      requires WellFormed(game.board) && InPlay(game.board) && game.currentPlayer == Mover(|steps|)
      requires Played(steps) && AllOk(steps)
      requires steps == [] ==> game.board == EmptyBoard()
      requires steps != [] ==> game.board == After(Last(steps))
      requires state == GetState(game.board)
      requires q == LearnAll(q0, steps, learningRate, gamma)
      modifies this, game
      ensures learningRate == old(learningRate) && gamma == old(gamma) && epsilon == old(epsilon)
      ensures epsilonMin == old(epsilonMin) && epsilonDecay == old(epsilonDecay)
      ensures |longer| == |steps| + 1 && longer[..|steps|] == steps
      ensures Played(longer) && AllOk(longer) && longer != []
      ensures WellFormed(game.board) && game.board == After(Last(longer))
      ensures game.currentPlayer == Mover(|longer|)
      ensures nextState == GetState(game.board)
      ensures q == LearnAll(q0, longer, learningRate, gamma)
      ensures EmptyCount(game.board) < old(EmptyCount(game.board))
    {
      CheckDrawIsNoEmptyCell(game.board);
      var action := ChooseMove(game, draw);
      var mover := game.currentPlayer;
      ghost var step := Step(game.board, action.value, mover);
      PlaceShrinks(game.board, action.value, mover);
      var ok := game.MakeMove(action.value, mover);
      var reward := StepReward(game.board, mover);
      nextState := GetState(game.board);
      PlayedExtend(steps, step);
      LearnTurn(game, state, action.value, reward, nextState, step, steps, q0);
      longer := steps + [step];
      MoverNext(|steps|);
      game.SwitchPlayer();
    }

    /** The `update_q_value` call of one turn: the table after it is `q0`
        after the updates of the earlier moves and this one. */
    method LearnTurn(game: TicTacToe, state: string, action: Cell, reward: real, nextState: string,
                     ghost step: Step, ghost steps: seq<Step>, ghost q0: QTable)
      requires StepOk(step) && AllOk(steps) && AllOk(steps + [step])
      requires WellFormed(game.board) && game.board == After(step) && action == step.cell
      requires state == GetState(step.before) && nextState == GetState(game.board)
      requires reward == StepReward(game.board, step.mover)
      requires q == LearnAll(q0, steps, learningRate, gamma)
      modifies this
      ensures learningRate == old(learningRate) && gamma == old(gamma) && epsilon == old(epsilon)
      ensures epsilonMin == old(epsilonMin) && epsilonDecay == old(epsilonDecay)
      ensures q == LearnAll(q0, steps + [step], learningRate, gamma)
    {
      ghost var before := q;
      UpdateQValue(game, state, action, reward, nextState);
      UpdateIsLearn(before, q, step, learningRate, gamma, state, reward, nextState, game.board);
      LearnAllSnoc(q0, steps, step, learningRate, gamma);
    }
  }
}
