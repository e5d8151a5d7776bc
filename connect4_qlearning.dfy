/** `QLearningOpponent` of Connect4/Connect4Opponents.py: the tabular
    Q-values, the epsilon-greedy move, the update rule, the per-episode
    epsilon step and the per-step reward of `train`.  Q-values and rates are
    reals (no floating-point rounding). */
module Connect4QLearning {
  import opened Options
  import opened Connect4Board
  import opened Connect4Search
  import opened QUpdate

  /** The state half of a Q-table key.  `choose_move` builds its keys from
      the board as a tuple of row tuples (`Grid`); `train` and the GUI store
      updates under the 42-character string of `get_state_representation`
      (`Text`).  The two kinds never compare equal. */
  datatype StateKey = Grid(rows: seq<seq<char>>) | Text(s: string)

  type QTable = map<(StateKey, int), real>

  /** Python's `max` over a non-empty list of Q-values. */
  function MaxOf(s: seq<real>): (m: real)
    requires |s| > 0
    ensures m in s
    ensures forall i :: 0 <= i < |s| ==> s[i] <= m
  {
    if |s| == 1 then s[0]
    else
      var rest := MaxOf(s[1..]);
      if s[0] < rest then rest else s[0]
  }

  /** `[Q.get((state, col), 0) for col in range(cols)]`. */
  function QValues(q: QTable, state: StateKey): (vs: seq<real>)
    ensures |vs| == Cols
    ensures forall c :: 0 <= c < Cols ==> vs[c] == Get(q, (state, c))
  {
    seq(Cols, c => Get(q, (state, c)))
  }

  /** `max_future_q`: the best Q-value of `state` over all seven columns,
      full or not, a missing entry counting as 0. */
  function MaxFutureQ(q: QTable, state: StateKey): (m: real)
    ensures forall c :: 0 <= c < Cols ==> Get(q, (state, c)) <= m
    ensures exists c :: 0 <= c < Cols && m == Get(q, (state, c))
  {
    var vs := QValues(q, state);
    var m := MaxOf(vs);
    assert exists c :: 0 <= c < Cols && vs[c] == m;
    m
  }

  /** The temporal-difference target: the reward, plus the discounted best
      future value unless the episode is over. */
  function Target(q: QTable, gamma: real, reward: real, nextState: StateKey, done: bool): real {
    if done then reward else Discounted(reward, gamma, MaxFutureQ(q, nextState))
  }

  /** `self.epsilon = max(self.epsilon_min, self.epsilon * self.epsilon_decay)`. */
  function NextEpsilon(epsilon: real, decay: real, epsilonMin: real): (e: real)
    ensures epsilonMin <= e
    ensures e == epsilonMin || e == epsilon * decay
  {
    if epsilonMin < epsilon * decay then epsilon * decay else epsilonMin
  }

  /** Epsilon after n episodes. */
  function EpsilonAfter(epsilon: real, decay: real, epsilonMin: real, n: nat): real {
    if n == 0 then epsilon else NextEpsilon(EpsilonAfter(epsilon, decay, epsilonMin, n - 1), decay, epsilonMin)
  }

  /** With a decay rate in [0, 1], a non-negative floor and a start at or
      above the floor, epsilon stays at or above the floor and never grows
      from one episode to the next. */
  lemma {:induction false} EpsilonSchedule(epsilon: real, decay: real, epsilonMin: real, n: nat)
    requires 0.0 <= decay <= 1.0 && 0.0 <= epsilonMin <= epsilon
    ensures epsilonMin <= EpsilonAfter(epsilon, decay, epsilonMin, n) <= epsilon
    ensures EpsilonAfter(epsilon, decay, epsilonMin, n + 1) <= EpsilonAfter(epsilon, decay, epsilonMin, n)
  {
    if n > 0 {
      EpsilonSchedule(epsilon, decay, epsilonMin, n - 1);
    }
    var e := EpsilonAfter(epsilon, decay, epsilonMin, n);
    assert 0.0 <= e;
    assert e * decay <= e;
    assert EpsilonAfter(epsilon, decay, epsilonMin, n + 1) == NextEpsilon(e, decay, epsilonMin);
  }

  /** The updates `update_q_table` receives, applied in order. */
  function ApplyUpdates(q: QTable, updates: seq<((StateKey, int), real)>): QTable
    decreases |updates|
  {
    if updates == [] then q else ApplyUpdates(q[updates[0].0 := updates[0].1], updates[1..])
  }

  /** Updates stored under string states never change what `choose_move`
      reads under tuple states, however many of them there are. */
  lemma {:induction false} TextUpdatesInvisibleToGrid(q: QTable, updates: seq<((StateKey, int), real)>, g: seq<seq<char>>, c: int)
    requires forall i :: 0 <= i < |updates| ==> updates[i].0.0.Text?
    ensures Get(ApplyUpdates(q, updates), (Grid(g), c)) == Get(q, (Grid(g), c))
    decreases |updates|
  {
    if updates != [] {
      TextUpdatesInvisibleToGrid(q[updates[0].0 := updates[0].1], updates[1..], g, c);
    }
  }

  /** `get_state`: the board as a tuple of row tuples. */
  function GetState(b: Board): (s: StateKey)
    ensures s.Grid? && s.rows == b
  {
    Grid(b)
  }

  /** The reward `train` computes after the agent's move, as written: by
      then `play` has already passed the turn, so `check_win` looks for a
      line of `turnAfter`, the side that did not move. */
  ghost function RewardAsWritten(b: Board, turnAfter: char): real
    requires WellFormed(b)
  {
    if HasFour(b, turnAfter) then (if turnAfter == 'O' then 1.0 else -1.0)
    else if IsFull(b) then -0.5
    else 0.0
  }

  /** The reward the comment in `train` describes: 1 when the agent's move
      wins, -1 when the other side has a line, -0.5 for a full board, 0
      otherwise. */
  ghost function Reward(b: Board, mover: char): (r: real)
    requires WellFormed(b)
    ensures HasFour(b, mover) ==> r == (if mover == 'O' then 1.0 else -1.0)
    ensures !HasFour(b, mover) && !HasFour(b, if mover == 'O' then 'X' else 'O') ==>
      r == (if IsFull(b) then -0.5 else 0.0)
  {
    if HasFour(b, mover) then (if mover == 'O' then 1.0 else -1.0)
    else if HasFour(b, if mover == 'O' then 'X' else 'O') then (if mover == 'O' then -1.0 else 1.0)
    else if IsFull(b) then -0.5
    else 0.0
  }

  /** A winning move of the agent 'O', on a board where 'X' has no line,
      is never rewarded 1 as written, while the intended reward is 1. */
  lemma AgentWinNotRewarded(b: Board)
    requires WellFormed(b) && HasFour(b, 'O') && !HasFour(b, 'X')
    ensures RewardAsWritten(b, 'X') != 1.0
    ensures Reward(b, 'O') == 1.0
  {
  }

  /** The Q-learning agent's table and parameters. */
  class QLearningOpponent {
    var q: QTable
    var epsilon: real
    var alpha: real
    var gamma: real
    var epsilonDecay: real
    var epsilonMin: real

    /** `__init__` with its default arguments, then `load_q_table`: `saved`
        is the pickled table, `None` when the file does not exist. */
    constructor (saved: Option<QTable>, epsilon: real := 0.0, alpha: real := 0.6, gamma: real := 0.9,
                 epsilonDecay: real := 0.995, epsilonMin: real := 0.01)
      ensures this.epsilon == epsilon && this.alpha == alpha && this.gamma == gamma
      ensures this.epsilonDecay == epsilonDecay && this.epsilonMin == epsilonMin
      ensures q == if saved.Some? then saved.value else map[]
    {
      this.epsilon := epsilon;
      this.alpha := alpha;
      this.gamma := gamma;
      this.epsilonDecay := epsilonDecay;
      this.epsilonMin := epsilonMin;
      q := if saved.Some? then saved.value else map[];
    }

    /** `choose_move`.  `draw` is the `np.random.rand()` sample.  Below
        epsilon: a random column whose top cell is empty (`None` where
        `np.random.choice` gets an empty list).  Otherwise: a random column
        among those whose Q-value is the largest of all seven, full columns
        included. */
    method ChooseMove(game: Connect4Game, player: char, draw: real) returns (move: Option<int>)
      requires WellFormed(game.board)
      ensures draw < epsilon ==> (move.None? <==> forall c :: 0 <= c < Cols ==> !Open(game.board, c))
      ensures draw < epsilon && move.Some? ==> Open(game.board, move.value)
      ensures epsilon <= draw ==> move.Some? && 0 <= move.value < Cols
      ensures epsilon <= draw ==> forall c :: 0 <= c < Cols ==>
        Get(q, (GetState(game.board), c)) <= Get(q, (GetState(game.board), move.value))
    {
      var state := GetState(game.board);
      if draw < epsilon {
        var openColumns := set c | 0 <= c < Cols && game.board[0][c] == Empty;
        assert forall c :: Open(game.board, c) ==> c in openColumns;
        if openColumns == {} {
          return None;
        }
        var pick :| pick in openColumns;
        assert Open(game.board, pick);
        return Some(pick);
      }
      var qValues := QValues(q, state);
      var maxQValue := MaxOf(qValues);
      var best := set c | 0 <= c < Cols && qValues[c] == maxQValue;
      var top :| 0 <= top < Cols && qValues[top] == maxQValue;
      assert top in best;
      var pick :| pick in best;
      return Some(pick);
    }

    /** `update_q_table`: only the entry (prevState, action) changes; it
        moves from its old value (0 when missing) toward the target by the
        learning rate. */
    method UpdateQTable(prevState: StateKey, action: int, reward: real, nextState: StateKey, done: bool)
      modifies this
      ensures epsilon == old(epsilon) && alpha == old(alpha) && gamma == old(gamma)
      ensures epsilonDecay == old(epsilonDecay) && epsilonMin == old(epsilonMin)
      ensures q.Keys == old(q).Keys + {(prevState, action)}
      ensures forall k :: k in old(q) && k != (prevState, action) ==> q[k] == old(q)[k]
      ensures q[(prevState, action)] ==
        Blend(Get(old(q), (prevState, action)), Target(old(q), gamma, reward, nextState, done), alpha)
    {
      var prevQValue := Get(q, (prevState, action));
      if done {
        q := q[(prevState, action) := Blend(prevQValue, reward, alpha)];
      } else {
        var maxFutureQ := MaxFutureQ(q, nextState);
        q := q[(prevState, action) := Blend(prevQValue, Discounted(reward, gamma, maxFutureQ), alpha)];
      }
    }

    /** The epsilon step at the end of each `train` episode. */
    method DecayEpsilon()
      modifies this
      ensures q == old(q) && alpha == old(alpha) && gamma == old(gamma)
      ensures epsilonDecay == old(epsilonDecay) && epsilonMin == old(epsilonMin)
      ensures epsilon == NextEpsilon(old(epsilon), epsilonDecay, epsilonMin)
    {
      epsilon := if epsilonMin < epsilon * epsilonDecay then epsilon * epsilonDecay else epsilonMin;
    }
  }
}
