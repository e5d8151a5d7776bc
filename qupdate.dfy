/** The arithmetic both Q-learning opponents share: a table lookup that
    reads a missing entry as 0, the discounted target and the blended
    update `old + alpha * (target - old)`.  Values are reals (no
    floating-point rounding). */
module QUpdate {
  /** `table.get(key, 0)`. */
  function Get<K>(q: map<K, real>, key: K): real {
    if key in q then q[key] else 0.0
  }

  /** The reward plus the discounted future value. */
  function Discounted(reward: real, gamma: real, future: real): real {
    reward + gamma * future
  }

  /** `old + alpha * (target - old)`, with `current` the old value. */
  function Blend(current: real, target: real, alpha: real): real {
    current + alpha * (target - current)
  }

  /** With a learning rate in [0, 1] the new value lies between the old
      value and the target, and its distance to the target shrinks by the
      factor 1 - alpha. */
  lemma BlendMovesTowardTarget(current: real, target: real, alpha: real)
    requires 0.0 <= alpha <= 1.0
    ensures Blend(current, target, alpha) - target == (1.0 - alpha) * (current - target)
    ensures current <= target ==> current <= Blend(current, target, alpha) <= target
    ensures target <= current ==> target <= Blend(current, target, alpha) <= current
  {
    var d := target - current;
    assert Blend(current, target, alpha) == current + alpha * d;
    if 0.0 <= d {
      assert 0.0 <= alpha * d <= d;
    } else {
      assert d <= alpha * d <= 0.0;
    }
  }
}
