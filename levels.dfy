/** Levels and the gravity interval: every level step takes a tenth
    (rounded down) off the interval, starting from 500 ms. */
module Levels {
  const MaxLevel: nat := 20
  const LinesPerLevel: nat := 20
  const DefaultInterval: nat := 500

  /** One application of `interval -= interval / 10`. */
  function Decay(x: nat): nat {
    x - x / 10
  }

  /** The interval x after n decays. */
  function DecayTimes(x: nat, n: nat): nat {
    if n == 0 then x else Decay(DecayTimes(x, n - 1))
  }

  /** The step of handle_event: at most one level per step, taken while the
      level is at most MaxLevel and the line count has reached
      LinesPerLevel * (level + 1). */
  predicate LevelDue(level: nat, lines: nat) {
    level <= MaxLevel && lines >= LinesPerLevel * (level + 1)
  }

  /** A decay never grows the interval, never drops a positive interval to
      zero, and shrinks every interval of at least 10. */
  lemma DecayBounds(x: nat)
    ensures Decay(x) <= x
    ensures x >= 1 ==> Decay(x) >= 1
    ensures x >= 10 ==> Decay(x) < x && Decay(x) >= 9
    ensures x < 10 ==> Decay(x) == x
  {
  }

  /** More decays give a shorter or equal interval. */
  lemma {:induction false} DecayTimesMonotone(x: nat, m: nat, n: nat)
    requires m <= n
    ensures DecayTimes(x, n) <= DecayTimes(x, m)
    decreases n - m
  {
    if m < n {
      DecayTimesMonotone(x, m, n - 1);
      DecayBounds(DecayTimes(x, n - 1));
    }
  }

  /** Starting from 500 ms the interval never falls below 9 ms, so the
      soft-drop threshold interval / 8 is always at least 1 ms. */
  lemma {:induction false} DecayTimesFloor(n: nat)
    ensures DecayTimes(DefaultInterval, n) >= 9
    ensures DecayTimes(DefaultInterval, n) / 8 >= 1
  {
    if n > 0 {
      DecayTimesFloor(n - 1);
      DecayBounds(DecayTimes(DefaultInterval, n - 1));
    }
  }

  /** The intervals at the last two reachable levels: 65 ms at level 20 and
      59 ms at level 21. */
  lemma DecayTimesTop()
    ensures DecayTimes(DefaultInterval, 20) == 65
    ensures DecayTimes(DefaultInterval, 21) == 59
  {
    assert DecayTimes(DefaultInterval, 1) == 450;
    assert DecayTimes(DefaultInterval, 2) == 405;
    assert DecayTimes(DefaultInterval, 3) == 365;
    assert DecayTimes(DefaultInterval, 4) == 329;
    assert DecayTimes(DefaultInterval, 5) == 297;
    assert DecayTimes(DefaultInterval, 6) == 268;
    assert DecayTimes(DefaultInterval, 7) == 242;
    assert DecayTimes(DefaultInterval, 8) == 218;
    assert DecayTimes(DefaultInterval, 9) == 197;
    assert DecayTimes(DefaultInterval, 10) == 178;
    assert DecayTimes(DefaultInterval, 11) == 161;
    assert DecayTimes(DefaultInterval, 12) == 145;
    assert DecayTimes(DefaultInterval, 13) == 131;
    assert DecayTimes(DefaultInterval, 14) == 118;
    assert DecayTimes(DefaultInterval, 15) == 107;
    assert DecayTimes(DefaultInterval, 16) == 97;
    assert DecayTimes(DefaultInterval, 17) == 88;
    assert DecayTimes(DefaultInterval, 18) == 80;
    assert DecayTimes(DefaultInterval, 19) == 72;
    assert DecayTimes(DefaultInterval, 20) == 65;
    assert DecayTimes(DefaultInterval, 21) == 59;
  }

  /** The loop of Game::new and reset: decay the default interval once for
      each level from 1 to the start level. */
  method InitialDropInterval(startLevel: nat) returns (interval: nat)
    ensures interval == DecayTimes(DefaultInterval, startLevel)
    ensures 9 <= interval <= DefaultInterval
  {
    interval := DefaultInterval;
    for i := 1 to startLevel + 1
      invariant interval == DecayTimes(DefaultInterval, i - 1)
    {
      interval := interval - interval / 10;
    }
    DecayTimesFloor(startLevel);
    DecayTimesMonotone(DefaultInterval, 0, startLevel);
  }
}
