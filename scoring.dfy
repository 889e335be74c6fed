/** Scoring and difficulty: the points a line clear is worth, the level reached
    after a number of cleared lines, and how long a piece hangs before gravity
    moves it down. Timestamps and delays are whole milliseconds. */
module Scoring {

  /** The level reached after `lines` cleared lines: one level per ten lines. */
  function Level(lines: nat): (lv: nat)
    ensures 10 * lv <= lines < 10 * (lv + 1)
  {
    lines / 10
  }

  /** Base points for clearing `cleared` rows at once. */
  function LineValue(cleared: nat): (v: nat)
    requires 0 < cleared
    ensures 100 <= v <= 800
    ensures 4 <= cleared ==> v == 800
  {
    match cleared
    case 1 => 100
    case 2 => 300
    case 3 => 500
    case _ => 800
  }

  /** Clearing more rows at once (up to four) is worth strictly more, and more
      than clearing them one at a time. */
  lemma LineValueIncreasing(c1: nat, c2: nat)
    requires 0 < c1 < c2 <= 4
    ensures LineValue(c1) < LineValue(c2)
    ensures 100 * c2 <= LineValue(c2)
  {
  }

  /** The points a clear of `cleared` rows earns when `lines` rows had been
      cleared before: the base value times one more than the level reached once
      the new rows are counted. */
  function Award(cleared: nat, lines: nat): (points: nat)
    ensures cleared == 0 <==> points == 0
    ensures points % 100 == 0
  {
    if cleared == 0 then 0
    else
      var v := LineValue(cleared);
      var m := Level(lines + cleared) + 1;
      assert v % 100 == 0;
      MultipleOfHundred(v / 100, m);
      v * m
  }

  /** (100 k) m is a multiple of 100. */
  lemma MultipleOfHundred(k: nat, m: nat)
    ensures (100 * k) * m % 100 == 0
  {
    assert (100 * k) * m == 100 * (k * m);
  }

  /** The level after counting the new rows is at least the level before. */
  lemma LevelMonotone(l1: nat, l2: nat)
    requires l1 <= l2
    ensures Level(l1) <= Level(l2)
  {
  }

  /** a x b grows with both factors. */
  lemma MulMonotone(a1: nat, a2: nat, b1: nat, b2: nat)
    requires a1 <= a2 && b1 <= b2
    ensures a1 * b1 <= a2 * b2
  {
    assert a1 * b1 <= a2 * b1;
    assert a2 * b1 <= a2 * b2;
  }

  /** The same clear is worth at least as much later in the game, and never
      less than its base value times the level before the clear plus one. */
  lemma AwardGrowsWithLines(cleared: nat, l1: nat, l2: nat)
    requires 0 < cleared && l1 <= l2
    ensures Award(cleared, l1) <= Award(cleared, l2)
    ensures LineValue(cleared) * (Level(l1) + 1) <= Award(cleared, l1)
  {
    LevelMonotone(l1 + cleared, l2 + cleared);
    MulMonotone(LineValue(cleared), LineValue(cleared), Level(l1 + cleared) + 1, Level(l2 + cleared) + 1);
    LevelMonotone(l1, l1 + cleared);
    MulMonotone(LineValue(cleared), LineValue(cleared), Level(l1) + 1, Level(l1 + cleared) + 1);
  }

  /** At a given line count, clearing more rows at once (up to four) earns
      strictly more points. */
  lemma AwardIncreasing(c1: nat, c2: nat, lines: nat)
    requires 0 < c1 < c2 <= 4
    ensures Award(c1, lines) < Award(c2, lines)
  {
    LineValueIncreasing(c1, c2);
    LevelMonotone(lines + c1, lines + c2);
    var m1, m2 := Level(lines + c1) + 1, Level(lines + c2) + 1;
    MulMonotone(LineValue(c1), LineValue(c1), m1, m2);
    assert LineValue(c1) * m2 < LineValue(c2) * m2;
  }

  /** Two rows at 8 lines cross into level 1 and earn 300 x 2; four rows at 0
      lines stay in level 0 and earn 800. */
  lemma AwardExamples()
    ensures Award(2, 8) == 600
    ensures Award(4, 0) == 800
    ensures Award(1, 0) == 100
    ensures Award(3, 17) == 1500
  {
  }

  /** The gravity interval at a given line count: 550 ms at level 0, 40 ms less
      per level, never below 120 ms. */
  function FallDelay(lines: nat): (ms: nat)
    ensures 120 <= ms <= 550
    ensures Level(lines) == 0 ==> ms == 550
  {
    var base := 550 - Level(lines) * 40;
    if base >= 120 then base else 120
  }

  /** The interval never grows as lines accumulate. */
  lemma FallDelayNonIncreasing(l1: nat, l2: nat)
    requires l1 <= l2
    ensures FallDelay(l2) <= FallDelay(l1)
  {
    LevelMonotone(l1, l2);
  }

  /** From level 11 (110 lines) on, the interval is pinned at its floor; below
      that it drops by exactly 40 ms per level. */
  lemma FallDelayFloor(lines: nat)
    ensures 110 <= lines ==> FallDelay(lines) == 120
    ensures lines < 110 ==> FallDelay(lines) == 550 - 40 * Level(lines)
  {
  }

  /** Whether accumulated time `accum` reaches the gravity interval at `lines`;
      holding down shortens the interval to 8/100 of it (the comparison is made
      exactly, with both sides scaled by 100). */
  predicate GravityDue(accum: int, lines: nat, down: bool)
    ensures 550 <= accum ==> GravityDue(accum, lines, down)
    ensures accum < 10 ==> !GravityDue(accum, lines, down)
  {
    if down then accum * 100 >= FallDelay(lines) * 8 else accum >= FallDelay(lines)
  }

  /** Holding down only makes gravity due sooner: a tick due without soft drop is
      due with it, and with it a tick of at least 44 ms is always due. */
  lemma SoftDropSooner(accum: int, lines: nat)
    ensures GravityDue(accum, lines, false) ==> GravityDue(accum, lines, true)
    ensures 44 <= accum ==> GravityDue(accum, lines, true)
    ensures accum < 10 ==> !GravityDue(accum, lines, true)
  {
  }
}
