/** The house's commission and the payout it leaves: DiceGame's
    calculate_dynamic_edge and calculate_payout_multiplier, and the
    two-decimal rounding applied to a winning payout. Ruby computes these on
    binary floats; here they are exact reals. */
module HouseEdge {

  /** calculate_dynamic_edge: a 1% floor, plus 0.2 percentage points for
      every unit the target lies above 50. */
  function Edge(target: int): (e: real)
    ensures target <= 50 ==> e == 0.01
    ensures target > 50 ==> e == 0.01 + 0.002 * (target - 50) as real
  {
    var extra := (target - 50) as real * 0.002;
    0.01 + (if extra > 0.0 then extra else 0.0)
  }

  /** calculate_payout_multiplier: the fair multiplier 100/target reduced
      by the edge. Ruby answers Infinity for target 0, which has no real
      counterpart, so target 0 is excluded. */
  function Multiplier(target: int): (m: real)
    requires target != 0
    ensures m * target as real == 100.0 * (1.0 - Edge(target))
  {
    assert (100.0 / target as real) * target as real == 100.0;
    (100.0 / target as real) * (1.0 - Edge(target))
  }

  /** Float#round(2): the nearest multiple of 0.01, halves away from zero
      (a tie goes up for x >= 0 and down for x < 0). */
  function Round2(x: real): (r: real)
    ensures -0.005 <= r - x <= 0.005
    ensures x >= 0.0 ==> r - x > -0.005
    ensures x < 0.0 ==> r - x < 0.005
    ensures (r * 100.0).Floor as real == r * 100.0
  {
    var cents := if x >= 0.0 then (x * 100.0 + 0.5).Floor else -(-x * 100.0 + 0.5).Floor;
    cents as real / 100.0
  }

  // ------------------------------------------------------------- the edge

  lemma EdgeMonotone(a: int, b: int)
    requires a <= b
    ensures Edge(a) <= Edge(b)
  {
  }

  lemma EdgeBounds(target: int)
    requires 1 <= target <= 99
    ensures 0.01 <= Edge(target) <= 0.108
  {
  }

  lemma EdgeExamples()
    ensures Edge(1) == 0.01 && Edge(50) == 0.01
    ensures Edge(70) == 0.05 && Edge(90) == 0.09 && Edge(99) == 0.108
  {
  }

  // ------------------------------------------------------- the multiplier

  /** The multiplier is 99/target up to 50 and 109/target - 0.2 above. */
  lemma MultiplierClosedForm(target: int)
    requires target > 0
    ensures target <= 50 ==> Multiplier(target) == 99.0 / target as real
    ensures target >= 50 ==> Multiplier(target) == 109.0 / target as real - 0.2
  {
    var t := target as real;
    if target <= 50 {
      calc {
        Multiplier(target);
        (100.0 / t) * 0.99;
        99.0 / t;
      }
    } else {
      calc {
        Multiplier(target);
        (100.0 / t) * (0.99 - 0.002 * (t - 50.0));
        (100.0 / t) * (1.09 - 0.002 * t);
        109.0 / t - 0.2;
      }
    }
  }

  lemma ReciprocalDecreasing(c: real, a: real, b: real)
    requires c > 0.0 && 0.0 < a < b
    ensures c / b < c / a
  {
    var x, y := c / a, c / b;
    assert x * a == c && y * b == c;
    assert x * (b - a) > 0.0;
    assert (x - y) * b == x * (b - a);
  }

  /** A higher target always pays a strictly smaller multiplier. */
  lemma MultiplierStrictlyDecreasing(a: int, b: int)
    requires 1 <= a < b <= 99
    ensures Multiplier(b) < Multiplier(a)
  {
    MultiplierClosedForm(a);
    MultiplierClosedForm(b);
    if b <= 50 {
      ReciprocalDecreasing(99.0, a as real, b as real);
    } else if a >= 50 {
      ReciprocalDecreasing(109.0, a as real, b as real);
    } else {
      ReciprocalDecreasing(99.0, a as real, 50.0);
      ReciprocalDecreasing(109.0, 50.0, b as real);
    }
  }

  lemma MultiplierPositive(target: int)
    requires 1 <= target <= 99
    ensures Multiplier(target) > 0.0
  {
    MultiplierClosedForm(target);
    if target > 50 {
      ReciprocalDecreasing(109.0, target as real, 100.0);
    }
  }

  /** The multiplier is below 1, so bet * multiplier is below the bet,
      exactly when the target is 91 or more: past that point the edge
      outweighs the fair odds. The payout rounded to cents can still equal
      the stake (a 1.0 bet won at 91 pays 1.0). */
  lemma MultiplierBelowOne(target: int)
    requires 1 <= target <= 99
    ensures Multiplier(target) < 1.0 <==> target >= 91
  {
    MultiplierClosedForm(target);
    MultiplierClosedForm(90);
    assert Multiplier(90) > 1.0;
    if target < 90 {
      MultiplierStrictlyDecreasing(target, 90);
    } else if target > 91 {
      MultiplierStrictlyDecreasing(91, target);
      MultiplierClosedForm(91);
    }
  }

  /** The expected return of a one-unit bet when every number in 1..100 is
      equally likely: the chance target/100 of winning times the multiplier
      is 1 - edge. */
  lemma ReturnToPlayer(target: int)
    requires target > 0
    ensures (target as real / 100.0) * Multiplier(target) == 1.0 - Edge(target)
  {
    var t := target as real;
    calc {
      (t / 100.0) * Multiplier(target);
      (t / 100.0) * (100.0 / t) * (1.0 - Edge(target));
      { assert (t / 100.0) * (100.0 / t) == 1.0; }
      1.0 - Edge(target);
    }
  }

  lemma MultiplierExamples()
    ensures Multiplier(50) == 1.98
    ensures Round2(Multiplier(70)) == 1.36
    ensures Round2(Multiplier(90)) == 1.01
    ensures Round2(Multiplier(99)) == 0.90
  {
    MultiplierClosedForm(50);
    MultiplierClosedForm(70);
    MultiplierClosedForm(90);
    MultiplierClosedForm(99);
    assert (Multiplier(70) * 100.0 + 0.5).Floor == 136;
    assert (Multiplier(90) * 100.0 + 0.5).Floor == 101;
    assert (Multiplier(99) * 100.0 + 0.5).Floor == 90;
  }

  // --------------------------------------------------------- the rounding

  /** Rounding a value that already has two decimals leaves it unchanged. */
  lemma Round2Idempotent(x: real)
    ensures Round2(Round2(x)) == Round2(x)
  {
    var r := Round2(x);
    var k := (r * 100.0).Floor;
    assert r == k as real / 100.0;
    if r >= 0.0 {
      assert (r * 100.0 + 0.5).Floor == k;
    } else {
      assert (-r * 100.0 + 0.5).Floor == -k;
    }
  }

  /** Rounding never turns a non-negative amount negative. */
  lemma Round2NonNegative(x: real)
    requires x >= 0.0
    ensures Round2(x) >= 0.0
  {
  }
}
