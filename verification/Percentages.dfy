/**
  scripts/check_changed_coverage.py: coverage ratios, their rounded percentages, and the check
  that a ratio has not fallen. Percentages are in ten-thousandths of a point, so 1000000 is 100%.
 */
module Percentages {

  /** Python's `round` to an integer: to the nearest, halves to the even neighbour. */
  function RoundHalfEven(x: real): (r: int)
    ensures x - 0.5 <= r as real <= x + 0.5
    ensures r as real == x + 0.5 || r as real == x - 0.5 ==> r % 2 == 0
  {
    var f := x.Floor;
    var part := x - f as real;
    if part < 0.5 then f
    else if part > 0.5 then f + 1
    else if f % 2 == 0 then f
    else f + 1
  }

  lemma RoundMonotone(x: real, y: real)
    requires x <= y
    ensures RoundHalfEven(x) <= RoundHalfEven(y)
  {
  }

  lemma RoundShift(x: real, k: int)
    requires k % 2 == 0
    ensures RoundHalfEven(x - k as real) == RoundHalfEven(x) - k
  {
    assert (x - k as real).Floor == x.Floor - k;
  }

  datatype Counts = Counts(covered: int, total: int) {
    predicate Valid() {
      0 <= covered <= total
    }
  }

  /** The exact ratio; nothing to cover counts as fully covered. */
  function Ratio(c: Counts): (r: real)
    requires c.Valid()
    ensures 0.0 <= r <= 1.0
  {
    if c.total == 0 then 1.0
    else
      var r := c.covered as real / c.total as real;
      assert r * c.total as real == c.covered as real;
      r
  }

  /** `_percent`. */
  function Percent(c: Counts): int
    requires c.Valid()
  {
    if c.total == 0 then 1_000_000 else RoundHalfEven(1_000_000.0 * Ratio(c))
  }

  lemma PercentIsRoundedRatio(c: Counts)
    requires c.Valid()
    ensures Percent(c) == RoundHalfEven(1_000_000.0 * Ratio(c))
  {
  }

  /** The exact-fraction check, with a tolerance in ten-thousandths of a point. */
  predicate MeetsFloor(measured: Counts, floor: Counts, tolerance: nat)
    requires measured.Valid() && floor.Valid()
  {
    1_000_000.0 * Ratio(measured) >= 1_000_000.0 * Ratio(floor) - tolerance as real
  }

  /**
    Where the floor's percentage is that of its counts, the check on rounded percentages never
    rejects what the exact check accepts, for every even tolerance: in particular 0 and 3000.
   */
  lemma RoundedCheckIsImplied(measured: Counts, floor: Counts, tolerance: nat)
    requires measured.Valid() && floor.Valid() && tolerance % 2 == 0
    requires MeetsFloor(measured, floor, tolerance)
    ensures Percent(measured) >= Percent(floor) - tolerance
  {
    var m, f := 1_000_000.0 * Ratio(measured), 1_000_000.0 * Ratio(floor);
    PercentIsRoundedRatio(measured);
    PercentIsRoundedRatio(floor);
    RoundMonotone(f - tolerance as real, m);
    RoundShift(f, tolerance);
  }

  /** An odd tolerance would not do: ties then round apart, and an admissible ratio is refused. */
  lemma OddToleranceFails(tolerance: nat) returns (measured: Counts, floor: Counts)
    requires tolerance % 2 == 1 && tolerance < 1_000_000
    ensures measured.Valid() && floor.Valid() && MeetsFloor(measured, floor, tolerance)
    ensures Percent(measured) < Percent(floor) - tolerance
  {
    measured, floor := Counts(1, 2_000_000), Counts(2 * tolerance + 1, 2_000_000);
    assert 1_000_000.0 * Ratio(measured) == 0.5;
    assert 1_000_000.0 * Ratio(floor) == tolerance as real + 0.5;
    assert (tolerance as real + 0.5).Floor == tolerance;
  }

  lemma PercentInRange(c: Counts)
    requires c.Valid()
    ensures 0 <= Percent(c) <= 1_000_000
  {
    PercentIsRoundedRatio(c);
    RoundMonotone(0.0, 1_000_000.0 * Ratio(c));
    RoundMonotone(1_000_000.0 * Ratio(c), 1_000_000.0);
  }

  /**
    The rounded check adds nothing to the exact one for exactly the even tolerances, and those of
    100 points and more.
   */
  lemma RoundedCheckIsRedundant(tolerance: nat)
    ensures (forall m: Counts, f: Counts | m.Valid() && f.Valid() && MeetsFloor(m, f, tolerance) ::
               Percent(m) >= Percent(f) - tolerance)
            <==> tolerance % 2 == 0 || tolerance >= 1_000_000
  {
    if tolerance % 2 == 1 && tolerance < 1_000_000 {
      var m, f := OddToleranceFails(tolerance);
    } else {
      forall m: Counts, f: Counts | m.Valid() && f.Valid() && MeetsFloor(m, f, tolerance)
        ensures Percent(m) >= Percent(f) - tolerance
      {
        if tolerance % 2 == 0 {
          RoundedCheckIsImplied(m, f, tolerance);
        } else {
          PercentInRange(m);
          PercentInRange(f);
        }
      }
    }
  }

  /** The tolerance bounds how far a measurement may sit below the floor, however often it is used. */
  lemma FloorsCompose(measured: Counts, floor: Counts, earlier: Counts, tolerance: nat)
    requires measured.Valid() && floor.Valid() && earlier.Valid()
    requires MeetsFloor(measured, floor, tolerance) && MeetsFloor(floor, earlier, 0)
    ensures MeetsFloor(measured, earlier, tolerance)
  {
  }
}
