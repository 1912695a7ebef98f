/** The ladder-step check of style/prose-lint.py in exact arithmetic: a stated step against
    the two printed values it joins. */
module LadderSteps {
  import opened Decimals

  /** A printed figure: its digits as a whole number, and how many stand after the point. */
  datatype Figure = Figure(units: int, decimals: nat)

  /** A value of the table, and whether it is marked `~`. */
  datatype Cell = Cell(approximate: bool, figure: Figure)

  /** A step as a percentage or as a multiple. */
  datatype Step = Percent(figure: Figure) | Multiple(figure: Figure)

  datatype Verdict = Quiet | Off | DivisionByZero

  function Ulp(f: Figure): (u: real)
    ensures 0.0 < u
  {
    1.0 / Power10(f.decimals) as real
  }

  function Value(f: Figure): real {
    f.units as real * Ulp(f)
  }

  /** Half the last printed digit. */
  function HalfUlp(f: Figure): real {
    0.5 * Ulp(f)
  }

  /** How far a cell's value can lie from its figure. */
  function Slack(c: Cell): real {
    HalfUlp(c.figure) * if c.approximate then 2.0 else 1.0
  }

  function Stated(s: Step): real {
    match s
    case Percent(f) => 1.0 + Value(f) / 100.0
    case Multiple(f) => Value(f)
  }

  function StatedSlack(s: Step): real {
    match s
    case Percent(f) => HalfUlp(f) / 100.0
    case Multiple(f) => HalfUlp(f)
  }

  /** The check, once the patterns have found a step and the values around it. */
  function LadderOff(before: Cell, step: Step, after: Cell): Verdict {
    var (v0, v1, e0, e1) := (Value(before.figure), Value(after.figure), Slack(before), Slack(after));
    if v0 <= 0.0 then Quiet
    else if v0 - e0 == 0.0 then DivisionByZero
    else
      var (lo, hi) := ((v1 - e1) / (v0 + e0), (v1 + e1) / (v0 - e0));
      if Stated(step) + StatedSlack(step) < lo || Stated(step) - StatedSlack(step) > hi then Off else Quiet
  }

  // ----- What it decides -----

  predicate Within(x: real, center: real, slack: real) {
    center - slack <= x <= center + slack
  }

  /** Values the two cells can stand for, in a ratio the step can stand for. */
  ghost predicate Explained(before: Cell, step: Step, after: Cell) {
    exists a0: real, a1: real :: Explains(before, step, after, a0, a1)
  }

  ghost predicate Explains(before: Cell, step: Step, after: Cell, a0: real, a1: real) {
    && Within(a0, Value(before.figure), Slack(before)) && Within(a1, Value(after.figure), Slack(after))
    && a0 != 0.0 && Within(a1 / a0, Stated(step), StatedSlack(step))
  }

  lemma DivideMonotone(x: real, y: real, d: real)
    requires 0.0 < d
    ensures x <= y <==> x / d <= y / d
  {
    assert x == x / d * d && y == y / d * d;
  }

  /** A quotient of positive numbers lies between the extreme quotients. */
  lemma QuotientBounds(a0: real, a1: real, lo0: real, hi0: real, lo1: real, hi1: real)
    requires 0.0 < lo0 <= a0 <= hi0 && 0.0 <= lo1 <= a1 <= hi1
    ensures lo1 / hi0 <= a1 / a0 <= hi1 / lo0
  {
    QuotientOrder(lo1, hi0, a1, a0);
    QuotientOrder(a1, a0, hi1, lo0);
  }

  lemma QuotientOrder(x: real, d: real, y: real, e: real)
    requires 0.0 <= x <= y && 0.0 < e <= d
    ensures x / d <= y / e
  {
    var q := y / e;
    assert q * e == y;
    assert 0.0 <= q;
    assert q * e <= q * d;
    assert x <= q * d;
    DivideMonotone(x, q * d, d);
    assert q * d / d == q;
  }

  lemma Scale(x: real, y: real, d: real)
    requires x <= y && 0.0 <= d
    ensures x * d <= y * d
  {
  }

  lemma CancelFactor(r: real, x: real, y: real)
    requires 0.0 < r && r * x <= r * y
    ensures x <= y
  {
    DivideMonotone(r * x, r * y, r);
    assert r * x / r == x && r * y / r == y;
  }

  /** Every ratio between the extremes is the ratio of two values in range: of the largest
      first value while the second can follow, and then of the largest second one. */
  lemma RatioAttained(r: real, lo0: real, hi0: real, lo1: real, hi1: real) returns (a0: real, a1: real)
    requires 0.0 < lo0 <= hi0 && 0.0 <= lo1 <= hi1 && 0.0 < hi1
    requires lo1 / hi0 <= r <= hi1 / lo0
    ensures lo0 <= a0 <= hi0 && lo1 <= a1 <= hi1 && a1 / a0 == r
  {
    if r * hi0 <= hi1 {
      a0 := hi0;
      a1 := SecondValue(r, hi0, lo1);
    } else {
      a1 := hi1;
      a0 := FirstValue(r, lo0, hi0, hi1);
    }
  }

  lemma SecondValue(r: real, hi0: real, lo1: real) returns (a1: real)
    requires 0.0 < hi0 && lo1 / hi0 <= r
    ensures a1 == r * hi0 && lo1 <= a1 && a1 / hi0 == r
  {
    a1 := r * hi0;
    Scale(lo1 / hi0, r, hi0);
    assert lo1 / hi0 * hi0 == lo1 && r * hi0 / hi0 == r;
  }

  lemma FirstValue(r: real, lo0: real, hi0: real, hi1: real) returns (a0: real)
    requires 0.0 < lo0 <= hi0 && 0.0 < hi1 && r <= hi1 / lo0 && hi1 < r * hi0
    ensures lo0 <= a0 <= hi0 && hi1 / a0 == r
  {
    if r <= 0.0 {
      Scale(r, 0.0, hi0);
    }
    a0 := hi1 / r;
    assert r * a0 == hi1;
    Scale(r, hi1 / lo0, lo0);
    assert hi1 / lo0 * lo0 == hi1;
    CancelFactor(r, lo0, a0);
    CancelFactor(r, a0, hi0);
    assert a0 != 0.0 && r * a0 / a0 == r;
  }

  /** Exact: with both figures positive and the first not reaching down to zero, a step is
      reported exactly when no two values the cells can stand for explain it. */
  lemma OffExactlyWhenUnexplained(before: Cell, step: Step, after: Cell)
    requires Value(before.figure) > Slack(before) && Value(after.figure) >= Slack(after)
    ensures LadderOff(before, step, after) == Off <==> !Explained(before, step, after)
  {
    var (v0, v1, e0, e1) := (Value(before.figure), Value(after.figure), Slack(before), Slack(after));
    var (lo, hi) := ((v1 - e1) / (v0 + e0), (v1 + e1) / (v0 - e0));
    if Explained(before, step, after) {
      var a0: real, a1: real :| Explains(before, step, after, a0, a1);
      QuotientBounds(a0, a1, v0 - e0, v0 + e0, v1 - e1, v1 + e1);
    }
    if LadderOff(before, step, after) == Quiet {
      var (low, high) := (Stated(step) - StatedSlack(step), Stated(step) + StatedSlack(step));
      var r := if low < lo then lo else low;
      QuotientBounds(v0, v1, v0 - e0, v0 + e0, v1 - e1, v1 + e1);
      var a0, a1 := RatioAttained(r, v0 - e0, v0 + e0, v1 - e1, v1 + e1);
      assert Explains(before, step, after, a0, a1);
    }
  }

  // ----- A second value that can be negative -----

  /** The least ratio of two values in range: the smallest first value divides a second one
      that can be negative. The check divides by the largest in either case. */
  function LeastRatio(before: Cell, after: Cell): real
    requires Value(before.figure) > Slack(before)
  {
    var (v0, v1, e0, e1) := (Value(before.figure), Value(after.figure), Slack(before), Slack(after));
    if v1 >= e1 then (v1 - e1) / (v0 + e0) else (v1 - e1) / (v0 - e0)
  }

  /** The lower end of the interval the check uses. */
  function CheckedLow(before: Cell, after: Cell): real
    requires Value(before.figure) > Slack(before)
  {
    (Value(after.figure) - Slack(after)) / (Value(before.figure) + Slack(before))
  }

  /** A quotient with a numerator that can be negative. */
  lemma SignedBounds(a0: real, a1: real, lo0: real, hi0: real, lo1: real, hi1: real)
    requires 0.0 < lo0 <= a0 <= hi0 && lo1 <= a1 <= hi1 && lo1 < 0.0 < hi1
    ensures lo1 / lo0 <= a1 / a0 <= hi1 / lo0
  {
    if a1 >= 0.0 {
      QuotientOrder(a1, a0, hi1, lo0);
      DivideMonotone(0.0, a1, a0);
      DivideMonotone(lo1, 0.0, lo0);
      assert 0.0 / a0 == 0.0 && 0.0 / lo0 == 0.0;
    } else {
      QuotientOrder(-a1, a0, -lo1, lo0);
      Negated(a1, a0);
      Negated(lo1, lo0);
      DivideMonotone(a1, 0.0, a0);
      DivideMonotone(0.0, hi1, lo0);
      assert 0.0 / a0 == 0.0 && 0.0 / lo0 == 0.0;
    }
  }

  lemma Negated(x: real, d: real)
    requires 0.0 < d
    ensures (-x) / d == -(x / d)
  {
    assert x / d * d == x && (-x) / d * d == -x;
  }

  /** Every ratio from the least to the greatest is attained by the smallest first value. */
  lemma SignedAttained(r: real, lo0: real, lo1: real, hi1: real) returns (a1: real)
    requires 0.0 < lo0 && lo1 / lo0 <= r <= hi1 / lo0
    ensures lo1 <= a1 <= hi1 && a1 / lo0 == r
  {
    a1 := r * lo0;
    Scale(lo1 / lo0, r, lo0);
    Scale(r, hi1 / lo0, lo0);
    TimesOver(r, lo0);
    assert lo1 / lo0 * lo0 == lo1 && hi1 / lo0 * lo0 == hi1;
  }

  lemma TimesOver(r: real, d: real)
    requires 0.0 < d
    ensures r * d / d == r
  {
  }

  predicate Overlaps(step: Step, low: real, high: real) {
    low <= Stated(step) + StatedSlack(step) && Stated(step) - StatedSlack(step) <= high
  }

  lemma StepHasSlack(step: Step)
    ensures 0.0 < StatedSlack(step)
  {
  }

  /** With the first figure not reaching down to zero, a step has an explanation exactly when
      its interval meets the one from the least to the greatest ratio. */
  lemma ExplainedExactlyBetween(before: Cell, step: Step, after: Cell)
    requires Value(before.figure) > Slack(before) && Value(after.figure) >= 0.0
    ensures Explained(before, step, after)
       <==> Overlaps(step, LeastRatio(before, after), Greatest(before, after))
  {
    if Value(after.figure) >= Slack(after) {
      OffExactlyWhenUnexplained(before, step, after);
    } else {
      var (lo0, hi0) := (Value(before.figure) - Slack(before), Value(before.figure) + Slack(before));
      var (lo1, hi1) := (Value(after.figure) - Slack(after), Value(after.figure) + Slack(after));
      var (low, high) := (Stated(step) - StatedSlack(step), Stated(step) + StatedSlack(step));
      if Explained(before, step, after) {
        var a0: real, a1: real :| Explains(before, step, after, a0, a1);
        SignedBounds(a0, a1, lo0, hi0, lo1, hi1);
      }
      if Overlaps(step, lo1 / lo0, hi1 / lo0) {
        StepHasSlack(step);
        DivideMonotone(lo1, hi1, lo0);
        var r := if low < lo1 / lo0 then lo1 / lo0 else low;
        var a1 := SignedAttained(r, lo0, lo1, hi1);
        assert Explains(before, step, after, lo0, a1);
      }
    }
  }

  /** A fall to below nothing that only a negative second value explains, past the end of
      the interval the check uses. */
  predicate FallsBelowNothing(before: Cell, step: Step, after: Cell)
    requires Value(before.figure) > Slack(before)
  {
    && Value(after.figure) < Slack(after)
    && LeastRatio(before, after) <= Stated(step) + StatedSlack(step) < CheckedLow(before, after)
  }

  function Greatest(before: Cell, after: Cell): real
    requires Value(before.figure) > Slack(before)
  {
    (Value(after.figure) + Slack(after)) / (Value(before.figure) - Slack(before))
  }

  lemma OffMeans(before: Cell, step: Step, after: Cell)
    requires Value(before.figure) > Slack(before)
    ensures LadderOff(before, step, after) == Off <==> !Overlaps(step, CheckedLow(before, after), Greatest(before, after))
  {
  }

  lemma LowEnds(before: Cell, after: Cell)
    requires Value(before.figure) > Slack(before) && 0.0 <= Value(after.figure) < Slack(after)
    ensures LeastRatio(before, after) <= CheckedLow(before, after) < 0.0 < Greatest(before, after)
  {
    var (lo0, hi0) := (Value(before.figure) - Slack(before), Value(before.figure) + Slack(before));
    var (lo1, hi1) := (Value(after.figure) - Slack(after), Value(after.figure) + Slack(after));
    QuotientOrder(-lo1, hi0, -lo1, lo0);
    Negated(lo1, lo0);
    Negated(lo1, hi0);
    DivideMonotone(0.0, lo1, hi0);
    DivideMonotone(hi1, 0.0, lo0);
    assert 0.0 / hi0 == 0.0 && 0.0 / lo0 == 0.0;
  }

  /** For every pair of cells whose division is defined, the check reports just the steps
      without an explanation, except exactly for the explained falls to below nothing; of a
      step whose interval reaches zero it is always right. */
  lemma OffExactlyWhen(before: Cell, step: Step, after: Cell)
    requires Value(before.figure) > Slack(before) && Value(after.figure) >= 0.0
    ensures (LadderOff(before, step, after) == Off <==> !Explained(before, step, after)) <==> !FallsBelowNothing(before, step, after)
    ensures Stated(step) + StatedSlack(step) >= 0.0 ==> (LadderOff(before, step, after) == Off <==> !Explained(before, step, after))
  {
    ExplainedExactlyBetween(before, step, after);
    OffMeans(before, step, after);
    StepHasSlack(step);
    if Value(after.figure) < Slack(after) {
      LowEnds(before, after);
    }
  }

  /** From 2 to 0 a fall of 125 percent is reported, though 1.5 and -0.375 explain it. */
  lemma FallReported()
    ensures var (before, step, after) := (Cell(false, Figure(2, 0)), Percent(Figure(-125, 0)), Cell(false, Figure(0, 0)));
            LadderOff(before, step, after) == Off && Explained(before, step, after)
  {
    var (before, step, after) := (Cell(false, Figure(2, 0)), Percent(Figure(-125, 0)), Cell(false, Figure(0, 0)));
    assert Power10(0) == 1;
    assert Stated(step) == -0.25 && StatedSlack(step) == 0.005;
    assert CheckedLow(before, after) == -0.2;
    assert Explains(before, step, after, 1.5, -0.375);
  }

  // ----- When the conditions fail -----

  /** In units of its last digit a cell's slack is a half, or one when marked. */
  lemma SlackInUnits(c: Cell)
    ensures Slack(c) == (if c.approximate then 1.0 else 0.5) * Ulp(c.figure)
    ensures Value(c.figure) > Slack(c) <==> c.figure.units as real > if c.approximate then 1.0 else 0.5
    ensures Value(c.figure) == Slack(c) <==> c.figure.units as real == if c.approximate then 1.0 else 0.5
  {
    var (n, k, u) := (c.figure.units as real, if c.approximate then 1.0 else 0.5, Ulp(c.figure));
    assert n > k ==> n * u > k * u;
    assert n < k ==> n * u < k * u;
  }

  /** The division fails exactly behind a marked cell whose digits are a one, such as `~1`
      or `~0.01`; a figure of positive digits never reaches below zero. */
  lemma DividesByZeroWhen(before: Cell, step: Step, after: Cell)
    ensures LadderOff(before, step, after) == DivisionByZero <==> before.approximate && before.figure.units == 1
    ensures before.figure.units > 0 ==> Value(before.figure) >= Slack(before) && Value(before.figure) > 0.0
  {
    SlackInUnits(before);
    var (n, u) := (before.figure.units as real, Ulp(before.figure));
    assert n > 0.0 ==> n * u > 0.0;
    assert n <= 0.0 ==> n * u <= 0.0;
  }
}
