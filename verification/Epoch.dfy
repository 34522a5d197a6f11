/** Epochs of any precision scaled to nanoseconds, and the step intervals derived from a range. */
module Epoch {
  import opened Words

  const NS_TO_SECONDS: nat := 1_000_000_000

  const RECOMMENDED_NUMBER_OF_POINTS: nat := 300

  const MAX_ALLOWED_NUMBER_OF_POINTS: nat := 1500

  function Pow10(n: nat): (p: nat)
    ensures p >= 1
  {
    if n == 0 then 1 else 10 * Pow10(n - 1)
  }

  /** The number of decimal digits; zero has one. */
  function Digits(x: nat): (d: nat)
    ensures d >= 1
  {
    if x < 10 then 1 else 1 + Digits(x / 10)
  }

  /** Ten to the power of 19 - digits as the code computes it: through a float, cut to an unsigned
      integer, so that twenty digits give zero. */
  function Scale(digits: nat): nat {
    if digits <= 19 then Pow10(19 - digits) else 0
  }

  /** The epoch scaled to nanoseconds, on unsigned 64-bit numbers. */
  function Nanos(epoch: nat): nat {
    epoch * Scale(Digits(epoch)) % TWO_TO_THE_64
  }

  method ToNanoSecs(epoch: nat) returns (ns: nat)
    ensures ns == Nanos(epoch)
  {
    var temp := epoch;
    var count := 0;
    if epoch == 0 {
      count := 1;
    } else {
      var rest := epoch;
      while rest != 0
        invariant rest != 0 ==> count + Digits(rest) == Digits(epoch)
        invariant rest == 0 ==> count == Digits(epoch)
      {
        rest := rest / 10;
        count := count + 1;
      }
    }
    ns := temp * Scale(count) % TWO_TO_THE_64;
  }

  lemma {:induction false} Pow10Adds(a: nat, b: nat)
    ensures Pow10(a + b) == Pow10(a) * Pow10(b)
  {
    if a > 0 {
      Pow10Adds(a - 1, b);
    }
  }

  /** A number with d digits lies between two powers of ten. */
  lemma {:induction false} DigitsBound(x: nat)
    ensures x > 0 ==> Pow10(Digits(x) - 1) <= x
    ensures x < Pow10(Digits(x))
  {
    if x >= 10 {
      DigitsBound(x / 10);
      var d := Digits(x / 10);
      assert Pow10(d) == 10 * Pow10(d - 1);
    }
  }

  lemma {:induction false} DigitsMonotone(x: nat, y: nat)
    requires x <= y
    ensures Digits(x) <= Digits(y)
  {
    if x >= 10 {
      DigitsMonotone(x / 10, y / 10);
    }
  }

  lemma {:induction false} DigitsOfPow10(n: nat)
    ensures Digits(Pow10(n)) == n + 1 && (n > 0 ==> Digits(Pow10(n) - 1) == n)
  {
    if n > 0 {
      DigitsOfPow10(n - 1);
      if n > 1 {
        assert (Pow10(n) - 1) / 10 == Pow10(n - 1) - 1;
      }
    }
  }

  /** Between two neighbouring powers of ten the digit count is fixed. */
  lemma DigitsBetween(x: nat, n: nat)
    requires Pow10(n) <= x < Pow10(n + 1)
    ensures Digits(x) == n + 1
  {
    DigitsOfPow10(n);
    DigitsOfPow10(n + 1);
    DigitsMonotone(Pow10(n), x);
    DigitsMonotone(x, Pow10(n + 1) - 1);
  }

  lemma {:induction false} DigitsShift(x: nat, k: nat)
    requires x > 0
    ensures x * Pow10(k) > 0 && Digits(x * Pow10(k)) == Digits(x) + k
  {
    if k > 0 {
      DigitsShift(x, k - 1);
      Tenfold(x, Pow10(k - 1));
      DigitsTenfold(x * Pow10(k - 1));
    } else {
      assert x * Pow10(0) == x;
    }
  }

  lemma Tenfold(x: nat, p: nat)
    ensures x * (10 * p) == 10 * (x * p)
  {
  }

  lemma DigitsTenfold(y: nat)
    requires y > 0
    ensures Digits(10 * y) == 1 + Digits(y)
  {
    assert 10 * y / 10 == y;
  }

  lemma DigitsBelow(x: nat, n: nat)
    requires n > 0 && x < Pow10(n)
    ensures Digits(x) <= n
  {
    DigitsOfPow10(n);
    DigitsMonotone(x, Pow10(n) - 1);
  }

  lemma Pow10Values()
    ensures Pow10(6) == 1_000_000
    ensures Pow10(12) == 1_000_000_000_000
    ensures Pow10(13) == 10_000_000_000_000
    ensures Pow10(18) == 1_000_000_000_000_000_000
    ensures Pow10(19) == 10_000_000_000_000_000_000 < TWO_TO_THE_64
  {
    assert Pow10(3) == 1000;
    Pow10Adds(3, 3);
    Pow10Adds(6, 6);
    Pow10Adds(12, 1);
    Pow10Adds(12, 6);
    Pow10Adds(18, 1);
    assert Pow10(1) == 10;
  }

  /** Every positive epoch of up to nineteen digits becomes a number of exactly nineteen digits,
      and the multiplication does not wrap around. */
  lemma NanosHasNineteenDigits(x: nat)
    requires 0 < x < Pow10(19)
    ensures Digits(x) <= 19 && Nanos(x) == x * Pow10(19 - Digits(x))
    ensures Pow10(18) <= Nanos(x) < Pow10(19) && Digits(Nanos(x)) == 19
  {
    DigitsBelow(x, 19);
    DigitsBound(x);
    var d := Digits(x);
    var scaled := x * Pow10(19 - d);
    ScaledInRange(x, d);
    DigitsBetween(scaled, 18);
    Pow10Values();
    NoWrap(scaled);
  }

  lemma NoWrap(v: nat)
    requires v < TWO_TO_THE_64
    ensures v % TWO_TO_THE_64 == v
  {
  }

  lemma ScaledInRange(x: nat, d: nat)
    requires 1 <= d <= 19 && Pow10(d - 1) <= x < Pow10(d)
    ensures Pow10(18) <= x * Pow10(19 - d) < Pow10(19)
  {
    Pow10Adds(d - 1, 19 - d);
    Pow10Adds(d, 19 - d);
    ScaledBounds(Pow10(d - 1), x, Pow10(d), Pow10(19 - d));
  }

  lemma ScaledBounds(lo: nat, x: nat, hi: nat, scale: nat)
    requires lo <= x < hi && scale >= 1
    ensures lo * scale <= x * scale < hi * scale
  {
  }

  /** The precision of an epoch does not matter: seconds, milliseconds, micro- and nanoseconds of one
      instant are scaled to the same number. */
  lemma NanosIgnoresPrecision(x: nat, k: nat)
    requires 0 < x * Pow10(k) < Pow10(19)
    ensures Nanos(x * Pow10(k)) == Nanos(x)
  {
    var y := x * Pow10(k);
    AtLeast(x, Pow10(k));
    DigitsShift(x, k);
    NanosHasNineteenDigits(x);
    NanosHasNineteenDigits(y);
    ScaleSplits(x, k, 19 - Digits(y));
  }

  lemma AtLeast(x: nat, p: nat)
    requires p >= 1
    ensures x <= x * p && (x == 0 ==> x * p == 0)
  {
  }

  lemma ScaleSplits(x: nat, k: nat, rest: nat)
    ensures x * Pow10(k) * Pow10(rest) == x * Pow10(k + rest)
  {
    Pow10Adds(k, rest);
    MulAssoc(x, Pow10(k), Pow10(rest));
  }

  lemma MulAssoc(a: int, b: int, c: int)
    ensures a * b * c == a * (b * c)
  {
  }

  // ----- step intervals -----

  /** The range in nanoseconds, on unsigned 64-bit numbers. */
  function RangeNanos(start: nat, end: nat): nat {
    (Nanos(end) - Nanos(start)) % TWO_TO_THE_64
  }

  /** The largest multiple of five seconds that is not longer than needed, and at least five seconds. */
  function StepOver(nanos: nat): nat {
    var step := nanos / NS_TO_SECONDS;
    if step < 5 then 5 else step - step % 5
  }

  /** What a step is: a multiple of five seconds, at least five; the largest that is not longer than
      needed, unless less than five seconds were needed. */
  lemma StepIsRounded(nanos: nat)
    ensures StepOver(nanos) % 5 == 0 && StepOver(nanos) >= 5
    ensures StepOver(nanos) > 5 ==> StepOver(nanos) * NS_TO_SECONDS <= nanos
    ensures nanos < (StepOver(nanos) + 5) * NS_TO_SECONDS
  {
    var step := nanos / NS_TO_SECONDS;
    assert nanos < (step + 1) * NS_TO_SECONDS;
    assert (step - step % 5) % 5 == 0;
  }

  function RecommendedStepInterval(start: nat, end: nat): nat {
    StepOver(RangeNanos(start, end) / RECOMMENDED_NUMBER_OF_POINTS)
  }

  function MinAllowedStepInterval(start: nat, end: nat): nat {
    StepOver(RangeNanos(start, end) / MAX_ALLOWED_NUMBER_OF_POINTS)
  }

  lemma StepOverMonotone(a: nat, b: nat)
    requires a <= b
    ensures StepOver(a) <= StepOver(b)
  {
    var few, many := a / NS_TO_SECONDS, b / NS_TO_SECONDS;
    assert few <= many && few / 5 <= many / 5;
    assert few - few % 5 == few / 5 * 5 && many - many % 5 == many / 5 * 5;
  }

  /** The recommended step is never overridden by the minimum allowed one. */
  lemma RecommendedIsAllowed(start: nat, end: nat)
    ensures MinAllowedStepInterval(start, end) <= RecommendedStepInterval(start, end)
  {
    MorePointsShorter(RangeNanos(start, end));
  }

  lemma MorePointsShorter(range: nat)
    ensures StepOver(range / MAX_ALLOWED_NUMBER_OF_POINTS) <= StepOver(range / RECOMMENDED_NUMBER_OF_POINTS)
  {
    StepOverMonotone(range / 1500, range / 300);
  }

  /** The recommended step is the largest multiple of five seconds that still gives 300 points, the minimum
      allowed one the largest that gives 1500; or five seconds, if that is too long already. */
  lemma StepsFitPoints(start: nat, end: nat)
    ensures var range, step := RangeNanos(start, end), RecommendedStepInterval(start, end);
            step % 5 == 0 && step >= 5 && (step > 5 ==> step * NS_TO_SECONDS * 300 <= range) && range < (step + 5) * NS_TO_SECONDS * 300
    ensures var range, step := RangeNanos(start, end), MinAllowedStepInterval(start, end);
            step % 5 == 0 && step >= 5 && (step > 5 ==> step * NS_TO_SECONDS * 1500 <= range) && range < (step + 5) * NS_TO_SECONDS * 1500
  {
    StepIsRounded(RangeNanos(start, end) / 300);
    StepIsRounded(RangeNanos(start, end) / 1500);
  }

  /** Stepping through the range with a chosen step gives fewer than twice the points it was chosen for. */
  lemma StepGivesFewPoints(start: nat, end: nat)
    ensures RangeNanos(start, end) < 2 * RECOMMENDED_NUMBER_OF_POINTS * RecommendedStepInterval(start, end) * NS_TO_SECONDS
    ensures RangeNanos(start, end) < 2 * MAX_ALLOWED_NUMBER_OF_POINTS * MinAllowedStepInterval(start, end) * NS_TO_SECONDS
  {
    FewPoints(RangeNanos(start, end), RECOMMENDED_NUMBER_OF_POINTS);
    FewPoints(RangeNanos(start, end), MAX_ALLOWED_NUMBER_OF_POINTS);
  }

  lemma FewPoints(range: nat, points: nat)
    requires points == RECOMMENDED_NUMBER_OF_POINTS || points == MAX_ALLOWED_NUMBER_OF_POINTS
    ensures range < 2 * points * StepOver(range / points) * NS_TO_SECONDS
  {
    var a := range / points;
    StepAtLeastHalf(a);
    assert range < points * (a + 1);
  }

  lemma StepAtLeastHalf(a: nat)
    ensures a + 1 <= 2 * StepOver(a) * NS_TO_SECONDS
  {
  }
}
