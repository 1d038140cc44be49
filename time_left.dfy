/**
 The countdown arithmetic of the festival countdown: the signed number of
 milliseconds between a target instant and a sampled "now" is broken into
 whole days, hours, minutes and seconds. Instants are millisecond timestamps
 (integers); the clock is not read here, "now" is a parameter.
 */
module TimeLeftCalc {

  /** What the countdown displays. Fields are plain integers because the
      component's "previous value" starts out as all -1. */
  datatype TimeLeft = TimeLeft(days: int, hours: int, minutes: int, seconds: int)

  const Zero: TimeLeft := TimeLeft(0, 0, 0, 0)

  /** Every field lies in its clock range; days are unbounded above. */
  predicate InRange(t: TimeLeft) {
    0 <= t.days && 0 <= t.hours < 24 && 0 <= t.minutes < 60 && 0 <= t.seconds < 60
  }

  /** The number of milliseconds the four fields stand for. */
  function Milliseconds(t: TimeLeft): int {
    t.days * 86400000 + t.hours * 3600000 + t.minutes * 60000 + t.seconds * 1000
  }

  /** The number of whole seconds the four fields stand for. */
  function WholeSeconds(t: TimeLeft): int {
    t.days * 86400 + t.hours * 3600 + t.minutes * 60 + t.seconds
  }

  /** The time left from `now` until `target`, floored to whole units and
      clamped to all zeros once the target is reached or passed. For a
      non-negative dividend Dafny's `/` and `%` agree with JavaScript's
      `Math.floor(x / k)` and `Math.floor((x / k) % m)`. */
  function CalculateTimeLeft(target: int, now: int): (t: TimeLeft)
    ensures InRange(t)
    ensures target - now <= 0 ==> t == Zero
  {
    var difference := target - now;
    if difference <= 0 then Zero
    else TimeLeft(difference / 86400000,
                  (difference / 3600000) % 24,
                  (difference / 1000 / 60) % 60,
                  (difference / 1000) % 60)
  }

  /** For a positive difference the four fields are the mixed-radix digits of
      the number of whole seconds left. */
  lemma DigitsOfWholeSeconds(d: int)
    requires d > 0
    ensures var s := d / 1000;
            d / 86400000 == s / 86400 &&
            d / 3600000 == s / 3600 &&
            d / 1000 / 60 == s / 60 &&
            s / 3600 == (s / 86400) * 24 + (s / 3600) % 24 &&
            s / 60 == (s / 3600) * 60 + (s / 60) % 60 &&
            s == (s / 60) * 60 + s % 60
  {
  }

  /** Reconstruction: a positive difference is the sum of the four fields in
      milliseconds plus a sub-second remainder; only that remainder is lost.
      `days` is the number of whole days in the difference. */
  lemma Reconstruction(target: int, now: int)
    requires target - now > 0
    ensures var t := CalculateTimeLeft(target, now);
            Milliseconds(t) <= target - now < Milliseconds(t) + 1000 &&
            t.days * 86400000 <= target - now < (t.days + 1) * 86400000
  {
    DigitsOfWholeSeconds(target - now);
  }

  /** The decomposition is the only in-range one: any in-range value whose
      milliseconds are within one second below the difference is the result. */
  lemma Uniqueness(target: int, now: int, t: TimeLeft)
    requires InRange(t)
    requires Milliseconds(t) <= target - now < Milliseconds(t) + 1000
    ensures CalculateTimeLeft(target, now) == t
  {
    var d := target - now;
    var u := CalculateTimeLeft(target, now);
    assert Milliseconds(t) == WholeSeconds(t) * 1000;
    if d <= 0 {
      assert WholeSeconds(t) == 0;
      MixedRadixUnique(t, Zero);
    } else {
      Reconstruction(target, now);
      assert Milliseconds(u) == WholeSeconds(u) * 1000;
      SecondsOfMilliseconds(WholeSeconds(t), d);
      SecondsOfMilliseconds(WholeSeconds(u), d);
      MixedRadixUnique(t, u);
    }
  }

  /** Whole seconds are determined by the milliseconds they are within one second of. */
  lemma SecondsOfMilliseconds(s: int, d: int)
    requires s * 1000 <= d < s * 1000 + 1000
    ensures s == d / 1000
  {
  }

  /** Two in-range values standing for the same number of whole seconds are equal. */
  lemma MixedRadixUnique(t: TimeLeft, u: TimeLeft)
    requires InRange(t) && InRange(u)
    requires WholeSeconds(t) == WholeSeconds(u)
    ensures t == u
  {
  }

  /** The fields of an in-range value are the mixed-radix digits of its whole seconds. */
  lemma FieldsOfWholeSeconds(t: TimeLeft)
    requires InRange(t)
    ensures var s := WholeSeconds(t);
            t.seconds == s % 60 && t.minutes == (s / 60) % 60 &&
            t.hours == (s / 3600) % 24 && t.days == s / 86400
  {
    var s := WholeSeconds(t);
    DivModUnique(s, 60, t.days * 1440 + t.hours * 60 + t.minutes, t.seconds);
    DivModUnique(s / 60, 60, t.days * 24 + t.hours, t.minutes);
    DivModUnique(s, 3600, t.days * 24 + t.hours, t.minutes * 60 + t.seconds);
    DivModUnique(s / 3600, 24, t.days, t.hours);
    DivModUnique(s, 86400, t.days, t.hours * 3600 + t.minutes * 60 + t.seconds);
  }

  /** Quotient and remainder are unique. */
  lemma DivModUnique(x: int, m: int, q: int, r: int)
    requires m > 0 && 0 <= r < m && x == q * m + r
    ensures x / m == q && x % m == r
  {
    var q' := x / m;
    if q' < q {
      assert x - q' * m == (q - q') * m + r;
      MulAtLeast(q - q', m);
    } else if q' > q {
      assert (q' - q) * m + x % m == r;
      MulAtLeast(q' - q, m);
    }
  }

  lemma MulAtLeast(a: int, m: int)
    requires a >= 1 && m > 0
    ensures a * m >= m
  {
  }

  /** The whole seconds shown are the whole seconds left, or zero once expired. */
  lemma WholeSecondsLeft(target: int, now: int)
    ensures WholeSeconds(CalculateTimeLeft(target, now)) ==
            if target - now <= 0 then 0 else (target - now) / 1000
  {
    if target - now > 0 {
      Reconstruction(target, now);
    }
  }

  /** Monotonicity: for a fixed target a later sample never shows more whole
      seconds than an earlier one. */
  lemma Monotonic(target: int, earlier: int, later: int)
    requires earlier <= later
    ensures WholeSeconds(CalculateTimeLeft(target, later)) <= WholeSeconds(CalculateTimeLeft(target, earlier))
  {
    WholeSecondsLeft(target, earlier);
    WholeSecondsLeft(target, later);
  }

  /** The display reads all zeros exactly when less than one second is left. */
  lemma ZeroIffUnderOneSecond(target: int, now: int)
    ensures CalculateTimeLeft(target, now) == Zero <==> target - now < 1000
  {
  }

  /** Expiry is permanent: once all zeros are shown, every later sample shows all zeros. */
  lemma ExpiryIsPermanent(target: int, earlier: int, later: int)
    requires earlier <= later
    requires CalculateTimeLeft(target, earlier) == Zero
    ensures CalculateTimeLeft(target, later) == Zero
  {
  }

  /** A sample taken one second after a non-zero one shows exactly one whole
      second less, so the seconds field always changes on a one-second tick
      while counting. */
  lemma OneSecondLater(target: int, now: int)
    requires target - now >= 1000
    ensures var before := CalculateTimeLeft(target, now);
            var after := CalculateTimeLeft(target, now + 1000);
            WholeSeconds(after) == WholeSeconds(before) - 1 && after.seconds != before.seconds
  {
    var before := CalculateTimeLeft(target, now);
    var after := CalculateTimeLeft(target, now + 1000);
    var s, s' := WholeSeconds(before), WholeSeconds(after);
    assert s' == s - 1 && s' % 60 != s % 60 by {
      WholeSecondsLeft(target, now);
      WholeSecondsLeft(target, now + 1000);
      OneSecondLess(target - now, s, s');
    }
    assert before.seconds == s % 60 by { FieldsOfWholeSeconds(before); }
    assert after.seconds == s' % 60 by { FieldsOfWholeSeconds(after); }
  }

  /** Whole seconds left one second later, and their last digit in base 60. */
  lemma OneSecondLess(d: int, s: int, s': int)
    requires d >= 1000
    requires s == d / 1000
    requires s' == if d - 1000 <= 0 then 0 else (d - 1000) / 1000
    ensures s' == s - 1 && s' % 60 != s % 60
  {
  }

  /** The page sets the target three days after its own clock read. A sample
      taken in that same millisecond reads 3:00:00:00; at and after the target
      every sample reads zeros. */
  lemma ThreeDaysAhead(start: int)
    ensures CalculateTimeLeft(start + 3 * 86400000, start) == TimeLeft(3, 0, 0, 0)
    ensures CalculateTimeLeft(start + 3 * 86400000, start + 90061000) == TimeLeft(1, 22, 58, 59)
    ensures CalculateTimeLeft(start + 3 * 86400000, start + 3 * 86400000) == Zero
    ensures CalculateTimeLeft(start + 3 * 86400000, start + 300000000) == Zero
  {
  }

  /** The countdown's first sample is taken after the page's clock read; up to
      one second later it reads 2:23:59:59. */
  lemma FirstSampleAfterTarget(start: int, elapsed: int)
    requires 1 <= elapsed <= 1000
    ensures CalculateTimeLeft(start + 3 * 86400000, start + elapsed) == TimeLeft(2, 23, 59, 59)
  {
  }
}
