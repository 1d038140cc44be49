/**
 The countdown display's tick: each tick computes the time left, flags the
 fields whose value differs from the previous tick's (the flag is what makes
 a digit animate), and then records the new value as both the previous and
 the displayed one.
 */
module CountdownTimer {
  import opened TimeLeftCalc

  /** The four displayed fields. */
  datatype Field = Days | Hours | Minutes | Seconds

  const AllFields: set<Field> := {Days, Hours, Minutes, Seconds}

  function FieldValue(t: TimeLeft, f: Field): int {
    match f
    case Days => t.days
    case Hours => t.hours
    case Minutes => t.minutes
    case Seconds => t.seconds
  }

  /** The "previous value" before any tick: every field -1, which no computed
      field can equal. */
  const Unset: TimeLeft := TimeLeft(-1, -1, -1, -1)

  /** The fields whose value differs between two samples. */
  function ChangedFields(prev: TimeLeft, next: TimeLeft): (c: set<Field>)
    ensures c <= AllFields
    ensures forall f :: f in c <==> FieldValue(prev, f) != FieldValue(next, f)
    ensures c == {} <==> prev == next
  {
    var c := set f | f in AllFields && FieldValue(prev, f) != FieldValue(next, f);
    assert c == {} ==> Days !in c && Hours !in c && Minutes !in c && Seconds !in c;
    c
  }

  /** The first tick after mounting flags every field. */
  lemma FirstTickFlagsAll(target: int, now: int)
    ensures ChangedFields(Unset, CalculateTimeLeft(target, now)) == AllFields
  {
  }

  /** Once the display has reached all zeros, a later tick flags nothing. */
  lemma ExpiredTickFlagsNone(target: int, earlier: int, later: int)
    requires earlier <= later
    requires CalculateTimeLeft(target, earlier) == Zero
    ensures ChangedFields(CalculateTimeLeft(target, earlier), CalculateTimeLeft(target, later)) == {}
  {
  }

  /** While at least one second is left, a tick one second later flags the
      seconds field. */
  lemma CountingTickFlagsSeconds(target: int, now: int)
    requires target - now >= 1000
    ensures Seconds in ChangedFields(CalculateTimeLeft(target, now), CalculateTimeLeft(target, now + 1000))
  {
  }

  /** The state one countdown display owns: the target instant, the value of
      the previous tick and the value on screen. */
  class Countdown {
    var target: int
    var prev: TimeLeft
    var shown: TimeLeft

    /** The states a display can reach: either no tick has run yet, or the
        last tick's value, in clock range, is both the previous and the
        displayed one. Every operation establishes or preserves it; none
        needs it. */
    ghost predicate Valid()
      reads this
    {
      (prev == Unset && shown == Zero) || (prev == shown && InRange(shown))
    }

    /** Mounting: the previous value is unset and the display reads zeros. */
    constructor (target: int)
      ensures Valid()
      ensures this.target == target && prev == Unset && shown == Zero
    {
      this.target := target;
      prev := Unset;
      shown := Zero;
    }

    /** One tick at time `now`; returns the fields to animate. */
    method Tick(now: int) returns (changed: set<Field>)
      modifies this
      ensures Valid() && target == old(target)
      ensures shown == CalculateTimeLeft(target, now) && prev == shown
      ensures changed == ChangedFields(old(prev), shown)
      ensures old(prev) == Unset ==> changed == AllFields
      ensures old(prev) == Zero && target - now < 1000 ==> changed == {}
    {
      var next := CalculateTimeLeft(target, now);
      changed := {};
      if prev.seconds != next.seconds {
        changed := changed + {Seconds};
      }
      if prev.minutes != next.minutes {
        changed := changed + {Minutes};
      }
      if prev.hours != next.hours {
        changed := changed + {Hours};
      }
      if prev.days != next.days {
        changed := changed + {Days};
      }
      prev := next;
      shown := next;
    }

    /** A new target date: the running timer is replaced and a tick runs at
        once against the new target. The previous value survives, so only the
        fields that differ from it are flagged. */
    method Retarget(newTarget: int, now: int) returns (changed: set<Field>)
      modifies this
      ensures Valid()
      ensures target == newTarget
      ensures shown == CalculateTimeLeft(newTarget, now) && prev == shown
      ensures changed == ChangedFields(old(prev), shown)
    {
      target := newTarget;
      changed := Tick(now);
    }
  }

  /** Mounting a display and running its immediate first tick animates every
      field and shows the time left. */
  method Mount(target: int, now: int) returns (display: Countdown, changed: set<Field>)
    ensures fresh(display) && display.Valid() && display.target == target
    ensures display.shown == CalculateTimeLeft(target, now) && display.prev == display.shown
    ensures changed == AllFields
  {
    display := new Countdown(target);
    changed := display.Tick(now);
  }
}
