/**
 The midnight rule (app.py line 58): a transaction stamped in hour 0 is moved
 to one hour earlier with its minute forced to 59, which is 23:59 of the day
 before, seconds unchanged; any other timestamp is left as it is.

 A timestamp is a whole number of seconds counted from some midnight; days
 before that midnight are negative. Time zones, daylight saving and
 fractions of a second are not modelled.
 */
module Midnight {

  const SecondsPerMinute := 60
  const SecondsPerHour := 3600
  const SecondsPerDay := 86400

  /** The day a timestamp falls on (floor division: the remainder is never negative). */
  function Day(t: int): int
  {
    t / SecondsPerDay
  }

  function Hour(t: int): int
  {
    (t % SecondsPerDay) / SecondsPerHour
  }

  function Minute(t: int): int
  {
    (t % SecondsPerHour) / SecondsPerMinute
  }

  function Second(t: int): int
  {
    t % SecondsPerMinute
  }

  predicate IsClock(hour: int, minute: int, second: int) {
    0 <= hour < 24 && 0 <= minute < 60 && 0 <= second < 60
  }

  /** The timestamp of a day and a time of day. */
  function At(day: int, hour: int, minute: int, second: int): int
    requires IsClock(hour, minute, second)
  {
    day * SecondsPerDay + hour * SecondsPerHour + minute * SecondsPerMinute + second
  }

  lemma {:induction false} DivModUnique(t: int, d: int, q: int, r: int)
    requires d > 0 && 0 <= r < d && t == q * d + r
    ensures t / d == q && t % d == r
  {
    var k := q - t / d;
    assert k * d == t % d - r;
    OnlyZeroMultipleBelow(k, d);
  }

  /** The only multiple of a positive `d` strictly between `-d` and `d` is zero. */
  lemma {:induction false} OnlyZeroMultipleBelow(k: int, d: int)
    requires d > 0 && -d < k * d < d
    ensures k == 0
  {
    if k > 0 {
      MulAtLeast(k, d);
      assert false;
    } else if k < 0 {
      MulAtLeast(-k, d);
      assert false;
    }
  }

  lemma {:induction false} MulAtLeast(k: int, d: int)
    requires k >= 1 && d > 0
    ensures k * d >= d
  {
  }

  /** Reading the calendar fields back from a timestamp gives the fields it was built from. */
  lemma {:induction false} ClockRoundTrip(day: int, hour: int, minute: int, second: int)
    requires IsClock(hour, minute, second)
    ensures Day(At(day, hour, minute, second)) == day
    ensures Hour(At(day, hour, minute, second)) == hour
    ensures Minute(At(day, hour, minute, second)) == minute
    ensures Second(At(day, hour, minute, second)) == second
  {
    var t := At(day, hour, minute, second);
    var inDay := hour * SecondsPerHour + minute * SecondsPerMinute + second;
    DivModUnique(t, SecondsPerDay, day, inDay);
    DivModUnique(inDay, SecondsPerHour, hour, minute * SecondsPerMinute + second);
    DivModUnique(t, SecondsPerHour, day * 24 + hour, minute * SecondsPerMinute + second);
    DivModUnique(minute * SecondsPerMinute + second, SecondsPerMinute, minute, second);
    DivModUnique(t, SecondsPerMinute, day * 1440 + hour * 60 + minute, second);
  }

  /** Every timestamp is the timestamp of its own calendar fields. */
  lemma {:induction false} ClockOf(t: int)
    ensures IsClock(Hour(t), Minute(t), Second(t))
    ensures t == At(Day(t), Hour(t), Minute(t), Second(t))
  {
    var d, inDay := t / SecondsPerDay, t % SecondsPerDay;
    var h, inHour := inDay / SecondsPerHour, inDay % SecondsPerHour;
    var m, s := inHour / SecondsPerMinute, inHour % SecondsPerMinute;
    assert t == d * SecondsPerDay + inDay;
    assert inDay == h * SecondsPerHour + inHour;
    assert inHour == m * SecondsPerMinute + s;
    DivModUnique(t, SecondsPerHour, d * 24 + h, inHour);
    DivModUnique(t, SecondsPerMinute, d * 1440 + h * 60 + m, s);
  }

  /** `ts.replace(minute=m)`: same day, hour and second, the given minute. */
  function ReplaceMinute(t: int, m: int): (r: int)
    requires 0 <= m < 60
    ensures Day(r) == Day(t) && Hour(r) == Hour(t) && Minute(r) == m && Second(r) == Second(t)
  {
    ClockOf(t);
    ClockRoundTrip(Day(t), Hour(t), m, Second(t));
    t + (m - Minute(t)) * SecondsPerMinute
  }

  /**
   The timestamp the report shows for a transaction stamped `t`: hour 0 of a
   day becomes 23:59 of the day before, with the seconds kept.
   */
  function AdjustMidnight(t: int): (r: int)
    ensures Hour(t) != 0 ==> r == t
    ensures Hour(t) == 0 ==> r == At(Day(t) - 1, 23, 59, Second(t))
    ensures Hour(t) == 0 ==> At(Day(t), 0, 0, 0) - SecondsPerMinute <= r < At(Day(t), 0, 0, 0)
  {
    ClockOf(t);
    if Hour(t) == 0 then
      var earlier := t - SecondsPerHour;
      assert earlier == At(Day(t) - 1, 23, Minute(t), Second(t));
      ClockRoundTrip(Day(t) - 1, 23, Minute(t), Second(t));
      ReplaceMinute(earlier, 59)
    else
      t
  }

  /** The adjusted time never falls in hour 0, so adjusting twice changes nothing more. */
  lemma {:induction false} AdjustMidnightIdempotent(t: int)
    ensures Hour(AdjustMidnight(t)) != 0
    ensures AdjustMidnight(AdjustMidnight(t)) == AdjustMidnight(t)
  {
    if Hour(t) == 0 {
      ClockOf(t);
      ClockRoundTrip(Day(t) - 1, 23, 59, Second(t));
    }
  }

  /** A transaction is only ever moved back, by at most one hour. */
  lemma {:induction false} AdjustMidnightMovesBack(t: int)
    ensures t - SecondsPerHour <= AdjustMidnight(t) <= t
  {
    ClockOf(t);
  }

  /**
   The comment at app.py line 57, as arithmetic: midnight of a day becomes 23:59:00
   of the day before (for instance 2024-01-05 00:00:00, day 19727 counted
   from 1970-01-01, becomes 2024-01-04 23:59:00).
   */
  lemma {:induction false} MidnightBecomesPreviousMinute(day: int)
    ensures AdjustMidnight(At(day, 0, 0, 0)) == At(day - 1, 23, 59, 0)
  {
    ClockRoundTrip(day, 0, 0, 0);
  }
}
