/** Instants as whole seconds on one local time line. The wall clock is never
    read: every operation that needs "now" receives it as a parameter. */
module Clock {

  const SecondsPerDay: int := 86400

  /** Seconds since the epoch, local time. */
  type Stamp = int

  /** The calendar day of an instant (`$date->format('Y-m-d')`). Dafny's `/`
      rounds toward minus infinity on a positive divisor, so instants before
      the epoch land on the right day too. */
  function Day(t: Stamp): int {
    t / SecondsPerDay
  }

  /** 00:00:00 of a day (`new DateTimeImmutable('Y-m-d')`). */
  function Midnight(day: int): Stamp {
    day * SecondsPerDay
  }

  function Hour(t: Stamp): int {
    (t % SecondsPerDay) / 3600
  }

  function Minute(t: Stamp): int {
    (t % 3600) / 60
  }

  predicate IsMidnight(t: Stamp) {
    t % SecondsPerDay == 0
  }

  /** An instant lies between the midnight of its own day and the next one. */
  lemma DayBounds(t: Stamp)
    ensures Midnight(Day(t)) <= t < Midnight(Day(t) + 1)
  {
  }

  lemma DayOfMidnight(day: int)
    ensures Day(Midnight(day)) == day
    ensures IsMidnight(Midnight(day))
  {
  }

  /** The instant `day` days, `h` hours, `m` minutes and `s` seconds in. */
  lemma ClockFields(day: int, h: int, m: int, s: int)
    requires 0 <= h < 24 && 0 <= m < 60 && 0 <= s < 60
    ensures Day(Midnight(day) + h * 3600 + m * 60 + s) == day
    ensures Hour(Midnight(day) + h * 3600 + m * 60 + s) == h
    ensures Minute(Midnight(day) + h * 3600 + m * 60 + s) == m
  {
    var t := Midnight(day) + h * 3600 + m * 60 + s;
    var r := h * 3600 + m * 60 + s;
    SplitDay(t, day, r);
    SplitHour(r, h, m * 60 + s);
    SplitHour(t, day * 24 + h, m * 60 + s);
    SplitMinute(m * 60 + s, m, s);
  }

  /** Division by a day, an hour, a minute recovers the quotient and remainder
      an instant was built from. */
  lemma SplitDay(t: int, q: int, r: int)
    requires 0 <= r < SecondsPerDay && t == q * SecondsPerDay + r
    ensures t / SecondsPerDay == q && t % SecondsPerDay == r
  {
  }

  lemma SplitHour(t: int, q: int, r: int)
    requires 0 <= r < 3600 && t == q * 3600 + r
    ensures t / 3600 == q && t % 3600 == r
  {
  }

  lemma SplitMinute(t: int, q: int, r: int)
    requires 0 <= r < 60 && t == q * 60 + r
    ensures t / 60 == q && t % 60 == r
  {
  }
}
