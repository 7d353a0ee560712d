/**
 * Local calendar time as the front end sees it through `Date` and date-fns: a day index
 * (days since 1970-01-01) and a time of day. There is no time zone and no daylight saving,
 * so every day has 24 hours. Setting an out-of-range hour or minute rolls over into the
 * neighbouring day, as `Date.setHours` / `Date.setMinutes` do.
 */
module LocalTime {
  import opened Wrappers

  const MsPerSecond := 1000
  const MsPerMinute := 60_000
  const MsPerHour := 3_600_000
  const MsPerDay := 86_400_000

  datatype LocalDateTime = LocalDateTime(day: int, hour: int, minute: int, second: int, milli: int) {
    predicate Valid() {
      0 <= hour < 24 && 0 <= minute < 60 && 0 <= second < 60 && 0 <= milli < 1000
    }
  }

  /** Milliseconds since the start of the day. */
  function TimeOfDay(t: LocalDateTime): int {
    t.hour * MsPerHour + t.minute * MsPerMinute + t.second * MsPerSecond + t.milli
  }

  /** The instant as milliseconds since 1970-01-01T00:00 (`getTime()` with no time zone). */
  function ToMillis(t: LocalDateTime): int {
    t.day * MsPerDay + TimeOfDay(t)
  }

  /** The time at an instant. */
  function FromMillis(n: int): (t: LocalDateTime)
    ensures t.Valid()
    ensures ToMillis(t) == n
  {
    var d, inDay := n / MsPerDay, n % MsPerDay;
    var h, inHour := inDay / MsPerHour, inDay % MsPerHour;
    var m, inMinute := inHour / MsPerMinute, inHour % MsPerMinute;
    var sec, ms := inMinute / MsPerSecond, inMinute % MsPerSecond;
    assert n == d * MsPerDay + inDay;
    assert inDay == h * MsPerHour + inHour;
    assert inHour == m * MsPerMinute + inMinute;
    assert inMinute == sec * MsPerSecond + ms;
    LocalDateTime(d, h, m, sec, ms)
  }

  lemma TimeOfDayBounds(t: LocalDateTime)
    requires t.Valid()
    ensures 0 <= TimeOfDay(t) < MsPerDay
  {
  }

  /** A valid time is recovered from its instant: `ToMillis` and `FromMillis` are inverse. */
  lemma {:induction false} FromToMillis(t: LocalDateTime)
    requires t.Valid()
    ensures FromMillis(ToMillis(t)) == t
  {
    var n := ToMillis(t);
    TimeOfDayBounds(t);
    assert n / MsPerDay == t.day;
    assert n % MsPerDay == TimeOfDay(t);
    var r := TimeOfDay(t);
    assert r / MsPerHour == t.hour;
    assert r % MsPerHour == t.minute * MsPerMinute + t.second * MsPerSecond + t.milli;
  }

  /** Distinct valid times are distinct instants. */
  lemma ToMillisInjective(a: LocalDateTime, b: LocalDateTime)
    requires a.Valid() && b.Valid()
    requires ToMillis(a) == ToMillis(b)
    ensures a == b
  {
    FromToMillis(a);
    FromToMillis(b);
  }

  /** Comparing instants is comparing days, then times of day. */
  lemma BeforeIsLexicographic(a: LocalDateTime, b: LocalDateTime)
    requires a.Valid() && b.Valid()
    ensures ToMillis(a) < ToMillis(b) <==> a.day < b.day || (a.day == b.day && TimeOfDay(a) < TimeOfDay(b))
    ensures ToMillis(a) <= ToMillis(b) <==> a.day < b.day || (a.day == b.day && TimeOfDay(a) <= TimeOfDay(b))
  {
  }

  /** date-fns `startOfDay`: 00:00:00.000 of the same day. */
  function StartOfDay(t: LocalDateTime): (r: LocalDateTime)
    requires t.Valid()
    ensures r.Valid() && r.day == t.day && TimeOfDay(r) == 0
    ensures ToMillis(r) <= ToMillis(t)
  {
    LocalDateTime(t.day, 0, 0, 0, 0)
  }

  /** date-fns `addDays`: the same time of day `n` days later. */
  function AddDays(t: LocalDateTime, n: int): (r: LocalDateTime)
    requires t.Valid()
    ensures r.Valid() && r.day == t.day + n && TimeOfDay(r) == TimeOfDay(t)
    ensures ToMillis(r) == ToMillis(t) + n * MsPerDay
  {
    t.(day := t.day + n)
  }

  /** date-fns `addHours`: `h` hours later, across midnight if need be. */
  function AddHours(t: LocalDateTime, h: int): (r: LocalDateTime)
    requires t.Valid()
    ensures r.Valid()
    ensures ToMillis(r) == ToMillis(t) + h * MsPerHour
  {
    FromMillis(ToMillis(t) + h * MsPerHour)
  }

  /** date-fns `setMinutes`: minute `m` of the same hour; seconds and milliseconds are kept. */
  function SetMinutes(t: LocalDateTime, m: int): (r: LocalDateTime)
    requires t.Valid()
    ensures r.Valid()
    ensures ToMillis(r) == ToMillis(t) + (m - t.minute) * MsPerMinute
    ensures 0 <= m < 60 ==> r == t.(minute := m)
  {
    var r := FromMillis(ToMillis(t.(minute := 0)) + m * MsPerMinute);
    assert 0 <= m < 60 ==> r == t.(minute := m) by {
      if 0 <= m < 60 {
        FromToMillis(t.(minute := m));
      }
    }
    r
  }

  /** date-fns `setHours`: hour `h` of the same day; minutes, seconds and milliseconds are kept. */
  function SetHours(t: LocalDateTime, h: int): (r: LocalDateTime)
    requires t.Valid()
    ensures r.Valid()
    ensures ToMillis(r) == ToMillis(t) + (h - t.hour) * MsPerHour
    ensures 0 <= h < 24 ==> r == t.(hour := h)
  {
    var r := FromMillis(ToMillis(t.(hour := 0)) + h * MsPerHour);
    assert 0 <= h < 24 ==> r == t.(hour := h) by {
      if 0 <= h < 24 {
        FromToMillis(t.(hour := h));
      }
    }
    r
  }

  /** `isTimeAtMidnight`: 00:00:00, whatever the milliseconds. */
  predicate IsTimeAtMidnight(t: LocalDateTime) {
    t.hour == 0 && t.minute == 0 && t.second == 0
  }

  /** `isTimeAtEndOfDay`: 23:59, whatever the seconds. */
  predicate IsTimeAtEndOfDay(t: LocalDateTime) {
    t.hour == 23 && t.minute == 59
  }

  /** `createTimeAtEndOfDay`: 23:59:00.000 of the same day. */
  function CreateTimeAtEndOfDay(t: LocalDateTime): (r: LocalDateTime)
    requires t.Valid()
    ensures r.Valid() && r.day == t.day && IsTimeAtEndOfDay(r)
    ensures r.second == 0 && r.milli == 0
  {
    LocalDateTime(t.day, 23, 59, 0, 0)
  }

  /**
   * `setDateHours(date, hours, minutes)`: `setHours(setMinutes(date, minutes || 0), hours)`;
   * an absent (or zero) minute count is minute 0.
   */
  function SetDateHours(t: LocalDateTime, h: int, m: Option<int>): (r: LocalDateTime)
    requires t.Valid()
    ensures r.Valid()
    ensures var mm := if m.Some? then m.value else 0;
            0 <= h < 24 && 0 <= mm < 60 ==> r == LocalDateTime(t.day, h, mm, t.second, t.milli)
  {
    SetHours(SetMinutes(t, if m.Some? then m.value else 0), h)
  }

  /** `createTimeAtHour(date, hour, minute = 0)`. */
  function CreateTimeAtHour(t: LocalDateTime, h: int, m: int := 0): (r: LocalDateTime)
    requires t.Valid()
    ensures r.Valid()
    ensures 0 <= h < 24 && 0 <= m < 60 ==> r == LocalDateTime(t.day, h, m, t.second, t.milli)
  {
    SetDateHours(t, h, Some(m))
  }

  /** `isSameDay`. */
  predicate IsSameDay(a: LocalDateTime, b: LocalDateTime) {
    a.day == b.day
  }

  /** The end of a day is 23:59 of it and the end-of-day predicate holds of exactly those times. */
  lemma EndOfDayCharacterised(t: LocalDateTime)
    requires t.Valid()
    ensures IsTimeAtEndOfDay(CreateTimeAtEndOfDay(t))
    ensures IsTimeAtMidnight(StartOfDay(t))
    ensures ToMillis(StartOfDay(t)) < ToMillis(CreateTimeAtEndOfDay(t))
  {
  }
}
