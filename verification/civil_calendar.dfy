/**
 * The proleptic Gregorian calendar on day indices (day 0 is Thursday 1970-01-01): the
 * year, month and day of month of a day, weeks starting on Sunday, and the date-fns
 * helpers the month view uses (`startOfMonth`, `previousSunday`, `startOfWeek`,
 * `isSameMonth`).
 */
module CivilCalendar {
  import opened LocalTime

  const EpochYear := 1970

  predicate IsLeapYear(y: int) {
    (y % 4 == 0 && y % 100 != 0) || y % 400 == 0
  }

  function DaysInYear(y: int): int {
    if IsLeapYear(y) then 366 else 365
  }

  /** Days in month `m` of a leap (`leap`) or common year. */
  function DaysInMonth(leap: bool, m: int): (n: int)
    requires 1 <= m <= 12
    ensures 28 <= n <= 31
  {
    if m == 2 then (if leap then 29 else 28)
    else if m == 4 || m == 6 || m == 9 || m == 11 then 30
    else 31
  }

  /** Days from the first of January to the first of month `m`. */
  function MonthOffset(leap: bool, m: int): (n: int)
    requires 1 <= m <= 12
    ensures 0 <= n <= 335
  {
    [0, 31, 59, 90, 120, 151, 181, 212, 243, 273, 304, 334][m - 1] + (if leap && m > 2 then 1 else 0)
  }

  /** The offsets agree with the month lengths, and the twelve months fill the year. */
  lemma MonthOffsetStep(leap: bool, m: int)
    requires 1 <= m <= 12
    ensures m < 12 ==> MonthOffset(leap, m + 1) == MonthOffset(leap, m) + DaysInMonth(leap, m)
    ensures m == 12 ==> MonthOffset(leap, m) + DaysInMonth(leap, m) == if leap then 366 else 365
  {
  }

  /** The month, at most `j`, that day `doy` of the year (counting from 0) falls in. */
  function MonthFrom(leap: bool, j: int, doy: nat): (m: int)
    requires 1 <= j <= 12
    ensures 1 <= m <= j
    ensures MonthOffset(leap, m) <= doy
    ensures m < j ==> doy < MonthOffset(leap, m + 1)
    decreases j
  {
    if MonthOffset(leap, j) <= doy then j else MonthFrom(leap, j - 1, doy)
  }

  /** Walks forward from the first day of year `y` by `z` days: the year reached and the day of that year. */
  function YearForward(y: int, z: nat): (r: (int, nat))
    ensures r.1 < DaysInYear(r.0)
    ensures r.1 <= z
    decreases z
  {
    if z < DaysInYear(y) then (y, z) else YearForward(y + 1, z - DaysInYear(y))
  }

  /** Walks back from the first day of year `y` by `-z` days. */
  function YearBackward(y: int, z: int): (r: (int, nat))
    requires z < 0
    ensures r.1 < DaysInYear(r.0)
    decreases -z
  {
    var z' := z + DaysInYear(y - 1);
    if z' >= 0 then (y - 1, z') else YearBackward(y - 1, z')
  }

  /** The year of day index `z` and the day of that year, counting from 0. */
  function YearAndDay(z: int): (r: (int, nat))
    ensures r.1 < DaysInYear(r.0)
  {
    if z >= 0 then YearForward(EpochYear, z) else YearBackward(EpochYear, z)
  }

  datatype CivilDate = CivilDate(year: int, month: int, dayOfMonth: int)

  /** The calendar date of day index `z`. */
  function CivilDateOf(z: int): (c: CivilDate)
    ensures 1 <= c.month <= 12
    ensures 1 <= c.dayOfMonth <= DaysInMonth(IsLeapYear(c.year), c.month)
  {
    var (y, doy) := YearAndDay(z);
    var leap := IsLeapYear(y);
    var m := MonthFrom(leap, 12, doy);
    MonthOffsetStep(leap, m);
    CivilDate(y, m, doy - MonthOffset(leap, m) + 1)
  }

  lemma {:induction false} YearForwardShift(y: int, z: nat, k: nat)
    requires k <= YearForward(y, z).1
    ensures YearForward(y, z - k) == (YearForward(y, z).0, YearForward(y, z).1 - k)
    decreases z
  {
    if z >= DaysInYear(y) {
      YearForwardShift(y + 1, z - DaysInYear(y), k);
    }
  }

  lemma {:induction false} YearBackwardShift(y: int, z: int, k: nat)
    requires z < 0
    requires k <= YearBackward(y, z).1
    ensures YearBackward(y, z - k) == (YearBackward(y, z).0, YearBackward(y, z).1 - k)
    decreases -z
  {
    var z' := z + DaysInYear(y - 1);
    if z' < 0 {
      YearBackwardShift(y - 1, z', k);
    }
  }

  /** Going back no further than the first day of the year keeps the year. */
  lemma YearAndDayShift(z: int, k: nat)
    requires k <= YearAndDay(z).1
    ensures YearAndDay(z - k) == (YearAndDay(z).0, YearAndDay(z).1 - k)
  {
    if z >= 0 {
      YearForwardShift(EpochYear, z, k);
    } else {
      YearBackwardShift(EpochYear, z, k);
    }
  }

  /** Going back no further than the first of the month keeps the month. */
  lemma {:induction false} MonthFromShift(leap: bool, j: int, doy: nat, k: nat)
    requires 1 <= j <= 12
    requires k <= doy - MonthOffset(leap, MonthFrom(leap, j, doy))
    ensures MonthFrom(leap, j, doy - k) == MonthFrom(leap, j, doy)
    decreases j
  {
    if MonthOffset(leap, j) > doy {
      MonthFromShift(leap, j - 1, doy, k);
    }
  }

  /** Going back `k` days without leaving the month keeps year and month and lowers the day of month by `k`. */
  lemma SameMonthShift(z: int, k: nat)
    requires k < CivilDateOf(z).dayOfMonth
    ensures var c := CivilDateOf(z);
            CivilDateOf(z - k) == CivilDate(c.year, c.month, c.dayOfMonth - k)
  {
    var y, doy := YearAndDay(z).0, YearAndDay(z).1;
    var leap := IsLeapYear(y);
    var m := MonthFrom(leap, 12, doy);
    assert CivilDateOf(z) == CivilDate(y, m, doy - MonthOffset(leap, m) + 1);
    YearAndDayShift(z, k);
    MonthFromShift(leap, 12, doy, k);
    assert CivilDateOf(z - k) == CivilDate(y, m, doy - k - MonthOffset(leap, m) + 1);
  }

  /** Day of the week, 0 for Sunday through 6 for Saturday (`getDay`). */
  function Weekday(z: int): (w: int)
    ensures 0 <= w < 7
  {
    (z + 4) % 7
  }

  /** date-fns `startOfMonth`: 00:00 on the first of the month. */
  function StartOfMonth(t: LocalDateTime): (r: LocalDateTime)
    requires t.Valid()
    ensures r.Valid() && IsTimeAtMidnight(r) && r.milli == 0
    ensures var c := CivilDateOf(t.day);
            CivilDateOf(r.day) == CivilDate(c.year, c.month, 1)
    ensures t.day - 31 < r.day <= t.day
  {
    var k := CivilDateOf(t.day).dayOfMonth - 1;
    SameMonthShift(t.day, k);
    LocalDateTime(t.day - k, 0, 0, 0, 0)
  }

  /** date-fns `previousSunday`: the nearest Sunday strictly before, at the same time of day. */
  function PreviousSunday(t: LocalDateTime): (r: LocalDateTime)
    requires t.Valid()
    ensures r.Valid() && TimeOfDay(r) == TimeOfDay(t)
    ensures Weekday(r.day) == 0
    ensures 1 <= t.day - r.day <= 7
    ensures t.day - r.day == 7 <==> Weekday(t.day) == 0
  {
    var w := Weekday(t.day);
    AddDays(t, -(if w == 0 then 7 else w))
  }

  /** date-fns `startOfWeek` (weeks start on Sunday): 00:00 on the Sunday on or before. */
  function StartOfWeek(t: LocalDateTime): (r: LocalDateTime)
    requires t.Valid()
    ensures r.Valid() && IsTimeAtMidnight(r) && r.milli == 0
    ensures Weekday(r.day) == 0
    ensures 0 <= t.day - r.day < 7
  {
    LocalDateTime(t.day - Weekday(t.day), 0, 0, 0, 0)
  }

  /** date-fns `isSameMonth`: same year and month. */
  predicate IsSameMonth(a: LocalDateTime, b: LocalDateTime) {
    var ca, cb := CivilDateOf(a.day), CivilDateOf(b.day);
    ca.year == cb.year && ca.month == cb.month
  }

  /**
   * `getCalendarStartDate` as written: the Sunday strictly before the first of the
   * selected month. When the first is itself a Sunday it lands in the grid's second row.
   */
  function CalendarStartDateAsWritten(selected: LocalDateTime): (r: LocalDateTime)
    requires selected.Valid()
    ensures r.Valid() && Weekday(r.day) == 0
    ensures var first := StartOfMonth(selected).day;
            && 1 <= first - r.day <= 7
            && (first - r.day == 7 <==> Weekday(first) == 0)
  {
    PreviousSunday(StartOfMonth(selected))
  }

  /**
   * The grid start the month view needs: the Sunday on or before the first of the
   * selected month, so that the first lands in the grid's first row.
   */
  function CalendarStartDate(selected: LocalDateTime): (r: LocalDateTime)
    requires selected.Valid()
    ensures r.Valid() && Weekday(r.day) == 0 && IsTimeAtMidnight(r)
    ensures var first := StartOfMonth(selected).day;
            0 <= first - r.day < 7 && Weekday(first) == first - r.day
  {
    StartOfWeek(StartOfMonth(selected))
  }

  /** Days from 1970-01-01 to the first day of year `y`. */
  function YearStart(y: int): int
    decreases if y >= EpochYear then y - EpochYear else EpochYear - y
  {
    if y == EpochYear then 0
    else if y > EpochYear then YearStart(y - 1) + DaysInYear(y - 1)
    else YearStart(y + 1) - DaysInYear(y)
  }

  lemma YearStartStep(y: int)
    ensures YearStart(y + 1) == YearStart(y) + DaysInYear(y)
  {
  }

  /** The day index of a calendar date: the reading direction of `CivilDateOf`. */
  function DayIndex(c: CivilDate): int
    requires 1 <= c.month <= 12
  {
    YearStart(c.year) + MonthOffset(IsLeapYear(c.year), c.month) + c.dayOfMonth - 1
  }

  lemma {:induction false} YearForwardIndex(y: int, z: nat)
    ensures YearStart(y) + z == YearStart(YearForward(y, z).0) + YearForward(y, z).1
    decreases z
  {
    if z >= DaysInYear(y) {
      YearStartStep(y);
      YearForwardIndex(y + 1, z - DaysInYear(y));
    }
  }

  lemma {:induction false} YearBackwardIndex(y: int, z: int)
    requires z < 0
    ensures YearStart(y) + z == YearStart(YearBackward(y, z).0) + YearBackward(y, z).1
    decreases -z
  {
    YearStartStep(y - 1);
    var z' := z + DaysInYear(y - 1);
    if z' < 0 {
      YearBackwardIndex(y - 1, z');
    }
  }

  /** A day index is recovered from its calendar date. */
  lemma DayIndexOfCivilDate(z: int)
    ensures DayIndex(CivilDateOf(z)) == z
  {
    if z >= 0 {
      YearForwardIndex(EpochYear, z);
    } else {
      YearBackwardIndex(EpochYear, z);
    }
  }

  /** Distinct days have distinct calendar dates. */
  lemma CivilDateOfInjective(x: int, y: int)
    requires CivilDateOf(x) == CivilDateOf(y)
    ensures x == y
  {
    DayIndexOfCivilDate(x);
    DayIndexOfCivilDate(y);
  }

  /** The grid start depends on the selected month only, never on the selected day within it. */
  lemma CalendarStartDependsOnMonthOnly(a: LocalDateTime, b: LocalDateTime)
    requires a.Valid() && b.Valid() && IsSameMonth(a, b)
    ensures CalendarStartDate(a) == CalendarStartDate(b)
    ensures CalendarStartDateAsWritten(a) == CalendarStartDateAsWritten(b)
  {
    CivilDateOfInjective(StartOfMonth(a).day, StartOfMonth(b).day);
  }

  /** 1 March 1970 is day 59, a Sunday, and 31 March 1970 is day 89. */
  lemma MarchNineteenSeventy()
    ensures CivilDateOf(59) == CivilDate(1970, 3, 1)
    ensures CivilDateOf(89) == CivilDate(1970, 3, 31)
    ensures Weekday(59) == 0
  {
    assert !IsLeapYear(1970);
    assert YearAndDay(59) == (1970, 59);
    assert YearAndDay(89) == (1970, 89);
    assert MonthFrom(false, 12, 59) == 3;
    assert MonthFrom(false, 12, 89) == 3;
  }

  /**
   * March 1970 begins on a Sunday (day 59). For any time selected in that month the grid
   * as written starts on 22 February (day 52), so its 35 cells end on 28 March and miss
   * 29, 30 and 31 March; the corrected start is 1 March itself and the grid reaches 4 April.
   */
  lemma MarchNineteenSeventyLosesItsLastDays(selected: LocalDateTime)
    requires selected.Valid()
    requires CivilDateOf(selected.day).year == 1970 && CivilDateOf(selected.day).month == 3
    ensures StartOfMonth(selected).day == 59 && Weekday(59) == 0
    ensures CivilDateOf(89) == CivilDate(1970, 3, 31)
    ensures CalendarStartDateAsWritten(selected).day == 52
    ensures 89 >= CalendarStartDateAsWritten(selected).day + 35
    ensures CalendarStartDate(selected).day == 59
    ensures 89 < CalendarStartDate(selected).day + 35
  {
    MarchNineteenSeventy();
    CivilDateOfInjective(StartOfMonth(selected).day, 59);
  }
  /** A day of the month of `t` lies `dayOfMonth - 1` days after the first of that month. */
  lemma DayOfMonthOffset(t: LocalDateTime, d: int)
    requires t.Valid()
    requires CivilDateOf(d).year == CivilDateOf(t.day).year && CivilDateOf(d).month == CivilDateOf(t.day).month
    ensures d == StartOfMonth(t).day + CivilDateOf(d).dayOfMonth - 1
  {
    DayIndexOfCivilDate(d);
    DayIndexOfCivilDate(StartOfMonth(t).day);
  }

  /** 1 May 1970 is day 120, a Friday, and 31 May 1970 is day 150. */
  lemma MayNineteenSeventy()
    ensures CivilDateOf(120) == CivilDate(1970, 5, 1)
    ensures CivilDateOf(150) == CivilDate(1970, 5, 31)
    ensures Weekday(120) == 5
  {
    assert !IsLeapYear(1970);
    assert YearAndDay(120) == (1970, 120);
    assert YearAndDay(150) == (1970, 150);
    assert MonthFrom(false, 12, 120) == 5;
    assert MonthFrom(false, 12, 150) == 5;
  }
}
