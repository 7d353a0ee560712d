/**
 * `EventDateTimeUtilService`: how the front end classifies an event's times (full-day,
 * multi-day, full-day on a given date), how many days it spans, and the default
 * full-day and timed slots the form offers.
 */
module EventDateRules {
  import opened Wrappers
  import opened LocalTime

  /** The front end's event; `id` is absent on an event that has not been stored yet. */
  datatype CalendarEvent = CalendarEvent(
    id: Option<int>,
    title: string,
    description: string,
    startTime: LocalDateTime,
    endTime: LocalDateTime,
    location: string)

  predicate ValidTimes(e: CalendarEvent) {
    e.startTime.Valid() && e.endTime.Valid()
  }

  /** A start and an end time, as the default-slot constructors return them. */
  datatype TimeSpan = TimeSpan(startTime: LocalDateTime, endTime: LocalDateTime)

  /** `isEventFullDay`: starts at 00:00:00 and ends at 23:59. */
  predicate IsEventFullDay(e: CalendarEvent) {
    IsTimeAtMidnight(e.startTime) && IsTimeAtEndOfDay(e.endTime)
  }

  /** `isEventMultiDay`: start and end fall on different calendar days. */
  predicate IsEventMultiDay(e: CalendarEvent) {
    !IsSameDay(e.startTime, e.endTime)
  }

  /** `isEventFullDayForDate`: the event covers the whole of `date`'s day, from midnight to 23:59. */
  predicate IsEventFullDayForDate(e: CalendarEvent, date: LocalDateTime)
    requires date.Valid()
  {
    ToMillis(e.startTime) <= ToMillis(StartOfDay(date))
    && ToMillis(e.endTime) >= ToMillis(CreateTimeAtEndOfDay(date))
  }

  /** Full-day-for-date in calendar terms: started on an earlier day or at that midnight, and ends on a later day or at 23:59 or after. */
  lemma FullDayForDateCharacterised(e: CalendarEvent, date: LocalDateTime)
    requires ValidTimes(e) && date.Valid()
    ensures IsEventFullDayForDate(e, date) <==>
              && (e.startTime.day < date.day || (e.startTime.day == date.day && TimeOfDay(e.startTime) == 0))
              && (e.endTime.day > date.day || (e.endTime.day == date.day && TimeOfDay(e.endTime) >= 23 * MsPerHour + 59 * MsPerMinute))
  {
  }

  /**
   * A full-day event is full-day on every date it spans and on no other, except that a
   * start carrying milliseconds past midnight (which `isTimeAtMidnight` ignores) is after
   * its own day's start, so the first day does not count.
   */
  lemma FullDayEventCoversItsDays(e: CalendarEvent, date: LocalDateTime)
    requires ValidTimes(e) && date.Valid() && IsEventFullDay(e)
    ensures IsEventFullDayForDate(e, date) <==>
              && (e.startTime.day < date.day || (e.startTime.day == date.day && e.startTime.milli == 0))
              && date.day <= e.endTime.day
  {
  }

  /** `getEventDurationInDays`: whole days from the start's day to the end's day. */
  function EventDurationInDays(e: CalendarEvent): (n: int)
    requires ValidTimes(e)
    ensures AddDays(StartOfDay(e.startTime), n) == StartOfDay(e.endTime)
    ensures n == 0 <==> !IsEventMultiDay(e)
    ensures ToMillis(e.startTime) <= ToMillis(e.endTime) ==> n >= 0
  {
    BeforeIsLexicographic(e.startTime, e.endTime);
    StartOfDay(e.endTime).day - StartOfDay(e.startTime).day
  }

  /** `setEventAsFullDay`: start at its day's midnight, end at 23:59 of its own day, nothing else changed. */
  function SetEventAsFullDay(e: CalendarEvent): (r: CalendarEvent)
    requires ValidTimes(e)
    ensures ValidTimes(r) && IsEventFullDay(r)
    ensures r.startTime == StartOfDay(e.startTime) && r.endTime == CreateTimeAtEndOfDay(e.endTime)
    ensures r.startTime.day == e.startTime.day && r.endTime.day == e.endTime.day
    ensures r.id == e.id && r.title == e.title && r.description == e.description && r.location == e.location
  {
    e.(startTime := StartOfDay(e.startTime), endTime := CreateTimeAtEndOfDay(e.endTime))
  }

  /** Making an event full-day twice is making it full-day once, and a full-day event ends after it starts whenever its days are in order. */
  lemma SetEventAsFullDayIdempotent(e: CalendarEvent)
    requires ValidTimes(e)
    ensures SetEventAsFullDay(SetEventAsFullDay(e)) == SetEventAsFullDay(e)
    ensures e.startTime.day <= e.endTime.day ==>
              ToMillis(SetEventAsFullDay(e).startTime) < ToMillis(SetEventAsFullDay(e).endTime)
  {
  }

  /** `createDefaultFullDayEvent`: 00:00 and 23:59 of the given day. */
  function CreateDefaultFullDayEvent(date: LocalDateTime): (span: TimeSpan)
    requires date.Valid()
    ensures span.startTime.Valid() && span.endTime.Valid()
    ensures span.startTime.day == date.day && span.endTime.day == date.day
    ensures IsTimeAtMidnight(span.startTime) && IsTimeAtEndOfDay(span.endTime)
    ensures ToMillis(span.startTime) < ToMillis(span.endTime)
  {
    TimeSpan(StartOfDay(date), CreateTimeAtEndOfDay(date))
  }

  /** An event on the default full-day slot is a full-day event, full-day on exactly its own date. */
  lemma DefaultFullDayEventIsFullDay(date: LocalDateTime, other: LocalDateTime, id: Option<int>, title: string, description: string, location: string)
    requires date.Valid() && other.Valid()
    ensures var span := CreateDefaultFullDayEvent(date);
            var e := CalendarEvent(id, title, description, span.startTime, span.endTime, location);
            && IsEventFullDay(e)
            && !IsEventMultiDay(e)
            && (IsEventFullDayForDate(e, other) <==> other.day == date.day)
  {
  }

  /**
   * `createDefaultTimedEvent(date, startHour = 9, durationHours = 1)`: starts at
   * `startHour`:00 of the given day (seconds and milliseconds kept) and ends
   * `durationHours` later.
   */
  function CreateDefaultTimedEvent(date: LocalDateTime, startHour: int := 9, durationHours: int := 1): (span: TimeSpan)
    requires date.Valid()
    ensures span.startTime.Valid() && span.endTime.Valid()
    ensures 0 <= startHour < 24 ==> span.startTime == LocalDateTime(date.day, startHour, 0, date.second, date.milli)
    ensures ToMillis(span.endTime) == ToMillis(span.startTime) + durationHours * MsPerHour
  {
    var start := CreateTimeAtHour(date, startHour, 0);
    TimeSpan(start, AddHours(start, durationHours))
  }

  /** With the defaults, the timed slot is 09:00 to 10:00 of the given day. */
  lemma DefaultTimedEventIsNineToTen(date: LocalDateTime)
    requires date.Valid()
    ensures var span := CreateDefaultTimedEvent(date);
            && span.startTime == LocalDateTime(date.day, 9, 0, date.second, date.milli)
            && span.endTime == LocalDateTime(date.day, 10, 0, date.second, date.milli)
  {
  }
}
