/**
 * The month view (`CalendarComponent`): a grid of consecutive days starting on a Sunday,
 * each cell holding one entry for every event that touches its day, full-day entries
 * first and the rest by start time, and at most four entries shown per cell.
 */
module CalendarGrid {
  import opened Wrappers
  import opened LocalTime
  import opened CivilCalendar
  import opened EventDateRules

  /** Cells of the grid as the component declares it: five weeks. */
  const AmountOfCells := 35

  /** Cells needed for every month to fit once the grid starts on the Sunday on or before the first: six weeks. */
  const GridCells := 42

  const MaxVisibleEvents := 4

  datatype CalendarEventEntity = CalendarEventEntity(event: CalendarEvent, isFullDay: bool)

  datatype CalendarEntity = CalendarEntity(date: LocalDateTime, events: seq<CalendarEventEntity>, anotherMonth: bool)

  /** Consecutive days: cell `i` is `i` days after the first cell. */
  predicate IsGrid(cells: seq<CalendarEntity>) {
    forall i :: 0 <= i < |cells| ==> cells[i].date.Valid() && cells[i].date.day == cells[0].date.day + i
  }

  /**
   * `initializeCalendarGrid(startDay)`: `amount` cells from `startDay` on, each without
   * events and flagged when its day lies outside the selected month.
   */
  method InitializeCalendarGrid(startDay: LocalDateTime, selected: LocalDateTime, amount: nat) returns (cells: seq<CalendarEntity>)
    requires startDay.Valid()
    ensures |cells| == amount && IsGrid(cells)
    ensures amount > 0 ==> cells[0].date == startDay
    ensures forall i :: 0 <= i < amount ==>
              && TimeOfDay(cells[i].date) == TimeOfDay(startDay)
              && cells[i].events == []
              && (cells[i].anotherMonth <==> !IsSameMonth(selected, cells[i].date))
  {
    cells := [];
    var day := 0;
    while day < amount
      invariant 0 <= day <= amount && |cells| == day
      invariant forall i :: 0 <= i < day ==>
                  && cells[i].date == AddDays(startDay, i)
                  && cells[i].events == []
                  && (cells[i].anotherMonth <==> !IsSameMonth(selected, cells[i].date))
    {
      var dayToAdd := AddDays(startDay, day);
      cells := cells + [CalendarEntity(dayToAdd, [], !IsSameMonth(selected, dayToAdd))];
      day := day + 1;
    }
  }

  /** `getDateKey` (date formatted as 'yyyy-MM-dd'): the calendar date of the day. */
  function DateKey(t: LocalDateTime): CivilDate {
    CivilDateOf(t.day)
  }

  /**
   * `getCalendarEntityByDate`: the cell stored under the date's key. The key map keeps
   * the last cell set for a key, so the search runs from the end.
   */
  function FindCell(cells: seq<CalendarEntity>, key: CivilDate): (r: Option<nat>)
    ensures r.Some? ==> r.value < |cells| && DateKey(cells[r.value].date) == key
    ensures r.None? ==> forall i :: 0 <= i < |cells| ==> DateKey(cells[i].date) != key
  {
    if |cells| == 0 then None
    else if DateKey(cells[|cells| - 1].date) == key then Some(|cells| - 1)
    else FindCell(cells[..|cells| - 1], key)
  }

  /** In a grid the key lookup finds the cell `t.day - first` exactly when that day is in the grid. */
  lemma FindCellInGrid(cells: seq<CalendarEntity>, t: LocalDateTime)
    requires IsGrid(cells) && |cells| > 0
    ensures var first := cells[0].date.day;
            FindCell(cells, DateKey(t)) == if first <= t.day < first + |cells| then Some(t.day - first) else None
  {
    var first := cells[0].date.day;
    var r := FindCell(cells, DateKey(t));
    if first <= t.day < first + |cells| {
      var v := t.day - first;
      assert cells[v].date.day == t.day;
      assert DateKey(cells[v].date) == DateKey(t);
    }
    if r.Some? {
      var w := r.value;
      assert CivilDateOf(cells[w].date.day) == CivilDateOf(t.day);
      CivilDateOfInjective(cells[w].date.day, t.day);
    }
  }

  /** `createCalendarEventEntityForDate`: the event, flagged when it covers the whole day. */
  function EntityFor(e: CalendarEvent, date: LocalDateTime): CalendarEventEntity
    requires date.Valid()
  {
    CalendarEventEntity(e, IsEventFullDayForDate(e, date))
  }

  /** The event's days run from its start day to its end day. */
  predicate OnDay(e: CalendarEvent, date: LocalDateTime) {
    e.startTime.day <= date.day <= e.endTime.day
  }

  /** The cell with the event added when its day is among the first `count` days of the event. */
  function AddIfWithin(c: CalendarEntity, e: CalendarEvent, count: int): CalendarEntity
    requires c.date.Valid()
  {
    if 0 <= c.date.day - e.startTime.day < count then c.(events := c.events + [EntityFor(e, c.date)]) else c
  }

  /** The grid after the first `count` days of the event have been visited. */
  function AddedForDays(cells: seq<CalendarEntity>, e: CalendarEvent, count: int): (r: seq<CalendarEntity>)
    requires IsGrid(cells)
    ensures |r| == |cells|
  {
    seq(|cells|, i requires 0 <= i < |cells| => AddIfWithin(cells[i], e, count))
  }

  /** Visiting one more day of the event adds its entry to that day's cell, if the grid holds the day. */
  lemma AddedForDaysStep(cells: seq<CalendarEntity>, e: CalendarEvent, day: int)
    requires IsGrid(cells) && |cells| > 0 && 0 <= day
    ensures var r := AddedForDays(cells, e, day);
            var i := e.startTime.day + day - cells[0].date.day;
            AddedForDays(cells, e, day + 1) ==
              if 0 <= i < |cells| then r[i := r[i].(events := r[i].events + [EntityFor(e, r[i].date)])] else r
  {
  }

  /** Once every day of the event has been visited, exactly the cells of its days hold a new entry. */
  lemma AddedForAllDays(cells: seq<CalendarEntity>, e: CalendarEvent, count: int)
    requires IsGrid(cells) && ValidTimes(e)
    requires count == if EventDurationInDays(e) + 1 > 0 then EventDurationInDays(e) + 1 else 0
    ensures var r := AddedForDays(cells, e, count);
            && IsGrid(r)
            && forall i :: 0 <= i < |cells| ==>
                 && r[i].date == cells[i].date && r[i].anotherMonth == cells[i].anotherMonth
                 && r[i].events == cells[i].events + (if OnDay(e, cells[i].date) then [EntityFor(e, cells[i].date)] else [])
  {
  }

  /**
   * `distributeEventAcrossDays`: walks the days from the event's start day to its end day
   * and appends an entry to the cell of each day the grid holds. An event that ends on an
   * earlier day than it starts is placed nowhere.
   */
  method DistributeEventAcrossDays(cells: seq<CalendarEntity>, e: CalendarEvent) returns (r: seq<CalendarEntity>)
    requires IsGrid(cells) && ValidTimes(e)
    ensures |r| == |cells| && IsGrid(r)
    ensures forall i :: 0 <= i < |cells| ==>
              && r[i].date == cells[i].date && r[i].anotherMonth == cells[i].anotherMonth
              && r[i].events == cells[i].events + (if OnDay(e, cells[i].date) then [EntityFor(e, cells[i].date)] else [])
  {
    var dayDifference := EventDurationInDays(e);
    var limit := if dayDifference + 1 > 0 then dayDifference + 1 else 0;
    r := cells;
    var currentEventDate := e.startTime;
    var day := 0;
    while day <= dayDifference
      invariant 0 <= day <= limit
      invariant currentEventDate == AddDays(e.startTime, day)
      invariant r == AddedForDays(cells, e, day)
    {
      if |r| > 0 {
        FindCellInGrid(r, currentEventDate);
        var found := FindCell(r, DateKey(currentEventDate));
        AddedForDaysStep(cells, e, day);
        if found.Some? {
          var i := found.value;
          r := r[i := r[i].(events := r[i].events + [EntityFor(e, r[i].date)])];
        }
      }
      currentEventDate := AddDays(e.startTime, day + 1);
      day := day + 1;
    }
    AddedForAllDays(cells, e, limit);
  }

  /** The entries the events in `events` give the cell of `date`, in list order. */
  function EntriesFor(events: seq<CalendarEvent>, date: LocalDateTime): (r: seq<CalendarEventEntity>)
    requires date.Valid()
    ensures |r| <= |events|
    ensures forall k :: 0 <= k < |r| ==> r[k].event in events && OnDay(r[k].event, date) && r[k] == EntityFor(r[k].event, date)
    ensures forall e :: e in events && OnDay(e, date) ==> EntityFor(e, date) in r
  {
    if |events| == 0 then []
    else
      var last := events[|events| - 1];
      var front := EntriesFor(events[..|events| - 1], date);
      assert forall e :: e in events ==> e in events[..|events| - 1] || e == last;
      front + (if OnDay(last, date) then [EntityFor(last, date)] else [])
  }

  /** `processAndDistributeEvents`: every event in turn is distributed across its days. */
  method ProcessAndDistributeEvents(cells: seq<CalendarEntity>, events: seq<CalendarEvent>) returns (r: seq<CalendarEntity>)
    requires IsGrid(cells)
    requires forall e :: e in events ==> ValidTimes(e)
    ensures |r| == |cells| && IsGrid(r)
    ensures forall i :: 0 <= i < |cells| ==>
              && r[i].date == cells[i].date && r[i].anotherMonth == cells[i].anotherMonth
              && r[i].events == cells[i].events + EntriesFor(events, cells[i].date)
  {
    r := cells;
    var k := 0;
    while k < |events|
      invariant 0 <= k <= |events|
      invariant |r| == |cells| && IsGrid(r)
      invariant forall i :: 0 <= i < |cells| ==>
                  && r[i].date == cells[i].date && r[i].anotherMonth == cells[i].anotherMonth
                  && r[i].events == cells[i].events + EntriesFor(events[..k], cells[i].date)
    {
      assert events[..k + 1][..k] == events[..k];
      r := DistributeEventAcrossDays(r, events[k]);
      k := k + 1;
    }
    assert events[..k] == events;
  }

  /** `compareEventEntities`: negative when `a` goes first, positive when `b` does. */
  function CompareEventEntities(a: CalendarEventEntity, b: CalendarEventEntity): int {
    if a.isFullDay && !b.isFullDay then -1
    else if !a.isFullDay && b.isFullDay then 1
    else ToMillis(a.event.startTime) - ToMillis(b.event.startTime)
  }

  /** `a` may precede `b` in a sorted cell. */
  predicate InOrder(a: CalendarEventEntity, b: CalendarEventEntity) {
    CompareEventEntities(a, b) <= 0
  }

  /**
   * The comparator is consistent, as `Array.prototype.sort` needs: swapping the arguments
   * negates it, it orders every pair, and the order is transitive. Full-day entries
   * precede timed ones; within each group earlier starts come first.
   */
  lemma CompareIsConsistent(a: CalendarEventEntity, b: CalendarEventEntity, c: CalendarEventEntity)
    ensures CompareEventEntities(a, b) == -CompareEventEntities(b, a)
    ensures InOrder(a, b) || InOrder(b, a)
    ensures InOrder(a, b) && InOrder(b, c) ==> InOrder(a, c)
    ensures a.isFullDay && !b.isFullDay ==> InOrder(a, b) && !InOrder(b, a)
    ensures a.isFullDay == b.isFullDay ==> (InOrder(a, b) <==> ToMillis(a.event.startTime) <= ToMillis(b.event.startTime))
  {
  }

  predicate Sorted(s: seq<CalendarEventEntity>) {
    forall i, j :: 0 <= i < j < |s| ==> InOrder(s[i], s[j])
  }

  /** Inserts `x` before the first entry it may precede. */
  function Insert(x: CalendarEventEntity, s: seq<CalendarEventEntity>): (r: seq<CalendarEventEntity>)
    requires Sorted(s)
    ensures Sorted(r)
    ensures multiset(r) == multiset(s) + multiset{x}
    ensures forall y :: y in r <==> y == x || y in s
  {
    if |s| == 0 then [x]
    else if InOrder(x, s[0]) then
      assert forall j :: 0 < j < |s| ==> InOrder(x, s[j]) by {
        forall j | 0 < j < |s| { CompareIsConsistent(x, s[0], s[j]); }
      }
      [x] + s
    else
      var rest := Insert(x, s[1..]);
      assert s == [s[0]] + s[1..];
      CompareIsConsistent(x, s[0], x);
      assert forall y :: y in rest ==> InOrder(s[0], y);
      [s[0]] + rest
  }

  /** `entity.events.sort(compareEventEntities)`: an ordering of the same entries. */
  function SortEntries(s: seq<CalendarEventEntity>): (r: seq<CalendarEventEntity>)
    ensures Sorted(r)
    ensures multiset(r) == multiset(s)
  {
    if |s| == 0 then []
    else
      assert s == [s[0]] + s[1..];
      Insert(s[0], SortEntries(s[1..]))
  }

  /** `sortCalendarEvents`: every cell's entries sorted, nothing else changed. */
  function SortCalendarEvents(cells: seq<CalendarEntity>): (r: seq<CalendarEntity>)
    ensures |r| == |cells|
    ensures forall i :: 0 <= i < |cells| ==>
              && r[i].date == cells[i].date && r[i].anotherMonth == cells[i].anotherMonth
              && Sorted(r[i].events) && multiset(r[i].events) == multiset(cells[i].events)
  {
    seq(|cells|, i requires 0 <= i < |cells| => cells[i].(events := SortEntries(cells[i].events)))
  }

  /** `getVisibleEvents`: the first four entries. */
  function GetVisibleEvents(events: seq<CalendarEventEntity>): (r: seq<CalendarEventEntity>)
    ensures r <= events
    ensures |r| == if |events| < MaxVisibleEvents then |events| else MaxVisibleEvents
  {
    if |events| < MaxVisibleEvents then events else events[..MaxVisibleEvents]
  }

  /** `getHiddenEventsCount`: the entries left out of the visible ones. */
  function GetHiddenEventsCount(events: seq<CalendarEventEntity>): (n: nat)
    ensures |GetVisibleEvents(events)| + n == |events|
  {
    if |events| - MaxVisibleEvents > 0 then |events| - MaxVisibleEvents else 0
  }

  /** `hasMoreEvents`. */
  predicate HasMoreEvents(events: seq<CalendarEventEntity>) {
    |events| > MaxVisibleEvents
  }

  /** The visible entries followed by the hidden ones are the cell's entries; a "more" link appears exactly when some are hidden. */
  lemma VisibleAndHiddenPartition(events: seq<CalendarEventEntity>)
    ensures GetVisibleEvents(events) + events[|GetVisibleEvents(events)|..] == events
    ensures |events[|GetVisibleEvents(events)|..]| == GetHiddenEventsCount(events)
    ensures HasMoreEvents(events) <==> GetHiddenEventsCount(events) > 0
    ensures HasMoreEvents(events) ==> |GetVisibleEvents(events)| == MaxVisibleEvents
  {
  }

  /**
   * `populateCalendarEntities` with the corrected start and grid size: six weeks from the
   * Sunday on or before the first of the selected month, each cell holding, sorted, one
   * entry for every event whose days include the cell's day.
   */
  method PopulateCalendarEntities(selected: LocalDateTime, events: seq<CalendarEvent>) returns (cells: seq<CalendarEntity>)
    requires selected.Valid()
    requires forall e :: e in events ==> ValidTimes(e)
    ensures |cells| == GridCells && IsGrid(cells)
    ensures cells[0].date == CalendarStartDate(selected)
    ensures forall i :: 0 <= i < |cells| ==>
              && (cells[i].anotherMonth <==> !IsSameMonth(selected, cells[i].date))
              && Sorted(cells[i].events)
              && multiset(cells[i].events) == multiset(EntriesFor(events, cells[i].date))
  {
    var startDay := CalendarStartDate(selected);
    var grid := InitializeCalendarGrid(startDay, selected, GridCells);
    grid := ProcessAndDistributeEvents(grid, events);
    cells := SortCalendarEvents(grid);
  }

  /** Every day of the selected month has a cell in the corrected six-week grid, and no such cell is flagged as another month. */
  lemma SelectedMonthFitsInGrid(selected: LocalDateTime, d: int)
    requires selected.Valid()
    requires CivilDateOf(d).year == CivilDateOf(selected.day).year && CivilDateOf(d).month == CivilDateOf(selected.day).month
    ensures var start := CalendarStartDate(selected).day;
            start <= d < start + GridCells
    ensures IsSameMonth(selected, AddDays(CalendarStartDate(selected), d - CalendarStartDate(selected).day))
  {
    DayOfMonthOffset(selected, d);
  }

  /**
   * May 1970 begins on a Friday (day 120) and has 31 days. Its grid starts on Sunday
   * 26 April (day 115) with either start rule, so 31 May (day 150) would be cell 35:
   * the five-week grid as declared has no cell for it.
   */
  lemma MayNineteenSeventyOverflowsFiveWeeks(selected: LocalDateTime)
    requires selected.Valid()
    requires CivilDateOf(selected.day).year == 1970 && CivilDateOf(selected.day).month == 5
    ensures CivilDateOf(150) == CivilDate(1970, 5, 31)
    ensures CalendarStartDate(selected).day == 115
    ensures CalendarStartDateAsWritten(selected).day == 115
    ensures 150 - CalendarStartDate(selected).day == AmountOfCells
    ensures 150 - CalendarStartDate(selected).day < GridCells
  {
    MayNineteenSeventy();
    CivilDateOfInjective(StartOfMonth(selected).day, 120);
  }
}
