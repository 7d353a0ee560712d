# Web calendar: a Dafny model

This project models the two halves of a small calendar application.

The **event API** is a Spring service that stores calendar events. A request first passes bean validation: the title must be non-null and non-empty, and the start and end must be non-null. It then passes `EventRequestValidator`: the start and end may not be equal, the end may not precede the start, and a colour, when given and non-empty, must be `#` followed by six hex digits. `EventMapper` turns the request into an entity. `EventService` saves, lists, fetches, updates or deletes entities in a repository. `GlobalExceptionHandler` turns failures into `ApiError` bodies with status 404 or 400.

The **web client** is an Angular application. Its logic is modelled in these modules:

- `EventTitle`: title truncation for calendar cells.
- `Notifications`: the toast list.
- `LocalTime`, `CivilCalendar` and `EventDateRules`: the date-fns helpers and event date rules.
- `CalendarGrid`: the month-view grid, which spreads each event across the cells of the days it covers and sorts each cell's entries.
- `EventForm`: the event form's validators, error messages, trimming and end-time adjustment.

The model is purely functional:

- The repository is a value `Store(rows, nextId)`.
- A request to the API is a function from a store and a request to a new store and a response.
- The notification list is a value that each operation maps to a new one.
- Java `null` is `Option`, and exceptions are `Result` or `Outcome` values.
- Times on the client are `LocalDateTime(day, hour, minute, second, milli)`:
  - `day` counts days from 1970-01-01.
  - There is one time zone and no daylight saving.
  - Setting an out-of-range hour or minute rolls over, as `Date.setHours` does.

`EventRequest.java` and `Event.java` declare no colour field. The validator (`request.getColor()`), the mapper (`setColor`/`getColor`) and the service (`existing.setColor`) all use one, so the model gives both records an optional `color`.

The event API stores a null description or location as null. The client's `CalendarEvent` declares both as `string`, and the model follows that declaration. A null matters only where the event form trims the fields, and there the form's value holds `Option` and the null case is modelled.

## Model

| member | source | states |
|---|---|---|
| EventModel.FieldErrors | event-api/src/main/java/com/example/eventapi/dto/EventRequest.java:11-18 | each bean-validation message is reported exactly when its constraint is broken; a null title breaks both `@NotNull` and `@NotEmpty` |
| EventModel.WellFormedIffNoFieldErrors | event-api/src/main/java/com/example/eventapi/dto/EventRequest.java:11-18 | a request is well formed if and only if bean validation reports no message |
| Validator.Errors | event-api/src/main/java/com/example/eventapi/service/EventRequestValidator.java:19-54 | each rule's message is present exactly when that rule is broken; there are none exactly when start < end and the colour is absent, empty or a hex code |
| Validator.IsStartSameAsEnd | event-api/src/main/java/com/example/eventapi/service/EventRequestValidator.java:43-45 | definition: the start and end instants are equal |
| Validator.IsEndBeforeStart | event-api/src/main/java/com/example/eventapi/service/EventRequestValidator.java:47-49 | definition: the end instant is strictly before the start |
| Validator.IsInvalidColor | event-api/src/main/java/com/example/eventapi/service/EventRequestValidator.java:51-54 | definition: a colour is present, non-empty and not `#` followed by six hex digits; null and "" are accepted |
| Validator.Validate | event-api/src/main/java/com/example/eventapi/service/EventRequestValidator.java:19-41 | passes exactly when no rule is broken; otherwise fails with every violation joined by "; " |
| Validator.ValidRequestPasses | event-api/src/main/java/com/example/eventapi/service/EventRequestValidator.java:43-54 | a request with start < end and an acceptable colour passes |
| Validator.SameTimeFailsAlone | event-api/src/main/java/com/example/eventapi/service/EventRequestValidator.java:24-26 | equal times with an acceptable colour fail with exactly the "cannot be the same" message |
| Validator.EndBeforeStartFailsAlone | event-api/src/main/java/com/example/eventapi/service/EventRequestValidator.java:28-30 | an end before the start fails with exactly "End time must be after start time" |
| Validator.InvalidColorFailsAlone | event-api/src/main/java/com/example/eventapi/service/EventRequestValidator.java:32-34 | a bad colour on well-ordered times fails with exactly the colour message |
| Validator.TimeAndColorViolationsAccumulate | event-api/src/main/java/com/example/eventapi/service/EventRequestValidator.java:24-38 | the rules do not stop at the first failure: a time violation and a bad colour are both reported, the time rule first |
| Validator.TimeRulesExclusive | event-api/src/main/java/com/example/eventapi/service/EventRequestValidator.java:43-49 | the two time rules never fire together, so a failure carries at most two messages |
| Validator.ColorExamples | event-api/src/main/java/com/example/eventapi/service/EventRequestValidator.java:17 | the pattern accepts "#6f42c1" and "#6F42C1" and rejects "notacolor", five or seven digits, and a non-hex digit |
| Repository.Save | event-api/src/main/java/com/example/eventapi/service/EventService.java:26 | a new entity gets a fresh id and an existing id is overwritten; every field is kept, no other row changes, and the store invariant is preserved |
| Repository.FindAll | event-api/src/main/java/com/example/eventapi/service/EventService.java:33 | returns exactly the stored entities, once each, in ascending id order; the result is empty exactly for an empty store |
| Repository.CollectCount | event-api/src/main/java/com/example/eventapi/service/EventService.java:33 | the ordered scan of the id range yields one entity per stored id, so the list is as long as the store |
| Repository.FindById | event-api/src/main/java/com/example/eventapi/service/EventService.java:38 | finds a row exactly when the id is stored, and returns that row |
| Repository.Delete | event-api/src/main/java/com/example/eventapi/service/EventService.java:66 | removes exactly the entity's row; other rows and the id counter are unchanged |
| EventService.SaveEvent | event-api/src/main/java/com/example/eventapi/service/EventService.java:24-29 | the saved entity has an id, a fresh one for a new entity, and the given fields; the store gains exactly that row |
| EventService.GetAllEvents | event-api/src/main/java/com/example/eventapi/service/EventService.java:31-34 | returns exactly the stored events: every stored event is in the list, nothing else is, the ids strictly ascend so none repeats, and the length is the number of rows; an empty store gives an empty list, not a failure |
| EventService.GetEventById | event-api/src/main/java/com/example/eventapi/service/EventService.java:36-42 | returns the stored event, or NotFound with "Event with id: {id} does not exist" exactly when the id is absent |
| EventService.UpdateEvent | event-api/src/main/java/com/example/eventapi/service/EventService.java:44-59 | on a stored id, replaces every mutable field and keeps the id; on an absent id, fails with the message that ends in a space and changes nothing |
| EventService.DeleteEvent | event-api/src/main/java/com/example/eventapi/service/EventService.java:61-68 | removes exactly that row, or fails with NotFound when the id is absent |
| EventService.GetAfterDeleteFails | event-api/src/main/java/com/example/eventapi/service/EventService.java:36-68 | after a delete, fetching the same id fails with NotFound |
| EventService.GetAfterSave | event-api/src/main/java/com/example/eventapi/service/EventService.java:24-42 | a saved event can be read back under its new id |
| EventService.GetAfterUpdate | event-api/src/main/java/com/example/eventapi/service/EventService.java:36-59 | after an update, a fetch returns the new fields under the old id |
| EventService.SavesGetDistinctIds | event-api/src/main/java/com/example/eventapi/service/EventService.java:24-29 | two saves of new events in a row get different ids |
| EventService.NotFoundMessageNamesId | event-api/src/main/java/com/example/eventapi/service/EventService.java:39 | different ids give different not-found messages |
| EventService.NotFoundMessage | event-api/src/main/java/com/example/eventapi/service/EventService.java:39 | definition: "Event with id: " then the id in decimal then " does not exist", used by get and delete |
| EventService.UpdateNotFoundMessage | event-api/src/main/java/com/example/eventapi/service/EventService.java:46 | definition: the same message followed by one space, as update formats it |
| Text.IntToStringInjective | event-api/src/main/java/com/example/eventapi/service/EventService.java:39 | the decimal rendering of an id determines the id |
| Mapper.ToEntity | event-api/src/main/java/com/example/eventapi/mapper/EventMapper.java:10-19 | total; copies every field and leaves the id unset |
| Mapper.WellFormedMapsToPersistable | event-api/src/main/java/com/example/eventapi/mapper/EventMapper.java:10-19 | a well-formed request maps to an entity that fills every non-nullable column |
| Mapper.ToEntityInjective | event-api/src/main/java/com/example/eventapi/mapper/EventMapper.java:10-19 | distinct requests map to distinct entities, so no field is dropped |
| Mapper.UpdateWithMappedRequest | event-api/src/main/java/com/example/eventapi/controller/EventController.java:62-64 | updating with a mapped request leaves the stored event carrying exactly the request's fields |
| ApiErrors.MakeApiError | event-api/src/main/java/com/example/eventapi/exception/ApiError.java:18-24 | the body carries the status code, its reason phrase, the message and the path |
| ApiErrors.StatusValueInjective | event-api/src/main/java/com/example/eventapi/exception/ApiError.java:20-21 | the numeric code identifies the status |
| ApiErrors.FieldErrorsMessage | event-api/src/main/java/com/example/eventapi/exception/GlobalExceptionHandler.java:45-48 | field messages joined by "; ", a single message as it is, and "Validation failed" when there are none |
| Text.ReduceIsJoin | event-api/src/main/java/com/example/eventapi/exception/GlobalExceptionHandler.java:47-48 | reducing with `m1 + "; " + m2` builds the same string as joining, and is empty exactly for no messages |
| ApiErrors.StatusOf | event-api/src/main/java/com/example/eventapi/exception/GlobalExceptionHandler.java:17-57 | a missing element gives 404, and both kinds of bad argument give 400 |
| ApiErrors.HandleFailure | event-api/src/main/java/com/example/eventapi/exception/GlobalExceptionHandler.java:17-57 | each failure gets its status and an error body with the exception's message, or the joined field messages, and the request URI |
| Controller.FailureResponse | event-api/src/main/java/com/example/eventapi/exception/GlobalExceptionHandler.java:17-57 | a failure's response has the handler's status and body |
| Controller.CheckAndMap | event-api/src/main/java/com/example/eventapi/controller/EventController.java:39-42 | bean validation first, then the validator, then the mapper; it succeeds exactly when both checks pass |
| Controller.Handle | event-api/src/main/java/com/example/eventapi/controller/EventController.java:38-73 | the store stays valid; reads and every 400 or 404 leave it unchanged |
| Controller.IllFormedBodyIsBadRequest | event-api/src/main/java/com/example/eventapi/controller/EventController.java:38-44 | an ill-formed body gets 400 with the joined field messages and nothing is stored |
| Controller.InvalidBodyIsBadRequest | event-api/src/main/java/com/example/eventapi/controller/EventController.java:38-44 | a well-formed body the validator rejects gets 400 with the validator's message and nothing is stored |
| Controller.ValidPostIsCreated | event-api/src/main/java/com/example/eventapi/controller/EventController.java:38-44 | a valid POST gets 201 with the stored entity, which has a fresh id and the request's fields |
| Controller.GetOneOutcomes | event-api/src/main/java/com/example/eventapi/controller/EventController.java:52-56 | GET by id answers 200 with the entity, or 404 with the not-found message |
| Controller.GetAllOutcome | event-api/src/main/java/com/example/eventapi/controller/EventController.java:46-50 | GET answers 200 with exactly the stored events, each once (strictly ascending ids, as many as there are rows), and leaves the store unchanged |
| Controller.PutOutcomes | event-api/src/main/java/com/example/eventapi/controller/EventController.java:58-66 | PUT answers 204 and overwrites the fields of that row, keeping its id and every other row; or 404 leaving the store unchanged |
| Controller.DeleteOutcomes | event-api/src/main/java/com/example/eventapi/controller/EventController.java:68-73 | DELETE answers 204 and removes the row, or 404 leaving the store unchanged |
| EventTitle.TruncateEventTitle | web-calendar-ui/src/app/service/event.service.ts:36-41 | a title that fits is unchanged; a longer one becomes its first `maxLength` characters (a negative limit counts as 0) followed by "..." |
| EventTitle.TruncatedKeepsVisiblePrefix | web-calendar-ui/src/app/service/event.service.ts:36-41 | the visible prefix of the title survives truncation |
| EventTitle.TruncateIdempotent | web-calendar-ui/src/app/service/event.service.ts:36-41 | truncating a truncated title changes nothing |
| EventTitle.DefaultLimitExample | web-calendar-ui/src/app/service/event.service.ts:36 | with the default 16, a 16-character title is kept and a 17-character one is cut to 16 characters plus "..." |
| Notifications.InitialIsValid | web-calendar-ui/src/app/service/notification.service.ts:19-20 | the empty list with counter 0 satisfies the invariant: ids follow the counter and grow along the list |
| Notifications.AddNotification | web-calendar-ui/src/app/service/notification.service.ts:92-98 | the counter is incremented, and one notification is appended under "notification-{counter}", an id no current notification has; the invariant is kept |
| Notifications.IdForInjective | web-calendar-ui/src/app/service/notification.service.ts:93 | different counter values give different ids |
| Notifications.ValidIdsDistinct | web-calendar-ui/src/app/service/notification.service.ts:92-98 | in a reachable state no two notifications share an id |
| Notifications.ShowSuccess | web-calendar-ui/src/app/service/notification.service.ts:28-36 | appends one dismissible success notification with the given title, message and duration |
| Notifications.ShowError | web-calendar-ui/src/app/service/notification.service.ts:38-46 | appends one dismissible error notification |
| Notifications.ShowWarning | web-calendar-ui/src/app/service/notification.service.ts:48-56 | appends one dismissible warning notification |
| Notifications.ShowInfo | web-calendar-ui/src/app/service/notification.service.ts:58-66 | appends one dismissible info notification |
| Notifications.ShowDefaults | web-calendar-ui/src/app/service/notification.service.ts:28-66 | the default durations are 5000, 8000, 6000 and 5000 ms |
| Notifications.WithoutKeepsOrder | web-calendar-ui/src/app/service/notification.service.ts:69 | filtering keeps the order of the remaining notifications |
| Notifications.WithoutConcat | web-calendar-ui/src/app/service/notification.service.ts:69 | for any list, filtering a concatenation is the concatenation of the filtered parts, so the survivors keep their relative order |
| Notifications.Dismiss | web-calendar-ui/src/app/service/notification.service.ts:68-71 | keeps exactly the notifications whose id differs and the counter; an unknown id changes nothing; the invariant is kept |
| Notifications.DismissAll | web-calendar-ui/src/app/service/notification.service.ts:73-75 | empties the list and keeps the counter |
| Notifications.DismissUndoesAdd | web-calendar-ui/src/app/service/notification.service.ts:68-98 | dismissing the notification just added restores the previous list |
| Notifications.HttpErrorMessage | web-calendar-ui/src/app/service/notification.service.ts:77-87 | an object body gives its `message`, else its `error`, else the fallback; any other body gives the response message if non-empty, else the fallback |
| Notifications.ShowHttpError | web-calendar-ui/src/app/service/notification.service.ts:77-90 | appends one error notification carrying that message |
| Notifications.HttpErrorMessageNonEmpty | web-calendar-ui/src/app/service/notification.service.ts:77-87 | with a non-empty fallback the message is never empty |
| Notifications.ApiErrorBodyShowsItsMessage | web-calendar-ui/src/app/service/notification.service.ts:80-82 | an error body from the API with a non-empty message shows exactly that message |
| LocalTime.StartOfDay | web-calendar-ui/src/app/service/date-time-util.service.ts:61-63 | 00:00:00.000 of the same day, not after the given time |
| LocalTime.AddDays | web-calendar-ui/src/app/service/date-time-util.service.ts:41-43 | the same time of day, `n` days later |
| LocalTime.AddHours | web-calendar-ui/src/app/service/date-time-util.service.ts:49-51 | the instant `h` hours later |
| LocalTime.SetMinutes | web-calendar-ui/src/app/service/date-time-util.service.ts:54 | moves the instant by the change of minute and rolls over out of range; an in-range minute only replaces the minute |
| LocalTime.SetHours | web-calendar-ui/src/app/service/date-time-util.service.ts:54 | the same for the hour |
| LocalTime.SetDateHours | web-calendar-ui/src/app/service/date-time-util.service.ts:53-55 | for an in-range hour and minute, hour `h` and minute `m` (0 when absent) of the same day; seconds and milliseconds are kept |
| LocalTime.CreateTimeAtHour | web-calendar-ui/src/app/service/date-time-util.service.ts:135-137 | for an in-range hour and minute, hour `h` and minute `m` (default 0) of the same day, with seconds and milliseconds kept |
| LocalTime.CreateTimeAtEndOfDay | web-calendar-ui/src/app/service/date-time-util.service.ts:129-133 | 23:59:00.000 of the same day, which counts as the end of the day |
| LocalTime.EndOfDayCharacterised | web-calendar-ui/src/app/service/date-time-util.service.ts:113-133 | the start of a day is at midnight, its end is at 23:59, and the start comes first |
| LocalTime.IsTimeAtMidnight | web-calendar-ui/src/app/service/date-time-util.service.ts:113-117 | definition: hour, minute and second are all 0; the milliseconds are not looked at |
| LocalTime.IsTimeAtEndOfDay | web-calendar-ui/src/app/service/date-time-util.service.ts:119-122 | definition: hour 23 and minute 59, whatever the seconds and milliseconds |
| CivilCalendar.StartOfMonth | web-calendar-ui/src/app/service/date-time-util.service.ts:57-59 | midnight on the first of the same month, less than 31 days before |
| CivilCalendar.PreviousSunday | web-calendar-ui/src/app/service/date-time-util.service.ts:65-67 | a Sunday 1 to 7 days before, 7 exactly when the day is itself a Sunday |
| CivilCalendar.CivilDateOfInjective | web-calendar-ui/src/app/service/date-time-util.service.ts:109-111 | distinct days have distinct 'yyyy-MM-dd' keys |
| CivilCalendar.CalendarStartDateAsWritten | web-calendar-ui/src/app/service/date-time-util.service.ts:124-127 | a Sunday 1 to 7 days before the first of the month, 7 when the first is a Sunday |
| CivilCalendar.CalendarStartDate | web-calendar-ui/src/app/service/date-time-util.service.ts:124-127 | the corrected start: the Sunday on or before the first of the month |
| CivilCalendar.CalendarStartDependsOnMonthOnly | web-calendar-ui/src/app/service/date-time-util.service.ts:124-127 | any two days of the same month give the same grid start, under both rules |
| CivilCalendar.MarchNineteenSeventyLosesItsLastDays | web-calendar-ui/src/app/service/date-time-util.service.ts:124-127 | for March 1970 the start as written is 22 February, and 31 March falls outside the 35 cells; the corrected start is 1 March |
| EventDateRules.FullDayForDateCharacterised | web-calendar-ui/src/app/service/event-date-time-util.service.ts:41-48 | full-day for a date if and only if the event started before that day or at its midnight, and ends after it or at 23:59 or later on it |
| EventDateRules.IsEventFullDay | web-calendar-ui/src/app/service/event-date-time-util.service.ts:28-35 | definition: the start is at midnight and the end at 23:59, on whatever days |
| EventDateRules.IsEventMultiDay | web-calendar-ui/src/app/service/event-date-time-util.service.ts:37-39 | definition: the start and end fall on different calendar days |
| EventDateRules.IsEventFullDayForDate | web-calendar-ui/src/app/service/event-date-time-util.service.ts:41-48 | definition: the event starts no later than the date's 00:00 and ends no earlier than its 23:59 |
| EventDateRules.FullDayEventCoversItsDays | web-calendar-ui/src/app/service/event-date-time-util.service.ts:28-48 | a full-day event is full-day for exactly the days from its start day (if its start has no milliseconds) through its end day |
| EventDateRules.EventDurationInDays | web-calendar-ui/src/app/service/event-date-time-util.service.ts:50-55 | the start's day plus the result is the end's day; it is 0 exactly for a single-day event and never negative when the end does not precede the start |
| EventDateRules.SetEventAsFullDay | web-calendar-ui/src/app/service/event-date-time-util.service.ts:57-63 | the start moves to midnight and the end to 23:59 of their own days; the result is full-day and every other field is kept |
| EventDateRules.SetEventAsFullDayIdempotent | web-calendar-ui/src/app/service/event-date-time-util.service.ts:57-63 | applying it twice is applying it once, and the result ends after it starts when the days are in order |
| EventDateRules.CreateDefaultFullDayEvent | web-calendar-ui/src/app/service/event-date-time-util.service.ts:121-126 | 00:00 to 23:59 of the given day |
| EventDateRules.DefaultFullDayEventIsFullDay | web-calendar-ui/src/app/service/event-date-time-util.service.ts:121-126 | an event on the default full-day slot is full-day, not multi-day, and full-day for exactly its own date |
| EventDateRules.CreateDefaultTimedEvent | web-calendar-ui/src/app/service/event-date-time-util.service.ts:128-133 | starts at `startHour`:00 of the day and ends `durationHours` later |
| EventDateRules.DefaultTimedEventIsNineToTen | web-calendar-ui/src/app/service/event-date-time-util.service.ts:128-133 | with the defaults the slot is 09:00 to 10:00 of the same day, with the given time's seconds and milliseconds |
| CalendarGrid.InitializeCalendarGrid | web-calendar-ui/src/app/component/calendar/calendar.component.ts:69-85 | consecutive days from the start day, each without events, flagged exactly when outside the selected month |
| CalendarGrid.FindCell | web-calendar-ui/src/app/component/calendar/calendar.component.ts:120-127 | a found cell has the date's key; no cell has it when none is found |
| CalendarGrid.DateKey | web-calendar-ui/src/app/component/calendar/calendar.component.ts:125-127 | definition: the 'yyyy-MM-dd' key of a time is its calendar date, which identifies the day |
| CalendarGrid.FindCellInGrid | web-calendar-ui/src/app/component/calendar/calendar.component.ts:120-127 | in a grid, the lookup finds the cell of the date's day exactly when the grid holds that day |
| CalendarGrid.DistributeEventAcrossDays | web-calendar-ui/src/app/component/calendar/calendar.component.ts:91-104 | the cell of each day from the event's start day through its end day gains one entry, flagged full-day for that date; other cells are unchanged |
| CalendarGrid.EntriesFor | web-calendar-ui/src/app/component/calendar/calendar.component.ts:106-112 | a cell's entries are exactly the events whose days include its day, each with its full-day flag |
| CalendarGrid.EntityFor | web-calendar-ui/src/app/component/calendar/calendar.component.ts:154-159 | definition: the event paired with whether it is full-day for the cell's date |
| CalendarGrid.ProcessAndDistributeEvents | web-calendar-ui/src/app/component/calendar/calendar.component.ts:106-112 | each cell gains exactly the entries of the events covering its day, in list order |
| CalendarGrid.CompareIsConsistent | web-calendar-ui/src/app/component/calendar/calendar.component.ts:166-175 | the comparator is antisymmetric, total and transitive; full-day entries come first, then earlier starts |
| CalendarGrid.CompareEventEntities | web-calendar-ui/src/app/component/calendar/calendar.component.ts:166-175 | definition: -1 when only `a` is full-day, 1 when only `b` is, otherwise the difference of the start instants in milliseconds |
| CalendarGrid.SortEntries | web-calendar-ui/src/app/component/calendar/calendar.component.ts:116 | a sorted permutation of the entries |
| CalendarGrid.SortCalendarEvents | web-calendar-ui/src/app/component/calendar/calendar.component.ts:114-118 | every cell's entries are sorted and permuted; dates and month flags are unchanged |
| CalendarGrid.GetVisibleEvents | web-calendar-ui/src/app/component/calendar/calendar.component.ts:177-179 | a prefix of at most four entries |
| CalendarGrid.GetHiddenEventsCount | web-calendar-ui/src/app/component/calendar/calendar.component.ts:181-183 | the visible and hidden counts add up to the total |
| CalendarGrid.VisibleAndHiddenPartition | web-calendar-ui/src/app/component/calendar/calendar.component.ts:177-187 | visible followed by hidden entries are all the entries; "more" appears exactly when some are hidden, and then four are shown |
| CalendarGrid.HasMoreEvents | web-calendar-ui/src/app/component/calendar/calendar.component.ts:185-187 | definition: more than four entries |
| CalendarGrid.PopulateCalendarEntities | web-calendar-ui/src/app/component/calendar/calendar.component.ts:129-139 | a grid from the corrected start whose cells hold, sorted, exactly the entries of the events covering their days |
| CalendarGrid.SelectedMonthFitsInGrid | web-calendar-ui/src/app/component/calendar/calendar.component.ts:73-74 | in the corrected six-week grid every day of the selected month has a cell, and that cell is not flagged as another month |
| CalendarGrid.MayNineteenSeventyOverflowsFiveWeeks | web-calendar-ui/src/app/component/calendar/calendar.component.ts:38 | for May 1970, 31 May falls at cell 35, outside the declared 35 cells, under either start rule |
| EventForm.ToMinute | web-calendar-ui/src/app/service/date-time-util.service.ts:101-103 | writing a time into a control keeps its day, hour and minute, and drops less than a minute |
| EventForm.TitleErrors | web-calendar-ui/src/app/component/event/event-form/event-form.component.ts:107 | "required" exactly for an empty title and "maxlength" exactly over 255 characters; "minlength" never fires |
| EventForm.TitleValidIffWithinBounds | web-calendar-ui/src/app/component/event/event-form/event-form.component.ts:36-37 | the title control is valid if and only if the title has between 1 and 255 characters |
| EventForm.EndDateValidator | web-calendar-ui/src/app/component/event/event-form/event-form.component.ts:153-167 | a range error if and only if the form exists, both values parse, and the end is before the start |
| EventForm.EndErrors | web-calendar-ui/src/app/component/event/event-form/event-form.component.ts:110 | the end control is valid exactly when it is not blank and the range check passes |
| EventForm.EqualTimesAccepted | web-calendar-ui/src/app/component/event/event-form/event-form.component.ts:164-166 | an end equal to the start is accepted; one a minute earlier is not |
| EventForm.GetFieldDisplayName | web-calendar-ui/src/app/component/event/event-form/event-form.component.ts:203-210 | labels for title, start and end; any other name is returned unchanged |
| EventForm.BuildErrorMessage | web-calendar-ui/src/app/component/event/event-form/event-form.component.ts:191-201 | a non-empty message for exactly `required`, `minlength` and `dateRange`; the range error's own message when it has one, else the default |
| EventForm.FirstMessageIndex | web-calendar-ui/src/app/component/event/event-form/event-form.component.ts:79-82 | the first error with a message; no earlier error has one |
| EventForm.GetError | web-calendar-ui/src/app/component/event/event-form/event-form.component.ts:73-85 | non-empty only for a control with errors that is dirty or touched, and then the first error's message |
| EventForm.TitleMessages | web-calendar-ui/src/app/component/event/event-form/event-form.component.ts:191-201 | an empty title shows "Event title is required"; a title over 255 characters is invalid but shows no message |
| EventForm.EndControlMessages | web-calendar-ui/src/app/component/event/event-form/event-form.component.ts:73-85 | an end before the start shows the range message, a blank end "End date and time is required", and a valid end nothing |
| EventForm.EmitFormData | web-calendar-ui/src/app/component/event/event-form/event-form.component.ts:87-103 | a null description or location makes `trim` throw a TypeError, and nothing is submitted; otherwise trimmed text fields and no id, the start's day at 00:00 and the end's day at 23:59 when the box is ticked, and the times as entered otherwise |
| EventForm.EmittedFieldsAreTrimmed | web-calendar-ui/src/app/component/event/event-form/event-form.component.ts:90-94 | when the form submits, trimming the submitted fields again changes nothing |
| Text.Trim | web-calendar-ui/src/app/component/event/event-form/event-form.component.ts:90-94 | the result is the text between leading and trailing whitespace, and it neither starts nor ends with whitespace |
| Text.TrimIdempotent | web-calendar-ui/src/app/component/event/event-form/event-form.component.ts:90-94 | trimming twice is trimming once |
| EventForm.BlankTitlePassesFormButNotBackEnd | web-calendar-ui/src/app/component/event/event-form/event-form.component.ts:90 | a one-space title passes the form, is submitted as "", and is then rejected by bean validation as empty |
| EventForm.UpdateEndDateIfNeeded | web-calendar-ui/src/app/component/event/event-form/event-form.component.ts:169-188 | a blank end is kept; a full-day end becomes 23:59 of the start's day; a timed end not after the start becomes one hour after the start's whole hour; any other end is kept |
| EventForm.UpdatedEndFollowsStart | web-calendar-ui/src/app/component/event/event-form/event-form.component.ts:169-188 | for a start on a whole minute and an end that needs moving (any end when full-day, an end not after the start when timed), the moved end passes the range validator, and a timed one is strictly after the start |
| EventForm.OnWholeDayToggle | web-calendar-ui/src/app/component/event/event-form/event-form.component.ts:230-257 | ticking gives 00:00 to 23:59 of the start's day; unticking gives 09:00 to 10:00; a blank start changes nothing; an unparseable start becomes an Invalid Date, and writing it back throws a RangeError |

## Left out

- Time zones: `convertEventToUserTimezone` and the reverse, date-fns-tz and daylight saving. The model has one time zone in which every day has 24 hours.
- Parsing and formatting: `new Date(string)`, `isValidDate` and the date-fns `format` patterns. A control's value is `Blank`, `Unparseable` or a time. Writing a time into a control is modelled as keeping its minute (`ToMinute`). The `'yyyy-MM-dd'` key is the calendar date (`DateKey`).
- String lengths: JavaScript counts UTF-16 code units and the model counts characters. They differ only for characters outside the Basic Multilingual Plane.
- HTTP, Spring routing, Jackson and malformed JSON, dependency injection and logging: these are framework plumbing. The request URI is an input of `Controller.Handle`.
- JPA: the repository is a map with an id counter. `Repository.FindAll` returns rows by ascending id, because the source fixes no order.
- Bean-validation message order: Spring does not fix it. `EventModel.FieldErrors` uses declaration order.
- `ApiError.timestamp`: it depends on the wall clock.
- Only the five HTTP statuses the API uses are modelled.
- The "Start time must be in the future" rule appears only in the tests. The validator does not implement it.
- The `setTimeout` auto-dismiss in `addNotification` and the notification observable: asynchrony.
- RxJS subscriptions, `debounceTime`, the Angular lifecycle, `onSubmit`, `setFormValues`, `setDefaultDates` and `markFormGroupTouched`: asynchrony and form plumbing. `hasError` is the predicate `EventForm.HasError`.
- The calendar's month navigation (`addMonths`), the "more events" modal, and time and month-name formatting: UI.
- The network calls in `event.service.ts`: transport.
- `buildErrorMessage` and `getFieldDisplayName` index plain objects. A key such as "constructor" would find an inherited member. The model treats every key outside the table as absent.
- EventForm.EmitFormData: requires both date values to parse. A value that does not parse would be submitted as an invalid `Date`, which the model does not represent. A null description or location is modelled: the call fails with a TypeError.
- EventForm.UpdateEndDateIfNeeded: takes the start as a parsed time. An unparseable start (a `datetime-local` control does not produce one) makes date-fns `format` throw in the full-day branch, and this is not modelled.
- CalendarGrid.SortEntries: proves that the result is sorted and a permutation, but not stability. `Array.prototype.sort` is stable, and the insertion order used keeps equal entries in input order, but no lemma states it.
- CalendarGrid.PopulateCalendarEntities: uses the corrected start and six weeks of cells (see Findings). The five-week grid as written is described by `CalendarGrid.MayNineteenSeventyOverflowsFiveWeeks` and `CivilCalendar.MarchNineteenSeventyLosesItsLastDays`.
- `isTimeAtMidnight` ignores milliseconds, so an event that starts at 00:00:00.500 counts as full-day. It is still not full-day on its first date (`EventDateRules.FullDayEventCoversItsDays` states this). The model keeps this behaviour.

## Findings

| source | as written | input that shows it | evidently intended | confidence | as-written member | corrected member |
|---|---|---|---|---|---|---|
| web-calendar-ui/src/app/service/date-time-util.service.ts:124-127 | The grid starts at `previousSunday(startOfMonth(selected))`, the Sunday strictly before the first of the month. | Any date in March 1970, whose first is a Sunday (day 59). The grid starts on 22 February, its whole first row is February, and 29 to 31 March fall outside the 35 cells. | Start on the Sunday on or before the first (`startOfWeek`), so the first is in the first row. | medium, not executed | CivilCalendar.MarchNineteenSeventyLosesItsLastDays | CivilCalendar.CalendarStartDate |
| web-calendar-ui/src/app/component/calendar/calendar.component.ts:38 | The grid has `AMOUNT_OF_CELLS = 35` cells, five weeks. | Any date in May 1970, which starts on a Friday and has 31 days. Either start rule gives 26 April, so 31 May would be cell 35. | A grid long enough for every day of the month. Six weeks (42 cells) always suffice once the grid starts on the Sunday on or before the first. | medium, not executed | CalendarGrid.MayNineteenSeventyOverflowsFiveWeeks | CalendarGrid.SelectedMonthFitsInGrid |
