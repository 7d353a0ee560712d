/**
 * `EventFormComponent`: the rules of the add/edit form. The title must have between 1 and
 * 255 characters; the end may not precede the start; errors are turned into messages per
 * field; submitted text fields are trimmed; and changing the start moves the end when
 * the event is full-day or the end no longer follows the start.
 */
module EventForm {
  import opened Wrappers
  import opened LocalTime
  import opened EventDateRules
  import Text
  import EventModel

  const MinTitleLength := 1
  const MaxTitleLength := 255

  /**
   * A date-time control's value as the form sees it: the empty string, a string that does
   * not parse as a date, or a time. The control holds "yyyy-MM-ddTHH:mm" strings, so a time
   * written into it keeps its minute and loses seconds and milliseconds.
   */
  datatype DateField = Blank | Unparseable | At(time: LocalDateTime)

  /** The payload of one error: the required length of a length error, the message of a range error. */
  datatype ErrorValue = ErrorValue(requiredLength: Option<int>, message: Option<string>)

  datatype ValidationError = ValidationError(key: string, value: ErrorValue)

  /** A control: its name, its errors in the order the validators reported them, and whether the user has changed or left it. */
  datatype Field = Field(name: string, errors: seq<ValidationError>, dirty: bool, touched: bool)

  const DateRangeMessage := "End date and time must be after start date and time"

  /** Writing a time into a control and reading it back: the same minute, no seconds. */
  function ToMinute(t: LocalDateTime): (r: LocalDateTime)
    requires t.Valid()
    ensures r.Valid() && r.day == t.day && r.hour == t.hour && r.minute == t.minute
    ensures ToMillis(r) <= ToMillis(t) < ToMillis(r) + MsPerMinute
  {
    t.(second := 0, milli := 0)
  }

  predicate AtMinute(t: LocalDateTime) {
    t.second == 0 && t.milli == 0
  }

  /** The keys of the errors, in order (`Object.keys(errors)`). */
  function ErrorKeys(errs: seq<ValidationError>): (keys: seq<string>)
    ensures |keys| == |errs|
    ensures forall k :: 0 <= k < |errs| ==> keys[k] == errs[k].key
  {
    if |errs| == 0 then [] else [errs[0].key] + ErrorKeys(errs[1..])
  }

  /**
   * The title's validators `required`, `minLength(1)` and `maxLength(255)`, errors merged
   * in that order. `minLength` ignores an empty value, so it never fires for a minimum of
   * one; neither validator trims, so a blank title of spaces passes.
   */
  function TitleErrors(title: string): (errs: seq<ValidationError>)
    ensures |errs| <= 1
    ensures "required" in ErrorKeys(errs) <==> title == ""
    ensures "maxlength" in ErrorKeys(errs) <==> |title| > MaxTitleLength
    ensures "minlength" !in ErrorKeys(errs)
  {
    (if |title| == 0 then [ValidationError("required", ErrorValue(None, None))] else [])
    + (if |title| > 0 && |title| < MinTitleLength then [ValidationError("minlength", ErrorValue(Some(MinTitleLength), None))] else [])
    + (if |title| > MaxTitleLength then [ValidationError("maxlength", ErrorValue(Some(MaxTitleLength), None))] else [])
  }

  /** The title control is valid exactly when the title has between 1 and 255 characters. */
  lemma TitleValidIffWithinBounds(title: string)
    ensures TitleErrors(title) == [] <==> MinTitleLength <= |title| <= MaxTitleLength
  {
  }

  /**
   * `endDateValidator`: no error before the form exists, when either control is blank or
   * either string does not parse; otherwise a range error exactly when the end precedes
   * the start.
   */
  function EndDateValidator(formReady: bool, start: DateField, end: DateField): (r: Option<ValidationError>)
    ensures r.Some? <==> formReady && start.At? && end.At? && ToMillis(end.time) < ToMillis(start.time)
    ensures r.Some? ==> r.value.key == "dateRange" && r.value.value.message == Some(DateRangeMessage)
  {
    if !formReady then None
    else if start.Blank? || end.Blank? then None
    else if start.Unparseable? || end.Unparseable? then None
    else if ToMillis(end.time) < ToMillis(start.time) then Some(ValidationError("dateRange", ErrorValue(None, Some(DateRangeMessage))))
    else None
  }

  /** The end control's validators: `required`, then the range check. */
  function EndErrors(formReady: bool, start: DateField, end: DateField): (errs: seq<ValidationError>)
    ensures errs == [] <==> !end.Blank? && EndDateValidator(formReady, start, end).None?
  {
    (if end.Blank? then [ValidationError("required", ErrorValue(None, None))] else [])
    + (match EndDateValidator(formReady, start, end) case Some(e) => [e] case None => [])
  }

  /** An end equal to the start is accepted; an end one minute earlier is not. */
  lemma EqualTimesAccepted(t: LocalDateTime)
    requires t.Valid() && t.minute > 0
    ensures EndErrors(true, At(t), At(t)) == []
    ensures EndErrors(true, At(t), At(t.(minute := t.minute - 1))) != []
  {
  }

  /** `getFieldDisplayName`: the label of the three date and title controls, any other name as it is. */
  function GetFieldDisplayName(fieldName: string): (r: string)
    ensures fieldName == "title" ==> r == "Event title"
    ensures fieldName == "startDateTime" ==> r == "Start date and time"
    ensures fieldName == "endDateTime" ==> r == "End date and time"
    ensures fieldName !in {"title", "startDateTime", "endDateTime"} ==> r == fieldName
  {
    if fieldName == "title" then "Event title"
    else if fieldName == "startDateTime" then "Start date and time"
    else if fieldName == "endDateTime" then "End date and time"
    else fieldName
  }

  /** A template number as JavaScript renders it, "undefined" when absent. */
  function RenderNumber(n: Option<int>): string {
    if n.Some? then Text.IntToString(n.value) else "undefined"
  }

  /**
   * `buildErrorMessage`: messages for `required`, `minlength` and `dateRange` (the error's
   * own message, or the default when it has none); no message for any other key,
   * `maxlength` included.
   */
  function BuildErrorMessage(fieldName: string, errorKey: string, errorValue: ErrorValue): (r: Option<string>)
    ensures r.Some? <==> errorKey in {"required", "minlength", "dateRange"}
    ensures r.Some? ==> |r.value| > 0
    ensures errorKey == "required" ==> r == Some(GetFieldDisplayName(fieldName) + " is required")
    ensures errorKey == "dateRange" && errorValue.message.Some? && errorValue.message.value != "" ==> r == errorValue.message
    ensures errorKey == "dateRange" && (errorValue.message.None? || errorValue.message.value == "") ==> r == Some(DateRangeMessage)
  {
    var fieldDisplay := GetFieldDisplayName(fieldName);
    if errorKey == "required" then Some(fieldDisplay + " is required")
    else if errorKey == "minlength" then
      Some(fieldDisplay + " must be at least " + RenderNumber(errorValue.requiredLength) + " characters")
    else if errorKey == "dateRange" then
      Some(if errorValue.message.Some? && errorValue.message.value != "" then errorValue.message.value else DateRangeMessage)
    else None
  }

  /** The position of the first error that has a message, if any. */
  function FirstMessageIndex(fieldName: string, errs: seq<ValidationError>): (r: Option<nat>)
    ensures r.Some? ==> r.value < |errs| && BuildErrorMessage(fieldName, errs[r.value].key, errs[r.value].value).Some?
    ensures r.Some? ==> forall j :: 0 <= j < r.value ==> BuildErrorMessage(fieldName, errs[j].key, errs[j].value).None?
    ensures r.None? ==> forall j :: 0 <= j < |errs| ==> BuildErrorMessage(fieldName, errs[j].key, errs[j].value).None?
  {
    if |errs| == 0 then None
    else if BuildErrorMessage(fieldName, errs[0].key, errs[0].value).Some? then Some(0)
    else match FirstMessageIndex(fieldName, errs[1..])
      case Some(i) => Some(i + 1)
      case None => None
  }

  /** `hasError`: the control is invalid and the user has changed or left it. */
  predicate HasError(field: Option<Field>) {
    field.Some? && field.value.errors != [] && (field.value.dirty || field.value.touched)
  }

  /**
   * `getError`: nothing for a missing control, a valid one, or one the user has not yet
   * changed or left; otherwise the message of the first error that has one, or nothing.
   */
  function GetError(field: Option<Field>): (r: string)
    ensures r != "" ==> HasError(field)
    ensures r != "" ==> var f := field.value;
                        var i := FirstMessageIndex(f.name, f.errors);
                        i.Some? && Some(r) == BuildErrorMessage(f.name, f.errors[i.value].key, f.errors[i.value].value)
    ensures HasError(field) && FirstMessageIndex(field.value.name, field.value.errors).Some? ==> r != ""
  {
    if field.None? || field.value.errors == [] || !(field.value.dirty || field.value.touched) then ""
    else
      var f := field.value;
      match FirstMessageIndex(f.name, f.errors)
      case Some(i) => BuildErrorMessage(f.name, f.errors[i].key, f.errors[i].value).value
      case None => ""
  }

  /**
   * An empty title shows "Event title is required"; a title over 255 characters is
   * invalid yet shows no message, because the message table has no `maxlength` entry.
   */
  lemma TitleMessages(title: string, dirty: bool, touched: bool)
    requires dirty || touched
    ensures title == "" ==> GetError(Some(Field("title", TitleErrors(title), dirty, touched))) == "Event title is required"
    ensures |title| > MaxTitleLength ==>
              && HasError(Some(Field("title", TitleErrors(title), dirty, touched)))
              && GetError(Some(Field("title", TitleErrors(title), dirty, touched))) == ""
  {
  }

  /**
   * On an end control the user has changed or left, an end before the start shows the
   * range message, a missing end "End date and time is required", and an end at or after
   * the start nothing.
   */
  lemma EndControlMessages(start: DateField, end: DateField, dirty: bool, touched: bool)
    requires dirty || touched
    ensures var f := Some(Field("endDateTime", EndErrors(true, start, end), dirty, touched));
            && (start.At? && end.At? && ToMillis(end.time) < ToMillis(start.time) ==> GetError(f) == DateRangeMessage)
            && (end.Blank? ==> GetError(f) == "End date and time is required")
            && (start.At? && end.At? && ToMillis(start.time) <= ToMillis(end.time) ==> GetError(f) == "")
  {
  }

  /**
   * The exception a form handler dies with: a `TypeError` from calling a method on null,
   * a `RangeError` from formatting an Invalid Date.
   */
  datatype ScriptError = TypeError | RangeError

  /**
   * The form's value on submit. The description and location controls hold null
   * (`None`) after an event whose description or location is null is loaded into the form.
   */
  datatype FormValue = FormValue(
    title: string,
    description: Option<string>,
    startDateTime: DateField,
    endDateTime: DateField,
    location: Option<string>,
    isFullDay: bool)

  /**
   * `emitFormData`: the submitted event, its text fields trimmed, made full-day when the
   * box is ticked, and without an id. Trimming a null description or location throws.
   */
  function EmitFormData(form: FormValue): (r: Result<CalendarEvent, ScriptError>)
    requires form.startDateTime.At? && form.startDateTime.time.Valid()
    requires form.endDateTime.At? && form.endDateTime.time.Valid()
    ensures r.Failure? <==> form.description.None? || form.location.None?
    ensures r.Failure? ==> r.error == TypeError
    ensures r.Success? ==> var e := r.value;
              && e.id.None?
              && e.title == Text.Trim(form.title)
              && e.description == Text.Trim(form.description.value)
              && e.location == Text.Trim(form.location.value)
              && ValidTimes(e)
    ensures r.Success? && form.isFullDay ==> var e := r.value;
              && IsEventFullDay(e)
              && e.startTime == LocalDateTime(form.startDateTime.time.day, 0, 0, 0, 0)
              && e.endTime == LocalDateTime(form.endDateTime.time.day, 23, 59, 0, 0)
    ensures r.Success? && !form.isFullDay ==>
              r.value.startTime == form.startDateTime.time && r.value.endTime == form.endDateTime.time
  {
    if form.description.None? || form.location.None? then Failure(TypeError)
    else
      var eventData := CalendarEvent(None, Text.Trim(form.title), Text.Trim(form.description.value),
                                     form.startDateTime.time, form.endDateTime.time, Text.Trim(form.location.value));
      Success(if form.isFullDay then SetEventAsFullDay(eventData) else eventData)
  }

  /** The submitted text fields carry no surrounding whitespace: trimming them again changes nothing. */
  lemma EmittedFieldsAreTrimmed(form: FormValue)
    requires form.startDateTime.At? && form.startDateTime.time.Valid()
    requires form.endDateTime.At? && form.endDateTime.time.Valid()
    ensures var r := EmitFormData(form);
            r.Success? ==>
              && Text.Trim(r.value.title) == r.value.title
              && Text.Trim(r.value.description) == r.value.description
              && Text.Trim(r.value.location) == r.value.location
  {
    if form.description.Some? && form.location.Some? {
      Text.TrimIdempotent(form.title);
      Text.TrimIdempotent(form.description.value);
      Text.TrimIdempotent(form.location.value);
    }
  }

  /**
   * A title of one space passes the form's validators, but it is submitted trimmed to "",
   * which the back end's bean validation rejects as an empty title.
   */
  lemma BlankTitlePassesFormButNotBackEnd(form: FormValue)
    requires form.title == " "
    requires form.description.Some? && form.location.Some?
    requires form.startDateTime.At? && form.startDateTime.time.Valid()
    requires form.endDateTime.At? && form.endDateTime.time.Valid()
    ensures TitleErrors(form.title) == []
    ensures EmitFormData(form).Success? && EmitFormData(form).value.title == ""
    ensures EventModel.TitleEmptyMessage in EventModel.FieldErrors(
              EventModel.EventRequest(Some(EmitFormData(form).value.title), None, Some(0), Some(0), None, None))
  {
  }

  /** A whole-minute time that is the minute of `m + s`, where `m` is a whole minute and `s` less than a minute, is `m`. */
  lemma WholeMinuteOf(r: LocalDateTime, b: int, s: int)
    requires r.Valid() && AtMinute(r) && 0 <= s < MsPerMinute
    requires ToMillis(r) <= b * MsPerMinute + s < ToMillis(r) + MsPerMinute
    ensures ToMillis(r) == b * MsPerMinute
  {
    var a := r.day * 1440 + r.hour * 60 + r.minute;
    assert ToMillis(r) == a * MsPerMinute;
  }

  /**
   * `updateEndDateIfNeeded(start)`: a blank end stays blank. A full-day event's end moves
   * to 23:59 of the start's day. A timed event whose end is not after the start gets the
   * end of the one-hour slot from the start's whole hour. Otherwise, an unparseable end
   * included, the end is kept.
   */
  function UpdateEndDateIfNeeded(start: LocalDateTime, end: DateField, isFullDay: bool): (r: DateField)
    requires start.Valid()
    ensures end.Blank? ==> r == end
    ensures !end.Blank? && isFullDay ==> r == At(LocalDateTime(start.day, 23, 59, 0, 0))
    ensures !end.Blank? && !isFullDay && end.At? && ToMillis(end.time) <= ToMillis(start) ==>
              r.At? && ToMillis(r.time) == ToMillis(LocalDateTime(start.day, start.hour, 0, 0, 0)) + MsPerHour
    ensures !end.Blank? && !isFullDay && !(end.At? && ToMillis(end.time) <= ToMillis(start)) ==> r == end
  {
    if end.Blank? then end
    else if isFullDay then
      At(ToMinute(CreateDefaultFullDayEvent(start).endTime))
    else if end.At? && ToMillis(end.time) <= ToMillis(start) then
      var slot := CreateDefaultTimedEvent(start, start.hour, 1);
      var b := start.day * 1440 + start.hour * 60 + 60;
      assert ToMillis(slot.endTime) == b * MsPerMinute + start.second * MsPerSecond + start.milli;
      WholeMinuteOf(ToMinute(slot.endTime), b, start.second * MsPerSecond + start.milli);
      At(ToMinute(slot.endTime))
    else end
  }

  /**
   * After the update the end no longer precedes a start the form holds (one at a whole
   * minute): the range validator passes, and a timed end is strictly after the start.
   */
  lemma UpdatedEndFollowsStart(start: LocalDateTime, end: DateField, isFullDay: bool)
    requires start.Valid() && AtMinute(start)
    requires end.At? ==> end.time.Valid()
    requires !end.Blank?
    requires !isFullDay ==> end.At? && ToMillis(end.time) <= ToMillis(start)
    ensures var r := UpdateEndDateIfNeeded(start, end, isFullDay);
            && r.At? && r.time.Valid() && AtMinute(r.time)
            && EndDateValidator(true, At(start), r).None?
            && (!isFullDay ==> ToMillis(start) < ToMillis(r.time))
  {
  }

  /**
   * `onWholeDayToggle`: ticking the box gives 00:00 to 23:59 of the start's day, unticking
   * it 09:00 to 10:00. A blank start changes nothing (`Success(None)`); a start that does
   * not parse becomes an Invalid Date, which date-fns `format` rejects with a RangeError
   * when the new values are written back.
   */
  function OnWholeDayToggle(start: DateField, isFullDay: bool): (r: Result<Option<(DateField, DateField)>, ScriptError>)
    requires start.At? ==> start.time.Valid()
    ensures start.Blank? ==> r == Success(None)
    ensures start.Unparseable? ==> r == Failure(RangeError)
    ensures start.At? && isFullDay ==>
              r == Success(Some((At(LocalDateTime(start.time.day, 0, 0, 0, 0)), At(LocalDateTime(start.time.day, 23, 59, 0, 0)))))
    ensures start.At? && !isFullDay ==>
              r == Success(Some((At(LocalDateTime(start.time.day, 9, 0, 0, 0)), At(LocalDateTime(start.time.day, 10, 0, 0, 0)))))
  {
    match start
    case Blank => Success(None)
    case Unparseable => Failure(RangeError)
    case At(t) =>
      if isFullDay then
        var span := CreateDefaultFullDayEvent(t);
        Success(Some((At(ToMinute(span.startTime)), At(ToMinute(span.endTime)))))
      else
        var span := CreateDefaultTimedEvent(t);
        DefaultTimedEventIsNineToTen(t);
        Success(Some((At(ToMinute(span.startTime)), At(ToMinute(span.endTime)))))
  }
}
