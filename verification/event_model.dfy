/**
 * The back end's two data shapes: the inbound `EventRequest` and the persisted `Event`.
 *
 * Java's nullable references are `Option`s. Both shapes carry an optional colour (the
 * validator, mapper and service read and write one although the Java classes do not
 * declare it) and one integer time type (the request uses `Instant`, the entity
 * `LocalDateTime`; only their order matters here).
 */
module EventModel {
  import opened Wrappers

  /** A point in time; only equality and order are used. */
  type Time = int

  /** The request body of POST and PUT. It has no identifier. */
  datatype EventRequest = EventRequest(
    title: Option<string>,
    description: Option<string>,
    startTime: Option<Time>,
    endTime: Option<Time>,
    location: Option<string>,
    color: Option<string>)

  /** The stored entity: the request's fields plus an identifier that storage assigns. */
  datatype Event = Event(
    id: Option<int>,
    title: Option<string>,
    description: Option<string>,
    startTime: Option<Time>,
    endTime: Option<Time>,
    location: Option<string>,
    color: Option<string>)

  /** The caller-supplied fields of a request, in declaration order. */
  datatype Fields = Fields(
    title: Option<string>,
    description: Option<string>,
    startTime: Option<Time>,
    endTime: Option<Time>,
    location: Option<string>,
    color: Option<string>)

  function RequestFields(r: EventRequest): Fields {
    Fields(r.title, r.description, r.startTime, r.endTime, r.location, r.color)
  }

  /** Every field of an entity except its identifier. */
  function MutableFields(e: Event): Fields {
    Fields(e.title, e.description, e.startTime, e.endTime, e.location, e.color)
  }

  /**
   * The bean-validation constraints on a request: a non-null, non-empty title and
   * non-null start and end times. Description, location and colour are unconstrained.
   */
  predicate WellFormed(r: EventRequest) {
    && r.title.Some? && |r.title.value| > 0
    && r.startTime.Some?
    && r.endTime.Some?
  }

  const TitleNullMessage := "title cannot be null"
  const TitleEmptyMessage := "title cannot be empty"
  const StartNullMessage := "start time cannot be null"
  const EndNullMessage := "end time cannot be null"

  /**
   * The messages of the violated constraints, in declaration order. A null title breaks
   * both `@NotNull` and `@NotEmpty` (which rejects null as well as "").
   */
  function FieldErrors(r: EventRequest): (errs: seq<string>)
    ensures |errs| <= 4
    ensures TitleNullMessage in errs <==> r.title.None?
    ensures TitleEmptyMessage in errs <==> r.title.None? || r.title.value == ""
    ensures StartNullMessage in errs <==> r.startTime.None?
    ensures EndNullMessage in errs <==> r.endTime.None?
  {
    (if r.title.None? then [TitleNullMessage] else [])
    + (if r.title.None? || r.title.value == "" then [TitleEmptyMessage] else [])
    + (if r.startTime.None? then [StartNullMessage] else [])
    + (if r.endTime.None? then [EndNullMessage] else [])
  }

  /** Bean validation passes exactly when it reports no field error. */
  lemma WellFormedIffNoFieldErrors(r: EventRequest)
    ensures WellFormed(r) <==> FieldErrors(r) == []
  {
  }

  /**
   * The entity's non-nullable columns (title, start_time, end_time) are filled; the
   * description and location columns, and the colour, may be null.
   */
  predicate Persistable(e: Event) {
    e.title.Some? && e.startTime.Some? && e.endTime.Some?
  }
}
