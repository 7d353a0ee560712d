/**
 * `EventController` with its exception handling: one request against the store gives
 * the next store and the response. POST and PUT run bean validation, then the
 * validator, then the mapper, then the service; any failure stops the pipeline there.
 */
module Controller {
  import opened Wrappers
  import opened EventModel
  import Repository
  import Validator
  import Mapper
  import EventService
  import ApiErrors

  type Store = Repository.Store

  /** The five endpoints under `/events`. */
  datatype Route =
    | PostEvent(body: EventRequest)
    | GetAll
    | GetOne(id: int)
    | PutEvent(id: int, body: EventRequest)
    | DeleteOne(id: int)

  /** A routed request; `uri` is the request URI the transport reports (used in error bodies). */
  datatype HttpRequest = HttpRequest(route: Route, uri: string)

  datatype Body =
    | NoBody
    | EventBody(event: Event)
    | EventsBody(events: seq<Event>)
    | ErrorBody(apiError: ApiErrors.ApiError)

  datatype Response = Response(status: ApiErrors.HttpStatus, body: Body)

  /** The handler's response for a failure raised while serving `uri`. */
  function FailureResponse(f: ApiErrors.Failure, uri: string): (resp: Response)
    ensures resp.status == ApiErrors.StatusOf(f)
    ensures resp.body.ErrorBody? && resp.body.apiError == ApiErrors.HandleFailure(f, uri).1
  {
    var (status, err) := ApiErrors.HandleFailure(f, uri);
    Response(status, ErrorBody(err))
  }

  /**
   * The checks POST and PUT share: bean validation, then the validator. On success the
   * mapped entity is returned; on failure the failure the handler sees.
   */
  function CheckAndMap(body: EventRequest): (r: Result<Event, ApiErrors.Failure>)
    ensures !WellFormed(body) ==> r == Failure(ApiErrors.MethodArgumentNotValid(FieldErrors(body)))
    ensures WellFormed(body) && Validator.Validate(body).Fail? ==>
              r == Failure(ApiErrors.IllegalArgument(Validator.Validate(body).error))
    ensures r.Success? <==> WellFormed(body) && Validator.Validate(body) == Pass
    ensures r.Success? ==> r.value == Mapper.ToEntity(body)
  {
    if !WellFormed(body) then
      Failure(ApiErrors.MethodArgumentNotValid(FieldErrors(body)))
    else
      match Validator.Validate(body)
      case Fail(message) => Failure(ApiErrors.IllegalArgument(message))
      case Pass => Success(Mapper.ToEntity(body))
  }

  /** Serves one request. */
  function Handle(s: Store, req: HttpRequest): (res: (Store, Response))
    requires Repository.Valid(s)
    ensures Repository.Valid(res.0)
    ensures res.1.status.BadRequest? || res.1.status.NotFound? ==> res.0 == s
    ensures req.route.GetAll? || req.route.GetOne? ==> res.0 == s
  {
    match req.route
    case PostEvent(body) =>
      (match CheckAndMap(body)
       case Failure(f) => (s, FailureResponse(f, req.uri))
       case Success(entity) =>
         var (s', saved) := EventService.SaveEvent(s, entity);
         (s', Response(ApiErrors.Created, EventBody(saved))))
    case GetAll =>
      (s, Response(ApiErrors.Ok, EventsBody(EventService.GetAllEvents(s))))
    case GetOne(id) =>
      (match EventService.GetEventById(s, id)
       case Success(e) => (s, Response(ApiErrors.Ok, EventBody(e)))
       case Failure(nf) => (s, FailureResponse(ApiErrors.NoSuchElement(nf.message), req.uri)))
    case PutEvent(id, body) =>
      (match CheckAndMap(body)
       case Failure(f) => (s, FailureResponse(f, req.uri))
       case Success(entity) =>
         match EventService.UpdateEvent(s, id, entity)
         case Success(s') => (s', Response(ApiErrors.NoContent, NoBody))
         case Failure(nf) => (s, FailureResponse(ApiErrors.NoSuchElement(nf.message), req.uri)))
    case DeleteOne(id) =>
      (match EventService.DeleteEvent(s, id)
       case Success(s') => (s', Response(ApiErrors.NoContent, NoBody))
       case Failure(nf) => (s, FailureResponse(ApiErrors.NoSuchElement(nf.message), req.uri)))
  }

  /** A body that fails bean validation gets 400 with the joined field messages; nothing else runs. */
  lemma IllFormedBodyIsBadRequest(s: Store, req: HttpRequest)
    requires Repository.Valid(s)
    requires (req.route.PostEvent? || req.route.PutEvent?) && !WellFormed(req.route.body)
    ensures var (s', resp) := Handle(s, req);
            && s' == s
            && resp.status == ApiErrors.BadRequest
            && resp.body == ErrorBody(ApiErrors.ApiError(400, "Bad Request",
                                        ApiErrors.FieldErrorsMessage(FieldErrors(req.route.body)), req.uri))
  {
  }

  /** A well-formed body the validator rejects gets 400 with the validator's message, and nothing is stored. */
  lemma InvalidBodyIsBadRequest(s: Store, req: HttpRequest)
    requires Repository.Valid(s)
    requires (req.route.PostEvent? || req.route.PutEvent?) && WellFormed(req.route.body)
    requires Validator.Validate(req.route.body).Fail?
    ensures var (s', resp) := Handle(s, req);
            && s' == s
            && resp.status == ApiErrors.BadRequest
            && resp.body == ErrorBody(ApiErrors.ApiError(400, "Bad Request",
                                        Validator.Validate(req.route.body).error, req.uri))
  {
  }

  /** A valid POST answers 201 with the stored entity, which has a fresh id and the request's fields. */
  lemma ValidPostIsCreated(s: Store, body: EventRequest, uri: string)
    requires Repository.Valid(s)
    requires WellFormed(body) && Validator.Validate(body) == Pass
    ensures var (s', resp) := Handle(s, HttpRequest(PostEvent(body), uri));
            && resp.status == ApiErrors.Created
            && resp.body.EventBody?
            && resp.body.event.id.Some?
            && resp.body.event.id.value !in s.rows
            && MutableFields(resp.body.event) == RequestFields(body)
            && s'.rows == s.rows[resp.body.event.id.value := resp.body.event]
  {
  }

  /** GET /events/{id} answers 200 with the entity, or 404 with "Event with id: {id} does not exist". */
  lemma GetOneOutcomes(s: Store, id: int, uri: string)
    requires Repository.Valid(s)
    ensures var (s', resp) := Handle(s, HttpRequest(GetOne(id), uri));
            && s' == s
            && (id in s.rows ==> resp == Response(ApiErrors.Ok, EventBody(s.rows[id])))
            && (id !in s.rows ==> resp == Response(ApiErrors.NotFound,
                  ErrorBody(ApiErrors.ApiError(404, "Not Found", EventService.NotFoundMessage(id), uri))))
  {
  }

  /** GET /events answers 200 with exactly the stored events. */
  lemma GetAllOutcome(s: Store, uri: string)
    requires Repository.Valid(s)
    ensures var (s', resp) := Handle(s, HttpRequest(GetAll, uri));
            && s' == s
            && resp.status == ApiErrors.Ok
            && resp.body.EventsBody?
            && (forall e :: e in resp.body.events <==> e in s.rows.Values)
            && |resp.body.events| == |s.rows|
            && (forall i, j :: 0 <= i < j < |resp.body.events| ==>
                  resp.body.events[i].id.Some? && resp.body.events[j].id.Some? &&
                  resp.body.events[i].id.value < resp.body.events[j].id.value)
  {
  }

  /**
   * A PUT with a valid body answers 204 and replaces the event's fields when the id is
   * stored, and 404 leaving the store unchanged otherwise. Body checks come first: an
   * invalid body is 400 even for an absent id.
   */
  lemma PutOutcomes(s: Store, id: int, body: EventRequest, uri: string)
    requires Repository.Valid(s)
    requires WellFormed(body) && Validator.Validate(body) == Pass
    ensures var (s', resp) := Handle(s, HttpRequest(PutEvent(id, body), uri));
            && (id in s.rows ==> && resp == Response(ApiErrors.NoContent, NoBody)
                                 && s'.rows.Keys == s.rows.Keys
                                 && s'.rows[id].id == Some(id)
                                 && (forall k :: k in s.rows && k != id ==> s'.rows[k] == s.rows[k])
                                 && MutableFields(s'.rows[id]) == RequestFields(body))
            && (id !in s.rows ==> && s' == s
                                  && resp == Response(ApiErrors.NotFound,
                                       ErrorBody(ApiErrors.ApiError(404, "Not Found",
                                                   EventService.UpdateNotFoundMessage(id), uri))))
  {
  }

  /** DELETE answers 204 and removes the row when the id is stored, 404 leaving the store unchanged otherwise. */
  lemma DeleteOutcomes(s: Store, id: int, uri: string)
    requires Repository.Valid(s)
    ensures var (s', resp) := Handle(s, HttpRequest(DeleteOne(id), uri));
            && (id in s.rows ==> resp == Response(ApiErrors.NoContent, NoBody) && s'.rows == s.rows - {id})
            && (id !in s.rows ==> && s' == s
                                  && resp == Response(ApiErrors.NotFound,
                                       ErrorBody(ApiErrors.ApiError(404, "Not Found",
                                                   EventService.NotFoundMessage(id), uri))))
  {
  }
}
