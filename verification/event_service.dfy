/**
 * `EventService`: the five operations over the repository. A missing id becomes a
 * `NotFound` failure (the source's `NoSuchElementException`) and leaves the store as it was.
 */
module EventService {
  import opened Wrappers
  import opened EventModel
  import Text
  import Repository

  type Store = Repository.Store

  /** The failure of a lookup by an id that has no row. */
  datatype NotFound = NotFound(message: string)

  /** "Event with id: {id} does not exist", as built by get and delete. */
  function NotFoundMessage(id: int): string {
    "Event with id: " + Text.IntToString(id) + " does not exist"
  }

  /** Update's variant of the message, which ends in a space. */
  function UpdateNotFoundMessage(id: int): string {
    NotFoundMessage(id) + " "
  }

  /** The message names the id: different ids give different messages. */
  lemma NotFoundMessageNamesId(a: int, b: int)
    requires NotFoundMessage(a) == NotFoundMessage(b)
    ensures a == b
  {
    var prefix := "Event with id: ";
    var suffix := " does not exist";
    var ma := NotFoundMessage(a);
    assert ma == prefix + Text.IntToString(a) + suffix;
    assert Text.IntToString(a) == ma[|prefix|..|ma| - |suffix|];
    assert Text.IntToString(b) == NotFoundMessage(b)[|prefix|..|NotFoundMessage(b)| - |suffix|];
    Text.IntToStringInjective(a, b);
  }

  /**
   * `saveEvent`: stores the entity and returns the stored copy; an entity without id (the
   * only kind the controller passes) gets a fresh one.
   */
  function SaveEvent(s: Store, e: Event): (res: (Store, Event))
    requires Repository.Valid(s)
    ensures Repository.Valid(res.0)
    ensures res.1.id.Some?
    ensures e.id.None? ==> res.1.id.value !in s.rows
    ensures MutableFields(res.1) == MutableFields(e)
    ensures res.0.rows == s.rows[res.1.id.value := res.1]
  {
    Repository.Save(s, e)
  }

  /** `getAllEvents`: exactly the stored events, ascending by id; empty, not a failure, for an empty store. */
  function GetAllEvents(s: Store): (r: seq<Event>)
    requires Repository.Valid(s)
    ensures forall e :: e in r <==> e in s.rows.Values
    ensures forall i, j :: 0 <= i < j < |r| ==> r[i].id.Some? && r[j].id.Some? && r[i].id.value < r[j].id.value
    ensures |r| == |s.rows|
    ensures s.rows == map[] ==> r == []
  {
    Repository.FindAll(s)
  }

  /** `getEventById`: the stored event, or NotFound naming the id. */
  function GetEventById(s: Store, id: int): (r: Result<Event, NotFound>)
    ensures r.Success? <==> id in s.rows
    ensures r.Success? ==> r.value == s.rows[id]
    ensures r.Failure? ==> r.error == NotFound(NotFoundMessage(id))
  {
    match Repository.FindById(s, id)
    case Some(e) => Success(e)
    case None => Failure(NotFound(NotFoundMessage(id)))
  }

  /**
   * `updateEvent`: overwrites every mutable field of the stored event with the new
   * event's, keeps the id, and saves it; an absent id fails and saves nothing.
   */
  function UpdateEvent(s: Store, id: int, newEvent: Event): (r: Result<Store, NotFound>)
    requires Repository.Valid(s)
    ensures r.Success? <==> id in s.rows
    ensures r.Failure? ==> r.error == NotFound(UpdateNotFoundMessage(id))
    ensures r.Success? ==> && Repository.Valid(r.value)
                           && r.value.rows.Keys == s.rows.Keys
                           && r.value.rows[id].id == Some(id)
                           && MutableFields(r.value.rows[id]) == MutableFields(newEvent)
                           && (forall k :: k in s.rows && k != id ==> r.value.rows[k] == s.rows[k])
  {
    match Repository.FindById(s, id)
    case None => Failure(NotFound(UpdateNotFoundMessage(id)))
    case Some(existing) =>
      var updated := existing.(title := newEvent.title,
                               description := newEvent.description,
                               startTime := newEvent.startTime,
                               endTime := newEvent.endTime,
                               location := newEvent.location,
                               color := newEvent.color);
      Success(Repository.Save(s, updated).0)
  }

  /** `deleteEvent`: removes exactly that row; an absent id fails. */
  function DeleteEvent(s: Store, id: int): (r: Result<Store, NotFound>)
    requires Repository.Valid(s)
    ensures r.Success? <==> id in s.rows
    ensures r.Failure? ==> r.error == NotFound(NotFoundMessage(id))
    ensures r.Success? ==> && Repository.Valid(r.value)
                           && r.value.rows == s.rows - {id}
  {
    match Repository.FindById(s, id)
    case None => Failure(NotFound(NotFoundMessage(id)))
    case Some(existing) => Success(Repository.Delete(s, existing))
  }

  /** After a delete, looking the id up fails with NotFound. */
  lemma GetAfterDeleteFails(s: Store, id: int)
    requires Repository.Valid(s)
    requires id in s.rows
    ensures DeleteEvent(s, id).Success?
    ensures GetEventById(DeleteEvent(s, id).value, id) == Failure(NotFound(NotFoundMessage(id)))
  {
  }

  /** A saved event can be read back by its new id. */
  lemma GetAfterSave(s: Store, e: Event)
    requires Repository.Valid(s)
    ensures var (s', saved) := SaveEvent(s, e);
            GetEventById(s', saved.id.value) == Success(saved)
  {
  }

  /** Updating then reading gives the new fields under the old id. */
  lemma GetAfterUpdate(s: Store, id: int, newEvent: Event)
    requires Repository.Valid(s) && id in s.rows
    ensures UpdateEvent(s, id, newEvent).Success?
    ensures var got := GetEventById(UpdateEvent(s, id, newEvent).value, id);
            got.Success? && got.value.id == Some(id) && MutableFields(got.value) == MutableFields(newEvent)
  {
  }

  /** Saving never reuses an id: the ids of two saves in a row differ. */
  lemma SavesGetDistinctIds(s: Store, a: Event, b: Event)
    requires Repository.Valid(s) && a.id.None? && b.id.None?
    ensures var (s1, sa) := SaveEvent(s, a);
            var (s2, sb) := SaveEvent(s1, b);
            sa.id != sb.id
  {
  }
}
