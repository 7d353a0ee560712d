/** `EventMapper`: the field-for-field copy from a request to a fresh entity. */
module Mapper {
  import opened Wrappers
  import opened EventModel
  import Repository
  import EventService

  /** `toEntity`: total, performs no validation, copies every field, leaves the id unset. */
  function ToEntity(r: EventRequest): (e: Event)
    ensures e.id.None?
    ensures MutableFields(e) == RequestFields(r)
  {
    Event(None, r.title, r.description, r.startTime, r.endTime, r.location, r.color)
  }

  /** The entity built from a well-formed request fills every non-nullable column. */
  lemma WellFormedMapsToPersistable(r: EventRequest)
    requires WellFormed(r)
    ensures Persistable(ToEntity(r))
  {
  }

  /** Requests that differ in any field map to different entities: nothing is dropped. */
  lemma ToEntityInjective(a: EventRequest, b: EventRequest)
    requires ToEntity(a) == ToEntity(b)
    ensures a == b
  {
  }

  /** Updating a stored event with a mapped request leaves that event carrying exactly the request's fields. */
  lemma UpdateWithMappedRequest(s: Repository.Store, id: int, r: EventRequest)
    requires Repository.Valid(s) && id in s.rows
    ensures var u := EventService.UpdateEvent(s, id, ToEntity(r));
            u.Success? && u.value.rows[id].id == Some(id) && MutableFields(u.value.rows[id]) == RequestFields(r)
  {
  }
}
