/**
 * The records stored by the dev-events API: events, the speakers that point back
 * to them, the two input models a client posts, and the view model returned by
 * the read actions.
 */
module Entities {

  /** A Guid key. Only equality and freshness of keys are observable, so a natural number stands for it. */
  type Id = nat

  /** A DateTime. No ordering between a start and an end date is ever checked. */
  type DateTime = int

  /** The key a freshly mapped record carries before the store assigns one (Guid.Empty). */
  const EmptyId: Id := 0

  /** The body of a create or update request. */
  datatype DevEventInputModel = DevEventInputModel(
    title: string,
    description: string,
    startDate: DateTime,
    endDate: DateTime)

  /** The body of an add-speaker request. */
  datatype DevEventSpeakerInputModel = DevEventSpeakerInputModel(
    name: string,
    talkTitle: string,
    talkDescription: string,
    linkedInProfile: string)

  /** A row of the events table. A soft-deleted event keeps its row and has isDeleted set. */
  datatype DevEvent = DevEvent(
    id: Id,
    title: string,
    description: string,
    startDate: DateTime,
    endDate: DateTime,
    isDeleted: bool)
  {
    /**
     * The entity's Update: replaces the four client-supplied fields and nothing else.
     * Nothing is validated, in particular not that the end date follows the start date.
     */
    function Update(newTitle: string, newDescription: string, newStart: DateTime, newEnd: DateTime): (r: DevEvent)
      ensures r.title == newTitle && r.description == newDescription
      ensures r.startDate == newStart && r.endDate == newEnd
      ensures r.id == id && r.isDeleted == isDeleted
    {
      this.(title := newTitle, description := newDescription, startDate := newStart, endDate := newEnd)
    }

    /** The entity's Delete: a soft delete that raises the flag and changes nothing else. */
    function Delete(): (r: DevEvent)
      ensures r.isDeleted
      ensures r.(isDeleted := isDeleted) == this
    {
      this.(isDeleted := true)
    }
  }

  /** A row of the speakers table; devEventId is the back-reference to its event. */
  datatype DevEventSpeaker = DevEventSpeaker(
    id: Id,
    devEventId: Id,
    name: string,
    talkTitle: string,
    talkDescription: string,
    linkedInProfile: string)

  /** What the read actions return: an event together with its speakers. */
  datatype DevEventViewModel = DevEventViewModel(devEvent: DevEvent, speakers: seq<DevEventSpeaker>)

  /** The mapping of a create request to a new event: a field-for-field copy, not deleted, no key yet. */
  function MapDevEvent(input: DevEventInputModel): (e: DevEvent)
    ensures e.title == input.title && e.description == input.description
    ensures e.startDate == input.startDate && e.endDate == input.endDate
    ensures !e.isDeleted && e.id == EmptyId
  {
    DevEvent(EmptyId, input.title, input.description, input.startDate, input.endDate, false)
  }

  /** The mapping of an add-speaker request to a speaker of event devEventId, no key yet. */
  function MapSpeaker(input: DevEventSpeakerInputModel, devEventId: Id): (s: DevEventSpeaker)
    ensures s.devEventId == devEventId && s.id == EmptyId
    ensures s.name == input.name && s.talkTitle == input.talkTitle
    ensures s.talkDescription == input.talkDescription && s.linkedInProfile == input.linkedInProfile
  {
    DevEventSpeaker(EmptyId, devEventId, input.name, input.talkTitle, input.talkDescription, input.linkedInProfile)
  }

  /** Two updates in a row leave what the second one wrote: the last write wins. */
  lemma UpdateLastWins(e: DevEvent, a: DevEventInputModel, b: DevEventInputModel)
    ensures e.Update(a.title, a.description, a.startDate, a.endDate).Update(b.title, b.description, b.startDate, b.endDate)
            == e.Update(b.title, b.description, b.startDate, b.endDate)
  {
  }

  /** Deleting an event twice is the same as deleting it once. */
  lemma DeleteIdempotent(e: DevEvent)
    ensures e.Delete().Delete() == e.Delete()
  {
  }

  /** Active to deleted is one-way: neither Update nor Delete makes a deleted event active again. */
  lemma DeletedStaysDeleted(e: DevEvent, input: DevEventInputModel)
    requires e.isDeleted
    ensures e.Update(input.title, input.description, input.startDate, input.endDate).isDeleted
    ensures e.Delete() == e
  {
  }
}
