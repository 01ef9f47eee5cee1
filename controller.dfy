/**
 * The request handlers of the dev-events API. Each action reads or changes the
 * store in place and answers with one of four results; the store commits at the
 * end of each action.
 */
module Controllers {
  import opened Entities
  import opened Queries
  import opened Properties
  import opened Context

  /** The body of a 200 answer: the list of active events, or one event. */
  datatype Body = Many(views: seq<DevEventViewModel>) | One(view: DevEventViewModel)

  /** The answers of the actions: 200 with a body, 201 with the new key and row, 204, 404. */
  datatype ActionResult = Ok(body: Body) | Created(id: Id, devEvent: DevEvent) | NoContent | NotFound

  class DevEventsController {
    const dbContext: DevEventsDBContext

    ghost predicate Valid()
      reads this, dbContext
    {
      dbContext.Valid()
    }

    constructor (dbContext: DevEventsDBContext)
      ensures this.dbContext == dbContext
    {
      this.dbContext := dbContext;
    }

    /** GET api/dev-events: every event not soft-deleted, with its speakers. */
    method GetAll() returns (r: ActionResult)
      requires Valid()
      ensures r == Ok(Many(ListView(dbContext.devEvents, dbContext.devEventSpeakers)))
      ensures forall v :: v in r.body.views ==>
                v.devEvent in dbContext.devEvents && !v.devEvent.isDeleted
                && v.speakers == SpeakersOf(dbContext.devEventSpeakers, v.devEvent.id)
      ensures forall e :: e in dbContext.devEvents && !e.isDeleted ==>
                View(e, dbContext.devEventSpeakers) in r.body.views
    {
      r := Ok(Many(ListView(dbContext.devEvents, dbContext.devEventSpeakers)));
    }

    /** GET api/dev-events/{id}: the event with that key, deleted or not, with its speakers. */
    method GetById(id: Id) returns (r: ActionResult)
      requires Valid()
      ensures r.NotFound? <==> id !in EventIds(dbContext.devEvents)
      ensures r.NotFound? || (r.Ok? && r.body.One?)
      ensures r.Ok? ==> r.body.view.devEvent in dbContext.devEvents && r.body.view.devEvent.id == id
      ensures r.Ok? ==> r.body.view.speakers == SpeakersOf(dbContext.devEventSpeakers, id)
    {
      var found := FindEvent(dbContext.devEvents, id);
      if found.None? {
        return NotFound;
      }
      var devEvent := dbContext.devEvents[found.value];
      r := Ok(One(View(devEvent, dbContext.devEventSpeakers)));
    }

    /** POST api/dev-events: stores a new active event under a fresh key. */
    method Insert(input: DevEventInputModel) returns (r: ActionResult)
      requires Valid()
      modifies dbContext
      ensures Valid()
      ensures r.Created? && r.devEvent.id == r.id
      ensures r.id !in old(EventIds(dbContext.devEvents))
      ensures r.devEvent == MapDevEvent(input).(id := r.id)
      ensures dbContext.devEvents == old(dbContext.devEvents) + [r.devEvent]
      ensures EventIds(dbContext.devEvents) == old(EventIds(dbContext.devEvents)) + {r.id}
      ensures dbContext.devEventSpeakers == old(dbContext.devEventSpeakers)
    {
      var devEvent := MapDevEvent(input);
      devEvent := dbContext.AddDevEvent(devEvent);
      EventIdsAppend(old(dbContext.devEvents), devEvent);
      r := Created(devEvent.id, devEvent);
    }

    /** PUT api/dev-events/{id}: replaces the four input fields of the event with that key, deleted or not. */
    method Updade(id: Id, input: DevEventInputModel) returns (r: ActionResult)
      requires Valid()
      modifies dbContext
      ensures Valid()
      ensures r.NotFound? <==> id !in old(EventIds(dbContext.devEvents))
      ensures r.NotFound? || r.NoContent?
      ensures dbContext.devEvents == AfterUpdate(old(dbContext.devEvents), id, input)
      ensures EventIds(dbContext.devEvents) == old(EventIds(dbContext.devEvents))
      ensures dbContext.devEventSpeakers == old(dbContext.devEventSpeakers)
    {
      UpdateKeepsIds(dbContext.devEvents, id, input);
      var found := FindEvent(dbContext.devEvents, id);
      if found.None? {
        return NotFound;
      }
      var devEvent := dbContext.devEvents[found.value];
      devEvent := devEvent.Update(input.title, input.description, input.startDate, input.endDate);
      dbContext.WriteDevEvent(found.value, devEvent);
      r := NoContent;
    }

    /** DELETE api/dev-events/{id}: soft-deletes the event with that key; its row and its speakers stay. */
    method Delete(id: Id) returns (r: ActionResult)
      requires Valid()
      modifies dbContext
      ensures Valid()
      ensures r.NotFound? <==> id !in old(EventIds(dbContext.devEvents))
      ensures r.NotFound? || r.NoContent?
      ensures dbContext.devEvents == AfterDelete(old(dbContext.devEvents), id)
      ensures EventIds(dbContext.devEvents) == old(EventIds(dbContext.devEvents))
      ensures dbContext.devEventSpeakers == old(dbContext.devEventSpeakers)
    {
      DeleteKeepsIds(dbContext.devEvents, id);
      var found := FindEvent(dbContext.devEvents, id);
      if found.None? {
        return NotFound;
      }
      var devEvent := dbContext.devEvents[found.value];
      devEvent := devEvent.Delete();
      dbContext.WriteDevEvent(found.value, devEvent);
      r := NoContent;
    }

    /**
     * POST api/dev-events/{id}/speakers: appends one speaker for the event with that
     * key, deleted or not; the events table is left as it was.
     */
    method InsertSpeaker(id: Id, input: DevEventSpeakerInputModel) returns (r: ActionResult)
      requires Valid()
      modifies dbContext
      ensures Valid()
      ensures r.NotFound? <==> id !in old(EventIds(dbContext.devEvents))
      ensures r.NotFound? || r.NoContent?
      ensures dbContext.devEvents == old(dbContext.devEvents)
      ensures r.NotFound? ==> dbContext.devEventSpeakers == old(dbContext.devEventSpeakers)
      ensures r.NoContent? ==>
                |dbContext.devEventSpeakers| == |old(dbContext.devEventSpeakers)| + 1
                && dbContext.devEventSpeakers[..|old(dbContext.devEventSpeakers)|] == old(dbContext.devEventSpeakers)
      ensures r.NoContent? ==>
                var added := dbContext.devEventSpeakers[|old(dbContext.devEventSpeakers)|];
                added == MapSpeaker(input, id).(id := added.id)
                && added.id !in old(SpeakerIds(dbContext.devEventSpeakers))
    {
      var devEventSpeaker := MapSpeaker(input, EmptyId);
      devEventSpeaker := devEventSpeaker.(devEventId := id);
      var devEvent := FindEvent(dbContext.devEvents, id).Some?;
      if !devEvent {
        return NotFound;
      }
      var added := dbContext.AddDevEventSpeaker(devEventSpeaker);
      r := NoContent;
    }
  }

  /**
   * Create an event, read it with no speakers, add a speaker, and read it again with
   * exactly that one speaker. Verified from the actions' contracts and the lemmas
   * about the query functions.
   */
  method SpeakerScenario()
  {
    var store := new DevEventsDBContext();
    var controller := new DevEventsController(store);
    var created := controller.Insert(DevEventInputModel("Conf", "d", 1672531200, 1672617600));
    var id := created.id;
    assert store.devEventSpeakers == [];

    var read := controller.GetById(id);
    FreshEventHasNoSpeakers([], [], id);
    assert read.Ok? && read.body.view.speakers == [];

    var added := controller.InsertSpeaker(id, DevEventSpeakerInputModel("Alice", "Talk", "About", "in/alice"));
    assert added.NoContent? && |store.devEventSpeakers| == 1;
    var speaker := store.devEventSpeakers[0];
    assert store.devEventSpeakers == [] + [speaker] && speaker.devEventId == id;
    SpeakersOfAppend([], speaker, id);
    read := controller.GetById(id);
    assert |read.body.view.speakers| == 1 && read.body.view.speakers[0].devEventId == id;
  }

  /**
   * Create an event and delete it: it leaves the list while the lookup by key still
   * returns it; a second delete answers NoContent and changes nothing; and a speaker can
   * still be added to the soft-deleted event. Verified from the actions' contracts and
   * the lemmas about the query functions.
   */
  method SoftDeleteScenario()
  {
    var store := new DevEventsDBContext();
    var controller := new DevEventsController(store);
    var created := controller.Insert(DevEventInputModel("Conf", "d", 1672531200, 1672617600));
    var id := created.id;
    assert store.devEvents == [created.devEvent];

    var deleted := controller.Delete(id);
    assert deleted.NoContent?;
    SoftDeleteVisibility([created.devEvent], store.devEventSpeakers, id, 0);
    var all := controller.GetAll();
    assert forall v :: v in all.body.views ==> v.devEvent.id != id;
    var read := controller.GetById(id);
    assert read.Ok? && read.body.view.devEvent.isDeleted;

    var afterFirst := store.devEvents;
    DeleteTwice([created.devEvent], id);
    var deletedAgain := controller.Delete(id);
    assert deletedAgain.NoContent? && store.devEvents == afterFirst;

    var addedToDeleted := controller.InsertSpeaker(id, DevEventSpeakerInputModel("Bob", "Talk", "About", "in/bob"));
    assert addedToDeleted.NoContent?;
  }
}
