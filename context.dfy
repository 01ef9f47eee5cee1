/**
 * The store behind the controller: the events table and the speakers table, with
 * the key generator that gives each added row a fresh Guid. Its invariant is what
 * the schema declares: both keys are primary keys and every speaker refers to an
 * event of the events table.
 */
module Context {
  import opened Entities
  import opened Queries
  import opened Properties

  class DevEventsDBContext {
    /** The events table, in insertion order. */
    var devEvents: seq<DevEvent>
    /** The speakers table, in insertion order. */
    var devEventSpeakers: seq<DevEventSpeaker>
    /** The key generator: every key handed out so far is below it. */
    var nextKey: Id

    ghost predicate Valid()
      reads this
      ensures Valid() ==> nextKey !in EventIds(devEvents) && nextKey !in SpeakerIds(devEventSpeakers)
    {
      && UniqueIds(devEvents)
      && UniqueSpeakerIds(devEventSpeakers)
      && SpeakersReferToEvents(devEvents, devEventSpeakers)
      && (forall e :: e in devEvents ==> e.id < nextKey)
      && (forall s :: s in devEventSpeakers ==> s.id < nextKey)
    }

    /** An empty store. */
    constructor ()
      ensures Valid()
      ensures devEvents == [] && devEventSpeakers == []
    {
      devEvents := [];
      devEventSpeakers := [];
      nextKey := 1;
    }

    /** DevEvents.Add: stores e under a fresh key and returns the stored row. */
    method AddDevEvent(e: DevEvent) returns (added: DevEvent)
      requires Valid()
      modifies this
      ensures Valid()
      ensures added == e.(id := added.id)
      ensures added.id !in old(EventIds(devEvents))
      ensures devEvents == old(devEvents) + [added]
      ensures devEventSpeakers == old(devEventSpeakers)
    {
      added := e.(id := nextKey);
      assert added.id !in EventIds(devEvents);
      InsertFreshUnique(devEvents, added);
      EventIdsAppend(devEvents, added);
      devEvents := devEvents + [added];
      nextKey := nextKey + 1;
    }

    /** Writes back row i, changed in place under its own key (DevEvents.Update, or change tracking). */
    method WriteDevEvent(i: nat, e: DevEvent)
      requires Valid()
      requires i < |devEvents| && e.id == devEvents[i].id
      modifies this
      ensures Valid()
      ensures devEvents == old(devEvents)[i := e]
      ensures devEventSpeakers == old(devEventSpeakers)
    {
      var before := devEvents;
      devEvents := devEvents[i := e];
      SameKeysSameIds(before, devEvents);
      assert forall x :: x in devEvents ==> x == e || x in before;
    }

    /** devEventSpeakers.Add: stores s under a fresh key and returns the stored row. */
    method AddDevEventSpeaker(s: DevEventSpeaker) returns (added: DevEventSpeaker)
      requires Valid()
      requires s.devEventId in EventIds(devEvents)
      modifies this
      ensures Valid()
      ensures added == s.(id := added.id)
      ensures added.id !in old(SpeakerIds(devEventSpeakers))
      ensures devEventSpeakers == old(devEventSpeakers) + [added]
      ensures devEvents == old(devEvents)
    {
      added := s.(id := nextKey);
      var after := devEventSpeakers + [added];
      forall i, j | 0 <= i < j < |after| ensures after[i].id != after[j].id {
        if j == |devEventSpeakers| {
          assert devEventSpeakers[i] in devEventSpeakers;
        }
      }
      assert forall x :: x in after ==> x == added || x in devEventSpeakers;
      devEventSpeakers := after;
      nextKey := nextKey + 1;
    }
  }
}
