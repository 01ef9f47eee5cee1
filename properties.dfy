/**
 * What the controller's actions do to the two tables, stated over the query
 * functions: lookups under unique keys, the soft-delete state machine, the
 * speaker join, and what an insert adds.
 */
module Properties {
  import opened Entities
  import opened Queries

  /** Rows with the same keys position by position have the same key set. */
  lemma {:induction false} SameKeysSameIds(a: seq<DevEvent>, b: seq<DevEvent>)
    requires |a| == |b|
    requires forall k :: 0 <= k < |a| ==> a[k].id == b[k].id
    ensures EventIds(a) == EventIds(b)
  {
    forall id | id in EventIds(a) ensures id in EventIds(b) {
      var e :| e in a && e.id == id;
      var k :| 0 <= k < |a| && a[k] == e;
      assert b[k] in b;
    }
    forall id | id in EventIds(b) ensures id in EventIds(a) {
      var e :| e in b && e.id == id;
      var k :| 0 <= k < |b| && b[k] == e;
      assert a[k] in a;
    }
  }

  /** Under unique keys the lookup finds the one row that has the key (SingleOrDefault is well-defined). */
  lemma FindEventUnique(events: seq<DevEvent>, id: Id, k: nat)
    requires UniqueIds(events)
    requires k < |events| && events[k].id == id
    ensures FindEvent(events, id) == Some(k)
  {
    assert events[k] in events;
  }

  /** An update keeps the key set of the events table: no event is added or removed. */
  lemma UpdateKeepsIds(events: seq<DevEvent>, id: Id, input: DevEventInputModel)
    ensures EventIds(AfterUpdate(events, id, input)) == EventIds(events)
  {
    SameKeysSameIds(AfterUpdate(events, id, input), events);
  }

  /** A delete keeps the key set of the events table: the soft-deleted row stays. */
  lemma DeleteKeepsIds(events: seq<DevEvent>, id: Id)
    ensures EventIds(AfterDelete(events, id)) == EventIds(events)
  {
    SameKeysSameIds(AfterDelete(events, id), events);
  }

  /** Updating a known id stores that row as updated by the four input fields. */
  lemma UpdateSetsFields(events: seq<DevEvent>, id: Id, input: DevEventInputModel, k: nat)
    requires UniqueIds(events)
    requires k < |events| && events[k].id == id
    ensures AfterUpdate(events, id, input)[k]
            == events[k].Update(input.title, input.description, input.startDate, input.endDate)
    ensures AfterUpdate(events, id, input)[k].isDeleted == events[k].isDeleted
  {
    FindEventUnique(events, id, k);
  }

  /** Deleting a known id flags that row as deleted. */
  lemma DeleteSetsFlag(events: seq<DevEvent>, id: Id, k: nat)
    requires UniqueIds(events)
    requires k < |events| && events[k].id == id
    ensures AfterDelete(events, id)[k] == events[k].Delete()
    ensures AfterDelete(events, id)[k].isDeleted
  {
    FindEventUnique(events, id, k);
  }

  /** An update keeps the keys unique. */
  lemma UpdateKeepsUnique(events: seq<DevEvent>, id: Id, input: DevEventInputModel)
    requires UniqueIds(events)
    ensures UniqueIds(AfterUpdate(events, id, input))
  {
  }

  /** A delete keeps the keys unique. */
  lemma DeleteKeepsUnique(events: seq<DevEvent>, id: Id)
    requires UniqueIds(events)
    ensures UniqueIds(AfterDelete(events, id))
  {
  }

  /** Replacing the first row with key id by a row with the same key leaves it the first such row. */
  lemma FindEventAfterReplace(events: seq<DevEvent>, id: Id, i: nat, x: DevEvent)
    requires FindEvent(events, id) == Some(i)
    requires x.id == id
    ensures FindEvent(events[i := x], id) == Some(i)
  {
    var after := events[i := x];
    assert after[i] in after;
  }

  /** A second delete of the same id changes nothing: the delete action is idempotent. */
  lemma DeleteTwice(events: seq<DevEvent>, id: Id)
    ensures AfterDelete(AfterDelete(events, id), id) == AfterDelete(events, id)
  {
    match FindEvent(events, id)
    case None =>
    case Some(i) =>
      var once := events[i := events[i].Delete()];
      FindEventAfterReplace(events, id, i, events[i].Delete());
      DeleteIdempotent(events[i]);
      assert once[i := once[i].Delete()] == once;
  }

  /**
   * The soft delete: after deleting a known id the table still holds that event,
   * the lookup by id still finds it, and the active list is the old one without it.
   */
  lemma SoftDeleteVisibility(events: seq<DevEvent>, speakers: seq<DevEventSpeaker>, id: Id, k: nat)
    requires UniqueIds(events)
    requires k < |events| && events[k].id == id
    ensures FindEvent(AfterDelete(events, id), id) == Some(k)
    ensures AfterDelete(events, id)[k] == events[k].(isDeleted := true)
    ensures forall e :: e in ActiveEvents(AfterDelete(events, id)) <==> e in ActiveEvents(events) && e.id != id
    ensures forall v :: v in ListView(AfterDelete(events, id), speakers) ==> v.devEvent.id != id
  {
    var after := AfterDelete(events, id);
    DeleteSetsFlag(events, id, k);
    DeleteKeepsUnique(events, id);
    FindEventUnique(after, id, k);
    forall e | e in after && !e.isDeleted ensures e in events && e.id != id {
      var j :| 0 <= j < |after| && after[j] == e;
      if j == k {
        assert false;
      }
      assert events[j].id != id;
    }
    forall e | e in events && !e.isDeleted && e.id != id ensures e in after {
      var j :| 0 <= j < |events| && events[j] == e;
      assert after[j] == e;
    }
  }

  /**
   * Inserting a row with a fresh key: keys stay unique, the key set grows by that key,
   * the lookup finds the new row, and an active new row joins the end of the active list.
   */
  lemma InsertFresh(events: seq<DevEvent>, e: DevEvent)
    requires UniqueIds(events)
    requires e.id !in EventIds(events)
    ensures UniqueIds(events + [e])
    ensures EventIds(events + [e]) == EventIds(events) + {e.id}
    ensures FindEvent(events + [e], e.id) == Some(|events|)
    ensures ActiveEvents(events + [e]) == ActiveEvents(events) + (if e.isDeleted then [] else [e])
  {
    InsertFreshUnique(events, e);
    EventIdsAppend(events, e);
    FindEventUnique(events + [e], e.id, |events|);
    ActiveEventsAppend(events, e);
  }

  /** A row whose key is absent keeps the keys unique when appended. */
  lemma InsertFreshUnique(events: seq<DevEvent>, e: DevEvent)
    requires UniqueIds(events)
    requires e.id !in EventIds(events)
    ensures UniqueIds(events + [e])
  {
    var after := events + [e];
    forall i, j | 0 <= i < j < |after| ensures after[i].id != after[j].id {
      if j == |events| {
        assert events[i] in events;
      }
    }
  }

  /** The key set of a table with one more row. */
  lemma EventIdsAppend(events: seq<DevEvent>, e: DevEvent)
    ensures EventIds(events + [e]) == EventIds(events) + {e.id}
  {
    assert e in events + [e];
    forall x | x in events + [e] ensures x == e || x in events {
    }
  }

  /** The active list of a table with one more row is the old active list, then that row if active. */
  lemma ActiveEventsAppend(events: seq<DevEvent>, e: DevEvent)
    ensures ActiveEvents(events + [e]) == ActiveEvents(events) + (if e.isDeleted then [] else [e])
  {
    assert (events + [e])[..|events|] == events;
  }

  /** Appending a speaker adds it to the end of its own event's speakers and to no other event's. */
  lemma SpeakersOfAppend(speakers: seq<DevEventSpeaker>, s: DevEventSpeaker, id: Id)
    ensures SpeakersOf(speakers + [s], id) == SpeakersOf(speakers, id) + (if s.devEventId == id then [s] else [])
  {
    assert (speakers + [s])[..|speakers|] == speakers;
  }

  /** An event whose key no speaker references has no speakers; in particular a freshly inserted one. */
  lemma FreshEventHasNoSpeakers(events: seq<DevEvent>, speakers: seq<DevEventSpeaker>, id: Id)
    requires SpeakersReferToEvents(events, speakers)
    requires id !in EventIds(events)
    ensures SpeakersOf(speakers, id) == []
  {
    if SpeakersOf(speakers, id) != [] {
      assert SpeakersOf(speakers, id)[0] in SpeakersOf(speakers, id);
    }
  }

  /** Inserting an event keeps every speaker's back-reference valid; so do update and delete. */
  lemma ReferencesSurvive(events: seq<DevEvent>, speakers: seq<DevEventSpeaker>, e: DevEvent, id: Id, input: DevEventInputModel)
    requires SpeakersReferToEvents(events, speakers)
    ensures SpeakersReferToEvents(events + [e], speakers)
    ensures SpeakersReferToEvents(AfterUpdate(events, id, input), speakers)
    ensures SpeakersReferToEvents(AfterDelete(events, id), speakers)
  {
    UpdateKeepsIds(events, id, input);
    DeleteKeepsIds(events, id);
    assert EventIds(events) <= EventIds(events + [e]);
  }
}
