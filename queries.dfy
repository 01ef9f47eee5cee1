/**
 * The queries the controller runs against the two tables, and the new events
 * table its update and delete actions leave, as functions of the tables.
 */
module Queries {
  import opened Entities

  datatype Option<T> = None | Some(value: T)

  /** The keys present in the events table. */
  function EventIds(events: seq<DevEvent>): set<Id>
  {
    set e | e in events :: e.id
  }

  /** The keys present in the speakers table. */
  function SpeakerIds(speakers: seq<DevEventSpeaker>): set<Id>
  {
    set s | s in speakers :: s.id
  }

  /** The event key is a primary key: no two rows share it. */
  predicate UniqueIds(events: seq<DevEvent>)
  {
    forall i, j :: 0 <= i < j < |events| ==> events[i].id != events[j].id
  }

  /** The speaker key is a primary key: no two rows share it. */
  predicate UniqueSpeakerIds(speakers: seq<DevEventSpeaker>)
  {
    forall i, j :: 0 <= i < j < |speakers| ==> speakers[i].id != speakers[j].id
  }

  /** The foreign key: every speaker points back to an event that is in the table. */
  predicate SpeakersReferToEvents(events: seq<DevEvent>, speakers: seq<DevEventSpeaker>)
  {
    forall s :: s in speakers ==> s.devEventId in EventIds(events)
  }

  /**
   * The lookup `d.Id == id` of SingleOrDefault and Any: the position of the first
   * row with that key, or None when no row has it. It does not look at isDeleted.
   */
  function FindEvent(events: seq<DevEvent>, id: Id): (r: Option<nat>)
    ensures r.None? <==> id !in EventIds(events)
    ensures r.Some? ==> r.value < |events| && events[r.value].id == id
    ensures r.Some? ==> forall k :: 0 <= k < r.value ==> events[k].id != id
  {
    if |events| == 0 then None
    else
      assert events == [events[0]] + events[1..];
      if events[0].id == id then Some(0)
      else match FindEvent(events[1..], id)
        case None => None
        case Some(k) => Some(k + 1)
  }

  /** The speakers joined to event id on devEventId, in table order. */
  function SpeakersOf(speakers: seq<DevEventSpeaker>, id: Id): (r: seq<DevEventSpeaker>)
    ensures forall s :: s in r <==> s in speakers && s.devEventId == id
    ensures forall s {:trigger multiset(r)[s]} :: multiset(r)[s] == if s.devEventId == id then multiset(speakers)[s] else 0
    ensures |r| <= |speakers|
  {
    if |speakers| == 0 then []
    else
      var n := |speakers| - 1;
      assert speakers == speakers[..n] + [speakers[n]];
      SpeakersOf(speakers[..n], id) + (if speakers[n].devEventId == id then [speakers[n]] else [])
  }

  /** The filter `IsDeleted == false` of the list action, in table order. */
  function ActiveEvents(events: seq<DevEvent>): (r: seq<DevEvent>)
    ensures forall e :: e in r <==> e in events && !e.isDeleted
    ensures forall e {:trigger multiset(r)[e]} :: multiset(r)[e] == if e.isDeleted then 0 else multiset(events)[e]
    ensures |r| <= |events|
  {
    if |events| == 0 then []
    else
      var n := |events| - 1;
      assert events == events[..n] + [events[n]];
      ActiveEvents(events[..n]) + (if events[n].isDeleted then [] else [events[n]])
  }

  /** An event with its speakers loaded, as the read actions return it. */
  function View(e: DevEvent, speakers: seq<DevEventSpeaker>): (r: DevEventViewModel)
    ensures r.devEvent == e
    ensures forall s :: s in r.speakers <==> s in speakers && s.devEventId == e.id
  {
    DevEventViewModel(e, SpeakersOf(speakers, e.id))
  }

  /**
   * What the list action returns: the active events in table order, each with the
   * speakers that point back to it.
   */
  function ListView(events: seq<DevEvent>, speakers: seq<DevEventSpeaker>): (r: seq<DevEventViewModel>)
    ensures forall v :: v in r ==>
              v.devEvent in events && !v.devEvent.isDeleted && v.speakers == SpeakersOf(speakers, v.devEvent.id)
    ensures forall e :: e in events && !e.isDeleted ==> View(e, speakers) in r
    ensures |r| == |ActiveEvents(events)|
  {
    var active := ActiveEvents(events);
    var r := seq(|active|, k requires 0 <= k < |active| => View(active[k], speakers));
    assert forall k :: 0 <= k < |active| ==> r[k] == View(active[k], speakers);
    r
  }

  /** The events table after the update action for event id with the given input. */
  function AfterUpdate(events: seq<DevEvent>, id: Id, input: DevEventInputModel): (r: seq<DevEvent>)
    ensures |r| == |events|
    ensures forall k :: 0 <= k < |events| ==> r[k].id == events[k].id && r[k].isDeleted == events[k].isDeleted
    ensures forall k :: 0 <= k < |events| && events[k].id != id ==> r[k] == events[k]
    ensures id !in EventIds(events) ==> r == events
  {
    match FindEvent(events, id)
    case None => events
    case Some(i) => events[i := events[i].Update(input.title, input.description, input.startDate, input.endDate)]
  }

  /** The events table after the delete action for event id: the row stays, flagged. */
  function AfterDelete(events: seq<DevEvent>, id: Id): (r: seq<DevEvent>)
    ensures |r| == |events|
    ensures forall k :: 0 <= k < |events| ==> r[k].(isDeleted := events[k].isDeleted) == events[k]
    ensures forall k :: 0 <= k < |events| && events[k].id != id ==> r[k] == events[k]
    ensures id !in EventIds(events) ==> r == events
  {
    match FindEvent(events, id)
    case None => events
    case Some(i) => events[i := events[i].Delete()]
  }
}
