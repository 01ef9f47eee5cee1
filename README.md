# AwesomeDevEvents: the dev-events controller and its store

This project models `DevEventsController`, the request handler of the AwesomeDevEvents
API. The controller keeps a catalog of developer events, each with speakers. Its state
is two tables in the database context: events, and speakers that point back to an event
by `DevEventId`. The controller has six actions: list the active events, get one event,
create an event, update an event, soft-delete an event, and add a speaker to an event.

The model has five modules. Four follow the program's layers, and `Properties` holds the lemmas about the query functions:

- `Entities` (entities.dfy): the records. These are the event and speaker rows, the two
  input models, the view model, the event's `Update` and `Delete`, and the AutoMapper
  copies from the inputs.
- `Queries` (queries.dfy): the LINQ queries the actions run, as functions of the tables.
  These are the lookup by key, the `IsDeleted == false` filter and the speaker join. It
  also holds the events table that an update or a delete leaves behind.
- `Properties` (properties.dfy): lemmas about those functions. They cover key
  uniqueness, the soft-delete state machine, idempotence of delete, the speaker join
  and what an insert adds.
- `Context` (context.dfy): class `DevEventsDBContext`. It holds the two tables as
  sequences in insertion order, plus a key generator. `Valid()` is the schema's
  invariant: both ids are primary keys, and every speaker refers to an event in the table.
- `Controllers` (controller.dfy): class `DevEventsController`, one method per action.
  Each action returns an `ActionResult`: `Ok`, `Created`, `NoContent` or `NotFound`.
  Each changing action states the new content of both tables in terms of the old.
  The file ends with two client methods, each on a fresh store. `SpeakerScenario` calls
  create, read, add speaker and read. `SoftDeleteScenario` calls create, delete, list,
  read, a second delete, and add speaker to the deleted event. Both are verified from
  the actions' contracts and the lemmas about the query functions.

Assumptions the code relies on but does not show:

- `DevEvent.Update` and `DevEvent.Delete` are methods of the `DevEvent` entity class,
  which this model does not cover. They are modelled as their call sites imply. `Update` replaces title, description, start date
  and end date, and nothing else. `Delete` sets `IsDeleted` to true, which matches the
  `IsDeleted == false` filter of the list action.
- A Guid key is a natural number. The store hands out keys from a counter, so each new
  key is absent from both tables. This stands in for Entity Framework generating a
  Guid when a row is added.
- A `DateTime` is an integer. No action checks that the end date follows the start date.
- The delete action saves the flipped flag through Entity Framework's change tracking,
  without calling `DevEvents.Update`. The model writes the row back via the same context
  method the update action uses.
- `SingleOrDefault` would throw on two rows with the same key. The key invariant rules
  that out, so the model returns the first match, and `FindEventUnique` proves it is
  the only match.

The action `Updade` keeps the source's spelling.

## Model

| member | source | states |
|---|---|---|
| `Entities.DevEvent.Update` | AwesomeDevEvents.API/Controllers/DevEventsController.cs:103 | assumed entity update: the four input fields are replaced; key and deleted flag are kept |
| `Entities.DevEvent.Delete` | AwesomeDevEvents.API/Controllers/DevEventsController.cs:127 | assumed soft delete: the flag is raised and every other field is kept |
| `Entities.MapDevEvent` | AwesomeDevEvents.API/Controllers/DevEventsController.cs:75 | a created event copies the four input fields, is not deleted and has no key yet |
| `Entities.MapSpeaker` | AwesomeDevEvents.API/Controllers/DevEventsController.cs:148-150 | a new speaker copies the four input fields and points back to the given event |
| `Entities.UpdateLastWins` | AwesomeDevEvents.API/Controllers/DevEventsController.cs:103 | two updates in a row leave what the second one wrote |
| `Entities.DeleteIdempotent` | AwesomeDevEvents.API/Controllers/DevEventsController.cs:127 | deleting an event twice is the same as deleting it once |
| `Entities.DeletedStaysDeleted` | AwesomeDevEvents.API/Controllers/DevEventsController.cs:103-127 | active to deleted is one-way: neither update nor delete makes a deleted event active |
| `Queries.FindEvent` | AwesomeDevEvents.API/Controllers/DevEventsController.cs:53-55 | lookup by key, ignoring the deleted flag: None iff no row has the key, else the position of the first row with it |
| `Queries.SpeakersOf` | AwesomeDevEvents.API/Context/DevEventsDBContext.cs:31 | an event's speakers are exactly the speaker rows whose DevEventId is its key, each as many times as in the table |
| `Queries.ActiveEvents` | AwesomeDevEvents.API/Controllers/DevEventsController.cs:35 | the list filter keeps exactly the rows whose IsDeleted is false, each as many times as in the table |
| `Queries.View` | AwesomeDevEvents.API/Controllers/DevEventsController.cs:53-57 | the loaded event is the row itself, and its speakers are exactly the speaker rows whose DevEventId is its key |
| `Queries.ListView` | AwesomeDevEvents.API/Controllers/DevEventsController.cs:35-38 | the list holds every active event, each with its joined speakers, and nothing else; it has one entry per active row |
| `Queries.AfterUpdate` | AwesomeDevEvents.API/Controllers/DevEventsController.cs:99-105 | an update keeps the table's length, every key and every deleted flag, leaves rows with other keys alone, and an unknown key changes nothing |
| `Queries.AfterDelete` | AwesomeDevEvents.API/Controllers/DevEventsController.cs:123-127 | a delete changes at most the deleted flags of rows with that key, keeps every row and its position, and an unknown key changes nothing |
| `Properties.SameKeysSameIds` | AwesomeDevEvents.API/Context/DevEventsDBContext.cs:21 | two tables with the same keys position by position have the same key set |
| `Properties.FindEventUnique` | AwesomeDevEvents.API/Context/DevEventsDBContext.cs:21 | under unique keys, the lookup returns the one row that has the key |
| `Properties.UpdateKeepsIds` | AwesomeDevEvents.API/Controllers/DevEventsController.cs:99-107 | an update keeps the key set of the events table |
| `Properties.DeleteKeepsIds` | AwesomeDevEvents.API/Controllers/DevEventsController.cs:123-129 | a delete keeps the key set of the events table: the soft-deleted row stays |
| `Properties.UpdateSetsFields` | AwesomeDevEvents.API/Controllers/DevEventsController.cs:99-107 | updating a known key stores that row updated by the input, with its deleted flag, whether deleted or not |
| `Properties.DeleteSetsFlag` | AwesomeDevEvents.API/Controllers/DevEventsController.cs:123-129 | deleting a known key stores that row with its flag raised |
| `Properties.UpdateKeepsUnique` | AwesomeDevEvents.API/Context/DevEventsDBContext.cs:21 | an update keeps the keys unique |
| `Properties.DeleteKeepsUnique` | AwesomeDevEvents.API/Context/DevEventsDBContext.cs:21 | a delete keeps the keys unique |
| `Properties.FindEventAfterReplace` | AwesomeDevEvents.API/Controllers/DevEventsController.cs:123 | after the found row is replaced by one with the same key, the lookup still finds it there |
| `Properties.DeleteTwice` | AwesomeDevEvents.API/Controllers/DevEventsController.cs:123-129 | a second delete of the same key leaves the table as the first one left it |
| `Properties.SoftDeleteVisibility` | AwesomeDevEvents.API/Controllers/DevEventsController.cs:123-129 | after a delete the row is flagged and still found by key, and it leaves the active list; the other active events stay |
| `Properties.InsertFresh` | AwesomeDevEvents.API/Controllers/DevEventsController.cs:75-80 | appending a row with a fresh key keeps keys unique, adds its key, makes it findable, and, if it is active, adds it to the end of the active list |
| `Properties.InsertFreshUnique` | AwesomeDevEvents.API/Context/DevEventsDBContext.cs:21 | a row with an absent key keeps the keys unique when appended |
| `Properties.EventIdsAppend` | AwesomeDevEvents.API/Controllers/DevEventsController.cs:77 | the key set after an append is the old set plus the new key |
| `Properties.ActiveEventsAppend` | AwesomeDevEvents.API/Controllers/DevEventsController.cs:35 | the active list after an append is the old list, then the new row if it is active |
| `Properties.SpeakersOfAppend` | AwesomeDevEvents.API/Controllers/DevEventsController.cs:157 | an added speaker joins the end of its own event's speakers and no other event's |
| `Properties.FreshEventHasNoSpeakers` | AwesomeDevEvents.API/Context/DevEventsDBContext.cs:31 | an event whose key is absent from the table, such as a newly created one, has no speakers |
| `Properties.ReferencesSurvive` | AwesomeDevEvents.API/Context/DevEventsDBContext.cs:31 | insert, update and delete keep every speaker's back-reference valid (no cascade, no dangling rows) |
| `Context.DevEventsDBContext.Valid` | AwesomeDevEvents.API/Context/DevEventsDBContext.cs:21-36 | the store invariant: event keys and speaker keys are unique, every speaker refers to an event in the table, and the next key handed out is absent from both tables |
| `Context.DevEventsDBContext.constructor` | AwesomeDevEvents.API/Context/DevEventsDBContext.cs:8-15 | an empty store satisfies the schema invariant |
| `Context.DevEventsDBContext.AddDevEvent` | AwesomeDevEvents.API/Controllers/DevEventsController.cs:77 | appends the row under a key absent before, keeps the speakers table and the invariant |
| `Context.DevEventsDBContext.WriteDevEvent` | AwesomeDevEvents.API/Controllers/DevEventsController.cs:105 | writes back one row under its own key, keeps the speakers table and the invariant |
| `Context.DevEventsDBContext.AddDevEventSpeaker` | AwesomeDevEvents.API/Controllers/DevEventsController.cs:157 | appends a speaker of an existing event under a fresh key, keeps the events table and the invariant |
| `Controllers.DevEventsController.constructor` | AwesomeDevEvents.API/Controllers/DevEventsController.cs:18-24 | the controller works on the context it is given |
| `Controllers.DevEventsController.GetAll` | AwesomeDevEvents.API/Controllers/DevEventsController.cs:33-39 | returns Ok with every active event and its speakers, and no deleted event; changes nothing |
| `Controllers.DevEventsController.GetById` | AwesomeDevEvents.API/Controllers/DevEventsController.cs:51-60 | NotFound iff no event has the key; otherwise Ok with that event, whatever its flag, and its speakers; changes nothing |
| `Controllers.DevEventsController.Insert` | AwesomeDevEvents.API/Controllers/DevEventsController.cs:73-81 | Created with a key absent before; exactly one active row is appended with the input's fields; the key set grows by that key; speakers unchanged |
| `Controllers.DevEventsController.Updade` | AwesomeDevEvents.API/Controllers/DevEventsController.cs:97-110 | NotFound iff the key is unknown, and then nothing changes; otherwise NoContent, even for a deleted event, with the new table given by AfterUpdate; keys and speakers unchanged |
| `Controllers.DevEventsController.Delete` | AwesomeDevEvents.API/Controllers/DevEventsController.cs:121-130 | NotFound iff the key is unknown, and then nothing changes; otherwise NoContent with the new table given by AfterDelete; keys and speakers unchanged (no cascade) |
| `Controllers.DevEventsController.InsertSpeaker` | AwesomeDevEvents.API/Controllers/DevEventsController.cs:146-161 | NotFound iff the event key is unknown, and then no speaker is added; otherwise NoContent, even for a deleted event, with exactly one speaker appended that points to the key; events unchanged |

## Left out

- Program.cs is host wiring and is not modelled: dependency injection, the SQL Server connection, Swagger, HTTPS redirection and `app.Run()`.
- The Entity Framework schema is not modelled as configuration. Column names, types and the `varchar(200)` limit on descriptions are left out. The database enforces that limit at `SaveChanges`; no code checks it. Only the two keys and the speaker foreign key are kept, as the store invariant.
- `Title` may be null in the schema. The model uses a plain string and does not tell a null title from an empty one.
- AutoMapper profiles and the view-model classes are not part of this model. Each mapping is a field-for-field copy. A view model is the event row together with its speakers.
- Entity Framework mechanics are left out: query translation, `Include` loading, change tracking, `SaveChanges` transactions and store failures. The store is in memory and commits at the end of each action. A store failure, which the source surfaces as an unhandled fault, is not modelled.
- HTTP concerns are left out: routing, status-code plumbing and the `Location` header of `CreatedAtAction`. Only the kind of answer and its body are modelled.
- Guid generation is a counter that gives each new row a fresh key; the randomness of Guids is not modelled.
- An event's `Speakers` collection is not stored on the event row. It is always the join on `DevEventId`; that is what `Include` loads.
- Concurrent requests and last-write-wins races are out of scope; each action runs alone.
