# Event registration store

A model of the application-level bookkeeping of a small event-registration
backend. The backend keeps three tables: `users` (keyed by username, with a
name and an email), `events` (keyed by a generated integer id, with title,
description, date and location) and `registrations` (pairs of a username and
an event id). Three routers expose handlers over them. Each handler checks the
tables and then writes to them.

The database session is replaced by an in-memory store:

- `Tables` (tables.dfy) holds the row types, the request and response shapes,
  the whole-store value `State`, and the store invariant `Inv`. The invariant
  has three parts:
  - (a) no two registrations share a (username, event_id) pair;
  - (b) every registration's username is a key of `users`;
  - the id generator is ahead of every stored event id.
  `Tables` also holds the row helpers the handlers share: the first-match
  lookup `FindPair`, removal of one row, and the cascade filter `WithoutUser`.
- `EventRoutes`, `UserRoutes` and `RegistrationRoutes` (events.dfy, users.dfy,
  registrations.dfy) give each state-changing handler as a function. The
  function maps the store before the request to the store after it and the
  answer. The answer is `Ok`, `NotFound` (HTTP 404) or `BadRequest` (HTTP 400).
  Each function's contract states:
  - the handler's error cases;
  - what it writes;
  - what it leaves alone;
  - that it preserves `Inv`.
- `Workflow` (workflow.dfy) relates handlers of different routers.
- `Database.Store` (store.dfy) is the store as a class. Its fields are the
  three tables and the id generator. Each handler is a method that updates
  the fields step by step, in the source's order. This includes the loops
  that delete registrations. The scan in `delete_user_by_username` is the
  method `ScanOutUser`. The session stages its deletes, and the commit
  writes the table that the scan leaves. Each `commit` takes effect at
  once. Every mutating method is proved to give exactly the state and answer
  of its route function, and to keep `Valid()`. The read-only handlers are
  methods without a `modifies` clause, so they cannot change the store.

The registration workflow keeps the source's order:

1. The event check comes first. A missing event is `NotFound` whatever the
   body says.
2. A missing or empty username is `BadRequest`.
3. An unknown user is created from the body, with a missing name or email
   becoming `""`. The user is committed at once.
4. A duplicate pair is `BadRequest`.
5. Otherwise the new pair is appended.

Because step 3 commits before step 4 runs, the created user survives a
duplicate rejection. `RegisterDuplicateKeepsCreatedUser` exhibits this on a
store that breaks invariant (b). `RegisterFailureChangesNothing` shows that
under the invariant a rejection changes nothing.

`delete_event_by_id` leaves the registrations of the deleted event in place.
`DeleteEventById` leaves `registrations` untouched, and
`DeleteEventLeavesDanglingRegistration` exhibits a registration that outlives
its event. "Every registration references an existing event" is therefore not
part of the invariant. A duplicate user or a duplicate registration is
answered with HTTP 400, modelled as `BadRequest`.

## Model

| member | source | states |
|---|---|---|
| Tables.FindPair | app/routers/registrations.py:36-40 | the index of the first row equal to (username, event_id): None exactly when no row matches, otherwise a matching row with no match before it |
| Tables.RemoveAt | app/routers/registrations.py:47-48 | deleting one row shortens the table by one and removes exactly that row from its multiset |
| Tables.WithoutUserMembers | app/routers/users.py:57-59 | the rows that survive the scan are exactly the rows whose username differs from the deleted one |
| Tables.AppendUnique | app/routers/events.py:192-195 | appending a pair that is not stored keeps invariant (a) |
| Tables.RemoveAtUnique | app/routers/registrations.py:47-48 | deleting one row keeps invariant (a) |
| Tables.RemoveAtMembers | app/routers/registrations.py:47-48 | with unique pairs, deleting a row removes exactly that pair and keeps every other row |
| Tables.WithoutUserUnique | app/routers/users.py:57-59 | the cascade scan keeps invariant (a) |
| Tables.EmptyInv | app/data/db.py:20-22 | the empty tables created at start-up satisfy the store invariant |
| EventRoutes.GetEventById | app/routers/events.py:54-60 | NotFound exactly when the id is absent; otherwise the stored row under that id |
| EventRoutes.CreateEvent | app/routers/events.py:35-44 | the four fields are copied into a new row under the generator's next id, which is not yet stored; any id in the body is ignored; users and registrations unchanged; invariant kept |
| EventRoutes.UpdateEvent | app/routers/events.py:79-94 | NotFound with no change exactly when the id is absent; otherwise Ok, the four fields are replaced under the same id, every other event, user and registration is unchanged, and the invariant is kept |
| EventRoutes.DeleteEventById | app/routers/events.py:105-113 | NotFound with no change exactly when the id is absent; otherwise only that event is removed, and users and registrations are untouched |
| EventRoutes.NewUser | app/routers/events.py:169-173 | the created user takes name and email from the body, each defaulting to the empty string |
| EventRoutes.FindOrCreateUser | app/routers/events.py:167-176 | afterwards the user exists; an existing user leaves the store unchanged; an unknown one is added with the defaulted fields |
| EventRoutes.RegisterUserToEvent | app/routers/events.py:152-197 | missing event gives NotFound with no change whatever the body; then missing or empty username gives BadRequest with no change; NotFound only for a missing event, so a duplicate pair gets BadRequest; success exactly when the event exists, the username is given and the pair is new; find-or-create of the user; a duplicate leaves registrations unchanged; success appends exactly the new pair; invariant kept |
| EventRoutes.CreateThenGet | app/routers/events.py:35-60 | reading a created event back returns the fields that were sent, under the generated id |
| EventRoutes.UpdateThenGet | app/routers/events.py:79-94 | reading an updated event back returns the fields that were sent, under the same id |
| EventRoutes.RegisterTwiceRejected | app/routers/events.py:183-191 | repeating a successful registration gives BadRequest and changes nothing |
| EventRoutes.RegisterFailureChangesNothing | app/routers/events.py:167-191 | under the store invariant, a rejected registration leaves the whole store unchanged |
| EventRoutes.RegisterDuplicateKeepsCreatedUser | app/routers/events.py:167-191 | a user committed in step 3 stays after step 4 rejects a duplicate pair |
| EventRoutes.DeleteEventLeavesDanglingRegistration | app/routers/events.py:105-113 | deleting an event keeps the registrations that reference it |
| UserRoutes.CreateUser | app/routers/users.py:21-30 | BadRequest with no change exactly when the username exists; otherwise exactly that user is added with the given name and email, and nothing else changes |
| UserRoutes.DeleteUserByUsername | app/routers/users.py:51-61 | NotFound with no change exactly when the user is absent; otherwise the user is gone, the remaining registrations are exactly those of other users, other users and all events are unchanged, and the invariant is kept |
| UserRoutes.DeleteAllUsers | app/routers/users.py:74-78 | users and registrations end empty; events are unchanged |
| UserRoutes.CreateUserTwiceKeepsFirst | app/routers/users.py:21-30 | a second create with the same username is rejected and the first row keeps its name and email |
| UserRoutes.DeleteUserLeavesNoRegistration | app/routers/users.py:51-61 | under invariant (b), no registration of the username remains after the call |
| RegistrationRoutes.DeleteRegistration | app/routers/registrations.py:36-48 | NotFound with no change exactly when no row matches; otherwise exactly one matching row is removed, users and events are unchanged, and the invariant is kept |
| RegistrationRoutes.DeleteRegistrationRemovesPair | app/routers/registrations.py:40-48 | with unique pairs, a deleted pair is then absent and every other registration stays |
| Workflow.RegisterThenUnregister | app/routers/events.py:174-195 | deleting the pair a registration just added restores the registrations table; the user it created stays |
| Workflow.RegisterThenDeleteUser | app/routers/users.py:57-61 | deleting a user that just registered removes the user and its registration |
| Database.Store.constructor | app/data/db.py:20-22 | a new store has empty tables and satisfies the invariant |
| Database.Store.GetAllEvents | app/routers/events.py:19-20 | returns the events table and changes nothing |
| Database.Store.GetEventById | app/routers/events.py:54-60 | returns what EventRoutes.GetEventById gives for the current tables and changes nothing |
| Database.Store.CreateEvent | app/routers/events.py:35-44 | the new tables and the answer are those of EventRoutes.CreateEvent; the invariant is kept |
| Database.Store.UpdateEvent | app/routers/events.py:79-94 | the fields are assigned one by one; the new tables and the answer are those of EventRoutes.UpdateEvent |
| Database.Store.DeleteEventById | app/routers/events.py:105-113 | the new tables and the answer are those of EventRoutes.DeleteEventById |
| Database.Store.RegisterUserToEvent | app/routers/events.py:152-197 | the five steps run in order against the fields; the new tables and the answer are those of EventRoutes.RegisterUserToEvent |
| Database.Store.CreateUser | app/routers/users.py:21-30 | the new tables and the answer are those of UserRoutes.CreateUser |
| Database.Store.GetAllUsers | app/routers/users.py:40 | returns the users table and changes nothing |
| Database.ScanOutUser | app/routers/users.py:57-59 | the loop over the whole registrations table deletes every row of the username and keeps the others in order, giving exactly WithoutUser of the table |
| Database.Store.DeleteUserByUsername | app/routers/users.py:51-61 | the scan's result and the user's removal are committed; the new tables and the answer are those of UserRoutes.DeleteUserByUsername |
| Database.Store.DeleteAllUsers | app/routers/users.py:74-78 | the two loops delete every registration and then every user; the result is that of UserRoutes.DeleteAllUsers |
| Database.Store.GetAllRegistrations | app/routers/registrations.py:20-21 | returns the registrations table and changes nothing |
| Database.Store.DeleteRegistration | app/routers/registrations.py:36-48 | the first matching row is looked up and deleted; the new tables and the answer are those of RegistrationRoutes.DeleteRegistration |

## Left out

- `delete_all_events` (app/routers/events.py:115-125): it calls `delete()` on a `select(Event)` statement. What that does is up to the ORM library, which is not part of this model.
- EventRoutes.CreateEvent: the generated id comes from a counter that only grows. The database's own rule for choosing an id, for example reusing the largest id after it was deleted, is not modelled. The model promises only that the id is not yet stored.
- Engine creation, the database file path and its existence check, and the per-request session (app/data/db.py): these are I/O and resource handling. Each `commit` is modelled as an immediate update of the store.
- Seeding the database with random sample rows (app/data/db.py:24-45): the data comes from a random generator in a foreign library.
- app/main.py: application construction, static files and router wiring are framework code.
- HTTP details: status codes other than the three answer kinds, detail strings, response models, and JSON parsing. A request body whose values are not strings, or whose name or email is an explicit null, is not modelled. Such a null would make the insert fail in the database.
- app/models/registration.py is not part of this model. A registration is exactly a (username, event_id) pair. The database is assumed to impose no uniqueness constraint of its own on the pair.
- The order of rows returned by `GET /users` and `GET /events`: those tables are maps, and the handlers return the whole map.
- Row objects as mutable ORM objects with identity: a row is a value stored in its table, so aliasing of row objects is not modelled.
- Concurrency between requests, races between the steps of the registration workflow, and transaction rollback.
