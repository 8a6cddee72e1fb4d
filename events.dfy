/** The `/events` handlers of app/routers/events.py as functions from the
    store before the request to the store after it and the answer. */
module EventRoutes {
  import opened Tables

  /** The row stored under `id`, or NotFound (`GET /events/{id}`). */
  function GetEventById(s: State, id: int): (r: Outcome<EventRow>)
    ensures r.NotFound? <==> id !in s.events
    ensures r.Ok? ==> r.value.id == id && id in s.events && r.value.event == s.events[id]
    ensures r.Ok? || r.NotFound?
  {
    if id in s.events then Ok(EventRow(id, s.events[id])) else NotFound
  }

  /** `POST /events`: the four fields are copied into a new row under an id
      the store generates; any id in the body is ignored. */
  function CreateEvent(s: State, body: EventIn): (r: Reply<EventRow>)
    ensures r.out.Ok? && r.out.value.event == Event(body.title, body.description, body.date, body.location)
    // the id comes from the store's generator, never from `body.id`
    ensures r.out.value.id == s.nextId && r.after.nextId > s.nextId
    ensures IdsFresh(s) ==> r.out.value.id !in s.events
    ensures r.after.events == s.events[r.out.value.id := r.out.value.event]
    ensures r.after.users == s.users && r.after.registrations == s.registrations
    ensures Inv(s) ==> Inv(r.after)
  {
    var id := s.nextId;
    var row := Event(body.title, body.description, body.date, body.location);
    Reply(s.(events := s.events[id := row], nextId := id + 1), Ok(EventRow(id, row)))
  }

  /** `PUT /events/{id}`: full replace of the four fields, keeping the id. */
  function UpdateEvent(s: State, id: int, body: EventIn): (r: Reply<EventRow>)
    ensures r.out.NotFound? <==> id !in s.events
    ensures r.out.Ok? || r.out.NotFound?
    ensures r.out.NotFound? ==> r.after == s
    ensures r.out.Ok? ==>
      && r.out.value == EventRow(id, Event(body.title, body.description, body.date, body.location))
      && r.after.events.Keys == s.events.Keys
      && r.after.events[id] == r.out.value.event
    ensures forall other | other in s.events && other != id :: other in r.after.events && r.after.events[other] == s.events[other]
    ensures r.after.users == s.users && r.after.registrations == s.registrations && r.after.nextId == s.nextId
    ensures Inv(s) ==> Inv(r.after)
  {
    if id !in s.events then Reply(s, NotFound)
    else
      var row := s.events[id]
        .(title := body.title)
        .(description := body.description)
        .(date := body.date)
        .(location := body.location);
      Reply(s.(events := s.events[id := row]), Ok(EventRow(id, row)))
  }

  /** `DELETE /events/{id}`: removes that event only; registrations that
      reference it are left in place. */
  function DeleteEventById(s: State, id: int): (r: Reply<()>)
    ensures r.out.NotFound? <==> id !in s.events
    ensures r.out.NotFound? ==> r.after == s
    ensures r.out.Ok? ==> r.after.events == s.events - {id}
    ensures r.out.Ok? || r.out.NotFound?
    ensures r.after.users == s.users && r.after.registrations == s.registrations && r.after.nextId == s.nextId
    ensures Inv(s) ==> Inv(r.after)
  {
    if id !in s.events then Reply(s, NotFound)
    else Reply(s.(events := s.events - {id}), Ok(()))
  }

  /** True when the body carries a username that Python deems truthy. */
  predicate HasUsername(body: RegisterIn) {
    body.username.Some? && body.username.value != ""
  }

  /** The user the workflow creates when `username` is unknown: missing name
      and email become the empty string. */
  function NewUser(body: RegisterIn): (u: User)
    ensures body.name.None? ==> u.name == ""
    ensures body.name.Some? ==> u.name == body.name.value
    ensures body.email.None? ==> u.email == ""
    ensures body.email.Some? ==> u.email == body.email.value
  {
    User(body.name.GetOr(""), body.email.GetOr(""))
  }

  /** Step 3 of the workflow: find the user, or create and commit it. */
  function FindOrCreateUser(s: State, username: string, body: RegisterIn): (s': State)
    ensures username in s'.users
    ensures username in s.users ==> s' == s
    ensures username !in s.users ==> s'.users == s.users[username := NewUser(body)]
    ensures s'.events == s.events && s'.registrations == s.registrations && s'.nextId == s.nextId
  {
    if username in s.users then s else s.(users := s.users[username := NewUser(body)])
  }

  /** `POST /events/{id}/register`: event check, username check,
      find-or-create (committed at once), duplicate check, insert. */
  function RegisterUserToEvent(s: State, eventId: int, body: RegisterIn): (r: Reply<()>)
    // 1. a missing event wins over every payload problem
    ensures eventId !in s.events ==> r == Reply(s, NotFound)
    // 2. a missing or empty username changes nothing
    ensures eventId in s.events && !HasUsername(body) ==> r == Reply(s, BadRequest)
    // success exactly when the event exists, the username is given and the pair is new
    ensures r.out.Ok? <==>
      eventId in s.events && HasUsername(body) && Registration(body.username.value, eventId) !in s.registrations
    ensures r.out.NotFound? <==> eventId !in s.events
    ensures eventId in s.events && HasUsername(body) ==>
      var username := body.username.value;
      // 3. find-or-create: an existing record is kept, an unknown user is added
      && username in r.after.users
      && (username in s.users ==> r.after.users == s.users)
      && (username !in s.users ==> r.after.users == s.users[username := NewUser(body)])
      // 4./5. a duplicate leaves the table alone, a new pair is appended once
      && (r.out.BadRequest? ==> r.after.registrations == s.registrations)
      && (r.out.Ok? ==> r.after.registrations == s.registrations + [Registration(username, eventId)])
    ensures r.after.events == s.events && r.after.nextId == s.nextId
    ensures Inv(s) ==> Inv(r.after)
  {
    if eventId !in s.events then Reply(s, NotFound)
    else if !HasUsername(body) then Reply(s, BadRequest)
    else
      var username := body.username.value;
      var s1 := FindOrCreateUser(s, username, body);
      if FindPair(s1.registrations, username, eventId).Some? then Reply(s1, BadRequest)
      else
        var pair := Registration(username, eventId);
        var s2 := s1.(registrations := s1.registrations + [pair]);
        assert Inv(s) ==> Inv(s2) by {
          if Inv(s) { AppendUnique(s1.registrations, pair); }
        }
        Reply(s2, Ok(()))
  }

  // ---------------------------------------------------------------------
  // Properties relating several calls

  /** An event read back right after it was created has the fields sent. */
  lemma CreateThenGet(s: State, body: EventIn)
    ensures var r := CreateEvent(s, body);
      GetEventById(r.after, r.out.value.id) == Ok(EventRow(s.nextId, Event(body.title, body.description, body.date, body.location)))
  {
  }

  /** An event read back right after an update has the fields sent. */
  lemma UpdateThenGet(s: State, id: int, body: EventIn)
    requires id in s.events
    ensures GetEventById(UpdateEvent(s, id, body).after, id) == Ok(EventRow(id, Event(body.title, body.description, body.date, body.location)))
  {
  }

  /** Registering the same pair a second time is rejected and changes nothing. */
  lemma RegisterTwiceRejected(s: State, eventId: int, body: RegisterIn)
    requires RegisterUserToEvent(s, eventId, body).out.Ok?
    ensures var s' := RegisterUserToEvent(s, eventId, body).after;
      RegisterUserToEvent(s', eventId, body) == Reply(s', BadRequest)
  {
    var s' := RegisterUserToEvent(s, eventId, body).after;
    var pair := Registration(body.username.value, eventId);
    assert s'.registrations[|s'.registrations| - 1] == pair;
  }

  /** Under the store invariant a rejected registration changes nothing:
      a duplicate pair implies its user already exists, so step 3 created
      nobody. */
  lemma RegisterFailureChangesNothing(s: State, eventId: int, body: RegisterIn)
    requires Inv(s)
    requires !RegisterUserToEvent(s, eventId, body).out.Ok?
    ensures RegisterUserToEvent(s, eventId, body).after == s
  {
    if eventId in s.events && HasUsername(body) {
      var pair := Registration(body.username.value, eventId);
      assert pair in s.registrations;
      assert pair.username in s.users;
    }
  }

  /** The user committed in step 3 survives a rejection in step 4 when the
      table holds a registration of a user that `users` does not know. */
  lemma RegisterDuplicateKeepsCreatedUser()
    ensures var s := State(map[], map[1 := Event("Meetup", "d", "2025-01-01", "Rome")], [Registration("alice", 1)], 2);
      var r := RegisterUserToEvent(s, 1, RegisterIn(Some("alice"), None, None));
      r.out == BadRequest && r.after.users == map["alice" := User("", "")]
  {
    var s := State(map[], map[1 := Event("Meetup", "d", "2025-01-01", "Rome")], [Registration("alice", 1)], 2);
    assert FindPair(s.registrations, "alice", 1) == Some(0);
  }

  /** Deleting an event does not cascade: a registration of it outlives it. */
  lemma DeleteEventLeavesDanglingRegistration()
    ensures var s := State(map["alice" := User("", "")], map[1 := Event("Meetup", "d", "2025-01-01", "Rome")], [Registration("alice", 1)], 2);
      var r := DeleteEventById(s, 1);
      Inv(s) && r.out.Ok? && Registration("alice", 1) in r.after.registrations && 1 !in r.after.events
  {
    var s := State(map["alice" := User("", "")], map[1 := Event("Meetup", "d", "2025-01-01", "Rome")], [Registration("alice", 1)], 2);
    assert s.registrations[0] == Registration("alice", 1);
  }
}
