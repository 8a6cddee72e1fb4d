/** The database session as one mutable store: every handler of the three
    routers is a method that checks the store and then writes to its tables
    step by step, each `commit` taking effect at once. Each method is proved
    to leave the store and answer as the matching route function says. */
module Database {
  import opened Tables
  import EventRoutes
  import UserRoutes
  import RegistrationRoutes

  /** One iteration of the cascade scan keeps the table equal to the
      surviving rows of the prefix already scanned followed by the rows not
      yet scanned. */
  lemma ScanStep(rows: seq<Registration>, i: nat, username: string, table: seq<Registration>)
    requires i < |rows|
    requires table == WithoutUser(rows[..i], username) + rows[i..]
    ensures var kept := |WithoutUser(rows[..i], username)|;
      && kept < |table| && table[kept] == rows[i]
      && |WithoutUser(rows[..i + 1], username)| == (if rows[i].username == username then kept else kept + 1)
      && (rows[i].username == username ==> table[..kept] + table[kept + 1..] == WithoutUser(rows[..i + 1], username) + rows[i + 1..])
      && (rows[i].username != username ==> table == WithoutUser(rows[..i + 1], username) + rows[i + 1..])
  {
    var done := WithoutUser(rows[..i], username);
    WithoutUserStep(rows, i, username);
    assert rows[i..] == [rows[i]] + rows[i + 1..];
    assert table[..|done|] == done;
    assert table[|done| + 1..] == rows[i + 1..];
  }

  /** The scan in `DELETE /users/{username}`: walks the whole registrations
      table and deletes each row of `username`. The session stages the
      deletes; the caller's commit writes the table this returns. */
  method ScanOutUser(rows: seq<Registration>, username: string) returns (table: seq<Registration>)
    ensures table == WithoutUser(rows, username)
  {
    table := rows;
    var i, kept := 0, 0;
    while i < |rows|
      invariant 0 <= i <= |rows|
      invariant table == WithoutUser(rows[..i], username) + rows[i..]
      invariant kept == |WithoutUser(rows[..i], username)|
    {
      ScanStep(rows, i, username, table);
      if rows[i].username == username {
        table := table[..kept] + table[kept + 1..];
      } else {
        kept := kept + 1;
      }
      i := i + 1;
    }
    assert rows[..|rows|] == rows;
  }

  class Store {
    var users: map<string, User>
    var events: map<int, Event>
    var registrations: seq<Registration>
    var nextId: int

    /** The tables as one value. */
    function Abstract(): (s: State)
      reads this
      ensures s.users == users && s.events == events && s.registrations == registrations
    {
      State(users, events, registrations, nextId)
    }

    ghost predicate Valid()
      reads this
    {
      Inv(Abstract())
    }

    /** The empty tables that schema creation leaves. */
    constructor ()
      ensures Abstract() == Empty() && Valid()
    {
      users, events, registrations, nextId := map[], map[], [], 1;
      EmptyInv();
    }

    // -------------------------------------------------------------------
    // app/routers/events.py

    /** `GET /events`: the events table, unchanged. */
    method GetAllEvents() returns (r: map<int, Event>)
      ensures r == events
    {
      r := events;
    }

    /** `GET /events/{id}`. */
    method GetEventById(id: int) returns (r: Outcome<EventRow>)
      ensures r == EventRoutes.GetEventById(Abstract(), id)
    {
      if id !in events {
        r := NotFound;
        return;
      }
      r := Ok(EventRow(id, events[id]));
    }

    /** `POST /events`. */
    method CreateEvent(body: EventIn) returns (r: Outcome<EventRow>)
      modifies this
      ensures Reply(Abstract(), r) == EventRoutes.CreateEvent(old(Abstract()), body)
      ensures old(Valid()) ==> Valid()
    {
      var row := Event(body.title, body.description, body.date, body.location);
      var id := nextId;
      events := events[id := row];
      nextId := nextId + 1;
      r := Ok(EventRow(id, row));
    }

    /** `PUT /events/{id}`: the four fields are assigned one by one. */
    method UpdateEvent(id: int, body: EventIn) returns (r: Outcome<EventRow>)
      modifies this
      ensures Reply(Abstract(), r) == EventRoutes.UpdateEvent(old(Abstract()), id, body)
      ensures old(Valid()) ==> Valid()
    {
      if id !in events {
        r := NotFound;
        return;
      }
      var row := events[id];
      row := row.(title := body.title);
      row := row.(description := body.description);
      row := row.(date := body.date);
      row := row.(location := body.location);
      events := events[id := row];
      r := Ok(EventRow(id, row));
    }

    /** `DELETE /events/{id}`. */
    method DeleteEventById(id: int) returns (r: Outcome<()>)
      modifies this
      ensures Reply(Abstract(), r) == EventRoutes.DeleteEventById(old(Abstract()), id)
      ensures old(Valid()) ==> Valid()
    {
      if id !in events {
        r := NotFound;
        return;
      }
      events := events - {id};
      r := Ok(());
    }

    /** `POST /events/{id}/register`. */
    method RegisterUserToEvent(eventId: int, body: RegisterIn) returns (r: Outcome<()>)
      modifies this
      ensures Reply(Abstract(), r) == EventRoutes.RegisterUserToEvent(old(Abstract()), eventId, body)
      ensures old(Valid()) ==> Valid()
    {
      // 1. the event must exist
      if eventId !in events {
        r := NotFound;
        return;
      }
      // 2. the username must be present and non-empty
      if body.username.None? || body.username.value == "" {
        r := BadRequest;
        return;
      }
      var username := body.username.value;
      // 3. find the user or create it, committed at once
      if username !in users {
        users := users[username := User(body.name.GetOr(""), body.email.GetOr(""))];
      }
      // 4. reject a duplicate pair
      var existing := FindPair(registrations, username, eventId);
      if existing.Some? {
        r := BadRequest;
        return;
      }
      // 5. insert the pair
      registrations := registrations + [Registration(username, eventId)];
      r := Ok(());
    }

    // -------------------------------------------------------------------
    // app/routers/users.py

    /** `POST /users`. */
    method CreateUser(body: UserRow) returns (r: Outcome<UserRow>)
      modifies this
      ensures Reply(Abstract(), r) == UserRoutes.CreateUser(old(Abstract()), body)
      ensures old(Valid()) ==> Valid()
    {
      if body.username in users {
        r := BadRequest;
        return;
      }
      users := users[body.username := User(body.name, body.email)];
      r := Ok(body);
    }

    /** `GET /users`: the users table, unchanged. */
    method GetAllUsers() returns (r: map<string, User>)
      ensures r == users
    {
      r := users;
    }

    /** `DELETE /users/{username}`: deletes the user's registrations, then
        the user. */
    method DeleteUserByUsername(username: string) returns (r: Outcome<()>)
      modifies this
      ensures Reply(Abstract(), r) == UserRoutes.DeleteUserByUsername(old(Abstract()), username)
      ensures old(Valid()) ==> Valid()
    {
      if username !in users {
        r := NotFound;
        return;
      }
      registrations := ScanOutUser(registrations, username);
      users := users - {username};
      r := Ok(());
    }

    /** `DELETE /users`: deletes every registration row, then every user. */
    method DeleteAllUsers() returns (r: Outcome<()>)
      modifies this
      ensures Reply(Abstract(), r) == UserRoutes.DeleteAllUsers(old(Abstract()))
      ensures old(Valid()) ==> Valid()
    {
      var rows := registrations;
      var i := 0;
      while i < |rows|
        invariant 0 <= i <= |rows|
        invariant registrations == rows[i..]
        invariant users == old(users) && events == old(events) && nextId == old(nextId)
      {
        registrations := registrations[1..];
        i := i + 1;
      }
      var left := users.Keys;
      while left != {}
        invariant users.Keys == left
        invariant registrations == [] && events == old(events) && nextId == old(nextId)
        decreases left
      {
        var u :| u in left;
        users := users - {u};
        left := left - {u};
      }
      r := Ok(());
    }

    // -------------------------------------------------------------------
    // app/routers/registrations.py

    /** `GET /registrations`: the registrations table, unchanged. */
    method GetAllRegistrations() returns (r: seq<Registration>)
      ensures r == registrations
    {
      r := registrations;
    }

    /** `DELETE /registrations?username=&event_id=`: looks up the first
        matching row, then deletes it. */
    method DeleteRegistration(username: string, eventId: int) returns (r: Outcome<()>)
      modifies this
      ensures Reply(Abstract(), r) == RegistrationRoutes.DeleteRegistration(old(Abstract()), username, eventId)
      ensures old(Valid()) ==> Valid()
    {
      var existing := FindPair(registrations, username, eventId);
      if existing.None? {
        r := NotFound;
        return;
      }
      var k := existing.value;
      registrations := registrations[..k] + registrations[k + 1..];
      r := Ok(());
    }
  }
}
