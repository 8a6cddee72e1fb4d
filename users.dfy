/** The `/users` handlers of app/routers/users.py as functions from the
    store before the request to the store after it and the answer. */
module UserRoutes {
  import opened Tables

  /** `POST /users`: a taken username is rejected, a fresh one is added. */
  function CreateUser(s: State, body: UserRow): (r: Reply<UserRow>)
    ensures r.out.BadRequest? <==> body.username in s.users
    ensures r.out.BadRequest? ==> r.after == s
    ensures r.out.Ok? ==>
      && r.out.value == body
      && r.after.users == s.users[body.username := User(body.name, body.email)]
    ensures r.out.Ok? || r.out.BadRequest?
    ensures r.after.events == s.events && r.after.registrations == s.registrations && r.after.nextId == s.nextId
    ensures Inv(s) ==> Inv(r.after)
  {
    if body.username in s.users then Reply(s, BadRequest)
    else Reply(s.(users := s.users[body.username := User(body.name, body.email)]), Ok(body))
  }

  /** `DELETE /users/{username}`: the user and every registration of it go;
      other users' registrations and all events stay. */
  function DeleteUserByUsername(s: State, username: string): (r: Reply<()>)
    ensures r.out.NotFound? <==> username !in s.users
    ensures r.out.NotFound? ==> r.after == s
    ensures r.out.Ok? ==>
      && username !in r.after.users
      && r.after.users.Keys == s.users.Keys - {username}
      && (forall x :: x in r.after.registrations <==> x in s.registrations && x.username != username)
    ensures r.out.Ok? || r.out.NotFound?
    ensures forall other | other in s.users && other != username :: other in r.after.users && r.after.users[other] == s.users[other]
    ensures r.after.events == s.events && r.after.nextId == s.nextId
    ensures Inv(s) ==> Inv(r.after)
  {
    if username !in s.users then Reply(s, NotFound)
    else
      var s' := s.(users := s.users - {username}, registrations := WithoutUser(s.registrations, username));
      WithoutUserMembers(s.registrations, username);
      assert Inv(s) ==> Inv(s') by {
        if Inv(s) { WithoutUserUnique(s.registrations, username); }
      }
      Reply(s', Ok(()))
  }

  /** `DELETE /users`: every registration and every user go; events stay. */
  function DeleteAllUsers(s: State): (r: Reply<()>)
    ensures r.out.Ok?
    ensures |r.after.users| == 0 && |r.after.registrations| == 0
    ensures r.after.events == s.events && r.after.nextId == s.nextId
    ensures Inv(s) ==> Inv(r.after)
  {
    Reply(s.(users := map[], registrations := []), Ok(()))
  }

  /** Creating the same username twice: the second call is rejected and the
      row the first call stored keeps its name and email. */
  lemma CreateUserTwiceKeepsFirst(s: State, first: UserRow, second: UserRow)
    requires CreateUser(s, first).out.Ok?
    requires second.username == first.username
    ensures var s' := CreateUser(s, first).after;
      && CreateUser(s', second) == Reply(s', BadRequest)
      && s'.users[first.username] == User(first.name, first.email)
  {
  }

  /** Under invariant (b), after `DELETE /users/{username}` no registration
      of that username remains, whether or not the user existed. */
  lemma DeleteUserLeavesNoRegistration(s: State, username: string)
    requires UsersExist(s.users, s.registrations)
    ensures forall x | x in DeleteUserByUsername(s, username).after.registrations :: x.username != username
  {
  }
}
