/** Properties that relate handlers of different routers. */
module Workflow {
  import opened Tables
  import EventRoutes
  import UserRoutes
  import RegistrationRoutes

  /** Deleting the registration that `POST /events/{id}/register` just added
      gives back the registrations table as it was before; the user that the
      registration created is not removed with it. */
  lemma RegisterThenUnregister(s: State, eventId: int, body: RegisterIn)
    requires EventRoutes.RegisterUserToEvent(s, eventId, body).out.Ok?
    ensures var s1 := EventRoutes.RegisterUserToEvent(s, eventId, body).after;
      var r := RegistrationRoutes.DeleteRegistration(s1, body.username.value, eventId);
      && r.out.Ok?
      && r.after.registrations == s.registrations
      && r.after.users == s1.users
  {
    var s1 := EventRoutes.RegisterUserToEvent(s, eventId, body).after;
    var pair := Registration(body.username.value, eventId);
    assert s1.registrations == s.registrations + [pair];
    assert FindPair(s1.registrations, pair.username, eventId) == Some(|s.registrations|) by {
      assert s1.registrations[|s.registrations|] == pair;
    }
    assert s1.registrations[..|s.registrations|] == s.registrations;
  }

  /** Deleting a user removes the registrations the workflow made for it:
      registering and then deleting the user leaves no pair of that user. */
  lemma RegisterThenDeleteUser(s: State, eventId: int, body: RegisterIn)
    requires EventRoutes.RegisterUserToEvent(s, eventId, body).out.Ok?
    ensures var s1 := EventRoutes.RegisterUserToEvent(s, eventId, body).after;
      var r := UserRoutes.DeleteUserByUsername(s1, body.username.value);
      && r.out.Ok?
      && body.username.value !in r.after.users
      && Registration(body.username.value, eventId) !in r.after.registrations
  {
  }
}
