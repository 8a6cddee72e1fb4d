/** The `/registrations` handler of app/routers/registrations.py that
    changes the store, as a function from the store before the request to
    the store after it and the answer. */
module RegistrationRoutes {
  import opened Tables

  /** `DELETE /registrations?username=&event_id=`: the first matching row is
      removed; no match is NotFound. */
  function DeleteRegistration(s: State, username: string, eventId: int): (r: Reply<()>)
    ensures r.out.NotFound? <==> Registration(username, eventId) !in s.registrations
    ensures r.out.NotFound? ==> r.after == s
    ensures r.out.Ok? ==>
      && |r.after.registrations| == |s.registrations| - 1
      && multiset(r.after.registrations) + multiset{Registration(username, eventId)} == multiset(s.registrations)
    ensures r.out.Ok? || r.out.NotFound?
    ensures r.after.users == s.users && r.after.events == s.events && r.after.nextId == s.nextId
    ensures Inv(s) ==> Inv(r.after)
  {
    match FindPair(s.registrations, username, eventId)
    case None => Reply(s, NotFound)
    case Some(k) =>
      var s' := s.(registrations := RemoveAt(s.registrations, k));
      assert Inv(s) ==> Inv(s') by {
        if Inv(s) {
          RemoveAtUnique(s.registrations, k);
        }
      }
      Reply(s', Ok(()))
  }

  /** With unique pairs, a successful delete leaves the pair absent and
      every other registration in place. */
  lemma DeleteRegistrationRemovesPair(s: State, username: string, eventId: int)
    requires UniquePairs(s.registrations)
    requires Registration(username, eventId) in s.registrations
    ensures var regs := DeleteRegistration(s, username, eventId).after.registrations;
      && Registration(username, eventId) !in regs
      && forall x :: x in regs <==> x in s.registrations && x != Registration(username, eventId)
  {
    var k := FindPair(s.registrations, username, eventId).value;
    RemoveAtMembers(s.registrations, k);
  }
}
