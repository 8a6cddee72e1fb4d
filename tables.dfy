/** The three tables of the event-registration store (users, events,
    registrations), the request and response shapes the handlers use, the
    store invariants, and the row-level helpers the handlers share. */
module Tables {

  datatype Option<+T> = None | Some(value: T) {
    /** The value, or `default` when absent (Python's `dict.get(key, default)`). */
    function GetOr(default: T): T {
      match this
      case Some(v) => v
      case None => default
    }
  }

  /** The three result kinds of a handler: success with a payload, HTTP 404, HTTP 400. */
  datatype Outcome<+T> = Ok(value: T) | NotFound | BadRequest

  /** A row of `users`, without its key (app/models/user.py). */
  datatype User = User(name: string, email: string)

  /** A user as it is sent to `POST /users` and returned by it. */
  datatype UserRow = UserRow(username: string, name: string, email: string)

  /** A row of `events`, without its key (app/models/event.py). */
  datatype Event = Event(title: string, description: string, date: string, location: string)

  /** An event as a request body: the id is optional and every handler ignores it. */
  datatype EventIn = EventIn(id: Option<int>, title: string, description: string, date: string, location: string)

  /** An event as a handler returns it, with its key. */
  datatype EventRow = EventRow(id: int, event: Event)

  /** A row of `registrations`: one user registered to one event. */
  datatype Registration = Registration(username: string, eventId: int)

  /** The loosely typed body of `POST /events/{id}/register`: each key may be missing. */
  datatype RegisterIn = RegisterIn(username: Option<string>, name: Option<string>, email: Option<string>)

  /** The whole store. `nextId` stands for the database's id generator. */
  datatype State = State(
    users: map<string, User>,
    events: map<int, Event>,
    registrations: seq<Registration>,
    nextId: int)

  /** What a state-changing handler leaves behind and what it answers. */
  datatype Reply<+T> = Reply(after: State, out: Outcome<T>)

  /** The empty store that the schema creation leaves. */
  function Empty(): (s: State)
    ensures s.users == map[] && s.events == map[] && s.registrations == []
  {
    State(map[], map[], [], 1)
  }

  // ---------------------------------------------------------------------
  // Invariants

  /** (a) No two registrations share the same (username, event_id) pair. */
  ghost predicate UniquePairs(regs: seq<Registration>) {
    forall i, j | 0 <= i < j < |regs| :: regs[i] != regs[j]
  }

  /** (b) Every registration's username is a key of `users`. */
  ghost predicate UsersExist(users: map<string, User>, regs: seq<Registration>) {
    forall x | x in regs :: x.username in users
  }

  /** The id generator is ahead of every stored event id. */
  ghost predicate IdsFresh(s: State) {
    forall id | id in s.events :: id < s.nextId
  }

  ghost predicate Inv(s: State) {
    UniquePairs(s.registrations) && UsersExist(s.users, s.registrations) && IdsFresh(s)
  }

  lemma EmptyInv()
    ensures Inv(Empty())
  {
  }

  // ---------------------------------------------------------------------
  // Row-level helpers

  /** The index of the first row equal to (username, eventId), as
      `select(Registration).where(...).first()` finds it. */
  function FindPair(regs: seq<Registration>, username: string, eventId: int): (r: Option<nat>)
    ensures r.None? <==> Registration(username, eventId) !in regs
    ensures r.Some? ==> r.value < |regs| && regs[r.value] == Registration(username, eventId)
    ensures r.Some? ==> forall k | 0 <= k < r.value :: regs[k] != Registration(username, eventId)
    decreases |regs|
  {
    if |regs| == 0 then None
    else if regs[0] == Registration(username, eventId) then Some(0)
    else
      match FindPair(regs[1..], username, eventId)
      case None => None
      case Some(k) => Some(k + 1)
  }

  /** The table without the row at index k. */
  function RemoveAt(regs: seq<Registration>, k: nat): (r: seq<Registration>)
    requires k < |regs|
    ensures |r| == |regs| - 1
    ensures multiset(r) + multiset{regs[k]} == multiset(regs)
  {
    assert regs == regs[..k] + [regs[k]] + regs[k + 1..];
    regs[..k] + regs[k + 1..]
  }

  /** The rows that survive deleting every registration of `username`, in
      table order (which rows those are: `WithoutUserMembers`). */
  function WithoutUser(regs: seq<Registration>, username: string): (r: seq<Registration>)
    ensures |r| <= |regs|
    decreases |regs|
  {
    if |regs| == 0 then []
    else
      var init := WithoutUser(regs[..|regs| - 1], username);
      var last := regs[|regs| - 1];
      if last.username == username then init else init + [last]
  }

  // ---------------------------------------------------------------------
  // Lemmas about the helpers

  /** One more step of the scan: the row at index i survives exactly when
      its username differs. */
  lemma WithoutUserStep(rows: seq<Registration>, i: nat, username: string)
    requires i < |rows|
    ensures WithoutUser(rows[..i + 1], username)
      == WithoutUser(rows[..i], username) + (if rows[i].username == username then [] else [rows[i]])
  {
    assert rows[..i + 1][..i] == rows[..i];
  }

  /** The surviving rows are exactly the rows of other usernames. */
  lemma {:induction false} WithoutUserMembers(regs: seq<Registration>, username: string)
    ensures forall x :: x in WithoutUser(regs, username) <==> x in regs && x.username != username
    decreases |regs|
  {
    if |regs| > 0 {
      var init := regs[..|regs| - 1];
      var last := regs[|regs| - 1];
      assert regs == init + [last];
      WithoutUserMembers(init, username);
    }
  }

  /** Appending a pair that is not yet stored keeps the pairs unique. */
  lemma AppendUnique(regs: seq<Registration>, x: Registration)
    requires UniquePairs(regs) && x !in regs
    ensures UniquePairs(regs + [x])
  {
    var r := regs + [x];
    forall i, j | 0 <= i < j < |r| ensures r[i] != r[j] {
      if j == |regs| {
        assert r[i] == regs[i];
      } else {
        assert r[i] == regs[i] && r[j] == regs[j];
      }
    }
  }

  /** Row i of the table after removing row k. */
  lemma RemoveAtIndex(regs: seq<Registration>, k: nat)
    requires k < |regs|
    ensures forall i | 0 <= i < |RemoveAt(regs, k)| :: RemoveAt(regs, k)[i] == if i < k then regs[i] else regs[i + 1]
  {
    assert RemoveAt(regs, k) == regs[..k] + regs[k + 1..];
  }

  /** Removing one row of a table of unique pairs keeps the pairs unique. */
  lemma RemoveAtUnique(regs: seq<Registration>, k: nat)
    requires k < |regs| && UniquePairs(regs)
    ensures UniquePairs(RemoveAt(regs, k))
  {
    var r := RemoveAt(regs, k);
    RemoveAtIndex(regs, k);
    forall i, j | 0 <= i < j < |r| ensures r[i] != r[j] {
      if j < k {
      } else if i < k {
        assert r[j] == regs[j + 1];
      } else {
        assert r[i] == regs[i + 1] && r[j] == regs[j + 1];
      }
    }
  }

  /** With unique pairs, removing row k removes exactly that pair: every
      other row stays. */
  lemma RemoveAtMembers(regs: seq<Registration>, k: nat)
    requires k < |regs| && UniquePairs(regs)
    ensures forall x :: x in RemoveAt(regs, k) <==> x in regs && x != regs[k]
  {
    var r := RemoveAt(regs, k);
    RemoveAtIndex(regs, k);
    forall x ensures x in r <==> x in regs && x != regs[k] {
      if x in r {
        var i :| 0 <= i < |r| && r[i] == x;
        if i < k { assert regs[i] == x; } else { assert regs[i + 1] == x; }
      }
      if x in regs && x != regs[k] {
        var i :| 0 <= i < |regs| && regs[i] == x;
        if i < k { assert r[i] == x; } else { assert r[i - 1] == x; }
      }
    }
  }

  /** The cascade filter keeps the pairs unique. */
  lemma {:induction false} WithoutUserUnique(regs: seq<Registration>, username: string)
    requires UniquePairs(regs)
    ensures UniquePairs(WithoutUser(regs, username))
    decreases |regs|
  {
    if |regs| > 0 {
      var init := regs[..|regs| - 1];
      var last := regs[|regs| - 1];
      assert UniquePairs(init) by {
        forall i, j | 0 <= i < j < |init| ensures init[i] != init[j] {
          assert init[i] == regs[i] && init[j] == regs[j];
        }
      }
      WithoutUserUnique(init, username);
      WithoutUserMembers(init, username);
      if last.username != username {
        assert last !in init by {
          forall i | 0 <= i < |init| ensures init[i] != last {
            assert init[i] == regs[i];
          }
        }
        AppendUnique(WithoutUser(init, username), last);
      }
    }
  }
}
