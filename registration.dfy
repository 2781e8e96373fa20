/**
 The `/register` route and the shared user list it appends to. A request
 carries a username and a password, either of which may be missing; the
 route rejects a falsy field (400), rejects a username already on the list
 (409), and otherwise appends the new credentials (201).
 */
module Registration {

  datatype User = User(username: string, password: string)

  /** A field of the request body: absent (or null), or a string. */
  datatype Input = Missing | Given(text: string)

  datatype Option<T> = None | Some(value: T)

  /** A field passes the presence check when it is a non-empty string. */
  predicate Present(x: Input)
  {
    x.Given? && x.text != ""
  }

  /** The outcome of a registration, with its HTTP status. */
  datatype Status = InvalidInput | Conflict | Created
  {
    function Code(): int
    {
      match this
      case InvalidInput => 400
      case Conflict => 409
      case Created => 201
    }
  }

  /** Some entry of the list has this username. */
  predicate HasUser(users: seq<User>, name: string)
  {
    exists i :: 0 <= i < |users| && users[i].username == name
  }

  /** No two entries of the list share a username. */
  predicate UniqueUsernames(users: seq<User>)
  {
    forall i, j :: 0 <= i < j < |users| ==> users[i].username != users[j].username
  }

  /** The status of one registration and the user list after it. */
  datatype Outcome = Outcome(status: Status, users: seq<User>)

  /** One registration on the list `users`. The list only ever grows by the
      new entry at its end, and only when the answer is Created. */
  function RegisterStep(users: seq<User>, username: Input, password: Input): (r: Outcome)
    ensures users <= r.users
    ensures |r.users| == |users| + (if r.status == Created then 1 else 0)
  {
    if !Present(username) || !Present(password) then Outcome(InvalidInput, users)
    else if HasUser(users, username.text) then Outcome(Conflict, users)
    else Outcome(Created, users + [User(username.text, password.text)])
  }

  /** A falsy field is reported before a duplicate username: the answer is
      InvalidInput whether or not the name is taken, and the list is unchanged. */
  lemma InvalidInputFirst(users: seq<User>, username: Input, password: Input)
    requires !Present(username) || !Present(password)
    ensures RegisterStep(users, username, password) == Outcome(InvalidInput, users)
  {
  }

  /** A registration succeeds exactly when both fields are present and the
      username is new; success appends exactly the given credentials, and
      every other answer leaves the list as it was. */
  lemma CreatedExactlyWhenNew(users: seq<User>, username: Input, password: Input)
    ensures RegisterStep(users, username, password).status == Created <==>
              Present(username) && Present(password) && !HasUser(users, username.text)
    ensures RegisterStep(users, username, password).status == Conflict <==>
              Present(username) && Present(password) && HasUser(users, username.text)
    ensures RegisterStep(users, username, password).status == Created ==>
              RegisterStep(users, username, password).users == users + [User(username.text, password.text)]
    ensures RegisterStep(users, username, password).status != Created ==>
              RegisterStep(users, username, password).users == users
    ensures RegisterStep(users, username, password).status.Code() ==
              if !Present(username) || !Present(password) then 400
              else if HasUser(users, username.text) then 409
              else 201
  {
  }

  /** After a registration the list holds the username: either it was already
      there (Conflict) or it was just added (Created). */
  lemma RegisteredNameIsKnown(users: seq<User>, username: Input, password: Input)
    requires Present(username) && Present(password)
    ensures HasUser(RegisterStep(users, username, password).users, username.text)
  {
    var r := RegisterStep(users, username, password);
    if r.status == Created {
      assert r.users[|users|].username == username.text;
    }
  }

  /** The check before the append keeps usernames unique. */
  lemma RegisterKeepsUnique(users: seq<User>, username: Input, password: Input)
    requires UniqueUsernames(users)
    ensures UniqueUsernames(RegisterStep(users, username, password).users)
  {
    var r := RegisterStep(users, username, password);
    if r.status == Created {
      forall i, j | 0 <= i < j < |r.users| ensures r.users[i].username != r.users[j].username {
        if j == |users| {
          assert r.users[i] == users[i];
        }
      }
    }
  }

  /** Two registrations of the same username: at most one succeeds, and once
      the first has succeeded a second with a present password is a Conflict. */
  lemma SameNameTwice(users: seq<User>, username: Input, password1: Input, password2: Input)
    ensures var first := RegisterStep(users, username, password1);
            var second := RegisterStep(first.users, username, password2);
            && !(first.status == Created && second.status == Created)
            && (first.status == Created && Present(password2) ==> second.status == Conflict)
  {
    if Present(username) && Present(password1) {
      RegisteredNameIsKnown(users, username, password1);
    }
  }

  /** The user list after sequentially handling `requests`, each a
      (username, password) pair. */
  function Replay(users: seq<User>, requests: seq<(Input, Input)>): (r: seq<User>)
    ensures users <= r
  {
    if requests == [] then users
    else
      var last := requests[|requests| - 1];
      RegisterStep(Replay(users, requests[..|requests| - 1]), last.0, last.1).users
  }

  /** Handled one at a time, any series of registrations keeps usernames unique. */
  lemma {:induction false} ReplayKeepsUnique(users: seq<User>, requests: seq<(Input, Input)>)
    requires UniqueUsernames(users)
    ensures UniqueUsernames(Replay(users, requests))
  {
    if requests != [] {
      var n := |requests| - 1;
      ReplayKeepsUnique(users, requests[..n]);
      RegisterKeepsUnique(Replay(users, requests[..n]), requests[n].0, requests[n].1);
    }
  }

  /** One more request extends a replayed history by one RegisterStep, which
      is what UserRegistry.Register does to its list. */
  lemma ReplayStep(users: seq<User>, requests: seq<(Input, Input)>, request: (Input, Input))
    ensures Replay(users, requests + [request]) == RegisterStep(Replay(users, requests), request.0, request.1).users
  {
    assert (requests + [request])[..|requests|] == requests;
  }

  /** A name on a replayed prefix of the history stays on the list for the
      rest of the history. */
  lemma {:induction false} ReplayKeepsNames(users: seq<User>, requests: seq<(Input, Input)>, m: nat, n: nat, name: string)
    requires m <= n <= |requests|
    requires HasUser(Replay(users, requests[..m]), name)
    ensures HasUser(Replay(users, requests[..n]), name)
  {
    if m < n {
      ReplayKeepsNames(users, requests, m, n - 1, name);
      var before := Replay(users, requests[..n - 1]);
      ReplayStep(users, requests[..n - 1], requests[n - 1]);
      assert requests[..n - 1] + [requests[n - 1]] == requests[..n];
      var i :| 0 <= i < |before| && before[i].username == name;
      var after := Replay(users, requests[..n]);
      assert before <= after && after[i] == before[i];
    }
  }

  /** The status of the request at position `n` of a history. */
  function StatusAt(users: seq<User>, requests: seq<(Input, Input)>, n: nat): Status
    requires n < |requests|
  {
    RegisterStep(Replay(users, requests[..n]), requests[n].0, requests[n].1).status
  }

  /** In any history handled one request at a time, at most one request per
      username is Created: once one is, every later one with that name is not,
      and a later one with a present password is a Conflict. */
  lemma AtMostOneCreatedPerName(users: seq<User>, requests: seq<(Input, Input)>, i: nat, j: nat)
    requires i < j < |requests| && requests[i].0 == requests[j].0
    ensures !(StatusAt(users, requests, i) == Created && StatusAt(users, requests, j) == Created)
    ensures StatusAt(users, requests, i) == Created && Present(requests[j].1) ==>
              StatusAt(users, requests, j) == Conflict
  {
    if StatusAt(users, requests, i) == Created {
      var name := requests[i].0;
      RegisteredNameIsKnown(Replay(users, requests[..i]), name, requests[i].1);
      ReplayStep(users, requests[..i], requests[i]);
      assert requests[..i] + [requests[i]] == requests[..i + 1];
      ReplayKeepsNames(users, requests, i + 1, j, name.text);
    }
  }

  /** The shared, mutable list of registered users. */
  class UserRegistry {
    var users: seq<User>

    constructor (initial: seq<User>)
      ensures users == initial
    {
      users := initial;
    }

    /** `users.find(user => user.username === name)`: the first entry with
        this username, or nothing when there is none. */
    method FindUser(name: string) returns (found: Option<User>)
      ensures found.None? <==> !HasUser(users, name)
      ensures found.Some? ==>
                exists i :: 0 <= i < |users| && users[i] == found.value && users[i].username == name
                            && forall j :: 0 <= j < i ==> users[j].username != name
    {
      var i := 0;
      while i < |users|
        invariant 0 <= i <= |users|
        invariant forall j :: 0 <= j < i ==> users[j].username != name
      {
        if users[i].username == name {
          return Some(users[i]);
        }
        i := i + 1;
      }
      return None;
    }

    /** `/register`: validate, reject a taken username, else append. The new
        list and the status are those of RegisterStep, and unique usernames
        stay unique. */
    method Register(username: Input, password: Input) returns (status: Status)
      modifies this
      ensures Outcome(status, users) == RegisterStep(old(users), username, password)
      ensures UniqueUsernames(old(users)) ==> UniqueUsernames(users)
    {
      if !Present(username) || !Present(password) {
        return InvalidInput;
      }
      var existing := FindUser(username.text);
      if existing.Some? {
        return Conflict;
      }
      if UniqueUsernames(users) {
        RegisterKeepsUnique(users, username, password);
      }
      users := users + [User(username.text, password.text)];
      return Created;
    }
  }
}
