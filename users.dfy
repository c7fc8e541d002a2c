/** The users table and the login upsert: look a user up by email, insert a new
    row when the email is unknown, rename the row when the name differs. */
module Users {
  import opened Optional

  /** One row of the users table. */
  datatype User = User(id: int, name: string, email: string, createdAt: int)

  /** SELECT * FROM users WHERE email = $1: the position of the row, if any. */
  function FindByEmail(users: seq<User>, email: string): (r: Option<int>)
    ensures r.Some? ==> 0 <= r.value < |users| && users[r.value].email == email
    ensures r.Some? ==> forall j :: 0 <= j < r.value ==> users[j].email != email
    ensures r.None? <==> forall u :: u in users ==> u.email != email
  {
    if |users| == 0 then None
    else if users[0].email == email then Some(0)
    else
      match FindByEmail(users[1..], email)
      case None => None
      case Some(i) => Some(i + 1)
  }

  /** Keys of the table: unique emails (the UNIQUE constraint), unique ids, and
      every id drawn from the SERIAL sequence below nextId. */
  predicate WellKeyed(users: seq<User>, nextId: int)
  {
    && 1 <= nextId
    && (forall i, j :: 0 <= i < j < |users| ==> users[i].email != users[j].email)
    && (forall i, j :: 0 <= i < j < |users| ==> users[i].id != users[j].id)
    && (forall u :: u in users ==> 1 <= u.id < nextId)
  }

  /** The table after a login, the row the login answers with, and the next
      value of the id sequence. */
  datatype Upserted = Upserted(users: seq<User>, user: User, nextId: int)

  /** The login upsert. */
  function Upsert(users: seq<User>, nextId: int, name: string, email: string, now: int): (r: Upserted)
    ensures r.user.name == name && r.user.email == email && r.user in r.users
    ensures FindByEmail(users, email).None? ==>
              r.users == users + [r.user] && r.user.id == nextId && r.nextId == nextId + 1
    ensures FindByEmail(users, email).Some? ==>
              var i := FindByEmail(users, email).value;
              r.users == users[i := users[i].(name := name)] && r.user == users[i].(name := name) && r.nextId == nextId
  {
    match FindByEmail(users, email)
    case None =>
      var u := User(nextId, name, email, now);
      Upserted(users + [u], u, nextId + 1)
    case Some(i) =>
      if users[i].name != name then
        var u := users[i].(name := name);
        assert users[i := u][i] == u;
        Upserted(users[i := u], u, nextId)
      else
        Upserted(users, users[i], nextId)
  }

  /** A login keeps the table's keys. */
  lemma UpsertKeepsKeys(users: seq<User>, nextId: int, name: string, email: string, now: int)
    requires WellKeyed(users, nextId)
    ensures var r := Upsert(users, nextId, name, email, now); WellKeyed(r.users, r.nextId)
  {
    var r := Upsert(users, nextId, name, email, now);
    match FindByEmail(users, email)
    case None =>
      forall i, j | 0 <= i < j < |r.users|
        ensures r.users[i].email != r.users[j].email && r.users[i].id != r.users[j].id
      {
        assert r.users[i] == users[i] && users[i] in users;
      }
    case Some(k) =>
      forall u | u in r.users
        ensures 1 <= u.id < r.nextId
      {
        var j :| 0 <= j < |r.users| && r.users[j] == u;
        assert j != k ==> u == users[j];
        assert users[j] in users && users[k] in users;
      }
  }

  /** A login never changes another user's row, and on a known email it changes
      the name only: the id, email and creation time stay. */
  lemma UpsertOnlyRenames(users: seq<User>, nextId: int, name: string, email: string, now: int, j: int)
    requires 0 <= j < |users|
    ensures var r := Upsert(users, nextId, name, email, now);
            j < |r.users| && r.users[j].id == users[j].id && r.users[j].email == users[j].email
            && r.users[j].createdAt == users[j].createdAt
            && (users[j].email != email ==> r.users[j] == users[j])
  {
  }

  /** After a login the email finds exactly the row the login answered with. */
  lemma {:induction false} UpsertThenFind(users: seq<User>, nextId: int, name: string, email: string, now: int)
    requires WellKeyed(users, nextId)
    ensures var r := Upsert(users, nextId, name, email, now);
            var f := FindByEmail(r.users, email);
            f.Some? && r.users[f.value] == r.user
  {
    var r := Upsert(users, nextId, name, email, now);
    var f := FindByEmail(r.users, email);
    UpsertKeepsKeys(users, nextId, name, email, now);
    var k :| 0 <= k < |r.users| && r.users[k] == r.user;
    assert r.users[k] in r.users;
  }

  /** Logging in twice with the same name and email changes nothing the second
      time and answers with the same user. */
  lemma {:induction false} UpsertIdempotent(users: seq<User>, nextId: int, name: string, email: string, now: int, later: int)
    requires WellKeyed(users, nextId)
    ensures var r := Upsert(users, nextId, name, email, now);
            var r2 := Upsert(r.users, r.nextId, name, email, later);
            r2 == Upserted(r.users, r.user, r.nextId)
  {
    UpsertThenFind(users, nextId, name, email, now);
  }

  /** Some row of the table has this id: the target of a foreign key. */
  predicate HasId(users: seq<User>, id: int)
  {
    exists u :: u in users && u.id == id
  }

  /** A login never removes a user id, so no booking loses its user. */
  lemma UpsertKeepsIds(users: seq<User>, nextId: int, name: string, email: string, now: int, id: int)
    requires HasId(users, id)
    ensures HasId(Upsert(users, nextId, name, email, now).users, id)
  {
    var r := Upsert(users, nextId, name, email, now);
    var u :| u in users && u.id == id;
    var j :| 0 <= j < |users| && users[j] == u;
    UpsertOnlyRenames(users, nextId, name, email, now, j);
    assert r.users[j] in r.users;
  }
}
