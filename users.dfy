/** The utility bot's user store (`crud/users.py`): reads by id and by
    username, and create, update and upsert, each of which either commits or
    rolls back and re-raises. The table is kept in id order, the order in
    which the database scans a table keyed by an integer primary key. */
module Users {
  import opened Wrappers

  /** A `users` row. Timestamps are minutes; `lang` and `role` always hold a
      value, since the column defaults fill them when None is given. */
  datatype User = User(id: int, firstMessage: int, lastMessage: int, username: Option<string>,
                       firstName: Option<string>, lastName: Option<string>, phoneNumber: Option<string>,
                       lang: string, role: string)

  /** The exceptions the store re-raises after rolling back. */
  datatype StoreError = IntegrityError(id: int) | UserNotFound(id: int)

  const DefaultLang: string := "en"
  const DefaultRole: string := "user"

  predicate IdsIncreasing(users: seq<User>)
  {
    forall i, j :: 0 <= i < j < |users| ==> users[i].id < users[j].id
  }

  /** Index of the first user with this id. */
  function IndexOfUser(users: seq<User>, id: int): (r: Option<nat>)
    ensures r.Some? ==> r.value < |users| && users[r.value].id == id
    ensures r.Some? ==> forall k :: 0 <= k < r.value ==> users[k].id != id
    ensures r.None? <==> forall k :: 0 <= k < |users| ==> users[k].id != id
  {
    if users == [] then None
    else if users[0].id == id then Some(0)
    else
      match IndexOfUser(users[1..], id)
      case None => None
      case Some(k) => Some(k + 1)
  }

  /** `read_user`: the user with this id, or None. */
  function ReadUser(users: seq<User>, id: int): (r: Option<User>)
    ensures r.Some? ==> r.value in users && r.value.id == id
    ensures r.None? <==> forall u :: u in users ==> u.id != id
  {
    match IndexOfUser(users, id)
    case None => None
    case Some(k) => Some(users[k])
  }

  /** `read_user_by_username`: the first user, in scan order, whose username
      equals the given one; a None username matches the users without one
      (`username IS NULL`). */
  function ReadUserByUsername(users: seq<User>, username: Option<string>): (r: Option<User>)
    ensures r.Some? ==> exists k :: 0 <= k < |users| && users[k] == r.value && r.value.username == username
                                    && forall j :: 0 <= j < k ==> users[j].username != username
    ensures r.None? <==> forall u :: u in users ==> u.username != username
  {
    if users == [] then None
    else if users[0].username == username then Some(users[0])
    else
      var r := ReadUserByUsername(users[1..], username);
      assert forall u :: u in users ==> u == users[0] || u in users[1..];
      if r.Some? then
        var k :| 0 <= k < |users[1..]| && users[1..][k] == r.value && r.value.username == username
                 && forall j :: 0 <= j < k ==> users[1..][j].username != username;
        assert users[k + 1] == r.value;
        r
      else r
  }

  /** The user `create_user` builds: both timestamps are `now`, and a None
      language or role becomes the column default. */
  function NewUser(id: int, username: Option<string>, firstName: Option<string>, lastName: Option<string>,
                   phoneNumber: Option<string>, lang: Option<string>, role: Option<string>, now: int): (u: User)
    ensures u.id == id && u.firstMessage == now && u.lastMessage == now
    ensures u.username == username && u.firstName == firstName && u.lastName == lastName
    ensures u.phoneNumber == phoneNumber
    ensures u.lang == (if lang.Some? then lang.value else DefaultLang)
    ensures u.role == (if role.Some? then role.value else DefaultRole)
  {
    User(id, now, now, username, firstName, lastName, phoneNumber, lang.GetOr(DefaultLang), role.GetOr(DefaultRole))
  }

  /** `Some(x)` overwrites, None keeps. */
  function Overwrite<T>(current: T, given: Option<T>): T
  {
    if given.Some? then given.value else current
  }

  /** The user `update_user` leaves behind: each given field overwritten, the
      others kept, and the last-message time refreshed. */
  function Updated(u: User, username: Option<string>, firstName: Option<string>, lastName: Option<string>,
                   phoneNumber: Option<string>, lang: Option<string>, role: Option<string>, now: int): (r: User)
    ensures r.id == u.id && r.firstMessage == u.firstMessage && r.lastMessage == now
    ensures username.None? ==> r.username == u.username
    ensures username.Some? ==> r.username == username
    ensures firstName.None? ==> r.firstName == u.firstName
    ensures firstName.Some? ==> r.firstName == firstName
    ensures lastName.None? ==> r.lastName == u.lastName
    ensures lastName.Some? ==> r.lastName == lastName
    ensures phoneNumber.None? ==> r.phoneNumber == u.phoneNumber
    ensures phoneNumber.Some? ==> r.phoneNumber == phoneNumber
    ensures r.lang == Overwrite(u.lang, lang) && r.role == Overwrite(u.role, role)
  {
    u.(username := if username.Some? then username else u.username,
       firstName := if firstName.Some? then firstName else u.firstName,
       lastName := if lastName.Some? then lastName else u.lastName,
       phoneNumber := if phoneNumber.Some? then phoneNumber else u.phoneNumber,
       lang := Overwrite(u.lang, lang),
       role := Overwrite(u.role, role),
       lastMessage := now)
  }

  /** An update with nothing given only refreshes the last-message time, and
      repeating an update changes nothing more than its first application. */
  lemma UpdatedProperties(u: User, username: Option<string>, firstName: Option<string>, lastName: Option<string>,
                          phoneNumber: Option<string>, lang: Option<string>, role: Option<string>, now: int, later: int)
    ensures Updated(u, None, None, None, None, None, None, now) == u.(lastMessage := now)
    ensures var once := Updated(u, username, firstName, lastName, phoneNumber, lang, role, now);
            Updated(once, username, firstName, lastName, phoneNumber, lang, role, later) == once.(lastMessage := later)
  {
  }

  /** Insert a user at its place in id order. */
  function InsertById(users: seq<User>, u: User): (r: seq<User>)
    ensures |r| == |users| + 1
    ensures multiset(r) == multiset(users) + multiset{u}
  {
    if users == [] then [u]
    else if u.id < users[0].id then [u] + users
    else
      assert users == [users[0]] + users[1..];
      [users[0]] + InsertById(users[1..], u)
  }

  /** Inserting a user whose id is new keeps the store in id order. */
  lemma {:induction false} InsertByIdKeepsOrder(users: seq<User>, u: User)
    requires IdsIncreasing(users) && forall k :: 0 <= k < |users| ==> users[k].id != u.id
    ensures IdsIncreasing(InsertById(users, u))
  {
    if users != [] {
      HeadBelowRest(users);
      if u.id < users[0].id {
        PrependBelow(u, users);
      } else {
        var tail := users[1..];
        assert forall k :: 0 <= k < |tail| ==> tail[k] == users[k + 1];
        InsertByIdKeepsOrder(tail, u);
        InsertByIdMembers(tail, u);
        PrependBelow(users[0], InsertById(tail, u));
      }
    }
  }

  /** In id order the first user's id is below every later one's. */
  lemma HeadBelowRest(users: seq<User>)
    requires IdsIncreasing(users) && users != []
    ensures IdsIncreasing(users[1..])
    ensures forall x :: x in users[1..] ==> users[0].id < x.id
  {
    forall x | x in users[1..] ensures users[0].id < x.id {
      var k :| 0 <= k < |users| - 1 && users[1..][k] == x;
      assert users[k + 1] == x;
    }
  }

  lemma InsertByIdMembers(users: seq<User>, u: User)
    ensures forall x :: x in InsertById(users, u) ==> x in users || x == u
  {
    forall x | x in InsertById(users, u) ensures x in users || x == u {
      assert x in multiset(InsertById(users, u));
    }
  }

  lemma PrependBelow(x: User, users: seq<User>)
    requires IdsIncreasing(users) && forall y :: y in users ==> x.id < y.id
    ensures IdsIncreasing([x] + users)
  {
    var r := [x] + users;
    forall i, j | 0 <= i < j < |r| ensures r[i].id < r[j].id {
      assert r[j] == users[j - 1];
      if i > 0 {
        assert r[i] == users[i - 1];
      }
    }
  }

  /** After an insertion the new user is found by its id, and every other id
      finds what it found before. */
  lemma {:induction false} InsertByIdThenRead(users: seq<User>, u: User, id: int)
    requires IdsIncreasing(users) && ReadUser(users, u.id).None?
    ensures ReadUser(InsertById(users, u), u.id) == Some(u)
    ensures id != u.id ==> ReadUser(InsertById(users, u), id) == ReadUser(users, id)
  {
    if users == [] {
      ReadUserCons(u, [], u.id);
    } else if u.id < users[0].id {
      ReadUserCons(u, users, u.id);
      ReadUserCons(u, users, id);
    } else {
      var rest := users[1..];
      assert users == [users[0]] + rest;
      ReadUserCons(users[0], rest, u.id);
      ReadUserCons(users[0], rest, id);
      InsertByIdThenRead(rest, u, id);
      assert InsertById(users, u) == [users[0]] + InsertById(rest, u);
      ReadUserCons(users[0], InsertById(rest, u), u.id);
      ReadUserCons(users[0], InsertById(rest, u), id);
    }
  }

  /** Reading from a store with a user in front. */
  lemma ReadUserCons(x: User, users: seq<User>, id: int)
    ensures ReadUser([x] + users, id) == if x.id == id then Some(x) else ReadUser(users, id)
  {
    assert ([x] + users)[1..] == users;
  }

  /** The number of users with this id. */
  function CountId(users: seq<User>, id: int): nat
  {
    if users == [] then 0 else (if users[0].id == id then 1 else 0) + CountId(users[1..], id)
  }

  /** In a store in id order every id occurs at most once, and exactly once
      when it can be read. */
  lemma {:induction false} CountIdInIdOrder(users: seq<User>, id: int)
    requires IdsIncreasing(users)
    ensures CountId(users, id) == (if ReadUser(users, id).Some? then 1 else 0)
  {
    if users != [] {
      CountIdInIdOrder(users[1..], id);
      assert users == [users[0]] + users[1..];
      if users[0].id == id {
        assert ReadUser(users[1..], id).None? by {
          forall u | u in users[1..] ensures u.id != id {
            var k :| 0 <= k < |users[1..]| && users[1..][k] == u;
            assert users[k + 1] == u;
          }
        }
      }
    }
  }

  class UserStore {
    var users: seq<User>

    ghost predicate Valid()
      reads this
    {
      IdsIncreasing(users)
    }

    constructor ()
      ensures Valid() && users == []
    {
      users := [];
    }

    /** `create_user`: insert a new user; an id already present violates the
      primary key, and the store is rolled back unchanged. */
    method CreateUser(id: int, username: Option<string>, firstName: Option<string>, lastName: Option<string>,
                      phoneNumber: Option<string>, lang: Option<string>, role: Option<string>, now: int)
      returns (r: Result<User, StoreError>)
      requires Valid()
      modifies this
      ensures Valid()
      ensures ReadUser(old(users), id).Some? ==> r == Failure(IntegrityError(id)) && users == old(users)
      ensures ReadUser(old(users), id).None? ==>
                && r == Success(NewUser(id, username, firstName, lastName, phoneNumber, lang, role, now))
                && users == InsertById(old(users), r.value)
                && ReadUser(users, id) == Some(r.value)
                && forall other :: other != id ==> ReadUser(users, other) == ReadUser(old(users), other)
    {
      if ReadUser(users, id).Some? {
        return Failure(IntegrityError(id));
      }
      var u := NewUser(id, username, firstName, lastName, phoneNumber, lang, role, now);
      forall other | true
        ensures ReadUser(InsertById(users, u), other) == (if other == id then Some(u) else ReadUser(users, other))
      {
        InsertByIdThenRead(users, u, other);
      }
      InsertByIdKeepsOrder(users, u);
      users := InsertById(users, u);
      r := Success(u);
    }

    /** `update_user`: overwrite the given fields of the user with this id and
      refresh its last-message time; an unknown id raises ValueError, and the
      store is rolled back unchanged. No other user changes. */
    method UpdateUser(id: int, username: Option<string>, firstName: Option<string>, lastName: Option<string>,
                      phoneNumber: Option<string>, lang: Option<string>, role: Option<string>, now: int)
      returns (r: Result<User, StoreError>)
      requires Valid()
      modifies this
      ensures Valid()
      ensures IndexOfUser(old(users), id).None? ==> r == Failure(UserNotFound(id)) && users == old(users)
      ensures IndexOfUser(old(users), id).Some? ==>
                var k := IndexOfUser(old(users), id).value;
                && r == Success(Updated(old(users)[k], username, firstName, lastName, phoneNumber, lang, role, now))
                && users == old(users)[k := r.value]
    {
      match IndexOfUser(users, id)
      case None =>
        r := Failure(UserNotFound(id));
      case Some(k) =>
        var u := Updated(users[k], username, firstName, lastName, phoneNumber, lang, role, now);
        users := users[k := u];
        r := Success(u);
    }

    /** `upsert_user`: update the user when the id is present, create it
      otherwise (the phone number is never passed). It cannot fail, and
      afterwards the id is in the store exactly once. */
    method UpsertUser(id: int, username: Option<string>, firstName: Option<string>, lastName: Option<string>,
                      lang: Option<string>, role: Option<string>, now: int)
      returns (r: Result<User, StoreError>)
      requires Valid()
      modifies this
      ensures Valid()
      ensures r.Success? && r.value.id == id && ReadUser(users, id) == Some(r.value)
      ensures CountId(users, id) == 1
      ensures IndexOfUser(old(users), id).Some? ==>
                var k := IndexOfUser(old(users), id).value;
                && r.value == Updated(old(users)[k], username, firstName, lastName, None, lang, role, now)
                && users == old(users)[k := r.value]
      ensures IndexOfUser(old(users), id).None? ==>
                && r.value == NewUser(id, username, firstName, lastName, None, lang, role, now)
                && users == InsertById(old(users), r.value)
    {
      if IndexOfUser(users, id).Some? {
        ghost var k := IndexOfUser(users, id).value;
        r := UpdateUser(id, username, firstName, lastName, None, lang, role, now);
        UpdatedStillFound(old(users), k, r.value);
      } else {
        r := CreateUser(id, username, firstName, lastName, None, lang, role, now);
      }
      CountIdInIdOrder(users, id);
    }
  }

  /** Replacing a user by one with the same id keeps the id order and makes
      the lookup find the replacement. */
  lemma UpdatedStillFound(users: seq<User>, k: nat, u: User)
    requires IdsIncreasing(users) && k < |users| && u.id == users[k].id
    ensures IdsIncreasing(users[k := u])
    ensures ReadUser(users[k := u], u.id) == Some(u)
  {
    var after := users[k := u];
    assert IndexOfUser(after, u.id) == Some(k) by {
      forall j | 0 <= j < k ensures after[j].id != u.id {
        assert users[j].id < users[k].id;
      }
      IndexOfUserIsFirst(after, u.id, k);
    }
  }

  lemma IndexOfUserIsFirst(users: seq<User>, id: int, k: nat)
    requires k < |users| && users[k].id == id && forall j :: 0 <= j < k ==> users[j].id != id
    ensures IndexOfUser(users, id) == Some(k)
  {
    assert IndexOfUser(users, id).Some?;
  }
}
