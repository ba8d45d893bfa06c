/** `read_username`: the second step of the "add admin" dialog. The text an
    admin typed is looked up as a username, exactly as typed; the reply is
    one of three, and only the last one changes the store. */
module GrantAdmin {
  import opened Wrappers
  import opened Users

  const AdminRole: string := "admin"

  /** The three replies. `typed` is the message text as it was looked up; a
      message without text (a sticker, a photo) looks up the users whose
      username is NULL. */
  datatype GrantOutcome =
    | NoSuchUsername(typed: Option<string>)
    | AlreadyAdmin(typed: Option<string>)
    | Granted(id: int, username: Option<string>)

  /** Index of the first user whose username is the typed one. */
  function IndexOfUsername(users: seq<User>, username: Option<string>): (r: Option<nat>)
    ensures r.Some? ==> r.value < |users| && users[r.value].username == username
    ensures r.Some? ==> forall j :: 0 <= j < r.value ==> users[j].username != username
    ensures r.None? <==> ReadUserByUsername(users, username).None?
    ensures r.Some? ==> ReadUserByUsername(users, username) == Some(users[r.value])
  {
    if users == [] then None
    else if users[0].username == username then Some(0)
    else
      assert users == [users[0]] + users[1..];
      match IndexOfUsername(users[1..], username)
      case None => None
      case Some(k) => Some(k + 1)
  }

  /** What a grant leaves in place of the user: the role is "admin" and the
      last-message time is refreshed; the id, the username, the names, the
      phone number, the language and the first-message time are kept. */
  function AsAdmin(u: User, now: int): (r: User)
    ensures r.role == AdminRole && r.lastMessage == now
    ensures r.id == u.id && r.username == u.username && r.firstName == u.firstName && r.lastName == u.lastName
    ensures r.phoneNumber == u.phoneNumber && r.lang == u.lang && r.firstMessage == u.firstMessage
  {
    Updated(u, u.username, None, None, None, None, Some(AdminRole), now)
  }

  /** `read_username`. Unknown username: not-found reply, store unchanged.
      First match already an admin: that reply, store unchanged. Otherwise
      the first match is upserted with its own username and the admin role,
      which updates it in place and touches no other user. */
  method ReadUsername(store: UserStore, text: Option<string>, now: int) returns (outcome: GrantOutcome)
    requires store.Valid()
    modifies store
    ensures store.Valid()
    ensures ReadUserByUsername(old(store.users), text).None? ==>
              outcome == NoSuchUsername(text) && store.users == old(store.users)
    ensures ReadUserByUsername(old(store.users), text).Some? ==>
              var u := ReadUserByUsername(old(store.users), text).value;
              if u.role == AdminRole then
                outcome == AlreadyAdmin(text) && store.users == old(store.users)
              else
                && outcome == Granted(u.id, u.username)
                && var k := IndexOfUsername(old(store.users), text).value;
                   store.users == old(store.users)[k := AsAdmin(u, now)]
  {
    var found := IndexOfUsername(store.users, text);
    if found.None? {
      return NoSuchUsername(text);
    }
    var k := found.value;
    var u := store.users[k];
    if u.role == AdminRole {
      return AlreadyAdmin(text);
    }
    FoundByIdToo(store.users, k);
    var r := store.UpsertUser(u.id, u.username, None, None, None, Some(AdminRole), now);
    outcome := Granted(u.id, u.username);
  }

  /** In a store in id order the user at index k is the one its id finds. */
  lemma FoundByIdToo(users: seq<User>, k: nat)
    requires IdsIncreasing(users) && k < |users|
    ensures IndexOfUser(users, users[k].id) == Some(k)
  {
    forall j | 0 <= j < k ensures users[j].id != users[k].id {
      assert users[j].id < users[k].id;
    }
    IndexOfUserIsFirst(users, users[k].id, k);
  }

  /** After a grant the same username still finds the same user, now an
      admin, so asking again gives the already-admin reply and changes
      nothing. */
  lemma {:induction false} GrantThenAlreadyAdmin(users: seq<User>, text: Option<string>, now: int)
    requires IndexOfUsername(users, text).Some?
    ensures var k := IndexOfUsername(users, text).value;
            var after := users[k := AsAdmin(users[k], now)];
            && ReadUserByUsername(after, text) == Some(AsAdmin(users[k], now))
            && ReadUserByUsername(after, text).value.role == AdminRole
  {
    var k := IndexOfUsername(users, text).value;
    var after := users[k := AsAdmin(users[k], now)];
    forall j | 0 <= j < k ensures after[j].username != text {
      assert after[j] == users[j];
    }
    FirstUsernameMatch(after, text, k);
  }

  lemma FirstUsernameMatch(users: seq<User>, username: Option<string>, k: nat)
    requires k < |users| && users[k].username == username
    requires forall j :: 0 <= j < k ==> users[j].username != username
    ensures IndexOfUsername(users, username) == Some(k)
  {
    assert IndexOfUsername(users, username).Some?;
  }
  /** A message without text looks up the users without a username. In a
      store holding one such user who is not an admin, that user is found, so
      `ReadUsername` grants the admin role to a user nobody named. */
  lemma TextlessMessageFindsUnnamedUser(u: User)
    requires u.username.None? && u.role != AdminRole
    ensures ReadUserByUsername([u], None) == Some(u)
    ensures IndexOfUsername([u], None) == Some(0)
  {
    FirstUsernameMatch([u], None, 0);
  }

  /** `read_username` with the evidently intended guard: a message without
      text names nobody, so nothing is granted and the store is unchanged;
      any text is handled as by `ReadUsername`. Only a user whose username is
      exactly the typed text can be granted. */
  method ReadUsernameGuarded(store: UserStore, text: Option<string>, now: int) returns (outcome: GrantOutcome)
    requires store.Valid()
    modifies store
    ensures store.Valid()
    ensures text.None? ==> outcome == NoSuchUsername(None) && store.users == old(store.users)
    ensures outcome.Granted? ==> text.Some? && outcome.username == text
    ensures outcome.Granted? ==> exists u :: u in old(store.users) && u.id == outcome.id && u.username == text
                                             && u.role != AdminRole
    ensures text.Some? && ReadUserByUsername(old(store.users), text).None? ==>
              outcome == NoSuchUsername(text) && store.users == old(store.users)
    ensures text.Some? && ReadUserByUsername(old(store.users), text).Some? ==>
              var u := ReadUserByUsername(old(store.users), text).value;
              if u.role == AdminRole then
                outcome == AlreadyAdmin(text) && store.users == old(store.users)
              else
                && outcome == Granted(u.id, u.username)
                && var k := IndexOfUsername(old(store.users), text).value;
                   store.users == old(store.users)[k := AsAdmin(u, now)]
  {
    if text.None? {
      return NoSuchUsername(None);
    }
    outcome := ReadUsername(store, text, now);
  }
}
