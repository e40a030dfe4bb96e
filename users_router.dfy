/**
 * The /users handlers: the full user list, one user, a user's chats, and the
 * caller's partial self-update.
 */
module UsersRouter {
  import opened Wrappers
  import opened Entities
  import opened Sorting
  import opened Database
  import opened Listings

  /** `get_users`: every user, sorted by id, counted. */
  method GetUsers(db: Store) returns (col: UserCollection)
    requires db.Valid()
    ensures UserListing(col, AllUsers(db.users))
    ensures col.meta.count == |db.users|
  {
    col := ListUsers(AllUsers(db.users));
    assert |multiset(col.users)| == |multiset(UsersFromDb(AllUsers(db.users)))|;
  }

  /** Every stored user appears in the list, and nothing else does. */
  lemma GetUsersListsEveryUser(col: UserCollection, users: map<int, UserInDb>, u: User)
    requires UsersKeyed(users) && UserListing(col, AllUsers(users))
    ensures u in col.users <==> exists k :: k in users && u == UserFromDb(users[k])
  {
    UserListingHoldsExactly(col, AllUsers(users), u);
    if exists k :: k in users && u == UserFromDb(users[k]) {
      var k :| k in users && u == UserFromDb(users[k]);
      assert users[k] in users.Values;
    }
  }

  /** With unique ids, the users of the list come in strictly ascending id order. */
  lemma GetUsersIdsAscend(col: UserCollection, users: map<int, UserInDb>)
    requires UsersKeyed(users) && UserListing(col, AllUsers(users))
    ensures forall i, j :: 0 <= i < j < |col.users| ==> col.users[i].id < col.users[j].id
  {
    var out := UsersFromDb(AllUsers(users));
    forall i, j | 0 <= i < j < |col.users| ensures col.users[i].id < col.users[j].id {
      NoRepeatedId(col.users, out, i, j);
    }
  }

  /** A sorted permutation of a list with ascending ids cannot hold one id at two positions. */
  lemma NoRepeatedId(s: seq<User>, out: seq<User>, i: int, j: int)
    requires forall a, b :: 0 <= a < b < |out| ==> out[a].id < out[b].id
    requires multiset(s) == multiset(out)
    requires SortedBy(s, UserById)
    requires 0 <= i < j < |s|
    ensures s[i].id < s[j].id
  {
    assert UserById(s[i], s[j]);
    assert s[i] in multiset(out) && s[j] in multiset(out);
    IdDeterminesEntry(out, s[i], s[j]);
    SameEntryTwice(s, i, j);
    DistinctIdsOccurOnce(out, s[i]);
  }

  /** In a list with ascending ids, an id names at most one entry. */
  lemma IdDeterminesEntry(out: seq<User>, x: User, y: User)
    requires forall a, b :: 0 <= a < b < |out| ==> out[a].id < out[b].id
    ensures x in out && y in out && x.id == y.id ==> x == y
  {
  }

  /** The public views of the users table carry each id once, so each view occurs once. */
  lemma {:induction false} DistinctIdsOccurOnce(out: seq<User>, u: User)
    requires forall i, j :: 0 <= i < j < |out| ==> out[i].id < out[j].id
    ensures multiset(out)[u] <= 1
  {
    if out != [] {
      assert out == [out[0]] + out[1..];
      DistinctIdsOccurOnce(out[1..], u);
      if out[0] == u {
        assert u !in out[1..];
      }
    }
  }

  /** An entry found at two positions occurs at least twice. */
  lemma SameEntryTwice(s: seq<User>, i: int, j: int)
    requires 0 <= i < j < |s|
    ensures s[i] == s[j] ==> multiset(s)[s[i]] >= 2
  {
    assert s == s[..i] + [s[i]] + s[i + 1..j] + [s[j]] + s[j + 1..];
  }

  /** `get_user`: the user's public view, or a 404 naming the user. */
  method GetUser(db: Store, userId: int) returns (r: Result<User, HttpError>)
    requires db.Valid()
    ensures r.Ok? <==> userId in db.users
    ensures r.Ok? ==> r.value == UserFromDb(db.users[userId]) && r.value.id == userId
    ensures r.Err? ==> r.error == EntityNotFound("User", userId)
  {
    var found := db.GetUserById(userId);
    match found
    case Ok(row) => return Ok(UserFromDb(row));
    case Err(_) => return Err(EntityNotFound("User", userId));
  }

  /** `get_user_chats`: a presence test, then the user's chats sorted by name and counted. */
  method GetUserChats(db: Store, userId: int) returns (r: Result<ChatCollection, HttpError>)
    requires db.Valid()
    ensures userId !in db.users ==> r == Err(EntityNotFound("User", userId))
    ensures userId in db.users ==>
      var mine := ChatsWithMember(AllChats(db.chats), db.links, userId);
      && (r.Err? <==> !OwnersPresent(mine, db.users))
      && (r.Err? ==> r.error == InternalError)
      && (r.Ok? ==> OwnersPresent(mine, db.users) && ChatListing(r.value, mine, db.users))
  {
    var present := db.GetUserById(userId);
    if present.Err? {
      return Err(EntityNotFound("User", userId));
    }
    var chats := db.GetUserChats(userId);
    match chats
    case Ok(rows) => r := ListChats(rows, db.users);
    case Err(_) => return Err(EntityNotFound("User", userId));
  }

  /** The caller's row with the provided fields of the update written over it. */
  function ApplyUserUpdate(row: UserInDb, update: UserUpdate): (r: UserInDb)
    ensures r.(username := row.username, email := row.email) == row
    ensures update.username.Some? ==> r.username == update.username.value
    ensures update.username.None? ==> r.username == row.username
    ensures update.email.Some? ==> r.email == update.email.value
    ensures update.email.None? ==> r.email == row.email
  {
    var named := if update.username.Some? then row.(username := update.username.value) else row;
    if update.email.Some? then named.(email := update.email.value) else named
  }

  /** An update that provides no field leaves the row as it was. */
  lemma EmptyUpdateKeepsRow(row: UserInDb)
    ensures ApplyUserUpdate(row, UserUpdate(None, None)) == row
  {
  }

  /**
   * `update_self`: write the provided fields over the caller's row and
   * commit. A username or email another user holds fails the commit, which
   * no handler catches.
   */
  method UpdateSelf(db: Store, user: UserInDb, update: UserUpdate) returns (r: Result<User, HttpError>)
    requires db.Valid() && db.HasRow(user)
    modifies db
    ensures db.Valid()
    ensures db.chats == old(db.chats) && db.messages == old(db.messages) && db.links == old(db.links)
    ensures r.Ok? <==> old(db.NoClash(ApplyUserUpdate(user, update)))
    ensures r.Err? ==> r.error == InternalError && db.users == old(db.users)
    ensures r.Ok? ==> db.users == old(db.users)[user.id := ApplyUserUpdate(user, update)]
    ensures r.Ok? ==> r.value == UserFromDb(ApplyUserUpdate(user, update))
  {
    var row := user;
    if update.username.Some? {
      row := row.(username := update.username.value);
    }
    if update.email.Some? {
      row := row.(email := update.email.value);
    }
    var e := db.SaveUser(row);
    if e.Some? {
      return Err(InternalError);
    }
    return Ok(UserFromDb(row));
  }
}
